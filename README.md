# no-document-domain, modelled in Dafny

This project models the `no-document-domain` rule of tslint-microsoft-contrib. The rule walks
the syntax tree of a TypeScript source file. For every binary expression, it checks whether
the expression is a plain `=` assignment whose left operand is the property access
`document.domain` or `window.document.domain`. The check compares source text, not meaning.
Each match is recorded as a failure. The failure has the expression's start and width, and its
message is `Forbidden write to document.domain: ` followed by the expression's trimmed full text.
Matched or not, the walker then goes on into the expression's operands.

Modules:

- `Syntax` (`syntax.dfy`): the syntax node as a datatype. It has three constructors:
  binary expression, property access, and any other node. The values the TypeScript node API
  computes (`getText`, `getFullText`, `getStart`, `getWidth`, the operator token's text) are
  fields. `Encloses` is the "is this node or one nested in it" relation.
- `JsString` (`js_string.dfy`): ECMAScript's `String.prototype.trim`. It removes the
  WhiteSpace and LineTerminator code points of ECMA-262 (sections 12.2 and 12.3) from both ends.
- `NoDocumentDomainRule` (`no_document_domain_rule.dfy`): the rule's test
  (`IsDocumentDomainProperty`, `IsForbiddenWrite`), the failure it builds, and `Walk`. `Walk`
  gives the failures of a whole tree in visit order. This module also holds the walker class.
  `NoDocumentDomainRuleWalker` keeps the `failures` sequence. Its `VisitBinaryExpression`
  appends to that sequence and then visits the children. Every visit method is proved to leave
  `failures == old(failures) + Walk(node)`. So the failure list only grows, by appending.
  The tree is an immutable value, so a visit cannot change it.

The reported span comes from `getStart()` and `getWidth()`, which leave out the node's
leading trivia, so it starts at the first token of the expression. The message uses the
full text, trimmed.

## Model

| member | source | states |
|---|---|---|
| `NoDocumentDomainRule.IsDocumentDomainProperty` | src/noDocumentDomainRule.ts:44-51 | a property access whose name is not exactly `domain` never matches; a match has object text exactly `document` or `window.document` |
| `NoDocumentDomainRule.DocumentDomainPropertyByPath` | src/noDocumentDomainRule.ts:44-51 | for an identifier name (no dot), the predicate holds iff the dotted path `object.name` is `document.domain` or `window.document.domain` |
| `NoDocumentDomainRule.IsForbiddenWrite` | src/noDocumentDomainRule.ts:35-37 | a match needs the operator text exactly `=` (so `+=` never matches), a property-access left operand, and the name `domain` |
| `NoDocumentDomainRule.ForbiddenWriteByPath` | src/noDocumentDomainRule.ts:35-37 | a binary expression matches iff it is a plain `=` whose left operand is a property access spelling one of the two forbidden paths |
| `NoDocumentDomainRule.FailureOf` | src/noDocumentDomainRule.ts:26-39 | the failure has the node's start and width; its message is exactly `FAILURE_STRING` (the constant `FailureString`, `'Forbidden write to document.domain: '`, line 26) followed by the node's trimmed full text |
| `NoDocumentDomainRule.FailuresAt` | src/noDocumentDomainRule.ts:35-40 | at most one failure per binary expression; exactly one iff the operator is `=`, the left operand is a property access named `domain` and its object text is `document` or `window.document`; that failure has the node's start and width |
| `NoDocumentDomainRule.Walk` | src/noDocumentDomainRule.ts:34-42 | every failure collected from a tree has a message that starts with the prefix and continues with text that has no whitespace at either end |
| `NoDocumentDomainRule.WalkChildren` | src/noDocumentDomainRule.ts:41 | the same message property for the failures collected from a node's children |
| `NoDocumentDomainRule.WalkAll` | src/noDocumentDomainRule.ts:41 | the same message property for the failures collected from a run of sibling nodes |
| `NoDocumentDomainRule.WalkAllConcat` | src/noDocumentDomainRule.ts:41 | visiting two runs of siblings collects the first run's failures, then the second run's |
| `NoDocumentDomainRule.WalkHoldsSubtree` | src/noDocumentDomainRule.ts:34-42 | no subtree is skipped: the failures of any enclosed node occur as one contiguous run among the failures of the enclosing node |
| `NoDocumentDomainRule.WalkComplete` | src/noDocumentDomainRule.ts:34-42 | every forbidden write anywhere in the tree, nested ones included, has its failure in the result |
| `NoDocumentDomainRule.WalkSound` | src/noDocumentDomainRule.ts:34-42 | every failure in the result is the failure of some forbidden write in the tree |
| `NoDocumentDomainRule.NoPlainAssignmentNoFailure` | src/noDocumentDomainRule.ts:35 | a tree without any plain `=` binary expression (only compound operators, say) yields no failure at all |
| `NoDocumentDomainRule.WalkOfForbiddenWrite` | src/noDocumentDomainRule.ts:35-41 | a forbidden write's failure comes first, then the left operand's failures, then the right operand's |
| `NoDocumentDomainRule.NestedAfterEnclosing` | src/noDocumentDomainRule.ts:34-42 | a forbidden write's own failure comes first in its walk, and the failure of each forbidden write nested in it comes later |
| `NoDocumentDomainRule.ParentBeforeNested` | src/noDocumentDomainRule.ts:34-42 | anywhere in a tree, an enclosing forbidden write is reported at an earlier position than a forbidden write nested in it |
| `NoDocumentDomainRule.DocumentDomainAssignmentReported` | src/noDocumentDomainRule.ts:35-39 | an indented `document.domain = "example.com"` yields exactly one failure, with the expression's span and the prefixed, trimmed text |
| `NoDocumentDomainRule.CompoundAssignmentNotReported` | src/noDocumentDomainRule.ts:35 | `document.domain += "x"` yields no failure |
| `NoDocumentDomainRule.AliasNotReported` | src/noDocumentDomainRule.ts:48-49 | `d.domain = "x"` yields no failure: the object is compared by text, so an alias of `document` is not detected |
| `NoDocumentDomainRule.NoDocumentDomainRuleWalker.constructor` | src/noDocumentDomainRule.ts:33 | a new walker has no failures |
| `NoDocumentDomainRule.NoDocumentDomainRuleWalker.AddFailure` | src/noDocumentDomainRule.ts:39 | the failure is appended after those already recorded |
| `NoDocumentDomainRule.NoDocumentDomainRuleWalker.VisitBinaryExpression` | src/noDocumentDomainRule.ts:34-42 | afterwards the failure list is the old list followed by `Walk(node)`: this node's failure if it matches, then the failures from its children, visited whether or not it matched |
| `NoDocumentDomainRule.NoDocumentDomainRuleWalker.Visit` | src/noDocumentDomainRule.ts:33-42 | for any node, the failure list grows by exactly `Walk(node)` |
| `NoDocumentDomainRule.NoDocumentDomainRuleWalker.VisitChildren` | src/noDocumentDomainRule.ts:41 | the children are visited in source order, and the list grows by their failures in that order |
| `NoDocumentDomainRule.Apply` | src/noDocumentDomainRule.ts:28-30 | a fresh walker over the file returns exactly `Walk(sourceFile)`, so two runs over the same tree give the same failures; every message is well formed |
| `JsString.TrimStart` | src/noDocumentDomainRule.ts:38 | the result is a suffix of the input; everything dropped is whitespace; the result does not start with whitespace |
| `JsString.TrimEnd` | src/noDocumentDomainRule.ts:38 | the result is a prefix of the input; everything dropped is whitespace; the result does not end with whitespace |
| `JsString.Trim` | src/noDocumentDomainRule.ts:38 | the trimmed text is no longer than the input and starts and ends with a non-whitespace character |
| `JsString.TrimStartAt` | src/noDocumentDomainRule.ts:38 | trimming the start stops at the first non-whitespace character and nowhere else |
| `JsString.TrimEndAt` | src/noDocumentDomainRule.ts:38 | trimming the end stops after the last non-whitespace character and nowhere else |
| `JsString.TrimUnique` | src/noDocumentDomainRule.ts:38 | the trimmed text is the one slice that has only whitespace outside it and non-whitespace at both of its ends |
| `JsString.TrimIdempotent` | src/noDocumentDomainRule.ts:38 | trimming twice gives the same result as trimming once |

## Left out

- The TypeScript parser and the `ts` node API. The node's text, full text, start, width and operator text are fields of `Syntax.Node`. They are not computed from a source string.
- Node kinds other than binary expressions and property accesses become `Other`, which has a list of children. The operator token and the name identifier of a property access are not child nodes in the model, because they never hold a binary expression.
- The rule's `metadata` record. It is inert configuration. Its "list of allowed sites" wording is implemented nowhere, and the model forbids every such write, as the code does.
- NoDocumentDomainRule.NoDocumentDomainRuleWalker.AddFailure: appends every failure unconditionally. The framework's `addFailure` also drops a failure equal to one already recorded, drops one that falls in a range switched off by a `tslint:disable` comment, and `createFailure` clamps the span to the file's width; none of these is modelled. The duplicate check cannot fire on a real tree, because two distinct binary expressions never share a span. On model trees that repeat a node value (`Other("", [b, b])`), the model reports the failure twice. Suppression by disable comments does change the rule's output in practice, and the model does not capture it.
- `Rule` as a subclass of the framework's `AbstractRule`, plus `getOptions` and the reporting pipeline that receives the failures. `Apply` models only the walk and the list it returns. The severity and category fields of a reported failure come from the framework and are not modelled.
- The error-tolerant base walker's exception containment. The model's traversal is a total recursion and cannot throw, so there is nothing to contain. The base walker's visit order is modelled as pre-order: a binary expression first, then its left and right operands; any other node's children in source order.
- The `SyntaxKind.current()` version lookup. It is replaced by a test on the datatype constructor.
- Ordering by source offset: the model does not tie the children's spans to their parent's, so "failures come in ascending source position" is not stated. What is proved instead is the visit order: a parent comes before the nodes nested in it, and siblings come in source order.
- `JsString.IsTrimmable` lists the Unicode space separators explicitly. Later Unicode versions could add more.
