/** The no-document-domain lint rule: every plain assignment to `document.domain` or
    `window.document.domain` in a source file is reported as a failure. */
module NoDocumentDomainRule {
  import opened Syntax
  import opened JsString

  /** The prefix of every failure message. */
  const FailureString: string := "Forbidden write to document.domain: "

  /** A reported failure: the span of the offending expression and the message. */
  datatype RuleFailure = RuleFailure(start: nat, width: nat, message: string)

  /** The two property paths whose assignment the rule forbids. */
  const ForbiddenPaths: set<string> := {"document.domain", "window.document.domain"}

  /** The dotted path `expression.name` that a property access spells out. */
  function AccessPath(node: Node): string
    requires node.PropertyAccess?
  {
    node.expression.text + "." + node.name
  }

  /** Whether a property access reads `domain` of `document` or of `window.document`,
      compared by source text only. */
  function IsDocumentDomainProperty(node: Node): (b: bool)
    requires node.PropertyAccess?
    ensures node.name != "domain" ==> !b
    ensures b ==> node.expression.text in {"document", "window.document"}
  {
    if node.name != "domain" then
      false
    else
      node.expression.text == "document" || node.expression.text == "window.document"
  }

  /** Whether visitBinaryExpression reports `node`: a plain `=` whose left operand is a
      property access to document.domain. */
  function IsForbiddenWrite(node: Node): (b: bool)
    requires node.Binary?
    ensures b ==> node.operator == "="
    ensures !node.left.PropertyAccess? ==> !b
    ensures b ==> node.left.name == "domain"
  {
    node.operator == "=" && node.left.PropertyAccess? && IsDocumentDomainProperty(node.left)
  }

  /** The failure recorded for a forbidden write: the node's span, and the message
      prefix followed by the node's trimmed full text. */
  function FailureOf(node: Node): (f: RuleFailure)
    requires node.Binary?
    ensures f.start == node.start && f.width == node.width
    ensures |FailureString| <= |f.message| && f.message[..|FailureString|] == FailureString
    ensures f.message[|FailureString|..] == Trim(node.fullText)
  {
    RuleFailure(node.start, node.width, FailureString + Trim(node.fullText))
  }

  /** What visitBinaryExpression adds for `node` itself, before visiting its operands. */
  function FailuresAt(node: Node): (r: seq<RuleFailure>)
    requires node.Binary?
    ensures |r| <= 1
    ensures |r| == 1 <==> node.operator == "=" && node.left.PropertyAccess?
                          && node.left.name == "domain"
                          && node.left.expression.text in {"document", "window.document"}
    ensures |r| == 1 ==> r[0].start == node.start && r[0].width == node.width
  {
    if IsForbiddenWrite(node) then [FailureOf(node)] else []
  }

  /** A failure message that is the prefix followed by trimmed text. */
  predicate WellFormedMessage(message: string)
  {
    && |FailureString| <= |message|
    && message[..|FailureString|] == FailureString
    && var rest := message[|FailureString|..];
       rest == [] || (!IsTrimmable(rest[0]) && !IsTrimmable(rest[|rest| - 1]))
  }

  /** The failures the walker adds while visiting `node` and everything beneath it, in
      visit order: a binary expression is checked before its children are visited. */
  function Walk(node: Node): (r: seq<RuleFailure>)
    ensures forall f <- r :: WellFormedMessage(f.message)
    decreases node, 1
  {
    (if node.Binary? then FailuresAt(node) else []) + WalkChildren(node)
  }

  /** The failures from visiting the children of `node`, in source order: the operands of
      a binary expression, the object of a property access, the children of any other node. */
  function WalkChildren(node: Node): (r: seq<RuleFailure>)
    ensures forall f <- r :: WellFormedMessage(f.message)
    decreases node, 0
  {
    match node
    case Binary(_, lhs, rhs, _, _, _, _) => Walk(lhs) + Walk(rhs)
    case PropertyAccess(e, _, _) => Walk(e)
    case Other(_, cs) => WalkAll(cs)
  }

  /** The failures from visiting `nodes` one after the other. */
  function WalkAll(nodes: seq<Node>): (r: seq<RuleFailure>)
    ensures forall f <- r :: WellFormedMessage(f.message)
    decreases nodes, 2
  {
    if nodes == [] then [] else Walk(nodes[0]) + WalkAll(nodes[1..])
  }

  /** `part` occurs in `whole` as a contiguous run starting at index `i`. */
  predicate InfixAt(part: seq<RuleFailure>, whole: seq<RuleFailure>, i: int)
  {
    0 <= i && i + |part| <= |whole| && whole[i..i + |part|] == part
  }

  /** A run inside a run inside `c` is a run inside `c`, at the summed offset. */
  lemma InfixAtTransitive(a: seq<RuleFailure>, b: seq<RuleFailure>, c: seq<RuleFailure>, i: int, j: int)
    requires InfixAt(a, b, i) && InfixAt(b, c, j)
    ensures InfixAt(a, c, j + i)
  {
    forall t | 0 <= t < |a| ensures c[j + i + t] == a[t] {
      assert c[j + i + t] == c[j..j + |b|][i + t] == b[i + t] == b[i..i + |a|][t];
    }
    assert c[j + i..j + i + |a|] == a;
  }

  /** Visiting two runs of nodes one after the other visits each run in turn. */
  lemma {:induction false} WalkAllConcat(a: seq<Node>, b: seq<Node>)
    ensures WalkAll(a + b) == WalkAll(a) + WalkAll(b)
    decreases a
  {
    if a != [] {
      assert (a + b)[1..] == a[1..] + b;
      WalkAllConcat(a[1..], b);
    } else {
      assert a + b == b;
    }
  }

  /** The walk of a run of nodes holds the walk of each of them, in place. */
  lemma WalkAllHoldsEach(nodes: seq<Node>, k: int)
    requires 0 <= k < |nodes|
    ensures InfixAt(Walk(nodes[k]), WalkAll(nodes), |WalkAll(nodes[..k])|)
  {
    assert nodes == nodes[..k] + [nodes[k]] + nodes[k + 1..];
    WalkAllConcat(nodes[..k] + [nodes[k]], nodes[k + 1..]);
    WalkAllConcat(nodes[..k], [nodes[k]]);
    assert [nodes[k]][1..] == [];
  }

  /** Every failure in the walk of a run of nodes comes from the walk of one of them. */
  lemma {:induction false} WalkAllFromOne(nodes: seq<Node>, f: RuleFailure)
    requires f in WalkAll(nodes)
    ensures exists k :: 0 <= k < |nodes| && f in Walk(nodes[k])
    decreases nodes
  {
    if f !in Walk(nodes[0]) {
      WalkAllFromOne(nodes[1..], f);
      var k :| 0 <= k < |nodes[1..]| && f in Walk(nodes[1..][k]);
      assert nodes[1..][k] == nodes[k + 1];
    }
  }

  /** A binary expression's own failures come first, then its left operand's and its
      right operand's. */
  lemma WalkOfBinary(b: Node)
    requires b.Binary?
    ensures Walk(b) == FailuresAt(b) + Walk(b.left) + Walk(b.right)
  {
  }

  /** A forbidden write is reported, then its left operand and its right operand are walked. */
  lemma WalkOfForbiddenWrite(b: Node)
    requires b.Binary? && IsForbiddenWrite(b)
    ensures Walk(b) == [FailureOf(b)] + Walk(b.left) + Walk(b.right)
  {
  }

  /** Visiting never skips a subtree: the failures from any enclosed node appear, as one
      contiguous run, among the failures from the enclosing node. */
  lemma {:induction false} WalkHoldsSubtree(root: Node, d: Node)
    requires Encloses(root, d)
    ensures exists i :: InfixAt(Walk(d), Walk(root), i)
    decreases root
  {
    if root == d {
      assert InfixAt(Walk(d), Walk(root), 0);
    } else {
      match root
      case Binary(_, lhs, rhs, _, _, _, _) =>
        var here := FailuresAt(root);
        WalkOfBinary(root);
        if Encloses(lhs, d) {
          WalkHoldsSubtree(lhs, d);
          var i :| InfixAt(Walk(d), Walk(lhs), i);
          InfixAtTransitive(Walk(d), Walk(lhs), Walk(root), i, |here|);
        } else {
          WalkHoldsSubtree(rhs, d);
          var i :| InfixAt(Walk(d), Walk(rhs), i);
          InfixAtTransitive(Walk(d), Walk(rhs), Walk(root), i, |here| + |Walk(lhs)|);
        }
      case PropertyAccess(e, _, _) =>
        WalkHoldsSubtree(e, d);
        var i :| InfixAt(Walk(d), Walk(e), i);
        assert Walk(root) == WalkChildren(root) == Walk(e);
      case Other(_, cs) =>
        var k :| 0 <= k < |cs| && Encloses(cs[k], d);
        WalkHoldsSubtree(cs[k], d);
        var i :| InfixAt(Walk(d), Walk(cs[k]), i);
        WalkAllHoldsEach(cs, k);
        assert Walk(root) == WalkChildren(root) == WalkAll(cs);
        InfixAtTransitive(Walk(d), Walk(cs[k]), Walk(root), i, |WalkAll(cs[..k])|);
    }
  }

  /** Every forbidden write anywhere in the tree is reported (descendants are always
      visited, whether or not an enclosing node matched). */
  lemma WalkComplete(root: Node, b: Node)
    requires Encloses(root, b) && b.Binary? && IsForbiddenWrite(b)
    ensures FailureOf(b) in Walk(root)
  {
    WalkHoldsSubtree(root, b);
    var i :| InfixAt(Walk(b), Walk(root), i);
    assert Walk(b)[0] == FailureOf(b);
    assert Walk(root)[i] == Walk(root)[i..i + |Walk(b)|][0];
  }

  /** Every reported failure is the failure of a forbidden write somewhere in the tree. */
  lemma {:induction false} WalkSound(root: Node, f: RuleFailure)
    requires f in Walk(root)
    ensures exists b :: Encloses(root, b) && b.Binary? && IsForbiddenWrite(b) && f == FailureOf(b)
    decreases root
  {
    match root
    case Binary(_, lhs, rhs, _, _, _, _) =>
      if f in FailuresAt(root) {
        assert Encloses(root, root);
      } else if f in Walk(lhs) {
        WalkSound(lhs, f);
      } else {
        WalkSound(rhs, f);
      }
    case PropertyAccess(e, _, _) =>
      WalkSound(e, f);
    case Other(_, cs) =>
      WalkAllFromOne(cs, f);
      var k :| 0 <= k < |cs| && f in Walk(cs[k]);
      WalkSound(cs[k], f);
      var b :| Encloses(cs[k], b) && b.Binary? && IsForbiddenWrite(b) && f == FailureOf(b);
      assert Encloses(root, b);
  }

  /** A tree without a plain `=` assignment, e.g. one that only uses compound operators
      such as `+=`, yields no failure. */
  lemma NoPlainAssignmentNoFailure(root: Node)
    requires forall b :: Encloses(root, b) && b.Binary? ==> b.operator != "="
    ensures Walk(root) == []
  {
    if Walk(root) != [] {
      WalkSound(root, Walk(root)[0]);
    }
  }

  /** A forbidden write's own failure opens its walk, and the failure of every forbidden
      write nested in it follows later in that walk. */
  lemma NestedAfterEnclosing(b: Node, c: Node)
    requires Encloses(b, c) && b != c
    requires b.Binary? && IsForbiddenWrite(b) && c.Binary? && IsForbiddenWrite(c)
    ensures Walk(b)[0] == FailureOf(b)
    ensures exists q :: 0 < q < |Walk(b)| && Walk(b)[q] == FailureOf(c)
  {
    WalkOfForbiddenWrite(b);
    if Encloses(b.left, c) {
      WalkComplete(b.left, c);
      var q :| 0 <= q < |Walk(b.left)| && Walk(b.left)[q] == FailureOf(c);
      assert Walk(b)[1 + q] == FailureOf(c);
    } else {
      WalkComplete(b.right, c);
      var q :| 0 <= q < |Walk(b.right)| && Walk(b.right)[q] == FailureOf(c);
      assert Walk(b)[1 + |Walk(b.left)| + q] == FailureOf(c);
    }
  }

  /** `f` occurs in `s` at an earlier position than `g`. */
  predicate Precedes(s: seq<RuleFailure>, f: RuleFailure, g: RuleFailure)
  {
    exists i, j :: 0 <= i < j < |s| && s[i] == f && s[j] == g
  }

  /** An enclosing forbidden write is reported before every forbidden write nested in it,
      wherever the two sit in the tree. */
  lemma ParentBeforeNested(root: Node, b: Node, c: Node)
    requires Encloses(root, b) && Encloses(b, c) && b != c
    requires b.Binary? && IsForbiddenWrite(b) && c.Binary? && IsForbiddenWrite(c)
    ensures Precedes(Walk(root), FailureOf(b), FailureOf(c))
  {
    WalkHoldsSubtree(root, b);
    var p :| InfixAt(Walk(b), Walk(root), p);
    NestedAfterEnclosing(b, c);
    var q :| 0 < q < |Walk(b)| && Walk(b)[q] == FailureOf(c);
    assert Walk(root)[p] == Walk(root)[p..p + |Walk(b)|][0];
    assert Walk(root)[p + q] == Walk(root)[p..p + |Walk(b)|][q];
    assert 0 <= p < p + q < |Walk(root)|;
  }

  /** The rule's test, stated on the assigned path: with identifier names, a failure is
      reported for a binary expression exactly when it is a plain `=` whose left operand
      spells `document.domain` or `window.document.domain`. */
  lemma ForbiddenWriteByPath(node: Node)
    requires node.Binary?
    requires node.left.PropertyAccess? ==> '.' !in node.left.name
    ensures IsForbiddenWrite(node) <==>
              node.operator == "=" && node.left.PropertyAccess? && AccessPath(node.left) in ForbiddenPaths
  {
    if node.left.PropertyAccess? {
      DocumentDomainPropertyByPath(node.left);
    }
  }

  /** isDocumentDomainProperty holds exactly for the property accesses whose dotted path
      is one of the forbidden paths, given that the accessed name is an identifier. */
  lemma DocumentDomainPropertyByPath(node: Node)
    requires node.PropertyAccess? && '.' !in node.name
    ensures IsDocumentDomainProperty(node) <==> AccessPath(node) in ForbiddenPaths
  {
    var e, n := node.expression.text, node.name;
    var path := AccessPath(node);
    assert path[|e|] == '.';
    if path == "document.domain" {
      assert |e| == 8;
      assert e == path[..8] && n == path[9..];
    } else if path == "window.document.domain" {
      assert path[|e| + 1..] == n;
      assert path[7..][8] == '.';
      assert |e| == 15;
      assert e == path[..15] && n == path[16..];
    }
  }

  /** A leaf yields no failure. */
  lemma WalkOfLeaf(n: Node)
    requires n.Other? && n.children == []
    ensures Walk(n) == []
  {
    assert Walk(n) == WalkChildren(n) == WalkAll([]);
  }

  /** A property access on a leaf object yields no failure. */
  lemma WalkOfLeafAccess(n: Node)
    requires n.PropertyAccess? && n.expression.Other? && n.expression.children == []
    ensures Walk(n) == []
  {
    WalkOfLeaf(n.expression);
    assert Walk(n) == WalkChildren(n) == Walk(n.expression);
  }

  /** `document.domain = "example.com"`, preceded by a line break and indentation, yields
      exactly one failure: it spans the assignment without the indentation, and its
      message is the prefix followed by the assignment's text. */
  lemma DocumentDomainAssignmentReported()
    ensures
      var assignment := "document.domain = \"example.com\"";
      var node := Binary("=", PropertyAccess(Other("document", []), "domain", "document.domain"),
                         Other("\"example.com\"", []), 4, 31, "\n   " + assignment, assignment);
      Walk(node) == [RuleFailure(4, 31, "Forbidden write to document.domain: " + assignment)]
  {
    var assignment := "document.domain = \"example.com\"";
    var full := "\n   " + assignment;
    var node := Binary("=", PropertyAccess(Other("document", []), "domain", "document.domain"),
                       Other("\"example.com\"", []), 4, 31, full, assignment);
    assert TrimStart(full) == assignment by {
      TrimStartAt(full, 4);
    }
    TrimEndAt(assignment, |assignment|);
    assert IsForbiddenWrite(node);
    WalkOfBinary(node);
    WalkOfLeafAccess(node.left);
    WalkOfLeaf(node.right);
  }

  /** `document.domain += "x"` yields no failure: compound assignment is not matched. */
  lemma CompoundAssignmentNotReported(value: Node)
    requires value.Other? && value.children == []
    ensures Walk(Binary("+=", PropertyAccess(Other("document", []), "domain", "document.domain"),
                        value, 0, 22, "document.domain += \"x\"", "document.domain += \"x\"")) == []
  {
    var node := Binary("+=", PropertyAccess(Other("document", []), "domain", "document.domain"),
                       value, 0, 22, "document.domain += \"x\"", "document.domain += \"x\"");
    WalkOfBinary(node);
    WalkOfLeafAccess(node.left);
    WalkOfLeaf(value);
  }

  /** `d.domain = "x"` yields no failure, even when `d` aliases `document`: the object is
      compared by its text. */
  lemma AliasNotReported(value: Node)
    requires value.Other? && value.children == []
    ensures Walk(Binary("=", PropertyAccess(Other("d", []), "domain", "d.domain"),
                        value, 0, 14, "d.domain = \"x\"", "d.domain = \"x\"")) == []
  {
    var node := Binary("=", PropertyAccess(Other("d", []), "domain", "d.domain"),
                       value, 0, 14, "d.domain = \"x\"", "d.domain = \"x\"");
    assert !IsForbiddenWrite(node);
    WalkOfBinary(node);
    WalkOfLeafAccess(node.left);
    WalkOfLeaf(value);
  }

  /** The rule's walker. It visits a tree depth first and keeps the failures it finds in
      `failures`; the tree itself is a value and is never changed by a visit. */
  class NoDocumentDomainRuleWalker {
    /** The failures added so far, oldest first. */
    var failures: seq<RuleFailure>

    constructor ()
      ensures failures == []
    {
      failures := [];
    }

    /** Records one more failure after the ones already recorded. */
    method AddFailure(failure: RuleFailure)
      modifies this
      ensures failures == old(failures) + [failure]
    {
      failures := failures + [failure];
    }

    /** Dispatch on the kind of node: a binary expression goes to VisitBinaryExpression,
        any other node only has its children visited. */
    method Visit(node: Node)
      modifies this
      ensures failures == old(failures) + Walk(node)
      decreases node, 2
    {
      if node.Binary? {
        VisitBinaryExpression(node);
      } else {
        VisitChildren(node);
      }
    }

    /** Reports `node` if it is a forbidden write, then visits its children whether or
        not it matched. */
    method VisitBinaryExpression(node: Node)
      requires node.Binary?
      modifies this
      ensures failures == old(failures) + Walk(node)
      decreases node, 1
    {
      if node.operator == "=" && node.left.PropertyAccess? && IsDocumentDomainProperty(node.left) {
        var msg := FailureString + Trim(node.fullText);
        AddFailure(RuleFailure(node.start, node.width, msg));
      }
      VisitChildren(node);
    }

    /** Visits the children of `node` one after the other, in source order. */
    method VisitChildren(node: Node)
      modifies this
      ensures failures == old(failures) + WalkChildren(node)
      decreases node, 0
    {
      match node
      case Binary(_, lhs, rhs, _, _, _, _) =>
        Visit(lhs);
        Visit(rhs);
      case PropertyAccess(e, _, _) =>
        Visit(e);
      case Other(_, cs) =>
        var i := 0;
        while i < |cs|
          invariant 0 <= i <= |cs|
          invariant failures == old(failures) + WalkAll(cs[..i])
        {
          Visit(cs[i]);
          WalkAllConcat(cs[..i], [cs[i]]);
          assert cs[..i + 1] == cs[..i] + [cs[i]];
          i := i + 1;
        }
        assert cs[..i] == cs;
    }
  }

  /** Applying the rule to a source file: a fresh walker visits the whole file and the
      failures it collected are the result. */
  method Apply(sourceFile: Node) returns (result: seq<RuleFailure>)
    ensures result == Walk(sourceFile)
    ensures forall f <- result :: WellFormedMessage(f.message)
  {
    var walker := new NoDocumentDomainRuleWalker();
    walker.Visit(sourceFile);
    result := walker.failures;
  }
}
