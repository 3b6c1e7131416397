/** The part of a parsed TypeScript source file that the no-document-domain rule reads.
    What the parser's node API computes on demand (getText, getFullText, getStart,
    getWidth) is stored in the node. */
module Syntax {

  /** A syntax node. Every node carries `text`, its source text without leading trivia.
      - `Binary`: a binary expression; `operator` is the text of its operator token,
        `start` and `width` its span without leading trivia, `fullText` its text with
        the leading trivia.
      - `PropertyAccess`: `expression.name`; `name` is the identifier after the dot.
      - `Other`: any other node, with its child nodes in source order. */
  datatype Node =
    | Binary(operator: string, left: Node, right: Node, start: nat, width: nat, fullText: string, text: string)
    | PropertyAccess(expression: Node, name: string, text: string)
    | Other(text: string, children: seq<Node>)

  /** `d` is `n` itself or a node nested anywhere beneath it. */
  predicate Encloses(n: Node, d: Node)
    decreases n
  {
    n == d ||
    match n
    case Binary(_, lhs, rhs, _, _, _, _) => Encloses(lhs, d) || Encloses(rhs, d)
    case PropertyAccess(e, _, _) => Encloses(e, d)
    case Other(_, cs) => exists k :: 0 <= k < |cs| && Encloses(cs[k], d)
  }
}
