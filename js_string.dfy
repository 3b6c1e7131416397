/** ECMAScript's String.prototype.trim (section 22.1.3.32 of ECMA-262), which the rule
    applies to a node's full text before putting it in the failure message. */
module JsString {

  /** The code points trim removes: WhiteSpace (section 12.2 of ECMA-262, including every
      space separator of category Zs) and LineTerminator (section 12.3). */
  predicate IsTrimmable(c: char) {
    c == '\t' || c == '\U{000B}' || c == '\U{000C}' || c == ' ' || c == '\U{00A0}'
    || c == '\U{FEFF}' || c == '\U{1680}' || ('\U{2000}' <= c <= '\U{200A}')
    || c == '\U{202F}' || c == '\U{205F}' || c == '\U{3000}'
    || c == '\n' || c == '\r' || c == '\U{2028}' || c == '\U{2029}'
  }

  /** Every character of `s` from index `lo` up to (not including) `hi` is trimmable. */
  predicate TrimmableBetween(s: string, lo: int, hi: int) {
    forall p :: lo <= p < hi && 0 <= p < |s| ==> IsTrimmable(s[p])
  }

  /** Drops the leading trimmable characters: what is left is a suffix of `s`,
      everything dropped is trimmable, and the first character kept is not. */
  function TrimStart(s: string): (r: string)
    ensures |r| <= |s| && r == s[|s| - |r|..]
    ensures TrimmableBetween(s, 0, |s| - |r|)
    ensures r != [] ==> !IsTrimmable(r[0])
  {
    if s != [] && IsTrimmable(s[0]) then TrimStart(s[1..]) else s
  }

  /** Drops the trailing trimmable characters: what is left is a prefix of `s`,
      everything dropped is trimmable, and the last character kept is not. */
  function TrimEnd(s: string): (r: string)
    ensures |r| <= |s| && r == s[..|r|]
    ensures TrimmableBetween(s, |r|, |s|)
    ensures r != [] ==> !IsTrimmable(r[|r| - 1])
  {
    if s != [] && IsTrimmable(s[|s| - 1]) then TrimEnd(s[..|s| - 1]) else s
  }

  /** String.prototype.trim: a slice of `s` that neither begins nor ends with a trimmable
      character, with only trimmable characters cut away on either side. */
  function Trim(s: string): (r: string)
    ensures |r| <= |s|
    ensures r != [] ==> !IsTrimmable(r[0]) && !IsTrimmable(r[|r| - 1])
  {
    TrimEnd(TrimStart(s))
  }

  /** TrimStart stops at the first non-trimmable character and nowhere else. */
  lemma TrimStartAt(s: string, i: nat)
    requires i <= |s| && TrimmableBetween(s, 0, i)
    requires i < |s| ==> !IsTrimmable(s[i])
    ensures TrimStart(s) == s[i..]
  {
    var t := TrimStart(s);
    assert t != [] ==> t[0] == s[|s| - |t|];
  }

  /** TrimEnd stops after the last non-trimmable character and nowhere else. */
  lemma TrimEndAt(s: string, j: nat)
    requires j <= |s| && TrimmableBetween(s, j, |s|)
    requires 0 < j ==> !IsTrimmable(s[j - 1])
    ensures TrimEnd(s) == s[..j]
  {
    var r := TrimEnd(s);
    assert r != [] ==> r[|r| - 1] == s[|r| - 1];
  }

  /** Trim is the only slice of `s` with those properties: whichever `s[i..j]` has only
      trimmable characters outside it and non-trimmable ends is the trimmed string. */
  lemma TrimUnique(s: string, i: nat, j: nat)
    requires i <= j <= |s|
    requires TrimmableBetween(s, 0, i) && TrimmableBetween(s, j, |s|)
    requires i < j ==> !IsTrimmable(s[i]) && !IsTrimmable(s[j - 1])
    ensures Trim(s) == s[i..j]
  {
    if i < j {
      TrimStartAt(s, i);
      var t := s[i..];
      TrimEndAt(t, j - i);
      assert t[..j - i] == s[i..j];
    } else {
      TrimStartAt(s, |s|);
    }
  }

  /** Trimming an already trimmed string changes nothing. */
  lemma TrimIdempotent(s: string)
    ensures Trim(Trim(s)) == Trim(s)
  {
    var r := Trim(s);
    TrimUnique(r, 0, |r|);
    assert r[0..|r|] == r;
  }
}
