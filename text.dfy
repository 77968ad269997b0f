/**
 `String.prototype.trim` of JavaScript: removes every leading and trailing
 white-space or line-terminator character and keeps the rest unchanged.
 */
module Text {

  /** The characters JavaScript's trim removes: the WhiteSpace and
      LineTerminator productions of ECMAScript, that is tab, line tab, form
      feed, space, no-break space, the byte order mark, the Unicode space
      separators, line feed, carriage return and the line and paragraph
      separators. */
  predicate IsWhitespace(c: char)
  {
    c == '\t' || c == '\n' || c == '\U{000B}' || c == '\U{000C}' || c == '\r' || c == ' ' ||
    c == '\U{00A0}' || c == '\U{1680}' || ('\U{2000}' <= c <= '\U{200A}') ||
    c == '\U{2028}' || c == '\U{2029}' || c == '\U{202F}' || c == '\U{205F}' ||
    c == '\U{3000}' || c == '\U{FEFF}'
  }

  /** Neither the first nor the last character is white space. */
  predicate IsTrimmed(s: string)
  {
    s == [] || (!IsWhitespace(s[0]) && !IsWhitespace(s[|s| - 1]))
  }

  /** The number of white-space characters at the front of `s`. */
  function Lead(s: string): (i: nat)
    ensures i <= |s|
    ensures forall k :: 0 <= k < i ==> IsWhitespace(s[k])
    ensures i < |s| ==> !IsWhitespace(s[i])
  {
    if s != [] && IsWhitespace(s[0]) then 1 + Lead(s[1..]) else 0
  }

  /** The length of `s` without the white-space characters at its end. */
  function Tail(s: string): (j: nat)
    ensures j <= |s|
    ensures forall k :: j <= k < |s| ==> IsWhitespace(s[k])
    ensures 0 < j ==> !IsWhitespace(s[j - 1])
  {
    if s != [] && IsWhitespace(s[|s| - 1]) then Tail(s[..|s| - 1]) else |s|
  }

  /** The trimmed text: neither end of it is white space, and it is what is
      left of `s` after cutting white space from both ends. */
  function Trim(s: string): (r: string)
    ensures IsTrimmed(r)
    ensures |r| <= |s|
    ensures r == [] <==> forall k :: 0 <= k < |s| ==> IsWhitespace(s[k])
  {
    var i, j := Lead(s), Tail(s);
    if i == |s| then [] else s[i..j]
  }

  /** Trim removes nothing but white space, and only at the ends. */
  lemma TrimCutsOnlyWhitespace(s: string)
    ensures exists i, j :: 0 <= i <= j <= |s| && Trim(s) == s[i..j] &&
                           (forall k :: 0 <= k < i ==> IsWhitespace(s[k])) &&
                           (forall k :: j <= k < |s| ==> IsWhitespace(s[k]))
  {
    var i, j := Lead(s), Tail(s);
    if i == |s| {
      assert Trim(s) == s[i..i];
    } else {
      assert Trim(s) == s[i..j];
    }
  }

  /** Trimming twice changes nothing more than trimming once. */
  lemma {:induction false} TrimIdempotent(s: string)
    ensures Trim(Trim(s)) == Trim(s)
  {
    TrimmedIsFixed(Trim(s));
  }

  lemma TrimmedIsFixed(s: string)
    requires IsTrimmed(s)
    ensures Trim(s) == s
  {
    if s != [] {
      assert Lead(s) == 0;
      assert Tail(s) == |s|;
      assert s[0..|s|] == s;
    }
  }
}
