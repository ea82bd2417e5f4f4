/** The part of ECMAScript's String.prototype.trim that decides whether a new
    task's text is accepted: leading and trailing white space and line
    terminators are stripped, and the text is accepted when something is left. */
module Text {

  /** A code point that trim removes: the WhiteSpace and LineTerminator
      characters of ECMAScript (tab, line feed, vertical tab, form feed,
      carriage return, space, no-break space, byte order mark, the line and
      paragraph separators and the Unicode space separators). */
  predicate IsTrimmable(c: char) {
    || c == '\t' || c == '\n' || c == '\U{000B}' || c == '\U{000C}' || c == '\r'
    || c == ' ' || c == '\U{00A0}' || c == '\U{1680}'
    || ('\U{2000}' <= c <= '\U{200A}')
    || c == '\U{2028}' || c == '\U{2029}' || c == '\U{202F}' || c == '\U{205F}'
    || c == '\U{3000}' || c == '\U{FEFF}'
  }

  /** Text made of trimmable characters only (the empty text included). */
  predicate IsBlank(s: string) {
    forall i :: 0 <= i < |s| ==> IsTrimmable(s[i])
  }

  /** Drops the leading trimmable characters: the result is the longest
      suffix of `s` that does not start with one. */
  function TrimStart(s: string): (r: string)
    ensures |r| <= |s| && r == s[|s| - |r|..]
    ensures forall i :: 0 <= i < |s| - |r| ==> IsTrimmable(s[i])
    ensures r != [] ==> !IsTrimmable(r[0])
  {
    if s != [] && IsTrimmable(s[0]) then TrimStart(s[1..]) else s
  }

  /** Drops the trailing trimmable characters: the result is the longest
      prefix of `s` that does not end with one. */
  function TrimEnd(s: string): (r: string)
    ensures |r| <= |s| && r == s[..|r|]
    ensures forall i :: |r| <= i < |s| ==> IsTrimmable(s[i])
    ensures r != [] ==> !IsTrimmable(r[|r| - 1])
  {
    if s != [] && IsTrimmable(s[|s| - 1]) then TrimEnd(s[..|s| - 1]) else s
  }

  /** String.prototype.trim: leading and trailing trimmable characters
      are dropped. The result is empty (falsy in JavaScript) exactly when
      the text is blank. */
  function Trim(s: string): (r: string)
    ensures |r| <= |s|
    ensures r != [] ==> !IsTrimmable(r[0]) && !IsTrimmable(r[|r| - 1])
    ensures r == "" <==> IsBlank(s)
  {
    TrimPassesEmpty(s);
    TrimEnd(TrimStart(s))
  }

  /** The two passes of trim leave nothing exactly when the text is blank. */
  lemma TrimPassesEmpty(s: string)
    ensures TrimEnd(TrimStart(s)) == "" <==> IsBlank(s)
  {
    var t := TrimStart(s);
    var r := TrimEnd(t);
    var a := |s| - |t|;
    if r == "" {
      assert t == [];
    } else {
      assert r[0] == t[0];
      assert t[0] == s[a];
    }
  }
}
