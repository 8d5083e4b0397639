/** `String.prototype.trim` as the emptiness test of `extract` uses it. JavaScript
    strips the code points ECMA-262 classes as WhiteSpace or LineTerminator. */
module JsString {

  predicate IsWhitespace(c: char) {
    || c == '\t' || c == '\n' || c == '\U{B}' || c == '\U{C}' || c == '\r' || c == ' '
    || c == '\U{A0}' || c == '\U{1680}' || ('\U{2000}' <= c <= '\U{200A}')
    || c == '\U{2028}' || c == '\U{2029}' || c == '\U{202F}' || c == '\U{205F}'
    || c == '\U{3000}' || c == '\U{FEFF}'
  }

  /** True when every character of `s` is whitespace (the empty string included). */
  predicate IsBlank(s: string) {
    forall i :: 0 <= i < |s| ==> IsWhitespace(s[i])
  }

  function TrimStart(s: string): string {
    if s != [] && IsWhitespace(s[0]) then TrimStart(s[1..]) else s
  }

  function TrimEnd(s: string): string {
    if s != [] && IsWhitespace(s[|s| - 1]) then TrimEnd(s[..|s| - 1]) else s
  }

  function Trim(s: string): string {
    TrimEnd(TrimStart(s))
  }

  /** The number of whitespace characters `s` starts with. */
  function LeadingWhitespace(s: string): (k: nat)
    ensures k <= |s|
  {
    if s != [] && IsWhitespace(s[0]) then 1 + LeadingWhitespace(s[1..]) else 0
  }

  /** The number of whitespace characters `s` ends with. */
  function TrailingWhitespace(s: string): (k: nat)
    ensures k <= |s|
  {
    if s != [] && IsWhitespace(s[|s| - 1]) then 1 + TrailingWhitespace(s[..|s| - 1]) else 0
  }

  /** TrimStart drops the whitespace prefix and stops at the first other character. */
  lemma {:induction false} TrimStartDrops(s: string)
    ensures TrimStart(s) == s[LeadingWhitespace(s)..]
    ensures IsBlank(s[..LeadingWhitespace(s)])
    ensures TrimStart(s) == [] || !IsWhitespace(TrimStart(s)[0])
  {
    if s != [] && IsWhitespace(s[0]) {
      TrimStartDrops(s[1..]);
      var k := LeadingWhitespace(s[1..]);
      assert s[k + 1..] == s[1..][k..];
      assert s[..k + 1] == [s[0]] + s[1..][..k];
    }
  }

  /** TrimEnd drops the whitespace suffix and stops at the last other character. */
  lemma {:induction false} TrimEndDrops(s: string)
    ensures TrimEnd(s) == s[..|s| - TrailingWhitespace(s)]
    ensures IsBlank(s[|s| - TrailingWhitespace(s)..])
    ensures TrimEnd(s) == [] || !IsWhitespace(TrimEnd(s)[|TrimEnd(s)| - 1])
  {
    if s != [] && IsWhitespace(s[|s| - 1]) {
      var p := s[..|s| - 1];
      TrimEndDrops(p);
      var m := |p| - TrailingWhitespace(p);
      assert s[..m] == p[..m];
      assert s[m..] == p[m..] + [s[|s| - 1]];
    } else {
      assert s[..|s|] == s;
    }
  }

  /** The test at the top of `extract`: the trimmed content is empty exactly when
      the content is made of whitespace only. */
  lemma TrimEmptyIffBlank(s: string)
    ensures Trim(s) == "" <==> IsBlank(s)
  {
    TrimStartDrops(s);
    var k := LeadingWhitespace(s);
    var t := TrimStart(s);
    TrimEndDrops(t);
    var m := |t| - TrailingWhitespace(t);
    if !IsBlank(s) {
      var i :| 0 <= i < |s| && !IsWhitespace(s[i]);
      assert t[i - k] == s[i];
      assert |Trim(s)| == m;
    }
  }

  /** Trimming keeps a contiguous part of the input whose ends are not whitespace. */
  lemma TrimIsTrimmed(s: string)
    ensures exists a, b :: 0 <= a <= b <= |s| && Trim(s) == s[a..b] && IsBlank(s[..a]) && IsBlank(s[b..])
    ensures Trim(s) == [] || (!IsWhitespace(Trim(s)[0]) && !IsWhitespace(Trim(s)[|Trim(s)| - 1]))
  {
    TrimStartDrops(s);
    var a := LeadingWhitespace(s);
    var t := TrimStart(s);
    TrimEndDrops(t);
    var m := |t| - TrailingWhitespace(t);
    assert s[a..a + m] == t[..m];
    assert s[a + m..] == t[m..];
    assert Trim(s) == s[a..a + m];
    if m > 0 {
      assert Trim(s)[0] == t[0];
    }
  }
}
