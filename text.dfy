/** String helpers shared by the server and the client: JavaScript's
    `String.prototype.trim` and the decimal rendering of a count inside a
    template literal. */
module Text {

  /** The characters `trim` removes: ECMAScript WhiteSpace (tab, vertical tab,
      form feed, space, no-break space, byte order mark and the other Unicode
      space separators) and LineTerminator (LF, CR, LS, PS). */
  predicate IsWhitespace(c: char) {
    || c == '\t' || c == '\n' || c == '\U{000B}' || c == '\U{000C}' || c == '\r'
    || c == ' ' || c == '\U{00A0}' || c == '\U{1680}'
    || ('\U{2000}' <= c <= '\U{200A}')
    || c == '\U{2028}' || c == '\U{2029}' || c == '\U{202F}' || c == '\U{205F}'
    || c == '\U{3000}' || c == '\U{FEFF}'
  }

  predicate AllWhitespace(s: string) {
    forall i :: 0 <= i < |s| ==> IsWhitespace(s[i])
  }

  /** Drops leading characters that satisfy `w`: the result is a suffix of
      `s` that does not start with such a character, and everything dropped
      satisfies `w`. */
  function DropStart(s: string, w: char -> bool): (r: string)
    ensures |r| <= |s| && r == s[|s| - |r|..]
    ensures r == [] || !w(r[0])
    ensures forall i :: 0 <= i < |s| - |r| ==> w(s[i])
  {
    if s != [] && w(s[0]) then
      var r := DropStart(s[1..], w);
      assert forall i :: 1 <= i < |s| ==> s[i] == s[1..][i - 1];
      r
    else s
  }

  /** Drops trailing characters that satisfy `w`: the result is a prefix of
      `s` that does not end with such a character, and everything dropped
      satisfies `w`. */
  function DropEnd(s: string, w: char -> bool): (r: string)
    ensures |r| <= |s| && r == s[..|r|]
    ensures r == [] || !w(r[|r| - 1])
    ensures forall i :: |r| <= i < |s| ==> w(s[i])
  {
    if s != [] && w(s[|s| - 1]) then
      var r := DropEnd(s[..|s| - 1], w);
      assert forall i :: 0 <= i < |s| - 1 ==> s[i] == s[..|s| - 1][i];
      r
    else s
  }

  /** Dropping from both ends (`t` as `DropStart` leaves it, `r` as
      `DropEnd` leaves `t`) gives the infix `r` right after the dropped
      prefix; it is empty exactly when every character satisfies `w`. */
  lemma DropBoth(s: string, w: char -> bool, t: string, r: string)
    requires |t| <= |s| && t == s[|s| - |t|..] && (t == [] || !w(t[0]))
    requires forall i :: 0 <= i < |s| - |t| ==> w(s[i])
    requires |r| <= |t| && r == t[..|r|]
    requires forall i :: |r| <= i < |t| ==> w(t[i])
    ensures |s| - |t| + |r| <= |s|
    ensures r == s[|s| - |t|..|s| - |t| + |r|]
    ensures forall i :: |s| - |t| + |r| <= i < |s| ==> w(s[i])
    ensures r == [] <==> forall i :: 0 <= i < |s| ==> w(s[i])
    ensures r != [] ==> !w(r[0])
  {
    var k := |s| - |t|;
    assert t == s[k..];
    assert r == t[..|r|];
    forall j | 0 <= j < |r| ensures r[j] == s[k..k + |r|][j] {
      assert r[j] == t[j] == s[k + j];
    }
    assert r == s[k..k + |r|];
    forall i | k + |r| <= i < |s| ensures w(s[i]) {
      assert s[i] == t[i - k];
    }
  }

  /** Number of white-space characters `trim` removes at the front. */
  function LeadingWhitespace(s: string): (n: nat)
    ensures n <= |s|
  {
    |s| - |DropStart(s, IsWhitespace)|
  }

  /** `s.trim()`: the infix of `s` left after removing white space at both
      ends. It is empty exactly when `s` is all white space; otherwise it
      starts and ends with a character that is not white space. */
  function Trim(s: string): (r: string)
    ensures LeadingWhitespace(s) + |r| <= |s|
    ensures r == s[LeadingWhitespace(s)..LeadingWhitespace(s) + |r|]
    ensures forall i :: 0 <= i < LeadingWhitespace(s) ==> IsWhitespace(s[i])
    ensures forall i :: LeadingWhitespace(s) + |r| <= i < |s| ==> IsWhitespace(s[i])
    ensures r == [] <==> AllWhitespace(s)
    ensures r != [] ==> !IsWhitespace(r[0]) && !IsWhitespace(r[|r| - 1])
  {
    var t := DropStart(s, IsWhitespace);
    var r := DropEnd(t, IsWhitespace);
    DropBoth(s, IsWhitespace, t, r);
    r
  }

  /** `!text.trim()` in the source: the text holds nothing but white space. */
  predicate IsBlank(s: string): (b: bool)
    ensures b <==> AllWhitespace(s)
  {
    Trim(s) == []
  }

  /** Trimming twice is trimming once. */
  lemma {:induction false} TrimIdempotent(s: string)
    ensures Trim(Trim(s)) == Trim(s)
  {
    var r := Trim(s);
    if r != [] {
      assert DropStart(r, IsWhitespace) == r;
      assert DropEnd(r, IsWhitespace) == r;
    }
  }

  function DigitChar(d: nat): (c: char)
    requires d < 10
    ensures '0' <= c <= '9' && c as int - '0' as int == d
  {
    "0123456789"[d]
  }

  predicate IsDigits(s: string) {
    forall i :: 0 <= i < |s| ==> '0' <= s[i] <= '9'
  }

  /** The decimal text JavaScript produces for a non-negative integer in a
      template literal: digits only, no leading zero except for 0 itself. */
  function NatToString(n: nat): (r: string)
    ensures r != [] && IsDigits(r)
    ensures (r[0] == '0') == (n == 0)
    ensures n == 0 ==> r == "0"
  {
    if n < 10 then [DigitChar(n)] else NatToString(n / 10) + [DigitChar(n % 10)]
  }

  /** Reads a string of decimal digits back as a number. */
  function ParseDecimal(s: string): nat
    requires IsDigits(s)
  {
    if s == [] then 0
    else 10 * ParseDecimal(s[..|s| - 1]) + (s[|s| - 1] as int - '0' as int)
  }

  /** Rendering a count and reading it back gives the count. */
  lemma {:induction false} ParseNatToString(n: nat)
    ensures ParseDecimal(NatToString(n)) == n
  {
    if n >= 10 {
      var r := NatToString(n);
      assert r[..|r| - 1] == NatToString(n / 10);
      ParseNatToString(n / 10);
    }
  }
}
