/**
 * Character and string helpers: ASCII character classes, the JavaScript
 * `||` fallback over strings, `String.prototype.trim`, decimal rendering
 * of counters and case-insensitive substring search.
 */
module Text {

  predicate IsUpper(c: char) { 'A' <= c <= 'Z' }
  predicate IsLower(c: char) { 'a' <= c <= 'z' }
  predicate IsDigit(c: char) { '0' <= c <= '9' }
  predicate IsAlnum(c: char) { IsUpper(c) || IsLower(c) || IsDigit(c) }

  /** ASCII lower-casing of one character. */
  function ToLower(c: char): (r: char)
    ensures IsUpper(c) ==> IsLower(r) && r as int == c as int + 32
    ensures !IsUpper(c) ==> r == c
  {
    if IsUpper(c) then (c as int + 32) as char else c
  }

  /** ASCII lower-casing of a string, character by character. */
  function LowerAscii(s: string): (r: string)
    ensures |r| == |s|
    ensures forall i :: 0 <= i < |s| ==> r[i] == ToLower(s[i])
  {
    seq(|s|, i requires 0 <= i < |s| => ToLower(s[i]))
  }

  predicate StartsWith(s: string, prefix: string)
  {
    |prefix| <= |s| && s[..|prefix|] == prefix
  }

  predicate EndsWith(s: string, suffix: string)
  {
    |suffix| <= |s| && s[|s| - |suffix|..] == suffix
  }

  /**
   * JavaScript's `a || b || ...` over strings, where the empty string (and
   * a missing value, modelled as the empty string) is falsy: the first
   * non-empty candidate, or "" when every candidate is empty.
   */
  function FirstNonEmpty(cands: seq<string>): (r: string)
    ensures r == "" <==> forall i :: 0 <= i < |cands| ==> cands[i] == ""
    ensures r != "" ==> exists i :: 0 <= i < |cands| && cands[i] == r &&
                                   forall j :: 0 <= j < i ==> cands[j] == ""
  {
    if |cands| == 0 then ""
    else if cands[0] != "" then cands[0]
    else
      var rest := FirstNonEmpty(cands[1..]);
      assert forall i :: 1 <= i < |cands| ==> cands[i] == cands[1..][i - 1];
      rest
  }

  /** The chain yields the first non-empty candidate. */
  lemma FirstNonEmptyAt(cands: seq<string>, k: nat)
    requires k < |cands| && cands[k] != ""
    requires forall j :: 0 <= j < k ==> cands[j] == ""
    ensures FirstNonEmpty(cands) == cands[k]
  {
    var r := FirstNonEmpty(cands);
    var i :| 0 <= i < |cands| && cands[i] == r && forall j :: 0 <= j < i ==> cands[j] == "";
  }

  /** `a || b` over strings. */
  lemma FirstOfTwo(a: string, b: string)
    ensures FirstNonEmpty([a, b]) == if a != "" then a else b
  {
    assert [a, b][1..] == [b];
    assert [b][1..] == [];
  }

  /** The characters `String.prototype.trim` removes (WhiteSpace and LineTerminator). */
  predicate IsJsSpace(c: char)
  {
    c == ' ' || c == '\t' || c == '\n' || c == '\r' || c == '\U{000B}' || c == '\U{000C}' ||
    c == '\U{00A0}' || c == '\U{1680}' || ('\U{2000}' <= c <= '\U{200A}') ||
    c == '\U{2028}' || c == '\U{2029}' || c == '\U{202F}' || c == '\U{205F}' ||
    c == '\U{3000}' || c == '\U{FEFF}'
  }

  function TrimStart(s: string): (r: string)
    ensures |r| <= |s| && r == s[|s| - |r|..]
    ensures |r| > 0 ==> !IsJsSpace(r[0])
    ensures forall i :: 0 <= i < |s| - |r| ==> IsJsSpace(s[i])
  {
    if |s| > 0 && IsJsSpace(s[0]) then TrimStart(s[1..]) else s
  }

  function TrimEnd(s: string): (r: string)
    ensures |r| <= |s| && r == s[..|r|]
    ensures |r| > 0 ==> !IsJsSpace(r[|r| - 1])
    ensures forall i :: |r| <= i < |s| ==> IsJsSpace(s[i])
  {
    if |s| > 0 && IsJsSpace(s[|s| - 1]) then TrimEnd(s[..|s| - 1]) else s
  }

  /** `s.trim()`: drop leading and trailing white space. */
  function Trim(s: string): string
  {
    TrimEnd(TrimStart(s))
  }

  /** `s.trim()` is empty exactly when `s` is all white space. */
  lemma TrimEmptyIff(s: string)
    ensures Trim(s) == "" <==> forall i :: 0 <= i < |s| ==> IsJsSpace(s[i])
  {
    var t := TrimStart(s);
    if Trim(s) != "" {
      var k := |s| - |t|;
      assert t[0] == s[k];
    }
  }

  /** Decimal digit character of `d`. */
  function Digit(d: nat): (c: char)
    requires d < 10
    ensures IsDigit(c) && c as int - '0' as int == d
  {
    ('0' as int + d) as char
  }

  /** The number a string of decimal digits spells, most significant digit first. */
  function DecimalValue(s: string): nat
    requires forall i :: 0 <= i < |s| ==> IsDigit(s[i])
  {
    if s == [] then 0
    else
      assert IsDigit(s[|s| - 1]);
      DecimalValue(s[..|s| - 1]) * 10 + (s[|s| - 1] as int - '0' as int)
  }

  /**
   * Decimal rendering of a counter, as JavaScript's template literal `${n}`
   * writes it: digits that spell `n`, with no leading zero.
   */
  function NatToString(n: nat): (r: string)
    ensures |r| > 0
    ensures forall i :: 0 <= i < |r| ==> IsDigit(r[i])
    ensures DecimalValue(r) == n
    ensures |r| > 1 ==> r[0] != '0'
    ensures (|r| == 1) <==> n < 10
  {
    if n < 10 then [Digit(n)]
    else
      var prefix := NatToString(n / 10);
      var r := prefix + [Digit(n % 10)];
      assert r[..|r| - 1] == prefix;
      r
  }

  /** Different counters render differently. */
  lemma NatToStringInjective(m: nat, n: nat)
    requires NatToString(m) == NatToString(n)
    ensures m == n
  {
  }

  /** Literal ASCII case-insensitive substring test (the search's `new RegExp(input, "i")`). */
  predicate ContainsIgnoringCase(hay: string, needle: string)
  {
    exists i :: 0 <= i <= |hay| - |needle| && MatchesAt(hay, needle, i)
  }

  predicate MatchesAt(hay: string, needle: string, i: int)
    requires 0 <= i <= |hay| - |needle|
  {
    LowerAscii(hay[i..i + |needle|]) == LowerAscii(needle)
  }
}
