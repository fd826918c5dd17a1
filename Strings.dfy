/**
 * Character classes and small string scanners shared by the plugins.
 * PHP strings are byte strings; every class used here is ASCII-only, so a
 * string of Unicode characters stands for its UTF-8 bytes without changing
 * what the classes match.
 */
module Strings {

  /** PCRE's `\s` without the `u` modifier: tab, LF, VT, FF, CR and space. */
  predicate IsWs(c: char) {
    c == ' ' || c == '\t' || c == '\n' || c == '\U{000B}' || c == '\U{000C}' || c == '\r'
  }

  /** No character of `s` is matched by `\s`. */
  predicate NoWs(s: string) {
    forall i :: 0 <= i < |s| ==> !IsWs(s[i])
  }

  /** `s` with its leading `\s*` run removed. */
  function DropWs(s: string): (r: string)
    ensures |r| <= |s| && r == s[|s| - |r|..]
    ensures forall i :: 0 <= i < |s| - |r| ==> IsWs(s[i])
    ensures r != [] ==> !IsWs(r[0])
  {
    if s != [] && IsWs(s[0]) then DropWs(s[1..]) else s
  }

  /** The leading `\S*` run of `s`: the longest prefix without whitespace. */
  function Token(s: string): (r: string)
    ensures |r| <= |s| && r == s[..|r|] && NoWs(r)
    ensures |r| < |s| ==> IsWs(s[|r|])
  {
    if s == [] || IsWs(s[0]) then [] else [s[0]] + Token(s[1..])
  }

  /** The maximal non-whitespace runs of `s`, in order. */
  function Words(s: string): seq<string>
    decreases |s|
  {
    var a := DropWs(s);
    if a == [] then [] else
      var w := Token(a);
      [w] + Words(a[|w|..])
  }

  /** A prefix without whitespace that ends at whitespace or at the end is the token. */
  lemma {:induction false} TokenOfPrefix(s: string, n: nat)
    requires n <= |s| && NoWs(s[..n]) && (n < |s| ==> IsWs(s[n]))
    ensures Token(s) == s[..n]
  {
    if n > 0 {
      assert s[..n][0] == s[0];
      assert s[1..][..n - 1] == s[..n][1..];
      TokenOfPrefix(s[1..], n - 1);
      assert s[..n] == [s[0]] + s[1..][..n - 1];
    }
  }

  /** PCRE's `$` without the `D` modifier also matches before one final newline. */
  function StripFinalNewline(s: string): (r: string)
    ensures r == s || (s == r + "\n")
  {
    if s != [] && s[|s| - 1] == '\n' then s[..|s| - 1] else s
  }

  /** Concatenation regrouped; each call site names the pieces it regroups. */
  lemma Assoc<T>(a: seq<T>, b: seq<T>, c: seq<T>)
    ensures a + (b + c) == (a + b) + c
  {
  }

  /** ASCII digit, as matched by PCRE's `\d` without the `u` modifier. */
  predicate IsDigit(c: char) {
    '0' <= c <= '9'
  }

  predicate AllDigits(s: string) {
    forall i :: 0 <= i < |s| ==> IsDigit(s[i])
  }

  /** The leading `\d*` run of `s`. */
  function DigitRun(s: string): (r: string)
    ensures |r| <= |s| && r == s[..|r|] && AllDigits(r)
    ensures |r| < |s| ==> !IsDigit(s[|r|])
  {
    if s == [] || !IsDigit(s[0]) then [] else [s[0]] + DigitRun(s[1..])
  }

  /** A digit prefix that ends at a non-digit or at the end is the digit run. */
  lemma {:induction false} DigitRunOfPrefix(s: string, n: nat)
    requires n <= |s| && AllDigits(s[..n]) && (n < |s| ==> !IsDigit(s[n]))
    ensures DigitRun(s) == s[..n]
  {
    if n > 0 {
      assert s[..n][0] == s[0];
      assert s[1..][..n - 1] == s[..n][1..];
      DigitRunOfPrefix(s[1..], n - 1);
      assert s[..n] == [s[0]] + s[1..][..n - 1];
    }
  }

  function DigitChar(d: nat): (c: char)
    requires d < 10
    ensures IsDigit(c) && c as int - '0' as int == d
  {
    (d + '0' as int) as char
  }

  /** The value of a decimal digit string, most significant digit first. */
  function ParseDigits(s: string): nat
    requires AllDigits(s)
  {
    if s == [] then 0 else ParseDigits(s[..|s| - 1]) * 10 + (s[|s| - 1] as int - '0' as int)
  }

  /** The decimal digits of `n`, without leading zeros. */
  function NatToString(n: nat): (r: string)
    ensures r != [] && AllDigits(r)
  {
    if n < 10 then [DigitChar(n)] else NatToString(n / 10) + [DigitChar(n % 10)]
  }

  /** PHP's conversion of an integer to its decimal text. */
  function IntToString(i: int): string {
    if i < 0 then "-" + NatToString(-i) else NatToString(i)
  }

  /** Reading back the digits `NatToString` writes gives the number. */
  lemma {:induction false} ParseNatToString(n: nat)
    ensures ParseDigits(NatToString(n)) == n
  {
    var s := NatToString(n);
    if n >= 10 {
      ParseNatToString(n / 10);
      assert s[..|s| - 1] == NatToString(n / 10);
    }
  }

  /** ASCII case folding, as PCRE's `i` modifier does without the `u` modifier. */
  function LowerChar(c: char): char {
    if 'A' <= c <= 'Z' then (c as int + 32) as char else c
  }

  function LowerAscii(s: string): (r: string)
    ensures |r| == |s| && forall i :: 0 <= i < |s| ==> r[i] == LowerChar(s[i])
  {
    seq(|s|, i requires 0 <= i < |s| => LowerChar(s[i]))
  }
}
