/** Text primitives the version parsers share. A `string` is a Go byte string: one `char` per
    byte, and, as in the Go code, every byte is classified as the rune of the same value. */
module VersionText {

  datatype Option<+T> = None | Some(value: T)

  predicate IsDigit(c: char) {
    '0' <= c <= '9'
  }

  /** `unicode.IsLetter` on the runes 0..255. */
  predicate IsLetter(c: char) {
    var n := c as int;
    || 'a' <= c <= 'z' || 'A' <= c <= 'Z'
    || n == 0xAA || n == 0xB5 || n == 0xBA
    || (0xC0 <= n <= 0xFF && n != 0xD7 && n != 0xF7)
  }

  predicate IsSpace(c: char) {
    var n := c as int;
    9 <= n <= 13 || n == 32
  }

  predicate AllDigits(s: string) {
    forall i :: 0 <= i < |s| ==> IsDigit(s[i])
  }

  function DigitOf(c: char): (d: nat)
    requires IsDigit(c)
    ensures d < 10
  {
    c as int - '0' as int
  }

  /** The number a digit string denotes; the empty string denotes 0. */
  function Value(s: string): nat
    requires AllDigits(s)
  {
    if s == [] then 0 else 10 * Value(s[..|s| - 1]) + DigitOf(s[|s| - 1])
  }

  function Pow10(n: nat): (p: nat)
    ensures p >= 1
  {
    if n == 0 then 1 else 10 * Pow10(n - 1)
  }

  lemma {:induction false} Pow10Monotone(m: nat, n: nat)
    requires m <= n
    ensures Pow10(m) <= Pow10(n)
  {
    if m < n { Pow10Monotone(m, n - 1); }
  }

  lemma {:induction false} ValueBounds(s: string)
    requires AllDigits(s)
    ensures Value(s) < Pow10(|s|)
    ensures s != [] && s[0] != '0' ==> Value(s) >= Pow10(|s| - 1)
  {
    if s != [] {
      ValueBounds(s[..|s| - 1]);
    }
  }

  lemma {:induction false} LeadingZeros(z: string, s: string)
    requires forall i :: 0 <= i < |z| ==> z[i] == '0'
    requires AllDigits(s)
    ensures AllDigits(z + s) && Value(z + s) == Value(s)
  {
    if s == [] {
      assert z + s == z;
      if z != [] {
        LeadingZeros(z[..|z| - 1], s);
        assert z[..|z| - 1] + s == z[..|z| - 1];
      }
    } else {
      assert (z + s)[..|z + s| - 1] == z + s[..|s| - 1];
      LeadingZeros(z, s[..|s| - 1]);
    }
  }

  /** Without leading zeros the longer digit string denotes the greater number. */
  lemma {:induction false} LongerIsGreater(a: string, b: string)
    requires AllDigits(a) && AllDigits(b)
    requires |a| > |b| && a[0] != '0'
    ensures Value(a) > Value(b)
  {
    ValueBounds(a);
    ValueBounds(b);
    Pow10Monotone(|b|, |a| - 1);
  }

  /** Length of the leading run of digits. */
  function DigitRun(s: string): (n: nat)
    ensures n <= |s| && AllDigits(s[..n])
    ensures n < |s| ==> !IsDigit(s[n])
  {
    if s == [] || !IsDigit(s[0]) then 0 else 1 + DigitRun(s[1..])
  }

  lemma {:induction false} DigitRunIs(s: string, n: nat)
    requires n <= |s| && AllDigits(s[..n])
    requires n < |s| ==> !IsDigit(s[n])
    ensures DigitRun(s) == n
  {
    if n > 0 {
      assert s[..n][0] == s[0];
      assert s[1..][..n - 1] == s[..n][1..];
      DigitRunIs(s[1..], n - 1);
    }
  }

  // ----- strconv.Itoa and strconv.Atoi on 64-bit integers

  const MAX_INT := 0x7FFF_FFFF_FFFF_FFFF

  function Itoa(n: nat): (s: string)
    ensures s != [] && AllDigits(s)
  {
    if n < 10 then [(n + '0' as int) as char]
    else Itoa(n / 10) + [(n % 10 + '0' as int) as char]
  }

  /** Optional sign, at least one digit, digits only, and in the range of `int`. */
  function Atoi(s: string): (r: Option<int>)
    ensures r.Some? ==> s != [] && forall i :: 1 <= i < |s| ==> IsDigit(s[i])
    ensures r.Some? && r.value > 0 ==> s[0] != '-'
  {
    var signed := s != [] && (s[0] == '-' || s[0] == '+');
    var digits := if signed then s[1..] else s;
    if digits == [] || !AllDigits(digits) then None
    else
      var n: int := Value(digits);
      if s[0] == '-' then (if n <= MAX_INT + 1 then Some(-n) else None)
      else if n <= MAX_INT then Some(n) else None
  }

  lemma {:induction false} ItoaValue(n: nat)
    ensures Value(Itoa(n)) == n
  {
    if n >= 10 {
      ItoaValue(n / 10);
      var s := Itoa(n);
      assert s[..|s| - 1] == Itoa(n / 10);
    }
  }

  lemma AtoiOfItoa(n: nat)
    requires n <= MAX_INT
    ensures Atoi(Itoa(n)) == Some(n)
  {
    ItoaValue(n);
  }

  /** Digits are read with either sign or none, in the range of 64 bits. */
  lemma SignedNumbers(d: string)
    requires d != [] && AllDigits(d)
    ensures Atoi(['+'] + d) == Atoi(d) == if Value(d) <= 9_223_372_036_854_775_807 then Some(Value(d)) else None
    ensures Value(d) <= 9_223_372_036_854_775_808 ==> Atoi(['-'] + d) == Some(0 - Value(d))
    ensures Value(d) > 9_223_372_036_854_775_808 ==> Atoi(['-'] + d) == None
  {
    assert (['+'] + d)[1..] == d && (['-'] + d)[1..] == d;
  }

  // ----- strings.TrimSpace, strings.Index and strings.LastIndex

  function TrimLeft(s: string): string {
    if s != [] && IsSpace(s[0]) then TrimLeft(s[1..]) else s
  }

  function TrimRight(s: string): string {
    if s != [] && IsSpace(s[|s| - 1]) then TrimRight(s[..|s| - 1]) else s
  }

  function TrimSpace(s: string): string {
    TrimRight(TrimLeft(s))
  }

  lemma TrimSpaceIsIdentity(s: string)
    requires s == [] || (!IsSpace(s[0]) && !IsSpace(s[|s| - 1]))
    ensures TrimSpace(s) == s
  {
  }

  /** Blanks, tabs and line ends around a text are stripped, and nothing else. */
  lemma {:induction false} TrimSpaceStrips(l: string, s: string, r: string)
    requires forall i :: 0 <= i < |l| ==> l[i] in " \t\n\r"
    requires forall i :: 0 <= i < |r| ==> r[i] in " \t\n\r"
    requires s != [] && !IsSpace(s[0]) && !IsSpace(s[|s| - 1])
    ensures TrimSpace(l + s + r) == s
  {
    TrimLeftStrips(l, s + r);
    TrimRightStrips(s, r);
    assert l + s + r == l + (s + r);
  }

  lemma {:induction false} TrimLeftStrips(l: string, s: string)
    requires forall i :: 0 <= i < |l| ==> IsSpace(l[i])
    requires s != [] && !IsSpace(s[0])
    ensures TrimLeft(l + s) == s
    decreases |l|
  {
    if l == [] {
      assert l + s == s;
    } else {
      assert (l + s)[1..] == l[1..] + s;
      TrimLeftStrips(l[1..], s);
    }
  }

  lemma {:induction false} TrimRightStrips(s: string, r: string)
    requires forall i :: 0 <= i < |r| ==> IsSpace(r[i])
    requires s != [] && !IsSpace(s[|s| - 1])
    ensures TrimRight(s + r) == s
    decreases |r|
  {
    if r == [] {
      assert s + r == s;
    } else {
      assert (s + r)[..|s + r| - 1] == s + r[..|r| - 1];
      TrimRightStrips(s, r[..|r| - 1]);
    }
  }

  /** Letters, digits and spaces among the ASCII characters. */
  lemma AsciiClasses(c: char)
    requires c as int < 128
    ensures IsLetter(c) <==> 'a' <= c <= 'z' || 'A' <= c <= 'Z'
    ensures IsDigit(c) <==> c in "0123456789"
    ensures IsSpace(c) <==> c in " \t\n\r" || c as int == 11 || c as int == 12
  {
    assert IsDigit(c) ==> c == "0123456789"[c as int - 48];
  }

  /** Position of the first `c`, or -1. */
  function Index(s: string, c: char): (i: int)
    ensures -1 <= i < |s|
    ensures i == -1 ==> c !in s
    ensures i >= 0 ==> s[i] == c && forall k :: 0 <= k < i ==> s[k] != c
  {
    IndexFrom(s, c, 0)
  }

  function IndexFrom(s: string, c: char, from: nat): (i: int)
    requires from <= |s|
    ensures i == -1 || from <= i < |s|
    ensures i == -1 ==> forall k :: from <= k < |s| ==> s[k] != c
    ensures i >= 0 ==> s[i] == c && forall k :: from <= k < i ==> s[k] != c
    decreases |s| - from
  {
    if from == |s| then -1 else if s[from] == c then from else IndexFrom(s, c, from + 1)
  }

  /** Position of the last `c`, or -1. */
  function LastIndex(s: string, c: char): (i: int)
    ensures -1 <= i < |s|
    ensures i == -1 ==> c !in s
    ensures i >= 0 ==> s[i] == c && forall k :: i < k < |s| ==> s[k] != c
  {
    LastIndexBefore(s, c, |s|)
  }

  function LastIndexBefore(s: string, c: char, before: nat): (i: int)
    requires before <= |s|
    ensures -1 <= i < before
    ensures i == -1 ==> forall k :: 0 <= k < before ==> s[k] != c
    ensures i >= 0 ==> s[i] == c && forall k :: i < k < before ==> s[k] != c
  {
    if before == 0 then -1
    else if s[before - 1] == c then before - 1
    else LastIndexBefore(s, c, before - 1)
  }
}
