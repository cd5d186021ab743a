/** ext/versionfmt/dpkg/parser.go: `verrevcmp`, the comparison of section 5.6.12 of the Debian
    Policy Manual, refines the zero-padded lexicographic order of a flat integer key. */
module DpkgOrder {
  import opened KeyOrder
  import opened VersionText

  /** Tilde below the end of the text, the end (0) below letters, letters below other symbols. */
  function Order(c: char): (r: int)
    ensures r == 0 <==> IsDigit(c)
  {
    if IsDigit(c) then 0
    else if IsLetter(c) then c as int
    else if c == '~' then -1
    else c as int + 256
  }

  /** Alternately, the orders of a run of non-digits closed by a 0, and the value of a run of
      digits. The zeros that pad a key stand for the end of the text. */
  function KeyOf(s: string): Key {
    if s == [] then []
    else if IsDigit(s[0]) then [0, Value(s[..DigitRun(s)])] + KeyOf(s[DigitRun(s)..])
    else [Order(s[0])] + KeyOf(s[1..])
  }

  predicate AtNumber(s: string, i: nat)
    requires i <= |s|
  {
    i < |s| ==> IsDigit(s[i])
  }

  /** The value of the digit run at `i`. */
  function NumberAt(s: string, i: nat): nat
    requires i <= |s|
  {
    Value(s[i..][..DigitRun(s[i..])])
  }

  function AfterNumber(s: string, i: nat): string
    requires i <= |s|
  {
    s[i..][DigitRun(s[i..])..]
  }

  function KeyFrom(s: string, i: nat): Key
    requires i <= |s|
  {
    KeyOf(s[i..])
  }

  /** Two keys that both stand at a number are decided by the numbers, then by what follows. */
  lemma NumberStep(s: string, i: nat, t: string, j: nat)
    requires i <= |s| && j <= |t| && AtNumber(s, i) && AtNumber(t, j)
    ensures Compare(KeyFrom(s, i), KeyFrom(t, j)) ==
            if NumberAt(s, i) != NumberAt(t, j) then Sign(NumberAt(s, i) - NumberAt(t, j))
            else Compare(KeyOf(AfterNumber(s, i)), KeyOf(AfterNumber(t, j)))
  {
  }

  /** Two keys that both stand at the same non-digit order go on behind it; different orders,
      where a digit or the end counts 0, decide. */
  lemma SymbolStep(s: string, i: nat, t: string, j: nat)
    requires i <= |s| && j <= |t|
    requires (i < |s| && !IsDigit(s[i])) || (j < |t| && !IsDigit(t[j]))
    ensures var ac, bc := OrderAt(s, i), OrderAt(t, j);
            if ac != bc then Compare(KeyFrom(s, i), KeyFrom(t, j)) == Sign(ac - bc)
            else i < |s| && j < |t| &&
                 Compare(KeyFrom(s, i), KeyFrom(t, j)) == Compare(KeyFrom(s, i + 1), KeyFrom(t, j + 1))
  {
  }

  function OrderAt(s: string, i: nat): int
    requires i <= |s|
  {
    if i < |s| then Order(s[i]) else 0
  }

  ghost predicate ZerosBetween(s: string, i: nat, z: nat) {
    i <= z <= |s| && forall k :: i <= k < z ==> s[k] == '0'
  }

  ghost predicate DigitsBetween(s: string, z: nat, e: nat) {
    z <= e <= |s| && AllDigits(s[z..e])
  }

  /** A scanned number: zeros, then digits up to a non-digit. */
  lemma ScannedNumber(s: string, i: nat, z: nat, e: nat)
    requires ZerosBetween(s, i, z) && DigitsBetween(s, z, e)
    requires e < |s| ==> !IsDigit(s[e])
    ensures NumberAt(s, i) == Value(s[z..e]) && AfterNumber(s, i) == s[e..]
  {
    var u := s[i..];
    assert u[..e - i] == s[i..z] + s[z..e];
    LeadingZeros(s[i..z], s[z..e]);
    assert forall k :: 0 <= k < |s[i..z]| ==> s[i..z][k] == '0';
    DigitRunIs(u, e - i);
  }

  /** Text `s` still has a digit where the number of `t`, scanned in step, has ended. */
  lemma LongerNumber(s: string, i: nat, z: nat, e: nat, t: string, j: nat, y: nat, f: nat)
    requires ZerosBetween(s, i, z) && DigitsBetween(s, z, e) && ZerosBetween(t, j, y) && DigitsBetween(t, y, f)
    requires e < |s| && IsDigit(s[e]) && s[z] != '0'
    requires f < |t| ==> !IsDigit(t[f])
    requires e - z == f - y
    ensures NumberAt(s, i) > NumberAt(t, j)
  {
    var n := DigitRun(s[e..]);
    assert s[e..][0] == s[e];
    assert s[z..e + n] == s[z..e] + s[e..][..n];
    ScannedNumber(t, j, y, f);
    assert e + n < |s| ==> s[e..][n] == s[e + n];
    ScannedNumber(s, i, z, e + n);
    LongerIsGreater(s[z..e + n], t[y..f]);
  }

  /** One more digit on each side keeps the sign of the first difference. */
  lemma NextDigits(s: string, z: nat, e: nat, t: string, y: nat, f: nat)
    requires DigitsBetween(s, z, e) && DigitsBetween(t, y, f)
    requires e < |s| && IsDigit(s[e]) && f < |t| && IsDigit(t[f])
    ensures DigitsBetween(s, z, e + 1) && DigitsBetween(t, y, f + 1)
    ensures var d := Value(s[z..e]) - Value(t[y..f]);
            Sign(Value(s[z..e + 1]) - Value(t[y..f + 1])) ==
            if d != 0 then Sign(d) else Sign(s[e] as int - t[f] as int)
  {
    assert s[z..e + 1] == s[z..e] + [s[e]] && s[z..e + 1][..e - z] == s[z..e];
    assert t[y..f + 1] == t[y..f] + [t[f]] && t[y..f + 1][..f - y] == t[y..f];
  }

  /** The cursor after `nextRune`: it stays at the end of the text. */
  function Next(s: string, i: nat): (n: nat)
    requires i <= |s|
    ensures n <= |s|
  {
    if i < |s| then i + 1 else i
  }

  /** The digit part of one round of `verrevcmp`: skip zeros, run through both numbers in step,
      remember the first difference. A non-zero `d` is what the round returns. */
  method CompareNumbers(t1: string, i0: nat, t2: string, j0: nat) returns (d: int, i: nat, j: nat)
    requires i0 <= |t1| && j0 <= |t2|
    ensures i0 <= i <= |t1| && j0 <= j <= |t2|
    ensures Sign(d) == Sign(NumberAt(t1, i0) - NumberAt(t2, j0))
    ensures d == 0 ==> t1[i..] == AfterNumber(t1, i0) && t2[j..] == AfterNumber(t2, j0)
  {
    i, j := i0, j0;
    var firstDiff := 0;
    while i < |t1| && t1[i] == '0'
      invariant ZerosBetween(t1, i0, i)
    {
      i := Next(t1, i);
    }
    while j < |t2| && t2[j] == '0'
      invariant ZerosBetween(t2, j0, j)
    {
      j := Next(t2, j);
    }
    ghost var iz: nat, jz: nat := i, j;
    while i < |t1| && IsDigit(t1[i]) && j < |t2| && IsDigit(t2[j])
      invariant DigitsBetween(t1, iz, i) && DigitsBetween(t2, jz, j) && i - iz == j - jz
      invariant Sign(firstDiff) == Sign(Value(t1[iz..i]) - Value(t2[jz..j]))
    {
      NextDigits(t1, iz, i, t2, jz, j);
      if firstDiff == 0 {
        firstDiff := t1[i] as int - t2[j] as int;
      }
      i, j := Next(t1, i), Next(t2, j);
    }
    if i < |t1| && IsDigit(t1[i]) {
      LongerNumber(t1, i0, iz, i, t2, j0, jz, j);
      return 1, i, j;
    }
    if j < |t2| && IsDigit(t2[j]) {
      LongerNumber(t2, j0, jz, j, t1, i0, iz, i);
      return -1, i, j;
    }
    ScannedNumber(t1, i0, iz, i);
    ScannedNumber(t2, j0, jz, j);
    return firstDiff, i, j;
  }

  /** The loops of `verrevcmp` with its two cursors: cursor `i` at `|t1|` is a nil `rt1`. */
  method Verrevcmp(t1: string, t2: string) returns (r: int)
    ensures Sign(r) == Compare(KeyOf(t1), KeyOf(t2))
  {
    var i: nat, j: nat := 0, 0;
    assert t1[0..] == t1 && t2[0..] == t2;
    while i < |t1| || j < |t2|
      invariant i <= |t1| && j <= |t2|
      invariant Compare(KeyFrom(t1, i), KeyFrom(t2, j)) == Compare(KeyOf(t1), KeyOf(t2))
      decreases |t1| - i + |t2| - j
    {
      ghost var i1, j1 := i, j;
      while (i < |t1| && !IsDigit(t1[i])) || (j < |t2| && !IsDigit(t2[j]))
        invariant i1 <= i <= |t1| && j1 <= j <= |t2|
        invariant Compare(KeyFrom(t1, i), KeyFrom(t2, j)) == Compare(KeyOf(t1), KeyOf(t2))
        decreases |t1| - i + |t2| - j
      {
        SymbolStep(t1, i, t2, j);
        var ac, bc := 0, 0;
        if i < |t1| { ac := Order(t1[i]); }
        if j < |t2| { bc := Order(t2[j]); }
        if ac != bc { return ac - bc; }
        i, j := Next(t1, i), Next(t2, j);
      }
      NumberStep(t1, i, t2, j);
      NumberIsNotEmpty(t1, i);
      NumberIsNotEmpty(t2, j);
      var firstDiff;
      firstDiff, i, j := CompareNumbers(t1, i, t2, j);
      if firstDiff != 0 {
        return firstDiff;
      }
    }
    return 0;
  }

  lemma NumberIsNotEmpty(s: string, i: nat)
    requires i <= |s| && AtNumber(s, i)
    ensures i < |s| ==> |AfterNumber(s, i)| < |s| - i
  {
  }

  // ----- What the order means for texts

  /** The end of one text and the start of another do not make one number. */
  predicate Apart(s: string, x: string) {
    s == [] || x == [] || !IsDigit(s[|s| - 1]) || !IsDigit(x[0])
  }

  /** Keys of such texts are concatenated. */
  lemma {:induction false} KeyOfConcat(s: string, x: string)
    requires Apart(s, x)
    ensures KeyOf(s + x) == KeyOf(s) + KeyOf(x)
    decreases |s|
  {
    if s == [] {
      assert s + x == x;
    } else {
      var n := if IsDigit(s[0]) then DigitRun(s) else 1;
      ApartBehind(s, x, n);
      KeyOfConcat(s[n..], x);
      FirstOfConcat(s, x, s + x);
      if IsDigit(s[0]) {
        Reassociate([0, Value(s[..n])], KeyOf(s[n..]), KeyOf(x));
      } else {
        Reassociate([Order(s[0])], KeyOf(s[n..]), KeyOf(x));
      }
    }
  }

  lemma ApartBehind(s: string, x: string, n: nat)
    requires Apart(s, x) && n <= |s|
    ensures Apart(s[n..], x)
  {
  }

  lemma Reassociate(p: Key, q: Key, r: Key)
    ensures p + q + r == p + (q + r)
  {
  }

  lemma FirstOfConcat(s: string, x: string, y: string)
    requires s != [] && Apart(s, x) && y == s + x
    ensures if IsDigit(s[0]) then KeyOf(y) == [0, Value(s[..DigitRun(s)])] + KeyOf(s[DigitRun(s)..] + x)
            else KeyOf(y) == [Order(s[0])] + KeyOf(s[1..] + x)
  {
    assert y[0] == s[0];
    if IsDigit(s[0]) {
      RunOfConcat(s, x);
      ConcatSlices(s, x, DigitRun(s));
    } else {
      ConcatSlices(s, x, 1);
    }
  }

  lemma ConcatSlices(s: string, x: string, n: nat)
    requires n <= |s|
    ensures (s + x)[..n] == s[..n] && (s + x)[n..] == s[n..] + x
  {
  }

  lemma RunOfConcat(s: string, x: string)
    requires s != [] && IsDigit(s[0]) && Apart(s, x)
    ensures DigitRun(s + x) == DigitRun(s) > 0
  {
    var n := DigitRun(s);
    assert (s + x)[..n] == s[..n];
    if n == |s| {
      assert s[..n][n - 1] == s[n - 1];
      assert x != [] ==> (s + x)[n] == x[0];
    } else {
      assert (s + x)[n] == s[n];
    }
    DigitRunIs(s + x, n);
  }

  /** The key of a text that goes on with a symbol. */
  lemma KeyWithSymbol(s: string, c: char, t: string)
    requires !IsDigit(c)
    ensures KeyOf(s + [c] + t) == KeyOf(s) + ([Order(c)] + KeyOf(t))
  {
    assert s + [c] + t == s + ([c] + t);
    assert ([c] + t)[1..] == t;
    KeyOfConcat(s, [c] + t);
  }

  /** A tilde sorts before the end of the text: 3.0~rc1 comes before 3.0. */
  lemma TildeIsBelowTheEnd(s: string, t: string)
    ensures Compare(KeyOf(s + "~" + t), KeyOf(s)) == -1
  {
    KeyWithSymbol(s, '~', t);
    AgainstTheEnd(KeyOf(s), [Order('~')] + KeyOf(t));
  }

  /** Every other symbol sorts after the end of the text. */
  lemma EndIsBelowSymbols(s: string, c: char, t: string)
    requires !IsDigit(c) && c != '~'
    ensures Compare(KeyOf(s), KeyOf(s + [c] + t)) == -1
  {
    KeyWithSymbol(s, c, t);
    AgainstTheEnd(KeyOf(s), [Order(c)] + KeyOf(t));
  }

  /** Where two texts first differ in symbols: letters sort before other symbols, and symbols of one
      kind by their codes. */
  lemma SymbolsByKind(s: string, c: char, t: string, d: char, u: string)
    requires !IsDigit(c) && c != '~' && !IsDigit(d) && d != '~'
    requires if IsLetter(c) == IsLetter(d) then c < d else IsLetter(c)
    ensures Compare(KeyOf(s + [c] + t), KeyOf(s + [d] + u)) == -1
  {
    KeyWithSymbol(s, c, t);
    KeyWithSymbol(s, d, u);
    NextEntries(KeyOf(s), [Order(c)] + KeyOf(t), [Order(d)] + KeyOf(u));
  }

  /** Between a text that does not end in a digit and one that does not start with one. */
  ghost predicate NumberIn(s: string, a: string, t: string) {
    a != [] && AllDigits(a) && (s == [] || !IsDigit(s[|s| - 1])) && (t == [] || !IsDigit(t[0]))
  }

  /** Numbers at the same place are compared by value, and equal ones leave it to what follows. */
  lemma NumbersByValue(s: string, a: string, t: string, b: string, u: string)
    requires NumberIn(s, a, t) && NumberIn(s, b, u)
    ensures Compare(KeyOf(s + a + t), KeyOf(s + b + u)) ==
            if Value(a) != Value(b) then Sign(Value(a) - Value(b)) else Compare(KeyOf(t), KeyOf(u))
  {
    KeyWithNumber(s, a, t);
    KeyWithNumber(s, b, u);
    NumberEntries(KeyOf(s + a + t), KeyOf(s + b + u), KeyOf(s), Value(a), KeyOf(t), Value(b), KeyOf(u));
  }

  lemma NumberEntries(k: Key, l: Key, p: Key, m: int, x: Key, n: int, y: Key)
    requires k == p + ([0, m] + x) && l == p + ([0, n] + y)
    ensures Compare(k, l) == if m != n then Sign(m - n) else Compare(x, y)
  {
    var a, b := [0, m] + x, [0, n] + y;
    NextEntries(p, a, b);
    assert a[1..] == [m] + x && b[1..] == [n] + y;
    FirstEntries(m, x, n, y);
  }

  lemma FirstEntries(m: int, x: Key, n: int, y: Key)
    ensures Compare([m] + x, [n] + y) == if m != n then Sign(m - n) else Compare(x, y)
  {
    assert ([m] + x)[1..] == x && ([n] + y)[1..] == y;
  }

  lemma KeyWithNumber(s: string, a: string, t: string)
    requires NumberIn(s, a, t)
    ensures KeyOf(s + a + t) == KeyOf(s) + ([0, Value(a)] + KeyOf(t))
  {
    assert s + a + t == s + (a + t);
    KeyOfConcat(s, a + t);
    KeyAtNumber(a, t);
  }

  lemma KeyAtNumber(a: string, t: string)
    requires a != [] && AllDigits(a) && (t == [] || !IsDigit(t[0]))
    ensures KeyOf(a + t) == [0, Value(a)] + KeyOf(t)
  {
    var x := a + t;
    assert x[0] == a[0] && x[..|a|] == a && x[|a|..] == t;
    assert |a| < |x| ==> x[|a|] == t[0];
    DigitRunIs(x, |a|);
  }
}
