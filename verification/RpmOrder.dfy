/** ext/versionfmt/rpm/parser.go: `rpmvercmp` refines the zero-padded lexicographic order of a
    flat integer key made from the segments of the text. */
module RpmOrder {
  import opened KeyOrder
  import opened VersionText

  predicate IsAlpha(c: char) {
    'a' <= c <= 'z' || 'A' <= c <= 'Z'
  }

  predicate AllAlpha(s: string) {
    forall i :: 0 <= i < |s| ==> IsAlpha(s[i])
  }

  function AlphaRun(s: string): (n: nat)
    ensures n <= |s| && AllAlpha(s[..n])
    ensures n < |s| ==> !IsAlpha(s[n])
  {
    if s == [] || !IsAlpha(s[0]) then 0 else 1 + AlphaRun(s[1..])
  }

  predicate IsSegment(a: string) {
    a == "~" || (a != [] && (AllDigits(a) || AllAlpha(a)))
  }

  /** All matches of `([a-zA-Z]+)|([0-9]+)|(~)`, from left to right. */
  function Segments(s: string): (r: seq<string>)
    ensures forall i :: 0 <= i < |r| ==> IsSegment(r[i])
  {
    if s == [] then []
    else if s[0] == '~' then ["~"] + Segments(s[1..])
    else if IsDigit(s[0]) then [s[..DigitRun(s)]] + Segments(s[DigitRun(s)..])
    else if IsAlpha(s[0]) then [s[..AlphaRun(s)]] + Segments(s[AlphaRun(s)..])
    else Segments(s[1..])
  }

  predicate InSegment(c: char) {
    c == '~' || IsDigit(c) || IsAlpha(c)
  }

  predicate SameClass(c: char, d: char) {
    (IsDigit(c) && IsDigit(d)) || (IsAlpha(c) && IsAlpha(d))
  }

  /** The leftmost match: nothing before position `g` can match, and the match cannot be longer. */
  ghost predicate IsMatchAt(s: string, seg: string, g: nat) {
    && IsSegment(seg) && g + |seg| <= |s| && s[g..g + |seg|] == seg
    && (forall i :: 0 <= i < g ==> !InSegment(s[i]))
    && (g + |seg| < |s| ==> !SameClass(seg[0], s[g + |seg|]))
  }

  ghost predicate FirstMatchAt(s: string, segs: seq<string>, g: nat)
    requires segs != []
    decreases |segs|, 0
  {
    IsMatchAt(s, segs[0], g) && AreMatches(s[g + |segs[0]|..], segs[1..])
  }

  /** `FindAllString`: one leftmost match after the other, until nothing matches. */
  ghost predicate AreMatches(s: string, segs: seq<string>)
    decreases |segs|, 1
  {
    if segs == [] then forall i :: 0 <= i < |s| ==> !InSegment(s[i])
    else exists g: nat :: FirstMatchAt(s, segs, g)
  }

  lemma {:induction false} AlphaRunIs(s: string, n: nat)
    requires n <= |s| && AllAlpha(s[..n])
    requires n < |s| ==> !IsAlpha(s[n])
    ensures AlphaRun(s) == n
  {
    if n > 0 {
      assert s[..n][0] == s[0];
      assert s[1..][..n - 1] == s[..n][1..];
      AlphaRunIs(s[1..], n - 1);
    }
  }

  /** The run at the start of a text. */
  function FirstRun(s: string): (n: nat)
    requires s != [] && InSegment(s[0])
    ensures 0 < n <= |s|
  {
    if s[0] == '~' then 1 else if IsDigit(s[0]) then DigitRun(s) else AlphaRun(s)
  }

  lemma MatchAtStart(s: string, seg: string, g: nat)
    requires s != [] && InSegment(s[0])
    ensures IsMatchAt(s, seg, g) <==> g == 0 && seg == s[..FirstRun(s)]
  {
    if IsMatchAt(s, seg, g) {
      assert g == 0 && s[0..|seg|] == s[..|seg|] && seg[0] == s[0];
      if IsDigit(s[0]) {
        DigitRunIs(s, |seg|);
      } else if IsAlpha(s[0]) {
        AlphaRunIs(s, |seg|);
      }
    }
    if g == 0 && seg == s[..FirstRun(s)] {
      assert s[0..|seg|] == seg && seg[0] == s[0];
    }
  }

  lemma SliceOfTail(s: string, i: nat, j: nat)
    requires 0 < i <= j <= |s|
    ensures s[i..j] == s[1..][i - 1..j - 1] && s[j..] == s[1..][j - 1..]
  {
    forall k | 0 <= k < j - i ensures s[i..j][k] == s[1..][i - 1..j - 1][k] {}
  }

  lemma MatchFurtherOn(s: string, seg: string, g: nat)
    requires s != [] && !InSegment(s[0])
    ensures IsMatchAt(s, seg, g) <==> g > 0 && IsMatchAt(s[1..], seg, g - 1)
    ensures g > 0 && g + |seg| <= |s| ==> s[g + |seg|..] == s[1..][g - 1 + |seg|..]
  {
    if g > 0 && g + |seg| <= |s| {
      SliceOfTail(s, g, g + |seg|);
      assert forall i :: 0 < i < g ==> s[i] == s[1..][i - 1];
    } else if g == 0 && |seg| > 0 && |seg| <= |s| {
      assert s[0..|seg|][0] == s[0];
    }
  }

  /** `Segments` is the list of all matches, and the only one. */
  lemma {:induction false} SegmentsAreMatches(s: string, segs: seq<string>)
    ensures AreMatches(s, segs) <==> segs == Segments(s)
    decreases |s|
  {
    if s == [] {
      NothingMatches(segs);
    } else if InSegment(s[0]) {
      var n := FirstRun(s);
      assert s[0] == '~' ==> s[..1] == "~";
      assert Segments(s) == [s[..n]] + Segments(s[n..]);
      if segs == [] {
        assert !AreMatches(s, segs);
      } else {
        SegmentsAreMatches(s[n..], segs[1..]);
        forall g: nat ensures IsMatchAt(s, segs[0], g) <==> g == 0 && segs[0] == s[..n] {
          MatchAtStart(s, segs[0], g);
        }
        assert segs == [segs[0]] + segs[1..];
        assert segs[0] == s[..n] ==> (FirstMatchAt(s, segs, 0) <==> AreMatches(s[n..], segs[1..]));
      }
    } else {
      SegmentsAreMatches(s[1..], segs);
      SkipOther(s, segs);
    }
  }

  lemma NothingMatches(segs: seq<string>)
    ensures AreMatches([], segs) <==> segs == []
  {
  }

  lemma SkipOther(s: string, segs: seq<string>)
    requires s != [] && !InSegment(s[0])
    ensures AreMatches(s, segs) <==> AreMatches(s[1..], segs)
  {
    if segs == [] {
      assert forall i :: 0 < i < |s| ==> s[i] == s[1..][i - 1];
    } else {
      forall g: nat ensures FirstMatchAt(s, segs, g + 1) <==> FirstMatchAt(s[1..], segs, g) {
        MatchFurtherOn(s, segs[0], g + 1);
      }
      MatchFurtherOn(s, segs[0], 0);
      if g: nat :| FirstMatchAt(s[1..], segs, g) {
        assert FirstMatchAt(s, segs, g + 1);
      }
      if g: nat :| FirstMatchAt(s, segs, g) {
        assert FirstMatchAt(s, segs, g - 1 + 1) && FirstMatchAt(s[1..], segs, g - 1);
      }
    }
  }

  function Codes(s: string): Key {
    seq(|s|, i requires 0 <= i < |s| => s[i] as int)
  }

  /** A tilde counts -1, the end of the text 0, a word 1 and its closed letters, a number 2 and
      its value. */
  function Block(a: string): Key
    requires IsSegment(a)
  {
    if a[0] == '~' then [-1]
    else if IsDigit(a[0]) then [2, Value(a)]
    else [1] + (Codes(a) + [0])
  }

  function SegmentsKey(segs: seq<string>): Key
    requires forall i :: 0 <= i < |segs| ==> IsSegment(segs[i])
  {
    if segs == [] then [] else Block(segs[0]) + SegmentsKey(segs[1..])
  }

  function KeyOf(s: string): Key {
    SegmentsKey(Segments(s))
  }

  /** Go's `<` on strings. */
  predicate StringLess(a: string, b: string) {
    if b == [] then false
    else if a == [] then true
    else if a[0] != b[0] then a[0] < b[0]
    else StringLess(a[1..], b[1..])
  }

  /** Tilde below words below numbers; words as strings, numbers by value. */
  function SegmentOrder(a: string, b: string): int
    requires IsSegment(a) && IsSegment(b)
  {
    if Block(a)[0] != Block(b)[0] then Sign(Block(a)[0] - Block(b)[0])
    else if a[0] == '~' then 0
    else if IsDigit(a[0]) then Sign(Value(a) - Value(b))
    else if StringLess(a, b) then -1 else if StringLess(b, a) then 1 else 0
  }

  lemma {:induction false} ClosedCodes(a: string, x: Key, b: string, y: Key)
    requires AllAlpha(a) && AllAlpha(b)
    ensures Compare(Codes(a) + [0] + x, Codes(b) + [0] + y) ==
            if StringLess(a, b) then -1 else if StringLess(b, a) then 1 else Compare(x, y)
  {
    ClosedCode(a, x);
    ClosedCode(b, y);
    if a != [] && b != [] && a[0] == b[0] {
      ClosedCodes(a[1..], x, b[1..], y);
    }
  }

  /** The first entry of a closed word, and what follows it. */
  lemma ClosedCode(a: string, x: Key)
    ensures var k := Codes(a) + [0] + x;
            if a == [] then k[0] == 0 && k[1..] == x
            else k[0] == a[0] as int && k[1..] == Codes(a[1..]) + [0] + x
  {
    var k := Codes(a) + [0] + x;
    if a == [] {
      assert k == [0] + x;
    } else {
      assert Codes(a) == [a[0] as int] + Codes(a[1..]);
      assert k == [a[0] as int] + (Codes(a[1..]) + [0] + x);
    }
  }

  /** The first segments decide between two keys, or what follows them does. */
  lemma SegmentStep(a: string, x: Key, b: string, y: Key)
    requires IsSegment(a) && IsSegment(b)
    ensures Compare(Block(a) + x, Block(b) + y) ==
            if SegmentOrder(a, b) != 0 then SegmentOrder(a, b) else Compare(x, y)
  {
    if Block(a)[0] != Block(b)[0] {
      FirstDecides(Block(a) + x, Block(b) + y);
    } else if a[0] == '~' {
      SkipFirst(-1, x, y);
    } else if IsDigit(a[0]) {
      NumberBlocks(Value(a), x, Value(b), y);
    } else {
      WordBlocks(a, x, b, y);
    }
  }

  lemma WordBlocks(a: string, x: Key, b: string, y: Key)
    requires AllAlpha(a) && AllAlpha(b)
    ensures Compare([1] + (Codes(a) + [0]) + x, [1] + (Codes(b) + [0]) + y) ==
            if StringLess(a, b) then -1 else if StringLess(b, a) then 1 else Compare(x, y)
  {
    Reassociate([1], Codes(a) + [0], x);
    Reassociate([1], Codes(b) + [0], y);
    SkipFirst(1, Codes(a) + [0] + x, Codes(b) + [0] + y);
    ClosedCodes(a, x, b, y);
  }

  lemma Reassociate(p: Key, q: Key, r: Key)
    ensures p + q + r == p + (q + r)
  {
  }

  lemma FirstDecides(k: Key, l: Key)
    requires k != [] && l != [] && k[0] != l[0]
    ensures Compare(k, l) == Sign(k[0] - l[0])
  {
  }

  lemma SkipFirst(n: int, x: Key, y: Key)
    ensures Compare([n] + x, [n] + y) == Compare(x, y)
  {
  }

  lemma NumberBlocks(m: int, x: Key, n: int, y: Key)
    ensures Compare([2, m] + x, [2, n] + y) == if m != n then Sign(m - n) else Compare(x, y)
  {
  }

  function TrimZeros(s: string): string {
    if s != [] && s[0] == '0' then TrimZeros(s[1..]) else s
  }

  lemma {:induction false} TrimZerosKeepsValue(s: string)
    requires AllDigits(s)
    ensures AllDigits(TrimZeros(s)) && Value(TrimZeros(s)) == Value(s)
    ensures TrimZeros(s) == [] || TrimZeros(s)[0] != '0'
  {
    if s != [] && s[0] == '0' {
      TrimZerosKeepsValue(s[1..]);
      assert s == ['0'] + s[1..];
      LeadingZeros(['0'], s[1..]);
    }
  }

  lemma {:induction false} StringLessOnLast(a: string, c: char, b: string, d: char)
    requires |a| == |b|
    ensures StringLess(a + [c], b + [d]) <==> StringLess(a, b) || (a == b && c < d)
  {
    if a != [] {
      assert (a + [c])[1..] == a[1..] + [c] && (b + [d])[1..] == b[1..] + [d];
      StringLessOnLast(a[1..], c, b[1..], d);
    }
  }

  /** On digit strings of one length, string order is the order of the values. */
  lemma {:induction false} SameLengthOrder(a: string, b: string)
    requires AllDigits(a) && AllDigits(b) && |a| == |b|
    ensures StringLess(a, b) <==> Value(a) < Value(b)
    ensures a == b <==> Value(a) == Value(b)
    decreases |a|
  {
    if a != [] {
      var n := |a| - 1;
      SameLengthOrder(a[..n], b[..n]);
      OneMoreDigit(a[..n], a[n], b[..n], b[n]);
      assert a == a[..n] + [a[n]] && b == b[..n] + [b[n]];
    }
  }

  lemma OneMoreDigit(a: string, c: char, b: string, d: char)
    requires AllDigits(a) && AllDigits(b) && IsDigit(c) && IsDigit(d) && |a| == |b|
    requires (StringLess(a, b) <==> Value(a) < Value(b)) && (a == b <==> Value(a) == Value(b))
    ensures StringLess(a + [c], b + [d]) <==> Value(a + [c]) < Value(b + [d])
    ensures a + [c] == b + [d] <==> Value(a + [c]) == Value(b + [d])
  {
    StringLessOnLast(a, c, b, d);
    ValueOfOneMore(a, c);
    ValueOfOneMore(b, d);
    assert a + [c] == b + [d] ==> a == b && c == d by {
      if a + [c] == b + [d] {
        assert (a + [c])[..|a|] == (b + [d])[..|a|] && (a + [c])[|a|] == (b + [d])[|a|];
      }
    }
  }

  lemma ValueOfOneMore(a: string, c: char)
    requires AllDigits(a) && IsDigit(c)
    ensures AllDigits(a + [c]) && Value(a + [c]) == 10 * Value(a) + DigitOf(c)
  {
    assert (a + [c])[..|a|] == a;
  }

  /** "Trim zeros, then length, then string order" is the order of the values. */
  lemma TrimmedOrder(a: string, b: string)
    requires AllDigits(a) && AllDigits(b)
    ensures var ta, tb := TrimZeros(a), TrimZeros(b);
            Sign(Value(a) - Value(b)) ==
            if |ta| != |tb| then Sign(|ta| - |tb|)
            else if StringLess(ta, tb) then -1 else if StringLess(tb, ta) then 1 else 0
  {
    var ta, tb := TrimZeros(a), TrimZeros(b);
    TrimZerosKeepsValue(a);
    TrimZerosKeepsValue(b);
    if |ta| > |tb| {
      LongerIsGreater(ta, tb);
    } else if |ta| < |tb| {
      LongerIsGreater(tb, ta);
    } else {
      SameLengthOrder(ta, tb);
      SameLengthOrder(tb, ta);
    }
  }

  /** A segment at `i` splits off the front of the key of the segments from `i` on. */
  lemma SplitKey(segs: seq<string>, i: nat)
    requires forall k :: 0 <= k < |segs| ==> IsSegment(segs[k])
    requires i < |segs|
    ensures SegmentsKey(segs[i..]) == Block(segs[i]) + SegmentsKey(segs[i + 1..])
  {
  }

  /** The end of one text against the next segment of the other. */
  lemma EndAgainstSegment(segs: seq<string>, i: nat)
    requires forall k :: 0 <= k < |segs| ==> IsSegment(segs[k])
    requires i < |segs|
    ensures Compare(SegmentsKey(segs[i..]), []) == if segs[i][0] == '~' then -1 else 1
    ensures Compare([], SegmentsKey(segs[i..])) == if segs[i][0] == '~' then 1 else -1
  {
  }

  /** One round of the loop over segments; 0 goes on to the next round. */
  method CompareSegments(a: string, b: string) returns (r: int)
    requires IsSegment(a) && IsSegment(b)
    ensures r == SegmentOrder(a, b)
  {
    if a[0] == '~' && b[0] == '~' {
      return 0;
    }
    if a[0] == '~' && b[0] != '~' {
      return -1;
    }
    if a[0] != '~' && b[0] == '~' {
      return 1;
    }
    var x, y := a, b;
    if IsDigit(x[0]) {
      if !IsDigit(y[0]) {
        return 1;
      }
      TrimmedOrder(a, b);
      x, y := TrimZeros(x), TrimZeros(y);
      if |x| > |y| {
        return 1;
      } else if |y| > |x| {
        return -1;
      }
    } else if IsDigit(y[0]) {
      return -1;
    }
    if StringLess(x, y) {
      return -1;
    } else if StringLess(y, x) {
      return 1;
    }
    return 0;
  }

  method Rpmvercmp(strA: string, strB: string) returns (r: int)
    ensures r == Compare(KeyOf(strA), KeyOf(strB))
  {
    if strA == strB {
      Reflexive(KeyOf(strA));
      return 0;
    }
    var segsa, segsb := Segments(strA), Segments(strB);
    var segs := if |segsa| < |segsb| then |segsa| else |segsb|;
    assert segsa[0..] == segsa && segsb[0..] == segsb;
    for i := 0 to segs
      invariant Compare(SegmentsKey(segsa[i..]), SegmentsKey(segsb[i..])) == Compare(KeyOf(strA), KeyOf(strB))
    {
      SplitKey(segsa, i);
      SplitKey(segsb, i);
      SegmentStep(segsa[i], SegmentsKey(segsa[i + 1..]), segsb[i], SegmentsKey(segsb[i + 1..]));
      var d := CompareSegments(segsa[i], segsb[i]);
      if d != 0 {
        return d;
      }
    }
    if |segsa| == |segsb| {
      assert segsa[segs..] == [] && segsb[segs..] == [];
      return 0;
    }
    r := CompareRests(segsa, segsb, segs);
  }

  /** What is left when one list of segments has ended. */
  method CompareRests(segsa: seq<string>, segsb: seq<string>, segs: nat) returns (r: int)
    requires forall k :: 0 <= k < |segsa| ==> IsSegment(segsa[k])
    requires forall k :: 0 <= k < |segsb| ==> IsSegment(segsb[k])
    requires |segsa| != |segsb| && segs == if |segsa| < |segsb| then |segsa| else |segsb|
    ensures r == Compare(SegmentsKey(segsa[segs..]), SegmentsKey(segsb[segs..]))
  {
    if |segsa| > segs {
      assert segsb[segs..] == [];
      EndAgainstSegment(segsa, segs);
    } else {
      assert segsa[segs..] == [];
      EndAgainstSegment(segsb, segs);
    }
    if |segsa| > segs && segsa[segs][0] == '~' {
      return -1;
    } else if |segsb| > segs && segsb[segs][0] == '~' {
      return 1;
    }
    if |segsa| > |segsb| {
      return 1;
    }
    return -1;
  }

  // ----- What the order means for texts

  /** The end of one text and the start of another do not make one segment. */
  predicate Apart(s: string, x: string) {
    s == [] || x == [] || !SameClass(s[|s| - 1], x[0])
  }

  lemma {:induction false} SegmentsOfConcat(s: string, x: string)
    requires Apart(s, x)
    ensures Segments(s + x) == Segments(s) + Segments(x)
    decreases |s|
  {
    if s == [] {
      assert s + x == x;
    } else if InSegment(s[0]) {
      var n := FirstRun(s);
      ApartBehind(s, x, n);
      SegmentsOfConcat(s[n..], x);
      FirstOfConcat(s, x);
    } else {
      assert (s + x)[1..] == s[1..] + x;
      ApartBehind(s, x, 1);
      SegmentsOfConcat(s[1..], x);
    }
  }

  lemma ApartBehind(s: string, x: string, n: nat)
    requires Apart(s, x) && n <= |s|
    ensures Apart(s[n..], x)
  {
  }

  lemma FirstOfConcat(s: string, x: string)
    requires s != [] && InSegment(s[0]) && Apart(s, x)
    requires Segments(s[FirstRun(s)..] + x) == Segments(s[FirstRun(s)..]) + Segments(x)
    ensures Segments(s + x) == Segments(s) + Segments(x)
  {
    FirstSegment(s);
    SplitFirst(s, x, s + x);
    Regroup([s[..FirstRun(s)]], Segments(s[FirstRun(s)..]), Segments(x));
  }

  lemma Regroup(a: seq<string>, b: seq<string>, c: seq<string>)
    ensures a + b + c == a + (b + c)
  {
  }

  lemma SplitFirst(s: string, x: string, y: string)
    requires s != [] && InSegment(s[0]) && Apart(s, x) && y == s + x
    ensures Segments(y) == [s[..FirstRun(s)]] + Segments(s[FirstRun(s)..] + x)
  {
    RunOfConcat(s, x);
    ConcatSlices(s, x, FirstRun(s));
    FirstSegment(y);
  }

  lemma ConcatSlices(s: string, x: string, n: nat)
    requires n <= |s|
    ensures (s + x)[..n] == s[..n] && (s + x)[n..] == s[n..] + x
  {
  }

  lemma FirstSegment(s: string)
    requires s != [] && InSegment(s[0])
    ensures Segments(s) == [s[..FirstRun(s)]] + Segments(s[FirstRun(s)..])
  {
    assert s[0] == '~' ==> s[..1] == "~";
  }

  lemma RunOfConcat(s: string, x: string)
    requires s != [] && InSegment(s[0]) && Apart(s, x)
    ensures InSegment((s + x)[0]) && FirstRun(s + x) == FirstRun(s)
  {
    var n := FirstRun(s);
    assert (s + x)[0] == s[0] && (s + x)[..n] == s[..n];
    assert s[..n][n - 1] == s[n - 1];
    assert n < |s + x| ==> (s + x)[n] == if n < |s| then s[n] else x[0];
    if IsDigit(s[0]) {
      DigitRunIs(s + x, n);
    } else if IsAlpha(s[0]) {
      AlphaRunIs(s + x, n);
    }
  }

  lemma {:induction false} KeyOfSegments(a: seq<string>, b: seq<string>)
    requires forall i :: 0 <= i < |a| ==> IsSegment(a[i])
    requires forall i :: 0 <= i < |b| ==> IsSegment(b[i])
    ensures SegmentsKey(a + b) == SegmentsKey(a) + SegmentsKey(b)
    decreases |a|
  {
    if a == [] {
      assert a + b == b;
    } else {
      assert (a + b)[1..] == a[1..] + b;
      KeyOfSegments(a[1..], b);
      Reassociate(Block(a[0]), SegmentsKey(a[1..]), SegmentsKey(b));
    }
  }

  lemma KeyOfConcat(s: string, x: string)
    requires Apart(s, x)
    ensures KeyOf(s + x) == KeyOf(s) + KeyOf(x)
  {
    SegmentsOfConcat(s, x);
    KeyOfSegments(Segments(s), Segments(x));
  }

  /** A text whose first segment is `a`, behind a text that ends before it. */
  lemma KeyWithSegment(s: string, a: string, t: string)
    requires IsSegment(a) && Apart(s, a) && Apart(a, t)
    ensures KeyOf(s + a + t) == KeyOf(s) + (Block(a) + KeyOf(t))
  {
    assert s + a + t == s + (a + t) && (a + t)[0] == a[0];
    KeyOfConcat(s, a + t);
    KeyOfConcat(a, t);
    OneSegment(a);
  }

  lemma OneSegment(a: string)
    requires IsSegment(a)
    ensures KeyOf(a) == Block(a)
  {
    assert a[..|a|] == a && a[|a|..] == [];
    if IsDigit(a[0]) {
      DigitRunIs(a, |a|);
    } else if IsAlpha(a[0]) {
      AlphaRunIs(a, |a|);
    }
    FirstSegment(a);
    assert Segments(a) == [a] && [a][1..] == [];
    assert SegmentsKey([a]) == Block(a) + [] == Block(a);
  }

  /** A tilde sorts before the end of the text: 3.0~rc1 comes before 3.0. */
  lemma TildeIsBelowTheEnd(s: string, t: string)
    ensures Compare(KeyOf(s + "~" + t), KeyOf(s)) == -1
  {
    KeyWithSegment(s, "~", t);
    AgainstTheEnd(KeyOf(s), [-1] + KeyOf(t));
  }

  /** A further word or number sorts after the end of the text. */
  lemma EndIsBelowSegments(s: string, a: string, t: string)
    requires a != [] && (AllDigits(a) || AllAlpha(a)) && Apart(s, a) && Apart(a, t)
    ensures Compare(KeyOf(s), KeyOf(s + a + t)) == -1
  {
    KeyWithSegment(s, a, t);
    AgainstTheEnd(KeyOf(s), Block(a) + KeyOf(t));
  }

  /** At the same place a word sorts before a number. */
  lemma WordsAreBelowNumbers(s: string, a: string, t: string, b: string, u: string)
    requires a != [] && AllAlpha(a) && Apart(s, a) && Apart(a, t)
    requires b != [] && AllDigits(b) && Apart(s, b) && Apart(b, u)
    ensures Compare(KeyOf(s + a + t), KeyOf(s + b + u)) == -1
  {
    KeyWithSegment(s, a, t);
    KeyWithSegment(s, b, u);
    CommonPrefix(KeyOf(s), Block(a) + KeyOf(t), Block(b) + KeyOf(u));
    FirstDecides(Block(a) + KeyOf(t), Block(b) + KeyOf(u));
  }

  /** Numbers at the same place are compared by value, and equal ones leave it to what follows. */
  lemma NumbersByValue(s: string, a: string, t: string, b: string, u: string)
    requires a != [] && AllDigits(a) && Apart(s, a) && Apart(a, t)
    requires b != [] && AllDigits(b) && Apart(s, b) && Apart(b, u)
    ensures Compare(KeyOf(s + a + t), KeyOf(s + b + u)) ==
            if Value(a) != Value(b) then Sign(Value(a) - Value(b)) else Compare(KeyOf(t), KeyOf(u))
  {
    KeyWithSegment(s, a, t);
    KeyWithSegment(s, b, u);
    CommonPrefix(KeyOf(s), Block(a) + KeyOf(t), Block(b) + KeyOf(u));
    NumberBlocks(Value(a), KeyOf(t), Value(b), KeyOf(u));
  }

  /** Words at the same place are compared letter by letter, and a word sorts before a longer one
      that it starts. */
  lemma WordsByLetters(s: string, w: string, a: string, t: string, b: string, u: string)
    requires AllAlpha(w + a) && w + a != [] && Apart(s, w + a) && Apart(w + a, t)
    requires AllAlpha(w + b) && w + b != [] && Apart(s, w + b) && Apart(w + b, u)
    requires b != [] && (a == [] || a[0] < b[0])
    ensures Compare(KeyOf(s + (w + a) + t), KeyOf(s + (w + b) + u)) == -1
  {
    KeyWithSegment(s, w + a, t);
    KeyWithSegment(s, w + b, u);
    CommonPrefix(KeyOf(s), Block(w + a) + KeyOf(t), Block(w + b) + KeyOf(u));
    WordBlocks(w + a, KeyOf(t), w + b, KeyOf(u));
    LessBehind(w, a, b);
  }

  lemma {:induction false} LessBehind(w: string, a: string, b: string)
    requires b != [] && (a == [] || a[0] < b[0])
    ensures StringLess(w + a, w + b)
    decreases |w|
  {
    if w == [] {
      assert w + a == a && w + b == b;
    } else {
      assert (w + a)[1..] == w[1..] + a && (w + b)[1..] == w[1..] + b;
      LessBehind(w[1..], a, b);
    }
  }

  /** What is neither letter, digit nor tilde only separates. */
  lemma SeparatorsOnlySeparate(s: string, c: char, t: string)
    requires !InSegment(c)
    ensures KeyOf(s + [c] + t) == KeyOf(s) + KeyOf(t)
  {
    assert s + [c] + t == s + ([c] + t) && ([c] + t)[1..] == t;
    KeyOfConcat(s, [c] + t);
  }
}
