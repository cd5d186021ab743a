/** The order both version formats are refined to: integer keys, read as if followed by
    infinitely many zeros, compared lexicographically. */
module KeyOrder {

  type Key = seq<int>

  /** The entry of a key at position `i`; zero past its end. */
  function At(k: Key, i: nat): int {
    if i < |k| then k[i] else 0
  }

  function Tail(k: Key): Key {
    if k == [] then [] else k[1..]
  }

  function Sign(n: int): int {
    if n < 0 then -1 else if n > 0 then 1 else 0
  }

  /** -1, 0 or 1 as `a` is below, equivalent to or above `b`. */
  function Compare(a: Key, b: Key): (r: int)
    ensures -1 <= r <= 1
    decreases |a| + |b|
  {
    if a == [] && b == [] then 0
    else if At(a, 0) != At(b, 0) then Sign(At(a, 0) - At(b, 0))
    else Compare(Tail(a), Tail(b))
  }

  /** Position `n` decides between the two keys, and every earlier position agrees. */
  ghost predicate DecidedAt(a: Key, b: Key, n: nat) {
    At(a, n) != At(b, n) && forall i: nat :: i < n ==> At(a, i) == At(b, i)
  }

  /** `Compare` is the sign of the first difference, and 0 exactly when there is none. */
  lemma {:induction false} CompareIsFirstDifference(a: Key, b: Key)
    ensures forall n: nat :: DecidedAt(a, b, n) ==> Compare(a, b) == Sign(At(a, n) - At(b, n))
    ensures Compare(a, b) == 0 <==> forall n: nat :: At(a, n) == At(b, n)
    decreases |a| + |b|
  {
    if a == [] && b == [] {
    } else if At(a, 0) != At(b, 0) {
      forall n: nat | DecidedAt(a, b, n) ensures n == 0 {}
    } else {
      var ta, tb := Tail(a), Tail(b);
      CompareIsFirstDifference(ta, tb);
      assert forall n: nat :: At(ta, n) == At(a, n + 1) && At(tb, n) == At(b, n + 1);
      forall n: nat | DecidedAt(a, b, n)
        ensures Compare(a, b) == Sign(At(a, n) - At(b, n))
      {
        assert DecidedAt(ta, tb, n - 1);
      }
      if Compare(a, b) == 0 {
        forall n: nat ensures At(a, n) == At(b, n) {
          if n > 0 { assert At(ta, n - 1) == At(tb, n - 1); }
        }
      }
    }
  }

  lemma {:induction false} Antisymmetric(a: Key, b: Key)
    ensures Compare(a, b) == -Compare(b, a)
    decreases |a| + |b|
  {
    if (a != [] || b != []) && At(a, 0) == At(b, 0) {
      Antisymmetric(Tail(a), Tail(b));
    }
  }

  /** Transitivity, strict as soon as one of the two comparisons is strict. */
  lemma {:induction false} Transitive(a: Key, b: Key, c: Key)
    requires Compare(a, b) <= 0 && Compare(b, c) <= 0
    ensures Compare(a, c) <= 0
    ensures Compare(a, c) == 0 ==> Compare(a, b) == 0 && Compare(b, c) == 0
    decreases |a| + |b| + |c|
  {
    if (a != [] || b != [] || c != []) && At(a, 0) == At(b, 0) == At(c, 0) {
      Transitive(Tail(a), Tail(b), Tail(c));
    }
  }

  lemma {:induction false} Reflexive(a: Key)
    ensures Compare(a, a) == 0
  {
    if a != [] { Reflexive(a[1..]); }
  }

  /** A shared prefix does not influence the comparison. */
  lemma {:induction false} CommonPrefix(p: Key, a: Key, b: Key)
    ensures Compare(p + a, p + b) == Compare(a, b)
    decreases |p|
  {
    if p == [] {
      assert p + a == a && p + b == b;
    } else {
      assert (p + a)[1..] == p[1..] + a && (p + b)[1..] == p[1..] + b;
      CommonPrefix(p[1..], a, b);
    }
  }

  /** Behind a shared prefix the next entries decide, or what follows them. */
  lemma NextEntries(p: Key, a: Key, b: Key)
    requires a != [] && b != []
    ensures Compare(p + a, p + b) == if a[0] != b[0] then Sign(a[0] - b[0]) else Compare(a[1..], b[1..])
  {
    CommonPrefix(p, a, b);
  }

  /** Behind a shared prefix the sign of the next entry decides against the end. */
  lemma AgainstTheEnd(p: Key, a: Key)
    requires a != [] && a[0] != 0
    ensures Compare(p, p + a) == -Sign(a[0]) && Compare(p + a, p) == Sign(a[0])
  {
    CommonPrefix(p, [], a);
    CommonPrefix(p, a, []);
    assert p + [] == p;
  }
}
