/** Draws of the fuzzer's random engine. */
module Random {
  /** `Rand(n)` on one raw output of the engine. */
  function Below(raw: nat, n: nat): (r: nat)
    ensures n > 0 ==> r < n
    ensures n == 0 ==> r == 0
  {
    if n == 0 then 0 else raw % n
  }

  /** The integer part of a square root. */
  function Root(t: nat): (r: nat)
    ensures r * r <= t < (r + 1) * (r + 1)
  {
    if t == 0 then 0 else
      var r := Root(t - 1);
      if (r + 1) * (r + 1) <= t then r + 1 else r
  }

  /** An index into n elements, the later the likelier. */
  function SkewTowardsLast(raw: nat, n: nat): (i: nat)
    ensures n > 0 ==> i < n
  {
    RootInRange(Below(raw, n * n), n);
    Root(Below(raw, n * n))
  }

  lemma RootIsUnique(t: nat, r: nat)
    requires r * r <= t < (r + 1) * (r + 1)
    ensures Root(t) == r
  {
    var q := Root(t);
    if q < r { SquareMono(q + 1, r); }
    if r < q { SquareMono(r + 1, q); }
  }

  lemma SquareMono(a: nat, b: nat)
    requires a <= b
    ensures a * a <= b * b
  {
  }

  lemma RootInRange(t: nat, n: nat)
    ensures t < n * n ==> Root(t) < n
    ensures n > 0 ==> n * n > 0
  {
    if Root(t) >= n { SquareMono(n, Root(t)); }
  }

  /** The outputs of `std::minstd_rand`: it multiplies a non-zero state modulo the prime 2^31 - 1. */
  predicate IsOutput(raw: nat) {
    0 < raw < 0x7FFF_FFFF
  }

  ghost predicate CanBeDrawn(n: nat, i: nat) {
    exists raw: nat :: IsOutput(raw) && SkewTowardsLast(raw, n) == i
  }

  /** Which indices the engine can draw: all of them up to 46340 elements, else none but 1 to 46340. */
  lemma CanBeDrawnIff(n: nat, i: nat)
    requires n > 0
    ensures CanBeDrawn(n, i) <==> i < n && (n <= 46340 || 1 <= i <= 46340)
  {
    hide SkewTowardsLast;
    if i < n && (n <= 46340 || 1 <= i <= 46340) {
      DrawnFrom(n, i);
    }
    if CanBeDrawn(n, i) {
      var raw: nat :| IsOutput(raw) && SkewTowardsLast(raw, n) == i;
      if n > 46340 { DrawnIsSmall(raw, n); }
    }
  }

  /** Among too many elements an output of the engine is its own residue. */
  lemma DrawnIsSmall(raw: nat, n: nat)
    requires IsOutput(raw) && n > 46340
    ensures 1 <= SkewTowardsLast(raw, n) <= 46340
  {
    hide Root;
    SquareMono(46341, n);
    ResidueOfSmall(raw, n * n);
    var i := Root(raw);
    if i > 46340 { SquareMono(46341, i); }
    assert i == 0 ==> raw < 1;
  }

  lemma ResidueOfSmall(raw: nat, m: nat)
    requires raw < m
    ensures Below(raw, m) == raw
  {
  }

  lemma ResidueOfItself(m: nat)
    ensures Below(m, m) == 0
  {
  }

  lemma DrawnFrom(n: nat, i: nat)
    requires i < n && (n <= 46340 || 1 <= i <= 46340)
    ensures CanBeDrawn(n, i)
  {
    hide Root, Below;
    var raw := if i == 0 then n * n else i * i;
    SquareMono(if i == 0 then n else i, 46340);
    SquareMono(1, if i == 0 then n else i);
    assert IsOutput(raw);
    if i == 0 {
      ResidueOfItself(raw);
      RootIsUnique(0, 0);
    } else {
      SquareMono(i + 1, n);
      ResidueOfSmall(raw, n * n);
      RootIsUnique(raw, i);
    }
    assert SkewTowardsLast(raw, n) == i;
  }

  predicate Within(lo: nat, t: nat, hi: nat) {
    lo <= t < hi
  }

  ghost function Interval(lo: nat, hi: nat): set<nat> {
    set t | 0 <= t < hi && Within(lo, t, hi)
  }

  lemma {:induction false} IntervalSize(lo: nat, hi: nat)
    requires lo <= hi
    ensures |Interval(lo, hi)| == hi - lo
    decreases hi
  {
    if lo < hi {
      IntervalSize(lo, hi - 1);
      assert forall t | 0 <= t < hi :: Within(lo, t, hi) <==> t == hi - 1 || Within(lo, t, hi - 1);
      assert Interval(lo, hi) == Interval(lo, hi - 1) + {hi - 1};
    } else {
      assert Interval(lo, hi) == {};
    }
  }

  /** The residues below `m` for which index `i` is drawn. */
  ghost function Drawing(m: nat, i: nat): set<nat> {
    set t | 0 <= t < m && Root(t) == i
  }

  /** Index i of n is drawn for exactly 2i + 1 of the n * n residues. */
  lemma SkewWeights(n: nat, i: nat)
    requires i < n
    ensures |Drawing(n * n, i)| == 2 * i + 1
  {
    var lo, hi := i * i, (i + 1) * (i + 1);
    SquareMono(i + 1, n);
    DrawingIsInterval(n * n, i, lo, hi);
    IntervalSize(lo, hi);
    assert hi - lo == 2 * i + 1;
  }

  lemma DrawingIsInterval(m: nat, i: nat, lo: nat, hi: nat)
    requires lo == i * i && hi == (i + 1) * (i + 1) <= m
    ensures Drawing(m, i) == Interval(lo, hi)
  {
    forall t | 0 <= t < m ensures Root(t) == i <==> Within(lo, t, hi) {
      if Within(lo, t, hi) { RootIsUnique(t, i); }
    }
  }
}
