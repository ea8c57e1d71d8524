/** The greedy set cover bound, over bare sets. */
module SetCoverBound {
  import opened Collections

  ghost function Harmonic(n: nat): real {
    if n == 0 then 0.0 else Harmonic(n - 1) + 1.0 / n as real
  }

  lemma {:induction false} HarmonicGap(r: nat, m: nat)
    requires m <= r && 0 < r
    ensures Harmonic(r) - Harmonic(r - m) >= m as real / r as real
  {
    if m > 0 {
      if m < r {
        HarmonicGap(r - 1, m - 1);
        FractionShrinks(m - 1, r);
      } else {
        HarmonicAtLeastOne(r);
      }
    }
  }

  lemma FractionShrinks(m: nat, r: nat)
    requires 1 < r && m < r
    ensures m as real / (r - 1) as real + 1.0 / r as real >= (m + 1) as real / r as real
  {
    var a, b, c := m as real, (r - 1) as real, r as real;
    assert a / b >= a / c by {
      assert a * c >= a * b;
      assert a / b - a / c == (a * c - a * b) / (b * c);
    }
    assert (m + 1) as real / c == a / c + 1.0 / c;
  }

  lemma {:induction false} HarmonicAtLeastOne(r: nat)
    requires 0 < r
    ensures Harmonic(r) >= 1.0 && r as real / r as real == 1.0
  {
    if r > 1 { HarmonicAtLeastOne(r - 1); } else { assert Harmonic(1) == Harmonic(0) + 1.0 / 1.0; }
  }

  lemma HarmonicStep(k: nat, r: nat, m: nat)
    requires 0 < m <= r <= k * m
    ensures 1.0 <= k as real * (Harmonic(r) - Harmonic(r - m))
  {
    HarmonicGap(r, m);
    var x, y, z := m as real, r as real, k as real;
    var gap := Harmonic(r) - Harmonic(r - m);
    assert z * x >= y by { assert (k * m) as real == z * x; }
    MulMono(z, x / y, gap);
    DivMono(y, z * x, y);
    assert z * (x / y) == (z * x) / y;
  }

  lemma MulMono(z: real, a: real, b: real)
    requires z >= 0.0 && a <= b
    ensures z * a <= z * b
  {
  }

  lemma DivMono(a: real, b: real, y: real)
    requires y > 0.0 && a <= b
    ensures a / y <= b / y && y / y == 1.0
  {
  }

  lemma OneMore(k: nat, m: nat)
    ensures (k + 1) * m == k * m + m
  {
  }

  ghost function UnionOf(sets: seq<set<nat>>, base: set<nat>): set<nat> {
    if sets == [] then base else UnionOf(sets[..|sets| - 1], base) + sets[|sets| - 1]
  }

  /** Finitely many parts, none with more than `most` elements outside `covered`, bound what they cover. */
  lemma {:induction false} Pigeonhole(parts: seq<set<nat>>, covered: set<nat>, target: set<nat>, most: nat)
    requires forall j | 0 <= j < |parts| :: |parts[j] - covered| <= most
    requires target <= UnionOf(parts, {})
    requires target !! covered
    ensures |target| <= |parts| * most
    decreases |parts|
  {
    if parts == [] {
      assert target == {};
    } else {
      var k := |parts| - 1;
      var rest := target - parts[k];
      assert forall j | 0 <= j < k :: parts[..k][j] == parts[j];
      Pigeonhole(parts[..k], covered, rest, most);
      SubsetSize(target * parts[k], parts[k] - covered);
      assert target == rest + target * parts[k];
      OneMore(k, most);
    }
  }

  /** Each pick gives at least as much that is new as any of the parts would. */
  ghost predicate GreedyPicks(picks: seq<set<nat>>, parts: seq<set<nat>>, base: set<nat>) {
    picks == [] ||
    var (k, last) := (|picks| - 1, picks[|picks| - 1]);
    var covered := UnionOf(picks[..k], base);
    && GreedyPicks(picks[..k], parts, base)
    && last - covered != {}
    && forall j | 0 <= j < |parts| :: |parts[j] - covered| <= |last - covered|
  }

  lemma {:induction false} UnionGrows(sets: seq<set<nat>>, base: set<nat>)
    ensures base <= UnionOf(sets, base)
  {
    if sets != [] {
      UnionGrows(sets[..|sets| - 1], base);
    }
  }

  /** A best pick takes at least one part in |parts| of what is missing. */
  lemma PickShare(pick: set<nat>, parts: seq<set<nat>>, covered: set<nat>, missing: set<nat>)
    requires missing <= UnionOf(parts, {}) && pick - covered != {} && pick <= missing + covered
    requires forall j | 0 <= j < |parts| :: |parts[j] - covered| <= |pick - covered|
    ensures |missing - covered| <= |parts| * |pick - covered|
    ensures |missing - (covered + pick)| == |missing - covered| - |pick - covered|
    ensures |pick - covered| > 0
  {
    Pigeonhole(parts, covered, missing - covered, |pick - covered|);
    assert missing - covered == (missing - (covered + pick)) + (pick - covered);
  }

  ghost function Sum(ms: seq<nat>): nat {
    if ms == [] then 0 else Sum(ms[..|ms| - 1]) + ms[|ms| - 1]
  }

  /** Each gain takes at least one k-th of what the gains before it left of `n`. */
  ghost predicate Shares(k: nat, n: nat, ms: seq<nat>) {
    ms == [] ||
    var (before, m) := (ms[..|ms| - 1], ms[|ms| - 1]);
    Shares(k, n, before) && 0 < m && Sum(before) + m <= n && n - Sum(before) <= k * m
  }

  lemma {:induction false} SharesBound(k: nat, n: nat, ms: seq<nat>)
    requires Shares(k, n, ms)
    ensures Sum(ms) <= n && |ms| as real <= k as real * (Harmonic(n) - Harmonic(n - Sum(ms)))
  {
    if ms != [] {
      var before, m := ms[..|ms| - 1], ms[|ms| - 1];
      SharesBound(k, n, before);
      var r := n - Sum(before);
      HarmonicStep(k, r, m);
      var h0, h1, h2 := Harmonic(n), Harmonic(r), Harmonic(r - m);
      assert k as real * (h0 - h2) == k as real * (h0 - h1) + k as real * (h1 - h2);
    }
  }

  /** Whether t is at most k * H(n). */
  ghost predicate WithinHarmonic(t: nat, k: nat, n: nat) {
    t as real <= k as real * Harmonic(n)
  }

  lemma SharesWithinHarmonic(t: nat, k: nat, n: nat, ms: seq<nat>)
    requires Shares(k, n, ms) && |ms| == t
    ensures WithinHarmonic(t, k, n)
  {
    SharesBound(k, n, ms);
    var left := Harmonic(n - Sum(ms));
    HarmonicNonNegative(n - Sum(ms));
    MulMono(k as real, Harmonic(n) - left, Harmonic(n));
  }

  /** The gains of a greedy run. */
  lemma {:induction false} GreedyShares(picks: seq<set<nat>>, parts: seq<set<nat>>, base: set<nat>, missing: set<nat>)
    returns (ms: seq<nat>)
    requires GreedyPicks(picks, parts, base) && missing <= UnionOf(parts, {}) && missing !! base
    requires forall i | 0 <= i < |picks| :: picks[i] <= missing + base
    ensures |ms| == |picks| && Shares(|parts|, |missing|, ms)
    ensures |missing - UnionOf(picks, base)| + Sum(ms) == |missing|
    decreases |picks|
  {
    if picks == [] {
      assert missing - base == missing;
      ms := [];
    } else {
      var k := |picks| - 1;
      var before, last := UnionOf(picks[..k], base), picks[k];
      var ms' := GreedyShares(picks[..k], parts, base, missing);
      assert before >= base by { UnionGrows(picks[..k], base); }
      PickShare(last, parts, before, missing);
      ms := ms' + [|last - before|];
      assert ms[..|ms| - 1] == ms';
    }
  }

  /** Greedy picks number at most k * H(n), when k parts cover the n missing elements. */
  lemma GreedyBound(picks: seq<set<nat>>, parts: seq<set<nat>>, base: set<nat>, missing: set<nat>)
    requires GreedyPicks(picks, parts, base) && missing <= UnionOf(parts, {}) && missing !! base
    requires forall i | 0 <= i < |picks| :: picks[i] <= missing + base
    ensures WithinHarmonic(|picks|, |parts|, |missing|)
  {
    var ms := GreedyShares(picks, parts, base, missing);
    SharesWithinHarmonic(|picks|, |parts|, |missing|, ms);
  }

  lemma {:induction false} HarmonicNonNegative(n: nat)
    ensures Harmonic(n) >= 0.0
  {
    if n > 0 { HarmonicNonNegative(n - 1); }
  }
}
