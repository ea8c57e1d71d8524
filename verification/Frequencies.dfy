/** The entropic bookkeeping: global 16-bit feature frequencies, and each input's sorted list of local ones. */
module Frequencies {
  import opened Widths
  import opened Collections
  import opened FeatureSlots

  /** `std::vector<std::pair<uint32_t, uint16_t>>`. */
  type Freqs = seq<(nat, nat)>

  /** Strictly increasing indices, positive counts. */
  ghost predicate WellFormed(freqs: Freqs) {
    && (forall i, j | 0 <= i < j < |freqs| :: freqs[i].0 < freqs[j].0)
    && (forall i | 0 <= i < |freqs| :: freqs[i].1 > 0)
  }

  /** `std::lower_bound` of (s, 0) in a sorted list. */
  function LowerBound(freqs: Freqs, s: nat): (i: nat)
    ensures i <= |freqs|
    ensures forall k | 0 <= k < i :: freqs[k].0 < s
    ensures i < |freqs| ==> freqs[i].0 >= s
  {
    if freqs == [] || freqs[0].0 >= s then 0 else 1 + LowerBound(freqs[1..], s)
  }

  /** The count a list has for a feature. */
  function CountOf(freqs: Freqs, s: nat): nat {
    if freqs == [] then 0 else (if freqs[0].0 == s then freqs[0].1 else 0) + CountOf(freqs[1..], s)
  }

  /** `DeleteFeatureFreq`. */
  function Drop(freqs: Freqs, s: nat): Freqs {
    var i := LowerBound(freqs, s);
    if i < |freqs| && freqs[i].0 == s then freqs[..i] + freqs[i + 1..] else freqs
  }

  /** `InputInfo::UpdateFeatureFrequency`; the 16-bit counter wraps. */
  function Bump(freqs: Freqs, s: nat): Freqs {
    var i := LowerBound(freqs, s);
    if i < |freqs| && freqs[i].0 == s then freqs[i := (s, (freqs[i].1 + 1) % U16)]
    else freqs[..i] + [(s, 1)] + freqs[i..]
  }

  lemma {:induction false} CountSplit(a: Freqs, b: Freqs, s: nat)
    ensures CountOf(a + b, s) == CountOf(a, s) + CountOf(b, s)
  {
    if a == [] {
      assert a + b == b;
    } else {
      assert (a + b)[1..] == a[1..] + b;
      CountSplit(a[1..], b, s);
    }
  }

  lemma {:induction false} CountAbsent(freqs: Freqs, s: nat)
    requires forall i | 0 <= i < |freqs| :: freqs[i].0 != s
    ensures CountOf(freqs, s) == 0
  {
    if freqs != [] { CountAbsent(freqs[1..], s); }
  }

  lemma CountAtLowerBound(freqs: Freqs, s: nat, t: nat)
    requires WellFormed(freqs)
    ensures var i := LowerBound(freqs, s);
            && CountOf(freqs, t) == CountOf(freqs[..i], t) + CountOf(freqs[i..], t)
            && (i < |freqs| ==> CountOf(freqs[i..], t) == (if freqs[i].0 == t then freqs[i].1 else 0) + CountOf(freqs[i + 1..], t))
            && CountOf(freqs[..i], s) == 0
            && (i < |freqs| ==> CountOf(freqs[i + 1..], s) == 0)
            && (i < |freqs| && freqs[i].0 != s ==> CountOf(freqs[i..], s) == 0)
            && (i == |freqs| ==> CountOf(freqs[i..], s) == 0)
  {
    hide CountOf;
    var i := LowerBound(freqs, s);
    assert freqs == freqs[..i] + freqs[i..];
    CountSplit(freqs[..i], freqs[i..], t);
    CountAbsent(freqs[..i], s);
    if i == |freqs| {
      CountAbsent(freqs[i..], s);
    } else {
      assert freqs[i..] == [freqs[i]] + freqs[i + 1..];
      CountCons(freqs[i], freqs[i + 1..], t);
      CountAbsent(freqs[i + 1..], s);
      if freqs[i].0 != s { CountAbsent(freqs[i..], s); }
    }
  }

  lemma DropWellFormed(freqs: Freqs, s: nat)
    requires WellFormed(freqs)
    ensures WellFormed(Drop(freqs, s))
  {
  }

  lemma InsertWellFormed(freqs: Freqs, i: nat, s: nat)
    requires WellFormed(freqs) && i <= |freqs|
    requires forall k | 0 <= k < i :: freqs[k].0 < s
    requires forall k | i <= k < |freqs| :: freqs[k].0 > s
    ensures WellFormed(freqs[..i] + [(s, 1)] + freqs[i..])
  {
    var b := freqs[..i] + [(s, 1)] + freqs[i..];
    assert b[i] == (s, 1);
    assert forall k | 0 <= k < i :: b[k] == freqs[k];
    assert forall k | i < k < |b| :: b[k] == freqs[k - 1];
    forall j, k | 0 <= j < k < |b| ensures b[j].0 < b[k].0 {
      if k < i {
        assert freqs[j].0 < freqs[k].0;
      } else if j > i {
        assert freqs[j - 1].0 < freqs[k - 1].0;
      } else if j < i < k {
        assert freqs[j].0 < s < freqs[k - 1].0;
      }
    }
  }

  lemma ReplaceWellFormed(freqs: Freqs, i: nat, n: nat)
    requires WellFormed(freqs) && i < |freqs| && 0 < n < U16
    ensures WellFormed(freqs[i := (freqs[i].0, n)])
  {
  }

  lemma BumpWellFormed(freqs: Freqs, s: nat)
    requires WellFormed(freqs) && CountOf(freqs, s) < U16 - 1
    ensures WellFormed(Bump(freqs, s))
  {
    hide CountOf, LowerBound, WellFormed;
    var i := LowerBound(freqs, s);
    if i < |freqs| && freqs[i].0 == s {
      CountAtLowerBound(freqs, s, s);
      assert freqs[i].1 == CountOf(freqs, s);
      PositiveAt(freqs, i);
      ReplaceWellFormed(freqs, i, freqs[i].1 + 1);
    } else {
      AboveBound(freqs, i, s);
      InsertWellFormed(freqs, i, s);
    }
  }

  lemma PositiveAt(freqs: Freqs, i: nat)
    requires WellFormed(freqs) && i < |freqs|
    ensures freqs[i].1 > 0
  {
  }

  lemma AboveBound(freqs: Freqs, i: nat, s: nat)
    requires WellFormed(freqs) && i <= |freqs| && (i < |freqs| ==> freqs[i].0 > s)
    ensures forall k | i <= k < |freqs| :: freqs[k].0 > s
  {
    forall k | i < k < |freqs| ensures freqs[k].0 > s {
      assert freqs[i].0 < freqs[k].0;
    }
  }

  lemma CountCons(f: (nat, nat), rest: Freqs, t: nat)
    ensures CountOf([f] + rest, t) == (if f.0 == t then f.1 else 0) + CountOf(rest, t)
  {
    assert ([f] + rest)[1..] == rest;
  }

  lemma DropEffect(freqs: Freqs, s: nat, t: nat)
    requires WellFormed(freqs)
    ensures CountOf(Drop(freqs, s), t) == if t == s then 0 else CountOf(freqs, t)
  {
    hide CountOf, WellFormed, LowerBound;
    var i := LowerBound(freqs, s);
    CountAtLowerBound(freqs, s, t);
    CountAtLowerBound(freqs, s, s);
    if i < |freqs| && freqs[i].0 == s {
      CountSplit(freqs[..i], freqs[i + 1..], t);
    }
  }

  lemma BumpEffect(freqs: Freqs, s: nat, t: nat)
    requires WellFormed(freqs) && CountOf(freqs, s) < U16 - 1
    ensures CountOf(Bump(freqs, s), t) == CountOf(freqs, t) + if t == s then 1 else 0
  {
    hide CountOf, WellFormed, LowerBound;
    var i := LowerBound(freqs, s);
    CountAtLowerBound(freqs, s, t);
    CountAtLowerBound(freqs, s, s);
    if i < |freqs| && freqs[i].0 == s {
      var f := (s, freqs[i].1 + 1);
      assert Bump(freqs, s) == freqs[..i] + ([f] + freqs[i + 1..]);
      CountSplit(freqs[..i], [f] + freqs[i + 1..], t);
      CountCons(f, freqs[i + 1..], t);
    } else {
      assert Bump(freqs, s) == freqs[..i] + ([(s, 1)] + freqs[i..]);
      CountSplit(freqs[..i], [(s, 1)] + freqs[i..], t);
      CountCons((s, 1), freqs[i..], t);
    }
  }

  /** One feature's local counts over all inputs. */
  function TotalCount(lists: seq<Freqs>, s: nat): nat {
    if lists == [] then 0 else TotalCount(lists[..|lists| - 1], s) + CountOf(lists[|lists| - 1], s)
  }

  lemma {:induction false} TotalCountUpdate(lists: seq<Freqs>, i: nat, f: Freqs, s: nat)
    requires i < |lists|
    ensures TotalCount(lists[i := f], s) + CountOf(lists[i], s) == TotalCount(lists, s) + CountOf(f, s)
    ensures CountOf(lists[i], s) <= TotalCount(lists, s)
  {
    var k := |lists| - 1;
    if i < k {
      TotalCountUpdate(lists[..k], i, f, s);
      assert lists[i := f][..k] == lists[..k][i := f];
    } else {
      assert lists[i := f][..k] == lists[..k];
    }
  }

  function DropAll(lists: seq<Freqs>, s: nat): (r: seq<Freqs>)
    ensures |r| == |lists|
  {
    seq(|lists|, i requires 0 <= i < |lists| => Drop(lists[i], s))
  }

  lemma {:induction false} DropAllEffect(lists: seq<Freqs>, s: nat, t: nat)
    requires forall i | 0 <= i < |lists| :: WellFormed(lists[i])
    ensures forall i | 0 <= i < |lists| :: WellFormed(DropAll(lists, s)[i])
    ensures TotalCount(DropAll(lists, s), t) == if t == s then 0 else TotalCount(lists, t)
  {
    hide CountOf, Drop, WellFormed;
    forall i | 0 <= i < |lists| ensures WellFormed(DropAll(lists, s)[i]) {
      DropWellFormed(lists[i], s);
    }
    if lists != [] {
      var k := |lists| - 1;
      DropAllEffect(lists[..k], s, t);
      DropEffect(lists[k], s, t);
      assert DropAll(lists, s)[..k] == DropAll(lists[..k], s);
    }
  }

  // ----- the corpus-wide part

  /** `Rare` features, their membership bits, the global counts, and the bound on rare ones' counts. */
  datatype Entropy = Entropy(rare: seq<nat>, isRare: seq<bool>, global: seq<nat>, most: nat, lists: seq<Freqs>)

  datatype EntropicOptions = EntropicOptions(enabled: bool, numRarest: nat, threshold: nat)

  ghost predicate Sane(e: Entropy) {
    && |e.isRare| == |e.global| == FEATURE_SET_SIZE && e.most < U16
    && (forall k | 0 <= k < |e.rare| :: e.rare[k] < FEATURE_SET_SIZE)
  }

  /** Local counts of a feature never outnumber its global one, which never leaves sixteen bits. */
  ghost predicate Conserved(e: Entropy) {
    && Sane(e)
    && (forall i | 0 <= i < |e.lists| :: WellFormed(e.lists[i]))
    && (forall s | 0 <= s < FEATURE_SET_SIZE :: TotalCount(e.lists, s) <= e.global[s] < U16)
  }

  /** The scan for the most abundant rare features: the two candidates and the position to delete. */
  function Scan(rare: seq<nat>, global: seq<nat>, n: nat): (r: (nat, nat, nat))
    requires 0 < |rare| && n <= |rare| && forall k | 0 <= k < |rare| :: rare[k] < |global|
    ensures r.2 < |rare| && r.0 == rare[r.2] && r.1 in rare
  {
    if n == 0 then (rare[0], rare[0], 0) else
      var (first, second, at) := Scan(rare, global, n - 1);
      if global[rare[n - 1]] >= global[first] then (rare[n - 1], first, n - 1) else (first, second, at)
  }

  /** One round of the eviction loop of `AddRareFeature`. The bit cleared is that of the position. */
  function EvictOne(e: Entropy): Entropy
    requires Sane(e) && 0 < |e.rare| <= FEATURE_SET_SIZE
  {
    var (first, second, at) := Scan(e.rare, e.global, |e.rare|);
    var last := |e.rare| - 1;
    Entropy(e.rare[at := e.rare[last]][..last], e.isRare[at := false], e.global, e.global[second], DropAll(e.lists, first))
  }

  predicate MustEvict(e: Entropy, opts: EntropicOptions) {
    |e.rare| > opts.numRarest && e.most > opts.threshold
  }

  ghost predicate Evictable(e: Entropy) {
    Sane(e) && |e.rare| <= FEATURE_SET_SIZE && forall s | 0 <= s < FEATURE_SET_SIZE :: e.global[s] < U16
  }

  function Evict(e: Entropy, opts: EntropicOptions): Entropy
    requires Evictable(e)
    decreases |e.rare|
  {
    if MustEvict(e, opts) then Evict(EvictOne(e), opts) else e
  }

  /** `AddRareFeature`. */
  function AddRare(e: Entropy, opts: EntropicOptions, s: nat): Entropy
    requires Evictable(e) && s < FEATURE_SET_SIZE
  {
    var e1 := Evict(e, opts);
    EvictSane(e, opts);
    Entropy(e1.rare + [s], e1.isRare[s := true], e1.global[s := 0], e1.most, DropAll(e1.lists, s))
  }

  lemma {:induction false} EvictSane(e: Entropy, opts: EntropicOptions)
    requires Evictable(e)
    ensures var e' := Evict(e, opts);
            Evictable(e') && e'.global == e.global && |e'.lists| == |e.lists|
    decreases |e.rare|
  {
    if MustEvict(e, opts) { EvictSane(EvictOne(e), opts); }
  }

  /** `InputCorpus::UpdateFeatureFrequency` for the input `ii`, if there is one. */
  function Update(e: Entropy, ii: int, s: nat): Entropy
    requires Sane(e) && s < FEATURE_SET_SIZE && -1 <= ii < |e.lists|
  {
    var freq := e.global[s];
    if freq == U16 - 1 then e else
      var e1 := e.(global := e.global[s := freq + 1]);
      if freq > e.most || !e.isRare[s] then e1 else
        var e2 := if freq == e.most then e1.(most := e.most + 1) else e1;
        if ii < 0 then e2 else e2.(lists := e2.lists[ii := Bump(e2.lists[ii], s)])
  }

  // ----- what the operations keep

  lemma UpdateConserves(e: Entropy, ii: int, s: nat)
    requires Conserved(e) && s < FEATURE_SET_SIZE && -1 <= ii < |e.lists|
    ensures Conserved(Update(e, ii, s)) && Update(e, ii, s).rare == e.rare && |Update(e, ii, s).lists| == |e.lists|
  {
    hide CountOf, TotalCount, Bump, WellFormed;
    var e' := Update(e, ii, s);
    if e'.lists != e.lists {
      TotalCountUpdate(e.lists, ii, e'.lists[ii], s);
      BumpWellFormed(e.lists[ii], s);
      forall t | 0 <= t < FEATURE_SET_SIZE ensures TotalCount(e'.lists, t) <= e'.global[t] < U16 {
        BumpEffect(e.lists[ii], s, t);
        TotalCountUpdate(e.lists, ii, e'.lists[ii], t);
      }
    }
  }

  lemma EvictOneConserves(e: Entropy)
    requires Conserved(e) && 0 < |e.rare| <= FEATURE_SET_SIZE && NoDuplicates(e.rare)
    ensures Conserved(EvictOne(e)) && NoDuplicates(EvictOne(e).rare)
    ensures forall x | x in EvictOne(e).rare :: x in e.rare
  {
    var e' := EvictOne(e);
    var first := Scan(e.rare, e.global, |e.rare|).0;
    forall t | 0 <= t < FEATURE_SET_SIZE ensures TotalCount(e'.lists, t) <= e'.global[t] < U16 {
      DropAllEffect(e.lists, first, t);
    }
    DropAllEffect(e.lists, first, 0);
  }

  lemma {:induction false} EvictConserves(e: Entropy, opts: EntropicOptions)
    requires Conserved(e) && Evictable(e) && NoDuplicates(e.rare)
    ensures Evictable(e) && Conserved(Evict(e, opts)) && NoDuplicates(Evict(e, opts).rare)
    ensures forall x | x in Evict(e, opts).rare :: x in e.rare
    decreases |e.rare|
  {
    if MustEvict(e, opts) {
      EvictOneConserves(e);
      EvictConserves(EvictOne(e), opts);
    }
  }

  /** A feature not rare yet becomes rare; nothing is counted twice, nothing is rare twice. */
  lemma AddRareConserves(e: Entropy, opts: EntropicOptions, s: nat)
    requires Conserved(e) && Evictable(e) && NoDuplicates(e.rare) && s < FEATURE_SET_SIZE && s !in e.rare
    ensures Conserved(AddRare(e, opts, s)) && NoDuplicates(AddRare(e, opts, s).rare)
    ensures forall x | x in AddRare(e, opts, s).rare :: x == s || x in e.rare
    ensures |AddRare(e, opts, s).lists| == |e.lists|
  {
    EvictConserves(e, opts);
    EvictSane(e, opts);
    var e1, e' := Evict(e, opts), AddRare(e, opts, s);
    DropAllEffect(e1.lists, s, 0);
    forall t | 0 <= t < FEATURE_SET_SIZE ensures TotalCount(e'.lists, t) <= e'.global[t] < U16 {
      DropAllEffect(e1.lists, s, t);
    }
  }
}
