/** The fork mode's corpus as a value: which seed is the smallest to hit each feature slot. */
module CorpusModel {
  import opened Widths
  import opened FeatureSlots
  import Ownership

  /** The fields of `SeedInfo` that the corpus logic updates. */
  datatype Seed = Seed(numFeatures: nat, live: bool, locked: bool, selections: nat)

  /** The fields of `GlobalCorpusInfo`; a size of zero marks a slot never hit. */
  datatype State = State(seeds: seq<Seed>, deleteNums: nat, numUpdated: nat, numAdded: nat,
                         sizes: seq<nat>, owners: seq<nat>)

  ghost predicate Shape(st: State) {
    |st.sizes| == |st.owners| == FEATURE_SET_SIZE && st.numUpdated < U32
  }

  // ----- the operations

  predicate Improves(st: State, f: nat, newSize: nat)
    requires |st.sizes| == FEATURE_SET_SIZE
  {
    var old' := st.sizes[Slot(f)];
    old' == 0 || old' > newSize
  }

  /** The seed that owned a slot loses it; with its last slot it dies. */
  function Dispossess(st: State, i: nat): State
    requires i < |st.seeds| && st.seeds[i].numFeatures > 0
  {
    var s := st.seeds[i].(numFeatures := st.seeds[i].numFeatures - 1);
    if s.numFeatures > 0 then st.(seeds := st.seeds[i := s])
    else st.(seeds := st.seeds[i := s.(live := false)], deleteNums := st.deleteNums + 1)
  }

  /** What `AddFeature` needs to stay in range and pass its assertions. */
  ghost predicate CanAdd(st: State, f: nat, newSize: nat) {
    && Shape(st) && newSize > 0
    && (st.sizes[Slot(f)] > newSize ==>
          st.owners[Slot(f)] < |st.seeds| && st.seeds[st.owners[Slot(f)]].numFeatures > 0)
  }

  function AddFeature(st: State, f: nat, newSize: nat): State
    requires CanAdd(st, f, newSize)
  {
    if !Improves(st, f, newSize) then st else
      var s := Slot(f);
      var st1 := if st.sizes[s] > 0 then Dispossess(st, st.owners[s]) else st.(numAdded := st.numAdded + 1);
      st1.(numUpdated := (st1.numUpdated + 1) % U32,
           owners := st1.owners[s := |st1.seeds|], sizes := st1.sizes[s := newSize])
  }

  function AddToCorpus(st: State, numFeatures: nat): State {
    st.(seeds := st.seeds + [Seed(numFeatures, true, false, 0)])
  }

  /** The difference of two readings of the 32-bit update counter, taken in `size_t`. */
  function CounterDifference(after: nat, before: nat): nat
    requires after < U32 && before < U32
  {
    if after >= before then after - before else U64 + after - before
  }

  // ----- ownership

  /** Who owns which slot. */
  function TableOf(st: State): Ownership.Table {
    Ownership.Table(seq(|st.seeds|, i requires 0 <= i < |st.seeds| => st.seeds[i].numFeatures),
                    st.sizes, st.owners, st.numAdded)
  }

  /** The slots ever hit. */
  ghost function SeenSlots(st: State): set<nat>
    requires Shape(st)
  {
    Ownership.Seen(TableOf(st))
  }

  function TotalSelections(seeds: seq<Seed>): nat {
    if seeds == [] then 0 else TotalSelections(seeds[..|seeds| - 1]) + seeds[|seeds| - 1].selections
  }

  function Dead(seeds: seq<Seed>): nat {
    if seeds == [] then 0 else Dead(seeds[..|seeds| - 1]) + if seeds[|seeds| - 1].live then 0 else 1
  }

  lemma {:induction false} TotalsUpdate(seeds: seq<Seed>, i: nat, s: Seed)
    requires i < |seeds|
    ensures TotalSelections(seeds[i := s]) + seeds[i].selections == TotalSelections(seeds) + s.selections
    ensures Dead(seeds[i := s]) + (if seeds[i].live then 0 else 1) == Dead(seeds) + if s.live then 0 else 1
  {
    var k := |seeds| - 1;
    if i < k {
      TotalsUpdate(seeds[..k], i, s);
      assert seeds[i := s][..k] == seeds[..k][i := s];
    } else {
      assert seeds[i := s][..k] == seeds[..k];
    }
  }

  /** One merged input: its size and the slots of its features. */
  datatype Batch = Batch(size: nat, slots: set<nat>)

  /** Batch `b` is the first to hit slot `s` with the least size any batch has. */
  ghost predicate FirstSmallest(hist: seq<Batch>, s: nat, b: nat) {
    && b < |hist| && s in hist[b].slots
    && forall c | 0 <= c < |hist| && s in hist[c].slots ::
         hist[b].size <= hist[c].size && (c < b ==> hist[b].size < hist[c].size)
  }

  /** A slot records the least size that hit it and, through `at`, the first batch that did. */
  ghost predicate SlotRecords(st: State, hist: seq<Batch>, at: seq<nat>, s: nat)
    requires Shape(st) && s < FEATURE_SET_SIZE
  {
    if st.sizes[s] == 0 then forall c | 0 <= c < |hist| :: s !in hist[c].slots
    else st.owners[s] < |at| && FirstSmallest(hist, s, at[st.owners[s]]) && hist[at[st.owners[s]]].size == st.sizes[s]
  }

  ghost predicate RecordsSmallest(st: State, hist: seq<Batch>, at: seq<nat>)
    requires Shape(st)
  {
    forall s | 0 <= s < FEATURE_SET_SIZE :: SlotRecords(st, hist, at, s)
  }

  /** The counters agree with who owns what, and the living are those that own; `pending` slots belong
      to the seed about to be added. */
  ghost predicate Counts(st: State, pending: nat) {
    && Ownership.Consistent(TableOf(st), pending)
    && (forall i | 0 <= i < |st.seeds| :: st.seeds[i].live <==> st.seeds[i].numFeatures > 0)
    && st.deleteNums == Dead(st.seeds)
  }

  /** What holds after every merged input. */
  ghost predicate Inv(st: State, hist: seq<Batch>, at: seq<nat>) {
    Shape(st) && |at| == |st.seeds| && Counts(st, 0) && RecordsSmallest(st, hist, at)
  }

  /** What holds amid a batch of one size, when `slots` of it are dealt with. */
  ghost predicate Amid(st: State, hist: seq<Batch>, at: seq<nat>, size: nat, slots: set<nat>, pending: nat) {
    && Shape(st) && |at| == |st.seeds| && size > 0
    && Counts(st, pending)
    && RecordsSmallest(st, hist + [Batch(size, slots)], at + [|hist|])
    && forall s | 0 <= s < FEATURE_SET_SIZE && st.owners[s] == |st.seeds| :: st.sizes[s] in {0, size}
  }

  lemma OwnerHasFeatures(st: State, hist: seq<Batch>, at: seq<nat>, size: nat, slots: set<nat>, pending: nat, f: nat)
    requires Amid(st, hist, at, size, slots, pending)
    ensures CanAdd(st, f, size)
    ensures Improves(st, f, size) ==>
              Ownership.CanTake(TableOf(st), Slot(f)) && Slot(f) !in Ownership.Owned(TableOf(st), |st.seeds|)
  {
    var s := Slot(f);
    if Improves(st, f, size) {
      Ownership.InOwned(TableOf(st), s, |st.seeds|);
      Ownership.OwnerExists(TableOf(st), pending, s);
    }
  }

  lemma TableAfterAdd(st: State, f: nat, newSize: nat)
    requires CanAdd(st, f, newSize) && Improves(st, f, newSize) && Ownership.CanTake(TableOf(st), Slot(f))
    ensures TableOf(AddFeature(st, f, newSize)) == Ownership.Take(TableOf(st), Slot(f), newSize)
  {
    var t, t' := TableOf(AddFeature(st, f, newSize)), Ownership.Take(TableOf(st), Slot(f), newSize);
    assert t.counts == t'.counts;
  }

  lemma CountsAfterAdd(st: State, f: nat, newSize: nat, pending: nat)
    requires CanAdd(st, f, newSize) && Improves(st, f, newSize) && Counts(st, pending)
    requires Ownership.CanTake(TableOf(st), Slot(f)) && Slot(f) !in Ownership.Owned(TableOf(st), |st.seeds|)
    ensures Counts(AddFeature(st, f, newSize), pending + 1)
  {
    hide Ownership.Consistent;
    var s := Slot(f);
    var st' := AddFeature(st, f, newSize);
    TableAfterAdd(st, f, newSize);
    Ownership.TakeConsistent(TableOf(st), s, newSize, pending);
    if st.sizes[s] > 0 {
      var o := st.owners[s];
      TotalsUpdate(st.seeds, o, st'.seeds[o]);
      assert st'.seeds == st.seeds[o := st'.seeds[o]];
    }
  }

  /** A slot that is hit again, but not by a smaller input. */
  lemma SlotKept(st: State, hist: seq<Batch>, at: seq<nat>, size: nat, slots: set<nat>, s: nat, t: nat)
    requires Shape(st) && t < FEATURE_SET_SIZE && (t == s ==> 0 < st.sizes[s] <= size)
    requires SlotRecords(st, hist + [Batch(size, slots)], at, t)
    ensures SlotRecords(st, hist + [Batch(size, slots + {s})], at, t)
  {
    var h, h' := hist + [Batch(size, slots)], hist + [Batch(size, slots + {s})];
    assert forall c | 0 <= c < |hist| :: h[c] == h'[c];
    assert h[|hist|].slots == slots && h'[|hist|].slots == slots + {s};
  }

  lemma SmallestKeptBy(st: State, hist: seq<Batch>, at: seq<nat>, size: nat, slots: set<nat>, s: nat)
    requires Shape(st) && size > 0 && s < FEATURE_SET_SIZE && 0 < st.sizes[s] <= size
    requires RecordsSmallest(st, hist + [Batch(size, slots)], at)
    ensures RecordsSmallest(st, hist + [Batch(size, slots + {s})], at)
  {
    forall t | 0 <= t < FEATURE_SET_SIZE ensures SlotRecords(st, hist + [Batch(size, slots + {s})], at, t) {
      SlotKept(st, hist, at, size, slots, s, t);
    }
  }

  /** A slot whose least size drops to that of the current batch. */
  lemma SlotMoved(st: State, hist: seq<Batch>, at: seq<nat>, size: nat, slots: set<nat>, f: nat)
    requires CanAdd(st, f, size) && Improves(st, f, size) && |at| == |st.seeds|
    requires SlotRecords(st, hist + [Batch(size, slots)], at + [|hist|], Slot(f))
    ensures SlotRecords(AddFeature(st, f, size), hist + [Batch(size, slots + {Slot(f)})], at + [|hist|], Slot(f))
  {
    var s, st', at' := Slot(f), AddFeature(st, f, size), at + [|hist|];
    var h, h' := hist + [Batch(size, slots)], hist + [Batch(size, slots + {s})];
    assert forall c | 0 <= c < |hist| :: h[c] == h'[c];
    assert h[|hist|].size == size && h'[|hist|] == Batch(size, slots + {s});
    assert st'.owners[s] == |at| && at'[|at|] == |hist| && st'.sizes[s] == size;
    if st.sizes[s] > 0 {
      assert FirstSmallest(h, s, at'[st.owners[s]]);
    }
    assert FirstSmallest(h', s, |hist|);
  }

  lemma SmallestMovedTo(st: State, hist: seq<Batch>, at: seq<nat>, size: nat, slots: set<nat>, f: nat)
    requires CanAdd(st, f, size) && Improves(st, f, size) && |at| == |st.seeds|
    requires RecordsSmallest(st, hist + [Batch(size, slots)], at + [|hist|])
    ensures RecordsSmallest(AddFeature(st, f, size), hist + [Batch(size, slots + {Slot(f)})], at + [|hist|])
  {
    var st', at' := AddFeature(st, f, size), at + [|hist|];
    var h' := hist + [Batch(size, slots + {Slot(f)})];
    forall t | 0 <= t < FEATURE_SET_SIZE ensures SlotRecords(st', h', at', t) {
      if t == Slot(f) {
        SlotMoved(st, hist, at, size, slots, f);
      } else {
        SlotKept(st, hist, at', size, slots, Slot(f), t);
        assert st'.sizes[t] == st.sizes[t] && st'.owners[t] == st.owners[t];
      }
    }
  }

  /** One `AddFeature` amid a batch. */
  lemma AddFeatureAmid(st: State, hist: seq<Batch>, at: seq<nat>, size: nat, slots: set<nat>, pending: nat, f: nat)
    requires Amid(st, hist, at, size, slots, pending)
    ensures CanAdd(st, f, size)
    ensures Amid(AddFeature(st, f, size), hist, at, size, slots + {Slot(f)},
                 pending + if Improves(st, f, size) then 1 else 0)
  {
    OwnerHasFeatures(st, hist, at, size, slots, pending, f);
    if Improves(st, f, size) {
      CountsAfterAdd(st, f, size, pending);
      SmallestMovedTo(st, hist, at, size, slots, f);
    } else {
      SmallestKeptBy(st, hist, at + [|hist|], size, slots, Slot(f));
    }
  }

  // ----- whole batches

  /** `AddFeature` for the first `k` features of one input. */
  function AddFeatures(st: State, features: seq<nat>, size: nat, k: nat): State
    requires k <= |features|
    requires CanAddAll(st, features, size, k)
    decreases k, 1
  {
    if k == 0 then st else AddFeature(AddFeatures(st, features, size, k - 1), features[k - 1], size)
  }

  ghost predicate CanAddAll(st: State, features: seq<nat>, size: nat, k: nat)
    requires k <= |features|
    decreases k, 0
  {
    k == 0 || (CanAddAll(st, features, size, k - 1) && CanAdd(AddFeatures(st, features, size, k - 1), features[k - 1], size))
  }

  /** Features that improve a slot when the first `k` are added. */
  ghost function Gained(st: State, features: seq<nat>, size: nat, k: nat): nat
    requires k <= |features| && CanAddAll(st, features, size, k)
  {
    if k == 0 then 0 else
      Gained(st, features, size, k - 1)
      + if Improves(AddFeatures(st, features, size, k - 1), features[k - 1], size) then 1 else 0
  }

  ghost function SlotsUpTo(features: seq<nat>, k: nat): set<nat>
    requires k <= |features|
  {
    set i | 0 <= i < k :: Slot(features[i])
  }

  /** The batch of one input: its features in turn, and a seed if any of them improved. */
  function MergeInput(st: State, features: seq<nat>, size: nat): State
    requires Shape(st) && CanAddAll(st, features, size, |features|)
  {
    var st1 := AddFeatures(st, features, size, |features|);
    if st1.numUpdated == st.numUpdated then st1
    else AddToCorpus(st1, CounterDifference(st1.numUpdated, st.numUpdated))
  }

  lemma {:induction false} FeaturesAmid(st: State, hist: seq<Batch>, at: seq<nat>, features: seq<nat>, size: nat, k: nat)
    requires Inv(st, hist, at) && size > 0 && k <= |features|
    ensures CanAddAll(st, features, size, k)
    ensures Amid(AddFeatures(st, features, size, k), hist, at, size, SlotsUpTo(features, k), Gained(st, features, size, k))
    ensures AddFeatures(st, features, size, k).numUpdated == (st.numUpdated + Gained(st, features, size, k)) % U32
    ensures |AddFeatures(st, features, size, k).seeds| == |st.seeds|
  {
    hide Amid, CanAdd, AddFeature, Improves, Inv;
    if k == 0 {
      StartsAmid(st, hist, at, size);
      assert SlotsUpTo(features, 0) == {};
      InvHasShape(st, hist, at);
    } else {
      var f := features[k - 1];
      FeaturesAmid(st, hist, at, features, size, k - 1);
      var st1 := AddFeatures(st, features, size, k - 1);
      AddFeatureAmid(st1, hist, at, size, SlotsUpTo(features, k - 1), Gained(st, features, size, k - 1), f);
      AddFeatureCounter(st1, f, size);
      AddOneModulo(st.numUpdated, Gained(st, features, size, k - 1), if Improves(st1, f, size) then 1 else 0);
      assert SlotsUpTo(features, k) == SlotsUpTo(features, k - 1) + {Slot(f)};
    }
  }

  lemma InvHasShape(st: State, hist: seq<Batch>, at: seq<nat>)
    requires Inv(st, hist, at)
    ensures Shape(st) && st.numUpdated == st.numUpdated % U32
  {
  }

  lemma AddFeatureCounter(st: State, f: nat, size: nat)
    requires CanAdd(st, f, size)
    ensures AddFeature(st, f, size).numUpdated == (st.numUpdated + if Improves(st, f, size) then 1 else 0) % U32
    ensures |AddFeature(st, f, size).seeds| == |st.seeds| && |st.sizes| == FEATURE_SET_SIZE
  {
  }

  lemma AddOneModulo(a: nat, b: nat, c: nat)
    ensures ((a + b) % U32 + c) % U32 == (a + (b + c)) % U32
  {
  }

  lemma StartsAmid(st: State, hist: seq<Batch>, at: seq<nat>, size: nat)
    requires Inv(st, hist, at) && size > 0
    ensures Amid(st, hist, at, size, {}, 0)
  {
    var h, h' := hist, hist + [Batch(size, {})];
    forall s | 0 <= s < FEATURE_SET_SIZE ensures SlotRecords(st, h', at + [|hist|], s) {
      assert SlotRecords(st, h, at, s);
    }
    NobodyOwns(st);
  }

  /** With nothing pending, no slot belongs to a seed that does not exist. */
  lemma NobodyOwns(st: State)
    requires Counts(st, 0) && Shape(st)
    ensures forall s | 0 <= s < FEATURE_SET_SIZE && st.owners[s] == |st.seeds| :: st.sizes[s] == 0
  {
    forall s | 0 <= s < FEATURE_SET_SIZE && st.owners[s] == |st.seeds| ensures st.sizes[s] == 0 {
      Ownership.InOwned(TableOf(st), s, |st.seeds|);
    }
  }

  /** Slots gained never outnumber the slots there are, so the 32-bit counter wraps at most once a batch. */
  lemma GainedIsBounded(st: State, hist: seq<Batch>, at: seq<nat>, size: nat, slots: set<nat>, pending: nat)
    requires Amid(st, hist, at, size, slots, pending)
    ensures pending <= FEATURE_SET_SIZE
  {
    Ownership.OwnedBounded(TableOf(st), |st.seeds|);
  }

  /** One batch: the invariant survives if and only if the 32-bit update counter does not wrap in it. */
  lemma MergeInputInv(st: State, hist: seq<Batch>, at: seq<nat>, features: seq<nat>, size: nat)
    requires Inv(st, hist, at) && size > 0
    ensures CanAddAll(st, features, size, |features|)
    ensures var gained := Gained(st, features, size, |features|);
            var hist' := hist + [Batch(size, SlotsUpTo(features, |features|))];
            var at' := if gained == 0 then at else at + [|hist|];
            Inv(MergeInput(st, features, size), hist', at') <==> st.numUpdated + gained < U32
  {
    hide Amid, Inv, CanAdd, AddFeature;
    var n := |features|;
    FeaturesAmid(st, hist, at, features, size, n);
    var st1 := AddFeatures(st, features, size, n);
    var gained := Gained(st, features, size, n);
    var slots := SlotsUpTo(features, n);
    GainedIsBounded(st1, hist, at, size, slots, gained);
    InvHasShape(st, hist, at);
    if gained == 0 {
      NothingPending(st1, hist, at, size, slots);
    } else {
      SeedAdded(st1, hist, at, size, slots, gained, CounterDifference(st1.numUpdated, st.numUpdated));
    }
  }

  lemma NothingPending(st: State, hist: seq<Batch>, at: seq<nat>, size: nat, slots: set<nat>)
    requires Amid(st, hist, at, size, slots, 0)
    ensures Inv(st, hist + [Batch(size, slots)], at)
  {
    var h := hist + [Batch(size, slots)];
    NobodyOwns(st);
    forall s | 0 <= s < FEATURE_SET_SIZE ensures SlotRecords(st, h, at, s) {
      assert SlotRecords(st, h, at + [|hist|], s);
    }
  }

  lemma SeedAdded(st: State, hist: seq<Batch>, at: seq<nat>, size: nat, slots: set<nat>, pending: nat, counted: nat)
    requires Amid(st, hist, at, size, slots, pending) && pending > 0
    ensures Inv(AddToCorpus(st, counted), hist + [Batch(size, slots)], at + [|hist|]) <==> counted == pending
  {
    hide Ownership.Consistent;
    var st' := AddToCorpus(st, counted);
    var h := hist + [Batch(size, slots)];
    assert TableOf(st').counts == Ownership.Append(TableOf(st), counted).counts;
    Ownership.AppendConsistent(TableOf(st), pending, counted);
    assert st'.seeds[..|st.seeds|] == st.seeds;
    forall s | 0 <= s < FEATURE_SET_SIZE ensures SlotRecords(st', h, at + [|hist|], s) {
      assert SlotRecords(st, h, at + [|hist|], s);
    }
  }

  // ----- where a run starts

  ghost predicate Initial(st: State) {
    && Shape(st) && st.seeds == [] && st.deleteNums == st.numUpdated == st.numAdded == 0
    && forall s | 0 <= s < FEATURE_SET_SIZE :: st.sizes[s] == st.owners[s] == 0
  }

  lemma InitialInv(st: State)
    requires Initial(st)
    ensures Inv(st, [], [])
  {
    Ownership.EmptyConsistent(TableOf(st));
  }

  /** Every feature slot ever hit is owned by a live seed; so live seeds never run out. */
  lemma LiveSeedsCover(st: State, hist: seq<Batch>, at: seq<nat>, c: nat, s: nat)
    requires Inv(st, hist, at) && c < |hist| && s in hist[c].slots && s < FEATURE_SET_SIZE
    ensures st.sizes[s] > 0 && st.owners[s] < |st.seeds| && st.seeds[st.owners[s]].live
    ensures |st.seeds| > st.deleteNums
  {
    assert SlotRecords(st, hist, at, s);
    var i := st.owners[s];
    Ownership.InOwned(TableOf(st), s, i);
    assert TableOf(st).counts[i] == st.seeds[i].numFeatures;
    SomeoneLives(st.seeds, i);
  }

  lemma {:induction false} SomeoneLives(seeds: seq<Seed>, i: nat)
    requires i < |seeds| && seeds[i].live
    ensures Dead(seeds) < |seeds|
  {
    DeadAtMost(seeds[..|seeds| - 1]);
    if i < |seeds| - 1 {
      SomeoneLives(seeds[..|seeds| - 1], i);
    }
  }

  lemma {:induction false} DeadAtMost(seeds: seq<Seed>)
    ensures Dead(seeds) <= |seeds|
  {
    if seeds != [] { DeadAtMost(seeds[..|seeds| - 1]); }
  }

  // ----- selecting seeds for jobs

  function Select(st: State, i: nat): State
    requires i < |st.seeds|
  {
    st.(seeds := st.seeds[i := st.seeds[i].(locked := true, selections := st.seeds[i].selections + 1)])
  }

  predicate Indices(picks: seq<nat>, n: nat) {
    forall k | 0 <= k < |picks| :: picks[k] < n
  }

  /** The seeds at `picks`, selected one after the other. */
  function SelectAll(st: State, picks: seq<nat>): (st': State)
    requires Indices(picks, |st.seeds|)
    ensures |st'.seeds| == |st.seeds|
  {
    if picks == [] then st else Select(SelectAll(st, picks[..|picks| - 1]), picks[|picks| - 1])
  }

  lemma {:induction false} SeedSelected(st: State, picks: seq<nat>, i: nat)
    requires Indices(picks, |st.seeds|) && i < |st.seeds|
    ensures SelectAll(st, picks).seeds[i] ==
            Seed(st.seeds[i].numFeatures, st.seeds[i].live, st.seeds[i].locked || i in picks,
                 st.seeds[i].selections + multiset(picks)[i])
  {
    if picks != [] {
      assert picks == picks[..|picks| - 1] + [picks[|picks| - 1]];
      SeedSelected(st, picks[..|picks| - 1], i);
    }
  }

  lemma {:induction false} SelectionsCounted(st: State, picks: seq<nat>)
    requires Indices(picks, |st.seeds|)
    ensures var st' := SelectAll(st, picks);
            st' == st.(seeds := st'.seeds) && TotalSelections(st'.seeds) == TotalSelections(st.seeds) + |picks|
  {
    hide TotalSelections;
    if picks != [] {
      SelectionsCounted(st, picks[..|picks| - 1]);
      var last := picks[|picks| - 1];
      TotalsUpdate(SelectAll(st, picks[..|picks| - 1]).seeds, last, SelectAll(st, picks).seeds[last]);
    }
  }

  /** Selecting locks the picked seeds, counts every pick, and changes nothing else. */
  lemma SelectAllEffect(st: State, picks: seq<nat>)
    requires Indices(picks, |st.seeds|)
    ensures var st' := SelectAll(st, picks);
            && st' == st.(seeds := st'.seeds)
            && (forall i | 0 <= i < |st.seeds| ::
                  st'.seeds[i] == Seed(st.seeds[i].numFeatures, st.seeds[i].live, st.seeds[i].locked || i in picks,
                                       st.seeds[i].selections + multiset(picks)[i]))
            && TotalSelections(st'.seeds) == TotalSelections(st.seeds) + |picks|
  {
    hide SelectAll, TotalSelections;
    SelectionsCounted(st, picks);
    forall i | 0 <= i < |st.seeds|
      ensures SelectAll(st, picks).seeds[i] ==
              Seed(st.seeds[i].numFeatures, st.seeds[i].live, st.seeds[i].locked || i in picks,
                   st.seeds[i].selections + multiset(picks)[i])
    {
      SeedSelected(st, picks, i);
    }
  }

  /** Handing out seeds disturbs neither the slots nor the counts. */
  lemma SelectAllInv(st: State, hist: seq<Batch>, at: seq<nat>, picks: seq<nat>)
    requires Inv(st, hist, at) && Indices(picks, |st.seeds|)
    ensures Inv(SelectAll(st, picks), hist, at)
  {
    var st' := SelectAll(st, picks);
    SelectAllEffect(st, picks);
    SameDead(st.seeds, st'.seeds);
    assert TableOf(st') == TableOf(st);
    forall s | 0 <= s < FEATURE_SET_SIZE ensures SlotRecords(st', hist, at, s) {
      assert SlotRecords(st, hist, at, s);
    }
  }

  lemma {:induction false} SameDead(a: seq<Seed>, b: seq<Seed>)
    requires |a| == |b| && forall i | 0 <= i < |a| :: a[i].live == b[i].live
    ensures Dead(a) == Dead(b)
  {
    if a != [] {
      SameDead(a[..|a| - 1], b[..|b| - 1]);
    }
  }

  /** `handed` are all seeds handed to jobs so far, `chosen` the first-phase picks among them: seeds count how often they
      were handed out, and are locked iff they ever were. */
  ghost predicate Accounts(st: State, chosen: seq<nat>, handed: seq<nat>) {
    && (forall k | 0 <= k < |chosen| :: chosen[k] in handed)
    && (forall j, k | 0 <= j < k < |chosen| :: chosen[j] != chosen[k])
    && Indices(handed, |st.seeds|)
    && (forall i | 0 <= i < |st.seeds| ::
          st.seeds[i].selections == multiset(handed)[i] && (st.seeds[i].locked <==> i in handed))
    && TotalSelections(st.seeds) == |handed|
  }

  /** First-phase picks: distinct seeds that no job held yet. */
  ghost predicate Untaken(st: State, picks: seq<nat>) {
    && (forall k | 0 <= k < |picks| :: picks[k] < |st.seeds| && !st.seeds[picks[k]].locked)
    && (forall j, k | 0 <= j < k < |picks| :: picks[j] != picks[k])
  }

  /** One job's seeds keep the accounts: no seed is ever a first-phase pick twice. */
  lemma AccountsAfterSelect(st: State, chosen: seq<nat>, handed: seq<nat>, picks: seq<nat>, first: nat)
    requires Accounts(st, chosen, handed) && Indices(picks, |st.seeds|) && first <= |picks|
    requires Untaken(st, picks[..first])
    ensures Accounts(SelectAll(st, picks), chosen + picks[..first], handed + picks)
  {
    hide SelectAll, TotalSelections;
    SelectAllEffect(st, picks);
    var now, st' := chosen + picks[..first], SelectAll(st, picks);
    forall k | 0 <= k < |now| ensures now[k] in handed + picks {
      assert k >= |chosen| ==> now[k] == picks[k - |chosen|] && picks[k - |chosen|] in picks;
    }
    forall j, k | 0 <= j < k < |now| ensures now[j] != now[k] {
      if j < |chosen| <= k { assert st.seeds[now[j]].locked && !st.seeds[picks[..first][k - |chosen|]].locked; }
    }
    forall i | 0 <= i < |st'.seeds|
      ensures st'.seeds[i].selections == multiset(handed + picks)[i]
      ensures st'.seeds[i].locked <==> i in handed + picks
    {
      assert multiset(handed + picks)[i] == multiset(handed)[i] + multiset(picks)[i];
    }
  }

  /** Merging inputs keeps the accounts. */
  lemma AccountsAfterMerge(st: State, features: seq<nat>, size: nat, chosen: seq<nat>, handed: seq<nat>)
    requires Shape(st) && CanAddAll(st, features, size, |features|) && Accounts(st, chosen, handed)
    ensures Accounts(MergeInput(st, features, size), chosen, handed)
  {
    AddFeaturesKeep(st, features, size, |features|);
    hide AddFeatures;
    var st1, st2 := AddFeatures(st, features, size, |features|), MergeInput(st, features, size);
    if st1.numUpdated != st.numUpdated {
      assert st2.seeds[..|st2.seeds| - 1] == st1.seeds;
      NotHanded(handed, |st.seeds|);
    }
  }

  lemma NotHanded(handed: seq<nat>, n: nat)
    requires Indices(handed, n)
    ensures n !in handed && multiset(handed)[n] == 0 && Indices(handed, n + 1)
  {
    assert n !in handed;
    assert n !in multiset(handed);
  }

  lemma {:induction false} AddFeaturesKeep(st: State, features: seq<nat>, size: nat, k: nat)
    requires Shape(st) && k <= |features| && CanAddAll(st, features, size, k)
    ensures var st' := AddFeatures(st, features, size, k);
            && Shape(st') && |st'.seeds| == |st.seeds| && TotalSelections(st'.seeds) == TotalSelections(st.seeds)
            && forall i | 0 <= i < |st.seeds| ::
                 st'.seeds[i].locked == st.seeds[i].locked && st'.seeds[i].selections == st.seeds[i].selections
  {
    if k > 0 {
      AddFeaturesKeep(st, features, size, k - 1);
      var st1 := AddFeatures(st, features, size, k - 1);
      var f := features[k - 1];
      var o := st1.owners[Slot(f)];
      if Improves(st1, f, size) && st1.sizes[Slot(f)] > 0 {
        TotalsUpdate(st1.seeds, o, Dispossess(st1, o).seeds[o]);
      }
    }
  }
}
