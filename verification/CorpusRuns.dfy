/** Whole runs of the fork mode's corpus: merges of inputs and selections of job seeds, in any order. */
module CorpusRuns {
  import opened Widths
  import opened Collections
  import opened FeatureSlots
  import opened CorpusModel
  import Ownership

  /** The locked update for one input, or the choice of a job's seeds: `picks`, of which the first `first` were found
      unlocked. */
  datatype Event = Merge(features: seq<nat>, size: nat) | SelectSeeds(picks: seq<nat>, first: nat)

  ghost predicate Unwrapped(st: State, features: seq<nat>, size: nat) {
    && Shape(st) && size > 0 && CanAddAll(st, features, size, |features|)
    && st.numUpdated + Gained(st, features, size, |features|) < U32
  }

  ghost predicate CanSelect(st: State, picks: seq<nat>, first: nat) {
    && Indices(picks, |st.seeds|) && first <= |picks| && Untaken(st, picks[..first])
    && forall k | 0 <= k < |picks| :: st.seeds[picks[k]].live
  }

  ghost predicate Happens(st: State, e: Event, st': State) {
    match e
    case Merge(features, size) => Unwrapped(st, features, size) && st' == MergeInput(st, features, size)
    case SelectSeeds(picks, first) => CanSelect(st, picks, first) && st' == SelectAll(st, picks)
  }

  /** A run, with the state before each event and the last one; the update counter never wraps amid a batch. */
  ghost predicate IsRun(events: seq<Event>, states: seq<State>) {
    && |states| == |events| + 1 && Initial(states[0])
    && forall i | 0 <= i < |events| :: Happens(states[i], events[i], states[i + 1])
  }

  // ----- what has happened

  ghost function History(events: seq<Event>): seq<Batch> {
    if events == [] then [] else
      History(events[..|events| - 1])
      + match events[|events| - 1]
        case Merge(features, size) => [Batch(size, SlotsUpTo(features, |features|))]
        case SelectSeeds(_, _) => []
  }

  /** All first-phase picks. */
  ghost function Chosen(events: seq<Event>): seq<nat> {
    if events == [] then [] else
      Chosen(events[..|events| - 1])
      + match events[|events| - 1]
        case Merge(_, _) => []
        case SelectSeeds(picks, first) => if first <= |picks| then picks[..first] else []
  }

  /** All seeds handed to jobs. */
  ghost function Handed(events: seq<Event>): seq<nat> {
    if events == [] then [] else
      Handed(events[..|events| - 1])
      + match events[|events| - 1]
        case Merge(_, _) => []
        case SelectSeeds(picks, _) => picks
  }

  /** Which batch each seed was added for: the one last merged when the corpus grew. */
  ghost function Births(events: seq<Event>, states: seq<State>, k: nat): seq<nat>
    requires k <= |events| < |states|
  {
    if k == 0 then [] else
      var before := Births(events, states, k - 1);
      if |states[k].seeds| > |states[k - 1].seeds| then before + [|History(events[..k - 1])|] else before
  }

  lemma {:induction false} HistoryGrows(events: seq<Event>, j: nat)
    requires j <= |events|
    ensures History(events[..j]) <= History(events)
  {
    if j < |events| {
      HistoryGrows(events[..|events| - 1], j);
      assert events[..|events| - 1][..j] == events[..j];
    } else {
      assert events[..j] == events;
    }
  }

  lemma NextEvent(before: seq<Event>, e: Event)
    ensures History(before + [e])
         == if e.Merge? then History(before) + [Batch(e.size, SlotsUpTo(e.features, |e.features|))] else History(before)
    ensures Chosen(before + [e])
         == if e.SelectSeeds? && e.first <= |e.picks| then Chosen(before) + e.picks[..e.first] else Chosen(before)
    ensures Handed(before + [e]) == if e.SelectSeeds? then Handed(before) + e.picks else Handed(before)
  {
    assert (before + [e])[..|before|] == before;
  }

  // ----- every reachable state

  /** A batch that does not wrap the update counter adds a seed iff it improves a slot. */
  lemma MergeGrows(st: State, hist: seq<Batch>, at: seq<nat>, features: seq<nat>, size: nat)
    requires Inv(st, hist, at) && Unwrapped(st, features, size)
    ensures |MergeInput(st, features, size).seeds|
         == |st.seeds| + if Gained(st, features, size, |features|) == 0 then 0 else 1
  {
    FeaturesAmid(st, hist, at, features, size, |features|);
    InvHasShape(st, hist, at);
    hide Inv, AddFeatures, CanAddAll, Gained;
  }

  lemma StepHolds(st: State, e: Event, st': State, before: seq<Event>, at: seq<nat>)
    requires Inv(st, History(before), at) && Accounts(st, Chosen(before), Handed(before)) && Happens(st, e, st')
    ensures Inv(st', History(before + [e]), if |st'.seeds| > |st.seeds| then at + [|History(before)|] else at)
    ensures Accounts(st', Chosen(before + [e]), Handed(before + [e]))
  {
    NextEvent(before, e);
    hide Inv, Accounts, MergeInput, SelectAll, SlotsUpTo, Untaken, Indices, History, Chosen, Handed;
    match e
    case Merge(features, size) =>
      MergeInputInv(st, History(before), at, features, size);
      MergeGrows(st, History(before), at, features, size);
      AccountsAfterMerge(st, features, size, Chosen(before), Handed(before));
    case SelectSeeds(picks, first) =>
      SelectAllInv(st, History(before), at, picks);
      AccountsAfterSelect(st, Chosen(before), Handed(before), picks, first);
  }

  /** In every reachable state the corpus is consistent with its history: each slot ever hit is owned by the seed of the
      first batch that reached the least size. And the accounts of the seeds handed out balance: no seed was ever a
      first-phase pick twice, and each seed counts how often it was handed out. */
  lemma {:induction false} ReachableInv(events: seq<Event>, states: seq<State>, k: nat)
    requires IsRun(events, states) && k <= |events|
    ensures Inv(states[k], History(events[..k]), Births(events, states, k))
    ensures Accounts(states[k], Chosen(events[..k]), Handed(events[..k]))
  {
    hide Inv, Happens;
    if k == 0 {
      InitialInv(states[0]);
    } else {
      ReachableInv(events, states, k - 1);
      assert events[..k] == events[..k - 1] + [events[k - 1]];
      StepHolds(states[k - 1], events[k - 1], states[k], events[..k - 1], Births(events, states, k - 1));
    }
  }

  /** Only a merge adds a seed, and it adds at most one. */
  lemma SeedsAdded(events: seq<Event>, states: seq<State>, k: nat)
    requires IsRun(events, states) && k < |events|
    ensures |states[k + 1].seeds| == |states[k].seeds|
            || (|states[k + 1].seeds| == |states[k].seeds| + 1 && |History(events[..k + 1])| == |History(events[..k])| + 1)
    ensures |History(events[..k])| <= |History(events[..k + 1])|
  {
    assert Happens(states[k], events[k], states[k + 1]);
    assert events[..k + 1] == events[..k] + [events[k]];
    NextEvent(events[..k], events[k]);
    ReachableInv(events, states, k);
    hide Inv, History, Accounts;
    if events[k].Merge? {
      MergeGrows(states[k], History(events[..k]), Births(events, states, k), events[k].features, events[k].size);
    }
  }

  /** Every seed was added for a batch of its own, later ones for later batches. */
  lemma {:induction false} BirthsAscend(events: seq<Event>, states: seq<State>, k: nat)
    requires IsRun(events, states) && k <= |events|
    ensures StrictlySorted(Births(events, states, k)) && |Births(events, states, k)| == |states[k].seeds|
    ensures forall i | 0 <= i < |states[k].seeds| :: Births(events, states, k)[i] < |History(events[..k])|
  {
    if k > 0 {
      hide Happens, History;
      BirthsAscend(events, states, k - 1);
      SeedsAdded(events, states, k - 1);
    }
  }

  /** The owner of a slot ever hit, in plain terms. */
  lemma OwnerIsFirstSmallest(events: seq<Event>, states: seq<State>, k: nat, s: nat)
    requires IsRun(events, states) && k <= |events| && s < FEATURE_SET_SIZE
    requires exists b :: 0 <= b < |History(events[..k])| && s in History(events[..k])[b].slots
    ensures Shape(states[k])
    ensures var births, o := Births(events, states, k), states[k].owners[s];
            && o < |births| && FirstSmallest(History(events[..k]), s, births[o])
            && History(events[..k])[births[o]].size == states[k].sizes[s]
  {
    ReachableInv(events, states, k);
    assert SlotRecords(states[k], History(events[..k]), Births(events, states, k), s);
  }

  /** A corpus with a live seed keeps one, whatever is merged and selected later. */
  lemma NeverRunsDry(events: seq<Event>, states: seq<State>, j: nat, k: nat, i: nat)
    requires IsRun(events, states) && j <= k <= |events|
    requires i < |states[j].seeds| && states[j].seeds[i].live
    ensures |states[k].seeds| > states[k].deleteNums
  {
    ReachableInv(events, states, j);
    ReachableInv(events, states, k);
    var c, s := SlotOfSeed(states[j], History(events[..j]), Births(events, states, j), i);
    HistoryGrows(events[..k], j);
    assert events[..k][..j] == events[..j];
    LiveSeedsCover(states[k], History(events[..k]), Births(events, states, k), c, s);
  }

  /** A live seed owns a slot, which some batch hit. */
  lemma SlotOfSeed(st: State, hist: seq<Batch>, at: seq<nat>, i: nat) returns (c: nat, s: nat)
    requires Inv(st, hist, at) && i < |st.seeds| && st.seeds[i].live
    ensures c < |hist| && s in hist[c].slots && s < FEATURE_SET_SIZE
  {
    assert TableOf(st).counts[i] == st.seeds[i].numFeatures > 0;
    s :| s in Ownership.Owned(TableOf(st), i);
    assert SlotRecords(st, hist, at, s);
    c := at[i];
  }

  // ----- the update counter does wrap

  /** A batch of features 0 and 1 improves both slots if they have never been hit, or only by larger inputs. */
  lemma TwoFeatures(st: State, hist: seq<Batch>, at: seq<nat>, size: nat)
    requires Inv(st, hist, at) && size > 0
    requires st.sizes[0] == st.sizes[1] && (st.sizes[0] == 0 || size < st.sizes[0])
    ensures CanAddAll(st, [0, 1], size, 2) && Gained(st, [0, 1], size, 2) == 2
    ensures var st' := MergeInput(st, [0, 1], size);
            && st'.numUpdated == (st.numUpdated + 2) % U32 && |st'.seeds| == |st.seeds| + 1
            && st'.sizes == st.sizes[0 := size][1 := size]
            && st'.seeds[|st.seeds|].numFeatures == CounterDifference(st'.numUpdated, st.numUpdated)
  {
    MergeInputInv(st, hist, at, [0, 1], size);
    InvHasShape(st, hist, at);
    hide Inv;
    TwoImprove(st, size);
  }

  lemma TwoImprove(st: State, size: nat)
    requires Shape(st) && CanAddAll(st, [0, 1], size, 2)
    requires st.sizes[0] == st.sizes[1] && (st.sizes[0] == 0 || size < st.sizes[0])
    ensures Gained(st, [0, 1], size, 2) == 2
    ensures var st2 := AddFeatures(st, [0, 1], size, 2);
            && st2.numUpdated == (st.numUpdated + 2) % U32 && |st2.seeds| == |st.seeds|
            && st2.sizes == st.sizes[0 := size][1 := size]
  {
    assert CanAddAll(st, [0, 1], size, 0) && CanAddAll(st, [0, 1], size, 1);
    var st1 := AddFeatures(st, [0, 1], size, 1);
    assert AddFeatures(st, [0, 1], size, 0) == st && st1 == AddFeature(st, 0, size);
    assert Gained(st, [0, 1], size, 0) == 0 && Gained(st, [0, 1], size, 1) == 1;
    assert AddFeatures(st, [0, 1], size, 2) == AddFeature(st1, 1, size);
  }

  /** The state before anything is merged. */
  lemma Start() returns (st: State)
    ensures Initial(st)
  {
    hide Zeros;
    st := State([], 0, 0, 0, Zeros(FEATURE_SET_SIZE), Zeros(FEATURE_SET_SIZE));
  }

  lemma OneMore(events: seq<Event>, states: seq<State>, e: Event, st': State)
    requires IsRun(events, states) && Happens(states[|events|], e, st')
    ensures IsRun(events + [e], states + [st'])
  {
    hide Happens;
    var es, ss := events + [e], states + [st'];
    forall i | 0 <= i < |es| ensures Happens(ss[i], es[i], ss[i + 1]) {
      if i < |events| {
        assert Happens(states[i], events[i], states[i + 1]);
      }
    }
  }

  /** Ever smaller inputs with two features raise the update counter by two each. */
  lemma {:induction false} FallingSizes(n: nat) returns (events: seq<Event>, states: seq<State>)
    requires 2 * n < U32
    ensures |events| == n && IsRun(events, states) && Shape(states[n])
    ensures states[n].numUpdated == 2 * n && |states[n].seeds| == n
    ensures states[n].sizes[0] == states[n].sizes[1] == if n == 0 then 0 else U32 - n
  {
    hide Inv, MergeInput, Happens, Accounts;
    if n == 0 {
      var st := Start();
      events, states := [], [st];
    } else {
      events, states := FallingSizes(n - 1);
      events, states := FallOnce(events, states, U32 - n);
    }
  }

  lemma FallOnce(events: seq<Event>, states: seq<State>, size: nat) returns (events': seq<Event>, states': seq<State>)
    requires IsRun(events, states) && Shape(states[|events|]) && size > 0
    requires var st := states[|events|];
             st.sizes[0] == st.sizes[1] && (st.sizes[0] == 0 || size < st.sizes[0]) && st.numUpdated + 2 < U32
    ensures |events'| == |events| + 1 && IsRun(events', states') && Shape(states'[|events'|])
    ensures var st, st' := states[|events|], states'[|events'|];
            && st'.numUpdated == st.numUpdated + 2 && |st'.seeds| == |st.seeds| + 1 && st'.sizes[0] == st'.sizes[1] == size
  {
    hide Inv, MergeInput, Happens, Accounts, History, Births;
    var n := |events|;
    var st := states[n];
    ReachableInv(events, states, n);
    assert events[..n] == events;
    TwoFeatures(st, History(events), Births(events, states, n), size);
    MergeHappens(st, [0, 1], size);
    events', states' := events + [Merge([0, 1], size)], states + [MergeInput(st, [0, 1], size)];
    OneMore(events, states, Merge([0, 1], size), MergeInput(st, [0, 1], size));
    ReachableInv(events', states', n + 1);
    InvHasShape(states'[n + 1], History(events'[..n + 1]), Births(events', states', n + 1));
  }

  lemma MergeHappens(st: State, features: seq<nat>, size: nat)
    requires Unwrapped(st, features, size)
    ensures Happens(st, Merge(features, size), MergeInput(st, features, size))
  {
  }

  /** The wrap-around is real: a run of 2^31 - 1 inputs, and one more input after which the new seed claims
      2^64 - 2^32 + 2 features for the two slots that it owns. */
  lemma CounterWraps() returns (events: seq<Event>, states: seq<State>)
    ensures IsRun(events, states) && |events| == U32 / 2 - 1
    ensures var st, size := states[|events|], U32 / 2;
            var at := Births(events, states, |events|);
            && Inv(st, History(events), at)
            && |st.seeds| == U32 / 2 - 1 && CanAddAll(st, [0, 1], size, 2) && Gained(st, [0, 1], size, 2) == 2
            && var st' := MergeInput(st, [0, 1], size);
            && |st'.seeds| == |st.seeds| + 1 && st'.seeds[|st.seeds|].numFeatures == U64 - U32 + 2
            && !Inv(st', History(events) + [Batch(size, SlotsUpTo([0, 1], 2))], at + [|History(events)|])
  {
    hide Inv, Happens, Accounts, MergeInput;
    var n, size := U32 / 2 - 1, U32 / 2;
    events, states := FallingSizes(n);
    ReachableInv(events, states, n);
    var at := Births(events, states, n);
    assert events[..n] == events;
    TwoFeatures(states[n], History(events), at, size);
    MergeInputInv(states[n], History(events), at, [0, 1], size);
  }
}
