/** The fuzzer's own corpus as a value, and what one run of the target does to it. */
module InputModel {
  import opened Collections
  import opened FeatureSlots
  import opened Frequencies
  import Ownership

  type Data = seq<nat>

  /** The target and the feature collection behind it: None if the target rejects the input. */
  type Target = Data -> Option<seq<nat>>

  datatype Info = Info(u: Data, numFeatures: nat, uniq: seq<nat>, neverReduce: bool, traced: bool)

  datatype Options = Options(shrink: bool, entropic: EntropicOptions, reduceInputs: bool)

  datatype State = State(infos: seq<Info>, numAdded: nat, numUpdated: nat,
                         sizes: seq<nat>, owners: seq<nat>, entropy: Entropy)

  function TableOf(st: State): Ownership.Table {
    Ownership.Table(seq(|st.infos|, i requires 0 <= i < |st.infos| => st.infos[i].numFeatures),
                    st.sizes, st.owners, st.numAdded)
  }

  ghost predicate Shape(st: State) {
    |st.sizes| == |st.owners| == FEATURE_SET_SIZE && |st.entropy.lists| == |st.infos| && Sane(st.entropy)
  }

  // ----- the operations

  predicate Improves(st: State, opts: Options, f: nat, newSize: nat)
    requires |st.sizes| == FEATURE_SET_SIZE
  {
    var old' := st.sizes[Slot(f)];
    old' == 0 || (opts.shrink && old' > newSize)
  }

  /** An input loses a slot; with its last one it is evicted. */
  function Dispossess(st: State, i: nat): State
    requires i < |st.infos| && st.infos[i].numFeatures > 0
  {
    var n := st.infos[i].numFeatures - 1;
    st.(infos := st.infos[i := st.infos[i].(numFeatures := n, u := if n == 0 then [] else st.infos[i].u)])
  }

  ghost predicate CanAdd(st: State, opts: Options, f: nat, newSize: nat) {
    && Shape(st) && newSize > 0
    && (Improves(st, opts, f, newSize) && st.sizes[Slot(f)] > 0 ==>
          st.owners[Slot(f)] < |st.infos| && st.infos[st.owners[Slot(f)]].numFeatures > 0)
    && Evictable(st.entropy)
  }

  function AddFeature(st: State, opts: Options, f: nat, newSize: nat): State
    requires CanAdd(st, opts, f, newSize)
  {
    if !Improves(st, opts, f, newSize) then st else
      var s := Slot(f);
      var st1 :=
        if st.sizes[s] > 0 then Dispossess(st, st.owners[s])
        else st.(numAdded := st.numAdded + 1,
                 entropy := if opts.entropic.enabled then AddRare(st.entropy, opts.entropic, s) else st.entropy);
      st1.(numUpdated := st1.numUpdated + 1,
           owners := st1.owners[s := |st1.infos|], sizes := st1.sizes[s := newSize])
  }

  function AddToCorpus(st: State, u: Data, numFeatures: nat, neverReduce: bool, uniq: seq<nat>, traced: bool): State {
    st.(infos := st.infos + [Info(u, numFeatures, Sort(uniq), neverReduce, traced)],
        entropy := st.entropy.(lists := st.entropy.lists + [[]]))
  }

  function Replace(st: State, i: nat, u: Data): State
    requires i < |st.infos|
  {
    st.(infos := st.infos[i := st.infos[i].(u := u)])
  }

  // ----- the callback of one run

  /** The corpus, the features that improved it, and how many of the base input's features were seen. */
  datatype Tally = Tally(st: State, fresh': seq<nat>, found: nat)

  predicate CountsForBase(st: State, opts: Options, ii: int, f: nat)
    requires -1 <= ii < |st.infos|
  {
    opts.reduceInputs && ii >= 0 && !st.infos[ii].neverReduce && f in st.infos[ii].uniq
  }

  function Visit(t: Tally, opts: Options, ii: int, f: nat, size: nat): Tally
    requires CanAdd(t.st, opts, f, size) && -1 <= ii < |t.st.infos|
  {
    AddFeatureShape(t.st, opts, f, size);
    var st1 := AddFeature(t.st, opts, f, size);
    var st2 := if opts.entropic.enabled then st1.(entropy := Update(st1.entropy, ii, Slot(f))) else st1;
    Tally(st2, if Improves(t.st, opts, f, size) then t.fresh' + [f] else t.fresh',
          t.found + if CountsForBase(st1, opts, ii, f) then 1 else 0)
  }

  /** What `AddFeature` leaves alone. */
  lemma AddFeatureShape(st: State, opts: Options, f: nat, size: nat)
    requires CanAdd(st, opts, f, size)
    ensures var st' := AddFeature(st, opts, f, size);
            && Shape(st') && |st'.infos| == |st.infos|
            && st'.numUpdated == st.numUpdated + (if Improves(st, opts, f, size) then 1 else 0)
            && forall i | 0 <= i < |st.infos| ::
                 && st'.infos[i].uniq == st.infos[i].uniq && st'.infos[i].neverReduce == st.infos[i].neverReduce
                 && st'.infos[i].traced == st.infos[i].traced
                 && (st'.infos[i].u == st.infos[i].u || (st'.infos[i].u == [] && st'.infos[i].numFeatures == 0))
  {
    EvictSane(st.entropy, opts.entropic);
  }

  // ----- invariants

  /** The features an input hits. */
  ghost function Exhibited(target: Target, u: Data): set<nat> {
    match target(u)
    case None => {}
    case Some(features) => Elements(features)
  }

  ghost predicate InfoOk(info: Info, target: Target) {
    && StrictlySorted(info.uniq)
    && (info.numFeatures > 0 ==> info.u != [])
    && (info.u != [] ==> Elements(info.uniq) <= Exhibited(target, info.u))
  }

  ghost predicate EntropyOk(st: State) {
    && Shape(st) && Conserved(st.entropy) && NoDuplicates(st.entropy.rare)
    && forall k | 0 <= k < |st.entropy.rare| :: st.sizes[st.entropy.rare[k]] > 0
  }

  /** No owner is larger than the size a slot of its records. */
  ghost predicate OwnersFit(st: State, pendingSize: nat)
    requires Shape(st)
  {
    forall s | 0 <= s < FEATURE_SET_SIZE && st.sizes[s] > 0 ::
      if st.owners[s] < |st.infos| then |st.infos[st.owners[s]].u| <= st.sizes[s]
      else st.owners[s] == |st.infos| && st.sizes[s] == pendingSize
  }

  ghost predicate Amid(st: State, target: Target, size: nat, pending: nat) {
    && size > 0 && EntropyOk(st) && OwnersFit(st, size)
    && Ownership.Consistent(TableOf(st), pending)
    && forall i | 0 <= i < |st.infos| :: InfoOk(st.infos[i], target)
  }

  /** What holds between runs of the target; in particular the equality `ValidateFeatureSet` checks. */
  ghost predicate Inv(st: State, target: Target) {
    Amid(st, target, 1, 0)
  }

  lemma RareIsBounded(rare: seq<nat>)
    requires NoDuplicates(rare) && forall k | 0 <= k < |rare| :: rare[k] < FEATURE_SET_SIZE
    ensures |rare| <= FEATURE_SET_SIZE
  {
    DistinctSize(rare);
    Ownership.RangeSize(FEATURE_SET_SIZE, Elements(rare));
  }

  lemma AmidCanAdd(st: State, target: Target, size: nat, pending: nat, opts: Options, f: nat)
    requires Amid(st, target, size, pending)
    ensures CanAdd(st, opts, f, size)
    ensures Improves(st, opts, f, size) ==>
              Ownership.CanTake(TableOf(st), Slot(f)) && Slot(f) !in Ownership.Owned(TableOf(st), |st.infos|)
  {
    RareIsBounded(st.entropy.rare);
    var s := Slot(f);
    if Improves(st, opts, f, size) {
      Ownership.InOwned(TableOf(st), s, |st.infos|);
      Ownership.OwnerExists(TableOf(st), pending, s);
    }
  }

  lemma TableAfterAdd(st: State, opts: Options, f: nat, size: nat)
    requires CanAdd(st, opts, f, size) && Improves(st, opts, f, size) && Ownership.CanTake(TableOf(st), Slot(f))
    ensures TableOf(AddFeature(st, opts, f, size)) == Ownership.Take(TableOf(st), Slot(f), size)
  {
    var t, t' := TableOf(AddFeature(st, opts, f, size)), Ownership.Take(TableOf(st), Slot(f), size);
    assert t.counts == t'.counts;
  }

  lemma EntropyAfterAdd(st: State, opts: Options, f: nat, size: nat)
    requires CanAdd(st, opts, f, size) && EntropyOk(st)
    ensures EntropyOk(AddFeature(st, opts, f, size))
  {
    AddFeatureShape(st, opts, f, size);
    var s, st' := Slot(f), AddFeature(st, opts, f, size);
    if Improves(st, opts, f, size) && st.sizes[s] == 0 && opts.entropic.enabled {
      assert s !in st.entropy.rare;
      AddRareConserves(st.entropy, opts.entropic, s);
      forall k | 0 <= k < |st'.entropy.rare| ensures st'.sizes[st'.entropy.rare[k]] > 0 {
        assert st'.entropy.rare[k] in st'.entropy.rare;
      }
    }
  }

  /** One `AddFeature` amid a run. */
  lemma AddFeatureAmid(st: State, target: Target, size: nat, pending: nat, opts: Options, f: nat)
    requires Amid(st, target, size, pending)
    ensures CanAdd(st, opts, f, size)
    ensures Amid(AddFeature(st, opts, f, size), target, size, pending + if Improves(st, opts, f, size) then 1 else 0)
  {
    hide Ownership.Consistent, EntropyOk, Conserved;
    AmidCanAdd(st, target, size, pending, opts, f);
    AddFeatureShape(st, opts, f, size);
    EntropyAfterAdd(st, opts, f, size);
    if Improves(st, opts, f, size) {
      TableAfterAdd(st, opts, f, size);
      Ownership.TakeConsistent(TableOf(st), Slot(f), size, pending);
    }
  }

  // ----- one run of the target

  /** The callback over the first `k` features. */
  function VisitAll(st: State, opts: Options, ii: int, features: seq<nat>, size: nat, k: nat): (t: Tally)
    requires k <= |features| && -1 <= ii < |st.infos| && CanVisit(st, opts, ii, features, size, k)
    decreases k, 1
  {
    if k == 0 then Tally(st, [], 0)
    else Visit(VisitAll(st, opts, ii, features, size, k - 1), opts, ii, features[k - 1], size)
  }

  ghost predicate CanVisit(st: State, opts: Options, ii: int, features: seq<nat>, size: nat, k: nat)
    requires k <= |features| && -1 <= ii < |st.infos|
    decreases k, 0
  {
    k == 0 ||
    (CanVisit(st, opts, ii, features, size, k - 1) &&
     var t := VisitAll(st, opts, ii, features, size, k - 1);
     CanAdd(t.st, opts, features[k - 1], size) && ii < |t.st.infos|)
  }

  /** `RunOne` once the target has accepted `data` with the given features; `ii` is the base input, if any.
      The flag says whether the corpus took the data in. */
  function RunOne(st: State, opts: Options, ii: int, data: Data, features: seq<nat>, force: bool, traced: bool): (State, bool)
    requires -1 <= ii < |st.infos| && CanVisit(st, opts, ii, features, |data|, |features|)
  {
    var t := VisitAll(st, opts, ii, features, |data|, |features|);
    if t.st.numUpdated > st.numUpdated || force then
      (AddToCorpus(t.st, data, Minus(t.st.numUpdated, st.numUpdated), force, t.fresh', traced), true)
    else if 0 <= ii < |t.st.infos| && t.found > 0 && !t.st.infos[ii].traced
            && t.found == |t.st.infos[ii].uniq| && |t.st.infos[ii].u| > |data| then
      (Replace(t.st, ii, data), true)
    else (t.st, false)
  }

  function Minus(a: nat, b: nat): nat {
    if a < b then 0 else a - b
  }

  /** How many of the first `k` features the base input lists. */
  ghost function Matches(uniq: seq<nat>, features: seq<nat>, k: nat): nat
    requires k <= |features|
  {
    if k == 0 then 0 else Matches(uniq, features, k - 1) + if features[k - 1] in uniq then 1 else 0
  }

  lemma CommonGrows(a: set<nat>, b: set<nat>, f: nat)
    requires f !in b
    ensures |a * (b + {f})| == |a * b| + if f in a then 1 else 0
  {
    assert a * (b + {f}) == if f in a then a * b + {f} else a * b;
  }

  /** Features are counted without repetition, so as many matches as there are listed features are all of them. */
  lemma {:induction false} MatchesCount(uniq: seq<nat>, features: seq<nat>, k: nat)
    requires k <= |features| && NoDuplicates(features)
    ensures Matches(uniq, features, k) == |Elements(uniq) * Elements(features[..k])|
  {
    if k == 0 {
      assert Elements(uniq) * Elements(features[..0]) == {};
    } else {
      MatchesCount(uniq, features, k - 1);
      var f := features[k - 1];
      assert features[..k] == features[..k - 1] + [f];
      assert f !in features[..k - 1];
      ElementsSnoc(features[..k - 1], f);
      assert f in Elements(uniq) <==> f in uniq;
      CommonGrows(Elements(uniq), Elements(features[..k - 1]), f);
    }
  }

  lemma {:induction false} StrictlySortedSize(s: seq<nat>)
    requires StrictlySorted(s)
    ensures |Elements(s)| == |s|
  {
    DistinctSize(s);
  }

  /** As many matches as listed features: every listed feature is exhibited. */
  lemma AllMatch(uniq: seq<nat>, features: seq<nat>)
    requires StrictlySorted(uniq) && NoDuplicates(features)
    requires Matches(uniq, features, |features|) == |uniq|
    ensures Elements(uniq) <= Elements(features)
  {
    var n := |features|;
    assert features[..n] == features;
    MatchesCount(uniq, features, n);
    StrictlySortedSize(uniq);
    SameSize(Elements(uniq) * Elements(features), Elements(uniq));
  }

  /** What the callback has established after `k` features. */
  ghost predicate Visited(t: Tally, st: State, opts: Options, target: Target, ii: int, features: seq<nat>, size: nat, k: nat)
    requires k <= |features| && -1 <= ii < |st.infos|
  {
    && |t.st.infos| == |st.infos|
    && t.st.numUpdated >= st.numUpdated && Amid(t.st, target, size, t.st.numUpdated - st.numUpdated)
    && |t.fresh'| == t.st.numUpdated - st.numUpdated
    && NoDuplicates(t.fresh') && Elements(t.fresh') <= Elements(features[..k])
    && (ii >= 0 ==> t.st.infos[ii].uniq == st.infos[ii].uniq && t.st.infos[ii].neverReduce == st.infos[ii].neverReduce)
    && t.found == if ii >= 0 && opts.reduceInputs && !st.infos[ii].neverReduce then Matches(st.infos[ii].uniq, features, k) else 0
  }

  lemma EntropyAfterUpdate(st: State, ii: int, s: nat)
    requires EntropyOk(st) && s < FEATURE_SET_SIZE && -1 <= ii < |st.infos|
    ensures EntropyOk(st.(entropy := Update(st.entropy, ii, s)))
  {
    UpdateConserves(st.entropy, ii, s);
  }

  lemma VisitAmid(t: Tally, st: State, opts: Options, target: Target, ii: int, features: seq<nat>, size: nat, k: nat)
    requires k < |features| && -1 <= ii < |st.infos| && NoDuplicates(features)
    requires Visited(t, st, opts, target, ii, features, size, k)
    ensures CanAdd(t.st, opts, features[k], size)
    ensures Visited(Visit(t, opts, ii, features[k], size), st, opts, target, ii, features, size, k + 1)
  {
    hide Ownership.Consistent, EntropyOk, Conserved, AddFeature, Update, CanAdd;
    var f := features[k];
    AddFeatureAmid(t.st, target, size, t.st.numUpdated - st.numUpdated, opts, f);
    AddFeatureShape(t.st, opts, f, size);
    var st1 := AddFeature(t.st, opts, f, size);
    EntropyHasShape(st1);
    EntropyAfterUpdate(st1, ii, Slot(f));
    var st2 := st1.(entropy := Update(st1.entropy, ii, Slot(f)));
    EntropyHasShape(st2);
    assert TableOf(st2) == TableOf(st1);
    var t' := Visit(t, opts, ii, f, size);
    var gained := t'.st.numUpdated - st.numUpdated;
    assert Amid(st1, target, size, gained);
    assert Amid(st2, target, size, gained);
    assert features[..k + 1] == features[..k] + [f];
    assert f !in features[..k];
    ElementsSnoc(features[..k], f);
    ElementsSnoc(t.fresh', f);
    assert NoDuplicates(t'.fresh') by { assert f in t.fresh' ==> f in Elements(t.fresh'); }
  }

  lemma EntropyHasShape(st: State)
    requires EntropyOk(st)
    ensures Shape(st)
  {
  }

  lemma {:induction false} VisitAllAmid(st: State, opts: Options, target: Target, ii: int, features: seq<nat>, size: nat, k: nat)
    requires Inv(st, target) && -1 <= ii < |st.infos| && size > 0 && NoDuplicates(features) && k <= |features|
    ensures CanVisit(st, opts, ii, features, size, k)
    ensures Visited(VisitAll(st, opts, ii, features, size, k), st, opts, target, ii, features, size, k)
  {
    hide Ownership.Consistent, EntropyOk, Visit, CanAdd;
    if k == 0 {
      StartRun(st, target, size);
    } else {
      VisitAllAmid(st, opts, target, ii, features, size, k - 1);
      VisitAmid(VisitAll(st, opts, ii, features, size, k - 1), st, opts, target, ii, features, size, k - 1);
    }
  }

  lemma StartRun(st: State, target: Target, size: nat)
    requires Inv(st, target) && size > 0
    ensures Amid(st, target, size, 0)
  {
    forall s | 0 <= s < FEATURE_SET_SIZE && st.sizes[s] > 0 ensures st.owners[s] < |st.infos| {
      Ownership.InOwned(TableOf(st), s, |st.infos|);
    }
  }

  lemma SortedFresh(fresh': seq<nat>, features: seq<nat>)
    requires NoDuplicates(fresh') && Elements(fresh') <= Elements(features)
    ensures StrictlySorted(Sort(fresh')) && Elements(Sort(fresh')) <= Elements(features)
  {
    SameElements(fresh', Sort(fresh'));
    SortDistinct(Sort(fresh'));
    DistinctSize(fresh');
  }

  /** A sorted sequence with as many elements as positions is strictly sorted. */
  lemma {:induction false} SortDistinct(s: seq<nat>)
    requires Sorted(s)
    ensures |Elements(s)| <= |s| && (|Elements(s)| == |s| ==> StrictlySorted(s))
  {
    if s != [] {
      var k := |s| - 1;
      SortDistinct(s[..k]);
      assert s == s[..k] + [s[k]];
      ElementsSnoc(s[..k], s[k]);
      Ownership.CardinalityOfMove(Elements(s[..k]), s[k]);
      if |Elements(s)| == |s| {
        LastIsGreater(s);
      }
    }
  }

  lemma LastIsGreater(s: seq<nat>)
    requires Sorted(s) && s != [] && s[|s| - 1] !in Elements(s[..|s| - 1]) && StrictlySorted(s[..|s| - 1])
    ensures StrictlySorted(s)
  {
    var k := |s| - 1;
    forall i, j | 0 <= i < j < |s| ensures s[i] < s[j] {
      assert s[..k][i] == s[i];
      if j < k { assert s[..k][j] == s[j]; } else { assert s[i] in s[..k]; }
    }
  }

  lemma AddedInv(st: State, target: Target, pending: nat, u: Data, fresh': seq<nat>, features: seq<nat>,
                 neverReduce: bool, traced: bool)
    requires u != [] && Amid(st, target, |u|, pending) && target(u) == Some(features)
    requires NoDuplicates(fresh') && Elements(fresh') <= Elements(features)
    ensures Inv(AddToCorpus(st, u, pending, neverReduce, fresh', traced), target)
  {
    hide Ownership.Consistent;
    var st' := AddToCorpus(st, u, pending, neverReduce, fresh', traced);
    assert TableOf(st').counts == Ownership.Append(TableOf(st), pending).counts;
    Ownership.AppendConsistent(TableOf(st), pending, pending);
    SortedFresh(fresh', features);
    EntropyAfterAppend(st, st');
  }

  lemma EntropyAfterAppend(st: State, st': State)
    requires EntropyOk(st) && st'.sizes == st.sizes && st'.owners == st.owners && |st'.infos| == |st.infos| + 1
    requires st'.entropy == st.entropy.(lists := st.entropy.lists + [[]])
    ensures EntropyOk(st')
  {
    var lists := st'.entropy.lists;
    forall s | 0 <= s < FEATURE_SET_SIZE ensures TotalCount(lists, s) == TotalCount(st.entropy.lists, s) {
      assert lists[..|lists| - 1] == st.entropy.lists;
    }
  }

  /** A run of the target on non-empty data keeps the corpus consistent; and when it replaces an input's
      data, the new data is strictly smaller and exhibits every feature the input stands for. */
  lemma RunOneInv(st: State, opts: Options, target: Target, ii: int, data: Data, features: seq<nat>, force: bool, traced: bool)
    requires Inv(st, target) && -1 <= ii < |st.infos| && data != []
    requires target(data) == Some(features) && NoDuplicates(features)
    ensures CanVisit(st, opts, ii, features, |data|, |features|)
    ensures Inv(RunOne(st, opts, ii, data, features, force, traced).0, target)
    ensures var st' := RunOne(st, opts, ii, data, features, force, traced).0;
            && |st'.infos| >= |st.infos|
            && forall i | 0 <= i < |st.infos| ::
                 || st'.infos[i].u == st.infos[i].u
                 || (st'.infos[i].u == [] && st'.infos[i].numFeatures == 0)
                 || (i == ii && st'.infos[i].u == data && |data| < |st.infos[i].u|
                     && Elements(st.infos[i].uniq) <= Elements(features))
  {
    hide Ownership.Consistent, EntropyOk, VisitAll, CanVisit, InfoOk;
    var n := |features|;
    VisitAllAmid(st, opts, target, ii, features, |data|, n);
    var t := VisitAll(st, opts, ii, features, |data|, n);
    assert features[..n] == features;
    VisitAllLeaves(st, opts, ii, features, |data|, n);
    if t.st.numUpdated > st.numUpdated || force {
      AddedInv(t.st, target, t.st.numUpdated - st.numUpdated, data, t.fresh', features, force, traced);
    } else {
      NothingPending(t.st, target, |data|);
      if 0 <= ii && t.found > 0 && t.found == |t.st.infos[ii].uniq| && |t.st.infos[ii].u| > |data| {
        InfoSorted(t.st.infos[ii], target);
        AllMatch(t.st.infos[ii].uniq, features);
        ReplacedInv(t.st, target, ii, data, features);
      }
    }
  }

  lemma InfoSorted(info: Info, target: Target)
    requires InfoOk(info, target)
    ensures StrictlySorted(info.uniq)
  {
  }

  lemma NothingPending(st: State, target: Target, size: nat)
    requires Amid(st, target, size, 0)
    ensures Inv(st, target)
  {
    forall s | 0 <= s < FEATURE_SET_SIZE && st.sizes[s] > 0 ensures st.owners[s] < |st.infos| {
      Ownership.InOwned(TableOf(st), s, |st.infos|);
    }
  }

  lemma ReplacedInv(st: State, target: Target, i: nat, u: Data, features: seq<nat>)
    requires Inv(st, target) && i < |st.infos| && u != [] && |u| < |st.infos[i].u|
    requires target(u) == Some(features) && Elements(st.infos[i].uniq) <= Elements(features)
    ensures Inv(Replace(st, i, u), target)
  {
    var st' := Replace(st, i, u);
    assert TableOf(st') == TableOf(st);
  }

  /** What the callback leaves alone. */
  lemma {:induction false} VisitAllLeaves(st: State, opts: Options, ii: int, features: seq<nat>, size: nat, k: nat)
    requires k <= |features| && -1 <= ii < |st.infos| && CanVisit(st, opts, ii, features, size, k)
    ensures var t := VisitAll(st, opts, ii, features, size, k);
            && |t.st.infos| == |st.infos|
            && forall i | 0 <= i < |st.infos| ::
                 && t.st.infos[i].uniq == st.infos[i].uniq
                 && (t.st.infos[i].u == st.infos[i].u || (t.st.infos[i].u == [] && t.st.infos[i].numFeatures == 0))
  {
    if k > 0 {
      VisitAllLeaves(st, opts, ii, features, size, k - 1);
      var t := VisitAll(st, opts, ii, features, size, k - 1);
      AddFeatureShape(t.st, opts, features[k - 1], size);
      AddFeatureEvicted(t.st, opts, features[k - 1], size);
    }
  }

  /** An input without slots loses none. */
  lemma AddFeatureEvicted(st: State, opts: Options, f: nat, size: nat)
    requires CanAdd(st, opts, f, size)
    ensures forall i | 0 <= i < |st.infos| && st.infos[i].numFeatures == 0 ::
              AddFeature(st, opts, f, size).infos[i] == st.infos[i]
  {
  }

  /** Between runs every slot ever hit has an owner that is in the corpus, is not evicted and fits. */
  lemma OwnersAlive(st: State, target: Target, s: nat)
    requires Inv(st, target) && s < FEATURE_SET_SIZE && st.sizes[s] > 0
    ensures st.owners[s] < |st.infos|
    ensures var owner := st.infos[st.owners[s]];
            0 < |owner.u| <= st.sizes[s] && owner.numFeatures == |Ownership.Owned(TableOf(st), st.owners[s])|
  {
    var o := st.owners[s];
    Ownership.InOwned(TableOf(st), s, |st.infos|);
    Ownership.InOwned(TableOf(st), s, o);
    assert TableOf(st).counts[o] == st.infos[o].numFeatures;
  }

  // ----- every sequence of runs

  /** One call of `RunOne`: the base input (or -1), the data, and what comes with it. */
  datatype Call = Call(ii: int, data: Data, force: bool, traced: bool)

  ghost predicate Initial(st: State) {
    && Shape(st) && st.infos == [] && st.numAdded == st.numUpdated == 0
    && st.entropy.rare == [] && st.entropy.most == 0
    && forall s | 0 <= s < FEATURE_SET_SIZE ::
         st.sizes[s] == st.owners[s] == st.entropy.global[s] == 0 && !st.entropy.isRare[s]
  }

  /** Collecting features reports no feature twice. */
  ghost predicate ReportsOnce(target: Target) {
    forall u :: target(u).Some? ==> NoDuplicates(target(u).value)
  }

  /** `RunOne`: empty data is not run, and data that the target rejects changes nothing. */
  ghost predicate Makes(st: State, opts: Options, target: Target, call: Call, st': State) {
    && -1 <= call.ii < |st.infos|
    && if call.data == [] || target(call.data).None? then st' == st else
         var features := target(call.data).value;
         && CanVisit(st, opts, call.ii, features, |call.data|, |features|)
         && st' == RunOne(st, opts, call.ii, call.data, features, call.force, call.traced).0
  }

  ghost predicate IsRun(calls: seq<Call>, states: seq<State>, opts: Options, target: Target) {
    && |states| == |calls| + 1 && Initial(states[0])
    && forall i | 0 <= i < |calls| :: Makes(states[i], opts, target, calls[i], states[i + 1])
  }

  lemma InitialInv(st: State, target: Target)
    requires Initial(st)
    ensures Inv(st, target)
  {
    Ownership.EmptyConsistent(TableOf(st));
  }

  /** After any sequence of runs the corpus is consistent, frequencies included. */
  lemma {:induction false} ReachableInv(calls: seq<Call>, states: seq<State>, opts: Options, target: Target, k: nat)
    requires ReportsOnce(target) && IsRun(calls, states, opts, target) && k <= |calls|
    ensures Inv(states[k], target)
  {
    hide Inv;
    if k == 0 {
      InitialInv(states[0], target);
    } else {
      ReachableInv(calls, states, opts, target, k - 1);
      var call := calls[k - 1];
      assert Makes(states[k - 1], opts, target, call, states[k]);
      if call.data != [] && target(call.data).Some? {
        RunOneInv(states[k - 1], opts, target, call.ii, call.data, target(call.data).value, call.force, call.traced);
      }
    }
  }

  /** No assertion of the callback can fail in a reachable corpus, whatever runs next. */
  lemma NextRunIsSafe(calls: seq<Call>, states: seq<State>, opts: Options, target: Target, call: Call)
    requires ReportsOnce(target) && IsRun(calls, states, opts, target)
    requires -1 <= call.ii < |states[|calls|].infos| && call.data != [] && target(call.data).Some?
    ensures var features := target(call.data).value;
            CanVisit(states[|calls|], opts, call.ii, features, |call.data|, |features|)
  {
    ReachableInv(calls, states, opts, target, |calls|);
    RunOneInv(states[|calls|], opts, target, call.ii, call.data, target(call.data).value, call.force, call.traced);
  }

  /** In a reachable corpus the local counts of a feature never add up to more than the global one. */
  lemma FrequenciesConserved(calls: seq<Call>, states: seq<State>, opts: Options, target: Target, k: nat, s: nat)
    requires ReportsOnce(target) && IsRun(calls, states, opts, target) && k <= |calls| && s < FEATURE_SET_SIZE
    ensures var e := states[k].entropy;
            && |e.global| == FEATURE_SET_SIZE && TotalCount(e.lists, s) <= e.global[s] <= 0xFFFF
            && NoDuplicates(e.rare) && forall i | 0 <= i < |e.lists| :: WellFormed(e.lists[i])
  {
    ReachableInv(calls, states, opts, target, k);
  }

  /** The seed added for an otherwise empty corpus claims a feature it does not own. */
  lemma FakeSeedIsMiscounted(st: State, target: Target, u: Data, count: nat, uniq: seq<nat>)
    requires Inv(st, target)
    ensures Ownership.Consistent(TableOf(AddToCorpus(st, u, count, false, uniq, false)), 0) <==> count == 0
  {
    hide Ownership.Consistent;
    Ownership.AppendConsistent(TableOf(st), 0, count);
    assert TableOf(AddToCorpus(st, u, count, false, uniq, false)).counts == Ownership.Append(TableOf(st), count).counts;
  }
}
