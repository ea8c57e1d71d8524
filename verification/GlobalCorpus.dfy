/** `GlobalCorpusInfo` of the fork mode: the shared corpus, updated in place under one lock. */
module GlobalCorpus {
  import opened Widths
  import opened FeatureSlots
  import opened CorpusModel
  import Random

  class SeedInfo {
    var numFeatures: nat
    var live: bool
    var locked: bool
    var selections: nat

    constructor (numFeatures: nat)
      ensures Value() == Seed(numFeatures, true, false, 0)
    {
      this.numFeatures, live, locked, selections := numFeatures, true, false, 0;
    }

    function Value(): Seed
      reads this
    {
      Seed(numFeatures, live, locked, selections)
    }
  }

  class GlobalCorpusInfo {
    var inputs: seq<SeedInfo>
    var deleteNums: nat
    var numUpdatedFeatures: nat
    var numAddedFeatures: nat
    const inputSizesPerFeature: array<nat>
    const smallestElementPerFeature: array<nat>

    ghost predicate Valid()
      reads this
    {
      && (forall i, j | 0 <= i < j < |inputs| :: inputs[i] != inputs[j])
      && inputSizesPerFeature.Length == smallestElementPerFeature.Length == FEATURE_SET_SIZE
      && inputSizesPerFeature != smallestElementPerFeature
    }

    ghost function Model(): State
      reads this, inputs, inputSizesPerFeature, smallestElementPerFeature
    {
      State(seq(|inputs|, i requires 0 <= i < |inputs| reads this, inputs => inputs[i].Value()),
            deleteNums, numUpdatedFeatures, numAddedFeatures,
            inputSizesPerFeature[..], smallestElementPerFeature[..])
    }

    constructor ()
      ensures Valid() && Initial(Model())
      ensures fresh(inputSizesPerFeature) && fresh(smallestElementPerFeature)
    {
      inputs, deleteNums, numUpdatedFeatures, numAddedFeatures := [], 0, 0, 0;
      inputSizesPerFeature := new nat[FEATURE_SET_SIZE](_ => 0);
      smallestElementPerFeature := new nat[FEATURE_SET_SIZE](_ => 0);
    }

    /** The owner of a slot loses it. */
    method Dispossess(i: nat)
      requires Valid() && i < |inputs| && inputs[i].numFeatures > 0
      modifies this`deleteNums, inputs[i]
      ensures Valid() && Model() == CorpusModel.Dispossess(old(Model()), i)
    {
      var si := inputs[i];
      si.numFeatures := si.numFeatures - 1;
      if si.numFeatures == 0 {
        si.live := false;
        deleteNums := deleteNums + 1;
      }
    }

    method AddFeature(idx: nat, newSize: nat, features: set<nat>) returns (updated: bool, features': set<nat>)
      requires Valid() && CanAdd(Model(), idx, newSize)
      modifies this, inputs, inputSizesPerFeature, smallestElementPerFeature
      ensures Valid() && inputs == old(inputs)
      ensures Model() == CorpusModel.AddFeature(old(Model()), idx, newSize)
      ensures updated == Improves(old(Model()), idx, newSize)
      ensures features' == features + if old(Model()).sizes[Slot(idx)] == 0 then {Slot(idx)} else {}
    {
      features' := features;
      var s := Slot(idx);
      var oldSize := inputSizesPerFeature[s];
      if oldSize == 0 || oldSize > newSize {
        if oldSize > 0 {
          Dispossess(smallestElementPerFeature[s]);
        } else {
          numAddedFeatures := numAddedFeatures + 1;
          features' := features + {s};
        }
        numUpdatedFeatures := (numUpdatedFeatures + 1) % U32;
        smallestElementPerFeature[s] := |inputs|;
        inputSizesPerFeature[s] := newSize;
        return true, features';
      }
      return false, features';
    }

    method AddToCorpus(numFeatures: nat) returns (si: SeedInfo)
      requires Valid()
      modifies this`inputs
      ensures Valid() && fresh(si) && inputs == old(inputs) + [si]
      ensures Model() == CorpusModel.AddToCorpus(old(Model()), numFeatures)
    {
      si := new SeedInfo(numFeatures);
      inputs := inputs + [si];
    }

    function GetLiveInputsSize(): int
      reads this
    {
      |inputs| - deleteNums
    }

    method Choose(si: SeedInfo, ghost i: nat)
      requires Valid() && i < |inputs| && inputs[i] == si
      modifies si`selections, si`locked
      ensures Valid() && Model() == Select(old(Model()), i) && si.locked
    {
      si.selections := si.selections + 1;
      si.locked := true;
    }

    /** The live seeds, each once, by increasing score; as many as `GetLiveInputsSize` says. */
    method SortedLiveSeeds(score: SeedInfo -> real) returns (sorted: seq<SeedInfo>)
      requires Valid()
      ensures forall s :: s in sorted <==> s in inputs && s.live
      ensures forall i, j | 0 <= i < j < |sorted| :: sorted[i] != sorted[j] && score(sorted[i]) <= score(sorted[j])
      ensures deleteNums == Dead(Model().seeds) ==> |sorted| == GetLiveInputsSize()
    {
      hide Dead;
      ghost var seeds := Model().seeds;
      sorted := [];
      DeadNext(seeds, 0);
      for k := 0 to |inputs|
        invariant forall s :: s in sorted <==> s in inputs[..k] && s.live
        invariant forall i, j | 0 <= i < j < |sorted| :: sorted[i] != sorted[j] && score(sorted[i]) <= score(sorted[j])
        invariant |sorted| + Dead(seeds[..k]) == k
      {
        assert inputs[..k + 1] == inputs[..k] + [inputs[k]];
        DeadNext(seeds, k);
        if inputs[k].live {
          sorted := InsertByScore(inputs[k], sorted, score);
        }
      }
      assert inputs[..|inputs|] == inputs && seeds[..|inputs|] == seeds;
    }

    /** Amid a selection: the picks so far, on top of the state `st` that it started from. */
    ghost predicate Chosen(sorted: seq<SeedInfo>, st: State, jobSeeds: seq<SeedInfo>, picks: seq<nat>)
      reads this, inputs, inputSizesPerFeature, smallestElementPerFeature
    {
      && Valid() && |st.seeds| == |inputs| && Indices(picks, |inputs|) && Model() == SelectAll(st, picks)
      && |jobSeeds| == |picks|
      && (forall k | 0 <= k < |picks| :: jobSeeds[k] == inputs[picks[k]] && jobSeeds[k].live)
      && (forall s | s in sorted :: s in inputs && s.live)
      && (forall s | s in inputs && s.live :: s in sorted)
    }

    /** Hands the seed `s` to the job. */
    method PickSeed(sorted: seq<SeedInfo>, s: SeedInfo, before: seq<SeedInfo>, ghost st: State, ghost picks: seq<nat>)
      returns (jobSeeds: seq<SeedInfo>, ghost i: nat)
      requires s in sorted && Chosen(sorted, st, before, picks)
      modifies s
      ensures Chosen(sorted, st, jobSeeds, picks + [i])
      ensures i !in picks && !old(s.locked) ==> !st.seeds[i].locked
      ensures !old(s.locked) ==> i !in picks
      ensures s.locked && jobSeeds == before + [s]
    {
      hide Select, SelectAll, Untaken;
      i :| 0 <= i < |inputs| && inputs[i] == s;
      SelectAllEffect(st, picks);
      assert Model().seeds[i] == inputs[i].Value();
      ExtendPicks(st, picks, i);
      Choose(s, i);
      jobSeeds := before + [s];
    }

    /** The locked seeds. */
    ghost function Taken(): set<SeedInfo>
      reads this, inputs
    {
      set s | s in inputs && s.locked
    }

    /** The seeds `picked` are those among the first n draws that were not taken, the last of them last. */
    ghost predicate FromDraws(sorted: seq<SeedInfo>, draws: nat -> nat, n: nat, taken: set<SeedInfo>, picked: seq<SeedInfo>)
      requires n > 0 ==> sorted != []
    {
      && (forall k | 0 <= k < n ::
            var s := sorted[Random.SkewTowardsLast(draws(k), |sorted|)]; s in picked || s in taken)
      && (forall p | 0 <= p < |picked| ::
            picked[p] !in taken && exists k :: 0 <= k < n && sorted[Random.SkewTowardsLast(draws(k), |sorted|)] == picked[p])
    }

    /** The first n draws of a phase that stops as soon as it has the seeds wanted. */
    ghost predicate DrawnSoFar(sorted: seq<SeedInfo>, draws: nat -> nat, seedsNum: nat, n: nat, taken: set<SeedInfo>,
                               picked: seq<SeedInfo>)
    {
      && (n > 0 ==> sorted != []) && FromDraws(sorted, draws, n, taken, picked)
      && (0 < seedsNum == |picked| ==> n > 0 && picked[seedsNum - 1] == sorted[Random.SkewTowardsLast(draws(n - 1), |sorted|)])
    }

    lemma OneMoreDraw(sorted: seq<SeedInfo>, draws: nat -> nat, seedsNum: nat, n: nat, taken: set<SeedInfo>,
                      picked: seq<SeedInfo>)
      requires sorted != [] && DrawnSoFar(sorted, draws, seedsNum, n, taken, picked) && |picked| < seedsNum
      ensures var s := sorted[Random.SkewTowardsLast(draws(n), |sorted|)];
              DrawnSoFar(sorted, draws, seedsNum, n + 1, taken, if s in taken || s in picked then picked else picked + [s])
    {
      hide Random.SkewTowardsLast;
    }

    lemma NothingDrawn(sorted: seq<SeedInfo>, draws: nat -> nat, seedsNum: nat, taken: set<SeedInfo>)
      ensures DrawnSoFar(sorted, draws, seedsNum, 0, taken, [])
    {
    }

    lemma PhaseOver(sorted: seq<SeedInfo>, draws: nat -> nat, seedsNum: nat, drawn: nat, taken: set<SeedInfo>,
                    picked: seq<SeedInfo>)
      requires DrawnSoFar(sorted, draws, seedsNum, drawn, taken, picked) && |picked| <= seedsNum
      requires drawn <= 3 * |sorted| && (|picked| < seedsNum ==> drawn == 3 * |sorted|)
      ensures JobDraws(sorted, draws, seedsNum, drawn, taken, picked, |picked|)
      ensures 0 < seedsNum && sorted != [] && (forall s | s in sorted :: s !in taken) ==> picked != []
    {
      hide Random.SkewTowardsLast;
      assert picked[..|picked|] == picked;
      if drawn > 0 {
        var s := sorted[Random.SkewTowardsLast(draws(0), |sorted|)];
        assert s in sorted && (s in picked || s in taken);
      }
    }

    /** Everything about the draws of one job: the first phase goes on until it has the seeds wanted or has spent three
        draws per live seed; the seeds behind its `first` ones are those drawn next. */
    ghost predicate JobDraws(sorted: seq<SeedInfo>, draws: nat -> nat, seedsNum: nat, drawn: nat, taken: set<SeedInfo>,
                             jobSeeds: seq<SeedInfo>, first: nat)
    {
      && first <= |jobSeeds| && drawn <= 3 * |sorted| && (first < seedsNum ==> drawn == 3 * |sorted|)
      && FromDraws(sorted, draws, drawn, taken, jobSeeds[..first])
      && (0 < seedsNum == first ==>
            drawn > 0 && jobSeeds[first - 1] == sorted[Random.SkewTowardsLast(draws(drawn - 1), |sorted|)])
      && (first < |jobSeeds| ==> sorted != [])
      && forall k | first <= k < |jobSeeds| ::
           jobSeeds[k] == sorted[Random.SkewTowardsLast(draws(drawn + (k - first)), |sorted|)]
    }

    lemma BothPhases(sorted: seq<SeedInfo>, draws: nat -> nat, seedsNum: nat, drawn: nat, taken: set<SeedInfo>,
                     unlocked: seq<SeedInfo>, jobSeeds: seq<SeedInfo>)
      requires JobDraws(sorted, draws, seedsNum, drawn, taken, unlocked, |unlocked|) && unlocked <= jobSeeds
      requires |unlocked| < |jobSeeds| ==> sorted != []
      requires forall k | |unlocked| <= k < |jobSeeds| ::
                 jobSeeds[k] == sorted[Random.SkewTowardsLast(draws(drawn + (k - |unlocked|)), |sorted|)]
      ensures JobDraws(sorted, draws, seedsNum, drawn, taken, jobSeeds, |unlocked|)
    {
      hide Random.SkewTowardsLast, FromDraws;
      assert jobSeeds[..|unlocked|] == unlocked == unlocked[..|unlocked|];
    }

    /** Of the live seeds those are locked that were taken before or have been picked. */
    ghost predicate LockedAre(sorted: seq<SeedInfo>, taken: set<SeedInfo>, picked: seq<SeedInfo>)
      reads sorted
    {
      forall s | s in sorted :: s.locked <==> s in taken || s in picked
    }

    lemma LockedAtFirst(sorted: seq<SeedInfo>, st: State)
      requires Chosen(sorted, st, [], [])
      ensures LockedAre(sorted, Taken(), []) && Untaken(st, []) && forall s | s in sorted :: s in inputs
    {
      hide Model;
    }

    /** Hands a seed to the job unless it is locked. */
    method TakeIfUnlocked(sorted: seq<SeedInfo>, s: SeedInfo, before: seq<SeedInfo>, ghost st: State,
                          ghost picks0: seq<nat>, ghost taken: set<SeedInfo>)
      returns (jobSeeds: seq<SeedInfo>, ghost picks: seq<nat>)
      requires s in sorted && Chosen(sorted, st, before, picks0) && Untaken(st, picks0) && LockedAre(sorted, taken, before)
      modifies s
      ensures Chosen(sorted, st, jobSeeds, picks) && Untaken(st, picks) && LockedAre(sorted, taken, jobSeeds)
      ensures |jobSeeds| == |picks| && |before| == |picks0|
      ensures jobSeeds == if s in taken || s in before then before else before + [s]
    {
      hide SelectAll, Model;
      jobSeeds, picks := before, picks0;
      if !s.locked {
        ghost var i;
        jobSeeds, i := PickSeed(sorted, s, before, st, picks0);
        picks := picks0 + [i];
      }
    }

    /** Draws unlocked seeds, up to three draws per live seed. */
    method DrawUnlocked(seedsNum: nat, sorted: seq<SeedInfo>, draws: nat -> nat, ghost st: State)
      returns (jobSeeds: seq<SeedInfo>, drawn: nat, ghost picks: seq<nat>)
      requires Chosen(sorted, st, [], [])
      modifies inputs
      ensures Chosen(sorted, st, jobSeeds, picks) && Untaken(st, picks) && |picks| <= seedsNum
      ensures |picks| <= drawn && JobDraws(sorted, draws, seedsNum, drawn, old(Taken()), jobSeeds, |jobSeeds|)
      ensures 0 < seedsNum && sorted != [] && (forall s | s in sorted :: s !in old(Taken())) ==> picks != []
    {
      hide SelectAll, Model, Random.SkewTowardsLast, DrawnSoFar, LockedAre, Untaken, Chosen, JobDraws, Taken;
      ghost var taken := Taken();
      LockedAtFirst(sorted, st);
      jobSeeds, picks, drawn := [], [], 0;
      NothingDrawn(sorted, draws, seedsNum, taken);
      var loopCount := 0;
      while |jobSeeds| < seedsNum
        invariant Chosen(sorted, st, jobSeeds, picks) && Untaken(st, picks) && |jobSeeds| == |picks| <= seedsNum
        invariant |picks| <= drawn == loopCount <= 3 * |sorted|
        invariant LockedAre(sorted, taken, jobSeeds)
        invariant DrawnSoFar(sorted, draws, seedsNum, drawn, taken, jobSeeds)
        decreases 3 * |sorted| - loopCount
      {
        loopCount := loopCount + 1;
        if loopCount > 3 * |sorted| || sorted == [] { break; }
        var index := Random.SkewTowardsLast(draws(drawn), |sorted|);
        var s := sorted[index];
        assert s in sorted;
        OneMoreDraw(sorted, draws, seedsNum, drawn, taken, jobSeeds);
        drawn := drawn + 1;
        jobSeeds, picks := TakeIfUnlocked(sorted, s, jobSeeds, st, picks, taken);
      }
      PhaseOver(sorted, draws, seedsNum, drawn, taken, jobSeeds);
    }

    /** Draws live seeds, locked or not. */
    method DrawAny(seedsNum: nat, sorted: seq<SeedInfo>, draws: nat -> nat, drawn: nat, before: seq<SeedInfo>,
                   ghost st: State, ghost picks0: seq<nat>)
      returns (jobSeeds: seq<SeedInfo>, ghost picks: seq<nat>)
      requires Chosen(sorted, st, before, picks0) && |before| == |picks0| && (seedsNum == 0 || sorted != [])
      modifies inputs
      ensures Chosen(sorted, st, jobSeeds, picks) && picks0 <= picks && |picks| == |picks0| + seedsNum
      ensures before <= jobSeeds && forall k | |before| <= k < |jobSeeds| ::
                jobSeeds[k] == sorted[Random.SkewTowardsLast(draws(drawn + (k - |before|)), |sorted|)]
    {
      hide SelectAll, Model, Random.SkewTowardsLast;
      jobSeeds, picks := before, picks0;
      for n := 0 to seedsNum
        invariant Chosen(sorted, st, jobSeeds, picks) && picks0 <= picks && |picks| == |picks0| + n
        invariant |jobSeeds| == |before| + n && before <= jobSeeds
        invariant forall k | |before| <= k < |jobSeeds| ::
                    jobSeeds[k] == sorted[Random.SkewTowardsLast(draws(drawn + (k - |before|)), |sorted|)]
      {
        var index := Random.SkewTowardsLast(draws(drawn + n), |sorted|);
        assert sorted[index] in sorted;
        ghost var i;
        jobSeeds, i := PickSeed(sorted, sorted[index], jobSeeds, st, picks);
        picks := picks + [i];
      }
    }

    /** Seeds for a new job: unlocked ones first, any live ones if too few of those turn up. `draws` are the engine's
        outputs; `sorted` are the live seeds by score, and `drawn` is how many draws the first phase takes. */
    method GetJobSeeds(seedsNum: nat, score: SeedInfo -> real, draws: nat -> nat)
      returns (jobSeeds: seq<SeedInfo>, ghost picks: seq<nat>, ghost first: nat, ghost sorted: seq<SeedInfo>, ghost drawn: nat)
      requires Valid() && (seedsNum == 0 || exists s :: s in inputs && s.live)
      modifies inputs
      ensures Valid() && Indices(picks, |inputs|) && Model() == SelectAll(old(Model()), picks)
      ensures |jobSeeds| == |picks| && forall k | 0 <= k < |picks| :: jobSeeds[k] == inputs[picks[k]] && jobSeeds[k].live
      ensures first <= |picks| && Untaken(old(Model()), picks[..first])
      ensures if first > 1 then |picks| == first <= seedsNum else |picks| == first + seedsNum
      ensures seedsNum > 0 && (forall s | s in inputs && s.live :: !old(s.locked)) ==> first > 0
      ensures forall s :: s in sorted <==> s in inputs && s.live
      ensures forall i, j | 0 <= i < j < |sorted| :: sorted[i] != sorted[j] && score(sorted[i]) <= score(sorted[j])
      ensures JobDraws(sorted, draws, seedsNum, drawn, old(Taken()), jobSeeds, first)
    {
      ghost var st := Model();
      var live := SortedLiveSeeds(score);
      assert SelectAll(st, []) == st;
      assert (forall s | s in live :: !s.locked) ==> forall s | s in live :: s !in Taken();
      hide Random.SkewTowardsLast, JobDraws, Taken, Untaken, SelectAll, Model;
      var spent;
      jobSeeds, spent, picks := DrawUnlocked(seedsNum, live, draws, st);
      sorted, first, drawn := live, |picks|, spent;
      ghost var unlocked, early, taken := jobSeeds, picks, old(Taken());
      if |jobSeeds| <= 1 {
        jobSeeds, picks := DrawAny(seedsNum, live, draws, spent, jobSeeds, st, picks);
        BothPhases(live, draws, seedsNum, spent, taken, unlocked, jobSeeds);
      }
      assert picks[..first] == early;
    }

    /** The locked update of `RunOneMergeJob` for one candidate. */
    method MergeInput(features: seq<nat>, size: nat, all: set<nat>) returns (all': set<nat>)
      requires Valid() && Shape(Model()) && CanAddAll(Model(), features, size, |features|)
      modifies this, inputs, inputSizesPerFeature, smallestElementPerFeature
      ensures Valid() && old(inputs) <= inputs
      ensures Model() == CorpusModel.MergeInput(old(Model()), features, size)
      ensures all' == all + (SeenSlots(Model()) - SeenSlots(old(Model())))
    {
      hide CorpusModel.AddFeature, Improves, CanAdd, SeenSlots;
      all' := all;
      var numUpdatesBefore := numUpdatedFeatures;
      ghost var st := Model();
      for k := 0 to |features|
        invariant Valid() && inputs == old(inputs)
        invariant CanAddAll(st, features, size, k)
        invariant Model() == AddFeatures(st, features, size, k)
        invariant Shape(Model()) && SeenSlots(st) <= SeenSlots(Model()) && all' == all + (SeenSlots(Model()) - SeenSlots(st))
      {
        SeenAfterAdd(Model(), features[k], size) by { CanAddPrefix(st, features, size, k + 1, |features|); }
        CanAddPrefix(st, features, size, k + 1, |features|);
        var updated;
        updated, all' := AddFeature(features[k], size, all');
      }
      UpdatedInRange(st, features, size, |features|);
      var numNewFeatures := CounterDifference(numUpdatedFeatures, numUpdatesBefore);
      if numNewFeatures > 0 {
        SeedKeepsSeen(Model(), numNewFeatures);
        var si := AddToCorpus(numNewFeatures);
      }
    }
  }

  lemma {:induction false} CanAddPrefix(st: State, features: seq<nat>, size: nat, j: nat, k: nat)
    requires j <= k <= |features| && CanAddAll(st, features, size, k)
    ensures CanAddAll(st, features, size, j)
  {
    if j < k { CanAddPrefix(st, features, size, j, k - 1); }
  }

  lemma {:induction false} UpdatedInRange(st: State, features: seq<nat>, size: nat, k: nat)
    requires Shape(st) && k <= |features| && CanAddAll(st, features, size, k)
    ensures AddFeatures(st, features, size, k).numUpdated < U32
  {
    if k > 0 { UpdatedInRange(st, features, size, k - 1); }
  }

  lemma SeenAfterAdd(st: State, f: nat, size: nat)
    requires CanAdd(st, f, size)
    ensures var st' := CorpusModel.AddFeature(st, f, size);
            Shape(st') && (Slot(f) in SeenSlots(st) <==> st.sizes[Slot(f)] > 0) && SeenSlots(st') == SeenSlots(st) + if st.sizes[Slot(f)] == 0 then {Slot(f)} else {}
  {
  }

  lemma ExtendPicks(st: State, picks: seq<nat>, i: nat)
    requires Indices(picks, |st.seeds|) && i < |st.seeds|
    ensures Indices(picks + [i], |st.seeds|)
    ensures SelectAll(st, picks + [i]) == Select(SelectAll(st, picks), i)
  {
    assert (picks + [i])[..|picks|] == picks;
  }

  method InsertByScore(s: SeedInfo, sorted: seq<SeedInfo>, score: SeedInfo -> real) returns (r: seq<SeedInfo>)
    requires forall i, j | 0 <= i < j < |sorted| :: sorted[i] != sorted[j] && score(sorted[i]) <= score(sorted[j])
    requires s !in sorted
    ensures |r| == |sorted| + 1
    ensures forall i, j | 0 <= i < j < |r| :: r[i] != r[j] && score(r[i]) <= score(r[j])
    ensures forall x :: x in r <==> x == s || x in sorted
  {
    var i := 0;
    while i < |sorted| && score(sorted[i]) <= score(s)
      invariant i <= |sorted| && forall k | 0 <= k < i :: score(sorted[k]) <= score(s)
    {
      i := i + 1;
    }
    r := sorted[..i] + [s] + sorted[i..];
    InsertedOnce(s, sorted, i);
    forall j, k | 0 <= j < k < |r| ensures score(r[j]) <= score(r[k]) {
      assert j < i ==> r[j] == sorted[j];
      assert j > i ==> r[j] == sorted[j - 1];
      assert k < i ==> r[k] == sorted[k];
      assert k > i ==> r[k] == sorted[k - 1];
    }
  }

  lemma InsertedOnce<T>(x: T, s: seq<T>, i: nat)
    requires i <= |s| && x !in s && forall j, k | 0 <= j < k < |s| :: s[j] != s[k]
    ensures forall y :: y in s[..i] + [x] + s[i..] <==> y == x || y in s
    ensures var r := s[..i] + [x] + s[i..]; forall j, k | 0 <= j < k < |r| :: r[j] != r[k]
  {
    var r := s[..i] + [x] + s[i..];
    assert s == s[..i] + s[i..];
    forall j, k | 0 <= j < k < |r| ensures r[j] != r[k] {
      assert j != i ==> r[j] == s[if j < i then j else j - 1];
      assert k != i ==> r[k] == s[if k < i then k else k - 1];
    }
  }

  lemma DeadNext(seeds: seq<Seed>, k: nat)
    requires k <= |seeds|
    ensures Dead(seeds[..0]) == 0
    ensures k < |seeds| ==> Dead(seeds[..k + 1]) == Dead(seeds[..k]) + if seeds[k].live then 0 else 1
  {
    if k < |seeds| {
      assert seeds[..k + 1][..k] == seeds[..k];
    }
  }

  lemma SeedKeepsSeen(st: State, n: nat)
    requires Shape(st)
    ensures var st' := CorpusModel.AddToCorpus(st, n); Shape(st') && SeenSlots(st') == SeenSlots(st)
  {
  }
}
