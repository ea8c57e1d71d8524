/** What one run of the target does to the fuzzer's own corpus: when data is added, when it is replaced, and when
    nothing is. */
module RunOutcome {
  import opened Collections
  import opened FeatureSlots
  import opened Frequencies
  import opened InputModel
  import opened RareFeatures
  import Ownership

  /** Some of the first k features hits slot s, which nothing hit before or only larger data did. */
  ghost predicate Gained(st: State, opts: Options, features: seq<nat>, size: nat, k: nat, s: nat)
    requires k <= |features| && s < |st.sizes|
  {
    && (exists j :: 0 <= j < k && Slot(features[j]) == s)
    && (st.sizes[s] == 0 || (opts.shrink && size < st.sizes[s]))
  }

  /** No feature reported earlier falls into the same slot. */
  ghost predicate FirstInSlot(features: seq<nat>, j: nat)
    requires j < |features|
  {
    forall i | 0 <= i < j :: Slot(features[i]) != Slot(features[j])
  }

  /** The slots gained, and no others, now record the data's size and the index it is about to get. */
  ghost predicate SlotsTold(st: State, opts: Options, features: seq<nat>, size: nat, k: nat, st': State)
    requires k <= |features| && |st.sizes| == |st.owners| == FEATURE_SET_SIZE
  {
    && |st'.sizes| == |st'.owners| == FEATURE_SET_SIZE
    && forall s | 0 <= s < FEATURE_SET_SIZE ::
         && st'.sizes[s] == (if Gained(st, opts, features, size, k, s) then size else st.sizes[s])
         && st'.owners[s] == (if Gained(st, opts, features, size, k, s) then |st.infos| else st.owners[s])
  }

  /** The features recorded for the data: for each slot gained the first one in it. */
  ghost predicate FreshTold(st: State, opts: Options, features: seq<nat>, size: nat, k: nat, fresh': set<nat>)
    requires k <= |features| && |st.sizes| == FEATURE_SET_SIZE
  {
    && fresh' <= Elements(features[..k])
    && forall j | 0 <= j < k ::
         features[j] in fresh' <==> FirstInSlot(features, j) && Gained(st, opts, features, size, k, Slot(features[j]))
  }

  /** An input that loses its last slot is evicted; nothing else becomes of the inputs. */
  ghost predicate InfosTold(infos: seq<Info>, infos': seq<Info>) {
    && |infos| <= |infos'|
    && forall i | 0 <= i < |infos| ::
         && infos'[i].numFeatures <= infos[i].numFeatures
         && infos'[i] == infos[i].(numFeatures := infos'[i].numFeatures,
                                   u := if infos'[i].numFeatures == 0 < infos[i].numFeatures then [] else infos[i].u)
  }

  lemma InfosToldTwice(a: seq<Info>, b: seq<Info>, c: seq<Info>)
    requires InfosTold(a, b) && InfosTold(b, c)
    ensures InfosTold(a, c)
  {
  }

  lemma AddTells(st: State, opts: Options, f: nat, size: nat)
    requires CanAdd(st, opts, f, size)
    ensures var st' := AddFeature(st, opts, f, size);
            var gained := st.sizes[Slot(f)] == 0 || (opts.shrink && size < st.sizes[Slot(f)]);
            && st'.sizes == (if gained then st.sizes[Slot(f) := size] else st.sizes)
            && st'.owners == (if gained then st.owners[Slot(f) := |st.infos|] else st.owners)
            && InfosTold(st.infos, st'.infos) && |st'.infos| == |st.infos|
            && (!gained ==> st'.infos == st.infos)
            && (gained <==> Improves(st, opts, f, size))
  {
  }

  ghost predicate RunTold(st: State, opts: Options, features: seq<nat>, size: nat, k: nat, t: Tally)
    requires k <= |features| && |st.sizes| == |st.owners| == FEATURE_SET_SIZE
  {
    && SlotsTold(st, opts, features, size, k, t.st)
    && FreshTold(st, opts, features, size, k, Elements(t.fresh'))
    && InfosTold(st.infos, t.st.infos) && |t.st.infos| == |st.infos|
    && (t.fresh' == [] ==> t.st.infos == st.infos)
  }

  /** The slots after one more feature. */
  lemma SlotsNext(st: State, opts: Options, features: seq<nat>, size: nat, k: nat, now: State, st': State)
    requires k < |features| && |st.sizes| == |st.owners| == FEATURE_SET_SIZE && size > 0
    requires SlotsTold(st, opts, features, size, k, now)
    requires var s := Slot(features[k]);
             var gained := now.sizes[s] == 0 || (opts.shrink && size < now.sizes[s]);
             && st'.sizes == (if gained then now.sizes[s := size] else now.sizes)
             && st'.owners == (if gained then now.owners[s := |st.infos|] else now.owners)
    ensures SlotsTold(st, opts, features, size, k + 1, st')
    ensures var s := Slot(features[k]);
            (now.sizes[s] == 0 || (opts.shrink && size < now.sizes[s]))
            <==> FirstInSlot(features, k) && Gained(st, opts, features, size, k + 1, s)
  {
    var s := Slot(features[k]);
    forall r | 0 <= r < FEATURE_SET_SIZE
      ensures Gained(st, opts, features, size, k + 1, r) <==>
              Gained(st, opts, features, size, k, r)
              || (r == s && (st.sizes[r] == 0 || (opts.shrink && size < st.sizes[r])))
    {
      if j :| 0 <= j < k + 1 && Slot(features[j]) == r { assert j == k || j < k; }
      assert Slot(features[k]) == s;
    }
    if !FirstInSlot(features, k) {
      var j :| 0 <= j < k && Slot(features[j]) == s;
    }
  }

  lemma FreshNext(st: State, opts: Options, features: seq<nat>, size: nat, k: nat, fresh': set<nat>, gained: bool)
    requires k < |features| && NoDuplicates(features) && |st.sizes| == FEATURE_SET_SIZE
    requires FreshTold(st, opts, features, size, k, fresh')
    requires gained <==> FirstInSlot(features, k) && Gained(st, opts, features, size, k + 1, Slot(features[k]))
    ensures FreshTold(st, opts, features, size, k + 1, if gained then fresh' + {features[k]} else fresh')
  {
    hide Slot;
    var f := features[k];
    assert features[..k + 1] == features[..k] + [f];
    ElementsSnoc(features[..k], f);
    assert f !in features[..k];
    forall j | 0 <= j < k
      ensures Gained(st, opts, features, size, k + 1, Slot(features[j])) <==> Gained(st, opts, features, size, k, Slot(features[j]))
    {
    }
  }

  lemma VisitTells(t: Tally, opts: Options, ii: int, f: nat, size: nat)
    requires CanAdd(t.st, opts, f, size) && -1 <= ii < |t.st.infos|
    ensures var t', st1 := Visit(t, opts, ii, f, size), AddFeature(t.st, opts, f, size);
            && t'.st.sizes == st1.sizes && t'.st.owners == st1.owners && t'.st.infos == st1.infos
            && t'.fresh' == if Improves(t.st, opts, f, size) then t.fresh' + [f] else t.fresh'
  {
    hide AddFeature, Improves, CanAdd;
  }

  lemma {:induction false} VisitAllTells(st: State, opts: Options, target: Target, ii: int, features: seq<nat>, size: nat, k: nat)
    requires Inv(st, target) && -1 <= ii < |st.infos| && size > 0 && NoDuplicates(features) && k <= |features|
    ensures CanVisit(st, opts, ii, features, size, k) && Shape(st)
    ensures RunTold(st, opts, features, size, k, VisitAll(st, opts, ii, features, size, k))
  {
    hide Inv, Visited, Visit, CanAdd, AddFeature, Improves, SlotsTold, FreshTold, InfosTold;
    VisitAllAmid(st, opts, target, ii, features, size, k);
    InvShape(st, target);
    if k == 0 {
      NothingTold(st, opts, features, size);
      assert Elements<nat>([]) == {};
    } else {
      VisitAllTells(st, opts, target, ii, features, size, k - 1);
      var t, f := VisitAll(st, opts, ii, features, size, k - 1), features[k - 1];
      ToldShape(st, opts, features, size, k - 1, t.st);
      AddTells(t.st, opts, f, size);
      VisitTells(t, opts, ii, f, size);
      var t' := VisitAll(st, opts, ii, features, size, k);
      SlotsNext(st, opts, features, size, k - 1, t.st, t'.st);
      FreshNext(st, opts, features, size, k - 1, Elements(t.fresh'), Improves(t.st, opts, f, size));
      ElementsSnoc(t.fresh', f);
      InfosToldTwice(st.infos, t.st.infos, t'.st.infos);
    }
  }

  lemma ToldShape(st: State, opts: Options, features: seq<nat>, size: nat, k: nat, st': State)
    requires k <= |features| && |st.sizes| == |st.owners| == FEATURE_SET_SIZE
    requires SlotsTold(st, opts, features, size, k, st')
    ensures |st'.sizes| == |st'.owners| == FEATURE_SET_SIZE
  {
  }

  lemma InvShape(st: State, target: Target)
    requires Inv(st, target)
    ensures Shape(st)
  {
  }

  lemma NothingTold(st: State, opts: Options, features: seq<nat>, size: nat)
    requires |st.sizes| == |st.owners| == FEATURE_SET_SIZE
    ensures SlotsTold(st, opts, features, size, 0, st) && FreshTold(st, opts, features, size, 0, {})
    ensures InfosTold(st.infos, st.infos)
  {
  }

  // ----- the outcome of a run

  /** The base input stands for features that the data shows as well, may be reduced, and is larger. */
  ghost predicate Reduces(info: Info, opts: Options, data: Data, features: seq<nat>) {
    && opts.reduceInputs && !info.neverReduce && !info.traced && info.uniq != []
    && (forall f | f in info.uniq :: f in features) && |data| < |info.u|
  }

  /** The data is new to the corpus: it gains a slot. */
  ghost predicate IsNew(st: State, opts: Options, data: Data, features: seq<nat>)
    requires |st.sizes| == FEATURE_SET_SIZE
  {
    exists s :: 0 <= s < FEATURE_SET_SIZE && Gained(st, opts, features, |data|, |features|, s)
  }

  /** The input that a run adds: it owns the slots gained and lists a feature of each. */
  ghost predicate IsAdded(st: State, opts: Options, data: Data, features: seq<nat>, force: bool, traced: bool, info: Info)
    requires |st.sizes| == |st.owners| == FEATURE_SET_SIZE
  {
    && info.u == data && info.neverReduce == force && info.traced == traced
    && StrictlySorted(info.uniq) && info.numFeatures == |info.uniq|
    && FreshTold(st, opts, features, |data|, |features|, Elements(info.uniq))
  }

  /** Everything a run does to inputs and slots, and what it returns. */
  ghost predicate Outcome(st: State, opts: Options, ii: int, data: Data, features: seq<nat>, force: bool, traced: bool,
                          st': State, added: bool)
    requires |st.sizes| == |st.owners| == FEATURE_SET_SIZE && -1 <= ii < |st.infos|
  {
    var n := |st.infos|;
    && SlotsTold(st, opts, features, |data|, |features|, st')
    && if force || IsNew(st, opts, data, features) then
         && added && |st'.infos| == n + 1 && IsAdded(st, opts, data, features, force, traced, st'.infos[n])
         && InfosTold(st.infos, st'.infos[..n])
       else
         var reduces := ii >= 0 && Reduces(st.infos[ii], opts, data, features);
         added == reduces && st'.infos == if reduces then st.infos[ii := st.infos[ii].(u := data)] else st.infos
  }

  lemma FreshMeansNew(st: State, opts: Options, features: seq<nat>, data: Data, fresh': seq<nat>)
    requires |st.sizes| == FEATURE_SET_SIZE
    requires FreshTold(st, opts, features, |data|, |features|, Elements(fresh'))
    ensures fresh' != [] <==> IsNew(st, opts, data, features)
  {
    hide Slot;
    var n := |features|;
    if fresh' != [] {
      assert fresh'[0] in Elements(features[..n]);
      var j :| 0 <= j < n && features[j] == fresh'[0];
      assert Gained(st, opts, features, |data|, n, Slot(features[j]));
    }
    if s :| 0 <= s < FEATURE_SET_SIZE && Gained(st, opts, features, |data|, n, s) {
      var j :| 0 <= j < n && Slot(features[j]) == s;
      var i := FirstOf(features, j);
      assert features[i] in Elements(fresh');
    }
  }

  lemma {:induction false} FirstOf(features: seq<nat>, j: nat) returns (i: nat)
    requires j < |features|
    ensures i <= j && FirstInSlot(features, i) && Slot(features[i]) == Slot(features[j])
    decreases j
  {
    hide Slot;
    i := j;
    if !FirstInSlot(features, j) {
      var k :| 0 <= k < j && Slot(features[k]) == Slot(features[j]);
      i := FirstOf(features, k);
    }
  }

  /** Matching as many features as the base input lists is showing them all. */
  lemma MatchesAll(uniq: seq<nat>, features: seq<nat>)
    requires StrictlySorted(uniq) && NoDuplicates(features)
    ensures Matches(uniq, features, |features|) == |uniq| <==> forall f | f in uniq :: f in features
  {
    var n := |features|;
    assert features[..n] == features;
    if Matches(uniq, features, n) == |uniq| {
      AllMatch(uniq, features);
      assert forall f | f in uniq :: f in Elements(uniq);
    }
    if forall f | f in uniq :: f in features {
      MatchesCount(uniq, features, n);
      StrictlySortedSize(uniq);
      assert Elements(uniq) * Elements(features) == Elements(uniq);
    }
  }

  lemma FromInv(st: State, target: Target, i: nat)
    requires Inv(st, target) && i < |st.infos|
    ensures StrictlySorted(st.infos[i].uniq)
  {
    assert InfoOk(st.infos[i], target);
  }

  /** A run adds, replaces or leaves, exactly when it should, and says so. */
  lemma RunOutcome(st: State, opts: Options, target: Target, ii: int, data: Data, features: seq<nat>, force: bool, traced: bool)
    requires Inv(st, target) && -1 <= ii < |st.infos| && data != [] && NoDuplicates(features)
    ensures CanVisit(st, opts, ii, features, |data|, |features|) && Shape(st)
    ensures var (st', added) := RunOne(st, opts, ii, data, features, force, traced);
            Outcome(st, opts, ii, data, features, force, traced, st', added)
  {
    hide Inv, VisitAll, CanVisit, Amid, SlotsTold, FreshTold, InfosTold, IsNew, Matches;
    var n := |features|;
    VisitAllAmid(st, opts, target, ii, features, |data|, n);
    VisitAllTells(st, opts, target, ii, features, |data|, n);
    var t := VisitAll(st, opts, ii, features, |data|, n);
    FreshMeansNew(st, opts, features, data, t.fresh');
    if force || IsNew(st, opts, data, features) {
      AddedTells(st, t, opts, data, features, force, traced);
    } else if ii >= 0 {
      FromInv(st, target, ii);
      MatchesAll(st.infos[ii].uniq, features);
      assert t.st.infos == st.infos && t.st.numUpdated == st.numUpdated;
      SameSlots(st, opts, features, |data|, n, t.st, Replace(t.st, ii, data));
    }
  }

  lemma SameSlots(st: State, opts: Options, features: seq<nat>, size: nat, k: nat, a: State, b: State)
    requires k <= |features| && |st.sizes| == |st.owners| == FEATURE_SET_SIZE
    requires SlotsTold(st, opts, features, size, k, a) && a.sizes == b.sizes && a.owners == b.owners
    ensures SlotsTold(st, opts, features, size, k, b)
  {
  }

  lemma AddedTells(st: State, t: Tally, opts: Options, data: Data, features: seq<nat>, force: bool, traced: bool)
    requires |st.sizes| == |st.owners| == FEATURE_SET_SIZE && RunTold(st, opts, features, |data|, |features|, t)
    requires NoDuplicates(t.fresh') && Elements(t.fresh') <= Elements(features)
    ensures var st' := AddToCorpus(t.st, data, |t.fresh'|, force, t.fresh', traced);
            && |st'.infos| == |st.infos| + 1 && st'.infos[..|st.infos|] == t.st.infos
            && IsAdded(st, opts, data, features, force, traced, st'.infos[|st.infos|])
            && SlotsTold(st, opts, features, |data|, |features|, st')
  {
    hide FreshTold, InfosTold, Sort;
    SortedFresh(t.fresh', features);
    SameElements(t.fresh', Sort(t.fresh'));
  }

  // ----- what a run does to the frequencies

  /** The callback for one feature: a slot hit for the first time becomes rare with a count of zero; then it is counted. */
  lemma VisitCounts(t: Tally, opts: Options, target: Target, ii: int, f: nat, size: nat, pending: nat)
    requires Amid(t.st, target, size, pending) && -1 <= ii < |t.st.infos|
    ensures CanAdd(t.st, opts, f, size)
    ensures var e, e', s := t.st.entropy, Visit(t, opts, ii, f, size).st.entropy, Slot(f);
            if !opts.entropic.enabled then e' == e else
              && e'.global == e.global[s := Least(0xFFFF, (if t.st.sizes[s] == 0 then 0 else e.global[s]) + 1)]
              && if t.st.sizes[s] == 0 then IsNewest(e', s) else e'.rare == e.rare && e'.isRare == e.isRare
  {
    hide Slot, Ownership.Consistent, OwnersFit, Conserved, AddRare, Update;
    AmidCanAdd(t.st, target, size, pending, opts, f);
    AddFeatureShape(t.st, opts, f, size);
    var s := Slot(f);
    var st1 := AddFeature(t.st, opts, f, size);
    if opts.entropic.enabled {
      assert Conserved(t.st.entropy);
      EntropyAfterAdd(t.st, opts, f, size);
      if t.st.sizes[s] == 0 {
        assert s !in t.st.entropy.rare;
        AddRareTells(t.st.entropy, opts.entropic, s);
      }
      GlobalIsBounded(t.st.entropy);
      UpdateTells(st1.entropy, ii, s);
    }
  }

  /** The slot was the last to become rare. */
  ghost predicate IsNewest(e: Entropy, s: nat) {
    e.rare != [] && e.rare[|e.rare| - 1] == s < |e.isRare| && e.isRare[s]
  }

  lemma GlobalIsBounded(e: Entropy)
    requires Conserved(e)
    ensures |e.global| == FEATURE_SET_SIZE && forall s | 0 <= s < FEATURE_SET_SIZE :: e.global[s] <= 0xFFFF
  {
  }

  /** How many of the first k features fall into slot s. */
  ghost function HitsOf(features: seq<nat>, k: nat, s: nat): nat
    requires k <= |features|
  {
    if k == 0 then 0 else HitsOf(features, k - 1, s) + if Slot(features[k - 1]) == s then 1 else 0
  }

  /** The last of the first k features that hits a slot for the first time ever. */
  ghost function LastFirst(st: State, features: seq<nat>, k: nat): (j: int)
    requires k <= |features| && |st.sizes| == FEATURE_SET_SIZE
    ensures -1 <= j < k
  {
    if k == 0 then -1
    else if st.sizes[Slot(features[k - 1])] == 0 && FirstInSlot(features, k - 1) then k - 1
    else LastFirst(st, features, k - 1)
  }

  /** Each slot's global count has risen by the features in it, up to 65535, from zero if it was never hit before. */
  ghost predicate CountsTold(st: State, opts: Options, features: seq<nat>, k: nat, e: Entropy)
    requires k <= |features| && |st.sizes| == |st.entropy.global| == FEATURE_SET_SIZE
  {
    if !opts.entropic.enabled then e == st.entropy else
      && |e.global| == FEATURE_SET_SIZE
      && (forall s | 0 <= s < FEATURE_SET_SIZE ::
            e.global[s] == Least(0xFFFF, (if st.sizes[s] == 0 && HitsOf(features, k, s) > 0 then 0 else st.entropy.global[s])
                                         + HitsOf(features, k, s)))
      && var j := LastFirst(st, features, k);
         if j >= 0 then IsNewest(e, Slot(features[j])) else e.rare == st.entropy.rare && e.isRare == st.entropy.isRare
  }

  lemma {:induction false} HitsAre(features: seq<nat>, k: nat, s: nat)
    requires k <= |features|
    ensures HitsOf(features, k, s) > 0 <==> exists j :: 0 <= j < k && Slot(features[j]) == s
  {
    hide Slot;
    if k > 0 { HitsAre(features, k - 1, s); }
  }

  lemma CountsNext(st: State, opts: Options, features: seq<nat>, size: nat, k: nat, now: State, e: Entropy)
    requires k < |features| && size > 0 && Shape(st) && opts.entropic.enabled
    requires forall s | 0 <= s < FEATURE_SET_SIZE :: st.entropy.global[s] <= 0xFFFF
    requires SlotsTold(st, opts, features, size, k, now) && CountsTold(st, opts, features, k, now.entropy)
    requires var s := Slot(features[k]);
             && e.global == now.entropy.global[s := Least(0xFFFF, (if now.sizes[s] == 0 then 0 else now.entropy.global[s]) + 1)]
             && if now.sizes[s] == 0 then IsNewest(e, s) else e.rare == now.entropy.rare && e.isRare == now.entropy.isRare
    ensures CountsTold(st, opts, features, k + 1, e)
  {
    hide Slot;
    var s := Slot(features[k]);
    HitsAre(features, k, s);
    assert now.sizes[s] == 0 <==> st.sizes[s] == 0 && HitsOf(features, k, s) == 0;
    assert FirstInSlot(features, k) <==> HitsOf(features, k, s) == 0;
    hide SlotsTold, FirstInSlot;
    forall r | 0 <= r < FEATURE_SET_SIZE
      ensures e.global[r] == Least(0xFFFF, (if st.sizes[r] == 0 && HitsOf(features, k + 1, r) > 0 then 0 else st.entropy.global[r])
                                           + HitsOf(features, k + 1, r))
    {
      assert HitsOf(features, k + 1, r) == HitsOf(features, k, r) + if r == s then 1 else 0;
    }
  }

  /** One run: what becomes of the frequencies and the newest rare feature. */
  lemma {:induction false} RunCounts(st: State, opts: Options, target: Target, ii: int, features: seq<nat>, size: nat, k: nat)
    requires Inv(st, target) && -1 <= ii < |st.infos| && size > 0 && NoDuplicates(features) && k <= |features|
    ensures CanVisit(st, opts, ii, features, size, k) && Shape(st)
    ensures CountsTold(st, opts, features, k, VisitAll(st, opts, ii, features, size, k).st.entropy)
  {
    hide Inv, Amid, Visit, CanAdd, SlotsTold, CountsTold, RunTold, FreshTold, InfosTold, IsNewest;
    VisitAllAmid(st, opts, target, ii, features, size, k);
    InvShape(st, target);
    InvBounded(st, target);
    if k == 0 {
      NothingCounted(st, opts, features);
    } else {
      RunCounts(st, opts, target, ii, features, size, k - 1);
      VisitAllAmid(st, opts, target, ii, features, size, k - 1);
      VisitAllTells(st, opts, target, ii, features, size, k - 1);
      var t := VisitAll(st, opts, ii, features, size, k - 1);
      SlotsOfRun(st, opts, features, size, k - 1, t);
      VisitCounts(t, opts, target, ii, features[k - 1], size, t.st.numUpdated - st.numUpdated);
      var e := VisitAll(st, opts, ii, features, size, k).st.entropy;
      if opts.entropic.enabled {
        CountsNext(st, opts, features, size, k - 1, t.st, e);
      } else {
        NothingCounts(st, opts, features, k - 1, e);
      }
    }
  }

  lemma SlotsOfRun(st: State, opts: Options, features: seq<nat>, size: nat, k: nat, t: Tally)
    requires k <= |features| && |st.sizes| == |st.owners| == FEATURE_SET_SIZE && RunTold(st, opts, features, size, k, t)
    ensures SlotsTold(st, opts, features, size, k, t.st) && |t.st.sizes| == FEATURE_SET_SIZE
  {
  }

  lemma NothingCounts(st: State, opts: Options, features: seq<nat>, k: nat, e: Entropy)
    requires k < |features| && |st.sizes| == |st.entropy.global| == FEATURE_SET_SIZE && !opts.entropic.enabled
    requires CountsTold(st, opts, features, k, e)
    ensures CountsTold(st, opts, features, k + 1, e)
  {
  }

  lemma NothingCounted(st: State, opts: Options, features: seq<nat>)
    requires Shape(st) && forall s | 0 <= s < FEATURE_SET_SIZE :: st.entropy.global[s] <= 0xFFFF
    ensures CountsTold(st, opts, features, 0, st.entropy)
  {
  }

  lemma InvBounded(st: State, target: Target)
    requires Inv(st, target)
    ensures |st.entropy.global| == FEATURE_SET_SIZE && forall s | 0 <= s < FEATURE_SET_SIZE :: st.entropy.global[s] <= 0xFFFF
  {
  }
}
