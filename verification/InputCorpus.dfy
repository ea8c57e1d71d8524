/** `InputCorpus` and the part of `Fuzzer::RunOne` that drives it, updated in place. */
module InputCorpus {
  import opened Collections
  import opened FeatureSlots
  import opened Frequencies
  import opened InputModel

  class InputInfo {
    var u: Data
    var numFeatures: nat
    var uniqFeatureSet: seq<nat>
    var neverReduce: bool
    var traced: bool
    var featureFreqs: Freqs

    constructor (u: Data, numFeatures: nat, uniq: seq<nat>, neverReduce: bool, traced: bool)
      ensures Value() == Info(u, numFeatures, uniq, neverReduce, traced) && featureFreqs == []
    {
      this.u, this.numFeatures, uniqFeatureSet := u, numFeatures, uniq;
      this.neverReduce, this.traced, featureFreqs := neverReduce, traced, [];
    }

    function Value(): Info
      reads this
    {
      Info(u, numFeatures, uniqFeatureSet, neverReduce, traced)
    }
  }

  class Corpus {
    const options: Options
    var inputs: seq<InputInfo>
    var numAddedFeatures: nat
    var numUpdatedFeatures: nat
    const inputSizesPerFeature: array<nat>
    const smallestElementPerFeature: array<nat>
    const globalFeatureFreqs: array<nat>
    const isRareFeature: array<bool>
    var rareFeatures: seq<nat>
    var freqOfMostAbundantRareFeature: nat

    ghost predicate Valid()
      reads this
    {
      && (forall i, j | 0 <= i < j < |inputs| :: inputs[i] != inputs[j])
      && inputSizesPerFeature.Length == smallestElementPerFeature.Length == FEATURE_SET_SIZE
      && globalFeatureFreqs.Length == isRareFeature.Length == FEATURE_SET_SIZE
      && inputSizesPerFeature != smallestElementPerFeature && inputSizesPerFeature != globalFeatureFreqs
      && smallestElementPerFeature != globalFeatureFreqs
    }

    ghost function Lists(): seq<Freqs>
      reads this, inputs
    {
      seq(|inputs|, i requires 0 <= i < |inputs| reads this, inputs => inputs[i].featureFreqs)
    }

    ghost function EntropyModel(): Entropy
      reads this, inputs, globalFeatureFreqs, isRareFeature
    {
      Entropy(rareFeatures, isRareFeature[..], globalFeatureFreqs[..], freqOfMostAbundantRareFeature, Lists())
    }

    ghost function Model(): State
      reads this, inputs, inputSizesPerFeature, smallestElementPerFeature, globalFeatureFreqs, isRareFeature
    {
      State(seq(|inputs|, i requires 0 <= i < |inputs| reads this, inputs => inputs[i].Value()),
            numAddedFeatures, numUpdatedFeatures,
            inputSizesPerFeature[..], smallestElementPerFeature[..], EntropyModel())
    }

    constructor (options: Options)
      ensures Valid() && Initial(Model()) && this.options == options
    {
      this.options := options;
      inputs, numAddedFeatures, numUpdatedFeatures := [], 0, 0;
      inputSizesPerFeature := new nat[FEATURE_SET_SIZE](_ => 0);
      smallestElementPerFeature := new nat[FEATURE_SET_SIZE](_ => 0);
      globalFeatureFreqs := new nat[FEATURE_SET_SIZE](_ => 0);
      isRareFeature := new bool[FEATURE_SET_SIZE](_ => false);
      rareFeatures, freqOfMostAbundantRareFeature := [], 0;
    }

    /** Deletes one feature's local frequency everywhere. */
    method DropEverywhere(s: nat)
      requires Valid()
      modifies inputs
      ensures Valid() && Lists() == DropAll(old(Lists()), s)
      ensures forall i | 0 <= i < |inputs| :: inputs[i].Value() == old(inputs[i].Value())
    {
      hide Drop;
      for i := 0 to |inputs|
        invariant forall k | 0 <= k < i :: inputs[k].featureFreqs == Drop(old(inputs[k].featureFreqs), s)
        invariant forall k | i <= k < |inputs| :: inputs[k].featureFreqs == old(inputs[k].featureFreqs)
        invariant forall k | 0 <= k < |inputs| :: inputs[k].Value() == old(inputs[k].Value())
      {
        inputs[i].featureFreqs := Drop(inputs[i].featureFreqs, s);
      }
    }

    /** Finds the most and, in the source's fashion, the second most abundant rare feature. */
    method ScanRare() returns (first: nat, second: nat, delete: nat)
      requires Valid() && rareFeatures != [] && forall k | 0 <= k < |rareFeatures| :: rareFeatures[k] < FEATURE_SET_SIZE
      ensures (first, second, delete) == Scan(rareFeatures, globalFeatureFreqs[..], |rareFeatures|)
    {
      first, second, delete := rareFeatures[0], rareFeatures[0], 0;
      for i := 0 to |rareFeatures|
        invariant first < FEATURE_SET_SIZE
        invariant (first, second, delete) == Scan(rareFeatures, globalFeatureFreqs[..], i)
      {
        var idx := rareFeatures[i];
        if globalFeatureFreqs[idx] >= globalFeatureFreqs[first] {
          second, first, delete := first, idx, i;
        }
      }
    }

    method AddRareFeature(s: nat)
      requires Valid() && Evictable(EntropyModel()) && s < FEATURE_SET_SIZE
      modifies `rareFeatures, `freqOfMostAbundantRareFeature, inputs, globalFeatureFreqs, isRareFeature
      ensures Valid() && EntropyModel() == AddRare(old(EntropyModel()), options.entropic, s)
      ensures forall i | 0 <= i < |inputs| :: inputs[i].Value() == old(inputs[i].Value())
    {
      ghost var e := EntropyModel();
      EvictSane(e, options.entropic);
      while |rareFeatures| > options.entropic.numRarest
            && freqOfMostAbundantRareFeature > options.entropic.threshold
        invariant Valid() && Evictable(EntropyModel())
        invariant Evict(EntropyModel(), options.entropic) == Evict(e, options.entropic)
        invariant forall i | 0 <= i < |inputs| :: inputs[i].Value() == old(inputs[i].Value())
        decreases |rareFeatures|
      {
        EvictRound();
      }
      rareFeatures := rareFeatures + [s];
      isRareFeature[s] := true;
      globalFeatureFreqs[s] := 0;
      DropEverywhere(s);
    }

    /** One round of the eviction loop. */
    method EvictRound()
      requires Valid() && Evictable(EntropyModel()) && rareFeatures != []
      modifies `rareFeatures, `freqOfMostAbundantRareFeature, inputs, isRareFeature
      ensures Valid() && EntropyModel() == EvictOne(old(EntropyModel()))
      ensures forall i | 0 <= i < |inputs| :: inputs[i].Value() == old(inputs[i].Value())
    {
      hide DropAll;
      ghost var e := EntropyModel();
      var first, second, delete := ScanRare();
      assert (first, second, delete) == Scan(e.rare, e.global, |e.rare|);
      var last := |rareFeatures| - 1;
      isRareFeature[delete] := false;
      rareFeatures := rareFeatures[delete := rareFeatures[last]][..last];
      assert Lists() == e.lists;
      DropEverywhere(first);
      ghost var lists := Lists();
      freqOfMostAbundantRareFeature := globalFeatureFreqs[second];
      assert isRareFeature[..] == e.isRare[delete := false];
      assert globalFeatureFreqs[..] == e.global && Lists() == lists;
      assert rareFeatures == e.rare[delete := e.rare[last]][..last];
      assert freqOfMostAbundantRareFeature == e.global[second];
    }

    method UpdateFeatureFrequency(ii: int, f: nat)
      requires Valid() && Sane(EntropyModel()) && -1 <= ii < |inputs|
      modifies `freqOfMostAbundantRareFeature, inputs, globalFeatureFreqs
      ensures Valid() && EntropyModel() == Update(old(EntropyModel()), ii, Slot(f))
      ensures forall i | 0 <= i < |inputs| :: inputs[i].Value() == old(inputs[i].Value())
    {
      var s := Slot(f);
      if globalFeatureFreqs[s] == 0xFFFF { return; }
      var freq := globalFeatureFreqs[s];
      globalFeatureFreqs[s] := freq + 1;
      if freq > freqOfMostAbundantRareFeature || !isRareFeature[s] { return; }
      if freq == freqOfMostAbundantRareFeature {
        freqOfMostAbundantRareFeature := freqOfMostAbundantRareFeature + 1;
      }
      if ii >= 0 {
        inputs[ii].featureFreqs := Bump(inputs[ii].featureFreqs, s);
      }
    }

    /** The owner of a slot loses it. */
    method Dispossess(i: nat)
      requires Valid() && i < |inputs| && inputs[i].numFeatures > 0
      modifies inputs[i]
      ensures Valid() && Model() == InputModel.Dispossess(old(Model()), i)
    {
      var ii := inputs[i];
      ghost var lists := Lists();
      ii.numFeatures := ii.numFeatures - 1;
      if ii.numFeatures == 0 {
        ii.u := [];
      }
      assert Lists() == lists;
    }

    /** The next input to be added becomes the owner of a slot. */
    method OwnSlot(s: nat, newSize: nat)
      requires Valid() && s < FEATURE_SET_SIZE
      modifies `numUpdatedFeatures, inputSizesPerFeature, smallestElementPerFeature
      ensures Valid()
      ensures Model() == old(Model()).(numUpdated := old(Model()).numUpdated + 1,
                                       owners := old(Model()).owners[s := |inputs|],
                                       sizes := old(Model()).sizes[s := newSize])
    {
      ghost var lists := Lists();
      numUpdatedFeatures := numUpdatedFeatures + 1;
      smallestElementPerFeature[s] := |inputs|;
      inputSizesPerFeature[s] := newSize;
      assert Lists() == lists;
    }

    method AddFeature(f: nat, newSize: nat) returns (updated: bool)
      requires Valid() && CanAdd(Model(), options, f, newSize)
      modifies this, inputs, inputSizesPerFeature, smallestElementPerFeature, globalFeatureFreqs, isRareFeature
      ensures Valid() && inputs == old(inputs)
      ensures Model() == InputModel.AddFeature(old(Model()), options, f, newSize)
      ensures updated == Improves(old(Model()), options, f, newSize)
    {
      hide AddRare, Evictable, Sane;
      var s := Slot(f);
      var oldSize := inputSizesPerFeature[s];
      if oldSize == 0 || (options.shrink && oldSize > newSize) {
        ghost var st := Model();
        if oldSize > 0 {
          Dispossess(smallestElementPerFeature[s]);
        } else {
          numAddedFeatures := numAddedFeatures + 1;
          if options.entropic.enabled {
            assert EntropyModel() == st.entropy;
            AddRareFeature(s);
          }
        }
        OwnSlot(s, newSize);
        return true;
      }
      return false;
    }

    method AddToCorpus(u: Data, numFeatures: nat, neverReduce: bool, featureSet: seq<nat>, traced: bool)
      returns (ii: InputInfo)
      requires Valid()
      modifies `inputs
      ensures Valid() && fresh(ii) && inputs == old(inputs) + [ii]
      ensures Model() == InputModel.AddToCorpus(old(Model()), u, numFeatures, neverReduce, featureSet, traced)
    {
      hide Sort;
      ii := new InputInfo(u, numFeatures, Sort(featureSet), neverReduce, traced);
      inputs := inputs + [ii];
    }

    method Replace(i: nat, u: Data)
      requires Valid() && i < |inputs| && |inputs[i].u| > |u|
      modifies inputs[i]
      ensures Valid() && Model() == InputModel.Replace(old(Model()), i, u)
    {
      ghost var lists := Lists();
      inputs[i].u := u;
      assert Lists() == lists;
    }

    /** The callback of `RunOne` for one feature. */
    method VisitFeature(f: nat, size: nat, ii: int, fresh0: seq<nat>, found0: nat)
      returns (fresh1: seq<nat>, found1: nat)
      requires Valid() && -1 <= ii < |inputs| && CanAdd(Model(), options, f, size)
      modifies this, inputs, inputSizesPerFeature, smallestElementPerFeature, globalFeatureFreqs, isRareFeature
      ensures Valid() && inputs == old(inputs)
      ensures Tally(Model(), fresh1, found1) == Visit(Tally(old(Model()), fresh0, found0), options, ii, f, size)
    {
      hide InputModel.AddFeature, CanAdd, Improves, Update, Sane;
      fresh1, found1 := fresh0, found0;
      ghost var st := Model();
      AddFeatureShape(st, options, f, size);
      var updated := AddFeature(f, size);
      ghost var st1 := Model();
      if updated {
        fresh1 := fresh1 + [f];
      }
      if options.entropic.enabled {
        SaneEntropy(st1);
        UpdateFeatureFrequency(ii, f);
        assert Model() == st1.(entropy := Update(st1.entropy, ii, Slot(f)));
      }
      if options.reduceInputs && ii >= 0 && !inputs[ii].neverReduce {
        if f in inputs[ii].uniqFeatureSet {
          found1 := found1 + 1;
        }
      }
    }

    /** The callback, for all features of one execution. */
    method VisitFeatures(features: seq<nat>, size: nat, ii: int) returns (uniq: seq<nat>, found: nat)
      requires Valid() && -1 <= ii < |inputs| && CanVisit(Model(), options, ii, features, size, |features|)
      modifies this, inputs, inputSizesPerFeature, smallestElementPerFeature, globalFeatureFreqs, isRareFeature
      ensures Valid() && inputs == old(inputs)
      ensures Tally(Model(), uniq, found) == VisitAll(old(Model()), options, ii, features, size, |features|)
    {
      hide Visit, CanAdd;
      ghost var st := Model();
      uniq, found := [], 0;
      for k := 0 to |features|
        invariant Valid() && inputs == old(inputs)
        invariant CanVisit(st, options, ii, features, size, k)
        invariant Tally(Model(), uniq, found) == VisitAll(st, options, ii, features, size, k)
      {
        CanVisitPrefix(st, options, ii, features, size, k + 1, |features|);
        uniq, found := VisitFeature(features[k], size, ii, uniq, found);
      }
    }

    /** `RunOne`, given what the target did on `data`: rejected it, or hit these features. */
    method RunOne(data: Data, outcome: Option<seq<nat>>, ii: int, force: bool, traced: bool) returns (added: bool)
      requires Valid() && -1 <= ii < |inputs|
      requires data != [] && outcome.Some? ==> CanVisit(Model(), options, ii, outcome.value, |data|, |outcome.value|)
      modifies this, inputs, inputSizesPerFeature, smallestElementPerFeature, globalFeatureFreqs, isRareFeature
      ensures Valid() && old(inputs) <= inputs
      ensures if data == [] || outcome.None? then Model() == old(Model()) && !added
              else (Model(), added) == InputModel.RunOne(old(Model()), options, ii, data, outcome.value, force, traced)
    {
      if data == [] || outcome.None? { return false; }
      hide Visit, CanAdd;
      var features := outcome.value;
      ghost var st := Model();
      var numUpdatesBefore := numUpdatedFeatures;
      var uniqFeatureSetTmp, foundUniqFeaturesOfII := VisitFeatures(features, |data|, ii);
      UpdatesGrow(st, options, ii, features, |data|, |features|);
      var numNewFeatures := numUpdatedFeatures - numUpdatesBefore;
      if numNewFeatures > 0 || force {
        var newII := AddToCorpus(data, numNewFeatures, force, uniqFeatureSetTmp, traced);
        return true;
      }
      if ii >= 0 && foundUniqFeaturesOfII > 0 && !inputs[ii].traced
         && foundUniqFeaturesOfII == |inputs[ii].uniqFeatureSet| && |inputs[ii].u| > |data| {
        Replace(ii, data);
        return true;
      }
      return false;
    }
  }

  lemma SaneEntropy(st: State)
    requires Shape(st)
    ensures Sane(st.entropy)
  {
  }

  lemma {:induction false} CanVisitPrefix(st: State, opts: Options, ii: int, features: seq<nat>, size: nat, j: nat, k: nat)
    requires j <= k <= |features| && -1 <= ii < |st.infos| && CanVisit(st, opts, ii, features, size, k)
    ensures CanVisit(st, opts, ii, features, size, j)
  {
    if j < k { CanVisitPrefix(st, opts, ii, features, size, j, k - 1); }
  }

  lemma {:induction false} UpdatesGrow(st: State, opts: Options, ii: int, features: seq<nat>, size: nat, k: nat)
    requires k <= |features| && -1 <= ii < |st.infos| && CanVisit(st, opts, ii, features, size, k)
    ensures VisitAll(st, opts, ii, features, size, k).st.numUpdated >= st.numUpdated
  {
    if k > 0 {
      UpdatesGrow(st, opts, ii, features, size, k - 1);
      AddFeatureShape(VisitAll(st, opts, ii, features, size, k - 1).st, opts, features[k - 1], size);
    }
  }
}
