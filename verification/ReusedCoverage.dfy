/** Merging with coverage known from an earlier merge, against merging the same corpora from scratch. */
module ReusedCoverage {
  import opened Collections
  import opened CrashResistantMerge

  /** The old corpus, then the new one, then all files known before: what a merge that reuses coverage looks at. */
  function Listed(oldCorpus: seq<string>, newCorpus: seq<string>, known: seq<string>): seq<string> {
    Unknown(oldCorpus, Elements(known)) + Unknown(newCorpus, Elements(known)) + known
  }

  function InFirst(oldCorpus: seq<string>, known: seq<string>): nat {
    |Unknown(oldCorpus, Elements(known))|
  }

  function Split(oldCorpus: seq<string>, newCorpus: seq<string>, known: seq<string>): nat {
    InFirst(oldCorpus, known) + |Unknown(newCorpus, Elements(known))|
  }

  ghost function ReusedFeatures(disk: Disk, oldCorpus: seq<string>, newCorpus: seq<string>, known: seq<string>,
                                initial: set<nat>): set<nat>
  {
    var names, first := Listed(oldCorpus, newCorpus, known), InFirst(oldCorpus, known);
    AllFeatures(disk, names[first..]) - (initial + AllFeatures(disk, names[..first]))
  }

  ghost function ReusedPcs(disk: Disk, oldCorpus: seq<string>, newCorpus: seq<string>, known: seq<string>,
                           initial: set<nat>): set<nat>
  {
    NewPcs(disk, Listed(oldCorpus, newCorpus, known), InFirst(oldCorpus, known), Split(oldCorpus, newCorpus, known)) - initial
  }

  /** What a merge from scratch reports. */
  ghost function FreshFeatures(disk: Disk, oldCorpus: seq<string>, newCorpus: seq<string>, initial: set<nat>): set<nat> {
    AllFeatures(disk, newCorpus) - (initial + AllFeatures(disk, oldCorpus))
  }

  ghost function FreshPcs(disk: Disk, oldCorpus: seq<string>, newCorpus: seq<string>, initial: set<nat>): set<nat> {
    AllPcs(disk, newCorpus) - (initial + AllPcs(disk, oldCorpus))
  }

  /** The features and PCs of a list depend on its set of names only. */
  lemma InAll(disk: Disk, names: seq<string>, x: nat)
    ensures x in AllFeatures(disk, names) <==> exists n :: n in names && x in RunFeatures(disk, n)
    ensures x in AllPcs(disk, names) <==> exists n :: n in names && x in RunPcs(disk, n)
  {
    hide RunFeatures, RunPcs;
    if n :| n in names && x in RunFeatures(disk, n) {
      var i :| 0 <= i < |names| && names[i] == n;
      assert x in RunFeatures(disk, names[i]);
    }
    if n :| n in names && x in RunPcs(disk, n) {
      var i :| 0 <= i < |names| && names[i] == n;
      assert x in RunPcs(disk, names[i]);
    }
  }

  lemma SameNames(disk: Disk, a: seq<string>, b: seq<string>)
    requires forall n :: n in a <==> n in b
    ensures AllFeatures(disk, a) == AllFeatures(disk, b) && AllPcs(disk, a) == AllPcs(disk, b)
  {
    hide AllFeatures, AllPcs, RunFeatures, RunPcs;
    forall x ensures x in AllFeatures(disk, a) <==> x in AllFeatures(disk, b) {
      InAll(disk, a, x);
      InAll(disk, b, x);
    }
    forall x ensures x in AllPcs(disk, a) <==> x in AllPcs(disk, b) {
      InAll(disk, a, x);
      InAll(disk, b, x);
    }
  }

  lemma {:induction false} InUnknown(corpus: seq<string>, skip: set<string>, n: string)
    ensures n in Unknown(corpus, skip) <==> n in corpus && n !in skip
  {
    if corpus != [] {
      InUnknown(corpus[..|corpus| - 1], skip, n);
      assert corpus == corpus[..|corpus| - 1] + [corpus[|corpus| - 1]];
    }
  }

  /** The parts of the list. */
  lemma Parts(oldCorpus: seq<string>, newCorpus: seq<string>, known: seq<string>)
    ensures var names, first := Listed(oldCorpus, newCorpus, known), InFirst(oldCorpus, known);
            var split := Split(oldCorpus, newCorpus, known);
            && first <= split <= |names| && names[split..] == known
            && (forall n :: n in names[..first] <==> n in oldCorpus && n !in known)
            && (forall n :: n in names[..split] <==> (n in oldCorpus || n in newCorpus) && n !in known)
            && (forall n :: n in names[first..] <==> n in newCorpus || n in known)
  {
    hide Unknown;
    var skip := Elements(known);
    var fromOld, fromNew := Unknown(oldCorpus, skip), Unknown(newCorpus, skip);
    var names, first, split := fromOld + fromNew + known, |fromOld|, |fromOld| + |fromNew|;
    assert names[..first] == fromOld && names[first..] == fromNew + known;
    assert names[..split] == fromOld + fromNew && names[split..] == known;
    forall n ensures n in fromOld <==> n in oldCorpus && n !in known { InUnknown(oldCorpus, skip, n); }
    forall n ensures n in fromNew <==> n in newCorpus && n !in known { InUnknown(newCorpus, skip, n); }
  }

  /** A target that shows one feature and one PC, on some files only. */
  ghost function Showing(names: set<string>): (disk: Disk)
    ensures forall n :: RunFeatures(disk, n) == RunPcs(disk, n) == if n in names then {0} else {}
  {
    map n | n in names :: Input(0, Ran([0], {0}))
  }

  /** Reuse finds the features of a merge from scratch, whatever the target does, if and only if every file known
      before is in the new corpus and none is in the old one. */
  lemma FeaturesAgreeIff(oldCorpus: seq<string>, newCorpus: seq<string>, known: seq<string>)
    ensures (forall disk, initial ::
               ReusedFeatures(disk, oldCorpus, newCorpus, known, initial) == FreshFeatures(disk, oldCorpus, newCorpus, initial))
            <==> forall n | n in known :: n in newCorpus && n !in oldCorpus
  {
    if forall n | n in known :: n in newCorpus && n !in oldCorpus {
      forall disk, initial
        ensures ReusedFeatures(disk, oldCorpus, newCorpus, known, initial)
                == FreshFeatures(disk, oldCorpus, newCorpus, initial)
      {
        FeaturesAgree(disk, oldCorpus, newCorpus, known, initial);
      }
    } else {
      var n :| n in known && (n !in newCorpus || n in oldCorpus);
      FeaturesDiffer(oldCorpus, newCorpus, known, n);
    }
  }

  lemma FeaturesAgree(disk: Disk, oldCorpus: seq<string>, newCorpus: seq<string>, known: seq<string>, initial: set<nat>)
    requires forall n | n in known :: n in newCorpus && n !in oldCorpus
    ensures ReusedFeatures(disk, oldCorpus, newCorpus, known, initial) == FreshFeatures(disk, oldCorpus, newCorpus, initial)
  {
    hide AllFeatures, AllPcs, Listed, InFirst;
    Parts(oldCorpus, newCorpus, known);
    var names, first := Listed(oldCorpus, newCorpus, known), InFirst(oldCorpus, known);
    SameNames(disk, names[..first], oldCorpus);
    SameNames(disk, names[first..], newCorpus);
  }

  /** A known file that does not count as new in a merge from scratch, and alone shows a feature. */
  lemma FeaturesDiffer(oldCorpus: seq<string>, newCorpus: seq<string>, known: seq<string>, n: string)
    requires n in known && (n !in newCorpus || n in oldCorpus)
    ensures var disk := Showing({n});
            ReusedFeatures(disk, oldCorpus, newCorpus, known, {}) != FreshFeatures(disk, oldCorpus, newCorpus, {})
  {
    hide AllFeatures, Listed, InFirst, Showing;
    var disk := Showing({n});
    Parts(oldCorpus, newCorpus, known);
    var names, first := Listed(oldCorpus, newCorpus, known), InFirst(oldCorpus, known);
    InAll(disk, names[first..], 0);
    InAll(disk, names[..first], 0);
    InAll(disk, newCorpus, 0);
    InAll(disk, oldCorpus, 0);
    assert n in names[first..] && 0 in RunFeatures(disk, n);
    assert 0 in ReusedFeatures(disk, oldCorpus, newCorpus, known, {});
  }

  /** Reuse finds the PCs of a merge from scratch, whatever the target does, if and only if nothing was known before,
      or there is no old corpus and every file known before is in the new one. */
  lemma PcsAgreeIff(oldCorpus: seq<string>, newCorpus: seq<string>, known: seq<string>)
    ensures (forall disk, initial ::
               ReusedPcs(disk, oldCorpus, newCorpus, known, initial) == FreshPcs(disk, oldCorpus, newCorpus, initial))
            <==> known == [] || (oldCorpus == [] && forall n | n in known :: n in newCorpus)
  {
    if known == [] || (oldCorpus == [] && forall n | n in known :: n in newCorpus) {
      forall disk, initial
        ensures ReusedPcs(disk, oldCorpus, newCorpus, known, initial) == FreshPcs(disk, oldCorpus, newCorpus, initial)
      {
        PcsAgree(disk, oldCorpus, newCorpus, known, initial);
      }
    } else if oldCorpus != [] {
      PcsDiffer(oldCorpus, newCorpus, known, known[0], {oldCorpus[0], known[0]});
    } else {
      var n :| n in known && n !in newCorpus;
      PcsDiffer(oldCorpus, newCorpus, known, n, {n});
    }
  }

  lemma PcsAgree(disk: Disk, oldCorpus: seq<string>, newCorpus: seq<string>, known: seq<string>, initial: set<nat>)
    requires known == [] || (oldCorpus == [] && forall n | n in known :: n in newCorpus)
    ensures ReusedPcs(disk, oldCorpus, newCorpus, known, initial) == FreshPcs(disk, oldCorpus, newCorpus, initial)
  {
    hide AllFeatures, AllPcs, Listed, InFirst, Split;
    Parts(oldCorpus, newCorpus, known);
    var names, first := Listed(oldCorpus, newCorpus, known), InFirst(oldCorpus, known);
    var split := Split(oldCorpus, newCorpus, known);
    SplitAll(disk, names, split);
    SplitAll(disk, names, first);
    SameNames(disk, names[..first], oldCorpus);
    SameNames(disk, names[first..], newCorpus);
    NoPcs(disk);
  }

  /** A known file shows a PC that an old file shows as well, or that no file of the new corpus shows. */
  lemma PcsDiffer(oldCorpus: seq<string>, newCorpus: seq<string>, known: seq<string>, n: string, showing: set<string>)
    requires n in known && n in showing
    requires (exists o :: o in oldCorpus && o in showing) || forall m | m in newCorpus :: m !in showing
    ensures var disk := Showing(showing);
            ReusedPcs(disk, oldCorpus, newCorpus, known, {}) != FreshPcs(disk, oldCorpus, newCorpus, {})
  {
    hide AllPcs, Listed, InFirst, Split, Showing;
    var disk := Showing(showing);
    Parts(oldCorpus, newCorpus, known);
    InAll(disk, known, 0);
    InAll(disk, newCorpus, 0);
    InAll(disk, oldCorpus, 0);
    assert 0 in ReusedPcs(disk, oldCorpus, newCorpus, known, {});
  }

  /** Files added to a single corpus since the merge: reuse reports what a merge from scratch does, keeps files of the
      corpus only, and for each new feature one that shows it. */
  lemma GrownCorpus(disk: Disk, newCorpus: seq<string>, known: seq<string>, maxLen: nat,
                    initialFeatures: set<nat>, initialCov: set<nat>, newFeatures: set<nat>, newCov: set<nat>,
                    newFiles: seq<string>)
    requires forall n | n in known :: n in newCorpus
    requires Reused(disk, Listed([], newCorpus, known), InFirst([], known), Split([], newCorpus, known), maxLen,
                    initialFeatures, initialCov, newFeatures, newCov, newFiles)
    ensures newFeatures == FreshFeatures(disk, [], newCorpus, initialFeatures)
    ensures newCov == FreshPcs(disk, [], newCorpus, initialCov)
    ensures forall f | f in newFiles :: f in newCorpus
    ensures forall x | x in newFeatures :: exists f :: f in newFiles && x in RunFeatures(disk, f)
  {
    hide AllFeatures, AllPcs, Listed, InFirst, Split, Keeps, NewPcs;
    FeaturesAgree(disk, [], newCorpus, known, initialFeatures);
    PcsAgree(disk, [], newCorpus, known, initialCov);
    KeepsFromCorpus(disk, newCorpus, known, maxLen, newFeatures, newFiles);
  }

  lemma KeepsFromCorpus(disk: Disk, newCorpus: seq<string>, known: seq<string>, maxLen: nat,
                        newFeatures: set<nat>, newFiles: seq<string>)
    requires forall n | n in known :: n in newCorpus
    requires Keeps(disk, Listed([], newCorpus, known), InFirst([], known), Split([], newCorpus, known), maxLen,
                   newFeatures, newFiles)
    ensures forall f | f in newFiles :: f in newCorpus
    ensures forall x | x in newFeatures :: exists f :: f in newFiles && x in RunFeatures(disk, f)
  {
    hide Listed, InFirst, Split, RunFeatures, KeepsOnly, KeptFor;
    Parts([], newCorpus, known);
    var names, first := Listed([], newCorpus, known), InFirst([], known);
    var kept: seq<nat>, own: seq<nat> :| KeepsOnly(disk, names, first, newFeatures, newFiles, kept, own);
    forall f | f in newFiles ensures f in newCorpus {
      KeptIsListed(disk, names, first, newFeatures, newFiles, kept, own, f);
    }
    forall x | x in newFeatures ensures exists f :: f in newFiles && x in RunFeatures(disk, f) {
      KeptShows(disk, names, first, Split([], newCorpus, known), maxLen, newFiles, x);
    }
  }

  lemma KeptIsListed(disk: Disk, names: seq<string>, first: nat, newFeatures: set<nat>, newFiles: seq<string>,
                     kept: seq<nat>, own: seq<nat>, f: string)
    requires first <= |names| && KeepsOnly(disk, names, first, newFeatures, newFiles, kept, own) && f in newFiles
    ensures f in names[first..]
  {
    hide RunFeatures;
    var k :| 0 <= k < |newFiles| && newFiles[k] == f;
    assert names[first..][kept[k] - first] == f;
  }

  lemma KeptShows(disk: Disk, names: seq<string>, first: nat, split: nat, maxLen: nat, newFiles: seq<string>, x: nat)
    requires KeptFor(disk, names, first, split, maxLen, newFiles, x)
    ensures exists f :: f in newFiles && x in RunFeatures(disk, f)
  {
    hide RunFeatures, SortedBySize;
  }
}
