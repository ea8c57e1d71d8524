/** The two ways of choosing which candidate files join the first corpus: the smallest-first greedy
    pass of `Merger::Merge` and the greedy set cover of `Merger::SetCoverMerge`.
 */
module Selection {
  import opened Collections
  import opened ControlFile
  import opened Text
  import opened SetCoverBound
  import opened FeatureSlots

  // ----- features and coverage of a list of files

  ghost function FeaturesOf(files: seq<FileInfo>): set<nat> {
    set i, f | 0 <= i < |files| && f in files[i].features :: f
  }

  ghost function CovOf(files: seq<FileInfo>): set<nat> {
    set i, c | 0 <= i < |files| && c in files[i].cov :: c
  }

  function Names(files: seq<FileInfo>): seq<string> {
    seq(|files|, i requires 0 <= i < |files| => files[i].name)
  }

  /** `std::set_difference` of a sorted range and a set: one copy per common element is dropped. */
  function SetDifference(cur: seq<nat>, all: set<nat>): (r: seq<nat>)
    ensures forall f | f !in all :: f in r <==> f in cur
    ensures forall f | f in r :: f in cur
  {
    if cur == [] then []
    else if cur[0] in all then SetDifference(cur[1..], all - {cur[0]})
    else [cur[0]] + SetDifference(cur[1..], all)
  }

  function StripFile(f: FileInfo, all: set<nat>): FileInfo {
    f.(features := SetDifference(f.features, all))
  }

  function Strip(files: seq<FileInfo>, all: set<nat>): (r: seq<FileInfo>)
    ensures |r| == |files|
  {
    seq(|files|, i requires 0 <= i < |files| => StripFile(files[i], all))
  }

  // ----- the greedy pass

  /** The comparator handed to `std::sort`: smaller files, then more features. */
  predicate Less(a: FileInfo, b: FileInfo) {
    if a.size != b.size then a.size < b.size else |a.features| > |b.features|
  }

  predicate Ordered(files: seq<FileInfo>) {
    forall i, j | 0 <= i < j < |files| :: !Less(files[j], files[i])
  }

  predicate AddsFeature(f: FileInfo, all: set<nat>) {
    exists x :: x in f.features && x !in all
  }

  /** The files the pass keeps, walking `files` with the features `all` known. */
  function Greedy(files: seq<FileInfo>, all: set<nat>): seq<FileInfo> {
    if files == [] then []
    else if AddsFeature(files[0], all) then [files[0]] + Greedy(files[1..], all + Elements(files[0].features))
    else Greedy(files[1..], all)
  }

  lemma FeaturesOfSplit(files: seq<FileInfo>)
    requires files != []
    ensures FeaturesOf(files) == Elements(files[0].features) + FeaturesOf(files[1..])
  {
    var t := files[1..];
    forall x | x in FeaturesOf(files) ensures x in Elements(files[0].features) + FeaturesOf(t) {
      var i :| 0 <= i < |files| && x in files[i].features;
      if i > 0 { assert t[i - 1] == files[i]; }
    }
    forall x | x in FeaturesOf(t) ensures x in FeaturesOf(files) {
      var i :| 0 <= i < |t| && x in t[i].features;
      assert files[i + 1] == t[i];
    }
  }

  lemma MoreKnown(e: set<nat>, a: set<nat>, b: set<nat>, all: set<nat>)
    requires a - (all + e) == b - (all + e)
    ensures (e + a) - all == (e + b) - all
  {
    forall x | x !in all && x !in e ensures x in a <==> x in b {
      assert x in a - (all + e) <==> x in b - (all + e);
    }
  }

  lemma FeaturesOfExtend(files: seq<FileInfo>, f: FileInfo)
    ensures FeaturesOf(files + [f]) == FeaturesOf(files) + Elements(f.features)
    ensures CovOf(files + [f]) == CovOf(files) + Elements(f.cov)
  {
    var r := files + [f];
    assert forall i | 0 <= i < |files| :: r[i] == files[i];
    assert r[|files|] == f;
    forall x | x in FeaturesOf(files) ensures x in FeaturesOf(r) {
      var i :| 0 <= i < |files| && x in files[i].features;
      assert x in r[i].features;
    }
    forall x | x in CovOf(files) ensures x in CovOf(r) {
      var i :| 0 <= i < |files| && x in files[i].cov;
      assert x in r[i].cov;
    }
  }

  lemma GreedyNames(files: seq<FileInfo>, all: set<nat>)
    requires files != []
    ensures Names(Greedy(files, all))
         == if AddsFeature(files[0], all) then
              [files[0].name] + Names(Greedy(files[1..], all + Elements(files[0].features)))
            else Names(Greedy(files[1..], all))
  {
  }

  /** The kept files have every new feature, and no other files are needed. */
  lemma {:induction false} GreedyCovers(files: seq<FileInfo>, all: set<nat>)
    ensures FeaturesOf(Greedy(files, all)) - all == FeaturesOf(files) - all
  {
    if files != [] {
      FeaturesOfSplit(files);
      var rest := all + Elements(files[0].features);
      if AddsFeature(files[0], all) {
        GreedyCovers(files[1..], rest);
        var g, g' := Greedy(files, all), Greedy(files[1..], rest);
        assert g[0] == files[0] && g[1..] == g';
        FeaturesOfSplit(g);
        MoreKnown(Elements(files[0].features), FeaturesOf(g'), FeaturesOf(files[1..]), all);
      } else {
        GreedyCovers(files[1..], all);
      }
    }
  }

  /** A kept file has a new feature that no file before it in the list has, kept or not. */
  lemma {:induction false} GreedyPosition(files: seq<FileInfo>, all: set<nat>, k: nat) returns (p: nat, x: nat)
    requires k < |Greedy(files, all)|
    ensures p < |files| && Greedy(files, all)[k] == files[p] && x in files[p].features && x !in all
    ensures forall q | 0 <= q < p :: x !in files[q].features
    ensures forall j | 0 <= j < k :: x !in Greedy(files, all)[j].features
  {
    var g := Greedy(files, all);
    if AddsFeature(files[0], all) {
      if k == 0 {
        p := 0;
        x :| x in files[0].features && x !in all;
      } else {
        var rest := all + Elements(files[0].features);
        var g' := Greedy(files[1..], rest);
        assert g == [files[0]] + g';
        p, x := GreedyPosition(files[1..], rest, k - 1);
        p := p + 1;
        forall j | 0 <= j < k ensures x !in g[j].features {
          if j > 0 { assert g[j] == g'[j - 1]; }
        }
        forall q | 0 <= q < p ensures x !in files[q].features {
          if q > 0 { assert files[q] == files[1..][q - 1]; }
        }
      }
    } else {
      p, x := GreedyPosition(files[1..], all, k);
      p := p + 1;
      forall q | 0 <= q < p ensures x !in files[q].features {
        if q > 0 { assert files[q] == files[1..][q - 1]; }
      }
    }
  }

  /** Every kept file has a feature that is new and that no file kept before it has. */
  lemma GreedyAdds(files: seq<FileInfo>, all: set<nat>, k: nat)
    requires k < |Greedy(files, all)|
    ensures exists x :: && x in Greedy(files, all)[k].features && x !in all
                        && forall j | 0 <= j < k :: x !in Greedy(files, all)[j].features
  {
    hide Greedy;
    var p, x := GreedyPosition(files, all, k);
  }

  // ----- which of several files is preferred

  /** How many features a file lists that are not known. */
  function NewCount(f: FileInfo, known: set<nat>): int {
    |f.features| - |Elements(f.features) * known|
  }

  /** The files to keep rather: smaller ones, and of equal ones those with more new features. */
  ghost predicate Preferred(a: FileInfo, b: FileInfo, known: set<nat>) {
    a.size < b.size || (a.size == b.size && NewCount(a, known) > NewCount(b, known))
  }

  /** For a list without repetitions that is the number of features not known. */
  lemma NewCountIs(f: FileInfo, known: set<nat>)
    requires NoDuplicates(f.features)
    ensures NewCount(f, known) == |Elements(f.features) - known|
  {
    var e := Elements(f.features);
    DistinctSize(f.features);
    assert e == (e - known) + (e * known) && (e - known) * (e * known) == {};
  }

  lemma {:induction false} DifferenceSize(cur: seq<nat>, all: set<nat>)
    ensures |SetDifference(cur, all)| == |cur| - |Elements(cur) * all|
  {
    if cur == [] {
      assert Elements(cur) * all == {};
    } else {
      var x, t := cur[0], cur[1..];
      DifferenceSize(t, if x in all then all - {x} else all);
      ElementsFirst(cur);
      KnownAfter(Elements(t), x, all);
    }
  }

  lemma ElementsFirst(s: seq<nat>)
    requires s != []
    ensures Elements(s) == {s[0]} + Elements(s[1..])
  {
    assert s == [s[0]] + s[1..];
    assert forall y :: y in s <==> y == s[0] || y in s[1..];
  }

  lemma KnownAfter(e: set<nat>, x: nat, all: set<nat>)
    ensures |({x} + e) * all| == if x in all then |e * (all - {x})| + 1 else |e * all|
  {
    if x in all {
      assert ({x} + e) * all == e * (all - {x}) + {x};
    } else {
      assert ({x} + e) * all == e * all;
    }
  }

  /** The comparator, applied to the files stripped of the known features, prefers as it should. */
  lemma LessIsPreferred(a: FileInfo, b: FileInfo, known: set<nat>)
    ensures Less(StripFile(a, known), StripFile(b, known)) <==> Preferred(a, b, known)
  {
    DifferenceSize(a.features, known);
    DifferenceSize(b.features, known);
  }

  /** A list that ends in an ordered one has smaller files first there, and of equal ones those with more features. */
  lemma OrderedBySize(files: seq<FileInfo>, first: nat)
    requires first <= |files| && Ordered(files[first..])
    ensures forall i, j | first <= i < j < |files| ::
              && files[i].size <= files[j].size
              && (files[i].size == files[j].size ==> |files[i].features| >= |files[j].features|)
  {
    var sorted := files[first..];
    forall i, j | first <= i < j < |files|
      ensures files[i].size <= files[j].size
      ensures files[i].size == files[j].size ==> |files[i].features| >= |files[j].features|
    {
      assert !Less(sorted[j - first], sorted[i - first]);
    }
  }

  lemma SameFiles(a: seq<FileInfo>, b: seq<FileInfo>)
    requires multiset(a) == multiset(b)
    ensures FeaturesOf(a) == FeaturesOf(b) && CovOf(a) == CovOf(b)
    ensures forall f :: f in a <==> f in b
  {
    assert forall f :: f in a <==> f in multiset(a);
    assert forall f :: f in b <==> f in multiset(b);
    forall i, x | 0 <= i < |a| && x in a[i].features ensures x in FeaturesOf(b) { assert a[i] in b; }
    forall i, x | 0 <= i < |b| && x in b[i].features ensures x in FeaturesOf(a) { assert b[i] in a; }
    forall i, x | 0 <= i < |a| && x in a[i].cov ensures x in CovOf(b) { assert a[i] in b; }
    forall i, x | 0 <= i < |b| && x in b[i].cov ensures x in CovOf(a) { assert b[i] in a; }
  }

  lemma StripKeepsNew(files: seq<FileInfo>, all: set<nat>)
    ensures FeaturesOf(Strip(files, all)) - all == FeaturesOf(files) - all
    ensures CovOf(Strip(files, all)) == CovOf(files)
  {
    var r := Strip(files, all);
    forall x | x in FeaturesOf(files) - all ensures x in FeaturesOf(r) {
      var i :| 0 <= i < |files| && x in files[i].features;
      assert x in r[i].features;
    }
    forall x | x in CovOf(files) ensures x in CovOf(r) {
      var i :| 0 <= i < |files| && x in files[i].cov;
      assert x in r[i].cov;
    }
  }

  /** A candidate with the feature `x` is kept to which none that has it is preferred, whatever order `std::sort` produced. */
  ghost predicate BestKept(candidates: seq<FileInfo>, known: set<nat>, kept: seq<string>, x: nat) {
    exists g :: && g in candidates && x in g.features && g.name in kept
                && forall h | h in candidates && x in h.features :: !Preferred(h, g, known)
  }

  lemma BestIsSmallest(candidates: seq<FileInfo>, known: set<nat>, kept: seq<string>, x: nat) returns (k: nat)
    requires BestKept(candidates, known, kept, x)
    ensures k < |candidates| && x in candidates[k].features && candidates[k].name in kept
    ensures forall h | h in candidates && x in h.features :: candidates[k].size <= h.size
  {
    hide NewCount;
    var g :| g in candidates && x in g.features && g.name in kept
             && forall h | h in candidates && x in h.features :: !Preferred(h, g, known);
    k :| 0 <= k < |candidates| && candidates[k] == g;
  }

  lemma BestIsKept(candidates: seq<FileInfo>, sorted: seq<FileInfo>, all: set<nat>, x: nat)
    requires multiset(sorted) == multiset(Strip(candidates, all)) && Ordered(sorted)
    requires x in FeaturesOf(candidates) && x !in all
    ensures BestKept(candidates, all, Names(Greedy(sorted, all)), x)
  {
    hide Less, Ordered, Preferred;
    var stripped := Strip(candidates, all);
    SameFiles(sorted, stripped);
    StripKeepsNew(candidates, all);
    assert x in FeaturesOf(stripped) - all;
    var g := GreedyBest(sorted, all, x);
    var kept := Greedy(sorted, all);
    var k :| 0 <= k < |kept| && kept[k] == g;
    assert Names(kept)[k] == g.name;
    var i :| 0 <= i < |stripped| && stripped[i] == g;
    var c := candidates[i];
    forall h | h in candidates && x in h.features ensures !Preferred(h, c, all) {
      var j :| 0 <= j < |candidates| && candidates[j] == h;
      assert stripped[j] in sorted && x in stripped[j].features;
      LessIsPreferred(h, c, all);
    }
    assert c in candidates && c.name in Names(kept);
  }

  /** For each new feature, a kept file comes first among the files that have it. */
  lemma {:induction false} GreedyBest(files: seq<FileInfo>, all: set<nat>, x: nat) returns (g: FileInfo)
    requires Ordered(files) && x in FeaturesOf(files) && x !in all
    ensures g in Greedy(files, all) && g in files && x in g.features
    ensures forall h | h in files && x in h.features :: !Less(h, g)
  {
    FeaturesOfSplit(files);
    if x in files[0].features {
      assert AddsFeature(files[0], all);
      g := files[0];
    } else if AddsFeature(files[0], all) {
      g := GreedyBest(files[1..], all + Elements(files[0].features), x);
    } else {
      g := GreedyBest(files[1..], all, x);
    }
  }

  lemma {:induction false} GreedySubset(files: seq<FileInfo>, all: set<nat>)
    ensures forall g | g in Greedy(files, all) :: g in files
  {
    if files != [] {
      GreedySubset(files[1..], all + Elements(files[0].features));
      GreedySubset(files[1..], all);
    }
  }

  /** Every kept file is a candidate of its own, with a new feature of its own that no preferred candidate has; and
      together they have all new features. */
  ghost predicate KeepsOwn(candidates: seq<FileInfo>, known: set<nat>, newFiles: seq<string>, kept: seq<nat>, own: seq<nat>) {
    && |kept| == |own| == |newFiles| && NoDuplicates(kept) && NoDuplicates(own)
    && (forall k | 0 <= k < |newFiles| :: OwnFeature(candidates, known, newFiles[k], kept[k], own[k]))
    && forall x | x in FeaturesOf(candidates) && x !in known :: IsCovered(candidates, kept, x)
  }

  ghost predicate IsCovered(candidates: seq<FileInfo>, kept: seq<nat>, x: nat) {
    exists k :: 0 <= k < |kept| && kept[k] < |candidates| && x in candidates[kept[k]].features
  }

  ghost predicate OwnFeature(candidates: seq<FileInfo>, known: set<nat>, name: string, i: nat, x: nat) {
    && i < |candidates| && candidates[i].name == name && x in candidates[i].features && x !in known
    && forall h | h in candidates && Preferred(h, candidates[i], known) :: x !in h.features
  }

  /** So no kept file's new features are all among those of a preferred candidate, nor properly among those of one
      that is no larger. */
  lemma NoneDominated(candidates: seq<FileInfo>, known: set<nat>, newFiles: seq<string>, kept: seq<nat>, own: seq<nat>,
                      k: nat, h: FileInfo)
    requires KeepsOwn(candidates, known, newFiles, kept, own) && k < |newFiles| && h in candidates
    requires forall f | f in candidates :: NoDuplicates(f.features)
    ensures kept[k] < |candidates| && candidates[kept[k]].name == newFiles[k]
    ensures var g := candidates[kept[k]];
            h.size <= g.size ==> !(Elements(g.features) - known < Elements(h.features) - known)
  {
    hide NoDuplicates;
    assert OwnFeature(candidates, known, newFiles[k], kept[k], own[k]);
    var g := candidates[kept[k]];
    NewCountIs(g, known);
    NewCountIs(h, known);
    var a, b := Elements(g.features) - known, Elements(h.features) - known;
    if h.size <= g.size && a < b {
      assert own[k] in a && own[k] in h.features;
      ProperSize(a, b);
    }
  }

  lemma ProperSize(a: set<nat>, b: set<nat>)
    requires a < b
    ensures |a| < |b|
  {
    SubsetSize(a, b);
    if |a| == |b| { SameSize(a, b); }
  }

  lemma GreedyKeepsOwn(candidates: seq<FileInfo>, sorted: seq<FileInfo>, known: set<nat>)
    requires multiset(sorted) == multiset(Strip(candidates, known)) && Ordered(sorted)
    ensures exists kept: seq<nat>, own: seq<nat> :: KeepsOwn(candidates, known, Names(Greedy(sorted, known)), kept, own)
  {
    var g := Greedy(sorted, known);
    SameFiles(sorted, Strip(candidates, known));
    hide Ordered;
    var kept, own := OwnUpTo(candidates, sorted, known, |g|);
    hide OwnFeature, Greedy, FeaturesOf;
    forall k | 0 <= k < |g| ensures OwnFeature(candidates, known, Names(g)[k], kept[k], own[k]) {
      assert StrippedOwn(candidates, known, g[k], kept[k], own[k]);
    }
    GreedyCovers(sorted, known);
    StripKeepsNew(candidates, known);
    forall x | x in FeaturesOf(candidates) && x !in known ensures IsCovered(candidates, kept, x) {
      assert x in FeaturesOf(candidates) - known && x in FeaturesOf(g);
      KeptCovers(candidates, known, g, kept, own, x);
    }
    assert KeepsOwn(candidates, known, Names(g), kept, own);
  }

  ghost predicate StrippedOwn(candidates: seq<FileInfo>, known: set<nat>, g: FileInfo, i: nat, x: nat) {
    OwnFeature(candidates, known, g.name, i, x) && Strip(candidates, known)[i] == g && x in g.features
  }

  lemma KeptCovers(candidates: seq<FileInfo>, known: set<nat>, g: seq<FileInfo>, kept: seq<nat>, own: seq<nat>, x: nat)
    requires |kept| == |own| == |g| && x in FeaturesOf(g)
    requires forall k | 0 <= k < |g| :: StrippedOwn(candidates, known, g[k], kept[k], own[k])
    ensures IsCovered(candidates, kept, x)
  {
    hide Preferred;
    var k :| 0 <= k < |g| && x in g[k].features;
    assert StrippedOwn(candidates, known, g[k], kept[k], own[k]);
    assert x in StripFile(candidates[kept[k]], known).features;
  }

  /** The first n kept files. */
  lemma {:induction false} OwnUpTo(candidates: seq<FileInfo>, sorted: seq<FileInfo>, known: set<nat>, n: nat)
    returns (kept: seq<nat>, own: seq<nat>)
    requires Ordered(sorted) && forall f :: f in sorted <==> f in Strip(candidates, known)
    requires n <= |Greedy(sorted, known)|
    ensures |kept| == |own| == n && NoDuplicates(kept) && NoDuplicates(own)
    ensures forall k | 0 <= k < n :: StrippedOwn(candidates, known, Greedy(sorted, known)[k], kept[k], own[k])
  {
    if n == 0 {
      kept, own := [], [];
    } else {
      var g := Greedy(sorted, known);
      var kept', own' := OwnUpTo(candidates, sorted, known, n - 1);
      var i, x := NextOwn(candidates, sorted, known, n - 1);
      kept, own := kept' + [i], own' + [x];
      hide Greedy, OwnFeature, Ordered;
      forall k | 0 <= k < n - 1
        ensures kept[k] != i && own[k] != x && StrippedOwn(candidates, known, g[k], kept[k], own[k])
      {
        assert StrippedOwn(candidates, known, g[k], kept'[k], own'[k]);
      }
    }
  }

  lemma NextOwn(candidates: seq<FileInfo>, sorted: seq<FileInfo>, known: set<nat>, n: nat) returns (i: nat, x: nat)
    requires Ordered(sorted) && forall f :: f in sorted <==> f in Strip(candidates, known)
    requires n < |Greedy(sorted, known)|
    ensures StrippedOwn(candidates, known, Greedy(sorted, known)[n], i, x)
    ensures forall j | 0 <= j < n :: x !in Greedy(sorted, known)[j].features
  {
    hide Greedy, Ordered, Preferred, Less;
    var stripped := Strip(candidates, known);
    var p;
    p, x := GreedyPosition(sorted, known, n);
    assert sorted[p] in sorted;
    i :| i < |stripped| && stripped[i] == sorted[p];
    assert candidates[i].name == stripped[i].name;
    forall h | h in candidates && Preferred(h, candidates[i], known) ensures x !in h.features {
      var j :| 0 <= j < |candidates| && candidates[j] == h;
      assert stripped[j] in stripped && stripped[j] == StripFile(h, known);
      LessIsPreferred(h, candidates[i], known);
      ComesBefore(sorted, stripped[j], p);
    }
  }

  lemma ComesBefore(sorted: seq<FileInfo>, f: FileInfo, p: nat)
    requires Ordered(sorted) && p < |sorted| && f in sorted && Less(f, sorted[p])
    ensures exists q :: 0 <= q < p && sorted[q] == f
  {
    assert forall r | p <= r < |sorted| :: !Less(sorted[r], sorted[p]);
  }

  // ----- set cover

  ghost function SlotsOf(features: seq<nat>): set<nat> {
    set i | 0 <= i < |features| :: Slot(features[i])
  }

  ghost function SlotSet(features: set<nat>): set<nat> {
    set f | f in features :: Slot(f)
  }

  lemma SlotsOfSet(features: set<nat>, order: seq<nat>)
    requires forall f :: f in features <==> f in order
    ensures SlotsOf(order) == SlotSet(features)
  {
    forall f | f in features ensures Slot(f) in SlotsOf(order) {
      var p :| 0 <= p < |order| && order[p] == f;
    }
    forall p | 0 <= p < |order| ensures Slot(order[p]) in SlotSet(features) {
      assert order[p] in features;
    }
  }

  /** The slots of all the files from index `first` on. */
  ghost function CandidateSlots(files: seq<FileInfo>, first: nat): set<nat> {
    set i, s | first <= i < |files| && s in SlotsOf(files[i].features) :: s
  }

  /** How many of the listed features are not yet covered; two that share a slot count twice. */
  function Uncovered(features: seq<nat>, covered: set<nat>): (n: nat)
    ensures n <= |features|
  {
    if features == [] then 0 else
      var k := |features| - 1;
      Uncovered(features[..k], covered) + (if Slot(features[k]) in covered then 0 else 1)
  }

  predicate DistinctSlots(features: seq<nat>) {
    forall i, j | 0 <= i < j < |features| :: Slot(features[i]) != Slot(features[j])
  }

  lemma SlotsOfSplit(features: seq<nat>)
    requires features != []
    ensures var k := |features| - 1; SlotsOf(features) == SlotsOf(features[..k]) + {Slot(features[k])}
  {
    var k := |features| - 1;
    forall s | s in SlotsOf(features) ensures s in SlotsOf(features[..k]) + {Slot(features[k])} {
      var i :| 0 <= i < |features| && s == Slot(features[i]);
      if i < k { assert features[..k][i] == features[i]; }
    }
    forall s | s in SlotsOf(features[..k]) ensures s in SlotsOf(features) {
      var i :| 0 <= i < k && s == Slot(features[..k][i]);
      assert features[i] == features[..k][i];
    }
  }

  /** Each feature of `features` brought in one slot of `covered` beyond `base`, and all those are accounted for. */
  ghost predicate Tally(features: set<nat>, covered: set<nat>, base: set<nat>) {
    base <= covered && SlotSet(features) == covered - base && |features| == |covered - base|
  }

  lemma NewSlot(features: set<nat>, f: nat, covered: set<nat>, base: set<nat>)
    requires Tally(features, covered, base) && Slot(f) !in covered
    ensures Tally(features + {f}, covered + {Slot(f)}, base)
    ensures |covered + {Slot(f)}| == |covered| + 1
  {
    assert f in features ==> Slot(f) in SlotSet(features);
    assert (covered + {Slot(f)}) - base == (covered - base) + {Slot(f)};
    assert SlotSet(features + {f}) == SlotSet(features) + {Slot(f)};
  }

  lemma UncoveredPrefix(features: seq<nat>, k: nat, covered: set<nat>)
    requires k < |features|
    ensures Uncovered(features[..k + 1], covered)
         == Uncovered(features[..k], covered) + (if Slot(features[k]) in covered then 0 else 1)
    ensures SlotsOf(features[..k + 1]) == SlotsOf(features[..k]) + {Slot(features[k])}
  {
    var t := features[..k + 1];
    assert t[..k] == features[..k];
    SlotsOfSplit(t);
  }

  lemma {:induction false} UncoveredZero(features: seq<nat>, covered: set<nat>)
    ensures Uncovered(features, covered) == 0 <==> SlotsOf(features) <= covered
  {
    if features != [] {
      UncoveredZero(features[..|features| - 1], covered);
      SlotsOfSplit(features);
    }
  }

  lemma LastSlotIsNew(features: seq<nat>)
    requires DistinctSlots(features) && features != []
    ensures Slot(features[|features| - 1]) !in SlotsOf(features[..|features| - 1])
  {
    var t := features[..|features| - 1];
    forall s | s in SlotsOf(t) ensures s != Slot(features[|features| - 1]) {
      var i :| 0 <= i < |t| && s == Slot(t[i]);
      assert t[i] == features[i];
    }
  }

  lemma AddSlot(a: set<nat>, s: nat, covered: set<nat>)
    requires s !in a
    ensures |a + {s} - covered| == |a - covered| + if s in covered then 0 else 1
  {
    if s in covered {
      assert a + {s} - covered == a - covered;
    } else {
      assert a + {s} - covered == (a - covered) + {s};
    }
  }

  /** With distinct slots the count is the number of slots the file would newly cover. */
  lemma {:induction false} UncoveredGain(features: seq<nat>, covered: set<nat>)
    requires DistinctSlots(features)
    ensures Uncovered(features, covered) == |SlotsOf(features) - covered|
  {
    if features != [] {
      var k := |features| - 1;
      UncoveredGain(features[..k], covered);
      SlotsOfSplit(features);
      LastSlotIsNew(features);
      AddSlot(SlotsOf(features[..k]), Slot(features[k]), covered);
    } else {
      assert SlotsOf(features) == {};
    }
  }

  /** The slots covered once the files at `picks` joined `existing`. */
  ghost function CoveredBy(files: seq<FileInfo>, picks: seq<nat>, existing: set<nat>): set<nat>
    requires Below(picks, |files|)
  {
    if picks == [] then existing else
      var k := |picks| - 1;
      CoveredBy(files, picks[..k], existing) + SlotsOf(files[picks[k]].features)
  }

  /** With m features not covered, file `a` is picked rather than file `b` with n: for its number, then its size, then
      its place in the list. */
  predicate Beats(files: seq<FileInfo>, a: nat, m: nat, b: nat, n: nat)
    requires a < |files| && b < |files|
  {
    n < m || (n == m && (files[a].size < files[b].size || (files[a].size == files[b].size && a <= b)))
  }

  /** A pick has features not covered, and is picked rather than any other candidate. */
  ghost predicate BestPick(files: seq<FileInfo>, first: nat, pick: nat, covered: set<nat>)
  {
    && first <= pick < |files|
    && Uncovered(files[pick].features, covered) > 0
    && forall j | first <= j < |files| ::
         Beats(files, pick, Uncovered(files[pick].features, covered), j, Uncovered(files[j].features, covered))
  }

  ghost predicate GreedyRun(files: seq<FileInfo>, first: nat, picks: seq<nat>, existing: set<nat>)
  {
    picks == [] ||
    var k := |picks| - 1;
    && GreedyRun(files, first, picks[..k], existing)
    && Below(picks, |files|)
    && BestPick(files, first, picks[k], CoveredBy(files, picks[..k], existing))
  }

  /** The places in a list of features whose slots are not covered. */
  ghost function Open(features: seq<nat>, covered: set<nat>): set<nat> {
    set i | 0 <= i < |features| && Slot(features[i]) !in covered
  }

  lemma {:induction false} UncoveredIsOpen(features: seq<nat>, covered: set<nat>)
    ensures Uncovered(features, covered) == |Open(features, covered)|
  {
    if features == [] {
      assert Open(features, covered) == {};
    } else {
      var k := |features| - 1;
      UncoveredIsOpen(features[..k], covered);
      var before := Open(features[..k], covered);
      assert Open(features, covered) == if Slot(features[k]) in covered then before else before + {k};
    }
  }

  /** With `covered` covered, file `a` adds more features than file `b`, or as many and is smaller, or earlier in the list. */
  ghost predicate PickedRather(files: seq<FileInfo>, a: nat, b: nat, covered: set<nat>)
    requires a < |files| && b < |files|
  {
    var m, n := |Open(files[a].features, covered)|, |Open(files[b].features, covered)|;
    && m > 0 && m >= n
    && (m == n ==> files[a].size <= files[b].size && (files[a].size == files[b].size ==> a <= b))
  }

  /** Each pick of a greedy run is picked rather than any other candidate, so the run has no choice. */
  lemma {:induction false} RunHasNoChoice(files: seq<FileInfo>, first: nat, picks: seq<nat>, existing: set<nat>, k: nat, j: nat)
    requires Below(picks, |files|) && GreedyRun(files, first, picks, existing) && k < |picks| && first <= j < |files|
    ensures PickedRather(files, picks[k], j, CoveredBy(files, picks[..k], existing))
    decreases |picks|
  {
    var n := |picks| - 1;
    if k < n {
      RunHasNoChoice(files, first, picks[..n], existing, k, j);
      assert picks[..n][..k] == picks[..k];
    } else {
      var c := CoveredBy(files, picks[..k], existing);
      UncoveredIsOpen(files[picks[k]].features, c);
      UncoveredIsOpen(files[j].features, c);
    }
  }

  ghost function SlotSets(files: seq<FileInfo>, picks: seq<nat>): (r: seq<set<nat>>)
    requires Below(picks, |files|)
    ensures |r| == |picks|
  {
    seq(|picks|, i requires 0 <= i < |picks| => SlotsOf(files[picks[i]].features))
  }

  lemma {:induction false} CoveredBySlotSets(files: seq<FileInfo>, picks: seq<nat>, existing: set<nat>)
    requires Below(picks, |files|)
    ensures CoveredBy(files, picks, existing) == UnionOf(SlotSets(files, picks), existing)
  {
    if picks != [] {
      var k := |picks| - 1;
      CoveredBySlotSets(files, picks[..k], existing);
      assert SlotSets(files, picks)[..k] == SlotSets(files, picks[..k]);
    }
  }

  ghost predicate Candidates(indices: seq<nat>, first: nat, n: nat) {
    forall i | 0 <= i < |indices| :: first <= indices[i] < n
  }

  lemma BestPickInSlots(files: seq<FileInfo>, first: nat, pick: nat, covered: set<nat>, cover: seq<nat>)
    requires BestPick(files, first, pick, covered) && Candidates(cover, first, |files|)
    requires forall j | first <= j < |files| :: DistinctSlots(files[j].features)
    ensures SlotsOf(files[pick].features) - covered != {}
    ensures forall i | 0 <= i < |cover| ::
              |SlotSets(files, cover)[i] - covered| <= |SlotsOf(files[pick].features) - covered|
  {
    UncoveredGain(files[pick].features, covered);
    forall i | 0 <= i < |cover|
      ensures |SlotSets(files, cover)[i] - covered| <= |SlotsOf(files[pick].features) - covered|
    {
      UncoveredGain(files[cover[i]].features, covered);
    }
  }

  lemma {:induction false} GreedyRunPicks(files: seq<FileInfo>, first: nat, picks: seq<nat>, existing: set<nat>, cover: seq<nat>)
    requires Below(picks, |files|) && GreedyRun(files, first, picks, existing)
    requires Candidates(cover, first, |files|)
    requires forall j | first <= j < |files| :: DistinctSlots(files[j].features)
    ensures GreedyPicks(SlotSets(files, picks), SlotSets(files, cover), existing)
    decreases |picks|
  {
    if picks != [] {
      var k := |picks| - 1;
      hide DistinctSlots, BestPick, SlotsOf, CoveredBy;
      GreedyRunPicks(files, first, picks[..k], existing, cover);
      assert SlotSets(files, picks)[..k] == SlotSets(files, picks[..k]);
      CoveredBySlotSets(files, picks[..k], existing);
      BestPickInSlots(files, first, picks[k], CoveredBy(files, picks[..k], existing), cover);
    }
  }

  /** If no candidate has two features in one slot, and the candidates `cover` have all missing slots,
      then a greedy run makes at most |cover| * H(number of missing slots) picks. */
  lemma GreedyRunBound(files: seq<FileInfo>, first: nat, picks: seq<nat>, existing: set<nat>,
                       cover: seq<nat>, missing: set<nat>)
    requires Below(picks, |files|) && GreedyRun(files, first, picks, existing)
    requires Candidates(picks, first, |files|) && Candidates(cover, first, |files|)
    requires forall j | first <= j < |files| :: DistinctSlots(files[j].features)
    requires forall j | first <= j < |files| :: SlotsOf(files[j].features) <= missing + existing
    requires missing !! existing && missing <= CoveredBy(files, cover, {})
    ensures WithinHarmonic(|picks|, |cover|, |missing|)
  {
    hide DistinctSlots, GreedyRun, WithinHarmonic, SlotsOf;
    GreedyRunPicks(files, first, picks, existing, cover);
    CoveredBySlotSets(files, cover, {});
    GreedyBound(SlotSets(files, picks), SlotSets(files, cover), existing, missing);
  }

  ghost function PickedFiles(files: seq<FileInfo>, picks: seq<nat>): seq<FileInfo>
    requires Below(picks, |files|)
  {
    seq(|picks|, i requires 0 <= i < |picks| => files[picks[i]])
  }

  /** No greedy choice of k candidates needs to be larger: `picks` against every cover of what was missing. */
  ghost predicate NearlyMinimal(files: seq<FileInfo>, first: nat, picks: seq<nat>, existing: set<nat>) {
    (forall j | first <= j < |files| :: DistinctSlots(files[j].features)) ==>
      forall cover: seq<nat> ::
        Candidates(cover, first, |files|) && CoversMissing(files, first, cover, existing) ==>
          WithinHarmonic(|picks|, |cover|, |CandidateSlots(files, first) - existing|)
  }

  ghost predicate CoversMissing(files: seq<FileInfo>, first: nat, cover: seq<nat>, existing: set<nat>) {
    Below(cover, |files|) && CandidateSlots(files, first) - existing <= CoveredBy(files, cover, {})
  }

  lemma GreedyIsNearlyMinimal(files: seq<FileInfo>, first: nat, picks: seq<nat>, existing: set<nat>)
    requires Below(picks, |files|) && GreedyRun(files, first, picks, existing)
    requires Candidates(picks, first, |files|)
    ensures NearlyMinimal(files, first, picks, existing)
  {
    if forall j | first <= j < |files| :: DistinctSlots(files[j].features) {
      var missing := CandidateSlots(files, first) - existing;
      forall j | first <= j < |files| ensures SlotsOf(files[j].features) <= missing + existing {
        assert SlotsOf(files[j].features) <= CandidateSlots(files, first);
      }
      forall cover: seq<nat> | Candidates(cover, first, |files|) && CoversMissing(files, first, cover, existing)
        ensures WithinHarmonic(|picks|, |cover|, |missing|)
      {
        GreedyRunBound(files, first, picks, existing, cover, missing);
      }
    }
  }

  lemma CandidateSlotsExtend(files: seq<FileInfo>, first: nat, i: nat)
    requires first <= i < |files|
    ensures CandidateSlots(files[..i + 1], first) == CandidateSlots(files[..i], first) + SlotsOf(files[i].features)
  {
    var a, b := files[..i], files[..i + 1];
    assert b[i] == files[i] && forall k | 0 <= k < i :: a[k] == b[k];
    forall s | s in CandidateSlots(a, first) ensures s in CandidateSlots(b, first) {
      var k :| first <= k < |a| && s in SlotsOf(a[k].features);
      assert s in SlotsOf(b[k].features);
    }
    forall s | s in SlotsOf(files[i].features) ensures s in CandidateSlots(b, first) {
      assert s in SlotsOf(b[i].features);
    }
  }

  /** While some slot is uncovered, some candidate has a feature to add. */
  lemma SomethingLeft(files: seq<FileInfo>, first: nat, covered: set<nat>, existing: set<nat>)
    requires existing <= covered <= existing + CandidateSlots(files, first)
    ensures |covered| <= |existing + CandidateSlots(files, first)|
    ensures |covered| < |existing + CandidateSlots(files, first)| ==>
              exists i :: first <= i < |files| && Uncovered(files[i].features, covered) > 0
  {
    var all := existing + CandidateSlots(files, first);
    SubsetSize(covered, all);
    if covered != all {
      var s :| s in all && s !in covered;
      var i :| first <= i < |files| && s in SlotsOf(files[i].features);
      UncoveredZero(files[i].features, covered);
    }
  }

  /** One more pick: the picked files and what they cover. */
  lemma PickOne(files: seq<FileInfo>, picks: seq<nat>, best: nat)
    requires Below(picks, |files|) && best < |files|
    ensures var f := files[best];
            && PickedFiles(files, picks + [best]) == PickedFiles(files, picks) + [f]
            && FeaturesOf(PickedFiles(files, picks + [best])) == FeaturesOf(PickedFiles(files, picks)) + Elements(f.features)
            && CovOf(PickedFiles(files, picks + [best])) == CovOf(PickedFiles(files, picks)) + Elements(f.cov)
            && (picks + [best])[..|picks|] == picks
  {
    FeaturesOfExtend(PickedFiles(files, picks), files[best]);
    assert PickedFiles(files, picks + [best]) == PickedFiles(files, picks) + [files[best]];
  }

  ghost predicate OwnSlot(files: seq<FileInfo>, first: nat, i: nat, s: nat, gained: set<nat>) {
    first <= i < |files| && s in SlotsOf(files[i].features) && s in gained
  }

  /** The picks are distinct, and each has a slot of its own among those gained. */
  ghost predicate OwnSlots(files: seq<FileInfo>, first: nat, picks: seq<nat>, own: seq<nat>, gained: set<nat>) {
    && |own| == |picks| && NoDuplicates(picks) && NoDuplicates(own)
    && forall k | 0 <= k < |picks| :: OwnSlot(files, first, picks[k], own[k], gained)
  }

  /** Each pick of a greedy run covers a slot that neither the base nor an earlier pick covers. */
  lemma {:induction false} PicksOwnSlots(files: seq<FileInfo>, first: nat, picks: seq<nat>, existing: set<nat>)
    returns (own: seq<nat>)
    requires Below(picks, |files|) && GreedyRun(files, first, picks, existing)
    ensures OwnSlots(files, first, picks, own, CoveredBy(files, picks, existing) - existing)
    decreases |picks|
  {
    if picks == [] {
      own := [];
    } else {
      var n := |picks| - 1;
      var before := PicksOwnSlots(files, first, picks[..n], existing);
      var s := LastPickOwns(files, first, picks, existing);
      CoveredGrows(files, picks[..n], existing);
      hide OwnSlots;
      ExtendOwnSlots(files, first, picks[..n], before, picks[n], s, CoveredBy(files, picks[..n], existing), existing);
      own := before + [s];
      assert picks[..n] + [picks[n]] == picks;
    }
  }

  lemma ExtendOwnSlots(files: seq<FileInfo>, first: nat, picks: seq<nat>, own: seq<nat>, p: nat, s: nat,
                       covered: set<nat>, existing: set<nat>)
    requires OwnSlots(files, first, picks, own, covered - existing) && Below(picks, |files|)
    requires forall k | 0 <= k < |picks| :: SlotsOf(files[picks[k]].features) <= covered
    requires first <= p < |files| && s in SlotsOf(files[p].features) && s !in covered && existing <= covered
    ensures OwnSlots(files, first, picks + [p], own + [s], covered + SlotsOf(files[p].features) - existing)
  {
    hide SlotsOf;
    var ps, os, gained := picks + [p], own + [s], covered + SlotsOf(files[p].features) - existing;
    forall k | 0 <= k < |picks| ensures picks[k] != p && own[k] != s && OwnSlot(files, first, ps[k], os[k], gained) {
      assert OwnSlot(files, first, picks[k], own[k], covered - existing);
      assert own[k] in covered;
    }
    assert OwnSlot(files, first, ps[|picks|], os[|picks|], gained);
  }

  lemma LastPickOwns(files: seq<FileInfo>, first: nat, picks: seq<nat>, existing: set<nat>) returns (s: nat)
    requires picks != [] && Below(picks, |files|) && GreedyRun(files, first, picks, existing)
    ensures var n := |picks| - 1;
            && first <= picks[n] && s in SlotsOf(files[picks[n]].features)
            && s !in CoveredBy(files, picks[..n], existing)
  {
    hide SlotsOf, CoveredBy;
    var n := |picks| - 1;
    var covered := CoveredBy(files, picks[..n], existing);
    UncoveredZero(files[picks[n]].features, covered);
    assert !(SlotsOf(files[picks[n]].features) <= covered);
    s :| s in SlotsOf(files[picks[n]].features) && s !in covered;
  }

  lemma {:induction false} CoveredGrows(files: seq<FileInfo>, picks: seq<nat>, existing: set<nat>)
    requires Below(picks, |files|)
    ensures existing <= CoveredBy(files, picks, existing)
    ensures forall k | 0 <= k < |picks| :: SlotsOf(files[picks[k]].features) <= CoveredBy(files, picks, existing)
    decreases |picks|
  {
    if picks != [] {
      CoveredGrows(files, picks[..|picks| - 1], existing);
    }
  }

  /** What the set cover reports about the files it picked. */
  ghost predicate Chosen(files: seq<FileInfo>, picks: seq<nat>, initialCov: set<nat>,
                         newFeatures: set<nat>, newCov: set<nat>, newFiles: seq<string>)
    requires Below(picks, |files|)
  {
    var picked := PickedFiles(files, picks);
    newFeatures <= FeaturesOf(picked) && newCov == CovOf(picked) - initialCov && newFiles == Names(picked)
  }

  /** Candidates outside `remaining` have nothing left to cover. */
  ghost predicate Exhausted(files: seq<FileInfo>, first: nat, remaining: set<nat>, covered: set<nat>) {
    forall i | first <= i < |files| && i !in remaining :: Uncovered(files[i].features, covered) == 0
  }

  lemma {:induction false} UncoveredShrinks(features: seq<nat>, a: set<nat>, b: set<nat>)
    requires a <= b
    ensures Uncovered(features, b) <= Uncovered(features, a)
  {
    if features != [] {
      UncoveredShrinks(features[..|features| - 1], a, b);
    }
  }

  ghost predicate InRange(indices: set<nat>, first: nat, n: nat) {
    forall i | i in indices :: first <= i < n
  }

  /** What weighing the file `i` leaves behind: it is exhausted, or not better than the best so far. */
  ghost predicate Weighed(files: seq<FileInfo>, i: nat, best: nat, most: nat, exhausted: set<nat>, c: set<nat>)
    requires i < |files| && (most > 0 ==> best < |files|)
  {
    var n := Uncovered(files[i].features, c);
    if n == 0 then i in exhausted
    else most > 0 && Beats(files, best, most, i, n)
  }

  ghost predicate ExhaustedOnly(files: seq<FileInfo>, exhausted: set<nat>, c: set<nat>) {
    forall i | i in exhausted :: i < |files| && Uncovered(files[i].features, c) == 0
  }

  lemma BestOfWeighed(files: seq<FileInfo>, first: nat, remaining: set<nat>, best: nat, most: nat,
                      exhausted: set<nat>, c: set<nat>)
    requires InRange(remaining, first, |files|) && Exhausted(files, first, remaining, c)
    requires most > 0 ==> best in remaining && Uncovered(files[best].features, c) == most
    requires forall i | i in remaining :: Weighed(files, i, best, most, exhausted, c)
    ensures most > 0 ==> BestPick(files, first, best, c)
    ensures most == 0 ==> forall i | first <= i < |files| :: Uncovered(files[i].features, c) == 0
  {
    forall j | first <= j < |files| && most > 0
      ensures Beats(files, best, most, j, Uncovered(files[j].features, c))
    {
      if j in remaining { assert Weighed(files, j, best, most, exhausted, c); }
    }
  }

  /** `picks` is a greedy run over the candidates that covers exactly `covered`. */
  ghost predicate Picked(files: seq<FileInfo>, first: nat, picks: seq<nat>, existing: set<nat>, covered: set<nat>) {
    && Below(picks, |files|) && Candidates(picks, first, |files|)
    && GreedyRun(files, first, picks, existing)
    && covered == CoveredBy(files, picks, existing)
  }

  /** The invariants of the set cover survive a best pick. */
  lemma AfterPick(files: seq<FileInfo>, first: nat, picks: seq<nat>, best: nat, remaining: set<nat>,
                  before: set<nat>, existing: set<nat>)
    requires Picked(files, first, picks, existing, before) && BestPick(files, first, best, before)
    requires forall i | first <= i < |files| && i !in remaining ::
               i == best || Uncovered(files[i].features, before) == 0
    ensures var after := before + SlotsOf(files[best].features);
            && Picked(files, first, picks + [best], existing, after)
            && Exhausted(files, first, remaining, after)
            && SlotsOf(files[best].features) <= CandidateSlots(files, first)
            && |before| < |after|
  {
    var after := before + SlotsOf(files[best].features);
    var p := picks + [best];
    assert p[..|p| - 1] == picks;
    forall i | first <= i < |files| && i !in remaining ensures Uncovered(files[i].features, after) == 0 {
      UncoveredShrinks(files[i].features, before, after);
      UncoveredZero(files[i].features, after);
    }
    assert forall s | s in SlotsOf(files[best].features) :: s in CandidateSlots(files, first);
    UncoveredZero(files[best].features, before);
    var s :| s in SlotsOf(files[best].features) && s !in before;
    assert s in after - before;
    assert after == before + (after - before);
  }

  lemma ChosenAfterPick(files: seq<FileInfo>, picks: seq<nat>, best: nat, initialCov: set<nat>,
                        newFeatures: set<nat>, newCov: set<nat>, newFiles: seq<string>)
    requires Below(picks, |files|) && best < |files|
    requires Chosen(files, picks, initialCov, newFeatures, newCov, newFiles)
    ensures var f := files[best];
            forall more: set<nat> | forall x | x in more :: x in newFeatures || x in f.features ::
              Chosen(files, picks + [best], initialCov, more, newCov + (Elements(f.cov) - initialCov), newFiles + [f.name])
  {
    PickOne(files, picks, best);
  }
}
