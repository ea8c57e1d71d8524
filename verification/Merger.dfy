/** `Merger`: parsing a control file, and the two merges. */
module Mergers {
  import opened Widths
  import opened Text
  import opened Collections
  import opened ControlFile
  import opened Selection
  import opened FeatureSlots

  datatype Outcome = Accepted | Rejected | Overran

  method InsertCandidate(f: FileInfo, files: seq<FileInfo>) returns (r: seq<FileInfo>)
    requires Ordered(files)
    ensures Ordered(r) && multiset(r) == multiset(files) + multiset{f}
  {
    var i := 0;
    while i < |files| && !Less(f, files[i])
      invariant i <= |files| && forall k | 0 <= k < i :: !Less(f, files[k])
    {
      i := i + 1;
    }
    r := files[..i] + [f] + files[i..];
    InsertedOrdered(f, files, i);
    InsertedPermutes(f, files, i);
  }

  lemma InsertedOrdered(f: FileInfo, files: seq<FileInfo>, i: nat)
    requires Ordered(files) && i <= |files| && (forall k | 0 <= k < i :: !Less(f, files[k]))
    requires i < |files| ==> Less(f, files[i])
    ensures Ordered(files[..i] + [f] + files[i..])
  {
    var r := files[..i] + [f] + files[i..];
    forall j, k | 0 <= j < k < |r| ensures !Less(r[k], r[j]) {
      var a, b := if j < i then r[j] == files[j] else j == i || r[j] == files[j - 1],
                  if k < i then r[k] == files[k] else k == i || r[k] == files[k - 1];
    }
  }

  lemma InsertedPermutes(f: FileInfo, files: seq<FileInfo>, i: nat)
    requires i <= |files|
    ensures multiset(files[..i] + [f] + files[i..]) == multiset(files) + multiset{f}
  {
    assert files == files[..i] + files[i..];
  }

  /** `std::sort` with the comparator of `Merge`; callers rely on nothing but the contract. */
  method SortCandidates(files: seq<FileInfo>) returns (r: seq<FileInfo>)
    ensures Ordered(r) && multiset(r) == multiset(files)
  {
    hide Ordered;
    r := [];
    assert Ordered(r) by { EmptyIsOrdered(); }
    for n := 0 to |files|
      invariant Ordered(r) && multiset(r) == multiset(files[..n])
    {
      assert files[..n + 1] == files[..n] + [files[n]];
      r := InsertCandidate(files[n], r);
    }
    assert files[..|files|] == files;
  }

  lemma EmptyIsOrdered()
    ensures Ordered([])
  {
  }

  /** Appends the program counters not in `pcs` yet, one insertion at a time. */
  method InsertPcs(ns: seq<nat>, pcs: set<nat>) returns (unseen: seq<nat>, pcs': set<nat>)
    ensures unseen == Unseen(ns, pcs) && pcs' == pcs + Elements(ns)
  {
    unseen, pcs' := [], pcs;
    for k := 0 to |ns|
      invariant pcs' == pcs + Elements(ns[..k])
      invariant unseen + Unseen(ns[k..], pcs') == Unseen(ns, pcs)
    {
      assert ns[k..][0] == ns[k] && ns[k..][1..] == ns[k + 1..];
      assert ns[..k + 1] == ns[..k] + [ns[k]];
      if ns[k] !in pcs' {
        pcs' := pcs' + {ns[k]};
        unseen := unseen + [ns[k]];
      }
    }
    assert ns[..|ns|] == ns && unseen == unseen + [];
  }

  /** One STARTED, FT or COV line. `LastSeenStartMarker` is always the file started last. */
  method ParseLine(l: string, before: Progress, parseCoverage: bool) returns (r: LineResult)
    requires before.started <= |before.files|
    ensures r == ApplyLine(l, before, parseCoverage)
  {
    var st := before;
    var line := SkipSpace(l);
    var marker := line[..WordLength(line)];
    if marker == "" { return Reject; }
    var x := ExtractNumber(line[|marker|..], U32);
    if !x.Number? { return Reject; }
    var n := x.value;
    if marker == "STARTED" {
      if st.started != n { return Reject; }
      if st.started >= |st.files| { return OutOfBounds; }
      st := st.(files := st.files[n := st.files[n].(size := ReadSize(x.rest, st.files[n].size))]);
      st := st.(started := st.started + 1, haveFt := false);
    } else if marker == "FT" {
      if n + 1 != st.started { return Reject; }
      st := st.(haveFt := true);
      if parseCoverage {
        var tmpFeatures := ReadNumbers(x.rest, U32);
        st := st.(files := st.files[n := st.files[n].(features := Sort(tmpFeatures))]);
      }
    } else if marker == "COV" {
      if n + 1 != st.started { return Reject; }
      if parseCoverage {
        var ns := ReadNumbers(x.rest, U32);
        var unseen, pcs := InsertPcs(ns, st.pcs);
        st := st.(files := st.files[n := st.files[n].(cov := st.files[n].cov + unseen)], pcs := pcs);
      }
    } else {
      return Reject;
    }
    return Continue(st);
  }

  /** One line per file into the names of `files`. */
  method ParseNames(input: string, before: seq<FileInfo>) returns (r: Option<(seq<FileInfo>, string)>)
    ensures r == ReadNames(input, before, 0)
  {
    var files, rest := before, input;
    for i := 0 to |files|
      invariant |files| == |before| && ReadNames(rest, files, i) == ReadNames(input, before, 0)
    {
      if rest == [] { return None; }
      files, rest := files[i := files[i].(name := Line(rest))], AfterLine(rest);
    }
    return Some((files, rest));
  }

  method ParseMarkers(input: string, before: Progress, parseCoverage: bool) returns (r: LineResult)
    requires before.started <= |before.files|
    ensures r == ApplyLines(input, before, parseCoverage)
  {
    var st, rest := before, input;
    while rest != []
      invariant st.started <= |st.files|
      invariant ApplyLines(rest, st, parseCoverage) == ApplyLines(input, before, parseCoverage)
      decreases |rest|
    {
      r := ParseLine(Line(rest), st, parseCoverage);
      if !r.Continue? { return; }
      st, rest := r.progress, AfterLine(rest);
    }
    return Continue(st);
  }

  /** Inserts one file's features; `found` says whether any was new. */
  method InsertFeatures(features: seq<nat>, all: set<nat>, new0: set<nat>)
    returns (all': set<nat>, new1: set<nat>, found: bool)
    ensures all' == all + Elements(features)
    ensures new1 == new0 + (Elements(features) - all)
    ensures found <==> exists x :: x in features && x !in all
  {
    all', new1, found := all, new0, false;
    for k := 0 to |features|
      invariant all' == all + Elements(features[..k])
      invariant new1 == new0 + (Elements(features[..k]) - all)
      invariant found <==> exists x :: x in features[..k] && x !in all
    {
      assert features[..k + 1] == features[..k] + [features[k]];
      if features[k] !in all' {
        all' := all' + {features[k]};
        new1 := new1 + {features[k]};
        found := true;
      }
    }
    assert features[..|features|] == features;
  }

  /** The greedy pass over candidates that `std::sort` has put in order. */
  method GreedyPass(sorted: seq<FileInfo>, known: set<nat>, initialCov: set<nat>)
    returns (newFeatures: set<nat>, newCov: set<nat>, newFiles: seq<string>)
    ensures newFeatures == FeaturesOf(sorted) - known
    ensures newCov == CovOf(sorted) - initialCov
    ensures newFiles == Names(Greedy(sorted, known))
  {
    var allFeatures := known;
    newFeatures, newCov, newFiles := {}, {}, [];
    for i := 0 to |sorted|
      invariant newFeatures == FeaturesOf(sorted[..i]) - known
      invariant allFeatures == known + FeaturesOf(sorted[..i])
      invariant newCov == CovOf(sorted[..i]) - initialCov
      invariant newFiles + Names(Greedy(sorted[i..], allFeatures)) == Names(Greedy(sorted, known))
    {
      var cur := sorted[i];
      assert sorted[i..][0] == cur && sorted[i..][1..] == sorted[i + 1..];
      FeaturesOfExtend(sorted[..i], cur);
      assert sorted[..i + 1] == sorted[..i] + [cur];
      GreedyNames(sorted[i..], allFeatures);
      ghost var before := allFeatures;
      var foundNewFeatures;
      allFeatures, newFeatures, foundNewFeatures := InsertFeatures(cur.features, allFeatures, newFeatures);
      if foundNewFeatures {
        newFiles := newFiles + [cur.name];
      } else {
        assert allFeatures == before;
      }
      newCov := newCov + (Elements(cur.cov) - initialCov);
    }
    assert sorted[..|sorted|] == sorted && sorted[0..] == sorted;
  }

  /** The bit vector `Covered` stands for the set `c` of slots. */
  ghost predicate Represents(covered: array<bool>, c: set<nat>)
    reads covered
  {
    && covered.Length == FEATURE_SET_SIZE
    && (forall s | 0 <= s < FEATURE_SET_SIZE :: covered[s] <==> s in c)
    && (forall s | s in c :: s < FEATURE_SET_SIZE)
  }

  method CountUncovered(features: seq<nat>, covered: array<bool>, ghost c: set<nat>) returns (n: nat)
    requires Represents(covered, c)
    ensures n == Uncovered(features, c)
  {
    n := 0;
    for k := 0 to |features|
      invariant n == Uncovered(features[..k], c)
    {
      UncoveredPrefix(features, k, c);
      if !covered[Slot(features[k])] { n := n + 1; }
    }
    assert features[..|features|] == features;
  }

  /** Compares one file with the best so far. */
  method WeighFile(files: seq<FileInfo>, i: nat, best: nat, most: nat, exhausted: set<nat>,
                   covered: array<bool>, ghost c: set<nat>)
    returns (best': nat, most': nat, exhausted': set<nat>)
    requires Represents(covered, c) && i < |files|
    requires most > 0 ==> best < |files| && best < i && Uncovered(files[best].features, c) == most
    requires ExhaustedOnly(files, exhausted, c)
    ensures exhausted' == exhausted || (exhausted' == exhausted + {i} && best' == best && most' == most)
    ensures (best' == best && most' == most) || best' == i
    ensures most' > 0 ==> best' < |files| && Uncovered(files[best'].features, c) == most'
    ensures ExhaustedOnly(files, exhausted', c)
    ensures Weighed(files, i, best', most', exhausted', c)
    ensures forall j | 0 <= j < |files| && Weighed(files, j, best, most, exhausted, c) ::
              Weighed(files, j, best', most', exhausted', c)
  {
    best', most', exhausted' := best, most, exhausted;
    var n := CountUncovered(files[i].features, covered, c);
    if n == 0 {
      exhausted' := exhausted + {i};
    } else if n > most || (n == most && files[i].size < files[best].size) {
      most', best' := n, i;
    }
  }

  lemma EarlierIsLess(order: seq<nat>, k: nat, x: nat)
    requires StrictlySorted(order) && k < |order|
    ensures x in order[..k] ==> x < order[k]
  {
  }

  /** Among the remaining files, one with most uncovered features, smallest first; and the exhausted ones. */
  method FindBest(files: seq<FileInfo>, first: nat, remaining: set<nat>, covered: array<bool>, ghost c: set<nat>)
    returns (best: nat, most: nat, exhausted: set<nat>)
    requires Represents(covered, c) && first <= |files|
    requires InRange(remaining, first, |files|)
    requires Exhausted(files, first, remaining, c)
    ensures exhausted <= remaining
    ensures forall i | i in remaining :: i in exhausted <==> Uncovered(files[i].features, c) == 0
    ensures most > 0 ==> best in remaining - exhausted && BestPick(files, first, best, c)
    ensures most == 0 ==> forall i | first <= i < |files| :: Uncovered(files[i].features, c) == 0
  {
    hide Represents, Exhausted, BestPick, Uncovered;
    best, most, exhausted := first, 0, {};
    var order := Ascending(remaining);
    assert forall p | 0 <= p < |order| :: order[p] in order;
    for k := 0 to |order|
      invariant exhausted <= remaining && ExhaustedOnly(files, exhausted, c)
      invariant most > 0 ==> best in remaining && Uncovered(files[best].features, c) == most
      invariant forall p | 0 <= p < k :: Weighed(files, order[p], best, most, exhausted, c)
      invariant most > 0 ==> best in order[..k]
    {
      assert most > 0 ==> best < order[k] by { EarlierIsLess(order, k, best); }
      best, most, exhausted := WeighFile(files, order[k], best, most, exhausted, covered, c);
    }
    forall i | i in remaining ensures Weighed(files, i, best, most, exhausted, c) {
      var p :| 0 <= p < |order| && order[p] == i;
    }
    BestOfWeighed(files, first, remaining, best, most, exhausted, c);
  }

  /** Marks one feature; `new0` are the features that brought in the slots of `c` beyond `base`. */
  method CoverFeature(f: nat, covered: array<bool>, new0: set<nat>, ghost c: set<nat>, ghost base: set<nat>)
    returns (gained: nat, new1: set<nat>)
    requires Represents(covered, c) && Tally(new0, c, base)
    modifies covered
    ensures Represents(covered, c + {Slot(f)}) && Tally(new1, c + {Slot(f)}, base)
    ensures |c + {Slot(f)}| == |c| + gained
    ensures new0 <= new1 <= new0 + {f}
  {
    if !covered[Slot(f)] {
      NewSlot(new0, f, c, base);
      covered[Slot(f)] := true;
      return 1, new0 + {f};
    } else {
      assert c + {Slot(f)} == c;
      return 0, new0;
    }
  }

  /** Only features of the list are added. */
  ghost predicate AddsOnly(before: set<nat>, after: set<nat>, features: seq<nat>) {
    before <= after && forall f | f in after :: f in before || f in features
  }

  lemma AddsOneMore(before: set<nat>, now: set<nat>, after: set<nat>, features: seq<nat>, k: nat)
    requires k < |features| && AddsOnly(before, now, features) && now <= after <= now + {features[k]}
    ensures AddsOnly(before, after, features)
  {
  }

  /** Marks the slots of one file. */
  method CoverFile(features: seq<nat>, covered: array<bool>, new0: set<nat>, ghost c: set<nat>, ghost base: set<nat>)
    returns (gained: nat, new1: set<nat>, ghost d: set<nat>)
    requires Represents(covered, c) && Tally(new0, c, base)
    modifies covered
    ensures d == c + SlotsOf(features) && Represents(covered, d) && Tally(new1, d, base)
    ensures |d| == |c| + gained
    ensures AddsOnly(new0, new1, features)
  {
    assert SlotsOf(features[..0]) == {};
    hide Represents, Tally, SlotsOf, Slot, Uncovered, AddsOnly;
    gained, new1, d := 0, new0, c;
    for k := 0 to |features|
      invariant d == c + SlotsOf(features[..k])
      invariant Represents(covered, d) && Tally(new1, d, base)
      invariant |d| == |c| + gained
      invariant AddsOnly(new0, new1, features)
    {
      UncoveredPrefix(features, k, {});
      var g;
      ghost var new' := new1;
      g, new1 := CoverFeature(features[k], covered, new1, d, base);
      AddsOneMore(new0, new', new1, features, k);
      gained := gained + g;
      d := d + {Slot(features[k])};
    }
    assert features[..|features|] == features;
  }

  method NewBitVector() returns (covered: array<bool>)
    ensures fresh(covered) && Represents(covered, {})
  {
    covered := new bool[FEATURE_SET_SIZE](_ => false);
  }

  method MarkSlot(s: nat, covered: array<bool>, ghost c: set<nat>) returns (gained: nat)
    requires Represents(covered, c) && s < FEATURE_SET_SIZE
    modifies covered
    ensures Represents(covered, c + {s}) && |c + {s}| == |c| + gained
  {
    if covered[s] {
      assert c + {s} == c;
      return 0;
    }
    covered[s] := true;
    return 1;
  }

  /** Covers the slots of the features already known. */
  method MarkExisting(existing: set<nat>, covered: array<bool>) returns (numCovered: nat, slots: set<nat>)
    requires Represents(covered, {})
    modifies covered
    ensures slots == SlotSet(existing) && Represents(covered, slots) && numCovered == |slots|
  {
    numCovered, slots := 0, {};
    var order := Ascending(existing);
    for k := 0 to |order|
      invariant Represents(covered, slots) && numCovered == |slots|
      invariant slots == SlotsOf(order[..k])
    {
      UncoveredPrefix(order, k, {});
      var gained := MarkSlot(Slot(order[k]), covered, slots);
      numCovered := numCovered + gained;
      slots := slots + {Slot(order[k])};
    }
    assert order[..|order|] == order;
    SlotsOfSet(existing, order);
  }

  /** The features of the first corpus, on top of the initial ones. */
  method CollectFeatures(files: seq<FileInfo>, initialFeatures: set<nat>) returns (all: set<nat>)
    ensures all == initialFeatures + FeaturesOf(files)
  {
    all := initialFeatures;
    for i := 0 to |files|
      invariant all == initialFeatures + FeaturesOf(files[..i])
    {
      FeaturesOfExtend(files[..i], files[i]);
      assert files[..i + 1] == files[..i] + [files[i]];
      all := all + Elements(files[i].features);
    }
    assert files[..|files|] == files;
  }

  /** The candidates' indices, and the slots to be covered in the end. */
  method CollectCandidates(files: seq<FileInfo>, first: nat, existing: set<nat>)
    returns (remaining: set<nat>, all: set<nat>)
    requires first <= |files|
    ensures forall i :: i in remaining <==> first <= i < |files|
    ensures all == existing + CandidateSlots(files, first)
  {
    remaining, all := {}, existing;
    for i := first to |files|
      invariant forall j :: j in remaining <==> first <= j < i
      invariant all == existing + CandidateSlots(files[..i], first)
    {
      remaining := remaining + {i};
      CandidateSlotsExtend(files, first, i);
      all := all + (set k | 0 <= k < |files[i].features| :: Slot(files[i].features[k]));
    }
    assert files[..|files|] == files;
  }

  lemma NothingPicked(files: seq<FileInfo>, first: nat, existing: set<nat>, initialCov: set<nat>)
    ensures Picked(files, first, [], existing, existing) && Tally({}, existing, existing)
    ensures Chosen(files, [], initialCov, {}, {}, [])
  {
  }

  /** The loop of the set cover: picks a best file until every slot is covered. */
  method CoverAll(files: seq<FileInfo>, first: nat, candidates: set<nat>, all: set<nat>, initialCov: set<nat>,
                  covered: array<bool>, numExisting: nat, ghost existing: set<nat>)
    returns (newFeatures: set<nat>, newCov: set<nat>, newFiles: seq<string>, ghost picks: seq<nat>)
    requires first <= |files| && forall i :: i in candidates <==> first <= i < |files|
    requires Represents(covered, existing) && numExisting == |existing|
    requires all == existing + CandidateSlots(files, first)
    modifies covered
    ensures Picked(files, first, picks, existing, all) && Tally(newFeatures, all, existing)
    ensures Chosen(files, picks, initialCov, newFeatures, newCov, newFiles)
  {
    newFeatures, newCov, newFiles, picks := {}, {}, [], [];
    NothingPicked(files, first, existing, initialCov);
    hide Represents, Chosen, Tally, GreedyRun, CoveredBy, BestPick, SlotsOf, Uncovered;
    var remaining, numCovered := candidates, numExisting;
    ghost var c := existing;
    while numCovered != |all|
      invariant Represents(covered, c) && numCovered == |c| && c <= all
      invariant Picked(files, first, picks, existing, c) && Tally(newFeatures, c, existing)
      invariant Chosen(files, picks, initialCov, newFeatures, newCov, newFiles)
      invariant InRange(remaining, first, |files|) && Exhausted(files, first, remaining, c)
      decreases |all| - numCovered
    {
      CoveredGrows(files, picks, existing);
      SomethingLeft(files, first, c, existing);
      var best, most, exhausted := FindBest(files, first, remaining, covered, c);
      remaining := remaining - exhausted;
      if most == 0 {
        assert false;
      }
      remaining := remaining - {best};
      AfterPick(files, first, picks, best, remaining, c, existing);
      ChosenAfterPick(files, picks, best, initialCov, newFeatures, newCov, newFiles);
      var gained;
      gained, newFeatures, c := CoverFile(files[best].features, covered, newFeatures, c, existing);
      numCovered := numCovered + gained;
      newFiles := newFiles + [files[best].name];
      newCov := newCov + (Elements(files[best].cov) - initialCov);
      picks := picks + [best];
    }
    SameSize(c, all);
  }

  class Merger {
    var files: seq<FileInfo>
    var numFilesInFirstCorpus: nat
    var firstNotProcessedFile: nat
    var lastFailure: string

    constructor ()
      ensures files == [] && numFilesInFirstCorpus == 0 && firstNotProcessedFile == 0 && lastFailure == ""
    {
      files, numFilesInFirstCorpus, firstNotProcessedFile, lastFailure := [], 0, 0, "";
    }

    method Parse(input: string, parseCoverage: bool) returns (outcome: Outcome)
      modifies this
      ensures match ParseText(old(files), input, parseCoverage)
              case Bad => outcome == Rejected
              case Overrun => outcome == Overran
              case Parsed(fs, first, next, last) =>
                && outcome == Accepted && files == fs && numFilesInFirstCorpus == first
                && firstNotProcessedFile == next && lastFailure == last
    {
      hide ReadNames, ApplyLines, ReadCount, Resize;
      lastFailure := "";
      if input == [] { return Rejected; }
      var numFiles := ReadCount(Line(input), 0);
      if numFiles == 0 || numFiles > MAX_FILES { return Rejected; }
      var rest := AfterLine(input);
      if rest == [] { return Rejected; }
      numFilesInFirstCorpus := ReadCount(Line(rest), numFiles + 1);
      if numFilesInFirstCorpus > numFiles { return Rejected; }
      rest := AfterLine(rest);

      var named := ParseNames(rest, Resize(files, numFiles));
      if named.None? { return Rejected; }
      var r := ParseMarkers(named.value.1, Progress(named.value.0, 0, true, {}), parseCoverage);
      if r.Reject? { return Rejected; }
      if r.OutOfBounds? { return Overran; }
      var st := r.progress;
      files := st.files;
      if !st.haveFt && st.started > 0 {
        lastFailure := files[st.started - 1].name;
      }
      firstNotProcessedFile := st.started;
      return Accepted;
    }

    /** Keeps the candidates that add features, smaller files first. */
    method Merge(initialFeatures: set<nat>, initialCov: set<nat>)
      returns (newFeatures: set<nat>, newCov: set<nat>, newFiles: seq<string>)
      requires numFilesInFirstCorpus <= |files|
      requires forall f | f in files :: Sorted(f.features)
      modifies this`files
      ensures var first := numFilesInFirstCorpus;
              var candidates := old(files)[first..];
              var known := initialFeatures + FeaturesOf(old(files)[..first]);
              && |files| == |old(files)| && files[..first] == old(files)[..first]
              && multiset(files[first..]) == multiset(Strip(candidates, known)) && Ordered(files[first..])
              && (forall i, j | first <= i < j < |files| ::
                    && files[i].size <= files[j].size
                    && (files[i].size == files[j].size ==> |files[i].features| >= |files[j].features|))
              && newFiles == Names(Greedy(files[first..], known))
              && newFeatures == FeaturesOf(candidates) - known
              && newCov == CovOf(candidates) - initialCov
              && (forall x | x in newFeatures :: BestKept(candidates, known, newFiles, x))
              && exists kept: seq<nat>, own: seq<nat> :: KeepsOwn(candidates, known, newFiles, kept, own)
    {
      hide Ordered, Greedy, BestKept, KeepsOwn, FeaturesOf, CovOf;
      var first := numFilesInFirstCorpus;
      var allFeatures := CollectFeatures(files[..first], initialFeatures);
      ghost var candidates := files[first..];
      for i := first to |files|
        invariant |files| == |old(files)| && files[..first] == old(files)[..first]
        invariant forall k | first <= k < i :: files[k] == StripFile(old(files)[k], allFeatures)
        invariant files[i..] == old(files)[i..]
      {
        files := files[i := files[i].(features := SetDifference(files[i].features, allFeatures))];
      }
      assert files[first..] == Strip(candidates, allFeatures);
      var sorted := SortCandidates(files[first..]);
      SameFiles(sorted, Strip(candidates, allFeatures));
      assert |sorted| == |multiset(sorted)| == |candidates|;
      StripKeepsNew(candidates, allFeatures);
      files := files[..first] + sorted;
      newFeatures, newCov, newFiles := GreedyPass(sorted, allFeatures, initialCov);
      assert files[first..] == sorted;
      GreedyKeepsOwn(candidates, sorted, allFeatures);
      forall x | x in newFeatures ensures BestKept(candidates, allFeatures, newFiles, x) {
        BestIsKept(candidates, sorted, allFeatures, x);
      }
      OrderedBySize(files, first);
    }

    /** Covers every feature slot of the candidates with few files, larger gains first. */
    method SetCoverMerge(initialFeatures: set<nat>, initialCov: set<nat>)
      returns (newFeatures: set<nat>, newCov: set<nat>, newFiles: seq<string>, ghost picks: seq<nat>)
      requires numFilesInFirstCorpus <= |files|
      ensures var first := numFilesInFirstCorpus;
              var existing := SlotSet(initialFeatures + FeaturesOf(files[..first]));
              && Picked(files, first, picks, existing, existing + CandidateSlots(files, first))
              && NearlyMinimal(files, first, picks, existing)
              && (forall k, j | 0 <= k < |picks| && first <= j < |files| ::
                    PickedRather(files, picks[k], j, CoveredBy(files, picks[..k], existing)))
              && Tally(newFeatures, existing + CandidateSlots(files, first), existing)
              && Chosen(files, picks, initialCov, newFeatures, newCov, newFiles)
    {
      var first := numFilesInFirstCorpus;
      var existingFeatures := CollectFeatures(files[..first], initialFeatures);
      var covered := NewBitVector();
      var numCovered, existing := MarkExisting(existingFeatures, covered);
      var remaining, all := CollectCandidates(files, first, existing);
      newFeatures, newCov, newFiles, picks :=
        CoverAll(files, first, remaining, all, initialCov, covered, numCovered, existing);
      GreedyIsNearlyMinimal(files, first, picks, existing);
      hide *;
      forall k, j | 0 <= k < |picks| && first <= j < |files|
        ensures PickedRather(files, picks[k], j, CoveredBy(files, picks[..k], existing))
      {
        RunHasNoChoice(files, first, picks, existing, k, j);
      }
    }
  }
}
