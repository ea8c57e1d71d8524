/** The crash-resistant merge: an outer process that relaunches an inner one, which may die at any
    call of the target, over an append-only control file.
 */
module CrashResistantMerge {
  import opened Widths
  import opened Text
  import opened Collections
  import opened ControlFile
  import opened Selection
  import opened SetCoverBound
  import opened FeatureSlots
  import opened Mergers

  /** What running the target on one input comes to. */
  datatype Run = Crash | Ran(features: seq<nat>, pcs: set<nat>)

  /** A file on disk: its length, and what the target does on its contents. */
  datatype Input = Input(size: nat, run: Run)

  type Disk = map<string, Input>

  /** The target reports 32-bit features and table indices, and sizes fit `size_t`. */
  ghost predicate SaneInput(input: Input) {
    input.size < U64 && (input.run.Ran? ==> Below(input.run.features, U32) && forall p | p in input.run.pcs :: p < U32)
  }

  ghost predicate SaneNames(names: seq<string>, disk: Disk) {
    forall i | 0 <= i < |names| :: OneLine(names[i]) && names[i] in disk && SaneInput(disk[names[i]])
  }

  // ----- the one-shot view: what the target does on each file

  ghost function RunFeatures(disk: Disk, name: string): set<nat> {
    if name in disk && disk[name].run.Ran? then Elements(disk[name].run.features) else {}
  }

  ghost function RunPcs(disk: Disk, name: string): set<nat> {
    if name in disk && disk[name].run.Ran? then disk[name].run.pcs else {}
  }

  /** The features of all files of a list that do not crash the target. */
  ghost function AllFeatures(disk: Disk, names: seq<string>): set<nat> {
    set i, f | 0 <= i < |names| && f in RunFeatures(disk, names[i]) :: f
  }

  ghost function AllPcs(disk: Disk, names: seq<string>): set<nat> {
    set i, p | 0 <= i < |names| && p in RunPcs(disk, names[i]) :: p
  }

  // ----- what the inner processes have recorded

  ghost function Out(r: Record): Coverage {
    if r.out.Some? then r.out.value else Coverage([], [])
  }

  ghost function RecordedFeatures(recs: seq<Record>): set<nat> {
    set i, f | 0 <= i < |recs| && f in Out(recs[i]).features :: f
  }

  ghost function RecordedPcs(recs: seq<Record>): set<nat> {
    set i, p | 0 <= i < |recs| && p in Out(recs[i]).pcs :: p
  }

  function Truncated(size: nat, maxLen: nat): (r: nat)
    ensures r <= size && r <= maxLen && (r == size || r == maxLen)
  {
    if size > maxLen then maxLen else size
  }

  /** One record tells the truth: nothing the target did not do, and nothing that is not told by now. */
  ghost predicate Truthful(disk: Disk, names: seq<string>, maxLen: nat, recs: seq<Record>, i: nat)
    requires i < |recs| <= |names|
  {
    && Writable(recs[i])
    && names[i] in disk && recs[i].size == Truncated(disk[names[i]].size, maxLen)
    && recs[i].out.None? == disk[names[i]].run.Crash?
    && Elements(Out(recs[i]).features) <= RunFeatures(disk, names[i]) <= RecordedFeatures(recs[..i + 1])
    && Elements(Out(recs[i]).pcs) <= AllPcs(disk, names[..i + 1])
    && RunPcs(disk, names[i]) <= RecordedPcs(recs[..i + 1])
  }

  /** A log that crashes and restarts can leave behind. */
  ghost predicate Faithful(disk: Disk, names: seq<string>, maxLen: nat, recs: seq<Record>) {
    && |recs| <= |names|
    && forall i | 0 <= i < |recs| :: Truthful(disk, names, maxLen, recs, i)
  }

  lemma TruthfulPrefix(disk: Disk, names: seq<string>, maxLen: nat, recs: seq<Record>, r: Record, i: nat)
    requires i < |recs| < |names| && Truthful(disk, names, maxLen, recs, i)
    ensures Truthful(disk, names, maxLen, recs + [r], i)
  {
    assert (recs + [r])[..i + 1] == recs[..i + 1];
  }

  /** Adding one truthful record. */
  lemma FaithfulExtend(disk: Disk, names: seq<string>, maxLen: nat, recs: seq<Record>, r: Record)
    requires Faithful(disk, names, maxLen, recs) && |recs| < |names|
    requires Truthful(disk, names, maxLen, recs + [r], |recs|)
    ensures Faithful(disk, names, maxLen, recs + [r])
  {
    forall i | 0 <= i < |recs| ensures Truthful(disk, names, maxLen, recs + [r], i) {
      TruthfulPrefix(disk, names, maxLen, recs, r, i);
    }
  }

  lemma RecordedFeaturesExtend(recs: seq<Record>, r: Record)
    ensures RecordedFeatures(recs + [r]) == RecordedFeatures(recs) + Elements(Out(r).features)
  {
    hide Out;
    var s, n := recs + [r], |recs|;
    forall f | f in RecordedFeatures(s) ensures f in RecordedFeatures(recs) + Elements(Out(r).features) {
      var i :| 0 <= i < |s| && f in Out(s[i]).features;
      assert s[i] == if i < n then recs[i] else r;
    }
    forall f | f in RecordedFeatures(recs) ensures f in RecordedFeatures(s) {
      var i :| 0 <= i < n && f in Out(recs[i]).features;
      assert s[i] == recs[i];
    }
    forall f | f in Out(r).features ensures f in RecordedFeatures(s) {
      assert s[n] == r;
    }
  }

  lemma RecordedPcsExtend(recs: seq<Record>, r: Record)
    ensures RecordedPcs(recs + [r]) == RecordedPcs(recs) + Elements(Out(r).pcs)
  {
    hide Out;
    var s, n := recs + [r], |recs|;
    forall p | p in RecordedPcs(s) ensures p in RecordedPcs(recs) + Elements(Out(r).pcs) {
      var i :| 0 <= i < |s| && p in Out(s[i]).pcs;
      assert s[i] == if i < n then recs[i] else r;
    }
    forall p | p in RecordedPcs(recs) ensures p in RecordedPcs(s) {
      var i :| 0 <= i < n && p in Out(recs[i]).pcs;
      assert s[i] == recs[i];
    }
    forall p | p in Out(r).pcs ensures p in RecordedPcs(s) {
      assert s[n] == r;
    }
  }

  lemma RecordedExtend(recs: seq<Record>, r: Record)
    ensures RecordedFeatures(recs + [r]) == RecordedFeatures(recs) + Elements(Out(r).features)
    ensures RecordedPcs(recs + [r]) == RecordedPcs(recs) + Elements(Out(r).pcs)
  {
    hide *;
    RecordedFeaturesExtend(recs, r);
    RecordedPcsExtend(recs, r);
  }

  lemma AllExtend(disk: Disk, names: seq<string>, k: nat)
    requires k < |names|
    ensures AllFeatures(disk, names[..k + 1]) == AllFeatures(disk, names[..k]) + RunFeatures(disk, names[k])
    ensures AllPcs(disk, names[..k + 1]) == AllPcs(disk, names[..k]) + RunPcs(disk, names[k])
  {
    var a, b := names[..k], names[..k + 1];
    assert b[k] == names[k] && forall i | 0 <= i < k :: a[i] == b[i];
    forall f | f in AllFeatures(disk, a) ensures f in AllFeatures(disk, b) {
      var i :| 0 <= i < k && f in RunFeatures(disk, a[i]);
      assert f in RunFeatures(disk, b[i]);
    }
    forall f | f in AllPcs(disk, a) ensures f in AllPcs(disk, b) {
      var i :| 0 <= i < k && f in RunPcs(disk, a[i]);
      assert f in RunPcs(disk, b[i]);
    }
    forall f | f in RunFeatures(disk, names[k]) ensures f in AllFeatures(disk, b) {
      assert f in RunFeatures(disk, b[k]);
    }
    forall f | f in RunPcs(disk, names[k]) ensures f in AllPcs(disk, b) {
      assert f in RunPcs(disk, b[k]);
    }
  }

  /** Whatever the crashes, the records of the first k files tell exactly what those files do. */
  lemma {:induction false} RecordsTellAll(disk: Disk, names: seq<string>, maxLen: nat, recs: seq<Record>, k: nat)
    requires Faithful(disk, names, maxLen, recs) && k <= |recs|
    ensures RecordedFeatures(recs[..k]) == AllFeatures(disk, names[..k])
    ensures RecordedPcs(recs[..k]) == AllPcs(disk, names[..k])
  {
    if k > 0 {
      RecordsTellAll(disk, names, maxLen, recs, k - 1);
      assert recs[..k] == recs[..k - 1] + [recs[k - 1]];
      RecordedExtend(recs[..k - 1], recs[k - 1]);
      AllExtend(disk, names, k - 1);
      assert Truthful(disk, names, maxLen, recs, k - 1);
    }
  }

  /** A record of everything the target does on a file, as the inner processes of a set cover write it. */
  ghost predicate WholeAt(disk: Disk, name: string, r: Record) {
    NoDuplicates(Out(r).features) && Elements(Out(r).features) == RunFeatures(disk, name)
  }

  ghost predicate Whole(disk: Disk, names: seq<string>, recs: seq<Record>) {
    |recs| <= |names| && forall i | 0 <= i < |recs| :: WholeAt(disk, names[i], recs[i])
  }

  // ----- the inner process

  ghost predicate ControlFileOf(text: string, names: seq<string>, inFirst: nat, recs: seq<Record>,
                                disk: Disk, maxLen: nat)
  {
    && inFirst <= |names| < U64 && SaneNames(names, disk) && maxLen < U64
    && Faithful(disk, names, maxLen, recs)
    && text == FileText(names, inFirst, recs)
  }

  lemma FaithfulIsWritable(disk: Disk, names: seq<string>, maxLen: nat, recs: seq<Record>)
    requires Faithful(disk, names, maxLen, recs)
    ensures WritableLog(recs)
  {
    forall i | 0 <= i < |recs| ensures Writable(recs[i]) {
      assert Truthful(disk, names, maxLen, recs, i);
    }
  }

  /** The inner process's view of one file: what it adds to its own feature set and to the log. */
  method CollectNew(features: seq<nat>, all: set<nat>, isSetCover: bool) returns (written: set<nat>, all': set<nat>)
    ensures written == if isSetCover then Elements(features) else Elements(features) - all
    ensures all' == if isSetCover then all else all + Elements(features)
  {
    written, all' := {}, all;
    for k := 0 to |features|
      invariant written == if isSetCover then Elements(features[..k]) else Elements(features[..k]) - all
      invariant all' == if isSetCover then all else all + Elements(features[..k])
    {
      assert features[..k + 1] == features[..k] + [features[k]];
      if isSetCover || features[k] !in all' {
        written := written + {features[k]};
      }
      if !isSetCover {
        all' := all' + {features[k]};
      }
    }
    assert features[..|features|] == features;
  }

  lemma LogExtend(names: seq<string>, inFirst: nat, recs: seq<Record>, r: Record)
    ensures FileText(names, inFirst, recs + [r]) == FileText(names, inFirst, recs) + RecordText(|recs|, r)
  {
    var s := recs + [r];
    assert s[..|s| - 1] == recs && s[|s| - 1] == r;
    Assoc(HeaderText(names, inFirst), LogText(recs), RecordText(|recs|, r));
  }

  /** What an inner process remembers, and forgets when it dies. */
  datatype Memory = Memory(all: set<nat>, observed: set<nat>, allPcs: set<nat>)

  ghost predicate Remembers(mem: Memory, disk: Disk, names: seq<string>, recs: seq<Record>) {
    && |recs| <= |names|
    && mem.all <= RecordedFeatures(recs)
    && mem.observed <= AllPcs(disk, names[..|recs|])
    && mem.allPcs <= RecordedPcs(recs)
  }

  /** A record of a completed run is truthful if the process's memory was. */
  lemma CompletedIsTruthful(disk: Disk, names: seq<string>, maxLen: nat, recs: seq<Record>, c: Coverage,
                            mem: Memory, all': set<nat>)
    requires Faithful(disk, names, maxLen, recs) && |recs| < |names| && maxLen < U64
    requires SaneNames(names, disk) && disk[names[|recs|]].run.Ran?
    requires Remembers(mem, disk, names, recs)
    requires var run := disk[names[|recs|]].run;
             && Elements(run.features) - mem.all <= Elements(c.features) <= Elements(run.features)
             && all' <= mem.all + Elements(run.features)
             && Elements(c.pcs) == (mem.observed + run.pcs) - mem.allPcs
    ensures var run := disk[names[|recs|]].run;
            var r := Record(Truncated(disk[names[|recs|]].size, maxLen), Some(c));
            && Faithful(disk, names, maxLen, recs + [r])
            && Remembers(Memory(all', mem.observed + run.pcs, mem.allPcs + (mem.observed + run.pcs)),
                         disk, names, recs + [r])
  {
    var k := |recs|;
    var input := disk[names[k]];
    var r := Record(Truncated(input.size, maxLen), Some(c));
    RecordedExtend(recs, r);
    AllExtend(disk, names, k);
    RecordsTellAll(disk, names, maxLen, recs, k);
    assert recs[..k] == recs && (recs + [r])[..k + 1] == recs + [r];
    assert SaneInput(input);
    forall i | 0 <= i < |c.features| ensures c.features[i] < U32 {
      assert c.features[i] in Elements(input.run.features);
    }
    forall i | 0 <= i < |c.pcs| ensures c.pcs[i] < U32 {
      assert c.pcs[i] in Elements(c.pcs);
      PcsAreSane(disk, names);
    }
    FaithfulExtend(disk, names, maxLen, recs, r);
  }

  lemma PcsAreSane(disk: Disk, names: seq<string>)
    requires SaneNames(names, disk)
    ensures forall k, p | 0 <= k <= |names| && p in AllPcs(disk, names[..k]) :: p < U32
  {
    forall k, p | 0 <= k <= |names| && p in AllPcs(disk, names[..k]) ensures p < U32 {
      var i :| 0 <= i < k && p in RunPcs(disk, names[..k][i]);
      assert SaneInput(disk[names[i]]);
    }
  }

  /** Before the target is called: the file is started, nothing else is known. */
  lemma StartedIsTruthful(disk: Disk, names: seq<string>, maxLen: nat, recs: seq<Record>)
    requires Faithful(disk, names, maxLen, recs) && |recs| < |names| && maxLen < U64
    requires SaneNames(names, disk) && disk[names[|recs|]].run.Crash?
    ensures Faithful(disk, names, maxLen, recs + [Record(Truncated(disk[names[|recs|]].size, maxLen), None)])
  {
    FaithfulExtend(disk, names, maxLen, recs, Record(Truncated(disk[names[|recs|]].size, maxLen), None));
  }

  /** One file: the pre-run marker, the target, and unless that crashes the coverage. */
  method RunFile(control: string, i: nat, input: Input, maxLen: nat, isSetCover: bool, mem: Memory,
                 ghost disk: Disk, ghost names: seq<string>, ghost inFirst: nat, ghost recs: seq<Record>)
    returns (text: string, ok: bool, mem': Memory, ghost r: Record)
    ensures ControlFileOf(control, names, inFirst, recs, disk, maxLen) && i == |recs| < |names|
            && names[i] in disk && input == disk[names[i]] && Remembers(mem, disk, names, recs) ==>
              && ControlFileOf(text, names, inFirst, recs + [r], disk, maxLen)
              && (ok ==> Remembers(mem', disk, names, recs + [r]))
    ensures ok == input.run.Ran? && (ok <==> r.out.Some?)
    ensures isSetCover && i < |names| && names[i] in disk && input == disk[names[i]] ==> WholeAt(disk, names[i], r)
    ensures r.size == Truncated(input.size, maxLen) && text == control + RecordText(i, r)
    ensures input.run.Ran? ==>
              && StrictlySorted(Out(r).features) && StrictlySorted(Out(r).pcs)
              && Elements(Out(r).features) == Elements(input.run.features) - (if isSetCover then {} else mem.all)
              && Elements(Out(r).pcs) == (mem.observed + input.run.pcs) - mem.allPcs
              && mem' == Memory(if isSetCover then mem.all else mem.all + Elements(input.run.features),
                                mem.observed + input.run.pcs, mem.allPcs + (mem.observed + input.run.pcs))
  {
    hide ControlFileOf, Remembers, MarkerText, CoverageText;
    var size := Truncated(input.size, maxLen);
    text, mem', ok := control + MarkerText("STARTED", i, [size]), mem, false;
    r := Record(size, None);
    ghost var known := ControlFileOf(control, names, inFirst, recs, disk, maxLen) && i == |recs| < |names|
                       && names[i] in disk && input == disk[names[i]] && Remembers(mem, disk, names, recs);
    if input.run.Crash? {
      if known { CrashLogged(control, names, inFirst, recs, disk, maxLen); }
      return;
    }
    var written, all := CollectNew(input.run.features, mem.all, isSetCover);
    var observed := mem.observed + input.run.pcs;
    var c := Coverage(Ascending(written), Ascending(observed - mem.allPcs));
    mem' := Memory(all, observed, mem.allPcs + observed);
    ok, r := true, Record(size, Some(c));
    AscendingElements(written);
    AscendingElements(observed - mem.allPcs);
    if known { CompletionLogged(control, names, inFirst, recs, disk, maxLen, c, mem, all); }
    Assoc(control, MarkerText("STARTED", i, [size]), CoverageText(i, c));
    text := text + CoverageText(i, c);
  }

  lemma AscendingElements(s: set<nat>)
    ensures Elements(Ascending(s)) == s && NoDuplicates(Ascending(s)) && StrictlySorted(Ascending(s))
  {
  }

  lemma CrashLogged(control: string, names: seq<string>, inFirst: nat, recs: seq<Record>, disk: Disk, maxLen: nat)
    requires ControlFileOf(control, names, inFirst, recs, disk, maxLen) && |recs| < |names|
    requires names[|recs|] in disk && disk[names[|recs|]].run.Crash?
    ensures var size := Truncated(disk[names[|recs|]].size, maxLen);
            ControlFileOf(control + MarkerText("STARTED", |recs|, [size]), names, inFirst, recs + [Record(size, None)], disk, maxLen)
  {
    hide Faithful;
    var r := Record(Truncated(disk[names[|recs|]].size, maxLen), None);
    StartedIsTruthful(disk, names, maxLen, recs);
    LogExtend(names, inFirst, recs, r);
    assert RecordText(|recs|, r) == MarkerText("STARTED", |recs|, [r.size]);
  }

  lemma CompletionLogged(control: string, names: seq<string>, inFirst: nat, recs: seq<Record>, disk: Disk, maxLen: nat,
                         c: Coverage, mem: Memory, all': set<nat>)
    requires ControlFileOf(control, names, inFirst, recs, disk, maxLen) && |recs| < |names|
    requires names[|recs|] in disk && disk[names[|recs|]].run.Ran? && Remembers(mem, disk, names, recs)
    requires var run := disk[names[|recs|]].run;
             && Elements(run.features) - mem.all <= Elements(c.features) <= Elements(run.features)
             && all' <= mem.all + Elements(run.features)
             && Elements(c.pcs) == (mem.observed + run.pcs) - mem.allPcs
    ensures var size := Truncated(disk[names[|recs|]].size, maxLen);
            var observed := mem.observed + disk[names[|recs|]].run.pcs;
            var recs' := recs + [Record(size, Some(c))];
            && ControlFileOf(control + MarkerText("STARTED", |recs|, [size]) + CoverageText(|recs|, c),
                             names, inFirst, recs', disk, maxLen)
            && Remembers(Memory(all', observed, mem.allPcs + observed), disk, names, recs')
  {
    hide Faithful, Remembers, MarkerText, CoverageText;
    var size := Truncated(disk[names[|recs|]].size, maxLen);
    CompletedIsTruthful(disk, names, maxLen, recs, c, mem, all');
    LogExtend(names, inFirst, recs, Record(size, Some(c)));
    Assoc(control, MarkerText("STARTED", |recs|, [size]), CoverageText(|recs|, c));
  }

  /** `CrashResistantMergeInternalStep`: resumes at the first file not started yet; `ok` is a zero exit code. */
  method InternalStep(control: string, disk: Disk, maxLen: nat, isSetCover: bool,
                      ghost names: seq<string>, ghost inFirst: nat, ghost recs: seq<Record>)
    returns (text: string, ok: bool, ghost recs': seq<Record>)
    ensures !ParseText([], control, false).Parsed? ==> !ok && text == control
    ensures ControlFileOf(control, names, inFirst, recs, disk, maxLen) ==>
              ControlFileOf(text, names, inFirst, recs', disk, maxLen) && recs <= recs'
    ensures ControlFileOf(control, names, inFirst, recs, disk, maxLen) && 0 < |names| <= MAX_FILES ==>
              Ended(disk, names, recs, recs', ok)
    ensures ControlFileOf(control, names, inFirst, recs, disk, maxLen) && isSetCover && Whole(disk, names, recs) ==>
              Whole(disk, names, recs')
    ensures ControlFileOf(control, names, inFirst, recs, disk, maxLen) ==>
              |recs'| <= |names| && WrittenFrom(disk, names, isSetCover, |recs|, recs')
  {
    hide ControlFileOf, NoneCrashes, Whole, Ended, ParseText, Lists, WrittenFrom;
    if ControlFileOf(control, names, inFirst, recs, disk, maxLen) {
      NoneWritten(control, names, inFirst, recs, disk, maxLen, isSetCover);
    }
    var m := new Merger();
    var outcome := m.Parse(control, false);
    RestartInRange(control);
    if ControlFileOf(control, names, inFirst, recs, disk, maxLen) {
      Resumes(control, names, inFirst, recs, disk, maxLen);
    }
    if outcome != Accepted { return control, false, recs; }
    text, ok, recs' := RunFiles(control, m.files, m.firstNotProcessedFile, disk, maxLen, isSetCover, names, inFirst, recs);
  }

  lemma RestartInRange(s: string)
    ensures var r := ParseText([], s, false); r.Parsed? ==> r.notProcessed <= |r.files|
  {
  }

  /** The loop of an inner process, from the first file not started. */
  method RunFiles(control: string, files: seq<FileInfo>, first: nat, disk: Disk, maxLen: nat, isSetCover: bool,
                  ghost names: seq<string>, ghost inFirst: nat, ghost recs: seq<Record>)
    returns (text: string, ok: bool, ghost recs': seq<Record>)
    requires first <= |files|
    ensures ControlFileOf(control, names, inFirst, recs, disk, maxLen) && first == |recs| && Lists(files, names, disk) ==>
              && ControlFileOf(text, names, inFirst, recs', disk, maxLen) && recs <= recs'
              && Ended(disk, names, recs, recs', ok)
              && (isSetCover && Whole(disk, names, recs) ==> Whole(disk, names, recs'))
              && |recs'| <= |names| && WrittenFrom(disk, names, isSetCover, |recs|, recs')
  {
    hide ControlFileOf, Remembers, NoneCrashes, Whole, WholeAt, WrittenFrom, Holds, Writes;
    text, recs' := control, recs;
    ghost var known := ControlFileOf(control, names, inFirst, recs, disk, maxLen) && first == |recs|
                       && Lists(files, names, disk);
    var mem := Memory({}, {}, {});
    if known {
      StartsBlank(disk, names, recs, inFirst, maxLen, control);
      NoneWritten(control, names, inFirst, recs, disk, maxLen, isSetCover);
    }
    for i := first to |files|
      invariant known ==> |files| == |names| && i == |recs'| && recs <= recs'
      invariant known ==> ControlFileOf(text, names, inFirst, recs', disk, maxLen)
      invariant known ==> Remembers(mem, disk, names, recs')
      invariant known ==> NoneCrashes(disk, names, |recs|, i)
      invariant known && isSetCover && Whole(disk, names, recs) ==> Whole(disk, names, recs')
      invariant known ==> WrittenFrom(disk, names, isSetCover, |recs|, recs')
      invariant known ==> Holds(mem, disk, names, isSetCover, |recs|, i)
    {
      ghost var mem0 := mem;
      if files[i].name !in disk { return text, false, recs'; }
      ghost var r;
      text, ok, mem, r := RunFile(text, i, disk[files[i].name], maxLen, isSetCover, mem, disk, names, inFirst, recs');
      if known {
        assert files[i].name == names[i];
        NextFile(disk, names, |recs|, i);
        if isSetCover && Whole(disk, names, recs') { NextWhole(disk, names, recs', r); }
        NextWrites(disk, names, isSetCover, |recs|, i, mem0, mem, r);
        NextWritten(disk, names, isSetCover, |recs|, recs', r);
      }
      recs' := recs' + [r];
      if !ok { return text, false, recs'; }
    }
    return text, true, recs';
  }

  /** What a process that has started at file `from` writes about file i: the features and PCs that it has not seen yet
      (in a set cover all features), each once and in ascending order. */
  ghost predicate Writes(disk: Disk, names: seq<string>, isSetCover: bool, from: nat, i: nat, r: Record)
    requires from <= i < |names|
  {
    r.out.Some? ==>
      && StrictlySorted(r.out.value.features) && StrictlySorted(r.out.value.pcs)
      && Elements(r.out.value.features)
         == RunFeatures(disk, names[i]) - (if isSetCover then {} else AllFeatures(disk, names[from..i]))
      && Elements(r.out.value.pcs) == RunPcs(disk, names[i]) - AllPcs(disk, names[from..i])
  }

  ghost predicate WrittenFrom(disk: Disk, names: seq<string>, isSetCover: bool, from: nat, recs: seq<Record>)
    requires |recs| <= |names|
  {
    forall i | from <= i < |recs| :: Writes(disk, names, isSetCover, from, i, recs[i])
  }

  /** What a process that has started at file `from` has in mind before file i. */
  ghost predicate Holds(mem: Memory, disk: Disk, names: seq<string>, isSetCover: bool, from: nat, i: nat)
    requires from <= i <= |names|
  {
    && mem.all == (if isSetCover then {} else AllFeatures(disk, names[from..i]))
    && mem.observed == mem.allPcs == AllPcs(disk, names[from..i])
  }

  lemma NoneWritten(control: string, names: seq<string>, inFirst: nat, recs: seq<Record>, disk: Disk, maxLen: nat,
                    isSetCover: bool)
    requires ControlFileOf(control, names, inFirst, recs, disk, maxLen)
    ensures |recs| <= |names| && WrittenFrom(disk, names, isSetCover, |recs|, recs)
    ensures Holds(Memory({}, {}, {}), disk, names, isSetCover, |recs|, |recs|)
  {
    assert names[|recs|..|recs|] == [];
  }

  lemma NextWrites(disk: Disk, names: seq<string>, isSetCover: bool, from: nat, i: nat, mem: Memory, mem': Memory, r: Record)
    requires from <= i < |names| && names[i] in disk && Holds(mem, disk, names, isSetCover, from, i)
    requires r.out.Some? == disk[names[i]].run.Ran?
    requires var run := disk[names[i]].run;
             run.Ran? ==>
               && StrictlySorted(Out(r).features) && StrictlySorted(Out(r).pcs)
               && Elements(Out(r).features) == Elements(run.features) - (if isSetCover then {} else mem.all)
               && Elements(Out(r).pcs) == (mem.observed + run.pcs) - mem.allPcs
               && mem' == Memory(if isSetCover then mem.all else mem.all + Elements(run.features),
                                 mem.observed + run.pcs, mem.allPcs + (mem.observed + run.pcs))
    ensures Writes(disk, names, isSetCover, from, i, r)
    ensures r.out.Some? ==> Holds(mem', disk, names, isSetCover, from, i + 1)
  {
    hide AllFeatures, AllPcs;
    RangeExtend(disk, names, from, i);
  }

  lemma NextWritten(disk: Disk, names: seq<string>, isSetCover: bool, from: nat, recs: seq<Record>, r: Record)
    requires |recs| < |names| && WrittenFrom(disk, names, isSetCover, from, recs)
    requires from <= |recs| && Writes(disk, names, isSetCover, from, |recs|, r)
    ensures WrittenFrom(disk, names, isSetCover, from, recs + [r])
  {
    hide Writes;
  }

  lemma NextFile(disk: Disk, names: seq<string>, from: nat, i: nat)
    requires NoneCrashes(disk, names, from, i) && from <= i < |names| && names[i] in disk
    ensures disk[names[i]].run.Ran? ==> NoneCrashes(disk, names, from, i + 1)
    ensures disk[names[i]].run.Crash? ==> !NoneCrashes(disk, names, from, |names|)
  {
  }

  lemma NextWhole(disk: Disk, names: seq<string>, recs: seq<Record>, r: Record)
    requires Whole(disk, names, recs) && |recs| < |names| && WholeAt(disk, names[|recs|], r)
    ensures Whole(disk, names, recs + [r])
  {
    hide WholeAt;
  }

  /** The parsed files are those on disk, in order. */
  ghost predicate Lists(files: seq<FileInfo>, names: seq<string>, disk: Disk) {
    |files| == |names| && forall k | 0 <= k < |files| :: files[k].name == names[k] && names[k] in disk
  }

  /** An inner process succeeds iff no file left crashes the target, and has then recorded them all; a failing one has
      recorded those up to the first that crashes, and started that one. */
  ghost predicate Ended(disk: Disk, names: seq<string>, recs: seq<Record>, recs': seq<Record>, ok: bool) {
    && (ok <==> NoneCrashes(disk, names, |recs|, |names|))
    && if ok then |recs'| == |names| else
         |recs| < |recs'| && NoneCrashes(disk, names, |recs|, |recs'| - 1) && recs'[|recs'| - 1].out.None?
  }

  /** The files of [from, to) do not crash the target. */
  ghost predicate NoneCrashes(disk: Disk, names: seq<string>, from: nat, to: nat) {
    forall k | from <= k < to && k < |names| && names[k] in disk :: disk[names[k]].run.Ran?
  }

  lemma StartsBlank(disk: Disk, names: seq<string>, recs: seq<Record>, inFirst: nat, maxLen: nat, control: string)
    requires ControlFileOf(control, names, inFirst, recs, disk, maxLen)
    ensures Remembers(Memory({}, {}, {}), disk, names, recs) && NoneCrashes(disk, names, |recs|, |recs|)
  {
  }

  /** What the inner process finds in a control file left by earlier ones. */
  lemma Resumes(control: string, names: seq<string>, inFirst: nat, recs: seq<Record>, disk: Disk, maxLen: nat)
    requires ControlFileOf(control, names, inFirst, recs, disk, maxLen)
    ensures var r := ParseText([], control, false);
            if 0 < |names| <= MAX_FILES then
              r.Parsed? && r.notProcessed == |recs| && Lists(r.files, names, disk)
            else r == Bad
  {
    FaithfulIsWritable(disk, names, maxLen, recs);
    ParseWritten(names, inFirst, recs, false);
    NamesKept(names, recs, false);
  }

  // ----- the outer process

  lemma {:induction false} UnseenElements(ns: seq<nat>, pcs: set<nat>)
    ensures Elements(Unseen(ns, pcs)) == Elements(ns) - pcs
  {
    if ns != [] {
      var t := ns[1..];
      assert ns == [ns[0]] + t;
      ElementsCons(ns[0], t);
      if ns[0] in pcs {
        UnseenElements(t, pcs);
      } else {
        UnseenElements(t, pcs + {ns[0]});
        ElementsCons(ns[0], Unseen(t, pcs + {ns[0]}));
      }
    }
  }

  lemma ElementsCons(x: nat, s: seq<nat>)
    ensures Elements([x] + s) == {x} + Elements(s)
  {
    assert forall y :: y in [x] + s <==> y == x || y in s;
  }

  /** What the parsed entry of file `j` has to do with its record. */
  ghost predicate Tells(f: FileInfo, name: string, recs: seq<Record>, j: nat)
    requires j < |recs|
  {
    && f.name == name && f.size == recs[j].size && Sorted(f.features)
    && multiset(f.features) == multiset(Out(recs[j]).features)
    && Elements(f.features) == Elements(Out(recs[j]).features)
    && Elements(f.cov) == Elements(Out(recs[j]).pcs) - RecordedPcs(recs[..j])
  }

  lemma RecordedTells(st: Progress, r: Record, name: string, recs: seq<Record>)
    requires st.started == |recs| < |st.files| && st.pcs == RecordedPcs(recs)
    requires st.files[st.started] == BLANK.(name := name)
    ensures Tells(Recorded(st, r, true).files[st.started], name, recs + [r], |recs|)
    ensures Recorded(st, r, true).pcs == RecordedPcs(recs + [r])
  {
    hide Sort, Unseen, RecordedPcs;
    RecordedExtend(recs, r);
    assert (recs + [r])[..|recs|] == recs;
    var c := Out(r);
    UnseenElements(c.pcs, st.pcs);
    SameElements(c.features, Sort(c.features));
    assert BLANK.cov + Unseen(c.pcs, st.pcs) == Unseen(c.pcs, st.pcs);
  }

  lemma TellsLater(f: FileInfo, name: string, recs: seq<Record>, r: Record, j: nat)
    requires j < |recs| && Tells(f, name, recs, j)
    ensures Tells(f, name, recs + [r], j)
  {
    assert (recs + [r])[..j] == recs[..j];
  }

  lemma {:induction false} MeaningTells(names: seq<string>, recs: seq<Record>)
    requires |recs| <= |names|
    ensures var st := Meaning(names, recs, true);
            && st.pcs == RecordedPcs(recs)
            && (forall j | 0 <= j < |recs| :: Tells(st.files[j], names[j], recs, j))
            && (forall j | |recs| <= j < |names| :: st.files[j] == BLANK.(name := names[j]))
    decreases |recs|
  {
    hide Tells;
    if recs == [] {
      assert RecordedPcs(recs) == {};
    } else {
      var k := |recs| - 1;
      var before := recs[..k];
      MeaningTells(names, before);
      assert recs == before + [recs[k]];
      var st := Meaning(names, before, true);
      RecordedTells(st, recs[k], names[k], before);
      forall j | 0 <= j < k ensures Tells(Meaning(names, recs, true).files[j], names[j], recs, j) {
        TellsLater(st.files[j], names[j], before, recs[k], j);
      }
    }
  }

  // ----- what parsed files tell about the files on disk

  /** Where the log starts that tells of file `j`: files from `split` on are told by a log of their own. */
  function Base(split: nat, j: nat): (b: nat)
    ensures b <= j
  {
    if j < split then 0 else split
  }

  /** A parsed file: its record told nothing the target did not do, and the PCs that no file of its log from `from`
      on showed before. */
  ghost predicate TellsFile(f: FileInfo, disk: Disk, names: seq<string>, maxLen: nat, from: nat, j: nat)
    requires from <= j < |names|
  {
    && f.name == names[j] && f.size == SizeOf(disk, names[j], maxLen) && Sorted(f.features)
    && Elements(f.features) <= RunFeatures(disk, names[j])
    && Elements(f.cov) == RunPcs(disk, names[j]) - AllPcs(disk, names[from..j])
  }

  ghost predicate ToldBy(files: seq<FileInfo>, from: nat, j: nat, x: nat) {
    exists m :: from <= m <= j && m < |files| && x in files[m].features
  }

  /** The files of complete logs: one for the files before `split`, one for the others. */
  ghost predicate Told(files: seq<FileInfo>, disk: Disk, names: seq<string>, maxLen: nat, split: nat) {
    && |files| == |names| && split <= |names|
    && (forall j | 0 <= j < |names| :: TellsFile(files[j], disk, names, maxLen, Base(split, j), j))
    && (forall j, x | 0 <= j < |names| && x in RunFeatures(disk, names[j]) :: ToldBy(files, Base(split, j), j, x))
  }

  lemma FileIsTold(disk: Disk, names: seq<string>, maxLen: nat, recs: seq<Record>, f: FileInfo, j: nat)
    requires Faithful(disk, names, maxLen, recs) && j < |recs| && Tells(f, names[j], recs, j)
    ensures TellsFile(f, disk, names, maxLen, 0, j)
  {
    assert Truthful(disk, names, maxLen, recs, j);
    FirstRecorded(disk, names, maxLen, recs, j);
    assert names[0..j] == names[..j];
    hide AllPcs, RecordedPcs, RunFeatures, RecordedFeatures, RunPcs;
  }

  lemma FeatureIsTold(disk: Disk, names: seq<string>, maxLen: nat, recs: seq<Record>, files: seq<FileInfo>, j: nat, x: nat)
    requires Faithful(disk, names, maxLen, recs) && j < |recs| <= |files|
    requires forall k | 0 <= k < |recs| :: Tells(files[k], names[k], recs, k)
    requires x in RunFeatures(disk, names[j])
    ensures ToldBy(files, 0, j, x)
  {
    hide AllPcs, RecordedPcs, RunFeatures, RunPcs;
    assert Truthful(disk, names, maxLen, recs, j);
    var m :| 0 <= m < j + 1 && x in Out(recs[..j + 1][m]).features;
    assert recs[..j + 1][m] == recs[m] && Tells(files[m], names[m], recs, m);
    assert x in Elements(files[m].features);
  }

  /** A complete log, read back, tells what the files do, crashes and restarts notwithstanding. */
  lemma CompleteLog(disk: Disk, names: seq<string>, maxLen: nat, recs: seq<Record>)
    requires Faithful(disk, names, maxLen, recs) && |recs| == |names|
    ensures Told(Meaning(names, recs, true).files, disk, names, maxLen, |names|)
  {
    hide Faithful, Tells, TellsFile, RunFeatures, ToldBy;
    var files := Meaning(names, recs, true).files;
    MeaningTells(names, recs);
    forall j | 0 <= j < |names| ensures TellsFile(files[j], disk, names, maxLen, Base(|names|, j), j) {
      FileIsTold(disk, names, maxLen, recs, files[j], j);
    }
    forall j, x | 0 <= j < |names| && x in RunFeatures(disk, names[j]) ensures ToldBy(files, Base(|names|, j), j, x) {
      FeatureIsTold(disk, names, maxLen, recs, files, j, x);
    }
  }

  /** Two complete logs, one after the other. */
  lemma TwoLogs(a: seq<FileInfo>, b: seq<FileInfo>, disk: Disk, names: seq<string>, more: seq<string>, maxLen: nat)
    requires Told(a, disk, names, maxLen, |names|) && Told(b, disk, more, maxLen, |more|)
    ensures Told(a + b, disk, names + more, maxLen, |names|)
  {
    hide RunFeatures, AllPcs, RunPcs;
    var files, both, n := a + b, names + more, |names|;
    forall j | 0 <= j < |both| ensures TellsFile(files[j], disk, both, maxLen, Base(n, j), j) {
      if j < n {
        assert TellsFile(a[j], disk, names, maxLen, 0, j);
        assert both[0..j] == names[0..j];
      } else {
        assert TellsFile(b[j - n], disk, more, maxLen, 0, j - n);
        assert both[n..j] == more[0..j - n];
      }
    }
    forall j, x | 0 <= j < |both| && x in RunFeatures(disk, both[j]) ensures ToldBy(files, Base(n, j), j, x) {
      if j < n {
        assert ToldBy(a, Base(n, j), j, x);
        var m :| 0 <= m <= j && m < |a| && x in a[m].features;
        assert files[m] == a[m];
      } else {
        assert ToldBy(b, Base(|more|, j - n), j - n, x);
        var m :| 0 <= m <= j - n && m < |b| && x in b[m].features;
        assert files[n + m] == b[m];
      }
    }
  }

  lemma ToldFile(files: seq<FileInfo>, disk: Disk, names: seq<string>, maxLen: nat, split: nat, j: nat)
    requires Told(files, disk, names, maxLen, split) && j < |names|
    ensures TellsFile(files[j], disk, names, maxLen, Base(split, j), j)
  {
  }

  /** The first k files have the features that they show on disk. */
  lemma FilesTell(files: seq<FileInfo>, disk: Disk, names: seq<string>, maxLen: nat, split: nat, k: nat)
    requires Told(files, disk, names, maxLen, split) && k <= |names|
    ensures FeaturesOf(files[..k]) == AllFeatures(disk, names[..k])
  {
    hide RunFeatures, RunPcs, AllPcs;
    var a, b := files[..k], names[..k];
    forall x | x in FeaturesOf(a) ensures x in AllFeatures(disk, b) {
      var i :| 0 <= i < k && x in a[i].features;
      ToldFile(files, disk, names, maxLen, split, i);
      assert x in Elements(files[i].features) && b[i] == names[i];
    }
    forall x | x in AllFeatures(disk, b) ensures x in FeaturesOf(a) {
      var j :| 0 <= j < k && x in RunFeatures(disk, b[j]);
      assert b[j] == names[j];
      assert ToldBy(files, Base(split, j), j, x);
      var m :| Base(split, j) <= m <= j && m < |files| && x in files[m].features;
      assert a[m] == files[m];
    }
  }

  lemma SplitFeatures(files: seq<FileInfo>, k: nat)
    requires k <= |files|
    ensures FeaturesOf(files) == FeaturesOf(files[..k]) + FeaturesOf(files[k..])
    ensures CovOf(files) == CovOf(files[..k]) + CovOf(files[k..])
  {
    var a, b := files[..k], files[k..];
    assert files == a + b;
    forall i, f | 0 <= i < |files| && f in files[i].features ensures f in FeaturesOf(a) + FeaturesOf(b) {
      if i < k { assert f in a[i].features; } else { assert f in b[i - k].features; }
    }
    forall i, f | 0 <= i < |b| && f in b[i].features ensures f in FeaturesOf(files) {
      assert f in files[k + i].features;
    }
    forall i, f | 0 <= i < |files| && f in files[i].cov ensures f in CovOf(a) + CovOf(b) {
      if i < k { assert f in a[i].cov; } else { assert f in b[i - k].cov; }
    }
    forall i, f | 0 <= i < |b| && f in b[i].cov ensures f in CovOf(files) {
      assert f in files[k + i].cov;
    }
  }

  /** Files of one log: together they have the PCs that no file before the range showed. */
  lemma {:induction false} RangeCov(files: seq<FileInfo>, disk: Disk, names: seq<string>, maxLen: nat, from: nat, lo: nat, hi: nat)
    requires from <= lo <= hi <= |names| == |files|
    requires forall j | lo <= j < hi :: TellsFile(files[j], disk, names, maxLen, from, j)
    ensures CovOf(files[lo..hi]) == AllPcs(disk, names[from..hi]) - AllPcs(disk, names[from..lo])
    ensures AllPcs(disk, names[from..lo]) <= AllPcs(disk, names[from..hi])
    decreases hi
  {
    if lo == hi {
      assert CovOf(files[lo..hi]) == {};
    } else {
      var k := hi - 1;
      RangeCov(files, disk, names, maxLen, from, lo, k);
      assert TellsFile(files[k], disk, names, maxLen, from, k);
      assert files[lo..hi] == files[lo..k] + [files[k]];
      FeaturesOfExtend(files[lo..k], files[k]);
      hide *;
      RangeExtend(disk, names, from, k);
    }
  }

  lemma RangeExtend(disk: Disk, names: seq<string>, from: nat, k: nat)
    requires from <= k < |names|
    ensures AllFeatures(disk, names[from..k + 1]) == AllFeatures(disk, names[from..k]) + RunFeatures(disk, names[k])
    ensures AllPcs(disk, names[from..k + 1]) == AllPcs(disk, names[from..k]) + RunPcs(disk, names[k])
  {
    hide *;
    var own := names[from..];
    AllExtend(disk, own, k - from);
    assert own[..k - from] == names[from..k] && own[..k + 1 - from] == names[from..k + 1] && own[k - from] == names[k];
  }

  /** The coverage told of the candidates: what the old files show counts as covered for the files of their log only. */
  ghost function NewPcs(disk: Disk, names: seq<string>, first: nat, split: nat): set<nat>
    requires first <= split <= |names|
  {
    AllPcs(disk, names[..split]) - AllPcs(disk, names[..first]) + AllPcs(disk, names[split..])
  }

  lemma CandidatesCov(files: seq<FileInfo>, disk: Disk, names: seq<string>, maxLen: nat, first: nat, split: nat)
    requires Told(files, disk, names, maxLen, split) && first <= split
    ensures CovOf(files[first..]) == NewPcs(disk, names, first, split)
  {
    hide TellsFile, ToldBy, AllPcs, RunFeatures, CovOf;
    forall j | 0 <= j < |names| ensures TellsFile(files[j], disk, names, maxLen, Base(split, j), j) {
      ToldFile(files, disk, names, maxLen, split, j);
    }
    RangeCov(files, disk, names, maxLen, 0, first, split);
    RangeCov(files, disk, names, maxLen, split, split, |names|);
    SplitFeatures(files[first..], split - first);
    assert files[first..][..split - first] == files[first..split] && files[first..][split - first..] == files[split..|names|];
    assert names[0..first] == names[..first] && names[0..split] == names[..split] && names[split..|names|] == names[split..];
    assert names[split..split] == [];
    NoPcs(disk);
  }

  lemma NoPcs(disk: Disk)
    ensures AllPcs(disk, []) == {}
  {
  }

  /** What the files tell of the first corpus, of the candidates and of all. */
  lemma CorporaTell(files: seq<FileInfo>, disk: Disk, names: seq<string>, maxLen: nat, first: nat, split: nat)
    requires Told(files, disk, names, maxLen, split) && first <= |names|
    ensures FeaturesOf(files[..first]) == AllFeatures(disk, names[..first])
    ensures FeaturesOf(files) == AllFeatures(disk, names)
    ensures FeaturesOf(files) == FeaturesOf(files[..first]) + FeaturesOf(files[first..])
    ensures AllFeatures(disk, names) == AllFeatures(disk, names[..first]) + AllFeatures(disk, names[first..])
  {
    hide Told, FeaturesOf, AllFeatures;
    ToldLength(files, disk, names, maxLen, split);
    SplitFeatures(files, first);
    SplitAll(disk, names, first);
    FilesTell(files, disk, names, maxLen, split, first);
    FilesTell(files, disk, names, maxLen, split, |names|);
    assert files[..|names|] == files && names[..|names|] == names;
  }

  lemma ToldLength(files: seq<FileInfo>, disk: Disk, names: seq<string>, maxLen: nat, split: nat)
    requires Told(files, disk, names, maxLen, split)
    ensures |files| == |names| && split <= |names| && forall f | f in files :: Sorted(f.features)
  {
    hide RunFeatures, AllPcs, RunPcs;
    forall f | f in files ensures Sorted(f.features) {
      var j :| 0 <= j < |files| && files[j] == f;
      ToldFile(files, disk, names, maxLen, split, j);
    }
  }

  datatype Result =
    | NothingToMerge
    | AlreadyMerged    // exit code 0: the control file given is complete
    | Failed           // exit code 1: the control file cannot be parsed
    | Undefined        // the control file given indexes a vector out of range
    | Merged(newFeatures: set<nat>, newCov: set<nat>, newFiles: seq<string>)

  /** The control file given is unusable, and a fresh one starts the merge of both corpora. */
  ghost predicate Starts(control: string, oldCorpus: seq<string>, newCorpus: seq<string>, disk: Disk, maxLen: nat,
                         names: seq<string>, inFirst: nat, recs: seq<Record>)
  {
    && (control == "" || ParseText([], control, true) == Bad)
    && names == oldCorpus + newCorpus && inFirst == |oldCorpus| && recs == []
    && ControlFileOf(FileText(names, inFirst, recs), names, inFirst, recs, disk, maxLen)
  }

  /** The control file given was left by a merge that did not finish. */
  ghost predicate Continues(control: string, disk: Disk, maxLen: nat, names: seq<string>, inFirst: nat, recs: seq<Record>) {
    ControlFileOf(control, names, inFirst, recs, disk, maxLen) && |recs| < |names| <= MAX_FILES
  }

  function SizeOf(disk: Disk, name: string, maxLen: nat): nat {
    if name in disk then Truncated(disk[name].size, maxLen) else 0
  }

  /** The files of the new corpus are listed smallest first, as the driver's sort leaves them; those from `split` on,
      told by another log, likewise. */
  ghost predicate SortedBySize(disk: Disk, names: seq<string>, inFirst: nat, split: nat, maxLen: nat) {
    forall i, j | inFirst <= i <= j < |names| && Base(split, i) == Base(split, j) ::
      SizeOf(disk, names[i], maxLen) <= SizeOf(disk, names[j], maxLen)
  }

  /** Some file that has the feature is kept; a smallest one, if the new corpus is listed smallest first. */
  ghost predicate KeptFor(disk: Disk, names: seq<string>, inFirst: nat, split: nat, maxLen: nat,
                          newFiles: seq<string>, x: nat)
  {
    exists i :: && inFirst <= i < |names| && names[i] in newFiles && x in RunFeatures(disk, names[i])
                && (SortedBySize(disk, names, inFirst, split, maxLen) ==>
                      forall j | inFirst <= j < |names| && x in RunFeatures(disk, names[j]) ::
                        SizeOf(disk, names[i], maxLen) <= SizeOf(disk, names[j], maxLen))
  }

  /** Each new feature has a file kept for it, and no file is kept in vain. */
  ghost predicate Keeps(disk: Disk, names: seq<string>, inFirst: nat, split: nat, maxLen: nat,
                        newFeatures: set<nat>, newFiles: seq<string>)
  {
    && (forall x | x in newFeatures :: KeptFor(disk, names, inFirst, split, maxLen, newFiles, x))
    && |newFiles| <= |newFeatures|
    && exists kept: seq<nat>, own: seq<nat> :: KeepsOnly(disk, names, inFirst, newFeatures, newFiles, kept, own)
  }

  /** The merge's findings, told without the control file, the restarts or the crashes. */
  ghost predicate OneShot(disk: Disk, names: seq<string>, inFirst: nat, maxLen: nat,
                          initialFeatures: set<nat>, initialCov: set<nat>,
                          newFeatures: set<nat>, newCov: set<nat>, newFiles: seq<string>)
    requires inFirst <= |names|
  {
    && newFeatures == AllFeatures(disk, names[inFirst..]) - (initialFeatures + AllFeatures(disk, names[..inFirst]))
    && newCov == AllPcs(disk, names[inFirst..]) - (initialCov + AllPcs(disk, names[..inFirst]))
    && Keeps(disk, names, inFirst, |names|, maxLen, newFeatures, newFiles)
  }

  /** The same when the files from `split` on are known from an earlier merge: they all count as new, and old files
      do not take from the coverage that they show. */
  ghost predicate Reused(disk: Disk, names: seq<string>, inFirst: nat, split: nat, maxLen: nat,
                         initialFeatures: set<nat>, initialCov: set<nat>,
                         newFeatures: set<nat>, newCov: set<nat>, newFiles: seq<string>)
    requires inFirst <= split <= |names|
  {
    && newFeatures == AllFeatures(disk, names[inFirst..]) - (initialFeatures + AllFeatures(disk, names[..inFirst]))
    && newCov == NewPcs(disk, names, inFirst, split) - initialCov
    && Keeps(disk, names, inFirst, split, maxLen, newFeatures, newFiles)
  }

  lemma NothingReused(disk: Disk, names: seq<string>, inFirst: nat, maxLen: nat, initialFeatures: set<nat>, initialCov: set<nat>,
                      newFeatures: set<nat>, newCov: set<nat>, newFiles: seq<string>)
    requires inFirst <= |names|
    requires Reused(disk, names, inFirst, |names|, maxLen, initialFeatures, initialCov, newFeatures, newCov, newFiles)
    ensures OneShot(disk, names, inFirst, maxLen, initialFeatures, initialCov, newFeatures, newCov, newFiles)
  {
    hide Keeps, AllPcs, AllFeatures;
    SplitAll(disk, names, inFirst);
    assert names[..|names|] == names && names[|names|..] == [];
    NoPcs(disk);
  }

  /** No file is kept in vain: the kept files are files `kept` of the new corpus, each for a new feature of its own. */
  ghost predicate KeepsOnly(disk: Disk, names: seq<string>, inFirst: nat, newFeatures: set<nat>, newFiles: seq<string>,
                            kept: seq<nat>, own: seq<nat>)
  {
    && |kept| == |own| == |newFiles| && NoDuplicates(kept) && NoDuplicates(own)
    && forall k | 0 <= k < |newFiles| ::
         && inFirst <= kept[k] < |names| && newFiles[k] == names[kept[k]]
         && own[k] in newFeatures && own[k] in RunFeatures(disk, names[kept[k]])
  }

  /** What a set cover keeps: distinct files of the new corpus, each for a new slot of its own; the coverage reported
      is what they were the first files to show. */
  ghost predicate CoverKeeps(disk: Disk, names: seq<string>, inFirst: nat, split: nat, gained: set<nat>, initialCov: set<nat>,
                             newCov: set<nat>, newFiles: seq<string>, kept: seq<nat>, own: seq<nat>)
  {
    && |kept| == |own| == |newFiles| && NoDuplicates(kept) && NoDuplicates(own)
    && (forall k | 0 <= k < |newFiles| ::
          && inFirst <= kept[k] < |names| && newFiles[k] == names[kept[k]]
          && own[k] in gained && own[k] in SlotSet(RunFeatures(disk, names[kept[k]])))
    && newCov == FirstShown(disk, names, split, kept) - initialCov
  }

  /** The PCs that file i is the first one to show, of the files told by the same log. */
  ghost function FirstPcs(disk: Disk, names: seq<string>, split: nat, i: nat): set<nat>
    requires i < |names|
  {
    RunPcs(disk, names[i]) - AllPcs(disk, names[Base(split, i)..i])
  }

  ghost function FirstShown(disk: Disk, names: seq<string>, split: nat, kept: seq<nat>): set<nat> {
    set k, p | 0 <= k < |kept| && kept[k] < |names| && p in FirstPcs(disk, names, split, kept[k]) :: p
  }

  /** The features of the new files are kept, up to collisions of their slots; files from `split` on are known from an
      earlier merge and all count as new. */
  ghost predicate OneShotCover(disk: Disk, names: seq<string>, inFirst: nat, split: nat,
                               initialFeatures: set<nat>, initialCov: set<nat>,
                               newFeatures: set<nat>, newCov: set<nat>, newFiles: seq<string>)
    requires inFirst <= |names|
  {
    var existing := SlotSet(initialFeatures + AllFeatures(disk, names[..inFirst]));
    var all := existing + SlotSet(AllFeatures(disk, names));
    && Tally(newFeatures, all, existing)
    && newFeatures <= AllFeatures(disk, newFiles) <= AllFeatures(disk, names)
    && all == existing + SlotSet(AllFeatures(disk, newFiles))
    && |newFiles| <= |newFeatures|
    && exists kept: seq<nat>, own: seq<nat> ::
         CoverKeeps(disk, names, inFirst, split, all - existing, initialCov, newCov, newFiles, kept, own)
  }

  ghost function At(names: seq<string>, indices: seq<nat>): (r: seq<string>)
    requires Below(indices, |names|)
    ensures |r| == |indices|
  {
    seq(|indices|, k requires 0 <= k < |indices| => names[indices[k]])
  }

  ghost predicate DistinctFeatureSlots(features: set<nat>) {
    forall a, b | a in features && b in features && Slot(a) == Slot(b) :: a == b
  }

  /** If no new file has two features in one slot, then `count` is within the harmonic factor of every choice of new
      files that shows all missing slots. */
  ghost predicate CoverBound(disk: Disk, names: seq<string>, inFirst: nat, initialFeatures: set<nat>, count: nat)
    requires inFirst <= |names|
  {
    var existing := SlotSet(initialFeatures + AllFeatures(disk, names[..inFirst]));
    var missing := SlotSet(AllFeatures(disk, names[inFirst..])) - existing;
    (forall j | inFirst <= j < |names| :: DistinctFeatureSlots(RunFeatures(disk, names[j]))) ==>
      forall cover: seq<nat> | Candidates(cover, inFirst, |names|) && Below(cover, |names|) ::
        missing <= SlotSet(AllFeatures(disk, At(names, cover))) ==> WithinHarmonic(count, |cover|, |missing|)
  }

  lemma SplitAll(disk: Disk, names: seq<string>, k: nat)
    requires k <= |names|
    ensures AllFeatures(disk, names) == AllFeatures(disk, names[..k]) + AllFeatures(disk, names[k..])
    ensures AllPcs(disk, names) == AllPcs(disk, names[..k]) + AllPcs(disk, names[k..])
  {
    var a, b := names[..k], names[k..];
    assert names == a + b;
    forall i, f | 0 <= i < |names| && f in RunFeatures(disk, names[i])
      ensures f in AllFeatures(disk, a) + AllFeatures(disk, b)
    {
      if i < k { assert f in RunFeatures(disk, a[i]); } else { assert f in RunFeatures(disk, b[i - k]); }
    }
    forall i, f | 0 <= i < |b| && f in RunFeatures(disk, b[i]) ensures f in AllFeatures(disk, names) {
      assert f in RunFeatures(disk, names[k + i]);
    }
    forall i, p | 0 <= i < |names| && p in RunPcs(disk, names[i]) ensures p in AllPcs(disk, a) + AllPcs(disk, b) {
      if i < k { assert p in RunPcs(disk, a[i]); } else { assert p in RunPcs(disk, b[i - k]); }
    }
    forall i, p | 0 <= i < |b| && p in RunPcs(disk, b[i]) ensures p in AllPcs(disk, names) {
      assert p in RunPcs(disk, names[k + i]);
    }
  }

  /** The files of a corpus whose coverage is not known yet. */
  function Unknown(corpus: seq<string>, skip: set<string>): seq<string> {
    if corpus == [] then [] else
      Unknown(corpus[..|corpus| - 1], skip) + if corpus[|corpus| - 1] in skip then [] else [corpus[|corpus| - 1]]
  }

  lemma {:induction false} NothingToSkip(corpus: seq<string>)
    ensures Unknown(corpus, {}) == corpus
  {
    if corpus != [] {
      NothingToSkip(corpus[..|corpus| - 1]);
    }
  }

  /** Writes a fresh control file for the corpora, leaving out the files whose coverage is known. */
  method WriteNewControlFile(oldCorpus: seq<string>, newCorpus: seq<string>, known: seq<FileInfo>)
    returns (text: string, count: nat)
    ensures var skip := Elements(Names(known));
            var fromOld, fromNew := Unknown(oldCorpus, skip), Unknown(newCorpus, skip);
            text == FileText(fromOld + fromNew, |fromOld|, []) && count == |fromOld| + |fromNew|
    ensures known == [] ==> text == FileText(oldCorpus + newCorpus, |oldCorpus|, []) && count == |oldCorpus + newCorpus|
  {
    var skip := Elements(Names(known));
    if known == [] {
      assert skip == {};
      NothingToSkip(oldCorpus);
      NothingToSkip(newCorpus);
    }
    var fromOld := UseFiles(oldCorpus, skip);
    var fromNew := UseFiles(newCorpus, skip);
    var use := fromOld + fromNew;
    text, count := HeaderText(use, |fromOld|), |use|;
    assert text + LogText([]) == text;
  }

  method UseFiles(corpus: seq<string>, skip: set<string>) returns (use: seq<string>)
    ensures use == Unknown(corpus, skip)
  {
    use := [];
    for i := 0 to |corpus|
      invariant use == Unknown(corpus[..i], skip)
    {
      assert corpus[..i + 1][..i] == corpus[..i];
      if corpus[i] !in skip { use := use + [corpus[i]]; }
    }
    assert corpus[..|corpus|] == corpus;
  }

  /** What a parsed control file always satisfies. */
  lemma {:induction false} ApplyLinesSorted(s: string, st: Progress)
    requires st.started <= |st.files| && forall f | f in st.files :: Sorted(f.features)
    ensures var r := ApplyLines(s, st, true); r.Continue? ==> forall f | f in r.progress.files :: Sorted(f.features)
    decreases |s|
  {
    if s != [] {
      var r := ApplyLine(Line(s), st, true);
      if r.Continue? {
        ApplyLinesSorted(AfterLine(s), r.progress);
      }
    }
  }

  lemma {:induction false} ReadNamesSorted(s: string, files: seq<FileInfo>, i: nat)
    requires i <= |files| && forall f | f in files :: Sorted(f.features)
    ensures var r := ReadNames(s, files, i); r.Some? ==> forall f | f in r.value.0 :: Sorted(f.features)
    decreases |files| - i
  {
    if i < |files| && s != [] {
      ReadNamesSorted(AfterLine(s), files[i := files[i].(name := Line(s))], i + 1);
    }
  }

  lemma ParsedIsSorted(s: string)
    ensures var r := ParseText([], s, true);
            r.Parsed? ==> r.inFirst <= |r.files| && forall f | f in r.files :: Sorted(f.features)
  {
    if s != [] && AfterLine(s) != [] {
      var n := ReadCount(Line(s), 0);
      var rest := AfterLine(AfterLine(s));
      var blank := Resize([], n);
      ReadNamesSorted(rest, blank, 0);
      var named := ReadNames(rest, blank, 0);
      if named.Some? {
        ApplyLinesSorted(named.value.1, Progress(named.value.0, 0, true, {}));
      }
    }
  }

  lemma ToldInFirst(files: seq<FileInfo>, disk: Disk, names: seq<string>, maxLen: nat, split: nat, first: nat, m: nat, x: nat)
    requires Told(files, disk, names, maxLen, split) && m < first <= |names| && x in files[m].features
    ensures x in AllFeatures(disk, names[..first])
  {
    FilesTell(files, disk, names, maxLen, split, first);
    assert files[..first][m] == files[m];
  }

  /** Where a feature that the first corpus lacks was first told, by the log that tells of file `j`. */
  lemma FirstTold(files: seq<FileInfo>, disk: Disk, names: seq<string>, maxLen: nat, split: nat, first: nat, j: nat, x: nat)
    returns (m: nat)
    requires Told(files, disk, names, maxLen, split) && first <= j < |names|
    requires x in RunFeatures(disk, names[j]) && x !in AllFeatures(disk, names[..first])
    ensures first <= m <= j && Base(split, m) == Base(split, j) && x in files[m].features
  {
    hide RunFeatures, AllFeatures, TellsFile;
    assert ToldBy(files, Base(split, j), j, x);
    m :| Base(split, j) <= m <= j && m < |files| && x in files[m].features;
    if m < first { ToldInFirst(files, disk, names, maxLen, split, first, m, x); }
  }

  /** A recorded smallest candidate is a smallest file that has the feature: a feature is left out of a
      record only if an earlier, hence not larger, file of the same log had it. */
  lemma SmallestOfAll(files: seq<FileInfo>, disk: Disk, names: seq<string>, maxLen: nat, split: nat,
                      first: nat, i: nat, j: nat, x: nat)
    requires Told(files, disk, names, maxLen, split) && first <= i < |names| && first <= j < |names|
    requires forall h | h in files[first..] && x in h.features :: SizeOf(disk, names[i], maxLen) <= h.size
    requires x !in AllFeatures(disk, names[..first]) && x in RunFeatures(disk, names[j])
    requires SortedBySize(disk, names, first, split, maxLen)
    ensures SizeOf(disk, names[i], maxLen) <= SizeOf(disk, names[j], maxLen)
  {
    hide Told, RunFeatures, AllFeatures;
    var m := FirstTold(files, disk, names, maxLen, split, first, j, x);
    ToldLength(files, disk, names, maxLen, split);
    ToldFile(files, disk, names, maxLen, split, m);
    assert files[first..][m - first] == files[m];
  }

  lemma FeatureIsKept(files: seq<FileInfo>, disk: Disk, names: seq<string>, maxLen: nat, split: nat, first: nat,
                      known: set<nat>, newFiles: seq<string>, x: nat)
    requires Told(files, disk, names, maxLen, split) && first <= |names|
    requires BestKept(files[first..], known, newFiles, x)
    requires x !in AllFeatures(disk, names[..first])
    ensures KeptFor(disk, names, first, split, maxLen, newFiles, x)
  {
    hide Told, SizeOf, RunFeatures, AllFeatures, SortedBySize, BestKept;
    ToldLength(files, disk, names, maxLen, split);
    var k := BestIsSmallest(files[first..], known, newFiles, x);
    var i := first + k;
    assert files[first..][k] == files[i];
    ToldFile(files, disk, names, maxLen, split, i);
    assert x in Elements(files[i].features);
    if SortedBySize(disk, names, first, split, maxLen) {
      forall j | first <= j < |names| && x in RunFeatures(disk, names[j])
        ensures SizeOf(disk, names[i], maxLen) <= SizeOf(disk, names[j], maxLen)
      {
        SmallestOfAll(files, disk, names, maxLen, split, first, i, j, x);
      }
    }
  }

  lemma CountedOwn(own: seq<nat>, gained: set<nat>)
    requires NoDuplicates(own) && forall k | 0 <= k < |own| :: own[k] in gained
    ensures |own| <= |gained|
  {
    DistinctSize(own);
    SubsetSize(Elements(own), gained);
  }

  /** What the candidates say of the kept files holds of the files on disk. */
  lemma KeptOnDisk(files: seq<FileInfo>, disk: Disk, names: seq<string>, maxLen: nat, split: nat, first: nat,
                   initialFeatures: set<nat>, newFeatures: set<nat>, newFiles: seq<string>)
    requires Told(files, disk, names, maxLen, split) && first <= |names|
    requires var known := initialFeatures + FeaturesOf(files[..first]);
             && newFeatures == FeaturesOf(files[first..]) - known
             && exists kept: seq<nat>, own: seq<nat> :: KeepsOwn(files[first..], known, newFiles, kept, own)
    ensures |newFiles| <= |newFeatures|
    ensures exists kept: seq<nat>, own: seq<nat> :: KeepsOnly(disk, names, first, newFeatures, newFiles, kept, own)
  {
    hide Told, RunFeatures, FeaturesOf, OwnFeature;
    ToldLength(files, disk, names, maxLen, split);
    var known := initialFeatures + FeaturesOf(files[..first]);
    var kept, own :| KeepsOwn(files[first..], known, newFiles, kept, own);
    hide KeepsOwn, NoDuplicates, IsCovered;
    ShiftedDistinct(files[first..], known, newFiles, kept, own, first);
    var shifted := Shifted(kept, first);
    forall k | 0 <= k < |newFiles|
      ensures && first <= shifted[k] < |names| && newFiles[k] == names[shifted[k]]
              && own[k] in newFeatures && own[k] in RunFeatures(disk, names[shifted[k]])
    {
      OwnAt(files[first..], known, newFiles, kept, own, k);
      KeptFile(files, disk, names, maxLen, split, first, known, newFiles[k], kept[k], own[k]);
    }
    assert KeepsOnly(disk, names, first, newFeatures, newFiles, shifted, own);
    CountedOwn(own, newFeatures);
  }

  ghost function Shifted(s: seq<nat>, first: nat): (r: seq<nat>)
    ensures |r| == |s| && forall k | 0 <= k < |s| :: r[k] == first + s[k]
  {
    seq(|s|, k requires 0 <= k < |s| => first + s[k])
  }

  lemma KeptFile(files: seq<FileInfo>, disk: Disk, names: seq<string>, maxLen: nat, split: nat, first: nat, known: set<nat>,
                 name: string, i: nat, x: nat)
    requires Told(files, disk, names, maxLen, split) && first <= |names|
    requires OwnFeature(files[first..], known, name, i, x)
    ensures first + i < |names| && name == names[first + i] && x in RunFeatures(disk, names[first + i])
    ensures x in FeaturesOf(files[first..]) - known
  {
    hide Told, RunFeatures;
    ToldLength(files, disk, names, maxLen, split);
    ToldFile(files, disk, names, maxLen, split, first + i);
    assert files[first..][i] == files[first + i];
    assert x in Elements(files[first + i].features);
  }

  /** File i shows a feature that neither was known initially nor is shown by a file listed before it. */
  ghost predicate ShowsNew(disk: Disk, names: seq<string>, initialFeatures: set<nat>, i: nat)
    requires i < |names|
  {
    exists x :: x in RunFeatures(disk, names[i]) && x !in initialFeatures && x !in AllFeatures(disk, names[..i])
  }

  /** What is kept are the new files that show something new in their turn, each once. */
  ghost predicate KeepsExactly(disk: Disk, names: seq<string>, inFirst: nat, initialFeatures: set<nat>,
                               newFiles: seq<string>)
  {
    exists kept: seq<nat> ::
      && |kept| == |newFiles| && NoDuplicates(kept) && (forall k | 0 <= k < |kept| :: kept[k] < |names| && newFiles[k] == names[kept[k]])
      && forall i | 0 <= i < |names| :: i in kept <==> inFirst <= i && ShowsNew(disk, names, initialFeatures, i)
  }

  /** Files told of by one process: each by the features that no file before it shows. */
  ghost predicate ToldOnce(files: seq<FileInfo>, disk: Disk, names: seq<string>) {
    && |files| == |names|
    && forall j | 0 <= j < |names| ::
         && files[j].name == names[j]
         && Elements(files[j].features) == RunFeatures(disk, names[j]) - AllFeatures(disk, names[..j])
  }

  /** A feature told of once is told of by one file. */
  lemma ToldByOne(files: seq<FileInfo>, disk: Disk, names: seq<string>, i: nat, j: nat, x: nat)
    requires ToldOnce(files, disk, names) && i < |files| && j < |files|
    requires x in files[i].features && x in files[j].features
    ensures i == j
  {
    hide AllFeatures, RunFeatures;
    assert x in Elements(files[i].features) && x in Elements(files[j].features);
    if i < j { ShownBefore(disk, names, i, j, x); }
    if j < i { ShownBefore(disk, names, j, i, x); }
  }

  lemma ShownBefore(disk: Disk, names: seq<string>, a: nat, b: nat, x: nat)
    requires a < b <= |names| && x in RunFeatures(disk, names[a])
    ensures x in AllFeatures(disk, names[..b])
  {
    assert names[..b][a] == names[a];
  }

  /** Without an interruption the choice needs no order: what a file was recorded with, no other was. */
  lemma UninterruptedKeeps(files: seq<FileInfo>, disk: Disk, names: seq<string>, first: nat,
                           initialFeatures: set<nat>, newFiles: seq<string>)
    requires ToldOnce(files, disk, names) && first <= |names| == |files|
    requires FeaturesOf(files[..first]) == AllFeatures(disk, names[..first])
    requires exists kept: seq<nat>, own: seq<nat> ::
               KeepsOwn(files[first..], initialFeatures + FeaturesOf(files[..first]), newFiles, kept, own)
    ensures KeepsExactly(disk, names, first, initialFeatures, newFiles)
  {
    var kept, own :| KeepsOwn(files[first..], initialFeatures + FeaturesOf(files[..first]), newFiles, kept, own);
    hide *;
    KeptOnce(files, disk, names, first, initialFeatures, newFiles, kept, own);
  }

  lemma KeptOnce(files: seq<FileInfo>, disk: Disk, names: seq<string>, first: nat, initialFeatures: set<nat>,
                 newFiles: seq<string>, kept: seq<nat>, own: seq<nat>)
    requires ToldOnce(files, disk, names) && first <= |files| == |names|
    requires FeaturesOf(files[..first]) == AllFeatures(disk, names[..first])
    requires KeepsOwn(files[first..], initialFeatures + FeaturesOf(files[..first]), newFiles, kept, own)
    ensures KeepsExactly(disk, names, first, initialFeatures, newFiles)
  {
    hide *;
    var candidates, known := files[first..], initialFeatures + FeaturesOf(files[..first]);
    ShiftedDistinct(candidates, known, newFiles, kept, own, first);
    var shifted := Shifted(kept, first);
    forall k | 0 <= k < |kept|
      ensures first <= shifted[k] < |names| && newFiles[k] == names[shifted[k]]
      ensures ShowsNew(disk, names, initialFeatures, shifted[k])
    {
      OwnAt(candidates, known, newFiles, kept, own, k);
      OwnIsNew(files, disk, names, first, initialFeatures, known, newFiles[k], kept[k], own[k]);
    }
    forall i | first <= i < |names| && ShowsNew(disk, names, initialFeatures, i) ensures i in shifted {
      NewIsKept(files, disk, names, first, known, initialFeatures, newFiles, kept, own, i);
    }
    Exactly(disk, names, first, initialFeatures, newFiles, shifted);
  }

  lemma OwnAt(candidates: seq<FileInfo>, known: set<nat>, newFiles: seq<string>, kept: seq<nat>, own: seq<nat>, k: nat)
    requires KeepsOwn(candidates, known, newFiles, kept, own) && k < |kept|
    ensures |own| == |newFiles| == |kept| && OwnFeature(candidates, known, newFiles[k], kept[k], own[k])
  {
    hide OwnFeature, IsCovered, FeaturesOf;
  }

  lemma ShiftedDistinct(candidates: seq<FileInfo>, known: set<nat>, newFiles: seq<string>, kept: seq<nat>, own: seq<nat>,
                        first: nat)
    requires KeepsOwn(candidates, known, newFiles, kept, own)
    ensures |kept| == |own| == |newFiles| && NoDuplicates(Shifted(kept, first)) && NoDuplicates(own)
  {
    hide OwnFeature, IsCovered, FeaturesOf;
  }

  lemma Exactly(disk: Disk, names: seq<string>, first: nat, initialFeatures: set<nat>, newFiles: seq<string>, kept: seq<nat>)
    requires |kept| == |newFiles| && NoDuplicates(kept)
    requires forall k | 0 <= k < |kept| ::
               first <= kept[k] < |names| && newFiles[k] == names[kept[k]] && ShowsNew(disk, names, initialFeatures, kept[k])
    requires forall i | first <= i < |names| && ShowsNew(disk, names, initialFeatures, i) :: i in kept
    ensures KeepsExactly(disk, names, first, initialFeatures, newFiles)
  {
    hide ShowsNew;
  }

  lemma ToldOnceAt(files: seq<FileInfo>, disk: Disk, names: seq<string>, j: nat)
    requires ToldOnce(files, disk, names)
    ensures |files| == |names|
    ensures j < |names| ==> files[j].name == names[j]
                            && Elements(files[j].features) == RunFeatures(disk, names[j]) - AllFeatures(disk, names[..j])
  {
  }

  lemma OwnIsNew(files: seq<FileInfo>, disk: Disk, names: seq<string>, first: nat, initialFeatures: set<nat>,
                 known: set<nat>, name: string, k: nat, x: nat)
    requires ToldOnce(files, disk, names) && first <= |files| && initialFeatures <= known
    requires OwnFeature(files[first..], known, name, k, x)
    ensures first + k < |names| && name == names[first + k] && ShowsNew(disk, names, initialFeatures, first + k)
  {
    hide AllFeatures, RunFeatures, Preferred;
    ToldOnceAt(files, disk, names, first + k);
    assert files[first..][k] == files[first + k];
    assert x in Elements(files[first + k].features);
  }

  lemma NewIsKept(files: seq<FileInfo>, disk: Disk, names: seq<string>, first: nat, known: set<nat>,
                  initialFeatures: set<nat>, newFiles: seq<string>, kept: seq<nat>, own: seq<nat>, i: nat)
    requires ToldOnce(files, disk, names) && first <= i < |names| == |files| && ShowsNew(disk, names, initialFeatures, i)
    requires FeaturesOf(files[..first]) == AllFeatures(disk, names[..first])
    requires known == initialFeatures + FeaturesOf(files[..first]) && KeepsOwn(files[first..], known, newFiles, kept, own)
    ensures i in Shifted(kept, first)
  {
    hide AllFeatures, RunFeatures, OwnFeature, NoDuplicates;
    var x :| x in RunFeatures(disk, names[i]) && x !in initialFeatures && x !in AllFeatures(disk, names[..i]);
    ToldOnceAt(files, disk, names, i);
    assert x in Elements(files[i].features) && files[first..][i - first] == files[i];
    AllGrows(disk, names, first, i);
    hide ToldOnce;
    assert IsCovered(files[first..], kept, x);
    var k :| 0 <= k < |kept| && kept[k] < |files[first..]| && x in files[first..][kept[k]].features;
    ToldByOne(files, disk, names, first + kept[k], i, x);
    assert Shifted(kept, first)[k] == i;
  }

  lemma AllGrows(disk: Disk, names: seq<string>, first: nat, i: nat)
    requires first <= i <= |names|
    ensures AllFeatures(disk, names[..first]) <= AllFeatures(disk, names[..i])
  {
    forall x | x in AllFeatures(disk, names[..first]) ensures x in AllFeatures(disk, names[..i]) {
      var k :| 0 <= k < first && x in RunFeatures(disk, names[..first][k]);
      assert names[..i][k] == names[..first][k];
    }
  }

  /** The last step of a good merge: the smallest-first pass over what complete logs tell. */
  lemma MergeIsOneShot(files: seq<FileInfo>, disk: Disk, names: seq<string>, maxLen: nat, split: nat, first: nat,
                       initialFeatures: set<nat>, initialCov: set<nat>,
                       newFeatures: set<nat>, newCov: set<nat>, newFiles: seq<string>)
    requires Told(files, disk, names, maxLen, split) && first <= split
    requires && newFeatures == FeaturesOf(files[first..]) - (initialFeatures + FeaturesOf(files[..first]))
             && newCov == CovOf(files[first..]) - initialCov
             && (forall x | x in newFeatures :: BestKept(files[first..], initialFeatures + FeaturesOf(files[..first]), newFiles, x))
             && exists kept: seq<nat>, own: seq<nat> ::
                  KeepsOwn(files[first..], initialFeatures + FeaturesOf(files[..first]), newFiles, kept, own)
    ensures Reused(disk, names, first, split, maxLen, initialFeatures, initialCov, newFeatures, newCov, newFiles)
    ensures split == |names| ==>
              OneShot(disk, names, first, maxLen, initialFeatures, initialCov, newFeatures, newCov, newFiles)
  {
    hide Told, KeepsOwn, KeepsOnly, BestKept, KeptFor, AllFeatures, AllPcs, FeaturesOf, CovOf, NewPcs, OneShot;
    ToldLength(files, disk, names, maxLen, split);
    CorporaTell(files, disk, names, maxLen, first, split);
    CandidatesCov(files, disk, names, maxLen, first, split);
    KeptOnDisk(files, disk, names, maxLen, split, first, initialFeatures, newFeatures, newFiles);
    forall x | x in newFeatures ensures KeptFor(disk, names, first, split, maxLen, newFiles, x) {
      FeatureIsKept(files, disk, names, maxLen, split, first, initialFeatures + FeaturesOf(files[..first]), newFiles, x);
    }
    if split == |names| {
      NothingReused(disk, names, first, maxLen, initialFeatures, initialCov, newFeatures, newCov, newFiles);
    }
  }

  lemma {:induction false} CoveredByFeatures(files: seq<FileInfo>, picks: seq<nat>, existing: set<nat>)
    requires Below(picks, |files|)
    ensures CoveredBy(files, picks, existing) == existing + SlotSet(FeaturesOf(PickedFiles(files, picks)))
  {
    if picks == [] {
      assert FeaturesOf(PickedFiles(files, picks)) == {};
    } else {
      var k := |picks| - 1;
      CoveredByFeatures(files, picks[..k], existing);
      PickOne(files, picks[..k], picks[k]);
      assert picks[..k] + [picks[k]] == picks;
      var features := files[picks[k]].features;
      SlotsOfSet(Elements(features), features);
    }
  }

  lemma CandidateSlotsFeatures(files: seq<FileInfo>, first: nat)
    requires first <= |files|
    ensures CandidateSlots(files, first) == SlotSet(FeaturesOf(files[first..]))
  {
    var b := files[first..];
    forall i | first <= i < |files| ensures SlotsOf(files[i].features) == SlotSet(Elements(files[i].features)) {
      SlotsOfSet(Elements(files[i].features), files[i].features);
    }
    forall s | s in CandidateSlots(files, first) ensures s in SlotSet(FeaturesOf(b)) {
      var i :| first <= i < |files| && s in SlotsOf(files[i].features);
      var f :| f in Elements(files[i].features) && Slot(f) == s;
      assert f in b[i - first].features;
    }
    forall f | f in FeaturesOf(b) ensures Slot(f) in CandidateSlots(files, first) {
      var i :| 0 <= i < |b| && f in b[i].features;
      assert Slot(f) in SlotsOf(files[first + i].features);
    }
  }

  /** The picked files' recorded features are among what those files do. */
  lemma PickedFeatures(files: seq<FileInfo>, disk: Disk, names: seq<string>, maxLen: nat, split: nat, picks: seq<nat>)
    requires Told(files, disk, names, maxLen, split) && Below(picks, |names|)
    ensures var picked := PickedFiles(files, picks);
            && FeaturesOf(picked) <= AllFeatures(disk, Names(picked)) <= AllFeatures(disk, names)
  {
    hide RunFeatures, RunPcs, AllPcs;
    var picked := PickedFiles(files, picks);
    forall k | 0 <= k < |picks|
      ensures Names(picked)[k] == names[picks[k]] && Elements(picked[k].features) <= RunFeatures(disk, names[picks[k]])
    {
      ToldFile(files, disk, names, maxLen, split, picks[k]);
    }
    hide Told;
    forall f | f in FeaturesOf(picked) ensures f in AllFeatures(disk, Names(picked)) {
      var k :| 0 <= k < |picked| && f in picked[k].features;
      assert f in Elements(picked[k].features);
      assert f in RunFeatures(disk, Names(picked)[k]);
    }
    forall f | f in AllFeatures(disk, Names(picked)) ensures f in AllFeatures(disk, names) {
      var k :| 0 <= k < |picked| && f in RunFeatures(disk, Names(picked)[k]);
      assert f in RunFeatures(disk, names[picks[k]]);
    }
  }

  lemma FirstRecorded(disk: Disk, names: seq<string>, maxLen: nat, recs: seq<Record>, i: nat)
    requires Faithful(disk, names, maxLen, recs) && i < |recs|
    ensures Elements(Out(recs[i]).pcs) - RecordedPcs(recs[..i]) == RunPcs(disk, names[i]) - AllPcs(disk, names[..i])
  {
    RecordsTellAll(disk, names, maxLen, recs, i);
    AllExtend(disk, names, i);
    assert recs[..i + 1] == recs[..i] + [recs[i]];
    RecordedExtend(recs[..i], recs[i]);
    assert Truthful(disk, names, maxLen, recs, i);
    hide RecordedPcs, AllPcs, RunPcs, RecordedFeatures, RunFeatures;
  }

  /** The picks of a set cover, told about the files on disk. */
  lemma PicksOnDisk(files: seq<FileInfo>, disk: Disk, names: seq<string>, maxLen: nat, split: nat, first: nat, picks: seq<nat>,
                    own: seq<nat>, gained: set<nat>, initialCov: set<nat>, newCov: set<nat>, newFiles: seq<string>)
    requires Told(files, disk, names, maxLen, split) && Below(picks, |names|)
    requires && OwnSlots(files, first, picks, own, gained)
             && newCov == CovOf(PickedFiles(files, picks)) - initialCov
             && newFiles == Names(PickedFiles(files, picks))
    ensures CoverKeeps(disk, names, first, split, gained, initialCov, newCov, newFiles, picks, own)
  {
    hide Told, RunFeatures, RunPcs, AllPcs, SlotsOf;
    ToldLength(files, disk, names, maxLen, split);
    var picked := PickedFiles(files, picks);
    forall k | 0 <= k < |picks|
      ensures && first <= picks[k] < |names| && newFiles[k] == names[picks[k]] && own[k] in gained
              && own[k] in SlotSet(RunFeatures(disk, names[picks[k]]))
              && Elements(picked[k].cov) == FirstPcs(disk, names, split, picks[k])
    {
      assert OwnSlot(files, first, picks[k], own[k], gained);
      ToldFile(files, disk, names, maxLen, split, picks[k]);
      SlotsOfSet(Elements(files[picks[k]].features), files[picks[k]].features);
      SlotSetMono(Elements(files[picks[k]].features), RunFeatures(disk, names[picks[k]]));
    }
    hide FirstPcs;
    forall p | p in CovOf(picked) ensures p in FirstShown(disk, names, split, picks) {
      var k :| 0 <= k < |picked| && p in picked[k].cov;
      assert p in Elements(picked[k].cov);
    }
    forall p | p in FirstShown(disk, names, split, picks) ensures p in CovOf(picked) {
      var k :| 0 <= k < |picks| && p in FirstPcs(disk, names, split, picks[k]);
      assert p in Elements(picked[k].cov);
    }
  }

  lemma CoverIsOneShot(files: seq<FileInfo>, disk: Disk, names: seq<string>, maxLen: nat, split: nat, first: nat,
                       picks: seq<nat>, own: seq<nat>, initialFeatures: set<nat>, initialCov: set<nat>,
                       newFeatures: set<nat>, newCov: set<nat>, newFiles: seq<string>)
    requires Told(files, disk, names, maxLen, split) && first <= |names| && Below(picks, |names|)
    requires var existing := SlotSet(initialFeatures + FeaturesOf(files[..first]));
             && CoveredBy(files, picks, existing) == existing + CandidateSlots(files, first)
             && Tally(newFeatures, existing + CandidateSlots(files, first), existing)
             && OwnSlots(files, first, picks, own, CandidateSlots(files, first) + existing - existing)
             && newFeatures <= FeaturesOf(PickedFiles(files, picks))
             && newCov == CovOf(PickedFiles(files, picks)) - initialCov
             && newFiles == Names(PickedFiles(files, picks))
    ensures OneShotCover(disk, names, first, split, initialFeatures, initialCov, newFeatures, newCov, newFiles)
  {
    CoverFeatures(files, disk, names, maxLen, split, first, picks, initialFeatures, newFeatures, newFiles);
    var existing := SlotSet(initialFeatures + AllFeatures(disk, names[..first]));
    var gained := existing + SlotSet(AllFeatures(disk, names)) - existing;
    hide OwnSlots, CoverKeeps, AllFeatures, Told;
    PicksOnDisk(files, disk, names, maxLen, split, first, picks, own, gained, initialCov, newCov, newFiles);
    OwnSlotsAreFew(files, first, picks, own, gained);
  }

  lemma OwnSlotsAreFew(files: seq<FileInfo>, first: nat, picks: seq<nat>, own: seq<nat>, gained: set<nat>)
    requires OwnSlots(files, first, picks, own, gained)
    ensures |picks| <= |gained|
  {
    forall k | 0 <= k < |own| ensures own[k] in gained {
      assert OwnSlot(files, first, picks[k], own[k], gained);
    }
    CountedOwn(own, gained);
  }

  /** The slots that a set cover over complete logs covers are those of the files on disk. */
  lemma CoverFeatures(files: seq<FileInfo>, disk: Disk, names: seq<string>, maxLen: nat, split: nat, first: nat,
                      picks: seq<nat>, initialFeatures: set<nat>, newFeatures: set<nat>, newFiles: seq<string>)
    requires Told(files, disk, names, maxLen, split) && first <= |names| && Below(picks, |names|)
    requires var existing := SlotSet(initialFeatures + FeaturesOf(files[..first]));
             && CoveredBy(files, picks, existing) == existing + CandidateSlots(files, first)
             && Tally(newFeatures, existing + CandidateSlots(files, first), existing)
             && newFeatures <= FeaturesOf(PickedFiles(files, picks))
             && newFiles == Names(PickedFiles(files, picks))
    ensures var existing := SlotSet(initialFeatures + AllFeatures(disk, names[..first]));
            var all := existing + SlotSet(AllFeatures(disk, names));
            && existing == SlotSet(initialFeatures + FeaturesOf(files[..first]))
            && all == existing + CandidateSlots(files, first)
            && Tally(newFeatures, all, existing)
            && newFeatures <= AllFeatures(disk, newFiles) <= AllFeatures(disk, names)
            && all == existing + SlotSet(AllFeatures(disk, newFiles))
  {
    hide Told, AllFeatures, FeaturesOf, SlotSet, CandidateSlots, CoveredBy, Tally;
    CorporaTell(files, disk, names, maxLen, first, split);
    ToldLength(files, disk, names, maxLen, split);
    CandidateSlotsFeatures(files, first);
    PickedFeatures(files, disk, names, maxLen, split, picks);
    CoveredByFeatures(files, picks, SlotSet(initialFeatures + FeaturesOf(files[..first])));
    SlotAlgebra(initialFeatures, FeaturesOf(files[..first]), FeaturesOf(files[first..]),
                FeaturesOf(PickedFiles(files, picks)), AllFeatures(disk, newFiles));
  }

  // ----- the set cover bound, on disk

  /** Files told of in whole: every feature on disk, once. */
  ghost predicate WholeFiles(files: seq<FileInfo>, disk: Disk, names: seq<string>) {
    && |files| == |names|
    && forall j | 0 <= j < |names| :: NoDuplicates(files[j].features) && Elements(files[j].features) == RunFeatures(disk, names[j])
  }

  /** A log that one process wrote from the start: no file has crashed it. */
  ghost predicate Uninterrupted(disk: Disk, names: seq<string>, recs: seq<Record>) {
    |recs| == |names| && WrittenFrom(disk, names, false, 0, recs) && forall i | 0 <= i < |recs| :: recs[i].out.Some?
  }

  lemma UninterruptedLog(disk: Disk, names: seq<string>, recs: seq<Record>)
    requires Uninterrupted(disk, names, recs)
    ensures ToldOnce(Meaning(names, recs, true).files, disk, names)
  {
    hide Tells, Meaning, RunFeatures, AllFeatures, WrittenFrom;
    var files := Meaning(names, recs, true).files;
    assert |files| == |names| && (forall j | 0 <= j < |names| :: Tells(files[j], names[j], recs, j)) by {
      MeaningTells(names, recs);
    }
    forall j | 0 <= j < |names|
      ensures files[j].name == names[j]
      ensures Elements(files[j].features) == RunFeatures(disk, names[j]) - AllFeatures(disk, names[..j])
    {
      TellsOnce(disk, names, recs, files[j], j);
    }
  }

  lemma TellsOnce(disk: Disk, names: seq<string>, recs: seq<Record>, f: FileInfo, j: nat)
    requires j < |recs| == |names| && WrittenFrom(disk, names, false, 0, recs) && recs[j].out.Some? && Tells(f, names[j], recs, j)
    ensures f.name == names[j] && Elements(f.features) == RunFeatures(disk, names[j]) - AllFeatures(disk, names[..j])
  {
    hide RunFeatures, AllFeatures, RunPcs, AllPcs, RecordedPcs;
    assert names[0..j] == names[..j];
    assert Writes(disk, names, false, 0, j, recs[j]);
  }

  /** From a fresh control file, if no file crashes. */
  lemma NeverInterrupted(text: string, inFirst: nat, disk: Disk, names: seq<string>, maxLen: nat, recs: seq<Record>)
    requires ControlFileOf(text, names, inFirst, recs, disk, maxLen) && |recs| == |names|
    requires WrittenSince(disk, names, false, 0, recs) && NoneCrashes(disk, names, 0, |names|)
    ensures Uninterrupted(disk, names, recs)
  {
    hide Writes, ControlFileOf;
    forall i | 0 <= i < |recs| ensures recs[i].out.Some? {
      assert Faithful(disk, names, maxLen, recs) by { ControlIsFaithful(text, inFirst, disk, names, maxLen, recs); }
      RecordOf(disk, names, maxLen, recs, i);
    }
    forall i | 0 <= i < |recs| ensures Writes(disk, names, false, 0, i, recs[i]) {
      assert CrashedLast(recs[..0], 0);
      SameProcess(recs, 0, 0, i);
    }
  }

  lemma ControlIsFaithful(text: string, inFirst: nat, disk: Disk, names: seq<string>, maxLen: nat, recs: seq<Record>)
    requires ControlFileOf(text, names, inFirst, recs, disk, maxLen)
    ensures Faithful(disk, names, maxLen, recs)
  {
  }

  lemma WholeLog(disk: Disk, names: seq<string>, recs: seq<Record>)
    requires Whole(disk, names, recs) && |recs| == |names|
    ensures WholeFiles(Meaning(names, recs, true).files, disk, names)
  {
    hide Tells, Meaning, RunFeatures;
    var files := Meaning(names, recs, true).files;
    assert |files| == |names| && (forall j | 0 <= j < |names| :: Tells(files[j], names[j], recs, j)) by {
      MeaningTells(names, recs);
    }
    forall j | 0 <= j < |names|
      ensures NoDuplicates(files[j].features) && Elements(files[j].features) == RunFeatures(disk, names[j])
    {
      WholeFile(disk, names[j], files[j], names[j], recs, j);
    }
  }

  lemma WholeFile(disk: Disk, onDisk: string, f: FileInfo, name: string, recs: seq<Record>, j: nat)
    requires j < |recs| && WholeAt(disk, onDisk, recs[j]) && Tells(f, name, recs, j)
    ensures NoDuplicates(f.features) && Elements(f.features) == RunFeatures(disk, onDisk)
  {
    hide RunFeatures, RecordedPcs;
    DistinctPermutation(f.features, Out(recs[j]).features);
  }

  lemma FeaturesOfNames(files: seq<FileInfo>, disk: Disk, names: seq<string>)
    requires |files| == |names| && forall k | 0 <= k < |files| :: Elements(files[k].features) == RunFeatures(disk, names[k])
    ensures FeaturesOf(files) == AllFeatures(disk, names)
  {
    forall f | f in FeaturesOf(files) ensures f in AllFeatures(disk, names) {
      var k :| 0 <= k < |files| && f in files[k].features;
      assert f in Elements(files[k].features);
    }
    forall f | f in AllFeatures(disk, names) ensures f in FeaturesOf(files) {
      var k :| 0 <= k < |names| && f in RunFeatures(disk, names[k]);
      assert f in Elements(files[k].features);
    }
  }

  /** When the files are told of in whole, what the set cover could choose from is what is on disk, and so is the bound. */
  lemma CoverIsNearlyMinimal(files: seq<FileInfo>, disk: Disk, names: seq<string>, maxLen: nat, split: nat, first: nat,
                             picks: seq<nat>, initialFeatures: set<nat>)
    requires Told(files, disk, names, maxLen, split) && first <= |names| && WholeFiles(files, disk, names)
    requires NearlyMinimal(files, first, picks, SlotSet(initialFeatures + FeaturesOf(files[..first])))
    ensures CoverBound(disk, names, first, initialFeatures, |picks|)
  {
    CorporaTell(files, disk, names, maxLen, first, split);
    CandidateSlotsFeatures(files, first);
    FeaturesOfNames(files[first..], disk, names[first..]);
    hide *;
    CoverBoundOnDisk(files, disk, names, first, picks, initialFeatures);
  }

  lemma CoverBoundOnDisk(files: seq<FileInfo>, disk: Disk, names: seq<string>, first: nat, picks: seq<nat>,
                         initialFeatures: set<nat>)
    requires WholeFiles(files, disk, names) && first <= |names|
    requires NearlyMinimal(files, first, picks, SlotSet(initialFeatures + AllFeatures(disk, names[..first])))
    requires CandidateSlots(files, first) == SlotSet(AllFeatures(disk, names[first..]))
    ensures CoverBound(disk, names, first, initialFeatures, |picks|)
  {
    hide RunFeatures, AllFeatures, FeaturesOf, CandidateSlots, WithinHarmonic, SlotSet, CoveredBy;
    var existing := SlotSet(initialFeatures + AllFeatures(disk, names[..first]));
    if forall j | first <= j < |names| :: DistinctFeatureSlots(RunFeatures(disk, names[j])) {
      forall j | first <= j < |files| ensures DistinctSlots(files[j].features) {
        SlotsAreDistinct(files[j].features, RunFeatures(disk, names[j]));
      }
      var missing := SlotSet(AllFeatures(disk, names[first..])) - existing;
      forall cover: seq<nat> | Candidates(cover, first, |names|) && Below(cover, |names|)
                               && missing <= SlotSet(AllFeatures(disk, At(names, cover)))
        ensures WithinHarmonic(|picks|, |cover|, |missing|)
      {
        CoversOnDisk(files, disk, names, cover);
        assert CoversMissing(files, first, cover, existing);
      }
    }
  }

  lemma SlotsAreDistinct(features: seq<nat>, shown: set<nat>)
    requires NoDuplicates(features) && Elements(features) == shown && DistinctFeatureSlots(shown)
    ensures DistinctSlots(features)
  {
    forall i, j | 0 <= i < j < |features| ensures Slot(features[i]) != Slot(features[j]) {
      assert features[i] in shown && features[j] in shown;
    }
  }

  lemma CoversOnDisk(files: seq<FileInfo>, disk: Disk, names: seq<string>, cover: seq<nat>)
    requires |files| == |names| && Below(cover, |names|)
    requires forall j | 0 <= j < |names| :: Elements(files[j].features) == RunFeatures(disk, names[j])
    ensures CoveredBy(files, cover, {}) == SlotSet(AllFeatures(disk, At(names, cover)))
  {
    FeaturesOfNames(PickedFiles(files, cover), disk, At(names, cover));
    CoveredByFeatures(files, cover, {});
  }

  lemma SlotAlgebra(initial: set<nat>, known: set<nat>, candidates: set<nat>, picked: set<nat>, shown: set<nat>)
    requires picked <= shown <= known + candidates
    requires SlotSet(initial + known) + SlotSet(candidates) == SlotSet(initial + known) + SlotSet(picked)
    ensures var existing := SlotSet(initial + known);
            && existing + SlotSet(candidates) == existing + SlotSet(known + candidates)
            && existing + SlotSet(candidates) == existing + SlotSet(shown)
  {
    SlotSetUnion(initial, known);
    SlotSetUnion(known, candidates);
    SlotSetMono(picked, shown);
    SlotSetMono(shown, known + candidates);
  }

  lemma SlotSetUnion(a: set<nat>, b: set<nat>)
    ensures SlotSet(a + b) == SlotSet(a) + SlotSet(b)
  {
  }

  lemma SlotSetMono(a: set<nat>, b: set<nat>)
    requires a <= b
    ensures SlotSet(a) <= SlotSet(b)
  {
  }

  /** The inner processes, one after the other, until one exits with zero. */
  method RunAttempts(control: string, disk: Disk, maxLen: nat, isSetCover: bool, numAttempts: nat,
                     ghost names: seq<string>, ghost inFirst: nat, ghost recs: seq<Record>)
    returns (text: string, ghost recs': seq<Record>)
    ensures !ParseText([], control, false).Parsed? ==> text == control
    ensures ControlFileOf(control, names, inFirst, recs, disk, maxLen) && 0 < |names| <= MAX_FILES
            && |names| <= |recs| + numAttempts ==>
              && ControlFileOf(text, names, inFirst, recs', disk, maxLen) && |recs| <= |recs'| == |names|
              && (isSetCover && Whole(disk, names, recs) ==> Whole(disk, names, recs'))
              && WrittenSince(disk, names, isSetCover, |recs|, recs')
  {
    hide ParseText, ControlFileOf, Whole, WrittenFrom, WrittenSince, Ended, CrashedLast;
    text, recs' := control, recs;
    if ControlFileOf(control, names, inFirst, recs, disk, maxLen) {
      NoneWritten(control, names, inFirst, recs, disk, maxLen, isSetCover);
      NoneWrittenSince(disk, names, isSetCover, recs);
    }
    ghost var known := ControlFileOf(control, names, inFirst, recs, disk, maxLen) && 0 < |names| <= MAX_FILES
                       && |names| <= |recs| + numAttempts;
    var attempt := 1;
    while attempt <= numAttempts
      invariant 1 <= attempt
      invariant !ParseText([], control, false).Parsed? ==> text == control
      invariant known ==> ControlFileOf(text, names, inFirst, recs', disk, maxLen)
      invariant known ==> |recs'| >= |recs| + attempt - 1 || |recs'| == |names|
      invariant known && isSetCover && Whole(disk, names, recs) ==> Whole(disk, names, recs')
      invariant known ==> |recs| <= |recs'| <= |names| && WrittenSince(disk, names, isSetCover, |recs|, recs')
      invariant known ==> CrashedLast(recs', |recs|)
    {
      var ok;
      ghost var before := recs';
      text, ok, recs' := InternalStep(text, disk, maxLen, isSetCover, names, inFirst, recs');
      if known {
        AttemptGrows(disk, names, before, recs', ok);
        AttemptWritten(text, inFirst, disk, names, maxLen, isSetCover, |recs|, before, recs', ok);
      }
      if ok { break; }
      attempt := attempt + 1;
    }
  }

  /** Where the process that wrote about file i had started: after the last crash before it, or at `from`. */
  ghost function StartOf(recs: seq<Record>, from: nat, i: nat): (k: nat)
    requires from <= i <= |recs|
    ensures from <= k <= i
  {
    if i == from then from else if recs[i - 1].out.None? then i else StartOf(recs, from, i - 1)
  }

  /** Every record from `from` on is what a process writes that was started there or after the last crash. */
  ghost predicate WrittenSince(disk: Disk, names: seq<string>, isSetCover: bool, from: nat, recs: seq<Record>)
    requires |recs| <= |names|
  {
    forall i | from <= i < |recs| :: Writes(disk, names, isSetCover, StartOf(recs, from, i), i, recs[i])
  }

  ghost predicate CrashedLast(recs: seq<Record>, from: nat) {
    |recs| == from || (|recs| > from && recs[|recs| - 1].out.None?)
  }

  lemma NoneWrittenSince(disk: Disk, names: seq<string>, isSetCover: bool, recs: seq<Record>)
    requires |recs| <= |names|
    ensures WrittenSince(disk, names, isSetCover, |recs|, recs) && CrashedLast(recs, |recs|)
  {
  }

  lemma AttemptGrows(disk: Disk, names: seq<string>, before: seq<Record>, after: seq<Record>, ok: bool)
    requires Ended(disk, names, before, after, ok)
    ensures if ok then |after| == |names| else |after| > |before|
  {
  }

  lemma {:induction false} SameStart(a: seq<Record>, b: seq<Record>, from: nat, i: nat)
    requires a <= b && from <= i <= |a|
    ensures StartOf(a, from, i) == StartOf(b, from, i)
    decreases i
  {
    if i > from { SameStart(a, b, from, i - 1); }
  }

  lemma {:induction false} SameProcess(recs: seq<Record>, from: nat, lo: nat, i: nat)
    requires from <= lo <= i <= |recs| && CrashedLast(recs[..lo], from)
    requires forall k | lo <= k < i :: recs[k].out.Some?
    ensures StartOf(recs, from, i) == lo
    decreases i
  {
    if i > lo {
      SameProcess(recs, from, lo, i - 1);
    } else if lo > from {
      assert recs[..lo][lo - 1] == recs[lo - 1];
    }
  }

  /** One more process, started where the last one crashed. */
  lemma AttemptWritten(text: string, inFirst: nat, disk: Disk, names: seq<string>, maxLen: nat, isSetCover: bool, from: nat,
                       before: seq<Record>, after: seq<Record>, ok: bool)
    requires ControlFileOf(text, names, inFirst, after, disk, maxLen)
    requires from <= |before| <= |after| <= |names| && before <= after
    requires WrittenSince(disk, names, isSetCover, from, before) && CrashedLast(before, from)
    requires WrittenFrom(disk, names, isSetCover, |before|, after) && Ended(disk, names, before, after, ok)
    ensures WrittenSince(disk, names, isSetCover, from, after) && (!ok ==> CrashedLast(after, from))
  {
    hide Writes, CrashedLast;
    var lo := |before|;
    assert after[..lo] == before;
    forall k | lo <= k < |after| - (if ok then 0 else 1) ensures after[k].out.Some? {
      RecordOf(disk, names, maxLen, after, k);
    }
    forall i | from <= i < |after| ensures Writes(disk, names, isSetCover, StartOf(after, from, i), i, after[i]) {
      if i < lo {
        SameStart(before, after, from, i);
      } else {
        SameProcess(after, from, lo, i);
      }
    }
    if !ok { assert CrashedLast(after, from) by { LastCrash(after, from); } }
  }

  lemma LastCrash(recs: seq<Record>, from: nat)
    requires |recs| > from && recs[|recs| - 1].out.None?
    ensures CrashedLast(recs, from)
  {
  }

  lemma RecordOf(disk: Disk, names: seq<string>, maxLen: nat, recs: seq<Record>, k: nat)
    requires Faithful(disk, names, maxLen, recs) && k < |recs|
    ensures names[k] in disk && recs[k].out.None? == disk[names[k]].run.Crash?
  {
    assert Truthful(disk, names, maxLen, recs, k);
  }

  /** What the outer process makes of the control file it was given. */
  datatype Verdict = Fresh(known: seq<FileInfo>) | Complete | InProgress(attempts: nat) | Broken

  method InspectControl(control: string, numInputs: nat) returns (v: Verdict)
    ensures control == "" || ParseText([], control, true) == Bad ==> v == Fresh([])
    ensures control != "" && ParseText([], control, true) == Overrun ==> v == Broken
    ensures var r := ParseText([], control, true);
            control != "" && r.Parsed? ==>
              v == if r.notProcessed < |r.files| then InProgress(|r.files| - r.notProcessed)
                   else if |r.files| == numInputs then Complete else Fresh(r.files)
    ensures v.Fresh? ==> forall f | f in v.known :: Sorted(f.features)
  {
    hide ParseText;
    if control == "" { return Fresh([]); }
    var m := new Merger();
    var outcome := m.Parse(control, true);
    ParsedIsSorted(control);
    if outcome == Overran { return Broken; }
    if outcome == Rejected { return Fresh([]); }
    if m.firstNotProcessedFile < |m.files| { return InProgress(|m.files| - m.firstNotProcessedFile); }
    if |m.files| == numInputs { return Complete; }
    return Fresh(m.files);
  }

  lemma ParsedControl(control: string, names: seq<string>, inFirst: nat, recs: seq<Record>, disk: Disk, maxLen: nat)
    requires ControlFileOf(control, names, inFirst, recs, disk, maxLen)
    ensures control != "" && forall parseCoverage ::
              var r := ParseText([], control, parseCoverage);
              if 0 < |names| <= MAX_FILES then r.Parsed? && r.notProcessed == |recs| && |r.files| == |names| else r == Bad
  {
    FaithfulIsWritable(disk, names, maxLen, recs);
    forall parseCoverage {
      ParseWritten(names, inFirst, recs, parseCoverage);
    }
    assert Decimal(|names|) != "";
  }

  /** A merge whose outcome is determined: a fresh one, or one resumed, of at most ten million files. */
  ghost predicate WellPosed(control: string, oldCorpus: seq<string>, newCorpus: seq<string>, disk: Disk, maxLen: nat,
                            names: seq<string>, inFirst: nat, recs: seq<Record>)
  {
    || (Starts(control, oldCorpus, newCorpus, disk, maxLen, names, inFirst, recs) && 0 < |names| <= MAX_FILES)
    || Continues(control, disk, maxLen, names, inFirst, recs)
  }

  /** The control file given has a STARTED line for each of as many files as there are now. */
  ghost predicate IsComplete(control: string, numInputs: nat) {
    var r := ParseText([], control, true);
    control != "" && r.Parsed? && r.notProcessed >= |r.files| == numInputs
  }

  /** The control file given was left by a finished merge of the files `names`, of another number than there are now. */
  ghost predicate Reuses(control: string, oldCorpus: seq<string>, newCorpus: seq<string>, disk: Disk, maxLen: nat,
                         names: seq<string>, inFirst: nat, recs: seq<Record>)
  {
    && ControlFileOf(control, names, inFirst, recs, disk, maxLen)
    && |recs| == |names| != |oldCorpus| + |newCorpus| && 0 < |names| <= MAX_FILES
    && SaneNames(oldCorpus, disk) && SaneNames(newCorpus, disk) && |oldCorpus| + |newCorpus| < U64
  }

  lemma {:induction false} UnknownSane(corpus: seq<string>, skip: set<string>, disk: Disk)
    requires SaneNames(corpus, disk)
    ensures SaneNames(Unknown(corpus, skip), disk) && |Unknown(corpus, skip)| <= |corpus|
  {
    if corpus != [] {
      UnknownSane(corpus[..|corpus| - 1], skip, disk);
    }
  }

  /** The control file written when coverage is reused. */
  lemma ReuseStarts(oldCorpus: seq<string>, newCorpus: seq<string>, skip: set<string>, disk: Disk, maxLen: nat)
    requires SaneNames(oldCorpus, disk) && SaneNames(newCorpus, disk) && |oldCorpus| + |newCorpus| < U64 && maxLen < U64
    ensures var fromOld, fromNew := Unknown(oldCorpus, skip), Unknown(newCorpus, skip);
            ControlFileOf(FileText(fromOld + fromNew, |fromOld|, []), fromOld + fromNew, |fromOld|, [], disk, maxLen)
  {
    hide FileText, SaneNames, Unknown;
    UnknownSane(oldCorpus, skip, disk);
    UnknownSane(newCorpus, skip, disk);
    BothSane(Unknown(oldCorpus, skip), Unknown(newCorpus, skip), disk);
  }

  lemma BothSane(a: seq<string>, b: seq<string>, disk: Disk)
    requires SaneNames(a, disk) && SaneNames(b, disk)
    ensures SaneNames(a + b, disk)
  {
    hide SaneInput, OneLine;
  }

  lemma NothingKnown(disk: Disk, maxLen: nat)
    ensures Told([], disk, [], maxLen, 0) && WholeFiles([], disk, [])
  {
  }

  /** What is parsed from the control file of a finished merge. */
  lemma KnownFiles(control: string, disk: Disk, maxLen: nat, names: seq<string>, inFirst: nat, recs: seq<Record>)
    requires ControlFileOf(control, names, inFirst, recs, disk, maxLen) && |recs| == |names| && 0 < |names| <= MAX_FILES
    ensures var r := ParseText([], control, true);
            && r.Parsed? && r.notProcessed == |r.files| == |names| && Elements(Names(r.files)) == Elements(names)
            && Told(r.files, disk, names, maxLen, |names|)
            && (Whole(disk, names, recs) ==> WholeFiles(r.files, disk, names))
  {
    hide ParseText, FileText, SaneNames, Faithful, Whole, Meaning, WholeFiles;
    ParsedControl(control, names, inFirst, recs, disk, maxLen);
    ReadsBack(control, disk, maxLen, names, inFirst, recs);
    CompleteLog(disk, names, maxLen, recs);
    if Whole(disk, names, recs) { WholeLog(disk, names, recs); }
    ToldNames(Meaning(names, recs, true).files, disk, names, maxLen);
  }

  lemma ToldNames(files: seq<FileInfo>, disk: Disk, names: seq<string>, maxLen: nat)
    requires Told(files, disk, names, maxLen, |names|)
    ensures Names(files) == names
  {
    forall j | 0 <= j < |names| ensures files[j].name == names[j] {
      ToldFile(files, disk, names, maxLen, |names|, j);
    }
  }

  /** `CrashResistantMerge`, up to its messages; an empty `control` is a control file of size zero. */
  method Merge(oldCorpus: seq<string>, newCorpus: seq<string>, disk: Disk, control: string, maxLen: nat,
               initialFeatures: set<nat>, initialCov: set<nat>, isSetCover: bool,
               ghost names: seq<string>, ghost inFirst: nat, ghost recs: seq<Record>)
    returns (r: Result)
    ensures oldCorpus == newCorpus == [] ==> r == NothingToMerge
    ensures Starts(control, oldCorpus, newCorpus, disk, maxLen, names, inFirst, recs) && |names| > MAX_FILES ==> r == Failed
    ensures (oldCorpus != [] || newCorpus != []) && IsComplete(control, |oldCorpus| + |newCorpus|) ==> r == AlreadyMerged
    ensures (oldCorpus != [] || newCorpus != [])
            && WellPosed(control, oldCorpus, newCorpus, disk, maxLen, names, inFirst, recs) ==>
              && r.Merged? && Correct(r, disk, names, inFirst, maxLen, initialFeatures, initialCov, isSetCover)
              && (isSetCover && Whole(disk, names, recs) ==> CoverBound(disk, names, inFirst, initialFeatures, |r.newFiles|))
    ensures (oldCorpus != [] || newCorpus != []) && !isSetCover
            && Starts(control, oldCorpus, newCorpus, disk, maxLen, names, inFirst, recs) && 0 < |names| <= MAX_FILES
            && NoneCrashes(disk, names, 0, |names|) ==>
              r.Merged? && KeepsExactly(disk, names, inFirst, initialFeatures, r.newFiles)
    ensures (oldCorpus != [] || newCorpus != [])
            && Reuses(control, oldCorpus, newCorpus, disk, maxLen, names, inFirst, recs) ==>
              var fromOld, fromNew := Unknown(oldCorpus, Elements(names)), Unknown(newCorpus, Elements(names));
              var unknown := fromOld + fromNew;
              if 0 < |unknown| <= MAX_FILES then
                && r.Merged?
                && CorrectReuse(r, disk, unknown + names, |fromOld|, |unknown|, maxLen, initialFeatures, initialCov, isSetCover)
                && (isSetCover && Whole(disk, names, recs) ==>
                      CoverBound(disk, unknown + names, |fromOld|, initialFeatures, |r.newFiles|))
              else r == Failed
  {
    hide ParseText, FileText, Faithful, SaneNames, Correct, CorrectReuse, CoverBound, Told, WholeFiles, Unknown,
         KeepsExactly, NoneCrashes;
    if oldCorpus == [] && newCorpus == [] { return NothingToMerge; }
    var verdict := InspectControl(control, |oldCorpus| + |newCorpus|);
    if ControlFileOf(control, names, inFirst, recs, disk, maxLen) {
      ParsedControl(control, names, inFirst, recs, disk, maxLen);
    }
    NothingKnown(disk, maxLen);
    assert names + [] == names;
    if Reuses(control, oldCorpus, newCorpus, disk, maxLen, names, inFirst, recs) {
      KnownFiles(control, disk, maxLen, names, inFirst, recs);
      ReuseStarts(oldCorpus, newCorpus, Elements(names), disk, maxLen);
    }
    match verdict {
      case Broken => return Undefined;
      case Complete => return AlreadyMerged;
      case InProgress(attempts) =>
        r := Attempts(control, [], attempts, disk, maxLen, initialFeatures, initialCov, isSetCover, names, inFirst, recs, []);
      case Fresh(known) =>
        var text, numAttempts := WriteNewControlFile(oldCorpus, newCorpus, known);
        ghost var skip := Elements(Names(known));
        ghost var fromOld, fromNew := Unknown(oldCorpus, skip), Unknown(newCorpus, skip);
        NothingToSkip(oldCorpus);
        NothingToSkip(newCorpus);
        assert known == [] ==> skip == {};
        assert Whole(disk, fromOld + fromNew, []);
        r := Attempts(text, known, numAttempts, disk, maxLen, initialFeatures, initialCov, isSetCover,
                      fromOld + fromNew, |fromOld|, [], if known == [] then [] else names);
    }
  }

  ghost predicate Correct(r: Result, disk: Disk, names: seq<string>, inFirst: nat, maxLen: nat,
                          initialFeatures: set<nat>, initialCov: set<nat>, isSetCover: bool)
    requires r.Merged? && inFirst <= |names|
  {
    if isSetCover then
      OneShotCover(disk, names, inFirst, |names|, initialFeatures, initialCov, r.newFeatures, r.newCov, r.newFiles)
    else OneShot(disk, names, inFirst, maxLen, initialFeatures, initialCov, r.newFeatures, r.newCov, r.newFiles)
  }

  /** The findings when the files from `split` on are known from an earlier merge. */
  ghost predicate CorrectReuse(r: Result, disk: Disk, names: seq<string>, inFirst: nat, split: nat, maxLen: nat,
                               initialFeatures: set<nat>, initialCov: set<nat>, isSetCover: bool)
    requires r.Merged? && inFirst <= split <= |names|
  {
    if isSetCover then
      OneShotCover(disk, names, inFirst, split, initialFeatures, initialCov, r.newFeatures, r.newCov, r.newFiles)
    else Reused(disk, names, inFirst, split, maxLen, initialFeatures, initialCov, r.newFeatures, r.newCov, r.newFiles)
  }

  method MergeGreedily(m: Merger, initialFeatures: set<nat>, initialCov: set<nat>,
                       ghost disk: Disk, ghost maxLen: nat, ghost names: seq<string>, ghost inFirst: nat, ghost split: nat)
    returns (r: Result)
    requires m.numFilesInFirstCorpus <= |m.files| && forall f | f in m.files :: Sorted(f.features)
    modifies m
    ensures r.Merged?
    ensures old(Told(m.files, disk, names, maxLen, split) && m.numFilesInFirstCorpus == inFirst <= split) ==>
              && CorrectReuse(r, disk, names, inFirst, split, maxLen, initialFeatures, initialCov, false)
              && (split == |names| ==> Correct(r, disk, names, inFirst, maxLen, initialFeatures, initialCov, false))
              && (old(ToldOnce(m.files, disk, names)) ==> KeepsExactly(disk, names, inFirst, initialFeatures, r.newFiles))
  {
    hide Told, Reused, OneShot, ToldOnce, KeepsExactly;
    ghost var files := m.files;
    ghost var complete := Told(files, disk, names, maxLen, split) && m.numFilesInFirstCorpus == inFirst <= split;
    var newFeatures, newCov, newFiles := m.Merge(initialFeatures, initialCov);
    if complete {
      ToldLength(files, disk, names, maxLen, split);
      MergeIsOneShot(files, disk, names, maxLen, split, inFirst, initialFeatures, initialCov, newFeatures, newCov, newFiles);
      if ToldOnce(files, disk, names) {
        ToldOnceAt(files, disk, names, 0);
        CorporaTell(files, disk, names, maxLen, inFirst, split);
        UninterruptedKeeps(files, disk, names, inFirst, initialFeatures, newFiles);
      }
    }
    return Merged(newFeatures, newCov, newFiles);
  }

  method MergeBySetCover(m: Merger, initialFeatures: set<nat>, initialCov: set<nat>,
                         ghost disk: Disk, ghost maxLen: nat, ghost names: seq<string>, ghost inFirst: nat, ghost split: nat)
    returns (r: Result)
    requires m.numFilesInFirstCorpus <= |m.files|
    ensures r.Merged?
    ensures Told(m.files, disk, names, maxLen, split) && m.numFilesInFirstCorpus == inFirst <= split <= |names| ==>
              && OneShotCover(disk, names, inFirst, split, initialFeatures, initialCov, r.newFeatures, r.newCov, r.newFiles)
              && (WholeFiles(m.files, disk, names) ==> CoverBound(disk, names, inFirst, initialFeatures, |r.newFiles|))
  {
    hide Told, OneShotCover, CoverBound, WholeFiles;
    ghost var picks;
    var newFeatures, newCov, newFiles;
    newFeatures, newCov, newFiles, picks := m.SetCoverMerge(initialFeatures, initialCov);
    if Told(m.files, disk, names, maxLen, split) && m.numFilesInFirstCorpus == inFirst <= split {
      ToldLength(m.files, disk, names, maxLen, split);
      ghost var existing := SlotSet(initialFeatures + FeaturesOf(m.files[..inFirst]));
      ghost var own := PicksOwnSlots(m.files, inFirst, picks, existing);
      CoverIsOneShot(m.files, disk, names, maxLen, split, inFirst, picks, own, initialFeatures, initialCov,
                     newFeatures, newCov, newFiles);
      if WholeFiles(m.files, disk, names) {
        CoverIsNearlyMinimal(m.files, disk, names, maxLen, split, inFirst, picks, initialFeatures);
      }
    }
    return Merged(newFeatures, newCov, newFiles);
  }

  lemma ReadsBack(text: string, disk: Disk, maxLen: nat, names: seq<string>, inFirst: nat, recs: seq<Record>)
    requires ControlFileOf(text, names, inFirst, recs, disk, maxLen) && 0 < |names| <= MAX_FILES
    ensures Faithful(disk, names, maxLen, recs) && inFirst <= |names|
    ensures var r := ParseText([], text, true);
            r.Parsed? && r.files == Meaning(names, recs, true).files && r.inFirst == inFirst
  {
    FaithfulIsWritable(disk, names, maxLen, recs);
    ParseWritten(names, inFirst, recs, true);
  }

  /** The files of a complete log, and after them known ones. */
  lemma LogThenKnown(text: string, disk: Disk, maxLen: nat, names: seq<string>, inFirst: nat, recs: seq<Record>,
                     known: seq<FileInfo>, knownNames: seq<string>)
    requires ControlFileOf(text, names, inFirst, recs, disk, maxLen) && 0 < |names| <= MAX_FILES && |recs| == |names|
    requires Told(known, disk, knownNames, maxLen, |knownNames|)
    ensures var r := ParseText([], text, true);
            && r.Parsed? && r.inFirst == inFirst && Told(r.files + known, disk, names + knownNames, maxLen, |names|)
            && (Whole(disk, names, recs) && WholeFiles(known, disk, knownNames) ==>
                  WholeFiles(r.files + known, disk, names + knownNames))
            && (knownNames == [] && Uninterrupted(disk, names, recs) ==> ToldOnce(r.files + known, disk, names))
  {
    hide *;
    ReadsBack(text, disk, maxLen, names, inFirst, recs);
    CompleteLog(disk, names, maxLen, recs);
    var files := Meaning(names, recs, true).files;
    TwoLogs(files, known, disk, names, knownNames, maxLen);
    ToldLength(known, disk, knownNames, maxLen, |knownNames|);
    assert knownNames == [] ==> files + known == files;
    if Whole(disk, names, recs) {
      WholeLog(disk, names, recs);
      if WholeFiles(known, disk, knownNames) { BothWhole(files, known, disk, names, knownNames); }
    }
    if Uninterrupted(disk, names, recs) { UninterruptedLog(disk, names, recs); }
  }

  lemma BothWhole(a: seq<FileInfo>, b: seq<FileInfo>, disk: Disk, names: seq<string>, more: seq<string>)
    requires WholeFiles(a, disk, names) && WholeFiles(b, disk, more)
    ensures WholeFiles(a + b, disk, names + more)
  {
    hide RunFeatures, NoDuplicates;
  }

  /** Reads the final control file and merges, with the files known before behind those it lists. */
  method MergeLog(text: string, known: seq<FileInfo>, initialFeatures: set<nat>, initialCov: set<nat>, isSetCover: bool,
                  ghost disk: Disk, ghost maxLen: nat, ghost names: seq<string>, ghost inFirst: nat, ghost recs: seq<Record>,
                  ghost knownNames: seq<string>)
    returns (r: Result)
    requires forall f | f in known :: Sorted(f.features)
    ensures ParseText([], text, true) == Bad ==> r == Failed
    ensures ControlFileOf(text, names, inFirst, recs, disk, maxLen) && 0 < |names| <= MAX_FILES && |recs| == |names|
            && Told(known, disk, knownNames, maxLen, |knownNames|) ==>
              && r.Merged?
              && CorrectReuse(r, disk, names + knownNames, inFirst, |names|, maxLen, initialFeatures, initialCov, isSetCover)
              && (isSetCover && Whole(disk, names, recs) && WholeFiles(known, disk, knownNames) ==>
                    CoverBound(disk, names + knownNames, inFirst, initialFeatures, |r.newFiles|))
              && (knownNames == [] ==> Correct(r, disk, names, inFirst, maxLen, initialFeatures, initialCov, isSetCover))
              && (knownNames == [] && !isSetCover && Uninterrupted(disk, names, recs) ==>
                    KeepsExactly(disk, names, inFirst, initialFeatures, r.newFiles))
  {
    hide ParseText, FileText, Faithful, SaneNames, OneShot, OneShotCover, Reused, CoverBound, Whole, Told, WholeFiles,
         ToldOnce, KeepsExactly, Uninterrupted;
    var m := new Merger();
    var outcome := m.Parse(text, true);
    ghost var complete := ControlFileOf(text, names, inFirst, recs, disk, maxLen) && 0 < |names| <= MAX_FILES
                          && |recs| == |names| && Told(known, disk, knownNames, maxLen, |knownNames|);
    if complete { LogThenKnown(text, disk, maxLen, names, inFirst, recs, known, knownNames); }
    ParsedIsSorted(text);
    if outcome == Overran { return Undefined; }
    if outcome == Rejected { return Failed; }
    m.files := m.files + known;
    assert knownNames == [] ==> names + knownNames == names;
    if isSetCover {
      r := MergeBySetCover(m, initialFeatures, initialCov, disk, maxLen, names + knownNames, inFirst, |names|);
    } else {
      r := MergeGreedily(m, initialFeatures, initialCov, disk, maxLen, names + knownNames, inFirst, |names|);
    }
  }

  /** The inner processes, and the merge of what they have recorded. */
  method Attempts(control: string, known: seq<FileInfo>, numAttempts: nat, disk: Disk, maxLen: nat,
                  initialFeatures: set<nat>, initialCov: set<nat>, isSetCover: bool,
                  ghost names: seq<string>, ghost inFirst: nat, ghost recs: seq<Record>, ghost knownNames: seq<string>)
    returns (r: Result)
    requires forall f | f in known :: Sorted(f.features)
    ensures ControlFileOf(control, names, inFirst, recs, disk, maxLen) && !(0 < |names| <= MAX_FILES) ==> r == Failed
    ensures ControlFileOf(control, names, inFirst, recs, disk, maxLen) && 0 < |names| <= MAX_FILES
            && |names| <= |recs| + numAttempts && Told(known, disk, knownNames, maxLen, |knownNames|) ==>
              && r.Merged?
              && CorrectReuse(r, disk, names + knownNames, inFirst, |names|, maxLen, initialFeatures, initialCov, isSetCover)
              && (isSetCover && Whole(disk, names, recs) && WholeFiles(known, disk, knownNames) ==>
                    CoverBound(disk, names + knownNames, inFirst, initialFeatures, |r.newFiles|))
              && (knownNames == [] ==> Correct(r, disk, names, inFirst, maxLen, initialFeatures, initialCov, isSetCover))
              && (knownNames == [] && !isSetCover && recs == [] && NoneCrashes(disk, names, 0, |names|) ==>
                    KeepsExactly(disk, names, inFirst, initialFeatures, r.newFiles))
  {
    hide ParseText, ControlFileOf, Correct, CorrectReuse, CoverBound, Whole, Told, WholeFiles, KeepsExactly, Uninterrupted,
         WrittenSince, NoneCrashes;
    if ControlFileOf(control, names, inFirst, recs, disk, maxLen) {
      ParsedControl(control, names, inFirst, recs, disk, maxLen);
    }
    var text;
    ghost var recs';
    text, recs' := RunAttempts(control, disk, maxLen, isSetCover, numAttempts, names, inFirst, recs);
    if ControlFileOf(text, names, inFirst, recs', disk, maxLen) && recs == [] && |recs'| == |names| && !isSetCover
       && WrittenSince(disk, names, false, 0, recs') && NoneCrashes(disk, names, 0, |names|)
    {
      NeverInterrupted(text, inFirst, disk, names, maxLen, recs');
    }
    r := MergeLog(text, known, initialFeatures, initialCov, isSetCover, disk, maxLen, names, inFirst, recs', knownNames);
  }
}
