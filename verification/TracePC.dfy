/** The coverage map of the process under test (FuzzerTracePC.h, FuzzerTracePC.cpp). */
module TracePCs {
  import opened Widths
  import Bits
  import opened Collections
  import opened CounterScan
  import opened Regions
  import opened ValueBitMaps
  import Features
  import opened FunctionCoverage

  const MAX_MODULES: nat := 4096

  datatype Module = Module(regions: seq<Region>) {
    function Start(): nat requires regions != [] { regions[0].start }
    function Stop(): nat requires regions != [] { regions[|regions| - 1].stop }
  }

  ghost predicate ValidModule(m: Module) {
    m.regions != [] && m.Start() < m.Stop() && Tile(m.regions, m.Start(), m.Stop())
  }

  function EnabledIn(regions: seq<Region>, n: nat): seq<Region>
    requires n <= |regions|
  {
    if n == 0 then [] else EnabledIn(regions, n - 1) + if regions[n - 1].enabled then [regions[n - 1]] else []
  }

  function EnabledBefore(modules: seq<Module>, n: nat): seq<Region>
    requires n <= |modules|
  {
    if n == 0 then [] else EnabledBefore(modules, n - 1) + EnabledIn(modules[n - 1].regions, |modules[n - 1].regions|)
  }

  /** Features are cut to 32 bits on their way to the callback. */
  function Cut(s: seq<nat>): (r: seq<nat>)
    ensures |r| == |s| && forall i | 0 <= i < |s| :: r[i] == s[i] % U32
  {
    seq(|s|, i requires 0 <= i < |s| => s[i] % U32)
  }

  lemma CutAppend(s: seq<nat>, t: seq<nat>)
    ensures Cut(s + t) == Cut(s) + Cut(t)
  {
  }

  /** Nothing is lost to the cut as long as the total fits in 32 bits. */
  lemma CutFits(s: Features.Snapshot)
    requires Features.Valid(s)
    ensures Features.Total(s) <= U32 ==>
              && Cut(Features.Reported(s)) == Features.Reported(s)
              && StrictlySorted(Features.Reported(s))
              && forall f | f in Features.Reported(s) :: f < Features.Total(s)
  {
    hide Features.Reported, Features.Total;
    Features.ReportedIncrease(s);
  }

  class CoverageInfo {
    var observedPCs: set<Entry>
    var observedFuncs: map<nat, nat>
    var lastObservedFuncs: map<nat, nat>
    var funcsInfo: seq<FuncInfo>

    constructor ()
      ensures Value() == Cache({}, map[], map[], [])
    {
      observedPCs, observedFuncs, lastObservedFuncs, funcsInfo := {}, map[], map[], [];
    }

    function Value(): Cache
      reads this
    {
      Cache(observedPCs, observedFuncs, lastObservedFuncs, funcsInfo)
    }
  }

  class TracePC {
    const pageSize: nat
    var useCounters: bool
    var useValueProfile: bool
    var modules: seq<Module>
    var numInline8bitCounters: nat
    var pcTables: seq<seq<PCTableEntry>>
    var pcTableStarts: seq<nat>
    var numPCsInPCTables: nat
    var extraCounters: Region
    const valueProfileMap: ValueBitMap
    var initialStack: nat
    var lowestStack: nat

    constructor (pageSize: nat)
      ensures this.pageSize == pageSize && modules == [] && pcTables == [] && pcTableStarts == []
      ensures numInline8bitCounters == 0 == numPCsInPCTables
      ensures fresh(valueProfileMap) && valueProfileMap.Valid() && fresh(valueProfileMap.map_)
    {
      this.pageSize := pageSize;
      useCounters, useValueProfile := false, false;
      modules, pcTables, pcTableStarts := [], [], [];
      numInline8bitCounters, numPCsInPCTables := 0, 0;
      extraCounters := Region(0, 0, true, false);
      valueProfileMap := new ValueBitMap();
      initialStack, lowestStack := 0, 0;
    }

    ghost predicate ValidModules()
      reads this
    {
      forall i | 0 <= i < |modules| :: ValidModule(modules[i])
    }

    /** Registers a module's counters, unless there are none or the last module registered begins there. The regions
        tile the counters exactly if the start is not within the last page of the address space; the assertions about
        the module's size and bounds hold just then. */
    method HandleInline8bitCountersInit(start: nat, stop: nat)
      requires IsPageSize(pageSize) && start <= stop < ADDRESS_SPACE
      requires ValidModules() && |modules| < MAX_MODULES
      modifies this`modules, this`numInline8bitCounters
      ensures ValidModules()
      ensures
        if start == stop || (old(modules) != [] && old(modules)[|old(modules)| - 1].Start() == start) then
          modules == old(modules) && numInline8bitCounters == old(numInline8bitCounters)
        else
          && modules == old(modules) + [Module(RegionsOf(start, stop, pageSize))]
          && var m := modules[|modules| - 1];
          && (Tile(m.regions, start, stop) <==> start + pageSize <= ADDRESS_SPACE)
          && (m.Stop() == stop && m.Start() == if start + pageSize <= ADDRESS_SPACE then start else 0)
          && numInline8bitCounters == old(numInline8bitCounters) + (m.Stop() - m.Start())
    {
      if start == stop {
        return;
      }
      if modules != [] && modules[|modules| - 1].Start() == start {
        return;
      }
      var regions := SplitByPage(start, stop);
      var m := Module(regions);
      modules := modules + [m];
      numInline8bitCounters := numInline8bitCounters + (m.Stop() - m.Start());
    }

    method SplitByPage(start: nat, stop: nat) returns (out: seq<Region>)
      requires IsPageSize(pageSize) && start < stop < ADDRESS_SPACE
      ensures out == RegionsOf(start, stop, pageSize)
      ensures Tile(out, start, stop) <==> start + pageSize <= ADDRESS_SPACE
      ensures Tile(out, if start + pageSize <= ADDRESS_SPACE then start else 0, stop)
    {
      PageBounds(pageSize);
      PagesCount(start, stop, pageSize);
      RegionsTile(start, stop, pageSize);
      hide RoundUpByPage, RoundDownByPage, Layout, Tile, Pages, PageAligned, NumFullPages;
      out := FillRegions(start, stop, RoundUpByPage(start, pageSize), RoundDownByPage(stop, pageSize));
    }

    method FillRegions(start: nat, stop: nat, alignedStart: nat, alignedStop: nat) returns (out: seq<Region>)
      requires pageSize > 0
      requires |Pages(alignedStart, alignedStop, pageSize)| == NumFullPages(alignedStart, alignedStop, pageSize)
      ensures out == Layout(start, stop, alignedStart, alignedStop, pageSize)
    {
      var numFullPages := NumFullPages(alignedStart, alignedStop, pageSize);
      var needFirst := start < alignedStart || numFullPages == 0;
      var needLast := stop > alignedStop && alignedStop >= alignedStart;
      hide NumFullPages;
      var numRegions := numFullPages + (if needFirst then 1 else 0) + (if needLast then 1 else 0);
      var regions := new Region[numRegions];
      var r := 0;
      if needFirst {
        regions[r] := Region(start, if alignedStart < stop then alignedStart else stop, true, false);
        r := r + 1;
      }
      var p := alignedStart;
      ghost var first := if needFirst then [Region(start, if alignedStart < stop then alignedStart else stop, true, false)] else [];
      assert regions[..r] == first;
      while p < alignedStop
        invariant r + |Pages(p, alignedStop, pageSize)| + (if needLast then 1 else 0) == numRegions
        invariant regions[..r] + Pages(p, alignedStop, pageSize) == first + Pages(alignedStart, alignedStop, pageSize)
        decreases if p < alignedStop then alignedStop - p else 0
      {
        regions[r] := Region(p, p + pageSize, true, true);
        r := r + 1;
        p := p + pageSize;
      }
      assert regions[..r] == first + Pages(alignedStart, alignedStop, pageSize);
      ghost var full := regions[..r];
      if needLast {
        regions[r] := Region(alignedStop, stop, true, false);
        r := r + 1;
      }
      out := regions[..];
      assert out == full + if needLast then [Region(alignedStop, stop, true, false)] else [];
    }

    method HandlePCsInit(start: nat, entries: seq<PCTableEntry>)
      requires |pcTables| == |pcTableStarts| < MAX_MODULES
      modifies this`pcTables, this`pcTableStarts, this`numPCsInPCTables
      ensures
        if old(pcTableStarts) != [] && old(pcTableStarts)[|old(pcTableStarts)| - 1] == start then
          pcTables == old(pcTables) && pcTableStarts == old(pcTableStarts) && numPCsInPCTables == old(numPCsInPCTables)
        else
          && pcTables == old(pcTables) + [entries] && pcTableStarts == old(pcTableStarts) + [start]
          && numPCsInPCTables == old(numPCsInPCTables) + |entries|
    {
      if pcTableStarts != [] && pcTableStarts[|pcTableStarts| - 1] == start {
        return;
      }
      pcTables, pcTableStarts := pcTables + [entries], pcTableStarts + [start];
      numPCsInPCTables := numPCsInPCTables + |entries|;
    }

    // ----- features

    function GetMaxStackOffset(): nat
      reads this
    {
      (initialStack - lowestStack) % ADDRESS_SPACE
    }

    ghost function Snapshot(memory: seq<byte>): Features.Snapshot
      reads this, valueProfileMap, valueProfileMap.map_
    {
      Features.Snapshot(memory, EnabledBefore(modules, |modules|) + [extraCounters], useCounters, useValueProfile,
                        valueProfileMap.map_[..], GetMaxStackOffset())
    }

    /** Calls the callback for the counters of one region. */
    method HandleCounters(features: seq<nat>, first: nat, hits: seq<Hit>) returns (out: seq<nat>)
      requires Features.NonZero(hits)
      ensures out == features + Cut(Features.HitFeatures(useCounters, first, hits))
    {
      out := features;
      for i := 0 to |hits|
        invariant out == features + Cut(Features.HitFeatures(useCounters, first, hits))[..i]
      {
        out := out + [Features.CounterFeature(useCounters, first, hits[i]) % U32];
      }
    }

    ghost predicate ReadableRegions(memory: seq<byte>)
      reads this
    {
      && (forall m, r | m in modules && r in m.regions :: r.start <= r.stop <= |memory|)
      && extraCounters.start <= extraCounters.stop <= |memory|
    }

    /** Reads all coverage of one execution: the features in the order they are reported, and their total number. */
    method CollectFeatures(memory: seq<byte>) returns (features: seq<nat>, total: nat)
      requires valueProfileMap.Valid() && ReadableRegions(memory)
      ensures Features.Valid(Snapshot(memory))
      ensures features == Cut(Features.Reported(Snapshot(memory))) && total == Features.Total(Snapshot(memory))
      ensures total <= U32 ==> StrictlySorted(features) && forall f | f in features :: f < total
    {
      ghost var s := Snapshot(memory);
      hide Features.StackDepthStep, Features.CounterFeatures, Features.FirstAfter, SetBits, EnabledBefore, Bits.Pow2, StrictlySorted;
      var first: nat;
      features, first := CollectCounters(memory);
      features, first := AddProfile(features, first);
      CutAppend(Features.CounterFeatures(memory, s.regions, useCounters), Features.ProfileFeatures(s));
      var maxStackOffset := GetMaxStackOffset();
      if maxStackOffset != 0 {
        var feature := first + Features.StackDepthStep(maxStackOffset / 8);
        CutAppend(Features.CounterFeatures(memory, s.regions, useCounters) + Features.ProfileFeatures(s), [feature]);
        features := features + [feature % U32];
        first := first + Features.StackDepthStep(ADDRESS_SPACE - 1);
      }
      total := first;
      CutFits(s);
    }

    method AddProfile(before: seq<nat>, first: nat) returns (features: seq<nat>, first': nat)
      requires valueProfileMap.Valid()
      ensures if useValueProfile then
                && features == before + Cut(Features.Shifted(SetBits(valueProfileMap.map_[..], MAP_SIZE_IN_BITS), first))
                && first' == first + MAP_SIZE_IN_BITS
              else features == before && first' == first
    {
      features, first' := before, first;
      if useValueProfile {
        var bits := valueProfileMap.ForEach();
        for i := 0 to |bits|
          invariant features == before + Cut(Features.Shifted(bits, first))[..i]
        {
          features := features + [(first + bits[i]) % U32];
        }
        first' := first + valueProfileMap.SizeInBits();
      }
    }

    method CollectCounters(memory: seq<byte>) returns (features: seq<nat>, first: nat)
      requires ReadableRegions(memory)
      ensures Counted(memory, EnabledBefore(modules, |modules|) + [extraCounters], features, first)
    {
      features, first := [], 0;
      assert Counted(memory, EnabledBefore(modules, 0), features, first);
      hide Counted;
      for i := 0 to |modules|
        invariant Counted(memory, EnabledBefore(modules, i), features, first)
      {
        features, first := CollectModule(memory, modules[i].regions, features, first, EnabledBefore(modules, i));
      }
      features, first := CollectRegion(memory, extraCounters, features, first, EnabledBefore(modules, |modules|));
    }

    method CollectModule(memory: seq<byte>, regions: seq<Region>, features: seq<nat>, first: nat, ghost before: seq<Region>)
      returns (features': seq<nat>, first': nat)
      requires Counted(memory, before, features, first) && forall r | r in regions :: r.start <= r.stop <= |memory|
      ensures Counted(memory, before + EnabledIn(regions, |regions|), features', first')
    {
      hide Counted;
      features', first' := features, first;
      assert before + EnabledIn(regions, 0) == before;
      for r := 0 to |regions|
        invariant Counted(memory, before + EnabledIn(regions, r), features', first')
      {
        if regions[r].enabled {
          features', first' := CollectRegion(memory, regions[r], features', first', before + EnabledIn(regions, r));
          assert before + EnabledIn(regions, r) + [regions[r]] == before + EnabledIn(regions, r + 1);
        } else {
          assert EnabledIn(regions, r) == EnabledIn(regions, r + 1);
        }
      }
    }

    /** The features and the first free number once the given regions have been read. */
    ghost predicate Counted(memory: seq<byte>, regions: seq<Region>, features: seq<nat>, first: nat)
      reads this
    {
      && Features.ValidRegions(memory, regions)
      && features == Cut(Features.CounterFeatures(memory, regions, useCounters)) && first == Features.FirstAfter(regions)
    }

    method CollectRegion(memory: seq<byte>, region: Region, features: seq<nat>, first: nat, ghost before: seq<Region>)
      returns (features': seq<nat>, first': nat)
      requires Counted(memory, before, features, first) && region.start <= region.stop <= |memory|
      ensures Counted(memory, before + [region], features', first')
    {
      var hits, size := ForEachNonZeroByte(memory, region.start, region.stop);
      features' := HandleCounters(features, first, hits);
      first' := first + 8 * size;
      assert (before + [region])[..|before|] == before;
      CutAppend(Features.CounterFeatures(memory, before, useCounters), Features.HitFeatures(useCounters, first, hits));
    }

    // ----- observed PCs

    ghost predicate ModulesMatchTables(memory: seq<byte>)
      reads this
    {
      && |modules| == |pcTables|
      && forall i | 0 <= i < |modules| ::
           ValidModule(modules[i]) && modules[i].Stop() <= |memory| && |pcTables[i]| == modules[i].Stop() - modules[i].Start()
    }

    /** The entries of the first m modules, and of module m up to address p, whose counter is not zero. */
    ghost function HitsBefore(memory: seq<byte>, m: nat, p: int): set<Entry>
      reads this
      requires ModulesMatchTables(memory)
    {
      set i: nat, k: nat |
        && i < |modules| && k < |pcTables[i]| && memory[modules[i].Start() + k] != 0
        && (i < m || (i == m && modules[i].Start() + k < p)) :: Entry(i, k)
    }

    lemma NextHit(memory: seq<byte>, m: nat, p: nat)
      requires ModulesMatchTables(memory) && m < |modules| && modules[m].Start() <= p < modules[m].Stop()
      ensures memory[p] == 0 ==> HitsBefore(memory, m, p + 1) == HitsBefore(memory, m, p)
      ensures memory[p] != 0 ==>
                HitsBefore(memory, m, p + 1) == HitsBefore(memory, m, p) + {Entry(m, p - modules[m].Start())}
    {
    }

    lemma ModuleHits(memory: seq<byte>, m: nat)
      requires ModulesMatchTables(memory) && m < |modules|
      ensures HitsBefore(memory, m, modules[m].Start()) == HitsBefore(memory, m, 0)
      ensures HitsBefore(memory, m, modules[m].Stop()) == HitsBefore(memory, m + 1, 0)
    {
    }

    /** Counts the functions entered and notes the blocks executed. */
    method UpdateObservedPCs(memory: seq<byte>, ci: CoverageInfo)
      requires numPCsInPCTables != 0 && numInline8bitCounters == numPCsInPCTables ==> ModulesMatchTables(memory)
      requires DistinctEntries(pcTables)
      modifies ci
      ensures
        if numPCsInPCTables != 0 && numInline8bitCounters == numPCsInPCTables then
          Observed(pcTables, old(ci.Value()), HitsBefore(memory, |modules|, 0), ci.Value())
        else ci.Value() == old(ci.Value())
    {
      if numPCsInPCTables != 0 && numInline8bitCounters == numPCsInPCTables {
        ghost var c := ci.Value();
        assert Observed(pcTables, c, HitsBefore(memory, 0, 0), ci.Value());
        hide Observed, DistinctEntries;
        for i := 0 to |modules|
          invariant Observed(pcTables, c, HitsBefore(memory, i, 0), ci.Value())
        {
          ModuleHits(memory, i);
          ObserveModule(memory, ci, i, c);
        }
      }
    }

    method ObserveModule(memory: seq<byte>, ci: CoverageInfo, i: nat, ghost c: Cache)
      requires ModulesMatchTables(memory) && DistinctEntries(pcTables) && i < |modules|
      requires Observed(pcTables, c, HitsBefore(memory, i, modules[i].Start()), ci.Value())
      modifies ci
      ensures Observed(pcTables, c, HitsBefore(memory, i, modules[i].Stop()), ci.Value())
    {
      hide Observed, DistinctEntries, HitsBefore;
      var m := modules[i];
      for r := 0 to |m.regions|
        invariant Observed(pcTables, c, HitsBefore(memory, i, if r == 0 then m.Start() else m.regions[r - 1].stop), ci.Value())
      {
        if m.regions[r].enabled {
          RegionInside(m.regions, r, m.Start(), m.Stop());
          ObserveRegion(memory, ci, i, m.regions[r], c);
        }
      }
    }

    method ObserveRegion(memory: seq<byte>, ci: CoverageInfo, i: nat, region: Region, ghost c: Cache)
      requires ModulesMatchTables(memory) && DistinctEntries(pcTables) && i < |modules|
      requires modules[i].Start() <= region.start <= region.stop <= modules[i].Stop()
      requires Observed(pcTables, c, HitsBefore(memory, i, region.start), ci.Value())
      modifies ci
      ensures Observed(pcTables, c, HitsBefore(memory, i, region.stop), ci.Value())
    {
      hide Observed, DistinctEntries;
      for p := region.start to region.stop
        invariant Observed(pcTables, c, HitsBefore(memory, i, p), ci.Value())
      {
        NextHit(memory, i, p);
        if memory[p] != 0 {
          var e := Entry(i, p - modules[i].Start());
          assert e !in HitsBefore(memory, i, p);
          ObserveStep(pcTables, c, HitsBefore(memory, i, p), ci.Value(), e);
          Observe(ci, e);
        }
      }
    }

    method Observe(ci: CoverageInfo, e: Entry)
      requires e.table < |pcTables| && e.idx < |pcTables[e.table]|
      modifies ci
      ensures ci.Value() == ObserveOne(pcTables, old(ci.Value()), e)
    {
      var te := pcTables[e.table][e.idx];
      if PcIsFuncEntry(te) {
        ci.observedFuncs := ci.observedFuncs[te.pc := Count(ci.observedFuncs, te.pc) + 1];
      }
      ci.observedPCs := ci.observedPCs + {e};
    }

    // ----- the per-function cache

    /** Brings the entries of all functions whose count has changed up to date. */
    method GetFuncFreqsUncoveredInfo(ci: CoverageInfo, interesting: nat -> bool)
      requires ValidTables(pcTables)
      modifies ci
      ensures Ordered(AllFunctions(pcTables, |pcTables|))
      ensures ci.Value() == Refresh(old(ci.Value()), AllFunctions(pcTables, |pcTables|), interesting)
    {
      ghost var c := ci.Value();
      ghost var done: seq<Func> := [];
      for i := 0 to |pcTables|
        invariant done == AllFunctions(pcTables, i) && Ordered(done) && ci.Value() == Refresh(c, done, interesting)
      {
        AllOrdered(pcTables, i + 1);
        done := IterateTable(ci, i, interesting, c, done);
      }
    }

    method IterateTable(ci: CoverageInfo, i: nat, interesting: nat -> bool, ghost c: Cache, ghost before: seq<Func>)
      returns (ghost done: seq<Func>)
      requires i < |pcTables| && Ordered(before) && ci.Value() == Refresh(c, before, interesting)
      modifies ci
      ensures done == before + FunctionsFrom(pcTables[i], i, 0)
      ensures Ordered(done) && ci.Value() == Refresh(c, done, interesting)
    {
      hide Refresh, RefreshOne;
      var t := pcTables[i];
      var nextFE := 0;
      done := before;
      while nextFE < |t|
        invariant 0 <= nextFE <= |t| && done + FunctionsFrom(t, i, nextFE) == before + FunctionsFrom(t, i, 0)
        invariant Ordered(done) && ci.Value() == Refresh(c, done, interesting)
      {
        var fe := nextFE;
        nextFE := FindNextEntry(t, fe);
        ghost var f := Func(i, fe, nextFE, t[fe].pc);
        RefreshNext(c, done, f, interesting);
        assert done + FunctionsFrom(t, i, fe) == done + [f] + FunctionsFrom(t, i, nextFE);
        CoveredFunction(ci, i, fe, nextFE, t[fe].pc, interesting);
        done := done + [f];
      }
    }

    /** The callback for the function of entries [first, last): skips it unless its hit count has changed. */
    method CoveredFunction(ci: CoverageInfo, table: nat, first: nat, last: nat, pc: nat, interesting: nat -> bool)
      requires first <= last
      modifies ci
      ensures ci.Value() == RefreshOne(old(ci.Value()), Func(table, first, last, pc), interesting)
    {
      var counter := Count(ci.observedFuncs, pc);
      ci.observedFuncs := ci.observedFuncs[pc := counter];
      if counter == 0 {
        return;
      }
      if Count(ci.lastObservedFuncs, pc) == counter {
        return;
      }
      ci.lastObservedFuncs := ci.lastObservedFuncs[pc := counter];
      var visualizePC := GetNextInstructionPc(pc);
      if !interesting(visualizePC) {
        return;
      }
      var unSize, cSize := CountBlocks(ci, table, first, last);
      var info := FuncInfo(visualizePC, counter, unSize, cSize);
      StoreInfo(ci, info);
    }

    method CountBlocks(ci: CoverageInfo, table: nat, first: nat, last: nat) returns (unSize: nat, cSize: nat)
      requires first <= last
      ensures cSize == Covered(ci.observedPCs, table, first, last) && unSize == last - first - cSize
    {
      unSize, cSize := 0, 0;
      for te := first to last
        invariant cSize == Covered(ci.observedPCs, table, first, te) && unSize == te - first - cSize
      {
        if Entry(table, te) !in ci.observedPCs {
          unSize := unSize + 1;
        } else {
          cSize := cSize + 1;
        }
      }
    }

    method StoreInfo(ci: CoverageInfo, info: FuncInfo)
      modifies ci`funcsInfo
      ensures ci.funcsInfo == Put(old(ci.funcsInfo), info)
    {
      var i := 0;
      while i < |ci.funcsInfo| && ci.funcsInfo[i].id != info.id
        invariant 0 <= i <= |ci.funcsInfo| && forall k | 0 <= k < i :: ci.funcsInfo[k].id != info.id
      {
        i := i + 1;
      }
      PutAt(ci.funcsInfo, info, i);
      ci.funcsInfo := if i < |ci.funcsInfo| then ci.funcsInfo[i := info] else ci.funcsInfo + [info];
    }
  }

  lemma RegionInside(regions: seq<Region>, r: nat, start: nat, stop: nat)
    requires Tile(regions, start, stop) && r < |regions|
    ensures start <= regions[r].start <= regions[r].stop <= stop
    ensures regions[r].start == if r == 0 then start else regions[r - 1].stop
  {
    RegionsAscend(regions, 0, r);
    RegionsAscend(regions, r, |regions| - 1);
  }

  lemma {:induction false} RegionsAscend(regions: seq<Region>, i: nat, j: nat)
    requires i <= j < |regions| && Tile(regions, regions[0].start, regions[|regions| - 1].stop)
    ensures regions[i].start <= regions[j].start && regions[i].stop <= regions[j].stop
  {
    if i < j {
      RegionsAscend(regions, i, j - 1);
      assert regions[j - 1].stop == regions[j].start;
    }
  }
}
