/** What the fork-mode parent keeps per function: hit counts, and a cache of covered and uncovered blocks
    that is only refreshed where a hit count changed. */
module FunctionCoverage {
  /** A PC table has one entry per instrumented block; bit 0 of the flags marks a function entry. */
  datatype PCTableEntry = PCTableEntry(pc: nat, flags: nat)

  /** The address of an entry: which table, and where in it. */
  datatype Entry = Entry(table: nat, idx: nat)

  /** A function's entries are [first, last) of its table; the first one is its entry point. */
  datatype Func = Func(table: nat, first: nat, last: nat, pc: nat)

  datatype FuncInfo = FuncInfo(id: nat, hits: nat, uncoverSize: nat, coveredSize: nat)

  /** The fields of `CoverageInfo`. */
  datatype Cache = Cache(observedPCs: set<Entry>, observedFuncs: map<nat, nat>, lastObservedFuncs: map<nat, nat>,
                         funcsInfo: seq<FuncInfo>)

  function PcIsFuncEntry(te: PCTableEntry): bool { te.flags % 2 == 1 }

  function GetNextInstructionPc(pc: nat): nat { pc + 1 }

  /** `operator[]` of a map of counters. */
  function Count(m: map<nat, nat>, k: nat): nat {
    if k in m then m[k] else 0
  }

  // ----- functions

  ghost predicate ValidTables(tables: seq<seq<PCTableEntry>>) {
    forall i | 0 <= i < |tables| :: tables[i] != [] && PcIsFuncEntry(tables[i][0])
  }

  function NextEntry(t: seq<PCTableEntry>, i: nat): (j: nat)
    requires i < |t|
    ensures i < j <= |t| && (j == |t| || PcIsFuncEntry(t[j]))
    ensures forall k | i < k < j :: !PcIsFuncEntry(t[k])
    decreases |t| - i
  {
    if i + 1 == |t| || PcIsFuncEntry(t[i + 1]) then i + 1 else NextEntry(t, i + 1)
  }

  /** The loop that walks to the next function entry. */
  method FindNextEntry(t: seq<PCTableEntry>, i: nat) returns (j: nat)
    requires i < |t|
    ensures j == NextEntry(t, i)
  {
    j := i + 1;
    while j < |t| && !PcIsFuncEntry(t[j])
      invariant i < j <= |t| && NextEntry(t, j - 1) == NextEntry(t, i)
    {
      j := j + 1;
    }
  }

  function FunctionsFrom(t: seq<PCTableEntry>, table: nat, i: nat): seq<Func>
    requires i <= |t|
    decreases |t| - i
  {
    if i == |t| then [] else [Func(table, i, NextEntry(t, i), t[i].pc)] + FunctionsFrom(t, table, NextEntry(t, i))
  }

  function AllFunctions(tables: seq<seq<PCTableEntry>>, n: nat): seq<Func>
    requires n <= |tables|
  {
    if n == 0 then [] else AllFunctions(tables, n - 1) + FunctionsFrom(tables[n - 1], n - 1, 0)
  }

  ghost predicate IsFunc(tables: seq<seq<PCTableEntry>>, f: Func) {
    && f.table < |tables| && f.first < |tables[f.table]| && PcIsFuncEntry(tables[f.table][f.first])
    && f.last == NextEntry(tables[f.table], f.first) && f.pc == tables[f.table][f.first].pc
  }

  /** No two functions have the same entry point. */
  ghost predicate DistinctEntries(tables: seq<seq<PCTableEntry>>) {
    forall f: Func, g: Func :: IsFunc(tables, f) && IsFunc(tables, g) && f.pc == g.pc ==> f == g
  }

  lemma {:induction false} FunctionsOfTable(tables: seq<seq<PCTableEntry>>, table: nat, i: nat, f: Func)
    requires table < |tables| && i <= |tables[table]| && (i == |tables[table]| || PcIsFuncEntry(tables[table][i]))
    ensures f in FunctionsFrom(tables[table], table, i) <==> IsFunc(tables, f) && f.table == table && f.first >= i
    decreases |tables[table]| - i
  {
    var t := tables[table];
    if i < |t| {
      var first, next := Func(table, i, NextEntry(t, i), t[i].pc), NextEntry(t, i);
      FunctionsOfTable(tables, table, next, f);
      assert FunctionsFrom(t, table, i) == [first] + FunctionsFrom(t, table, next);
      if IsFunc(tables, f) && f.table == table && i <= f.first < next { assert f == first; }
    }
  }

  /** The iteration over the PC tables finds every function, and nothing else. */
  lemma {:induction false} FunctionsFound(tables: seq<seq<PCTableEntry>>, n: nat, f: Func)
    requires ValidTables(tables) && n <= |tables|
    ensures f in AllFunctions(tables, n) <==> IsFunc(tables, f) && f.table < n
  {
    if n > 0 {
      FunctionsFound(tables, n - 1, f);
      FunctionsOfTable(tables, n - 1, 0, f);
    }
  }

  // ----- the two operations

  /** One execution: `hits` are the entries with a non-zero counter. */
  ghost predicate Observed(tables: seq<seq<PCTableEntry>>, c: Cache, hits: set<Entry>, c': Cache) {
    && c'.observedPCs == c.observedPCs + hits
    && c'.lastObservedFuncs == c.lastObservedFuncs && c'.funcsInfo == c.funcsInfo
    && forall f: Func :: IsFunc(tables, f) ==>
         Count(c'.observedFuncs, f.pc)
         == Count(c.observedFuncs, f.pc) + if Entry(f.table, f.first) in hits then 1 else 0
  }

  /** A block with a non-zero counter is seen. */
  function ObserveOne(tables: seq<seq<PCTableEntry>>, c: Cache, e: Entry): Cache
    requires e.table < |tables| && e.idx < |tables[e.table]|
  {
    var te := tables[e.table][e.idx];
    var funcs := if PcIsFuncEntry(te) then c.observedFuncs[te.pc := Count(c.observedFuncs, te.pc) + 1] else c.observedFuncs;
    c.(observedFuncs := funcs, observedPCs := c.observedPCs + {e})
  }

  lemma ObserveStep(tables: seq<seq<PCTableEntry>>, c: Cache, hits: set<Entry>, c': Cache, e: Entry)
    requires DistinctEntries(tables) && Observed(tables, c, hits, c')
    requires e.table < |tables| && e.idx < |tables[e.table]| && e !in hits
    ensures Observed(tables, c, hits + {e}, ObserveOne(tables, c', e))
  {
    var te := tables[e.table][e.idx];
    var c'' := ObserveOne(tables, c', e);
    forall f: Func | IsFunc(tables, f)
      ensures Count(c''.observedFuncs, f.pc)
           == Count(c.observedFuncs, f.pc) + if Entry(f.table, f.first) in hits + {e} then 1 else 0
    {
      if PcIsFuncEntry(te) {
        var g := Func(e.table, e.idx, NextEntry(tables[e.table], e.idx), te.pc);
        assert IsFunc(tables, g);
      }
    }
  }

  function Covered(pcs: set<Entry>, table: nat, first: nat, last: nat): (n: nat)
    requires first <= last
    ensures n <= last - first
    decreases last
  {
    if first == last then 0 else
      Covered(pcs, table, first, last - 1) + if Entry(table, last - 1) in pcs then 1 else 0
  }

  /** The information about a function, computed from scratch. */
  function Recomputed(c: Cache, f: Func): FuncInfo
    requires f.first <= f.last
  {
    var covered := Covered(c.observedPCs, f.table, f.first, f.last);
    FuncInfo(GetNextInstructionPc(f.pc), Count(c.observedFuncs, f.pc), f.last - f.first - covered, covered)
  }

  /** Overwrites the first entry of this id, or appends one. */
  function Put(infos: seq<FuncInfo>, info: FuncInfo): seq<FuncInfo> {
    if infos == [] then [info]
    else if infos[0].id == info.id then [info] + infos[1..]
    else [infos[0]] + Put(infos[1..], info)
  }

  function RefreshOne(c: Cache, f: Func, interesting: nat -> bool): Cache
    requires f.first <= f.last
  {
    var counter := Count(c.observedFuncs, f.pc);
    var c1 := c.(observedFuncs := c.observedFuncs[f.pc := counter]);
    if counter == 0 then c1
    else if Count(c.lastObservedFuncs, f.pc) == counter then c1
    else
      var c2 := c1.(lastObservedFuncs := c.lastObservedFuncs[f.pc := counter]);
      if interesting(GetNextInstructionPc(f.pc)) then c2.(funcsInfo := Put(c.funcsInfo, Recomputed(c1, f))) else c2
  }

  ghost predicate Ordered(fs: seq<Func>) {
    forall i | 0 <= i < |fs| :: fs[i].first <= fs[i].last
  }

  function Refresh(c: Cache, fs: seq<Func>, interesting: nat -> bool): Cache
    requires Ordered(fs)
  {
    if fs == [] then c else RefreshOne(Refresh(c, fs[..|fs| - 1], interesting), fs[|fs| - 1], interesting)
  }

  lemma RefreshNext(c: Cache, fs: seq<Func>, f: Func, interesting: nat -> bool)
    requires Ordered(fs) && f.first <= f.last
    ensures Ordered(fs + [f])
    ensures Refresh(c, fs + [f], interesting) == RefreshOne(Refresh(c, fs, interesting), f, interesting)
  {
    assert (fs + [f])[..|fs|] == fs;
  }

  lemma {:induction false} PutAt(infos: seq<FuncInfo>, info: FuncInfo, i: nat)
    requires i <= |infos| && forall k | 0 <= k < i :: infos[k].id != info.id
    requires i < |infos| ==> infos[i].id == info.id
    ensures Put(infos, info) == if i < |infos| then infos[i := info] else infos + [info]
  {
    if i > 0 {
      PutAt(infos[1..], info, i - 1);
      assert i < |infos| ==> infos[i := info] == [infos[0]] + infos[1..][i - 1 := info];
    } else if infos != [] {
      assert infos[0 := info] == [info] + infos[1..];
    }
  }

  // ----- the invariant

  ghost predicate DistinctIds(infos: seq<FuncInfo>) {
    forall i, j | 0 <= i < j < |infos| :: infos[i].id != infos[j].id
  }

  ghost predicate HasEntry(c: Cache, f: Func, interesting: nat -> bool) {
    Count(c.observedFuncs, f.pc) > 0 && interesting(GetNextInstructionPc(f.pc))
  }

  /** The last count seen of f is not ahead, and if it is up to date then so is the entry of f. */
  ghost predicate Current(c: Cache, f: Func, interesting: nat -> bool)
    requires f.first <= f.last
  {
    && Count(c.lastObservedFuncs, f.pc) <= Count(c.observedFuncs, f.pc)
    && (Count(c.lastObservedFuncs, f.pc) == Count(c.observedFuncs, f.pc) && HasEntry(c, f, interesting) ==>
          Recomputed(c, f) in c.funcsInfo)
  }

  ghost predicate Belongs(tables: seq<seq<PCTableEntry>>, c: Cache, info: FuncInfo, interesting: nat -> bool) {
    exists f: Func :: IsFunc(tables, f) && HasEntry(c, f, interesting) && info.id == GetNextInstructionPc(f.pc)
  }

  ghost predicate Inv(tables: seq<seq<PCTableEntry>>, c: Cache, interesting: nat -> bool) {
    && DistinctIds(c.funcsInfo)
    && (forall f: Func :: IsFunc(tables, f) ==> Current(c, f, interesting))
    && (forall info | info in c.funcsInfo :: Belongs(tables, c, info, interesting))
  }

  /** The cache holds exactly one entry for each covered interesting function, and it is what a recomputation gives. */
  ghost predicate InSync(tables: seq<seq<PCTableEntry>>, c: Cache, interesting: nat -> bool) {
    && DistinctIds(c.funcsInfo)
    && (forall f: Func :: IsFunc(tables, f) && HasEntry(c, f, interesting) ==> Recomputed(c, f) in c.funcsInfo)
    && (forall info | info in c.funcsInfo :: Belongs(tables, c, info, interesting))
  }

  ghost predicate Untouched(hits: set<Entry>, f: Func) {
    forall k | f.first <= k < f.last :: Entry(f.table, k) !in hits
  }

  /** Whoever executes a block of a function has executed its entry. */
  ghost predicate EntriesFirst(tables: seq<seq<PCTableEntry>>, hits: set<Entry>) {
    forall f: Func :: IsFunc(tables, f) && Entry(f.table, f.first) !in hits ==> Untouched(hits, f)
  }

  ghost predicate NothingNew(c: Cache, hits: set<Entry>, f: Func) {
    forall k | f.first <= k < f.last :: Entry(f.table, k) in hits ==> Entry(f.table, k) in c.observedPCs
  }

  /** A function with an entry in the cache that is not entered shows no new block. */
  ghost predicate Explained(tables: seq<seq<PCTableEntry>>, c: Cache, hits: set<Entry>, interesting: nat -> bool) {
    forall f: Func :: IsFunc(tables, f) && HasEntry(c, f, interesting) && Entry(f.table, f.first) !in hits ==>
                        NothingNew(c, hits, f)
  }

  lemma {:induction false} PutContents(infos: seq<FuncInfo>, info: FuncInfo)
    requires DistinctIds(infos)
    ensures DistinctIds(Put(infos, info))
    ensures forall x :: x in Put(infos, info) <==> x == info || (x in infos && x.id != info.id)
  {
    if infos != [] {
      if infos[0].id == info.id {
        assert infos == [infos[0]] + infos[1..];
      } else {
        PutContents(infos[1..], info);
        assert infos == [infos[0]] + infos[1..];
      }
    }
  }

  lemma {:induction false} SameCovered(pcs: set<Entry>, pcs': set<Entry>, table: nat, first: nat, last: nat)
    requires first <= last && forall k | first <= k < last :: Entry(table, k) in pcs <==> Entry(table, k) in pcs'
    ensures Covered(pcs, table, first, last) == Covered(pcs', table, first, last)
    decreases last
  {
    if first < last {
      SameCovered(pcs, pcs', table, first, last - 1);
    }
  }

  lemma CurrentAfterObserved(tables: seq<seq<PCTableEntry>>, c: Cache, hits: set<Entry>, c': Cache,
                             interesting: nat -> bool, f: Func)
    requires IsFunc(tables, f) && Current(c, f, interesting) && Observed(tables, c, hits, c')
    requires HasEntry(c, f, interesting) && Entry(f.table, f.first) !in hits ==> NothingNew(c, hits, f)
    ensures Current(c', f, interesting)
  {
    if HasEntry(c, f, interesting) && Entry(f.table, f.first) !in hits {
      SameCovered(c.observedPCs, c'.observedPCs, f.table, f.first, f.last);
    }
  }

  /** An execution leaves every up-to-date entry exact: where no entry point was hit nothing new was. */
  lemma ObservedInv(tables: seq<seq<PCTableEntry>>, c: Cache, hits: set<Entry>, c': Cache, interesting: nat -> bool)
    requires Inv(tables, c, interesting) && Observed(tables, c, hits, c') && Explained(tables, c, hits, interesting)
    ensures Inv(tables, c', interesting)
  {
    forall f: Func | IsFunc(tables, f) ensures Current(c', f, interesting) {
      CurrentAfterObserved(tables, c, hits, c', interesting, f);
    }
    forall info | info in c'.funcsInfo ensures Belongs(tables, c', info, interesting) {
      var f: Func :| IsFunc(tables, f) && HasEntry(c, f, interesting) && info.id == GetNextInstructionPc(f.pc);
      assert HasEntry(c', f, interesting);
    }
  }

  lemma EntriesExplain(tables: seq<seq<PCTableEntry>>, c: Cache, hits: set<Entry>, interesting: nat -> bool)
    requires EntriesFirst(tables, hits)
    ensures Explained(tables, c, hits, interesting)
  {
  }

  /** What refreshing f does: counts and observed blocks stay, f becomes up to date, other entries are kept. */
  ghost predicate Refreshed(c: Cache, f: Func, c': Cache, interesting: nat -> bool)
    requires f.first <= f.last
  {
    && c'.observedPCs == c.observedPCs
    && (forall pc :: Count(c'.observedFuncs, pc) == Count(c.observedFuncs, pc))
    && (forall pc :: Count(c'.lastObservedFuncs, pc)
                     == if pc == f.pc && Count(c.observedFuncs, pc) > 0 then Count(c.observedFuncs, pc)
                        else Count(c.lastObservedFuncs, pc))
    && DistinctIds(c'.funcsInfo)
    && if HasEntry(c, f, interesting) && Count(c.lastObservedFuncs, f.pc) != Count(c.observedFuncs, f.pc)
       then forall x :: x in c'.funcsInfo <==> x == Recomputed(c, f) || (x in c.funcsInfo && x.id != GetNextInstructionPc(f.pc))
       else c'.funcsInfo == c.funcsInfo
  }

  lemma RefreshOneRefreshes(c: Cache, f: Func, interesting: nat -> bool)
    requires DistinctIds(c.funcsInfo) && f.first <= f.last
    ensures Refreshed(c, f, RefreshOne(c, f, interesting), interesting)
  {
    hide Put, DistinctIds;
    PutContents(c.funcsInfo, Recomputed(c, f));
  }

  lemma RefreshOneInv(tables: seq<seq<PCTableEntry>>, c: Cache, f: Func, interesting: nat -> bool)
    requires DistinctEntries(tables) && Inv(tables, c, interesting) && IsFunc(tables, f)
    ensures Inv(tables, RefreshOne(c, f, interesting), interesting)
    ensures Refreshed(c, f, RefreshOne(c, f, interesting), interesting)
  {
    FuncRange(tables, f);
    var c' := RefreshOne(c, f, interesting);
    RefreshOneRefreshes(c, f, interesting);
    hide RefreshOne, DistinctIds, Refreshed, Current, Belongs, DistinctEntries, IsFunc;
    forall g: Func | IsFunc(tables, g) ensures Current(c', g, interesting) {
      CurrentAfterRefresh(tables, c, f, c', g, interesting);
    }
    forall info | info in c'.funcsInfo ensures Belongs(tables, c', info, interesting) {
      BelongsAfterRefresh(tables, c, f, c', info, interesting);
    }
    assert DistinctIds(c'.funcsInfo) by { RefreshedIds(c, f, c', interesting); }
  }

  lemma RefreshedIds(c: Cache, f: Func, c': Cache, interesting: nat -> bool)
    requires f.first <= f.last && Refreshed(c, f, c', interesting)
    ensures DistinctIds(c'.funcsInfo)
  {
    hide DistinctIds, Recomputed;
  }

  lemma CurrentAfterRefresh(tables: seq<seq<PCTableEntry>>, c: Cache, f: Func, c': Cache, g: Func, interesting: nat -> bool)
    requires DistinctEntries(tables) && IsFunc(tables, f) && IsFunc(tables, g) && f.first <= f.last
    requires Current(c, f, interesting) && Current(c, g, interesting) && Refreshed(c, f, c', interesting)
    ensures Current(c', g, interesting)
  {
    hide Covered, DistinctIds, IsFunc;
    assert f.pc == g.pc ==> f == g;
  }

  lemma BelongsAfterRefresh(tables: seq<seq<PCTableEntry>>, c: Cache, f: Func, c': Cache, info: FuncInfo,
                            interesting: nat -> bool)
    requires IsFunc(tables, f) && f.first <= f.last && Refreshed(c, f, c', interesting) && info in c'.funcsInfo
    requires info in c.funcsInfo ==> Belongs(tables, c, info, interesting)
    ensures Belongs(tables, c', info, interesting)
  {
    hide Covered, DistinctIds, IsFunc;
    if info in c.funcsInfo {
      var g: Func :| IsFunc(tables, g) && HasEntry(c, g, interesting) && info.id == GetNextInstructionPc(g.pc);
      assert HasEntry(c', g, interesting);
    } else {
      assert HasEntry(c', f, interesting);
    }
  }

  lemma {:induction false} RefreshInv(tables: seq<seq<PCTableEntry>>, c: Cache, fs: seq<Func>, interesting: nat -> bool)
    requires DistinctEntries(tables) && Inv(tables, c, interesting) && forall f | f in fs :: IsFunc(tables, f)
    ensures Ordered(fs) && Inv(tables, Refresh(c, fs, interesting), interesting)
    ensures Refresh(c, fs, interesting).observedPCs == c.observedPCs
    ensures forall pc :: Count(Refresh(c, fs, interesting).observedFuncs, pc) == Count(c.observedFuncs, pc)
    ensures forall f | f in fs :: UpToDate(Refresh(c, fs, interesting), f)
  {
    hide RefreshOne, Covered, Inv, DistinctEntries;
    if fs != [] {
      var f := fs[|fs| - 1];
      RefreshInv(tables, c, fs[..|fs| - 1], interesting);
      RefreshOneInv(tables, Refresh(c, fs[..|fs| - 1], interesting), f, interesting);
      forall g | g in fs ensures UpToDate(Refresh(c, fs, interesting), g) {
        assert g == f || g in fs[..|fs| - 1];
      }
    }
  }

  ghost predicate UpToDate(c: Cache, f: Func) {
    Count(c.observedFuncs, f.pc) > 0 ==> Count(c.lastObservedFuncs, f.pc) == Count(c.observedFuncs, f.pc)
  }

  /** After a refresh the cache agrees with a recomputation, although functions with an unchanged count were skipped. */
  lemma RefreshIsExact(tables: seq<seq<PCTableEntry>>, c: Cache, interesting: nat -> bool)
    requires ValidTables(tables) && DistinctEntries(tables) && Inv(tables, c, interesting)
    ensures var fs := AllFunctions(tables, |tables|);
            && Ordered(fs)
            && Inv(tables, Refresh(c, fs, interesting), interesting)
            && InSync(tables, Refresh(c, fs, interesting), interesting)
            && AllUpToDate(tables, Refresh(c, fs, interesting))
  {
    var fs := AllFunctions(tables, |tables|);
    forall f: Func ensures f in fs <==> IsFunc(tables, f) {
      FunctionsFound(tables, |tables|, f);
    }
    hide DistinctEntries, IsFunc, Recomputed, Belongs, DistinctIds;
    RefreshInv(tables, c, fs, interesting);
  }

  ghost predicate AllUpToDate(tables: seq<seq<PCTableEntry>>, c: Cache) {
    forall f: Func :: IsFunc(tables, f) ==> UpToDate(c, f)
  }

  // ----- whole runs

  datatype Event = Execution(hits: set<Entry>) | RefreshAll

  ghost predicate IsRun(tables: seq<seq<PCTableEntry>>, events: seq<Event>, caches: seq<Cache>, interesting: nat -> bool)
    requires ValidTables(tables) && Ordered(AllFunctions(tables, |tables|))
  {
    && |caches| == |events| + 1 && caches[0] == Cache({}, map[], map[], [])
    && forall i | 0 <= i < |events| :: Happens(tables, caches[i], events[i], caches[i + 1], interesting)
  }

  ghost predicate Happens(tables: seq<seq<PCTableEntry>>, c: Cache, e: Event, c': Cache, interesting: nat -> bool)
    requires Ordered(AllFunctions(tables, |tables|))
  {
    match e
    case Execution(hits) => Observed(tables, c, hits, c')
    case RefreshAll => c' == Refresh(c, AllFunctions(tables, |tables|), interesting)
  }

  lemma AllOrdered(tables: seq<seq<PCTableEntry>>, n: nat)
    requires ValidTables(tables) && n <= |tables|
    ensures Ordered(AllFunctions(tables, n))
  {
    var fs := AllFunctions(tables, n);
    forall f | f in fs ensures f.first <= f.last {
      FunctionsFound(tables, n, f);
    }
  }

  /** However many executions lie between two refreshes, each refresh leaves the cache exact. */
  lemma {:induction false} ReachableInSync(tables: seq<seq<PCTableEntry>>, events: seq<Event>, caches: seq<Cache>,
                                           interesting: nat -> bool, k: nat)
    requires ValidTables(tables) && DistinctEntries(tables) && Ordered(AllFunctions(tables, |tables|))
    requires IsRun(tables, events, caches, interesting) && k < |caches|
    requires forall e | e in events :: e.Execution? ==> EntriesFirst(tables, e.hits)
    ensures Inv(tables, caches[k], interesting)
    ensures k > 0 && events[k - 1].RefreshAll? ==> InSync(tables, caches[k], interesting)
  {
    hide Inv, InSync, EntriesFirst, Refresh, Observed, DistinctEntries, ValidTables, AllUpToDate;
    if k == 0 {
      StartInv(tables, interesting);
    } else {
      ReachableInSync(tables, events, caches, interesting, k - 1);
      assert Happens(tables, caches[k - 1], events[k - 1], caches[k], interesting);
      match events[k - 1]
      case Execution(hits) =>
        EntriesExplain(tables, caches[k - 1], hits, interesting);
        ObservedInv(tables, caches[k - 1], hits, caches[k], interesting);
      case RefreshAll => RefreshIsExact(tables, caches[k - 1], interesting);
    }
  }

  // ----- what the entries say, in terms of the executions

  /** The blocks of f, by position, that are among `pcs`. */
  ghost function BlocksIn(f: Func, pcs: set<Entry>): set<nat> {
    set k | f.first <= k < f.last && Entry(f.table, k) in pcs
  }

  /** The blocks of f, by position, that are not. */
  ghost function BlocksOutside(f: Func, pcs: set<Entry>): set<nat> {
    set k | f.first <= k < f.last && Entry(f.table, k) !in pcs
  }

  lemma {:induction false} CoveredCounts(f: Func, pcs: set<Entry>)
    requires f.first <= f.last
    ensures Covered(pcs, f.table, f.first, f.last) == |BlocksIn(f, pcs)|
    ensures f.last - f.first - Covered(pcs, f.table, f.first, f.last) == |BlocksOutside(f, pcs)|
    decreases f.last
  {
    if f.first == f.last {
      assert BlocksIn(f, pcs) == {} && BlocksOutside(f, pcs) == {};
    } else {
      var k := f.last - 1;
      var g := f.(last := k);
      CoveredCounts(g, pcs);
      if Entry(f.table, k) in pcs {
        assert BlocksIn(f, pcs) == BlocksIn(g, pcs) + {k} && BlocksOutside(f, pcs) == BlocksOutside(g, pcs);
      } else {
        assert BlocksIn(f, pcs) == BlocksIn(g, pcs) && BlocksOutside(f, pcs) == BlocksOutside(g, pcs) + {k};
      }
    }
  }

  /** What the entry of f is to say after `hits` calls, with the blocks `pcs` executed. */
  ghost predicate Describes(x: FuncInfo, f: Func, hits: nat, pcs: set<Entry>) {
    && x.id == f.pc + 1 && x.hits == hits
    && x.coveredSize == |BlocksIn(f, pcs)| && x.uncoverSize == |BlocksOutside(f, pcs)|
  }

  /** A cache in sync: each covered interesting function has an entry with its calls, its executed and its other blocks. */
  lemma SyncDescribes(tables: seq<seq<PCTableEntry>>, c: Cache, interesting: nat -> bool, f: Func)
    requires InSync(tables, c, interesting) && IsFunc(tables, f)
    requires Count(c.observedFuncs, f.pc) > 0 && interesting(f.pc + 1)
    ensures exists x :: x in c.funcsInfo && Describes(x, f, Count(c.observedFuncs, f.pc), c.observedPCs)
  {
    FuncRange(tables, f);
    RecomputedDescribes(c, f);
    hide Belongs, DistinctIds, Recomputed, Describes, IsFunc;
    assert HasEntry(c, f, interesting);
  }

  lemma RecomputedDescribes(c: Cache, f: Func)
    requires f.first <= f.last
    ensures Describes(Recomputed(c, f), f, Count(c.observedFuncs, f.pc), c.observedPCs)
  {
    hide BlocksIn, BlocksOutside, Covered;
    CoveredCounts(f, c.observedPCs);
  }

  /** The executions among the events that entered f. */
  ghost function Calls(events: seq<Event>, f: Func): nat {
    if events == [] then 0 else
      var e := events[|events| - 1];
      Calls(events[..|events| - 1], f) + if e.Execution? && Entry(f.table, f.first) in e.hits then 1 else 0
  }

  /** The blocks that some execution showed. */
  ghost function Shown(events: seq<Event>): set<Entry> {
    set i, e | 0 <= i < |events| && events[i].Execution? && e in events[i].hits :: e
  }

  lemma ShownNext(events: seq<Event>, e: Event)
    ensures Shown(events + [e]) == Shown(events) + if e.Execution? then e.hits else {}
  {
    var more := events + [e];
    forall x | x in Shown(events) ensures x in Shown(more) {
      var i :| 0 <= i < |events| && events[i].Execution? && x in events[i].hits;
      assert more[i] == events[i];
    }
    forall x | e.Execution? && x in e.hits ensures x in Shown(more) {
      assert more[|events|] == e;
    }
  }

  lemma RefreshKeepsCounts(tables: seq<seq<PCTableEntry>>, c: Cache, interesting: nat -> bool)
    requires ValidTables(tables) && DistinctEntries(tables) && Inv(tables, c, interesting)
    ensures var fs := AllFunctions(tables, |tables|);
            && Ordered(fs) && Refresh(c, fs, interesting).observedPCs == c.observedPCs
            && forall pc :: Count(Refresh(c, fs, interesting).observedFuncs, pc) == Count(c.observedFuncs, pc)
  {
    var fs := AllFunctions(tables, |tables|);
    forall f | f in fs ensures IsFunc(tables, f) {
      FunctionsFound(tables, |tables|, f);
    }
    hide DistinctEntries, IsFunc, Inv, Refresh;
    RefreshInv(tables, c, fs, interesting);
  }

  /** The counts and blocks that a run accumulates. */
  lemma {:induction false} RunAccumulates(tables: seq<seq<PCTableEntry>>, events: seq<Event>, caches: seq<Cache>,
                                          interesting: nat -> bool, k: nat)
    requires ValidTables(tables) && DistinctEntries(tables) && Ordered(AllFunctions(tables, |tables|))
    requires IsRun(tables, events, caches, interesting) && k < |caches|
    requires forall e | e in events :: e.Execution? ==> EntriesFirst(tables, e.hits)
    ensures caches[k].observedPCs == Shown(events[..k])
    ensures forall f: Func :: IsFunc(tables, f) ==> Count(caches[k].observedFuncs, f.pc) == Calls(events[..k], f)
  {
    hide Inv, InSync, EntriesFirst, Refresh, DistinctEntries, ValidTables, IsFunc, Shown;
    if k == 0 {
      assert Shown([]) == {} by { NothingShown(); }
    } else {
      RunAccumulates(tables, events, caches, interesting, k - 1);
      ReachableInSync(tables, events, caches, interesting, k - 1);
      assert Happens(tables, caches[k - 1], events[k - 1], caches[k], interesting);
      assert events[..k] == events[..k - 1] + [events[k - 1]];
      ShownNext(events[..k - 1], events[k - 1]);
      if events[k - 1].RefreshAll? {
        RefreshKeepsCounts(tables, caches[k - 1], interesting);
      }
    }
  }

  lemma NothingShown()
    ensures Shown([]) == {}
  {
  }

  ghost predicate DescribedBy(x: FuncInfo, tables: seq<seq<PCTableEntry>>, events: seq<Event>, interesting: nat -> bool) {
    exists f: Func :: IsFunc(tables, f) && Calls(events, f) > 0 && interesting(f.pc + 1)
                      && Describes(x, f, Calls(events, f), Shown(events))
  }

  /** Every refresh of a run leaves one entry for each interesting function that was ever entered, and no other: how
      often it was entered, how many of its blocks were ever executed and how many were not. */
  lemma RefreshDescribes(tables: seq<seq<PCTableEntry>>, events: seq<Event>, caches: seq<Cache>,
                         interesting: nat -> bool, k: nat)
    requires ValidTables(tables) && DistinctEntries(tables) && Ordered(AllFunctions(tables, |tables|))
    requires IsRun(tables, events, caches, interesting) && 0 < k < |caches| && events[k - 1].RefreshAll?
    requires forall e | e in events :: e.Execution? ==> EntriesFirst(tables, e.hits)
    ensures DistinctIds(caches[k].funcsInfo)
    ensures forall f: Func :: IsFunc(tables, f) && Calls(events[..k], f) > 0 && interesting(f.pc + 1) ==>
              exists x :: x in caches[k].funcsInfo && Describes(x, f, Calls(events[..k], f), Shown(events[..k]))
    ensures forall x | x in caches[k].funcsInfo :: DescribedBy(x, tables, events[..k], interesting)
  {
    ReachableInSync(tables, events, caches, interesting, k);
    RunAccumulates(tables, events, caches, interesting, k);
    hide IsRun, EntriesFirst, DistinctEntries, ValidTables, Ordered, Shown, Calls, IsFunc, Describes, Recomputed, Inv;
    var c := caches[k];
    forall f: Func | IsFunc(tables, f) && Calls(events[..k], f) > 0 && interesting(f.pc + 1)
      ensures exists x :: x in c.funcsInfo && Describes(x, f, Calls(events[..k], f), Shown(events[..k]))
    {
      SyncDescribes(tables, c, interesting, f);
    }
    forall x | x in c.funcsInfo ensures DescribedBy(x, tables, events[..k], interesting) {
      EntryDescribed(tables, c, interesting, x, events[..k]);
    }
  }

  lemma EntryDescribed(tables: seq<seq<PCTableEntry>>, c: Cache, interesting: nat -> bool, x: FuncInfo, events: seq<Event>)
    requires InSync(tables, c, interesting) && x in c.funcsInfo
    requires c.observedPCs == Shown(events)
    requires forall f: Func :: IsFunc(tables, f) ==> Count(c.observedFuncs, f.pc) == Calls(events, f)
    ensures DescribedBy(x, tables, events, interesting)
  {
    hide InSync, IsFunc, Shown, Calls, BlocksIn, BlocksOutside;
    AllBelong(tables, c, interesting, x);
    var f := EntryOf(tables, c, interesting, x);
    SyncDescribes(tables, c, interesting, f);
    var y :| y in c.funcsInfo && Describes(y, f, Count(c.observedFuncs, f.pc), c.observedPCs);
    OneEntry(tables, c, interesting, x, y);
  }

  lemma AllBelong(tables: seq<seq<PCTableEntry>>, c: Cache, interesting: nat -> bool, x: FuncInfo)
    requires InSync(tables, c, interesting) && x in c.funcsInfo
    ensures Belongs(tables, c, x, interesting)
  {
    hide Belongs, DistinctIds, Recomputed, IsFunc;
  }

  lemma EntryOf(tables: seq<seq<PCTableEntry>>, c: Cache, interesting: nat -> bool, x: FuncInfo) returns (f: Func)
    requires Belongs(tables, c, x, interesting)
    ensures IsFunc(tables, f) && Count(c.observedFuncs, f.pc) > 0 && interesting(f.pc + 1) && x.id == f.pc + 1
  {
    hide IsFunc;
    f :| IsFunc(tables, f) && HasEntry(c, f, interesting) && x.id == GetNextInstructionPc(f.pc);
  }

  lemma OneEntry(tables: seq<seq<PCTableEntry>>, c: Cache, interesting: nat -> bool, x: FuncInfo, y: FuncInfo)
    requires InSync(tables, c, interesting) && x in c.funcsInfo && y in c.funcsInfo && x.id == y.id
    ensures x == y
  {
    hide IsFunc, Recomputed, Belongs;
  }

  lemma StartInv(tables: seq<seq<PCTableEntry>>, interesting: nat -> bool)
    ensures Inv(tables, Cache({}, map[], map[], []), interesting)
  {
  }

  // ----- exactly when the cache stays exact

  lemma FuncRange(tables: seq<seq<PCTableEntry>>, f: Func)
    requires IsFunc(tables, f)
    ensures f.first < f.last <= |tables[f.table]|
  {
  }

  lemma SameId(infos: seq<FuncInfo>, x: FuncInfo, y: FuncInfo)
    requires DistinctIds(infos) && x in infos && y in infos && x.id == y.id
    ensures x == y
  {
  }

  lemma {:induction false} SkippedStays(tables: seq<seq<PCTableEntry>>, c: Cache, fs: seq<Func>, interesting: nat -> bool,
                                        g: Func, x: FuncInfo)
    requires DistinctEntries(tables) && DistinctIds(c.funcsInfo) && IsFunc(tables, g)
    requires Count(c.lastObservedFuncs, g.pc) == Count(c.observedFuncs, g.pc) && x.id == GetNextInstructionPc(g.pc)
    requires forall f | f in fs :: IsFunc(tables, f)
    ensures Ordered(fs)
    ensures var c' := Refresh(c, fs, interesting);
            && DistinctIds(c'.funcsInfo) && c'.observedPCs == c.observedPCs
            && (forall pc :: Count(c'.observedFuncs, pc) == Count(c.observedFuncs, pc))
            && Count(c'.lastObservedFuncs, g.pc) == Count(c'.observedFuncs, g.pc)
            && (x in c'.funcsInfo <==> x in c.funcsInfo)
  {
    hide RefreshOne, DistinctIds, IsFunc, Covered;
    if fs != [] {
      SkippedStays(tables, c, fs[..|fs| - 1], interesting, g, x);
      FuncRange(tables, fs[|fs| - 1]);
      RefreshOneRefreshes(Refresh(c, fs[..|fs| - 1], interesting), fs[|fs| - 1], interesting);
    }
  }

  lemma {:induction false} CoveredGrows(pcs: set<Entry>, hits: set<Entry>, table: nat, first: nat, last: nat)
    requires first <= last
    ensures Covered(pcs, table, first, last) <= Covered(pcs + hits, table, first, last)
    ensures Covered(pcs, table, first, last) == Covered(pcs + hits, table, first, last)
            ==> forall k | first <= k < last :: Entry(table, k) in hits ==> Entry(table, k) in pcs
    decreases last
  {
    if first < last {
      CoveredGrows(pcs, hits, table, first, last - 1);
    }
  }

  /** From an exact cache, one execution and a refresh lead to an exact cache again if and only if every cached
      function that was not entered shows no new block. */
  lemma ExactIff(tables: seq<seq<PCTableEntry>>, c: Cache, hits: set<Entry>, c': Cache, interesting: nat -> bool)
    requires ValidTables(tables) && DistinctEntries(tables)
    requires Inv(tables, c, interesting) && InSync(tables, c, interesting) && AllUpToDate(tables, c)
    requires Observed(tables, c, hits, c')
    ensures Ordered(AllFunctions(tables, |tables|))
    ensures InSync(tables, Refresh(c', AllFunctions(tables, |tables|), interesting), interesting)
            <==> Explained(tables, c, hits, interesting)
  {
    AllOrdered(tables, |tables|);
    var fs := AllFunctions(tables, |tables|);
    if Explained(tables, c, hits, interesting) {
      ObservedInv(tables, c, hits, c', interesting);
      RefreshIsExact(tables, c', interesting);
    } else {
      forall f: Func ensures f in fs <==> IsFunc(tables, f) {
        FunctionsFound(tables, |tables|, f);
      }
      var f: Func :| IsFunc(tables, f) && HasEntry(c, f, interesting) && Entry(f.table, f.first) !in hits && !NothingNew(c, hits, f);
      StaleEntry(tables, c, hits, c', fs, interesting, f);
    }
  }

  lemma StaleEntry(tables: seq<seq<PCTableEntry>>, c: Cache, hits: set<Entry>, c': Cache, fs: seq<Func>,
                   interesting: nat -> bool, f: Func)
    requires DistinctEntries(tables) && InSync(tables, c, interesting) && AllUpToDate(tables, c)
    requires Observed(tables, c, hits, c') && (forall g | g in fs :: IsFunc(tables, g))
    requires IsFunc(tables, f) && HasEntry(c, f, interesting) && Entry(f.table, f.first) !in hits && !NothingNew(c, hits, f)
    ensures Ordered(fs) && !InSync(tables, Refresh(c', fs, interesting), interesting)
  {
    CoveredGrows(c.observedPCs, hits, f.table, f.first, f.last);
    hide Refresh, DistinctEntries, IsFunc, Covered, DistinctIds, Current, Belongs;
    assert UpToDate(c, f);
    FuncRange(tables, f);
    var stale := Recomputed(c, f);
    SkippedStays(tables, c', fs, interesting, f, stale);
    var c'' := Refresh(c', fs, interesting);
    assert stale in c''.funcsInfo && HasEntry(c'', f, interesting);
    if InSync(tables, c'', interesting) {
      SameId(c''.funcsInfo, Recomputed(c'', f), stale);
    }
  }

  // ----- the cache does go stale

  /** A single function of two blocks. */
  ghost predicate OneFunction(tables: seq<seq<PCTableEntry>>) {
    tables == [[PCTableEntry(100, 1), PCTableEntry(101, 0)]]
  }

  lemma OneFunctionFits(tables: seq<seq<PCTableEntry>>)
    requires OneFunction(tables)
    ensures ValidTables(tables) && DistinctEntries(tables)
    ensures IsFunc(tables, Func(0, 0, 2, 100))
  {
    assert NextEntry(tables[0], 0) == 2;
    forall f: Func | IsFunc(tables, f) ensures f == Func(0, 0, 2, 100) {
      assert f.first == 0;
    }
  }

  lemma ObserveAlone(tables: seq<seq<PCTableEntry>>, c: Cache, e: Entry)
    requires DistinctEntries(tables) && e.table < |tables| && e.idx < |tables[e.table]|
    ensures Observed(tables, c, {e}, ObserveOne(tables, c, e))
  {
    assert Observed(tables, c, {}, c);
    ObserveStep(tables, c, {}, c, e);
    assert {} + {e} == {e};
  }

  lemma FourEvents(tables: seq<seq<PCTableEntry>>, c: seq<Cache>, h: set<Entry>, g: set<Entry>, interesting: nat -> bool)
    requires ValidTables(tables) && Ordered(AllFunctions(tables, |tables|))
    requires |c| == 5 && c[0] == Cache({}, map[], map[], [])
    requires Observed(tables, c[0], h, c[1]) && c[2] == Refresh(c[1], AllFunctions(tables, |tables|), interesting)
    requires Observed(tables, c[2], g, c[3]) && c[4] == Refresh(c[3], AllFunctions(tables, |tables|), interesting)
    ensures IsRun(tables, [Execution(h), RefreshAll, Execution(g), RefreshAll], c, interesting)
  {
    hide Observed, Refresh, AllFunctions;
  }

  /** A function of two blocks: entered, cached, and then resumed in its second block without being entered. */
  lemma StaleRun(tables: seq<seq<PCTableEntry>>) returns (events: seq<Event>, caches: seq<Cache>)
    requires OneFunction(tables)
    ensures ValidTables(tables) && Ordered(AllFunctions(tables, |tables|))
    ensures |events| == 4 && IsRun(tables, events, caches, Always)
    ensures InSync(tables, caches[2], Always)
    ensures events[3] == RefreshAll && !InSync(tables, caches[4], Always)
  {
    hide Observed, DistinctEntries, IsFunc, Inv, InSync, AllUpToDate, Refresh, AllFunctions, IsRun, Ordered, ValidTables,
         OneFunction;
    var c0, c1, c2 := FirstRefresh(tables);
    var c3, c4 := SecondRefresh(tables, c2);
    events, caches := [Execution({Entry(0, 0)}), RefreshAll, Execution({Entry(0, 1)}), RefreshAll], [c0, c1, c2, c3, c4];
    FourEvents(tables, caches, {Entry(0, 0)}, {Entry(0, 1)}, Always);
  }

  /** The function shows its second block without being entered, and is skipped. */
  lemma SecondRefresh(tables: seq<seq<PCTableEntry>>, c2: Cache) returns (c3: Cache, c4: Cache)
    requires OneFunction(tables)
    requires ValidTables(tables) && Ordered(AllFunctions(tables, |tables|))
    requires Inv(tables, c2, Always) && InSync(tables, c2, Always) && AllUpToDate(tables, c2)
    requires Count(c2.observedFuncs, 100) == 1 && c2.observedPCs == {Entry(0, 0)}
    ensures Observed(tables, c2, {Entry(0, 1)}, c3)
    ensures c4 == Refresh(c3, AllFunctions(tables, |tables|), Always) && !InSync(tables, c4, Always)
  {
    OneFunctionFits(tables);
    c3 := ObserveOne(tables, c2, Entry(0, 1));
    ObserveAlone(tables, c2, Entry(0, 1));
    hide Observed, DistinctEntries, IsFunc, Inv, InSync, AllUpToDate, Explained, Refresh, AllFunctions, Ordered, ValidTables;
    Unexplained(tables, c2, Always);
    ExactIff(tables, c2, {Entry(0, 1)}, c3, Always);
    c4 := Refresh(c3, AllFunctions(tables, |tables|), Always);
  }

  function Always(pc: nat): bool { true }

  /** The function is entered, and its entry refreshed. */
  lemma FirstRefresh(tables: seq<seq<PCTableEntry>>) returns (c0: Cache, c1: Cache, c2: Cache)
    requires OneFunction(tables)
    ensures c0 == Cache({}, map[], map[], []) && Observed(tables, c0, {Entry(0, 0)}, c1)
    ensures ValidTables(tables) && Ordered(AllFunctions(tables, |tables|))
    ensures c2 == Refresh(c1, AllFunctions(tables, |tables|), Always)
    ensures Inv(tables, c2, Always) && InSync(tables, c2, Always) && AllUpToDate(tables, c2)
    ensures Count(c2.observedFuncs, 100) == 1 && c2.observedPCs == {Entry(0, 0)}
  {
    OneFunctionFits(tables);
    AllOrdered(tables, |tables|);
    c0 := Cache({}, map[], map[], []);
    c1 := ObserveOne(tables, c0, Entry(0, 0));
    ObserveAlone(tables, c0, Entry(0, 0));
    var fs := AllFunctions(tables, |tables|);
    forall f | f in fs ensures IsFunc(tables, f) { FunctionsFound(tables, |tables|, f); }
    assert Count(c1.observedFuncs, 100) == 1 && c1.observedPCs == {Entry(0, 0)};
    hide Observed, DistinctEntries, IsFunc, Inv, InSync, AllUpToDate, Refresh, AllFunctions, ObserveOne;
    ExecutedAlone(tables, c0, c1, Always);
    c2 := Refresh(c1, fs, Always);
    RefreshIsExact(tables, c1, Always);
    RefreshInv(tables, c1, fs, Always);
  }

  lemma ExecutedAlone(tables: seq<seq<PCTableEntry>>, c0: Cache, c1: Cache, interesting: nat -> bool)
    requires c0 == Cache({}, map[], map[], []) && Observed(tables, c0, {Entry(0, 0)}, c1)
    ensures Inv(tables, c1, interesting)
  {
    StartInv(tables, interesting);
    assert Explained(tables, c0, {Entry(0, 0)}, interesting);
    ObservedInv(tables, c0, {Entry(0, 0)}, c1, interesting);
  }

  lemma Unexplained(tables: seq<seq<PCTableEntry>>, c: Cache, interesting: nat -> bool)
    requires OneFunction(tables)
    requires Count(c.observedFuncs, 100) > 0 && Entry(0, 1) !in c.observedPCs && interesting(101)
    ensures !Explained(tables, c, {Entry(0, 1)}, interesting)
  {
    OneFunctionFits(tables);
    var f := Func(0, 0, 2, 100);
    assert HasEntry(c, f, interesting) && Entry(0, 0) !in {Entry(0, 1)};
    assert !NothingNew(c, {Entry(0, 1)}, f);
  }
}
