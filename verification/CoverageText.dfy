/** The text in which the data-flow tracer reports one input, and what reading such texts adds up to. */
module CoverageText {
  import opened Widths
  import opened Text
  import opened Bits
  import opened Collections
  import opened FunctionCoverage

  // ----- printing

  const NUM_LABELS: nat := 8

  /** The blocks of [from, upTo) that were executed, counted from `first`. */
  function ExecutedBlocks(executed: seq<bool>, first: nat, from: nat, upTo: nat): (bs: seq<nat>)
    requires first <= from <= upTo <= |executed|
    ensures forall i | 0 <= i < |bs| :: from - first <= bs[i] < upTo - first
    decreases upTo - from
  {
    if from == upTo then [] else
      ExecutedBlocks(executed, first, from, upTo - 1) + if executed[upTo - 1] then [upTo - 1 - first] else []
  }

  ghost predicate Fits(f: Func, executed: seq<bool>) {
    f.first < f.last <= |executed|
  }

  function Numbers(f: Func, executed: seq<bool>): seq<nat>
    requires Fits(f, executed)
  {
    ExecutedBlocks(executed, f.first, f.first + 1, f.last) + [f.last - f.first]
  }

  function CoverageLine(n: nat, f: Func, executed: seq<bool>): string
    requires Fits(f, executed)
  {
    "C" + Decimal(n) + Spaced(Numbers(f, executed))
  }

  ghost predicate AllFit(fs: seq<Func>, executed: seq<bool>) {
    forall i | 0 <= i < |fs| :: Fits(fs[i], executed)
  }

  /** A line for each of the functions from the n-th on whose entry was executed. */
  function CoverageLines(fs: seq<Func>, n: nat, executed: seq<bool>): string
    requires n <= |fs| && AllFit(fs, executed)
    decreases |fs| - n
  {
    if n == |fs| then [] else
      (if executed[fs[n].first] then CoverageLine(n, fs[n], executed) + "\n" else [])
      + CoverageLines(fs, n + 1, executed)
  }

  function Binary(mask: nat, len: nat): (s: string)
    ensures |s| == len && forall i | 0 <= i < len :: s[i] == if Bit(mask, i) then '1' else '0'
  {
    seq(len, i requires 0 <= i < len => if Bit(mask, i) then '1' else '0')
  }

  // `labels` holds, for each pass over eight bytes of the input, a label for each function.

  ghost predicate ValidLabels(labels: seq<seq<nat>>, numFuncs: nat) {
    forall i | 0 <= i < |labels| :: |labels[i]| == numFuncs
  }

  function LastLength(inputLen: nat): nat {
    if inputLen % NUM_LABELS != 0 then inputLen % NUM_LABELS else NUM_LABELS
  }

  function LabelBits(labels: seq<seq<nat>>, func: nat, n: nat, inputLen: nat): string
    requires n <= |labels| && forall i | 0 <= i < |labels| :: func < |labels[i]|
  {
    if n == 0 then [] else
      LabelBits(labels, func, n - 1, inputLen)
      + Binary(labels[n - 1][func], if n == |labels| then LastLength(inputLen) else NUM_LABELS)
  }

  predicate HasLabel(labels: seq<seq<nat>>, func: nat)
    requires forall i | 0 <= i < |labels| :: func < |labels[i]|
  {
    exists i | 0 <= i < |labels| :: labels[i][func] != 0
  }

  function DataFlowLine(labels: seq<seq<nat>>, func: nat, inputLen: nat): string
    requires forall i | 0 <= i < |labels| :: func < |labels[i]|
  {
    "F" + Decimal(func) + (" " + LabelBits(labels, func, |labels|, inputLen))
  }

  function DataFlowLines(labels: seq<seq<nat>>, func: nat, numFuncs: nat, inputLen: nat): string
    requires func <= numFuncs && ValidLabels(labels, numFuncs)
    decreases numFuncs - func
  {
    if func == numFuncs then [] else
      (if HasLabel(labels, func) then DataFlowLine(labels, func, inputLen) + "\n" else [])
      + DataFlowLines(labels, func + 1, numFuncs, inputLen)
  }

  /** A data-flow line has a character for each byte of the input: '1' iff the byte's label reached the function. */
  lemma {:induction false} LabelBitsPerByte(labels: seq<seq<nat>>, func: nat, n: nat, inputLen: nat)
    requires n <= |labels| == (inputLen + NUM_LABELS - 1) / NUM_LABELS
    requires forall i | 0 <= i < |labels| :: func < |labels[i]|
    ensures |LabelBits(labels, func, n, inputLen)| == if n == |labels| then inputLen else n * NUM_LABELS
    ensures forall k | 0 <= k < |LabelBits(labels, func, n, inputLen)| ::
              LabelBits(labels, func, n, inputLen)[k] == if Bit(labels[k / NUM_LABELS][func], k % NUM_LABELS) then '1' else '0'
  {
    if n > 0 {
      LabelBitsPerByte(labels, func, n - 1, inputLen);
    }
  }

  // ----- reading

  datatype Coverage = Coverage(functions: map<nat, seq<nat>>, withDFT: set<nat>)

  /** `Undefined` is a write outside a counter vector. */
  datatype Outcome = Accepted(coverage: Coverage) | Rejected(coverage: Coverage) | Undefined

  /** A string as C sees it. */
  function CString(s: string): string {
    if s == [] || s[0] == '\0' then [] else [s[0]] + CString(s[1..])
  }

  ghost predicate Words(counters: seq<nat>) {
    forall i | 0 <= i < |counters| :: counters[i] < U32
  }

  /** Increments a 32-bit counter for each of the blocks. */
  function Bump(counters: seq<nat>, blocks: seq<nat>): (r: seq<nat>)
    requires Below(blocks, |counters|)
    ensures |r| == |counters|
  {
    if blocks == [] then counters else
      var b := blocks[|blocks| - 1];
      var c := Bump(counters, blocks[..|blocks| - 1]);
      c[b := (c[b] + 1) % U32]
  }

  function AddBlocks(c: Coverage, id: nat, numbers: seq<nat>): Outcome {
    if numbers == [] then Rejected(c) else
      var numBlocks := numbers[|numbers| - 1];
      var blocks := numbers[..|numbers| - 1];
      if exists i | 0 <= i < |blocks| :: blocks[i] >= numBlocks then Rejected(c) else
        var c1 := if id in c.functions then c else c.(functions := c.functions[id := Zeros(numBlocks)]);
        var counters := c1.functions[id];
        if |counters| != numBlocks then Rejected(c1)
        else if numBlocks == 0 then Undefined
        else Accepted(c1.(functions := c1.functions[id := Bump(counters, [0] + blocks)]))
  }

  function AppendLine(c: Coverage, line: string): Outcome {
    if line == [] then Accepted(c) else
      var id := ExtractNumber(CString(line[1..]), U64);
      if line[0] == 'F' then
        var f := match id case Untouched => 0 case Garbage(left) => left case Number(v, _) => v;
        Accepted(c.(withDFT := c.withDFT + {f}))
      else if line[0] != 'C' then Accepted(c)
      else match id
        case Number(v, rest) => AddBlocks(c, v, ExtractNumbers(rest, U32))
        case _ => Rejected(c)
  }

  function AppendText(c: Coverage, s: string): Outcome
    decreases |s|
  {
    if s == [] then Accepted(c) else
      match AppendLine(c, Line(s))
      case Accepted(c') => AppendText(c', AfterLine(s))
      case o => o
  }

  // ----- one line read back

  predicate Plain(s: string) {
    forall i | 0 <= i < |s| :: s[i] == ' ' || IsDigit(s[i])
  }

  lemma {:induction false} PlainString(s: string)
    requires Plain(s)
    ensures CString(s) == s && OneLine(s)
  {
    if s != [] {
      PlainString(s[1..]);
    }
  }

  lemma {:induction false} SpacedIsPlain(ns: seq<nat>)
    ensures Plain(Spaced(ns))
  {
    if ns != [] {
      SpacedIsPlain(ns[1..]);
    }
  }

  lemma {:induction false} LabelBitsArePlain(labels: seq<seq<nat>>, func: nat, n: nat, inputLen: nat)
    requires n <= |labels| && forall i | 0 <= i < |labels| :: func < |labels[i]|
    ensures Plain(LabelBits(labels, func, n, inputLen))
  {
    if n > 0 {
      LabelBitsArePlain(labels, func, n - 1, inputLen);
    }
  }

  lemma CoverageLineRead(c: Coverage, n: nat, f: Func, executed: seq<bool>)
    requires Fits(f, executed) && n < U64 && |executed| < U32
    ensures OneLine(CoverageLine(n, f, executed))
    ensures AppendLine(c, CoverageLine(n, f, executed)) == AddBlocks(c, n, Numbers(f, executed))
  {
    var ns := Numbers(f, executed);
    var line := CoverageLine(n, f, executed);
    NumbersFit(f, executed);
    hide Numbers, AddBlocks, ExtractNumber, ExtractNumbers, Spaced, Decimal, AppendLine;
    CoverageLineShape(n, ns, line);
    ExtractSpaced(ns, U32);
    CLineRead(c, line, n, Spaced(ns));
  }

  lemma CoverageLineShape(n: nat, ns: seq<nat>, line: string)
    requires line == "C" + Decimal(n) + Spaced(ns) && n < U64
    ensures OneLine(line) && line[0] == 'C'
    ensures ExtractNumber(CString(line[1..]), U64) == Number(n, Spaced(ns))
  {
    hide ExtractNumber, Spaced, Decimal;
    SpacedIsPlain(ns);
    var tail := Decimal(n) + Spaced(ns);
    assert line[1..] == tail && line == ['C'] + tail;
    PlainString(tail);
    SpacedStart(ns);
    ExtractPrinted(n, Spaced(ns), U64);
  }

  lemma CLineRead(c: Coverage, line: string, n: nat, rest: string)
    requires line != [] && line[0] == 'C' && ExtractNumber(CString(line[1..]), U64) == Number(n, rest)
    ensures AppendLine(c, line) == AddBlocks(c, n, ExtractNumbers(rest, U32))
  {
    hide ExtractNumber, ExtractNumbers, AddBlocks;
  }

  lemma NumbersFit(f: Func, executed: seq<bool>)
    requires Fits(f, executed) && |executed| < U32
    ensures Below(Numbers(f, executed), U32)
  {
  }

  lemma DataFlowLineRead(c: Coverage, labels: seq<seq<nat>>, func: nat, inputLen: nat)
    requires func < U64 && forall i | 0 <= i < |labels| :: func < |labels[i]|
    ensures OneLine(DataFlowLine(labels, func, inputLen))
    ensures AppendLine(c, DataFlowLine(labels, func, inputLen)) == Accepted(c.(withDFT := c.withDFT + {func}))
  {
    var bits := " " + LabelBits(labels, func, |labels|, inputLen);
    LabelBitsArePlain(labels, func, |labels|, inputLen);
    var line := DataFlowLine(labels, func, inputLen);
    var tail := Decimal(func) + bits;
    hide LabelBits, ExtractNumber;
    assert line == ['F'] + tail && line[1..] == tail;
    PlainString(tail);
    ExtractPrinted(func, bits, U64);
  }

  function Then(o: Outcome, rest: string): Outcome {
    if o.Accepted? then AppendText(o.coverage, rest) else o
  }

  lemma NextLine(c: Coverage, line: string, rest: string)
    requires OneLine(line)
    ensures AppendText(c, line + "\n" + rest) == Then(AppendLine(c, line), rest)
  {
    LineOf(line, rest);
  }

  // ----- what many reports add up to

  /** How many of the runs entered f and executed its k-th block. */
  function Runs(runs: seq<seq<bool>>, f: Func, k: nat): nat
    requires forall r | r in runs :: f.first + k < |r|
  {
    if runs == [] then 0 else
      var last := runs[|runs| - 1];
      Runs(runs[..|runs| - 1], f, k) + if last[f.first] && last[f.first + k] then 1 else 0
  }

  ghost predicate AllRunsFit(runs: seq<seq<bool>>, f: Func) {
    forall r | r in runs :: Fits(f, r)
  }

  function Tally(runs: seq<seq<bool>>, f: Func): (t: seq<nat>)
    requires AllRunsFit(runs, f) && f.first < f.last
    ensures |t| == f.last - f.first && Words(t)
    ensures forall k | 0 <= k < |t| :: t[k] == Runs(runs, f, k) % U32
  {
    seq(f.last - f.first, k requires 0 <= k < f.last - f.first => Runs(runs, f, k) % U32)
  }

  /** A function is known iff a run entered it, and then its counters are its tally. */
  ghost predicate TalliesAt(functions: map<nat, seq<nat>>, n: nat, f: Func, runs: seq<seq<bool>>) {
    f.first < f.last && AllRunsFit(runs, f)
    && if Runs(runs, f, 0) == 0 then n !in functions else n in functions && functions[n] == Tally(runs, f)
  }

  lemma {:induction false} EntryMost(runs: seq<seq<bool>>, f: Func, k: nat)
    requires AllRunsFit(runs, f) && k < f.last - f.first
    ensures Runs(runs, f, k) <= Runs(runs, f, 0)
  {
    if runs != [] {
      EntryMost(runs[..|runs| - 1], f, k);
    }
  }

  lemma {:induction false} BumpOnce(counters: seq<nat>, blocks: seq<nat>)
    requires Below(blocks, |counters|) && NoDuplicates(blocks) && Words(counters)
    ensures forall k | 0 <= k < |counters| ::
              Bump(counters, blocks)[k] == if k in blocks then (counters[k] + 1) % U32 else counters[k]
  {
    if blocks != [] {
      var b := blocks[|blocks| - 1];
      var init := blocks[..|blocks| - 1];
      BumpOnce(counters, init);
      assert b !in init;
      assert forall k | 0 <= k < |counters| :: k in blocks <==> k in init || k == b;
    }
  }

  lemma {:induction false} ExecutedBlocksAre(executed: seq<bool>, first: nat, from: nat, upTo: nat)
    requires first <= from <= upTo <= |executed|
    ensures NoDuplicates(ExecutedBlocks(executed, first, from, upTo))
    ensures forall k: nat :: k in ExecutedBlocks(executed, first, from, upTo)
                             <==> from <= first + k < upTo && executed[first + k]
    decreases upTo - from
  {
    if from < upTo {
      ExecutedBlocksAre(executed, first, from, upTo - 1);
    }
  }

  lemma RunsNext(runs: seq<seq<bool>>, f: Func, executed: seq<bool>, k: nat)
    requires AllRunsFit(runs, f) && Fits(f, executed) && k < f.last - f.first
    ensures AllRunsFit(runs + [executed], f)
    ensures Runs(runs + [executed], f, k) == Runs(runs, f, k) + if executed[f.first] && executed[f.first + k] then 1 else 0
  {
    assert (runs + [executed])[..|runs|] == runs;
  }

  /** The counters that the line of an entered function bumps. */
  function Bumped(f: Func, executed: seq<bool>): (bs: seq<nat>)
    requires Fits(f, executed)
    ensures Below(bs, f.last - f.first)
  {
    [0] + ExecutedBlocks(executed, f.first, f.first + 1, f.last)
  }

  lemma BumpedAre(f: Func, executed: seq<bool>)
    requires Fits(f, executed) && executed[f.first]
    ensures NoDuplicates(Bumped(f, executed))
    ensures forall k: nat :: k in Bumped(f, executed) <==> k < f.last - f.first && executed[f.first + k]
  {
    ExecutedBlocksAre(executed, f.first, f.first + 1, f.last);
    hide ExecutedBlocks;
  }

  lemma BumpedTally(runs: seq<seq<bool>>, f: Func, executed: seq<bool>)
    requires AllRunsFit(runs, f) && Fits(f, executed) && executed[f.first]
    ensures AllRunsFit(runs + [executed], f)
    ensures Bump(Tally(runs, f), Bumped(f, executed)) == Tally(runs + [executed], f)
  {
    hide Bumped, Runs, Bump, NoDuplicates;
    BumpedAre(f, executed);
    BumpOnce(Tally(runs, f), Bumped(f, executed));
    RunsNext(runs, f, executed, 0);
    forall k: nat | k < f.last - f.first
      ensures Bump(Tally(runs, f), Bumped(f, executed))[k] == Tally(runs + [executed], f)[k]
    {
      RunsNext(runs, f, executed, k);
      NextCount(Runs(runs, f, k));
    }
  }

  lemma NextCount(n: nat)
    ensures (n % U32 + 1) % U32 == (n + 1) % U32
  {
  }

  /** Reading the line of an entered function turns its tally into the next one. */
  lemma AddBlocksTallies(c: Coverage, n: nat, f: Func, runs: seq<seq<bool>>, executed: seq<bool>)
    requires TalliesAt(c.functions, n, f, runs) && Fits(f, executed) && executed[f.first]
    ensures AllRunsFit(runs + [executed], f)
    ensures AddBlocks(c, n, Numbers(f, executed))
         == Accepted(c.(functions := c.functions[n := Tally(runs + [executed], f)]))
  {
    BumpedTally(runs, f, executed);
    hide Runs, Bump;
    if n !in c.functions {
      NeverEntered(f, runs);
    }
    AddBlocksAre(c, n, f, executed);
  }

  lemma NeverEntered(f: Func, runs: seq<seq<bool>>)
    requires AllRunsFit(runs, f) && f.first < f.last && Runs(runs, f, 0) == 0
    ensures Tally(runs, f) == Zeros(f.last - f.first)
  {
    hide Runs;
    forall k | 0 <= k < f.last - f.first ensures Runs(runs, f, k) == 0 {
      EntryMost(runs, f, k);
    }
  }

  lemma AddBlocksAre(c: Coverage, n: nat, f: Func, executed: seq<bool>)
    requires Fits(f, executed)
    requires n in c.functions ==> |c.functions[n]| == f.last - f.first
    ensures var before := if n in c.functions then c.functions[n] else Zeros(f.last - f.first);
            AddBlocks(c, n, Numbers(f, executed))
            == Accepted(c.(functions := c.functions[n := Bump(before, Bumped(f, executed))]))
  {
    hide ExecutedBlocks, Bump;
    var numbers := Numbers(f, executed);
    assert numbers[..|numbers| - 1] == ExecutedBlocks(executed, f.first, f.first + 1, f.last);
    assert numbers[|numbers| - 1] == f.last - f.first;
  }

  /** The functions before the m-th count the new run, the others do not yet. */
  ghost predicate Tallies(functions: map<nat, seq<nat>>, fs: seq<Func>, runs: seq<seq<bool>>, executed: seq<bool>, m: nat) {
    && (forall n | n in functions :: n < |fs|)
    && forall n | 0 <= n < |fs| :: TalliesAt(functions, n, fs[n], if n < m then runs + [executed] else runs)
  }

  lemma StepTallies(c: Coverage, fs: seq<Func>, runs: seq<seq<bool>>, executed: seq<bool>, m: nat) returns (c': Coverage)
    requires AllFit(fs, executed) && m < |fs| && Tallies(c.functions, fs, runs, executed, m)
    ensures Tallies(c'.functions, fs, runs, executed, m + 1) && c'.withDFT == c.withDFT
    ensures if executed[fs[m].first] then AddBlocks(c, m, Numbers(fs[m], executed)) == Accepted(c') else c' == c
  {
    hide AddBlocks, Numbers, Runs;
    assert TalliesAt(c.functions, m, fs[m], runs);
    RunsNext(runs, fs[m], executed, 0);
    if executed[fs[m].first] {
      AddBlocksTallies(c, m, fs[m], runs, executed);
      c' := c.(functions := c.functions[m := Tally(runs + [executed], fs[m])]);
    } else {
      c' := c;
      SameTally(fs[m], runs, executed);
    }
    forall n | 0 <= n < |fs| ensures TalliesAt(c'.functions, n, fs[n], if n < m + 1 then runs + [executed] else runs) {
      assert TalliesAt(c.functions, n, fs[n], if n < m then runs + [executed] else runs);
    }
  }

  lemma SameTally(f: Func, runs: seq<seq<bool>>, executed: seq<bool>)
    requires AllRunsFit(runs, f) && Fits(f, executed) && !executed[f.first]
    ensures AllRunsFit(runs + [executed], f) && Tally(runs + [executed], f) == Tally(runs, f)
  {
    hide Runs;
    forall k: nat | k < f.last - f.first ensures Runs(runs + [executed], f, k) == Runs(runs, f, k) {
      RunsNext(runs, f, executed, k);
    }
    RunsNext(runs, f, executed, 0);
  }

  lemma {:induction false} CoverageRead(c: Coverage, fs: seq<Func>, runs: seq<seq<bool>>, executed: seq<bool>, m: nat)
      returns (c': Coverage)
    requires AllFit(fs, executed) && |fs| < U64 && |executed| < U32
    requires m <= |fs| && Tallies(c.functions, fs, runs, executed, m)
    ensures AppendText(c, CoverageLines(fs, m, executed)) == Accepted(c')
    ensures Tallies(c'.functions, fs, runs, executed, |fs|) && c'.withDFT == c.withDFT
    decreases |fs| - m
  {
    hide AppendText, Tallies, AddBlocks, CoverageLine, AppendLine;
    if m < |fs| {
      var c1 := StepTallies(c, fs, runs, executed, m);
      c' := CoverageRead(c1, fs, runs, executed, m + 1);
      var rest := CoverageLines(fs, m + 1, executed);
      if executed[fs[m].first] {
        CoverageLineRead(c, m, fs[m], executed);
        NextLine(c, CoverageLine(m, fs[m], executed), rest);
      } else {
        assert CoverageLines(fs, m, executed) == rest;
      }
    } else {
      c' := c;
      NothingLeft(c);
    }
  }

  lemma NothingLeft(c: Coverage)
    ensures AppendText(c, []) == Accepted(c)
  {
  }

  /** The functions from `func` on that some byte of the input reached. */
  function Labelled(labels: seq<seq<nat>>, func: nat, numFuncs: nat): set<nat>
    requires ValidLabels(labels, numFuncs)
  {
    set g: nat | func <= g < numFuncs && HasLabel(labels, g)
  }

  lemma {:induction false} DataFlowRead(c: Coverage, labels: seq<seq<nat>>, func: nat, numFuncs: nat, inputLen: nat, rest: string)
    requires func <= numFuncs < U64 && ValidLabels(labels, numFuncs)
    ensures AppendText(c, DataFlowLines(labels, func, numFuncs, inputLen) + rest)
         == AppendText(c.(withDFT := c.withDFT + Labelled(labels, func, numFuncs)), rest)
    decreases numFuncs - func
  {
    hide AppendText, AppendLine, HasLabel, DataFlowLine;
    if func < numFuncs {
      var c1 := if HasLabel(labels, func) then c.(withDFT := c.withDFT + {func}) else c;
      DataFlowRead(c1, labels, func + 1, numFuncs, inputLen, rest);
      assert c1.withDFT + Labelled(labels, func + 1, numFuncs) == c.withDFT + Labelled(labels, func, numFuncs);
      var tail := DataFlowLines(labels, func + 1, numFuncs, inputLen);
      if HasLabel(labels, func) {
        DataFlowLineRead(c, labels, func, inputLen);
        NextLine(c, DataFlowLine(labels, func, inputLen), tail + rest);
        assert DataFlowLines(labels, func, numFuncs, inputLen) + rest
            == DataFlowLine(labels, func, inputLen) + "\n" + (tail + rest);
      } else {
        assert DataFlowLines(labels, func, numFuncs, inputLen) == tail;
      }
    } else {
      assert DataFlowLines(labels, func, numFuncs, inputLen) + rest == rest;
      assert c.withDFT + Labelled(labels, func, numFuncs) == c.withDFT;
    }
  }

  // ----- whole reports

  /** One run of the tracer: the length of the input, its labels and the blocks it executed. */
  datatype Trace = Trace(inputLen: nat, labels: seq<seq<nat>>, executed: seq<bool>)

  ghost predicate ValidTrace(fs: seq<Func>, numFuncs: nat, t: Trace) {
    ValidLabels(t.labels, numFuncs) && AllFit(fs, t.executed) && |t.executed| < U32
  }

  ghost predicate AllValid(fs: seq<Func>, numFuncs: nat, traces: seq<Trace>) {
    forall i | 0 <= i < |traces| :: ValidTrace(fs, numFuncs, traces[i])
  }

  function Report(fs: seq<Func>, numFuncs: nat, t: Trace): string
    requires ValidTrace(fs, numFuncs, t)
  {
    DataFlowLines(t.labels, 0, numFuncs, t.inputLen) + CoverageLines(fs, 0, t.executed)
  }

  function ReadAll(fs: seq<Func>, numFuncs: nat, traces: seq<Trace>): Outcome
    requires AllValid(fs, numFuncs, traces)
  {
    if traces == [] then Accepted(Coverage(map[], {})) else
      match ReadAll(fs, numFuncs, traces[..|traces| - 1])
      case Accepted(c) => AppendText(c, Report(fs, numFuncs, traces[|traces| - 1]))
      case o => o
  }

  function Executions(traces: seq<Trace>): (r: seq<seq<bool>>)
  {
    if traces == [] then [] else Executions(traces[..|traces| - 1]) + [traces[|traces| - 1].executed]
  }

  /** The functions that some byte of some input reached. */
  function AllLabelled(fs: seq<Func>, numFuncs: nat, traces: seq<Trace>): set<nat>
    requires AllValid(fs, numFuncs, traces)
  {
    if traces == [] then {} else
      var t := traces[|traces| - 1];
      assert ValidTrace(fs, numFuncs, t);
      AllLabelled(fs, numFuncs, traces[..|traces| - 1]) + Labelled(t.labels, 0, numFuncs)
  }

  ghost predicate Complete(c: Coverage, fs: seq<Func>, numFuncs: nat, traces: seq<Trace>)
    requires AllValid(fs, numFuncs, traces)
  {
    && (forall n | n in c.functions :: n < |fs|)
    && (forall n | 0 <= n < |fs| :: TalliesAt(c.functions, n, fs[n], Executions(traces)))
    && c.withDFT == AllLabelled(fs, numFuncs, traces)
  }

  /** Reading the reports of any sequence of inputs succeeds; a function is then known iff some input entered it, each
      of its counters is the number of inputs that entered it and executed the block, and the functions with a
      data-flow trace are those that some byte reached. */
  lemma {:induction false} ReportsRoundTrip(fs: seq<Func>, numFuncs: nat, traces: seq<Trace>) returns (c: Coverage)
    requires |fs| < U64 && numFuncs < U64 && forall f | f in fs :: f.first < f.last
    requires AllValid(fs, numFuncs, traces)
    ensures ReadAll(fs, numFuncs, traces) == Accepted(c) && Complete(c, fs, numFuncs, traces)
  {
    if traces == [] {
      c := Coverage(map[], {});
    } else {
      var c0 := ReportsRoundTrip(fs, numFuncs, traces[..|traces| - 1]);
      c := RoundTripStep(fs, numFuncs, traces, c0);
    }
  }

  lemma RoundTripStep(fs: seq<Func>, numFuncs: nat, traces: seq<Trace>, c0: Coverage) returns (c: Coverage)
    requires |fs| < U64 && numFuncs < U64 && traces != [] && AllValid(fs, numFuncs, traces)
    requires ReadAll(fs, numFuncs, traces[..|traces| - 1]) == Accepted(c0)
    requires Complete(c0, fs, numFuncs, traces[..|traces| - 1])
    ensures ReadAll(fs, numFuncs, traces) == Accepted(c) && Complete(c, fs, numFuncs, traces)
  {
    var init, t := traces[..|traces| - 1], traces[|traces| - 1];
    assert ValidTrace(fs, numFuncs, t);
    hide AppendText, Report, Complete, ValidTrace, ReadAll, AllValid;
    assert init + [t] == traces;
    c := ReportRead(c0, fs, numFuncs, init, t);
    ReadOneMore(fs, numFuncs, traces, c0);
  }

  lemma ReadOneMore(fs: seq<Func>, numFuncs: nat, traces: seq<Trace>, c: Coverage)
    requires traces != [] && AllValid(fs, numFuncs, traces)
    requires ReadAll(fs, numFuncs, traces[..|traces| - 1]) == Accepted(c)
    ensures ReadAll(fs, numFuncs, traces) == AppendText(c, Report(fs, numFuncs, traces[|traces| - 1]))
  {
    hide AppendText, Report, ValidTrace;
  }

  lemma ReportRead(c0: Coverage, fs: seq<Func>, numFuncs: nat, init: seq<Trace>, t: Trace) returns (c: Coverage)
    requires |fs| < U64 && numFuncs < U64
    requires AllValid(fs, numFuncs, init) && ValidTrace(fs, numFuncs, t)
    requires Complete(c0, fs, numFuncs, init)
    ensures AllValid(fs, numFuncs, init + [t])
    ensures AppendText(c0, Report(fs, numFuncs, t)) == Accepted(c) && Complete(c, fs, numFuncs, init + [t])
  {
    hide AppendText, DataFlowLines, CoverageLines, HasLabel, TalliesAt;
    DataFlowRead(c0, t.labels, 0, numFuncs, t.inputLen, CoverageLines(fs, 0, t.executed));
    var c1 := c0.(withDFT := c0.withDFT + Labelled(t.labels, 0, numFuncs));
    assert Tallies(c1.functions, fs, Executions(init), t.executed, 0);
    c := CoverageRead(c1, fs, Executions(init), t.executed, 0);
    assert (init + [t])[..|init|] == init;
    assert Executions(init + [t]) == Executions(init) + [t.executed];
  }
}
