/** The report printers of the data-flow tracer (dataflow/DataFlow.cpp). */
module DataFlow {
  import opened Text
  import opened FunctionCoverage
  import opened CoverageText
  import opened Bits

  /** The functions of a guard table, numbered from zero. */
  function Functions(table: seq<PCTableEntry>): seq<Func> {
    FunctionsFrom(table, 0, 0)
  }

  /** The functions of a table lie within it. */
  lemma FunctionsFit(table: seq<PCTableEntry>, executed: seq<bool>)
    requires table != [] ==> PcIsFuncEntry(table[0])
    requires |executed| == |table|
    ensures AllFit(Functions(table), executed) && |Functions(table)| <= |table|
  {
    FunctionsFitFrom(table, executed, 0);
  }

  lemma {:induction false} FunctionsFitFrom(table: seq<PCTableEntry>, executed: seq<bool>, i: nat)
    requires i <= |table| == |executed|
    ensures AllFit(FunctionsFrom(table, 0, i), executed) && |FunctionsFrom(table, 0, i)| <= |table| - i
    decreases |table| - i
  {
    if i < |table| {
      FunctionsFitFrom(table, executed, NextEntry(table, i));
    }
  }

  lemma AllPrinted(fs: seq<Func>, executed: seq<bool>)
    requires AllFit(fs, executed)
    ensures CoverageLines(fs, |fs|, executed) == []
  {
  }

  lemma NextFunction(fs: seq<Func>, n: nat, executed: seq<bool>, out: string, line: string)
    requires n < |fs| && AllFit(fs, executed)
    requires line == if executed[fs[n].first] then CoverageLine(n, fs[n], executed) + "\n" else []
    ensures out + CoverageLines(fs, n, executed) == out + line + CoverageLines(fs, n + 1, executed)
  {
  }

  method PrintCoverage(table: seq<PCTableEntry>, executed: seq<bool>) returns (out: string)
    requires |executed| == |table| && (table != [] ==> PcIsFuncEntry(table[0]))
    ensures AllFit(Functions(table), executed)
    ensures out == CoverageLines(Functions(table), 0, executed)
  {
    FunctionsFit(table, executed);
    ghost var fs := Functions(table);
    AllPrinted(fs, executed);
    hide CoverageLine, CoverageLines;
    out := [];
    var currentFuncNum := 0;
    var funcBeg := 0;
    while funcBeg < |table|
      invariant 0 <= funcBeg <= |table| && currentFuncNum <= |fs|
      invariant fs[currentFuncNum..] == FunctionsFrom(table, 0, funcBeg)
      invariant out + CoverageLines(fs, currentFuncNum, executed) == CoverageLines(fs, 0, executed)
    {
      var funcEnd := FindNextEntry(table, funcBeg);
      assert fs[currentFuncNum] == fs[currentFuncNum..][0];
      var line := PrintFunction(executed, funcBeg, funcEnd, currentFuncNum, fs[currentFuncNum]);
      NextFunction(fs, currentFuncNum, executed, out, line);
      out := out + line;
      currentFuncNum := currentFuncNum + 1;
      funcBeg := funcEnd;
    }
  }

  lemma {:induction false} SpacedSnoc(ns: seq<nat>, n: nat)
    ensures Spaced(ns + [n]) == Spaced(ns) + " " + Decimal(n)
  {
    if ns != [] {
      assert (ns + [n])[1..] == ns[1..] + [n];
      SpacedSnoc(ns[1..], n);
    }
  }

  method PrintFunction(executed: seq<bool>, funcBeg: nat, funcEnd: nat, num: nat, ghost f: Func) returns (out: string)
    requires Fits(f, executed) && f.first == funcBeg && f.last == funcEnd
    ensures out == if executed[funcBeg] then CoverageLine(num, f, executed) + "\n" else []
  {
    out := [];
    if executed[funcBeg] {
      out := "C" + Decimal(num);
      ghost var start := out;
      var blocks := PrintBlocks(executed, funcBeg, funcEnd);
      SpacedSnoc(ExecutedBlocks(executed, funcBeg, funcBeg + 1, funcEnd), funcEnd - funcBeg);
      out := out + blocks + " " + Decimal(funcEnd - funcBeg) + "\n";
      hide Decimal, Spaced, ExecutedBlocks;
      assert out == start + (blocks + " " + Decimal(funcEnd - funcBeg)) + "\n";
    }
  }

  method PrintBlocks(executed: seq<bool>, funcBeg: nat, funcEnd: nat) returns (out: string)
    requires funcBeg < funcEnd <= |executed|
    ensures out == Spaced(ExecutedBlocks(executed, funcBeg, funcBeg + 1, funcEnd))
  {
    hide Decimal;
    out := [];
    for i := funcBeg + 1 to funcEnd
      invariant out == Spaced(ExecutedBlocks(executed, funcBeg, funcBeg + 1, i))
    {
      ghost var before := ExecutedBlocks(executed, funcBeg, funcBeg + 1, i);
      ghost var after := ExecutedBlocks(executed, funcBeg, funcBeg + 1, i + 1);
      assert after == if executed[i] then before + [i - funcBeg] else before;
      if executed[i] {
        SpacedSnoc(before, i - funcBeg);
        out := out + " " + Decimal(i - funcBeg);
      }
    }
  }

  method PrintBinary(mask: nat, len: nat) returns (out: string)
    requires len <= NUM_LABELS
    ensures out == Binary(mask, len)
  {
    var buf := new char[NUM_LABELS + 1](_ => '\0');
    for i := 0 to NUM_LABELS
      invariant forall k | 0 <= k < i :: buf[k] == if Bit(mask, k) then '1' else '0'
    {
      AndPow2(mask, i);
      buf[i] := if And(mask, Pow2(i)) != 0 then '1' else '0';
    }
    out := buf[..len];
  }

  method PrintDataFlow(labels: seq<seq<nat>>, numFuncs: nat, inputLen: nat) returns (out: string)
    requires ValidLabels(labels, numFuncs)
    ensures out == DataFlowLines(labels, 0, numFuncs, inputLen)
  {
    hide HasLabel, DataFlowLine;
    out := [];
    for func := 0 to numFuncs
      invariant out + DataFlowLines(labels, func, numFuncs, inputLen) == DataFlowLines(labels, 0, numFuncs, inputLen)
    {
      var hasAny := AnyLabel(labels, func);
      if hasAny {
        var line := PrintLabels(labels, func, inputLen);
        out := out + line + "\n";
      }
    }
  }

  method AnyLabel(labels: seq<seq<nat>>, func: nat) returns (hasAny: bool)
    requires forall i | 0 <= i < |labels| :: func < |labels[i]|
    ensures hasAny == HasLabel(labels, func)
  {
    hasAny := false;
    for iter := 0 to |labels|
      invariant hasAny <==> exists i | 0 <= i < iter :: labels[i][func] != 0
    {
      if labels[iter][func] != 0 {
        hasAny := true;
      }
    }
  }

  method PrintLabels(labels: seq<seq<nat>>, func: nat, inputLen: nat) returns (out: string)
    requires forall i | 0 <= i < |labels| :: func < |labels[i]|
    ensures out == DataFlowLine(labels, func, inputLen)
  {
    out := "F" + Decimal(func) + " ";
    var lenOfLastIteration := LastLength(inputLen);
    for iter := 0 to |labels|
      invariant out == "F" + Decimal(func) + (" " + LabelBits(labels, func, iter, inputLen))
    {
      var bits := PrintBinary(labels[iter][func], if iter == |labels| - 1 then lenOfLastIteration else NUM_LABELS);
      out := out + bits;
    }
  }
}
