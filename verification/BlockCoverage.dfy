/** Counters per function and block, read from coverage texts (FuzzerDataFlowTrace.h, FuzzerDataFlowTrace.cpp). */
module BlockCoverages {
  import opened Widths
  import opened Collections
  import opened Text
  import opened CoverageText

  /** `OutOfBounds`: the line of a function without blocks makes the source write outside its counters. */
  datatype Reply = Yes | No | OutOfBounds

  function Told(reply: Reply, c: Coverage): Outcome {
    match reply
    case Yes => Accepted(c)
    case No => Rejected(c)
    case OutOfBounds => Undefined
  }

  class BlockCoverage {
    var functions: map<nat, seq<nat>>
    var functionsWithDFT: set<nat>

    constructor ()
      ensures Value() == Coverage(map[], {})
    {
      functions, functionsWithDFT := map[], {};
    }

    function Value(): Coverage
      reads this
    {
      Coverage(functions, functionsWithDFT)
    }

    /** Adds the lines of one text; stops at the first line that it cannot accept. */
    method AppendCoverage(s: string) returns (reply: Reply)
      modifies this
      ensures AppendText(old(Value()), s) == Told(reply, Value())
    {
      hide AppendLine;
      var rest := s;
      while rest != []
        invariant AppendText(Value(), rest) == AppendText(old(Value()), s)
        decreases |rest|
      {
        reply := AddLine(Line(rest));
        if reply != Yes {
          return;
        }
        rest := AfterLine(rest);
      }
      return Yes;
    }

    method AddLine(line: string) returns (reply: Reply)
      modifies this
      ensures AppendLine(old(Value()), line) == Told(reply, Value())
    {
      hide AddBlocks, ExtractNumber;
      if line == [] {
        return Yes;
      }
      var id := ExtractNumber(CString(line[1..]), U64);
      if line[0] == 'F' {
        var functionId := match id case Untouched => 0 case Garbage(left) => left case Number(v, _) => v;
        functionsWithDFT := functionsWithDFT + {functionId};
        return Yes;
      }
      if line[0] != 'C' {
        return Yes;
      }
      if !id.Number? {
        return No;
      }
      var numbers := ReadNumbers(id.rest, U32);
      reply := AddNumbers(id.value, numbers);
    }

    method AddNumbers(functionId: nat, numbers: seq<nat>) returns (reply: Reply)
      modifies this
      ensures AddBlocks(old(Value()), functionId, numbers) == Told(reply, Value())
    {
      if numbers == [] {
        return No;
      }
      var numBlocks := numbers[|numbers| - 1];
      var coveredBlocks := numbers[..|numbers| - 1];
      for i := 0 to |coveredBlocks|
        invariant forall k | 0 <= k < i :: coveredBlocks[k] < numBlocks
      {
        if coveredBlocks[i] >= numBlocks {
          return No;
        }
      }
      if functionId !in functions {
        functions := functions[functionId := Zeros(numBlocks)];
      }
      if |functions[functionId]| != numBlocks {
        return No;
      }
      if numBlocks == 0 {
        return OutOfBounds;
      }
      var counters := Increment(functions[functionId], coveredBlocks);
      functions := functions[functionId := counters];
      return Yes;
    }

    method Increment(before: seq<nat>, blocks: seq<nat>) returns (counters: seq<nat>)
      requires |before| > 0 && Below(blocks, |before|)
      ensures counters == Bump(before, [0] + blocks)
    {
      var all := [0] + blocks;
      counters := before[0 := (before[0] + 1) % U32];
      assert all[..1][..0] == [] && all[..1] == [0];
      for i := 0 to |blocks|
        invariant |counters| == |before| && counters == Bump(before, all[..i + 1])
      {
        assert all[..i + 2][..i + 1] == all[..i + 1];
        counters := counters[blocks[i] := (counters[blocks[i]] + 1) % U32];
      }
      assert all[..|blocks| + 1] == all;
    }
  }
}
