/** The merge control file: its writers, and the line-by-line parser of `Merger::Parse`. */
module ControlFile {
  import opened Widths
  import opened Text
  import opened Collections

  const MAX_FILES: nat := 10000000

  /** `MergeFileInfo`. */
  datatype FileInfo = FileInfo(name: string, size: nat, features: seq<nat>, cov: seq<nat>)

  const BLANK := FileInfo("", 0, [], [])

  // ----- the parser

  /** The parser's state between two marker lines; `started` is `ExpectedStartMarker`. */
  datatype Progress = Progress(files: seq<FileInfo>, started: nat, haveFt: bool, pcs: set<nat>)

  datatype LineResult = Reject | OutOfBounds | Continue(progress: Progress)

  /** The program counters not seen before, in reading order. */
  function Unseen(ns: seq<nat>, pcs: set<nat>): seq<nat> {
    if ns == [] then []
    else if ns[0] in pcs then Unseen(ns[1..], pcs)
    else [ns[0]] + Unseen(ns[1..], pcs + {ns[0]})
  }

  function ReadSize(s: string, before: nat): nat {
    match ExtractNumber(s, U64)
    case Untouched => before
    case Garbage(left) => left
    case Number(v, _) => v
  }

  function ApplyMarker(marker: string, id: nat, rest: string, st: Progress, parseCoverage: bool): (r: LineResult)
    requires st.started <= |st.files|
    ensures r.Continue? ==> r.progress.started <= |r.progress.files| == |st.files|
  {
    if marker == "STARTED" then
      if id != st.started then Reject
      else if st.started >= |st.files| then OutOfBounds
      else
        var f := st.files[id];
        Continue(st.(files := st.files[id := f.(size := ReadSize(rest, f.size))],
                     started := st.started + 1, haveFt := false))
    else if marker == "FT" then
      if id + 1 != st.started then Reject
      else if !parseCoverage then Continue(st.(haveFt := true))
      else Continue(st.(haveFt := true,
                        files := st.files[id := st.files[id].(features := Sort(ExtractNumbers(rest, U32)))]))
    else if marker == "COV" then
      if id + 1 != st.started then Reject
      else if !parseCoverage then Continue(st)
      else
        var ns := ExtractNumbers(rest, U32);
        var f := st.files[id];
        Continue(st.(files := st.files[id := f.(cov := f.cov + Unseen(ns, st.pcs))],
                     pcs := st.pcs + Elements(ns)))
    else Reject
  }

  function ApplyLine(l: string, st: Progress, parseCoverage: bool): (r: LineResult)
    requires st.started <= |st.files|
    ensures r.Continue? ==> r.progress.started <= |r.progress.files| == |st.files|
  {
    var w := SkipSpace(l);
    var n := WordLength(w);
    if n == 0 then Reject else
      match ExtractNumber(w[n..], U32)
      case Number(id, rest) => ApplyMarker(w[..n], id, rest, st, parseCoverage)
      case _ => Reject
  }

  function ApplyLines(s: string, st: Progress, parseCoverage: bool): (r: LineResult)
    requires st.started <= |st.files|
    ensures r.Continue? ==> r.progress.started <= |r.progress.files| == |st.files|
    decreases |s|
  {
    if s == [] then Continue(st) else
      match ApplyLine(Line(s), st, parseCoverage)
      case Continue(st') => ApplyLines(AfterLine(s), st', parseCoverage)
      case r => r
  }

  /** `Files.resize(n)`. */
  function Resize(files: seq<FileInfo>, n: nat): (r: seq<FileInfo>)
    ensures |r| == n && forall i | 0 <= i < n :: r[i] == if i < |files| then files[i] else BLANK
  {
    if n <= |files| then files[..n] else files + seq(n - |files|, _ => BLANK)
  }

  /** Reads one line into the name of each of the files from index `i` on. */
  function ReadNames(s: string, files: seq<FileInfo>, i: nat): (r: Option<(seq<FileInfo>, string)>)
    requires i <= |files|
    ensures r.Some? ==> |r.value.0| == |files|
    decreases |files| - i
  {
    if i == |files| then Some((files, s))
    else if s == [] then None
    else ReadNames(AfterLine(s), files[i := files[i].(name := Line(s))], i + 1)
  }

  datatype ParseResult =
    | Bad        // Parse returns false
    | Overrun    // more STARTED lines than files: the vector is indexed out of range
    | Parsed(files: seq<FileInfo>, inFirst: nat, notProcessed: nat, lastFailure: string)

  function Finish(r: LineResult, inFirst: nat): ParseResult
    requires r.Continue? ==> r.progress.started <= |r.progress.files|
  {
    match r
    case Reject => Bad
    case OutOfBounds => Overrun
    case Continue(st) =>
      if !st.haveFt && 0 < st.started then
        Parsed(st.files, inFirst, st.started, st.files[st.started - 1].name)
      else
        Parsed(st.files, inFirst, st.started, "")
  }

  function ReadCount(l: string, before: nat): nat {
    ReadSize(l, before)
  }

  /** What parsing a control file into a `Merger` that holds `files` comes to. */
  function ParseText(files: seq<FileInfo>, s: string, parseCoverage: bool): ParseResult {
    if s == [] then Bad else
      var n := ReadCount(Line(s), 0);
      if n == 0 || n > MAX_FILES then Bad else
        var s1 := AfterLine(s);
        if s1 == [] then Bad else
          var inFirst := ReadCount(Line(s1), n + 1);
          if inFirst > n then Bad else
            match ReadNames(AfterLine(s1), Resize(files, n), 0)
            case None => Bad
            case Some(named) =>
              Finish(ApplyLines(named.1, Progress(named.0, 0, true, {}), parseCoverage), inFirst)
  }

  // ----- the writers

  /** What the inner process writes about one file that it ran to completion. */
  datatype Coverage = Coverage(features: seq<nat>, pcs: seq<nat>)

  /** One file the inner process started: its size, and its coverage unless the target crashed. */
  datatype Record = Record(size: nat, out: Option<Coverage>)

  /** One marker line: the marker, a file id, numbers. */
  function MarkerText(marker: string, i: nat, ns: seq<nat>): string {
    marker + (" " + Decimal(i) + Spaced(ns)) + "\n"
  }

  function CoverageText(i: nat, c: Coverage): string {
    MarkerText("FT", i, c.features) + MarkerText("COV", i, c.pcs)
  }

  function RecordText(i: nat, r: Record): string {
    MarkerText("STARTED", i, [r.size]) + if r.out.Some? then CoverageText(i, r.out.value) else ""
  }

  function LogText(recs: seq<Record>): string {
    if recs == [] then "" else
      LogText(recs[..|recs| - 1]) + RecordText(|recs| - 1, recs[|recs| - 1])
  }

  function NamesText(names: seq<string>): string {
    if names == [] then "" else names[0] + "\n" + NamesText(names[1..])
  }

  function HeaderText(names: seq<string>, inFirst: nat): string {
    Decimal(|names|) + "\n" + (Decimal(inFirst) + "\n" + NamesText(names))
  }

  function FileText(names: seq<string>, inFirst: nat, recs: seq<Record>): string {
    HeaderText(names, inFirst) + LogText(recs)
  }

  // ----- reading back what was written

  predicate WritableNumbers(c: Coverage) {
    Below(c.features, U32) && Below(c.pcs, U32)
  }

  predicate Writable(r: Record) {
    r.size < U64 && (r.out.Some? ==> WritableNumbers(r.out.value))
  }

  predicate WritableLog(recs: seq<Record>) {
    forall i | 0 <= i < |recs| :: Writable(recs[i])
  }

  function Named(names: seq<string>): seq<FileInfo> {
    seq(|names|, i requires 0 <= i < |names| => BLANK.(name := names[i]))
  }

  /** After an FT line. */
  function WithFeatures(st: Progress, i: nat, features: seq<nat>, parseCoverage: bool): Progress
    requires i < |st.files|
  {
    if !parseCoverage then st.(haveFt := true)
    else st.(haveFt := true, files := st.files[i := st.files[i].(features := Sort(features))])
  }

  /** After a COV line. */
  function WithPcs(st: Progress, i: nat, pcs: seq<nat>, parseCoverage: bool): Progress
    requires i < |st.files|
  {
    if !parseCoverage then st else
      st.(files := st.files[i := st.files[i].(cov := st.files[i].cov + Unseen(pcs, st.pcs))],
          pcs := st.pcs + Elements(pcs))
  }

  /** The parser's state after the lines of one more record. */
  function Recorded(st: Progress, r: Record, parseCoverage: bool): (st': Progress)
    requires st.started < |st.files|
    ensures |st'.files| == |st.files| && st'.started == st.started + 1
    ensures st'.haveFt == r.out.Some?
  {
    var i := st.started;
    var st1 := st.(files := st.files[i := st.files[i].(size := r.size)], started := i + 1, haveFt := false);
    match r.out
    case None => st1
    case Some(c) => WithPcs(WithFeatures(st1, i, c.features, parseCoverage), i, c.pcs, parseCoverage)
  }

  /** The parser's state after a whole log. */
  function Meaning(names: seq<string>, recs: seq<Record>, parseCoverage: bool): (st: Progress)
    requires |recs| <= |names|
    ensures |st.files| == |names| && st.started == |recs|
    ensures st.haveFt <==> recs == [] || recs[|recs| - 1].out.Some?
  {
    if recs == [] then Progress(Named(names), 0, true, {})
    else Recorded(Meaning(names, recs[..|recs| - 1], parseCoverage), recs[|recs| - 1], parseCoverage)
  }

  function Resume(r: LineResult, rest: string, parseCoverage: bool): LineResult
    requires r.Continue? ==> r.progress.started <= |r.progress.files|
  {
    if r.Continue? then ApplyLines(rest, r.progress, parseCoverage) else r
  }

  predicate IsMarker(marker: string) {
    marker != [] && forall i | 0 <= i < |marker| :: !IsSpace(marker[i])
  }

  lemma MarkerLine(marker: string, i: nat, ns: seq<nat>, st: Progress, parseCoverage: bool)
    requires IsMarker(marker) && i < U32 && st.started <= |st.files|
    ensures ApplyLine(marker + (" " + Decimal(i) + Spaced(ns)), st, parseCoverage)
         == ApplyMarker(marker, i, Spaced(ns), st, parseCoverage)
  {
    var rest := " " + Decimal(i) + Spaced(ns);
    var l := marker + rest;
    assert l[0] == marker[0];
    assert SkipSpace(l) == l;
    WordThen(marker, rest);
    assert l[..|marker|] == marker && l[|marker|..] == rest;
    SpacedStart(ns);
    ExtractPrinted(i, Spaced(ns), U32);
  }

  lemma MarkerIsOneLine(marker: string, i: nat, ns: seq<nat>)
    requires IsMarker(marker)
    ensures OneLine(marker + (" " + Decimal(i) + Spaced(ns)))
  {
    SpacedIsOneLine(ns);
    var d := Decimal(i);
    assert forall k | 0 <= k < |d| :: IsDigit(d[k]);
    assert forall k | 0 <= k < |marker| :: !IsSpace(marker[k]);
  }

  /** One marker line in front of further text. */
  lemma MarkerThenRest(marker: string, i: nat, ns: seq<nat>, rest: string, st: Progress, parseCoverage: bool)
    requires IsMarker(marker) && i < U32 && st.started <= |st.files|
    ensures ApplyLines(MarkerText(marker, i, ns) + rest, st, parseCoverage)
         == Resume(ApplyMarker(marker, i, Spaced(ns), st, parseCoverage), rest, parseCoverage)
  {
    MarkerIsOneLine(marker, i, ns);
    LineOf(marker + (" " + Decimal(i) + Spaced(ns)), rest);
    MarkerLine(marker, i, ns, st, parseCoverage);
  }

  lemma StartedThenRest(i: nat, size: nat, rest: string, st: Progress, parseCoverage: bool)
    requires i < U32 && size < U64 && st.started == i < |st.files|
    ensures ApplyLines(MarkerText("STARTED", i, [size]) + rest, st, parseCoverage)
         == ApplyLines(rest, Recorded(st, Record(size, None), parseCoverage), parseCoverage)
  {
    MarkerThenRest("STARTED", i, [size], rest, st, parseCoverage);
    assert Spaced([size]) == " " + Decimal(size) + "";
    ExtractPrinted(size, "", U64);
  }

  lemma FtThenRest(i: nat, ns: seq<nat>, rest: string, st: Progress, parseCoverage: bool)
    requires i < U32 && Below(ns, U32) && st.started == i + 1 <= |st.files|
    ensures ApplyLines(MarkerText("FT", i, ns) + rest, st, parseCoverage)
         == ApplyLines(rest, WithFeatures(st, i, ns, parseCoverage), parseCoverage)
  {
    MarkerThenRest("FT", i, ns, rest, st, parseCoverage);
    ExtractSpaced(ns, U32);
  }

  lemma CovThenRest(i: nat, ns: seq<nat>, rest: string, st: Progress, parseCoverage: bool)
    requires i < U32 && Below(ns, U32) && st.started == i + 1 <= |st.files|
    ensures ApplyLines(MarkerText("COV", i, ns) + rest, st, parseCoverage)
         == ApplyLines(rest, WithPcs(st, i, ns, parseCoverage), parseCoverage)
  {
    MarkerThenRest("COV", i, ns, rest, st, parseCoverage);
    ExtractSpaced(ns, U32);
  }

  lemma RecordThenRest(r: Record, rest: string, st: Progress, parseCoverage: bool)
    requires st.started < |st.files| <= U32 && Writable(r)
    ensures ApplyLines(RecordText(st.started, r) + rest, st, parseCoverage)
         == ApplyLines(rest, Recorded(st, r, parseCoverage), parseCoverage)
  {
    var i := st.started;
    var started := MarkerText("STARTED", i, [r.size]);
    match r.out
    case None =>
      assert RecordText(i, r) == started + "" == started;
      StartedThenRest(i, r.size, rest, st, parseCoverage);
    case Some(c) =>
      var ft, cov := MarkerText("FT", i, c.features), MarkerText("COV", i, c.pcs);
      assert RecordText(i, r) + rest == started + (ft + (cov + rest)) by {
        Assoc(started, ft + cov, rest);
        Assoc(ft, cov, rest);
      }
      StartedThenRest(i, r.size, ft + (cov + rest), st, parseCoverage);
      var st1 := Recorded(st, Record(r.size, None), parseCoverage);
      FtThenRest(i, c.features, cov + rest, st1, parseCoverage);
      CovThenRest(i, c.pcs, rest, WithFeatures(st1, i, c.features, parseCoverage), parseCoverage);
  }

  lemma {:induction false} LogThenRest(names: seq<string>, recs: seq<Record>, rest: string, parseCoverage: bool)
    requires |recs| <= |names| <= U32 && WritableLog(recs)
    ensures ApplyLines(LogText(recs) + rest, Meaning(names, [], parseCoverage), parseCoverage)
         == ApplyLines(rest, Meaning(names, recs, parseCoverage), parseCoverage)
    decreases |recs|
  {
    if recs == [] {
      assert LogText(recs) + rest == rest;
    } else {
      var k := |recs| - 1;
      assert LogText(recs) + rest == LogText(recs[..k]) + (RecordText(k, recs[k]) + rest);
      LogThenRest(names, recs[..k], RecordText(k, recs[k]) + rest, parseCoverage);
      RecordThenRest(recs[k], rest, Meaning(names, recs[..k], parseCoverage), parseCoverage);
    }
  }

  lemma {:induction false} NamesThenRest(names: seq<string>, i: nat, files: seq<FileInfo>, rest: string)
    requires i <= |names| == |files|
    requires forall k | 0 <= k < |names| :: OneLine(names[k])
    requires forall k | 0 <= k < i :: files[k] == BLANK.(name := names[k])
    requires forall k | i <= k < |files| :: files[k] == BLANK
    ensures ReadNames(NamesText(names[i..]) + rest, files, i) == Some((Named(names), rest))
    decreases |names| - i
  {
    if i == |names| {
      assert files == Named(names);
      assert NamesText(names[i..]) + rest == rest;
    } else {
      var s := NamesText(names[i..]) + rest;
      var tail := NamesText(names[i + 1..]) + rest;
      assert names[i..][0] == names[i] && names[i..][1..] == names[i + 1..];
      assert s == names[i] + "\n" + tail;
      LineOf(names[i], tail);
      NamesThenRest(names, i + 1, files[i := files[i].(name := names[i])], rest);
    }
  }

  lemma CountLine(n: nat, rest: string, before: nat)
    requires n < U64
    ensures var s := Decimal(n) + "\n" + rest;
            s != [] && ReadCount(Line(s), before) == n && AfterLine(s) == rest
  {
    var d := Decimal(n);
    assert forall k | 0 <= k < |d| :: IsDigit(d[k]);
    LineOf(d, rest);
    assert d + "" == d;
    ExtractPrinted(n, "", U64);
  }

  lemma HeaderThenRest(names: seq<string>, inFirst: nat, rest: string, parseCoverage: bool)
    requires |names| < U64 && inFirst <= |names|
    requires forall k | 0 <= k < |names| :: OneLine(names[k])
    ensures ParseText([], HeaderText(names, inFirst) + rest, parseCoverage)
         == if 0 < |names| <= MAX_FILES then
              Finish(ApplyLines(rest, Progress(Named(names), 0, true, {}), parseCoverage), inFirst)
            else Bad
  {
    var count, counts := Decimal(|names|) + "\n", Decimal(inFirst) + "\n";
    var afterCounts := NamesText(names) + rest;
    assert HeaderText(names, inFirst) + rest == count + (counts + afterCounts) by {
      Assoc(count, counts + NamesText(names), rest);
      Assoc(counts, NamesText(names), rest);
    }
    CountLine(|names|, counts + afterCounts, 0);
    if 0 < |names| <= MAX_FILES {
      CountLine(inFirst, afterCounts, |names| + 1);
      assert names[0..] == names;
      NamesThenRest(names, 0, Resize([], |names|), rest);
    }
  }

  /** A control file parses, into exactly what was written, if and only if it lists between one and
      ten million files; the restart point is the number of STARTED lines, and the last failure is
      the last file started without an FT line. */
  lemma ParseWritten(names: seq<string>, inFirst: nat, recs: seq<Record>, parseCoverage: bool)
    requires |names| < U64 && inFirst <= |names| && |recs| <= |names| && WritableLog(recs)
    requires forall k | 0 <= k < |names| :: OneLine(names[k])
    ensures ParseText([], FileText(names, inFirst, recs), parseCoverage)
         == if 0 < |names| <= MAX_FILES then
              Parsed(Meaning(names, recs, parseCoverage).files, inFirst, |recs|,
                     if recs != [] && recs[|recs| - 1].out.None? then names[|recs| - 1] else "")
            else Bad
  {
    hide ParseText, ReadNames, Resize, Recorded, ApplyLine;
    HeaderThenRest(names, inFirst, LogText(recs), parseCoverage);
    if 0 < |names| <= MAX_FILES {
      assert LogText(recs) + "" == LogText(recs);
      LogThenRest(names, recs, "", parseCoverage);
      NamesKept(names, recs, parseCoverage);
    }
  }

  lemma {:induction false} NamesKept(names: seq<string>, recs: seq<Record>, parseCoverage: bool)
    requires |recs| <= |names|
    ensures forall k | 0 <= k < |names| :: Meaning(names, recs, parseCoverage).files[k].name == names[k]
    decreases |recs|
  {
    if recs != [] {
      NamesKept(names, recs[..|recs| - 1], parseCoverage);
    }
  }
}
