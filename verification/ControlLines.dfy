/** Which texts the parser of control files accepts, told line by line. */
module ControlLines {
  import opened Widths
  import opened Text
  import opened Collections
  import opened ControlFile

  /** The lines that `getline` delivers. */
  function Lines(s: string): seq<string>
    decreases |s|
  {
    if s == [] then [] else [Line(s)] + Lines(AfterLine(s))
  }

  /** The first word of a line. */
  function WordOf(l: string): string {
    var w := SkipSpace(l);
    w[..WordLength(w)]
  }

  /** The number behind the first word of a line. */
  function IdOf(l: string): Option<nat> {
    var w := SkipSpace(l);
    match ExtractNumber(w[WordLength(w)..], U32)
    case Number(id, _) => Some(id)
    case _ => None
  }

  /** How many of the first k lines are STARTED lines. */
  function Started(ls: seq<string>, k: nat): nat
    requires k <= |ls|
  {
    if k == 0 then 0 else Started(ls, k - 1) + if WordOf(ls[k - 1]) == "STARTED" then 1 else 0
  }

  /** No file has been started, or the last one has its FT line. */
  function HasFt(ls: seq<string>, k: nat): bool
    requires k <= |ls|
  {
    k == 0 || (WordOf(ls[k - 1]) != "STARTED" && (WordOf(ls[k - 1]) == "FT" || HasFt(ls, k - 1)))
  }

  /** Line k starts the next file, or tells of the one started last. */
  ghost predicate InOrder(ls: seq<string>, k: nat)
    requires k < |ls|
  {
    var word, id := WordOf(ls[k]), IdOf(ls[k]);
    || (word == "STARTED" && id == Some(Started(ls, k)))
    || ((word == "FT" || word == "COV") && id.Some? && id.value + 1 == Started(ls, k))
  }

  /** If line k starts a file, there is one left. */
  ghost predicate HasRoom(ls: seq<string>, k: nat, n: nat)
    requires k < |ls|
  {
    WordOf(ls[k]) == "STARTED" ==> Started(ls, k) < n
  }

  ghost predicate AllFit(ls: seq<string>, from: nat, to: nat, n: nat)
    requires to <= |ls|
  {
    forall k | from <= k < to :: InOrder(ls, k) && HasRoom(ls, k, n)
  }

  /** Some line starts a file too many, and no line before it is out of order. */
  ghost predicate Overruns(ls: seq<string>, from: nat, n: nat) {
    exists k :: from <= k < |ls| && AllFit(ls, from, k, n) && InOrder(ls, k) && !HasRoom(ls, k, n)
  }

  /** What the parser knows after k lines. */
  ghost predicate Knows(st: Progress, ls: seq<string>, k: nat, names: seq<string>)
    requires k <= |ls|
  {
    && |st.files| == |names| && (forall i | 0 <= i < |names| :: st.files[i].name == names[i])
    && st.started == Started(ls, k) <= |names| && st.haveFt == HasFt(ls, k)
  }

  /** One line. */
  lemma LineTells(ls: seq<string>, k: nat, st: Progress, parseCoverage: bool, names: seq<string>)
    requires k < |ls| && Knows(st, ls, k, names)
    ensures var r, n := ApplyLine(ls[k], st, parseCoverage), |names|;
            && (r.Continue? <==> InOrder(ls, k) && HasRoom(ls, k, n))
            && (r.OutOfBounds? <==> InOrder(ls, k) && !HasRoom(ls, k, n))
            && (r.Continue? ==> Knows(r.progress, ls, k + 1, names))
  {
    hide ExtractNumbers, Sort, Unseen, ReadSize;
  }

  /** The lines from the k-th on. */
  lemma {:induction false} LinesTell(ls: seq<string>, k: nat, s: string, st: Progress, parseCoverage: bool, names: seq<string>)
    requires k <= |ls| && Lines(s) == ls[k..] && Knows(st, ls, k, names)
    ensures var r, n := ApplyLines(s, st, parseCoverage), |names|;
            && (r.Continue? <==> AllFit(ls, k, |ls|, n))
            && (r.OutOfBounds? <==> Overruns(ls, k, n))
            && (r.Continue? ==> Knows(r.progress, ls, |ls|, names))
    decreases |s|
  {
    hide ApplyLine, InOrder, HasRoom, Knows;
    if s == [] {
      assert st.started <= |st.files| by { KnowsStarted(st, ls, k, names); }
    } else {
      KnowsStarted(st, ls, k, names);
      assert ls[k..][0] == Line(s) && ls[k + 1..] == ls[k..][1..];
      LineTells(ls, k, st, parseCoverage, names);
      var r := ApplyLine(ls[k], st, parseCoverage);
      if r.Continue? {
        LinesTell(ls, k + 1, AfterLine(s), r.progress, parseCoverage, names);
        FirstFits(ls, k, |names|);
      } else {
        FirstFails(ls, k, |names|);
      }
    }
  }

  lemma KnowsStarted(st: Progress, ls: seq<string>, k: nat, names: seq<string>)
    requires k <= |ls| && Knows(st, ls, k, names)
    ensures st.started <= |st.files| == |names|
  {
  }

  lemma FirstFits(ls: seq<string>, k: nat, n: nat)
    requires k < |ls| && InOrder(ls, k) && HasRoom(ls, k, n)
    ensures AllFit(ls, k, |ls|, n) <==> AllFit(ls, k + 1, |ls|, n)
    ensures Overruns(ls, k, n) <==> Overruns(ls, k + 1, n)
  {
    hide InOrder, HasRoom;
    if Overruns(ls, k, n) {
      var j :| k <= j < |ls| && AllFit(ls, k, j, n) && InOrder(ls, j) && !HasRoom(ls, j, n);
      assert j != k && AllFit(ls, k + 1, j, n);
    }
    if Overruns(ls, k + 1, n) {
      var j :| k + 1 <= j < |ls| && AllFit(ls, k + 1, j, n) && InOrder(ls, j) && !HasRoom(ls, j, n);
      assert AllFit(ls, k, j, n);
    }
  }

  lemma FirstFails(ls: seq<string>, k: nat, n: nat)
    requires k < |ls| && !(InOrder(ls, k) && HasRoom(ls, k, n))
    ensures !AllFit(ls, k, |ls|, n)
    ensures Overruns(ls, k, n) <==> InOrder(ls, k) && !HasRoom(ls, k, n)
  {
    hide InOrder, HasRoom;
    assert AllFit(ls, k, k, n);
    forall j | k < j < |ls| ensures !AllFit(ls, k, j, n) {
    }
  }

  /** Reading the names. */
  lemma {:induction false} NamesTell(s: string, files: seq<FileInfo>, i: nat)
    requires i <= |files|
    ensures var r, ls := ReadNames(s, files, i), Lines(s);
            && (r.Some? <==> |ls| >= |files| - i)
            && (r.Some? ==>
                  && Lines(r.value.1) == ls[|files| - i..]
                  && forall k | 0 <= k < |files| ::
                       r.value.0[k].name == if k < i then files[k].name else ls[k - i])
    decreases |files| - i
  {
    hide Line, AfterLine;
    if i < |files| && s != [] {
      var rest, named := AfterLine(s), files[i := files[i].(name := Line(s))];
      NamesTell(rest, named, i + 1);
      var ls := Lines(s);
      assert ls == [Line(s)] + Lines(rest);
      assert ReadNames(s, files, i) == ReadNames(rest, named, i + 1);
      if |ls| >= |files| - i {
        assert ls[|files| - i..] == Lines(rest)[|files| - i - 1..];
        forall k | 0 <= k < |files|
          ensures (if k <= i then named[k].name else Lines(rest)[k - i - 1]) == if k < i then files[k].name else ls[k - i]
        {
        }
      }
    }
  }

  // ----- the whole text

  /** The number of files that the first line tells. */
  function NumFiles(ls: seq<string>): nat {
    if ls == [] then 0 else ReadCount(ls[0], 0)
  }

  /** The number of files of the first corpus that the second line tells. */
  function NumInFirst(ls: seq<string>): nat
    requires |ls| >= 2
  {
    ReadCount(ls[1], NumFiles(ls) + 1)
  }

  /** Both counts are in range, and there is a line for each name. */
  ghost predicate HeaderOk(ls: seq<string>) {
    && 1 <= NumFiles(ls) <= MAX_FILES && |ls| >= 2 + NumFiles(ls)
    && NumInFirst(ls) <= NumFiles(ls)
  }

  function Markers(ls: seq<string>): seq<string>
    requires |ls| >= 2 + NumFiles(ls)
  {
    ls[2 + NumFiles(ls)..]
  }

  /** A text is accepted iff its header is good and each marker line is in its place; it then tells the names and counts
      of the header, how many files were started, and which one failed last. */
  lemma AcceptedIff(files: seq<FileInfo>, s: string, parseCoverage: bool)
    ensures var r, ls := ParseText(files, s, parseCoverage), Lines(s);
            if !HeaderOk(ls) then r == Bad else
              var n, marks := NumFiles(ls), Markers(ls);
              && (r.Parsed? <==> AllFit(marks, 0, |marks|, n))
              && (r == Overrun <==> Overruns(marks, 0, n))
              && (r.Parsed? ==>
                    && |r.files| == n && r.inFirst == NumInFirst(ls) && (forall i | 0 <= i < n :: r.files[i].name == ls[2 + i])
                    && r.notProcessed == Started(marks, |marks|) <= n
                    && r.lastFailure == if HasFt(marks, |marks|) then "" else ls[1 + r.notProcessed])
  {
    hide ReadCount, ReadNames, ApplyLines, AllFit, Overruns, Resize, Started, HasFt, Lines, Line, AfterLine, Finish;
    var ls := Lines(s);
    FirstLines(s);
    if s != [] && AfterLine(s) != [] {
      var n, s2 := NumFiles(ls), AfterLine(AfterLine(s));
      NamesTell(s2, Resize(files, n), 0);
      var named := ReadNames(s2, Resize(files, n), 0);
      if HeaderOk(ls) {
        var fs, rest := named.value.0, named.value.1;
        MarkersTell(ls, n, fs, rest, parseCoverage);
        FinishTells(ls, ApplyLines(rest, Progress(fs, 0, true, {}), parseCoverage));
      }
    }
  }

  lemma FirstLines(s: string)
    ensures |Lines(s)| >= 2 <==> s != [] && AfterLine(s) != []
    ensures s != [] ==> Lines(s) != [] && Lines(s)[0] == Line(s)
    ensures |Lines(s)| >= 2 ==> Lines(s)[1] == Line(AfterLine(s)) && Lines(AfterLine(AfterLine(s))) == Lines(s)[2..]
  {
    hide Line, AfterLine;
    if s != [] {
      assert Lines(s) == [Line(s)] + Lines(AfterLine(s));
    }
  }

  lemma FinishTells(ls: seq<string>, r: LineResult)
    requires HeaderOk(ls) && (r.Continue? ==> Knows(r.progress, Markers(ls), |Markers(ls)|, ls[2..2 + NumFiles(ls)]))
    ensures r.Continue? ==> r.progress.started <= |r.progress.files|
    ensures var p, marks := Finish(r, NumInFirst(ls)), Markers(ls);
            && (p.Parsed? <==> r.Continue?) && (p == Overrun <==> r.OutOfBounds?)
            && (p.Parsed? ==>
                  && |p.files| == NumFiles(ls) && p.inFirst == NumInFirst(ls)
                  && (forall i | 0 <= i < NumFiles(ls) :: p.files[i].name == ls[2 + i])
                  && p.notProcessed == Started(marks, |marks|) <= NumFiles(ls)
                  && p.lastFailure == if HasFt(marks, |marks|) then "" else ls[1 + p.notProcessed])
  {
    hide Started, HasFt, ReadCount;
    FailedHasStarted(Markers(ls), |Markers(ls)|);
  }

  lemma MarkersTell(ls: seq<string>, n: nat, files: seq<FileInfo>, rest: string, parseCoverage: bool)
    requires n == NumFiles(ls) == |files| && |ls| >= 2 + n && Lines(rest) == ls[2 + n..]
    requires forall i | 0 <= i < n :: files[i].name == ls[2 + i]
    ensures var r, marks := ApplyLines(rest, Progress(files, 0, true, {}), parseCoverage), Markers(ls);
            && (r.Continue? <==> AllFit(marks, 0, |marks|, n))
            && (r.OutOfBounds? <==> Overruns(marks, 0, n))
            && (r.Continue? ==> Knows(r.progress, marks, |marks|, ls[2..2 + n]))
  {
    hide ApplyLines, AllFit, Overruns;
    var marks := Markers(ls);
    assert marks[0..] == marks;
    LinesTell(marks, 0, rest, Progress(files, 0, true, {}), parseCoverage, ls[2..2 + n]);
  }

  lemma {:induction false} FailedHasStarted(ls: seq<string>, k: nat)
    requires k <= |ls|
    ensures !HasFt(ls, k) ==> Started(ls, k) > 0
  {
    if k > 0 { FailedHasStarted(ls, k - 1); }
  }
}
