/** Text streams as the control file and the coverage file see them: `std::getline`, and the
    `>>` extractions of a word and of an unsigned number, over strings of characters.
 */
module Text {
  predicate IsDigit(c: char) {
    '0' <= c <= '9'
  }

  predicate IsSpace(c: char) {
    c == ' ' || '\t' <= c <= '\r'
  }

  predicate AllDigits(s: string) {
    forall i | 0 <= i < |s| :: IsDigit(s[i])
  }

  function DigitChar(d: nat): (c: char)
    requires d < 10
    ensures IsDigit(c)
  {
    '0' + d as char
  }

  function DigitValue(c: char): (d: nat)
    requires IsDigit(c)
    ensures d < 10
  {
    c as int - '0' as int
  }

  /** The number a run of decimal digits denotes. */
  function ValueOf(s: string): nat
    requires AllDigits(s)
  {
    if s == [] then 0 else 10 * ValueOf(s[..|s| - 1]) + DigitValue(s[|s| - 1])
  }

  /** How `<<` and `%zd` print a number. */
  function Decimal(n: nat): (s: string)
    ensures |s| > 0 && AllDigits(s)
  {
    if n < 10 then [DigitChar(n)] else Decimal(n / 10) + [DigitChar(n % 10)]
  }

  lemma {:induction false} DecimalRoundTrip(n: nat)
    ensures ValueOf(Decimal(n)) == n
  {
    if n >= 10 {
      DecimalRoundTrip(n / 10);
      assert Decimal(n)[..|Decimal(n)| - 1] == Decimal(n / 10);
    } else {
      assert Decimal(n)[..0] == [];
    }
  }

  // ----- lines

  function LineLength(s: string): (n: nat)
    ensures n <= |s|
    ensures forall i | 0 <= i < n :: s[i] != '\n'
    ensures n < |s| ==> s[n] == '\n'
  {
    if s == [] || s[0] == '\n' then 0 else 1 + LineLength(s[1..])
  }

  /** The line `getline` stores; the stream must not be at its end. */
  function Line(s: string): string {
    s[..LineLength(s)]
  }

  /** The stream after `getline`: the newline, if any, is consumed. */
  function AfterLine(s: string): (r: string)
    ensures s != [] ==> |r| < |s|
  {
    if LineLength(s) < |s| then s[LineLength(s) + 1..] else []
  }

  predicate OneLine(s: string) {
    forall i | 0 <= i < |s| :: s[i] != '\n'
  }

  lemma {:induction false} LineOf(l: string, rest: string)
    requires OneLine(l)
    ensures Line(l + "\n" + rest) == l && AfterLine(l + "\n" + rest) == rest
  {
    var s := l + "\n" + rest;
    var n := LineLength(s);
    assert s[|l|] == '\n' && forall i | 0 <= i < |l| :: s[i] == l[i];
    assert n == |l|;
  }

  lemma Assoc(a: string, b: string, c: string)
    ensures a + b + c == a + (b + c)
  {
  }

  // ----- extraction

  function SkipSpace(s: string): (r: string)
    ensures |r| <= |s| && (r == [] || !IsSpace(r[0]))
  {
    if s == [] || !IsSpace(s[0]) then s else SkipSpace(s[1..])
  }

  function WordLength(s: string): (n: nat)
    ensures n <= |s|
  {
    if s == [] || IsSpace(s[0]) then 0 else 1 + WordLength(s[1..])
  }

  function DigitsLength(s: string): (n: nat)
    ensures n <= |s| && AllDigits(s[..n])
  {
    if s == [] || !IsDigit(s[0]) then 0 else
      var m := DigitsLength(s[1..]);
      assert forall i | 1 <= i < 1 + m :: s[i] == s[1..][..m][i - 1];
      1 + m
  }

  /** What `stream >> number` does to an unsigned variable. */
  datatype Extraction =
    | Untouched                        // end of stream: the variable keeps its value
    | Garbage(left: nat)               // not a number, or too large: `left` is stored, the stream fails
    | Number(value: nat, rest: string)

  /** `>>` into an unsigned variable holding values below `limit`, base ten, optional sign. */
  function ExtractNumber(s: string, limit: nat): (x: Extraction)
    requires limit > 0
    ensures x.Number? ==> |x.rest| < |s| && x.value < limit
  {
    var t := SkipSpace(s);
    if t == [] then Untouched else
      var signed := t[0] == '-' || t[0] == '+';
      var u := if signed then t[1..] else t;
      var n := DigitsLength(u);
      if n == 0 then Garbage(0)
      else if ValueOf(u[..n]) >= limit then Garbage(limit - 1)
      else if t[0] == '-' then Number((limit - ValueOf(u[..n])) % limit, u[n..])
      else Number(ValueOf(u[..n]), u[n..])
  }

  /** All numbers a `while (stream >> n)` loop reads. */
  function ExtractNumbers(s: string, limit: nat): seq<nat>
    requires limit > 0
    decreases |s|
  {
    match ExtractNumber(s, limit)
    case Number(v, rest) => [v] + ExtractNumbers(rest, limit)
    case _ => []
  }

  /** The loop itself. */
  method ReadNumbers(s: string, limit: nat) returns (numbers: seq<nat>)
    requires limit > 0
    ensures numbers == ExtractNumbers(s, limit)
  {
    hide ExtractNumber;
    numbers := [];
    var rest := s;
    while true
      invariant numbers + ExtractNumbers(rest, limit) == ExtractNumbers(s, limit)
      decreases |rest|
    {
      var x := ExtractNumber(rest, limit);
      if !x.Number? {
        break;
      }
      assert numbers + ExtractNumbers(rest, limit) == numbers + [x.value] + ExtractNumbers(x.rest, limit);
      numbers := numbers + [x.value];
      rest := x.rest;
    }
  }

  /** " n1 n2 n3": each number preceded by one blank. */
  function Spaced(ns: seq<nat>): string {
    if ns == [] then [] else " " + Decimal(ns[0]) + Spaced(ns[1..])
  }

  predicate Below(ns: seq<nat>, limit: nat) {
    forall i | 0 <= i < |ns| :: ns[i] < limit
  }

  /** A digit run ends where the next character is no digit. */
  lemma {:induction false} DigitsThen(d: string, rest: string)
    requires AllDigits(d)
    requires rest == [] || !IsDigit(rest[0])
    ensures DigitsLength(d + rest) == |d|
  {
    if d == [] {
      assert d + rest == rest;
    } else {
      assert (d + rest)[1..] == d[1..] + rest;
      DigitsThen(d[1..], rest);
    }
  }

  lemma {:induction false} ExtractPrinted(n: nat, rest: string, limit: nat)
    requires n < limit
    requires rest == [] || !IsDigit(rest[0])
    ensures ExtractNumber(Decimal(n) + rest, limit) == Number(n, rest)
    ensures ExtractNumber(" " + Decimal(n) + rest, limit) == Number(n, rest)
  {
    var d := Decimal(n);
    var s := d + rest;
    assert IsDigit(s[0]);
    assert SkipSpace(s) == s;
    assert (" " + d + rest)[1..] == s;
    assert SkipSpace(" " + d + rest) == s;
    DigitsThen(d, rest);
    assert s[..|d|] == d && s[|d|..] == rest;
    DecimalRoundTrip(n);
  }

  /** Reading back a printed list of numbers. */
  lemma {:induction false} ExtractSpaced(ns: seq<nat>, limit: nat)
    requires limit > 0 && Below(ns, limit)
    ensures ExtractNumbers(Spaced(ns), limit) == ns
  {
    if ns != [] {
      ExtractSpaced(ns[1..], limit);
      SpacedStart(ns[1..]);
      ExtractPrinted(ns[0], Spaced(ns[1..]), limit);
    }
  }

  lemma SpacedStart(ns: seq<nat>)
    ensures Spaced(ns) == [] || !IsDigit(Spaced(ns)[0])
  {
  }

  lemma {:induction false} SpacedIsOneLine(ns: seq<nat>)
    ensures OneLine(Spaced(ns))
  {
    if ns != [] {
      SpacedIsOneLine(ns[1..]);
      var d, r := " " + Decimal(ns[0]), Spaced(ns[1..]);
      forall i | 0 <= i < |d + r| ensures (d + r)[i] != '\n' {
        if i < |d| { assert i == 0 || IsDigit(d[i]); }
      }
    }
  }

  /** A word ends at the blank that follows it. */
  lemma {:induction false} WordThen(w: string, rest: string)
    requires forall i | 0 <= i < |w| :: !IsSpace(w[i])
    requires rest == [] || IsSpace(rest[0])
    ensures WordLength(w + rest) == |w|
  {
    if w == [] {
      assert w + rest == rest;
    } else {
      assert (w + rest)[1..] == w[1..] + rest;
      WordThen(w[1..], rest);
    }
  }
}
