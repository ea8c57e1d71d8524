/** What the mutators write, as functions of the bytes before. */
module MutationModel {
  import opened Widths
  import opened Bits
  import opened Text
  import opened CounterScan

  // ----- interleavings

  /** `out` is made of all of a and all of b, each in its own order. */
  ghost predicate Interleaves(out: seq<byte>, a: seq<byte>, b: seq<byte>) {
    if out == [] then a == [] && b == [] else
      var last, rest := out[|out| - 1], out[..|out| - 1];
      || (a != [] && a[|a| - 1] == last && Interleaves(rest, a[..|a| - 1], b))
      || (b != [] && b[|b| - 1] == last && Interleaves(rest, a, b[..|b| - 1]))
  }

  lemma NothingYet()
    ensures Interleaves([], [], [])
  {
  }

  lemma {:induction false} ExtendFirst(out: seq<byte>, a: seq<byte>, b: seq<byte>, part: seq<byte>)
    requires Interleaves(out, a, b)
    ensures Interleaves(out + part, a + part, b)
  {
    if part == [] {
      assert out + part == out && a + part == a;
    } else {
      var init := part[..|part| - 1];
      ExtendFirst(out, a, b, init);
      assert (out + part)[..|out + part| - 1] == out + init && (a + part)[..|a + part| - 1] == a + init;
    }
  }

  lemma {:induction false} InterleavesSwap(out: seq<byte>, a: seq<byte>, b: seq<byte>)
    requires Interleaves(out, a, b)
    ensures Interleaves(out, b, a)
  {
    if out != [] {
      var last, rest := out[|out| - 1], out[..|out| - 1];
      if a != [] && a[|a| - 1] == last && Interleaves(rest, a[..|a| - 1], b) {
        InterleavesSwap(rest, a[..|a| - 1], b);
      } else {
        InterleavesSwap(rest, a, b[..|b| - 1]);
      }
    }
  }

  lemma ExtendSecond(out: seq<byte>, a: seq<byte>, b: seq<byte>, part: seq<byte>)
    requires Interleaves(out, a, b)
    ensures Interleaves(out + part, a, b + part)
  {
    InterleavesSwap(out, a, b);
    ExtendFirst(out, b, a, part);
    InterleavesSwap(out + part, b + part, a);
  }

  lemma LastApart(s: seq<byte>)
    requires s != []
    ensures multiset(s) == multiset(s[..|s| - 1]) + multiset{s[|s| - 1]}
  {
    assert s == s[..|s| - 1] + [s[|s| - 1]];
  }

  /** An interleaving loses nothing and invents nothing. */
  lemma {:induction false} InterleavesContents(out: seq<byte>, a: seq<byte>, b: seq<byte>)
    requires Interleaves(out, a, b)
    ensures |out| == |a| + |b| && multiset(out) == multiset(a) + multiset(b)
  {
    if out != [] {
      var last, rest := out[|out| - 1], out[..|out| - 1];
      LastApart(out);
      if a != [] && a[|a| - 1] == last && Interleaves(rest, a[..|a| - 1], b) {
        InterleavesContents(rest, a[..|a| - 1], b);
        LastApart(a);
      } else {
        InterleavesContents(rest, a, b[..|b| - 1]);
        LastApart(b);
      }
    }
  }

  // ----- masks

  /** The first n bytes that the mask marks. */
  function Marked(data: seq<byte>, mask: seq<byte>, n: nat): (t: seq<byte>)
    requires n <= |data| && n <= |mask|
    ensures |t| <= n
  {
    if n == 0 then [] else Marked(data, mask, n - 1) + if mask[n - 1] != 0 then [data[n - 1]] else []
  }

  function MarkedCount(mask: seq<byte>, n: nat): (k: nat)
    requires n <= |mask|
    ensures k <= n
  {
    if n == 0 then 0 else MarkedCount(mask, n - 1) + if mask[n - 1] != 0 then 1 else 0
  }

  lemma {:induction false} MarkedCountGrows(mask: seq<byte>, i: nat, n: nat)
    requires i <= n <= |mask|
    ensures MarkedCount(mask, i) <= MarkedCount(mask, n)
  {
    if i < n {
      MarkedCountGrows(mask, i, n - 1);
    }
  }

  /** Marked bytes come from `t`, in order; the others stay. */
  ghost predicate Remasked(before: seq<byte>, after: seq<byte>, mask: seq<byte>, n: nat, t: seq<byte>)
    requires n <= |before| == |after| && n <= |mask|
  {
    && Marked(after, mask, n) == t
    && forall i | 0 <= i < |before| && (i >= n || mask[i] == 0) :: after[i] == before[i]
  }

  lemma {:induction false} MarkedSame(a: seq<byte>, b: seq<byte>, mask: seq<byte>, n: nat)
    requires n <= |a| && n <= |b| && n <= |mask| && a[..n] == b[..n]
    ensures Marked(a, mask, n) == Marked(b, mask, n)
  {
    if n > 0 {
      assert a[..n - 1] == a[..n][..n - 1] && b[..n - 1] == b[..n][..n - 1];
      MarkedSame(a, b, mask, n - 1);
      assert a[n - 1] == a[..n][n - 1] && b[n - 1] == b[..n][n - 1];
    }
  }

  // ----- text

  function ToASCIIByte(x: byte): byte {
    var y := x % 128;
    if 9 <= y <= 13 || 32 <= y <= 126 then y else 32
  }

  predicate IsText(x: byte) { 9 <= x <= 13 || 32 <= x <= 126 }

  // ----- decimal digits in place

  function AsString(d: seq<byte>): (s: string)
    ensures |s| == |d| && forall i | 0 <= i < |d| :: s[i] == d[i] as int as char
  {
    seq(|d|, i requires 0 <= i < |d| => d[i] as int as char)
  }

  predicate AreDigits(d: seq<byte>) {
    forall i | 0 <= i < |d| :: 48 <= d[i] <= 57
  }

  function NumberIn(d: seq<byte>): nat
    requires AreDigits(d)
  {
    assert AllDigits(AsString(d));
    ValueOf(AsString(d))
  }

  function Pow10(n: nat): (p: nat)
    ensures p > 0
  {
    if n == 0 then 1 else 10 * Pow10(n - 1)
  }

  lemma NumberSnoc(d: seq<byte>, x: byte)
    requires AreDigits(d) && 48 <= x <= 57
    ensures NumberIn(d + [x]) == 10 * NumberIn(d) + (x as int - 48)
  {
    assert AsString(d + [x])[..|d|] == AsString(d);
  }

  lemma {:induction false} NumberCons(x: byte, d: seq<byte>)
    requires AreDigits(d) && 48 <= x <= 57
    ensures NumberIn([x] + d) == (x as int - 48) * Pow10(|d|) + NumberIn(d) && NumberIn(d) < Pow10(|d|)
  {
    if d == [] {
      OneDigit(x);
    } else {
      var init, last := d[..|d| - 1], d[|d| - 1];
      NumberCons(x, init);
      assert Pow10(|d|) == 10 * Pow10(|init|);
      hide NumberIn, Pow10;
      assert d == init + [last] && [x] + d == ([x] + init) + [last];
      NumberSnoc(init, last);
      NumberSnoc([x] + init, last);
      Regroup(x as int - 48, Pow10(|init|));
    }
  }

  lemma OneDigit(x: byte)
    requires 48 <= x <= 57
    ensures NumberIn([x] + []) == x as int - 48 && NumberIn([]) == 0
  {
    assert [x] + [] == [] + [x];
    NumberSnoc([], x);
  }

  lemma Regroup(v: int, p: int)
    ensures v * (10 * p) == 10 * (v * p)
  {
  }

  predicate IsDigitByte(x: byte) { 48 <= x <= 57 }

  /** What the integer mutation makes of a 64-bit value. */
  predicate MutationOf(now: nat, was: nat) {
    || now == (was + 1) % U64
    || now == (was - 1) % U64
    || now == was / 2
    || now == was * 2 % U64
    || now < was * was % U64 || now == 0 == was * was % U64
  }

  lemma WrapsAlike(n: nat, d: nat)
    ensures (n % U64 * 10 + d) % U64 == (10 * n + d) % U64
  {
    assert 10 * n + d == (n % U64 * 10 + d) + U64 * (10 * (n / U64));
    AddMultiple(n % U64 * 10 + d, 10 * (n / U64));
  }

  lemma {:induction false} AddMultiple(x: nat, k: nat)
    ensures (x + U64 * k) % U64 == x % U64
  {
    if k > 0 {
      AddMultiple(x, k - 1);
    }
  }

  /** One more digit read into a 64-bit value. */
  lemma NextDigit(d: seq<byte>, x: byte)
    requires AreDigits(d) && IsDigitByte(x)
    ensures (NumberIn(d) % U64 * 10 + (x as int - 48)) % U64 == NumberIn(d + [x]) % U64
  {
    NumberSnoc(d, x);
    WrapsAlike(NumberIn(d), x as int - 48);
  }

  /** `d` holds the low digits of a value, `high` what is left of it. */
  ghost predicate Written(value: nat, high: nat, d: seq<byte>) {
    AreDigits(d) && value == high * Pow10(|d|) + NumberIn(d) && NumberIn(d) < Pow10(|d|)
  }

  /** `d` holds the low digits of a value, as many as it has room for. */
  ghost predicate LowDigitsOf(value: nat, d: seq<byte>) {
    AreDigits(d) && NumberIn(d) == value % Pow10(|d|)
  }

  lemma NothingWritten(value: nat)
    ensures Written(value, value, [])
  {
  }

  lemma AllWritten(value: nat, high: nat, d: seq<byte>)
    requires Written(value, high, d)
    ensures LowDigitsOf(value, d)
  {
    ModUnique(value, Pow10(|d|), high, NumberIn(d));
  }

  /** Taking off the last digit of the high part and writing it in front of the low part. */
  lemma DigitMoves(value: nat, high: nat, d: seq<byte>)
    requires Written(value, high, d)
    ensures Written(value, high / 10, [(high % 10 + 48) as byte] + d)
  {
    var x := (high % 10 + 48) as byte;
    var p, n := Pow10(|d|), NumberIn(d);
    NumberCons(x, d);
    NumberCons(48, [x] + d);
    assert Pow10(|d| + 1) == 10 * p;
    hide NumberIn, Pow10;
    CarryDigit(value, high, p, n);
    WrittenBy(value, high / 10, [x] + d, 10 * p, (high % 10) * p + n);
  }

  lemma WrittenBy(value: nat, high: nat, d: seq<byte>, p: nat, n: nat)
    requires AreDigits(d) && p == Pow10(|d|) && n == NumberIn(d) < p && value == high * p + n
    ensures Written(value, high, d)
  {
  }

  lemma CarryDigit(value: nat, high: nat, p: nat, n: nat)
    requires value == high * p + n
    ensures value == (high / 10) * (10 * p) + ((high % 10) * p + n)
  {
    ShiftDigit(high, p);
  }

  lemma ShiftDigit(high: nat, p: nat)
    ensures high * p == (high / 10) * (10 * p) + (high % 10) * p
  {
    var q, r := high / 10, high % 10;
    assert high == 10 * q + r;
    Distribute(10 * q, r, p);
  }

  lemma Distribute(a: nat, b: nat, p: nat)
    ensures (a + b) * p == a * p + b * p
  {
  }
}
