/** The scan over 8-bit counters that reads a word at a time (`ForEachNonZeroByte`), and the counter buckets. */
module CounterScan {
  newtype byte = x: int | 0 <= x < 256

  const STEP: nat := 8

  /** One call of the callback: the index of a counter and its value. */
  datatype Hit = Hit(idx: nat, value: byte)

  /** The calls a scan byte by byte makes for the first n counters. */
  function Hits(counters: seq<byte>, n: nat): (h: seq<Hit>)
    requires n <= |counters|
    ensures forall i | 0 <= i < |h| :: h[i].idx < n && h[i].value == counters[h[i].idx] != 0
  {
    if n == 0 then [] else
      Hits(counters, n - 1) + if counters[n - 1] != 0 then [Hit(n - 1, counters[n - 1])] else []
  }

  /** Every non-zero counter is reported once, in ascending order. */
  lemma {:induction false} HitsAscend(counters: seq<byte>, n: nat)
    requires n <= |counters|
    ensures forall i, j | 0 <= i < j < |Hits(counters, n)| :: Hits(counters, n)[i].idx < Hits(counters, n)[j].idx
    ensures forall i | 0 <= i < n && counters[i] != 0 :: Hit(i, counters[i]) in Hits(counters, n)
  {
    if n > 0 {
      HitsAscend(counters, n - 1);
    }
  }

  /** The value of bytes read as one word on a little-endian host. */
  function Word(bytes: seq<byte>): (w: nat)
    ensures w == 0 <==> forall i | 0 <= i < |bytes| :: bytes[i] == 0
  {
    if bytes == [] then 0 else bytes[0] as nat + 256 * Word(bytes[1..])
  }

  lemma {:induction false} NoHits(counters: seq<byte>, p: nat, n: nat)
    requires p + n <= |counters| && forall i | p <= i < p + n :: counters[i] == 0
    ensures Hits(counters, p + n) == Hits(counters, p)
  {
    if n > 0 {
      NoHits(counters, p, n - 1);
    }
  }

  lemma LowByte(bytes: seq<byte>, i: nat, j: nat)
    requires i < j <= |bytes|
    ensures Word(bytes[i..j]) % 256 == bytes[i] as nat && Word(bytes[i..j]) / 256 == Word(bytes[i + 1..j])
  {
    assert bytes[i..j][1..] == bytes[i + 1..j];
    LowDigit(bytes[i] as nat, Word(bytes[i + 1..j]));
  }

  lemma LowDigit(d: nat, w: nat)
    requires d < 256
    ensures (d + 256 * w) % 256 == d && (d + 256 * w) / 256 == w
  {
  }

  lemma ZeroWord(memory: seq<byte>, begin: nat, end: nat, p: nat)
    requires begin <= p && p + STEP <= end <= |memory| && Word(memory[p..p + STEP]) == 0
    ensures Hits(memory[begin..end], p - begin + STEP) == Hits(memory[begin..end], p - begin)
  {
    forall i | p - begin <= i < p - begin + STEP ensures memory[begin..end][i] == 0 {
      assert memory[begin..end][i] == memory[p..p + STEP][i - (p - begin)];
    }
    NoHits(memory[begin..end], p - begin, STEP);
  }

  lemma NoHitsYet(counters: seq<byte>)
    ensures Hits(counters, 0) == []
  {
  }

  lemma NextHit(memory: seq<byte>, begin: nat, end: nat, p: nat)
    requires begin <= p < end <= |memory|
    ensures Hits(memory[begin..end], p - begin + 1)
         == Hits(memory[begin..end], p - begin) + if memory[p] != 0 then [Hit(p - begin, memory[p])] else []
  {
  }

  /** The counters of one word: none if it is zero, otherwise its bytes from the lowest up. */
  method ScanWord(memory: seq<byte>, begin: nat, end: nat, p: nat, before: seq<Hit>) returns (hits: seq<Hit>)
    requires begin <= p && p + STEP <= end <= |memory| && before == Hits(memory[begin..end], p - begin)
    ensures hits == Hits(memory[begin..end], p - begin + STEP)
  {
    hide Word, Hits;
    hits := before;
    var bundle := Word(memory[p..p + STEP]);
    if bundle != 0 {
      for i := 0 to STEP
        invariant hits == Hits(memory[begin..end], p - begin + i) && bundle == Word(memory[p + i..p + STEP])
      {
        LowByte(memory, p + i, p + STEP);
        NextHit(memory, begin, end, p + i);
        var v := bundle % 256;
        if v != 0 {
          hits := hits + [Hit(p - begin + i, v as byte)];
        }
        bundle := bundle / 256;
      }
    } else {
      ZeroWord(memory, begin, end, p);
    }
  }

  /** The counters of [p, stop), byte by byte. */
  method ScanBytes(memory: seq<byte>, begin: nat, end: nat, p: nat, stop: nat, before: seq<Hit>) returns (hits: seq<Hit>)
    requires begin <= p <= stop <= end <= |memory| && before == Hits(memory[begin..end], p - begin)
    ensures hits == Hits(memory[begin..end], stop - begin)
  {
    hide Hits;
    hits := before;
    for q := p to stop
      invariant hits == Hits(memory[begin..end], q - begin)
    {
      NextHit(memory, begin, end, q);
      if memory[q] != 0 {
        hits := hits + [Hit(q - begin, memory[q])];
      }
    }
  }

  /** The first aligned address from p on, or `end`. */
  function AlignmentBoundary(p: nat, end: nat): (q: nat)
    requires p <= end
    ensures p <= q <= end && (q < end ==> q % STEP == 0)
    decreases end - p
  {
    if p % STEP != 0 && p < end then AlignmentBoundary(p + 1, end) else p
  }

  /** The counters of [begin, end): by bytes up to an aligned address, then by words, then by bytes to the end. */
  method ForEachNonZeroByte(memory: seq<byte>, begin: nat, end: nat) returns (hits: seq<Hit>, size: nat)
    requires begin <= end <= |memory|
    ensures hits == Hits(memory[begin..end], end - begin) && size == end - begin
  {
    NoHitsYet(memory[begin..end]);
    hide Word, Hits;
    var p := AlignmentBoundary(begin, end);
    hits := ScanBytes(memory, begin, end, begin, p, []);
    while p + STEP <= end
      invariant begin <= p <= end && hits == Hits(memory[begin..end], p - begin)
      invariant p < end ==> p % STEP == 0
    {
      hits := ScanWord(memory, begin, end, p, hits);
      p := p + STEP;
    }
    hits := ScanBytes(memory, begin, end, p, end, hits);
    size := end - begin;
  }

  /** The bucket of a non-zero counter. */
  function CounterToFeature(counter: byte): (b: nat)
    requires counter != 0
    ensures b < 8
  {
    if counter >= 128 then 7
    else if counter >= 32 then 6
    else if counter >= 16 then 5
    else if counter >= 8 then 4
    else if counter >= 4 then 3
    else if counter >= 3 then 2
    else if counter >= 2 then 1
    else 0
  }

  /** Where bucket b begins. */
  function BucketStart(b: nat): nat {
    if b < 3 then b + 1 else if b < 7 then [4, 8, 16, 32][b - 3] else if b == 7 then 128 else 256
  }

  /** The buckets [1] [2] [3] [4-7] [8-15] [16-31] [32-127] [128-255] split the non-zero counters into eight intervals. */
  lemma Buckets(counter: byte, b: nat)
    requires counter != 0
    ensures CounterToFeature(counter) == b <==> b < 8 && BucketStart(b) <= counter as nat < BucketStart(b + 1)
  {
  }
}
