/** The numbering of coverage features: inline counters, extra counters, value profile and stack depth. */
module Features {
  import opened Bits
  import opened Collections
  import opened CounterScan
  import opened Regions
  import opened ValueBitMaps

  // ----- the stack depth step function

  /** Position of the highest set bit. */
  function Log(x: nat): (l: nat)
    requires x > 0
    ensures Pow2(l) <= x < Pow2(l + 1)
  {
    if x == 1 then 0 else 1 + Log(x / 2)
  }

  function StackDepthStep(a: nat): nat {
    if a == 0 then a else
      var log2 := Log(a);
      if log2 < 3 then a else (log2 - 3 + 1) * 8 + (a / Pow2(log2 - 3)) % 8
  }

  lemma {:induction false} LogMonotone(a: nat, b: nat)
    requires 0 < a <= b
    ensures Log(a) <= Log(b)
  {
    if a > 1 {
      LogMonotone(a / 2, b / 2);
    }
  }

  /** Within one power of two the step is linear. */
  lemma StepShape(a: nat)
    requires a >= 8
    ensures Log(a) >= 3 && 8 <= a / Pow2(Log(a) - 3) < 16
    ensures StackDepthStep(a) == 8 * (Log(a) - 3) + a / Pow2(Log(a) - 3)
  {
    hide Log, Pow2;
    LogFromEight(a);
    Quotient(a, Pow2(Log(a) - 3));
  }

  lemma LogFromEight(a: nat)
    requires a >= 8
    ensures Log(a) >= 3 && 8 * Pow2(Log(a) - 3) <= a < 16 * Pow2(Log(a) - 3)
  {
    hide Pow2, Log;
    LogAtLeastThree(a);
    EightTimes(Log(a) - 3);
  }

  lemma LogAtLeastThree(a: nat)
    requires a >= 8
    ensures Log(a) >= 3
  {
    LogMonotone(8, a);
    assert Log(8) == 3;
  }

  lemma EightTimes(l: nat)
    ensures Pow2(l + 3) == 8 * Pow2(l) && Pow2(l + 4) == 16 * Pow2(l)
  {
    assert Pow2(l + 1) == 2 * Pow2(l) && Pow2(l + 2) == 4 * Pow2(l);
  }

  lemma Quotient(a: nat, q: nat)
    requires q > 0 && 8 * q <= a < 16 * q
    ensures 8 <= a / q < 16
  {
    Multiple(q, a / q - 8);
    Multiple(q, a / q - 15);
  }

  /** Deeper stacks never get a smaller step. */
  lemma StepMonotone(a: nat, b: nat)
    requires a <= b
    ensures StackDepthStep(a) <= StackDepthStep(b)
  {
    if a >= 8 {
      StepShape(a);
      StepShape(b);
      LogMonotone(a, b);
      if Log(a) == Log(b) {
        DivMonotone(a, b, Pow2(Log(a) - 3));
      }
    } else {
      SmallStep(a);
      if b >= 8 {
        StepShape(b);
      } else {
        SmallStep(b);
      }
    }
  }

  lemma SmallStep(a: nat)
    requires a < 8
    ensures StackDepthStep(a) == a
  {
    if a > 0 {
      LogMonotone(a, 7);
      assert Log(7) == 2;
    }
  }

  lemma DivMonotone(a: nat, b: nat, q: nat)
    requires a <= b && q > 0
    ensures a / q <= b / q
  {
    Multiple(q, b / q - a / q);
  }

  // ----- the numbering

  /** What `CollectFeatures` reads. `regions` are the enabled regions of all modules, then the extra counters;
      `stackOffset` is the difference of the two recorded stack addresses. */
  datatype Snapshot = Snapshot(memory: seq<byte>, regions: seq<Region>, useCounters: bool, useValueProfile: bool,
                               words: seq<nat>, stackOffset: nat)

  ghost predicate ValidRegions(memory: seq<byte>, regions: seq<Region>) {
    forall i | 0 <= i < |regions| :: regions[i].start <= regions[i].stop <= |memory|
  }

  ghost predicate Valid(s: Snapshot) {
    ValidRegions(s.memory, s.regions) && |s.words| == MAP_SIZE_IN_WORDS && s.stackOffset < ADDRESS_SPACE
  }

  function CounterFeature(useCounters: bool, first: nat, hit: Hit): nat
    requires hit.value != 0
  {
    if useCounters then first + hit.idx * 8 + CounterToFeature(hit.value) else first + hit.idx
  }

  ghost predicate NonZero(hits: seq<Hit>) {
    forall i | 0 <= i < |hits| :: hits[i].value != 0
  }

  function HitFeatures(useCounters: bool, first: nat, hits: seq<Hit>): (f: seq<nat>)
    requires NonZero(hits)
    ensures |f| == |hits|
    ensures forall i | 0 <= i < |hits| :: f[i] == CounterFeature(useCounters, first, hits[i])
  {
    seq(|hits|, i requires 0 <= i < |hits| => CounterFeature(useCounters, first, hits[i]))
  }

  function RegionHits(memory: seq<byte>, r: Region): (h: seq<Hit>)
    requires r.start <= r.stop <= |memory|
    ensures NonZero(h)
  {
    Hits(memory[r.start..r.stop], r.stop - r.start)
  }

  /** The first number after the counters of the regions. */
  function FirstAfter(regions: seq<Region>): int {
    if regions == [] then 0 else
      FirstAfter(regions[..|regions| - 1]) + 8 * (regions[|regions| - 1].stop - regions[|regions| - 1].start)
  }

  lemma {:induction false} FirstAfterGrows(memory: seq<byte>, regions: seq<Region>, r: nat)
    requires ValidRegions(memory, regions) && r <= |regions|
    ensures 0 <= FirstAfter(regions[..r]) <= FirstAfter(regions)
  {
    if r == |regions| {
      assert regions[..r] == regions;
    }
    if regions != [] {
      var prefix := regions[..|regions| - 1];
      FirstAfterGrows(memory, prefix, if r < |regions| then r else 0);
      if r < |regions| {
        assert prefix[..r] == regions[..r];
      }
    }
  }

  function CounterFeatures(memory: seq<byte>, regions: seq<Region>, useCounters: bool): seq<nat>
    requires ValidRegions(memory, regions)
  {
    if regions == [] then [] else
      var prefix := regions[..|regions| - 1];
      FirstAfterGrows(memory, prefix, 0);
      CounterFeatures(memory, prefix, useCounters)
      + HitFeatures(useCounters, FirstAfter(prefix), RegionHits(memory, regions[|regions| - 1]))
  }

  function Shifted(s: seq<nat>, first: nat): (r: seq<nat>)
    ensures |r| == |s| && forall i | 0 <= i < |s| :: r[i] == first + s[i]
  {
    seq(|s|, i requires 0 <= i < |s| => first + s[i])
  }

  function CounterTotal(s: Snapshot): (n: nat)
    requires Valid(s)
  {
    FirstAfterGrows(s.memory, s.regions, 0);
    FirstAfter(s.regions)
  }

  function ProfileTotal(s: Snapshot): nat { if s.useValueProfile then MAP_SIZE_IN_BITS else 0 }

  function ProfileFeatures(s: Snapshot): seq<nat>
    requires Valid(s)
  {
    if s.useValueProfile then Shifted(SetBits(s.words, MAP_SIZE_IN_BITS), CounterTotal(s)) else []
  }

  /** One past the largest feature that this set-up can ever report. */
  function Total(s: Snapshot): nat
    requires Valid(s)
  {
    CounterTotal(s) + ProfileTotal(s) + if s.stackOffset != 0 then StackDepthStep(ADDRESS_SPACE - 1) else 0
  }

  /** The features reported, before they are cut to 32 bits. */
  function Reported(s: Snapshot): seq<nat>
    requires Valid(s)
  {
    CounterFeatures(s.memory, s.regions, s.useCounters)
    + ProfileFeatures(s)
    + (if s.stackOffset != 0 then [CounterTotal(s) + ProfileTotal(s) + StackDepthStep(s.stackOffset / 8)] else [])
  }

  // ----- strictly increasing and below the total

  ghost predicate Between(s: seq<nat>, lo: int, hi: int) {
    forall i | 0 <= i < |s| :: lo <= s[i] < hi
  }

  lemma Follows(s: seq<nat>, t: seq<nat>, lo: nat, mid: nat, hi: nat)
    requires StrictlySorted(s) && StrictlySorted(t) && Between(s, lo, mid) && Between(t, mid, hi) && lo <= mid <= hi
    ensures StrictlySorted(s + t) && Between(s + t, lo, hi)
  {
  }

  lemma HitsInRange(memory: seq<byte>, r: Region, useCounters: bool, first: nat)
    requires r.start <= r.stop <= |memory|
    ensures StrictlySorted(HitFeatures(useCounters, first, RegionHits(memory, r)))
    ensures Between(HitFeatures(useCounters, first, RegionHits(memory, r)), first, first + 8 * (r.stop - r.start))
  {
    hide CounterToFeature, Hits;
    HitsAscend(memory[r.start..r.stop], r.stop - r.start);
  }

  lemma {:induction false} CountersIncrease(memory: seq<byte>, regions: seq<Region>, useCounters: bool)
    requires ValidRegions(memory, regions)
    ensures StrictlySorted(CounterFeatures(memory, regions, useCounters))
    ensures Between(CounterFeatures(memory, regions, useCounters), 0, FirstAfter(regions))
  {
    if regions != [] {
      var prefix := regions[..|regions| - 1];
      var last := regions[|regions| - 1];
      FirstAfterGrows(memory, prefix, 0);
      CountersIncrease(memory, prefix, useCounters);
      HitsInRange(memory, last, useCounters, FirstAfter(prefix));
      Follows(CounterFeatures(memory, prefix, useCounters),
              HitFeatures(useCounters, FirstAfter(prefix), RegionHits(memory, last)),
              0, FirstAfter(prefix), FirstAfter(regions));
    }
  }

  /** A stack of any depth has a step below the one reserved for it, since its offset is counted in words of 8 bytes. */
  lemma StepBelowTotal(offset: nat)
    requires offset < ADDRESS_SPACE
    ensures StackDepthStep(offset / 8) < StackDepthStep(ADDRESS_SPACE - 1)
  {
    EighthOfAddressSpace();
    hide Pow2, Log, StackDepthStep;
    StepMonotone(offset / 8, Pow2(61) - 1);
    StepOfOnes(61);
    StepOfOnes(64);
  }

  lemma StepOfOnes(n: nat)
    requires n > 3
    ensures 8 * n - 24 <= StackDepthStep(Pow2(n) - 1) <= 8 * n - 17
  {
    hide Pow2, Log, StackDepthStep;
    LogOfOnes(n);
    AtLeastSixteen(n);
    StepBounds(Pow2(n) - 1);
  }

  lemma AtLeastSixteen(n: nat)
    requires n > 3
    ensures Pow2(n) >= 16
  {
    Pow2Grows(3, n);
    assert Pow2(3) == 8;
  }

  lemma StepBounds(a: nat)
    requires a >= 8
    ensures Log(a) >= 3 && 8 * Log(a) - 16 <= StackDepthStep(a) < 8 * Log(a) - 8
  {
    StepShape(a);
  }

  lemma EighthOfAddressSpace()
    ensures ADDRESS_SPACE == 8 * Pow2(61)
  {
    assert Pow2(64) == 2 * Pow2(63) == 4 * Pow2(62) == 8 * Pow2(61);
  }

  lemma {:induction false} LogOfOnes(n: nat)
    requires n > 0
    ensures Pow2(n) >= 2 && Log(Pow2(n) - 1) == n - 1
  {
    if n > 1 {
      LogOfOnes(n - 1);
      assert (Pow2(n) - 1) / 2 == Pow2(n - 1) - 1;
    }
  }

  /** The features of one execution are reported in strictly increasing order, and all lie below the total. */
  lemma ReportedIncrease(s: Snapshot)
    requires Valid(s)
    ensures StrictlySorted(Reported(s)) && Between(Reported(s), 0, Total(s))
  {
    hide StackDepthStep, SetBits, CounterFeatures, FirstAfter, ADDRESS_SPACE;
    CountersIncrease(s.memory, s.regions, s.useCounters);
    ProfileIncreases(s);
    StepBelowTotal(s.stackOffset);
    var n, m := CounterTotal(s), CounterTotal(s) + ProfileTotal(s);
    var stack := if s.stackOffset != 0 then [m + StackDepthStep(s.stackOffset / 8)] else [];
    var counters := CounterFeatures(s.memory, s.regions, s.useCounters);
    Follows(counters, ProfileFeatures(s), 0, n, m);
    Follows(counters + ProfileFeatures(s), stack, 0, m, Total(s));
  }

  lemma ProfileIncreases(s: Snapshot)
    requires Valid(s)
    ensures StrictlySorted(ProfileFeatures(s))
    ensures Between(ProfileFeatures(s), CounterTotal(s), CounterTotal(s) + ProfileTotal(s))
  {
    SetBitsAscend(s.words, MAP_SIZE_IN_BITS);
    hide SetBits, FirstAfter;
  }

  // ----- what a feature stands for

  datatype Source =
    | Counter(region: nat, idx: nat, bucket: nat)
    | ProfileBit(bit: nat)
    | StackStep(step: nat)

  /** The sources that this set-up tells apart. Without `UseCounters` the value of a counter does not matter. */
  ghost predicate InLayout(s: Snapshot, src: Source) {
    match src
    case Counter(r, i, b) =>
      r < |s.regions| && i < s.regions[r].stop - s.regions[r].start && b < if s.useCounters then 8 else 1
    case ProfileBit(bit) => s.useValueProfile && bit < MAP_SIZE_IN_BITS
    case StackStep(k) => s.stackOffset != 0 && k < StackDepthStep(ADDRESS_SPACE - 1)
  }

  /** The sources that were hit. */
  ghost predicate WasHit(s: Snapshot, src: Source)
    requires Valid(s)
  {
    match src
    case Counter(r, i, b) =>
      && r < |s.regions| && i < s.regions[r].stop - s.regions[r].start
      && s.memory[s.regions[r].start + i] != 0
      && b == if s.useCounters then CounterToFeature(s.memory[s.regions[r].start + i]) else 0
    case ProfileBit(bit) => s.useValueProfile && bit < MAP_SIZE_IN_BITS && HasBit(s.words, bit)
    case StackStep(k) => s.stackOffset != 0 && k == StackDepthStep(s.stackOffset / 8)
  }

  function Number(s: Snapshot, src: Source): int
    requires Valid(s) && InLayout(s, src)
  {
    match src
    case Counter(r, i, b) => FirstAfter(s.regions[..r]) + if s.useCounters then 8 * i + b else i
    case ProfileBit(bit) => CounterTotal(s) + bit
    case StackStep(k) => CounterTotal(s) + ProfileTotal(s) + k
  }

  lemma CounterRange(s: Snapshot, src: Source)
    requires Valid(s) && InLayout(s, src) && src.Counter?
    ensures FirstAfter(s.regions[..src.region]) <= Number(s, src) < FirstAfter(s.regions[..src.region + 1]) <= CounterTotal(s)
  {
    assert s.regions[..src.region + 1][..src.region] == s.regions[..src.region];
    FirstAfterGrows(s.memory, s.regions, src.region + 1);
  }

  /** No two sources share a number, and every number lies below the total. */
  lemma NumbersAreUnique(s: Snapshot, a: Source, b: Source)
    requires Valid(s) && InLayout(s, a) && InLayout(s, b)
    ensures Number(s, a) == Number(s, b) ==> a == b
    ensures 0 <= Number(s, a) < Total(s)
  {
    hide FirstAfter, StackDepthStep, HasBit, CounterToFeature;
    FirstAfterGrows(s.memory, s.regions, 0);
    if a.Counter? {
      FirstAfterGrows(s.memory, s.regions, a.region);
      CounterRange(s, a);
    }
    if b.Counter? {
      CounterRange(s, b);
    }
    if a.Counter? && b.Counter? && a.region != b.region {
      var lo, hi := if a.region < b.region then a else b, if a.region < b.region then b else a;
      assert s.regions[..hi.region][..lo.region + 1] == s.regions[..lo.region + 1];
      FirstAfterGrows(s.memory, s.regions[..hi.region], lo.region + 1);
    }
  }

  lemma RegionSource(s: Snapshot, r: nat, k: nat) returns (src: Source)
    requires Valid(s) && r < |s.regions| && k < |RegionHits(s.memory, s.regions[r])|
    ensures WasHit(s, src) && InLayout(s, src) && src.Counter? && 0 <= FirstAfter(s.regions[..r])
    ensures Number(s, src) == HitFeatures(s.useCounters, FirstAfter(s.regions[..r]), RegionHits(s.memory, s.regions[r]))[k]
  {
    FirstAfterGrows(s.memory, s.regions, r);
    hide FirstAfter, HasBit;
    var hit := RegionHits(s.memory, s.regions[r])[k];
    src := Counter(r, hit.idx, if s.useCounters then CounterToFeature(hit.value) else 0);
  }

  lemma {:induction false} CounterSource(s: Snapshot, n: nat, k: nat) returns (src: Source)
    requires Valid(s) && n <= |s.regions| && k < |CounterFeatures(s.memory, s.regions[..n], s.useCounters)|
    ensures WasHit(s, src) && InLayout(s, src) && src.Counter?
    ensures Number(s, src) == CounterFeatures(s.memory, s.regions[..n], s.useCounters)[k]
  {
    var prefix := s.regions[..n - 1];
    assert s.regions[..n][..n - 1] == prefix;
    var before := CounterFeatures(s.memory, prefix, s.useCounters);
    if k < |before| {
      src := CounterSource(s, n - 1, k);
    } else {
      src := RegionSource(s, n - 1, k - |before|);
    }
  }

  lemma {:induction false} CounterIsReported(s: Snapshot, n: nat, src: Source)
    requires Valid(s) && WasHit(s, src) && InLayout(s, src) && src.Counter? && src.region < n <= |s.regions|
    ensures Number(s, src) in CounterFeatures(s.memory, s.regions[..n], s.useCounters)
  {
    hide HasBit, CounterToFeature, Hits, StackDepthStep;
    var prefix := s.regions[..n - 1];
    assert s.regions[..n][..n - 1] == prefix;
    if src.region < n - 1 {
      CounterIsReported(s, n - 1, src);
    } else {
      var r := s.regions[n - 1];
      var i := HitIndex(s.memory, r, src.idx);
      hide RegionHits;
      FirstAfterGrows(s.memory, prefix, 0);
      assert HitFeatures(s.useCounters, FirstAfter(prefix), RegionHits(s.memory, r))[i] == Number(s, src);
    }
  }

  lemma HitIndex(memory: seq<byte>, r: Region, idx: nat) returns (i: nat)
    requires r.start <= r.stop <= |memory| && idx < r.stop - r.start && memory[r.start + idx] != 0
    ensures i < |RegionHits(memory, r)| && RegionHits(memory, r)[i] == Hit(idx, memory[r.start + idx])
  {
    var counters := memory[r.start..r.stop];
    assert counters[idx] == memory[r.start + idx];
    HitsAscend(counters, |counters|);
    hide Hits;
    i :| i < |RegionHits(memory, r)| && RegionHits(memory, r)[i] == Hit(idx, counters[idx]);
  }

  /** A number is reported exactly when a source with that number was hit. */
  lemma ReportedAreHit(s: Snapshot, f: nat)
    requires Valid(s)
    ensures f in Reported(s) <==> exists src :: InLayout(s, src) && WasHit(s, src) && Number(s, src) == f
  {
    if f in Reported(s) {
      var src := SourceOf(s, f);
    }
    if src :| InLayout(s, src) && WasHit(s, src) && Number(s, src) == f {
      HitIsReported(s, src);
    }
  }

  lemma SourceOf(s: Snapshot, f: nat) returns (src: Source)
    requires Valid(s) && f in Reported(s)
    ensures InLayout(s, src) && WasHit(s, src) && Number(s, src) == f
  {
    hide CounterFeatures, ProfileFeatures, FirstAfter, StackDepthStep, HasBit, CounterToFeature, ADDRESS_SPACE;
    var counters := CounterFeatures(s.memory, s.regions, s.useCounters);
    assert s.regions[..|s.regions|] == s.regions;
    if f in counters {
      var k: nat :| k < |counters| && counters[k] == f;
      src := CounterSource(s, |s.regions|, k);
    } else if f in ProfileFeatures(s) {
      src := ProfileSource(s, f);
    } else {
      StepBelowTotal(s.stackOffset);
      src := StackStep(StackDepthStep(s.stackOffset / 8));
    }
  }

  lemma ProfileSource(s: Snapshot, f: nat) returns (src: Source)
    requires Valid(s) && f in ProfileFeatures(s)
    ensures InLayout(s, src) && WasHit(s, src) && Number(s, src) == f
  {
    SetBitsAscend(s.words, MAP_SIZE_IN_BITS);
    hide SetBits, FirstAfter, HasBit;
    var i :| 0 <= i < |ProfileFeatures(s)| && ProfileFeatures(s)[i] == f;
    src := ProfileBit(SetBits(s.words, MAP_SIZE_IN_BITS)[i]);
  }

  lemma HitIsReported(s: Snapshot, src: Source)
    requires Valid(s) && InLayout(s, src) && WasHit(s, src)
    ensures Number(s, src) in Reported(s)
  {
    assert s.regions[..|s.regions|] == s.regions;
    hide StackDepthStep, HasBit, CounterToFeature, FirstAfter, ADDRESS_SPACE;
    match src
    case Counter(_, _, _) => CounterIsReported(s, |s.regions|, src);
    case ProfileBit(bit) =>
      SetBitsAscend(s.words, MAP_SIZE_IN_BITS);
      var bits := SetBits(s.words, MAP_SIZE_IN_BITS);
      var i :| 0 <= i < |bits| && bits[i] == bit;
      assert Shifted(bits, CounterTotal(s))[i] == Number(s, src);
      assert Number(s, src) in Shifted(bits, CounterTotal(s));
    case StackStep(_) =>
  }
}
