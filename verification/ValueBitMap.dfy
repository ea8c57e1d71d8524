/** The bit map of the value profile (FuzzerValueBitMap.h). */
module ValueBitMaps {
  import opened Bits
  import opened Collections

  const MAP_SIZE_IN_BITS: nat := 65536
  const MAP_PRIME_MOD: nat := 65371
  const BITS_IN_WORD: nat := 64
  const MAP_SIZE_IN_WORDS: nat := 1024

  predicate HasBit(words: seq<nat>, idx: nat)
    requires |words| == MAP_SIZE_IN_WORDS && idx < MAP_SIZE_IN_BITS
  {
    Bit(words[idx / BITS_IN_WORD], idx % BITS_IN_WORD)
  }

  /** The set bits below n, in ascending order. */
  function SetBits(words: seq<nat>, n: nat): (s: seq<nat>)
    requires |words| == MAP_SIZE_IN_WORDS && n <= MAP_SIZE_IN_BITS
    ensures forall i | 0 <= i < |s| :: s[i] < n
  {
    if n == 0 then [] else SetBits(words, n - 1) + if HasBit(words, n - 1) then [n - 1] else []
  }

  lemma {:induction false} SetBitsAscend(words: seq<nat>, n: nat)
    requires |words| == MAP_SIZE_IN_WORDS && n <= MAP_SIZE_IN_BITS
    ensures StrictlySorted(SetBits(words, n))
    ensures forall i: nat :: i in SetBits(words, n) <==> i < n && HasBit(words, i)
  {
    if n > 0 {
      SetBitsAscend(words, n - 1);
    }
  }

  lemma {:induction false} NoSetBits(words: seq<nat>, i: nat, n: nat)
    requires |words| == MAP_SIZE_IN_WORDS && i < MAP_SIZE_IN_WORDS && n <= BITS_IN_WORD && words[i] == 0
    ensures SetBits(words, i * BITS_IN_WORD + n) == SetBits(words, i * BITS_IN_WORD)
  {
    if n > 0 {
      NoSetBits(words, i, n - 1);
      NoBits(n - 1);
    }
  }

  lemma BitOfWord(words: seq<nat>, i: nat, j: nat)
    requires |words| == MAP_SIZE_IN_WORDS && i < MAP_SIZE_IN_WORDS && j < BITS_IN_WORD
    ensures HasBit(words, i * BITS_IN_WORD + j) <==> And(words[i], Pow2(j)) != 0
  {
    hide Bit, And, Pow2;
    AndPow2(words[i], j);
  }

  lemma ReducedFits(value: nat)
    ensures (value % MAP_PRIME_MOD) % MAP_SIZE_IN_BITS == value % MAP_PRIME_MOD
  {
  }

  lemma OneBitMore(words: seq<nat>, idx: nat, i: nat)
    requires |words| == MAP_SIZE_IN_WORDS && idx < MAP_SIZE_IN_BITS && i < MAP_SIZE_IN_BITS
    ensures var k := idx / BITS_IN_WORD;
            HasBit(words[k := Or(words[k], Pow2(idx % BITS_IN_WORD))], i) <==> HasBit(words, i) || i == idx
  {
    hide Bit, Or, Pow2;
    OrBit(words[idx / BITS_IN_WORD], Pow2(idx % BITS_IN_WORD), i % BITS_IN_WORD);
    Pow2Bit(idx % BITS_IN_WORD, i % BITS_IN_WORD);
  }

  lemma NextBit(words: seq<nat>, n: nat)
    requires |words| == MAP_SIZE_IN_WORDS && n < MAP_SIZE_IN_BITS
    ensures SetBits(words, 0) == []
    ensures SetBits(words, n + 1) == SetBits(words, n) + if HasBit(words, n) then [n] else []
  {
    hide HasBit;
  }

  class ValueBitMap {
    const map_: array<nat>

    ghost predicate Valid()
      reads this, map_
    {
      map_.Length == MAP_SIZE_IN_WORDS && forall i | 0 <= i < map_.Length :: map_[i] < Pow2(BITS_IN_WORD)
    }

    constructor ()
      ensures Valid() && fresh(map_)
      ensures forall idx | 0 <= idx < MAP_SIZE_IN_BITS :: !HasBit(map_[..], idx)
    {
      map_ := new nat[MAP_SIZE_IN_WORDS](_ => 0);
      new;
      forall idx | 0 <= idx < MAP_SIZE_IN_BITS ensures !HasBit(map_[..], idx) {
        NoBits(idx % BITS_IN_WORD);
      }
    }

    method Reset()
      requires Valid()
      modifies map_
      ensures Valid()
      ensures forall idx | 0 <= idx < MAP_SIZE_IN_BITS :: !HasBit(map_[..], idx)
    {
      forall i | 0 <= i < map_.Length {
        map_[i] := 0;
      }
      forall idx | 0 <= idx < MAP_SIZE_IN_BITS ensures !HasBit(map_[..], idx) {
        NoBits(idx % BITS_IN_WORD);
      }
    }

    /** Sets one bit and says whether it was clear. */
    method AddValue(value: nat) returns (changed: bool)
      requires Valid()
      modifies map_
      ensures Valid()
      ensures forall idx | 0 <= idx < MAP_SIZE_IN_BITS ::
                HasBit(map_[..], idx) <==> HasBit(old(map_[..]), idx) || idx == value % MAP_SIZE_IN_BITS
      ensures changed <==> !HasBit(old(map_[..]), value % MAP_SIZE_IN_BITS)
    {
      var idx := value % MAP_SIZE_IN_BITS;
      var wordIdx, bitIdx := idx / BITS_IN_WORD, idx % BITS_IN_WORD;
      var was := map_[wordIdx];
      var now := Or(was, Pow2(bitIdx));
      Pow2Grows(bitIdx, BITS_IN_WORD);
      OrBelow(was, Pow2(bitIdx), BITS_IN_WORD);
      OrPow2(was, bitIdx);
      ghost var words := map_[..];
      map_[wordIdx] := now;
      assert map_[..] == words[wordIdx := now];
      forall i | 0 <= i < MAP_SIZE_IN_BITS
        ensures HasBit(map_[..], i) <==> HasBit(words, i) || i == idx
      {
        OneBitMore(words, idx, i);
      }
      changed := now != was;
    }

    method AddValueModPrime(value: nat) returns (changed: bool)
      requires Valid()
      modifies map_
      ensures Valid()
      ensures forall idx | 0 <= idx < MAP_SIZE_IN_BITS ::
                HasBit(map_[..], idx) <==> HasBit(old(map_[..]), idx) || idx == value % MAP_PRIME_MOD
      ensures changed <==> !HasBit(old(map_[..]), value % MAP_PRIME_MOD)
    {
      hide HasBit;
      ReducedFits(value);
      changed := AddValue(value % MAP_PRIME_MOD);
    }

    method Get(idx: nat) returns (b: bool)
      requires Valid() && idx < MAP_SIZE_IN_BITS
      ensures b <==> HasBit(map_[..], idx)
    {
      AndPow2(map_[idx / BITS_IN_WORD], idx % BITS_IN_WORD);
      b := And(map_[idx / BITS_IN_WORD], Pow2(idx % BITS_IN_WORD)) != 0;
    }

    function SizeInBits(): nat { MAP_SIZE_IN_BITS }

    /** The indices the callback is called with, in order. */
    method ForEach() returns (out: seq<nat>)
      requires Valid()
      ensures out == SetBits(map_[..], MAP_SIZE_IN_BITS)
    {
      hide HasBit, And, Pow2, SetBits;
      out := [];
      NextBit(map_[..], 0);
      for i := 0 to MAP_SIZE_IN_WORDS
        invariant out == SetBits(map_[..], i * BITS_IN_WORD)
      {
        var m := map_[i];
        if m != 0 {
          for j := 0 to BITS_IN_WORD
            invariant out == SetBits(map_[..], i * BITS_IN_WORD + j)
          {
            BitOfWord(map_[..], i, j);
            NextBit(map_[..], i * BITS_IN_WORD + j);
            if And(m, Pow2(j)) != 0 {
              out := out + [i * BITS_IN_WORD + j];
            }
          }
        } else {
          NoSetBits(map_[..], i, BITS_IN_WORD);
        }
      }
    }
  }
}
