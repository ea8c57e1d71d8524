/** The fuzzer's SHA-1: a buffer of sixteen words overwritten in place, and fed byte by byte through
    the memory of a little-endian machine. */
module Sha1Impl {
  import opened Widths
  import opened Bits
  import opened Sha1Spec

  // ----- the source's forms of the round functions

  function ChSource(b: Word, c: Word, d: Word): Word { d ^ (b & (c ^ d)) }

  function MajSource(b: Word, c: Word, d: Word): Word { (b & c) | (d & (b | c)) }

  lemma ChBits(b: Word, c: Word, d: Word)
    ensures d ^ (b & (c ^ d)) == (b & c) ^ (!b & d)
  {
  }

  lemma ChForm(b: Word, c: Word, d: Word)
    ensures ChSource(b, c, d) == Ch(b, c, d)
  {
    ChBits(b, c, d);
  }

  lemma MajBits(b: Word, c: Word, d: Word)
    ensures (b & c) | (d & (b | c)) == (b & c) ^ (b & d) ^ (c & d)
  {
  }

  lemma MajForm(b: Word, c: Word, d: Word)
    ensures MajSource(b, c, d) == Maj(b, c, d)
  {
    MajBits(b, c, d);
  }

  /** The source's round term, constant included. */
  function Mix(i: nat, b: Word, c: Word, d: Word): Word {
    if i < 20 then Plus(ChSource(b, c, d), 0x5a827999)
    else if i < 40 then Plus(Parity(b, c, d), 0x6ed9eba1)
    else if i < 60 then Plus(MajSource(b, c, d), 0x8f1bbcdc)
    else Plus(Parity(b, c, d), 0xca62c1d6)
  }

  lemma MixForm(i: nat, b: Word, c: Word, d: Word)
    ensures Mix(i, b, c, d) == Plus(F(i, b, c, d), K(i))
  {
    hide Ch, Maj, Parity, ChSource, MajSource, Plus;
    ChForm(b, c, d);
    MajForm(b, c, d);
  }

  /** One round as the source computes it. */
  lemma RoundForm(v: Vars, i: nat, w: Word)
    ensures Vars(Plus(Mix(i, v.b, v.c, v.d), Plus(Plus(Rotl5(v.a), v.e), w)), v.a, Rotl30(v.b), v.c, v.d)
         == Round(v, i, w)
  {
    hide Mix, Rotl5, Rotl30, F, K, Plus;
    MixForm(i, v.b, v.c, v.d);
  }

  // ----- words in little-endian memory

  /** Byte `k` of a word in memory. */
  function MemoryByte(w: Word, k: nat): Byte
    requires k < 4
  {
    if k == 0 then (w & 0xff) as Byte
    else if k == 1 then ((w >> 8) & 0xff) as Byte
    else if k == 2 then ((w >> 16) & 0xff) as Byte
    else ((w >> 24) & 0xff) as Byte
  }

  lemma LoadStored(w: Word)
    ensures BigEndian(MemoryByte(w, 3), MemoryByte(w, 2), MemoryByte(w, 1), MemoryByte(w, 0)) == w
  {
  }

  function LoadWord(mem: seq<Byte>, i: nat): Word
    requires |mem| == 64 && i < 16
  {
    BigEndian(mem[4 * i + 3], mem[4 * i + 2], mem[4 * i + 1], mem[4 * i])
  }

  function Load(mem: seq<Byte>): (m: seq<Word>)
    requires |mem| == 64
    ensures |m| == 16
  {
    seq(16, i requires 0 <= i < 16 => LoadWord(mem, i))
  }

  function SwapBytes(w: Word): Word {
    ((w << 24) & 0xff000000) | ((w << 8) & 0x00ff0000) | ((w >> 8) & 0x0000ff00) | ((w >> 24) & 0x000000ff)
  }

  function MemoryOf(w: Word): seq<Byte> {
    [MemoryByte(w, 0), MemoryByte(w, 1), MemoryByte(w, 2), MemoryByte(w, 3)]
  }

  lemma SwappedMemory(w: Word)
    ensures MemoryOf(SwapBytes(w)) == WordBytes(w)
  {
  }

  /** `offset ^ 3`: the two low bits are flipped. */
  function Flip3(offset: nat): (r: nat)
    ensures r / 4 == offset / 4 && r % 4 == 3 - offset % 4
  {
    4 * (offset / 4) + (3 - offset % 4)
  }

  /** Indices into the circular window of the last sixteen words. */
  lemma Window(i: nat)
    requires i >= 16
    ensures (i + 13) % 16 == (i - 3) % 16 && (i + 8) % 16 == (i - 8) % 16
    ensures (i + 2) % 16 == (i - 14) % 16 && i % 16 == (i - 16) % 16
    ensures forall t | i - 16 < t < i :: t % 16 != i % 16
  {
  }

  /** What the circular buffer holds before round `i`: the sixteen schedule words last computed. */
  ghost predicate Windowed(words: seq<Word>, m: seq<Word>, i: nat)
    requires |words| == |m| == 16
  {
    if i < 16 then words == m
    else forall t | i - 16 <= t < i :: words[t % 16] == Schedule(m, t)
  }

  lemma WindowAdvances(words: seq<Word>, m: seq<Word>, i: nat)
    requires |words| == |m| == 16 && i >= 16 && Windowed(words, m, i)
    ensures var w := Rotl1(Xor4(words[(i + 13) % 16], words[(i + 8) % 16], words[(i + 2) % 16], words[i % 16]));
            w == Schedule(m, i) && Windowed(words[i % 16 := w], m, i + 1)
  {
    hide Rotl1, Xor4;
    Window(i);
    assert words[(i - 3) % 16] == Schedule(m, i - 3) && words[(i - 8) % 16] == Schedule(m, i - 8);
    assert words[(i - 14) % 16] == Schedule(m, i - 14) && words[(i - 16) % 16] == Schedule(m, i - 16);
  }

  lemma WindowFills(words: seq<Word>, m: seq<Word>, i: nat)
    requires |words| == |m| == 16 && i < 16 && Windowed(words, m, i)
    ensures words[i] == Schedule(m, i) && Windowed(words, m, i + 1)
  {
    if i == 15 {
      forall t | 0 <= t < 16 ensures words[t % 16] == Schedule(m, t) {
      }
    }
  }

  class Sha1Info {
    const buffer: array<Byte>    // the memory of the sixteen words
    const state: array<Word>
    var byteCount: nat
    var bufferOffset: nat

    ghost predicate Valid()
      reads this
    {
      && buffer.Length == 64 && state.Length == 5 && buffer as object != state as object
      && byteCount < U32 && bufferOffset <= 64
    }

    ghost function StateVars(): Vars
      requires Valid()
      reads this, state
    {
      Vars(state[0], state[1], state[2], state[3], state[4])
    }

    /** The object has taken in exactly `bytes`: whole blocks are hashed, the rest waits in the buffer. */
    ghost predicate Holds(bytes: seq<Byte>)
      reads this, buffer, state
    {
      && Valid() && bufferOffset == |bytes| % 64 && StateVars() == HashBytes(bytes)
      && Waiting(buffer[..], bufferOffset, bytes)
    }

    constructor ()
      ensures Valid() && StateVars() == INITIAL_HASH && byteCount == 0 && bufferOffset == 0
      ensures fresh(buffer) && fresh(state)
    {
      buffer := new Byte[64];
      state := new Word[5][0x67452301, 0xefcdab89, 0x98badcfe, 0x10325476, 0xc3d2e1f0];
      byteCount := 0;
      bufferOffset := 0;
    }

    method StoreWord(i: nat, w: Word)
      requires Valid() && i < 16
      modifies buffer
      ensures Load(buffer[..]) == Load(old(buffer[..]))[i := w]
    {
      hide MemoryByte, BigEndian;
      buffer[4 * i] := MemoryByte(w, 0);
      buffer[4 * i + 1] := MemoryByte(w, 1);
      buffer[4 * i + 2] := MemoryByte(w, 2);
      buffer[4 * i + 3] := MemoryByte(w, 3);
      LoadStored(w);
      assert forall k | 0 <= k < 16 && k != i :: LoadWord(buffer[..], k) == LoadWord(old(buffer[..]), k);
    }

    /** Word `i` of the buffer in round `i`, computed in place from round sixteen on. */
    method ScheduleWord(i: nat, ghost m: seq<Word>) returns (w: Word)
      requires Valid() && |m| == 16 && Windowed(Load(buffer[..]), m, i)
      modifies buffer
      ensures w == Schedule(m, i) && Windowed(Load(buffer[..]), m, i + 1)
    {
      hide Windowed, Schedule, Rotl1, Xor4, LoadWord;
      ghost var words := Load(buffer[..]);
      if i >= 16 {
        WindowAdvances(words, m, i);
        w := Rotl1(Xor4(LoadWord(buffer[..], (i + 13) % 16), LoadWord(buffer[..], (i + 8) % 16),
                        LoadWord(buffer[..], (i + 2) % 16), LoadWord(buffer[..], i % 16)));
        StoreWord(i % 16, w);
      } else {
        WindowFills(words, m, i);
        w := LoadWord(buffer[..], i);
      }
    }

    method HashBlock()
      requires Valid()
      modifies buffer, state
      ensures StateVars() == Sha1Spec.HashBlock(old(StateVars()), Load(old(buffer[..])))
    {
      hide Windowed, Schedule, Mix, Rotl5, Rotl30, Round, Plus, Load;
      ghost var m, h := Load(buffer[..]), StateVars();
      var a, b, c, d, e := state[0], state[1], state[2], state[3], state[4];
      assert Windowed(m, m, 0) by { StartsWindowed(m); }
      for i := 0 to ROUND_COUNT
        invariant Vars(a, b, c, d, e) == Rounds(m, h, i)
        invariant StateVars() == h && |m| == 16 && Windowed(Load(buffer[..]), m, i)
      {
        var w := ScheduleWord(i, m);
        RoundForm(Vars(a, b, c, d, e), i, w);
        var t := Plus(Mix(i, b, c, d), Plus(Plus(Rotl5(a), e), w));
        e, d, c, b, a := d, c, Rotl30(b), a, t;
      }
      state[0], state[1], state[2], state[3], state[4] :=
        Plus(state[0], a), Plus(state[1], b), Plus(state[2], c), Plus(state[3], d), Plus(state[4], e);
    }

    method AddUncounted(data: Byte, ghost bytes: seq<Byte>)
      requires Holds(bytes)
      modifies `bufferOffset, buffer, state
      ensures Holds(bytes + [data])
    {
      hide HashBytes, Sha1Spec.HashBlock, WordsOf, Load, Flip3, Waiting;
      StoredByte(buffer[..], bufferOffset, bytes, data);
      assert |bytes + [data]| == |bytes| + 1;
      ghost var stored := buffer[..][Flip3(bufferOffset) := data];
      buffer[Flip3(bufferOffset)] := data;
      assert buffer[..] == stored;
      bufferOffset := bufferOffset + 1;
      if bufferOffset == 64 {
        FullBlock(buffer[..], bytes + [data]);
        HashWholeBlock(bytes, data);
        HashBlock();
        bufferOffset := 0;
        NothingWaiting(buffer[..], bytes + [data]);
      } else {
        HashPartialBlock(bytes, data);
      }
    }

    method WriteByte(data: Byte, ghost bytes: seq<Byte>)
      requires Holds(bytes)
      modifies this, buffer, state
      ensures Holds(bytes + [data]) && byteCount == (old(byteCount) + 1) % U32
    {
      byteCount := (byteCount + 1) % U32;
      AddUncounted(data, bytes);
    }

    method Write(data: seq<Byte>, ghost bytes: seq<Byte>)
      requires Holds(bytes)
      modifies this, buffer, state
      ensures Holds(bytes + data) && byteCount == (old(byteCount) + |data|) % U32
    {
      hide Holds;
      HoldsOffset(bytes);
      assert bytes + [] == bytes;
      for i := 0 to |data|
        invariant Holds(bytes + data[..i]) && byteCount == (old(byteCount) + i) % U32
      {
        assert bytes + data[..i + 1] == bytes + data[..i] + [data[i]];
        CountUp(old(byteCount), i);
        WriteByte(data[i], bytes + data[..i]);
      }
      assert data[..|data|] == data;
    }

    /** 0x80, and zeros up to offset 56. */
    method PadZeros(ghost bytes: seq<Byte>) returns (ghost z: nat)
      requires Holds(bytes)
      modifies `bufferOffset, buffer, state
      ensures z == ZeroCount(|bytes|) && Holds(bytes + [0x80] + Zeros(z))
    {
      hide Holds, HashBytes, Zeros, ZeroCount;
      ghost var b := bytes + [0x80];
      AddUncounted(0x80, bytes);
      z := 0;
      ZerosGrow(0);
      HoldsOffset(b);
      assert b + Zeros(0) == b;
      ghost var count := ZeroCount(|bytes|);
      PadOffset(|bytes|, 0);
      while bufferOffset != 56
        invariant Valid() && Holds(b + Zeros(z)) && bufferOffset == (|b| + z) % 64 && z <= count
        invariant bufferOffset == 56 <==> z == count
        decreases count - z
      {
        ZerosGrow(z);
        assert b + Zeros(z) + [0] == b + Zeros(z + 1);
        AddUncounted(0x00, b + Zeros(z));
        z := z + 1;
        HoldsOffset(b + Zeros(z));
        PadOffset(|bytes|, z);
      }
    }

    method AddThree(d0: Byte, d1: Byte, d2: Byte, ghost bytes: seq<Byte>)
      requires Holds(bytes)
      modifies `bufferOffset, buffer, state
      ensures Holds(bytes + [d0, d1, d2])
    {
      hide Holds;
      AddUncounted(d0, bytes);
      AddUncounted(d1, bytes + [d0]);
      AddUncounted(d2, bytes + [d0] + [d1]);
      assert bytes + [d0] + [d1] + [d2] == bytes + [d0, d1, d2];
    }

    /** Pads to whole blocks; the length field counts `byteCount` bytes. */
    method Pad(ghost bytes: seq<Byte>)
      requires Holds(bytes)
      modifies `bufferOffset, buffer, state
      ensures Holds(bytes + Padding(|bytes|, byteCount))
    {
      hide Holds, ByteOf, Zeros, LengthDigits;
      HoldsOffset(bytes);
      ghost var z := PadZeros(bytes);
      ghost var p := bytes + [0x80] + Zeros(z);
      var n := byteCount;
      var b3, b4, b5 := ByteOf(n / 0x2000_0000 % 256), ByteOf(n / 0x20_0000 % 256), ByteOf(n / 0x2000 % 256);
      var b6, b7 := ByteOf(n / 0x20 % 256), ByteOf(n * 8 % 256);
      ByteOfZero();
      AddThree(0, 0, 0, p);
      AddThree(b3, b4, b5, p + [0, 0, 0]);
      AddUncounted(b6, p + [0, 0, 0] + [b3, b4, b5]);
      AddUncounted(b7, p + [0, 0, 0] + [b3, b4, b5] + [b6]);
      LengthField(n);
      assert p + [0, 0, 0] + [b3, b4, b5] + [b6] + [b7] == bytes + Padding(|bytes|, n);
    }

    lemma StartsEmpty()
      requires Valid() && StateVars() == INITIAL_HASH && bufferOffset == 0
      ensures Holds([])
    {
    }

    lemma HoldsOffset(bytes: seq<Byte>)
      requires Holds(bytes)
      ensures Valid() && bufferOffset == |bytes| % 64 && StateVars() == HashBytes(bytes)
    {
    }

    /** Pads, swaps the state words in place, and hands out their memory. */
    method Result(ghost bytes: seq<Byte>) returns (out: seq<Byte>)
      requires Holds(bytes)
      modifies `bufferOffset, buffer, state
      ensures out == Digest(HashBytes(bytes + Padding(|bytes|, byteCount)))
    {
      hide Holds, HashBytes, SwapBytes, MemoryOf, WordBytes, Padding;
      Pad(bytes);
      HoldsOffset(bytes + Padding(|bytes|, byteCount));
      ghost var s := state[..];
      for i := 0 to 5
        invariant state.Length == 5
        invariant forall k | 0 <= k < i :: state[k] == SwapBytes(s[k])
        invariant forall k | i <= k < 5 :: state[k] == s[k]
      {
        state[i] := SwapBytes(state[i]);
      }
      SwappedMemory(s[0]);
      SwappedMemory(s[1]);
      SwappedMemory(s[2]);
      SwappedMemory(s[3]);
      SwappedMemory(s[4]);
      out := MemoryOf(state[0]) + MemoryOf(state[1]) + MemoryOf(state[2]) + MemoryOf(state[3]) + MemoryOf(state[4]);
    }
  }

  /** How many zeros bring n bytes and one more up to the last eight bytes of a block. */
  lemma PadOffset(n: nat, z: nat)
    requires z <= ZeroCount(n)
    ensures (n + 1 + z) % 64 == 56 <==> z == ZeroCount(n)
  {
    var r := n % 64;
    assert (n + 1 + z) % 64 == (r + 1 + z) % 64;
  }

  lemma ZerosGrow(z: nat)
    ensures Zeros(0) == [] && Zeros(z + 1) == Zeros(z) + [0]
  {
  }

  lemma StartsWindowed(m: seq<Word>)
    requires |m| == 16
    ensures Windowed(m, m, 0)
  {
  }

  /** The last `offset` bytes lie in the buffer, each with the low bits of its position flipped. */
  ghost predicate Waiting(buffer: seq<Byte>, offset: nat, bytes: seq<Byte>) {
    && |buffer| == 64 && offset <= 64 && offset <= |bytes|
    && forall j | 0 <= j < offset :: buffer[Flip3(j)] == bytes[|bytes| - offset + j]
  }

  lemma StoredByte(buffer: seq<Byte>, offset: nat, bytes: seq<Byte>, data: Byte)
    requires Waiting(buffer, offset, bytes) && offset < 64
    ensures Flip3(offset) < 64 && Waiting(buffer[Flip3(offset) := data], offset + 1, bytes + [data])
  {
    forall j | 0 <= j < offset ensures Flip3(j) != Flip3(offset) {
    }
  }

  lemma NothingWaiting(buffer: seq<Byte>, bytes: seq<Byte>)
    requires |buffer| == 64
    ensures Waiting(buffer, 0, bytes)
  {
  }

  lemma FullBlock(buffer: seq<Byte>, bytes: seq<Byte>)
    requires Waiting(buffer, 64, bytes)
    ensures Load(buffer) == WordsOf(bytes[|bytes| - 64..])
  {
    BlockLoaded(buffer, bytes[|bytes| - 64..]);
  }

  /** Bytes stored through `^ 3` read back as big-endian words. */
  lemma BlockLoaded(mem: seq<Byte>, block: seq<Byte>)
    requires |mem| == |block| == 64
    requires forall j | 0 <= j < 64 :: mem[Flip3(j)] == block[j]
    ensures Load(mem) == WordsOf(block)
  {
    hide BigEndian, Flip3, LoadWord;
    forall i | 0 <= i < 16 ensures Load(mem)[i] == WordsOf(block)[i] {
      WordLoaded(mem, block, i);
    }
  }

  lemma WordLoaded(mem: seq<Byte>, block: seq<Byte>, i: nat)
    requires |mem| == |block| == 64 && i < 16
    requires forall j | 0 <= j < 64 :: mem[Flip3(j)] == block[j]
    ensures LoadWord(mem, i) == BigEndian(block[4 * i], block[4 * i + 1], block[4 * i + 2], block[4 * i + 3])
  {
    FlipInWord(i);
    hide BigEndian, Flip3;
    assert mem[Flip3(4 * i)] == block[4 * i] && mem[Flip3(4 * i + 1)] == block[4 * i + 1];
    assert mem[Flip3(4 * i + 2)] == block[4 * i + 2] && mem[Flip3(4 * i + 3)] == block[4 * i + 3];
  }

  lemma FlipInWord(i: nat)
    ensures Flip3(4 * i) == 4 * i + 3 && Flip3(4 * i + 1) == 4 * i + 2
    ensures Flip3(4 * i + 2) == 4 * i + 1 && Flip3(4 * i + 3) == 4 * i
  {
  }

  lemma CountUp(start: nat, i: nat)
    ensures ((start + i) % U32 + 1) % U32 == (start + (i + 1)) % U32
  {
  }

  lemma {:induction false} HashOfWholeBlocks(bytes: seq<Byte>)
    ensures HashBytes(bytes) == HashBytes(bytes[..|bytes| - |bytes| % 64])
  {
    hide Sha1Spec.HashBlock, WordsOf;
    var whole := bytes[..|bytes| - |bytes| % 64];
    if |bytes| >= 64 {
      var k := |whole|;
      assert whole[..k - 64] == bytes[..k - 64] && whole[k - 64..k] == bytes[k - 64..k];
    }
  }

  lemma HashPartialBlock(bytes: seq<Byte>, data: Byte)
    requires |bytes| % 64 != 63
    ensures HashBytes(bytes + [data]) == HashBytes(bytes) && (|bytes| + 1) % 64 == |bytes| % 64 + 1
  {
    hide HashBytes;
    HashOfWholeBlocks(bytes);
    HashOfWholeBlocks(bytes + [data]);
    SameBlocks(|bytes|);
    var k := |bytes| - |bytes| % 64;
    assert (bytes + [data])[..k] == bytes[..k];
  }

  lemma SameBlocks(n: nat)
    requires n % 64 != 63
    ensures (n + 1) % 64 == n % 64 + 1
  {
  }

  lemma NextMultiple(n: nat)
    requires n % 64 == 63
    ensures (n + 1) % 64 == 0
  {
  }

  lemma UnfoldHash(b: seq<Byte>)
    requires |b| >= 64 && |b| % 64 == 0
    ensures HashBytes(b) == Sha1Spec.HashBlock(HashBytes(b[..|b| - 64]), WordsOf(b[|b| - 64..|b|]))
  {
  }

  lemma HashWholeBlock(bytes: seq<Byte>, data: Byte)
    requires |bytes| % 64 == 63
    ensures (|bytes| + 1) % 64 == 0
    ensures var b := bytes + [data];
            HashBytes(b) == Sha1Spec.HashBlock(HashBytes(bytes), WordsOf(b[|b| - 64..]))
  {
    hide Sha1Spec.HashBlock, WordsOf;
    var b := bytes + [data];
    NextMultiple(|bytes|);
    HashOfWholeBlocks(bytes);
    UnfoldHash(b);
    hide HashBytes;
    assert b[..|b| - 64] == bytes[..|bytes| - 63];
    assert b[|b| - 64..|b|] == b[|b| - 64..];
  }

  /** The source's shifts cut the length in bits into its base-256 digits. */
  lemma LengthField(n: nat)
    requires n < U32
    ensures LengthDigits(8 * n) == [0, 0, 0, n / 0x2000_0000 % 256, n / 0x20_0000 % 256, n / 0x2000 % 256,
                                    n / 0x20 % 256, n * 8 % 256]
  {
    assert 8 * n / 0x100_0000_0000_0000 == 8 * n / 0x1_0000_0000_0000 == 8 * n / 0x100_0000_0000 == 0;
    assert 8 * n / 0x1_0000_0000 == n / 0x2000_0000 && 8 * n / 0x100_0000 == n / 0x20_0000;
    assert 8 * n / 0x1_0000 == n / 0x2000 && 8 * n / 0x100 == n / 0x20;
  }

  lemma ByteOfZero()
    ensures ByteOf(0) == 0
  {
  }

  /** `ComputeSHA1`: for a message of any length, the digest over its padding by the counted length. */
  method ComputeSha1(data: seq<Byte>) returns (out: seq<Byte>)
    ensures out == Digest(HashBytes(data + Padding(|data|, |data| % U32)))
    ensures |data| < U32 ==> out == Sha1(data)
  {
    hide Digest, HashBytes, Padding;
    var s := new Sha1Info();
    s.StartsEmpty();
    s.Write(data, []);
    assert [] + data == data;
    out := s.Result(data);
  }

  /** A byte determines the number below 256 that it stands for. */
  lemma BytesDiffer(x: nat, y: nat)
    requires x < 256 && y < 256 && ByteOf(x) == ByteOf(y)
    ensures x == y
  {
    BitsOfByte(x, y);
    hide ByteOf;
    SameQuotient(x, y, 64, 128, 2);
    SameQuotient(x, y, 32, 64, 2);
    SameQuotient(x, y, 16, 32, 2);
    SameQuotient(x, y, 8, 16, 2);
    SameQuotient(x, y, 4, 8, 2);
    SameQuotient(x, y, 2, 4, 2);
    SameQuotient(x, y, 1, 2, 2);
  }

  lemma BitsOfByte(x: nat, y: nat)
    requires ByteOf(x) == ByteOf(y)
    ensures x % 2 == y % 2 && x / 2 % 2 == y / 2 % 2 && x / 4 % 2 == y / 4 % 2 && x / 8 % 2 == y / 8 % 2
    ensures x / 16 % 2 == y / 16 % 2 && x / 32 % 2 == y / 32 % 2 && x / 64 % 2 == y / 64 % 2 && x / 128 % 2 == y / 128 % 2
  {
  }

  /** Eight base-256 digits determine a 64-bit number. */
  lemma DigitsDiffer(x: nat, y: nat)
    requires x < 0x1_0000_0000_0000_0000 && y < 0x1_0000_0000_0000_0000 && LengthDigits(x) == LengthDigits(y)
    ensures x == y
  {
    SameQuotient(x, y, 0x1_0000_0000_0000, 0x100_0000_0000_0000, 256);
    SameQuotient(x, y, 0x100_0000_0000, 0x1_0000_0000_0000, 256);
    SameQuotient(x, y, 0x1_0000_0000, 0x100_0000_0000, 256);
    SameQuotient(x, y, 0x100_0000, 0x1_0000_0000, 256);
    SameQuotient(x, y, 0x1_0000, 0x100_0000, 256);
    SameQuotient(x, y, 0x100, 0x1_0000, 256);
    SameQuotient(x, y, 1, 0x100, 256);
  }

  /** Equal high parts and equal next digits make equal quotients. */
  lemma SameQuotient(x: nat, y: nat, q: nat, qb: nat, b: nat)
    requires q > 0 && b > 0 && qb == q * b
    requires x / qb == y / qb && x / q % b == y / q % b
    ensures x / q == y / q
  {
    QuotientOfQuotient(x, q, b);
    QuotientOfQuotient(y, q, b);
    assert x / q == b * (x / q / b) + x / q % b && y / q == b * (y / q / b) + y / q % b;
  }

  lemma QuotientOfQuotient(x: nat, q: nat, b: nat)
    requires q > 0 && b > 0
    ensures q * b > 0 && x / q / b == x / (q * b)
  {
    var u := x / q;
    Compose(x, q, b, u, u / b, u % b, x % q);
    ModUnique(x, q * b, u / b, q * (u % b) + x % q);
  }

  lemma Compose(x: nat, q: nat, b: nat, u: nat, high: nat, low: nat, r: nat)
    requires x == q * u + r && r < q && u == b * high + low && low < b
    ensures x == (q * b) * high + (q * low + r) && q * low + r < q * b
  {
    Expand(q, b, high, low);
    ProductBelow(q, b, low);
  }

  lemma Expand(q: nat, b: nat, high: nat, low: nat)
    ensures q * (b * high + low) == (q * b) * high + q * low
  {
  }

  lemma ProductBelow(q: nat, b: nat, low: nat)
    requires low < b
    ensures q * low + q <= q * b
  {
    var k := b - 1 - low;
    Expand(q, 1, low + 1, k);
    assert q * (low + 1) == q * low + q;
    assert 0 <= q * k;
  }

  /** The 32-bit counter yields the padding of the standard exactly for messages below 2^32 bytes, out of those
      below the 2^61 bytes for which the standard defines it. */
  lemma CountedLength(n: nat)
    requires n < 0x2000_0000_0000_0000
    ensures Padding(n, n % U32) == Padding(n, n) <==> n < U32
  {
    hide ByteOf, LengthDigits;
    var counted, full := Length64(8 * (n % U32)), Length64(8 * n);
    var prefix := [0x80] + Zeros(ZeroCount(n));
    assert Padding(n, n % U32) == prefix + counted && Padding(n, n) == prefix + full;
    if Padding(n, n % U32) == Padding(n, n) {
      assert counted == (prefix + counted)[|prefix|..] && full == (prefix + full)[|prefix|..];
      SameField(8 * (n % U32), 8 * n);
    }
  }

  lemma SameField(x: nat, y: nat)
    requires x < 0x1_0000_0000_0000_0000 && y < 0x1_0000_0000_0000_0000 && Length64(x) == Length64(y)
    ensures x == y
  {
    hide ByteOf;
    var d, e := LengthDigits(x), LengthDigits(y);
    forall i | 0 <= i < 8 ensures d[i] == e[i] {
      assert ByteOf(d[i]) == Length64(x)[i] && ByteOf(e[i]) == Length64(y)[i];
      BytesDiffer(d[i], e[i]);
    }
    DigitsDiffer(x, y);
  }

  /** The padding fills up whole blocks, with the fewest zeros (section 5.1.1). */
  lemma PaddingIsMinimal(n: nat, k: nat)
    ensures (n + 1 + ZeroCount(n) + 8) % 64 == 0
    ensures (n + 1 + k + 8) % 64 == 0 ==> ZeroCount(n) <= k
  {
  }
}
