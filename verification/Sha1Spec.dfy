/** SHA-1 as FIPS 180-4 defines it (sections 4.1.1, 4.2.1, 5.1.1, 5.3.1 and 6.1.2). */
module Sha1Spec {
  type Word = bv32
  type Byte = bv8

  datatype Vars = Vars(a: Word, b: Word, c: Word, d: Word, e: Word)

  function Rotl1(x: Word): Word { (x << 1) | (x >> 31) }
  function Rotl5(x: Word): Word { (x << 5) | (x >> 27) }
  function Rotl30(x: Word): Word { (x << 30) | (x >> 2) }

  /** Addition modulo 2^32. */
  function Plus(x: Word, y: Word): Word { x + y }

  function Xor4(x: Word, y: Word, z: Word, u: Word): Word { x ^ y ^ z ^ u }

  function Ch(x: Word, y: Word, z: Word): Word { (x & y) ^ (!x & z) }
  function Parity(x: Word, y: Word, z: Word): Word { x ^ y ^ z }
  function Maj(x: Word, y: Word, z: Word): Word { (x & y) ^ (x & z) ^ (y & z) }

  function F(t: nat, x: Word, y: Word, z: Word): Word {
    if t < 20 then Ch(x, y, z)
    else if t < 40 then Parity(x, y, z)
    else if t < 60 then Maj(x, y, z)
    else Parity(x, y, z)
  }

  function K(t: nat): Word {
    if t < 20 then 0x5a827999
    else if t < 40 then 0x6ed9eba1
    else if t < 60 then 0x8f1bbcdc
    else 0xca62c1d6
  }

  const INITIAL_HASH := Vars(0x67452301, 0xefcdab89, 0x98badcfe, 0x10325476, 0xc3d2e1f0)

  /** The message schedule of one block of sixteen words. */
  function Schedule(m: seq<Word>, t: nat): Word
    requires |m| == 16
  {
    if t < 16 then m[t]
    else Rotl1(Xor4(Schedule(m, t - 3), Schedule(m, t - 8), Schedule(m, t - 14), Schedule(m, t - 16)))
  }

  /** The sum of five words modulo 2^32. */
  function Sum5(f: Word, k: Word, r: Word, e: Word, w: Word): Word {
    Plus(Plus(f, k), Plus(Plus(r, e), w))
  }

  function Round(v: Vars, t: nat, w: Word): Vars {
    Vars(Sum5(F(t, v.b, v.c, v.d), K(t), Rotl5(v.a), v.e, w), v.a, Rotl30(v.b), v.c, v.d)
  }

  const ROUND_COUNT: nat := 80

  /** The working variables after the first `t` rounds. */
  function Rounds(m: seq<Word>, h: Vars, t: nat): Vars
    requires |m| == 16
  {
    if t == 0 then h else Round(Rounds(m, h, t - 1), t - 1, Schedule(m, t - 1))
  }

  function Add(h: Vars, v: Vars): Vars {
    Vars(Plus(h.a, v.a), Plus(h.b, v.b), Plus(h.c, v.c), Plus(h.d, v.d), Plus(h.e, v.e))
  }

  function HashBlock(h: Vars, m: seq<Word>): Vars
    requires |m| == 16
  {
    Add(h, Rounds(m, h, ROUND_COUNT))
  }

  /** Four bytes, most significant first. */
  function BigEndian(b0: Byte, b1: Byte, b2: Byte, b3: Byte): Word {
    ((b0 as Word) << 24) | ((b1 as Word) << 16) | ((b2 as Word) << 8) | (b3 as Word)
  }

  function WordsOf(block: seq<Byte>): (m: seq<Word>)
    requires |block| == 64
    ensures |m| == 16
  {
    seq(16, i requires 0 <= i < 16 =>
              BigEndian(block[4 * i], block[4 * i + 1], block[4 * i + 2], block[4 * i + 3]))
  }

  /** The hash after all whole blocks of `bytes`. */
  function HashBytes(bytes: seq<Byte>): Vars {
    if |bytes| < 64 then INITIAL_HASH
    else
      var k := |bytes| - |bytes| % 64;
      HashBlock(HashBytes(bytes[..k - 64]), WordsOf(bytes[k - 64..k]))
  }

  function Flag(b: bool, mask: Byte): Byte {
    if b then mask else 0
  }

  /** The low eight bits of a number. */
  function ByteOf(n: nat): Byte {
    Flag(n % 2 == 1, 0x01) | Flag(n / 2 % 2 == 1, 0x02) | Flag(n / 4 % 2 == 1, 0x04) | Flag(n / 8 % 2 == 1, 0x08)
    | Flag(n / 16 % 2 == 1, 0x10) | Flag(n / 32 % 2 == 1, 0x20) | Flag(n / 64 % 2 == 1, 0x40) | Flag(n / 128 % 2 == 1, 0x80)
  }

  /** The eight low base-256 digits of a number, most significant first. */
  function LengthDigits(n: nat): (s: seq<nat>)
    ensures |s| == 8
  {
    [n / 0x100_0000_0000_0000 % 256, n / 0x1_0000_0000_0000 % 256, n / 0x100_0000_0000 % 256,
     n / 0x1_0000_0000 % 256, n / 0x100_0000 % 256, n / 0x1_0000 % 256, n / 0x100 % 256, n % 256]
  }

  /** A 64-bit number as eight bytes, most significant first. */
  function Length64(n: nat): (s: seq<Byte>)
    ensures |s| == 8
  {
    var d := LengthDigits(n);
    [ByteOf(d[0]), ByteOf(d[1]), ByteOf(d[2]), ByteOf(d[3]), ByteOf(d[4]), ByteOf(d[5]), ByteOf(d[6]), ByteOf(d[7])]
  }

  function Zeros(n: nat): (z: seq<Byte>)
    ensures |z| == n
  {
    seq(n, _ => 0)
  }

  /** How many zero bytes pad a message of n bytes. */
  function ZeroCount(n: nat): (z: nat)
    ensures z < 64
  {
    (119 - n % 64) % 64
  }

  /** The padding of a message of `n` bytes whose length field says `count` bytes. */
  function Padding(n: nat, count: nat): (p: seq<Byte>)
    ensures |p| == 1 + ZeroCount(n) + 8
  {
    [0x80] + Zeros(ZeroCount(n)) + Length64(8 * count)
  }

  function WordBytes(w: Word): seq<Byte> {
    [((w >> 24) & 0xff) as Byte, ((w >> 16) & 0xff) as Byte, ((w >> 8) & 0xff) as Byte, (w & 0xff) as Byte]
  }

  function Digest(h: Vars): seq<Byte> {
    WordBytes(h.a) + WordBytes(h.b) + WordBytes(h.c) + WordBytes(h.d) + WordBytes(h.e)
  }

  /** The digest of a message of fewer than 2^61 bytes. */
  function Sha1(message: seq<Byte>): seq<Byte> {
    Digest(HashBytes(message + Padding(|message|, |message|)))
  }
}
