/** SHA-256 as FIPS 180-4 states it, on whole messages.  Nothing here is buffered or updated in place:
    this module is the reference that the streaming context of module Sha256 is proved against. */
module Sha256Spec {

  newtype byte = x: int | 0 <= x < 256

  type Word = bv32

  const TWO_TO_THE_64 := 0x1_0000_0000_0000_0000

  /** The round constants of section 4.2.2, eight to a row. */
  const K_ROWS: seq<seq<Word>> := [
    [0x428a2f98, 0x71374491, 0xb5c0fbcf, 0xe9b5dba5, 0x3956c25b, 0x59f111f1, 0x923f82a4, 0xab1c5ed5],
    [0xd807aa98, 0x12835b01, 0x243185be, 0x550c7dc3, 0x72be5d74, 0x80deb1fe, 0x9bdc06a7, 0xc19bf174],
    [0xe49b69c1, 0xefbe4786, 0x0fc19dc6, 0x240ca1cc, 0x2de92c6f, 0x4a7484aa, 0x5cb0a9dc, 0x76f988da],
    [0x983e5152, 0xa831c66d, 0xb00327c8, 0xbf597fc7, 0xc6e00bf3, 0xd5a79147, 0x06ca6351, 0x14292967],
    [0x27b70a85, 0x2e1b2138, 0x4d2c6dfc, 0x53380d13, 0x650a7354, 0x766a0abb, 0x81c2c92e, 0x92722c85],
    [0xa2bfe8a1, 0xa81a664b, 0xc24b8b70, 0xc76c51a3, 0xd192e819, 0xd6990624, 0xf40e3585, 0x106aa070],
    [0x19a4c116, 0x1e376c08, 0x2748774c, 0x34b0bcb5, 0x391c0cb3, 0x4ed8aa4a, 0x5b9cca4f, 0x682e6ff3],
    [0x748f82ee, 0x78a5636f, 0x84c87814, 0x8cc70208, 0x90befffa, 0xa4506ceb, 0xbef9a3f7, 0xc67178f2]
  ]

  function K(t: nat): Word
    requires t < 64
  {
    K_ROWS[t / 8][t % 8]
  }

  /** The eight words of a hash value, and of the working variables a..h. */
  datatype Words = Words(a: Word, b: Word, c: Word, d: Word, e: Word, f: Word, g: Word, h: Word)

  /** Section 5.3.3. */
  const H0 := Words(0x6a09e667, 0xbb67ae85, 0x3c6ef372, 0xa54ff53a, 0x510e527f, 0x9b05688c, 0x1f83d9ab, 0x5be0cd19)

  /** Addition modulo 2^32. */
  function Plus(x: Word, y: Word): Word { x + y }

  // Section 4.1.2.

  function Ch(x: Word, y: Word, z: Word): Word { (x & y) ^ (!x & z) }
  function Maj(x: Word, y: Word, z: Word): Word { (x & y) ^ (x & z) ^ (y & z) }
  function BigSigma0(x: Word): Word { x.RotateRight(2) ^ x.RotateRight(13) ^ x.RotateRight(22) }
  function BigSigma1(x: Word): Word { x.RotateRight(6) ^ x.RotateRight(11) ^ x.RotateRight(25) }
  function SmallSigma0(x: Word): Word { x.RotateRight(7) ^ x.RotateRight(18) ^ (x >> 3) }
  function SmallSigma1(x: Word): Word { x.RotateRight(17) ^ x.RotateRight(19) ^ (x >> 10) }

  // Section 5.1.1.

  /** The `width` low-order bytes of n, most significant first. */
  function BigEndian(n: nat, width: nat): (r: seq<byte>)
    ensures |r| == width
  {
    if width == 0 then [] else BigEndian(n / 256, width - 1) + [(n % 256) as byte]
  }

  function FromBigEndian(s: seq<byte>): nat
  {
    if s == [] then 0 else 256 * FromBigEndian(s[..|s| - 1]) + s[|s| - 1] as nat
  }

  function Zeros(n: nat): (r: seq<byte>)
    ensures |r| == n
  {
    seq(n, _ => 0)
  }

  /** The number of zero bytes: the least that puts the length field at the end of a 64-byte block. */
  function ZeroCount(len: nat): (k: nat)
    ensures k < 64 && (len + 1 + k + 8) % 64 == 0
  {
    (55 - len) % 64
  }

  function Padding(len: nat): (r: seq<byte>)
    ensures |r| == 1 + ZeroCount(len) + 8
  {
    [0x80] + Zeros(ZeroCount(len)) + BigEndian((8 * len) % TWO_TO_THE_64, 8)
  }

  function Pad(m: seq<byte>): (r: seq<byte>)
    ensures |r| % 64 == 0
  {
    m + Padding(|m|)
  }

  // Sections 5.2.1 and 6.2.2.

  function WordAt(block: seq<byte>, t: nat): Word
    requires 4 * t + 4 <= |block|
  {
    Join(block[4 * t] as bv8, block[4 * t + 1] as bv8, block[4 * t + 2] as bv8, block[4 * t + 3] as bv8)
  }

  function Join(b0: bv8, b1: bv8, b2: bv8, b3: bv8): Word {
    ((b0 as Word) << 24) | ((b1 as Word) << 16) | ((b2 as Word) << 8) | (b3 as Word)
  }

  /** The message schedule. */
  function W(block: seq<byte>, t: nat): Word
    requires |block| == 64 && t < 64
  {
    if t < 16 then WordAt(block, t)
    else ScheduleWord(W(block, t - 2), W(block, t - 7), W(block, t - 15), W(block, t - 16))
  }

  function ScheduleWord(w2: Word, w7: Word, w15: Word, w16: Word): Word {
    Plus(Plus(Plus(SmallSigma1(w2), w7), SmallSigma0(w15)), w16)
  }

  function Round(v: Words, k: Word, w: Word): Words {
    var t1 := Plus(Plus(Plus(Plus(v.h, BigSigma1(v.e)), Ch(v.e, v.f, v.g)), k), w);
    var t2 := Plus(BigSigma0(v.a), Maj(v.a, v.b, v.c));
    Words(Plus(t1, t2), v.a, v.b, v.c, Plus(v.d, t1), v.e, v.f, v.g)
  }

  /** The working variables after the first t rounds. */
  function Rounds(h: Words, block: seq<byte>, t: nat): Words
    requires |block| == 64 && t <= 64
  {
    if t == 0 then h else Round(Rounds(h, block, t - 1), K(t - 1), W(block, t - 1))
  }

  function Add(x: Words, y: Words): Words {
    Words(Plus(x.a, y.a), Plus(x.b, y.b), Plus(x.c, y.c), Plus(x.d, y.d),
          Plus(x.e, y.e), Plus(x.f, y.f), Plus(x.g, y.g), Plus(x.h, y.h))
  }

  function Compress(h: Words, block: seq<byte>): Words
    requires |block| == 64
  {
    Add(h, Rounds(h, block, 64))
  }

  /** The hash value after every block of m. */
  function HashBlocks(m: seq<byte>): Words
    requires |m| % 64 == 0
  {
    if m == [] then H0 else Compress(HashBlocks(m[..|m| - 64]), m[|m| - 64..])
  }

  function WordBytes(w: Word): (r: seq<byte>)
    ensures |r| == 4
  {
    [ByteOf(w >> 24), ByteOf(w >> 16), ByteOf(w >> 8), ByteOf(w)]
  }

  function LowByte(w: Word): bv8 {
    (w & 0xff) as bv8
  }

  function ByteOf(w: Word): byte {
    LowByte(w) as byte
  }

  function Digest(words: seq<Word>): (r: seq<byte>)
    ensures |r| == 4 * |words|
  {
    if words == [] then [] else Digest(words[..|words| - 1]) + WordBytes(words[|words| - 1])
  }

  /** SHA-256 of a whole message. */
  function Sha256(m: seq<byte>): (r: seq<byte>)
    ensures |r| == 32
  {
    var h := HashBlocks(Pad(m));
    Digest([h.a, h.b, h.c, h.d, h.e, h.f, h.g, h.h])
  }

  // What the word-level functions mean.

  /** Ch takes each bit from y where x is set, and from z elsewhere. */
  lemma ChSelects(x: Word, y: Word, z: Word)
    ensures Ch(x, y, z) & x == y & x && Ch(x, y, z) & !x == z & !x
  {
  }

  /** Maj takes each bit that x and y agree on, and z's bit where they differ. */
  lemma MajVotes(x: Word, y: Word, z: Word)
    ensures Maj(x, y, z) & !(x ^ y) == x & !(x ^ y) && Maj(x, y, z) & (x ^ y) == z & (x ^ y)
  {
  }

  /** A word joined from four bytes is taken apart into the same four bytes. */
  lemma JoinRoundTrip(b0: bv8, b1: bv8, b2: bv8, b3: bv8)
    ensures
      var w := Join(b0, b1, b2, b3);
      LowByte(w >> 24) == b0 && LowByte(w >> 16) == b1 && LowByte(w >> 8) == b2 && LowByte(w) == b3
  {
  }

  lemma BytesOfJoin(b0: bv8, b1: bv8, b2: bv8, b3: bv8)
    ensures WordBytes(Join(b0, b1, b2, b3)) == [b0 as byte, b1 as byte, b2 as byte, b3 as byte]
  {
    hide Join, LowByte;
    JoinRoundTrip(b0, b1, b2, b3);
  }

  lemma NextBits(v: bv8)
    requires v != 255
    ensures (v + 1) as int == v as int + 1
  {
  }

  /** Every number below 256 is the value of eight bits. */
  lemma {:induction false} BitsOf(n: nat) returns (v: bv8)
    requires n < 256
    ensures v as int == n
  {
    if n == 0 {
      v := 0;
    } else {
      v := BitsOf(n - 1);
      NextBits(v);
      v := v + 1;
    }
  }

  lemma ThroughInt(v: bv8)
    ensures (v as int) as bv8 == v
  {
  }

  lemma ThroughBits(b: byte)
    ensures (b as bv8) as byte == b
  {
    var v := BitsOf(b as int);
    ThroughInt(v);
  }

  /** Writing a word that was read from a block gives the bytes it was read from, in their order. */
  lemma WordRoundTrip(block: seq<byte>, t: nat)
    requires 4 * t + 4 <= |block|
    ensures WordBytes(WordAt(block, t)) == block[4 * t..4 * t + 4]
  {
    hide Join, WordBytes;
    BytesOfJoin(block[4 * t] as bv8, block[4 * t + 1] as bv8, block[4 * t + 2] as bv8, block[4 * t + 3] as bv8);
    ThroughBits(block[4 * t]);
    ThroughBits(block[4 * t + 1]);
    ThroughBits(block[4 * t + 2]);
    ThroughBits(block[4 * t + 3]);
  }

  // The lower-case hexadecimal rendering of a digest.

  function HexDigit(n: nat): (c: char)
    requires n < 16
    ensures '0' <= c <= '9' || 'a' <= c <= 'f'
  {
    "0123456789abcdef"[n]
  }

  function Hex(s: seq<byte>): (r: string)
    ensures |r| == 2 * |s|
    ensures forall i | 0 <= i < |r| :: '0' <= r[i] <= '9' || 'a' <= r[i] <= 'f'
  {
    if s == [] then ""
    else
      var b := s[|s| - 1] as int;
      Hex(s[..|s| - 1]) + [HexDigit(b / 16), HexDigit(b % 16)]
  }

  /** The two digits of a byte, the high one first. */
  function DigitsOf(b: byte): string {
    ["0123456789abcdef"[b as int / 16], "0123456789abcdef"[b as int % 16]]
  }

  /** Each byte becomes its two digits, in order. */
  lemma {:induction false} HexAt(s: seq<byte>, i: nat)
    requires i < |s|
    ensures Hex(s)[2 * i..2 * i + 2] == DigitsOf(s[i])
  {
    if i < |s| - 1 {
      HexAt(s[..|s| - 1], i);
    }
  }

  // Padding can be undone.

  lemma {:induction false} BigEndianValue(n: nat, width: nat, bound: nat)
    requires bound == Pow256(width)
    ensures FromBigEndian(BigEndian(n, width)) == n % bound
  {
    if width == 0 {
      assert n % 1 == 0;
    } else {
      var b' := Pow256(width - 1);
      BigEndianValue(n / 256, width - 1, b');
      assert BigEndian(n, width)[..width - 1] == BigEndian(n / 256, width - 1);
      ModSplit(n, b');
    }
  }

  function Pow256(k: nat): (r: nat)
    ensures r > 0
  {
    if k == 0 then 1 else 256 * Pow256(k - 1)
  }

  lemma ModSplit(n: nat, b: nat)
    requires b > 0
    ensures n % (256 * b) == 256 * ((n / 256) % b) + n % 256
  {
    var q := n / 256 / b;
    var r := 256 * ((n / 256) % b) + n % 256;
    assert n / 256 == q * b + (n / 256) % b;
    assert n == q * (256 * b) + r;
    assert 0 <= r < 256 * b;
    DivModUnique(n, 256 * b, q, r);
  }

  lemma DivModUnique(n: nat, d: nat, q: nat, r: nat)
    requires d > 0 && n == q * d + r && r < d
    ensures n % d == r && n / d == q
  {
    var k := n / d - q;
    assert k * d == r - n % d by { assert n == (n / d) * d + n % d; }
    assert 0 < k * d + d < 2 * d;
    assert k == 0;
  }

  /** No two messages, of any lengths, have the same padded form. */
  lemma PadInjective(m1: seq<byte>, m2: seq<byte>)
    requires Pad(m1) == Pad(m2)
    ensures m1 == m2
  {
    LengthField(m1);
    LengthField(m2);
    assert 8 * |m1| % TWO_TO_THE_64 == 8 * |m2| % TWO_TO_THE_64;
    assert -64 < |m1| - |m2| < 64;
    SameLength(8 * |m1|, 8 * |m2|);
    assert Pad(m1)[..|m1|] == m1;
    assert Pad(m2)[..|m2|] == m2;
  }

  lemma LengthField(m: seq<byte>)
    ensures FromBigEndian(Pad(m)[|Pad(m)| - 8..]) == 8 * |m| % TWO_TO_THE_64
  {
    hide BigEndian, FromBigEndian;
    var n := 8 * |m| % TWO_TO_THE_64;
    assert Pad(m)[|Pad(m)| - 8..] == BigEndian(n, 8);
    Pow256Of8();
    BigEndianValue(n, 8, TWO_TO_THE_64);
  }

  lemma Pow256Of8()
    ensures Pow256(8) == TWO_TO_THE_64
  {
    assert Pow256(2) == 0x1_0000;
    assert Pow256(4) == 0x1_0000_0000;
    assert Pow256(6) == 0x1_0000_0000_0000;
  }

  lemma SameLength(x: nat, y: nat)
    requires -512 < x - y < 512
    requires x % TWO_TO_THE_64 == y % TWO_TO_THE_64
    ensures x == y
  {
  }
}
