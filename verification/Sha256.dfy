/** The streaming SHA-256 context of src/minisha256.c: a 64-byte buffer, a chaining value and a bit counter
    that are updated in place, byte by byte. */
module Sha256 {
  import opened Sha256Spec

  // The macros of the C source, with rotation spelled as two shifts.

  function Ep0(x: Word): (r: Word)
    ensures r == BigSigma0(x)
  {
    ((x >> 2) | (x << 30)) ^ ((x >> 13) | (x << 19)) ^ ((x >> 22) | (x << 10))
  }

  function Ep1(x: Word): (r: Word)
    ensures r == BigSigma1(x)
  {
    ((x >> 6) | (x << 26)) ^ ((x >> 11) | (x << 21)) ^ ((x >> 25) | (x << 7))
  }

  function Sig0(x: Word): (r: Word)
    ensures r == SmallSigma0(x)
  {
    ((x >> 7) | (x << 25)) ^ ((x >> 18) | (x << 14)) ^ (x >> 3)
  }

  function Sig1(x: Word): (r: Word)
    ensures r == SmallSigma1(x)
  {
    ((x >> 17) | (x << 15)) ^ ((x >> 19) | (x << 13)) ^ (x >> 10)
  }

  lemma ScheduleStep(data: seq<byte>, t: nat)
    requires |data| == 64 && t < 64
    ensures W(data, t) ==
      if t < 16 then WordAt(data, t)
      else ScheduleWord(W(data, t - 2), W(data, t - 7), W(data, t - 15), W(data, t - 16))
  {
    hide ScheduleWord, WordAt;
  }

  /** The message schedule array m. */
  method Schedule(data: seq<byte>) returns (m: array<Word>)
    requires |data| == 64
    ensures fresh(m) && m.Length == 64
    ensures forall t | 0 <= t < 64 :: m[t] == W(data, t)
  {
    hide Sig0, Sig1, SmallSigma0, SmallSigma1, Plus, WordAt, W;
    m := new Word[64];
    var i := 0;
    while i < 16
      invariant 0 <= i <= 16
      invariant forall t | 0 <= t < i :: m[t] == W(data, t)
    {
      m[i] := WordAt(data, i);
      ScheduleStep(data, i);
      i := i + 1;
    }
    while i < 64
      invariant 16 <= i <= 64
      invariant forall t | 0 <= t < i :: m[t] == W(data, t)
    {
      ScheduleStep(data, i);
      m[i] := Plus(Plus(Plus(Sig1(m[i - 2]), m[i - 7]), Sig0(m[i - 15])), m[i - 16]);
      i := i + 1;
    }
  }

  lemma RoundsStep(h: Words, data: seq<byte>, t: nat)
    requires |data| == 64 && t < 64
    ensures Rounds(h, data, 0) == h
    ensures Rounds(h, data, t + 1) == Round(Rounds(h, data, t), K(t), W(data, t))
  {
    hide Round, W, Plus, K;
  }

  /** Writes the four bytes of a word, most significant first. */
  method PutWord(hash: array<byte>, at: nat, w: Word)
    requires at + 4 <= hash.Length
    modifies hash
    ensures hash[..at] == old(hash[..at]) && hash[at..at + 4] == WordBytes(w)
  {
    hide ByteOf;
    hash[at] := ByteOf(w >> 24);
    hash[at + 1] := ByteOf(w >> 16);
    hash[at + 2] := ByteOf(w >> 8);
    hash[at + 3] := ByteOf(w);
  }

  /** The streaming invariant: the chaining value covers every full block of m, the buffer holds the rest, and the
      counter has the bits of the full blocks, modulo 2^64. */
  ghost predicate Covers(m: seq<byte>, chain: Words, buffered: seq<byte>, bitlen: nat) {
    var full := |m| - |m| % 64;
    chain == HashBlocks(m[..full]) && buffered == m[full..] && bitlen == 8 * full % TWO_TO_THE_64
  }

  /** The counter may wrap before or after an addition. */
  lemma AddModulo(a: nat, b: nat)
    ensures (a % TWO_TO_THE_64 + b) % TWO_TO_THE_64 == (a + b) % TWO_TO_THE_64
  {
    var q, x := a / TWO_TO_THE_64, a % TWO_TO_THE_64 + b;
    DivModUnique(a + b, TWO_TO_THE_64, q + x / TWO_TO_THE_64, x % TWO_TO_THE_64);
  }

  lemma NextPosition(n: nat)
    ensures (n + 1) % 64 == if n % 64 == 63 then 0 else n % 64 + 1
  {
  }

  lemma AbsorbByte(m: seq<byte>, b: byte, chain: Words, buffered: seq<byte>, bitlen: nat)
    requires Covers(m, chain, buffered, bitlen)
    ensures |buffered| < 63 ==> Covers(m + [b], chain, buffered + [b], bitlen)
    ensures |buffered| == 63 ==>
      Covers(m + [b], Compress(chain, buffered + [b]), [], (bitlen + 512) % TWO_TO_THE_64)
  {
    hide Compress, HashBlocks;
    var full := |m| - |m| % 64;
    var m' := m + [b];
    NextPosition(|m|);
    if |buffered| < 63 {
      assert m'[..full] == m[..full] && m'[full..] == m[full..] + [b];
    } else {
      AddModulo(8 * full, 512);
      assert m[..full] + (buffered + [b]) == m';
      AppendBlock(m[..full], buffered + [b]);
      assert m'[..|m'|] == m' && m'[|m'|..] == [];
    }
  }

  class Context {
    const data: array<byte>
    /** The eight words of the chaining value. */
    var state: seq<Word>
    var bitlen: nat
    var datalen: nat
    /** The bytes passed to Update since Init. */
    ghost var absorbed: seq<byte>

    ghost predicate Allocated()
      reads this
    {
      data.Length == 64 && |state| == 8
    }

    ghost function Chain(): Words
      requires |state| == 8
      reads this
    {
      Words(state[0], state[1], state[2], state[3], state[4], state[5], state[6], state[7])
    }

    ghost predicate Valid()
      reads this, data
    {
      Allocated() && datalen < 64 && Covers(absorbed, Chain(), data[..datalen], bitlen)
    }

    constructor ()
      ensures fresh(data)
      ensures Allocated()
    {
      data := new byte[64];
      state := seq(8, _ => 0);
    }

    method Init()
      requires Allocated()
      modifies this
      ensures Valid() && absorbed == []
    {
      hide Compress, Rounds;
      datalen := 0;
      bitlen := 0;
      state := [0x6a09e667, 0xbb67ae85, 0x3c6ef372, 0xa54ff53a, 0x510e527f, 0x9b05688c, 0x1f83d9ab, 0x5be0cd19];
      absorbed := [];
    }

    /** One compression of the buffer into the chaining value. */
    method Transform()
      requires Allocated()
      modifies `state
      ensures Allocated() && Chain() == Compress(old(Chain()), data[..])
    {
      hide Ep0, Ep1, BigSigma0, BigSigma1, Ch, Maj, Plus, K, W, Rounds;
      var m := Schedule(data[..]);
      var a, b, c, d := state[0], state[1], state[2], state[3];
      var e, f, g, h := state[4], state[5], state[6], state[7];
      ghost var start, block := Chain(), data[..];
      RoundsStep(start, block, 0);
      var i := 0;
      while i < 64
        invariant 0 <= i <= 64
        invariant |state| == 8 && Chain() == start && data[..] == block
        invariant forall t | 0 <= t < 64 :: m[t] == W(block, t)
        invariant Words(a, b, c, d, e, f, g, h) == Rounds(start, block, i)
      {
        RoundsStep(start, block, i);
        var t1 := Plus(Plus(Plus(Plus(h, Ep1(e)), Ch(e, f, g)), K(i)), m[i]);
        var t2 := Plus(Ep0(a), Maj(a, b, c));
        h := g;
        g := f;
        f := e;
        e := Plus(d, t1);
        d := c;
        c := b;
        b := a;
        a := Plus(t1, t2);
        i := i + 1;
      }
      state := [Plus(state[0], a), Plus(state[1], b), Plus(state[2], c), Plus(state[3], d),
                Plus(state[4], e), Plus(state[5], f), Plus(state[6], g), Plus(state[7], h)];
      assert Chain() == Add(start, Words(a, b, c, d, e, f, g, h));
    }

    method Update(buf: seq<byte>)
      requires Valid()
      modifies this, data
      ensures Valid() && absorbed == old(absorbed) + buf
    {
      hide Valid;
      var i := 0;
      while i < |buf|
        invariant 0 <= i <= |buf|
        invariant Valid() && absorbed == old(absorbed) + buf[..i]
      {
        UpdateByte(buf[i]);
        i := i + 1;
      }
      assert buf[..i] == buf;
    }

    /** The body of the loop in Update. */
    method UpdateByte(b: byte)
      requires Valid()
      modifies this, data
      ensures Valid() && absorbed == old(absorbed) + [b]
    {
      hide Covers, Compress;
      ghost var buffered := data[..datalen];
      AbsorbByte(absorbed, b, Chain(), buffered, bitlen);
      data[datalen] := b;
      datalen := datalen + 1;
      absorbed := absorbed + [b];
      assert data[..datalen] == buffered + [b];
      if datalen == 64 {
        assert data[..] == data[..datalen];
        Transform();
        bitlen := (bitlen + 512) % TWO_TO_THE_64;
        datalen := 0;
        assert data[..datalen] == [];
      }
    }

    /** Writes the 0x80 byte and zeros up to `end`. */
    method PadTo(end: nat)
      requires Allocated() && datalen < end <= 64
      modifies data
      ensures data[..end] == old(data[..datalen]) + [0x80] + Zeros(end - datalen - 1)
    {
      var i := datalen;
      data[i] := 0x80;
      i := i + 1;
      while i < end
        invariant datalen < i <= end
        invariant data[..i] == old(data[..datalen]) + [0x80] + Zeros(i - datalen - 1)
      {
        data[i] := 0;
        i := i + 1;
      }
    }

    /** Writes the bit counter, big-endian, into the last eight bytes of the buffer. */
    method AppendLength()
      requires Allocated()
      modifies data
      ensures data[..] == old(data[..56]) + BigEndian(bitlen, 8)
    {
      forall i | 0 <= i < 8
        ensures BigEndian(bitlen, 8)[i] as int == bitlen / Pow256(7 - i) % 256
      {
        BigEndianAt(bitlen, 8, i);
      }
      hide BigEndian;
      data[63] := (bitlen % 0x100) as byte;
      data[62] := (bitlen / 0x100 % 0x100) as byte;
      data[61] := (bitlen / 0x1_0000 % 0x100) as byte;
      data[60] := (bitlen / 0x100_0000 % 0x100) as byte;
      data[59] := (bitlen / 0x1_0000_0000 % 0x100) as byte;
      data[58] := (bitlen / 0x100_0000_0000 % 0x100) as byte;
      data[57] := (bitlen / 0x1_0000_0000_0000 % 0x100) as byte;
      data[56] := (bitlen / 0x100_0000_0000_0000 % 0x100) as byte;
      assert Pow256(1) == 0x100 && Pow256(2) == 0x1_0000 && Pow256(3) == 0x100_0000 && Pow256(4) == 0x1_0000_0000;
      assert Pow256(5) == 0x100_0000_0000 && Pow256(6) == 0x1_0000_0000_0000 && Pow256(7) == 0x100_0000_0000_0000;
      assert data[56..] == BigEndian(bitlen, 8);
      assert data[..] == data[..56] + data[56..];
    }

    /** Serialises the chaining value. */
    method Emit(hash: array<byte>)
      requires Allocated() && hash.Length == 32 && hash != data
      modifies hash
      ensures hash[..] == Digest(state)
    {
      hide ByteOf, WordBytes;
      var i := 0;
      while i < 8
        invariant 0 <= i <= 8
        invariant hash[..4 * i] == Digest(state[..i])
      {
        PutWord(hash, 4 * i, state[i]);
        assert hash[..4 * i + 4] == hash[..4 * i] + hash[4 * i..4 * i + 4];
        assert state[..i + 1][..i] == state[..i];
        i := i + 1;
      }
      assert hash[..32] == hash[..] && state[..8] == state;
    }

    method ClearPrefix()
      requires Allocated()
      modifies data
      ensures data[..56] == Zeros(56)
    {
      forall k | 0 <= k < 56 { data[k] := 0; }
    }

    method Final(hash: array<byte>)
      requires Valid()
      requires hash.Length == 32 && hash != data
      modifies this, data, hash
      ensures hash[..] == Sha256Spec.Sha256(old(absorbed))
      ensures Allocated() && bitlen == 0 && datalen == 0
      ensures (forall i | 0 <= i < 64 :: data[i] == 0) && state == seq(8, _ => 0)
    {
      hide Covers, Compress, HashBlocks, Digest, BigEndian, Sha256Spec.Sha256, Zeros;
      ghost var chain, buffered := Chain(), data[..datalen];
      PaddedTail(absorbed, chain, buffered, bitlen);
      if datalen < 56 {
        PadTo(56);
      } else {
        PadTo(64);
        assert data[..64] == data[..];
        Transform();
        ClearPrefix();
      }
      bitlen := (bitlen + datalen * 8) % TWO_TO_THE_64;
      AppendLength();
      Transform();
      DigestOfChain(absorbed, state);
      Emit(hash);
      forall k | 0 <= k < 64 { data[k] := 0; }
      state := seq(8, _ => 0);
      bitlen := 0;
      datalen := 0;
    }
  }

  lemma {:induction false} BigEndianAt(n: nat, width: nat, i: nat)
    requires i < width
    ensures BigEndian(n, width)[i] as int == n / Pow256(width - 1 - i) % 256
  {
    if i < width - 1 {
      BigEndianAt(n / 256, width - 1, i);
      DivDiv(n, Pow256(width - 2 - i));
    }
  }

  lemma DivDiv(n: nat, b: nat)
    requires b > 0
    ensures n / 256 / b == n / (256 * b)
  {
    var q := n / 256 / b;
    var r := 256 * ((n / 256) % b) + n % 256;
    assert n / 256 == q * b + (n / 256) % b;
    assert n == q * (256 * b) + r;
    DivModUnique(n, 256 * b, q, r);
  }

  lemma AppendBlock(m: seq<byte>, block: seq<byte>)
    requires |m| % 64 == 0 && |block| == 64
    ensures HashBlocks(m + block) == Compress(HashBlocks(m), block)
  {
    hide Compress;
    var all := m + block;
    assert all[..|all| - 64] == m && all[|all| - 64..] == block;
  }

  /** The bytes that Final appends to the buffered ones, cut where the first block ends. */
  lemma PaddingShape(len: nat, bitlen: nat)
    requires bitlen == 8 * (len - len % 64) % TWO_TO_THE_64
    ensures
      var length := BigEndian((bitlen + len % 64 * 8) % TWO_TO_THE_64, 8);
      Padding(len) ==
        if len % 64 < 56 then [0x80] + Zeros(56 - len % 64 - 1) + length
        else [0x80] + Zeros(64 - len % 64 - 1) + (Zeros(56) + length)
  {
    hide BigEndian, Zeros, ZeroCount;
    BitCount(len, bitlen);
    ZeroCountIs(len);
    if len % 64 >= 56 {
      var length := BigEndian((bitlen + len % 64 * 8) % TWO_TO_THE_64, 8);
      ZerosConcat(64 - len % 64 - 1, 56);
      assert [0x80] + Zeros(64 - len % 64 - 1) + (Zeros(56) + length)
          == [0x80] + (Zeros(64 - len % 64 - 1) + Zeros(56)) + length;
    }
  }

  lemma BitCount(len: nat, bitlen: nat)
    requires bitlen == 8 * (len - len % 64) % TWO_TO_THE_64
    ensures (bitlen + len % 64 * 8) % TWO_TO_THE_64 == 8 * len % TWO_TO_THE_64
  {
    var full := len - len % 64;
    AddModulo(8 * full, len % 64 * 8);
    assert 8 * full + len % 64 * 8 == 8 * len;
  }

  lemma ZeroCountIs(len: nat)
    ensures ZeroCount(len) == if len % 64 < 56 then 55 - len % 64 else 119 - len % 64
  {
  }

  lemma ZerosConcat(a: nat, b: nat)
    ensures Zeros(a) + Zeros(b) == Zeros(a + b)
  {
  }

  lemma DigestOfChain(m: seq<byte>, state: seq<Word>)
    requires |state| == 8
    requires HashBlocks(Pad(m)) ==
      Words(state[0], state[1], state[2], state[3], state[4], state[5], state[6], state[7])
    ensures Sha256Spec.Sha256(m) == Digest(state)
  {
    hide Digest, HashBlocks, Pad;
    assert state == [state[0], state[1], state[2], state[3], state[4], state[5], state[6], state[7]];
  }

  /** What Final still has to compress: one block when fewer than 56 bytes are buffered, two otherwise. */
  lemma PaddedTail(m: seq<byte>, chain: Words, buffered: seq<byte>, bitlen: nat)
    requires Covers(m, chain, buffered, bitlen)
    ensures
      var length := BigEndian((bitlen + |buffered| * 8) % TWO_TO_THE_64, 8);
      if |buffered| < 56 then
        HashBlocks(Pad(m)) == Compress(chain, buffered + [0x80] + Zeros(56 - |buffered| - 1) + length)
      else
        HashBlocks(Pad(m)) ==
          Compress(Compress(chain, buffered + [0x80] + Zeros(64 - |buffered| - 1)), Zeros(56) + length)
  {
    hide Compress, HashBlocks, BigEndian, Padding, Zeros;
    var r := |m| % 64;
    assert 0 <= r < 64 && |buffered| == r;
    FullLength(|m|, r);
    var full := m[..|m| - r];
    assert m == full + buffered;
    PaddingShape(|m|, bitlen);
    PaddedTailOf(full, buffered, BigEndian((bitlen + |buffered| * 8) % TWO_TO_THE_64, 8), Padding(|m|));
  }

  lemma FullLength(n: nat, r: nat)
    requires r == n % 64
    ensures r <= n && (n - r) % 64 == 0
  {
  }

  lemma PaddedTailOf(full: seq<byte>, buffered: seq<byte>, length: seq<byte>, padding: seq<byte>)
    requires |full| % 64 == 0 && |buffered| < 64 && |length| == 8
    requires padding ==
      if |buffered| < 56 then [0x80] + Zeros(56 - |buffered| - 1) + length
      else [0x80] + Zeros(64 - |buffered| - 1) + (Zeros(56) + length)
    ensures |full + buffered + padding| % 64 == 0
    ensures HashBlocks(full + buffered + padding) ==
      if |buffered| < 56 then
        Compress(HashBlocks(full), buffered + [0x80] + Zeros(56 - |buffered| - 1) + length)
      else
        Compress(Compress(HashBlocks(full), buffered + [0x80] + Zeros(64 - |buffered| - 1)), Zeros(56) + length)
  {
    hide HashBlocks, Compress, Zeros;
    if |buffered| < 56 {
      OneBlock(full, buffered, Zeros(56 - |buffered| - 1), length);
    } else {
      TwoBlocks(full, buffered, Zeros(64 - |buffered| - 1), Zeros(56) + length);
    }
  }

  lemma OneBlock(full: seq<byte>, buffered: seq<byte>, zeros: seq<byte>, length: seq<byte>)
    requires |full| % 64 == 0 && |buffered| + 1 + |zeros| + |length| == 64
    ensures |full + buffered + ([0x80] + zeros + length)| % 64 == 0
    ensures HashBlocks(full + buffered + ([0x80] + zeros + length)) ==
      Compress(HashBlocks(full), buffered + [0x80] + zeros + length)
  {
    hide HashBlocks, Compress;
    Regroup(full, buffered, [0x80], zeros, length);
    AppendBlock(full, buffered + [0x80] + zeros + length);
  }

  lemma TwoBlocks(full: seq<byte>, buffered: seq<byte>, zeros: seq<byte>, last: seq<byte>)
    requires |full| % 64 == 0 && |buffered| + 1 + |zeros| == 64 && |last| == 64
    ensures |full + buffered + ([0x80] + zeros + last)| % 64 == 0
    ensures HashBlocks(full + buffered + ([0x80] + zeros + last)) ==
      Compress(Compress(HashBlocks(full), buffered + [0x80] + zeros), last)
  {
    hide HashBlocks, Compress;
    var block := buffered + [0x80] + zeros;
    Regroup(full, buffered, [0x80], zeros, last);
    AppendBlock(full, block);
    AppendBlock(full + block, last);
  }

  lemma Regroup(a: seq<byte>, b: seq<byte>, c: seq<byte>, d: seq<byte>, e: seq<byte>)
    ensures a + b + (c + d + e) == a + (b + c + d + e) == a + (b + c + d) + e
  {
  }

  method HashToString(hash: array<byte>, output: array<char>)
    requires hash.Length == 32 && output.Length == 65
    modifies output
    ensures output[..64] == Hex(hash[..]) && output[64] == '\0'
  {
    var i := 0;
    while i < 32
      invariant 0 <= i <= 32
      invariant output[..2 * i] == Hex(hash[..i])
    {
      var b := hash[i] as int;
      output[2 * i] := HexDigit(b / 16);
      output[2 * i + 1] := HexDigit(b % 16);
      assert hash[..i + 1][..i] == hash[..i];
      assert output[..2 * i + 2] == output[..2 * i] + [output[2 * i], output[2 * i + 1]];
      i := i + 1;
    }
    output[64] := '\0';
    assert hash[..32] == hash[..];
  }

  method Sha256Buf(buf: seq<byte>, output: array<char>)
    requires output.Length == 65
    modifies output
    ensures output[..64] == Hex(Sha256Spec.Sha256(buf)) && output[64] == '\0'
  {
    hide Sha256Spec.Sha256, Hex;
    var hash := new byte[32];
    var context := new Context();
    context.Init();
    context.Update(buf);
    assert context.absorbed == buf;
    context.Final(hash);
    HashToString(hash, output);
  }

  function Concat(pieces: seq<seq<byte>>): seq<byte> {
    if pieces == [] then [] else Concat(pieces[..|pieces| - 1]) + pieces[|pieces| - 1]
  }

  /** However a message is cut into Update calls, Init, the Updates and Final give the hash of the whole message. */
  method HashPieces(pieces: seq<seq<byte>>) returns (hash: array<byte>)
    ensures hash[..] == Sha256Spec.Sha256(Concat(pieces))
  {
    hide Sha256Spec.Sha256;
    hash := new byte[32];
    var context := new Context();
    context.Init();
    var i := 0;
    while i < |pieces|
      invariant 0 <= i <= |pieces|
      invariant context.Valid() && context.absorbed == Concat(pieces[..i])
      invariant fresh(context) && fresh(context.data) && context.data != hash
    {
      context.Update(pieces[i]);
      assert pieces[..i + 1][..i] == pieces[..i];
      i := i + 1;
    }
    assert pieces[..i] == pieces;
    context.Final(hash);
  }
}
