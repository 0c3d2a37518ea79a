/**
  `MD5Digest`: the streaming interface around the block transform, against hashing the whole
  padded message block by block (sections 3.1, 3.2 and 3.4 of RFC 1321).

  The streaming part does not depend on what the block transform computes, so the transform
  is a field of the class; `Md5` below is the instance with the transform of the code.
 */
module Md5Digest {
  import opened Arithmetic
  import Rfc = Rfc1321
  import T = Md5Transform

  const BLOCK: nat := 64

  // ----- the definition -----

  /** Section 3.1 and 3.2: one bit, zeros up to 56 modulo 64 bytes, then the length in bits
      modulo 2^64, least significant byte first. */
  function Padded(message: seq<byte>): (p: seq<byte>)
    ensures |p| % BLOCK == 0
  {
    PaddedLength(|message|);
    message + [0x80] + Zeros((55 - |message|) % BLOCK)
    + LengthBytes(message)
  }

  lemma PaddedLength(n: nat)
    ensures (n + 1 + (55 - n) % BLOCK + 8) % BLOCK == 0
  {
    DivisionUnique(n + 9 + (55 - n) % BLOCK, BLOCK, 1 - (55 - n) / BLOCK, 0);
  }

  /** The chaining value after hashing `data` block by block. */
  function Absorb<H>(compress: (H, seq<byte>) -> H, iv: H, data: seq<byte>): H
    requires |data| % BLOCK == 0
  {
    if data == [] then iv else
    compress(Absorb(compress, iv, data[..|data| - BLOCK]), data[|data| - BLOCK..])
  }

  // ----- the bit count -----

  /** `bits[0]` and `bits[1]` hold 8 times the length modulo 2^64. */
  ghost predicate CountsBits(bits0: u32, bits1: u32, length: nat) {
    bits0 + 0x1_0000_0000 * bits1 == 8 * length % 0x1_0000_0000_0000_0000
  }

  /** The two-word addition of Update: shift out of the low word, carry, high part. */
  function AddLow(bits0: u32, n: u32): u32 {
    (bits0 + 8 * n % 0x1_0000_0000) % 0x1_0000_0000
  }

  function AddHigh(bits0: u32, bits1: u32, n: u32): u32 {
    var carried := if AddLow(bits0, n) < bits0 then (bits1 + 1) % 0x1_0000_0000 else bits1;
    (carried + n / 0x2000_0000) % 0x1_0000_0000
  }

  lemma AddBits(bits0: u32, bits1: u32, n: u32)
    ensures AddLow(bits0, n) + 0x1_0000_0000 * AddHigh(bits0, bits1, n)
            == (bits0 + 0x1_0000_0000 * bits1 + 8 * n) % 0x1_0000_0000_0000_0000
  {
    var lo, hi := 8 * n % 0x1_0000_0000, n / 0x2000_0000;
    assert 8 * n == 0x1_0000_0000 * hi + lo;
    var c := if AddLow(bits0, n) < bits0 then 1 else 0;
    assert AddLow(bits0, n) == bits0 + lo - 0x1_0000_0000 * c;
    HighWord(bits1, c, hi);
    var q := (bits1 + c + hi) / 0x1_0000_0000;
    DivisionUnique(bits0 + 0x1_0000_0000 * bits1 + 8 * n, 0x1_0000_0000_0000_0000, q,
                   AddLow(bits0, n) + 0x1_0000_0000 * AddHigh(bits0, bits1, n));
  }

  lemma HighWord(bits1: u32, c: u32, hi: u32)
    requires c <= 1
    ensures ((bits1 + c) % 0x1_0000_0000 + hi) % 0x1_0000_0000 == (bits1 + c + hi) % 0x1_0000_0000
  {
  }

  lemma CountAdded(bits0: u32, bits1: u32, length: nat, n: u32)
    requires CountsBits(bits0, bits1, length)
    ensures CountsBits(AddLow(bits0, n), AddHigh(bits0, bits1, n), length + n)
  {
    AddBits(bits0, bits1, n);
    AddModulo(8 * length, 8 * n, 0x1_0000_0000_0000_0000);
  }

  /** The bytes waiting in the buffer can be read off the bit count. */
  lemma BufferedBytes(bits0: u32, bits1: u32, length: nat)
    requires CountsBits(bits0, bits1, length)
    ensures bits0 / 8 % BLOCK == length % BLOCK
  {
    var q := 8 * length / 0x1_0000_0000_0000_0000;
    var r := length - 0x2000_0000 * bits1 - 0x2000_0000_0000_0000 * q;
    assert bits0 == 8 * r;
    DivisionUnique(length, BLOCK, r / BLOCK + 0x80_0000 * bits1 + 0x80_0000_0000_0000 * q, r % BLOCK);
  }

  lemma {:induction false} JoinBytes(lo: nat, hi: nat, n: nat, m: nat)
    requires lo < Pow256(n)
    ensures LittleEndian(lo + Pow256(n) * hi, n + m) == LittleEndian(lo, n) + LittleEndian(hi, m)
  {
    if n == 0 {
      assert LittleEndian(lo, 0) + LittleEndian(hi, m) == LittleEndian(hi, m);
    } else {
      JoinBytes(lo / 256, hi, n - 1, m);
      LowByte(lo, Pow256(n - 1), hi, n - 1, m);
    }
  }

  lemma TwoWords(lo: u32, hi: u32)
    ensures LittleEndian(lo + 0x1_0000_0000 * hi, 8) == LittleEndian(lo, 4) + LittleEndian(hi, 4)
  {
    assert Pow256(4) == 0x1_0000_0000 by {
      assert Pow256(2) == 0x1_0000;
    }
    JoinBytes(lo, hi, 4, 4);
  }

  /** Peeling the low byte off a number that is `lo` below and `hi` above. */
  lemma LowByte(lo: nat, scale: nat, hi: nat, n: nat, m: nat)
    ensures var rest := LittleEndian(lo / 256 + scale * hi, n + m);
            && LittleEndian(lo + 256 * scale * hi, n + 1 + m) == [lo % 256] + rest
            && (rest == LittleEndian(lo / 256, n) + LittleEndian(hi, m) ==>
                  LittleEndian(lo + 256 * scale * hi, n + 1 + m) == LittleEndian(lo, n + 1) + LittleEndian(hi, m))
  {
    assert lo + 256 * scale * hi == (lo / 256 + scale * hi) * 256 + lo % 256;
    DivisionUnique(lo + 256 * scale * hi, 256, lo / 256 + scale * hi, lo % 256);
  }

  // ----- absorbing one more block -----

  lemma AbsorbBlock<H>(compress: (H, seq<byte>) -> H, iv: H, data: seq<byte>, block: seq<byte>)
    requires |data| % BLOCK == 0 && |block| == BLOCK
    ensures |data + block| % BLOCK == 0
    ensures Absorb(compress, iv, data + block) == compress(Absorb(compress, iv, data), block)
  {
    assert (data + block)[..|data|] == data && (data + block)[|data|..] == block;
  }

  /** Length of the part of a message that fills whole blocks. */
  function Whole(n: nat): (w: nat)
    ensures w % BLOCK == 0 && w <= n < w + BLOCK
  {
    n - n % BLOCK
  }

  lemma NothingWaits(before: seq<byte>, data: seq<byte>)
    requires |before| == Whole(|before|)
    ensures before + data[..0] == before == before[..Whole(|before|)] && |before + data[..0]| % BLOCK == 0
  {
  }

  /** Bytes that do not fill the buffer only lengthen its live prefix. */
  lemma FillPart(before: seq<byte>, data: seq<byte>)
    requires |before| % BLOCK + |data| < BLOCK
    ensures var w := Whole(|before|);
            && Whole(|before + data|) == w && (before + data)[..w] == before[..w]
            && (before + data)[w..] == before[w..] + data
  {
    DivisionUnique(|before + data|, BLOCK, |before| / BLOCK, |before| % BLOCK + |data|);
  }

  /** Bytes that fill the buffer complete a block of the message. */
  lemma FillBlock<H>(compress: (H, seq<byte>) -> H, iv: H, before: seq<byte>, part: seq<byte>)
    requires |before| % BLOCK + |part| == BLOCK
    ensures var w := Whole(|before|);
            && |before + part| % BLOCK == 0
            && |before[w..] + part| == BLOCK
            && Absorb(compress, iv, before + part)
               == compress(Absorb(compress, iv, before[..w]), before[w..] + part)
  {
    var w := Whole(|before|);
    assert |before[w..]| == |before| % BLOCK;
    assert before[..w] + (before[w..] + part) == before + part;
    AbsorbBlock(compress, iv, before[..w], before[w..] + part);
  }

  lemma NextBlock<H>(compress: (H, seq<byte>) -> H, iv: H, before: seq<byte>, data: seq<byte>, pos: nat)
    requires pos + BLOCK <= |data| && |before + data[..pos]| % BLOCK == 0
    ensures |before + data[..pos + BLOCK]| % BLOCK == 0
    ensures Absorb(compress, iv, before + data[..pos + BLOCK])
            == compress(Absorb(compress, iv, before + data[..pos]), data[pos..pos + BLOCK])
  {
    AbsorbBlock(compress, iv, before + data[..pos], data[pos..pos + BLOCK]);
    assert before + data[..pos] + data[pos..pos + BLOCK] == before + data[..pos + BLOCK];
  }

  /** What is left after the last whole block. */
  lemma Remainder(before: seq<byte>, data: seq<byte>, pos: nat)
    requires pos <= |data| < pos + BLOCK && |before + data[..pos]| % BLOCK == 0
    ensures var m := before + data;
            var w := Whole(|m|);
            m[..w] == before + data[..pos] && m[w..] == data[pos..] && |m| - w == |data| - pos
  {
    DivisionUnique(|before| + |data|, BLOCK, (|before| + pos) / BLOCK, |data| - pos);
  }

  // ----- padding -----

  /** The length bytes that end every padded message. */
  function LengthBytes(message: seq<byte>): (b: seq<byte>)
    ensures |b| == 8
  {
    LittleEndian(8 * |message| % 0x1_0000_0000_0000_0000, 8)
  }

  lemma CountBytesJoined(bits0: u32, bits1: u32, message: seq<byte>)
    requires CountsBits(bits0, bits1, |message|)
    ensures LengthBytes(message) == LittleEndian(bits0, 4) + LittleEndian(bits1, 4)
  {
    TwoWords(bits0, bits1);
  }

  /** With room for the length, the padding completes the current block. */
  lemma OneBlockPadding<H>(compress: (H, seq<byte>) -> H, iv: H, m: seq<byte>, last: seq<byte>)
    requires |m| % BLOCK <= 55
    requires last == m[Whole(|m|)..] + [0x80] + Zeros(55 - |m| % BLOCK) + LengthBytes(m)
    ensures |last| == BLOCK
    ensures Absorb(compress, iv, Padded(m)) == compress(Absorb(compress, iv, m[..Whole(|m|)]), last)
  {
    var w := Whole(|m|);
    DivisionUnique(55 - |m|, BLOCK, -(|m| / BLOCK), 55 - |m| % BLOCK);
    assert Padded(m) == m[..w] + last;
    AbsorbBlock(compress, iv, m[..w], last);
  }

  /** Without it, the padding fills the current block and goes on into one more. */
  lemma TwoBlockPadding<H>(compress: (H, seq<byte>) -> H, iv: H, m: seq<byte>, first: seq<byte>, last: seq<byte>)
    requires |m| % BLOCK >= 56
    requires first == m[Whole(|m|)..] + [0x80] + Zeros(63 - |m| % BLOCK)
    requires last == Zeros(56) + LengthBytes(m)
    ensures |first| == |last| == BLOCK
    ensures Absorb(compress, iv, Padded(m))
            == compress(compress(Absorb(compress, iv, m[..Whole(|m|)]), first), last)
  {
    var w := Whole(|m|);
    DivisionUnique(55 - |m|, BLOCK, -(|m| / BLOCK) - 1, 119 - |m| % BLOCK);
    assert Zeros(119 - |m| % BLOCK) == Zeros(63 - |m| % BLOCK) + Zeros(56);
    assert Padded(m) == m[..w] + first + last;
    AbsorbBlock(compress, iv, m[..w], first);
    AbsorbBlock(compress, iv, m[..w] + first, last);
  }

  /** memcpy of `src` to `dst + at`. */
  method Copy(dst: array<byte>, at: nat, src: seq<byte>)
    requires at + |src| <= dst.Length
    modifies dst
    ensures dst[..] == old(dst[..at]) + src + old(dst[at + |src|..])
  {
    forall i | 0 <= i < |src| {
      dst[at + i] := src[i];
    }
  }

  class Digest<H> {
    const compress: (H, seq<byte>) -> H
    const iv: H
    var buf: H
    var bits0: u32
    var bits1: u32
    const input: array<byte>
    ghost var message: seq<byte>

    ghost predicate Valid()
      reads this, input
    {
      CountsBits(bits0, bits1, |message|) && Hashed(message)
    }

    /** `buf` and the live prefix of `in` are those after the bytes `m`. */
    ghost predicate Hashed(m: seq<byte>)
      reads this, input
    {
      && input.Length == BLOCK
      && buf == Absorb(compress, iv, m[..Whole(|m|)])
      && input[..|m| - Whole(|m|)] == m[Whole(|m|)..]
    }

    constructor (compress: (H, seq<byte>) -> H, iv: H)
      ensures Valid() && message == [] && fresh(input)
      ensures this.compress == compress && this.iv == iv
    {
      this.compress, this.iv := compress, iv;
      buf, bits0, bits1 := iv, 0, 0;
      input := new byte[BLOCK](_ => 0);
      message := [];
    }

    /** How many bytes wait in the buffer. */
    method Waiting() returns (t: nat)
      requires CountsBits(bits0, bits1, |message|)
      ensures t == |message| - Whole(|message|) == |message| % BLOCK
    {
      BufferedBytes(bits0, bits1, |message|);
      t := bits0 / 8 % BLOCK;
    }

    /** The bit count moves on by `n` bytes. */
    method CountBytes(n: u32)
      requires CountsBits(bits0, bits1, |message|)
      modifies this`bits0, this`bits1
      ensures CountsBits(bits0, bits1, |message| + n)
    {
      CountAdded(bits0, bits1, |message|, n);
      var t := bits0;
      bits0 := (t + 8 * n % 0x1_0000_0000) % 0x1_0000_0000;
      if bits0 < t {
        bits1 := (bits1 + 1) % 0x1_0000_0000;
      }
      bits1 := (bits1 + n / 0x2000_0000) % 0x1_0000_0000;
    }

    /** After any Update the state is that of having hashed the bytes so far, however they
        were split. */
    method Update(data: seq<byte>)
      requires Valid() && |data| < 0x1_0000_0000
      modifies this, input
      ensures Valid() && message == old(message) + data
    {
      ghost var before := message;
      var t := Waiting();
      CountBytes(|data|);
      message := before + data;
      assert CountsBits(bits0, bits1, |message|);
      UpdateBytes(before, data, t);
    }

    /** Update after the bit count, with `t` bytes waiting in the buffer. */
    method UpdateBytes(ghost before: seq<byte>, data: seq<byte>, t: nat)
      requires Hashed(before) && t == |before| - Whole(|before|)
      modifies this`buf, input
      ensures Hashed(before + data)
    {
      if t == 0 {
        NothingWaits(before, data);
        UpdateRest(before, data, 0);
        return;
      }
      var filled := UpdateLead(before, data, t);
      if filled {
        UpdateRest(before, data, BLOCK - t);
      } else {
        FillPart(before, data);
      }
    }

    /** Update from a block boundary on. */
    method UpdateRest(ghost before: seq<byte>, data: seq<byte>, start: nat)
      requires input.Length == BLOCK && start <= |data| && |before + data[..start]| % BLOCK == 0
      requires buf == Absorb(compress, iv, before + data[..start])
      modifies this`buf, input
      ensures Hashed(before + data)
    {
      var pos := UpdateBlocks(before, data, start);
      Copy(input, 0, data[pos..]);
      assert input[..|data| - pos] == data[pos..];
      Remainder(before, data, pos);
    }

    /** The leading chunk, after the `t` bytes that wait in the buffer: either it fills the
        buffer, which is hashed, or it does not. */
    method UpdateLead(ghost before: seq<byte>, data: seq<byte>, t: nat) returns (filled: bool)
      requires Hashed(before) && 0 < t && t == |before| - Whole(|before|)
      modifies this`buf, input
      ensures filled <==> t + |data| >= BLOCK
      ensures filled ==> |before + data[..BLOCK - t]| % BLOCK == 0 && buf == Absorb(compress, iv, before + data[..BLOCK - t])
      ensures !filled ==> buf == old(buf) && input[..t + |data|] == before[Whole(|before|)..] + data
    {
      var room := BLOCK - t;
      if |data| < room {
        Copy(input, t, data);
        return false;
      }
      Copy(input, t, data[..room]);
      FillBlock(compress, iv, before, data[..room]);
      assert input[..] == before[Whole(|before|)..] + data[..room];
      buf := compress(buf, input[..]);
      return true;
    }

    /** The loop of Update over whole blocks. */
    method UpdateBlocks(ghost before: seq<byte>, data: seq<byte>, start: nat) returns (pos: nat)
      requires input.Length == BLOCK && start <= |data| && |before + data[..start]| % BLOCK == 0
      requires buf == Absorb(compress, iv, before + data[..start])
      modifies this`buf, input
      ensures pos <= |data| < pos + BLOCK && |before + data[..pos]| % BLOCK == 0
      ensures buf == Absorb(compress, iv, before + data[..pos])
    {
      pos := start;
      while |data| - pos >= BLOCK
        invariant pos <= |data| && |before + data[..pos]| % BLOCK == 0
        invariant buf == Absorb(compress, iv, before + data[..pos])
      {
        Copy(input, 0, data[pos..pos + BLOCK]);
        assert input[..] == data[pos..pos + BLOCK];
        NextBlock(compress, iv, before, data, pos);
        buf := compress(buf, input[..]);
        pos := pos + BLOCK;
      }
    }

    /** Final hashes the padded message, whichever of the two paddings it takes. It leaves
        the object with the final chaining value, so no Update may follow. */
    method Final() returns (hash: H)
      requires Valid()
      modifies this`buf, input
      ensures hash == Absorb(compress, iv, Padded(message))
    {
      var count := Waiting();
      Copy(input, count, [0x80]);
      assert input[..count + 1] == message[Whole(|message|)..] + [0x80];
      if BLOCK - 1 - count < 8 {
        PadTwoBlocks(count);
      } else {
        PadOneBlock(count);
      }
      buf := compress(buf, input[..]);
      hash := buf;
    }

    /** The message has been hashed but for its last `count` bytes, which are in the buffer with
        0x80 behind them. */
    ghost predicate Marked(count: nat)
      reads this, input
    {
      && input.Length == BLOCK && count < BLOCK && count == |message| % BLOCK
      && CountsBits(bits0, bits1, |message|)
      && buf == Absorb(compress, iv, message[..Whole(|message|)])
      && input[..count + 1] == message[Whole(|message|)..] + [0x80]
    }

    method PadTwoBlocks(count: nat)
      requires Marked(count) && count >= 56
      modifies this`buf, input
      ensures compress(buf, input[..]) == Absorb(compress, iv, Padded(message))
    {
      Copy(input, count + 1, Zeros(BLOCK - 1 - count));
      ghost var first := input[..];
      buf := compress(buf, input[..]);
      Copy(input, 0, Zeros(56));
      assert input[..56] == Zeros(56);
      AppendLength();
      TwoBlockPadding(compress, iv, message, first, input[..]);
    }

    method PadOneBlock(count: nat)
      requires Marked(count) && count < 56
      modifies input
      ensures compress(buf, input[..]) == Absorb(compress, iv, Padded(message))
    {
      Copy(input, count + 1, Zeros(55 - count));
      assert input[..56] == message[Whole(|message|)..] + [0x80] + Zeros(55 - count);
      AppendLength();
      OneBlockPadding(compress, iv, message, input[..]);
    }

    /** `((u32*)in)[14] = bits[0]` and `((u32*)in)[15] = bits[1]`. */
    method AppendLength()
      requires input.Length == BLOCK && CountsBits(bits0, bits1, |message|)
      modifies input
      ensures input[..] == old(input[..56]) + LengthBytes(message)
    {
      CountBytesJoined(bits0, bits1, message);
      var low, high := LittleEndian(bits0, 4), LittleEndian(bits1, 4);
      Copy(input, 56, low);
      assert input[..60] == old(input[..56]) + low;
      Copy(input, 60, high);
      assert input[..] == old(input[..56]) + (low + high);
    }
  }

  /** The state is a function of the bytes hashed so far: two digests that have been given the
      same bytes, split in different ways, agree on everything but dead buffer bytes. */
  lemma ChunkingIsInvisible<H>(x: Digest<H>, y: Digest<H>)
    requires x.Valid() && y.Valid() && x.message == y.message
    requires x.compress == y.compress && x.iv == y.iv
    ensures x.buf == y.buf && x.bits0 == y.bits0 && x.bits1 == y.bits1
    ensures x.input[..|x.message| % BLOCK] == y.input[..|x.message| % BLOCK]
  {
    SameCount(x.bits0, x.bits1, y.bits0, y.bits1);
  }

  lemma SameCount(x0: u32, x1: u32, y0: u32, y1: u32)
    requires x0 + 0x1_0000_0000 * x1 == y0 + 0x1_0000_0000 * y1
    ensures x0 == y0 && x1 == y1
  {
  }

  // ----- MD5 -----

  function Flatten(chunks: seq<seq<byte>>): seq<byte> {
    if chunks == [] then [] else Flatten(chunks[..|chunks| - 1]) + chunks[|chunks| - 1]
  }

  function Compress(h: Rfc.Hash, block: seq<byte>): Rfc.Hash {
    if |block| == BLOCK then T.Transform(h, block) else h
  }

  /** The block operation of section 3.4 of RFC 1321. */
  function RfcCompress(h: Rfc.Hash, block: seq<byte>): Rfc.Hash {
    if |block| == BLOCK then Rfc.Process(h, block) else h
  }

  lemma CompressIsRfc(h: Rfc.Hash, block: seq<byte>)
    ensures Compress(h, block) == RfcCompress(h, block)
  {
    if |block| == BLOCK {
      T.TransformIsRfc(h, block);
    }
  }

  lemma {:induction false} AbsorbAlike<H(!new)>(f: (H, seq<byte>) -> H, g: (H, seq<byte>) -> H, iv: H, data: seq<byte>)
    requires |data| % BLOCK == 0 && forall h, block :: f(h, block) == g(h, block)
    ensures Absorb(f, iv, data) == Absorb(g, iv, data)
    decreases |data|
  {
    if data != [] {
      AbsorbAlike(f, g, iv, data[..|data| - BLOCK]);
    }
  }

  lemma AbsorbIsRfc(data: seq<byte>)
    requires |data| % BLOCK == 0
    ensures Absorb(Compress, Rfc.IV, data) == Absorb(RfcCompress, Rfc.IV, data)
  {
    var f, g := Compress, RfcCompress;
    forall h, block ensures f(h, block) == g(h, block) {
      CompressIsRfc(h, block);
    }
    AbsorbAlike(f, g, Rfc.IV, data);
  }

  /** Feeding a message in chunks of any sizes absorbs the padded whole message. */
  method HashChunks<H>(compress: (H, seq<byte>) -> H, iv: H, chunks: seq<seq<byte>>) returns (h: H)
    requires forall i | 0 <= i < |chunks| :: |chunks[i]| < 0x1_0000_0000
    ensures h == Absorb(compress, iv, Padded(Flatten(chunks)))
  {
    var d := new Digest(compress, iv);
    for i := 0 to |chunks|
      invariant d.Valid() && d.message == Flatten(chunks[..i])
      invariant d.compress == compress && d.iv == iv
      invariant fresh(d) && fresh(d.input)
    {
      d.Update(chunks[i]);
      assert chunks[..i + 1][..i] == chunks[..i];
    }
    assert chunks[..|chunks|] == chunks;
    h := d.Final();
  }

  /** The MD5 digest of a message. */
  function DigestOf(message: seq<byte>): seq<byte> {
    Rfc.Output(Absorb(RfcCompress, Rfc.IV, Padded(message)))
  }

  /** Feeding a message in chunks of any sizes gives the MD5 digest of the whole message. */
  method Md5(chunks: seq<seq<byte>>) returns (digest: seq<byte>)
    requires forall i | 0 <= i < |chunks| :: |chunks[i]| < 0x1_0000_0000
    ensures digest == DigestOf(Flatten(chunks))
  {
    AbsorbIsRfc(Padded(Flatten(chunks)));
    var h := HashChunks(Compress, Rfc.IV, chunks);
    digest := Rfc.Output(h);
  }
}
