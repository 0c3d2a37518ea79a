/**
  Two answers of the test suite in section A.5 of RFC 1321. The definition of MD5 that the code is
  proved against gives them, so its tables, orders, padding and output are those of the RFC.

  Each round comes twice: what it gives if its sixteen operations give certain values, whatever
  an operation is, and that Operation gives those values.
 */
module Md5Suite {
  import opened Arithmetic
  import Rfc = Rfc1321
  import opened Md5Digest

  // ----- messages of a few bytes -----

  /** Zeros but for the first word and the one for the length. */
  ghost predicate IsShort(x: seq<bv32>, word: bv32, length: bv32) {
    |x| == 16 && x[0] == word && x[14] == length && forall i | 0 < i < 16 && i != 14 :: x[i] == 0
  }

  lemma {:induction false} ZeroBytes(n: nat)
    ensures LittleEndian(0, n) == Zeros(n)
  {
    if n > 0 {
      ZeroBytes(n - 1);
    }
  }

  /** The padding of a message of less than 32 bytes. */
  lemma PaddedShort(m: seq<byte>)
    requires |m| < 32
    ensures Padded(m) == m + [0x80] + Zeros(55 - |m|) + [8 * |m|] + Zeros(7)
  {
    ZeroBytes(7);
    DivisionUnique(55 - |m|, BLOCK, 0, 55 - |m|);
    var n := 8 * |m|;
    assert n / 256 == 0 && n % 256 == n;
    assert LittleEndian(n, 8) == [n] + LittleEndian(0, 7);
  }

  /** The words of a message of up to three bytes, which has its end mark in the first. */
  lemma WordsOfShort(m: seq<byte>, first: seq<byte>, last: seq<byte>, zero: seq<byte>)
    requires |m| <= 3 && first == m + [0x80] + Zeros(3 - |m|) && last == [8 * |m|, 0, 0, 0] && zero == [0, 0, 0, 0]
    ensures |Padded(m)| == 64
    ensures var x := Rfc.Words(Padded(m));
            x[0] == Rfc.Word(first) && x[14] == Rfc.Word(last) && forall i | 0 < i < 16 && i != 14 :: x[i] == Rfc.Word(zero)
  {
    PaddedShort(m);
    var p := Padded(m);
    assert p[0..4] == first && p[56..60] == last;
    forall i | 0 < i < 16 && i != 14 ensures Rfc.Words(p)[i] == Rfc.Word(zero) {
      assert p[4 * i..4 * i + 4] == zero;
    }
  }

  lemma WordIs(b: seq<byte>, b0: byte, b1: byte, b2: byte, b3: byte)
    requires b == [b0, b1, b2, b3]
    ensures Rfc.Word(b) == ((b0 as bv8) as bv32) | ((b1 as bv8) as bv32 << 8) | ((b2 as bv8) as bv32 << 16) | ((b3 as bv8) as bv32 << 24)
  {
  }

  lemma OneBlock<H>(compress: (H, seq<byte>) -> H, iv: H, block: seq<byte>)
    requires |block| == BLOCK
    ensures Absorb(compress, iv, block) == compress(iv, block)
  {
    assert block[..0] == [] && block[0..] == block;
  }

  lemma FourBytes(v: nat, b0: byte, b1: byte, b2: byte, b3: byte)
    requires v == b0 + 256 * (b1 + 256 * (b2 + 256 * b3))
    ensures LittleEndian(v, 4) == [b0, b1, b2, b3]
  {
    var v1, v2 := b1 + 256 * (b2 + 256 * b3), b2 + 256 * b3;
    assert LittleEndian(b3, 1) == [b3] + LittleEndian(0, 0);
    assert LittleEndian(v2, 2) == [b2] + LittleEndian(b3, 1);
    assert LittleEndian(v1, 3) == [b1] + LittleEndian(v2, 2);
    assert LittleEndian(v, 4) == [b0] + LittleEndian(v1, 3);
  }

  // ----- the empty message -----

  lemma EmptyRound1(op: Rfc.Op, x: seq<bv32>)
    requires IsShort(x, 0x80, 0)
    requires op(1, 0x67452301, 0xefcdab89, 0x98badcfe, 0x10325476, 0x80, 7, 0xd76aa478) == 0xa5202774
    requires op(1, 0x10325476, 0xa5202774, 0xefcdab89, 0x98badcfe, 0, 12, 0xe8c7b756) == 0xf59592dd
    requires op(1, 0x98badcfe, 0xf59592dd, 0xa5202774, 0xefcdab89, 0, 17, 0x242070db) == 0xe7f06b23
    requires op(1, 0xefcdab89, 0xe7f06b23, 0xf59592dd, 0xa5202774, 0, 22, 0xc1bdceee) == 0x1b163203
    requires op(1, 0xa5202774, 0x1b163203, 0xe7f06b23, 0xf59592dd, 0, 7, 0xf57c0faf) == 0x32033344
    requires op(1, 0xf59592dd, 0x32033344, 0x1b163203, 0xe7f06b23, 0, 12, 0x4787c62a) == 0x2f35d494
    requires op(1, 0xe7f06b23, 0x2f35d494, 0x32033344, 0x1b163203, 0, 17, 0xa8304613) == 0xf5b158db
    requires op(1, 0x1b163203, 0xf5b158db, 0x2f35d494, 0x32033344, 0, 22, 0xfd469501) == 0x9bc13ce9
    requires op(1, 0x32033344, 0x9bc13ce9, 0xf5b158db, 0x2f35d494, 0, 7, 0x698098d8) == 0x3893b991
    requires op(1, 0x2f35d494, 0x3893b991, 0x9bc13ce9, 0xf5b158db, 0, 12, 0x8b44f7af) == 0xfce4a312
    requires op(1, 0xf5b158db, 0xfce4a312, 0x3893b991, 0x9bc13ce9, 0, 17, 0xffff5bb1) == 0xe1ef0576
    requires op(1, 0x9bc13ce9, 0xe1ef0576, 0xfce4a312, 0x3893b991, 0, 22, 0x895cd7be) == 0x70768a29
    requires op(1, 0x3893b991, 0x70768a29, 0xe1ef0576, 0xfce4a312, 0, 7, 0x6b901122) == 0xf56c7cf1
    requires op(1, 0xfce4a312, 0xf56c7cf1, 0x70768a29, 0xe1ef0576, 0, 12, 0xfd987193) == 0x374943a7
    requires op(1, 0xe1ef0576, 0x374943a7, 0xf56c7cf1, 0x70768a29, 0, 17, 0xa679438e) == 0x5aa53f75
    requires op(1, 0x70768a29, 0x5aa53f75, 0x374943a7, 0xf56c7cf1, 0, 22, 0x49b40821) == 0xd6819c6a
    ensures Rfc.Round1(op, Rfc.IV, x)
            == Rfc.Hash(0xf56c7cf1, 0xd6819c6a, 0x5aa53f75, 0x374943a7)
  {
  }

  lemma EmptyRound1OfRfc(x: seq<bv32>)
    requires IsShort(x, 0x80, 0)
    ensures Rfc.Round1(Rfc.Operation, Rfc.IV, x)
            == Rfc.Hash(0xf56c7cf1, 0xd6819c6a, 0x5aa53f75, 0x374943a7)
  {
    EmptyRound1(Rfc.Operation, x);
  }

  lemma EmptyRound2(op: Rfc.Op, x: seq<bv32>)
    requires IsShort(x, 0x80, 0)
    requires op(2, 0xf56c7cf1, 0xd6819c6a, 0x5aa53f75, 0x374943a7, 0, 5, 0xf61e2562) == 0x1c7d7513
    requires op(2, 0x374943a7, 0x1c7d7513, 0xd6819c6a, 0x5aa53f75, 0, 9, 0xc040b340) == 0x7bd57a3a
    requires op(2, 0x5aa53f75, 0x7bd57a3a, 0x1c7d7513, 0xd6819c6a, 0, 14, 0x265e5a51) == 0xc095f13a
    requires op(2, 0xd6819c6a, 0xc095f13a, 0x7bd57a3a, 0x1c7d7513, 0x80, 20, 0xe9b6c7aa) == 0xbd782e17
    requires op(2, 0x1c7d7513, 0xbd782e17, 0xc095f13a, 0x7bd57a3a, 0, 5, 0xd62f105d) == 0x3d1e3e6c
    requires op(2, 0x7bd57a3a, 0x3d1e3e6c, 0xbd782e17, 0xc095f13a, 0, 9, 0x02441453) == 0x68b7b3e3
    requires op(2, 0xc095f13a, 0x68b7b3e3, 0x3d1e3e6c, 0xbd782e17, 0, 14, 0xd8a1e681) == 0xeb41643e
    requires op(2, 0xbd782e17, 0xeb41643e, 0x68b7b3e3, 0x3d1e3e6c, 0, 20, 0xe7d3fbc8) == 0xe422531a
    requires op(2, 0x3d1e3e6c, 0xe422531a, 0xeb41643e, 0x68b7b3e3, 0, 5, 0x21e1cde6) == 0x306ec122
    requires op(2, 0x68b7b3e3, 0x306ec122, 0xe422531a, 0xeb41643e, 0, 9, 0xc33707d6) == 0xd28c77c2
    requires op(2, 0xeb41643e, 0xd28c77c2, 0x306ec122, 0xe422531a, 0, 14, 0xf4d50d87) == 0xa3c663da
    requires op(2, 0xe422531a, 0xa3c663da, 0xd28c77c2, 0x306ec122, 0, 20, 0x455a14ed) == 0xa0572807
    requires op(2, 0x306ec122, 0xa0572807, 0xa3c663da, 0xd28c77c2, 0, 5, 0xa9e3e905) == 0x13707036
    requires op(2, 0xd28c77c2, 0x13707036, 0xa0572807, 0xa3c663da, 0, 9, 0xfcefa3f8) == 0xae7813db
    requires op(2, 0xa3c663da, 0xae7813db, 0x13707036, 0xa0572807, 0, 14, 0x676f02d9) == 0x1c31c384
    requires op(2, 0xa0572807, 0x1c31c384, 0xae7813db, 0x13707036, 0, 20, 0x8d2a4c8a) == 0xa2205f1f
    ensures Rfc.Round2(op, Rfc.Hash(0xf56c7cf1, 0xd6819c6a, 0x5aa53f75, 0x374943a7), x)
            == Rfc.Hash(0x13707036, 0xa2205f1f, 0x1c31c384, 0xae7813db)
  {
  }

  lemma EmptyRound2OfRfc(x: seq<bv32>)
    requires IsShort(x, 0x80, 0)
    ensures Rfc.Round2(Rfc.Operation, Rfc.Hash(0xf56c7cf1, 0xd6819c6a, 0x5aa53f75, 0x374943a7), x)
            == Rfc.Hash(0x13707036, 0xa2205f1f, 0x1c31c384, 0xae7813db)
  {
    EmptyRound2(Rfc.Operation, x);
  }

  lemma EmptyRound3(op: Rfc.Op, x: seq<bv32>)
    requires IsShort(x, 0x80, 0)
    requires op(3, 0x13707036, 0xa2205f1f, 0x1c31c384, 0xae7813db, 0, 4, 0xfffa3942) == 0xdf63eaa1
    requires op(3, 0xae7813db, 0xdf63eaa1, 0xa2205f1f, 0x1c31c384, 0, 11, 0x8771f681) == 0xc3689f5b
    requires op(3, 0x1c31c384, 0xc3689f5b, 0xdf63eaa1, 0xa2205f1f, 0, 16, 0x6d9d6122) == 0x12f3e755
    requires op(3, 0xa2205f1f, 0x12f3e755, 0xc3689f5b, 0xdf63eaa1, 0, 23, 0xfde5380c) == 0x004b6669
    requires op(3, 0xdf63eaa1, 0x004b6669, 0x12f3e755, 0xc3689f5b, 0, 4, 0xa4beea44) == 0x5f7a9b2e
    requires op(3, 0xc3689f5b, 0x5f7a9b2e, 0x004b6669, 0x12f3e755, 0, 11, 0x4bdecfa9) == 0xabc34e16
    requires op(3, 0x12f3e755, 0xabc34e16, 0x5f7a9b2e, 0x004b6669, 0, 16, 0xf6bb4b60) == 0x91ca4cb7
    requires op(3, 0x004b6669, 0x91ca4cb7, 0xabc34e16, 0x5f7a9b2e, 0, 23, 0xbebfbc70) == 0xc5dc8c15
    requires op(3, 0x5f7a9b2e, 0xc5dc8c15, 0x91ca4cb7, 0xabc34e16, 0, 4, 0x289b7ec6) == 0x4497169d
    requires op(3, 0xabc34e16, 0x4497169d, 0xc5dc8c15, 0x91ca4cb7, 0x80, 11, 0xeaa127fa) == 0x76fd93d4
    requires op(3, 0x91ca4cb7, 0x76fd93d4, 0x4497169d, 0xc5dc8c15, 0, 16, 0xd4ef3085) == 0xfd95f243
    requires op(3, 0xc5dc8c15, 0xfd95f243, 0x76fd93d4, 0x4497169d, 0, 23, 0x04881d05) == 0x0fe32453
    requires op(3, 0x4497169d, 0x0fe32453, 0xfd95f243, 0x76fd93d4, 0, 4, 0xd9d4d039) == 0x3f55edfd
    requires op(3, 0x76fd93d4, 0x3f55edfd, 0x0fe32453, 0xfd95f243, 0, 11, 0xe6db99e5) == 0x22a31f54
    requires op(3, 0xfd95f243, 0x22a31f54, 0x3f55edfd, 0x0fe32453, 0, 16, 0x1fa27cf8) == 0x68d84ea2
    requires op(3, 0x0fe32453, 0x68d84ea2, 0x22a31f54, 0x3f55edfd, 0, 23, 0xc4ac5665) == 0xca7d2dbd
    ensures Rfc.Round3(op, Rfc.Hash(0x13707036, 0xa2205f1f, 0x1c31c384, 0xae7813db), x)
            == Rfc.Hash(0x3f55edfd, 0xca7d2dbd, 0x68d84ea2, 0x22a31f54)
  {
  }

  lemma EmptyRound3OfRfc(x: seq<bv32>)
    requires IsShort(x, 0x80, 0)
    ensures Rfc.Round3(Rfc.Operation, Rfc.Hash(0x13707036, 0xa2205f1f, 0x1c31c384, 0xae7813db), x)
            == Rfc.Hash(0x3f55edfd, 0xca7d2dbd, 0x68d84ea2, 0x22a31f54)
  {
    EmptyRound3(Rfc.Operation, x);
  }

  lemma EmptyRound4(op: Rfc.Op, x: seq<bv32>)
    requires IsShort(x, 0x80, 0)
    requires op(4, 0x3f55edfd, 0xca7d2dbd, 0x68d84ea2, 0x22a31f54, 0x80, 6, 0xf4292244) == 0x93aa2577
    requires op(4, 0x22a31f54, 0x93aa2577, 0xca7d2dbd, 0x68d84ea2, 0, 10, 0x432aff97) == 0x1688dc85
    requires op(4, 0x68d84ea2, 0x1688dc85, 0x93aa2577, 0xca7d2dbd, 0, 15, 0xab9423a7) == 0xcd85b8cb
    requires op(4, 0xca7d2dbd, 0xcd85b8cb, 0x1688dc85, 0x93aa2577, 0, 21, 0xfc93a039) == 0x561e0689
    requires op(4, 0x93aa2577, 0x561e0689, 0xcd85b8cb, 0x1688dc85, 0, 6, 0x655b59c3) == 0x5625a114
    requires op(4, 0x1688dc85, 0x5625a114, 0x561e0689, 0xcd85b8cb, 0, 10, 0x8f0ccc92) == 0x3450f42b
    requires op(4, 0xcd85b8cb, 0x3450f42b, 0x5625a114, 0x561e0689, 0, 15, 0xffeff47d) == 0x392ad0d0
    requires op(4, 0x561e0689, 0x392ad0d0, 0x3450f42b, 0x5625a114, 0, 21, 0x85845dd1) == 0x1e77fa61
    requires op(4, 0x5625a114, 0x1e77fa61, 0x392ad0d0, 0x3450f42b, 0, 6, 0x6fa87e4f) == 0x474a9c8c
    requires op(4, 0x3450f42b, 0x474a9c8c, 0x1e77fa61, 0x392ad0d0, 0, 10, 0xfe2ce6e0) == 0xdfce00bc
    requires op(4, 0x392ad0d0, 0xdfce00bc, 0x474a9c8c, 0x1e77fa61, 0, 15, 0xa3014314) == 0x36594b14
    requires op(4, 0x1e77fa61, 0x36594b14, 0xdfce00bc, 0x474a9c8c, 0, 21, 0x4e0811a1) == 0x30130182
    requires op(4, 0x474a9c8c, 0x30130182, 0x36594b14, 0xdfce00bc, 0, 6, 0xf7537e82) == 0x7246fad3
    requires op(4, 0xdfce00bc, 0x7246fad3, 0x30130182, 0x36594b14, 0, 10, 0xbd3af235) == 0x6e10a476
    requires op(4, 0x36594b14, 0x6e10a476, 0x7246fad3, 0x30130182, 0, 15, 0x2ad7d2bb) == 0xff4ea3eb
    requires op(4, 0x30130182, 0xff4ea3eb, 0x6e10a476, 0x7246fad3, 0, 21, 0xeb86d391) == 0x14e45506
    ensures Rfc.Round4(op, Rfc.Hash(0x3f55edfd, 0xca7d2dbd, 0x68d84ea2, 0x22a31f54), x)
            == Rfc.Hash(0x7246fad3, 0x14e45506, 0xff4ea3eb, 0x6e10a476)
  {
  }

  lemma EmptyRound4OfRfc(x: seq<bv32>)
    requires IsShort(x, 0x80, 0)
    ensures Rfc.Round4(Rfc.Operation, Rfc.Hash(0x3f55edfd, 0xca7d2dbd, 0x68d84ea2, 0x22a31f54), x)
            == Rfc.Hash(0x7246fad3, 0x14e45506, 0xff4ea3eb, 0x6e10a476)
  {
    EmptyRound4(Rfc.Operation, x);
  }

  lemma EmptyRounds(x: seq<bv32>)
    requires IsShort(x, 0x80, 0)
    ensures Rfc.Add(Rfc.IV, Rfc.Rounds(Rfc.Operation, Rfc.IV, x)) == Rfc.Hash(0xd98c1dd4, 0x04b2008f, 0x980980e9, 0x7e42f8ec)
  {
    EmptyRound1OfRfc(x);
    EmptyRound2OfRfc(x);
    EmptyRound3OfRfc(x);
    EmptyRound4OfRfc(x);
  }

  lemma EmptyOutput()
    ensures Rfc.Output(Rfc.Hash(0xd98c1dd4, 0x04b2008f, 0x980980e9, 0x7e42f8ec))
            == [0xd4, 0x1d, 0x8c, 0xd9] + [0x8f, 0x00, 0xb2, 0x04] + [0xe9, 0x80, 0x09, 0x98] + [0xec, 0xf8, 0x42, 0x7e]
  {
    FourBytes(0xd98c1dd4, 0xd4, 0x1d, 0x8c, 0xd9);
    FourBytes(0x04b2008f, 0x8f, 0x00, 0xb2, 0x04);
    FourBytes(0x980980e9, 0xe9, 0x80, 0x09, 0x98);
    FourBytes(0x7e42f8ec, 0xec, 0xf8, 0x42, 0x7e);
  }

  lemma EmptyWords(m: seq<byte>)
    requires m == []
    ensures |Padded(m)| == 64 && IsShort(Rfc.Words(Padded(m)), 0x80, 0)
  {
    var first: seq<byte>, last: seq<byte>, zero: seq<byte> := [0x80, 0, 0, 0], [0, 0, 0, 0], [0, 0, 0, 0];
    assert first == m + [0x80] + Zeros(3 - |m|);
    WordsOfShort(m, first, last, zero);
    WordIs(first, 0x80, 0, 0, 0);
    WordIs(last, 0, 0, 0, 0);
    WordIs(zero, 0, 0, 0, 0);
  }

  /** MD5 of the empty message. */
  lemma EmptyDigest(m: seq<byte>)
    requires m == []
    ensures DigestOf(m)
            == [0xd4, 0x1d, 0x8c, 0xd9] + [0x8f, 0x00, 0xb2, 0x04] + [0xe9, 0x80, 0x09, 0x98] + [0xec, 0xf8, 0x42, 0x7e]
  {
    EmptyWords(m);
    EmptyRounds(Rfc.Words(Padded(m)));
    EmptyOutput();
    OneBlock(RfcCompress, Rfc.IV, Padded(m));
  }

  // ----- `abc` -----

  lemma AbcRound1(op: Rfc.Op, x: seq<bv32>)
    requires IsShort(x, 0x80636261, 24)
    requires op(1, 0x67452301, 0xefcdab89, 0x98badcfe, 0x10325476, 0x80636261, 7, 0xd76aa478) == 0xd6d117b4
    requires op(1, 0x10325476, 0xd6d117b4, 0xefcdab89, 0x98badcfe, 0, 12, 0xe8c7b756) == 0x344a8432
    requires op(1, 0x98badcfe, 0x344a8432, 0xd6d117b4, 0xefcdab89, 0, 17, 0x242070db) == 0x2f6fbd72
    requires op(1, 0xefcdab89, 0x2f6fbd72, 0x344a8432, 0xd6d117b4, 0, 22, 0xc1bdceee) == 0x7ad956f2
    requires op(1, 0xd6d117b4, 0x7ad956f2, 0x2f6fbd72, 0x344a8432, 0, 7, 0xf57c0faf) == 0xc73741ef
    requires op(1, 0x344a8432, 0xc73741ef, 0x7ad956f2, 0x2f6fbd72, 0, 12, 0x4787c62a) == 0x8bac3051
    requires op(1, 0x2f6fbd72, 0x8bac3051, 0xc73741ef, 0x7ad956f2, 0, 17, 0xa8304613) == 0x207dc67b
    requires op(1, 0x7ad956f2, 0x207dc67b, 0x8bac3051, 0xc73741ef, 0, 22, 0xfd469501) == 0x928d99f6
    requires op(1, 0xc73741ef, 0x928d99f6, 0x207dc67b, 0x8bac3051, 0, 7, 0x698098d8) == 0x854b3712
    requires op(1, 0x8bac3051, 0x854b3712, 0x928d99f6, 0x207dc67b, 0, 12, 0x8b44f7af) == 0x74e2f284
    requires op(1, 0x207dc67b, 0x74e2f284, 0x854b3712, 0x928d99f6, 0, 17, 0xffff5bb1) == 0x3020401c
    requires op(1, 0x928d99f6, 0x3020401c, 0x74e2f284, 0x854b3712, 0, 22, 0x895cd7be) == 0x5ed49596
    requires op(1, 0x854b3712, 0x5ed49596, 0x3020401c, 0x74e2f284, 0, 7, 0x6b901122) == 0xdda9b9a6
    requires op(1, 0x74e2f284, 0xdda9b9a6, 0x5ed49596, 0x3020401c, 0, 12, 0xfd987193) == 0xa1051895
    requires op(1, 0x3020401c, 0xa1051895, 0xdda9b9a6, 0x5ed49596, 0x18, 17, 0xa679438e) == 0xe396856b
    requires op(1, 0x5ed49596, 0xe396856b, 0xa1051895, 0xdda9b9a6, 0, 22, 0x49b40821) == 0x72aff2e0
    ensures Rfc.Round1(op, Rfc.IV, x)
            == Rfc.Hash(0xdda9b9a6, 0x72aff2e0, 0xe396856b, 0xa1051895)
  {
  }

  lemma AbcRound1OfRfc(x: seq<bv32>)
    requires IsShort(x, 0x80636261, 24)
    ensures Rfc.Round1(Rfc.Operation, Rfc.IV, x)
            == Rfc.Hash(0xdda9b9a6, 0x72aff2e0, 0xe396856b, 0xa1051895)
  {
    AbcRound1(Rfc.Operation, x);
  }

  lemma AbcRound2(op: Rfc.Op, x: seq<bv32>)
    requires IsShort(x, 0x80636261, 24)
    requires op(2, 0xdda9b9a6, 0x72aff2e0, 0xe396856b, 0xa1051895, 0, 5, 0xf61e2562) == 0x3e9e9126
    requires op(2, 0xa1051895, 0x3e9e9126, 0x72aff2e0, 0xe396856b, 0, 9, 0xc040b340) == 0x4a1d804e
    requires op(2, 0xe396856b, 0x4a1d804e, 0x3e9e9126, 0x72aff2e0, 0, 14, 0x265e5a51) == 0xe25e1652
    requires op(2, 0x72aff2e0, 0xe25e1652, 0x4a1d804e, 0x3e9e9126, 0x80636261, 20, 0xe9b6c7aa) == 0xb5b204e4
    requires op(2, 0x3e9e9126, 0xb5b204e4, 0xe25e1652, 0x4a1d804e, 0, 5, 0xd62f105d) == 0x59a8ffda
    requires op(2, 0x4a1d804e, 0x59a8ffda, 0xb5b204e4, 0xe25e1652, 0, 9, 0x02441453) == 0x6d002f1e
    requires op(2, 0xe25e1652, 0x6d002f1e, 0x59a8ffda, 0xb5b204e4, 0, 14, 0xd8a1e681) == 0xabfc7920
    requires op(2, 0xb5b204e4, 0xabfc7920, 0x6d002f1e, 0x59a8ffda, 0, 20, 0xe7d3fbc8) == 0x47092c07
    requires op(2, 0x59a8ffda, 0x47092c07, 0xabfc7920, 0x6d002f1e, 0, 5, 0x21e1cde6) == 0xb7f268cf
    requires op(2, 0x6d002f1e, 0xb7f268cf, 0x47092c07, 0xabfc7920, 0x18, 9, 0xc33707d6) == 0x09388eff
    requires op(2, 0xabfc7920, 0x09388eff, 0xb7f268cf, 0x47092c07, 0, 14, 0xf4d50d87) == 0xfe1623b1
    requires op(2, 0x47092c07, 0xfe1623b1, 0x09388eff, 0xb7f268cf, 0, 20, 0x455a14ed) == 0x786acb8f
    requires op(2, 0xb7f268cf, 0x786acb8f, 0xfe1623b1, 0x09388eff, 0, 5, 0xa9e3e905) == 0x790a77fb
    requires op(2, 0x09388eff, 0x790a77fb, 0x786acb8f, 0xfe1623b1, 0, 9, 0xfcefa3f8) == 0x9f47e4f8
    requires op(2, 0xfe1623b1, 0x9f47e4f8, 0x790a77fb, 0x786acb8f, 0, 14, 0x676f02d9) == 0xa62884aa
    requires op(2, 0x786acb8f, 0xa62884aa, 0x9f47e4f8, 0x790a77fb, 0, 20, 0x8d2a4c8a) == 0x726342d3
    ensures Rfc.Round2(op, Rfc.Hash(0xdda9b9a6, 0x72aff2e0, 0xe396856b, 0xa1051895), x)
            == Rfc.Hash(0x790a77fb, 0x726342d3, 0xa62884aa, 0x9f47e4f8)
  {
  }

  lemma AbcRound2OfRfc(x: seq<bv32>)
    requires IsShort(x, 0x80636261, 24)
    ensures Rfc.Round2(Rfc.Operation, Rfc.Hash(0xdda9b9a6, 0x72aff2e0, 0xe396856b, 0xa1051895), x)
            == Rfc.Hash(0x790a77fb, 0x726342d3, 0xa62884aa, 0x9f47e4f8)
  {
    AbcRound2(Rfc.Operation, x);
  }

  lemma AbcRound3(op: Rfc.Op, x: seq<bv32>)
    requires IsShort(x, 0x80636261, 24)
    requires op(3, 0x790a77fb, 0x726342d3, 0xa62884aa, 0x9f47e4f8, 0, 4, 0xfffa3942) == 0xb3707ebf
    requires op(3, 0x9f47e4f8, 0xb3707ebf, 0x726342d3, 0xa62884aa, 0, 11, 0x8771f681) == 0x60127b2e
    requires op(3, 0xa62884aa, 0x60127b2e, 0xb3707ebf, 0x726342d3, 0, 16, 0x6d9d6122) == 0x8d212ff5
    requires op(3, 0x726342d3, 0x8d212ff5, 0x60127b2e, 0xb3707ebf, 0x18, 23, 0xfde5380c) == 0x3b0875c7
    requires op(3, 0xb3707ebf, 0x3b0875c7, 0x8d212ff5, 0x60127b2e, 0, 4, 0xa4beea44) == 0x21b117b9
    requires op(3, 0x60127b2e, 0x21b117b9, 0x3b0875c7, 0x8d212ff5, 0, 11, 0x4bdecfa9) == 0x6e7429d5
    requires op(3, 0x8d212ff5, 0x6e7429d5, 0x21b117b9, 0x3b0875c7, 0, 16, 0xf6bb4b60) == 0x3575227e
    requires op(3, 0x3b0875c7, 0x3575227e, 0x6e7429d5, 0x21b117b9, 0, 23, 0xbebfbc70) == 0x5a2f5ea5
    requires op(3, 0x21b117b9, 0x5a2f5ea5, 0x3575227e, 0x6e7429d5, 0, 4, 0x289b7ec6) == 0x11de1779
    requires op(3, 0x6e7429d5, 0x11de1779, 0x5a2f5ea5, 0x3575227e, 0x80636261, 11, 0xeaa127fa) == 0xfadcaa38
    requires op(3, 0x3575227e, 0xfadcaa38, 0x11de1779, 0x5a2f5ea5, 0, 16, 0xd4ef3085) == 0x31c465ca
    requires op(3, 0x5a2f5ea5, 0x31c465ca, 0xfadcaa38, 0x11de1779, 0, 23, 0x04881d05) == 0x4c6124f4
    requires op(3, 0x11de1779, 0x4c6124f4, 0x31c465ca, 0xfadcaa38, 0, 4, 0xd9d4d039) == 0x7f2e507b
    requires op(3, 0xfadcaa38, 0x7f2e507b, 0x4c6124f4, 0x31c465ca, 0, 11, 0xe6db99e5) == 0x99d9679d
    requires op(3, 0x31c465ca, 0x99d9679d, 0x7f2e507b, 0x4c6124f4, 0, 16, 0x1fa27cf8) == 0x8fae6399
    requires op(3, 0x4c6124f4, 0x8fae6399, 0x99d9679d, 0x7f2e507b, 0, 23, 0xc4ac5665) == 0x7beb9700
    ensures Rfc.Round3(op, Rfc.Hash(0x790a77fb, 0x726342d3, 0xa62884aa, 0x9f47e4f8), x)
            == Rfc.Hash(0x7f2e507b, 0x7beb9700, 0x8fae6399, 0x99d9679d)
  {
  }

  lemma AbcRound3OfRfc(x: seq<bv32>)
    requires IsShort(x, 0x80636261, 24)
    ensures Rfc.Round3(Rfc.Operation, Rfc.Hash(0x790a77fb, 0x726342d3, 0xa62884aa, 0x9f47e4f8), x)
            == Rfc.Hash(0x7f2e507b, 0x7beb9700, 0x8fae6399, 0x99d9679d)
  {
    AbcRound3(Rfc.Operation, x);
  }

  lemma AbcRound4(op: Rfc.Op, x: seq<bv32>)
    requires IsShort(x, 0x80636261, 24)
    requires op(4, 0x7f2e507b, 0x7beb9700, 0x8fae6399, 0x99d9679d, 0x80636261, 6, 0xf4292244) == 0x7b201df8
    requires op(4, 0x99d9679d, 0x7b201df8, 0x7beb9700, 0x8fae6399, 0, 10, 0x432aff97) == 0xf4e8e96e
    requires op(4, 0x8fae6399, 0xf4e8e96e, 0x7b201df8, 0x7beb9700, 0x18, 15, 0xab9423a7) == 0xb298cefd
    requires op(4, 0x7beb9700, 0xb298cefd, 0xf4e8e96e, 0x7b201df8, 0, 21, 0xfc93a039) == 0x8bf025c4
    requires op(4, 0x7b201df8, 0x8bf025c4, 0xb298cefd, 0xf4e8e96e, 0, 6, 0x655b59c3) == 0x06cc5e8a
    requires op(4, 0xf4e8e96e, 0x06cc5e8a, 0x8bf025c4, 0xb298cefd, 0, 10, 0x8f0ccc92) == 0x5b0d97aa
    requires op(4, 0xb298cefd, 0x5b0d97aa, 0x06cc5e8a, 0x8bf025c4, 0, 15, 0xffeff47d) == 0x7d632dd0
    requires op(4, 0x8bf025c4, 0x7d632dd0, 0x5b0d97aa, 0x06cc5e8a, 0, 21, 0x85845dd1) == 0x3bfa2c27
    requires op(4, 0x06cc5e8a, 0x3bfa2c27, 0x7d632dd0, 0x5b0d97aa, 0, 6, 0x6fa87e4f) == 0x7f81cc35
    requires op(4, 0x5b0d97aa, 0x7f81cc35, 0x3bfa2c27, 0x7d632dd0, 0, 10, 0xfe2ce6e0) == 0x094454ab
    requires op(4, 0x7d632dd0, 0x094454ab, 0x7f81cc35, 0x3bfa2c27, 0, 15, 0xa3014314) == 0x4f9dbe3f
    requires op(4, 0x3bfa2c27, 0x4f9dbe3f, 0x094454ab, 0x7f81cc35, 0, 21, 0x4e0811a1) == 0x7327d604
    requires op(4, 0x7f81cc35, 0x7327d604, 0x4f9dbe3f, 0x094454ab, 0, 6, 0xf7537e82) == 0x310ade8f
    requires op(4, 0x094454ab, 0x310ade8f, 0x7327d604, 0x4f9dbe3f, 0, 10, 0xbd3af235) == 0x624d8cb2
    requires op(4, 0x4f9dbe3f, 0x624d8cb2, 0x310ade8f, 0x7327d604, 0, 15, 0x2ad7d2bb) == 0xe484b9d8
    requires op(4, 0x7327d604, 0xe484b9d8, 0x624d8cb2, 0x310ade8f, 0, 21, 0xeb86d391) == 0xc08226b3
    ensures Rfc.Round4(op, Rfc.Hash(0x7f2e507b, 0x7beb9700, 0x8fae6399, 0x99d9679d), x)
            == Rfc.Hash(0x310ade8f, 0xc08226b3, 0xe484b9d8, 0x624d8cb2)
  {
  }

  lemma AbcRound4OfRfc(x: seq<bv32>)
    requires IsShort(x, 0x80636261, 24)
    ensures Rfc.Round4(Rfc.Operation, Rfc.Hash(0x7f2e507b, 0x7beb9700, 0x8fae6399, 0x99d9679d), x)
            == Rfc.Hash(0x310ade8f, 0xc08226b3, 0xe484b9d8, 0x624d8cb2)
  {
    AbcRound4(Rfc.Operation, x);
  }

  lemma AbcRounds(x: seq<bv32>)
    requires IsShort(x, 0x80636261, 24)
    ensures Rfc.Add(Rfc.IV, Rfc.Rounds(Rfc.Operation, Rfc.IV, x)) == Rfc.Hash(0x98500190, 0xb04fd23c, 0x7d3f96d6, 0x727fe128)
  {
    AbcRound1OfRfc(x);
    AbcRound2OfRfc(x);
    AbcRound3OfRfc(x);
    AbcRound4OfRfc(x);
  }

  lemma AbcOutput()
    ensures Rfc.Output(Rfc.Hash(0x98500190, 0xb04fd23c, 0x7d3f96d6, 0x727fe128))
            == [0x90, 0x01, 0x50, 0x98] + [0x3c, 0xd2, 0x4f, 0xb0] + [0xd6, 0x96, 0x3f, 0x7d] + [0x28, 0xe1, 0x7f, 0x72]
  {
    FourBytes(0x98500190, 0x90, 0x01, 0x50, 0x98);
    FourBytes(0xb04fd23c, 0x3c, 0xd2, 0x4f, 0xb0);
    FourBytes(0x7d3f96d6, 0xd6, 0x96, 0x3f, 0x7d);
    FourBytes(0x727fe128, 0x28, 0xe1, 0x7f, 0x72);
  }

  lemma AbcWords(m: seq<byte>)
    requires m == [0x61, 0x62, 0x63]
    ensures |Padded(m)| == 64 && IsShort(Rfc.Words(Padded(m)), 0x80636261, 24)
  {
    var first: seq<byte>, last: seq<byte>, zero: seq<byte> := [0x61, 0x62, 0x63, 0x80], [24, 0, 0, 0], [0, 0, 0, 0];
    assert first == m + [0x80] + Zeros(3 - |m|);
    WordsOfShort(m, first, last, zero);
    WordIs(first, 0x61, 0x62, 0x63, 0x80);
    WordIs(last, 24, 0, 0, 0);
    WordIs(zero, 0, 0, 0, 0);
  }

  /** MD5 of `abc`. */
  lemma AbcDigest(m: seq<byte>)
    requires m == [0x61, 0x62, 0x63]
    ensures DigestOf(m)
            == [0x90, 0x01, 0x50, 0x98] + [0x3c, 0xd2, 0x4f, 0xb0] + [0xd6, 0x96, 0x3f, 0x7d] + [0x28, 0xe1, 0x7f, 0x72]
  {
    AbcWords(m);
    AbcRounds(Rfc.Words(Padded(m)));
    AbcOutput();
    OneBlock(RfcCompress, Rfc.IV, Padded(m));
  }
}
