/**
  The MD5 block operation as sections 3.3 to 3.5 of RFC 1321 have it: four named registers, the 64
  operations in groups of four, each with its word, its shift and its constant.
 */
module Rfc1321 {
  import opened Arithmetic

  /** The registers A, B, C and D. */
  datatype Hash = Hash(a: bv32, b: bv32, c: bv32, d: bv32)

  const IV := Hash(0x67452301, 0xefcdab89, 0x98badcfe, 0x10325476)

  /** Four bytes as a word, least significant first. */
  function Word(b: seq<byte>): bv32
    requires |b| == 4
  {
    ((b[0] as bv8) as bv32) | ((b[1] as bv8) as bv32 << 8) | ((b[2] as bv8) as bv32 << 16) | ((b[3] as bv8) as bv32 << 24)
  }

  function Words(block: seq<byte>): (x: seq<bv32>)
    requires |block| == 64
    ensures |x| == 16
  {
    seq(16, i requires 0 <= i < 16 => Word(block[4 * i..4 * i + 4]))
  }

  function F(x: bv32, y: bv32, z: bv32): bv32 { (x & y) | (!x & z) }
  function G(x: bv32, y: bv32, z: bv32): bv32 { (x & z) | (y & !z) }
  function H(x: bv32, y: bv32, z: bv32): bv32 { x ^ y ^ z }
  function I(x: bv32, y: bv32, z: bv32): bv32 { y ^ (x | !z) }

  function Auxiliary(round: nat, x: bv32, y: bv32, z: bv32): bv32 {
    if round == 1 then F(x, y, z) else if round == 2 then G(x, y, z)
    else if round == 3 then H(x, y, z) else I(x, y, z)
  }

  type shift = s: nat | s <= 32

  /** `w <<< s`. */
  function Rotate(w: bv32, s: shift): bv32 {
    (w << s) | (w >> (32 - s))
  }

  /** `b + ((a + f + x + t) <<< s)`. */
  function Assigned(rotate: (bv32, shift) -> bv32, f: bv32, a: bv32, b: bv32, x: bv32, s: shift, t: bv32): bv32 {
    b + rotate(a + f + x + t, s)
  }

  /** What an operation `[abcd k s i]` of a round assigns to `a`, for x = X[k] and t = T[i]. */
  function Operation(round: nat, a: bv32, b: bv32, c: bv32, d: bv32, x: bv32, s: shift, t: bv32): bv32 {
    Assigned(Rotate, Auxiliary(round, b, c, d), a, b, x, s, t)
  }

  // What follows says which operations there are and on which registers; it does not depend on
  // what one of them computes, so the operation is a parameter.

  type Op = (nat, bv32, bv32, bv32, bv32, bv32, shift, bv32) -> bv32

  /** `[ABCD k0 s0 i0] [DABC k1 s1 i1] [CDAB k2 s2 i2] [BCDA k3 s3 i3]`, with the words and the
      constants in the place of their numbers. */
  function Four(op: Op, round: nat, r: Hash, x0: bv32, x1: bv32, x2: bv32, x3: bv32, t0: bv32, t1: bv32, t2: bv32, t3: bv32): Hash
    requires 1 <= round <= 4
  {
    var s: (shift, shift, shift, shift) :=
      if round == 1 then (7, 12, 17, 22) else if round == 2 then (5, 9, 14, 20)
      else if round == 3 then (4, 11, 16, 23) else (6, 10, 15, 21);
    var a := op(round, r.a, r.b, r.c, r.d, x0, s.0, t0);
    var d := op(round, r.d, a, r.b, r.c, x1, s.1, t1);
    var c := op(round, r.c, d, a, r.b, x2, s.2, t2);
    var b := op(round, r.b, c, d, a, x3, s.3, t3);
    Hash(a, b, c, d)
  }

  function Round1(op: Op, r: Hash, x: seq<bv32>): Hash
    requires |x| == 16
  {
    var r1 := Four(op, 1, r, x[0], x[1], x[2], x[3], 0xd76aa478, 0xe8c7b756, 0x242070db, 0xc1bdceee);
    var r2 := Four(op, 1, r1, x[4], x[5], x[6], x[7], 0xf57c0faf, 0x4787c62a, 0xa8304613, 0xfd469501);
    var r3 := Four(op, 1, r2, x[8], x[9], x[10], x[11], 0x698098d8, 0x8b44f7af, 0xffff5bb1, 0x895cd7be);
    Four(op, 1, r3, x[12], x[13], x[14], x[15], 0x6b901122, 0xfd987193, 0xa679438e, 0x49b40821)
  }

  function Round2(op: Op, r: Hash, x: seq<bv32>): Hash
    requires |x| == 16
  {
    var r1 := Four(op, 2, r, x[1], x[6], x[11], x[0], 0xf61e2562, 0xc040b340, 0x265e5a51, 0xe9b6c7aa);
    var r2 := Four(op, 2, r1, x[5], x[10], x[15], x[4], 0xd62f105d, 0x02441453, 0xd8a1e681, 0xe7d3fbc8);
    var r3 := Four(op, 2, r2, x[9], x[14], x[3], x[8], 0x21e1cde6, 0xc33707d6, 0xf4d50d87, 0x455a14ed);
    Four(op, 2, r3, x[13], x[2], x[7], x[12], 0xa9e3e905, 0xfcefa3f8, 0x676f02d9, 0x8d2a4c8a)
  }

  function Round3(op: Op, r: Hash, x: seq<bv32>): Hash
    requires |x| == 16
  {
    var r1 := Four(op, 3, r, x[5], x[8], x[11], x[14], 0xfffa3942, 0x8771f681, 0x6d9d6122, 0xfde5380c);
    var r2 := Four(op, 3, r1, x[1], x[4], x[7], x[10], 0xa4beea44, 0x4bdecfa9, 0xf6bb4b60, 0xbebfbc70);
    var r3 := Four(op, 3, r2, x[13], x[0], x[3], x[6], 0x289b7ec6, 0xeaa127fa, 0xd4ef3085, 0x04881d05);
    Four(op, 3, r3, x[9], x[12], x[15], x[2], 0xd9d4d039, 0xe6db99e5, 0x1fa27cf8, 0xc4ac5665)
  }

  function Round4(op: Op, r: Hash, x: seq<bv32>): Hash
    requires |x| == 16
  {
    var r1 := Four(op, 4, r, x[0], x[7], x[14], x[5], 0xf4292244, 0x432aff97, 0xab9423a7, 0xfc93a039);
    var r2 := Four(op, 4, r1, x[12], x[3], x[10], x[1], 0x655b59c3, 0x8f0ccc92, 0xffeff47d, 0x85845dd1);
    var r3 := Four(op, 4, r2, x[8], x[15], x[6], x[13], 0x6fa87e4f, 0xfe2ce6e0, 0xa3014314, 0x4e0811a1);
    Four(op, 4, r3, x[4], x[11], x[2], x[9], 0xf7537e82, 0xbd3af235, 0x2ad7d2bb, 0xeb86d391)
  }

  function Rounds(op: Op, r: Hash, x: seq<bv32>): Hash
    requires |x| == 16
  {
    Round4(op, Round3(op, Round2(op, Round1(op, r, x), x), x), x)
  }

  function Add(h: Hash, r: Hash): Hash {
    Hash(h.a + r.a, h.b + r.b, h.c + r.c, h.d + r.d)
  }

  /** One block of sixteen words. */
  function Process(h: Hash, block: seq<byte>): Hash
    requires |block| == 64
  {
    Add(h, Rounds(Operation, h, Words(block)))
  }

  /** Section 3.5: A, B, C and D, least significant byte first. */
  function Output(h: Hash): seq<byte> {
    LittleEndian(h.a as int, 4) + LittleEndian(h.b as int, 4) + LittleEndian(h.c as int, 4) + LittleEndian(h.d as int, 4)
  }
}
