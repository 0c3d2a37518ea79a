/**
  The MD5 block transform of `MD5Transform`, against section 3.4 of RFC 1321.
 */
module Md5Transform {
  import opened Arithmetic
  import Rfc = Rfc1321

  type Hash = Rfc.Hash
  type shift = Rfc.shift

  /** The optimised F1 is the function F of the RFC. */
  function F1(x: bv32, y: bv32, z: bv32): (r: bv32)
    ensures r == (x & y) | (!x & z)
  {
    z ^ (x & (y ^ z))
  }

  /** The optimised F2 is the function G of the RFC. */
  function F2(x: bv32, y: bv32, z: bv32): (r: bv32)
    ensures r == (x & z) | (y & !z)
  {
    F1(z, x, y)
  }

  function F3(x: bv32, y: bv32, z: bv32): bv32 { x ^ y ^ z }
  function F4(x: bv32, y: bv32, z: bv32): bv32 { y ^ (x | !z) }

  /** The function that MD5STEP is called with in a round. */
  function RoundFunction(round: nat, x: bv32, y: bv32, z: bv32): bv32 {
    if round == 1 then F1(x, y, z) else if round == 2 then F2(x, y, z)
    else if round == 3 then F3(x, y, z) else F4(x, y, z)
  }

  /** `w += f + data, w = w << s | w >> (32 - s), w += x`. */
  function Mixed(rotate: (bv32, shift) -> bv32, f: bv32, w: bv32, x: bv32, data: bv32, s: shift): bv32 {
    rotate(w + (f + data), s) + x
  }

  function Md5Step(round: nat, w: bv32, x: bv32, y: bv32, z: bv32, data: bv32, s: shift): bv32 {
    Mixed(Rfc.Rotate, RoundFunction(round, x, y, z), w, x, data, s)
  }

  // ----- the 64 calls of MD5STEP, with the macro as a parameter -----

  type Macro = (nat, bv32, bv32, bv32, bv32, bv32, shift) -> bv32

  function Round1(step: Macro, h: Hash, x: seq<bv32>): Hash
    requires |x| == 16
  {
    var a, b, c, d := h.a, h.b, h.c, h.d;
    var a := step(1, a, b, c, d, x[0] + 0xd76aa478, 7);
    var d := step(1, d, a, b, c, x[1] + 0xe8c7b756, 12);
    var c := step(1, c, d, a, b, x[2] + 0x242070db, 17);
    var b := step(1, b, c, d, a, x[3] + 0xc1bdceee, 22);
    var a := step(1, a, b, c, d, x[4] + 0xf57c0faf, 7);
    var d := step(1, d, a, b, c, x[5] + 0x4787c62a, 12);
    var c := step(1, c, d, a, b, x[6] + 0xa8304613, 17);
    var b := step(1, b, c, d, a, x[7] + 0xfd469501, 22);
    var a := step(1, a, b, c, d, x[8] + 0x698098d8, 7);
    var d := step(1, d, a, b, c, x[9] + 0x8b44f7af, 12);
    var c := step(1, c, d, a, b, x[10] + 0xffff5bb1, 17);
    var b := step(1, b, c, d, a, x[11] + 0x895cd7be, 22);
    var a := step(1, a, b, c, d, x[12] + 0x6b901122, 7);
    var d := step(1, d, a, b, c, x[13] + 0xfd987193, 12);
    var c := step(1, c, d, a, b, x[14] + 0xa679438e, 17);
    var b := step(1, b, c, d, a, x[15] + 0x49b40821, 22);
    Rfc.Hash(a, b, c, d)
  }

  function Round2(step: Macro, h: Hash, x: seq<bv32>): Hash
    requires |x| == 16
  {
    var a, b, c, d := h.a, h.b, h.c, h.d;
    var a := step(2, a, b, c, d, x[1] + 0xf61e2562, 5);
    var d := step(2, d, a, b, c, x[6] + 0xc040b340, 9);
    var c := step(2, c, d, a, b, x[11] + 0x265e5a51, 14);
    var b := step(2, b, c, d, a, x[0] + 0xe9b6c7aa, 20);
    var a := step(2, a, b, c, d, x[5] + 0xd62f105d, 5);
    var d := step(2, d, a, b, c, x[10] + 0x02441453, 9);
    var c := step(2, c, d, a, b, x[15] + 0xd8a1e681, 14);
    var b := step(2, b, c, d, a, x[4] + 0xe7d3fbc8, 20);
    var a := step(2, a, b, c, d, x[9] + 0x21e1cde6, 5);
    var d := step(2, d, a, b, c, x[14] + 0xc33707d6, 9);
    var c := step(2, c, d, a, b, x[3] + 0xf4d50d87, 14);
    var b := step(2, b, c, d, a, x[8] + 0x455a14ed, 20);
    var a := step(2, a, b, c, d, x[13] + 0xa9e3e905, 5);
    var d := step(2, d, a, b, c, x[2] + 0xfcefa3f8, 9);
    var c := step(2, c, d, a, b, x[7] + 0x676f02d9, 14);
    var b := step(2, b, c, d, a, x[12] + 0x8d2a4c8a, 20);
    Rfc.Hash(a, b, c, d)
  }

  function Round3(step: Macro, h: Hash, x: seq<bv32>): Hash
    requires |x| == 16
  {
    var a, b, c, d := h.a, h.b, h.c, h.d;
    var a := step(3, a, b, c, d, x[5] + 0xfffa3942, 4);
    var d := step(3, d, a, b, c, x[8] + 0x8771f681, 11);
    var c := step(3, c, d, a, b, x[11] + 0x6d9d6122, 16);
    var b := step(3, b, c, d, a, x[14] + 0xfde5380c, 23);
    var a := step(3, a, b, c, d, x[1] + 0xa4beea44, 4);
    var d := step(3, d, a, b, c, x[4] + 0x4bdecfa9, 11);
    var c := step(3, c, d, a, b, x[7] + 0xf6bb4b60, 16);
    var b := step(3, b, c, d, a, x[10] + 0xbebfbc70, 23);
    var a := step(3, a, b, c, d, x[13] + 0x289b7ec6, 4);
    var d := step(3, d, a, b, c, x[0] + 0xeaa127fa, 11);
    var c := step(3, c, d, a, b, x[3] + 0xd4ef3085, 16);
    var b := step(3, b, c, d, a, x[6] + 0x04881d05, 23);
    var a := step(3, a, b, c, d, x[9] + 0xd9d4d039, 4);
    var d := step(3, d, a, b, c, x[12] + 0xe6db99e5, 11);
    var c := step(3, c, d, a, b, x[15] + 0x1fa27cf8, 16);
    var b := step(3, b, c, d, a, x[2] + 0xc4ac5665, 23);
    Rfc.Hash(a, b, c, d)
  }

  function Round4(step: Macro, h: Hash, x: seq<bv32>): Hash
    requires |x| == 16
  {
    var a, b, c, d := h.a, h.b, h.c, h.d;
    var a := step(4, a, b, c, d, x[0] + 0xf4292244, 6);
    var d := step(4, d, a, b, c, x[7] + 0x432aff97, 10);
    var c := step(4, c, d, a, b, x[14] + 0xab9423a7, 15);
    var b := step(4, b, c, d, a, x[5] + 0xfc93a039, 21);
    var a := step(4, a, b, c, d, x[12] + 0x655b59c3, 6);
    var d := step(4, d, a, b, c, x[3] + 0x8f0ccc92, 10);
    var c := step(4, c, d, a, b, x[10] + 0xffeff47d, 15);
    var b := step(4, b, c, d, a, x[1] + 0x85845dd1, 21);
    var a := step(4, a, b, c, d, x[8] + 0x6fa87e4f, 6);
    var d := step(4, d, a, b, c, x[15] + 0xfe2ce6e0, 10);
    var c := step(4, c, d, a, b, x[6] + 0xa3014314, 15);
    var b := step(4, b, c, d, a, x[13] + 0x4e0811a1, 21);
    var a := step(4, a, b, c, d, x[4] + 0xf7537e82, 6);
    var d := step(4, d, a, b, c, x[11] + 0xbd3af235, 10);
    var c := step(4, c, d, a, b, x[2] + 0x2ad7d2bb, 15);
    var b := step(4, b, c, d, a, x[9] + 0xeb86d391, 21);
    Rfc.Hash(a, b, c, d)
  }

  function Transform(h: Hash, block: seq<byte>): Hash
    requires |block| == 64
  {
    var x := Rfc.Words(block);
    Rfc.Add(h, Round4(Md5Step, Round3(Md5Step, Round2(Md5Step, Round1(Md5Step, h, x), x), x), x))
  }

  // ----- the steps are the operations of the RFC -----

  /** A step and an operation that assign the same. */
  ghost predicate AlikeAt(step: Macro, op: Rfc.Op, round: nat, a: bv32, b: bv32, c: bv32, d: bv32, x: bv32, s: shift, t: bv32) {
    op(round, a, b, c, d, x, s, t) == step(round, a, b, c, d, x + t, s)
  }

  ghost predicate Alike(step: Macro, op: Rfc.Op) {
    forall round, a, b, c, d, x, s, t {:trigger op(round, a, b, c, d, x, s, t)} ::
      AlikeAt(step, op, round, a, b, c, d, x, s, t)
  }

  lemma F3IsH(x: bv32, y: bv32, z: bv32)
    ensures F3(x, y, z) == Rfc.H(x, y, z)
  {
  }

  lemma F4IsI(x: bv32, y: bv32, z: bv32)
    ensures F4(x, y, z) == Rfc.I(x, y, z)
  {
  }

  lemma FunctionIsRfc(round: nat, x: bv32, y: bv32, z: bv32)
    ensures RoundFunction(round, x, y, z) == Rfc.Auxiliary(round, x, y, z)
  {
    if round == 1 {
    } else if round == 2 {
    } else if round == 3 {
      F3IsH(x, y, z);
    } else {
      F4IsI(x, y, z);
    }
  }

  lemma SumInAnyOrder(a: bv32, f: bv32, x: bv32, t: bv32)
    ensures a + (f + (x + t)) == a + f + x + t
  {
  }

  /** Whatever rotating is, MD5STEP assigns the RFC's `b + ((a + f + X[k] + T[i]) <<< s)`. */
  lemma MixedIsAssigned(rotate: (bv32, shift) -> bv32, f: bv32, a: bv32, b: bv32, x: bv32, s: shift, t: bv32)
    ensures Mixed(rotate, f, a, b, x + t, s) == Rfc.Assigned(rotate, f, a, b, x, s, t)
  {
    SumInAnyOrder(a, f, x, t);
  }

  lemma Round1Alike(step: Macro, op: Rfc.Op, h: Hash, x: seq<bv32>)
    requires |x| == 16 && Alike(step, op)
    ensures Round1(step, h, x) == Rfc.Round1(op, h, x)
  {
  }

  lemma Round2Alike(step: Macro, op: Rfc.Op, h: Hash, x: seq<bv32>)
    requires |x| == 16 && Alike(step, op)
    ensures Round2(step, h, x) == Rfc.Round2(op, h, x)
  {
  }

  lemma Round3Alike(step: Macro, op: Rfc.Op, h: Hash, x: seq<bv32>)
    requires |x| == 16 && Alike(step, op)
    ensures Round3(step, h, x) == Rfc.Round3(op, h, x)
  {
  }

  lemma Round4Alike(step: Macro, op: Rfc.Op, h: Hash, x: seq<bv32>)
    requires |x| == 16 && Alike(step, op)
    ensures Round4(step, h, x) == Rfc.Round4(op, h, x)
  {
  }

  lemma RoundsAlike(step: Macro, op: Rfc.Op, h: Hash, x: seq<bv32>)
    requires |x| == 16 && Alike(step, op)
    ensures Round4(step, Round3(step, Round2(step, Round1(step, h, x), x), x), x) == Rfc.Rounds(op, h, x)
  {
    Round1Alike(step, op, h, x);
    var h1 := Round1(step, h, x);
    Round2Alike(step, op, h1, x);
    var h2 := Round2(step, h1, x);
    Round3Alike(step, op, h2, x);
    Round4Alike(step, op, Round3(step, h2, x), x);
  }

  lemma StepIsOperation(round: nat, a: bv32, b: bv32, c: bv32, d: bv32, x: bv32, s: shift, t: bv32)
    ensures Rfc.Operation(round, a, b, c, d, x, s, t) == Md5Step(round, a, b, c, d, x + t, s)
  {
    FunctionIsRfc(round, b, c, d);
    MixedIsAssigned(Rfc.Rotate, RoundFunction(round, b, c, d), a, b, x, s, t);
  }

  lemma StepsAlike()
    ensures Alike(Md5Step, Rfc.Operation)
  {
    forall round, a, b, c, d, x, s, t ensures AlikeAt(Md5Step, Rfc.Operation, round, a, b, c, d, x, s, t) {
      StepIsOperation(round, a, b, c, d, x, s, t);
    }
  }

  /** The 64 steps of the code are the 64 operations of the RFC. */
  lemma TransformIsRfc(h: Hash, block: seq<byte>)
    requires |block| == 64
    ensures Transform(h, block) == Rfc.Process(h, block)
  {
    StepsAlike();
    RoundsAlike(Md5Step, Rfc.Operation, h, Rfc.Words(block));
  }
}
