/**
  The modes of a BC7 block as the BPTC chapter of the Khronos Data Format Specification lists
  them: how many bits each part of the block has in each mode, in the order in which the parts
  follow one another.
 */
module Bc7Modes {

  /** One row of the table: subsets, partition bits, rotation bits, index selection bits, colour
      bits and alpha bits of an end point, bits per end point and per subset that are shared
      among its components, and the bits of an index of the first and the second set. */
  datatype Mode = Mode(ns: nat, pb: nat, rb: nat, isb: nat, cb: nat, ab: nat, epb: nat, spb: nat, ib: nat, ib2: nat) {
    /** From the partition number to the end points. */
    function Header(): nat { pb + rb + isb }

    /** Two end points of three colours and alpha, and what bits they have besides. */
    function PerSubset(): nat { 2 * (3 * cb + ab) + 2 * epb + spb }

    /** `ns * PerSubset()`; no mode has more than three subsets. */
    function EndPoints(): nat {
      if ns == 1 then PerSubset() else if ns == 2 then 2 * PerSubset() else 3 * PerSubset()
    }

    /** The first index of each subset is one bit short. */
    function Indices(): int { 16 * ib - ns }

    /** So is the first index of the second set. */
    function SecondIndices(): int { if ib2 == 0 then 0 else 16 * ib2 - 1 }
  }

  function Info(mode: nat): Mode
    requires mode < 8
  {
    [Mode(3, 4, 0, 0, 4, 0, 1, 0, 3, 0),
     Mode(2, 6, 0, 0, 6, 0, 0, 1, 3, 0),
     Mode(3, 6, 0, 0, 5, 0, 0, 0, 2, 0),
     Mode(2, 6, 0, 0, 7, 0, 1, 0, 2, 0),
     Mode(1, 0, 2, 1, 5, 6, 0, 0, 2, 3),
     Mode(1, 0, 2, 0, 7, 8, 0, 0, 2, 2),
     Mode(1, 0, 0, 0, 7, 7, 1, 0, 4, 0),
     Mode(2, 6, 0, 0, 5, 5, 1, 0, 2, 0)][mode]
  }

  /** The mode is one bit after as many zeros as it says; the partition number comes next. */
  function PartitionAt(mode: nat): nat {
    mode + 1
  }

  function SelectionAt(mode: nat): nat
    requires mode < 8
  {
    PartitionAt(mode) + Info(mode).pb + Info(mode).rb
  }

  /** The indices come last, the second set after the first. */
  function SecondIndexAt(mode: nat): int
    requires mode < 8
  {
    128 - Info(mode).SecondIndices()
  }

  function IndexAt(mode: nat): int
    requires mode < 8
  {
    SecondIndexAt(mode) - Info(mode).Indices()
  }

  /** In every mode the parts of the table fill the block of 128 bits. */
  lemma PartsFillBlock(mode: nat)
    requires mode < 8
    ensures PartitionAt(mode) + Info(mode).Header() + Info(mode).EndPoints() == IndexAt(mode)
  {
  }
}
