/**
  The partitions of a BC7 block: which subset each of its sixteen pixels belongs to, for the modes
  with two and with three subsets, and the anchors that go with them.
 */
module Bc7Partitions {
  import opened Bc7Index

  function TwoSubsets0(part: nat): string
    requires part < 16
  {
    ["0011001100110011", "0001000100010001", "0111011101110111", "0001001100110111",
     "0000000100010011", "0011011101111111", "0001001101111111", "0000000100110111",
     "0000000000010011", "0011011111111111", "0000000101111111", "0000000000010111",
     "0001011111111111", "0000000011111111", "0000111111111111", "0000000000001111"][part]
  }

  function TwoSubsets1(part: nat): string
    requires part < 16
  {
    ["0000100011101111", "0111000100000000", "0000000010001110", "0111001100010000",
     "0011000100000000", "0000100011001110", "0000000010001100", "0111001100110001",
     "0011000100010000", "0000100010001100", "0110011001100110", "0011011001101100",
     "0001011111101000", "0000111111110000", "0111000110001110", "0011100110011100"][part]
  }

  function TwoSubsets2(part: nat): string
    requires part < 16
  {
    ["0101010101010101", "0000111100001111", "0101101001011010", "0011001111001100",
     "0011110000111100", "0101010110101010", "0110100101101001", "0101101010100101",
     "0111001111001110", "0001001111001000", "0011001001001100", "0011101111011100",
     "0110100110010110", "0011110011000011", "0110011010011001", "0000011001100000"][part]
  }

  function TwoSubsets3(part: nat): string
    requires part < 16
  {
    ["0100111001000000", "0010011100100000", "0000001001110010", "0000010011100100",
     "0110110010010011", "0011011011001001", "0110001110011100", "0011100111000110",
     "0110110011001001", "0110001100111001", "0111111010000001", "0001100011100111",
     "0000111100110011", "0011001111110000", "0010001011101110", "0100010001110111"][part]
  }

  /** `g_bc7_partition2`, a row for each partition. */
  function TwoSubsets(part: nat): string
    requires part < 64
  {
    if part < 16 then TwoSubsets0(part) else if part < 32 then TwoSubsets1(part - 16)
    else if part < 48 then TwoSubsets2(part - 32) else TwoSubsets3(part - 48)
  }

  function ThreeSubsets0(part: nat): string
    requires part < 16
  {
    ["0011001102212222", "0001001122112221", "0000200122112211", "0222002200110111",
     "0000000011221122", "0011001100220022", "0022002211111111", "0011001122112211",
     "0000000011112222", "0000111111112222", "0000111122222222", "0012001200120012",
     "0112011201120112", "0122012201220122", "0011011211221222", "0011200122002220"][part]
  }

  function ThreeSubsets1(part: nat): string
    requires part < 16
  {
    ["0001001101121122", "0111001120012200", "0000112211221122", "0022002200221111",
     "0111011102220222", "0001000122212221", "0000001101220122", "0000110022102210",
     "0122012200110000", "0012001211222222", "0110122112210110", "0000011012211221",
     "0022110211020022", "0110011020022222", "0011012201220011", "0000200022112221"][part]
  }

  function ThreeSubsets2(part: nat): string
    requires part < 16
  {
    ["0000000211221222", "0222002200120011", "0011001200220222", "0120012001200120",
     "0000111122220000", "0120120120120120", "0120201212010120", "0011220011220011",
     "0011112222000011", "0101010122222222", "0000000021212121", "0022112200221122",
     "0022001100220011", "0220122102201221", "0101222222220101", "0000212121212121"][part]
  }

  function ThreeSubsets3(part: nat): string
    requires part < 16
  {
    ["0101010101012222", "0222011102220111", "0002111200021112", "0000211221122112",
     "0222011101110222", "0002111211120002", "0110011001102222", "0000000021122112",
     "0110011022222222", "0022001100110022", "0022112211220022", "0000000000002112",
     "0002000100020001", "0222122202221222", "0101222222222222", "0111201122012220"][part]
  }

  /** `g_bc7_partition3`, a row for each partition. */
  function ThreeSubsets(part: nat): string
    requires part < 64
  {
    if part < 16 then ThreeSubsets0(part) else if part < 32 then ThreeSubsets1(part - 16)
    else if part < 48 then ThreeSubsets2(part - 32) else ThreeSubsets3(part - 48)
  }

  /** Pixel `i` belongs to subset `s` of the row. */
  predicate InSubset(row: string, i: nat, s: char) {
    i < |row| && row[i] == s
  }

  lemma TwoSubsetAnchors0(part: nat)
    requires 0 <= part < 16
    ensures InSubset(TwoSubsets(part), 0, '0') && InSubset(TwoSubsets(part), SecondSubsetAnchor(part), '1')
  {
  }

  lemma ThreeSubsetAnchors0(part: nat)
    requires 0 <= part < 16
    ensures InSubset(ThreeSubsets(part), 0, '0') && InSubset(ThreeSubsets(part), ThirdSubsetAnchor1(part), '1')
    ensures InSubset(ThreeSubsets(part), ThirdSubsetAnchor2(part), '2')
  {
  }

  lemma TwoSubsetAnchors1(part: nat)
    requires 16 <= part < 32
    ensures InSubset(TwoSubsets(part), 0, '0') && InSubset(TwoSubsets(part), SecondSubsetAnchor(part), '1')
  {
  }

  lemma ThreeSubsetAnchors1(part: nat)
    requires 16 <= part < 32
    ensures InSubset(ThreeSubsets(part), 0, '0') && InSubset(ThreeSubsets(part), ThirdSubsetAnchor1(part), '1')
    ensures InSubset(ThreeSubsets(part), ThirdSubsetAnchor2(part), '2')
  {
  }

  lemma TwoSubsetAnchors2(part: nat)
    requires 32 <= part < 48
    ensures InSubset(TwoSubsets(part), 0, '0') && InSubset(TwoSubsets(part), SecondSubsetAnchor(part), '1')
  {
  }

  lemma ThreeSubsetAnchors2(part: nat)
    requires 32 <= part < 48
    ensures InSubset(ThreeSubsets(part), 0, '0') && InSubset(ThreeSubsets(part), ThirdSubsetAnchor1(part), '1')
    ensures InSubset(ThreeSubsets(part), ThirdSubsetAnchor2(part), '2')
  {
  }

  lemma TwoSubsetAnchors3(part: nat)
    requires 48 <= part < 64
    ensures InSubset(TwoSubsets(part), 0, '0') && InSubset(TwoSubsets(part), SecondSubsetAnchor(part), '1')
  {
  }

  lemma ThreeSubsetAnchors3(part: nat)
    requires 48 <= part < 64
    ensures InSubset(ThreeSubsets(part), 0, '0') && InSubset(ThreeSubsets(part), ThirdSubsetAnchor1(part), '1')
    ensures InSubset(ThreeSubsets(part), ThirdSubsetAnchor2(part), '2')
  {
  }

  /** The anchor of each subset lies in that subset, in all partitions. */
  lemma AnchorsLieInSubsets(part: nat)
    requires part < 64
    ensures InSubset(TwoSubsets(part), 0, '0') && InSubset(TwoSubsets(part), SecondSubsetAnchor(part), '1')
    ensures InSubset(ThreeSubsets(part), 0, '0') && InSubset(ThreeSubsets(part), ThirdSubsetAnchor1(part), '1')
    ensures InSubset(ThreeSubsets(part), ThirdSubsetAnchor2(part), '2')
  {
    if part < 16 {
      TwoSubsetAnchors0(part);
      ThreeSubsetAnchors0(part);
    } else if part < 32 {
      TwoSubsetAnchors1(part);
      ThreeSubsetAnchors1(part);
    } else if part < 48 {
      TwoSubsetAnchors2(part);
      ThreeSubsetAnchors2(part);
    } else {
      TwoSubsetAnchors3(part);
      ThreeSubsetAnchors3(part);
    }
  }
}
