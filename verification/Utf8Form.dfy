/**
  The byte sequences of section 3 of RFC 3629, against which the encoder and the decoder are
  measured, and what sanitising does to each character of a file name.
 */
module Utf8Form {
  import opened Arithmetic
  import opened Utf8

  // ----- the sequences of the standard -----

  /** The number that six more bits make of `high`, if `b` is a continuation octet. */
  predicate Continues(high: int, b: int, value: int) {
    0x80 <= b <= 0xBF && value == 64 * high + (b - 0x80)
  }

  /** The octets of `ch`: a lead octet that says how many follow, then six bits an octet, and no
      more octets than the range of `ch` calls for. */
  ghost predicate Octets(b: seq<byte>, ch: nat) {
    if |b| == 1 then ch <= 0x7F && b[0] == ch
    else if |b| == 2 then 0x80 <= ch <= 0x7FF && 0xC0 <= b[0] <= 0xDF && Continues(b[0] as int - 0xC0, b[1], ch)
    else if |b| == 3 then 0x800 <= ch <= 0xFFFF && 0xE0 <= b[0] <= 0xEF && Three(b[0] as int - 0xE0, b[1], b[2], ch)
    else |b| == 4 && 0x1_0000 <= ch <= 0x10_FFFF && 0xF0 <= b[0] <= 0xF4 && Four(b[0] as int - 0xF0, b[1], b[2], b[3], ch)
  }

  ghost predicate Three(lead: int, b1: int, b2: int, value: int) {
    exists q :: Continues(lead, b1, q) && Continues(q, b2, value)
  }

  ghost predicate Four(lead: int, b1: int, b2: int, b3: int, value: int) {
    exists q :: Three(lead, b1, b2, q) && Continues(q, b3, value)
  }

  lemma SixBits(high: int, b: int, value: int)
    requires Continues(high, b, value)
    ensures high == value / 64 && b == 0x80 + value % 64
  {
  }

  lemma ThreeIff(lead: int, b1: int, b2: int, value: int)
    ensures Three(lead, b1, b2, value) <==>
              lead == value / 64 / 64 && b1 == 0x80 + value / 64 % 64 && b2 == 0x80 + value % 64
  {
    if q :| Continues(lead, b1, q) && Continues(q, b2, value) {
      SixBits(lead, b1, q);
      SixBits(q, b2, value);
    }
    if lead == value / 64 / 64 && b1 == 0x80 + value / 64 % 64 && b2 == 0x80 + value % 64 {
      assert Continues(lead, b1, value / 64) && Continues(value / 64, b2, value);
    }
  }

  lemma FourIff(lead: int, b1: int, b2: int, b3: int, value: int)
    ensures Four(lead, b1, b2, b3, value) <==>
              lead == value / 64 / 64 / 64 && b1 == 0x80 + value / 64 / 64 % 64 && b2 == 0x80 + value / 64 % 64 && b3 == 0x80 + value % 64
  {
    ThreeIff(lead, b1, b2, value / 64);
    if q :| Three(lead, b1, b2, q) && Continues(q, b3, value) {
      SixBits(q, b3, value);
    }
    if b3 == 0x80 + value % 64 {
      assert Continues(value / 64, b3, value);
    }
  }

  /** The encoder writes the octets of the standard, and those only. */
  lemma EncodeIff(b: seq<byte>, ch: char32)
    requires ch <= 0x10_FFFF
    ensures b == Encode(ch) <==> Octets(b, ch)
  {
    EncodeIsOctets(ch);
    if Octets(b, ch) {
      OctetsAreUnique(b, Encode(ch), ch);
    }
  }

  lemma Places(ch: nat)
    ensures ch / 64 / 64 == ch / 0x1000 && ch / 64 / 64 / 64 == ch / 0x4_0000
  {
  }

  lemma ThreeOctets(ch: char32)
    requires 0x800 <= ch <= 0xFFFF
    ensures Octets(Encode(ch), ch)
  {
    var b := Encode(ch);
    Places(ch);
    ThreeIff(b[0] as int - 0xE0, b[1], b[2], ch);
  }

  lemma FourOctets(ch: char32)
    requires 0x1_0000 <= ch <= 0x10_FFFF
    ensures Octets(Encode(ch), ch)
  {
    var b := Encode(ch);
    Places(ch);
    assert ch / 0x4_0000 <= 4;
    FourIff(b[0] as int - 0xF0, b[1], b[2], b[3], ch);
  }

  lemma EncodeIsOctets(ch: char32)
    requires ch <= 0x10_FFFF
    ensures Octets(Encode(ch), ch)
  {
    if ch > 0xFFFF {
      FourOctets(ch);
    } else if ch > 0x7FF {
      ThreeOctets(ch);
    } else if ch > 0x7F {
      assert Continues(Encode(ch)[0] as int - 0xC0, Encode(ch)[1], ch);
    }
  }

  lemma OctetsAreUnique(b: seq<byte>, c: seq<byte>, ch: nat)
    requires Octets(b, ch) && Octets(c, ch)
    ensures b == c
  {
    if |b| == 2 {
      SixBits(b[0] as int - 0xC0, b[1], ch);
      SixBits(c[0] as int - 0xC0, c[1], ch);
    } else if |b| == 3 {
      ThreeIff(b[0] as int - 0xE0, b[1], b[2], ch);
      ThreeIff(c[0] as int - 0xE0, c[1], c[2], ch);
    } else if |b| == 4 {
      FourIff(b[0] as int - 0xF0, b[1], b[2], b[3], ch);
      FourIff(c[0] as int - 0xF0, c[1], c[2], c[3], ch);
    }
  }

  /** Anything beyond the last code point is written as U+FFFD. */
  lemma BeyondIsReplacement(ch: char32)
    requires ch > 0x10_FFFF
    ensures Octets(Encode(ch), 0xFFFD)
  {
    EncodeIsOctets(0xFFFD);
    assert Encode(0xFFFD) == [0xEF, 0xBF, 0xBD];
  }

  /** How many octets a lead octet announces; continuation octets and those from 0xF5 on are
      no lead octets. */
  function Announced(b: byte): nat {
    if b <= 0x7F then 1
    else if 0xC0 <= b <= 0xDF then 2
    else if 0xE0 <= b <= 0xEF then 3
    else if 0xF0 <= b <= 0xF4 then 4
    else 0
  }

  /** The decoder finds the code point of every sequence of the standard, whatever follows. */
  lemma DecodeFindsOctets(b: seq<byte>, ch: char32, rest: seq<byte>)
    requires ch <= 0x10_FFFF && Octets(b, ch)
    ensures Decode(b + rest) == (ch, |b|)
  {
    EncodeIff(b, ch);
    DecodeEncode(ch, rest);
  }

  /** It gives up, on one octet, exactly where no sequence is announced or the announced one is
      cut off. */
  lemma DecodeGivesUpIff(s: seq<byte>)
    requires s != []
    ensures Decode(s).0 == INVALID <==> Announced(s[0]) == 0 || Announced(s[0]) > |s|
    ensures Decode(s).1 == if Decode(s).0 == INVALID then 1 else Announced(s[0])
  {
    assert s[0] / 32 == 6 <==> 0xC0 <= s[0] <= 0xDF;
    assert s[0] / 16 == 14 <==> 0xE0 <= s[0] <= 0xEF;
    assert s[0] / 8 == 30 && s[0] <= 0xF4 <==> 0xF0 <= s[0] <= 0xF4;
  }

  // ----- sanitised names -----

  /** What becomes of a character: `*`, and `/` when slashes are stripped, turn into an underscore,
      what no code point is into U+FFFD, and all else stays. */
  function Becomes(ch: char32, strip: bool): char32 {
    if ch == 0x2A || (strip && ch == 0x2F) then 0x5F
    else if ch > 0x10_FFFF then 0xFFFD
    else ch
  }

  lemma {:induction false} CleanedCharacters(chars: seq<char32>, strip: bool)
    ensures |CleanedAll(chars, strip)| == |chars|
    ensures forall i | 0 <= i < |chars| :: Written(CleanedAll(chars, strip)[i]) == Becomes(chars[i], strip)
  {
    if chars != [] {
      CleanedCharacters(chars[1..], strip);
    }
  }

  /** A sanitised name decodes to as many characters as the original, each as it should be. */
  lemma SanitizedCharacters(s: seq<byte>, strip: bool, i: nat)
    requires i < |DecodeAll(s)|
    ensures |DecodeAll(Sanitized(s, strip))| == |DecodeAll(s)|
    ensures DecodeAll(Sanitized(s, strip))[i] == Becomes(DecodeAll(s)[i], strip)
  {
    var chars := CleanedAll(DecodeAll(s), strip);
    CleanedCharacters(DecodeAll(s), strip);
    RoundTrip(WrittenAll(chars));
  }

  /** The name is the octets of characters that sanitising leaves alone. */
  ghost predicate IsClean(s: seq<byte>, strip: bool) {
    exists chars: seq<char32> | s == EncodeAll(chars) ::
      forall i | 0 <= i < |chars| :: Becomes(chars[i], strip) == chars[i]
  }

  /** Sanitising leaves a name alone, byte for byte, if and only if it is well-formed and has no
      character to replace. */
  lemma SanitizeKeepsIff(s: seq<byte>, strip: bool)
    ensures Sanitized(s, strip) == s <==> IsClean(s, strip)
  {
    if Sanitized(s, strip) == s {
      KeptIsClean(s, strip);
    }
    if chars: seq<char32> :| s == EncodeAll(chars) && forall i | 0 <= i < |chars| :: Becomes(chars[i], strip) == chars[i] {
      RoundTrip(chars);
      SaneStays(chars, strip);
    }
  }

  lemma BecomesOnce(ch: char32, strip: bool)
    ensures Becomes(Becomes(ch, strip), strip) == Becomes(ch, strip)
  {
  }

  lemma KeptIsClean(s: seq<byte>, strip: bool)
    requires Sanitized(s, strip) == s
    ensures IsClean(s, strip)
  {
    var written := WrittenAll(CleanedAll(DecodeAll(s), strip));
    assert s == EncodeAll(written);
    forall i | 0 <= i < |written| ensures Becomes(written[i], strip) == written[i] {
      CleanedCharacters(DecodeAll(s), strip);
      BecomesOnce(DecodeAll(s)[i], strip);
    }
  }
}
