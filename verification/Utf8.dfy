/**
  UTF-8 decoding and encoding of `common/StringUtil.cpp` (section 3 of RFC 3629) and the
  file name sanitising of `common/FileSystem.cpp` that rests on them (POSIX rules).
 */
module Utf8 {
  import opened Arithmetic

  type char32 = u32

  const MAX_CODE_POINT: char32 := 0x10_FFFF
  const INVALID: char32 := 0xFFFF_FFFF
  const REPLACEMENT: char32 := 0xFFFD

  // ----- one code point -----

  /** `EncodeAndAppendUTF8`: the bytes appended for `ch`. */
  function Encode(ch: char32): (b: seq<byte>)
    ensures 1 <= |b| <= 4
    ensures ch < 0x80 <==> b[0] < 0x80
    ensures ch < 0x80 ==> b == [ch]
    ensures ch >= 0x80 ==> forall i | 0 <= i < |b| :: b[i] >= 0x80
  {
    if ch <= 0x7F then [ch]
    else if ch <= 0x7FF then [0xC0 + ch / 64 % 32, 0x80 + ch % 64]
    else if ch <= 0xFFFF then [0xE0 + ch / 0x1000 % 16, 0x80 + ch / 64 % 64, 0x80 + ch % 64]
    else if ch <= MAX_CODE_POINT then
      [0xF0 + ch / 0x4_0000 % 8, 0x80 + ch / 0x1000 % 64, 0x80 + ch / 64 % 64, 0x80 + ch % 64]
    else [0xEF, 0xBF, 0xBD]
  }

  /** The low bits of a byte, `b & (m - 1)` for a power of two. */
  function Low(b: byte, m: nat): int
    requires m > 0
  {
    b % m
  }

  /** `DecodeUTF8`: a code point and how many bytes it took. Continuation bytes are not
      checked; a bad or truncated lead byte takes one byte. */
  function Decode(s: seq<byte>): (r: (char32, nat))
    requires s != []
    ensures 1 <= r.1 <= |s|
  {
    if s[0] < 0x80 then (s[0], 1)
    else if s[0] / 32 == 6 && |s| >= 2 then (64 * Low(s[0], 32) + Low(s[1], 64), 2)
    else if s[0] / 16 == 14 && |s| >= 3 then (0x1000 * Low(s[0], 16) + 64 * Low(s[1], 64) + Low(s[2], 64), 3)
    else if s[0] / 8 == 30 && s[0] <= 0xF4 && |s| >= 4 then
      (0x4_0000 * Low(s[0], 8) + 0x1000 * Low(s[1], 64) + 64 * Low(s[2], 64) + Low(s[3], 64), 4)
    else (INVALID, 1)
  }

  lemma SixBitDigits(ch: nat)
    ensures ch == 0x4_0000 * (ch / 0x4_0000) + 0x1000 * (ch / 0x1000 % 64) + 64 * (ch / 64 % 64) + ch % 64
  {
    var q1 := ch / 64;
    var q2 := q1 / 64;
    assert ch / 0x1000 == q2 && ch / 0x4_0000 == q2 / 64;
  }

  lemma TwoBytes(ch: char32, rest: seq<byte>)
    requires 0x80 <= ch <= 0x7FF
    ensures Decode(Encode(ch) + rest) == (ch, 2)
  {
  }

  lemma ThreeBytes(ch: char32, rest: seq<byte>)
    requires 0x800 <= ch <= 0xFFFF
    ensures Decode(Encode(ch) + rest) == (ch, 3)
  {
    var x, y, z := ch / 0x1000, ch / 64 % 64, ch % 64;
    SixBitDigits(ch);
    assert x < 16 && ch / 0x4_0000 == 0;
    assert (0xE0 + x) / 16 == 14 && Low(0xE0 + x, 16) == x;
    assert Low(0x80 + y, 64) == y && Low(0x80 + z, 64) == z;
  }

  lemma FourBytes(ch: char32, rest: seq<byte>)
    requires 0x1_0000 <= ch <= MAX_CODE_POINT
    ensures Decode(Encode(ch) + rest) == (ch, 4)
  {
    var w, x, y, z := ch / 0x4_0000, ch / 0x1000 % 64, ch / 64 % 64, ch % 64;
    SixBitDigits(ch);
    assert w <= 4;
    assert (0xF0 + w) / 8 == 30 && Low(0xF0 + w, 8) == w;
    assert Low(0x80 + x, 64) == x && Low(0x80 + y, 64) == y && Low(0x80 + z, 64) == z;
  }

  /** Decoding an encoded code point finds it again, whatever follows. */
  lemma DecodeEncode(ch: char32, rest: seq<byte>)
    requires ch <= MAX_CODE_POINT
    ensures Decode(Encode(ch) + rest) == (ch, |Encode(ch)|)
  {
    if 0x80 <= ch <= 0x7FF {
      TwoBytes(ch, rest);
    } else if 0x800 <= ch <= 0xFFFF {
      ThreeBytes(ch, rest);
    } else if ch > 0xFFFF {
      FourBytes(ch, rest);
    }
  }

  // ----- strings -----

  function EncodeAll(chars: seq<char32>): seq<byte> {
    if chars == [] then [] else Encode(chars[0]) + EncodeAll(chars[1..])
  }

  function DecodeAll(s: seq<byte>): seq<char32>
    decreases |s|
  {
    if s == [] then [] else [Decode(s).0] + DecodeAll(s[Decode(s).1..])
  }

  /** Decoding a string of encoded code points gives them back, in order. */
  lemma {:induction false} RoundTrip(chars: seq<char32>)
    requires forall i | 0 <= i < |chars| :: chars[i] <= MAX_CODE_POINT
    ensures DecodeAll(EncodeAll(chars)) == chars
  {
    if chars != [] {
      var b, rest := Encode(chars[0]), EncodeAll(chars[1..]);
      DecodeEncode(chars[0], rest);
      assert (b + rest)[|b|..] == rest;
      RoundTrip(chars[1..]);
    }
  }

  // ----- file names -----

  predicate IsSane(ch: char32, stripSlashes: bool) {
    !(ch == '/' as int && stripSlashes) && ch != '*' as int
  }

  function Cleaned(ch: char32, stripSlashes: bool): char32 {
    if IsSane(ch, stripSlashes) then ch else '_' as int
  }

  function CleanedAll(chars: seq<char32>, stripSlashes: bool): seq<char32> {
    if chars == [] then [] else [Cleaned(chars[0], stripSlashes)] + CleanedAll(chars[1..], stripSlashes)
  }

  function Sanitized(s: seq<byte>, stripSlashes: bool): seq<byte> {
    EncodeAll(CleanedAll(DecodeAll(s), stripSlashes))
  }

  /** The code point whose encoding is written for `ch`. */
  function Written(ch: char32): (w: char32)
    ensures w <= MAX_CODE_POINT && Encode(w) == Encode(ch)
  {
    if ch <= MAX_CODE_POINT then ch else REPLACEMENT
  }

  function WrittenAll(chars: seq<char32>): (w: seq<char32>)
    ensures |w| == |chars| && forall i | 0 <= i < |w| :: w[i] == Written(chars[i])
    ensures EncodeAll(w) == EncodeAll(chars)
  {
    if chars == [] then [] else [Written(chars[0])] + WrittenAll(chars[1..])
  }

  lemma {:induction false} CleanedIsSane(chars: seq<char32>, strip: bool)
    ensures |CleanedAll(chars, strip)| == |chars|
    ensures forall i | 0 <= i < |chars| :: IsSane(CleanedAll(chars, strip)[i], strip)
  {
    if chars != [] {
      CleanedIsSane(chars[1..], strip);
    }
  }

  lemma {:induction false} SaneStays(chars: seq<char32>, strip: bool)
    requires forall i | 0 <= i < |chars| :: IsSane(chars[i], strip)
    ensures CleanedAll(chars, strip) == chars
  {
    if chars != [] {
      SaneStays(chars[1..], strip);
    }
  }

  /** Sanitising twice is sanitising once, on any bytes. */
  lemma SanitizeIsIdempotent(s: seq<byte>, strip: bool)
    ensures Sanitized(Sanitized(s, strip), strip) == Sanitized(s, strip)
  {
    var chars := CleanedAll(DecodeAll(s), strip);
    CleanedIsSane(DecodeAll(s), strip);
    var w := WrittenAll(chars);
    RoundTrip(w);
    SaneStays(w, strip);
  }

  lemma {:induction false} NoByteOf(chars: seq<char32>, c: byte)
    requires c < 0x80 && forall i | 0 <= i < |chars| :: chars[i] != c
    ensures c !in EncodeAll(chars)
  {
    if chars != [] {
      NoByteOf(chars[1..], c);
      assert c !in Encode(chars[0]);
    }
  }

  /** A sanitised name has no `*` byte, and no `/` byte when slashes are stripped, however the
      input tries to spell them. */
  lemma SanitizedIsSafe(s: seq<byte>, strip: bool)
    ensures '*' as int !in Sanitized(s, strip)
    ensures strip ==> '/' as int !in Sanitized(s, strip)
  {
    var chars := CleanedAll(DecodeAll(s), strip);
    CleanedIsSane(DecodeAll(s), strip);
    NoByteOf(chars, '*' as int);
    if strip {
      NoByteOf(chars, '/' as int);
    }
  }

  lemma SanitizeStep(s: seq<byte>, strip: bool)
    requires s != []
    ensures Sanitized(s, strip) == Encode(Cleaned(Decode(s).0, strip)) + Sanitized(s[Decode(s).1..], strip)
  {
    var ch, rest := Decode(s).0, DecodeAll(s[Decode(s).1..]);
    assert ([ch] + rest)[1..] == rest;
    var cleaned := [Cleaned(ch, strip)] + CleanedAll(rest, strip);
    assert cleaned[1..] == CleanedAll(rest, strip);
  }

  lemma SanitizeOn(done: seq<byte>, str: seq<byte>, pos: nat, strip: bool, all: seq<byte>)
    requires pos < |str| && done + Sanitized(str[pos..], strip) == all
    ensures var (ch, n) := Decode(str[pos..]);
            pos + n <= |str| && done + Encode(Cleaned(ch, strip)) + Sanitized(str[pos + n..], strip) == all
  {
    var (ch, n) := Decode(str[pos..]);
    SanitizeStep(str[pos..], strip);
    var first, rest := Encode(Cleaned(ch, strip)), Sanitized(str[pos + n..], strip);
    assert str[pos..][n..] == str[pos + n..];
    assert done + (first + rest) == done + first + rest;
  }

  /** `SanitizeFileName` on a string view. */
  method SanitizeFileName(str: seq<byte>, stripSlashes: bool) returns (ret: seq<byte>)
    ensures ret == Sanitized(str, stripSlashes)
  {
    ret := [];
    var pos := 0;
    ghost var all := Sanitized(str, stripSlashes);
    assert str[0..] == str && [] + all == all;
    while pos < |str|
      invariant 0 <= pos <= |str|
      invariant ret + Sanitized(str[pos..], stripSlashes) == all
    {
      ret, pos := SanitizeNext(ret, str, pos, stripSlashes, all);
    }
    assert str[pos..] == [];
  }

  /** One turn of the loop. */
  method SanitizeNext(done: seq<byte>, str: seq<byte>, at: nat, stripSlashes: bool, ghost all: seq<byte>)
    returns (ret: seq<byte>, pos: nat)
    requires at < |str| && done + Sanitized(str[at..], stripSlashes) == all
    ensures at < pos <= |str| && ret + Sanitized(str[pos..], stripSlashes) == all
  {
    SanitizeOn(done, str, at, stripSlashes, all);
    var (ch, n) := Decode(str[at..]);
    pos := at + n;
    ret := done + Encode(Cleaned(ch, stripSlashes));
  }
}
