/** The encoded forms of a string that the application's libraries see: the
    UTF-8 bytes a password is hashed from, and the UTF-16 code units that
    JavaScript's `String.prototype.length` counts. A Dafny `char` is a
    Unicode scalar value, so a string here is a sequence of scalar values
    and both encodings are total. */
module Encoding {

  newtype byte = b: int | 0 <= b < 256

  /** The UTF-8 form of one scalar value: one to four bytes, as laid out in
      section 3 of RFC 3629. */
  function Utf8Char(c: char): (r: seq<byte>)
    ensures 1 <= |r| <= 4
  {
    var n := c as int;
    if n < 0x80 then [n as byte]
    else if n < 0x800 then [(0xC0 + n / 0x40) as byte, (0x80 + n % 0x40) as byte]
    else if n < 0x1_0000 then
      [(0xE0 + n / 0x1000) as byte, (0x80 + n / 0x40 % 0x40) as byte, (0x80 + n % 0x40) as byte]
    else
      [(0xF0 + n / 0x4_0000) as byte, (0x80 + n / 0x1000 % 0x40) as byte,
       (0x80 + n / 0x40 % 0x40) as byte, (0x80 + n % 0x40) as byte]
  }

  function Utf8(s: string): seq<byte>
  {
    if s == [] then [] else Utf8Char(s[0]) + Utf8(s[1..])
  }

  /** The length of the sequence a leading byte announces; 0 for a byte
      that cannot lead one. */
  function LeadLength(b: byte): nat
  {
    if b < 0x80 then 1
    else if 0xC0 <= b < 0xE0 then 2
    else if 0xE0 <= b < 0xF0 then 3
    else if 0xF0 <= b < 0xF8 then 4
    else 0
  }

  /** The scalar value of one encoded sequence. */
  function CharValue(bs: seq<byte>): int
    requires 1 <= |bs| <= 4
  {
    if |bs| == 1 then bs[0] as int
    else if |bs| == 2 then (bs[0] as int - 0xC0) * 0x40 + (bs[1] as int - 0x80)
    else if |bs| == 3 then
      (bs[0] as int - 0xE0) * 0x1000 + (bs[1] as int - 0x80) * 0x40 + (bs[2] as int - 0x80)
    else
      (bs[0] as int - 0xF0) * 0x4_0000 + (bs[1] as int - 0x80) * 0x1000
        + (bs[2] as int - 0x80) * 0x40 + (bs[3] as int - 0x80)
  }

  /** A UTF-8 decoder, reading scalar values up to the first byte that
      cannot lead a sequence. */
  function Decode(bs: seq<byte>): seq<int>
    decreases |bs|
  {
    if bs == [] then []
    else
      var k := LeadLength(bs[0]);
      if k == 0 || k > |bs| then [] else [CharValue(bs[..k])] + Decode(bs[k..])
  }

  /** The scalar values of a string. */
  function Values(s: string): (r: seq<int>)
    ensures |r| == |s|
    ensures forall i :: 0 <= i < |s| ==> r[i] == s[i] as int
  {
    seq(|s|, i requires 0 <= i < |s| => s[i] as int)
  }

  /** Dropping six bits and then six more drops twelve. */
  lemma DivSplit6(n: nat)
    ensures n / 0x40 / 0x40 == n / 0x1000
    ensures n / 0x40 == n / 0x1000 * 0x40 + n / 0x40 % 0x40
  {
    var q, r := n / 0x1000, n % 0x1000;
    assert n == q * 0x1000 + r;
    assert n / 0x40 == q * 0x40 + r / 0x40;
  }

  /** Dropping twelve bits and then six more drops eighteen. */
  lemma DivSplit12(n: nat)
    ensures n / 0x1000 / 0x40 == n / 0x4_0000
    ensures n / 0x1000 == n / 0x4_0000 * 0x40 + n / 0x1000 % 0x40
  {
    var q, r := n / 0x4_0000, n % 0x4_0000;
    assert n == q * 0x4_0000 + r;
    assert n / 0x1000 == q * 0x40 + r / 0x1000;
  }

  /** One character's bytes announce their own length and decode back to
      the character. */
  lemma Utf8CharRoundTrip(c: char)
    ensures LeadLength(Utf8Char(c)[0]) == |Utf8Char(c)|
    ensures CharValue(Utf8Char(c)) == c as int
  {
    var n := c as int;
    if n >= 0x800 {
      DivSplit6(n);
    }
    if n >= 0x1_0000 {
      DivSplit12(n);
    }
  }

  /** Decoding undoes encoding, so distinct strings have distinct UTF-8
      forms. */
  lemma {:induction false} DecodeUtf8(s: string)
    ensures Decode(Utf8(s)) == Values(s)
  {
    if s != [] {
      var head := Utf8Char(s[0]);
      var bs := Utf8(s);
      Utf8CharRoundTrip(s[0]);
      DecodeUtf8(s[1..]);
      assert bs[..|head|] == head && bs[|head|..] == Utf8(s[1..]);
      assert Values(s) == [s[0] as int] + Values(s[1..]);
    }
  }

  lemma Utf8Injective(s: string, t: string)
    ensures Utf8(s) == Utf8(t) <==> s == t
  {
    if Utf8(s) == Utf8(t) {
      DecodeUtf8(s);
      DecodeUtf8(t);
      assert |s| == |t|;
      forall i | 0 <= i < |s|
        ensures s[i] == t[i]
      {
        assert Values(s)[i] == Values(t)[i];
      }
    }
  }

  /** A character below U+0080 is the single byte of its value. */
  predicate Ascii(s: string)
  {
    forall i :: 0 <= i < |s| ==> s[i] as int < 0x80
  }

  lemma {:induction false} AsciiUtf8(s: string)
    requires Ascii(s)
    ensures |Utf8(s)| == |s|
    ensures forall i :: 0 <= i < |s| ==> Utf8(s)[i] as int == s[i] as int
  {
    if s != [] {
      AsciiUtf8(s[1..]);
      assert Utf8(s) == [s[0] as int as byte] + Utf8(s[1..]);
    }
  }

  /** Only the NUL character encodes to a zero byte. */
  lemma {:induction false} Utf8NoZero(s: string)
    requires '\0' !in s
    ensures 0 !in Utf8(s)
  {
    if s != [] {
      Utf8NoZero(s[1..]);
      assert s[0] != '\0';
    }
  }

  /** The UTF-16 code units of one scalar value: itself below U+10000,
      otherwise a high and a low surrogate. */
  function Utf16Char(c: char): (r: seq<int>)
    ensures forall i :: 0 <= i < |r| ==> 0 <= r[i] < 0x1_0000
  {
    var n := c as int;
    if n < 0x1_0000 then [n]
    else [0xD800 + (n - 0x1_0000) / 0x400, 0xDC00 + (n - 0x1_0000) % 0x400]
  }

  function Utf16(s: string): seq<int>
  {
    if s == [] then [] else Utf16Char(s[0]) + Utf16(s[1..])
  }

  /** `s.length` in JavaScript: the number of UTF-16 code units. */
  function Utf16Length(s: string): nat
  {
    |Utf16(s)|
  }

  /** A character outside the Basic Multilingual Plane. */
  predicate Astral(c: char)
  {
    c as int >= 0x1_0000
  }

  function AstralCount(s: string): nat
  {
    if s == [] then 0 else (if Astral(s[0]) then 1 else 0) + AstralCount(s[1..])
  }

  /** Each character counts once, and once more when it lies outside the
      Basic Multilingual Plane; so the JavaScript length equals the number
      of characters exactly when no character is astral. */
  lemma {:induction false} Utf16LengthCount(s: string)
    ensures Utf16Length(s) == |s| + AstralCount(s)
    ensures |s| <= Utf16Length(s) <= 2 * |s|
    ensures Utf16Length(s) == |s| <==> forall i :: 0 <= i < |s| ==> !Astral(s[i])
  {
    if s != [] {
      Utf16LengthCount(s[1..]);
      assert Utf16(s) == Utf16Char(s[0]) + Utf16(s[1..]);
      if Utf16Length(s) == |s| {
        forall i | 0 <= i < |s|
          ensures !Astral(s[i])
        {
          if i > 0 {
            assert s[i] == s[1..][i - 1];
          }
        }
      }
    }
  }

  /** Three emoji are three characters but six code units. */
  lemma EmojiLength()
    ensures |"\U{1F600}\U{1F600}\U{1F600}"| == 3
    ensures Utf16Length("\U{1F600}\U{1F600}\U{1F600}") == 6
  {
    var s := "\U{1F600}\U{1F600}\U{1F600}";
    assert s[1..] == "\U{1F600}\U{1F600}" && s[1..][1..] == "\U{1F600}";
    assert "\U{1F600}"[1..] == [];
  }
}
