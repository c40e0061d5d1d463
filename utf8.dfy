/**
 * UTF-8 as the macOS side uses it: `String.data(using: .utf8)` encodes every
 * scalar value, and `String(data:encoding: .utf8)` skips a leading byte-order
 * mark and refuses any byte sequence that is not well-formed UTF-8 (truncated
 * or stray continuation bytes, overlong forms, surrogates, values above
 * U+10FFFF).
 */
module Utf8 {
  import opened Wrappers
  import opened Bytes

  /** The byte sequence of one scalar value: 1 to 4 bytes by its size. */
  function EncodeChar(c: char): (r: seq<byte>)
    ensures 1 <= |r| <= 4
    ensures |r| == 1 <==> c as int < 0x80
  {
    var n := c as int;
    if n < 0x80 then [n]
    else if n < 0x800 then [0xC0 + n / 64, 0x80 + n % 64]
    else if n < 0x10000 then [0xE0 + n / 4096, 0x80 + (n / 64) % 64, 0x80 + n % 64]
    else [0xF0 + n / 262144, 0x80 + (n / 4096) % 64, 0x80 + (n / 64) % 64, 0x80 + n % 64]
  }

  /** The encoding of a string: its characters' byte sequences in order. */
  function Encode(s: string): (r: seq<byte>)
    ensures |s| <= |r| <= 4 * |s|
  {
    if s == [] then [] else EncodeChar(s[0]) + Encode(s[1..])
  }

  predicate IsContinuation(x: byte)
  {
    0x80 <= x < 0xC0
  }

  /**
   * The scalar value at the head of `b` and the number of bytes it takes, or
   * None when the head is not a well-formed UTF-8 sequence.
   */
  function DecodeChar(b: seq<byte>): (r: Option<(char, nat)>)
    ensures r.Some? ==> 1 <= r.value.1 <= |b| && r.value.1 <= 4
  {
    if b == [] then None
    else if b[0] < 0x80 then Some((b[0] as char, 1))
    else if 0xC2 <= b[0] < 0xE0 then
      if |b| >= 2 && IsContinuation(b[1]) then
        Some((((b[0] as int - 0xC0) * 64 + (b[1] as int - 0x80)) as char, 2))
      else None
    else if 0xE0 <= b[0] < 0xF0 then
      if |b| >= 3 && IsContinuation(b[1]) && IsContinuation(b[2]) then
        var n := (b[0] as int - 0xE0) * 4096 + (b[1] as int - 0x80) * 64 + (b[2] as int - 0x80);
        if n < 0x800 || 0xD800 <= n < 0xE000 then None else Some((n as char, 3))
      else None
    else if 0xF0 <= b[0] < 0xF5 then
      if |b| >= 4 && IsContinuation(b[1]) && IsContinuation(b[2]) && IsContinuation(b[3]) then
        var n := (b[0] as int - 0xF0) * 262144 + (b[1] as int - 0x80) * 4096 + (b[2] as int - 0x80) * 64 + (b[3] as int - 0x80);
        if n < 0x10000 || n >= 0x110000 then None else Some((n as char, 4))
      else None
    else None
  }

  /** The string `b` encodes, or None when `b` is not well-formed UTF-8. */
  function Decode(b: seq<byte>): (r: Option<string>)
    ensures r.Some? ==> |r.value| <= |b|
    decreases |b|
  {
    if b == [] then Some([])
    else match DecodeChar(b)
      case None => None
      case Some((c, k)) =>
        match Decode(b[k..])
        case None => None
        case Some(rest) => Some([c] + rest)
  }

  // ---------------------------------------------------------------------------
  // One character
  // ---------------------------------------------------------------------------

  /** A character's bytes are decoded back to it, whatever follows them. */
  lemma DecodeEncodeChar(c: char, rest: seq<byte>)
    ensures DecodeChar(EncodeChar(c) + rest) == Some((c, |EncodeChar(c)|))
  {
    var n := c as int;
    var b := EncodeChar(c) + rest;
    if n < 0x80 {
    } else if n < 0x800 {
      assert b[0] == 0xC0 + n / 64 && b[1] == 0x80 + n % 64;
    } else if n < 0x10000 {
      assert b[0] == 0xE0 + n / 4096 && b[1] == 0x80 + (n / 64) % 64 && b[2] == 0x80 + n % 64;
      ThreeDigits(n);
    } else {
      assert b[0] == 0xF0 + n / 262144 && b[1] == 0x80 + (n / 4096) % 64;
      assert b[2] == 0x80 + (n / 64) % 64 && b[3] == 0x80 + n % 64;
      FourDigits(n);
    }
  }

  /** n in base 64 with three digits. */
  lemma ThreeDigits(n: int)
    requires 0 <= n < 0x10000
    ensures n == (n / 4096) * 4096 + ((n / 64) % 64) * 64 + n % 64
  {
    assert n == (n / 64) * 64 + n % 64;
    assert n / 64 == (n / 4096) * 64 + (n / 64) % 64;
  }

  /** n in base 64 with four digits. */
  lemma FourDigits(n: int)
    requires 0 <= n < 0x110000
    ensures n == (n / 262144) * 262144 + ((n / 4096) % 64) * 4096 + ((n / 64) % 64) * 64 + n % 64
  {
    assert n == (n / 64) * 64 + n % 64;
    assert n / 64 == (n / 4096) * 64 + (n / 64) % 64;
    assert n / 4096 == (n / 262144) * 64 + (n / 4096) % 64;
  }

  /** Two base-64 digits behind a 2-byte lead are encoded back to themselves. */
  lemma EncodeTwo(d0: int, d1: int)
    requires 2 <= d0 < 32 && 0 <= d1 < 64
    ensures EncodeChar((d0 * 64 + d1) as char) == [0xC0 + d0, 0x80 + d1]
  {
    var n := d0 * 64 + d1;
    assert n / 64 == d0 && n % 64 == d1;
  }

  /** Three base-64 digits behind a 3-byte lead are encoded back to themselves. */
  lemma EncodeThree(d0: int, d1: int, d2: int)
    requires 0 <= d0 < 16 && 0 <= d1 < 64 && 0 <= d2 < 64
    requires var n := d0 * 4096 + d1 * 64 + d2; 0x800 <= n && !(0xD800 <= n < 0xE000)
    ensures EncodeChar((d0 * 4096 + d1 * 64 + d2) as char) == [0xE0 + d0, 0x80 + d1, 0x80 + d2]
  {
    var n := d0 * 4096 + d1 * 64 + d2;
    assert n % 64 == d2 && n / 64 == d0 * 64 + d1;
    assert (n / 64) % 64 == d1 && n / 4096 == d0;
  }

  /** Four base-64 digits behind a 4-byte lead are encoded back to themselves. */
  lemma EncodeFour(d0: int, d1: int, d2: int, d3: int)
    requires 0 <= d0 < 5 && 0 <= d1 < 64 && 0 <= d2 < 64 && 0 <= d3 < 64
    requires var n := d0 * 262144 + d1 * 4096 + d2 * 64 + d3; 0x10000 <= n < 0x110000
    ensures EncodeChar((d0 * 262144 + d1 * 4096 + d2 * 64 + d3) as char) ==
              [0xF0 + d0, 0x80 + d1, 0x80 + d2, 0x80 + d3]
  {
    var n := d0 * 262144 + d1 * 4096 + d2 * 64 + d3;
    assert n % 64 == d3 && n / 64 == d0 * 4096 + d1 * 64 + d2;
    assert (n / 64) % 64 == d2 && n / 4096 == d0 * 64 + d1;
    assert (n / 4096) % 64 == d1 && n / 262144 == d0;
  }

  /** The bytes a decoded character took are exactly its encoding. */
  lemma DecodedCharEncodes(b: seq<byte>)
    requires DecodeChar(b).Some?
    ensures b[..DecodeChar(b).value.1] == EncodeChar(DecodeChar(b).value.0)
  {
    if b[0] < 0x80 {
    } else if b[0] < 0xE0 {
      EncodeTwo(b[0] as int - 0xC0, b[1] as int - 0x80);
      assert b[..2] == [b[0], b[1]];
    } else if b[0] < 0xF0 {
      EncodeThree(b[0] as int - 0xE0, b[1] as int - 0x80, b[2] as int - 0x80);
      assert b[..3] == [b[0], b[1], b[2]];
    } else {
      EncodeFour(b[0] as int - 0xF0, b[1] as int - 0x80, b[2] as int - 0x80, b[3] as int - 0x80);
      assert b[..4] == [b[0], b[1], b[2], b[3]];
    }
  }

  // ---------------------------------------------------------------------------
  // Strings
  // ---------------------------------------------------------------------------

  /** Every string survives encoding and decoding. */
  lemma {:induction false} DecodeEncode(s: string)
    ensures Decode(Encode(s)) == Some(s)
  {
    if s != [] {
      var b := Encode(s);
      var k := |EncodeChar(s[0])|;
      DecodeEncodeChar(s[0], Encode(s[1..]));
      assert b[k..] == Encode(s[1..]);
      DecodeEncode(s[1..]);
      assert s == [s[0]] + s[1..];
    }
  }

  /** Whatever decodes is the encoding of what it decodes to: decoding loses nothing. */
  lemma {:induction false} EncodeDecode(b: seq<byte>)
    requires Decode(b).Some?
    ensures Encode(Decode(b).value) == b
    decreases |b|
  {
    if b != [] {
      var c := DecodeChar(b).value.0;
      var k := DecodeChar(b).value.1;
      var rest := Decode(b[k..]).value;
      calc {
        Encode(Decode(b).value);
        Encode([c] + rest);
        { assert ([c] + rest)[1..] == rest; }
        EncodeChar(c) + Encode(rest);
        { EncodeDecode(b[k..]); DecodedCharEncodes(b); }
        b[..k] + b[k..];
        b;
      }
    }
  }

  // ---------------------------------------------------------------------------
  // String(data:encoding: .utf8): a leading byte-order mark is skipped
  // ---------------------------------------------------------------------------

  /** The UTF-8 encoding of U+FEFF, the byte-order mark. */
  const ByteOrderMark: seq<byte> := [0xEF, 0xBB, 0xBF]

  /** `b` starts with the byte-order mark. */
  predicate StartsWithMark(b: seq<byte>)
  {
    |b| >= 3 && b[0] == 0xEF && b[1] == 0xBB && b[2] == 0xBF
  }

  /** The bytes after a leading byte-order mark, or all of them when there is none. */
  function SkipByteOrderMark(b: seq<byte>): seq<byte>
  {
    if StartsWithMark(b) then b[3..] else b
  }

  /** The text after a leading U+FEFF, or all of it when it does not start with one. */
  function WithoutByteOrderMark(s: string): string
  {
    if s != [] && s[0] == '\U{FEFF}' then s[1..] else s
  }

  /**
   * String(data:encoding: .utf8): strict decoding of the bytes after a
   * leading byte-order mark, which the decoder consumes without producing a
   * character.
   */
  function DecodeData(b: seq<byte>): Option<string>
  {
    Decode(SkipByteOrderMark(b))
  }

  /** The bytes of U+FEFF are the byte-order mark. */
  lemma EncodeByteOrderMark()
    ensures EncodeChar('\U{FEFF}') == ByteOrderMark
  {
    assert 0xFEFF / 4096 == 15 && (0xFEFF / 64) % 64 == 59 && 0xFEFF % 64 == 63;
  }

  /** An encoding starts with the byte-order mark exactly when the text starts with U+FEFF. */
  lemma EncodingStartsWithMark(s: string)
    ensures StartsWithMark(Encode(s)) <==> (s != [] && s[0] == '\U{FEFF}')
  {
    EncodeByteOrderMark();
    if s != [] {
      var b := Encode(s);
      DecodeEncodeChar(s[0], Encode(s[1..]));
      if StartsWithMark(b) {
        assert DecodeChar(b) == Some(('\U{FEFF}', 3));
      }
      if s[0] == '\U{FEFF}' {
        assert b[..3] == EncodeChar(s[0]);
      }
    }
  }

  /**
   * Decoding the encoding of a text gives the text back, less a leading
   * U+FEFF: only such a text does not survive the round trip.
   */
  lemma DecodeDataEncode(s: string)
    ensures DecodeData(Encode(s)) == Some(WithoutByteOrderMark(s))
  {
    EncodingStartsWithMark(s);
    if s != [] && s[0] == '\U{FEFF}' {
      EncodeByteOrderMark();
      assert Encode(s)[3..] == Encode(s[1..]);
      DecodeEncode(s[1..]);
    } else {
      DecodeEncode(s);
    }
  }

  /** Whatever decodes re-encodes to its bytes less a leading byte-order mark. */
  lemma EncodeDecodeData(b: seq<byte>)
    requires DecodeData(b).Some?
    ensures Encode(DecodeData(b).value) == SkipByteOrderMark(b)
  {
    EncodeDecode(SkipByteOrderMark(b));
  }

  /** A leading U+FEFF is lost: "\u{FEFF}hi" comes back as "hi". */
  lemma LeadingMarkLost()
    ensures DecodeData(Encode("\U{FEFF}hi")) == Some("hi")
  {
    DecodeDataEncode("\U{FEFF}hi");
    assert "\U{FEFF}hi"[1..] == "hi";
  }
}
