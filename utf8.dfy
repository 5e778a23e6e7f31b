/** UTF-8, the fixed encoding of the buffer the Rust function receives.
    `str::len` counts the bytes of this encoding, and `from_utf8_unchecked`
    trusts the caller that the buffer is a valid encoding of some text. */
module Utf8 {

  /** One byte of the caller's buffer. */
  type Byte = b: int | 0 <= b < 0x100

  datatype Option<T> = None | Some(value: T)

  /** A scalar value decoded from the front of a buffer and the number of bytes it used. */
  datatype Decoded = Decoded(c: char, size: nat)

  /** Bytes UTF-8 needs for `c`, i.e. `str::len` of a one-character string. */
  function Utf8Len(c: char): (n: nat)
    ensures 1 <= n <= 4
    ensures n == 1 <==> c as int < 0x80
  {
    if c as int < 0x80 then 1
    else if c as int < 0x800 then 2
    else if c as int < 0x10000 then 3
    else 4
  }

  /** A continuation byte 10xxxxxx. */
  predicate IsCont(b: Byte) {
    0x80 <= b < 0xC0
  }

  /** The six payload bits of a continuation byte. */
  function Low(b: Byte): int {
    b as int - 0x80
  }

  /** The UTF-8 encoding of one scalar value. */
  function EncodeChar(c: char): (r: seq<Byte>)
    ensures |r| == Utf8Len(c)
    ensures |r| == 1 ==> r[0] as int == c as int
    ensures |r| > 1 ==> 0xC0 <= r[0] && forall i :: 1 <= i < |r| ==> IsCont(r[i])
  {
    var cp := c as int;
    if cp < 0x80 then [cp]
    else if cp < 0x800 then [0xC0 + cp / 64, 0x80 + cp % 64]
    else if cp < 0x10000 then [0xE0 + cp / 64 / 64, 0x80 + cp / 64 % 64, 0x80 + cp % 64]
    else [0xF0 + cp / 64 / 64 / 64, 0x80 + cp / 64 / 64 % 64, 0x80 + cp / 64 % 64, 0x80 + cp % 64]
  }

  /** The UTF-8 encoding of a text: the bytes a `&str` holding it points at. */
  function Encode(s: string): (r: seq<Byte>)
  {
    if s == [] then [] else EncodeChar(s[0]) + Encode(s[1..])
  }

  /** `str::len`: the number of bytes of the text's UTF-8 encoding. */
  function ByteLen(s: string): (n: nat)
    ensures |s| <= n <= 4 * |s|
    ensures n == |s| <==> forall i :: 0 <= i < |s| ==> s[i] as int < 0x80
  {
    if s == [] then 0 else Utf8Len(s[0]) + ByteLen(s[1..])
  }

  /** Decodes the first scalar value of a non-empty buffer, rejecting
      truncated sequences, stray continuation bytes, overlong forms,
      surrogates and values beyond U+10FFFF. */
  function DecodeFirst(b: seq<Byte>): (r: Option<Decoded>)
    requires |b| > 0
    ensures r.Some? ==> 1 <= r.value.size <= |b| && r.value.size == Utf8Len(r.value.c)
  {
    var b0 := b[0] as int;
    if b0 < 0x80 then
      Some(Decoded(b0 as char, 1))
    else if 0xC2 <= b0 < 0xE0 && |b| >= 2 && IsCont(b[1]) then
      Some(Decoded(((b0 - 0xC0) * 64 + Low(b[1])) as char, 2))
    else if 0xE0 <= b0 < 0xF0 && |b| >= 3 && IsCont(b[1]) && IsCont(b[2]) then
      var cp := ((b0 - 0xE0) * 64 + Low(b[1])) * 64 + Low(b[2]);
      if 0x800 <= cp && !(0xD800 <= cp < 0xE000) then Some(Decoded(cp as char, 3)) else None
    else if 0xF0 <= b0 < 0xF5 && |b| >= 4 && IsCont(b[1]) && IsCont(b[2]) && IsCont(b[3]) then
      var cp := (((b0 - 0xF0) * 64 + Low(b[1])) * 64 + Low(b[2])) * 64 + Low(b[3]);
      if 0x10000 <= cp < 0x110000 then Some(Decoded(cp as char, 4)) else None
    else
      None
  }

  /** Decodes a whole buffer; None when it is not valid UTF-8. */
  function Decode(b: seq<Byte>): (r: Option<string>)
    ensures r.Some? ==> |r.value| <= |b|
    ensures r.Some? ==> (r.value == [] <==> b == [])
    decreases |b|
  {
    if b == [] then Some([])
    else
      match DecodeFirst(b)
      case None => None
      case Some(d) =>
        match Decode(b[d.size..])
        case None => None
        case Some(rest) => Some([d.c] + rest)
  }

  /** Encoding then decoding the first character gives that character back. */
  lemma DecodeFirstOfEncodeChar(c: char, tail: seq<Byte>)
    ensures DecodeFirst(EncodeChar(c) + tail) == Some(Decoded(c, Utf8Len(c)))
  {
    var cp := c as int;
    var b := EncodeChar(c) + tail;
    if cp < 0x80 {
    } else if cp < 0x800 {
      assert (b[0] as int - 0xC0) * 64 + Low(b[1]) == cp;
    } else if cp < 0x10000 {
      assert ((b[0] as int - 0xE0) * 64 + Low(b[1])) * 64 + Low(b[2]) == cp;
    } else {
      assert (((b[0] as int - 0xF0) * 64 + Low(b[1])) * 64 + Low(b[2])) * 64 + Low(b[3]) == cp;
    }
  }

  /** What DecodeFirst accepts is exactly the encoding of the character it returns. */
  lemma EncodeCharOfDecodeFirst(b: seq<Byte>)
    requires |b| > 0 && DecodeFirst(b).Some?
    ensures EncodeChar(DecodeFirst(b).value.c) == b[..DecodeFirst(b).value.size]
  {
    var d := DecodeFirst(b).value;
    var cp := d.c as int;
    if b[0] < 0x80 {
    } else if b[0] < 0xE0 {
      assert cp / 64 == b[0] as int - 0xC0 && cp % 64 == Low(b[1]);
    } else if b[0] < 0xF0 {
      assert cp / 64 == (b[0] as int - 0xE0) * 64 + Low(b[1]) && cp % 64 == Low(b[2]);
    } else {
      assert cp / 64 / 64 == (b[0] as int - 0xF0) * 64 + Low(b[1]);
      assert cp / 64 == ((b[0] as int - 0xF0) * 64 + Low(b[1])) * 64 + Low(b[2]);
    }
  }

  /** Round trip: decoding the encoding of any text gives the text back. */
  lemma {:induction false} DecodeEncode(s: string)
    ensures Decode(Encode(s)) == Some(s)
  {
    if s != [] {
      var tail := Encode(s[1..]);
      var b := EncodeChar(s[0]) + tail;
      assert Encode(s) == b;
      DecodeFirstOfEncodeChar(s[0], tail);
      assert b[Utf8Len(s[0])..] == tail;
      DecodeEncode(s[1..]);
      assert Decode(b) == Some([s[0]] + s[1..]);
      assert [s[0]] + s[1..] == s;
    }
  }

  /** A valid non-empty buffer decodes to its first scalar value followed by
      what the remaining bytes decode to. */
  lemma DecodeCons(b: seq<Byte>)
    requires b != [] && Decode(b).Some?
    ensures DecodeFirst(b).Some?
    ensures Decode(b[DecodeFirst(b).value.size..]).Some?
    ensures Decode(b).value == [DecodeFirst(b).value.c] + Decode(b[DecodeFirst(b).value.size..]).value
  {
  }

  /** The encoding of a text is the encoding of its first character followed
      by the encoding of the rest. */
  lemma EncodeCons(c: char, s: string)
    ensures Encode([c] + s) == EncodeChar(c) + Encode(s)
  {
    assert ([c] + s)[1..] == s;
  }

  /** A buffer made of one character's encoding and a text's encoding is the
      encoding of that character followed by the text. */
  lemma EncodeSplit(b: seq<Byte>, c: char, size: nat, rest: string)
    requires size <= |b| && EncodeChar(c) == b[..size] && Encode(rest) == b[size..]
    ensures Encode([c] + rest) == b
  {
    EncodeCons(c, rest);
    assert b == b[..size] + b[size..];
  }

  /** Round trip the other way: a buffer that decodes is the encoding of what it decodes to. */
  lemma {:induction false} EncodeDecode(b: seq<Byte>)
    requires Decode(b).Some?
    ensures Encode(Decode(b).value) == b
    decreases |b|
  {
    if b != [] {
      DecodeCons(b);
      var d := DecodeFirst(b).value;
      var tail := b[d.size..];
      EncodeCharOfDecodeFirst(b);
      EncodeDecode(tail);
      EncodeSplit(b, d.c, d.size, Decode(tail).value);
    }
  }

  /** `str::len` of a text is the length of its encoding. */
  lemma {:induction false} EncodeLength(s: string)
    ensures |Encode(s)| == ByteLen(s)
  {
    if s != [] {
      EncodeLength(s[1..]);
    }
  }
}
