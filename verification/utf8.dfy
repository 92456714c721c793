/** UTF-8, as the client relies on it: `DSConvertor.stringToBytes` is taken to
    write a string's UTF-8 bytes, and Foundation's
    `String(data:encoding: .utf8)` to read bytes back, answering nil on
    anything that is not well-formed UTF-8 and dropping one leading
    byte-order mark. Dafny's `char` is a Unicode scalar
    value, so a `string` is a sequence of scalars. */
module Utf8 {
  import opened Basics
  import BigEndian

  /** A byte of the form 10xxxxxx. */
  predicate IsContinuation(b: byte) {
    0x80 <= b < 0xC0
  }

  predicate IsAscii(s: string) {
    forall i :: 0 <= i < |s| ==> (s[i] as int) < 0x80
  }

  /** The one- to four-byte writing of a single scalar. */
  function EncodeScalar(c: char): (r: Bytes)
    ensures 1 <= |r| <= 4
    ensures |r| == 1 <==> (c as int) < 0x80
    ensures |r| == 1 ==> r[0] == c as int
    ensures forall i :: 1 <= i < |r| ==> IsContinuation(r[i])
  {
    var cp := c as int;
    if cp < 0x80 then [cp]
    else if cp < 0x800 then [0xC0 + cp / 64, 0x80 + cp % 64]
    else if cp < 0x1_0000 then [0xE0 + cp / 64 / 64, 0x80 + cp / 64 % 64, 0x80 + cp % 64]
    else [0xF0 + cp / 64 / 64 / 64, 0x80 + cp / 64 / 64 % 64, 0x80 + cp / 64 % 64, 0x80 + cp % 64]
  }

  /** The UTF-8 writing of a string: the writings of its scalars, in order. */
  function Encode(s: string): (r: Bytes)
    ensures |r| >= |s|
    ensures |r| == |s| <==> IsAscii(s)
  {
    if s == [] then []
    else
      var head := EncodeScalar(s[0]);
      var tail := Encode(s[1..]);
      assert IsAscii(s) <==> (s[0] as int) < 0x80 && IsAscii(s[1..]) by {
        if (s[0] as int) < 0x80 && IsAscii(s[1..]) {
          forall i | 0 <= i < |s| ensures (s[i] as int) < 0x80 {
            if i > 0 { assert s[i] == s[1..][i - 1]; }
          }
        }
      }
      head + tail
  }

  /** Reads the scalar at the front of b, with the number of bytes it takes;
      None when the front of b is not a well-formed UTF-8 sequence
      (a stray continuation byte, a truncated sequence, an overlong form, a
      surrogate, or a value beyond U+10FFFF). */
  function DecodeFirst(b: Bytes): (r: Option<(char, nat)>)
    requires |b| > 0
    ensures r.Some? ==> 1 <= r.value.1 <= |b| && r.value.1 <= 4
  {
    var b0: int := b[0];
    if b0 < 0x80 then Some((b0 as char, 1))
    else if b0 < 0xC0 then None
    else if b0 < 0xE0 then
      if |b| < 2 || !IsContinuation(b[1]) then None
      else
        var cp: int := (b0 - 0xC0) * 64 + (b[1] as int - 0x80);
        if cp < 0x80 then None else Some((cp as char, 2))
    else if b0 < 0xF0 then
      if |b| < 3 || !IsContinuation(b[1]) || !IsContinuation(b[2]) then None
      else
        var cp := ((b0 - 0xE0) * 64 + (b[1] as int - 0x80)) * 64 + (b[2] as int - 0x80);
        if cp < 0x800 || (0xD800 <= cp < 0xE000) then None else Some((cp as char, 3))
    else if b0 < 0xF8 then
      if |b| < 4 || !IsContinuation(b[1]) || !IsContinuation(b[2]) || !IsContinuation(b[3]) then None
      else
        var cp := (((b0 - 0xF0) * 64 + (b[1] as int - 0x80)) * 64 + (b[2] as int - 0x80)) * 64 + (b[3] as int - 0x80);
        if cp < 0x1_0000 || cp >= 0x11_0000 then None else Some((cp as char, 4))
    else None
  }

  /** The string a byte sequence spells in UTF-8, or None when it is not UTF-8. */
  function Decode(b: Bytes): Option<string>
    decreases |b|
  {
    if b == [] then Some("")
    else
      match DecodeFirst(b)
      case None => None
      case Some((c, n)) =>
        match Decode(b[n..])
        case None => None
        case Some(rest) => Some([c] + rest)
  }

  /** Six-bit digit split: x == hi * 64 + lo with lo < 64 fixes both. */
  lemma Split64(x: nat, hi: nat, lo: nat)
    requires x == hi * 64 + lo && lo < 64
    ensures x / 64 == hi && x % 64 == lo
  {
    BigEndian.ModUnique(x, 64, hi, lo);
  }

  /** The writing of a scalar reads back as that scalar, whatever follows it. */
  lemma DecodeFirstOfEncodeScalar(c: char, rest: Bytes)
    ensures DecodeFirst(EncodeScalar(c) + rest) == Some((c, |EncodeScalar(c)|))
  {
    var cp := c as int;
    var e := EncodeScalar(c);
    var b := e + rest;
    assert b[..|e|] == e;
    if cp < 0x80 {
    } else if cp < 0x800 {
      assert b[0] == 0xC0 + cp / 64 && b[1] == 0x80 + cp % 64;
      assert cp == (cp / 64) * 64 + cp % 64;
    } else if cp < 0x1_0000 {
      var d := cp / 64;
      assert cp == d * 64 + cp % 64;
      assert d == (d / 64) * 64 + d % 64;
      assert b[0] == 0xE0 + d / 64 && b[1] == 0x80 + d % 64 && b[2] == 0x80 + cp % 64;
    } else {
      var d := cp / 64;
      var d2 := d / 64;
      assert cp == d * 64 + cp % 64;
      assert d == d2 * 64 + d % 64;
      assert d2 == (d2 / 64) * 64 + d2 % 64;
      assert b[0] == 0xF0 + d2 / 64 && b[1] == 0x80 + d2 % 64;
      assert b[2] == 0x80 + d % 64 && b[3] == 0x80 + cp % 64;
    }
  }

  /** Whatever the front scalar reads as, writing it gives back the bytes read. */
  lemma EncodeScalarOfDecodeFirst(b: Bytes)
    requires |b| > 0 && DecodeFirst(b).Some?
    ensures EncodeScalar(DecodeFirst(b).value.0) == b[..DecodeFirst(b).value.1]
  {
    var b0: int := b[0];
    var c := DecodeFirst(b).value.0;
    if b0 < 0x80 {
    } else if b0 < 0xE0 {
      var cp: int := (b0 - 0xC0) * 64 + (b[1] as int - 0x80);
      Split64(cp, b0 - 0xC0, b[1] - 0x80);
      assert c as int == cp;
    } else if b0 < 0xF0 {
      var hi: int := (b0 - 0xE0) * 64 + (b[1] as int - 0x80);
      var cp: int := hi * 64 + (b[2] as int - 0x80);
      Split64(cp, hi, b[2] - 0x80);
      Split64(hi, b0 - 0xE0, b[1] - 0x80);
      assert c as int == cp;
    } else {
      var top: int := (b0 - 0xF0) * 64 + (b[1] as int - 0x80);
      var hi: int := top * 64 + (b[2] as int - 0x80);
      var cp: int := hi * 64 + (b[3] as int - 0x80);
      Split64(cp, hi, b[3] - 0x80);
      Split64(hi, top, b[2] - 0x80);
      Split64(top, b0 - 0xF0, b[1] - 0x80);
      assert c as int == cp;
    }
  }

  /** Round trip: every string's UTF-8 writing reads back as that string. */
  lemma {:induction false} DecodeEncode(s: string)
    ensures Decode(Encode(s)) == Some(s)
  {
    if s != [] {
      var e := EncodeScalar(s[0]);
      var tail := Encode(s[1..]);
      DecodeFirstOfEncodeScalar(s[0], tail);
      assert (e + tail)[|e|..] == tail;
      DecodeEncode(s[1..]);
      assert [s[0]] + s[1..] == s;
    }
  }

  /** The other direction: bytes that read as a string are exactly that
      string's writing, so Decode accepts nothing but UTF-8 writings. */
  lemma {:induction false} EncodeDecode(b: Bytes)
    requires Decode(b).Some?
    ensures Encode(Decode(b).value) == b
    decreases |b|
  {
    if b != [] {
      var c, n := DecodeCons(b);
      var rest := Decode(b[n..]).value;
      EncodeDecode(b[n..]);
      var s := [c] + rest;
      assert s[0] == c && s[1..] == rest;
      EncodeCons(s);
      assert b == b[..n] + b[n..];
    }
  }

  /** A decoded non-empty byte sequence is a scalar, whose writing is the
      front n bytes, followed by the decoding of the rest. */
  lemma DecodeCons(b: Bytes) returns (c: char, n: nat)
    requires b != [] && Decode(b).Some?
    ensures 1 <= n <= |b| && EncodeScalar(c) == b[..n]
    ensures Decode(b[n..]).Some? && Decode(b).value == [c] + Decode(b[n..]).value
  {
    c, n := DecodeFirst(b).value.0, DecodeFirst(b).value.1;
    EncodeScalarOfDecodeFirst(b);
  }

  /** The writing of a non-empty string is its first scalar's writing
      followed by the writing of the rest. */
  lemma EncodeCons(s: string)
    requires s != []
    ensures Encode(s) == EncodeScalar(s[0]) + Encode(s[1..])
  {
  }

  /** A UTF-8 writing of ASCII text is the text's character codes. */
  lemma {:induction false} EncodeAscii(s: string)
    requires IsAscii(s)
    ensures forall i :: 0 <= i < |s| ==> Encode(s)[i] == s[i] as int
  {
    if s != [] {
      assert IsAscii(s[1..]) by {
        forall i | 0 <= i < |s[1..]| ensures (s[1..][i] as int) < 0x80 {
          assert s[1..][i] == s[i + 1];
        }
      }
      EncodeAscii(s[1..]);
    }
  }
  // ---------------------------------------------------------------------------
  // Reading text the way Foundation does

  /** U+FEFF, the byte-order mark. */
  const Bom: char := 0xFEFF as char

  /** b begins with EF BB BF, the UTF-8 writing of the byte-order mark. */
  predicate StartsWithBom(b: Bytes) {
    |b| >= 3 && b[0] == 0xEF && b[1] == 0xBB && b[2] == 0xBF
  }

  /** b without a leading byte-order mark. */
  function AfterBom(b: Bytes): (r: Bytes)
    ensures StartsWithBom(b) ==> r == b[3..]
    ensures !StartsWithBom(b) ==> r == b
  {
    if StartsWithBom(b) then b[3..] else b
  }

  /** Foundation's `String(data:encoding: .utf8)`: the text b spells, with
      one leading byte-order mark dropped, or None when b is not UTF-8. */
  function ReadText(b: Bytes): (r: Option<string>)
    ensures r.Some? <==> Decode(b).Some?
    ensures r.Some? ==> Encode(r.value) == AfterBom(b)
    ensures r.Some? && StartsWithBom(b) ==> Decode(b).value == [Bom] + r.value
    ensures r.Some? && !StartsWithBom(b) ==> r.value == Decode(b).value
  {
    match Decode(b)
    case None => None
    case Some(text) =>
      BomIsFirst(b);
      if |text| > 0 && text[0] == Bom then Some(text[1..]) else Some(text)
  }

  /** The mark's writing is EF BB BF. */
  lemma EncodeBom()
    ensures EncodeScalar(Bom) == [0xEF, 0xBB, 0xBF]
  {
    Split64(0xFEFF, 1019, 63);
    Split64(1019, 15, 59);
  }

  /** EF BB BF at the front reads as the mark, three bytes long. */
  lemma DecodeFirstBom(b: Bytes)
    requires StartsWithBom(b)
    ensures DecodeFirst(b) == Some((Bom, 3))
  {
  }

  /** A decodable b starts with the mark's writing exactly when its text
      starts with the mark, and the rest of the text writes the rest. */
  lemma BomIsFirst(b: Bytes)
    requires Decode(b).Some?
    ensures var text := Decode(b).value;
      (StartsWithBom(b) <==> |text| > 0 && text[0] == Bom) &&
      (StartsWithBom(b) ==> Encode(text[1..]) == b[3..]) &&
      Encode(text) == b
  {
    var text := Decode(b).value;
    EncodeDecode(b);
    if StartsWithBom(b) {
      DecodeFirstBom(b);
      assert text == [Bom] + Decode(b[3..]).value;
      EncodeDecode(b[3..]);
      assert text[1..] == Decode(b[3..]).value;
    } else if |text| > 0 && text[0] == Bom {
      EncodeCons(text);
      EncodeBom();
    }
  }

  /** Text that does not start with the mark reads back unchanged. */
  lemma ReadTextOfEncode(s: string)
    requires s == [] || s[0] != Bom
    ensures ReadText(Encode(s)) == Some(s)
  {
    DecodeEncode(s);
  }

  /** A written mark in front of text is dropped on reading. */
  lemma ReadTextDropsBom(s: string)
    ensures ReadText(Encode([Bom] + s)) == Some(s)
  {
    DecodeEncode([Bom] + s);
    assert ([Bom] + s)[1..] == s;
  }
}
