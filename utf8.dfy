/**
 * UTF-8 as Rust's `str::from_utf8` accepts it (the well-formed byte
 * sequences of section 4 of RFC 3629: no overlong forms, no surrogates,
 * nothing above U+10FFFF), and the encoding of a string back to bytes.
 */
module Utf8 {
  import opened Common

  predicate Cont(b: u8) {
    0x80 <= b <= 0xBF
  }

  /** The bytes that encode one scalar value. */
  function EncodeChar(c: char): (bs: seq<u8>)
    ensures 1 <= |bs| <= 4
  {
    var cp := c as int;
    if cp < 0x80 then [cp as u8]
    else if cp < 0x800 then [(0xC0 + cp / 0x40) as u8, (0x80 + cp % 0x40) as u8]
    else if cp < 0x1_0000 then
      [(0xE0 + cp / 0x1000) as u8, (0x80 + (cp / 0x40) % 0x40) as u8, (0x80 + cp % 0x40) as u8]
    else
      [(0xF0 + cp / 0x4_0000) as u8, (0x80 + (cp / 0x1000) % 0x40) as u8,
       (0x80 + (cp / 0x40) % 0x40) as u8, (0x80 + cp % 0x40) as u8]
  }

  /** The bytes that encode a string, character by character. */
  function Encode(s: string): (bs: seq<u8>)
    ensures |s| <= |bs| <= 4 * |s|
  {
    if s == [] then [] else EncodeChar(s[0]) + Encode(s[1..])
  }

  /**
   * The scalar value encoded at the start of `b` and the number of bytes it
   * takes, or `None` when `b` does not start with a well-formed sequence.
   */
  function DecodeChar(b: seq<u8>): (r: Option<(char, nat)>)
    requires |b| >= 1
    ensures r.Some? ==> 1 <= r.value.1 <= |b|
  {
    var b0 := b[0] as int;
    if b0 < 0x80 then Some((b0 as char, 1))
    else if 0xC2 <= b0 <= 0xDF then
      if |b| >= 2 && Cont(b[1]) then
        Some((((b0 - 0xC0) * 0x40 + (b[1] as int - 0x80)) as char, 2))
      else None
    else if 0xE0 <= b0 <= 0xEF then
      var lo := if b0 == 0xE0 then 0xA0 else 0x80;
      var hi := if b0 == 0xED then 0x9F else 0xBF;
      if |b| >= 3 && lo <= b[1] as int <= hi && Cont(b[2]) then
        var cp := (b0 - 0xE0) * 0x1000 + (b[1] as int - 0x80) * 0x40 + (b[2] as int - 0x80);
        Some((cp as char, 3))
      else None
    else if 0xF0 <= b0 <= 0xF4 then
      var lo := if b0 == 0xF0 then 0x90 else 0x80;
      var hi := if b0 == 0xF4 then 0x8F else 0xBF;
      if |b| >= 4 && lo <= b[1] as int <= hi && Cont(b[2]) && Cont(b[3]) then
        var cp := (b0 - 0xF0) * 0x4_0000 + (b[1] as int - 0x80) * 0x1000
                  + (b[2] as int - 0x80) * 0x40 + (b[3] as int - 0x80);
        Some((cp as char, 4))
      else None
    else None
  }

  /** The string `b` encodes, or `None` when `b` is not well-formed UTF-8. */
  function Decode(b: seq<u8>): Option<string>
    decreases |b|
  {
    if b == [] then Some([])
    else
      match DecodeChar(b)
      case None => None
      case Some((c, n)) =>
        match Decode(b[n..])
        case None => None
        case Some(s) => Some([c] + s)
  }

  /** Decoding the encoding of a character, followed by anything, yields it back. */
  lemma DecodeEncodeChar(c: char, rest: seq<u8>)
    ensures DecodeChar(EncodeChar(c) + rest) == Some((c, |EncodeChar(c)|))
  {
    var cp := c as int;
    var b := EncodeChar(c) + rest;
    if cp < 0x80 {
    } else if cp < 0x800 {
      Digits2(cp);
      assert b[0] as int == 0xC0 + cp / 0x40 && b[1] as int == 0x80 + cp % 0x40;
    } else if cp < 0x1_0000 {
      Digits3(cp);
      assert b[0] as int == 0xE0 + cp / 0x1000;
      assert b[1] as int == 0x80 + (cp / 0x40) % 0x40 && b[2] as int == 0x80 + cp % 0x40;
    } else {
      Digits4(cp);
      assert b[0] as int == 0xF0 + cp / 0x4_0000 && b[1] as int == 0x80 + (cp / 0x1000) % 0x40;
      assert b[2] as int == 0x80 + (cp / 0x40) % 0x40 && b[3] as int == 0x80 + cp % 0x40;
    }
  }

  lemma Digits2(cp: int)
    requires 0x80 <= cp < 0x800
    ensures 2 <= cp / 0x40 <= 0x1F
    ensures (cp / 0x40) * 0x40 + cp % 0x40 == cp
  {
  }

  lemma Digits3(cp: int)
    requires 0x800 <= cp < 0x1_0000 && !(0xD800 <= cp < 0xE000)
    ensures cp / 0x1000 <= 0xF
    ensures cp / 0x1000 == 0 ==> (cp / 0x40) % 0x40 >= 0x20
    ensures cp / 0x1000 == 0xD ==> (cp / 0x40) % 0x40 < 0x20
    ensures (cp / 0x1000) * 0x1000 + ((cp / 0x40) % 0x40) * 0x40 + cp % 0x40 == cp
  {
  }

  lemma Digits4(cp: int)
    requires 0x1_0000 <= cp <= 0x10_FFFF
    ensures cp / 0x4_0000 <= 4
    ensures cp / 0x4_0000 == 0 ==> (cp / 0x1000) % 0x40 >= 0x10
    ensures cp / 0x4_0000 == 4 ==> (cp / 0x1000) % 0x40 < 0x10
    ensures (cp / 0x4_0000) * 0x4_0000 + ((cp / 0x1000) % 0x40) * 0x1000
            + ((cp / 0x40) % 0x40) * 0x40 + cp % 0x40 == cp
  {
  }

  /** A well-formed sequence at the start of `b` is the encoding of what it decodes to. */
  lemma EncodeDecodeChar(b: seq<u8>)
    requires |b| >= 1 && DecodeChar(b).Some?
    ensures EncodeChar(DecodeChar(b).value.0) == b[..DecodeChar(b).value.1]
  {
    var b0 := b[0] as int;
    var c := DecodeChar(b).value.0;
    var n := DecodeChar(b).value.1;
    if b0 < 0x80 {
      assert b[..n] == [b[0]];
    } else if b0 <= 0xDF {
      var x1 := b[1] as int - 0x80;
      Split2(b0 - 0xC0, x1);
      assert b[..n] == [b[0], b[1]];
    } else if b0 <= 0xEF {
      var x1, x2 := b[1] as int - 0x80, b[2] as int - 0x80;
      Split3(b0 - 0xE0, x1, x2);
      assert b[..n] == [b[0], b[1], b[2]];
    } else {
      var x1, x2, x3 := b[1] as int - 0x80, b[2] as int - 0x80, b[3] as int - 0x80;
      Split4(b0 - 0xF0, x1, x2, x3);
      assert b[..n] == [b[0], b[1], b[2], b[3]];
    }
  }

  lemma Split2(x0: int, x1: int)
    requires 2 <= x0 <= 0x1F && 0 <= x1 < 0x40
    ensures 0x80 <= x0 * 0x40 + x1 < 0x800
    ensures (x0 * 0x40 + x1) / 0x40 == x0 && (x0 * 0x40 + x1) % 0x40 == x1
  {
  }

  lemma Split3(x0: int, x1: int, x2: int)
    requires 0 <= x0 <= 0xF && 0 <= x1 < 0x40 && 0 <= x2 < 0x40
    requires x0 == 0 ==> x1 >= 0x20
    ensures 0x800 <= x0 * 0x1000 + x1 * 0x40 + x2 < 0x1_0000
    ensures (x0 * 0x1000 + x1 * 0x40 + x2) / 0x1000 == x0
    ensures ((x0 * 0x1000 + x1 * 0x40 + x2) / 0x40) % 0x40 == x1
    ensures (x0 * 0x1000 + x1 * 0x40 + x2) % 0x40 == x2
  {
  }

  lemma Split4(x0: int, x1: int, x2: int, x3: int)
    requires 0 <= x0 <= 4 && 0 <= x1 < 0x40 && 0 <= x2 < 0x40 && 0 <= x3 < 0x40
    requires x0 == 0 ==> x1 >= 0x10
    ensures 0x1_0000 <= x0 * 0x4_0000 + x1 * 0x1000 + x2 * 0x40 + x3
    ensures (x0 * 0x4_0000 + x1 * 0x1000 + x2 * 0x40 + x3) / 0x4_0000 == x0
    ensures ((x0 * 0x4_0000 + x1 * 0x1000 + x2 * 0x40 + x3) / 0x1000) % 0x40 == x1
    ensures ((x0 * 0x4_0000 + x1 * 0x1000 + x2 * 0x40 + x3) / 0x40) % 0x40 == x2
    ensures (x0 * 0x4_0000 + x1 * 0x1000 + x2 * 0x40 + x3) % 0x40 == x3
  {
  }

  /** Every string survives encoding and decoding. */
  lemma {:induction false} DecodeEncode(s: string)
    ensures Decode(Encode(s)) == Some(s)
  {
    if s != [] {
      var b := Encode(s);
      assert b == EncodeChar(s[0]) + Encode(s[1..]);
      DecodeEncodeChar(s[0], Encode(s[1..]));
      assert b[|EncodeChar(s[0])|..] == Encode(s[1..]);
      DecodeEncode(s[1..]);
      assert [s[0]] + s[1..] == s;
    }
  }

  /** Decoding is injective: well-formed bytes are the encoding of their string. */
  lemma {:induction false} EncodeDecode(b: seq<u8>)
    requires Decode(b).Some?
    ensures Encode(Decode(b).value) == b
    decreases |b|
  {
    if b != [] {
      var n := DecodeChar(b).value.1;
      var c := DecodeChar(b).value.0;
      EncodeDecodeChar(b);
      EncodeDecode(b[n..]);
      var s := Decode(b).value;
      assert s == [c] + Decode(b[n..]).value;
      assert s[0] == c && s[1..] == Decode(b[n..]).value;
      assert b == b[..n] + b[n..];
    }
  }

  /** Only the byte 0 decodes to the character NUL. */
  lemma {:induction false} DecodeNoNul(b: seq<u8>)
    requires Decode(b).Some?
    requires forall k :: 0 <= k < |b| ==> b[k] != 0
    ensures '\0' !in Decode(b).value
    decreases |b|
  {
    if b != [] {
      var n := DecodeChar(b).value.1;
      DecodeNoNul(b[n..]);
    }
  }

  /** A string without NUL encodes to bytes without 0, a valid C string body. */
  lemma {:induction false} EncodeNoNul(s: string)
    requires '\0' !in s
    ensures forall k :: 0 <= k < |Encode(s)| ==> Encode(s)[k] != 0
  {
    if s != [] {
      EncodeNoNul(s[1..]);
      assert Encode(s) == EncodeChar(s[0]) + Encode(s[1..]);
    }
  }

  /** Encoding distributes over concatenation. */
  lemma {:induction false} EncodeAppend(a: string, b: string)
    ensures Encode(a + b) == Encode(a) + Encode(b)
  {
    if a != [] {
      assert (a + b)[0] == a[0] && (a + b)[1..] == a[1..] + b;
      EncodeAppend(a[1..], b);
    } else {
      assert a + b == b;
    }
  }
}
