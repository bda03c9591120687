/** UTF-8 as `String::from_utf8` accepts it: the well-formed byte sequences
    of section 4 of RFC 3629 (no overlong forms, no surrogates, nothing above
    U+10FFFF). A Dafny `char` is a Unicode scalar value, as a Rust `char` is,
    so a `string` here is exactly the text a Rust `String` can hold. */
module Utf8 {

  type Byte = b: int | 0 <= b < 0x100

  datatype Option<+T> = None | Some(value: T)

  /** A continuation byte, 10xxxxxx. */
  predicate IsCont(b: Byte) { 0x80 <= b < 0xC0 }

  /** The six payload bits of a continuation byte. */
  function Low(b: Byte): int { b as int - 0x80 }

  /** The bytes of one scalar value, shortest form. */
  function EncodeChar(c: char): (bs: seq<Byte>)
    ensures 1 <= |bs| <= 4
  {
    var n := c as int;
    if n < 0x80 then [n]
    else if n < 0x800 then [0xC0 + n / 0x40, 0x80 + n % 0x40]
    else if n < 0x1_0000 then [0xE0 + n / 0x1000, 0x80 + (n / 0x40) % 0x40, 0x80 + n % 0x40]
    else [0xF0 + n / 0x4_0000, 0x80 + (n / 0x1000) % 0x40, 0x80 + (n / 0x40) % 0x40, 0x80 + n % 0x40]
  }

  /** The UTF-8 bytes of a whole text (what `str::as_bytes` gives). */
  function Encode(s: string): seq<Byte>
  {
    if s == [] then [] else EncodeChar(s[0]) + Encode(s[1..])
  }

  /** Decodes the scalar value at the front of `bs`, with the number of bytes
      it takes, or None when the front is not a well-formed sequence. */
  function DecodeFirst(bs: seq<Byte>): (r: Option<(char, nat)>)
    requires |bs| > 0
    ensures r.Some? ==> 1 <= r.value.1 <= |bs|
  {
    var b0: int := bs[0];
    if b0 < 0x80 then
      Some((b0 as char, 1))
    else if 0xC0 <= b0 < 0xE0 then
      if 2 <= |bs| && IsCont(bs[1]) then
        var n := (b0 - 0xC0) * 0x40 + Low(bs[1]);
        if 0x80 <= n then Some((n as char, 2)) else None
      else None
    else if 0xE0 <= b0 < 0xF0 then
      if 3 <= |bs| && IsCont(bs[1]) && IsCont(bs[2]) then
        var n := (b0 - 0xE0) * 0x1000 + Low(bs[1]) * 0x40 + Low(bs[2]);
        if 0x800 <= n && !(0xD800 <= n < 0xE000) then Some((n as char, 3)) else None
      else None
    else if 0xF0 <= b0 < 0xF8 then
      if 4 <= |bs| && IsCont(bs[1]) && IsCont(bs[2]) && IsCont(bs[3]) then
        var n := (b0 - 0xF0) * 0x4_0000 + Low(bs[1]) * 0x1000 + Low(bs[2]) * 0x40 + Low(bs[3]);
        if 0x1_0000 <= n < 0x11_0000 then Some((n as char, 4)) else None
      else None
    else
      None
  }

  /** `String::from_utf8`: the text the bytes spell, or None when they are
      not well-formed UTF-8. */
  function Decode(bs: seq<Byte>): Option<string>
    decreases |bs|
  {
    if bs == [] then Some([])
    else match DecodeFirst(bs)
      case None => None
      case Some((c, k)) =>
        match Decode(bs[k..])
        case None => None
        case Some(rest) => Some([c] + rest)
  }

  /** Well-formed UTF-8. */
  predicate Valid(bs: seq<Byte>) { Decode(bs).Some? }

  /** Splits a scalar value into the 6-bit groups the encoder emits. */
  lemma Groups(n: nat)
    ensures n == (n / 0x40) * 0x40 + n % 0x40
    ensures n / 0x1000 == (n / 0x40) / 0x40
    ensures n / 0x4_0000 == (n / 0x1000) / 0x40
    ensures n == (n / 0x1000) * 0x1000 + ((n / 0x40) % 0x40) * 0x40 + n % 0x40
    ensures n == (n / 0x4_0000) * 0x4_0000 + ((n / 0x1000) % 0x40) * 0x1000 + ((n / 0x40) % 0x40) * 0x40 + n % 0x40
  {
    var a, b, c := n / 0x40, n / 0x1000, n / 0x4_0000;
    assert n == a * 0x40 + n % 0x40;
    assert a == (a / 0x40) * 0x40 + a % 0x40;
    assert b == a / 0x40;
    assert b == (b / 0x40) * 0x40 + b % 0x40;
    assert c == b / 0x40;
  }

  lemma DecodeFirstEncodeChar(c: char, rest: seq<Byte>)
    ensures DecodeFirst(EncodeChar(c) + rest) == Some((c, |EncodeChar(c)|))
  {
    var n := c as int;
    var bs := EncodeChar(c) + rest;
    Groups(n);
    if n < 0x80 {
      assert bs[0] == n;
    } else if n < 0x800 {
      assert bs[0] == 0xC0 + n / 0x40 && Low(bs[1]) == n % 0x40;
    } else if n < 0x1_0000 {
      assert bs[0] == 0xE0 + n / 0x1000;
      assert Low(bs[1]) == (n / 0x40) % 0x40 && Low(bs[2]) == n % 0x40;
    } else {
      assert bs[0] == 0xF0 + n / 0x4_0000;
      assert Low(bs[1]) == (n / 0x1000) % 0x40;
      assert Low(bs[2]) == (n / 0x40) % 0x40 && Low(bs[3]) == n % 0x40;
    }
  }

  lemma EncodeCharDecodeFirst(bs: seq<Byte>)
    requires |bs| > 0 && DecodeFirst(bs).Some?
    ensures EncodeChar(DecodeFirst(bs).value.0) == bs[..DecodeFirst(bs).value.1]
  {
    var c := DecodeFirst(bs).value.0;
    var n := c as int;
    var b0: int := bs[0];
    Groups(n);
    if b0 < 0x80 {
      assert n == b0;
    } else if b0 < 0xE0 {
      assert n == (b0 - 0xC0) * 0x40 + Low(bs[1]);
      assert n / 0x40 == b0 - 0xC0 && n % 0x40 == Low(bs[1]);
    } else if b0 < 0xF0 {
      var m := (b0 - 0xE0) * 0x40 + Low(bs[1]);
      assert n == m * 0x40 + Low(bs[2]);
      assert n / 0x40 == m && n % 0x40 == Low(bs[2]);
      assert m / 0x40 == b0 - 0xE0 && m % 0x40 == Low(bs[1]);
    } else {
      var m1 := (b0 - 0xF0) * 0x40 + Low(bs[1]);
      var m2 := m1 * 0x40 + Low(bs[2]);
      assert n == m2 * 0x40 + Low(bs[3]);
      assert n / 0x40 == m2 && n % 0x40 == Low(bs[3]);
      assert m2 / 0x40 == m1 && m2 % 0x40 == Low(bs[2]);
      assert m1 / 0x40 == b0 - 0xF0 && m1 % 0x40 == Low(bs[1]);
    }
  }

  /** Every text survives encoding and decoding. */
  lemma {:induction false} DecodeEncode(s: string)
    ensures Decode(Encode(s)) == Some(s)
  {
    if s != [] {
      var head := EncodeChar(s[0]);
      var bs := Encode(s);
      DecodeFirstEncodeChar(s[0], Encode(s[1..]));
      assert bs[|head|..] == Encode(s[1..]);
      DecodeEncode(s[1..]);
      assert [s[0]] + s[1..] == s;
    }
  }

  /** Decoding loses nothing: accepted bytes are exactly the encoding of the
      text they decode to. */
  lemma {:induction false} EncodeDecode(bs: seq<Byte>)
    requires Valid(bs)
    ensures Encode(Decode(bs).value) == bs
  {
    if bs != [] {
      var c := DecodeFirst(bs).value.0;
      var k := DecodeFirst(bs).value.1;
      EncodeCharDecodeFirst(bs);
      EncodeDecode(bs[k..]);
      var s := Decode(bs).value;
      assert s == [c] + Decode(bs[k..]).value;
      assert s[1..] == Decode(bs[k..]).value;
      assert bs == bs[..k] + bs[k..];
    }
  }
}
