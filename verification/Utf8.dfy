/**
 The string encoder of the OTLP load script, which works on UTF-16 code units, and a UTF-8
 reader written from section 4 of RFC 3629. `surrogates` makes the reader also accept the
 three-byte forms of the code units 0xD800..0xDFFF, which RFC 3629 forbids.
 */
module Utf8 {
  import opened Wrappers
  import opened ProtoWire

  type Unit = x: int | 0 <= x < 0x1_0000

  predicate IsSurrogate(c: int) {
    0xD800 <= c <= 0xDFFF
  }

  predicate NoSurrogate(s: seq<Unit>) {
    forall i :: 0 <= i < |s| ==> !IsSurrogate(s[i])
  }

  /** The bytes pushed for one code unit. */
  function EncodeUnit(c: Unit): seq<Byte> {
    if c < 0x80 then [c]
    else if c < 0x800 then [0xC0 + c / 0x40, 0x80 + c % 0x40]
    else [0xE0 + c / 0x1000, 0x80 + c / 0x40 % 0x40, 0x80 + c % 0x40]
  }

  function StringBytes(s: seq<Unit>): seq<Byte> {
    if s == [] then [] else EncodeUnit(s[0]) + StringBytes(s[1..])
  }

  lemma {:induction false} StringBytesSnoc(s: seq<Unit>, c: Unit)
    ensures StringBytes(s + [c]) == StringBytes(s) + EncodeUnit(c)
  {
    hide EncodeUnit;
    if s == [] {
      assert StringBytes([c]) == EncodeUnit(c) + StringBytes([]);
    } else {
      assert (s + [c])[1..] == s[1..] + [c];
      StringBytesSnoc(s[1..], c);
    }
  }

  method EncodeString(s: seq<Unit>) returns (bytes: seq<Byte>)
    ensures bytes == StringBytes(s)
  {
    bytes := [];
    for i := 0 to |s|
      invariant bytes == StringBytes(s[..i])
    {
      var code := s[i];
      StringBytesSnoc(s[..i], code);
      assert s[..i + 1] == s[..i] + [code];
      if code < 0x80 {
        bytes := bytes + [code];
      } else if code < 0x800 {
        bytes := bytes + [0xC0 + code / 0x40];
        bytes := bytes + [0x80 + code % 0x40];
      } else {
        bytes := bytes + [0xE0 + code / 0x1000];
        bytes := bytes + [0x80 + code / 0x40 % 0x40];
        bytes := bytes + [0x80 + code % 0x40];
      }
    }
    assert s[..|s|] == s;
  }

  // ---------------------------------------------------------------- reader

  predicate IsTail(b: Byte) {
    0x80 <= b < 0xC0
  }

  /** One character at the head of s: its code point and the bytes it takes; None if ill-formed. */
  function ReadChar(s: seq<Byte>, surrogates: bool): (r: Option<(nat, nat)>)
    ensures r.Some? ==> 1 <= r.value.1 <= |s|
  {
    if s == [] then None
    else if s[0] < 0x80 then Some((s[0], 1))
    else if 0xC0 <= s[0] < 0xE0 then
      if |s| < 2 || !IsTail(s[1]) then None else
      var b0: int, b1: int := s[0], s[1];
      var c := (b0 - 0xC0) * 0x40 + (b1 - 0x80);
      if c < 0x80 then None else Some((c, 2))
    else if 0xE0 <= s[0] < 0xF0 then
      if |s| < 3 || !IsTail(s[1]) || !IsTail(s[2]) then None else
      var b0: int, b1: int, b2: int := s[0], s[1], s[2];
      var c := (b0 - 0xE0) * 0x1000 + (b1 - 0x80) * 0x40 + (b2 - 0x80);
      if c < 0x800 || (!surrogates && IsSurrogate(c)) then None else Some((c, 3))
    else if 0xF0 <= s[0] < 0xF8 then
      if |s| < 4 || !IsTail(s[1]) || !IsTail(s[2]) || !IsTail(s[3]) then None else
      var b0: int, b1: int, b2: int, b3: int := s[0], s[1], s[2], s[3];
      var c := (b0 - 0xF0) * 0x4_0000 + (b1 - 0x80) * 0x1000 + (b2 - 0x80) * 0x40 + (b3 - 0x80);
      if c < 0x1_0000 || c > 0x10_FFFF then None else Some((c, 4))
    else None
  }

  function ReadText(s: seq<Byte>, surrogates: bool): Option<seq<int>>
    decreases |s|
  {
    if s == [] then Some([])
    else
      var (c, n) :- ReadChar(s, surrogates);
      var rest :- ReadText(s[n..], surrogates);
      Some([c] + rest)
  }

  lemma UnitReads(c: Unit, rest: seq<Byte>, surrogates: bool)
    ensures ReadChar(EncodeUnit(c) + rest, surrogates)
         == if surrogates || !IsSurrogate(c) then Some((c, |EncodeUnit(c)|)) else None
  {
    var s := EncodeUnit(c) + rest;
    if c < 0x80 {
    } else if c < 0x800 {
      assert s[0] == 0xC0 + c / 0x40 && s[1] == 0x80 + c % 0x40;
    } else {
      ThreeDigits(c);
      assert s[0] == 0xE0 + c / 0x1000 && s[1] == 0x80 + c / 0x40 % 0x40 && s[2] == 0x80 + c % 0x40;
    }
  }

  lemma ThreeDigits(c: Unit)
    ensures c == c / 0x1000 * 0x1000 + c / 0x40 % 0x40 * 0x40 + c % 0x40
    ensures c / 0x1000 < 0x10
  {
    var high := c / 0x40;
    assert c == high * 0x40 + c % 0x40;
    assert high == high / 0x40 * 0x40 + high % 0x40;
  }

  /**
   What a reader makes of the bytes of any code-unit string: the string itself, except that
   a reader that follows RFC 3629 rejects it as soon as one unit is a surrogate.
   */
  lemma {:induction false} StringReads(s: seq<Unit>, surrogates: bool)
    ensures ReadText(StringBytes(s), surrogates) == if surrogates || NoSurrogate(s) then Some(s) else None
  {
    hide ReadChar, EncodeUnit;
    if s == [] {
    } else {
      UnitReads(s[0], StringBytes(s[1..]), surrogates);
      StringReads(s[1..], surrogates);
      UnitNonEmpty(s[0]);
      assert (EncodeUnit(s[0]) + StringBytes(s[1..]))[|EncodeUnit(s[0])|..] == StringBytes(s[1..]);
      assert s == [s[0]] + s[1..];
      assert NoSurrogate(s) <==> !IsSurrogate(s[0]) && NoSurrogate(s[1..]);
    }
  }

  lemma UnitNonEmpty(c: Unit)
    ensures |EncodeUnit(c)| > 0
  {
  }

  /** Distinct code-unit strings never share their bytes. */
  lemma StringBytesInjective(s: seq<Unit>, t: seq<Unit>)
    requires StringBytes(s) == StringBytes(t)
    ensures s == t
  {
    StringReads(s, true);
    StringReads(t, true);
  }
}
