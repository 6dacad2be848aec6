/**
 UTF-8 as sections 3 and 4 of RFC 3629 define it.  A text is a sequence of Unicode
 scalar values; `Decode` accepts exactly the well-formed byte sequences, so
 overlong forms, surrogates and values above U+10FFFF are refused.
 */
module Utf8 {
  import opened Words

  function EncodeChar(c: char): (b: seq<Byte>)
    ensures 1 <= |b| <= 4
  {
    var v := c as int;
    if v < 0x80 then [v]
    else if v < 0x800 then [0xC0 + v / 0x40, 0x80 + v % 0x40]
    else if v < 0x1_0000 then [0xE0 + v / 0x1000, 0x80 + v / 0x40 % 0x40, 0x80 + v % 0x40]
    else [0xF0 + v / 0x4_0000, 0x80 + v / 0x1000 % 0x40, 0x80 + v / 0x40 % 0x40, 0x80 + v % 0x40]
  }

  function Encode(s: string): seq<Byte> {
    if s == "" then [] else EncodeChar(s[0]) + Encode(s[1..])
  }

  predicate Tail(b: Byte) { 0x80 <= b <= 0xBF }

  // The scalar value spelled by two, three and four bytes.

  function Two(b0: int, b1: int): int {
    (b0 - 0xC0) * 0x40 + (b1 - 0x80)
  }

  function Three(b0: int, b1: int, b2: int): int {
    (b0 - 0xE0) * 0x1000 + (b1 - 0x80) * 0x40 + (b2 - 0x80)
  }

  function Four(b0: int, b1: int, b2: int, b3: int): int {
    (b0 - 0xF0) * 0x4_0000 + (b1 - 0x80) * 0x1000 + (b2 - 0x80) * 0x40 + (b3 - 0x80)
  }

  /** The first scalar value of a byte sequence and its length in bytes. */
  function DecodeOne(b: seq<Byte>): (r: Option<(char, nat)>)
    ensures r.Some? ==> 1 <= r.value.1 <= |b|
  {
    if b == [] then None
    else if b[0] < 0x80 then Some((b[0] as char, 1))
    else if 0xC2 <= b[0] <= 0xDF then
      if |b| >= 2 && Tail(b[1]) then Some((Two(b[0], b[1]) as char, 2)) else None
    else if 0xE0 <= b[0] <= 0xEF then
      if |b| >= 3 && Second3(b[0], b[1]) && Tail(b[2])
      then Some((Three(b[0], b[1], b[2]) as char, 3)) else None
    else if 0xF0 <= b[0] <= 0xF4 then
      if |b| >= 4 && Second4(b[0], b[1]) && Tail(b[2]) && Tail(b[3])
      then Some((Four(b[0], b[1], b[2], b[3]) as char, 4))
      else None
    else None
  }

  /** Second byte of a three-byte form: no overlong forms, no surrogates. */
  predicate Second3(b0: Byte, b1: Byte) {
    Tail(b1) && (b0 == 0xE0 ==> 0xA0 <= b1) && (b0 == 0xED ==> b1 <= 0x9F)
  }

  /** Second byte of a four-byte form: no overlong forms, nothing above U+10FFFF. */
  predicate Second4(b0: Byte, b1: Byte) {
    Tail(b1) && (b0 == 0xF0 ==> 0x90 <= b1) && (b0 == 0xF4 ==> b1 <= 0x8F)
  }

  function Decode(b: seq<Byte>): Option<string> {
    if b == [] then Some("")
    else
      var first := DecodeOne(b);
      if first == None then None
      else
        var rest := Decode(b[first.value.1..]);
        if rest == None then None else Some([first.value.0] + rest.value)
  }

  predicate Scalar(v: int) {
    0 <= v < 0xD800 || 0xE000 <= v < 0x11_0000
  }

  lemma TwoSpells(v: int)
    requires 0x80 <= v < 0x800
    ensures Two(0xC0 + v / 0x40, 0x80 + v % 0x40) == v && 0xC2 <= 0xC0 + v / 0x40 <= 0xDF
  {
  }

  lemma ThreeSpells(v: int)
    requires 0x800 <= v < 0x1_0000 && Scalar(v)
    ensures
      var b0, b1, b2 := 0xE0 + v / 0x1000, 0x80 + v / 0x40 % 0x40, 0x80 + v % 0x40;
      Three(b0, b1, b2) == v && 0xE0 <= b0 <= 0xEF && Second3(b0, b1) && Tail(b2)
  {
  }

  lemma FourSpells(v: int)
    requires 0x1_0000 <= v < 0x11_0000
    ensures
      var b0, b1, b2, b3 := 0xF0 + v / 0x4_0000, 0x80 + v / 0x1000 % 0x40, 0x80 + v / 0x40 % 0x40, 0x80 + v % 0x40;
      Four(b0, b1, b2, b3) == v && 0xF0 <= b0 <= 0xF4 && Second4(b0, b1) && Tail(b2) && Tail(b3)
  {
    assert v / 0x1000 == v / 0x4_0000 * 0x40 + v / 0x1000 % 0x40;
    assert v / 0x40 == v / 0x1000 * 0x40 + v / 0x40 % 0x40;
  }

  /** The number spelled by groups of six bits, highest first. */
  function Digits(ds: seq<int>): int {
    if ds == [] then 0 else 64 * Digits(ds[..|ds| - 1]) + ds[|ds| - 1]
  }

  lemma DigitsOfTwo(a: int, b: int)
    ensures Digits([a, b]) == 64 * a + b
  {
    assert [a, b][..1] == [a];
    assert Digits([a]) == a;
  }

  lemma DigitsOfThree(a: int, b: int, c: int)
    ensures Digits([a, b, c]) == 64 * (64 * a + b) + c
  {
    assert [a, b, c][..2] == [a, b];
    DigitsOfTwo(a, b);
  }

  lemma DigitsOfFour(a: int, b: int, c: int, d: int)
    ensures Digits([a, b, c, d]) == 64 * (64 * (64 * a + b) + c) + d
  {
    assert [a, b, c, d][..3] == [a, b, c];
    DigitsOfThree(a, b, c);
  }

  /** The byte forms of the table in section 3 of RFC 3629: how many bytes, which
      leading and following bytes, and which value they spell. */
  lemma {:induction false} EncodedForm(c: char)
    ensures
      var v, b := c as int, EncodeChar(c);
      && |b| == (if v < 0x80 then 1 else if v < 0x800 then 2 else if v < 0x1_0000 then 3 else 4)
      && (|b| == 1 ==> b[0] == v)
      && (|b| == 2 ==> 0xC2 <= b[0] <= 0xDF && Tail(b[1]) && v == Digits([b[0] - 0xC0, b[1] - 0x80]))
      && (|b| == 3 ==>
          0xE0 <= b[0] <= 0xEF && Tail(b[1]) && Tail(b[2]) && v == Digits([b[0] - 0xE0, b[1] - 0x80, b[2] - 0x80]))
      && (|b| == 4 ==>
          && 0xF0 <= b[0] <= 0xF4 && Tail(b[1]) && Tail(b[2]) && Tail(b[3])
          && v == Digits([b[0] - 0xF0, b[1] - 0x80, b[2] - 0x80, b[3] - 0x80]))
  {
    var v := c as int;
    if v < 0x80 {
    } else if v < 0x800 {
      TwoSpells(v);
      DigitsOfTwo(v / 0x40, v % 0x40);
    } else if v < 0x1_0000 {
      ThreeSpells(v);
      DigitsOfThree(v / 0x1000, v / 0x40 % 0x40, v % 0x40);
    } else {
      FourSpells(v);
      DigitsOfFour(v / 0x4_0000, v / 0x1000 % 0x40, v / 0x40 % 0x40, v % 0x40);
    }
  }

  lemma DecodeOneOfEncode(c: char, rest: seq<Byte>)
    ensures DecodeOne(EncodeChar(c) + rest) == Some((c, |EncodeChar(c)|))
  {
    var v := c as int;
    var e := EncodeChar(c);
    var b := e + rest;
    if v < 0x80 {
      assert b[0] == v;
    } else if v < 0x800 {
      TwoSpells(v);
      assert b[0] == e[0] && b[1] == e[1];
    } else if v < 0x1_0000 {
      ThreeSpells(v);
      assert b[0] == e[0] && b[1] == e[1] && b[2] == e[2];
    } else {
      FourSpells(v);
      assert b[0] == e[0] && b[1] == e[1] && b[2] == e[2] && b[3] == e[3];
    }
  }

  lemma TwoDigits(b0: Byte, b1: Byte)
    requires 0xC2 <= b0 <= 0xDF && Tail(b1)
    ensures var v := Two(b0, b1); 0x80 <= v < 0x800 && b0 == 0xC0 + v / 0x40 && b1 == 0x80 + v % 0x40
  {
  }

  lemma ThreeDigits(b0: Byte, b1: Byte, b2: Byte)
    requires 0xE0 <= b0 <= 0xEF && Second3(b0, b1) && Tail(b2)
    ensures
      var v := Three(b0, b1, b2);
      && 0x800 <= v < 0x1_0000 && !(0xD800 <= v < 0xE000)
      && b0 == 0xE0 + v / 0x1000 && b1 == 0x80 + v / 0x40 % 0x40 && b2 == 0x80 + v % 0x40
  {
    var v := Three(b0, b1, b2);
    assert v / 0x40 == (b0 - 0xE0) * 0x40 + (b1 - 0x80);
  }

  lemma FourDigits(b0: Byte, b1: Byte, b2: Byte, b3: Byte)
    requires 0xF0 <= b0 <= 0xF4 && Second4(b0, b1) && Tail(b2) && Tail(b3)
    ensures
      var v := Four(b0, b1, b2, b3);
      && 0x1_0000 <= v < 0x11_0000
      && b0 == 0xF0 + v / 0x4_0000 && b1 == 0x80 + v / 0x1000 % 0x40
      && b2 == 0x80 + v / 0x40 % 0x40 && b3 == 0x80 + v % 0x40
  {
    var v := Four(b0, b1, b2, b3);
    assert v / 0x1000 == (b0 - 0xF0) * 0x40 + (b1 - 0x80);
    assert v / 0x40 == ((b0 - 0xF0) * 0x40 + (b1 - 0x80)) * 0x40 + (b2 - 0x80);
  }

  lemma EncodeOfDecodeOne(b: seq<Byte>)
    requires DecodeOne(b).Some?
    ensures var (c, n) := DecodeOne(b).value; EncodeChar(c) == b[..n]
  {
    if b[0] < 0x80 {
    } else if b[0] <= 0xDF {
      TwoDigits(b[0], b[1]);
    } else if b[0] <= 0xEF {
      ThreeDigits(b[0], b[1], b[2]);
    } else {
      FourDigits(b[0], b[1], b[2], b[3]);
    }
  }

  /** Encoding then decoding gives the text back. */
  lemma {:induction false} DecodeEncode(s: string)
    ensures Decode(Encode(s)) == Some(s)
  {
    if s != "" {
      var b := EncodeChar(s[0]);
      DecodeOneOfEncode(s[0], Encode(s[1..]));
      assert Encode(s)[|b|..] == Encode(s[1..]);
      DecodeEncode(s[1..]);
      assert s == [s[0]] + s[1..];
    }
  }

  /** Splitting off the first character of what decodes. */
  lemma DecodeSplit(b: seq<Byte>) returns (c: char, n: nat, rest: string)
    requires b != [] && Decode(b).Some?
    ensures 1 <= n <= |b| && EncodeChar(c) == b[..n]
    ensures Decode(b[n..]) == Some(rest) && Decode(b).value == [c] + rest
  {
    c, n := DecodeOne(b).value.0, DecodeOne(b).value.1;
    rest := Decode(b[n..]).value;
    EncodeOfDecodeOne(b);
  }

  lemma EncodeCons(c: char, s: string)
    ensures Encode([c] + s) == EncodeChar(c) + Encode(s)
  {
    assert ([c] + s)[1..] == s;
  }

  /** Whatever decodes is the encoding of what it decodes to. */
  lemma {:induction false} EncodeDecode(b: seq<Byte>)
    requires Decode(b).Some?
    ensures Encode(Decode(b).value) == b
    decreases |b|
  {
    if b != [] {
      var c, n, rest := DecodeSplit(b);
      EncodeDecode(b[n..]);
      EncodeCons(c, rest);
      assert b == b[..n] + b[n..];
    }
  }

  lemma EncodeInjective(a: string, b: string)
    requires Encode(a) == Encode(b)
    ensures a == b
  {
    DecodeEncode(a);
    DecodeEncode(b);
  }

  lemma {:induction false} EncodeAppend(a: string, b: string)
    ensures Encode(a + b) == Encode(a) + Encode(b)
  {
    if a == "" {
      assert a + b == b;
    } else {
      assert (a + b)[1..] == a[1..] + b;
      EncodeAppend(a[1..], b);
    }
  }

  predicate IsAscii(s: string) {
    forall i :: 0 <= i < |s| ==> s[i] < '\U{80}'
  }

  /** ASCII text is one byte per character. */
  lemma {:induction false} AsciiLength(s: string)
    requires IsAscii(s)
    ensures |Encode(s)| == |s|
  {
    if s != "" { AsciiLength(s[1..]); }
  }
}
