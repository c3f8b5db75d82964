/**
 * UTF-8 as the WHATWG Encoding Standard defines it: "UTF-8 encode" of a string of
 * scalar values, and the UTF-8 decoder used by "UTF-8 decode without BOM", which
 * replaces every malformed sequence with U+FFFD. URLSearchParams encodes names and
 * values with the first; the application/x-www-form-urlencoded parser decodes with
 * the second.
 */
module Utf8 {

  newtype byte = x: int | 0 <= x < 256

  const Replacement: char := '�'

  /** The one to four bytes that encode the scalar value `c`. */
  function EncodeChar(c: char): (r: seq<byte>)
    ensures 1 <= |r| <= 4
    ensures (|r| == 1) == (c as int < 0x80)
  {
    var cp := c as int;
    if cp < 0x80 then
      [cp as byte]
    else if cp < 0x800 then
      [(0xC0 + cp / 64) as byte, (0x80 + cp % 64) as byte]
    else if cp < 0x10000 then
      [(0xE0 + cp / 4096) as byte, (0x80 + cp / 64 % 64) as byte, (0x80 + cp % 64) as byte]
    else
      [(0xF0 + cp / 0x40000) as byte, (0x80 + cp / 4096 % 64) as byte,
       (0x80 + cp / 64 % 64) as byte, (0x80 + cp % 64) as byte]
  }

  function Encode(s: string): seq<byte>
  {
    if s == [] then [] else EncodeChar(s[0]) + Encode(s[1..])
  }

  /**
   * How many continuation bytes follow the lead byte `bs[0]`, at most `need`: the first
   * must lie in `lower..upper` and the rest in 0x80..0xBF. The decoder stops at the
   * first byte outside its range and leaves that byte for the next step.
   */
  function Accepted(bs: seq<byte>, need: nat, lower: int, upper: int): (k: nat)
    requires |bs| > 0
    ensures k <= need && 1 + k <= |bs|
    ensures k > 0 ==> lower <= bs[1] as int <= upper
    ensures forall j :: 2 <= j <= k ==> 0x80 <= bs[j] <= 0xBF
  {
    if need == 0 || |bs| < 2 || !(lower <= bs[1] as int <= upper) then 0
    else 1 + Accepted(bs[1..], need - 1, 0x80, 0xBF)
  }

  /** One step of the decoder: the next scalar value (U+FFFD on an error) and how many bytes it used. */
  function DecodeStep(bs: seq<byte>): (r: (char, nat))
    requires |bs| > 0
    ensures 1 <= r.1 <= |bs|
  {
    var b0 := bs[0] as int;
    if b0 < 0x80 then
      (b0 as char, 1)
    else if 0xC2 <= b0 <= 0xDF then
      var k := Accepted(bs, 1, 0x80, 0xBF);
      if k < 1 then (Replacement, 1 + k)
      else (((b0 - 0xC0) * 64 + (bs[1] as int - 0x80)) as char, 2)
    else if 0xE0 <= b0 <= 0xEF then
      var k := Accepted(bs, 2, if b0 == 0xE0 then 0xA0 else 0x80, if b0 == 0xED then 0x9F else 0xBF);
      if k < 2 then (Replacement, 1 + k)
      else (((b0 - 0xE0) * 4096 + (bs[1] as int - 0x80) * 64 + (bs[2] as int - 0x80)) as char, 3)
    else if 0xF0 <= b0 <= 0xF4 then
      var k := Accepted(bs, 3, if b0 == 0xF0 then 0x90 else 0x80, if b0 == 0xF4 then 0x8F else 0xBF);
      if k < 3 then (Replacement, 1 + k)
      else (((b0 - 0xF0) * 0x40000 + (bs[1] as int - 0x80) * 4096
             + (bs[2] as int - 0x80) * 64 + (bs[3] as int - 0x80)) as char, 4)
    else
      (Replacement, 1)
  }

  function Decode(bs: seq<byte>): string
    decreases |bs|
  {
    if bs == [] then [] else
      var (c, n) := DecodeStep(bs);
      [c] + Decode(bs[n..])
  }

  lemma {:induction false} EncodeAppend(a: string, b: string)
    ensures Encode(a + b) == Encode(a) + Encode(b)
  {
    if a == [] {
      assert a + b == b;
    } else {
      assert (a + b)[0] == a[0] && (a + b)[1..] == a[1..] + b;
      EncodeAppend(a[1..], b);
    }
  }

  /** The decoder reads back exactly the scalar value that `EncodeChar` wrote, whatever follows. */
  lemma DecodeStepEncodeChar(c: char, rest: seq<byte>)
    ensures DecodeStep(EncodeChar(c) + rest) == (c, |EncodeChar(c)|)
  {
    var cp := c as int;
    if cp < 0x80 {
    } else if cp < 0x800 {
      DecodeTwo(c, rest);
    } else if cp < 0x10000 {
      DecodeThree(c, rest);
    } else {
      DecodeFour(c, rest);
    }
  }

  lemma DecodeTwo(c: char, rest: seq<byte>)
    requires 0x80 <= c as int < 0x800
    ensures DecodeStep(EncodeChar(c) + rest) == (c, 2)
  {
    var cp := c as int;
    var bs := EncodeChar(c) + rest;
    assert cp == (cp / 64) * 64 + cp % 64;
    assert Accepted(bs, 1, 0x80, 0xBF) == 1;
  }

  lemma DecodeThree(c: char, rest: seq<byte>)
    requires 0x800 <= c as int < 0x10000
    ensures DecodeStep(EncodeChar(c) + rest) == (c, 3)
  {
    var cp := c as int;
    var bs := EncodeChar(c) + rest;
    assert cp == (cp / 4096) * 4096 + (cp / 64 % 64) * 64 + cp % 64;
    assert Accepted(bs[1..], 1, 0x80, 0xBF) == 1;
  }

  lemma DecodeFour(c: char, rest: seq<byte>)
    requires 0x10000 <= c as int
    ensures DecodeStep(EncodeChar(c) + rest) == (c, 4)
  {
    var cp := c as int;
    var bs := EncodeChar(c) + rest;
    var d0, d1, d2, d3 := cp / 0x40000, cp / 4096 % 64, cp / 64 % 64, cp % 64;
    FourDigits(cp);
    assert bs[0] as int == 0xF0 + d0 && bs[1] as int == 0x80 + d1;
    assert bs[2] as int == 0x80 + d2 && bs[3] as int == 0x80 + d3;
    var lower, upper := if d0 == 0 then 0x90 else 0x80, if d0 == 4 then 0x8F else 0xBF;
    assert bs[1..][1..] == bs[2..];
    assert Accepted(bs[2..], 1, 0x80, 0xBF) == 1;
    assert Accepted(bs[1..], 2, 0x80, 0xBF) == 2;
    assert Accepted(bs, 3, lower, upper) == 3;
  }

  /** The four base-64 digits of a supplementary code point, as `EncodeChar` writes them. */
  lemma FourDigits(cp: int)
    requires 0x10000 <= cp < 0x110000
    ensures cp == (cp / 0x40000) * 0x40000 + (cp / 4096 % 64) * 4096 + (cp / 64 % 64) * 64 + cp % 64
    ensures 0 <= cp / 0x40000 <= 4
    ensures cp / 0x40000 == 0 ==> cp / 4096 % 64 >= 0x10
    ensures cp / 0x40000 == 4 ==> cp / 4096 % 64 < 0x10
  {
    var t := cp / 4096;
    assert 0x10 <= t < 0x110;
    assert cp / 0x40000 == t / 64;
  }

  /** Decoding undoes encoding: every string survives the round trip through UTF-8. */
  lemma {:induction false} DecodeEncode(s: string)
    ensures Decode(Encode(s)) == s
  {
    if s != [] {
      var e := EncodeChar(s[0]);
      DecodeStepEncodeChar(s[0], Encode(s[1..]));
      assert (e + Encode(s[1..]))[|e|..] == Encode(s[1..]);
      DecodeEncode(s[1..]);
    }
  }

  /** An ASCII string encodes byte for byte. */
  lemma {:induction false} EncodeAscii(s: string)
    requires forall i :: 0 <= i < |s| ==> s[i] as int < 0x80
    ensures |Encode(s)| == |s|
    ensures forall i :: 0 <= i < |s| ==> Encode(s)[i] as int == s[i] as int
  {
    if s != [] {
      EncodeAscii(s[1..]);
    }
  }
}
