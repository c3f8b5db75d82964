/**
 * The application/x-www-form-urlencoded format of the WHATWG URL Standard: the
 * serializer of section 5.2 (what URLSearchParams.toString() returns), the parser of
 * section 5.1 (what a server applies to the query it receives), percent-decoding
 * (section 1.3), and the URLSearchParams object as a list of name-value pairs that
 * `append` extends.
 */
module FormUrlencoded {

  import opened Utf8

  //
  // Serializing (section 5.2)
  //

  /**
   * The bytes that stay as they are: ASCII alphanumerics and * - . _ . Every other
   * byte is in the application/x-www-form-urlencoded percent-encode set.
   */
  predicate Unreserved(b: byte)
  {
    (0x30 <= b <= 0x39) || (0x41 <= b <= 0x5A) || (0x61 <= b <= 0x7A)
    || b == 0x2A || b == 0x2D || b == 0x2E || b == 0x5F
  }

  /** Upper-case hexadecimal digit, as percent-encoding writes it. */
  function HexDigit(n: int): char
    requires 0 <= n < 16
  {
    if n < 10 then ('0' as int + n) as char else ('A' as int + n - 10) as char
  }

  /** One byte of a name or value: a space becomes "+", the percent-encode set becomes "%XX". */
  function EncodeByte(b: byte): string
  {
    if b == 0x20 then "+"
    else if Unreserved(b) then [b as int as char]
    else ['%', HexDigit(b as int / 16), HexDigit(b as int % 16)]
  }

  function EncodeBytes(bs: seq<byte>): string
  {
    if bs == [] then "" else EncodeByte(bs[0]) + EncodeBytes(bs[1..])
  }

  /** "Percent-encode after encoding" with UTF-8, the form-urlencoded set and space-as-plus. */
  function EncodeText(s: string): string
  {
    EncodeBytes(Utf8.Encode(s))
  }

  function PairText(pair: (string, string)): string
  {
    EncodeText(pair.0) + "=" + EncodeText(pair.1)
  }

  /** Section 5.2: pairs in list order, "&" before every pair but the first. */
  function Serialize(list: seq<(string, string)>): string
  {
    if list == [] then ""
    else
      var prev := Serialize(list[..|list| - 1]);
      prev + (if prev != "" then "&" else "") + PairText(list[|list| - 1])
  }

  //
  // Parsing (section 5.1) and percent-decoding (section 1.3)
  //

  const Ampersand: byte := 0x26
  const EqualsSign: byte := 0x3D
  const PlusSign: byte := 0x2B
  const PercentSign: byte := 0x25
  const Space: byte := 0x20

  /** Splitting on "&": the pieces between the separators, empty ones included. */
  function SplitOnAmpersand(bs: seq<byte>): (r: seq<seq<byte>>)
    ensures |r| >= 1
  {
    if bs == [] then [[]]
    else
      var tail := SplitOnAmpersand(bs[1..]);
      if bs[0] == Ampersand then [[]] + tail else [[bs[0]] + tail[0]] + tail[1..]
  }

  /** The bytes before the first "=" and the bytes after it; with no "=", all bytes are the name. */
  function SplitAtEquals(bs: seq<byte>): (seq<byte>, seq<byte>)
  {
    if bs == [] then ([], [])
    else if bs[0] == EqualsSign then ([], bs[1..])
    else
      var (name, value) := SplitAtEquals(bs[1..]);
      ([bs[0]] + name, value)
  }

  function PlusToSpace(bs: seq<byte>): (r: seq<byte>)
    ensures |r| == |bs|
  {
    seq(|bs|, i requires 0 <= i < |bs| => if bs[i] == PlusSign then Space else bs[i])
  }

  predicate IsHexByte(b: byte)
  {
    (0x30 <= b <= 0x39) || (0x41 <= b <= 0x46) || (0x61 <= b <= 0x66)
  }

  function HexValue(b: byte): (n: int)
    requires IsHexByte(b)
    ensures 0 <= n < 16
  {
    if b <= 0x39 then b as int - 0x30
    else if b <= 0x46 then b as int - 0x41 + 10
    else b as int - 0x61 + 10
  }

  /** Section 1.3: "%" and two hex digits become one byte; any other "%" stays. */
  function PercentDecode(bs: seq<byte>): seq<byte>
  {
    if bs == [] then []
    else if bs[0] == PercentSign && |bs| >= 3 && IsHexByte(bs[1]) && IsHexByte(bs[2]) then
      [(HexValue(bs[1]) * 16 + HexValue(bs[2])) as byte] + PercentDecode(bs[3..])
    else
      [bs[0]] + PercentDecode(bs[1..])
  }

  function ParsePair(bs: seq<byte>): (string, string)
  {
    var (name, value) := SplitAtEquals(bs);
    (Utf8.Decode(PercentDecode(PlusToSpace(name))), Utf8.Decode(PercentDecode(PlusToSpace(value))))
  }

  /** The pairs of the non-empty pieces, in order. */
  function ParsePieces(pieces: seq<seq<byte>>): seq<(string, string)>
  {
    NonEmptyMap(pieces, ParsePair)
  }

  /** `f` applied to every non-empty piece, in order; empty pieces are skipped. */
  function NonEmptyMap<T>(pieces: seq<seq<byte>>, f: seq<byte> -> T): seq<T>
  {
    if pieces == [] then []
    else (if pieces[0] == [] then [] else [f(pieces[0])]) + NonEmptyMap(pieces[1..], f)
  }

  /** Section 5.1: the name-value pairs a form-urlencoded byte sequence holds. */
  function Parse(input: seq<byte>): seq<(string, string)>
  {
    ParsePieces(SplitOnAmpersand(input))
  }

  //
  // URLSearchParams
  //

  /** A URLSearchParams object: its list of name-value pairs, extended in place by `Append`. */
  class SearchParams {
    var list: seq<(string, string)>

    constructor ()
      ensures list == []
    {
      list := [];
    }

    method Append(name: string, value: string)
      modifies this
      ensures list == old(list) + [(name, value)]
    {
      list := list + [(name, value)];
    }

    /** The serialized list; parsing it gives the list back, pair for pair and in order. */
    function ToString(): (r: string)
      reads this
      ensures Parse(Utf8.Encode(r)) == list
    {
      ParseSerialize(list);
      Serialize(list)
    }
  }

  //
  // Parsing inverts serializing
  //

  /** The characters a serialized name or value is made of: none is "&" or "=". */
  predicate SafeChar(c: char)
  {
    c == '+' || c == '%' || ('0' <= c <= '9') || ('A' <= c <= 'Z') || ('a' <= c <= 'z')
    || c == '*' || c == '-' || c == '.' || c == '_'
  }

  lemma {:induction false} EncodeBytesSafe(bs: seq<byte>)
    ensures forall i :: 0 <= i < |EncodeBytes(bs)| ==> SafeChar(EncodeBytes(bs)[i])
  {
    if bs != [] {
      EncodeBytesSafe(bs[1..]);
      var head := EncodeByte(bs[0]);
      assert forall i :: 0 <= i < |head| ==> SafeChar(head[i]);
    }
  }

  /** The bytes of an encoded name or value: ASCII, and never "&" or "=". */
  lemma EncodedTextBytes(s: string)
    ensures Ampersand !in Utf8.Encode(EncodeText(s))
    ensures EqualsSign !in Utf8.Encode(EncodeText(s))
  {
    var t := EncodeText(s);
    EncodeBytesSafe(Utf8.Encode(s));
    Utf8.EncodeAscii(t);
  }

  lemma PlusToSpaceAppend(a: seq<byte>, b: seq<byte>)
    ensures PlusToSpace(a + b) == PlusToSpace(a) + PlusToSpace(b)
  {
  }

  /** Decoding one encoded byte gives that byte back, whatever follows it. */
  lemma DecodeEncodedByte(b: byte, rest: seq<byte>)
    ensures PercentDecode(PlusToSpace(Utf8.Encode(EncodeByte(b))) + rest) == [b] + PercentDecode(rest)
  {
    var e := EncodeByte(b);
    Utf8.EncodeAscii(e);
    var w := PlusToSpace(Utf8.Encode(e));
    if b == 0x20 || Unreserved(b) {
      assert w == [b];
      assert (w + rest)[1..] == rest;
    } else {
      var hi, lo := b as int / 16, b as int % 16;
      assert w == [PercentSign, HexDigit(hi) as int as byte, HexDigit(lo) as int as byte];
      assert HexValue(w[1]) == hi && HexValue(w[2]) == lo;
      assert (w + rest)[3..] == rest;
    }
  }

  /** Percent-decoding, after "+" becomes a space, undoes `EncodeBytes`. */
  lemma {:induction false} DecodeEncodedBytes(bs: seq<byte>)
    ensures PercentDecode(PlusToSpace(Utf8.Encode(EncodeBytes(bs)))) == bs
  {
    if bs != [] {
      var head, tail := EncodeByte(bs[0]), EncodeBytes(bs[1..]);
      Utf8.EncodeAppend(head, tail);
      PlusToSpaceAppend(Utf8.Encode(head), Utf8.Encode(tail));
      DecodeEncodedByte(bs[0], PlusToSpace(Utf8.Encode(tail)));
      DecodeEncodedBytes(bs[1..]);
    }
  }

  lemma {:induction false} SplitAtEqualsFirst(a: seq<byte>, b: seq<byte>)
    requires EqualsSign !in a
    ensures SplitAtEquals(a + [EqualsSign] + b) == (a, b)
  {
    if a == [] {
      assert a + [EqualsSign] + b == [EqualsSign] + b;
    } else {
      var bs := a + [EqualsSign] + b;
      assert bs[0] == a[0] && a[0] != EqualsSign && bs[1..] == a[1..] + [EqualsSign] + b;
      SplitAtEqualsFirst(a[1..], b);
      assert [a[0]] + a[1..] == a;
    }
  }

  lemma {:induction false} SplitWithoutAmpersand(bs: seq<byte>)
    requires Ampersand !in bs
    ensures SplitOnAmpersand(bs) == [bs]
  {
    if bs != [] {
      SplitWithoutAmpersand(bs[1..]);
      assert [bs[0]] + bs[1..] == bs;
    }
  }

  lemma {:induction false} SplitJoin(a: seq<byte>, b: seq<byte>)
    ensures SplitOnAmpersand(a + [Ampersand] + b) == SplitOnAmpersand(a) + SplitOnAmpersand(b)
  {
    if a == [] {
      assert a + [Ampersand] + b == [Ampersand] + b;
    } else {
      assert (a + [Ampersand] + b)[1..] == a[1..] + [Ampersand] + b;
      SplitJoin(a[1..], b);
    }
  }

  lemma {:induction false} NonEmptyMapAppend<T>(p: seq<seq<byte>>, q: seq<seq<byte>>, f: seq<byte> -> T)
    ensures NonEmptyMap(p + q, f) == NonEmptyMap(p, f) + NonEmptyMap(q, f)
  {
    if p == [] {
      assert p + q == q;
    } else {
      assert (p + q)[0] == p[0] && (p + q)[1..] == p[1..] + q;
      NonEmptyMapAppend(p[1..], q, f);
    }
  }

  /** Two form-urlencoded texts joined by "&" hold the pairs of the first, then those of the second. */
  lemma ParseJoin(a: seq<byte>, b: seq<byte>)
    ensures Parse(a + [Ampersand] + b) == Parse(a) + Parse(b)
  {
    SplitJoin(a, b);
    NonEmptyMapAppend(SplitOnAmpersand(a), SplitOnAmpersand(b), ParsePair);
  }

  /** The bytes of one serialized pair: no "&", and parsing them gives the pair back. */
  lemma PairBytes(pair: (string, string))
    ensures Ampersand !in Utf8.Encode(PairText(pair))
    ensures Utf8.Encode(PairText(pair)) != []
    ensures ParsePair(Utf8.Encode(PairText(pair))) == pair
  {
    var n, v := Utf8.Encode(EncodeText(pair.0)), Utf8.Encode(EncodeText(pair.1));
    Utf8.EncodeAppend(EncodeText(pair.0), "=");
    Utf8.EncodeAppend(EncodeText(pair.0) + "=", EncodeText(pair.1));
    assert Utf8.Encode("=") == [EqualsSign];
    assert Utf8.Encode(PairText(pair)) == n + [EqualsSign] + v;
    EncodedTextBytes(pair.0);
    EncodedTextBytes(pair.1);
    SplitAtEqualsFirst(n, v);
    DecodeEncodedBytes(Utf8.Encode(pair.0));
    DecodeEncodedBytes(Utf8.Encode(pair.1));
    Utf8.DecodeEncode(pair.0);
    Utf8.DecodeEncode(pair.1);
  }

  lemma {:induction false} SerializeEmpty(list: seq<(string, string)>)
    ensures Serialize(list) == "" <==> list == []
  {
    if list != [] {
      Utf8.EncodeAppend(EncodeText(list[|list| - 1].0), "=");
      assert "="[0] == PairText(list[|list| - 1])[|EncodeText(list[|list| - 1].0)|];
    }
  }

  /** The serialization of a list that is not empty: the earlier pairs, then "&" and the last pair. */
  lemma SerializeLast(list: seq<(string, string)>)
    requires |list| >= 2
    ensures Utf8.Encode(Serialize(list))
         == Utf8.Encode(Serialize(list[..|list| - 1])) + [Ampersand] + Utf8.Encode(PairText(list[|list| - 1]))
  {
    var prev := Serialize(list[..|list| - 1]);
    SerializeEmpty(list[..|list| - 1]);
    Utf8.EncodeAppend(prev, "&");
    Utf8.EncodeAppend(prev + "&", PairText(list[|list| - 1]));
    assert Utf8.Encode("&") == [Ampersand];
  }

  /** One serialized pair parses to exactly that pair. */
  lemma ParseOnePair(pair: (string, string))
    ensures Parse(Utf8.Encode(PairText(pair))) == [pair]
  {
    var w := Utf8.Encode(PairText(pair));
    PairBytes(pair);
    SplitWithoutAmpersand(w);
    assert NonEmptyMap([w], ParsePair) == [ParsePair(w)] + NonEmptyMap([], ParsePair);
  }

  /** Parsing the serialization of a list gives the list back (sections 5.1 and 5.2). */
  lemma {:induction false} ParseSerialize(list: seq<(string, string)>)
    ensures Parse(Utf8.Encode(Serialize(list))) == list
  {
    if list != [] {
      var init, last := list[..|list| - 1], list[|list| - 1];
      ParseOnePair(last);
      if init == [] {
        assert list == [last];
        assert Serialize(list) == PairText(last);
      } else {
        var a, b := Utf8.Encode(Serialize(init)), Utf8.Encode(PairText(last));
        SerializeLast(list);
        assert Utf8.Encode(Serialize(list)) == a + [Ampersand] + b;
        ParseJoin(a, b);
        ParseSerialize(init);
        assert list == init + [last];
      }
    }
  }
}
