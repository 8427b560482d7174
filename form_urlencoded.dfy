/**
 * The `application/x-www-form-urlencoded` serializer of the WHATWG URL
 * Standard (section 5.2), which `URLSearchParams.prototype.toString` uses,
 * together with the matching parser direction, so that the serializer can
 * be shown to lose nothing: every list of name/value pairs is read back
 * from its serialization.
 */
module FormUrlEncoded {
  import opened Wrappers
  import opened JsText

  newtype byte = x: int | 0 <= x < 256

  // ---------------------------------------------------------------------
  // UTF-8 (the only encoding the URL Standard uses here)

  predicate IsContinuation(b: byte) {
    0x80 <= b < 0xC0
  }

  /** The UTF-8 encoding of one Unicode scalar value. */
  function Utf8(c: char): (r: seq<byte>)
    ensures 1 <= |r| <= 4
  {
    var cp := c as int;
    if cp < 0x80 then [cp as byte]
    else if cp < 0x800 then [(0xC0 + cp / 64) as byte, (0x80 + cp % 64) as byte]
    else if cp < 0x1_0000 then
      [(0xE0 + cp / 4096) as byte, (0x80 + (cp / 64) % 64) as byte, (0x80 + cp % 64) as byte]
    else
      [(0xF0 + cp / 262144) as byte, (0x80 + (cp / 4096) % 64) as byte,
       (0x80 + (cp / 64) % 64) as byte, (0x80 + cp % 64) as byte]
  }

  function Utf8Encode(s: string): seq<byte> {
    if s == [] then [] else Utf8(s[0]) + Utf8Encode(s[1..])
  }

  predicate IsScalarValue(cp: int) {
    (0 <= cp < 0xD800) || (0xE000 <= cp < 0x11_0000)
  }

  /** Reads one scalar value off the front of `bs`, with the number of bytes it took. */
  function DecodeChar(bs: seq<byte>): (r: Option<(char, nat)>)
    ensures r.Some? ==> 1 <= r.value.1 <= |bs|
  {
    if bs == [] then None
    else
      var b0 := bs[0] as int;
      if b0 < 0x80 then Some((b0 as char, 1))
      else if 0xC0 <= b0 < 0xE0 && |bs| >= 2 && IsContinuation(bs[1]) then
        var cp := (b0 - 0xC0) * 64 + (bs[1] as int - 0x80);
        if IsScalarValue(cp) then Some((cp as char, 2)) else None
      else if 0xE0 <= b0 < 0xF0 && |bs| >= 3 && IsContinuation(bs[1]) && IsContinuation(bs[2]) then
        var cp := (b0 - 0xE0) * 4096 + (bs[1] as int - 0x80) * 64 + (bs[2] as int - 0x80);
        if IsScalarValue(cp) then Some((cp as char, 3)) else None
      else if 0xF0 <= b0 < 0xF8 && |bs| >= 4 && IsContinuation(bs[1]) && IsContinuation(bs[2])
              && IsContinuation(bs[3]) then
        var cp := (b0 - 0xF0) * 262144 + (bs[1] as int - 0x80) * 4096
                  + (bs[2] as int - 0x80) * 64 + (bs[3] as int - 0x80);
        if IsScalarValue(cp) then Some((cp as char, 4)) else None
      else None
  }

  /** UTF-8 decoding; `None` where the host would insert U+FFFD. */
  function Utf8Decode(bs: seq<byte>): Option<string>
    decreases |bs|
  {
    if bs == [] then Some([])
    else match DecodeChar(bs)
      case None => None
      case Some((c, n)) =>
        match Utf8Decode(bs[n..])
        case None => None
        case Some(rest) => Some([c] + rest)
  }

  lemma DecodeEncodedChar(c: char, rest: seq<byte>)
    ensures DecodeChar(Utf8(c) + rest) == Some((c, |Utf8(c)|))
  {
    var cp := c as int;
    var bs := Utf8(c) + rest;
    if 0x800 <= cp < 0x1_0000 {
      var q := cp / 64;
      assert cp / 4096 == q / 64;
      assert cp == (q / 64) * 4096 + (q % 64) * 64 + cp % 64;
    } else if cp >= 0x1_0000 {
      var q := cp / 64;
      var q2 := q / 64;
      assert cp / 4096 == q2;
      assert cp / 262144 == q2 / 64;
      assert cp == (q2 / 64) * 262144 + (q2 % 64) * 4096 + (q % 64) * 64 + cp % 64;
    }
  }

  lemma {:induction false} Utf8RoundTrip(s: string)
    ensures Utf8Decode(Utf8Encode(s)) == Some(s)
  {
    if s != [] {
      var bs := Utf8Encode(s);
      DecodeEncodedChar(s[0], Utf8Encode(s[1..]));
      assert bs[|Utf8(s[0])|..] == Utf8Encode(s[1..]);
      Utf8RoundTrip(s[1..]);
      assert [s[0]] + s[1..] == s;
    }
  }

  lemma {:induction false} Utf8EncodeConcat(a: string, b: string)
    ensures Utf8Encode(a + b) == Utf8Encode(a) + Utf8Encode(b)
  {
    if a == [] {
      assert a + b == b;
    } else {
      assert (a + b)[0] == a[0] && (a + b)[1..] == a[1..] + b;
      Utf8EncodeConcat(a[1..], b);
    }
  }

  // ---------------------------------------------------------------------
  // Percent-encoding with the application/x-www-form-urlencoded set

  /** The bytes the serializer leaves as they are: ASCII alphanumerics and `*-._`. */
  predicate IsUnreserved(b: byte) {
    || b == 0x2A || b == 0x2D || b == 0x2E || b == 0x5F
    || (0x30 <= b <= 0x39) || (0x41 <= b <= 0x5A) || (0x61 <= b <= 0x7A)
  }

  function HexDigit(n: nat): (c: char)
    requires n < 16
  {
    "0123456789ABCDEF"[n]
  }

  predicate IsHexByte(b: byte) {
    (0x30 <= b <= 0x39) || (0x41 <= b <= 0x46) || (0x61 <= b <= 0x66)
  }

  function HexValue(b: byte): nat
    requires IsHexByte(b)
  {
    if b <= 0x39 then (b - 0x30) as nat else if b <= 0x46 then (b - 0x41 + 10) as nat else (b - 0x61 + 10) as nat
  }

  /** The serializer's output for one byte: itself, `+` for a space, `%XX` in upper-case hex otherwise. */
  function EncodeByte(b: byte): string {
    if IsUnreserved(b) then [b as int as char]
    else if b == 0x20 then "+"
    else ['%', HexDigit(b as nat / 16), HexDigit(b as nat % 16)]
  }

  function EncodeBytes(bs: seq<byte>): string {
    if bs == [] then [] else EncodeByte(bs[0]) + EncodeBytes(bs[1..])
  }

  /** The form-urlencoding of a name or a value. */
  function Encode(s: string): string {
    EncodeBytes(Utf8Encode(s))
  }

  /** The characters the serializer can produce. */
  predicate IsEncodedChar(c: char) {
    || c == '*' || c == '-' || c == '.' || c == '_' || c == '+' || c == '%'
    || ('0' <= c <= '9') || ('A' <= c <= 'Z') || ('a' <= c <= 'z')
  }

  predicate AllEncodedChars(s: string) {
    forall i :: 0 <= i < |s| ==> IsEncodedChar(s[i])
  }

  lemma {:induction false} EncodeBytesChars(bs: seq<byte>)
    ensures AllEncodedChars(EncodeBytes(bs))
  {
    if bs != [] {
      EncodeBytesChars(bs[1..]);
    }
  }

  /** An encoded name or value never holds the `&` and `=` that delimit pairs. */
  lemma EncodeHasNoDelimiters(s: string)
    ensures '&' !in Encode(s) && '=' !in Encode(s)
  {
    EncodeBytesChars(Utf8Encode(s));
  }

  // ---------------------------------------------------------------------
  // The parser direction: `+` to space, then percent-decoding, then UTF-8

  function PlusToSpace(bs: seq<byte>): seq<byte> {
    if bs == [] then [] else [if bs[0] == 0x2B then 0x20 else bs[0]] + PlusToSpace(bs[1..])
  }

  function PercentDecode(bs: seq<byte>): seq<byte> {
    if bs == [] then []
    else if bs[0] == 0x25 && |bs| >= 3 && IsHexByte(bs[1]) && IsHexByte(bs[2]) then
      [(HexValue(bs[1]) * 16 + HexValue(bs[2])) as byte] + PercentDecode(bs[3..])
    else [bs[0]] + PercentDecode(bs[1..])
  }

  /** Decodes a name or a value; `None` where the host would insert U+FFFD. */
  function Decode(t: string): Option<string> {
    Utf8Decode(PercentDecode(PlusToSpace(Utf8Encode(t))))
  }

  lemma {:induction false} PlusToSpaceConcat(a: seq<byte>, b: seq<byte>)
    ensures PlusToSpace(a + b) == PlusToSpace(a) + PlusToSpace(b)
  {
    if a == [] {
      assert a + b == b;
    } else {
      assert (a + b)[0] == a[0] && (a + b)[1..] == a[1..] + b;
      PlusToSpaceConcat(a[1..], b);
    }
  }

  lemma HexDigitRoundTrip(n: nat)
    requires n < 16
    ensures (HexDigit(n) as int) < 128 && IsHexByte(HexDigit(n) as int as byte)
    ensures HexValue(HexDigit(n) as int as byte) == n
  {
  }

  lemma {:induction false} Utf8EncodeAscii(s: string)
    requires forall i :: 0 <= i < |s| ==> s[i] as int < 0x80
    ensures Utf8Encode(s) == seq(|s|, i requires 0 <= i < |s| => s[i] as int as byte)
  {
    if s != [] {
      Utf8EncodeAscii(s[1..]);
    }
  }

  lemma {:induction false} PlusToSpaceNoPlus(bs: seq<byte>)
    requires 0x2B !in bs
    ensures PlusToSpace(bs) == bs
  {
    if bs != [] {
      PlusToSpaceNoPlus(bs[1..]);
    }
  }

  /** The bytes the parser sees for one encoded byte: the ASCII string `EncodeByte(b)`, after `+` became space. */
  lemma DecodeEncodedByte(b: byte, rest: seq<byte>)
    ensures PercentDecode(PlusToSpace(Utf8Encode(EncodeByte(b))) + rest) == [b] + PercentDecode(rest)
  {
    if IsUnreserved(b) {
      assert Utf8Encode(EncodeByte(b)) == [b];
    } else if b == 0x20 {
      assert Utf8Encode(EncodeByte(b)) == [0x2B];
    } else {
      DecodePercentByte(b, rest);
    }
  }

  lemma DecodePercentByte(b: byte, rest: seq<byte>)
    requires !IsUnreserved(b) && b != 0x20
    ensures PercentDecode(PlusToSpace(Utf8Encode(EncodeByte(b))) + rest) == [b] + PercentDecode(rest)
  {
    var hi, lo := b as nat / 16, b as nat % 16;
    HexDigitRoundTrip(hi);
    HexDigitRoundTrip(lo);
    var h1, h2 := HexDigit(hi) as int as byte, HexDigit(lo) as int as byte;
    PercentTriple(b);
    PercentDecodeTriple(h1, h2, rest);
    assert hi * 16 + lo == b as nat;
  }

  /** A byte written as `%XX` reaches the decoder as the three bytes of `%XX`. */
  lemma PercentTriple(b: byte)
    requires !IsUnreserved(b) && b != 0x20
    ensures HexDigit(b as nat / 16) as int < 128 && HexDigit(b as nat % 16) as int < 128
    ensures PlusToSpace(Utf8Encode(EncodeByte(b))) ==
      [0x25, HexDigit(b as nat / 16) as int as byte, HexDigit(b as nat % 16) as int as byte]
  {
    var e := EncodeByte(b);
    HexDigitRoundTrip(b as nat / 16);
    HexDigitRoundTrip(b as nat % 16);
    Utf8EncodeAscii(e);
    var h1, h2 := HexDigit(b as nat / 16) as int as byte, HexDigit(b as nat % 16) as int as byte;
    assert Utf8Encode(e) == [0x25, h1, h2];
    PlusToSpaceNoPlus([0x25, h1, h2]);
  }

  lemma PercentDecodeTriple(h1: byte, h2: byte, rest: seq<byte>)
    requires IsHexByte(h1) && IsHexByte(h2)
    ensures PercentDecode([0x25, h1, h2] + rest) == [(HexValue(h1) * 16 + HexValue(h2)) as byte] + PercentDecode(rest)
  {
    var all := [0x25, h1, h2] + rest;
    assert all[3..] == rest;
  }

  lemma {:induction false} DecodeEncodeBytes(bs: seq<byte>)
    ensures PercentDecode(PlusToSpace(Utf8Encode(EncodeBytes(bs)))) == bs
  {
    if bs != [] {
      var head, tail := EncodeByte(bs[0]), EncodeBytes(bs[1..]);
      Utf8EncodeConcat(head, tail);
      PlusToSpaceConcat(Utf8Encode(head), Utf8Encode(tail));
      DecodeEncodedByte(bs[0], PlusToSpace(Utf8Encode(tail)));
      DecodeEncodeBytes(bs[1..]);
      assert [bs[0]] + bs[1..] == bs;
    }
  }

  /** Every name and value is read back from its encoding, so `Encode` is injective. */
  lemma EncodeRoundTrip(s: string)
    ensures Decode(Encode(s)) == Some(s)
  {
    DecodeEncodeBytes(Utf8Encode(s));
    Utf8RoundTrip(s);
  }

  lemma EncodeInjective(s: string, t: string)
    requires Encode(s) == Encode(t)
    ensures s == t
  {
    EncodeRoundTrip(s);
    EncodeRoundTrip(t);
  }

  // ---------------------------------------------------------------------
  // Lists of pairs

  function SerializePair(p: (string, string)): string {
    Encode(p.0) + "=" + Encode(p.1)
  }

  function SerializedParts(pairs: seq<(string, string)>): (r: seq<string>)
    ensures |r| == |pairs|
    ensures forall i :: 0 <= i < |pairs| ==> r[i] == SerializePair(pairs[i])
  {
    if pairs == [] then [] else [SerializePair(pairs[0])] + SerializedParts(pairs[1..])
  }

  /** `URLSearchParams.prototype.toString`: the encoded pairs `name=value`, joined by `&`. */
  function Serialize(pairs: seq<(string, string)>): string {
    Join(SerializedParts(pairs), '&')
  }

  function IndexOfChar(s: string, c: char): (r: nat)
    requires c in s
    ensures r < |s| && s[r] == c && c !in s[..r]
  {
    if s[0] == c then 0 else 1 + IndexOfChar(s[1..], c)
  }

  /** Splits one `name=value` sequence at its first `=`; without one the value is empty. */
  function SplitPair(part: string): (string, string) {
    if '=' in part then
      var i := IndexOfChar(part, '=');
      (part[..i], part[i + 1..])
    else (part, "")
  }

  function ParseParts(parts: seq<string>): Option<seq<(string, string)>> {
    if parts == [] then Some([])
    else
      match ParseParts(parts[1..])
      case None => None
      case Some(rest) =>
        if parts[0] == "" then Some(rest)
        else
          var (n, v) := SplitPair(parts[0]);
          match (Decode(n), Decode(v))
          case (Some(name), Some(value)) => Some([(name, value)] + rest)
          case _ => None
  }

  /** The form-urlencoded parser: split on `&`, skip empty sequences, split each at its first `=` and decode. */
  function Parse(q: string): Option<seq<(string, string)>> {
    ParseParts(Split(q, '&'))
  }

  lemma SplitPairOfSerialized(p: (string, string))
    ensures SplitPair(SerializePair(p)) == (Encode(p.0), Encode(p.1))
  {
    EncodeHasNoDelimiters(p.0);
    var s := SerializePair(p);
    var k := Encode(p.0);
    assert s[|k|] == '=' && s[..|k|] == k;
    var i := IndexOfChar(s, '=');
    assert i == |k|;
    assert s[i + 1..] == Encode(p.1);
  }

  lemma {:induction false} ParseSerializedParts(pairs: seq<(string, string)>)
    ensures ParseParts(SerializedParts(pairs)) == Some(pairs)
  {
    if pairs != [] {
      var parts := SerializedParts(pairs);
      assert parts[1..] == SerializedParts(pairs[1..]);
      ParseSerializedParts(pairs[1..]);
      assert parts[0] != "" by {
        assert parts[0][|Encode(pairs[0].0)|] == '=';
      }
      SplitPairOfSerialized(pairs[0]);
      EncodeRoundTrip(pairs[0].0);
      EncodeRoundTrip(pairs[0].1);
      assert [pairs[0]] + pairs[1..] == pairs;
    }
  }

  /** The serializer loses nothing: the parser gives back exactly the list of pairs, in order. */
  lemma SerializeRoundTrip(pairs: seq<(string, string)>)
    ensures Parse(Serialize(pairs)) == Some(pairs)
  {
    if pairs == [] {
      assert Split("", '&') == [""];
    } else {
      var parts := SerializedParts(pairs);
      forall i | 0 <= i < |parts| ensures '&' !in parts[i] {
        EncodeHasNoDelimiters(pairs[i].0);
        EncodeHasNoDelimiters(pairs[i].1);
      }
      SplitJoin(parts, '&');
      ParseSerializedParts(pairs);
    }
  }

  /** The serialization is empty exactly when there are no pairs. */
  lemma SerializeEmptyIff(pairs: seq<(string, string)>)
    ensures Serialize(pairs) == "" <==> pairs == []
  {
    if pairs != [] {
      var parts := SerializedParts(pairs);
      assert |parts[0]| > 0 by {
        assert parts[0][|Encode(pairs[0].0)|] == '=';
      }
      assert |parts| == 1 || Join(parts, '&') == parts[0] + "&" + Join(parts[1..], '&');
    }
  }

  /** The serializer is injective: different lists of pairs give different query strings. */
  lemma SerializeInjective(p: seq<(string, string)>, q: seq<(string, string)>)
    requires Serialize(p) == Serialize(q)
    ensures p == q
  {
    SerializeRoundTrip(p);
    SerializeRoundTrip(q);
  }
}
