/**
 The two halves of the ECDSA signature codec: the server packs raw r||s into a
 DER Ecdsa-Sig-Value (section 2.2.3 of RFC 3279), the Linux module unpacks one
 into fixed-width r||s. Lengths are definite and shortest (sections 8.1.3 and
 10.1 of X.690), integers are shortest two's complement (section 8.3).
 */
module EcdsaCodec {
  import opened Bytes

  const SEQUENCE: byte := 0x30
  const INTEGER: byte := 0x02

  /** The longest content that cryptobyte writes: its length takes four bytes. */
  const MAX_CONTENT: nat := 0xffff_fffe

  lemma LengthFitsFourBytes(n: nat)
    requires n <= MAX_CONTENT
    ensures |MinBytes(n)| <= 4
  {
    assert Pow256(1) == 0x100 && Pow256(2) == 0x1_0000;
    assert Pow256(3) == 0x100_0000 && Pow256(4) == 0x1_0000_0000;
    MinBytesFits(n, 4);
  }

  // ----- encoding -----

  function EncodeLength(n: nat): seq<byte>
    requires n <= MAX_CONTENT
  {
    if n < 0x80 then [n]
    else
      LengthFitsFourBytes(n);
      [0x80 + |MinBytes(n)|] + MinBytes(n)
  }

  function EncodeElement(tag: byte, content: seq<byte>): seq<byte>
    requires |content| <= MAX_CONTENT
  {
    [tag] + EncodeLength(|content|) + content
  }

  /** Content of a non-negative INTEGER: a zero byte keeps the sign bit clear. */
  function IntegerContent(n: nat): (c: seq<byte>)
    ensures c != []
  {
    var b := MinBytes(n);
    if n == 0 then [0] else if b != [] && b[0] >= 0x80 then [0] + b else b
  }

  /** Whether r and s are small enough for every length in the signature. */
  predicate Encodable(r: nat, s: nat) {
    && |IntegerContent(r)| <= MAX_CONTENT
    && |IntegerContent(s)| <= MAX_CONTENT
    && |EncodeElement(INTEGER, IntegerContent(r))| + |EncodeElement(INTEGER, IntegerContent(s))| <= MAX_CONTENT
  }

  function EncodeSignature(r: nat, s: nat): seq<byte>
    requires Encodable(r, s)
  {
    EncodeElement(SEQUENCE, EncodeElement(INTEGER, IntegerContent(r)) + EncodeElement(INTEGER, IntegerContent(s)))
  }

  /** packECDSASignature: raw r||s of a field of halfLen bytes to DER. */
  method PackEcdsaSignature(raw: seq<byte>, halfLen: nat) returns (der: Option<seq<byte>>)
    ensures der.Some? <==>
            && 2 * halfLen <= |raw|
            && Encodable(Value(raw[..halfLen]), Value(raw[halfLen..2 * halfLen]))
    ensures der.Some? ==> der.value == EncodeSignature(Value(raw[..halfLen]), Value(raw[halfLen..2 * halfLen]))
  {
    if |raw| < 2 * halfLen {
      return None;
    }
    var r, s := Value(raw[..halfLen]), Value(raw[halfLen..2 * halfLen]);
    if |IntegerContent(r)| > MAX_CONTENT || |IntegerContent(s)| > MAX_CONTENT {
      return None;
    }
    var body := EncodeElement(INTEGER, IntegerContent(r));
    body := body + EncodeElement(INTEGER, IntegerContent(s));
    if |body| > MAX_CONTENT {
      return None;
    }
    der := Some(EncodeElement(SEQUENCE, body));
  }

  // ----- decoding -----

  datatype Read<+T> = Bad | Got(value: T, rest: seq<byte>)

  /** A definite length in its shortest form. */
  function DecodeLength(b: seq<byte>): Read<nat> {
    if b == [] then Bad
    else if b[0] < 0x80 then Got(b[0], b[1..])
    else
      var k := b[0] - 0x80;
      if k == 0 || k > 4 || |b| < 1 + k then Bad
      else
        var n := Value(b[1..1 + k]);
        if b[1] == 0 || n < 0x80 || n > MAX_CONTENT then Bad else Got(n, b[1 + k..])
  }

  function DecodeElement(tag: byte, b: seq<byte>): Read<seq<byte>> {
    if b == [] || b[0] != tag then Bad
    else
      match DecodeLength(b[1..])
      case Bad => Bad
      case Got(n, rest) => if |rest| < n then Bad else Got(rest[..n], rest[n..])
  }

  /** Content of a shortest non-negative INTEGER. */
  predicate ValidContent(c: seq<byte>) {
    c != [] && c[0] < 0x80 && (c[0] == 0 && |c| > 1 ==> c[1] >= 0x80)
  }

  function DecodeInteger(b: seq<byte>): Read<nat> {
    match DecodeElement(INTEGER, b)
    case Bad => Bad
    case Got(c, rest) => if ValidContent(c) then Got(Value(c), rest) else Bad
  }

  /** Reads r and s; bytes after the SEQUENCE are left over, as d2i_ECDSA_SIG leaves them. */
  function DecodeSignature(b: seq<byte>): Read<(nat, nat)> {
    match DecodeElement(SEQUENCE, b)
    case Bad => Bad
    case Got(body, rest) =>
      match DecodeInteger(body)
      case Bad => Bad
      case Got(r, after) =>
        match DecodeInteger(after)
        case Bad => Bad
        case Got(s, tail) => if tail == [] then Got((r, s), rest) else Bad
  }

  /** ecdsa_der_to_raw without its allocation: r and s padded to the field width. */
  function DerToRaw(der: seq<byte>, field: nat): Option<seq<byte>> {
    match DecodeSignature(der)
    case Bad => None
    case Got(rs, _) =>
      if |MinBytes(rs.0)| > field || |MinBytes(rs.1)| > field then None
      else Some(Padded(rs.0, field) + Padded(rs.1, field))
  }

  // ----- what the parts mean -----

  lemma LengthRoundTrip(n: nat, rest: seq<byte>)
    requires n <= MAX_CONTENT
    ensures DecodeLength(EncodeLength(n) + rest) == Got(n, rest)
  {
    if n < 0x80 {
      assert ([n] + rest)[1..] == rest;
    } else {
      LengthFitsFourBytes(n);
      MinBytesValue(n);
      var m := MinBytes(n);
      var b := EncodeLength(n) + rest;
      assert b[1..1 + |m|] == m && b[1 + |m|..] == rest && b[1] == m[0];
    }
  }

  lemma LengthUnique(b: seq<byte>)
    requires DecodeLength(b).Got?
    ensures DecodeLength(b).value <= MAX_CONTENT
    ensures b == EncodeLength(DecodeLength(b).value) + DecodeLength(b).rest
  {
    if b[0] < 0x80 {
      assert b == [b[0]] + b[1..];
    } else {
      var k := b[0] - 0x80;
      var m := b[1..1 + k];
      assert m[0] == b[1];
      ValueMinBytes(m);
      assert b == [b[0]] + m + b[1 + k..];
    }
  }

  lemma ElementRoundTrip(tag: byte, c: seq<byte>, rest: seq<byte>)
    requires |c| <= MAX_CONTENT
    ensures DecodeElement(tag, EncodeElement(tag, c) + rest) == Got(c, rest)
  {
    var b := EncodeElement(tag, c) + rest;
    assert b[1..] == EncodeLength(|c|) + (c + rest);
    LengthRoundTrip(|c|, c + rest);
    assert (c + rest)[..|c|] == c && (c + rest)[|c|..] == rest;
  }

  lemma ElementUnique(tag: byte, b: seq<byte>)
    requires DecodeElement(tag, b).Got?
    ensures |DecodeElement(tag, b).value| <= MAX_CONTENT
    ensures b == EncodeElement(tag, DecodeElement(tag, b).value) + DecodeElement(tag, b).rest
  {
    hide EncodeLength, DecodeLength;
    var tail := b[1..];
    LengthUnique(tail);
    var n, rest := DecodeLength(tail).value, DecodeLength(tail).rest;
    var header := EncodeLength(n);
    assert b == [tag] + (header + (rest[..n] + rest[n..]));
    assert b == ([tag] + header + rest[..n]) + rest[n..];
  }

  lemma ContentRoundTrip(n: nat)
    ensures ValidContent(IntegerContent(n)) && Value(IntegerContent(n)) == n
  {
    MinBytesValue(n);
    LeadingZero(MinBytes(n));
    if n == 0 {
      assert Value([0]) == 0;
    }
  }

  lemma ContentUnique(c: seq<byte>)
    requires ValidContent(c)
    ensures IntegerContent(Value(c)) == c
  {
    if c[0] == 0 {
      assert c == [0] + c[1..];
      LeadingZero(c[1..]);
      ValueMinBytes(c[1..]);
      MinBytesValue(Value(c[1..]));
    } else {
      ValueMinBytes(c);
      MinBytesValue(Value(c));
    }
  }

  lemma IntegerRoundTrip(n: nat, rest: seq<byte>)
    requires |IntegerContent(n)| <= MAX_CONTENT
    ensures DecodeInteger(EncodeElement(INTEGER, IntegerContent(n)) + rest) == Got(n, rest)
  {
    ElementRoundTrip(INTEGER, IntegerContent(n), rest);
    ContentRoundTrip(n);
  }

  lemma IntegerUnique(b: seq<byte>)
    requires DecodeInteger(b).Got?
    ensures |IntegerContent(DecodeInteger(b).value)| <= MAX_CONTENT
    ensures b == EncodeElement(INTEGER, IntegerContent(DecodeInteger(b).value)) + DecodeInteger(b).rest
  {
    ElementUnique(INTEGER, b);
    ContentUnique(DecodeElement(INTEGER, b).value);
  }

  // ----- main results -----

  /** Every encoded signature is read back, whatever follows it. */
  lemma SignatureRoundTrip(r: nat, s: nat, rest: seq<byte>)
    requires Encodable(r, s)
    ensures DecodeSignature(EncodeSignature(r, s) + rest) == Got((r, s), rest)
  {
    var er := EncodeElement(INTEGER, IntegerContent(r));
    var es := EncodeElement(INTEGER, IntegerContent(s));
    ElementRoundTrip(SEQUENCE, er + es, rest);
    IntegerRoundTrip(r, es);
    IntegerRoundTrip(s, []);
    assert es + [] == es;
  }

  /** DER is canonical: what is accepted is the one encoding of the values read. */
  lemma SignatureUnique(b: seq<byte>)
    requires DecodeSignature(b).Got?
    ensures Encodable(DecodeSignature(b).value.0, DecodeSignature(b).value.1)
    ensures b == EncodeSignature(DecodeSignature(b).value.0, DecodeSignature(b).value.1) + DecodeSignature(b).rest
  {
    ElementUnique(SEQUENCE, b);
    var body := DecodeElement(SEQUENCE, b).value;
    IntegerUnique(body);
    var after := DecodeInteger(body).rest;
    IntegerUnique(after);
    var s := DecodeInteger(after).value;
    assert EncodeElement(INTEGER, IntegerContent(s)) + [] == EncodeElement(INTEGER, IntegerContent(s));
  }

  /** The length bytes of X.690: one up to 127, then 0x81 or 0x82 before one or two. */
  function LengthBytes(n: nat): seq<byte>
    requires n < 0x1_0000
  {
    if n < 0x80 then [n] else if n < 0x100 then [0x81, n] else [0x82, n / 0x100, n % 0x100]
  }

  lemma HeaderBytes(n: nat)
    requires n < 0x1_0000
    ensures EncodeLength(n) == LengthBytes(n)
  {
    ShortHeader(n);
    if n >= 0x100 {
      assert MinBytes(n) == MinBytes(n / 0x100) + [n % 0x100];
      assert MinBytes(n / 0x100) == MinBytes(0) + [n / 0x100];
    } else if n >= 0x80 {
      assert MinBytes(n) == MinBytes(0) + [n];
    }
  }

  /** An INTEGER has the number's bytes behind a clear sign bit, and no more than needed. */
  lemma ContentMeaning(n: nat)
    ensures var c := IntegerContent(n);
            && Value(c) == n && c[0] < 0x80
            && (|c| > 1 && c[0] == 0 ==> c[1] >= 0x80)
  {
    ContentRoundTrip(n);
  }

  /** The bytes of a signature, byte for byte, for integers of up to 30000 bytes. */
  lemma SignatureBytes(r: nat, s: nat)
    requires |IntegerContent(r)| <= 30000 && |IntegerContent(s)| <= 30000
    ensures Encodable(r, s)
    ensures var a, b := IntegerContent(r), IntegerContent(s);
            var body := [0x02] + LengthBytes(|a|) + a + ([0x02] + LengthBytes(|b|) + b);
            |body| < 0x1_0000 && EncodeSignature(r, s) == [0x30] + LengthBytes(|body|) + body
  {
    hide IntegerContent, EncodeLength;
    var a, b := IntegerContent(r), IntegerContent(s);
    HeaderBytes(|a|);
    HeaderBytes(|b|);
    HeaderBytes(|[0x02] + LengthBytes(|a|) + a + ([0x02] + LengthBytes(|b|) + b)|);
  }

  /** Packing raw r||s and unpacking at the same width gives the same bytes, with
      anything after the DER ignored. Every width whose encoding exists is covered. */
  lemma PackThenUnpack(raw: seq<byte>, n: nat, rest: seq<byte>)
    requires |raw| == 2 * n
    requires Encodable(Value(raw[..n]), Value(raw[n..]))
    ensures DerToRaw(EncodeSignature(Value(raw[..n]), Value(raw[n..])) + rest, n) == Some(raw)
  {
    hide EncodeSignature, DecodeSignature, Encodable, Value, Padded, MinBytes, Pow256;
    var r, s := raw[..n], raw[n..];
    SignatureRoundTrip(Value(r), Value(s), rest);
    PaddedValue(r);
    PaddedValue(s);
    MinBytesFits(Value(r), n);
    MinBytesFits(Value(s), n);
    assert raw == r + s;
  }

  /** Unpacking succeeds exactly on the DER of two integers that fit the width, and
      packing the result gives that DER back. */
  lemma UnpackThenPack(der: seq<byte>, n: nat, raw: seq<byte>)
    ensures DerToRaw(der, n) == Some(raw) <==>
            && |raw| == 2 * n
            && Encodable(Value(raw[..n]), Value(raw[n..]))
            && EncodeSignature(Value(raw[..n]), Value(raw[n..])) <= der
  {
    hide EncodeSignature, DecodeSignature, Encodable, Value, Padded, MinBytes, Pow256;
    if DerToRaw(der, n) == Some(raw) {
      SignatureUnique(der);
      var rs := DecodeSignature(der).value;
      assert raw[..n] == Padded(rs.0, n) && raw[n..] == Padded(rs.1, n);
      MinBytesFits(rs.0, n);
      MinBytesFits(rs.1, n);
      ValuePadded(rs.0, n);
      ValuePadded(rs.1, n);
    }
    if |raw| == 2 * n && Encodable(Value(raw[..n]), Value(raw[n..])) {
      var enc := EncodeSignature(Value(raw[..n]), Value(raw[n..]));
      if enc <= der {
        assert der == enc + der[|enc|..];
        PackThenUnpack(raw, n, der[|enc|..]);
      }
    }
  }

  /** Every width the module accepts (at most 128 bytes) has an encoding. */
  lemma FieldEncodable(r: nat, s: nat, n: nat)
    requires n <= 128 && r < Pow256(n) && s < Pow256(n)
    ensures Encodable(r, s)
    ensures |EncodeSignature(r, s)| <= 2 * n + 12
  {
    MinBytesFits(r, n);
    MinBytesFits(s, n);
    ShortHeader(|IntegerContent(r)|);
    ShortHeader(|IntegerContent(s)|);
    ShortHeader(|EncodeElement(INTEGER, IntegerContent(r))| + |EncodeElement(INTEGER, IntegerContent(s))|);
  }

  /** Length headers of one, two and three bytes. */
  lemma ShortHeader(n: nat)
    requires n < 0x1_0000
    ensures |EncodeLength(n)| == if n < 0x80 then 1 else if n < 0x100 then 2 else 3
  {
    assert Pow256(1) == 0x100 && Pow256(2) == 0x1_0000;
    MinBytesFits(n, 0);
    MinBytesFits(n, 1);
    MinBytesFits(n, 2);
  }
}
