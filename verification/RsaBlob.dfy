/** The RSA public blob: a little-endian header, then big-endian exponent and modulus. */
module RsaBlob {
  import opened Bytes

  const MAGIC: nat := 0x31415352
  const HEADER: nat := 24
  const WORD: nat := 0x1_0000_0000

  /** Number of bits (big.Int.BitLen). */
  function BitLen(n: nat): nat {
    if n == 0 then 0 else 1 + BitLen(n / 2)
  }

  /** The low 32 bits of v in little-endian and in big-endian order. */
  function Le32(v: nat): (b: seq<byte>)
    ensures |b| == 4
  {
    [v % 0x100, v / 0x100 % 0x100, v / 0x1_0000 % 0x100, v / 0x100_0000 % 0x100]
  }

  function Be32(v: nat): (b: seq<byte>)
    ensures |b| == 4
  {
    [v / 0x100_0000 % 0x100, v / 0x1_0000 % 0x100, v / 0x100 % 0x100, v % 0x100]
  }

  function ReadLe32(b: seq<byte>, at: nat): nat
    requires at + 4 <= |b|
  {
    var b0: int, b1: int, b2: int, b3: int := b[at], b[at + 1], b[at + 2], b[at + 3];
    b0 + 0x100 * b1 + 0x1_0000 * b2 + 0x100_0000 * b3
  }

  datatype PublicKey = PublicKey(bits: nat, e: nat, n: nat)

  /** A reader of the format: it trusts nothing but the magic and the two lengths. */
  function Read(blob: seq<byte>): Option<PublicKey> {
    if |blob| < HEADER || ReadLe32(blob, 0) != MAGIC then None
    else
      var cbExp, cbMod := ReadLe32(blob, 8), ReadLe32(blob, 12);
      if |blob| != HEADER + cbExp + cbMod then None
      else Some(PublicKey(ReadLe32(blob, 4), Value(blob[HEADER..HEADER + cbExp]), Value(blob[HEADER + cbExp..])))
  }

  /** binary.LittleEndian.PutUint32 at an offset. */
  method PutLe32(blob: array<byte>, at: nat, v: nat)
    requires at + 4 <= blob.Length
    modifies blob
    ensures blob[..] == old(blob[..at]) + Le32(v) + old(blob[at + 4..])
  {
    ghost var before := blob[..];
    blob[at] := v % 0x100;
    blob[at + 1] := v / 0x100 % 0x100;
    blob[at + 2] := v / 0x1_0000 % 0x100;
    blob[at + 3] := v / 0x100_0000 % 0x100;
    assert blob[..] == before[..at] + Le32(v) + before[at + 4..];
  }

  /** copy to the given offset. */
  method CopyAt(blob: array<byte>, at: nat, src: seq<byte>)
    requires at + |src| <= blob.Length
    modifies blob
    ensures blob[..] == old(blob[..at]) + src + old(blob[at + |src|..])
  {
    forall i | 0 <= i < |src| {
      blob[at + i] := src[i];
    }
  }

  /** What the blob holds: everything is cut to 32 bits, and the prime lengths are 0. */
  function BlobOf(n: nat, e: nat): seq<byte> {
    Le32(MAGIC) + Le32(BitLen(n)) + Le32(4) + Le32(|MinBytes(n)|) + [0, 0, 0, 0, 0, 0, 0, 0] + Be32(e) + MinBytes(n)
  }

  /** The four words at the start of the header. */
  method WriteHeader(blob: array<byte>, bits: nat, expLen: nat, modLen: nat)
    requires HEADER <= blob.Length && blob[..] == seq(blob.Length, _ => 0)
    modifies blob
    ensures blob[..HEADER] == Le32(MAGIC) + Le32(bits) + Le32(expLen) + Le32(modLen) + [0, 0, 0, 0, 0, 0, 0, 0]
  {
    hide Le32;
    PutLe32(blob, 0, MAGIC);
    ghost var head := Le32(MAGIC);
    assert blob[..4] == head && blob[4..] == seq(blob.Length - 4, _ => 0);
    PutLe32(blob, 4, bits);
    head := head + Le32(bits);
    assert blob[..8] == head && blob[8..] == seq(blob.Length - 8, _ => 0);
    PutLe32(blob, 8, expLen);
    head := head + Le32(expLen);
    assert blob[..12] == head && blob[12..] == seq(blob.Length - 12, _ => 0);
    PutLe32(blob, 12, modLen);
    head := head + Le32(modLen);
    assert blob[..16] == head && blob[16..] == seq(blob.Length - 16, _ => 0);
  }

  /** rsaPublicBlobFromDER after parsing: the fields are written in place by offset. */
  method BuildBlob(n: nat, e: nat) returns (blob: array<byte>)
    ensures fresh(blob) && blob[..] == BlobOf(n, e)
  {
    hide Le32, Be32, BitLen, MinBytes;
    var modulus, exp := MinBytes(n), Be32(e);
    blob := new byte[HEADER + |exp| + |modulus|](_ => 0);
    assert blob[..] == seq(blob.Length, _ => 0);
    WriteHeader(blob, BitLen(n), |exp|, |modulus|);
    ghost var head := blob[..HEADER];
    CopyAt(blob, HEADER, exp);
    assert blob[..HEADER + |exp|] == head + exp;
    CopyAt(blob, HEADER + |exp|, modulus);
    assert blob[..] == head + exp + modulus;
  }

  /** Four base-256 digits make up the low 32 bits. */
  lemma FourDigits(v: nat)
    ensures v % 0x100 + 0x100 * (v / 0x100 % 0x100) + 0x1_0000 * (v / 0x1_0000 % 0x100)
            + 0x100_0000 * (v / 0x100_0000 % 0x100)
            == v % WORD
  {
    TwoDigits(v);
    TwoDigits(v / 0x1_0000);
    TwoHalves(v);
    assert v / 0x1_0000 / 0x100 == v / 0x100_0000;
  }

  lemma TwoDigits(v: nat)
    ensures v % 0x1_0000 == v % 0x100 + 0x100 * (v / 0x100 % 0x100)
  {
    var q, d := v / 0x1_0000, v % 0x1_0000;
    var hi, lo := d / 0x100, d % 0x100;
    assert v == 0x1_0000 * q + 0x100 * hi + lo;
    Digits(q, hi, lo, v);
  }

  lemma Digits(q: nat, hi: nat, lo: nat, v: nat)
    requires hi < 0x100 && lo < 0x100 && v == 0x1_0000 * q + 0x100 * hi + lo
    ensures v % 0x100 == lo && v / 0x100 % 0x100 == hi
  {
    var w := 0x100 * q + hi;
    assert v == 0x100 * w + lo;
    assert v / 0x100 == w;
  }

  lemma TwoHalves(v: nat)
    ensures v % WORD == v % 0x1_0000 + 0x1_0000 * (v / 0x1_0000 % 0x1_0000)
  {
    var q, d := v / WORD, v % WORD;
    var hi, lo := d / 0x1_0000, d % 0x1_0000;
    assert v == WORD * q + 0x1_0000 * hi + lo;
    Halves(q, hi, lo, v);
  }

  lemma Halves(q: nat, hi: nat, lo: nat, v: nat)
    requires hi < 0x1_0000 && lo < 0x1_0000 && v == WORD * q + 0x1_0000 * hi + lo
    ensures v % 0x1_0000 == lo && v / 0x1_0000 % 0x1_0000 == hi
  {
    var w := 0x1_0000 * q + hi;
    assert v == 0x1_0000 * w + lo;
    assert v / 0x1_0000 == w;
  }

  lemma Le32RoundTrip(v: nat, front: seq<byte>, back: seq<byte>)
    ensures ReadLe32(front + Le32(v) + back, |front|) == v % WORD
  {
    FourDigits(v);
    var b, d := front + Le32(v) + back, Le32(v);
    assert b[|front|] == d[0] && b[|front| + 1] == d[1] && b[|front| + 2] == d[2] && b[|front| + 3] == d[3];
  }

  lemma ZeroWords(front: seq<byte>, back: seq<byte>)
    requires |front| == 16
    ensures var b := front + [0, 0, 0, 0, 0, 0, 0, 0] + back; ReadLe32(b, 16) == 0 && ReadLe32(b, 20) == 0
  {
  }

  function Pow2(k: nat): nat {
    if k == 0 then 1 else 2 * Pow2(k - 1)
  }

  /** The bit length of a positive number is that of the power of two next above it. */
  lemma {:induction false} BitLenMeaning(n: nat)
    ensures n < Pow2(BitLen(n))
    ensures n > 0 ==> BitLen(n) > 0 && Pow2(BitLen(n) - 1) <= n
  {
    if n > 0 {
      BitLenMeaning(n / 2);
    }
  }

  lemma ValueOfFour(b: seq<byte>)
    requires |b| == 4
    ensures var b0: int, b1: int, b2: int, b3: int := b[0], b[1], b[2], b[3];
            Value(b) == 0x100_0000 * b0 + 0x1_0000 * b1 + 0x100 * b2 + b3
  {
    var b0: int, b1: int, b2: int := b[0], b[1], b[2];
    assert b[..3][..2] == b[..2] && b[..2][..1] == b[..1] && b[..1][..0] == [];
    assert Value(b[..1]) == b0;
    assert Value(b[..2]) == 0x100 * Value(b[..1]) + b1;
    assert Value(b[..3]) == 0x100 * Value(b[..2]) + b2;
  }

  lemma Be32Value(v: nat)
    ensures Value(Be32(v)) == v % WORD
  {
    hide Value;
    FourDigits(v);
    ValueOfFour(Be32(v));
  }

  lemma BitLenOfQuarter(n: nat)
    ensures n >= 4 ==> BitLen(n) == 2 + BitLen(n / 4)
    ensures n < 4 ==> BitLen(n) <= 2
    ensures n > 0 ==> BitLen(n) > 0
  {
    assert n / 2 / 2 == n / 4;
    if n < 4 {
      assert n / 4 == 0 && BitLen(0) == 0;
    }
  }

  /** A byte more is eight bits more. */
  lemma BitLenOfByte(n: nat)
    ensures n >= 0x100 ==> BitLen(n) == 8 + BitLen(n / 0x100)
    ensures 0 < n < 0x100 ==> 0 < BitLen(n) <= 8
  {
    hide BitLen;
    BitLenOfQuarter(n);
    BitLenOfQuarter(n / 4);
    BitLenOfQuarter(n / 4 / 4);
    BitLenOfQuarter(n / 4 / 4 / 4);
    assert n / 4 / 4 / 4 / 4 == n / 0x100;
  }

  lemma BitLenOfNothing()
    ensures BitLen(0) == 0
  {
  }

  /** The modulus takes the rounded-up bit length over 8 bytes. */
  lemma {:induction false} BytesOfBits(n: nat)
    ensures |MinBytes(n)| == (BitLen(n) + 7) / 8
  {
    hide BitLen;
    BitLenOfByte(n);
    if n >= 0x100 {
      BytesOfBits(n / 0x100);
    } else if n > 0 {
      assert MinBytes(n) == MinBytes(0) + [n];
    } else {
      assert BitLen(0) == 0 by {
        BitLenOfNothing();
      }
    }
  }

  /** The six words of the header. */
  lemma HeaderWords(n: nat, e: nat)
    ensures |BlobOf(n, e)| == HEADER + 4 + |MinBytes(n)|
    ensures ReadLe32(BlobOf(n, e), 0) == MAGIC
    ensures ReadLe32(BlobOf(n, e), 4) == BitLen(n) % WORD
    ensures ReadLe32(BlobOf(n, e), 8) == 4
    ensures ReadLe32(BlobOf(n, e), 12) == |MinBytes(n)| % WORD
    ensures ReadLe32(BlobOf(n, e), 16) == 0 && ReadLe32(BlobOf(n, e), 20) == 0
  {
    hide Le32, Be32, BitLen, MinBytes, ReadLe32;
    var a, b, c, d := Le32(MAGIC), Le32(BitLen(n)), Le32(4), Le32(|MinBytes(n)|);
    var zeros: seq<byte>, back := [0, 0, 0, 0, 0, 0, 0, 0], Be32(e) + MinBytes(n);
    var blob := BlobOf(n, e);
    assert blob == [] + a + (b + c + d + zeros + back);
    Le32RoundTrip(MAGIC, [], b + c + d + zeros + back);
    assert blob == a + b + (c + d + zeros + back);
    Le32RoundTrip(BitLen(n), a, c + d + zeros + back);
    assert blob == (a + b) + c + (d + zeros + back);
    Le32RoundTrip(4, a + b, d + zeros + back);
    assert blob == (a + b + c) + d + (zeros + back);
    Le32RoundTrip(|MinBytes(n)|, a + b + c, zeros + back);
    assert blob == (a + b + c + d) + zeros + back;
    ZeroWords(a + b + c + d, back);
  }

  /** Reading the blob back: the modulus always returns, exponent and bit length return
      cut to 32 bits. */
  lemma ReadBack(n: nat, e: nat)
    requires |MinBytes(n)| < WORD
    ensures Read(BlobOf(n, e)) == Some(PublicKey(BitLen(n) % WORD, e % WORD, n))
    ensures ReadLe32(BlobOf(n, e), 8) == 4 && ReadLe32(BlobOf(n, e), 12) == (BitLen(n) + 7) / 8
    ensures ReadLe32(BlobOf(n, e), 16) == 0 && ReadLe32(BlobOf(n, e), 20) == 0
  {
    hide BlobOf, Be32, Value, BitLen, MinBytes, ReadLe32;
    HeaderWords(n, e);
    Contents(n, e);
    Be32Value(e);
    MinBytesValue(n);
    BytesOfBits(n);
  }

  /** What stands behind the header. */
  lemma Contents(n: nat, e: nat)
    ensures |BlobOf(n, e)| == HEADER + 4 + |MinBytes(n)|
    ensures BlobOf(n, e)[HEADER..HEADER + 4] == Be32(e) && BlobOf(n, e)[HEADER + 4..] == MinBytes(n)
  {
    hide Le32, Be32, BitLen, MinBytes;
  }

  lemma Unchanged(v: nat)
    ensures v % WORD == v <==> v < WORD
  {
  }

  /** The blob stands for its key exactly when the exponent is below 2^32, for every
      modulus of fewer than 2^32 bits. */
  lemma BlobIsFaithful(n: nat, e: nat)
    requires BitLen(n) < WORD
    ensures Read(BlobOf(n, e)) == Some(PublicKey(BitLen(n), e, n)) <==> e < WORD
  {
    hide Read, BlobOf, BitLen, MinBytes;
    BytesOfBits(n);
    ReadBack(n, e);
    Unchanged(e);
    Unchanged(BitLen(n));
  }
}
