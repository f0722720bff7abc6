/** Bytes, and the big-endian numbers that RSA and ECDSA values are written in. */
module Bytes {

  datatype Option<+T> = None | Some(value: T)

  type byte = x: int | 0 <= x < 256

  /** 256 to the power n: one more than the largest value of n bytes. */
  function Pow256(n: nat): (p: nat)
    ensures p > 0
  {
    if n == 0 then 1 else 256 * Pow256(n - 1)
  }

  /** The value of a big-endian byte string (big.Int.SetBytes, BN_bin2bn). */
  function Value(b: seq<byte>): nat {
    if b == [] then 0 else 256 * Value(b[..|b| - 1]) + b[|b| - 1]
  }

  /** The shortest big-endian form, empty for zero (big.Int.Bytes, BN_bn2bin). */
  function MinBytes(n: nat): seq<byte> {
    if n == 0 then [] else MinBytes(n / 256) + [n % 256]
  }

  /** The low w bytes of n, most significant first (BN_bn2binpad when n fits). */
  function Padded(n: nat, w: nat): (b: seq<byte>)
    ensures |b| == w
  {
    if w == 0 then [] else Padded(n / 256, w - 1) + [n % 256]
  }

  /** Shortest bytes read back as the same number and carry no leading zero. */
  lemma {:induction false} MinBytesValue(n: nat)
    ensures Value(MinBytes(n)) == n
    ensures MinBytes(n) == [] <==> n == 0
    ensures n != 0 ==> MinBytes(n)[0] != 0
  {
    if n != 0 {
      MinBytesValue(n / 256);
      assert MinBytes(n)[..|MinBytes(n)| - 1] == MinBytes(n / 256);
    }
  }

  lemma ByteMore(n: nat, v: nat, p: nat)
    ensures 256 * v + n % 256 == n <==> v == n / 256
    ensures n < 256 * p <==> n / 256 < p
  {
  }

  lemma ValueLast(b: seq<byte>)
    requires b != []
    ensures Value(b) == 256 * Value(b[..|b| - 1]) + b[|b| - 1]
  {
  }

  /** A byte string and its value without the last byte. */
  lemma ValueStep(b: seq<byte>)
    requires b != []
    ensures b == b[..|b| - 1] + [b[|b| - 1]]
    ensures Value(b) / 256 == Value(b[..|b| - 1]) && Value(b) % 256 == b[|b| - 1]
  {
    hide Value;
    ValueLast(b);
    var v: int, d: int := Value(b[..|b| - 1]), b[|b| - 1];
    assert Value(b) == 256 * v + d;
    ByteLast(v, d);
  }

  lemma ByteLast(v: nat, d: byte)
    ensures (256 * v + d) / 256 == v && (256 * v + d) % 256 == d
  {
  }

  /** The only byte string without a leading zero for a value is the shortest one. */
  lemma {:induction false} ValueMinBytes(b: seq<byte>)
    requires b != [] ==> b[0] != 0
    ensures MinBytes(Value(b)) == b
  {
    if b != [] {
      var front := b[..|b| - 1];
      ValueStep(b);
      ValueMinBytes(front);
      MinBytesValue(Value(front));
    }
  }

  /** A byte string is below 256^|b|, and padding its value to |b| bytes restores it. */
  lemma {:induction false} PaddedValue(b: seq<byte>)
    ensures Value(b) < Pow256(|b|)
    ensures Padded(Value(b), |b|) == b
  {
    if b != [] {
      var front := b[..|b| - 1];
      ValueStep(b);
      PaddedValue(front);
      ByteMore(Value(b), Value(front), Pow256(|front|));
    }
  }

  /** Padding loses nothing exactly when the number fits the width. */
  lemma {:induction false} ValuePadded(n: nat, w: nat)
    ensures Value(Padded(n, w)) == n <==> n < Pow256(w)
  {
    if w == 0 {
    } else {
      ValuePadded(n / 256, w - 1);
      assert Padded(n, w)[..w - 1] == Padded(n / 256, w - 1);
      var v := Value(Padded(n / 256, w - 1));
      assert Value(Padded(n, w)) == 256 * v + n % 256;
      ByteMore(n, v, Pow256(w - 1));
    }
  }

  /** The shortest form has at most w bytes exactly for numbers below 256^w. */
  lemma {:induction false} MinBytesFits(n: nat, w: nat)
    ensures |MinBytes(n)| <= w <==> n < Pow256(w)
  {
    if n == 0 {
    } else if w == 0 {
      assert |MinBytes(n)| == |MinBytes(n / 256)| + 1;
    } else {
      MinBytesFits(n / 256, w - 1);
      assert n / 256 < Pow256(w - 1) <==> n < Pow256(w);
    }
  }

  /** A larger number never has a shorter shortest form. */
  lemma {:induction false} MinBytesMonotone(m: nat, n: nat)
    requires m <= n
    ensures |MinBytes(m)| <= |MinBytes(n)|
  {
    MinBytesFits(n, |MinBytes(n)|);
    MinBytesFits(m, |MinBytes(n)|);
  }

  /** Leading zero bytes do not change the value. */
  lemma {:induction false} LeadingZero(b: seq<byte>)
    ensures Value([0] + b) == Value(b)
  {
    if b == [] {
      assert Value([0]) == 0;
    } else {
      LeadingZero(b[..|b| - 1]);
      assert ([0] + b)[..|b|] == [0] + b[..|b| - 1];
    }
  }
}
