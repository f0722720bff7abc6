/**
 How much two DER signatures by one key can differ in length. The module asks
 for a signature twice, first for its length and then for its bytes, and leaves
 64 bytes of slack because the second one may be longer.
 */
module SignatureLength {
  import opened Bytes
  import opened EcdsaCodec

  const SLACK: nat := 64

  /** The longest INTEGER content for which the slack is enough, and one byte less. */
  const SAFE_CONTENT: nat := 33
  const SAFE_FIELD: nat := 32

  /** The sign bit of the shortest form is set exactly when doubling overflows it. */
  lemma {:induction false} TopByte(n: nat)
    requires n > 0
    ensures MinBytes(n) != []
    ensures MinBytes(n)[0] >= 0x80 <==> 2 * n >= Pow256(|MinBytes(n)|)
  {
    if n < 0x100 {
      assert MinBytes(n) == MinBytes(0) + [n];
      assert Pow256(1) == 0x100;
    } else {
      var m := n / 0x100;
      TopByte(m);
      assert MinBytes(n) == MinBytes(m) + [n % 0x100];
      TopOfEven(n, Pow256(|MinBytes(m)|), Pow256(|MinBytes(m)| - 1));
    }
  }

  lemma TopOfEven(n: nat, p: nat, q: nat)
    requires p == 0x100 * q
    ensures 2 * (n / 0x100) >= p <==> 2 * n >= 0x100 * p
  {
    assert n / 0x100 >= 0x80 * q <==> n >= 0x100 * (0x80 * q);
  }

  /** INTEGER content of at most w bytes: exactly the numbers below half of 256^w. */
  lemma ContentFits(n: nat, w: nat)
    requires w > 0
    ensures |IntegerContent(n)| <= w <==> 2 * n < Pow256(w)
  {
    var b := MinBytes(n);
    if n == 0 {
    } else {
      TopByte(n);
      MinBytesFits(n, w);
      MinBytesFits(n, w - 1);
      if |b| == w {
        assert Pow256(|b|) == Pow256(w);
      }
    }
  }

  lemma ContentMonotone(m: nat, n: nat)
    requires m <= n
    ensures |IntegerContent(m)| <= |IntegerContent(n)|
  {
    ContentFits(n, |IntegerContent(n)|);
    ContentFits(m, |IntegerContent(n)|);
  }

  lemma ElementMonotone(a: seq<byte>, b: seq<byte>, tag: byte)
    requires |a| <= |b| <= MAX_CONTENT
    ensures |EncodeElement(tag, a)| <= |EncodeElement(tag, b)|
  {
    MinBytesMonotone(|a|, |b|);
  }

  /** Larger values never have a shorter signature. */
  lemma LengthMonotone(r: nat, s: nat, r': nat, s': nat)
    requires r <= r' && s <= s' && Encodable(r', s')
    ensures Encodable(r, s)
    ensures |EncodeSignature(r, s)| <= |EncodeSignature(r', s')|
  {
    ContentMonotone(r, r');
    ContentMonotone(s, s');
    ElementMonotone(IntegerContent(r), IntegerContent(r'), INTEGER);
    ElementMonotone(IntegerContent(s), IntegerContent(s'), INTEGER);
    ElementMonotone(EncodeElement(INTEGER, IntegerContent(r)) + EncodeElement(INTEGER, IntegerContent(s)),
                    EncodeElement(INTEGER, IntegerContent(r')) + EncodeElement(INTEGER, IntegerContent(s')), SEQUENCE);
  }

  /** A DER signature whose integers lie between 1 and max, the group order less one. */
  ghost predicate SignatureBelow(der: seq<byte>, max: nat) {
    exists r: nat, s: nat ::
      1 <= r <= max && 1 <= s <= max && Encodable(r, s) && der == EncodeSignature(r, s)
  }

  /** The shortest signature has 8 bytes and the longest is that of the two largest
      values; both lengths occur. */
  lemma LengthRange(der: seq<byte>, max: nat)
    requires 1 <= max && Encodable(max, max)
    requires SignatureBelow(der, max)
    ensures 8 <= |der| <= |EncodeSignature(max, max)|
    ensures Encodable(1, 1) && |EncodeSignature(1, 1)| == 8
    ensures SignatureBelow(EncodeSignature(1, 1), max) && SignatureBelow(EncodeSignature(max, max), max)
  {
    OneIsShortest();
    var r: nat, s: nat :|
      1 <= r <= max && 1 <= s <= max && Encodable(r, s) && der == EncodeSignature(r, s);
    LengthMonotone(r, s, max, max);
    LengthMonotone(1, 1, r, s);
  }

  /** The exact condition on the first signature: the second call never reports a
      short buffer if and only if the longest signature fits the first plus slack. */
  lemma SecondCallFits(first: seq<byte>, max: nat)
    requires 1 <= max && Encodable(max, max)
    requires SignatureBelow(first, max)
    ensures (forall second | SignatureBelow(second, max) :: |second| <= |first| + SLACK)
            <==> |EncodeSignature(max, max)| <= |first| + SLACK
  {
    LengthRange(first, max);
    forall second | SignatureBelow(second, max)
      ensures |second| <= |EncodeSignature(max, max)|
    {
      LengthRange(second, max);
    }
  }

  /** The length of a signature whose two integers are the same. */
  lemma LengthOfPair(n: nat, k: nat)
    requires |IntegerContent(n)| == k <= 124
    ensures Encodable(n, n)
    ensures |EncodeSignature(n, n)| == if 2 * k + 4 < 0x80 then 2 * k + 6 else 2 * k + 7
  {
    ShortHeader(k);
    ShortHeader(2 * k + 4);
  }

  /** The longest signature has at most 72 bytes exactly for INTEGERs of 33 bytes. */
  lemma LongestUnder72(max: nat)
    requires Encodable(max, max)
    ensures |EncodeSignature(max, max)| <= 72 <==> 2 * max < Pow256(SAFE_CONTENT)
  {
    hide Pow256;
    ContentFits(max, SAFE_CONTENT);
    var k := |IntegerContent(max)|;
    if k <= 124 {
      LengthOfPair(max, k);
    }
  }

  lemma OneIsShortest()
    ensures Encodable(1, 1) && |EncodeSignature(1, 1)| == 8
  {
    assert MinBytes(1) == MinBytes(0) + [1];
    LengthOfPair(1, 1);
  }

  lemma PowGrows(k: nat, max: nat)
    ensures max < Pow256(k) ==> 2 * max < Pow256(k + 1)
  {
  }

  lemma PowPositive(k: nat)
    ensures k > 0 ==> Pow256(k) >= 256
  {
  }

  /** 64 bytes of slack are enough for every pair of signatures by one key exactly
      when the order is at most 2^263; every order of at most 32 bytes is. */
  lemma SlackEnough(max: nat)
    requires 1 <= max && Encodable(max, max)
    ensures (forall first, second | SignatureBelow(first, max) && SignatureBelow(second, max) ::
               |second| <= |first| + SLACK)
            <==> 2 * max < Pow256(SAFE_CONTENT)
    ensures max < Pow256(SAFE_FIELD) ==> 2 * max < Pow256(SAFE_CONTENT)
  {
    hide Pow256, EncodeSignature, Encodable;
    LongestUnder72(max);
    OneIsShortest();
    PowGrows(SAFE_FIELD, max);
    var shortest, longest := EncodeSignature(1, 1), EncodeSignature(max, max);
    assert SignatureBelow(shortest, max) && SignatureBelow(longest, max);
    forall first, second | SignatureBelow(first, max) && SignatureBelow(second, max)
      ensures 8 <= |first| && |second| <= |longest|
    {
      LengthRange(first, max);
      LengthRange(second, max);
    }
  }

  /** The bound is met with equality: in a 32-byte field 8 and 72 bytes both occur. */
  lemma SlackTight(max: nat)
    requires max == Pow256(SAFE_FIELD) - 1
    ensures Encodable(1, 1) && Encodable(max, max)
    ensures |EncodeSignature(max, max)| == |EncodeSignature(1, 1)| + SLACK
  {
    hide Pow256;
    PowGrows(SAFE_FIELD, max);
    PowPositive(SAFE_FIELD);
    ContentFits(max, SAFE_FIELD);
    ContentFits(max, SAFE_CONTENT);
    OneIsShortest();
    LengthOfPair(max, SAFE_CONTENT);
  }
}
