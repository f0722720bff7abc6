/** Signing with an EC key: from the server's raw r||s through DER back to raw r||s. */
module EcSigning {
  import opened Bytes
  import opened EcdsaCodec
  import opened SignatureLength
  import opened Pkcs11

  /** For well-formed signatures by a key whose group order is max + 1, the two-request
      protocol succeeds exactly when the second one fits the first plus the slack; then
      the caller gets the r and s of the second in fixed width. Up to an order of 2^263,
      so for every field of 32 bytes, it always succeeds. */
  lemma TwoRequestsMakeRaw(env: Env, io: Ledger, o: KeyObject, q: Request, max: nat)
    requires o.ktype == Ec && 0 < FieldBytes(o.keySize) <= MAX_FIELD
    requires 1 <= max < Pow256(FieldBytes(o.keySize))
    requires env.reply(|io.log|, q).Some? && SignatureBelow(env.reply(|io.log|, q).value, max)
    requires env.reply(|io.log| + 1, q).Some? && SignatureBelow(env.reply(|io.log| + 1, q).value, max)
    requires env.alloc(io.allocs) && env.alloc(io.allocs + 1)
    ensures var first, second := env.reply(|io.log|, q).value, env.reply(|io.log| + 1, q).value;
            var (io1, der) := AskServer(env, io, q);
            && (der.Made? <==> |second| <= |first| + SLACK)
            && (2 * max < Pow256(SAFE_CONTENT) ==> der.Made?)
            && (der.Made? ==>
                  && der.sig == second
                  && DecodeSignature(second).Got?
                  && var raw := ConvertSignature(env, io1, o, second).1;
                     && raw.Made? && |raw.sig| == 2 * FieldBytes(o.keySize)
                     && Value(raw.sig[..FieldBytes(o.keySize)]) == DecodeSignature(second).value.0
                     && Value(raw.sig[FieldBytes(o.keySize)..]) == DecodeSignature(second).value.1)
  {
    hide EncodeSignature, DecodeSignature, Encodable, Value, MinBytes, Padded, Pow256;
    var n := FieldBytes(o.keySize);
    var first, second := env.reply(|io.log|, q).value, env.reply(|io.log| + 1, q).value;
    FieldEncodable(max, max, n);
    LengthRange(first, max);
    assert |first| <= MAX_SIGNATURE;
    assert AskServer(env, io, q) ==
           if |second| <= |first| + SLACK then (Ledger(io.log + [q] + [q], io.allocs + 1), Made(second))
           else (Ledger(io.log + [q] + [q], io.allocs + 1), Failed(FunctionFailed));
    SlackEnough(max);
    RawOfBelow(second, max, n);
  }

  /** The raw form of a signature whose integers fit the field. */
  lemma RawOfBelow(der: seq<byte>, max: nat, n: nat)
    requires max < Pow256(n) && SignatureBelow(der, max)
    ensures DecodeSignature(der).Got? && DerToRaw(der, n).Some?
    ensures var raw := DerToRaw(der, n).value;
            && |raw| == 2 * n
            && Value(raw[..n]) == DecodeSignature(der).value.0 && Value(raw[n..]) == DecodeSignature(der).value.1
  {
    hide EncodeSignature, DecodeSignature, Encodable, Value, MinBytes, Padded, Pow256;
    var r: nat, s: nat :|
      1 <= r <= max && 1 <= s <= max && Encodable(r, s) && der == EncodeSignature(r, s);
    SignatureRoundTrip(r, s, []);
    assert der + [] == der;
    MinBytesFits(r, n);
    MinBytesFits(s, n);
    ValuePadded(r, n);
    ValuePadded(s, n);
    var raw := DerToRaw(der, n).value;
    assert raw[..n] == Padded(r, n) && raw[n..] == Padded(s, n);
  }

  /** A raw signature that a server packs is the one that the caller receives, for every
      field of at most 128 bytes and every pair of values, zeros included. */
  lemma RawSurvives(env: Env, io: Ledger, o: KeyObject, raw: seq<byte>)
    requires o.ktype == Ec && 0 < FieldBytes(o.keySize) <= MAX_FIELD && |raw| == 2 * FieldBytes(o.keySize)
    requires env.alloc(io.allocs)
    ensures var n := FieldBytes(o.keySize);
            && Encodable(Value(raw[..n]), Value(raw[n..]))
            && ConvertSignature(env, io, o, EncodeSignature(Value(raw[..n]), Value(raw[n..]))).1 == Made(raw)
  {
    hide EncodeSignature, DecodeSignature, Encodable, Value, MinBytes, Padded, Pow256, DerToRaw;
    var n := FieldBytes(o.keySize);
    PaddedValue(raw[..n]);
    PaddedValue(raw[n..]);
    FieldEncodable(Value(raw[..n]), Value(raw[n..]), n);
    var der := EncodeSignature(Value(raw[..n]), Value(raw[n..]));
    PackThenUnpack(raw, n, []);
    assert der + [] == der;
    SignatureRoundTrip(Value(raw[..n]), Value(raw[n..]), []);
  }
}
