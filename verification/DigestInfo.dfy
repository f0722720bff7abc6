/**
 Raw RSA input is a DER DigestInfo or a bare digest. Both the Linux module and
 the macOS token session recognise a DigestInfo by a 19-byte prefix.
 */
module DigestInfo {
  import opened Bytes
  import opened Hashes

  const OID_TAIL_256: seq<byte> := [
    0x30, 0x0d, 0x06, 0x09, 0x60, 0x86, 0x48, 0x01, 0x65, 0x03, 0x04, 0x02, 0x01, 0x05, 0x00, 0x04, 0x20]
  const OID_TAIL_384: seq<byte> := [
    0x30, 0x0d, 0x06, 0x09, 0x60, 0x86, 0x48, 0x01, 0x65, 0x03, 0x04, 0x02, 0x02, 0x05, 0x00, 0x04, 0x30]
  const OID_TAIL_512: seq<byte> := [
    0x30, 0x0d, 0x06, 0x09, 0x60, 0x86, 0x48, 0x01, 0x65, 0x03, 0x04, 0x02, 0x03, 0x05, 0x00, 0x04, 0x40]

  /** The module's table: all three rows begin 30 31. */
  function LinuxPrefix(h: Hash): (p: seq<byte>)
    ensures |p| == 19
  {
    match h
    case Sha256 => [0x30, 0x31] + OID_TAIL_256
    case Sha384 => [0x30, 0x31] + OID_TAIL_384
    case Sha512 => [0x30, 0x31] + OID_TAIL_512
  }

  /** The prefixes of section 9.2 of RFC 8017, as the macOS session has them. */
  function StandardPrefix(h: Hash): (p: seq<byte>)
    ensures |p| == 19
  {
    match h
    case Sha256 => [0x30, 0x31] + OID_TAIL_256
    case Sha384 => [0x30, 0x41] + OID_TAIL_384
    case Sha512 => [0x30, 0x51] + OID_TAIL_512
  }

  datatype Digest = Digest(bytes: seq<byte>, hashAlg: nat)

  /** A DigestInfo of the given hash under the given prefix table. */
  predicate IsInfo(prefix: Hash -> seq<byte>, data: seq<byte>, h: Hash)
  {
    |data| == 19 + h.Size() && data[..19] == prefix(h)
  }

  function StripInfo(prefix: Hash -> seq<byte>, data: seq<byte>): Option<Digest> {
    if IsInfo(prefix, data, Sha256) then Some(Digest(data[19..], 1))
    else if IsInfo(prefix, data, Sha384) then Some(Digest(data[19..], 2))
    else if IsInfo(prefix, data, Sha512) then Some(Digest(data[19..], 3))
    else None
  }

  /** What parse_digest_info accepts: a bare digest by length, else a table row. */
  function LinuxDigest(data: seq<byte>): Option<Digest> {
    if |data| in {32, 48, 64} then Some(Digest(data, HashNumberFromLength(|data|)))
    else StripInfo(LinuxPrefix, data)
  }

  /** parse_digest_info with its loop over the table. */
  method ParseDigestInfo(data: seq<byte>) returns (r: Option<Digest>)
    ensures r == LinuxDigest(data)
  {
    if |data| == 32 || |data| == 48 || |data| == 64 {
      return Some(Digest(data, HashNumberFromLength(|data|)));
    }
    var table := [Sha256, Sha384, Sha512];
    var i := 0;
    while i < 3
      invariant 0 <= i <= 3
      invariant forall k :: 0 <= k < i ==> !IsInfo(LinuxPrefix, data, table[k])
    {
      var h := table[i];
      if |data| == 19 + h.Size() && data[..19] == LinuxPrefix(h) {
        assert h == Sha256 || h == Sha384 || h == Sha512;
        return Some(Digest(data[19..], h.Number()));
      }
      i := i + 1;
    }
    assert !IsInfo(LinuxPrefix, data, table[0]) && !IsInfo(LinuxPrefix, data, table[1])
        && !IsInfo(LinuxPrefix, data, table[2]);
    r := None;
  }

  /** Stripping inverts prefixing under either table, and a prefixed digest is never
      taken for a bare one: the lengths differ. */
  lemma StripInvertsPrefix(h: Hash, digest: seq<byte>)
    requires |digest| == h.Size()
    ensures LinuxDigest(LinuxPrefix(h) + digest) == Some(Digest(digest, h.Number()))
    ensures StripInfo(StandardPrefix, StandardPrefix(h) + digest) == Some(Digest(digest, h.Number()))
    ensures LinuxDigest(digest) == Some(Digest(digest, h.Number()))
  {
    var data := LinuxPrefix(h) + digest;
    assert data[..19] == LinuxPrefix(h) && data[19..] == digest;
    var standard := StandardPrefix(h) + digest;
    assert standard[..19] == StandardPrefix(h) && standard[19..] == digest;
  }

  /** Conversely everything accepted is a bare digest or one prefixed digest, of the
      length that belongs to the hash number found. */
  lemma AcceptedMeans(data: seq<byte>)
    requires LinuxDigest(data).Some?
    ensures exists h: Hash ::
              LinuxDigest(data).value.hashAlg == h.Number() && |LinuxDigest(data).value.bytes| == h.Size()
              && (data == LinuxDigest(data).value.bytes || data == LinuxPrefix(h) + LinuxDigest(data).value.bytes)
  {
    var d := LinuxDigest(data).value;
    var h := HashFromInt(d.hashAlg);
    assert d.hashAlg == h.Number() && |d.bytes| == h.Size();
    if data != d.bytes {
      assert data == data[..19] + data[19..];
    }
  }

  /** A standard DigestInfo is accepted by the module exactly for SHA-256: the second
      byte of its SHA-384 and SHA-512 rows is not the one of RFC 8017. */
  lemma StandardAccepted(h: Hash, digest: seq<byte>)
    requires |digest| == h.Size()
    ensures LinuxDigest(StandardPrefix(h) + digest) == StripInfo(StandardPrefix, StandardPrefix(h) + digest)
            <==> h == Sha256
    ensures h != Sha256 ==> LinuxDigest(StandardPrefix(h) + digest) == None
  {
    StripInvertsPrefix(h, digest);
    var data := StandardPrefix(h) + digest;
    assert data[..19] == StandardPrefix(h);
    assert h != Sha256 ==> data[..19][1] != 0x31;
    assert LinuxPrefix(Sha384)[1] == 0x31 && LinuxPrefix(Sha512)[1] == 0x31;
  }

  /** The two strippers agree on an input that is no bare digest exactly when it is
      not a SHA-384 or SHA-512 row of either table. */
  lemma ParsersAgree(data: seq<byte>)
    ensures StripInfo(LinuxPrefix, data) == StripInfo(StandardPrefix, data) <==>
            forall h | h in {Sha384, Sha512} :: !IsInfo(LinuxPrefix, data, h) && !IsInfo(StandardPrefix, data, h)
  {
    assert LinuxPrefix(Sha384)[1] == 0x31 && LinuxPrefix(Sha512)[1] == 0x31;
    assert StandardPrefix(Sha384)[1] == 0x41 && StandardPrefix(Sha512)[1] == 0x51;
  }

  /** The store signs a PKCS#1 block over a standard DigestInfo. That is the caller's data
      exactly when they were a standard SHA-256 DigestInfo: a bare digest is wrapped in one,
      and the module's own SHA-384 and SHA-512 rows are replaced. */
  lemma BlockIsData(data: seq<byte>, h: Hash, digest: seq<byte>)
    requires |digest| == h.Size() && (data == digest || data == LinuxPrefix(h) + digest)
    ensures data == StandardPrefix(h) + digest <==> IsInfo(StandardPrefix, data, Sha256)
  {
    if data == LinuxPrefix(h) + digest {
      assert data[..19] == LinuxPrefix(h);
      assert (StandardPrefix(h) + digest)[..19] == StandardPrefix(h);
      assert LinuxPrefix(h)[1] == 0x31;
    }
  }

  /** The same for every input that the parser accepts. */
  lemma AcceptedIsSignedAsIs(data: seq<byte>)
    requires LinuxDigest(data).Some?
    ensures var d := LinuxDigest(data).value;
            data == StandardPrefix(HashFromInt(d.hashAlg)) + d.bytes <==> IsInfo(StandardPrefix, data, Sha256)
  {
    hide LinuxPrefix, StandardPrefix, IsInfo, LinuxDigest;
    AcceptedMeans(data);
    var d := LinuxDigest(data).value;
    var h: Hash :| d.hashAlg == h.Number() && |d.bytes| == h.Size()
        && (data == d.bytes || data == LinuxPrefix(h) + d.bytes);
    BlockIsData(data, h, d.bytes);
  }

  // ----- the digest chosen by the macOS token session -----

  /** An algorithm the session recognises, or none of them. */
  datatype TokenAlgorithm = Known(padding: Padding, hash: Hash, isMessage: bool) | Unknown

  datatype TokenRequest = TokenRequest(digest: seq<byte>, hashAlg: nat, padding: nat)

  /** The digest, hash number and padding that signData sends, step by step. */
  method SignDataRequest(alg: TokenAlgorithm, data: seq<byte>, hash: (Hash, seq<byte>) -> seq<byte>)
        returns (r: TokenRequest)
    ensures r == SessionRequest(alg, data, hash)
  {
    var hashAlg, rsaPadding, isMessage := 0, 1, false;
    if alg.Known? {
      rsaPadding, hashAlg, isMessage := alg.padding.Number(), alg.hash.Number(), alg.isMessage;
    }
    var finalDigest: Option<seq<byte>> := None;
    if |data| == 51 && data[..19] == StandardPrefix(Sha256) {
      finalDigest := Some(data[19..]);
      hashAlg := 1;
    } else if |data| == 67 && data[..19] == StandardPrefix(Sha384) {
      finalDigest := Some(data[19..]);
      hashAlg := 2;
    } else if |data| == 83 && data[..19] == StandardPrefix(Sha512) {
      finalDigest := Some(data[19..]);
      hashAlg := 3;
    }
    if finalDigest.None? {
      if !isMessage && |data| in {32, 48, 64} {
        finalDigest := Some(data);
        if hashAlg == 0 {
          hashAlg := HashNumberFromLength(|data|);
        }
      } else {
        if hashAlg == 0 {
          hashAlg := 1;
        }
        finalDigest := Some(hash(HashFromInt(hashAlg), data));
      }
    }
    r := TokenRequest(finalDigest.value, hashAlg, rsaPadding);
  }

  /** What is sent: a stripped DigestInfo, else a bare digest of a digest algorithm,
      else the hash of the data, by the algorithm's hash or SHA-256. */
  function SessionRequest(alg: TokenAlgorithm, data: seq<byte>, hash: (Hash, seq<byte>) -> seq<byte>): TokenRequest {
    var padding := if alg.Known? then alg.padding.Number() else 1;
    match StripInfo(StandardPrefix, data)
    case Some(d) => TokenRequest(d.bytes, d.hashAlg, padding)
    case None =>
      if !(alg.Known? && alg.isMessage) && |data| in {32, 48, 64} then
        TokenRequest(data, if alg.Known? then alg.hash.Number() else HashNumberFromLength(|data|), padding)
      else
        var h := if alg.Known? then alg.hash else Sha256;
        TokenRequest(hash(h, data), h.Number(), padding)
  }

  /** What the session sends, in every case. A standard DigestInfo sends its content under
      its own hash. Data of digest length go unchanged under a digest algorithm, with that
      algorithm's hash, or under an algorithm that is not listed, with the hash of that
      length. All else is hashed: by the algorithm's hash, or by SHA-256. The padding is the
      algorithm's, PKCS#1 if it is not listed. */
  lemma SessionSends(alg: TokenAlgorithm, data: seq<byte>, hash: (Hash, seq<byte>) -> seq<byte>)
    ensures var r := SessionRequest(alg, data, hash);
            var bare := |data| in {32, 48, 64} && (alg.Known? ==> !alg.isMessage);
            var wrapped := exists h: Hash, tail: seq<byte> :: IsStandardInfo(h, tail, data);
            && (forall h: Hash, tail: seq<byte> | IsStandardInfo(h, tail, data) ::
                  r.digest == tail && r.hashAlg == h.Number())
            && (!wrapped && bare ==>
                  && r.digest == data
                  && r.hashAlg == if alg.Known? then alg.hash.Number()
                                  else if |data| == 32 then 1 else if |data| == 48 then 2 else 3)
            && (!wrapped && !bare ==>
                  && r.digest == hash(if alg.Known? then alg.hash else Sha256, data)
                  && r.hashAlg == if alg.Known? then alg.hash.Number() else 1)
            && r.padding == if alg.Known? && alg.padding == Pss then 2 else 1
  {
    hide StandardPrefix, IsInfo;
    forall h: Hash, tail: seq<byte> | IsStandardInfo(h, tail, data)
      ensures StripInfo(StandardPrefix, data) == Some(Digest(tail, h.Number()))
    {
      StripInvertsPrefix(h, tail);
    }
    if StripInfo(StandardPrefix, data).Some? {
      StrippedIsInfo(data);
    }
  }

  predicate IsStandardInfo(h: Hash, tail: seq<byte>, data: seq<byte>) {
    |tail| == h.Size() && data == StandardPrefix(h) + tail
  }

  lemma StrippedIsInfo(data: seq<byte>)
    requires StripInfo(StandardPrefix, data).Some?
    ensures exists h: Hash, tail: seq<byte> :: IsStandardInfo(h, tail, data)
  {
    hide StandardPrefix;
    var d := StripInfo(StandardPrefix, data).value;
    assert data == data[..19] + data[19..];
    assert IsStandardInfo(HashFromInt(d.hashAlg), data[19..], data);
  }

  /** A message algorithm's request is the hash of the message under the algorithm's hash
      and padding exactly when the message is no DigestInfo, or one of its own hash by
      chance. A message that begins like a DigestInfo is not hashed: what follows the prefix
      is sent, under the hash of the prefix. */
  lemma SessionSignsMessage(p: Padding, h: Hash, data: seq<byte>, hash: (Hash, seq<byte>) -> seq<byte>)
    ensures var r, info := SessionRequest(Known(p, h, true), data, hash), StripInfo(StandardPrefix, data);
            && (r == TokenRequest(hash(h, data), h.Number(), p.Number()) <==>
                  info.None? || info == Some(Digest(hash(h, data), h.Number())))
            && (info.Some? ==> r == TokenRequest(info.value.bytes, info.value.hashAlg, p.Number()))
  {
  }

  /** At a message that is the prefix of another hash and its digest. */
  lemma PrefixedMessageIsNotHashed(p: Padding, h: Hash, other: Hash, tail: seq<byte>,
        hash: (Hash, seq<byte>) -> seq<byte>)
    requires |tail| == other.Size()
    ensures SessionRequest(Known(p, h, true), StandardPrefix(other) + tail, hash)
            == TokenRequest(tail, other.Number(), p.Number())
  {
    hide StandardPrefix, StripInfo, LinuxDigest;
    StripInvertsPrefix(other, tail);
  }

  /** The exact inputs whose request the server's length check refuses: a bare digest
      given to a digest algorithm of another hash. */
  lemma SessionLengthCheck(alg: TokenAlgorithm, data: seq<byte>, hash: (Hash, seq<byte>) -> seq<byte>)
    requires forall h, d :: |hash(h, d)| == h.Size()
    ensures var r := SessionRequest(alg, data, hash);
            DigestSize(r.hashAlg) != Some(|r.digest|) <==>
            alg.Known? && !alg.isMessage && |data| in {32, 48, 64} && |data| != alg.hash.Size()
  {
    if StripInfo(StandardPrefix, data).None? {
      GuessIsRight(|data|);
      var h := if alg.Known? then alg.hash else Sha256;
      assert |hash(h, data)| == h.Size();
    }
  }
}
