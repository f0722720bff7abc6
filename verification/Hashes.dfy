/** Hash algorithms and the integers that stand for them along the request path. */
module Hashes {
  import opened Bytes

  datatype Hash = Sha256 | Sha384 | Sha512 {
    /** Digest length in bytes (types.go, DigestSize). */
    function Size(): nat {
      match this case Sha256 => 32 case Sha384 => 48 case Sha512 => 64
    }

    /** The number used by the C module, the bridge, the protocol and the store. */
    function Number(): nat {
      match this case Sha256 => 1 case Sha384 => 2 case Sha512 => 3
    }
  }

  datatype Padding = Pkcs1 | Pss {
    function Number(): nat {
      match this case Pkcs1 => 1 case Pss => 2
    }
  }

  /** Protocol enumerations, including the unspecified zero value. */
  datatype ProtoHash = HashUnspecified | ProtoHash(hash: Hash)
  datatype ProtoPadding = PaddingUnspecified | ProtoPadding(padding: Padding)

  /** HashAlgFromInt: what the bridge makes of the module's number. */
  function HashFromInt(v: int): Hash {
    match v case 2 => Sha384 case 3 => Sha512 case _ => Sha256
  }

  /** PaddingFromInt. */
  function PaddingFromInt(v: int): Padding {
    if v == 2 then Pss else Pkcs1
  }

  /** protoHashToCertstore. */
  function ProtoHashToStore(h: ProtoHash): Option<nat> {
    match h case HashUnspecified => None case ProtoHash(hash) => Some(hash.Number())
  }

  /** protoPaddingToCertstore. */
  function ProtoPaddingToStore(p: ProtoPadding): Option<nat> {
    match p case PaddingUnspecified => Some(1) case ProtoPadding(padding) => Some(padding.Number())
  }

  /** certstorePaddingToProto. */
  function StorePaddingToProto(p: nat): ProtoPadding {
    if p == 2 then ProtoPadding(Pss) else ProtoPadding(Pkcs1)
  }

  /** HashAlgorithm.DigestSize of the store, by number. */
  function DigestSize(v: nat): Option<nat> {
    match v case 1 => Some(32) case 2 => Some(48) case 3 => Some(64) case _ => None
  }

  /** HashAlgorithm.CryptoHash of the store, by number. */
  function CryptoHash(v: nat): Option<Hash> {
    match v case 1 => Some(Sha256) case 2 => Some(Sha384) case 3 => Some(Sha512) case _ => None
  }

  /** hash_alg_from_len: the number guessed from the length of a bare digest. */
  function HashNumberFromLength(len: nat): nat {
    match len case 48 => 2 case 64 => 3 case _ => 1
  }

  /** The number of a hash and of a padding mean the same from the module through the
      bridge and the protocol to the store, and the padding on the way back too. */
  lemma NumbersKeepMeaning(h: Hash, p: Padding)
    ensures ProtoHashToStore(ProtoHash(HashFromInt(h.Number()))) == Some(h.Number())
    ensures CryptoHash(h.Number()) == Some(h) && DigestSize(h.Number()) == Some(h.Size())
    ensures ProtoPaddingToStore(ProtoPadding(PaddingFromInt(p.Number()))) == Some(p.Number())
    ensures ProtoPaddingToStore(StorePaddingToProto(p.Number())) == Some(p.Number())
    ensures HashNumberFromLength(h.Size()) == h.Number()
  {
  }

  /** Numbers and protocol values outside the enumerations: the bridge takes the default,
      the service refuses a missing hash and reads a missing padding as PKCS#1, and the
      store knows no hash but the three. */
  lemma NumbersOutside(v: int, n: nat)
    ensures v !in {2, 3} ==> HashFromInt(v) == Sha256
    ensures v != 2 ==> PaddingFromInt(v) == Pkcs1
    ensures ProtoHashToStore(HashUnspecified) == None && ProtoPaddingToStore(PaddingUnspecified) == Some(1)
    ensures n !in {1, 2, 3} ==> DigestSize(n) == None && CryptoHash(n) == None
    ensures n != 2 ==> StorePaddingToProto(n) == ProtoPadding(Pkcs1)
    ensures HashFromInt(1) == Sha256 && HashFromInt(2) == Sha384 && HashFromInt(3) == Sha512
    ensures Sha256.Size() == 32 && Sha384.Size() == 48 && Sha512.Size() == 64
  {
  }

  /** The hash guessed from a length has a digest of that length, except when the
      length is no digest length at all; then it is SHA-256. */
  lemma GuessIsRight(len: nat)
    ensures DigestSize(HashNumberFromLength(len)) == Some(len) <==> len in {32, 48, 64}
  {
  }
}
