/** The server's file-backed certificate store and its signing service. */
module FileStore {
  import opened Bytes
  import opened Hashes
  import opened Thumbprint
  import Lists

  datatype Result<+T, +E> = Success(value: T) | Failure(error: E)

  /** A private key, known by the DER of its public half. */
  datatype PrivateKey = RsaKey(publicDer: seq<byte>) | EcKey(publicDer: seq<byte>) | OtherKey(publicDer: seq<byte>)

  datatype Certificate = Certificate(
    der: seq<byte>, publicDer: seq<byte>, keyAlgorithm: string, keySize: int, subject: string)

  datatype Identity = Identity(cert: Certificate, thumbSHA1: string, thumbSHA256: string, signer: PrivateKey)

  /** SHA-1 and SHA-256 of a certificate. */
  datatype Fingerprints = Fingerprints(sha1: seq<byte> -> seq<byte>, sha256: seq<byte> -> seq<byte>)

  ghost predicate FingerprintsOk(f: Fingerprints) {
    forall d :: |f.sha1(d)| == 20 && |f.sha256(d)| == 32
  }

  /** What the directory scan finds in one file, in name order. */
  datatype FileEntry =
    | Unreadable | NotCertificate | BadCertificate
    | MissingKey(cert: Certificate) | Pair(cert: Certificate, signer: PrivateKey)

  function MakeIdentity(f: Fingerprints, cert: Certificate, signer: PrivateKey): Identity {
    Identity(cert, HexUpper(f.sha1(cert.der)), HexUpper(f.sha256(cert.der)), signer)
  }

  predicate EntryFails(e: FileEntry) {
    e.Unreadable? || e.BadCertificate? || e.MissingKey? || (e.Pair? && e.signer.publicDer != e.cert.publicDer)
  }

  /** The identities of all certificate files, unless one of them is faulty. */
  function Load(f: Fingerprints, files: seq<FileEntry>): Option<seq<Identity>> {
    if files == [] then Some([])
    else
      var last := files[|files| - 1];
      match Load(f, files[..|files| - 1])
      case None => None
      case Some(before) =>
        if EntryFails(last) then None
        else if last.NotCertificate? then Some(before)
        else Some(before + [MakeIdentity(f, last.cert, last.signer)])
  }

  /** Every identity carries its certificate's fingerprints and the matching key. */
  ghost predicate StoreOk(f: Fingerprints, idents: seq<Identity>) {
    forall i | 0 <= i < |idents| ::
      && idents[i] == MakeIdentity(f, idents[i].cert, idents[i].signer)
      && idents[i].signer.publicDer == idents[i].cert.publicDer
  }

  /** Loading gives a store whose keys match; it fails exactly on a faulty file. */
  lemma {:induction false} LoadMeaning(f: Fingerprints, files: seq<FileEntry>)
    ensures Load(f, files).None? <==> exists i | 0 <= i < |files| :: EntryFails(files[i])
    ensures Load(f, files).Some? ==> StoreOk(f, Load(f, files).value)
  {
    if files != [] {
      LoadMeaning(f, files[..|files| - 1]);
    }
  }

  predicate IsPair(e: FileEntry) {
    e.Pair?
  }

  /** The identities loaded are those of the certificates with a key, in order: the one of
      file i stands behind those of the files before it. Its thumbprints are the upper-case
      hex of the SHA-1 and SHA-256 of its certificate, and it carries certificate and key of
      that file. */
  lemma {:induction false} LoadInOrder(f: Fingerprints, files: seq<FileEntry>, i: nat)
    requires Load(f, files).Some?
    ensures |Load(f, files).value| == Lists.Count(files, IsPair)
    ensures i < |files| && files[i].Pair? ==>
              var k := Lists.Count(files[..i], IsPair);
              && k < |Load(f, files).value|
              && var id := Load(f, files).value[k];
                 && id.cert == files[i].cert && id.signer == files[i].signer
                 && |id.thumbSHA1| == 2 * |f.sha1(id.cert.der)| && |id.thumbSHA256| == 2 * |f.sha256(id.cert.der)|
                 && HexDecode(id.thumbSHA1, |f.sha1(id.cert.der)|) == f.sha1(id.cert.der)
                 && HexDecode(id.thumbSHA256, |f.sha256(id.cert.der)|) == f.sha256(id.cert.der)
                 && Normalize(id.thumbSHA1) == id.thumbSHA1 && Normalize(id.thumbSHA256) == id.thumbSHA256
    decreases |files|
  {
    hide MakeIdentity, HexDecode, Normalize;
    if files != [] {
      var front := files[..|files| - 1];
      LoadInOrder(f, front, i);
      if i < |front| {
        assert front[..i] == files[..i];
      } else if i == |front| && files[i].Pair? {
        assert front == files[..i];
        IdentityMeans(f, files[i].cert, files[i].signer);
      }
    }
  }

  lemma IdentityMeans(f: Fingerprints, cert: Certificate, signer: PrivateKey)
    ensures var id := MakeIdentity(f, cert, signer);
            && id.cert == cert && id.signer == signer
            && |id.thumbSHA1| == 2 * |f.sha1(cert.der)| && |id.thumbSHA256| == 2 * |f.sha256(cert.der)|
            && HexDecode(id.thumbSHA1, |f.sha1(cert.der)|) == f.sha1(cert.der)
            && HexDecode(id.thumbSHA256, |f.sha256(cert.der)|) == f.sha256(cert.der)
            && Normalize(id.thumbSHA1) == id.thumbSHA1 && Normalize(id.thumbSHA256) == id.thumbSHA256
  {
    hide HexDecode, Normalize, HexUpper;
    HexRoundTrip(f.sha1(cert.der), |f.sha1(cert.der)|);
    HexRoundTrip(f.sha256(cert.der), |f.sha256(cert.der)|);
    HexIsNormal(f.sha1(cert.der));
    HexIsNormal(f.sha256(cert.der));
  }

  // ----- lookup -----

  predicate ExactMatch(id: Identity, target: string) {
    Normalize(id.thumbSHA1) == target || Normalize(id.thumbSHA256) == target
  }

  predicate PrefixMatch(id: Identity, target: string) {
    target <= Normalize(id.thumbSHA1) || target <= Normalize(id.thumbSHA256)
  }

  /** The first exact match, else the first prefix match. */
  ghost predicate IsLookup(idents: seq<Identity>, target: string, r: Option<nat>) {
    match r
    case None => forall i | 0 <= i < |idents| :: !PrefixMatch(idents[i], target)
    case Some(k) =>
      && k < |idents|
      && ((ExactMatch(idents[k], target) && forall i | 0 <= i < k :: !ExactMatch(idents[i], target))
          || (PrefixMatch(idents[k], target) && (forall i | 0 <= i < k :: !PrefixMatch(idents[i], target))
              && forall i | 0 <= i < |idents| :: !ExactMatch(idents[i], target)))
  }

  function FirstExact(idents: seq<Identity>, target: string): (k: nat)
    ensures k <= |idents|
    ensures k < |idents| ==> ExactMatch(idents[k], target)
    ensures forall i | 0 <= i < k :: !ExactMatch(idents[i], target)
  {
    Lists.First(idents, id => ExactMatch(id, target))
  }

  function FirstPrefix(idents: seq<Identity>, target: string): (k: nat)
    ensures k <= |idents|
    ensures k < |idents| ==> PrefixMatch(idents[k], target)
    ensures forall i | 0 <= i < k :: !PrefixMatch(idents[i], target)
  {
    Lists.First(idents, id => PrefixMatch(id, target))
  }

  function Lookup(idents: seq<Identity>, thumbprint: string): (r: Option<nat>)
    ensures IsLookup(idents, Normalize(thumbprint), r)
  {
    var target := Normalize(thumbprint);
    var e, p := FirstExact(idents, target), FirstPrefix(idents, target);
    if e < |idents| then Some(e) else if p < |idents| then Some(p) else None
  }

  /** At most one index satisfies the lookup rule. */
  lemma LookupIsUnique(idents: seq<Identity>, target: string, a: Option<nat>, b: Option<nat>)
    requires IsLookup(idents, target, a) && IsLookup(idents, target, b)
    ensures a == b
  {
  }

  /** With distinct fingerprints, any spelling of a full thumbprint finds its own
      certificate, wherever it stands in the store, and the key found is that
      certificate's key. */
  lemma FullThumbprintFindsOwn(f: Fingerprints, idents: seq<Identity>, k: nat, spelling: string)
    requires FingerprintsOk(f) && StoreOk(f, idents) && k < |idents|
    requires forall i, j | 0 <= i < j < |idents| ::
               idents[i].thumbSHA1 != idents[j].thumbSHA1 && idents[i].thumbSHA256 != idents[j].thumbSHA256
    requires var digits := Significant(TrimSpace(spelling));
             digits == idents[k].thumbSHA1 || digits == idents[k].thumbSHA256
    ensures Lookup(idents, spelling) == Some(k)
    ensures idents[k].signer.publicDer == idents[k].cert.publicDer
  {
    NormalizeMeaning(spelling);
    var target := Normalize(spelling);
    forall i | 0 <= i < |idents|
      ensures ExactMatch(idents[i], target) <==> i == k
    {
      ThumbsNormal(f, idents[i]);
      ThumbsNormal(f, idents[k]);
    }
  }

  /** Looking up any spelling in a store, in terms of the fingerprints themselves: it finds
      nothing exactly when no fingerprint begins with it; it finds k exactly when k is the
      first with such a fingerprint as a whole, or there is none and k is the first with a
      fingerprint that begins with it. */
  lemma LookupByFingerprint(f: Fingerprints, idents: seq<Identity>, spelling: string, k: nat)
    requires FingerprintsOk(f) && StoreOk(f, idents)
    ensures var t := Significant(TrimSpace(spelling));
            var r := Lookup(idents, spelling);
            && (r == None <==>
                  forall i | 0 <= i < |idents| :: !(t <= idents[i].thumbSHA1) && !(t <= idents[i].thumbSHA256))
            && ((&& k < |idents| && (t == idents[k].thumbSHA1 || t == idents[k].thumbSHA256)
                 && (forall i | 0 <= i < k :: t != idents[i].thumbSHA1 && t != idents[i].thumbSHA256))
                ==> r == Some(k))
            && ((&& k < |idents| && (t <= idents[k].thumbSHA1 || t <= idents[k].thumbSHA256)
                 && (forall i | 0 <= i < |idents| :: t != idents[i].thumbSHA1 && t != idents[i].thumbSHA256)
                 && (forall i | 0 <= i < k :: !(t <= idents[i].thumbSHA1) && !(t <= idents[i].thumbSHA256)))
                ==> r == Some(k))
  {
    hide Normalize, TrimSpace, Significant, Lookup, MakeIdentity, FingerprintsOk;
    NormalizeMeaning(spelling);
    var t := Normalize(spelling);
    forall i | 0 <= i < |idents|
      ensures ExactMatch(idents[i], t) <==> t == idents[i].thumbSHA1 || t == idents[i].thumbSHA256
      ensures PrefixMatch(idents[i], t) <==> t <= idents[i].thumbSHA1 || t <= idents[i].thumbSHA256
    {
      ThumbsNormal(f, idents[i]);
    }
    RuleDecides(idents, t, Lookup(idents, spelling), k);
  }

  /** The lookup rule decides between none, an exact match and a prefix match. */
  lemma RuleDecides(idents: seq<Identity>, t: string, r: Option<nat>, k: nat)
    requires IsLookup(idents, t, r)
    requires forall i | 0 <= i < |idents| :: ExactMatch(idents[i], t) ==> PrefixMatch(idents[i], t)
    ensures r == None <==> forall i | 0 <= i < |idents| :: !PrefixMatch(idents[i], t)
    ensures k < |idents| && ExactMatch(idents[k], t) && (forall i | 0 <= i < k :: !ExactMatch(idents[i], t)) ==>
              r == Some(k)
    ensures (&& k < |idents| && PrefixMatch(idents[k], t)
             && (forall i | 0 <= i < |idents| :: !ExactMatch(idents[i], t))
             && (forall i | 0 <= i < k :: !PrefixMatch(idents[i], t)))
            ==> r == Some(k)
  {
    hide ExactMatch, PrefixMatch;
  }

  lemma ThumbsNormal(f: Fingerprints, id: Identity)
    requires FingerprintsOk(f) && id == MakeIdentity(f, id.cert, id.signer)
    ensures Normalize(id.thumbSHA1) == id.thumbSHA1 && |id.thumbSHA1| == 40
    ensures Normalize(id.thumbSHA256) == id.thumbSHA256 && |id.thumbSHA256| == 64
  {
    HexIsNormal(f.sha1(id.cert.der));
    HexIsNormal(f.sha256(id.cert.der));
  }

  lemma {:induction false} NothingSignificant(s: string)
    ensures Significant(s) == "" <==> forall i | 0 <= i < |s| :: IsSeparator(s[i])
  {
    if s != [] {
      NothingSignificant(s[1..]);
      assert s == [s[0]] + s[1..];
    }
  }

  /** A thumbprint of which trimming leaves nothing but separators, whatever it is, stands
      for the first certificate of any store. */
  lemma EmptyTargetFindsFirst(f: Fingerprints, idents: seq<Identity>, spelling: string)
    requires FingerprintsOk(f) && StoreOk(f, idents) && idents != []
    ensures var trimmed := TrimSpace(spelling);
            Normalize(spelling) == "" <==> forall i | 0 <= i < |trimmed| :: IsSeparator(trimmed[i])
    ensures Normalize(spelling) == "" ==> Lookup(idents, spelling) == Some(0)
  {
    NormalizeMeaning(spelling);
    NothingSignificant(TrimSpace(spelling));
    if Normalize(spelling) == "" {
      forall i | 0 <= i < |idents|
        ensures !ExactMatch(idents[i], "") && PrefixMatch(idents[i], "")
      {
        ThumbsNormal(f, idents[i]);
      }
      LookupIsUnique(idents, "", Lookup(idents, spelling), Some(0));
    }
  }

  // ----- signing -----

  datatype Scheme = RsaPkcs1v15 | RsaPssSaltOfHash | EcdsaAsn1

  /** The signing primitive: a key signs a digest under a scheme, or fails. */
  type Signer = (PrivateKey, Scheme, Hash, seq<byte>) -> Option<seq<byte>>

  datatype StoreError =
    | UnsupportedPlatform | CertificateNotFound | InvalidDigest | InvalidPadding
    | UnsupportedHash | UnsupportedKey | SignFailed | BadRequest

  datatype SignResult = SignResult(signature: seq<byte>, scheme: Scheme, padding: nat)

  function SignWith(sign: Signer, key: PrivateKey, digest: seq<byte>, h: Hash, padding: nat)
    : Result<SignResult, StoreError>
  {
    if key.OtherKey? then Failure(UnsupportedKey)
    else if key.EcKey? && padding == 2 then Failure(InvalidPadding)
    else
      var scheme := if key.EcKey? then EcdsaAsn1 else if padding == 2 then RsaPssSaltOfHash else RsaPkcs1v15;
      match sign(key, scheme, h, digest)
      case None => Failure(SignFailed)
      case Some(sig) => Success(SignResult(sig, scheme, padding))
  }

  /** signWithFileStore as a function of the store's contents. */
  function SignWithStore(
      idents: seq<Identity>, sign: Signer, thumbprint: string, digest: seq<byte>, hash: nat, padding: nat)
    : Result<SignResult, StoreError>
  {
    if DigestSize(hash).None? then Failure(UnsupportedHash)
    else if |digest| != DigestSize(hash).value then Failure(InvalidDigest)
    else
      match Lookup(idents, thumbprint)
      case None => Failure(CertificateNotFound)
      case Some(k) =>
        SignWith(sign, idents[k].signer, digest, CryptoHash(hash).value, if padding == 0 then 1 else padding)
  }

  class Store {
    var dir: string
    var idents: seq<Identity>
    ghost const f: Fingerprints

    ghost predicate Valid()
      reads this
    {
      StoreOk(f, idents) && (dir == "" ==> idents == [])
    }

    constructor (ghost f: Fingerprints)
      ensures Valid() && dir == "" && idents == [] && this.f == f
    {
      this.dir, this.idents, this.f := "", [], f;
    }

    /** Replaces the store, clears it for the empty name, and changes nothing when the
        directory or one of its files is faulty. */
    method SetCertDir(name: string, files: Option<seq<FileEntry>>, prints: Fingerprints) returns (ok: bool)
      requires Valid() && prints == f
      modifies this
      ensures Valid()
      ensures ok <==> name == "" || (files.Some? && Load(f, files.value).Some?)
      ensures !ok ==> dir == old(dir) && idents == old(idents)
      ensures ok && name == "" ==> dir == "" && idents == []
      ensures ok && name != "" ==> dir == name && Some(idents) == Load(f, files.value)
    {
      if name == "" {
        idents := [];
        dir := "";
        return true;
      }
      if files.None? {
        return false;
      }
      var loaded := LoadCertDir(files.value, prints);
      LoadMeaning(f, files.value);
      if loaded.None? {
        return false;
      }
      idents := loaded.value;
      dir := name;
      ok := true;
    }

    static method LoadCertDir(files: seq<FileEntry>, prints: Fingerprints) returns (out: Option<seq<Identity>>)
      ensures out == Load(prints, files)
    {
      hide Load, MakeIdentity;
      LoadNothing(prints, files[..0]);
      var acc: seq<Identity> := [];
      var i := 0;
      while i < |files|
        invariant 0 <= i <= |files|
        invariant Load(prints, files[..i]) == Some(acc)
      {
        LoadStep(prints, files, i);
        match files[i] {
          case NotCertificate =>
          case Pair(cert, signer) =>
            if signer.publicDer != cert.publicDer {
              LoadFailsOnward(prints, files, i + 1);
              return None;
            }
            acc := acc + [MakeIdentity(prints, cert, signer)];
          case _ =>
            LoadFailsOnward(prints, files, i + 1);
            return None;
        }
        i := i + 1;
      }
      assert files[..i] == files;
      out := Some(acc);
    }

    /** signWithFileStore: checks, two passes over the store, dispatch on the key. */
    method SignHash(thumbprint: string, digest: seq<byte>, hash: nat, padding: nat, sign: Signer)
      returns (r: Result<SignResult, StoreError>)
      ensures r == if dir == "" then Failure(UnsupportedPlatform)
                   else SignWithStore(idents, sign, thumbprint, digest, hash, padding)
    {
      if dir == "" {
        return Failure(UnsupportedPlatform);
      }
      var expectedLen := DigestSize(hash);
      if expectedLen.None? {
        return Failure(UnsupportedHash);
      }
      if |digest| != expectedLen.value {
        return Failure(InvalidDigest);
      }
      var pad := if padding == 0 then 1 else padding;
      var matched := FindIdentity(thumbprint);
      if matched.None? {
        return Failure(CertificateNotFound);
      }
      r := Dispatch(sign, idents[matched.value].signer, digest, CryptoHash(hash).value, pad);
    }

    /** The two passes: an exact match first, a prefix match only if there is none. */
    method FindIdentity(thumbprint: string) returns (matched: Option<nat>)
      ensures matched == Lookup(idents, thumbprint)
    {
      hide Normalize;
      var target := Normalize(thumbprint);
      matched := None;
      var i := 0;
      while i < |idents|
        invariant 0 <= i <= |idents| && matched == None
        invariant forall k | 0 <= k < i :: !ExactMatch(idents[k], target)
      {
        if Normalize(idents[i].thumbSHA1) == target || Normalize(idents[i].thumbSHA256) == target {
          matched := Some(i);
          break;
        }
        i := i + 1;
      }
      if matched.None? {
        i := 0;
        while i < |idents|
          invariant 0 <= i <= |idents| && matched == None
          invariant forall k | 0 <= k < i :: !PrefixMatch(idents[k], target)
        {
          if target <= Normalize(idents[i].thumbSHA1) || target <= Normalize(idents[i].thumbSHA256) {
            matched := Some(i);
            break;
          }
          i := i + 1;
        }
      }
      LookupIsUnique(idents, target, matched, Lookup(idents, thumbprint));
    }

    /** The switch on the type of the private key. */
    static method Dispatch(sign: Signer, key: PrivateKey, digest: seq<byte>, h: Hash, pad: nat)
      returns (r: Result<SignResult, StoreError>)
      ensures r == SignWith(sign, key, digest, h, pad)
    {
      var sig: Option<seq<byte>>;
      var scheme: Scheme;
      match key {
        case RsaKey(_) =>
          scheme := if pad == 2 then RsaPssSaltOfHash else RsaPkcs1v15;
          sig := sign(key, scheme, h, digest);
        case EcKey(_) =>
          if pad == 2 {
            return Failure(InvalidPadding);
          }
          scheme := EcdsaAsn1;
          sig := sign(key, scheme, h, digest);
        case OtherKey(_) =>
          return Failure(UnsupportedKey);
      }
      if sig.None? {
        return Failure(SignFailed);
      }
      r := Success(SignResult(sig.value, scheme, pad));
    }
  }

  lemma LoadNothing(f: Fingerprints, files: seq<FileEntry>)
    requires files == []
    ensures Load(f, files) == Some([])
  {
  }

  /** What one more file does to the result. */
  lemma LoadStep(f: Fingerprints, files: seq<FileEntry>, i: nat)
    requires i < |files| && Load(f, files[..i]).Some?
    ensures Load(f, files[..i + 1]) ==
            if EntryFails(files[i]) then None
            else if files[i].NotCertificate? then Load(f, files[..i])
            else Some(Load(f, files[..i]).value + [MakeIdentity(f, files[i].cert, files[i].signer)])
  {
    assert files[..i + 1][..i] == files[..i];
  }

  /** One faulty file spoils every longer listing. */
  lemma {:induction false} LoadFailsOnward(f: Fingerprints, files: seq<FileEntry>, i: nat)
    requires i <= |files| && Load(f, files[..i]).None?
    ensures Load(f, files).None?
    decreases |files| - i
  {
    if i == |files| {
      assert files[..i] == files;
    } else {
      assert files[..i + 1][..i] == files[..i];
      LoadFailsOnward(f, files, i + 1);
    }
  }

  // ----- the signing service -----

  /** CertService.SignHash: validation, conversion and the store. */
  function Handle(
      idents: seq<Identity>, sign: Signer, thumbprint: string, digest: seq<byte>, h: ProtoHash, p: ProtoPadding)
    : Result<SignResult, StoreError>
  {
    if thumbprint == "" || digest == [] then Failure(BadRequest)
    else
      match ProtoHashToStore(h)
      case None => Failure(BadRequest)
      case Some(hash) =>
        match ProtoPaddingToStore(p)
        case None => Failure(BadRequest)
        case Some(padding) => SignWithStore(idents, sign, thumbprint, digest, hash, padding)
  }

  /** The scheme of the store for a key and a padding. */
  function SchemeFor(key: PrivateKey, pss: bool): Scheme {
    if key.EcKey? then EcdsaAsn1 else if pss then RsaPssSaltOfHash else RsaPkcs1v15
  }

  /** What the service answers, in every case and in the order of its checks. */
  lemma HandleOutcome(
      idents: seq<Identity>, sign: Signer, thumbprint: string, digest: seq<byte>, h: ProtoHash, p: ProtoPadding)
    ensures var r, found := Handle(idents, sign, thumbprint, digest, h, p), Lookup(idents, thumbprint);
            var pss := p == ProtoPadding(Pss);
            if thumbprint == "" || digest == [] || h.HashUnspecified? then r == Failure(BadRequest)
            else if |digest| != h.hash.Size() then r == Failure(InvalidDigest)
            else if found.None? then r == Failure(CertificateNotFound)
            else
              var key := idents[found.value].signer;
              if key.OtherKey? then r == Failure(UnsupportedKey)
              else if key.EcKey? && pss then r == Failure(InvalidPadding)
              else
                var sig := sign(key, SchemeFor(key, pss), h.hash, digest);
                r == if sig.None? then Failure(SignFailed)
                     else Success(SignResult(sig.value, SchemeFor(key, pss), if pss then 2 else 1))
  {
    hide Lookup, IsLookup;
  }

  /** The store itself also refuses hash numbers that it does not know, before anything
      else, and takes a missing padding for PKCS#1. */
  lemma StoreNumbers(
      idents: seq<Identity>, sign: Signer, thumbprint: string, digest: seq<byte>, hash: nat, padding: nat)
    ensures SignWithStore(idents, sign, thumbprint, digest, hash, padding) == Failure(UnsupportedHash)
            <==> hash !in {1, 2, 3}
    ensures SignWithStore(idents, sign, thumbprint, digest, hash, 0)
            == SignWithStore(idents, sign, thumbprint, digest, hash, 1)
  {
    hide Lookup, IsLookup;
  }

  /** The service's check of the thumbprint stops the empty string and no other: a digest
      that is in order is signed with the first key for every other thumbprint that comes
      to nothing. */
  lemma OnlyEmptyStringIsStopped(
      f: Fingerprints, idents: seq<Identity>, sign: Signer, thumbprint: string, digest: seq<byte>, h: Hash, p: Padding)
    requires FingerprintsOk(f) && StoreOk(f, idents) && idents != []
    requires |digest| == h.Size()
    ensures var r := Handle(idents, sign, thumbprint, digest, ProtoHash(h), ProtoPadding(p));
            && (r == Failure(BadRequest) <==> thumbprint == "")
            && (thumbprint != "" && Normalize(thumbprint) == ""
                ==> r == SignWith(sign, idents[0].signer, digest, h, p.Number()))
  {
    hide Lookup, Normalize, TrimSpace;
    EmptyTargetFindsFirst(f, idents, thumbprint);
    NumbersKeepMeaning(h, p);
  }

  /** A colon is such a thumbprint, and so is a tab. */
  lemma ColonSignsWithFirst(
      f: Fingerprints, idents: seq<Identity>, sign: Signer, digest: seq<byte>, h: Hash, p: Padding)
    requires FingerprintsOk(f) && StoreOk(f, idents) && idents != []
    requires |digest| == h.Size()
    ensures forall t | t in {":", "\t"} ::
              Handle(idents, sign, t, digest, ProtoHash(h), ProtoPadding(p))
                  == SignWith(sign, idents[0].signer, digest, h, p.Number())
  {
    hide Handle, Normalize, SignWith;
    assert TrimSpace(":") == ":" && TrimSpace("\t") == "";
    EmptyTargetFindsFirst(f, idents, ":");
    EmptyTargetFindsFirst(f, idents, "\t");
    OnlyEmptyStringIsStopped(f, idents, sign, ":", digest, h, p);
    OnlyEmptyStringIsStopped(f, idents, sign, "\t", digest, h, p);
  }
}
