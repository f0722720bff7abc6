/**
 From a certificate in the server's store to a signature by its key: the key list, the
 object table, a search by CKA_ID and the signing calls, composed.
 */
module ByCertificate {
  import opened Bytes
  import opened Hashes
  import opened Pkcs11
  import opened Runs
  import opened Meaning
  import EcdsaCodec
  import FileStore
  import KeyCache
  import Thumbprint

  /** Whether a call empties the object table. */
  predicate DropsTable(c: Call) {
    c.Finalize? && !c.reserved
  }

  lemma StepKeepsTable(env: Env, w: World, c: Call)
    requires Inv(w) && w.initialized && !DropsTable(c)
    ensures Step(env, w, c).w.initialized && Step(env, w, c).w.objects == w.objects
  {
    hide Inv, MatchingHandles;
    SlotCount(w);
    if IsSigningCall(c) {
      SigningChangesOnlyOp(env, w, c);
    }
  }

  /** Between initialize and finalize the object table stays as it is. */
  lemma {:induction false} TableStays(env: Env, w: World, cs: seq<Call>)
    requires Inv(w) && w.initialized
    requires forall c | c in cs :: !DropsTable(c)
    ensures Run(env, w, cs).objects == w.objects
    decreases |cs|
  {
    hide Inv, Step, DropsTable;
    if cs != [] {
      StepKeepsTable(env, w, cs[0]);
      StepKeepsInv(env, w, cs[0]);
      TableStays(env, Step(env, w, cs[0]).w, cs[1..]);
    }
  }

  /** The answers to the indexed gets that see the list of this store. */
  function Listed(p: KeyCache.Parser, idents: seq<FileStore.Identity>, subject: seq<byte> -> seq<byte>)
    : seq<Option<KeyInfo>>
  {
    KeyCache.AllPresent(p, KeyCache.Project(p, KeyCache.ListStore(idents, subject)))
  }

  /** The object table at any call after the Initialize is the one made from the store. */
  lemma TableOfStore(env: Env, answers: seq<Option<KeyInfo>>, cs: seq<Call>, i: nat)
    requires Inv(START) && answers != [] && 0 < i <= |cs| && cs[0] == Initialize(false, true, answers)
    requires Step(env, START, cs[0]).reply == Status(Ok)
    requires forall c | c in cs :: !DropsTable(c)
    ensures Run(env, START, cs[..i]).objects == BuildObjects(answers)
  {
    hide Inv, BuildObjects, DropsTable;
    StepKeepsInv(env, START, cs[0]);
    var rest := cs[..i][1..];
    assert cs[..i][0] == cs[0];
    assert forall c | c in rest :: c in cs;
    TableStays(env, Step(env, START, cs[0]).w, rest);
  }

  /** The public key that the module reads in a certificate. */
  function CertKeyOf(p: KeyCache.Parser, cert: FileStore.Certificate): CertKey {
    if cert.der == [] then NoKey else p.key(cert.der)
  }

  /** The table made from a store has one object for each identity, of type EC exactly
      where the module reads an EC key in the certificate. */
  lemma TypeOfListed(
      p: KeyCache.Parser, idents: seq<FileStore.Identity>, subject: seq<byte> -> seq<byte>, k: nat)
    requires k < |idents|
    ensures |Listed(p, idents, subject)| == |idents| == |BuildObjects(Listed(p, idents, subject))|
    ensures BuildObjects(Listed(p, idents, subject))[k].ktype == Ec <==> CertKeyOf(p, idents[k].cert).EcPublic?
  {
    hide KeyCache.Project, BuildObjects;
    var certs := KeyCache.ListStore(idents, subject);
    KeyCache.ProjectAll(p, certs);
    KeyCache.BuildAll(p, KeyCache.Project(p, certs));
  }

  ghost predicate DistinctPrints(idents: seq<FileStore.Identity>) {
    forall i, j | 0 <= i < j < |idents| ::
      idents[i].thumbSHA1 != idents[j].thumbSHA1 && idents[i].thumbSHA256 != idents[j].thumbSHA256
  }

  /** From a certificate to a signature by its key. The module was initialised from a store
      with distinct fingerprints that stays the same, and an operation was started with the
      key handle that a search for a certificate's SHA-1 fingerprint as CKA_ID finds. Then
      every signature for it was made by that certificate's private key. Its scheme is the
      mechanism's own exactly when the module reads an EC key in the certificate if and only
      if it has one. */
  lemma FoundKeySigns(
      env: Env, b: Backend, f: FileStore.Fingerprints, idents: seq<FileStore.Identity>,
      subject: seq<byte> -> seq<byte>, p: KeyCache.Parser, k: nat,
      cs: seq<Call>, i: nat, c: Call, h: nat, want: Want, d: Deed)
    requires FileStore.FingerprintsOk(f) && FileStore.StoreOk(f, idents) && DistinctPrints(idents)
    requires forall t: nat :: b.idents(t) == idents
    requires Inv(START) && IsSignCall(c, h)
    requires cs != [] && cs[0] == Initialize(false, true, Listed(p, idents, subject))
    requires Step(env, START, cs[0]).reply == Status(Ok)
    requires forall c | c in cs :: !DropsTable(c)
    requires SignedFor(env, b, cs, i, c, h, want, d) && k < |idents|
    requires cs[i].key in MatchingHandles(Run(env, START, cs[..i]).objects, [Attr(Id, f.sha1(idents[k].cert.der))])
    ensures var signer := idents[k].signer;
            && cs[i].key == k + 1 && d.i == k && b.idents(d.k)[d.i].signer == signer
            && signer.publicDer == idents[k].cert.publicDer
            && b.sign(d.k)(signer, d.scheme, d.hash, d.digest) == Some(d.der) && IsFormOf(want.o, d.der, want.sig)
            && (d.scheme == SchemeOf(want.mech.mechanism) <==>
                  (CertKeyOf(p, idents[k].cert).EcPublic? <==> signer.EcKey?))
  {
    hide Inv, Run, Step, MatchingHandles, BuildObjects, FileStore.Lookup, Thumbprint.Normalize, Listed, Started,
         AskedBy, IsIntendedDigest, IsStoreScheme, IsFormOf, FixedHash, SchemeOf, CertKeyOf, DropsTable;
    StartAfterInitialize(env, cs, i, h);
    TypeOfListed(p, idents, subject, k);
    TableOfStore(env, Listed(p, idents, subject), cs, i);
    TableFindsIdentity(f, idents, subject, p, k);
    AskedExactly(env, b, Step(env, Run(env, START, cs), c).w.io.log, want, d);
  }

  /** What a search by CKA_ID finds in the table, and where its thumbprint leads. */
  lemma TableFindsIdentity(
      f: FileStore.Fingerprints, idents: seq<FileStore.Identity>, subject: seq<byte> -> seq<byte>, p: KeyCache.Parser,
      k: nat)
    requires FileStore.FingerprintsOk(f) && FileStore.StoreOk(f, idents) && DistinctPrints(idents) && k < |idents|
    ensures var objs := BuildObjects(Listed(p, idents, subject));
            && |objs| == |idents|
            && MatchingHandles(objs, [Attr(Id, f.sha1(idents[k].cert.der))]) == [k + 1]
            && FileStore.Lookup(idents, Thumbprint.Normalize(objs[k].thumbprint)) == Some(k)
  {
    hide KeyCache.Project, KeyCache.ListStore, BuildObjects, MatchingHandles, FileStore.Lookup, Thumbprint.Normalize;
    KeyCache.IdNamesKey(f, idents, subject, p, k);
  }

  /** The SignInit of an operation is a later call than the Initialize. */
  lemma StartAfterInitialize(env: Env, cs: seq<Call>, i: nat, h: nat)
    requires Inv(START) && Started(env, cs, i, h) && cs != [] && cs[0].Initialize?
    ensures 0 < i < |cs| && cs[i].SignInit? && cs[i].mech.Some?
  {
    hide Inv, Run, Step;
  }
}
