/**
 The client's cached key list, the bridge's indexed view of it, and the object table
 that C_Initialize builds from that view.
 */
module KeyCache {
  import opened Bytes
  import Thumbprint
  import FileStore
  import Pkcs11
  import Finding
  import Lists

  /** A certificate as the server lists it. */
  datatype ServerCert = ServerCert(
    thumbprint: string, subject: seq<byte>, issuer: string, keyAlgorithm: string, keySize: int,
    hasPrivateKey: bool, der: seq<byte>)

  datatype KeyEntry = KeyEntry(
    thumbprint: string, subject: seq<byte>, issuer: string, keyAlgorithm: string, keySize: int,
    der: seq<byte>, rsaBlob: Option<seq<byte>>)

  /** X.509 parsing: the issuer's name, the RSA blob and the public key of a DER. */
  datatype Parser = Parser(
    issuer: seq<byte> -> Option<string>, rsaBlob: seq<byte> -> Option<seq<byte>>, key: seq<byte> -> Pkcs11.CertKey)

  function MakeEntry(p: Parser, c: ServerCert): KeyEntry {
    var issuer := if c.issuer == "" && c.der != [] && p.issuer(c.der).Some? then p.issuer(c.der).value else c.issuer;
    KeyEntry(Thumbprint.Normalize(c.thumbprint), c.subject, issuer, c.keyAlgorithm, c.keySize, c.der,
             if c.keyAlgorithm == "RSA" && c.der != [] then p.rsaBlob(c.der) else None)
  }

  /** The certificates with a private key, in order. */
  function Project(p: Parser, certs: seq<ServerCert>): seq<KeyEntry> {
    if certs == [] then []
    else
      var last := certs[|certs| - 1];
      Project(p, certs[..|certs| - 1]) + (if last.hasPrivateKey then [MakeEntry(p, last)] else [])
  }

  predicate HasKey(c: ServerCert) {
    c.hasPrivateKey
  }

  /** The list holds exactly the certificates with a private key, in order: the entry of
      certificate i stands behind those of the certificates before it. Its thumbprint is
      normalised, a missing issuer is read from the certificate, and an RSA certificate has
      its public blob. */
  lemma {:induction false} ProjectInOrder(p: Parser, certs: seq<ServerCert>, i: nat)
    ensures |Project(p, certs)| == Lists.Count(certs, HasKey)
    ensures i < |certs| && certs[i].hasPrivateKey ==>
              var k, c := Lists.Count(certs[..i], HasKey), certs[i];
              && k < |Project(p, certs)|
              && var e := Project(p, certs)[k];
                 && e.thumbprint == Thumbprint.Significant(Thumbprint.TrimSpace(c.thumbprint))
                 && e.subject == c.subject && e.keyAlgorithm == c.keyAlgorithm
                 && e.keySize == c.keySize && e.der == c.der
                 && (c.issuer != "" || c.der == [] || p.issuer(c.der) == None ==> e.issuer == c.issuer)
                 && (c.issuer == "" && c.der != [] && p.issuer(c.der).Some? ==> Some(e.issuer) == p.issuer(c.der))
                 && (if c.keyAlgorithm == "RSA" && c.der != [] then e.rsaBlob == p.rsaBlob(c.der) else e.rsaBlob.None?)
    decreases |certs|
  {
    hide MakeEntry, Thumbprint.Significant, Thumbprint.TrimSpace;
    if certs != [] {
      var front := certs[..|certs| - 1];
      ProjectInOrder(p, front, i);
      if i < |front| {
        assert front[..i] == certs[..i];
      } else if i == |front| {
        assert front == certs[..i];
        EntryMeans(p, certs[i]);
      }
    }
  }

  lemma EntryMeans(p: Parser, c: ServerCert)
    ensures var e := MakeEntry(p, c);
            && e.thumbprint == Thumbprint.Significant(Thumbprint.TrimSpace(c.thumbprint))
            && e.subject == c.subject && e.keyAlgorithm == c.keyAlgorithm && e.keySize == c.keySize && e.der == c.der
            && (c.issuer != "" || c.der == [] || p.issuer(c.der) == None ==> e.issuer == c.issuer)
            && (c.issuer == "" && c.der != [] && p.issuer(c.der).Some? ==> Some(e.issuer) == p.issuer(c.der))
            && (if c.keyAlgorithm == "RSA" && c.der != [] then e.rsaBlob == p.rsaBlob(c.der) else e.rsaBlob.None?)
  {
    hide Thumbprint.Normalize, Thumbprint.Significant, Thumbprint.TrimSpace;
    Thumbprint.NormalizeMeaning(c.thumbprint);
  }

  // ----- the cache -----

  const SECOND: int := 1_000_000_000
  const TTL: int := 30 * SECOND
  const RPC_TIMEOUT: int := 15 * SECOND

  datatype Cache = Cache(list: seq<KeyEntry>, at: int)

  /** One call: when it begins, what the server would reply and at which instant, and
      when the reply has arrived. None stands for every error. */
  datatype Attempt = Attempt(now: int, served: int, finished: int, reply: Option<seq<ServerCert>>)

  predicate Fresh(c: Cache, now: int) {
    now - c.at < TTL && c.list != []
  }

  /** AllKeys: the new cache and the list returned. */
  function AllKeysStep(p: Parser, c: Cache, a: Attempt): (Cache, Option<seq<KeyEntry>>) {
    if Fresh(c, a.now) then (c, Some(c.list))
    else if a.reply.None? then (c, None)
    else (Cache(Project(p, a.reply.value), a.finished), Some(Project(p, a.reply.value)))
  }

  class Client {
    var cachedList: seq<KeyEntry>
    var cachedAt: int

    function State(): Cache
      reads this
    {
      Cache(cachedList, cachedAt)
    }

    constructor ()
      ensures cachedList == []
    {
      cachedList, cachedAt := [], 0;
    }

    /** refreshRemoteListLocked: keep a fresh list, else ask and filter in a loop. */
    method RefreshRemoteList(p: Parser, a: Attempt) returns (ok: bool)
      modifies this
      ensures State() == AllKeysStep(p, old(State()), a).0
      ensures ok == AllKeysStep(p, old(State()), a).1.Some?
    {
      if a.now - cachedAt < TTL && |cachedList| > 0 {
        return true;
      }
      if a.reply.None? {
        return false;
      }
      var out := Filter(p, a.reply.value);
      cachedList := out;
      cachedAt := a.finished;
      ok := true;
    }

    static method Filter(p: Parser, certs: seq<ServerCert>) returns (out: seq<KeyEntry>)
      ensures out == Project(p, certs)
    {
      out := [];
      var i := 0;
      while i < |certs|
        invariant 0 <= i <= |certs|
        invariant out == Project(p, certs[..i])
      {
        assert certs[..i + 1][..i] == certs[..i];
        if certs[i].hasPrivateKey {
          out := out + [MakeEntry(p, certs[i])];
        }
        i := i + 1;
      }
      assert certs[..i] == certs;
    }

    /** AllKeys. */
    method AllKeys(p: Parser, a: Attempt) returns (keys: Option<seq<KeyEntry>>)
      modifies this
      ensures (State(), keys) == AllKeysStep(p, old(State()), a)
    {
      var ok := RefreshRemoteList(p, a);
      keys := if ok then Some(cachedList) else None;
    }

    /** tpmcert_installed_count: 0 on any error. */
    method InstalledCount(p: Parser, a: Attempt) returns (n: nat)
      modifies this
      ensures State() == AllKeysStep(p, old(State()), a).0
      ensures n == CountOf(AllKeysStep(p, old(State()), a).1)
      ensures var keys := AllKeysStep(p, old(State()), a).1; n == if keys.None? then 0 else |keys.value|
    {
      var keys := AllKeys(p, a);
      n := if keys.None? then 0 else |keys.value|;
    }

    /** tpmcert_get_installed: an entry of the list, cut to the C arrays. */
    method GetInstalled(p: Parser, index: nat, a: Attempt) returns (info: Option<Pkcs11.KeyInfo>)
      modifies this
      ensures State() == AllKeysStep(p, old(State()), a).0
      ensures info == EntryAt(p, AllKeysStep(p, old(State()), a).1, index)
      ensures var keys := AllKeysStep(p, old(State()), a).1;
              && (info.Some? <==> keys.Some? && index < |keys.value|)
              && (info.Some? ==> info.value == FillKeyInfo(p, keys.value[index]))
    {
      var keys := AllKeys(p, a);
      if keys.None? || index >= |keys.value| {
        return None;
      }
      info := Some(FillKeyInfo(p, keys.value[index]));
    }
  }

  // ----- agreement with the server -----

  /** Calls follow one another in time; each reply is the server's list at an instant
      of the call, which takes no longer than its timeout. */
  ghost predicate Honest(server: int -> seq<ServerCert>, a: Attempt) {
    && a.now <= a.served <= a.finished <= a.now + RPC_TIMEOUT
    && (a.reply.Some? ==> a.reply.value == server(a.served))
  }

  /** The cached list was the server's at an instant within one call of its date. */
  ghost predicate CacheOk(p: Parser, server: int -> seq<ServerCert>, c: Cache) {
    c.list != [] ==> exists t :: c.at - RPC_TIMEOUT <= t <= c.at && c.list == Project(p, server(t))
  }

  /** The cache after a list of calls. */
  function RunCache(p: Parser, c: Cache, calls: seq<Attempt>): Cache
    decreases |calls|
  {
    if calls == [] then c else RunCache(p, AllKeysStep(p, c, calls[0]).0, calls[1..])
  }

  lemma {:induction false} RunKeepsCacheOk(p: Parser, server: int -> seq<ServerCert>, c: Cache, calls: seq<Attempt>)
    requires CacheOk(p, server, c) && forall a | a in calls :: Honest(server, a)
    ensures CacheOk(p, server, RunCache(p, c, calls))
    decreases |calls|
  {
    if calls != [] {
      var a := calls[0];
      assert Honest(server, a);
      RunKeepsCacheOk(p, server, AllKeysStep(p, c, a).0, calls[1..]);
    }
  }

  /** The client's lock lets one call in after the other. */
  ghost predicate Ordered(calls: seq<Attempt>) {
    forall i, j | 0 <= i < j < |calls| :: calls[i].finished <= calls[j].now
  }

  /** After any calls, a call that succeeds returns the filtered list that the server had
      at some instant no older than the time to live and one call before it. */
  lemma CachedAgreesWithServer(p: Parser, server: int -> seq<ServerCert>, calls: seq<Attempt>, start: int, a: Attempt)
    requires (forall b | b in calls :: Honest(server, b)) && Honest(server, a) && Ordered(calls + [a])
    requires AllKeysStep(p, RunCache(p, Cache([], start), calls), a).1.Some?
    ensures exists t :: a.now - TTL - RPC_TIMEOUT < t <= a.finished
                        && AllKeysStep(p, RunCache(p, Cache([], start), calls), a).1 == Some(Project(p, server(t)))
  {
    RunKeepsCacheOk(p, server, Cache([], start), calls);
    var c := RunCache(p, Cache([], start), calls);
    if Fresh(c, a.now) {
      var t :| c.at - RPC_TIMEOUT <= t <= c.at && c.list == Project(p, server(t));
      DateIsFinish(p, Cache([], start), calls);
      var i :| 0 <= i < |calls| && calls[i].finished == c.at;
      assert (calls + [a])[i].finished <= (calls + [a])[|calls|].now;
      assert AllKeysStep(p, c, a).1 == Some(Project(p, server(t)));
    } else {
      assert AllKeysStep(p, c, a).1 == Some(Project(p, server(a.served)));
    }
  }

  lemma {:induction false} DateIsFinish(p: Parser, c: Cache, calls: seq<Attempt>)
    ensures RunCache(p, c, calls) == c || exists i :: 0 <= i < |calls| && calls[i].finished == RunCache(p, c, calls).at
    decreases |calls|
  {
    if calls != [] {
      var c' := AllKeysStep(p, c, calls[0]).0;
      DateIsFinish(p, c', calls[1..]);
      if RunCache(p, c, calls) != c' {
        var i :| 0 <= i < |calls[1..]| && calls[1..][i].finished == RunCache(p, c', calls[1..]).at;
        assert calls[i + 1].finished == RunCache(p, c, calls).at;
      }
    }
  }

  /** The calls that the server would answer. */
  function Answered(calls: seq<Attempt>): seq<Attempt> {
    if calls == [] then [] else (if calls[0].reply.Some? then [calls[0]] else []) + Answered(calls[1..])
  }

  /** Failed refreshes leave no trace: after any calls the cache is the one that the
      answerable calls alone would have left. A call fails exactly when that cache is not
      fresh and the server cannot be asked; then nothing changes and nothing stale is
      returned. An empty list is never used again: the call asks the server. */
  lemma {:induction false} FailureChangesNothing(p: Parser, c: Cache, calls: seq<Attempt>, a: Attempt)
    ensures RunCache(p, c, calls) == RunCache(p, c, Answered(calls))
    ensures var now := RunCache(p, c, Answered(calls));
            var r := AllKeysStep(p, RunCache(p, c, calls), a);
            && (r.1.None? <==> !Fresh(now, a.now) && a.reply.None?)
            && (r.1.None? ==> r.0 == now)
            && (now.list == [] && r.1.Some? ==>
                  a.reply.Some? && r == (Cache(Project(p, a.reply.value), a.finished), Some(Project(p, a.reply.value))))
    decreases |calls|
  {
    hide Project;
    if calls != [] {
      var c' := AllKeysStep(p, c, calls[0]).0;
      FailureChangesNothing(p, c', calls[1..], a);
      if calls[0].reply.Some? {
        var first, rest := [calls[0]], Answered(calls[1..]);
        assert Answered(calls) == first + rest;
        assert (first + rest)[0] == calls[0] && (first + rest)[1..] == rest;
      } else {
        assert c' == c && Answered(calls) == Answered(calls[1..]);
      }
    }
  }

  /** A list is used again exactly when it is not empty and less than 30 seconds old: then,
      and only then, the call returns it without looking at the server's reply. Otherwise
      the reply decides, and a list that is taken is dated by the end of the call. */
  lemma ReusedExactly(p: Parser, c: Cache, a: Attempt)
    ensures c.list != [] && a.now - c.at < 30_000_000_000 <==>
            forall r: Option<seq<ServerCert>> :: AllKeysStep(p, c, a.(reply := r)) == (c, Some(c.list))
    ensures !(c.list != [] && a.now - c.at < 30_000_000_000) ==>
              AllKeysStep(p, c, a) ==
              match a.reply
              case None => (c, None)
              case Some(certs) => (Cache(Project(p, certs), a.finished), Some(Project(p, certs)))
  {
    hide Project;
    assert AllKeysStep(p, c, a.(reply := None)) == (c, Some(c.list)) <==> Fresh(c, a.now);
  }

  // ----- the bridge's indexed view and the object table -----

  function CountOf(keys: Option<seq<KeyEntry>>): nat {
    match keys case None => 0 case Some(list) => |list|
  }

  /** fillKeyInfo: strings are cut to 63 and 511 characters. */
  function FillKeyInfo(p: Parser, k: KeyEntry): Pkcs11.KeyInfo {
    Pkcs11.KeyInfo(Thumbprint.Truncate(k.thumbprint, 64), Thumbprint.Truncate(k.subject, 512), k.keySize,
                   if k.der == [] then Pkcs11.NoKey else p.key(k.der))
  }

  /** What an indexed get hands out: the thumbprint up to 63 characters, the subject up to
      511, the key size, and the public key that the module reads in the certificate. */
  lemma InfoMeans(p: Parser, k: KeyEntry)
    ensures var info := FillKeyInfo(p, k);
            && info.thumbprint <= k.thumbprint
            && |info.thumbprint| == (if |k.thumbprint| < 63 then |k.thumbprint| else 63)
            && info.subject <= k.subject
            && |info.subject| == (if |k.subject| < 511 then |k.subject| else 511)
            && info.keySize == k.keySize
            && info.key == if k.der == [] then Pkcs11.NoKey else p.key(k.der)
  {
  }

  function EntryAt(p: Parser, keys: Option<seq<KeyEntry>>, i: nat): Option<Pkcs11.KeyInfo> {
    match keys
    case None => None
    case Some(list) => if i < |list| then Some(FillKeyInfo(p, list[i])) else None
  }

  /** The answers to get 0, get 1, ... , one call each. */
  function Answers(p: Parser, c: Cache, i: nat, gets: seq<Attempt>): (answers: seq<Option<Pkcs11.KeyInfo>>)
    ensures |answers| == |gets|
    decreases |gets|
  {
    if gets == [] then []
    else
      var (c', keys) := AllKeysStep(p, c, gets[0]);
      [EntryAt(p, keys, i)] + Answers(p, c', i + 1, gets[1..])
  }

  function AllPresent(p: Parser, list: seq<KeyEntry>): seq<Option<Pkcs11.KeyInfo>> {
    seq(|list|, i requires 0 <= i < |list| => Some(FillKeyInfo(p, list[i])))
  }

  /** While the list stays fresh every get reads the same list. */
  lemma {:induction false} FreshAnswers(p: Parser, c: Cache, i: nat, gets: seq<Attempt>)
    requires i + |gets| == |c.list|
    requires forall g | g in gets :: Fresh(c, g.now)
    ensures Answers(p, c, i, gets) == AllPresent(p, c.list)[i..]
    decreases |gets|
  {
    if gets != [] {
      assert gets[0] in gets;
      FreshAnswers(p, c, i + 1, gets[1..]);
      assert AllPresent(p, c.list)[i..] == [AllPresent(p, c.list)[i]] + AllPresent(p, c.list)[i + 1..];
    }
  }

  /** With every entry present, the table has one object for each, in order. */
  lemma {:induction false} BuildAll(p: Parser, list: seq<KeyEntry>)
    ensures var objs := Pkcs11.BuildObjects(AllPresent(p, list));
            && |objs| == |list|
            && forall k | 0 <= k < |list| :: objs[k] == Pkcs11.MakeObject(FillKeyInfo(p, list[k]), k + 1)
  {
    hide FillKeyInfo, Pkcs11.MakeObject;
    if list != [] {
      var front := list[..|list| - 1];
      BuildAll(p, front);
      assert AllPresent(p, list)[..|list| - 1] == AllPresent(p, front);
    }
  }

  /** When the count and all indexed gets fall within the life of one list, the table is
      exactly that list; and whatever happens in between, the handles run from 1 without
      gaps up to at most the number first announced. */
  lemma TableIsList(p: Parser, c: Cache, count: Attempt, gets: seq<Attempt>)
    requires |gets| == CountOf(AllKeysStep(p, c, count).1)
    ensures var (c', keys) := AllKeysStep(p, c, count);
            var objs := Pkcs11.BuildObjects(Answers(p, c', 0, gets));
            && |objs| <= |gets|
            && (forall k | 0 <= k < |objs| :: objs[k].handle == k + 1)
            && ((forall g | g in gets :: Fresh(c', g.now)) && keys.Some? ==>
                  && |objs| == |keys.value|
                  && forall k | 0 <= k < |objs| :: objs[k] == Pkcs11.MakeObject(FillKeyInfo(p, keys.value[k]), k + 1))
  {
    hide FillKeyInfo, Pkcs11.MakeObject, Project, Answers, Pkcs11.BuildObjects;
    var (c', keys) := AllKeysStep(p, c, count);
    if keys.Some? && forall g | g in gets :: Fresh(c', g.now) {
      FreshAnswers(p, c', 0, gets);
      assert AllPresent(p, c'.list)[0..] == AllPresent(p, c'.list);
      BuildAll(p, c'.list);
    }
  }

  // ----- from the store to the object and back -----

  /** CertService.ListCertificates over the file store. */
  function ListStore(idents: seq<FileStore.Identity>, subject: seq<byte> -> seq<byte>): seq<ServerCert> {
    seq(|idents|, i requires 0 <= i < |idents| =>
      ServerCert(
        idents[i].thumbSHA1, subject(idents[i].cert.der), "", idents[i].cert.keyAlgorithm, idents[i].cert.keySize,
        true, idents[i].cert.der))
  }

  lemma {:induction false} ProjectAll(p: Parser, certs: seq<ServerCert>)
    requires forall c | c in certs :: c.hasPrivateKey
    ensures |Project(p, certs)| == |certs|
    ensures forall i | 0 <= i < |certs| :: Project(p, certs)[i] == MakeEntry(p, certs[i])
  {
    hide MakeEntry;
    if certs != [] {
      ProjectAll(p, certs[..|certs| - 1]);
    }
  }

  /** Among certificates with distinct fingerprints, the object table has one object per
      certificate; a search for its SHA-1 fingerprint as CKA_ID finds exactly that object;
      and the thumbprint sent with its signing requests leads the server back to exactly
      that certificate's key. */
  lemma IdNamesKey(f: FileStore.Fingerprints, idents: seq<FileStore.Identity>, subject: seq<byte> -> seq<byte>,
        p: Parser, k: nat)
    requires FileStore.FingerprintsOk(f) && FileStore.StoreOk(f, idents) && k < |idents|
    requires forall i, j | 0 <= i < j < |idents| ::
               idents[i].thumbSHA1 != idents[j].thumbSHA1 && idents[i].thumbSHA256 != idents[j].thumbSHA256
    ensures var objs := Pkcs11.BuildObjects(AllPresent(p, Project(p, ListStore(idents, subject))));
            && |objs| == |idents|
            && objs[k].id == f.sha1(idents[k].cert.der)
            && Pkcs11.MatchingHandles(objs, [Pkcs11.Attr(Pkcs11.Id, f.sha1(idents[k].cert.der))]) == [k + 1]
            && FileStore.Lookup(idents, Thumbprint.Normalize(objs[k].thumbprint)) == Some(k)
  {
    hide Pkcs11.BuildObjects, Project, Pkcs11.MatchingHandles, FileStore.Lookup, Thumbprint.Normalize,
         Pkcs11.MakeObject, FillKeyInfo, MakeEntry, Thumbprint.HexUpper, FileStore.FingerprintsOk;
    var certs := ListStore(idents, subject);
    var list := Project(p, certs);
    ProjectAll(p, certs);
    BuildAll(p, list);
    var objs := Pkcs11.BuildObjects(AllPresent(p, list));
    forall i | 0 <= i < |idents|
      ensures objs[i].id == f.sha1(idents[i].cert.der) && objs[i].thumbprint == idents[i].thumbSHA1
    {
      ObjectOfCertificate(f, idents[i], p, certs[i], i + 1);
    }
    forall i, j | 0 <= i < j < |objs|
      ensures objs[i].id != objs[j].id
    {
      assert idents[i].thumbSHA1 != idents[j].thumbSHA1;
    }
    Finding.OneIdOneObject(objs, k);
    OwnSpelling(f, idents[k]);
    FileStore.FullThumbprintFindsOwn(f, idents, k, Thumbprint.Normalize(idents[k].thumbSHA1));
  }

  lemma OwnSpelling(f: FileStore.Fingerprints, id: FileStore.Identity)
    requires FileStore.FingerprintsOk(f) && id == FileStore.MakeIdentity(f, id.cert, id.signer)
    ensures Thumbprint.Normalize(id.thumbSHA1) == id.thumbSHA1
    ensures Thumbprint.Significant(Thumbprint.TrimSpace(id.thumbSHA1)) == id.thumbSHA1
  {
    FileStore.ThumbsNormal(f, id);
    Thumbprint.NormalizeMeaning(id.thumbSHA1);
  }

  lemma ObjectOfCertificate(f: FileStore.Fingerprints, id: FileStore.Identity, p: Parser, c: ServerCert, handle: nat)
    requires FileStore.FingerprintsOk(f) && id == FileStore.MakeIdentity(f, id.cert, id.signer)
    requires c.thumbprint == id.thumbSHA1
    ensures var o := Pkcs11.MakeObject(FillKeyInfo(p, MakeEntry(p, c)), handle);
            o.id == f.sha1(id.cert.der) && o.thumbprint == id.thumbSHA1
  {
    FileStore.ThumbsNormal(f, id);
    Thumbprint.ThumbprintSurvives(f.sha1(id.cert.der));
  }
}
