/**
 End to end: the module, the bridge, the protocol and the server's store keep the
 meaning of "sign this digest with this hash and padding".
 */
module Meaning {
  import opened Bytes
  import opened Hashes
  import opened Pkcs11
  import opened Runs
  import FileStore
  import DigestInfo
  import EcdsaCodec
  import Thumbprint

  /** The server behind the requests: the store and the signing primitive at the time
      of each one. Both may change from request to request. */
  datatype Backend = Backend(idents: nat -> seq<FileStore.Identity>, sign: nat -> FileStore.Signer)

  function Serve(b: Backend, k: nat, r: Request): FileStore.Result<FileStore.SignResult, FileStore.StoreError> {
    FileStore.Handle(b.idents(k), b.sign(k), r.thumbprint, r.digest, ProtoHash(r.hash), ProtoPadding(r.padding))
  }

  /** The environment's replies are what the server answers, errors being refusals. */
  ghost predicate ServedBy(env: Env, b: Backend) {
    forall k: nat, r: Request ::
      env.reply(k, r) == (match Serve(b, k, r) case Success(s) => Some(s.signature) case Failure(_) => None)
  }

  ghost predicate DigestsOk(env: Env) {
    forall h, d :: |env.digest(h, d)| == h.Size()
  }

  /** The digest that a mechanism is meant to sign for the caller's data. */
  predicate IsIntendedDigest(env: Env, m: Mechanism, ktype: KeyType, data: seq<byte>, h: Hash, digest: seq<byte>) {
    match OwnHash(m)
    case Some(own) => h == own && digest == env.digest(own, data)
    case None =>
      if m.RsaPkcs? && ktype == Rsa then digest == data || data == DigestInfo.LinuxPrefix(h) + digest
      else digest == data
  }

  /** The scheme that a mechanism stands for. */
  function SchemeOf(m: Mechanism): FileStore.Scheme {
    if IsEcMechanism(m) then FileStore.EcdsaAsn1
    else if IsPss(m) then FileStore.RsaPssSaltOfHash
    else FileStore.RsaPkcs1v15
  }

  /** The scheme that the store uses for a mechanism's padding: the type of its key decides. */
  predicate IsStoreScheme(m: Mechanism, key: FileStore.PrivateKey, scheme: FileStore.Scheme) {
    match key
    case RsaKey(_) => scheme == if IsPss(m) then FileStore.RsaPssSaltOfHash else FileStore.RsaPkcs1v15
    case EcKey(_) => !IsPss(m) && scheme == FileStore.EcdsaAsn1
    case OtherKey(_) => false
  }

  /** What the store's PSS scheme uses under a hash, in the numbers of PKCS#11: that hash,
      mask generation with that hash, and a salt as long as its digest. */
  function StorePss(h: Hash): PssParam {
    match h
    case Sha256 => Param(CKM_SHA256, CKG_MGF1_SHA256, 32)
    case Sha384 => Param(CKM_SHA384, CKG_MGF1_SHA384, 48)
    case Sha512 => Param(CKM_SHA512, CKG_MGF1_SHA512, 64)
  }

  /** A signature that a caller holds: the key and mechanism that C_SignInit was given, and
      the data to be signed. */
  datatype Want = Want(o: KeyObject, mech: MechArg, data: seq<byte>, sig: seq<byte>)

  /** What the server did for it: the number of the request, the index of the identity, and
      the signature that its key made over a digest. */
  datatype Deed = Deed(k: nat, i: nat, hash: Hash, digest: seq<byte>, scheme: FileStore.Scheme, der: seq<byte>)

  /** Request k is in the log with this digest, hash and padding. The store signed it with
      the key that the object's thumbprint names: the digest is the one intended for the
      data, as long as the hash that mechanism and parameter settle. The caller has that
      signature in the form for the object's type of key. */
  ghost predicate SignedThus(env: Env, b: Backend, log: seq<Request>, want: Want, d: Deed) {
    var m, o := want.mech.mechanism, want.o;
    var thumbprint := Thumbprint.Normalize(o.thumbprint);
    && MechOkFor(m, o.ktype)
    && d.k < |log| && log[d.k] == Request(thumbprint, d.digest, d.hash, if IsPss(m) then Pss else Pkcs1)
    && FileStore.Lookup(b.idents(d.k), thumbprint) == Some(d.i)
    && b.sign(d.k)(b.idents(d.k)[d.i].signer, d.scheme, d.hash, d.digest) == Some(d.der)
    && |d.digest| == d.hash.Size()
    && (FixedHash(want.mech).Some? ==> FixedHash(want.mech) == Some(d.hash))
    && IsIntendedDigest(env, m, o.ktype, want.data, d.hash, d.digest)
    && IsStoreScheme(m, b.idents(d.k)[d.i].signer, d.scheme)
    && IsFormOf(o, d.der, want.sig)
  }

  predicate IsFormOf(o: KeyObject, der: seq<byte>, sig: seq<byte>) {
    if o.ktype == Rsa then sig == der
    else 0 < FieldBytes(o.keySize) <= MAX_FIELD && EcdsaCodec.DerToRaw(der, FieldBytes(o.keySize)) == Some(sig)
  }

  // ----- what was asked -----

  /** The server did what the caller asked: the mechanism's own scheme; for PSS with a
      parameter its hash, mask generation and salt length; and for raw RSA a PKCS#1 block
      over exactly the data. */
  predicate IsAsAsked(want: Want, d: Deed) {
    var m := want.mech.mechanism;
    && d.scheme == SchemeOf(m)
    && (IsPss(m) && want.mech.param.Param? ==> want.mech.param == StorePss(d.hash))
    && (m.RsaPkcs? ==> want.data == DigestInfo.StandardPrefix(d.hash) + d.digest)
  }

  /** The type of the object is that of the key that its thumbprint names in the store. */
  predicate KeyFits(b: Backend, k: nat, o: KeyObject) {
    match FileStore.Lookup(b.idents(k), Thumbprint.Normalize(o.thumbprint))
    case None => true
    case Some(i) => o.ktype == Ec <==> b.idents(k)[i].signer.EcKey?
  }

  /** The parameters of C_SignInit that the store can meet. */
  predicate ParameterFits(mech: MechArg) {
    IsPss(mech.mechanism) && mech.param.Param? ==>
      match OwnHash(mech.mechanism)
      case Some(own) => mech.param == StorePss(own)
      case None => mech.param in {StorePss(Sha256), StorePss(Sha384), StorePss(Sha512)}
  }

  /** The data that the path can sign for a mechanism: for raw RSA a SHA-256 DigestInfo of
      section 9.2 of RFC 8017, for every other mechanism any. */
  predicate DataFits(m: Mechanism, data: seq<byte>) {
    m.RsaPkcs? ==> DigestInfo.IsInfo(DigestInfo.StandardPrefix, data, Sha256)
  }

  /** What can be checked before the call. */
  predicate CanBeMet(b: Backend, k: nat, want: Want) {
    KeyFits(b, k, want.o) && ParameterFits(want.mech) && DataFits(want.mech.mechanism, want.data)
  }

  /** A signature that is made is the one asked for exactly when the request can be met.
      Each condition stands for its own part: the key for the scheme, the parameter for
      hash, mask generation and salt length, the data for what is in the PKCS#1 block. */
  lemma AskedExactly(env: Env, b: Backend, log: seq<Request>, want: Want, d: Deed)
    requires SignedThus(env, b, log, want, d)
    ensures d.scheme == SchemeOf(want.mech.mechanism) <==> KeyFits(b, d.k, want.o)
    ensures (IsPss(want.mech.mechanism) && want.mech.param.Param? ==> want.mech.param == StorePss(d.hash))
            <==> ParameterFits(want.mech)
    ensures (want.mech.mechanism.RsaPkcs? ==> want.data == DigestInfo.StandardPrefix(d.hash) + d.digest)
            <==> DataFits(want.mech.mechanism, want.data)
    ensures IsAsAsked(want, d) <==> CanBeMet(b, d.k, want)
  {
    hide FileStore.Lookup, Thumbprint.Normalize, EcdsaCodec.DerToRaw, FieldBytes, DigestInfo.IsInfo,
         DigestInfo.StandardPrefix, DigestInfo.LinuxPrefix, IsFormOf;
    if want.mech.mechanism.RsaPkcs? {
      DigestInfo.BlockIsData(want.data, d.hash, d.digest);
    }
  }

  /** The hash alone: a signature is under the hash that the parameter names exactly when
      that is SHA-256, SHA-384 or SHA-512 and, for a mechanism with a hash of its own, the
      same. */
  lemma AskedUnderHash(env: Env, b: Backend, log: seq<Request>, want: Want, d: Deed)
    requires SignedThus(env, b, log, want, d)
    requires IsPss(want.mech.mechanism) && want.mech.param.Param?
    ensures var named, own := NamedHash(want.mech.param.hashAlg), OwnHash(want.mech.mechanism);
            named == Some(d.hash) <==> named.Some? && (own.Some? ==> named == own)
  {
    hide FileStore.Lookup, Thumbprint.Normalize, IsFormOf, IsStoreScheme;
  }

  lemma LogMayGrow(env: Env, b: Backend, log: seq<Request>, longer: seq<Request>, want: Want, d: Deed)
    requires SignedThus(env, b, log, want, d) && log <= longer
    ensures SignedThus(env, b, longer, want, d)
  {
    hide FileStore.Lookup, Thumbprint.Normalize, IsFormOf, IsStoreScheme, IsIntendedDigest, FixedHash, MechOkFor;
  }

  // ----- one signing -----

  /** What OpOk says of an active operation's mechanism. */
  ghost predicate RowOk(row: MechRow, hashAlg: nat, ktype: KeyType) {
    && MechOf(row.mechanism) == Some(row)
    && MechOkFor(row.mechanism, ktype)
    && (row.hash.Some? ==> hashAlg == row.hash.value.Number())
    && (row.hash.None? ==> hashAlg <= if row.pss then 3 else 0)
  }

  /** The table row and hash number of an operation are those that C_SignInit settled. */
  ghost predicate Settled(mech: MechArg, row: MechRow, hashAlg: nat, ktype: KeyType) {
    RowOk(row, hashAlg, ktype) && row.mechanism == mech.mechanism && hashAlg == FixedNumber(mech)
  }

  /** What BuildDigest hands on is the intended digest under the hash that is settled, if
      the server's length check accepts it. */
  lemma DigestAsMeant(env: Env, io: Ledger, mech: MechArg, row: MechRow, hashAlg: nat, o: KeyObject, data: seq<byte>)
    requires DigestsOk(env) && Settled(mech, row, hashAlg, o.ktype)
    requires BuildDigest(env, io, row, hashAlg, o.ktype, data).1.Ready?
    ensures row.pss == IsPss(mech.mechanism)
    ensures var p := BuildDigest(env, io, row, hashAlg, o.ktype, data).1;
            var h := HashFromInt(p.hashAlg);
            && p.hashAlg == h.Number()
            && (FixedHash(mech).Some? ==> FixedHash(mech) == Some(h))
            && (|p.digest| == h.Size() ==> IsIntendedDigest(env, mech.mechanism, o.ktype, data, h, p.digest))
  {
    InitialIsFixed(mech);
    if row.hash.Some? {
      assert |env.digest(row.hash.value, data)| == row.hash.value.Size();
    } else if !row.pss && o.ktype == Rsa {
      DigestInfo.AcceptedMeans(data);
    }
  }

  /** The bytes that AskServer makes are those of its second request. */
  lemma AskServerReply(env: Env, io: Ledger, r: Request)
    requires AskServer(env, io, r).1.Made?
    ensures env.reply(|io.log| + 1, r) == Some(AskServer(env, io, r).1.sig)
    ensures AskServer(env, io, r).0.log == io.log + [r] + [r]
  {
  }

  /** What it takes for the server to answer a request with a signature. */
  lemma ServeMeans(b: Backend, k: nat, r: Request)
    requires Serve(b, k, r).Success?
    ensures FileStore.Lookup(b.idents(k), r.thumbprint).Some?
    ensures var s, key := Serve(b, k, r).value, b.idents(k)[FileStore.Lookup(b.idents(k), r.thumbprint).value].signer;
            && |r.digest| == r.hash.Size()
            && b.sign(k)(key, s.scheme, r.hash, r.digest) == Some(s.signature)
            && match key
               case RsaKey(_) =>
                 s.scheme == if r.padding == Pss then FileStore.RsaPssSaltOfHash else FileStore.RsaPkcs1v15
               case EcKey(_) => r.padding != Pss && s.scheme == FileStore.EcdsaAsn1
               case OtherKey(_) => false
  {
    NumbersKeepMeaning(r.hash, r.padding);
  }

  /** What ConvertSignature makes of a server's signature. */
  lemma ConvertMeans(env: Env, io: Ledger, o: KeyObject, der: seq<byte>)
    requires ConvertSignature(env, io, o, der).1.Made?
    ensures IsFormOf(o, der, ConvertSignature(env, io, o, der).1.sig)
    ensures ConvertSignature(env, io, o, der).0.log == io.log
  {
  }

  lemma BuildDigestAsksNothing(env: Env, io: Ledger, row: MechRow, hashAlg: nat, ktype: KeyType, data: seq<byte>)
    ensures BuildDigest(env, io, row, hashAlg, ktype, data).0.log == io.log
  {
  }

  /** A signature that reaches the caller is that of the second request, made as meant. */
  lemma ProduceAsMeant(
      env: Env, b: Backend, io: Ledger, o: KeyObject, mech: MechArg, row: MechRow, hashAlg: nat, data: seq<byte>)
      returns (d: Deed)
    requires ServedBy(env, b) && DigestsOk(env) && Settled(mech, row, hashAlg, o.ktype)
    requires Produce(env, io, o, row, hashAlg, data).1.Made?
    ensures d.k == |io.log| + 1
    ensures var (io', made) := Produce(env, io, o, row, hashAlg, data);
            SignedThus(env, b, io'.log, Want(o, mech, data, made.sig), d)
  {
    hide BuildDigest, AskServer, ConvertSignature, Serve, FileStore.Lookup, MechOf, MechOkFor, IsIntendedDigest,
         IsFormOf, FixedHash, OwnHash, IsPss, FixedNumber;
    var (io1, p) := BuildDigest(env, io, row, hashAlg, o.ktype, data);
    BuildDigestAsksNothing(env, io, row, hashAlg, o.ktype, data);
    DigestAsMeant(env, io, mech, row, hashAlg, o, data);
    var r := MakeRequest(o, p, row.pss);
    var (io2, made) := AskServer(env, io1, r);
    AskServerReply(env, io1, r);
    ConvertMeans(env, io2, o, made.sig);
    var k := |io.log| + 1;
    ServeMeans(b, k, r);
    var i := FileStore.Lookup(b.idents(k), r.thumbprint).value;
    d := Deed(k, i, r.hash, p.digest, Serve(b, k, r).value.scheme, made.sig);
  }

  // ----- the log -----

  lemma ProduceLogGrows(env: Env, io: Ledger, o: KeyObject, row: MechRow, hashAlg: nat, data: seq<byte>)
    ensures io.log <= Produce(env, io, o, row, hashAlg, data).0.log
  {
    hide BuildDigest, EcdsaCodec.DecodeSignature, EcdsaCodec.DerToRaw, FieldBytes, MakeRequest;
    BuildDigestAsksNothing(env, io, row, hashAlg, o.ktype, data);
  }

  /** No call takes a request out of the log. */
  lemma StepLogGrows(env: Env, w: World, c: Call)
    requires Inv(w)
    ensures w.io.log <= Step(env, w, c).w.io.log
  {
    hide Inv, Produce, Grow, MatchingHandles, BuildObjects, MechOf, MechOkFor, InitialHashAlg;
    if c.Sign? || c.SignFinal? {
      var i := FindSession(w.slots, c.session);
      if i < |w.slots| && w.slots[i].op.Active? {
        var op := w.slots[i].op;
        ActiveHasObject(w, i);
        ProduceLogGrows(env, w.io, w.objects[op.obj], op.row, op.hashAlg, InputOf(w, c));
      }
    }
  }

  /** What a call leaves in the log stays there for the rest of the run. */
  lemma {:induction false} RunLogGrows(env: Env, cs: seq<Call>, j: nat)
    requires Inv(START) && j < |cs|
    ensures Step(env, Run(env, START, cs[..j]), cs[j]).w.io.log <= Run(env, START, cs).io.log
    decreases |cs|
  {
    hide Inv, Step, Run;
    var front, last := cs[..|cs| - 1], cs[|cs| - 1];
    assert front + [last] == cs;
    RunLast(env, START, front, last);
    if j < |front| {
      RunLogGrows(env, front, j);
      StepLogGrows(env, Run(env, START, front), last);
      assert front[..j] == cs[..j] && front[j] == cs[j];
    } else {
      assert cs[..j] == front;
    }
  }

  // ----- every signature of every run -----

  ghost predicate ActiveAfter(env: Env, cs: seq<Call>, n: nat, h: nat)
    requires Inv(START) && n <= |cs|
  {
    OpOf(Run(env, START, cs[..n]), h).Some? && OpOf(Run(env, START, cs[..n]), h).value.Active?
  }

  /** Call i of the run was the SignInit that started the operation that session h has:
      it succeeded and the operation has been active ever since. */
  ghost predicate Started(env: Env, cs: seq<Call>, i: nat, h: nat)
    requires Inv(START)
  {
    && i < |cs| && cs[i].SignInit? && cs[i].session == h && cs[i].mech.Some?
    && Step(env, Run(env, START, cs[..i]), cs[i]).reply == Status(Ok)
    && forall n | i < n <= |cs| :: ActiveAfter(env, cs, n, h)
  }

  /** Call j of the run, after call i, was a size query of session h whose data, signed
      with this key and mechanism, made sig. */
  ghost predicate MadeByQuery(
      env: Env, cs: seq<Call>, i: nat, j: nat, h: nat, o: KeyObject, row: MechRow, hashAlg: nat, sig: seq<byte>)
    requires Inv(START)
  {
    && i < j < |cs| && IsSignCall(cs[j], h) && !cs[j].arg.buffer
    && var w := Run(env, START, cs[..j]);
       Produce(env, w.io, o, row, hashAlg, InputOf(w, cs[j])) == (Step(env, w, cs[j]).w.io, Made(sig))
  }

  /** Call i of the run settled key, mechanism and hash of the slot's operation, and its
      cached signature, if there is one, was made by a later size query. */
  ghost predicate StartedBy(env: Env, cs: seq<Call>, i: nat, objects: seq<KeyObject>, s: Slot)
    requires Inv(START) && s.Open? && s.op.Active?
  {
    && Started(env, cs, i, s.handle) && Run(env, START, cs[..i]).objects == objects
    && s.op.obj < |objects| && s.op.obj + 1 == cs[i].key
    && s.op.row.mechanism == cs[i].mech.value.mechanism && s.op.hashAlg == FixedNumber(cs[i].mech.value)
    && (s.op.cached.Some? ==>
          exists j: nat ::
            MadeByQuery(env, cs, i, j, s.handle, objects[s.op.obj], s.op.row, s.op.hashAlg, s.op.cached.value))
  }

  ghost predicate SlotExplained(env: Env, cs: seq<Call>, objects: seq<KeyObject>, s: Slot)
    requires Inv(START)
  {
    s.Open? && s.op.Active? ==> exists i: nat :: StartedBy(env, cs, i, objects, s)
  }

  ghost predicate Explained(env: Env, cs: seq<Call>, w: World)
    requires Inv(START)
  {
    forall i | 0 <= i < |w.slots| :: SlotExplained(env, cs, w.objects, w.slots[i])
  }

  /** A start stays the start while the operation stays active. */
  lemma StartStays(env: Env, cs: seq<Call>, c: Call, i: nat, h: nat)
    requires Inv(START) && Started(env, cs, i, h) && ActiveAfter(env, cs + [c], |cs| + 1, h)
    ensures Started(env, cs + [c], i, h)
  {
    hide Inv, Run, Step;
    var all := cs + [c];
    assert all[..i] == cs[..i] && all[i] == cs[i];
    forall n | i < n <= |all|
      ensures ActiveAfter(env, all, n, h)
    {
      if n <= |cs| {
        assert ActiveAfter(env, cs, n, h);
        assert all[..n] == cs[..n];
      }
    }
  }

  /** A query stays in the past. */
  lemma QueryStays(
      env: Env, cs: seq<Call>, c: Call, i: nat, j: nat, h: nat, o: KeyObject, row: MechRow, hashAlg: nat,
      sig: seq<byte>)
    requires Inv(START) && MadeByQuery(env, cs, i, j, h, o, row, hashAlg, sig)
    ensures MadeByQuery(env, cs + [c], i, j, h, o, row, hashAlg, sig)
  {
    hide Inv, Run, Step, Produce;
    assert (cs + [c])[..j] == cs[..j] && (cs + [c])[j] == cs[j];
  }

  /** An operation that only gathered input, or had its signature cached by this call,
      is explained as before. */
  lemma ExplanationStays(env: Env, cs: seq<Call>, c: Call, objects: seq<KeyObject>, s: Slot, s': Slot)
    requires Inv(START) && SlotExplained(env, cs, objects, s)
    requires s.Open? && s.op.Active? && s'.Open? && s'.op.Active? && s'.handle == s.handle
    requires s'.op == s.op.(input := s'.op.input, cap := s'.op.cap, cached := s'.op.cached)
    requires ActiveAfter(env, cs + [c], |cs| + 1, s.handle)
    requires s'.op.cached == s.op.cached
             || (s'.op.cached.Some? && s.op.obj < |objects| && IsSignCall(c, s.handle) && !c.arg.buffer
                 && var w := Run(env, START, cs);
                    Produce(env, w.io, objects[s.op.obj], s.op.row, s.op.hashAlg, InputOf(w, c))
                    == (Step(env, w, c).w.io, Made(s'.op.cached.value)))
    ensures SlotExplained(env, cs + [c], objects, s')
  {
    hide Inv, Run, Produce, Step, Started, FixedNumber, InputOf;
    var i: nat :| StartedBy(env, cs, i, objects, s);
    var all, o := cs + [c], objects[s.op.obj];
    StartStays(env, cs, c, i, s.handle);
    StartedBefore(env, cs, i, s.handle);
    assert all[..i] == cs[..i] && all[i] == cs[i];
    if s'.op.cached.Some? {
      if s'.op.cached == s.op.cached {
        var j: nat :| MadeByQuery(env, cs, i, j, s.handle, o, s.op.row, s.op.hashAlg, s.op.cached.value);
        QueryStays(env, cs, c, i, j, s.handle, o, s.op.row, s.op.hashAlg, s.op.cached.value);
      } else {
        assert all[..|cs|] == cs && all[|cs|] == c;
        assert MadeByQuery(env, all, i, |cs|, s.handle, o, s.op.row, s.op.hashAlg, s'.op.cached.value);
      }
    }
    assert StartedBy(env, all, i, objects, s');
  }

  lemma StartedBefore(env: Env, cs: seq<Call>, i: nat, h: nat)
    requires Inv(START) && Started(env, cs, i, h)
    ensures i < |cs| && cs[i].SignInit? && cs[i].mech.Some?
  {
  }

  /** What signing makes of the cache, and where a signature handed out comes from. */
  lemma DoSignSource(env: Env, w: World, i: nat, data: seq<byte>, arg: SigArg)
    requires i < |w.slots| && w.slots[i].Open?
    requires w.slots[i].op.Active? ==> w.slots[i].op.obj < |w.objects|
    ensures var o, op := DoSign(env, w, i, data, arg), w.slots[i].op;
            && |o.w.slots| == |w.slots| && o.w.slots[i].Open? && o.w.slots[i].handle == w.slots[i].handle
            && o.w.objects == w.objects
            && var op' := o.w.slots[i].op;
               && (op'.Active? ==>
                     || op' == op
                     || (op.Active? && op' == op.(cached := op'.cached) && op'.cached.Some? && !arg.buffer
                         && Produce(env, w.io, w.objects[op.obj], op.row, op.hashAlg, data)
                            == (o.w.io, Made(op'.cached.value))))
               && (o.reply.sig.Some? ==>
                     && op.Active?
                     && if op.cached.Some? then o.reply.sig == op.cached
                        else Produce(env, w.io, w.objects[op.obj], op.row, op.hashAlg, data)
                             == (o.w.io, Made(o.reply.sig.value)))
  {
    hide Produce;
  }

  /** One more call of the run keeps every operation explained. */
  lemma StepKeepsExplained(env: Env, cs: seq<Call>, c: Call)
    requires Inv(START) && Explained(env, cs, Run(env, START, cs))
    ensures Explained(env, cs + [c], Step(env, Run(env, START, cs), c).w)
  {
    hide Inv, Run, Step, Produce, SlotExplained;
    var w := Run(env, START, cs);
    var w' := Step(env, w, c).w;
    forall i | 0 <= i < |w'.slots|
      ensures SlotExplained(env, cs + [c], w'.objects, w'.slots[i])
    {
      if w'.slots[i].Closed? || w'.slots[i].op.Idle? {
        IdleExplained(env, cs + [c], w'.objects, w'.slots[i]);
      } else {
        ActiveNow(env, cs, c, i);
        if IsSigningCall(c) {
          SigningChangesOnlyOp(env, w, c);
          if i == FindSession(w.slots, SessionOf(c).value) {
            SigningKeepsExplained(env, cs, c);
          } else {
            ExplanationStays(env, cs, c, w.objects, w.slots[i], w'.slots[i]);
          }
        } else {
          OtherCallsCacheNothing(env, w, c, i);
          ExplanationStays(env, cs, c, w.objects, w.slots[i], w'.slots[i]);
        }
      }
    }
  }

  lemma ActiveNow(env: Env, cs: seq<Call>, c: Call, i: nat)
    requires Inv(START)
    requires var w' := Step(env, Run(env, START, cs), c).w;
             i < |w'.slots| && w'.slots[i].Open? && w'.slots[i].op.Active?
    ensures ActiveAfter(env, cs + [c], |cs| + 1, Step(env, Run(env, START, cs), c).w.slots[i].handle)
  {
    hide Inv, Run, Step;
    RunLast(env, START, cs, c);
    StepKeepsInv(env, Run(env, START, cs), c);
    FindsSlot(Step(env, Run(env, START, cs), c).w, i);
    assert (cs + [c])[..|cs| + 1] == cs + [c];
  }

  lemma IdleExplained(env: Env, cs: seq<Call>, objects: seq<KeyObject>, s: Slot)
    requires Inv(START) && (s.Closed? || s.op == Idle)
    ensures SlotExplained(env, cs, objects, s)
  {
  }

  /** A signing call starts an operation only as a SignInit that succeeds, and caches a
      signature only as a size query that makes it. */
  lemma SigningKeepsExplained(env: Env, cs: seq<Call>, c: Call)
    requires Inv(START) && IsSigningCall(c)
    requires var w := Run(env, START, cs);
             var i := FindSession(w.slots, SessionOf(c).value);
             i < |w.slots| && SlotExplained(env, cs, w.objects, w.slots[i])
    ensures var w := Run(env, START, cs);
            var i, w' := FindSession(w.slots, SessionOf(c).value), Step(env, w, c).w;
            i < |w'.slots| && SlotExplained(env, cs + [c], w'.objects, w'.slots[i])
  {
    hide Inv, Run, Step, Produce, DoSign, SlotExplained;
    var w := Run(env, START, cs);
    var h := SessionOf(c).value;
    var i, w' := FindSession(w.slots, h), Step(env, w, c).w;
    SigningChangesOnlyOp(env, w, c);
    var op, op' := w.slots[i].op, w'.slots[i].op;
    if op'.Idle? {
      IdleExplained(env, cs + [c], w'.objects, w'.slots[i]);
    } else {
      ActiveNow(env, cs, c, i);
      if c.SignInit? && op.Idle? {
        InitExplains(env, cs, c, i);
      } else if IsSignCall(c, h) {
        SignCallIsDoSign(env, w, c, h);
        SlotOk(w, i);
        DoSignSource(env, w, i, InputOf(w, c), c.arg);
        ExplanationStays(env, cs, c, w.objects, w.slots[i], w'.slots[i]);
      } else {
        PlainCallsCacheNothing(env, w, c, i);
        assert op' == op || op' == op.(input := op'.input, cap := op'.cap);
        ExplanationStays(env, cs, c, w.objects, w.slots[i], w'.slots[i]);
      }
    }
  }

  /** An operation that has just become active is explained by this SignInit. */
  lemma InitExplains(env: Env, cs: seq<Call>, c: Call, i: nat)
    requires Inv(START) && c.SignInit?
    requires var w := Run(env, START, cs);
             var w' := Step(env, w, c).w;
             && i == FindSession(w.slots, c.session) < |w.slots| == |w'.slots|
             && w.slots[i].op.Idle? && w'.slots[i].Open? && w'.slots[i].op.Active? && w'.slots[i].handle == c.session
             && w'.objects == w.objects
    requires ActiveAfter(env, cs + [c], |cs| + 1, c.session)
    ensures var w' := Step(env, Run(env, START, cs), c).w; SlotExplained(env, cs + [c], w'.objects, w'.slots[i])
  {
    hide Inv, Run, Step, Produce, FixedNumber, MechOkFor, OwnHash, IsPss;
    var w, all := Run(env, START, cs), cs + [c];
    var o := Step(env, w, c);
    SignInitMeaning(env, w, c.session, c.mech, c.key);
    StepKeepsInv(env, w, c);
    FindsSlot(o.w, i);
    assert OpOf(o.w, c.session) == Some(o.w.slots[i].op);
    assert all[..|cs|] == cs && all[|cs|] == c;
    assert o.reply == Status(Ok);
    assert Started(env, all, |cs|, c.session);
    assert StartedBy(env, all, |cs|, o.w.objects, o.w.slots[i]);
  }

  /** Calls that do not sign leave an open session's operation and key alone, or
      have just opened it. */
  lemma OtherCallsCacheNothing(env: Env, w: World, c: Call, i: nat)
    requires Inv(w) && !IsSigningCall(c)
    requires var w' := Step(env, w, c).w; i < |w'.slots| && w'.slots[i].Open?
    ensures var w' := Step(env, w, c).w;
            w'.slots[i].op == Idle || (i < |w.slots| && w'.slots[i] == w.slots[i] && w'.objects == w.objects)
  {
    hide CapacityOk, MechOf, MechOkFor, MatchingHandles, BuildObjects;
  }

  /** The state after a run is that of all calls but the last, and then the last. */
  lemma {:induction false} RunLast(env: Env, w: World, cs: seq<Call>, c: Call)
    requires Inv(w)
    ensures Run(env, w, cs + [c]) == Step(env, Run(env, w, cs), c).w
    decreases |cs|
  {
    hide Inv, Step;
    if cs == [] {
      assert [] + [c] == [c] && [c][1..] == [];
      StepKeepsInv(env, w, c);
      assert Run(env, Step(env, w, c).w, []) == Step(env, w, c).w;
    } else {
      StepKeepsInv(env, w, cs[0]);
      RunLast(env, Step(env, w, cs[0]).w, cs[1..], c);
      assert (cs + [c])[0] == cs[0] && (cs + [c])[1..] == cs[1..] + [c];
    }
  }

  /** After any run every active operation goes back to the SignInit that started it, and
      every cached signature to a size query after that. */
  lemma {:induction false} RunKeepsExplained(env: Env, cs: seq<Call>)
    requires Inv(START)
    ensures Explained(env, cs, Run(env, START, cs))
    decreases |cs|
  {
    hide Step;
    if cs != [] {
      var front, last := cs[..|cs| - 1], cs[|cs| - 1];
      RunKeepsExplained(env, front);
      StepKeepsExplained(env, front, last);
      RunLast(env, START, front, last);
      assert front + [last] == cs;
    }
  }

  lemma SignatureNeedsSession(env: Env, w: World, c: Call, h: nat)
    requires Inv(w) && IsSignCall(c, h)
    requires Step(env, w, c).reply.Signed? && Step(env, w, c).reply.sig.Some?
    ensures HandleOpen(w, h)
  {
    hide Produce;
  }

  lemma SlotOk(w: World, i: nat)
    requires Inv(w) && i < |w.slots| && w.slots[i].Open?
    ensures var op := w.slots[i].op;
            op.Active? ==> op.obj < |w.objects| && RowOk(op.row, op.hashAlg, w.objects[op.obj].ktype)
  {
  }

  /** Call j of the run, after call i, was a size query of session h over these data, and k
      was the number of its second request. */
  ghost predicate AskedByQuery(env: Env, cs: seq<Call>, i: nat, j: nat, h: nat, data: seq<byte>, k: nat)
    requires Inv(START)
  {
    && i < j < |cs| && IsSignCall(cs[j], h) && !cs[j].arg.buffer
    && var w := Run(env, START, cs[..j]);
       data == InputOf(w, cs[j]) && k == |w.io.log| + 1
  }

  /** The data are those of call c and k is its second request; or both are those of the
      size query since call i that left a signature behind. */
  ghost predicate AskedBy(env: Env, cs: seq<Call>, i: nat, c: Call, h: nat, data: seq<byte>, k: nat)
    requires Inv(START) && IsSignCall(c, h)
  {
    var w := Run(env, START, cs);
    if CachedSig(w, h).None? then data == InputOf(w, c) && k == |w.io.log| + 1
    else exists j: nat :: AskedByQuery(env, cs, i, j, h, data, k)
  }

  /** Signing call c, after the run, was asked for this by the SignInit that is call i of
      the run, and the server did it. */
  ghost predicate SignedFor(env: Env, b: Backend, cs: seq<Call>, i: nat, c: Call, h: nat, want: Want, d: Deed)
    requires Inv(START) && IsSignCall(c, h)
  {
    && Started(env, cs, i, h)
    && var objects := Run(env, START, cs[..i]).objects;
    && 1 <= cs[i].key <= |objects| && want.o == objects[cs[i].key - 1] && want.mech == cs[i].mech.value
    && AskedBy(env, cs, i, c, h, want.data, d.k)
    && SignedThus(env, b, Step(env, Run(env, START, cs), c).w.io.log, want, d)
  }

  /** Meaning is kept end to end. After any run from the start, whenever a signing call
      returns a signature, a SignInit started the operation, and a request of the log asked
      for the digest intended for the data under the hash that the SignInit settled. The
      data are those of the call, or of the size query that left the signature behind. The
      store signed the digest with the key of the object that the SignInit named. And what
      it did is what the caller asked for exactly when that could be met: the key in the
      store has the type of the object, the store has the PSS parameter, and raw RSA data
      are a SHA-256 DigestInfo. */
  lemma EverySignatureAsMeant(env: Env, b: Backend, cs: seq<Call>, c: Call, h: nat)
    requires ServedBy(env, b) && DigestsOk(env)
    requires Inv(START)
    requires IsSignCall(c, h)
    requires Step(env, Run(env, START, cs), c).reply.Signed? && Step(env, Run(env, START, cs), c).reply.sig.Some?
    ensures exists i: nat, want: Want, d: Deed ::
              && SignedFor(env, b, cs, i, c, h, want, d)
              && Some(want.sig) == Step(env, Run(env, START, cs), c).reply.sig
              && (IsAsAsked(want, d) <==> CanBeMet(b, d.k, want))
  {
    hide Inv, Step, Run, Produce, StartedBy, CanBeMet, IsAsAsked, SignedThus, Started, AskedBy;
    var w := Run(env, START, cs);
    RunKeepsExplained(env, cs);
    SignatureNeedsSession(env, w, c, h);
    var s := FindSession(w.slots, h);
    assert SlotExplained(env, cs, w.objects, w.slots[s]);
    SignatureNeedsOperation(env, w, c, h);
    var i: nat :| StartedBy(env, cs, i, w.objects, w.slots[s]);
    var want, d := SignedByStart(env, b, cs, i, c, h);
    AskedExactly(env, b, Step(env, w, c).w.io.log, want, d);
  }

  lemma SignatureNeedsOperation(env: Env, w: World, c: Call, h: nat)
    requires Inv(w) && IsSignCall(c, h) && HandleOpen(w, h)
    requires Step(env, w, c).reply.Signed? && Step(env, w, c).reply.sig.Some?
    ensures w.slots[FindSession(w.slots, h)].op.Active?
  {
    hide Inv, Step, DoSign;
    SignCallIsDoSign(env, w, c, h);
    SlotOk(w, FindSession(w.slots, h));
    DoSignSource(env, w, FindSession(w.slots, h), InputOf(w, c), c.arg);
  }

  /** A signature that an explained operation hands out was made for its SignInit. */
  lemma SignedByStart(env: Env, b: Backend, cs: seq<Call>, i: nat, c: Call, h: nat) returns (want: Want, d: Deed)
    requires ServedBy(env, b) && DigestsOk(env)
    requires Inv(START) && IsSignCall(c, h)
    requires var w := Run(env, START, cs);
             var s := FindSession(w.slots, h);
             && Step(env, w, c).reply.Signed? && Step(env, w, c).reply.sig.Some?
             && s < |w.slots| && w.slots[s].op.Active? && StartedBy(env, cs, i, w.objects, w.slots[s])
    ensures SignedFor(env, b, cs, i, c, h, want, d)
    ensures Some(want.sig) == Step(env, Run(env, START, cs), c).reply.sig
  {
    hide Inv, Step, Run, Produce, SignedThus, DoSign, Started, RowOk, FixedNumber;
    var w := Run(env, START, cs);
    var s := FindSession(w.slots, h);
    SignCallIsDoSign(env, w, c, h);
    SlotOk(w, s);
    DoSignSource(env, w, s, InputOf(w, c), c.arg);
    StartedBefore(env, cs, i, h);
    var op, sig := w.slots[s].op, Step(env, w, c).reply.sig.value;
    var o, mech := w.objects[op.obj], cs[i].mech.value;
    assert CachedSig(w, h) == op.cached;
    if op.cached.None? {
      want := Want(o, mech, InputOf(w, c), sig);
      d := ProduceAsMeant(env, b, w.io, o, mech, op.row, op.hashAlg, InputOf(w, c));
    } else {
      var j: nat :| MadeByQuery(env, cs, i, j, h, o, op.row, op.hashAlg, sig);
      want, d := SignedByQuery(env, b, cs, i, j, h, o, mech, op.row, op.hashAlg, sig);
      StepLogGrows(env, w, c);
      LogMayGrow(env, b, w.io.log, Step(env, w, c).w.io.log, want, d);
      assert AskedByQuery(env, cs, i, j, h, want.data, d.k);
    }
  }

  /** A signature that a size query made, and its request in the log at the end of the run. */
  lemma SignedByQuery(
      env: Env, b: Backend, cs: seq<Call>, i: nat, j: nat, h: nat, o: KeyObject, mech: MechArg, row: MechRow,
      hashAlg: nat, sig: seq<byte>)
      returns (want: Want, d: Deed)
    requires ServedBy(env, b) && DigestsOk(env) && Inv(START)
    requires Settled(mech, row, hashAlg, o.ktype) && MadeByQuery(env, cs, i, j, h, o, row, hashAlg, sig)
    ensures want.o == o && want.mech == mech && want.sig == sig && AskedByQuery(env, cs, i, j, h, want.data, d.k)
    ensures SignedThus(env, b, Run(env, START, cs).io.log, want, d)
  {
    hide Inv, Step, Run, Produce, SignedThus, Settled;
    var w := Run(env, START, cs[..j]);
    want := Want(o, mech, InputOf(w, cs[j]), sig);
    d := ProduceAsMeant(env, b, w.io, o, mech, row, hashAlg, want.data);
    RunLogGrows(env, cs, j);
    LogMayGrow(env, b, Step(env, w, cs[j]).w.io.log, Run(env, START, cs).io.log, want, d);
  }

  // ----- a key of another type than the object -----

  /** The departure from the mechanism's scheme, at its input: the certificate of an object
      could not be read, so the object has the default type RSA, and its key in the store
      is an EC key. A caller who asks for CKM_SHA256_RSA_PKCS is not refused and gets the
      DER of an ECDSA signature. */
  lemma UnreadKeySignsWithEcdsa(
      env: Env, b: Backend, io: Ledger, info: KeyInfo, handle: nat, data: seq<byte>, i: nat, der: seq<byte>)
    requires ServedBy(env, b) && DigestsOk(env)
    requires info.key.NoKey? && Thumbprint.Normalize(info.thumbprint) != ""
    requires forall k | k in {|io.log|, |io.log| + 1} ::
               && FileStore.Lookup(b.idents(k), Thumbprint.Normalize(info.thumbprint)) == Some(i)
               && b.idents(k)[i].signer.EcKey?
               && b.sign(k)(b.idents(k)[i].signer, FileStore.EcdsaAsn1, Sha256, env.digest(Sha256, data)) == Some(der)
    requires 0 < |der| <= MAX_SIGNATURE && env.alloc(io.allocs) && env.alloc(io.allocs + 1)
    ensures var o, row := MakeObject(info, handle), MechOf(Sha256RsaPkcs).value;
            && MechOkFor(Sha256RsaPkcs, o.ktype)
            && Produce(env, io, o, row, Sha256.Number(), data).1 == Made(der)
            && SchemeOf(Sha256RsaPkcs) == FileStore.RsaPkcs1v15
  {
    hide FileStore.Lookup, Thumbprint.Normalize;
    var o, row := MakeObject(info, handle), MechOf(Sha256RsaPkcs).value;
    var r := Request(Thumbprint.Normalize(o.thumbprint), env.digest(Sha256, data), Sha256, Pkcs1);
    assert |env.digest(Sha256, data)| == Sha256.Size();
    forall k | k in {|io.log|, |io.log| + 1}
      ensures env.reply(k, r) == Some(der)
    {
      NumbersKeepMeaning(Sha256, Pkcs1);
      assert Serve(b, k, r) == FileStore.Success(FileStore.SignResult(der, FileStore.EcdsaAsn1, 1));
    }
    assert BuildDigest(env, io, row, 1, Rsa, data) == (io.(allocs := io.allocs + 1), Ready(r.digest, 1));
  }

  // ----- which refusals this layer can cause -----

  /** The exact requests that the server's length check refuses: none of a mechanism
      that hashes, a PSS digest of another length than its hash, raw ECDSA input that
      has no digest length, and no raw RSA request. */
  lemma LengthRefusals(env: Env, io: Ledger, row: MechRow, hashAlg: nat, o: KeyObject, data: seq<byte>)
    requires DigestsOk(env) && RowOk(row, hashAlg, o.ktype)
    requires BuildDigest(env, io, row, hashAlg, o.ktype, data).1.Ready?
    ensures var r := MakeRequest(o, BuildDigest(env, io, row, hashAlg, o.ktype, data).1, row.pss);
            |r.digest| != r.hash.Size() <==>
            && row.hash.None?
            && (if row.pss && hashAlg != 0 then |data| != HashFromInt(hashAlg).Size()
                else (row.pss || o.ktype == Ec) && |data| !in {32, 48, 64})
  {
    if row.hash.Some? {
      assert |env.digest(row.hash.value, data)| == row.hash.value.Size();
    } else if !row.pss && o.ktype == Rsa {
      DigestInfo.AcceptedMeans(data);
    } else {
      GuessIsRight(|data|);
    }
  }

  /** PSS is never asked of an EC object. The server refuses the padding exactly when PSS is
      asked of an object taken for RSA although the store's key is EC; without PSS it signs. */
  lemma PaddingRefusals(b: Backend, k: nat, row: MechRow, hashAlg: nat, o: KeyObject, p: Prepared)
    requires p.Ready? && RowOk(row, hashAlg, o.ktype)
    requires |p.digest| == HashFromInt(p.hashAlg).Size()
    requires Thumbprint.Normalize(o.thumbprint) != ""
    requires FileStore.Lookup(b.idents(k), Thumbprint.Normalize(o.thumbprint)).Some?
    ensures var r := MakeRequest(o, p, row.pss);
            var key := b.idents(k)[FileStore.Lookup(b.idents(k), r.thumbprint).value].signer;
            && (r.padding == Pss ==> o.ktype == Rsa)
            && (Serve(b, k, r) == FileStore.Failure(FileStore.InvalidPadding) <==> row.pss && key.EcKey?)
            && (key.EcKey? && o.ktype == Ec ==> Serve(b, k, r) != FileStore.Failure(FileStore.InvalidPadding))
  {
    hide FileStore.Lookup, Thumbprint.Normalize, FileStore.IsLookup;
  }

  /** The entries that the indexed gets answered, in order. */
  function Answered(answers: seq<Option<KeyInfo>>): seq<KeyInfo> {
    if answers == [] then []
    else
      var last := answers[|answers| - 1];
      Answered(answers[..|answers| - 1]) + if last.Some? then [last.value] else []
  }

  /** The object table holds one object for each answered entry, in order and under its
      thumbprint. Those of type EC are exactly those whose certificate has an EC key, so a
      certificate that cannot be read makes an object of type RSA. */
  lemma {:induction false} TypeComesFromCertificate(answers: seq<Option<KeyInfo>>)
    ensures var objs, infos := BuildObjects(answers), Answered(answers);
            && |objs| == |infos|
            && forall k | 0 <= k < |objs| ::
                 && objs[k].thumbprint == infos[k].thumbprint && objs[k].handle == k + 1
                 && (objs[k].ktype == Ec <==> infos[k].key.EcPublic?)
  {
    if answers != [] {
      TypeComesFromCertificate(answers[..|answers| - 1]);
    }
  }
}
