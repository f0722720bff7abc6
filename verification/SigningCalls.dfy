/**
 When a signing call makes a signature, stated from the mechanism, the data, the server's
 replies and the allocations, and which code it returns when it makes none.
 */
module SigningCalls {
  import opened Bytes
  import opened Hashes
  import opened Pkcs11
  import opened Runs
  import DigestInfo
  import opened EcdsaCodec
  import Thumbprint

  // ----- what is asked of the server -----

  /** The digest and hash that are sent. */
  datatype Plan = Plan(digest: seq<byte>, hash: Hash)

  /** The hash by its number where C_SignInit settled one, else by the length of the data. */
  function HashNumberFor(settled: nat, len: nat): nat {
    if settled != 0 then settled else if len == 48 then 2 else if len == 64 then 3 else 1
  }

  /** A mechanism with a hash of its own sends the hash of the data. Raw RSA sends a bare
      digest, or what follows a prefix of the module's table. Raw PSS and raw ECDSA send up
      to 64 bytes as they are. */
  predicate IsPlan(env: Env, m: Mechanism, settled: nat, data: seq<byte>, p: Plan) {
    match OwnHash(m)
    case Some(own) => p == Plan(env.digest(own, data), own)
    case None =>
      if m.RsaPkcs? then
        |p.digest| == p.hash.Size() && (data == p.digest || data == DigestInfo.LinuxPrefix(p.hash) + p.digest)
      else
        |data| <= 64 && p.digest == data && p.hash.Number() == HashNumberFor(settled, |data|)
  }

  /** Data that a mechanism cannot sign. */
  predicate DataRefused(m: Mechanism, data: seq<byte>) {
    match m
    case RsaPkcs =>
      && |data| !in {32, 48, 64}
      && forall h: Hash :: |data| == 19 + h.Size() ==> data[..19] != DigestInfo.LinuxPrefix(h)
    case RsaPkcsPss => |data| > 64
    case Ecdsa => |data| > 64
    case _ => false
  }

  function RequestFor(o: KeyObject, m: Mechanism, p: Plan): Request {
    Request(Thumbprint.Normalize(o.thumbprint), p.digest, p.hash, if IsPss(m) then Pss else Pkcs1)
  }

  // ----- what has to be in order -----

  /** The context of a hashing mechanism is allocated before the block for the signature. */
  function AllocOfBlock(io: Ledger, m: Mechanism): nat {
    io.allocs + if OwnHash(m).Some? then 1 else 0
  }

  predicate HashedInOrder(env: Env, io: Ledger, m: Mechanism) {
    OwnHash(m).Some? ==> env.alloc(io.allocs)
  }

  /** The reply that tells the length: there, not empty, and at most 1 MiB. */
  predicate LengthInOrder(first: Option<seq<byte>>) {
    first.Some? && 1 <= |first.value| <= 1048576
  }

  /** The reply that brings the bytes: there, and at most 64 bytes longer. */
  predicate BytesInOrder(first: Option<seq<byte>>, second: Option<seq<byte>>)
    requires first.Some?
  {
    second.Some? && |second.value| <= |first.value| + 64
  }

  /** raw is r and s, each as wide as a field of keySize bits, of the DER signature that der
      begins with. */
  predicate IsRawOf(der: seq<byte>, keySize: int, raw: seq<byte>) {
    var n := |raw| / 2;
    && |raw| == 2 * n && 8 * (n - 1) < keySize <= 8 * n
    && Encodable(Value(raw[..n]), Value(raw[n..]))
    && EncodeSignature(Value(raw[..n]), Value(raw[n..])) <= der
  }

  /** Every step of signing, in the order of the code. */
  ghost predicate InOrder(env: Env, io: Ledger, o: KeyObject, m: Mechanism, q: Request) {
    var first, second := env.reply(|io.log|, q), env.reply(|io.log| + 1, q);
    && HashedInOrder(env, io, m)
    && LengthInOrder(first)
    && env.alloc(AllocOfBlock(io, m))
    && BytesInOrder(first, second)
    && (IsEcMechanism(m) ==>
          && 1 <= o.keySize <= 1024
          && env.alloc(AllocOfBlock(io, m) + 1)
          && exists raw: seq<byte> :: IsRawOf(second.value, o.keySize, raw))
  }

  /** The signature of an RSA key is the second reply as it is. */
  predicate IsSignature(o: KeyObject, m: Mechanism, second: seq<byte>, sig: seq<byte>) {
    if IsEcMechanism(m) then IsRawOf(second, o.keySize, sig) else sig == second
  }

  /** The requests that are in the log afterwards. */
  function Asked(env: Env, io: Ledger, m: Mechanism, q: Request): seq<Request> {
    if !HashedInOrder(env, io, m) then []
    else if !LengthInOrder(env.reply(|io.log|, q)) || !env.alloc(AllocOfBlock(io, m)) then [q]
    else [q, q]
  }

  // ----- the parts of the code -----

  lemma FieldIsWidth(keySize: int)
    ensures 1 <= FieldBytes(keySize) <= 128 <==> 1 <= keySize <= 1024
    ensures keySize > 0 ==> 8 * (FieldBytes(keySize) - 1) < keySize <= 8 * FieldBytes(keySize)
  {
  }

  /** The number of bytes that holds so many bits is unique. */
  lemma WidthIsField(keySize: int, n: nat)
    requires keySize > 0
    ensures 8 * (n - 1) < keySize <= 8 * n <==> n == FieldBytes(keySize)
  {
    FieldIsWidth(keySize);
  }

  lemma RawIsUnpacked(der: seq<byte>, keySize: int, raw: seq<byte>)
    requires 1 <= keySize <= 1024
    ensures 1 <= FieldBytes(keySize)
    ensures IsRawOf(der, keySize, raw) <==> DerToRaw(der, FieldBytes(keySize)) == Some(raw)
  {
    hide DerToRaw, EncodeSignature, Encodable, FieldBytes;
    FieldIsWidth(keySize);
    WidthIsField(keySize, |raw| / 2);
    UnpackThenPack(der, FieldBytes(keySize), raw);
  }

  /** What can be unpacked at all is a DER signature. */
  lemma UnpackedIsDecoded(der: seq<byte>, n: nat)
    ensures DerToRaw(der, n).Some? ==> DecodeSignature(der).Got?
  {
  }

  lemma RefusedOrPlanned(env: Env, io: Ledger, row: MechRow, settled: nat, ktype: KeyType, data: seq<byte>)
    requires MechOf(row.mechanism) == Some(row) && MechOkFor(row.mechanism, ktype)
    requires row.hash.None? ==> settled <= if row.pss then 3 else 0
    requires row.hash.Some? ==> settled == row.hash.value.Number()
    ensures var (io', p) := BuildDigest(env, io, row, settled, ktype, data);
            && io'.log == io.log && io'.allocs == AllocOfBlock(io, row.mechanism)
            && (p == Refused(DataInvalid) <==> DataRefused(row.mechanism, data))
            && (p == Refused(FunctionFailed) <==> !HashedInOrder(env, io, row.mechanism))
            && (p.Refused? ==> p.rv in {DataInvalid, FunctionFailed})
            && (p.Ready? ==> IsPlan(env, row.mechanism, settled, data, Plan(p.digest, HashFromInt(p.hashAlg))))
  {
    var m := row.mechanism;
    if m.RsaPkcs? {
      RawRsaPlan(data);
    }
  }

  lemma RawRsaPlan(data: seq<byte>)
    ensures DigestInfo.LinuxDigest(data).None? <==> DataRefused(RsaPkcs, data)
    ensures var d := DigestInfo.LinuxDigest(data);
            d.Some? ==>
              && |d.value.bytes| == HashFromInt(d.value.hashAlg).Size()
              && (data == d.value.bytes
                  || data == DigestInfo.LinuxPrefix(HashFromInt(d.value.hashAlg)) + d.value.bytes)
  {
    if DigestInfo.LinuxDigest(data).Some? {
      DigestInfo.AcceptedMeans(data);
      var d := DigestInfo.LinuxDigest(data).value;
      var h: Hash :| d.hashAlg == h.Number() && |d.bytes| == h.Size()
                     && (data == d.bytes || data == DigestInfo.LinuxPrefix(h) + d.bytes);
      assert HashFromInt(d.hashAlg) == h;
      if data != d.bytes {
        assert data[..19] == DigestInfo.LinuxPrefix(h);
      }
    }
  }

  /** There is only one plan. */
  lemma PlanIsUnique(env: Env, m: Mechanism, settled: nat, data: seq<byte>, p: Plan, p': Plan)
    requires IsPlan(env, m, settled, data, p) && IsPlan(env, m, settled, data, p')
    ensures p == p'
  {
    if m.RsaPkcs? {
      assert p.hash.Size() == p'.hash.Size();
      assert data != p.digest ==> p.digest == data[19..];
      assert data != p'.digest ==> p'.digest == data[19..];
    }
  }

  lemma AskServerOutcome(env: Env, io: Ledger, q: Request)
    ensures var (io', made) := AskServer(env, io, q);
            var first, second := env.reply(|io.log|, q), env.reply(|io.log| + 1, q);
            && (made.Made? <==> LengthInOrder(first) && env.alloc(io.allocs) && BytesInOrder(first, second))
            && (made.Made? ==> Some(made.sig) == second && io'.allocs == io.allocs + 1)
            && (made.Failed? ==>
                  made.rv == if LengthInOrder(first) && !env.alloc(io.allocs) then HostMemory else FunctionFailed)
            && io'.log == io.log + if LengthInOrder(first) && env.alloc(io.allocs) then [q, q] else [q]
  {
    var first := env.reply(|io.log|, q);
    if LengthInOrder(first) && env.alloc(io.allocs) {
      assert io.log + [q] + [q] == io.log + [q, q];
    }
  }

  lemma ConvertOutcome(env: Env, io: Ledger, o: KeyObject, der: seq<byte>)
    ensures var (io', made) := ConvertSignature(env, io, o, der);
            && io'.log == io.log
            && (o.ktype == Rsa ==> made == Made(der))
            && (o.ktype == Ec ==>
                  && (made.Made? <==>
                        && 1 <= o.keySize <= 1024 && env.alloc(io.allocs)
                        && exists raw: seq<byte> :: IsRawOf(der, o.keySize, raw))
                  && (made.Made? ==> IsRawOf(der, o.keySize, made.sig))
                  && (made.Failed? ==> made.rv == FunctionFailed))
  {
    hide DerToRaw, DecodeSignature, IsRawOf, FieldBytes;
    var n := FieldBytes(o.keySize);
    FieldIsWidth(o.keySize);
    if o.ktype == Ec && 1 <= o.keySize <= 1024 {
      UnpackedIsDecoded(der, n);
      forall raw: seq<byte>
        ensures IsRawOf(der, o.keySize, raw) <==> DerToRaw(der, n) == Some(raw)
      {
        RawIsUnpacked(der, o.keySize, raw);
      }
      if DerToRaw(der, n).Some? {
        assert IsRawOf(der, o.keySize, DerToRaw(der, n).value);
      }
    }
  }

  /** A new signature, or the reason why there is none. */
  lemma ProduceOutcome(env: Env, io: Ledger, o: KeyObject, row: MechRow, settled: nat, data: seq<byte>, p: Plan)
    requires MechOf(row.mechanism) == Some(row) && MechOkFor(row.mechanism, o.ktype)
    requires row.hash.None? ==> settled <= if row.pss then 3 else 0
    requires row.hash.Some? ==> settled == row.hash.value.Number()
    requires !DataRefused(row.mechanism, data) ==> IsPlan(env, row.mechanism, settled, data, p)
    ensures var (io', made) := Produce(env, io, o, row, settled, data);
            var m := row.mechanism;
            var q := RequestFor(o, m, p);
            && (made == Failed(DataInvalid) <==> DataRefused(m, data))
            && (made.Made? <==> !DataRefused(m, data) && InOrder(env, io, o, m, q))
            && (made.Made? ==> IsSignature(o, m, env.reply(|io.log| + 1, q).value, made.sig))
            && (made == Failed(HostMemory) <==>
                  && !DataRefused(m, data) && HashedInOrder(env, io, m)
                  && LengthInOrder(env.reply(|io.log|, q)) && !env.alloc(AllocOfBlock(io, m)))
            && (made.Failed? ==> made.rv in {DataInvalid, HostMemory, FunctionFailed})
            && io'.log == io.log + if DataRefused(m, data) then [] else Asked(env, io, m, q)
  {
    hide BuildDigest, AskServer, ConvertSignature, DataRefused, IsPlan, IsRawOf, LengthInOrder, MechOf, MechOkFor,
         Thumbprint.Normalize, OwnHash, IsPss, IsEcMechanism;
    var m := row.mechanism;
    RefusedOrPlanned(env, io, row, settled, o.ktype, data);
    RowMeans(row, o.ktype);
    var (io1, ready) := BuildDigest(env, io, row, settled, o.ktype, data);
    if ready.Ready? {
      PlanIsUnique(env, m, settled, data, p, Plan(ready.digest, HashFromInt(ready.hashAlg)));
      var q := MakeRequest(o, ready, row.pss);
      assert q == RequestFor(o, m, p);
      AskServerOutcome(env, io1, q);
      var (io2, der) := AskServer(env, io1, q);
      if der.Made? {
        ConvertOutcome(env, io2, o, der.sig);
      }
    }
  }

  lemma RowMeans(row: MechRow, ktype: KeyType)
    requires MechOf(row.mechanism) == Some(row) && MechOkFor(row.mechanism, ktype)
    ensures row.pss == IsPss(row.mechanism) && row.hash == OwnHash(row.mechanism)
    ensures IsEcMechanism(row.mechanism) <==> ktype == Ec
  {
  }

  // ----- the signing calls -----

  /** The reply that hands a signature to the caller: its length where there is no buffer,
      a short buffer's refusal, or the bytes. */
  function HandedOver(sig: seq<byte>, arg: SigArg): Reply
    requires arg.len.Some?
  {
    if !arg.buffer then Signed(Ok, Some(|sig|), None)
    else if arg.len.value < |sig| then Signed(BufferTooSmall, Some(|sig|), None)
    else Signed(Ok, Some(|sig|), Some(sig))
  }

  /** A signing call that has a key, a mechanism and no signature yet succeeds exactly when
      its data can be signed and all that signing needs is in order; then it hands over the
      server's signature, for an EC key as raw r and s. A size query keeps that signature,
      every other call ends the operation. Otherwise the code tells why: the data, memory
      for the signature, or anything else. Its requests are in the log. */
  lemma SignOutcome(env: Env, w: World, c: Call, h: nat, p: Plan)
    requires Inv(w) && IsSignCall(c, h) && w.initialized && c.arg.len.Some?
    requires OpOf(w, h).Some? && OpOf(w, h).value.Active? && OpOf(w, h).value.cached.None?
    requires var op := OpOf(w, h).value;
             !DataRefused(op.row.mechanism, InputOf(w, c)) ==>
               IsPlan(env, op.row.mechanism, op.hashAlg, InputOf(w, c), p)
    ensures OpOf(w, h).value.obj < |w.objects|
    ensures var op, data, o := OpOf(w, h).value, InputOf(w, c), Step(env, w, c);
            var m, key := op.row.mechanism, w.objects[op.obj];
            var q := RequestFor(key, m, p);
            var refused, fits := DataRefused(m, data), InOrder(env, w.io, key, m, q);
            && (o.reply.Signed? && (o.reply.rv == DataInvalid <==> refused))
            && (o.reply.rv in {Ok, BufferTooSmall} <==> !refused && fits)
            && (o.reply.rv == HostMemory <==>
                  && !refused && HashedInOrder(env, w.io, m)
                  && LengthInOrder(env.reply(|w.io.log|, q)) && !env.alloc(AllocOfBlock(w.io, m)))
            && (o.reply.rv in {Ok, BufferTooSmall, DataInvalid, HostMemory, FunctionFailed})
            && (!refused && fits ==>
                  exists sig: seq<byte> ::
                    && IsSignature(key, m, env.reply(|w.io.log| + 1, q).value, sig)
                    && o.reply == HandedOver(sig, c.arg)
                    && OpOf(o.w, h) == Some(if c.arg.buffer then Idle else op.(cached := Some(sig))))
            && (refused || !fits ==> o.reply == Signed(o.reply.rv, None, None) && OpOf(o.w, h) == Some(Idle))
            && o.w.io.log == w.io.log + if refused then [] else Asked(env, w.io, m, q)
  {
    hide Produce, Inv, Step, DataRefused, IsPlan, InOrder, IsSignature, Asked, HashedInOrder, LengthInOrder, OpOk;
    var i := FindSession(w.slots, h);
    OpFacts(w, i);
    var op := w.slots[i].op;
    ProduceOutcome(env, w.io, w.objects[op.obj], op.row, op.hashAlg, InputOf(w, c), p);
    SignCallIsDoSign(env, w, c, h);
    SigningChangesOnlyOp(env, w, c);
    StepKeepsInv(env, w, c);
    OnlyOpFinds(w, Step(env, w, c).w, h);
    var (io, made) := Produce(env, w.io, w.objects[op.obj], op.row, op.hashAlg, InputOf(w, c));
    DoSignWithout(env, w, i, InputOf(w, c), c.arg);
  }

  lemma OpFacts(w: World, i: nat)
    requires Inv(w) && i < |w.slots| && w.slots[i].Open? && w.slots[i].op.Active?
    ensures var op := w.slots[i].op;
            && op.obj < |w.objects|
            && MechOf(op.row.mechanism) == Some(op.row) && MechOkFor(op.row.mechanism, w.objects[op.obj].ktype)
            && (op.row.hash.None? ==> op.hashAlg <= if op.row.pss then 3 else 0)
            && (op.row.hash.Some? ==> op.hashAlg == op.row.hash.value.Number())
  {
  }

  /** do_sign without a cached signature hands over what is made. */
  lemma DoSignWithout(env: Env, w: World, i: nat, data: seq<byte>, arg: SigArg)
    requires i < |w.slots| && w.slots[i].Open? && w.slots[i].op.Active? && w.slots[i].op.obj < |w.objects|
    requires w.slots[i].op.cached.None? && arg.len.Some?
    ensures var op, o := w.slots[i].op, DoSign(env, w, i, data, arg);
            var (io, made) := Produce(env, w.io, w.objects[op.obj], op.row, op.hashAlg, data);
            && |o.w.slots| == |w.slots| && o.w.slots[i].Open? && o.w.io == io
            && match made
               case Made(sig) =>
                 o.reply == HandedOver(sig, arg)
                 && o.w.slots[i].op == if arg.buffer then Idle else op.(cached := Some(sig))
               case Failed(rv) => o.reply == Signed(rv, None, None) && o.w.slots[i].op == Idle
  {
    hide Produce;
  }

  /** The checks before that, in order. */
  lemma SignChecks(env: Env, w: World, c: Call, h: nat)
    requires Inv(w) && IsSignCall(c, h)
    ensures var o := Step(env, w, c);
            && o.reply.Signed?
            && (o.reply.rv == NotInitialized <==> !w.initialized)
            && (o.reply.rv == SessionHandleInvalid <==> w.initialized && !HandleOpen(w, h))
            && (o.reply.rv == OperationNotInitialized <==> w.initialized && OpOf(w, h) == Some(Idle))
            && (o.reply.rv == ArgumentsBad <==>
                  && w.initialized && OpOf(w, h).Some? && OpOf(w, h).value.Active? && c.arg.len.None?)
            && (o.reply.rv in {NotInitialized, SessionHandleInvalid, OperationNotInitialized, ArgumentsBad} ==>
                  o == Outcome(w, Signed(o.reply.rv, None, None)))
  {
    hide DoSign, Inv;
    var i := FindSession(w.slots, h);
    SlotCount(w);
    if w.initialized && HandleOpen(w, h) {
      SignCallIsDoSign(env, w, c, h);
      DoSignChecks(env, w, i, InputOf(w, c), c.arg);
    }
  }

  lemma DoSignChecks(env: Env, w: World, i: nat, data: seq<byte>, arg: SigArg)
    requires Inv(w) && i < |w.slots| && w.slots[i].Open?
    ensures w.slots[i].op.Active? ==> w.slots[i].op.obj < |w.objects|
    ensures var o, op := DoSign(env, w, i, data, arg), w.slots[i].op;
            && o.reply.Signed?
            && o.reply.rv !in {NotInitialized, SessionHandleInvalid}
            && (o.reply.rv == OperationNotInitialized <==> op.Idle?)
            && (o.reply.rv == ArgumentsBad <==> op.Active? && arg.len.None?)
            && (op.Idle? || arg.len.None? ==> o == Outcome(w, Signed(o.reply.rv, None, None)))
  {
    hide Produce, OpOk, CapacityOk;
    var op := w.slots[i].op;
    if op.Active? {
      OpFacts(w, i);
      var made := Produce(env, w.io, w.objects[op.obj], op.row, op.hashAlg, data).1;
      if made.Failed? {
        FailureCodes(env, w.io, w.objects[op.obj], op.row, op.hashAlg, data);
      }
    }
  }
}
