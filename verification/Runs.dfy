/** Properties of whole runs of the module: sessions, signing and finding. */
module Runs {
  import opened Bytes
  import opened Hashes
  import opened Pkcs11

  // ----- sessions by handle -----

  predicate HandleOpen(w: World, h: nat) {
    FindSession(w.slots, h) < |w.slots|
  }

  /** The signing state of a session, or None when the handle is not open. */
  function OpOf(w: World, h: nat): Option<Op> {
    var i := FindSession(w.slots, h);
    if i < |w.slots| then Some(w.slots[i].op) else None
  }

  /** With distinct handles a session is found in the slot that holds it. */
  lemma FindsSlot(w: World, i: nat)
    requires Inv(w) && i < |w.slots| && w.slots[i].Open?
    ensures FindSession(w.slots, w.slots[i].handle) == i
  {
  }

  /** The session that a call names. */
  function SessionOf(c: Call): Option<nat> {
    match c
    case CloseSession(h) => Some(h)
    case SignInit(h, _, _) => Some(h)
    case Sign(h, _, _) => Some(h)
    case SignUpdate(h, _) => Some(h)
    case SignFinal(h, _) => Some(h)
    case FindObjectsInit(h, _) => Some(h)
    case FindObjects(h, _, _) => Some(h)
    case FindObjectsFinal(h) => Some(h)
    case _ => None
  }

  /** Calls that close every session when they succeed. */
  predicate ClosesAll(c: Call) {
    (c.CloseAllSessions? && c.slotId == 0) || (c.Finalize? && !c.reserved)
  }

  predicate IsSigningCall(c: Call) {
    c.SignInit? || c.Sign? || c.SignUpdate? || c.SignFinal?
  }

  predicate IsFindCall(c: Call) {
    c.FindObjectsInit? || c.FindObjects? || c.FindObjectsFinal?
  }

  /** At most the signing state of session h and the ledger differ. */
  ghost predicate OnlyOpChanged(w: World, w': World, h: nat) {
    && w' == w.(slots := w'.slots, io := w'.io)
    && |w'.slots| == |w.slots|
    && var i := FindSession(w.slots, h);
       forall k | 0 <= k < |w.slots| ::
         if k == i then w'.slots[k].Open? && w'.slots[k].handle == h else w'.slots[k] == w.slots[k]
  }

  lemma SetOpChangesOnlyOp(w: World, io: Ledger, i: nat, op: Op)
    requires i < |w.slots| && w.slots[i].Open? && FindSession(w.slots, w.slots[i].handle) == i
    ensures OnlyOpChanged(w, SetOp(w.(io := io), i, op), w.slots[i].handle)
  {
  }

  lemma DoSignChangesOnlyOp(env: Env, w: World, i: nat, data: seq<byte>, arg: SigArg)
    requires i < |w.slots| && w.slots[i].Open? && FindSession(w.slots, w.slots[i].handle) == i
    requires w.slots[i].op.Active? ==> w.slots[i].op.obj < |w.objects|
    ensures OnlyOpChanged(w, DoSign(env, w, i, data, arg).w, w.slots[i].handle)
  {
    hide Produce;
    var op := w.slots[i].op;
    if op.Active? && arg.len.Some? {
      var (io, p) := Produce(env, w.io, w.objects[op.obj], op.row, op.hashAlg, data);
      if op.cached.Some? {
        SetOpChangesOnlyOp(w, w.io, i, op.(cached := op.cached));
        SetOpChangesOnlyOp(w, w.io, i, Idle);
      } else {
        SetOpChangesOnlyOp(w, io, i, Idle);
        if p.Made? {
          SetOpChangesOnlyOp(w, io, i, op.(cached := Some(p.sig)));
        }
      }
    }
  }

  lemma SigningChangesOnlyOp(env: Env, w: World, c: Call)
    requires Inv(w) && IsSigningCall(c)
    ensures OnlyOpChanged(w, Step(env, w, c).w, SessionOf(c).value)
  {
    hide Produce, MechOf, MechOkFor, Double, InitialHashAlg, DoSign;
    var i := FindSession(w.slots, SessionOf(c).value);
    if w.initialized && i < |w.slots| {
      var op := w.slots[i].op;
      if c.Sign? {
        DoSignChangesOnlyOp(env, w, i, c.data, c.arg);
      } else if c.SignFinal? {
        DoSignChangesOnlyOp(env, w, i, if op.Active? then op.input else [], c.arg);
      } else {
        var w' := Step(env, w, c).w;
        assert |w'.slots| == |w.slots| && w'.slots[i].Open?;
        SetOpChangesOnlyOp(w, w'.io, i, w'.slots[i].op);
      }
    }
  }

  /** One step changes no slot but the one of the session it names, opens one closed
      slot under the next handle, or closes all of them. */
  lemma StepTouches(env: Env, w: World, c: Call, i: nat)
    requires Inv(w) && i < |w.slots|
    requires w.slots[i].Open? ==> SessionOf(c) != Some(w.slots[i].handle)
    ensures |Step(env, w, c).w.slots| == |w.slots|
    ensures var s := Step(env, w, c).w.slots[i];
            || s == w.slots[i]
            || (s.Closed? && (ClosesAll(c) || (c.Initialize? && !w.initialized)))
            || (w.slots[i].Closed? && c.OpenSession? && s == Open(w.nextHandle, Idle))
  {
    hide Inv;
    SlotCount(w);
    if IsSigningCall(c) {
      SigningChangesOnlyOp(env, w, c);
    } else if IsFindCall(c) {
      FindKeepsSlots(env, w, c);
    }
  }

  /** No step gives an open slot another handle, and a closed slot only the next one. */
  lemma HandlesStay(env: Env, w: World, c: Call, i: nat)
    requires Inv(w) && i < |w.slots|
    ensures |Step(env, w, c).w.slots| == |w.slots|
    ensures var s, s' := w.slots[i], Step(env, w, c).w.slots[i];
            s'.Open? ==> s'.handle == if s.Open? then s.handle else w.nextHandle
  {
    hide Inv;
    if IsSigningCall(c) {
      SigningChangesOnlyOp(env, w, c);
    } else if IsFindCall(c) {
      FindKeepsSlots(env, w, c);
    } else {
      SlotCount(w);
    }
  }

  lemma FindKeepsSlots(env: Env, w: World, c: Call)
    requires Inv(w) && IsFindCall(c)
    ensures Step(env, w, c).w.slots == w.slots && Step(env, w, c).w.objects == w.objects
  {
    hide MatchingHandles;
  }

  lemma SlotCount(w: World)
    requires Inv(w)
    ensures |w.slots| == MAX_SESSIONS && w.find.pos <= |w.find.handles|
    ensures forall k | 0 <= k < |w.objects| :: w.objects[k].handle == k + 1
  {
  }

  /** A handle that was given out and is no longer open never opens again. */
  lemma ClosedStep(env: Env, w: World, c: Call, h: nat)
    requires Inv(w) && h < w.nextHandle && !HandleOpen(w, h)
    ensures !HandleOpen(Step(env, w, c).w, h)
  {
    hide Inv, Step;
    var w' := Step(env, w, c).w;
    SlotCount(w);
    HandlesStay(env, w, c, 0);
    var i := FindSession(w'.slots, h);
    if i < |w'.slots| {
      HandlesStay(env, w, c, i);
    }
  }

  lemma {:induction false} ClosedForEver(env: Env, w: World, cs: seq<Call>, h: nat)
    requires Inv(w) && h < w.nextHandle && !HandleOpen(w, h)
    ensures !HandleOpen(Run(env, w, cs), h)
    decreases |cs|
  {
    if cs != [] {
      ClosedStep(env, w, cs[0], h);
      StepKeepsInv(env, w, cs[0]);
      ClosedForEver(env, Step(env, w, cs[0]).w, cs[1..], h);
    }
  }

  /** Every call that names a handle that is not open is refused and changes nothing. */
  lemma ClosedHandleRefused(env: Env, w: World, c: Call, h: nat)
    requires Inv(w) && SessionOf(c) == Some(h) && !HandleOpen(w, h)
    ensures Step(env, w, c).w == w
    ensures Step(env, w, c).reply.rv == if w.initialized then SessionHandleInvalid else NotInitialized
  {
    hide Produce, Inv;
    SlotCount(w);
  }

  /** A well-formed OpenSession is refused exactly when all 16 slots are open. Otherwise
      it gives out a handle never used before, whose session has no operation, wherever
      the slot was used before, and leaves every open session as it was. */
  lemma OpenGivesFreshSession(env: Env, w: World, h: nat)
    requires Inv(w) && w.initialized
    ensures var o := Step(env, w, OpenSession(0, false, true));
            && (o.reply == Status(SessionCount) <==> forall i | 0 <= i < |w.slots| :: w.slots[i].Open?)
            && (o.reply == Status(SessionCount) ==> o.w == w)
            && (o.reply != Status(SessionCount) ==>
                  && o.reply == Opened(Ok, w.nextHandle)
                  && !HandleOpen(w, w.nextHandle) && OpOf(o.w, w.nextHandle) == Some(Idle)
                  && (h != w.nextHandle ==> OpOf(o.w, h) == OpOf(w, h)))
  {
    var c := OpenSession(0, false, true);
    var o := Step(env, w, c);
    SessionCallsKeepInv(env, w, c);
    var i := FirstClosed(w.slots);
    if i < |w.slots| {
      FindsSlot(o.w, i);
      if HandleOpen(w, h) {
        FindsSlot(o.w, FindSession(w.slots, h));
      }
    }
  }

  // ----- operations across a run -----

  /** Calls that end a session's operation or close the session. */
  predicate Consumes(c: Call, h: nat) {
    || ClosesAll(c)
    || c == CloseSession(h)
    || (c.Sign? && c.session == h && c.arg.buffer && c.arg.len.Some?)
    || (c.SignFinal? && c.session == h && c.arg.buffer && c.arg.len.Some?)
  }

  /** The signature that a size query left behind in session h. */
  function CachedSig(w: World, h: nat): Option<seq<byte>> {
    match OpOf(w, h)
    case Some(Active(_, _, _, _, _, cached)) => cached
    case _ => None
  }

  /** A call that names another session, or none, and does not close h, leaves the
      whole operation of h alone. */
  lemma OtherCallsKeepOp(env: Env, w: World, c: Call, h: nat)
    requires Inv(w) && HandleOpen(w, h)
    requires SessionOf(c) != Some(h) && !ClosesAll(c)
    ensures OpOf(Step(env, w, c).w, h) == OpOf(w, h)
  {
    var i := FindSession(w.slots, h);
    StepTouches(env, w, c, i);
    StepKeepsInv(env, w, c);
    FindsSlot(Step(env, w, c).w, i);
  }

  lemma OnlyOpFinds(w: World, w': World, h: nat)
    requires Inv(w) && Inv(w') && HandleOpen(w, h) && OnlyOpChanged(w, w', h)
    ensures FindSession(w'.slots, h) == FindSession(w.slots, h)
  {
    FindsSlot(w', FindSession(w.slots, h));
  }

  /** A call that starts an operation or adds input caches no signature and drops none. */
  lemma PlainCallsCacheNothing(env: Env, w: World, c: Call, i: nat)
    requires Inv(w) && (c.SignInit? || c.SignUpdate?)
    requires i == FindSession(w.slots, SessionOf(c).value) < |w.slots|
    ensures var w' := Step(env, w, c).w;
            && |w'.slots| == |w.slots| && w'.slots[i].Open?
            && var op, op' := w.slots[i].op, w'.slots[i].op;
               || op' == op
               || (c.SignInit? && op.Idle? && op'.Active? && op'.cached.None?)
               || (op.Active? && op'.Active? && op' == op.(input := op'.input, cap := op'.cap))
  {
    hide Inv, MechOf, MechOkFor, InitialHashAlg, Double;
  }

  /** Without a buffer, or without a length pointer, a cached signature stays. */
  lemma IdleQueryKeepsOp(env: Env, w: World, i: nat, data: seq<byte>, arg: SigArg)
    requires i < |w.slots| && w.slots[i].Open? && w.slots[i].op.Active? && w.slots[i].op.obj < |w.objects|
    requires w.slots[i].op.cached.Some? && (!arg.buffer || arg.len.None?)
    ensures |DoSign(env, w, i, data, arg).w.slots| == |w.slots|
    ensures DoSign(env, w, i, data, arg).w.slots[i] == w.slots[i]
  {
    hide Produce;
  }

  /** Nothing but a consuming call touches a cached signature: not further input, not
      a new SignInit, not another size query with other data. */
  lemma CachedSurvivesStep(env: Env, w: World, c: Call, h: nat)
    requires Inv(w) && CachedSig(w, h).Some? && !Consumes(c, h)
    ensures CachedSig(Step(env, w, c).w, h) == CachedSig(w, h)
  {
    hide Inv, Step, DoSign;
    if SessionOf(c) != Some(h) {
      OtherCallsKeepOp(env, w, c, h);
    } else if IsSigningCall(c) {
      var i, w' := FindSession(w.slots, h), Step(env, w, c).w;
      SigningChangesOnlyOp(env, w, c);
      StepKeepsInv(env, w, c);
      OnlyOpFinds(w, w', h);
      if IsSignCall(c, h) {
        SignCallIsDoSign(env, w, c, h);
        ActiveHasObject(w, i);
        IdleQueryKeepsOp(env, w, i, InputOf(w, c), c.arg);
      } else {
        PlainCallsCacheNothing(env, w, c, i);
      }
    } else {
      FindKeepsSlots(env, w, c);
    }
  }

  lemma ActiveHasObject(w: World, i: nat)
    requires Inv(w) && i < |w.slots| && w.slots[i].Open? && w.slots[i].op.Active?
    ensures w.slots[i].op.obj < |w.objects|
  {
  }

  lemma {:induction false} CachedSurvivesRun(env: Env, w: World, cs: seq<Call>, h: nat)
    requires Inv(w) && CachedSig(w, h).Some?
    requires forall c | c in cs :: !Consumes(c, h)
    ensures CachedSig(Run(env, w, cs), h) == CachedSig(w, h)
    decreases |cs|
  {
    if cs != [] {
      CachedSurvivesStep(env, w, cs[0], h);
      StepKeepsInv(env, w, cs[0]);
      CachedSurvivesRun(env, Step(env, w, cs[0]).w, cs[1..], h);
    }
  }

  predicate IsSignCall(c: Call, h: nat) {
    (c.Sign? && c.session == h) || (c.SignFinal? && c.session == h)
  }

  /** The data a signing call signs. */
  function InputOf(w: World, c: Call): seq<byte>
    requires c.Sign? || c.SignFinal?
  {
    if c.Sign? then c.data
    else match OpOf(w, c.session) case Some(Active(_, _, _, input, _, _)) => input case _ => []
  }

  lemma SignCallIsDoSign(env: Env, w: World, c: Call, h: nat)
    requires Inv(w) && IsSignCall(c, h) && HandleOpen(w, h)
    ensures Step(env, w, c) == DoSign(env, w, FindSession(w.slots, h), InputOf(w, c), c.arg)
  {
  }

  lemma FailureCodes(env: Env, io: Ledger, o: KeyObject, row: MechRow, hashAlg: nat, data: seq<byte>)
    requires Produce(env, io, o, row, hashAlg, data).1.Failed?
    ensures Produce(env, io, o, row, hashAlg, data).1.rv in {FunctionFailed, HostMemory, DataInvalid}
  {
  }

  /** The operation and the reply after a signing call, by cases. */
  lemma DoSignCases(env: Env, w: World, i: nat, data: seq<byte>, arg: SigArg)
    requires i < |w.slots| && w.slots[i].Open? && w.slots[i].op.Active? && w.slots[i].op.obj < |w.objects|
    ensures var o := DoSign(env, w, i, data, arg);
            && |o.w.slots| == |w.slots| && o.w.slots[i].Open? && o.reply.Signed?
            && var op' := o.w.slots[i].op;
               if arg.len.None? then op' == w.slots[i].op && o.reply.rv == ArgumentsBad
               else if o.reply.rv == Ok && !arg.buffer then
                 op'.Active? && op'.cached.Some? && o.reply == Signed(Ok, Some(|op'.cached.value|), None)
               else op' == Idle && (o.reply.rv == BufferTooSmall ==> arg.buffer)
  {
    hide Produce;
    var op := w.slots[i].op;
    var (io, p) := Produce(env, w.io, w.objects[op.obj], op.row, op.hashAlg, data);
    if p.Failed? {
      FailureCodes(env, w.io, w.objects[op.obj], op.row, op.hashAlg, data);
    }
  }

  lemma SignCallOp(env: Env, w: World, c: Call, h: nat)
    requires Inv(w) && IsSignCall(c, h) && OpOf(w, h).Some? && OpOf(w, h).value.Active?
    ensures var o := Step(env, w, c);
            && OpOf(o.w, h).Some? && o.reply.Signed?
            && var op' := OpOf(o.w, h).value;
               if c.arg.len.None? then op' == OpOf(w, h).value && o.reply.rv == ArgumentsBad
               else if o.reply.rv == Ok && !c.arg.buffer then
                 op'.Active? && op'.cached.Some? && o.reply == Signed(Ok, Some(|op'.cached.value|), None)
               else op' == Idle && (o.reply.rv == BufferTooSmall ==> c.arg.buffer)
  {
    var i := FindSession(w.slots, h);
    SignCallIsDoSign(env, w, c, h);
    DoSignCases(env, w, i, InputOf(w, c), c.arg);
    SigningChangesOnlyOp(env, w, c);
    StepKeepsInv(env, w, c);
    OnlyOpFinds(w, Step(env, w, c).w, h);
  }

  /** A successful size query announces the length of the signature it caches. */
  lemma SizeQueryCaches(env: Env, w: World, c: Call, h: nat)
    requires Inv(w) && IsSignCall(c, h) && !c.arg.buffer
    requires Step(env, w, c).reply.Signed? && Step(env, w, c).reply.rv == Ok
    ensures CachedSig(Step(env, w, c).w, h).Some?
    ensures Step(env, w, c).reply == Signed(Ok, Some(|CachedSig(Step(env, w, c).w, h).value|), None)
  {
    SignCallOp(env, w, c, h);
  }

  /** What a signing call does once a signature is cached: no request, no allocation,
      no look at its data; the cached bytes if there is room for them. */
  lemma CachedIsDelivered(env: Env, w: World, c: Call, h: nat)
    requires Inv(w) && CachedSig(w, h).Some?
    requires IsSignCall(c, h) && c.arg.buffer && c.arg.len.Some?
    ensures var sig, o := CachedSig(w, h).value, Step(env, w, c);
            && o.reply == (if |sig| <= c.arg.len.value then Signed(Ok, Some(|sig|), Some(sig))
                           else Signed(BufferTooSmall, Some(|sig|), None))
            && o.w.io == w.io
            && OpOf(o.w, h) == Some(Idle)
  {
    SigningChangesOnlyOp(env, w, c);
    StepKeepsInv(env, w, c);
    OnlyOpFinds(w, Step(env, w, c).w, h);
  }

  /** After a successful size query the next consuming signing call with room enough
      returns exactly the announced length and exactly the signature of the query, and
      sends nothing, whatever happens in between short of ending the operation. */
  lemma SizeQueryThenSign(env: Env, w: World, query: Call, between: seq<Call>, c: Call, h: nat)
    requires Inv(w) && IsSignCall(query, h) && !query.arg.buffer
    requires Step(env, w, query).reply.Signed? && Step(env, w, query).reply.rv == Ok
    requires forall b | b in between :: !Consumes(b, h)
    requires IsSignCall(c, h) && c.arg.buffer && c.arg.len.Some?
    ensures Inv(Step(env, w, query).w)
    ensures var w1 := Step(env, w, query).w;
            var w2 := Run(env, w1, between);
            var o := Step(env, w2, c);
            && CachedSig(w1, h).Some?
            && Step(env, w, query).reply.len == Some(|CachedSig(w1, h).value|)
            && (|CachedSig(w1, h).value| <= c.arg.len.value ==>
                  o.reply == Signed(Ok, Step(env, w, query).reply.len, CachedSig(w1, h)))
            && (|CachedSig(w1, h).value| > c.arg.len.value ==>
                  o.reply == Signed(BufferTooSmall, Step(env, w, query).reply.len, None))
            && o.w.io == w2.io
  {
    StepKeepsInv(env, w, query);
    SizeQueryCaches(env, w, query, h);
    var w1 := Step(env, w, query).w;
    CachedSurvivesRun(env, w1, between, h);
    CachedIsDelivered(env, Run(env, w1, between), c, h);
  }

  // ----- what C_SignInit fixes -----

  /** The hash that a mechanism applies to its input itself. */
  function OwnHash(m: Mechanism): Option<Hash> {
    match m
    case Sha256RsaPkcs => Some(Sha256)
    case Sha384RsaPkcs => Some(Sha384)
    case Sha512RsaPkcs => Some(Sha512)
    case Sha256RsaPkcsPss => Some(Sha256)
    case Sha384RsaPkcsPss => Some(Sha384)
    case Sha512RsaPkcsPss => Some(Sha512)
    case EcdsaSha256 => Some(Sha256)
    case EcdsaSha384 => Some(Sha384)
    case EcdsaSha512 => Some(Sha512)
    case _ => None
  }

  predicate IsPss(m: Mechanism) {
    m.RsaPkcsPss? || m.Sha256RsaPkcsPss? || m.Sha384RsaPkcsPss? || m.Sha512RsaPkcsPss?
  }

  /** The hash that a PSS parameter names, if it is one that the server knows. */
  function NamedHash(hashAlg: nat): Option<Hash> {
    if hashAlg == CKM_SHA256 then Some(Sha256)
    else if hashAlg == CKM_SHA384 then Some(Sha384)
    else if hashAlg == CKM_SHA512 then Some(Sha512)
    else None
  }

  /** The hash that is settled before any data is seen: the mechanism's own; for raw PSS
      with a parameter the one that it names, and SHA-256 for every other number; none
      where the length of the digest will decide. */
  function FixedHash(mech: MechArg): Option<Hash> {
    if !mech.mechanism.RsaPkcsPss? then OwnHash(mech.mechanism)
    else if mech.param.NoParam? then None
    else if NamedHash(mech.param.hashAlg).Some? then NamedHash(mech.param.hashAlg)
    else Some(Sha256)
  }

  /** That hash by its number; 0 is none. */
  function FixedNumber(mech: MechArg): nat {
    match FixedHash(mech) case Some(h) => h.Number() case None => 0
  }

  lemma InitialIsFixed(mech: MechArg)
    requires MechOf(mech.mechanism).Some?
    ensures var row := MechOf(mech.mechanism).value;
            && row.hash == OwnHash(mech.mechanism) && row.pss == IsPss(mech.mechanism)
            && InitialHashAlg(row, mech.param) == FixedNumber(mech)
  {
  }

  /** SignInit succeeds exactly for an open session without an operation, an object of
      the table, and a mechanism of the table that is for that object's type of key; the
      operation then has that key, that mechanism with its own hash and padding, the hash
      that mechanism and parameter settle, and no input. It fails without effect. */
  lemma SignInitMeaning(env: Env, w: World, h: nat, mech: Option<MechArg>, key: nat)
    requires Inv(w)
    ensures var o := Step(env, w, SignInit(h, mech, key));
            && (o.reply == Status(Ok) <==>
                  && w.initialized && OpOf(w, h) == Some(Idle) && 1 <= key <= |w.objects|
                  && mech.Some? && MechOkFor(mech.value.mechanism, w.objects[key - 1].ktype))
            && (o.reply != Status(Ok) ==> o.w == w)
            && (o.reply == Status(Ok) ==>
                  && OpOf(o.w, h).Some? && OpOf(o.w, h).value.Active?
                  && var op := OpOf(o.w, h).value;
                     && op.obj + 1 == key && w.objects[op.obj].handle == key
                     && op.row == MechRow(mech.value.mechanism, OwnHash(mech.value.mechanism),
                         IsPss(mech.value.mechanism))
                     && op.hashAlg == FixedNumber(mech.value)
                     && op.input == [] && op.cached.None?)
  {
    hide InitialHashAlg, MechOf, MechOkFor, Inv, OwnHash, IsPss, FixedNumber;
    SlotCount(w);
    if mech.Some? && MechOf(mech.value.mechanism).Some? {
      InitialIsFixed(mech.value);
    }
    var c := SignInit(h, mech, key);
    var o := Step(env, w, c);
    EveryMechanismHasRow(mech);
    if o.reply == Status(Ok) {
      SigningChangesOnlyOp(env, w, c);
      SignInitKeepsInv(w, h, mech, key);
      OnlyOpFinds(w, o.w, h);
    }
  }

  /** The PSS parameter has no other effect: where SignInit succeeds, two parameters have
      the same outcome exactly when they settle the same hash. */
  lemma ParameterOnlyNamesHash(env: Env, w: World, h: nat, m: Mechanism, p: PssParam, q: PssParam, key: nat)
    requires Inv(w) && Step(env, w, SignInit(h, Some(MechArg(m, p)), key)).reply == Status(Ok)
    ensures Step(env, w, SignInit(h, Some(MechArg(m, p)), key)) == Step(env, w, SignInit(h, Some(MechArg(m, q)), key))
            <==> FixedHash(MechArg(m, p)) == FixedHash(MechArg(m, q))
  {
    hide MechOf, MechOkFor, Inv, InitialHashAlg, OwnHash;
    InitialIsFixed(MechArg(m, p));
    InitialIsFixed(MechArg(m, q));
    var i := FindSession(w.slots, h);
    var a, b := Step(env, w, SignInit(h, Some(MechArg(m, p)), key)).w,
        Step(env, w, SignInit(h, Some(MechArg(m, q)), key)).w;
    assert a == b ==> a.slots[i].op.hashAlg == b.slots[i].op.hashAlg;
  }

  /** A caller who asks raw PSS for SHA-512/256 is not refused but gets the operation of
      one who asks for SHA-256, whatever mask generation and salt either asks for. */
  lemma UnknownHashBecomesSha256(env: Env, w: World, h: nat, key: nat, p: PssParam, q: PssParam)
    requires Inv(w) && p.Param? && p.hashAlg == CKM_SHA512_256 && q.Param? && q.hashAlg == CKM_SHA256
    ensures Step(env, w, SignInit(h, Some(MechArg(RsaPkcsPss, p)), key))
            == Step(env, w, SignInit(h, Some(MechArg(RsaPkcsPss, q)), key))
    ensures w.initialized && OpOf(w, h) == Some(Idle) && 1 <= key <= |w.objects| && w.objects[key - 1].ktype == Rsa ==>
              Step(env, w, SignInit(h, Some(MechArg(RsaPkcsPss, p)), key)).reply == Status(Ok)
  {
    hide Inv;
    SignInitMeaning(env, w, h, Some(MechArg(RsaPkcsPss, p)), key);
  }

  /** Every mechanism that some type of key allows is in the table under its name. */
  lemma EveryMechanismHasRow(mech: Option<MechArg>)
    ensures mech.Some? ==>
              forall t :: MechOkFor(mech.value.mechanism, t) ==>
                MechOf(mech.value.mechanism).Some?
                    && MechOf(mech.value.mechanism).value.mechanism == mech.value.mechanism
  {
  }

  /** A signing call on an active operation leaves it active exactly after a
      successful size query or a null length pointer; a short buffer ends it. */
  lemma SigningEndsOperation(env: Env, w: World, c: Call, h: nat)
    requires Inv(w) && IsSignCall(c, h)
    requires OpOf(w, h).Some? && OpOf(w, h).value.Active?
    ensures var o := Step(env, w, c);
            && OpOf(o.w, h).Some? && o.reply.Signed?
            && (OpOf(o.w, h).value.Active? <==> c.arg.len.None? || (!c.arg.buffer && o.reply.rv == Ok))
            && (o.reply.rv == BufferTooSmall ==> OpOf(o.w, h).value == Idle)
  {
    SignCallOp(env, w, c, h);
  }

  /** Sections 5.2 and 5.11 of PKCS#11 v2.40 keep the operation active after a short
      buffer so that the caller can try again. Here trying again always fails. */
  lemma RetryAfterShortBufferFails(env: Env, w: World, c: Call, again: Call, h: nat)
    requires Inv(w) && IsSignCall(c, h) && IsSignCall(again, h)
    requires Step(env, w, c).reply.Signed? && Step(env, w, c).reply.rv == BufferTooSmall
    ensures Inv(Step(env, w, c).w)
    ensures Step(env, Step(env, w, c).w, again).reply == Signed(OperationNotInitialized, None, None)
  {
    hide Inv, Step;
    StepKeepsInv(env, w, c);
    ShortBufferWasActive(env, w, c, h);
    SigningEndsOperation(env, w, c, h);
    IdleSignFails(env, Step(env, w, c).w, again, h);
  }

  lemma ShortBufferWasActive(env: Env, w: World, c: Call, h: nat)
    requires Inv(w) && IsSignCall(c, h)
    requires Step(env, w, c).reply.Signed? && Step(env, w, c).reply.rv == BufferTooSmall
    ensures OpOf(w, h).Some? && OpOf(w, h).value.Active?
  {
    hide Produce;
  }

  lemma IdleSignFails(env: Env, w: World, c: Call, h: nat)
    requires Inv(w) && IsSignCall(c, h) && OpOf(w, h) == Some(Idle)
    ensures Step(env, w, c).reply == Signed(OperationNotInitialized, None, None)
  {
    hide Produce;
  }
}
