/** What the other entry points do, each by its exact conditions and by what can be seen. */
module EntryPoints {
  import opened Bytes
  import opened Pkcs11
  import opened Runs

  // ----- what can be seen of the sessions -----

  /** The number of open slots. */
  function OpenCount(slots: seq<Slot>): nat {
    if slots == [] then 0 else (if slots[0].Open? then 1 else 0) + OpenCount(slots[1..])
  }

  lemma {:induction false} CountAfter(slots: seq<Slot>, i: nat, s: Slot)
    requires i < |slots|
    ensures OpenCount(slots[i := s]) + (if slots[i].Open? then 1 else 0) == OpenCount(slots) + if s.Open? then 1 else 0
  {
    if i == 0 {
      assert slots[0 := s][1..] == slots[1..];
    } else {
      CountAfter(slots[1..], i - 1, s);
      assert slots[i := s][1..] == slots[1..][i - 1 := s];
    }
  }

  lemma {:induction false} CountNone(slots: seq<Slot>)
    requires forall i | 0 <= i < |slots| :: slots[i].Closed?
    ensures OpenCount(slots) == 0
  {
    if slots != [] {
      CountNone(slots[1..]);
    }
  }

  lemma {:induction false} CountIsFull(slots: seq<Slot>)
    ensures OpenCount(slots) <= |slots|
    ensures OpenCount(slots) == |slots| <==> forall i | 0 <= i < |slots| :: slots[i].Open?
  {
    if slots != [] {
      CountIsFull(slots[1..]);
      assert slots == [slots[0]] + slots[1..];
    }
  }

  /** No session is open. */
  ghost predicate NothingOpen(w: World) {
    forall h: nat :: !HandleOpen(w, h)
  }

  lemma AllClosedOpensNothing(w: World)
    requires w.slots == AllClosed()
    ensures NothingOpen(w) && OpenCount(w.slots) == 0
  {
    CountNone(w.slots);
  }

  // ----- opening and closing -----

  /** C_OpenSession: its refusals in order. It succeeds exactly for slot 0, a place to put
      the handle, an initialised module, a read-only session and fewer than 16 sessions. */
  lemma OpenOutcome(env: Env, w: World, slotId: nat, readWrite: bool, hasOut: bool)
    requires Inv(w)
    ensures var o := Step(env, w, OpenSession(slotId, readWrite, hasOut));
            && (o.reply.Opened? <==>
                  slotId == 0 && hasOut && w.initialized && !readWrite && OpenCount(w.slots) < 16)
            && (o.reply.Opened? ==>
                  && o.reply == Opened(Ok, w.nextHandle)
                  && o.w == w.(slots := o.w.slots, nextHandle := w.nextHandle + 1)
                  && OpenCount(o.w.slots) == OpenCount(w.slots) + 1)
            && (!o.reply.Opened? ==>
                  && o == Outcome(w, Status(o.reply.rv))
                  && (o.reply.rv == SlotIdInvalid <==> slotId != 0)
                  && (o.reply.rv == ArgumentsBad <==> slotId == 0 && !hasOut)
                  && (o.reply.rv == NotInitialized <==> slotId == 0 && hasOut && !w.initialized)
                  && (o.reply.rv == SessionReadOnly <==> slotId == 0 && hasOut && w.initialized && readWrite)
                  && (o.reply.rv == SessionCount <==> slotId == 0 && hasOut && w.initialized && !readWrite))
  {
    hide Inv;
    SlotCount(w);
    CountIsFull(w.slots);
    var i := FirstClosed(w.slots);
    if i < |w.slots| {
      CountAfter(w.slots, i, Open(w.nextHandle, Idle));
    }
  }

  /** C_CloseSession replies Ok exactly for an open handle of an initialised module. Then
      that handle is not open any more, every other session is as it was, and one slot more
      is free. */
  lemma CloseOutcome(env: Env, w: World, h: nat, other: nat)
    requires Inv(w)
    ensures var o := Step(env, w, CloseSession(h));
            && (o.reply == Status(Ok) <==> w.initialized && HandleOpen(w, h))
            && (o.reply == Status(Ok) ==>
                  && !HandleOpen(o.w, h)
                  && (other != h ==> OpOf(o.w, other) == OpOf(w, other))
                  && OpenCount(o.w.slots) + 1 == OpenCount(w.slots)
                  && o.w == w.(slots := o.w.slots))
            && (o.reply != Status(Ok) ==>
                  o == Outcome(w, Status(if w.initialized then SessionHandleInvalid else NotInitialized)))
  {
    var c := CloseSession(h);
    var o := Step(env, w, c);
    SessionCallsKeepInv(env, w, c);
    var i := FindSession(w.slots, h);
    if w.initialized && i < |w.slots| {
      CountAfter(w.slots, i, Closed);
      if HandleOpen(w, other) && other != h {
        FindsSlot(o.w, FindSession(w.slots, other));
      } else if HandleOpen(o.w, other) {
        FindsSlot(w, FindSession(o.w.slots, other));
      }
    }
  }

  /** C_CloseAllSessions replies Ok exactly for slot 0 of an initialised module; then no
      session is open and nothing else has changed. */
  lemma CloseAllOutcome(env: Env, w: World, slotId: nat)
    requires Inv(w)
    ensures var o := Step(env, w, CloseAllSessions(slotId));
            && (o.reply == Status(Ok) <==> slotId == 0 && w.initialized)
            && (o.reply == Status(Ok) ==>
                  NothingOpen(o.w) && OpenCount(o.w.slots) == 0 && o.w == w.(slots := o.w.slots))
            && (o.reply != Status(Ok) ==>
                  o == Outcome(w, Status(if slotId != 0 then SlotIdInvalid else NotInitialized)))
  {
    hide Inv;
    var o := Step(env, w, CloseAllSessions(slotId));
    if slotId == 0 && w.initialized {
      AllClosedOpensNothing(o.w);
    }
  }

  /** C_Finalize replies Ok exactly without a reserved argument, even to a module that was
      not initialised; then no session is open and there is no object, while the search
      and the next handle stay. */
  lemma FinalizeOutcome(env: Env, w: World, reserved: bool)
    requires Inv(w)
    ensures var o := Step(env, w, Finalize(reserved));
            && (o.reply == Status(Ok) <==> !reserved)
            && (o.reply == Status(Ok) ==>
                  && NothingOpen(o.w) && OpenCount(o.w.slots) == 0 && o.w.objects == [] && !o.w.initialized
                  && o.w == w.(initialized := false, objects := [], slots := o.w.slots))
            && (o.reply != Status(Ok) ==> o == Outcome(w, Status(ArgumentsBad)))
  {
    hide Inv;
    var o := Step(env, w, Finalize(reserved));
    if !reserved {
      AllClosedOpensNothing(o.w);
    }
  }

  predicate Closes(c: Call, h: nat) {
    c == CloseSession(h) || c.CloseAllSessions? || c.Finalize?
  }

  /** A handle that was given out is dead after a successful close: after any further
      calls, whatever they open, finalize or initialise, every call with it is refused and
      changes nothing. */
  lemma ClosedIsRefusedForEver(env: Env, w: World, c: Call, h: nat, cs: seq<Call>, later: Call)
    requires Inv(w) && h < w.nextHandle && Closes(c, h) && Step(env, w, c).reply == Status(Ok)
    requires SessionOf(later) == Some(h)
    ensures Inv(Step(env, w, c).w)
    ensures var w' := Run(env, Step(env, w, c).w, cs);
            Step(env, w', later).w == w'
            && Step(env, w', later).reply.rv == if w'.initialized then SessionHandleInvalid else NotInitialized
  {
    hide Inv, Step, Run;
    StepKeepsInv(env, w, c);
    match c {
      case CloseSession(_) => CloseOutcome(env, w, h, h);
      case CloseAllSessions(slotId) => CloseAllOutcome(env, w, slotId);
      case Finalize(reserved) => FinalizeOutcome(env, w, reserved);
      case _ =>
    }
    var w1 := Step(env, w, c).w;
    ClosedForEver(env, w1, cs, h);
    ClosedHandleRefused(env, Run(env, w1, cs), later, h);
  }

  // ----- initialising -----

  /** C_Initialize: its refusals in order. It succeeds exactly for a module that is not
      initialised, without a reserved argument, with the bridge up and memory for the table;
      then no session is open and the table holds the objects of the answers. */
  lemma InitializeOutcome(env: Env, w: World, reserved: bool, bridgeUp: bool, answers: seq<Option<KeyInfo>>)
    requires Inv(w)
    ensures var o := Step(env, w, Initialize(reserved, bridgeUp, answers));
            var room := answers == [] || env.alloc(w.io.allocs);
            && (o.reply == Status(Ok) <==> !w.initialized && !reserved && bridgeUp && room)
            && (o.reply == Status(Ok) ==>
                  && o.w.initialized && NothingOpen(o.w) && o.w.objects == BuildObjects(answers)
                  && o.w.find == w.find && o.w.nextHandle == w.nextHandle && o.w.io.log == w.io.log)
            && (o.reply != Status(Ok) ==>
                  && o.w == w.(io := o.w.io) && o.w.io.log == w.io.log
                  && (o.reply == Status(AlreadyInitialized) <==> w.initialized)
                  && (o.reply == Status(ArgumentsBad) <==> !w.initialized && reserved)
                  && (o.reply == Status(DeviceError) <==> !w.initialized && !reserved && !bridgeUp)
                  && (o.reply == Status(HostMemory) <==> !w.initialized && !reserved && bridgeUp))
  {
    hide BuildObjects;
    var o := Step(env, w, Initialize(reserved, bridgeUp, answers));
    BuildNothing();
    if o.reply == Status(Ok) {
      AllClosedOpensNothing(o.w);
    }
  }

  lemma BuildNothing()
    ensures BuildObjects([]) == []
  {
  }

  // ----- starting and feeding an operation -----

  /** Which mechanisms C_SignInit takes for which type of key. */
  lemma MechanismsOfKeys(m: Mechanism)
    ensures MechOkFor(m, Rsa) <==>
            m in {RsaPkcs, Sha256RsaPkcs, Sha384RsaPkcs, Sha512RsaPkcs,
                  RsaPkcsPss, Sha256RsaPkcsPss, Sha384RsaPkcsPss, Sha512RsaPkcsPss}
    ensures MechOkFor(m, Ec) <==> m in {Ecdsa, EcdsaSha256, EcdsaSha384, EcdsaSha512}
  {
  }

  /** The refusals of C_SignInit, in order. */
  lemma SignInitRefusals(env: Env, w: World, h: nat, mech: Option<MechArg>, key: nat)
    requires Inv(w)
    ensures var rv := Step(env, w, SignInit(h, mech, key)).reply.rv;
            var named := 1 <= key <= |w.objects|;
            && (rv == NotInitialized <==> !w.initialized)
            && (rv == SessionHandleInvalid <==> w.initialized && !HandleOpen(w, h))
            && (rv == KeyHandleInvalid <==> w.initialized && HandleOpen(w, h) && !named)
            && (rv == ArgumentsBad <==> w.initialized && HandleOpen(w, h) && named && mech.None?)
            && (rv == OperationActive <==>
                  w.initialized && HandleOpen(w, h) && named && mech.Some? && OpOf(w, h) != Some(Idle))
            && (rv == MechanismInvalid <==>
                  && w.initialized && named && mech.Some? && OpOf(w, h) == Some(Idle)
                  && !MechOkFor(mech.value.mechanism, w.objects[key - 1].ktype))
  {
    hide Inv, MechOf, MechOkFor, InitialHashAlg;
    EveryMechanismHasRow(mech);
  }

  /** C_SignUpdate succeeds exactly for an active operation, with memory if the part does
      not fit. Then the part is behind the input and nothing else of the operation that can
      be signed has changed. A failure changes nothing but the count of allocations. */
  lemma SignUpdateOutcome(env: Env, w: World, h: nat, part: seq<byte>)
    requires Inv(w)
    ensures var o := Step(env, w, SignUpdate(h, part));
            var active := w.initialized && OpOf(w, h).Some? && OpOf(w, h).value.Active?;
            var room := active ==>
              |OpOf(w, h).value.input| + |part| <= OpOf(w, h).value.cap || env.alloc(w.io.allocs);
            && (o.reply == Status(Ok) <==> active && room)
            && (o.reply == Status(Ok) ==>
                  && OpOf(o.w, h).Some? && OpOf(o.w, h).value.Active?
                  && var op, op' := OpOf(w, h).value, OpOf(o.w, h).value;
                     && op' == op.(input := op.input + part, cap := op'.cap)
                     && CapacityOk(op'.cap, |op'.input|) && op'.cap >= op.cap)
            && (o.reply != Status(Ok) ==> o.w == w.(io := o.w.io))
            && (o.w.io.log == w.io.log)
            && (o.reply == Status(NotInitialized) <==> !w.initialized)
            && (o.reply == Status(SessionHandleInvalid) <==> w.initialized && !HandleOpen(w, h))
            && (o.reply == Status(OperationNotInitialized) <==> w.initialized && OpOf(w, h) == Some(Idle))
            && (o.reply == Status(HostMemory) <==> active && !room)
  {
    hide Inv, Double, CapacityOk;
    var c := SignUpdate(h, part);
    var o := Step(env, w, c);
    var i := FindSession(w.slots, h);
    if o.reply == Status(Ok) {
      SigningChangesOnlyOp(env, w, c);
      StepKeepsInv(env, w, c);
      OnlyOpFinds(w, o.w, h);
      CapacityOfSlot(o.w, i);
    }
  }

  lemma CapacityOfSlot(w: World, i: nat)
    requires Inv(w) && i < |w.slots| && w.slots[i].Open? && w.slots[i].op.Active?
    ensures CapacityOk(w.slots[i].op.cap, |w.slots[i].op.input|)
  {
  }

  // ----- finding -----

  /** C_FindObjectsInit succeeds exactly in an open session without a search under way, with
      memory if there are objects; then a search stands before the first match. */
  lemma FindInitOutcome(env: Env, w: World, h: nat, template: seq<Attr>)
    requires Inv(w)
    ensures var o := Step(env, w, FindObjectsInit(h, template));
            var ready := w.initialized && HandleOpen(w, h);
            var room := w.objects == [] || env.alloc(w.io.allocs);
            && (o.reply == Status(Ok) <==> ready && !w.find.active && room)
            && (o.reply == Status(Ok) ==>
                  o.w == w.(find := Find(true, MatchingHandles(w.objects, template), 0), io := o.w.io))
            && (o.reply == Status(OperationActive) <==> ready && w.find.active)
            && (o.reply == Status(HostMemory) <==> ready && !w.find.active && !room)
            && (o.reply == Status(HostMemory) ==> !o.w.find.active && o.w == w.(find := o.w.find, io := o.w.io))
            && (o.reply == Status(NotInitialized) <==> !w.initialized)
            && (o.reply == Status(SessionHandleInvalid) <==> w.initialized && !HandleOpen(w, h))
            && (o.reply.rv !in {Ok, HostMemory} ==> o.w == w)
  {
    hide Inv, MatchingHandles;
    MatchNothing(template);
  }

  lemma MatchNothing(template: seq<Attr>)
    ensures MatchingHandles([], template) == []
  {
  }

  /** C_FindObjects succeeds exactly in an open session with a search under way and a place
      for the handles; then it hands out the next ones, as many as are left or asked for,
      and the search goes on behind them. A failure changes nothing. */
  lemma FindOutcome(env: Env, w: World, h: nat, hasOut: bool, max: nat)
    requires Inv(w)
    ensures w.find.pos <= |w.find.handles|
    ensures var o := Step(env, w, FindObjects(h, hasOut, max));
            var ready := w.initialized && HandleOpen(w, h);
            var left := w.find.handles[w.find.pos..];
            && (o.reply.Found? <==> ready && w.find.active && hasOut)
            && (o.reply.Found? ==>
                  && o.reply.rv == Ok
                  && o.reply.handles <= left && |o.reply.handles| <= max
                  && (|o.reply.handles| == max || o.reply.handles == left)
                  && o.w == w.(find := w.find.(pos := w.find.pos + |o.reply.handles|)))
            && (!o.reply.Found? ==>
                  && o == Outcome(w, Status(o.reply.rv))
                  && (o.reply.rv == NotInitialized <==> !w.initialized)
                  && (o.reply.rv == SessionHandleInvalid <==> w.initialized && !HandleOpen(w, h))
                  && (o.reply.rv == OperationNotInitialized <==> ready && !w.find.active)
                  && (o.reply.rv == ArgumentsBad <==> ready && w.find.active))
  {
    hide Inv;
    SlotCount(w);
  }

  /** C_FindObjectsFinal succeeds exactly in an open session, with or without a search; then
      none is under way and nothing else has changed. */
  lemma FindFinalOutcome(env: Env, w: World, h: nat)
    requires Inv(w)
    ensures var o := Step(env, w, FindObjectsFinal(h));
            && (o.reply == Status(Ok) <==> w.initialized && HandleOpen(w, h))
            && (o.reply == Status(Ok) ==> !o.w.find.active && o.w == w.(find := o.w.find))
            && (o.reply != Status(Ok) ==>
                  o == Outcome(w, Status(if w.initialized then SessionHandleInvalid else NotInitialized)))
  {
    hide Inv;
  }
}
