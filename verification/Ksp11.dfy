/**
 The module as the C code has it: global arrays of structs changed in place, a heap
 with malloc and free, and one method per entry point. Every method is proved to take
 the step of Pkcs11.dfy that bears its name and to leave every heap block owned by
 exactly one field of one slot, on every path.
 */
module Ksp11 {
  import opened Bytes
  import opened Hashes
  import opened Pkcs11
  import opened Layout
  import opened Attributes
  import EcdsaCodec
  import DigestInfo
  import Thumbprint
  import opened SignatureLength

  // ----- facts about the abstract state -----

  lemma InvSlots(w: World)
    requires Inv(w)
    ensures |w.slots| == MAX_SESSIONS
    ensures forall i | 0 <= i < |w.slots| ::
              w.slots[i].Open? && w.slots[i].op.Active? ==> w.slots[i].op.obj < |w.objects|
    ensures forall k | 0 <= k < |w.objects| :: w.objects[k].handle == k + 1
    ensures w.find.pos <= |w.find.handles|
    ensures !w.initialized ==> w.objects == [] && w.slots == AllClosed()
  {
  }

  /** Setting an operation twice is setting it once. */
  lemma SetOpTwice(w: World, i: nat, a: Op, b: Op)
    requires i < |w.slots| && w.slots[i].Open?
    ensures SetOp(SetOp(w, i, a), i, b) == SetOp(w, i, b)
  {
    assert SetOp(SetOp(w, i, a), i, b).slots == SetOp(w, i, b).slots;
  }

  lemma SetIdleKeepsInv(w: World, i: nat)
    requires Inv(w) && i < |w.slots| && w.slots[i].Open?
    ensures Inv(SetOp(w, i, Idle))
  {
    SetOpKeepsInv(w, i, Idle, w.io);
  }

  lemma SetCachedKeepsInv(w: World, i: nat, c: Option<seq<byte>>)
    requires Inv(w) && i < |w.slots| && w.slots[i].Open? && w.slots[i].op.Active?
    ensures Inv(SetOp(w, i, w.slots[i].op.(cached := c)))
  {
    SetOpKeepsInv(w, i, w.slots[i].op.(cached := c), w.io);
  }

  lemma StartKeepsInv(w: World, i: nat, k: nat, m: MechRow, param: PssParam)
    requires Inv(w) && i < |w.slots| && w.slots[i].Open? && k < |w.objects|
    requires MechOf(m.mechanism) == Some(m) && MechOkFor(m.mechanism, w.objects[k].ktype)
    ensures Inv(SetOp(w, i, Active(k, m, InitialHashAlg(m, param), [], 0, None)))
  {
    SetOpKeepsInv(w, i, Active(k, m, InitialHashAlg(m, param), [], 0, None), w.io);
  }

  lemma AppendKeepsInv(w: World, i: nat, part: seq<byte>, cap: nat)
    requires Inv(w) && i < |w.slots| && w.slots[i].Open? && w.slots[i].op.Active?
    requires var op := w.slots[i].op;
             var need := |op.input| + |part|;
             cap == if need > op.cap then Grow(op.cap, need) else op.cap
    ensures Inv(SetOp(w, i, w.slots[i].op.(input := w.slots[i].op.input + part, cap := cap)))
  {
    var op := w.slots[i].op;
    var need := |op.input| + |part|;
    if need > op.cap {
      GrowKeepsRule(op.cap, |op.input|, need);
    }
    SetOpKeepsInv(w, i, op.(input := op.input + part, cap := cap), w.io);
  }

  lemma CloseKeepsInv(w: World, i: nat)
    requires Inv(w) && i < |w.slots|
    ensures Inv(w.(slots := w.slots[i := Closed]))
  {
  }

  lemma OpenKeepsInv(w: World, i: nat)
    requires Inv(w) && w.initialized && i < |w.slots| && w.slots[i].Closed?
    ensures Inv(w.(slots := w.slots[i := Open(w.nextHandle, Idle)], nextHandle := w.nextHandle + 1))
  {
  }

  lemma CounterKeepsInv(w: World)
    requires Inv(w)
    ensures Inv(w.(nextHandle := w.nextHandle + 1))
  {
  }

  lemma TableKeepsInv(w: World, on: bool, objs: seq<KeyObject>)
    requires Inv(w) && w.slots == AllClosed()
    requires forall k | 0 <= k < |objs| :: objs[k].handle == k + 1
    requires !on ==> objs == []
    ensures Inv(w.(initialized := on, objects := objs))
  {
  }

  lemma RowNamesMechanism(m: Mechanism)
    ensures MechOf(m).Some? ==> MechOf(m).value.mechanism == m
  {
  }

  lemma FindKeepsInv(w: World, f: Find)
    requires Inv(w) && f.pos <= |f.handles|
    ensures Inv(w.(find := f))
  {
  }

  lemma GrowFits(cap: nat, need: nat)
    requires need > cap
    ensures Grow(cap, need) >= need
  {
  }

  /** Whether the cached signature is taken out first makes no difference. */
  lemma DeliverAfterTaking(w: World, i: nat, arg: SigArg)
    requires i < |w.slots| && w.slots[i].Open? && w.slots[i].op.Active? && w.slots[i].op.cached.Some? && arg.len.Some?
    ensures Deliver(SetOp(w, i, w.slots[i].op.(cached := None)), i, w.slots[i].op.cached.value, arg)
            == Deliver(w, i, w.slots[i].op.cached.value, arg)
  {
    var op := w.slots[i].op;
    SetOpTwice(w, i, op.(cached := None), Idle);
    SetOpTwice(w, i, op.(cached := None), op.(cached := Some(op.cached.value)));
  }

  lemma RefusalIsError(env: Env, io: Ledger, row: MechRow, hashAlg: nat, ktype: KeyType, data: seq<byte>)
    requires BuildDigest(env, io, row, hashAlg, ktype, data).1.Refused?
    ensures BuildDigest(env, io, row, hashAlg, ktype, data).1.rv != Ok
  {
  }

  /** A heap with a new block in place of an old one. */
  lemma BlockExchanged(before: Heap, after: Heap, gone: Ptr, added: Ptr, block: seq<byte>)
    requires gone in before && added !in before && after == before[added := block] - {gone}
    ensures added in after && after[added] == block && after - {added} == before - {gone}
  {
  }

  /** The caller's buffer is as long as pulSignatureLen says. */
  predicate RoomOk(dst: array?<byte>, len: Option<nat>) {
    dst != null && len.Some? ==> len.value <= dst.Length
  }

  /** The caller's buffer after a reply: a signature at the front, else as it was. */
  function AfterReply(before: seq<byte>, r: Reply): seq<byte> {
    if r.Signed? && r.sig.Some? && |r.sig.value| <= |before| then r.sig.value + before[|r.sig.value|..] else before
  }

  class Module {
    const env: Env

    // the C heap, and the ledger of allocations and of requests to the server
    var heap: Heap
    var nextPtr: Ptr
    var allocs: nat
    var log: seq<Request>
    ghost var owner: Owners

    // the globals of the module
    var initialized: bool
    var objects: seq<KeyObject>
    const sessions: array<SessionRec>
    const signs: array<SignRec>
    var nextHandle: nat
    var findHandles: seq<nat>
    var findPos: nat
    var findActive: bool

    // the abstract state that the globals stand for
    ghost var model: World

    ghost function View(locals: set<Ptr>): Memory
      reads this, sessions, signs
    {
      Memory(heap, owner, nextPtr, sessions[..], signs[..], model.slots, locals)
    }

    ghost predicate ValidWith(locals: set<Ptr>)
      reads this, sessions, signs
    {
      && sessions.Length == MAX_SESSIONS && signs.Length == MAX_SESSIONS
      && Rep(View(locals))
      && Inv(model)
      && model.initialized == initialized && model.objects == objects && model.nextHandle == nextHandle
      && model.find == Find(findActive, findHandles, findPos)
      && model.io == Ledger(log, allocs)
    }

    ghost predicate Valid()
      reads this, sessions, signs
    {
      ValidWith({})
    }

    constructor (env: Env)
      ensures Valid() && model == START && heap == map[] && this.env == env
      ensures fresh(sessions) && fresh(signs)
    {
      this.env := env;
      heap, nextPtr, allocs, log, owner := map[], 1, 0, [], map[];
      initialized, objects, nextHandle := false, [], 1;
      sessions := new SessionRec[MAX_SESSIONS](_ => ZERO_SESSION);
      signs := new SignRec[MAX_SESSIONS](_ => ZERO_SIGN);
      findHandles, findPos, findActive := [], 0, false;
      model := START;
      new;
      assert sessions[..] == seq(MAX_SESSIONS, _ => ZERO_SESSION);
      assert signs[..] == seq(MAX_SESSIONS, _ => ZERO_SIGN);
      ZeroRep(1);
      StartOk();
    }

    /** What validity says of one slot. */
    lemma SlotFacts(i: nat, locals: set<Ptr>)
      requires ValidWith(locals) && i < MAX_SESSIONS
      ensures |model.slots| == MAX_SESSIONS
      ensures SlotCoupled(heap, sessions[i], signs[i], model.slots[i])
      ensures FieldsOwn(signs[i], i, owner) && owner.Keys == heap.Keys && NULL !in heap
      ensures model.slots[i].Open? && model.slots[i].op.Active? ==> model.slots[i].op.obj < |objects|
    {
      RepSlot(View(locals), i);
      InvSlots(model);
    }

    /** A block of the running function is not one of a slot's. */
    lemma LocalsApart(i: nat, p: Ptr)
      requires ValidWith({p}) && i < MAX_SESSIONS
      ensures p != NULL && p in heap && signs[i].buf != p && signs[i].cached != p
    {
      SlotFacts(i, {p});
    }

    // ----- the C library -----

    /** An allocation of which only the outcome matters. */
    method TryAlloc(ghost locals: set<Ptr>) returns (ok: bool)
      requires ValidWith(locals)
      modifies `allocs, `model
      ensures ValidWith(locals)
      ensures ok == env.alloc(old(model.io).allocs)
      ensures model == old(model).(io := old(model.io).(allocs := old(model.io).allocs + 1))
    {
      hide Rep, Inv;
      ok := env.alloc(allocs);
      allocs := allocs + 1;
      InvIgnoresLedger(model, Ledger(log, allocs));
      model := model.(io := Ledger(log, allocs));
    }

    /** malloc: null, or a new block owned by the caller, of which only the size is promised. */
    method Malloc(n: nat, ghost locals: set<Ptr>) returns (p: Ptr)
      requires ValidWith(locals)
      modifies `heap, `nextPtr, `allocs, `owner, `model
      ensures model == old(model).(io := old(model.io).(allocs := old(model.io).allocs + 1))
      ensures p == NULL <==> !env.alloc(old(model.io).allocs)
      ensures p == NULL ==> ValidWith(locals) && heap == old(heap)
      ensures p != NULL ==>
                && ValidWith(locals + {p}) && p !in locals
                && p !in old(heap) && p in heap && |heap[p]| == n && heap == old(heap)[p := heap[p]]
    {
      hide Rep, Inv;
      var ok := TryAlloc(locals);
      if !ok {
        return NULL;
      }
      p := nextPtr;
      var block := seq(n, _ => 0);
      RepAlloc(View(locals), block);
      nextPtr := nextPtr + 1;
      heap := heap[p := block];
      owner := owner[p := Local];
    }

    /** free of a block that the running function owns; any other block is refused. */
    method Free(p: Ptr, ghost locals: set<Ptr>)
      requires ValidWith(locals) && p in locals
      modifies `heap, `owner
      ensures ValidWith(locals - {p})
      ensures p in old(heap) && heap == old(heap) - {p}
    {
      hide Rep, Inv;
      RepFree(View(locals), p);
      heap := heap - {p};
      owner := owner - {p};
    }

    /** malloc by a function that owns nothing else. */
    method MallocOnly(n: nat) returns (p: Ptr)
      requires Valid()
      modifies `heap, `nextPtr, `allocs, `owner, `model
      ensures model == old(model).(io := old(model.io).(allocs := old(model.io).allocs + 1))
      ensures p == NULL <==> !env.alloc(old(model.io).allocs)
      ensures p == NULL ==> Valid() && heap == old(heap)
      ensures p != NULL ==>
                ValidWith({p}) && p !in old(heap) && p in heap && |heap[p]| == n && heap == old(heap)[p := heap[p]]
    {
      hide ValidWith;
      p := Malloc(n, {});
      assert {} + {p} == {p};
    }

    /** free of the last block of the running function. */
    method FreeOnly(p: Ptr)
      requires ValidWith({p})
      modifies `heap, `owner
      ensures Valid() && p in old(heap) && heap == old(heap) - {p}
    {
      hide ValidWith;
      Free(p, {p});
      assert {p} - {p} == {};
    }

    /** free of one of the two blocks of the running function. */
    method FreeFirst(p: Ptr, q: Ptr)
      requires ValidWith({p, q}) && p != q
      modifies `heap, `owner
      ensures ValidWith({q}) && p in old(heap) && heap == old(heap) - {p}
    {
      hide ValidWith;
      Free(p, {p, q});
      assert {p, q} - {p} == {q};
    }

    /** memcpy to the front of a block that the running function owns. */
    method WriteBlock(p: Ptr, bytes: seq<byte>, ghost locals: set<Ptr>)
      requires ValidWith(locals) && p in locals && p in heap && |bytes| <= |heap[p]|
      modifies `heap
      ensures ValidWith(locals)
      ensures heap == old(heap)[p := heap[p]] && |heap[p]| == |old(heap)[p]| && heap[p][..|bytes|] == bytes
    {
      hide Rep, Inv;
      var block := bytes + heap[p][|bytes|..];
      RepWrite(View(locals), p, block);
      heap := heap[p := block];
    }

    // ----- sessions -----

    /** find_session: the slot of an open handle, or MAX_SESSIONS. */
    method FindSlot(h: nat) returns (i: nat)
      requires Valid()
      ensures |model.slots| == MAX_SESSIONS
      ensures i == FindSession(model.slots, h)
    {
      hide Rep, Inv;
      InvSlots(model);
      i := 0;
      while i < MAX_SESSIONS
        invariant i <= MAX_SESSIONS
        invariant forall k | 0 <= k < i :: model.slots[k].Open? ==> model.slots[k].handle != h
      {
        SlotFacts(i, {});
        if sessions[i].open && sessions[i].handle == h {
          return;
        }
        i := i + 1;
      }
    }

    /** sign_reset: frees what the state owns, each block once, and zeroes it. */
    method SignReset(i: nat, ghost locals: set<Ptr>)
      requires ValidWith(locals) && i < MAX_SESSIONS
      modifies `heap, `owner, `model, signs
      ensures ValidWith(locals)
      ensures signs[..] == old(signs[..])[i := ZERO_SIGN]
      ensures heap == old(heap) - {old(signs[i].buf), old(signs[i].cached)}
      ensures |old(model).slots| == MAX_SESSIONS
      ensures model == if old(model).slots[i].Open? then SetOp(old(model), i, Idle) else old(model)
    {
      hide Rep, View, Inv, SlotCoupled;
      SlotFacts(i, locals);
      ghost var m := if model.slots[i].Open? then model.slots[i].(op := Idle) else Closed;
      ghost var w := model.(slots := model.slots[i := m]);
      ResetCoupled(heap, heap - {signs[i].buf, signs[i].cached}, sessions[i], signs[i], model.slots[i]);
      if model.slots[i].Open? {
        SetIdleKeepsInv(model, i);
      } else {
        assert model.slots[i := Closed] == model.slots;
      }
      FreeState(i, m, w, locals);
    }

    /** The two frees and the memset. */
    method FreeState(i: nat, ghost m: Slot, ghost w: World, ghost locals: set<Ptr>)
      requires ValidWith(locals) && i < MAX_SESSIONS && |model.slots| == MAX_SESSIONS
      requires SlotCoupled(heap - {signs[i].buf, signs[i].cached}, sessions[i], ZERO_SIGN, m)
      requires Inv(w) && w == model.(slots := model.slots[i := m])
      modifies `heap, `owner, `model, signs
      ensures ValidWith(locals) && model == w
      ensures signs[..] == old(signs[..])[i := ZERO_SIGN]
      ensures heap == old(heap) - {old(signs[i].buf), old(signs[i].cached)}
    {
      hide Rep, Inv, SlotCoupled;
      var st := signs[i];
      ghost var ss, gs := sessions[..], signs[..];
      RepReset(View(locals), i, m);
      heap := heap - {st.buf};
      heap := heap - {st.cached};
      assert heap == old(heap) - {st.buf, st.cached};
      owner := owner - {st.buf, st.cached};
      signs[i] := ZERO_SIGN;
      assert signs[..] == gs[i := ZERO_SIGN] && sessions[..] == ss;
      model := w;
    }

    method FindClosedSlot() returns (slot: nat)
      requires Valid()
      ensures |model.slots| == MAX_SESSIONS
      ensures slot == FirstClosed(model.slots)
    {
      hide Rep, Inv;
      InvSlots(model);
      slot := 0;
      while slot < MAX_SESSIONS
        invariant slot <= MAX_SESSIONS
        invariant forall k | 0 <= k < slot :: model.slots[k].Open?
      {
        SlotFacts(slot, {});
        if !sessions[slot].open {
          return;
        }
        slot := slot + 1;
      }
    }

    /** Writes a session and the pointer-free part of its signing state. */
    method WriteSlot(i: nat, s: SessionRec, g: SignRec, ghost m: Slot, ghost w: World)
      requires Valid() && i < MAX_SESSIONS
      requires g.buf == signs[i].buf && g.cached == signs[i].cached && SlotCoupled(heap, s, g, m)
      requires |model.slots| == MAX_SESSIONS && Inv(w) && w == model.(slots := model.slots[i := m])
      modifies `model, signs, sessions
      ensures Valid() && model == w
      ensures signs[i] == g && sessions[i] == s
    {
      hide Rep, Inv, SlotCoupled;
      ghost var ss, gs := sessions[..], signs[..];
      RepFields(View({}), i, s, g, m);
      sessions[i] := s;
      signs[i] := g;
      assert signs[..] == gs[i := g] && sessions[..] == ss[i := s];
      model := w;
    }

    /** Gives the next handle to a closed slot, whose signing state is all zero. */
    method OpenSlot(i: nat, slotId: nat)
      requires Valid() && initialized && i < MAX_SESSIONS && i < |model.slots| && model.slots[i].Closed?
      modifies `nextHandle, `model, signs, sessions
      ensures Valid()
      ensures model == old(model).(slots := old(model).slots[i := Open(old(nextHandle), Idle)],
              nextHandle := old(nextHandle) + 1)
    {
      hide Rep, Inv;
      SlotFacts(i, {});
      var h := nextHandle;
      OpenKeepsInv(model, i);
      CounterKeepsInv(model);
      nextHandle := h + 1;
      model := model.(nextHandle := h + 1);
      WriteSlot(i, SessionRec(h, slotId, true), signs[i], Open(h, Idle),
          model.(slots := model.slots[i := Open(h, Idle)]));
    }

    /** C_OpenSession. */
    method OpenSession(slotId: nat, readWrite: bool, hasOut: bool) returns (r: Reply)
      requires Valid()
      modifies `nextHandle, `model, signs, sessions
      ensures Valid()
      ensures Outcome(model, r) == OpenSessionStep(old(model), slotId, readWrite, hasOut)
    {
      hide Rep, View, Inv;
      if slotId != 0 {
        return Status(SlotIdInvalid);
      }
      if !hasOut {
        return Status(ArgumentsBad);
      }
      if !initialized {
        return Status(NotInitialized);
      }
      if readWrite {
        return Status(SessionReadOnly);
      }
      var slot := FindClosedSlot();
      if slot == MAX_SESSIONS {
        return Status(SessionCount);
      }
      r := Opened(Ok, nextHandle);
      OpenSlot(slot, slotId);
    }

    /** Resets the signing state of a slot and marks it closed. */
    method CloseSlot(i: nat)
      requires Valid() && i < MAX_SESSIONS
      modifies `heap, `owner, `model, signs, sessions
      ensures Valid()
      ensures |old(model).slots| == MAX_SESSIONS
      ensures model == old(model).(slots := old(model).slots[i := Closed])
    {
      hide Rep, Inv;
      ghost var before := model;
      SignReset(i, {});
      CloseKeepsInv(before, i);
      assert model.slots[i := Closed] == before.slots[i := Closed];
      assert signs[i] == signs[..][i] == ZERO_SIGN;
      WriteSlot(i, sessions[i].(open := false), ZERO_SIGN, Closed, before.(slots := before.slots[i := Closed]));
    }

    /** C_CloseSession. */
    method CloseSession(h: nat) returns (r: Reply)
      requires Valid()
      modifies `heap, `owner, `model, signs, sessions
      ensures Valid()
      ensures Outcome(model, r) == CloseSessionStep(old(model), h)
    {
      hide Rep, View, Inv;
      if !initialized {
        return Status(NotInitialized);
      }
      var i := FindSlot(h);
      if i == MAX_SESSIONS {
        return Status(SessionHandleInvalid);
      }
      CloseSlot(i);
      r := Status(Ok);
    }

    /** C_CloseAllSessions. */
    method CloseAllSessions(slotId: nat) returns (r: Reply)
      requires Valid()
      modifies `heap, `owner, `model, signs, sessions
      ensures Valid()
      ensures Outcome(model, r) == CloseAllSessionsStep(old(model), slotId)
    {
      hide Rep, Inv;
      InvSlots(model);
      if slotId != 0 {
        return Status(SlotIdInvalid);
      }
      if !initialized {
        return Status(NotInitialized);
      }
      ghost var before := model;
      var i := 0;
      while i < MAX_SESSIONS
        invariant i <= MAX_SESSIONS && Valid()
        invariant |model.slots| == MAX_SESSIONS && model == before.(slots := model.slots)
        invariant forall k | 0 <= k < i :: model.slots[k] == Closed
      {
        SlotFacts(i, {});
        if sessions[i].open {
          CloseSlot(i);
        }
        i := i + 1;
      }
      assert model.slots == AllClosed();
      r := Status(Ok);
    }

    /** C_Finalize: afterwards nothing is left on the heap. */
    method Finalize(reserved: bool) returns (r: Reply)
      requires Valid()
      modifies `heap, `owner, `model, `objects, `initialized, signs, sessions
      ensures Valid()
      ensures Outcome(model, r) == FinalizeStep(old(model), reserved)
      ensures !reserved ==> heap == map[]
    {
      hide Rep, Inv;
      InvSlots(model);
      if reserved {
        return Status(ArgumentsBad);
      }
      ghost var before := model;
      var i := 0;
      while i < MAX_SESSIONS
        invariant i <= MAX_SESSIONS && Valid()
        invariant |model.slots| == MAX_SESSIONS && model == before.(slots := model.slots)
        invariant forall k | 0 <= k < i :: model.slots[k] == Closed
      {
        CloseSlot(i);
        i := i + 1;
      }
      assert model.slots == AllClosed();
      objects := [];
      initialized := false;
      TableKeepsInv(model, false, []);
      model := model.(initialized := false, objects := []);
      RepClosed(View({}));
      r := Status(Ok);
    }

    /** C_Initialize: the objects are made from the answers of the bridge, in order. */
    method Initialize(reserved: bool, bridgeUp: bool, answers: seq<Option<KeyInfo>>) returns (r: Reply)
      requires Valid()
      modifies `allocs, `model, `objects, `initialized, signs, sessions
      ensures Valid()
      ensures Outcome(model, r) == InitializeStep(env, old(model), reserved, bridgeUp, answers)
    {
      hide Rep, Inv;
      InvSlots(model);
      if initialized {
        return Status(AlreadyInitialized);
      }
      if reserved {
        return Status(ArgumentsBad);
      }
      if !bridgeUp {
        return Status(DeviceError);
      }
      var objs: seq<KeyObject> := [];
      if |answers| > 0 {
        var ok := TryAlloc({});
        if !ok {
          return Status(HostMemory);
        }
        objs := MakeObjects(answers);
      }
      ClearSlots();
      objects := objs;
      initialized := true;
      TableKeepsInv(model, true, objs);
      model := model.(initialized := true, objects := objs);
      r := Status(Ok);
    }

    /** The loop over the indexed gets: a failed one is skipped. */
    static method MakeObjects(answers: seq<Option<KeyInfo>>) returns (objs: seq<KeyObject>)
      ensures objs == BuildObjects(answers)
    {
      objs := [];
      var i := 0;
      while i < |answers|
        invariant 0 <= i <= |answers|
        invariant objs == BuildObjects(answers[..i])
      {
        assert answers[..i + 1][..i] == answers[..i];
        if answers[i].Some? {
          objs := objs + [MakeObject(answers[i].value, |objs| + 1)];
        }
        i := i + 1;
      }
      assert answers[..i] == answers;
    }

    /** The two memsets: they forget no block, for without an initialised module every
        signing state is zero already. */
    method ClearSlots()
      requires Valid() && !initialized
      modifies signs, sessions
      ensures Valid() && model.slots == AllClosed()
    {
      hide Rep, Inv;
      InvSlots(model);
      RepClosed(View({}));
      RepOwnerEmpty(View({}));
      ZeroRep(nextPtr);
      forall k | 0 <= k < MAX_SESSIONS {
        sessions[k] := ZERO_SESSION;
      }
      forall k | 0 <= k < MAX_SESSIONS {
        signs[k] := ZERO_SIGN;
      }
      assert sessions[..] == seq(MAX_SESSIONS, _ => ZERO_SESSION);
      assert signs[..] == seq(MAX_SESSIONS, _ => ZERO_SIGN);
    }

    // ----- starting a signature -----

    /** object_by_handle: the index of an object, or the number of objects. */
    method FindObject(h: nat) returns (k: nat)
      requires Valid()
      ensures k == if 0 < h <= |objects| then h - 1 else |objects|
    {
      hide Rep, Inv;
      InvSlots(model);
      k := 0;
      while k < |objects|
        invariant k <= |objects|
        invariant !(0 < h <= k)
      {
        if objects[k].handle == h {
          return;
        }
        k := k + 1;
      }
    }

    /** find_mech: the first row of the table for this mechanism. */
    static method FindMech(m: Mechanism) returns (row: Option<MechRow>)
      ensures row == MechOf(m)
    {
      var table := [
        MechRow(RsaPkcs, None, false),
        MechRow(Sha256RsaPkcs, Some(Sha256), false),
        MechRow(Sha384RsaPkcs, Some(Sha384), false),
        MechRow(Sha512RsaPkcs, Some(Sha512), false),
        MechRow(RsaPkcsPss, None, true),
        MechRow(Sha256RsaPkcsPss, Some(Sha256), true),
        MechRow(Sha384RsaPkcsPss, Some(Sha384), true),
        MechRow(Sha512RsaPkcsPss, Some(Sha512), true),
        MechRow(Ecdsa, None, false),
        MechRow(EcdsaSha256, Some(Sha256), false),
        MechRow(EcdsaSha384, Some(Sha384), false),
        MechRow(EcdsaSha512, Some(Sha512), false)];
      var i := 0;
      while i < |table|
        invariant 0 <= i <= |table|
        invariant forall k | 0 <= k < i :: table[k].mechanism != m
      {
        if table[i].mechanism == m {
          return Some(table[i]);
        }
        i := i + 1;
      }
      assert table[0].mechanism != m && table[1].mechanism != m && table[2].mechanism != m && table[3].mechanism != m;
      assert table[4].mechanism != m && table[5].mechanism != m && table[6].mechanism != m && table[7].mechanism != m;
      assert table[8].mechanism != m && table[9].mechanism != m && table[10].mechanism != m && table[11].mechanism != m;
      row := None;
    }

    /** C_SignInit. */
    method SignInit(h: nat, mech: Option<MechArg>, key: nat) returns (r: Reply)
      requires Valid()
      modifies `heap, `owner, `model, signs, sessions
      ensures Valid()
      ensures Outcome(model, r) == SignInitStep(old(model), h, mech, key)
    {
      hide Rep, View, Inv, InitialHashAlg, MechOf, MechOkFor;
      if !initialized {
        return Status(NotInitialized);
      }
      var i := FindSlot(h);
      if i == MAX_SESSIONS {
        return Status(SessionHandleInvalid);
      }
      var k := FindObject(key);
      if k == |objects| {
        return Status(KeyHandleInvalid);
      }
      if mech.None? {
        return Status(ArgumentsBad);
      }
      SlotFacts(i, {});
      if signs[i].active {
        return Status(OperationActive);
      }
      var m := FindMech(mech.value.mechanism);
      if m.None? || !MechOkFor(mech.value.mechanism, objects[k].ktype) {
        return Status(MechanismInvalid);
      }
      RowNamesMechanism(mech.value.mechanism);
      StartOperation(i, k, m.value, mech.value.param);
      r := Status(Ok);
    }

    /** Resets the signing state and fills in the key and the mechanism. */
    method StartOperation(i: nat, k: nat, m: MechRow, param: PssParam)
      requires Valid() && i < MAX_SESSIONS && i < |model.slots| && model.slots[i].Open? && k < |objects|
      requires MechOf(m.mechanism) == Some(m) && MechOkFor(m.mechanism, objects[k].ktype)
      modifies `heap, `owner, `model, signs, sessions
      ensures Valid()
      ensures model == SetOp(old(model), i, Active(k, m, InitialHashAlg(m, param), [], 0, None))
    {
      hide Rep, View, Inv, MechOf, MechOkFor;
      ghost var before := model;
      StartKeepsInv(before, i, k, m, param);
      SignReset(i, {});
      SlotFacts(i, {});
      var alg := 0;
      if m.hash.Some? {
        alg := if m.hash == Some(Sha384) then 2 else if m.hash == Some(Sha512) then 3 else 1;
      } else if m.pss && param.Param? {
        match param.hashAlg {
          case CKM_SHA384 => alg := 2;
          case CKM_SHA512 => alg := 3;
          case _ => alg := 1;
        }
      }
      assert alg == InitialHashAlg(m, param);
      SetOpTwice(before, i, Idle, Active(k, m, alg, [], 0, None));
      FillState(i, k, m, alg);
    }

    method FillState(i: nat, k: nat, m: MechRow, alg: nat)
      requires Valid() && i < MAX_SESSIONS && i < |model.slots| && model.slots[i].Open? && model.slots[i].op.Idle?
      requires Inv(SetOp(model, i, Active(k, m, alg, [], 0, None)))
      modifies `model, signs, sessions
      ensures Valid() && model == SetOp(old(model), i, Active(k, m, alg, [], 0, None))
    {
      hide Rep, Inv;
      SlotFacts(i, {});
      ghost var op := Active(k, m, alg, [], 0, None);
      var g := ZERO_SIGN.(active := true, objIndex := k, digestMech := m.hash.Some?, pss := m.pss, md := m.hash,
          hashAlg := alg);
      StartCoupled(heap, sessions[i], g, model.slots[i], op);
      WriteSlot(i, sessions[i], g, model.slots[i].(op := op), SetOp(model, i, op));
    }

    // ----- accumulating input -----

    /** The doubling loop. Sizes are 64 bits wide: up to 2^63 bytes no doubling wraps. */
    static method GrowCapacity(cap: nat, need: nat) returns (r: nat)
      requires cap < need <= MAX_NEED
      ensures r == Grow(cap, need) && r < ULONG_LIMIT
    {
      r := if cap > 0 then cap * 2 % ULONG_LIMIT else FIRST_CAPACITY;
      while r < need
        invariant 0 < r < ULONG_LIMIT && Double(r, need) == Grow(cap, need)
        decreases need - r
      {
        r := r * 2 % ULONG_LIMIT;
      }
    }

    /** C_SignUpdate. */
    method SignUpdate(h: nat, part: seq<byte>) returns (r: Reply)
      requires Valid()
      requires var i := FindSession(model.slots, h);
               i < |model.slots| && model.slots[i].op.Active? ==> |model.slots[i].op.input| + |part| <= MAX_NEED
      modifies `heap, `nextPtr, `allocs, `owner, `model, signs
      ensures Valid()
      ensures Outcome(model, r) == SignUpdateStep(env, old(model), h, part)
    {
      hide Rep, View, Inv;
      if !initialized {
        return Status(NotInitialized);
      }
      var i := FindSlot(h);
      if i == MAX_SESSIONS {
        return Status(SessionHandleInvalid);
      }
      SlotFacts(i, {});
      if !signs[i].active {
        return Status(OperationNotInitialized);
      }
      var need := signs[i].buflen + |part|;
      ghost var before := model;
      if need > signs[i].bufcap {
        var cap := GrowCapacity(signs[i].bufcap, need);
        var nb := MallocOnly(cap);
        if nb == NULL {
          return Status(HostMemory);
        }
        MoveInput(i, nb, cap, part);
        return Status(Ok);
      }
      AppendInput(i, part);
      r := Status(Ok);
    }

    /** The rest of realloc and the memcpy behind it: the new block gets the old input
        and the part. */
    method MoveInput(i: nat, nb: Ptr, cap: nat, part: seq<byte>)
      requires ValidWith({nb}) && nb != NULL && nb in heap && |heap[nb]| == cap
      requires i < MAX_SESSIONS && i < |model.slots| && model.slots[i].Open? && model.slots[i].op.Active?
      requires var op := model.slots[i].op;
               |op.input| + |part| > op.cap && cap == Grow(op.cap, |op.input| + |part|)
      modifies `heap, `owner, `model, signs
      ensures Valid()
      ensures model == SetOp(old(model), i,
              old(model).slots[i].op.(input := old(model).slots[i].op.input + part, cap := cap))
    {
      hide Rep, View, Inv, Grow, SlotCoupled;
      ghost var op := model.slots[i].op;
      SlotFacts(i, {nb});
      GrowFits(op.cap, |op.input| + |part|);
      var st := signs[i];
      BufferCoupled(heap, sessions[i], st, model.slots[i]);
      var input := if st.buf == NULL then [] else heap[st.buf][..st.buflen];
      WriteBlock(nb, input + part, {nb});
      SwapBuffer(i, nb, cap, part);
    }

    /** The new block takes the place of the old buffer, which is freed. */
    method SwapBuffer(i: nat, nb: Ptr, cap: nat, part: seq<byte>)
      requires ValidWith({nb}) && nb in heap && |heap[nb]| == cap
      requires i < MAX_SESSIONS && i < |model.slots| && model.slots[i].Open? && model.slots[i].op.Active?
      requires var op := model.slots[i].op;
               && |op.input| + |part| > op.cap && cap == Grow(op.cap, |op.input| + |part|)
               && |op.input| + |part| <= cap && heap[nb][..|op.input| + |part|] == op.input + part
      modifies `heap, `owner, `model, signs
      ensures Valid()
      ensures model == SetOp(old(model), i,
              old(model).slots[i].op.(input := old(model).slots[i].op.input + part, cap := cap))
    {
      hide Rep, Inv, Grow, SlotCoupled;
      ghost var ss, gs, m := sessions[..], signs[..], model.slots[i];
      ghost var m' := m.(op := m.op.(input := m.op.input + part, cap := cap));
      AppendKeepsInv(model, i, part, cap);
      SlotFacts(i, {nb});
      LocalsApart(i, nb);
      var st := signs[i];
      BufferCoupled(heap, sessions[i], st, m);
      InputCoupled(heap, heap, sessions[i], st, m, nb, part);
      var g := st.(buf := nb, buflen := st.buflen + |part|, bufcap := cap);
      RepSwap(View({nb}), i, nb, g, m');
      model := SetOp(model, i, m'.op);
      signs[i] := g;
      assert signs[..] == gs[i := g] && sessions[..] == ss;
      if st.buf == NULL {
        owner := owner[nb := Input(i)];
      } else {
        owner := owner[nb := Input(i)][st.buf := Local];
        FreeOnly(st.buf);
      }
    }

    /** memcpy behind the input that is there already. */
    method AppendInput(i: nat, part: seq<byte>)
      requires Valid() && i < MAX_SESSIONS && i < |model.slots| && model.slots[i].Open? && model.slots[i].op.Active?
      requires |model.slots[i].op.input| + |part| <= model.slots[i].op.cap
      modifies `heap, `model, signs
      ensures Valid()
      ensures model == SetOp(old(model), i, old(model).slots[i].op.(input := old(model).slots[i].op.input + part))
    {
      hide Rep, Inv, Grow, SlotCoupled;
      ghost var op := model.slots[i].op;
      AppendKeepsInv(model, i, part, op.cap);
      SlotFacts(i, {});
      var st := signs[i];
      BufferCoupled(heap, sessions[i], st, model.slots[i]);
      ghost var ss, gs, op' := sessions[..], signs[..], op.(input := op.input + part);
      if st.buf == NULL {
        assert op' == op;
        assert model.slots == model.slots[i := model.slots[i].(op := op')];
        return;
      }
      var block := heap[st.buf][..st.buflen] + part + heap[st.buf][st.buflen + |part|..];
      assert block[..st.buflen + |part|] == op.input + part;
      InputCoupled(heap, heap[st.buf := block], sessions[i], st, model.slots[i], st.buf, part);
      var g := st.(buflen := st.buflen + |part|);
      RepAppend(View({}), i, block, g, model.slots[i].(op := op'));
      heap := heap[st.buf := block];
      model := SetOp(model, i, op');
      signs[i] := g;
      assert signs[..] == gs[i := g] && sessions[..] == ss;
    }

    // ----- making a signature -----

    /** tpmcert_sign_hash: one request; without room only the length comes back. */
    method BridgeSignHash(q: Request, room: Option<nat>, ghost locals: set<Ptr>)
          returns (ok: bool, sigLen: nat, sig: seq<byte>)
      requires ValidWith(locals)
      modifies `log, `model
      ensures ValidWith(locals)
      ensures model == old(model).(io := old(model.io).(log := old(model.io).log + [q]))
      ensures var reply := env.reply(|old(model.io).log|, q);
              && (ok <==> reply.Some? && (room.Some? ==> |reply.value| <= room.value))
              && (ok ==> sigLen == |reply.value| && (room.Some? ==> sig == reply.value))
    {
      hide Rep, Inv;
      var reply := env.reply(|log|, q);
      log := log + [q];
      InvIgnoresLedger(model, Ledger(log, allocs));
      model := model.(io := Ledger(log, allocs));
      sig, sigLen := [], 0;
      if reply.None? {
        return false, sigLen, sig;
      }
      sigLen := |reply.value|;
      if room.None? {
        return true, sigLen, sig;
      }
      if sigLen > room.value {
        return false, sigLen, sig;
      }
      ok, sig := true, reply.value;
    }

    /** The digest to send, built in a local buffer of 64 bytes. */
    method BuildRequestDigest(st: SignRec, ghost row: MechRow, o: KeyObject, data: seq<byte>) returns (p: Prepared)
      requires Valid()
      requires st.pss == row.pss && st.md == row.hash && st.digestMech == row.hash.Some?
      modifies `allocs, `model
      ensures Valid()
      ensures (model.io, p) == BuildDigest(env, old(model.io), row, st.hashAlg, o.ktype, data)
      ensures model == old(model).(io := model.io)
    {
      hide Rep, View, Inv, DigestInfo.LinuxDigest;
      if st.digestMech {
        var ok := TryAlloc({});
        return if ok then Ready(env.digest(st.md.value, data), st.hashAlg) else Refused(FunctionFailed);
      }
      if st.pss {
        if |data| > DIGEST_ROOM {
          return Refused(DataInvalid);
        }
        return Ready(data, if st.hashAlg == 0 then HashNumberFromLength(|data|) else st.hashAlg);
      }
      if o.ktype == Ec {
        if |data| > DIGEST_ROOM {
          return Refused(DataInvalid);
        }
        return Ready(data, HashNumberFromLength(|data|));
      }
      var d := DigestInfo.ParseDigestInfo(data);
      p := if d.None? then Refused(DataInvalid) else Ready(d.value.bytes, d.value.hashAlg);
    }

    /** Asks for the length, allocates it with slack, and asks for the bytes. */
    method RequestSignature(q: Request) returns (rv: Rv, sig: Ptr, sigLen: nat)
      requires Valid()
      modifies `heap, `nextPtr, `allocs, `log, `owner, `model
      ensures model == old(model).(io := model.io)
      ensures rv == Ok ==>
                && ValidWith({sig}) && sig !in old(heap) && sig in heap && sigLen <= |heap[sig]|
                && heap == old(heap)[sig := heap[sig]]
                && (model.io, Made(heap[sig][..sigLen])) == AskServer(env, old(model.io), q)
      ensures rv != Ok ==> Valid() && heap == old(heap) && (model.io, Failed(rv)) == AskServer(env, old(model.io), q)
    {
      hide ValidWith;
      var ok, len, bytes := BridgeSignHash(q, None, {});
      if !ok || len == 0 || len > MAX_SIGNATURE {
        return FunctionFailed, NULL, 0;
      }
      ghost var before := heap;
      sig := MallocOnly(len + SLACK);
      if sig == NULL {
        return HostMemory, NULL, 0;
      }
      ok, sigLen := FillSignature(q, sig, len + SLACK);
      assert !ok ==> heap == before;
      rv := if ok then Ok else FunctionFailed;
    }

    /** The second request, into a block of the given size that is freed on failure. */
    method FillSignature(q: Request, sig: Ptr, room: nat) returns (ok: bool, sigLen: nat)
      requires ValidWith({sig}) && sig in heap && |heap[sig]| == room
      modifies `heap, `log, `owner, `model
      ensures model == old(model).(io := old(model.io).(log := old(model.io).log + [q]))
      ensures var reply := env.reply(|old(model.io).log|, q);
              && (ok <==> reply.Some? && |reply.value| <= room)
              && (ok ==> && ValidWith({sig}) && sig in heap && heap == old(heap)[sig := heap[sig]]
                         && sigLen == |reply.value| <= |heap[sig]| && heap[sig][..sigLen] == reply.value)
              && (!ok ==> Valid() && heap == old(heap) - {sig})
    {
      hide Rep, View, Inv;
      var bytes;
      ok, sigLen, bytes := BridgeSignHash(q, Some(room), {sig});
      if ok {
        WriteBlock(sig, bytes, {sig});
      } else {
        FreeOnly(sig);
      }
    }

    /** ecdsa_der_to_raw: r and s in a new block, padded to the field width. */
    method DerToRaw(der: Ptr, derLen: nat, field: nat) returns (raw: Ptr)
      requires ValidWith({der}) && der in heap && derLen <= |heap[der]|
      modifies `heap, `nextPtr, `allocs, `owner, `model
      ensures var bytes := old(heap)[der][..derLen];
              && (raw != NULL ==>
                    && ValidWith({der, raw}) && raw !in old(heap) && raw in heap && heap == old(heap)[raw := heap[raw]]
                    && 2 * field <= |heap[raw]| && Some(heap[raw][..2 * field]) == EcdsaCodec.DerToRaw(bytes, field))
              && (raw == NULL ==> ValidWith({der}) && heap == old(heap))
              && (raw != NULL <==> EcdsaCodec.DerToRaw(bytes, field).Some? && env.alloc(old(model.io).allocs))
              && (raw != NULL ==> EcdsaCodec.DecodeSignature(bytes).Got?)
              && model == if EcdsaCodec.DecodeSignature(bytes).Bad? then old(model)
                          else old(model).(io := old(model.io).(allocs := old(model.io).allocs + 1))
    {
      hide Rep, View, Inv, EcdsaCodec.DecodeSignature;
      var bytes := heap[der][..derLen];
      if EcdsaCodec.DecodeSignature(bytes).Bad? {
        return NULL;
      }
      ghost var before := heap;
      raw := Malloc(2 * field, {der});
      if raw == NULL {
        return;
      }
      assert {der} + {raw} == {der, raw};
      var converted := EcdsaCodec.DerToRaw(bytes, field);
      if converted.None? {
        Free(raw, {der, raw});
        assert {der, raw} - {raw} == {der};
        assert heap == before;
        return NULL;
      }
      WriteBlock(raw, converted.value, {der, raw});
    }

    /** EC signatures are exchanged for raw ones; the DER block is freed. */
    method ConvertToRaw(o: KeyObject, der: Ptr, derLen: nat) returns (rv: Rv, sig: Ptr, sigLen: nat)
      requires ValidWith({der}) && der in heap && derLen <= |heap[der]|
      modifies `heap, `nextPtr, `allocs, `owner, `model
      ensures model == old(model).(io := model.io)
      ensures var bytes := old(heap)[der][..derLen];
              && (rv == Ok ==>
                    && ValidWith({sig}) && sig in heap && sigLen <= |heap[sig]| && heap - {sig} == old(heap) - {der}
                    && (model.io, Made(heap[sig][..sigLen])) == ConvertSignature(env, old(model.io), o, bytes))
              && (rv != Ok ==>
                    && Valid() && heap == old(heap) - {der}
                    && (model.io, Failed(rv)) == ConvertSignature(env, old(model.io), o, bytes))
    {
      hide ValidWith, EcdsaCodec.DerToRaw, EcdsaCodec.DecodeSignature, FieldBytes;
      if o.ktype == Rsa {
        return Ok, der, derLen;
      }
      var field := FieldBytes(o.keySize);
      if field <= 0 || field > MAX_FIELD {
        FreeOnly(der);
        return FunctionFailed, NULL, 0;
      }
      ghost var before := heap;
      sig := DerToRaw(der, derLen, field);
      if sig == NULL {
        FreeOnly(der);
        return FunctionFailed, NULL, 0;
      }
      ghost var block := heap[sig];
      FreeFirst(der, sig);
      BlockExchanged(before, heap, der, sig, block);
      rv, sigLen := Ok, 2 * field;
    }

    /** Everything do_sign does to make a new signature, as one block. */
    method MakeSignature(i: nat, data: seq<byte>) returns (rv: Rv, sig: Ptr, sigLen: nat)
      requires Valid() && i < MAX_SESSIONS && i < |model.slots| && model.slots[i].Open? && model.slots[i].op.Active?
      requires model.slots[i].op.obj < |objects|
      modifies `heap, `nextPtr, `allocs, `log, `owner, `model
      ensures model == old(model).(io := model.io)
      ensures var op := old(model).slots[i].op;
              var made := Produce(env, old(model.io), objects[op.obj], op.row, op.hashAlg, data);
              && (rv == Ok ==>
                    && ValidWith({sig}) && sig in heap && sigLen <= |heap[sig]|
                    && (model.io, Made(heap[sig][..sigLen])) == made)
              && (rv != Ok ==> Valid() && (model.io, Failed(rv)) == made)
    {
      hide Rep, View, Inv, BuildDigest, AskServer, ConvertSignature;
      SlotFacts(i, {});
      var st := signs[i];
      var o := objects[st.objIndex];
      ghost var row := model.slots[i].op.row;
      var p := BuildRequestDigest(st, row, o, data);
      if p.Refused? {
        RefusalIsError(env, old(model.io), row, st.hashAlg, o.ktype, data);
        return p.rv, NULL, 0;
      }
      var q := Request(Thumbprint.Normalize(o.thumbprint), p.digest, HashFromInt(p.hashAlg),
          PaddingFromInt(if st.pss then 2 else 1));
      rv, sig, sigLen := RequestSignature(q);
      if rv != Ok {
        return;
      }
      rv, sig, sigLen := ConvertToRaw(o, sig, sigLen);
    }

    // ----- handing it over -----

    /** The end of do_sign: cache, refuse or copy out, then free and reset. */
    method HandOver(i: nat, sig: Ptr, sigLen: nat, dst: array?<byte>, room: nat) returns (r: Reply)
      requires ValidWith({sig}) && sig in heap && sigLen <= |heap[sig]|
      requires i < MAX_SESSIONS && i < |model.slots| && model.slots[i].Open? && model.slots[i].op.Active?
              && model.slots[i].op.cached.None?
      requires RoomOk(dst, Some(room))
      modifies `heap, `owner, `model, signs, if dst == null then {} else {dst}
      ensures Valid()
      ensures Outcome(model, r) == Deliver(old(model), i, old(heap)[sig][..sigLen], SigArg(dst != null, Some(room)))
      ensures dst != null ==> dst[..] == AfterReply(old(dst[..]), r)
    {
      hide Rep, View, Inv;
      if dst == null {
        CacheSignature(i, sig, sigLen);
        return Signed(Ok, Some(sigLen), None);
      }
      if room < sigLen {
        FreeOnly(sig);
        SignReset(i, {});
        assert dst as object != signs as object;
        return Signed(BufferTooSmall, Some(sigLen), None);
      }
      ghost var before := dst[..];
      var bytes := heap[sig][..sigLen];
      CopyOut(dst, bytes, {sig});
      FreeOnly(sig);
      SignReset(i, {});
      assert dst as object != signs as object;
      r := Signed(Ok, Some(sigLen), Some(bytes));
    }

    /** memcpy into the caller's buffer, which is none of the module's arrays. */
    method CopyOut(dst: array<byte>, bytes: seq<byte>, ghost locals: set<Ptr>)
      requires ValidWith(locals) && |bytes| <= dst.Length
      modifies dst
      ensures ValidWith(locals)
      ensures dst[..] == bytes + old(dst[|bytes|..])
    {
      hide Rep, Inv;
      assert dst as object != sessions as object && dst as object != signs as object;
      ghost var ss, gs := sessions[..], signs[..];
      forall k | 0 <= k < |bytes| {
        dst[k] := bytes[k];
      }
      assert sessions[..] == ss && signs[..] == gs;
    }

    /** The running function's block becomes the cached signature of a slot. */
    method CacheSignature(i: nat, sig: Ptr, sigLen: nat)
      requires ValidWith({sig}) && sig in heap && sigLen <= |heap[sig]|
      requires i < MAX_SESSIONS && i < |model.slots| && model.slots[i].Open? && model.slots[i].op.Active?
              && model.slots[i].op.cached.None?
      modifies `owner, `model, signs
      ensures Valid()
      ensures model == SetOp(old(model), i, old(model).slots[i].op.(cached := Some(old(heap)[sig][..sigLen])))
    {
      hide Rep, Inv, SlotCoupled;
      SlotFacts(i, {sig});
      CacheCoupled(heap, sessions[i], signs[i], model.slots[i], sig, sigLen);
      ghost var ss, gs, op := sessions[..], signs[..], model.slots[i].op.(cached := Some(heap[sig][..sigLen]));
      var g := signs[i].(cached := sig, cachedLen := sigLen);
      RepGive(View({sig}), i, sig, g, model.slots[i].(op := op));
      SetCachedKeepsInv(model, i, op.cached);
      model := SetOp(model, i, op);
      owner := owner[sig := Cached(i)];
      signs[i] := g;
      assert signs[..] == gs[i := g] && sessions[..] == ss;
    }

    /** Takes the cached signature out of a slot; the running function owns it now. */
    method TakeCached(i: nat) returns (sig: Ptr, sigLen: nat)
      requires Valid() && i < MAX_SESSIONS && i < |model.slots| && model.slots[i].Open? && model.slots[i].op.Active?
              && signs[i].cached != NULL
      modifies `owner, `model, signs
      ensures ValidWith({sig}) && sig in heap && sigLen <= |heap[sig]|
      ensures old(model).slots[i].op.cached == Some(heap[sig][..sigLen])
      ensures model == SetOp(old(model), i, old(model).slots[i].op.(cached := None))
    {
      hide Rep, Inv, SlotCoupled;
      SlotFacts(i, {});
      TakeCoupled(heap, sessions[i], signs[i], model.slots[i]);
      ghost var ss, gs, op := sessions[..], signs[..], model.slots[i].op.(cached := None);
      sig, sigLen := signs[i].cached, signs[i].cachedLen;
      var g := signs[i].(cached := NULL, cachedLen := 0);
      RepTake(View({}), i, sig, g, model.slots[i].(op := op));
      SetCachedKeepsInv(model, i, None);
      model := SetOp(model, i, op);
      owner := owner[sig := Local];
      signs[i] := g;
      assert signs[..] == gs[i := g] && sessions[..] == ss;
    }

    /** do_sign. */
    method SignSlot(i: nat, data: seq<byte>, dst: array?<byte>, len: Option<nat>) returns (r: Reply)
      requires Valid() && i < MAX_SESSIONS && i < |model.slots| && model.slots[i].Open?
      requires RoomOk(dst, len)
      modifies `heap, `nextPtr, `allocs, `log, `owner, `model, signs, if dst == null then {} else {dst}
      ensures Valid()
      ensures old(model).slots[i].op.Active? ==> old(model).slots[i].op.obj < |old(model).objects|
      ensures Outcome(model, r) == DoSign(env, old(model), i, data, SigArg(dst != null, len))
      ensures dst != null ==> dst[..] == AfterReply(old(dst[..]), r)
    {
      hide Rep, View, Inv, Produce;
      ghost var before := model;
      SlotFacts(i, {});
      if !signs[i].active {
        return Signed(OperationNotInitialized, None, None);
      }
      if len.None? {
        return Signed(ArgumentsBad, None, None);
      }
      assert dst != null ==> dst as object != signs as object;
      var sig, sigLen, rv;
      if signs[i].cached != NULL {
        sig, sigLen := TakeCached(i);
        r := HandOver(i, sig, sigLen, dst, len.value);
        DeliverAfterTaking(before, i, SigArg(dst != null, len));
        return;
      }
      rv, sig, sigLen := MakeSignature(i, data);
      if rv != Ok {
        SignReset(i, {});
        return Signed(rv, None, None);
      }
      r := HandOver(i, sig, sigLen, dst, len.value);
    }

    /** C_Sign. */
    method Sign(h: nat, data: seq<byte>, dst: array?<byte>, len: Option<nat>) returns (r: Reply)
      requires Valid() && RoomOk(dst, len)
      modifies `heap, `nextPtr, `allocs, `log, `owner, `model, signs, if dst == null then {} else {dst}
      ensures Valid()
      ensures Outcome(model, r) == SignStep(env, old(model), h, Some(data), SigArg(dst != null, len))
      ensures dst != null ==> dst[..] == AfterReply(old(dst[..]), r)
    {
      hide Rep, View, Inv, DoSign;
      if !initialized {
        return Signed(NotInitialized, None, None);
      }
      var i := FindSlot(h);
      if i == MAX_SESSIONS {
        return Signed(SessionHandleInvalid, None, None);
      }
      r := SignSlot(i, data, dst, len);
    }

    /** C_SignFinal: signs what is in the slot's own buffer. */
    method SignFinal(h: nat, dst: array?<byte>, len: Option<nat>) returns (r: Reply)
      requires Valid() && RoomOk(dst, len)
      modifies `heap, `nextPtr, `allocs, `log, `owner, `model, signs, if dst == null then {} else {dst}
      ensures Valid()
      ensures Outcome(model, r) == SignStep(env, old(model), h, None, SigArg(dst != null, len))
      ensures dst != null ==> dst[..] == AfterReply(old(dst[..]), r)
    {
      hide Rep, View, Inv, DoSign;
      if !initialized {
        return Signed(NotInitialized, None, None);
      }
      var i := FindSlot(h);
      if i == MAX_SESSIONS {
        return Signed(SessionHandleInvalid, None, None);
      }
      SlotFacts(i, {});
      var st := signs[i];
      var input := if st.buf == NULL then [] else heap[st.buf][..st.buflen];
      r := SignSlot(i, input, dst, len);
    }

    // ----- finding objects -----

    /** object_matches: the loop over the template, one kind of attribute at a time. */
    static method MatchesTemplate(o: KeyObject, template: seq<Attr>) returns (b: bool)
      ensures b == ObjectMatches(o, template)
    {
      var i := 0;
      while i < |template|
        invariant 0 <= i <= |template|
        invariant forall k | 0 <= k < i :: EntryMatches(o, template[k])
      {
        var a := template[i];
        match a.kind {
          case Class =>
            if |a.value| != 8 || a.value != Ulong(PRIVATE_KEY_CLASS) {
              return false;
            }
          case KeyTypeAttr =>
            if |a.value| != 8 || a.value != Ulong(KeyTypeNumber(o.ktype)) {
              return false;
            }
          case Label =>
            if a.value != o.keyLabel {
              return false;
            }
          case Id =>
            if a.value != o.id {
              return false;
            }
          case _ =>
            return false;
        }
        i := i + 1;
      }
      b := true;
    }

    static method CollectMatches(objects: seq<KeyObject>, template: seq<Attr>) returns (found: seq<nat>)
      ensures found == MatchingHandles(objects, template)
    {
      found := [];
      var k := 0;
      while k < |objects|
        invariant 0 <= k <= |objects|
        invariant found == MatchingHandles(objects[..k], template)
      {
        assert objects[..k + 1][..k] == objects[..k];
        var matches := MatchesTemplate(objects[k], template);
        if matches {
          found := found + [objects[k].handle];
        }
        k := k + 1;
      }
      assert objects[..k] == objects;
    }

    /** C_FindObjectsInit. */
    method FindObjectsInit(h: nat, template: seq<Attr>) returns (r: Reply)
      requires Valid()
      modifies `allocs, `model, `findHandles, `findPos, `findActive
      ensures Valid()
      ensures Outcome(model, r) == FindObjectsInitStep(env, old(model), h, template)
    {
      hide Rep, Inv;
      if !initialized {
        return Status(NotInitialized);
      }
      var i := FindSlot(h);
      if i == MAX_SESSIONS {
        return Status(SessionHandleInvalid);
      }
      if findActive {
        return Status(OperationActive);
      }
      var found: seq<nat> := [];
      if |objects| > 0 {
        var ok := TryAlloc({});
        if !ok {
          SetFind(NO_FIND);
          return Status(HostMemory);
        }
        found := CollectMatches(objects, template);
      }
      SetFind(Find.Find(true, found, 0));
      r := Status(Ok);
    }

    /** Overwrites the search cursor. */
    method SetFind(f: Find)
      requires Valid() && f.pos <= |f.handles|
      modifies `model, `findHandles, `findPos, `findActive
      ensures Valid() && model == old(model).(find := f)
    {
      hide Rep, Inv;
      FindKeepsInv(model, f);
      findActive, findHandles, findPos := f.active, f.handles, f.pos;
      model := model.(find := f);
    }

    /** C_FindObjects: hands out the next handles through the caller's array. */
    method FindObjects(h: nat, phObject: array?<nat>, max: nat, hasCount: bool) returns (rv: Rv, n: nat)
      requires Valid() && (phObject != null ==> max <= phObject.Length)
      modifies `model, `findHandles, `findPos, `findActive, if phObject == null then {} else {phObject}
      ensures Valid()
      ensures |old(model).find.handles| >= old(model).find.pos
      ensures rv != Ok ==>
                Outcome(model, Status(rv)) == FindObjectsStep(old(model), h, phObject != null && hasCount, max)
      ensures rv == Ok ==>
                && phObject != null && n <= max
                && Outcome(model, Found(Ok, phObject[..n])) == FindObjectsStep(old(model), h, true, max)
                && phObject[n..] == old(phObject[n..])
    {
      hide Rep, Inv;
      InvSlots(model);
      if !initialized {
        return NotInitialized, 0;
      }
      var i := FindSlot(h);
      if i == MAX_SESSIONS {
        return SessionHandleInvalid, 0;
      }
      if !findActive {
        return OperationNotInitialized, 0;
      }
      if phObject == null || !hasCount {
        return ArgumentsBad, 0;
      }
      assert phObject as object != sessions as object && phObject as object != signs as object;
      ghost var ss, gs := sessions[..], signs[..];
      n := CopyHandles(findHandles, findPos, phObject, max);
      assert sessions[..] == ss && signs[..] == gs;
      SetFind(Find.Find(true, findHandles, findPos + n));
      rv := Ok;
    }

    /** The copying loop: as many handles as are left and as there is room for. */
    static method CopyHandles(handles: seq<nat>, pos: nat, dst: array<nat>, max: nat) returns (n: nat)
      requires pos <= |handles| && max <= dst.Length
      modifies dst
      ensures n == if |handles| - pos <= max then |handles| - pos else max
      ensures dst[..n] == handles[pos..pos + n] && dst[n..] == old(dst[n..])
    {
      n := 0;
      while pos + n < |handles| && n < max
        invariant pos + n <= |handles| && n <= max
        invariant forall k | 0 <= k < n :: dst[k] == handles[pos + k]
        invariant forall k | n <= k < dst.Length :: dst[k] == old(dst[k])
      {
        dst[n] := handles[pos + n];
        n := n + 1;
      }
      assert dst[..n] == handles[pos..pos + n];
    }

    /** C_FindObjectsFinal. */
    method FindObjectsFinal(h: nat) returns (r: Reply)
      requires Valid()
      modifies `model, `findHandles, `findPos, `findActive
      ensures Valid()
      ensures Outcome(model, r) == FindObjectsFinalStep(old(model), h)
    {
      hide Rep, Inv;
      if !initialized {
        return Status(NotInitialized);
      }
      var i := FindSlot(h);
      if i == MAX_SESSIONS {
        return Status(SessionHandleInvalid);
      }
      SetFind(NO_FIND);
      r := Status(Ok);
    }

    // ----- attributes -----

    /** C_GetAttributeValue: the checks before the loop; the module's state is only read. */
    method GetAttributeValue(h: nat, hObject: nat, template: array?<Cell>, count: nat) returns (rv: Rv)
      requires Valid()
      requires template != null ==> template.Length == count && forall c | c in template[..] :: CellOk(c)
      modifies if template == null then {} else {template}
      ensures Valid() && model == old(model)
      ensures template != null ==> forall c | c in old(template[..]) :: CellOk(c)
      ensures rv == if !initialized then NotInitialized
                    else if FindSession(model.slots, h) == |model.slots| then SessionHandleInvalid
                    else if hObject == 0 || hObject > |objects| then ObjectHandleInvalid
                    else if template == null then (if count > 0 then ArgumentsBad else Ok)
                    else ReturnCode(objects[hObject - 1], old(template[..]))
      ensures template != null && rv in {NotInitialized, SessionHandleInvalid, ObjectHandleInvalid} ==>
                template[..] == old(template[..])
      ensures template != null && rv !in {NotInitialized, SessionHandleInvalid, ObjectHandleInvalid} ==>
                && 0 < hObject <= |objects|
                && forall i | 0 <= i < template.Length ::
                    template[i] == Query(objects[hObject - 1], old(template[..])[i]).0
    {
      hide Rep, View, Inv, Query, ReturnCode;
      if !initialized {
        return NotInitialized;
      }
      var i := FindSlot(h);
      if i == MAX_SESSIONS {
        return SessionHandleInvalid;
      }
      var k := FindObject(hObject);
      if k == |objects| {
        return ObjectHandleInvalid;
      }
      if template == null {
        return if count > 0 then ArgumentsBad else Ok;
      }
      assert template as object != sessions as object && template as object != signs as object;
      ghost var ss, gs := sessions[..], signs[..];
      rv := GetAttributeValues(objects[k], template);
      assert sessions[..] == ss && signs[..] == gs;
    }
  }
}
