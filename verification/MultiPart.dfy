/** Signing in parts refines signing at once. */
module MultiPart {
  import opened Bytes
  import opened Pkcs11
  import opened Runs

  function Flatten(chunks: seq<seq<byte>>): seq<byte> {
    if chunks == [] then [] else chunks[0] + Flatten(chunks[1..])
  }

  /** One C_SignUpdate for each chunk. */
  function Updates(h: nat, chunks: seq<seq<byte>>): seq<Call> {
    if chunks == [] then [] else [SignUpdate(h, chunks[0])] + Updates(h, chunks[1..])
  }

  ghost predicate NoAllocFailure(env: Env) {
    forall k: nat :: env.alloc(k)
  }

  /** w' is w after bytes were added to the active operation of slot i: beside them
      only its capacity and the number of allocations differ. */
  ghost predicate Accumulated(w: World, w': World, i: nat, bytes: seq<byte>) {
    && i < |w.slots| == |w'.slots|
    && w.slots[i].Open? && w.slots[i].op.Active?
    && w'.slots[i].Open? && w'.slots[i].op.Active?
    && w' == SetOp(w.(io := w.io.(allocs := w'.io.allocs)), i,
                   w.slots[i].op.(input := w.slots[i].op.input + bytes, cap := w'.slots[i].op.cap))
  }

  lemma AccumulatedTwice(w: World, w': World, w'': World, i: nat, a: seq<byte>, b: seq<byte>)
    requires Accumulated(w, w', i, a) && Accumulated(w', w'', i, b)
    ensures Accumulated(w, w'', i, a + b)
  {
    var op := w.slots[i].op;
    assert op.input + a + b == op.input + (a + b);
    assert w''.slots == w.slots[i := w''.slots[i]];
  }

  lemma UpdateAccumulates(env: Env, w: World, h: nat, part: seq<byte>)
    requires Inv(w) && NoAllocFailure(env)
    requires OpOf(w, h).Some? && OpOf(w, h).value.Active?
    ensures Accumulated(w, Step(env, w, SignUpdate(h, part)).w, FindSession(w.slots, h), part)
    ensures Step(env, w, SignUpdate(h, part)).reply == Status(Ok)
  {
    var i, w' := FindSession(w.slots, h), Step(env, w, SignUpdate(h, part)).w;
    assert env.alloc(w.io.allocs);
    assert w'.slots == w.slots[i := w'.slots[i]];
  }

  lemma {:induction false} UpdatesAccumulate(env: Env, w: World, h: nat, chunks: seq<seq<byte>>)
    requires Inv(w) && NoAllocFailure(env)
    requires OpOf(w, h).Some? && OpOf(w, h).value.Active?
    ensures Accumulated(w, Run(env, w, Updates(h, chunks)), FindSession(w.slots, h), Flatten(chunks))
    decreases |chunks|
  {
    var i := FindSession(w.slots, h);
    if chunks == [] {
      assert w.slots[i].op.input + [] == w.slots[i].op.input;
      assert w.slots == w.slots[i := w.slots[i]];
    } else {
      var c, rest := SignUpdate(h, chunks[0]), Updates(h, chunks[1..]);
      var w' := Step(env, w, c).w;
      UpdateAccumulates(env, w, h, chunks[0]);
      StepKeepsInv(env, w, c);
      FindsSlot(w', i);
      UpdatesAccumulate(env, w', h, chunks[1..]);
      AccumulatedTwice(w, w', Run(env, w', rest), i, chunks[0], Flatten(chunks[1..]));
      assert Updates(h, chunks)[0] == c && Updates(h, chunks)[1..] == rest;
    }
  }

  lemma {:induction false} IdleUpdatesDoNothing(env: Env, w: World, h: nat, chunks: seq<seq<byte>>)
    requires Inv(w)
    requires !(OpOf(w, h).Some? && OpOf(w, h).value.Active?)
    ensures Run(env, w, Updates(h, chunks)) == w
  {
    if chunks != [] {
      var c := SignUpdate(h, chunks[0]);
      assert Updates(h, chunks)[0] == c && Updates(h, chunks)[1..] == Updates(h, chunks[1..]);
      assert Step(env, w, c).w == w;
      IdleUpdatesDoNothing(env, w, h, chunks[1..]);
    }
  }

  /** With every allocation granted, their number does not matter. */
  lemma ProduceIgnoresCount(env: Env, io: Ledger, a: nat, o: KeyObject, row: MechRow, hashAlg: nat, data: seq<byte>)
    requires NoAllocFailure(env)
    ensures var p, q := Produce(env, io, o, row, hashAlg, data), Produce(env, io.(allocs := a), o, row, hashAlg, data);
            p.1 == q.1 && p.0.log == q.0.log
  {
    var (io1, p1) := BuildDigest(env, io, row, hashAlg, o.ktype, data);
    var (io2, p2) := BuildDigest(env, io.(allocs := a), row, hashAlg, o.ktype, data);
    assert env.alloc(io.allocs) && env.alloc(a);
    assert p1 == p2 && io1.log == io2.log == io.log;
    if p1.Ready? {
      var r := MakeRequest(o, p1, row.pss);
      var (io3, d1) := AskServer(env, io1, r);
      var (io4, d2) := AskServer(env, io2, r);
      assert env.alloc(io1.allocs) && env.alloc(io2.allocs);
      assert d1 == d2 && io3.log == io4.log;
      assert env.alloc(io3.allocs) && env.alloc(io4.allocs);
    }
  }

  /** The state without what a caller cannot see: how many allocations were made, and
      the input and capacity that an operation still active has gathered. */
  function Visible(w: World, h: nat): World {
    VisibleAt(w, FindSession(w.slots, h))
  }

  function VisibleAt(w: World, i: nat): World {
    var w1 := w.(io := w.io.(allocs := 0));
    if i < |w.slots| && w.slots[i].Open? && w.slots[i].op.Active? then
      SetOp(w1, i, w.slots[i].op.(input := [], cap := 0))
    else w1
  }

  /** Setting an operation in both states leaves the same to be seen. */
  lemma SetOpVisible(w: World, w': World, i: nat, bytes: seq<byte>, io: Ledger, io': Ledger, op: Op, op': Op)
    requires Accumulated(w, w', i, bytes) && io.log == io'.log
    requires op == op' || (op.Active? && op'.Active? && op' == op.(input := op'.input, cap := op'.cap))
    ensures VisibleAt(SetOp(w.(io := io), i, op), i) == VisibleAt(SetOp(w'.(io := io'), i, op'), i)
  {
    var s, s' := SetOp(w.(io := io), i, op).slots, SetOp(w'.(io := io'), i, op').slots;
    assert forall k | 0 <= k < |s| && k != i :: s[k] == s'[k];
    assert VisibleAt(SetOp(w.(io := io), i, op), i).slots == VisibleAt(SetOp(w'.(io := io'), i, op'), i).slots;
  }

  lemma DeliverVisible(w: World, w': World, i: nat, bytes: seq<byte>, io: Ledger, io': Ledger, sig: seq<byte>,
        arg: SigArg)
    requires Accumulated(w, w', i, bytes) && io.log == io'.log && arg.len.Some?
    ensures var one, other := Deliver(w.(io := io), i, sig, arg), Deliver(w'.(io := io'), i, sig, arg);
            one.reply == other.reply && VisibleAt(one.w, i) == VisibleAt(other.w, i)
  {
    SetOpVisible(w, w', i, bytes, io, io', Idle, Idle);
    SetOpVisible(w, w', i, bytes, io, io', w.slots[i].op.(cached := Some(sig)), w'.slots[i].op.(cached := Some(sig)));
  }

  lemma DoSignVisible(env: Env, w: World, w': World, i: nat, data: seq<byte>, bytes: seq<byte>, arg: SigArg)
    requires Inv(w) && Inv(w') && NoAllocFailure(env)
    requires Accumulated(w, w', i, bytes)
    ensures var one, other := DoSign(env, w, i, data, arg), DoSign(env, w', i, data, arg);
            one.reply == other.reply && VisibleAt(one.w, i) == VisibleAt(other.w, i)
  {
    var op := w.slots[i].op;
    ProduceIgnoresCount(env, w.io, w'.io.allocs, w.objects[op.obj], op.row, op.hashAlg, data);
    var (io, p) := Produce(env, w.io, w.objects[op.obj], op.row, op.hashAlg, data);
    var (io', p') := Produce(env, w'.io, w.objects[op.obj], op.row, op.hashAlg, data);
    assert w'.io == w.io.(allocs := w'.io.allocs);
    if arg.len.None? {
      SetOpVisible(w, w', i, bytes, w.io, w'.io, op, w'.slots[i].op);
      assert SetOp(w, i, op).slots == w.slots && SetOp(w', i, w'.slots[i].op).slots == w'.slots;
    } else if op.cached.Some? {
      DeliverVisible(w, w', i, bytes, w.io, w'.io, op.cached.value, arg);
    } else if p.Failed? {
      SetOpVisible(w, w', i, bytes, io, io', Idle, Idle);
    } else {
      DeliverVisible(w, w', i, bytes, io, io', p.sig, arg);
    }
  }

  lemma DoSignAfterAccumulating(env: Env, w: World, w': World, h: nat, data: seq<byte>, bytes: seq<byte>, arg: SigArg)
    requires Inv(w) && Inv(w') && NoAllocFailure(env) && HandleOpen(w, h)
    requires Accumulated(w, w', FindSession(w.slots, h), bytes)
    ensures var i := FindSession(w.slots, h);
            var one, other := DoSign(env, w, i, data, arg), DoSign(env, w', i, data, arg);
            && one.reply == other.reply
            && Visible(one.w, h) == Visible(other.w, h)
  {
    var i := FindSession(w.slots, h);
    DoSignVisible(env, w, w', i, data, bytes, arg);
    FindsSlot(w', i);
    DoSignChangesOnlyOp(env, w, i, data, arg);
    DoSignChangesOnlyOp(env, w', i, data, arg);
    SameSession(w, DoSign(env, w, i, data, arg).w, i);
    SameSession(w', DoSign(env, w', i, data, arg).w, i);
  }

  lemma SameSession(w: World, w': World, i: nat)
    requires Inv(w) && i < |w.slots| && w.slots[i].Open? && OnlyOpChanged(w, w', w.slots[i].handle)
    ensures FindSession(w'.slots, w.slots[i].handle) == i
  {
    FindsSlot(w, i);
  }

  lemma PartsOfActive(env: Env, w: World, h: nat, chunks: seq<seq<byte>>, arg: SigArg)
    requires Inv(w) && NoAllocFailure(env)
    requires OpOf(w, h).Some? && OpOf(w, h).value.Active? && OpOf(w, h).value.input == []
    ensures var single := Step(env, w, Sign(h, Flatten(chunks), arg));
            var multi := Step(env, Run(env, w, Updates(h, chunks)), SignFinal(h, arg));
            single.reply == multi.reply && Visible(single.w, h) == Visible(multi.w, h)
  {
    var i, data := FindSession(w.slots, h), Flatten(chunks);
    UpdatesAccumulate(env, w, h, chunks);
    var w' := Run(env, w, Updates(h, chunks));
    FindsSlot(w', i);
    assert [] + data == data;
    SignCallIsDoSign(env, w, Sign(h, data, arg), h);
    SignCallIsDoSign(env, w', SignFinal(h, arg), h);
    DoSignAfterAccumulating(env, w, w', h, data, data, arg);
  }

  lemma IdleSigns(env: Env, w: World, h: nat, data: seq<byte>, arg: SigArg)
    requires Inv(w)
    requires !(OpOf(w, h).Some? && OpOf(w, h).value.Active?)
    ensures Step(env, w, Sign(h, data, arg)) == Step(env, w, SignFinal(h, arg))
  {
  }

  /** An operation that SignInit starts has no input, no buffer and no signature. */
  lemma InitStartsEmpty(env: Env, w: World, h: nat, mech: Option<MechArg>, key: nat)
    requires Inv(w)
    requires !(OpOf(w, h).Some? && OpOf(w, h).value.Active?)
    ensures Inv(Step(env, w, SignInit(h, mech, key)).w)
    ensures var op := OpOf(Step(env, w, SignInit(h, mech, key)).w, h);
            op.Some? && op.value.Active? ==> op.value.input == [] && op.value.cap == 0 && op.value.cached.None?
  {
    var init := SignInit(h, mech, key);
    StepKeepsInv(env, w, init);
    if HandleOpen(w, h) {
      SigningChangesOnlyOp(env, w, init);
      OnlyOpFinds(w, Step(env, w, init).w, h);
    } else {
      assert Step(env, w, init).w == w;
    }
  }

  /** For every mechanism and every list of chunks: SignInit, an update for each chunk
      and SignFinal send the same requests, reply the same and leave the same visible
      state as SignInit and one Sign of the concatenation. */
  lemma MultiPartRefinesSinglePart(
      env: Env, w: World, h: nat, mech: Option<MechArg>, key: nat, chunks: seq<seq<byte>>, arg: SigArg)
    requires Inv(w) && NoAllocFailure(env)
    requires !(OpOf(w, h).Some? && OpOf(w, h).value.Active?)
    ensures Inv(Step(env, w, SignInit(h, mech, key)).w)
    ensures var w0 := Step(env, w, SignInit(h, mech, key)).w;
            var single := Step(env, w0, Sign(h, Flatten(chunks), arg));
            var multi := Step(env, Run(env, w0, Updates(h, chunks)), SignFinal(h, arg));
            && single.reply == multi.reply
            && Visible(single.w, h) == Visible(multi.w, h)
            && single.w.io.log == multi.w.io.log
  {
    var init := SignInit(h, mech, key);
    StepKeepsInv(env, w, init);
    var w0 := Step(env, w, init).w;
    if OpOf(w0, h).Some? && OpOf(w0, h).value.Active? {
      InitStartsEmpty(env, w, h, mech, key);
      PartsOfActive(env, w0, h, chunks, arg);
    } else {
      IdleUpdatesDoNothing(env, w0, h, chunks);
      IdleSigns(env, w0, h, Flatten(chunks), arg);
    }
  }

  /** Input that arrives after a size query is accepted and never signed: for any two
      late parts the final call returns the same bytes, those of the query. */
  lemma LateInputIsIgnored(env: Env, w: World, h: nat, part: seq<byte>, c: Call)
    requires Inv(w) && CachedSig(w, h).Some?
    requires IsSignCall(c, h) && c.arg.buffer && c.arg.len.Some?
    ensures Inv(Step(env, w, SignUpdate(h, part)).w)
    ensures Step(env, Step(env, w, SignUpdate(h, part)).w, c).reply == Step(env, w, c).reply
    ensures env.alloc(w.io.allocs) ==> Step(env, w, SignUpdate(h, part)).reply == Status(Ok)
  {
    var late := SignUpdate(h, part);
    StepKeepsInv(env, w, late);
    CachedSurvivesStep(env, w, late, h);
    CachedIsDelivered(env, w, c, h);
    CachedIsDelivered(env, Step(env, w, late).w, c, h);
  }
}
