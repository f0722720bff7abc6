/**
 How the module's structs and heap blocks stand for its abstract slots, and how each
 change of them keeps every block owned by exactly one field of one slot.
 */
module Layout {
  import opened Bytes
  import opened Hashes
  import opened Pkcs11

  /** A heap address; 0 is the null pointer. */
  type Ptr = nat
  const NULL: Ptr := 0

  type Heap = map<Ptr, seq<byte>>

  datatype SessionRec = SessionRec(handle: nat, slot: nat, open: bool)

  datatype SignRec = SignRec(
    active: bool, objIndex: nat, digestMech: bool, pss: bool, md: Option<Hash>, hashAlg: nat,
    buf: Ptr, buflen: nat, bufcap: nat, cached: Ptr, cachedLen: nat)

  const ZERO_SESSION := SessionRec(0, 0, false)
  const ZERO_SIGN := SignRec(false, 0, false, false, None, 0, NULL, 0, 0, NULL, 0)

  /** Who frees a block: the input or cached field of a slot, or the running function. */
  datatype Owner = Input(slot: nat) | Cached(slot: nat) | Local

  type Owners = map<Ptr, Owner>

  ghost predicate OpCoupled(heap: Heap, g: SignRec, op: Op) {
    && op.Active? && g.active
    && g.objIndex == op.obj && g.pss == op.row.pss && g.md == op.row.hash && g.digestMech == g.md.Some?
    && g.hashAlg == op.hashAlg && g.buflen == |op.input| && g.bufcap == op.cap
    && (g.buf == NULL ==> g.bufcap == 0 && g.buflen == 0)
    && (g.buf != NULL ==> g.buf in heap && g.buflen <= |heap[g.buf]| == g.bufcap && heap[g.buf][..g.buflen] == op.input)
    && (g.cached == NULL ==> op.cached == None && g.cachedLen == 0)
    && (g.cached != NULL ==>
          g.cached in heap && g.cachedLen <= |heap[g.cached]| && op.cached == Some(heap[g.cached][..g.cachedLen]))
  }

  /** An inactive signing state is all zero, and so is that of a closed slot. */
  ghost predicate SlotCoupled(heap: Heap, s: SessionRec, g: SignRec, m: Slot) {
    match m
    case Closed => !s.open && g == ZERO_SIGN
    case Open(h, op) => s.open && s.handle == h && if op.Idle? then g == ZERO_SIGN else OpCoupled(heap, g, op)
  }

  predicate OwnerRight(o: Owner, p: Ptr, gs: seq<SignRec>, locals: set<Ptr>) {
    match o
    case Input(i) => i < |gs| && gs[i].buf == p
    case Cached(i) => i < |gs| && gs[i].cached == p
    case Local => p in locals
  }

  predicate FieldsOwn(g: SignRec, i: nat, owner: Owners) {
    && (g.buf != NULL ==> g.buf in owner && owner[g.buf] == Input(i))
    && (g.cached != NULL ==> g.cached in owner && owner[g.cached] == Cached(i))
  }

  /** The memory of the module: heap with the owners of its blocks, the two arrays of
      structs, the abstract slots that they stand for, and the blocks that the running
      function owns itself. */
  datatype Memory = Memory(
    heap: Heap, owner: Owners, next: Ptr, ss: seq<SessionRec>, gs: seq<SignRec>, ms: seq<Slot>, locals: set<Ptr>)

  ghost predicate SlotsCoupled(l: Memory) {
    && |l.ss| == |l.gs| == |l.ms| == MAX_SESSIONS
    && forall i | 0 <= i < MAX_SESSIONS :: SlotCoupled(l.heap, l.ss[i], l.gs[i], l.ms[i])
  }

  /** Every block has one owner, every pointer field owns its block, and addresses are
      never used again, so what is freed once cannot be freed again. */
  ghost predicate Owned(l: Memory) {
    && NULL !in l.heap && 0 < l.next && l.owner.Keys == l.heap.Keys
    && (forall p | p in l.heap :: p < l.next)
    && (forall p | p in l.owner :: OwnerRight(l.owner[p], p, l.gs, l.locals))
    && (forall p | p in l.locals :: p in l.owner && l.owner[p] == Local)
    && (forall i | 0 <= i < |l.gs| :: FieldsOwn(l.gs[i], i, l.owner))
  }

  /** Every block is owned and every struct stands for its abstract slot. */
  ghost predicate Rep(l: Memory) {
    Owned(l) && SlotsCoupled(l)
  }

  /** No leak and no sharing: with no function running, the live blocks are exactly the
      non-null pointer fields, and two fields never hold the same block. */
  lemma OwnedExactly(l: Memory)
    requires Owned(l) && l.locals == {}
    ensures forall p: Ptr ::
              p in l.heap <==>
              p != NULL && exists i :: 0 <= i < |l.gs| && (l.gs[i].buf == p || l.gs[i].cached == p)
    ensures forall i, j | 0 <= i < |l.gs| && 0 <= j < |l.gs| && l.gs[i].buf != NULL ::
              l.gs[i].buf != l.gs[j].cached && (l.gs[i].buf == l.gs[j].buf ==> i == j)
    ensures forall i, j | 0 <= i < |l.gs| && 0 <= j < |l.gs| && l.gs[i].cached != NULL ::
              l.gs[i].cached == l.gs[j].cached ==> i == j
  {
    forall p: Ptr | p in l.heap
      ensures p != NULL && exists i :: 0 <= i < |l.gs| && (l.gs[i].buf == p || l.gs[i].cached == p)
    {
      assert OwnerRight(l.owner[p], p, l.gs, {});
    }
    assert forall i | 0 <= i < |l.gs| :: FieldsOwn(l.gs[i], i, l.owner);
  }

  // ----- one struct and its abstract slot -----

  lemma ResetCoupled(heap: Heap, heap': Heap, s: SessionRec, g: SignRec, m: Slot)
    requires SlotCoupled(heap, s, g, m)
    ensures SlotCoupled(heap', s, ZERO_SIGN, if m.Open? then m.(op := Idle) else Closed)
  {
  }

  /** A state just filled in stands for an operation without input or signature. */
  lemma StartCoupled(heap: Heap, s: SessionRec, g: SignRec, m: Slot, op: Op)
    requires s.open && m.Open? && s.handle == m.handle
    requires op.Active? && op.input == [] && op.cap == 0 && op.cached.None?
    requires g == ZERO_SIGN.(active := true, objIndex := op.obj, digestMech := op.row.hash.Some?, pss := op.row.pss,
                             md := op.row.hash, hashAlg := op.hashAlg)
    ensures SlotCoupled(heap, s, g, m.(op := op))
  {
  }

  lemma CacheCoupled(heap: Heap, s: SessionRec, g: SignRec, m: Slot, p: Ptr, len: nat)
    requires SlotCoupled(heap, s, g, m) && m.Open? && m.op.Active?
    requires p in heap && p != NULL && len <= |heap[p]|
    ensures SlotCoupled(heap, s, g.(cached := p, cachedLen := len), m.(op := m.op.(cached := Some(heap[p][..len]))))
    ensures m.op.cached.None? ==> g.cached == NULL
  {
  }

  lemma TakeCoupled(heap: Heap, s: SessionRec, g: SignRec, m: Slot)
    requires SlotCoupled(heap, s, g, m) && m.Open? && m.op.Active? && g.cached != NULL
    ensures g.cached in heap && g.cachedLen <= |heap[g.cached]| && m.op.cached == Some(heap[g.cached][..g.cachedLen])
    ensures SlotCoupled(heap, s, g.(cached := NULL, cachedLen := 0), m.(op := m.op.(cached := None)))
  {
  }

  /** Input and a part, at the front of a block that replaces the buffer's contents. */
  lemma InputCoupled(heap: Heap, heap': Heap, s: SessionRec, g: SignRec, m: Slot, p: Ptr, part: seq<byte>)
    requires SlotCoupled(heap, s, g, m) && m.Open? && m.op.Active?
    requires p != NULL && p in heap' && g.buflen + |part| <= |heap'[p]|
    requires heap'[p][..g.buflen + |part|] == m.op.input + part
    requires g.cached != NULL ==> g.cached in heap && g.cached in heap' && heap'[g.cached] == heap[g.cached]
    ensures SlotCoupled(heap', s, g.(buf := p, buflen := g.buflen + |part|, bufcap := |heap'[p]|),
                        m.(op := m.op.(input := m.op.input + part, cap := |heap'[p]|)))
  {
  }

  /** The buffer holds the input and has room for the capacity. */
  lemma BufferCoupled(heap: Heap, s: SessionRec, g: SignRec, m: Slot)
    requires SlotCoupled(heap, s, g, m) && m.Open? && m.op.Active?
    ensures g.buflen == |m.op.input| && g.bufcap == m.op.cap
    ensures g.buf == NULL ==> m.op.input == [] && g.bufcap == 0
    ensures g.buf != NULL ==>
              g.buf in heap && g.buflen <= |heap[g.buf]| == g.bufcap && heap[g.buf][..g.buflen] == m.op.input
    ensures g.cached != NULL ==> g.cached in heap
  {
  }

  // ----- reading -----

  /** What the layout says of one slot. */
  lemma RepSlot(l: Memory, i: nat)
    requires Rep(l) && i < MAX_SESSIONS
    ensures |l.ss| == |l.gs| == |l.ms| == MAX_SESSIONS
    ensures SlotCoupled(l.heap, l.ss[i], l.gs[i], l.ms[i])
    ensures FieldsOwn(l.gs[i], i, l.owner)
    ensures l.owner.Keys == l.heap.Keys && NULL !in l.heap
  {
  }

  /** A closed module owns nothing. */
  lemma RepClosed(l: Memory)
    requires Rep(l) && l.ms == AllClosed() && l.locals == {}
    ensures l.heap == map[] && forall i | 0 <= i < |l.gs| :: l.gs[i] == ZERO_SIGN
  {
    forall i | 0 <= i < |l.gs|
      ensures l.gs[i] == ZERO_SIGN
    {
      assert SlotCoupled(l.heap, l.ss[i], l.gs[i], AllClosed()[i]);
    }
    OwnedExactly(l);
    assert forall p: Ptr :: p !in l.heap;
  }

  /** Without blocks there are no owners. */
  lemma RepOwnerEmpty(l: Memory)
    requires Rep(l) && l.heap == map[]
    ensures l.owner == map[] && l.next > 0
  {
    assert l.owner.Keys == {};
  }

  lemma ZeroRep(next: Ptr)
    requires next > 0
    ensures Rep(Memory(map[], map[], next, seq(MAX_SESSIONS, _ => ZERO_SESSION), seq(MAX_SESSIONS, _ => ZERO_SIGN),
            AllClosed(), {}))
  {
  }

  // ----- blocks of the running function -----

  /** The slots only depend on the blocks that they own. */
  lemma CoupledFrame(l: Memory, l': Memory)
    requires SlotsCoupled(l) && l'.ss == l.ss && l'.gs == l.gs && l'.ms == l.ms
    requires forall i | 0 <= i < |l.gs| :: FieldsOwn(l.gs[i], i, l.owner)
    requires forall p | p in l.owner && l.owner[p] != Local && p in l.heap :: p in l'.heap && l'.heap[p] == l.heap[p]
    ensures SlotsCoupled(l')
  {
    forall i | 0 <= i < MAX_SESSIONS
      ensures SlotCoupled(l'.heap, l.ss[i], l.gs[i], l.ms[i])
    {
      assert SlotCoupled(l.heap, l.ss[i], l.gs[i], l.ms[i]);
      assert FieldsOwn(l.gs[i], i, l.owner);
    }
  }

  lemma RepAlloc(l: Memory, block: seq<byte>)
    requires Rep(l)
    ensures Rep(l.(heap := l.heap[l.next := block], owner := l.owner[l.next := Local], next := l.next + 1,
            locals := l.locals + {l.next}))
    ensures l.next != NULL && l.next !in l.heap && l.next !in l.locals
  {
    var l' := l.(heap := l.heap[l.next := block], owner := l.owner[l.next := Local], next := l.next + 1,
        locals := l.locals + {l.next});
    forall p | p in l'.owner
      ensures OwnerRight(l'.owner[p], p, l'.gs, l'.locals)
    {
      assert p != l.next ==> OwnerRight(l.owner[p], p, l.gs, l.locals);
    }
    forall i | 0 <= i < |l.gs|
      ensures FieldsOwn(l.gs[i], i, l'.owner)
    {
      assert FieldsOwn(l.gs[i], i, l.owner);
    }
    CoupledFrame(l, l');
  }

  lemma RepFree(l: Memory, p: Ptr)
    requires Rep(l) && p in l.locals
    ensures Rep(l.(heap := l.heap - {p}, owner := l.owner - {p}, locals := l.locals - {p}))
    ensures p in l.heap
  {
    var l' := l.(heap := l.heap - {p}, owner := l.owner - {p}, locals := l.locals - {p});
    forall q | q in l'.owner
      ensures OwnerRight(l'.owner[q], q, l'.gs, l'.locals)
    {
      assert OwnerRight(l.owner[q], q, l.gs, l.locals);
    }
    forall i | 0 <= i < |l.gs|
      ensures FieldsOwn(l.gs[i], i, l'.owner)
    {
      assert FieldsOwn(l.gs[i], i, l.owner);
    }
    CoupledFrame(l, l');
  }

  lemma RepWrite(l: Memory, p: Ptr, block: seq<byte>)
    requires Rep(l) && p in l.locals
    ensures Rep(l.(heap := l.heap[p := block]))
  {
    hide SlotCoupled, SlotsCoupled;
    CoupledFrame(l, l.(heap := l.heap[p := block]));
  }

  // ----- one slot -----

  /** The memory with other structs and another abstract slot at one index. */
  function WithSlot(l: Memory, i: nat, s: SessionRec, g: SignRec, m: Slot): Memory
    requires i < |l.ss| == |l.gs| == |l.ms|
  {
    l.(ss := l.ss[i := s], gs := l.gs[i := g], ms := l.ms[i := m])
  }

  /** A slot changed together with its own blocks leaves the others as they were. */
  lemma CoupledChange(l: Memory, l': Memory, i: nat, s: SessionRec, g: SignRec, m: Slot)
    requires SlotsCoupled(l) && i < MAX_SESSIONS
    requires l'.ss == l.ss[i := s] && l'.gs == l.gs[i := g] && l'.ms == l.ms[i := m]
    requires forall k | 0 <= k < |l.gs| :: FieldsOwn(l.gs[k], k, l.owner)
    requires forall p | p in l.owner && p in l.heap && l.owner[p] !in {Input(i), Cached(i), Local} ::
               p in l'.heap && l'.heap[p] == l.heap[p]
    requires SlotCoupled(l'.heap, s, g, m)
    ensures SlotsCoupled(l')
  {
    forall k | 0 <= k < MAX_SESSIONS
      ensures SlotCoupled(l'.heap, l'.ss[k], l'.gs[k], l'.ms[k])
    {
      assert SlotCoupled(l.heap, l.ss[k], l.gs[k], l.ms[k]);
      assert FieldsOwn(l.gs[k], k, l.owner);
    }
  }

  /** Fields other than the pointers change. */
  lemma RepFields(l: Memory, i: nat, s: SessionRec, g: SignRec, m: Slot)
    requires Rep(l) && i < MAX_SESSIONS
    requires g.buf == l.gs[i].buf && g.cached == l.gs[i].cached && SlotCoupled(l.heap, s, g, m)
    ensures Rep(WithSlot(l, i, s, g, m))
  {
    OwnedSame(l, i, g);
    CoupledChange(l, WithSlot(l, i, s, g, m), i, s, g, m);
  }

  lemma OwnedFields(l: Memory, i: nat)
    requires Owned(l) && i < |l.gs|
    ensures FieldsOwn(l.gs[i], i, l.owner)
  {
  }

  lemma OwnedSame(l: Memory, i: nat, g: SignRec)
    requires Owned(l) && i < |l.gs|
    requires g.buf == l.gs[i].buf && g.cached == l.gs[i].cached
    ensures Owned(l.(gs := l.gs[i := g]))
  {
    var gs' := l.gs[i := g];
    forall q | q in l.owner
      ensures OwnerRight(l.owner[q], q, gs', l.locals)
    {
      assert OwnerRight(l.owner[q], q, l.gs, l.locals);
    }
    forall k | 0 <= k < |gs'|
      ensures FieldsOwn(gs'[k], k, l.owner)
    {
      assert FieldsOwn(l.gs[k], k, l.owner);
    }
  }

  lemma OwnedReset(l: Memory, i: nat)
    requires Owned(l) && i < |l.gs|
    ensures var gone := {l.gs[i].buf, l.gs[i].cached};
            Owned(l.(heap := l.heap - gone, owner := l.owner - gone, gs := l.gs[i := ZERO_SIGN]))
  {
    var gone := {l.gs[i].buf, l.gs[i].cached};
    assert FieldsOwn(l.gs[i], i, l.owner);
    var owner', gs' := l.owner - gone, l.gs[i := ZERO_SIGN];
    forall p | p in owner'
      ensures OwnerRight(owner'[p], p, gs', l.locals)
    {
      assert OwnerRight(l.owner[p], p, l.gs, l.locals);
    }
    forall k | 0 <= k < |gs'|
      ensures FieldsOwn(gs'[k], k, owner')
    {
      assert FieldsOwn(l.gs[k], k, l.owner);
    }
  }

  /** Both blocks of a slot are freed, once each, and its signing state is zeroed. */
  lemma RepReset(l: Memory, i: nat, m: Slot)
    requires Rep(l) && i < MAX_SESSIONS
    requires SlotCoupled(l.heap - {l.gs[i].buf, l.gs[i].cached}, l.ss[i], ZERO_SIGN, m)
    ensures var gone := {l.gs[i].buf, l.gs[i].cached};
            Rep(l.(heap := l.heap - gone, owner := l.owner - gone, gs := l.gs[i := ZERO_SIGN], ms := l.ms[i := m]))
  {
    var gone := {l.gs[i].buf, l.gs[i].cached};
    var l' := l.(heap := l.heap - gone, owner := l.owner - gone, gs := l.gs[i := ZERO_SIGN], ms := l.ms[i := m]);
    OwnedReset(l, i);
    OwnedFields(l, i);
    assert l.ss[i := l.ss[i]] == l.ss;
    CoupledChange(l, l', i, l.ss[i], ZERO_SIGN, m);
  }

  lemma OwnedGive(l: Memory, i: nat, p: Ptr, g: SignRec)
    requires Owned(l) && l.locals == {p} && i < |l.gs|
    requires l.gs[i].cached == NULL && g.buf == l.gs[i].buf && g.cached == p
    ensures Owned(l.(owner := l.owner[p := Cached(i)], gs := l.gs[i := g], locals := {}))
  {
    var owner', gs' := l.owner[p := Cached(i)], l.gs[i := g];
    forall q | q in owner'
      ensures OwnerRight(owner'[q], q, gs', {})
    {
      assert q != p ==> OwnerRight(l.owner[q], q, l.gs, {p});
    }
    forall k | 0 <= k < |gs'|
      ensures FieldsOwn(gs'[k], k, owner')
    {
      assert FieldsOwn(l.gs[k], k, l.owner);
    }
  }

  /** The running function's only block becomes the cached signature of slot i. */
  lemma RepGive(l: Memory, i: nat, p: Ptr, g: SignRec, m: Slot)
    requires Rep(l) && l.locals == {p} && i < MAX_SESSIONS
    requires l.gs[i].cached == NULL && g.buf == l.gs[i].buf && g.cached == p && SlotCoupled(l.heap, l.ss[i], g, m)
    ensures Rep(l.(owner := l.owner[p := Cached(i)], gs := l.gs[i := g], ms := l.ms[i := m], locals := {}))
  {
    OwnedGive(l, i, p, g);
    assert l.ss[i := l.ss[i]] == l.ss;
    var l' := l.(owner := l.owner[p := Cached(i)], gs := l.gs[i := g], ms := l.ms[i := m], locals := {});
    CoupledChange(l, l', i, l.ss[i], g, m);
  }

  lemma OwnedTake(l: Memory, i: nat, p: Ptr, g: SignRec)
    requires Owned(l) && l.locals == {} && i < |l.gs|
    requires p == l.gs[i].cached != NULL && g.buf == l.gs[i].buf && g.cached == NULL
    ensures Owned(l.(owner := l.owner[p := Local], gs := l.gs[i := g], locals := {p}))
  {
    assert FieldsOwn(l.gs[i], i, l.owner);
    var owner', gs' := l.owner[p := Local], l.gs[i := g];
    forall q | q in owner'
      ensures OwnerRight(owner'[q], q, gs', {p})
    {
      assert q != p ==> OwnerRight(l.owner[q], q, l.gs, {});
    }
    forall k | 0 <= k < |gs'|
      ensures FieldsOwn(gs'[k], k, owner')
    {
      assert FieldsOwn(l.gs[k], k, l.owner);
    }
  }

  /** The cached signature of slot i becomes the running function's only block. */
  lemma RepTake(l: Memory, i: nat, p: Ptr, g: SignRec, m: Slot)
    requires Rep(l) && l.locals == {} && i < MAX_SESSIONS
    requires p == l.gs[i].cached != NULL && g.buf == l.gs[i].buf && g.cached == NULL
            && SlotCoupled(l.heap, l.ss[i], g, m)
    ensures p in l.heap
    ensures Rep(l.(owner := l.owner[p := Local], gs := l.gs[i := g], ms := l.ms[i := m], locals := {p}))
  {
    OwnedTake(l, i, p, g);
    OwnedFields(l, i);
    assert l.ss[i := l.ss[i]] == l.ss;
    var l' := l.(owner := l.owner[p := Local], gs := l.gs[i := g], ms := l.ms[i := m], locals := {p});
    CoupledChange(l, l', i, l.ss[i], g, m);
  }

  /** The owners after block p has become the buffer of slot i in place of block b. */
  function Swapped(owner: Owners, i: nat, p: Ptr, b: Ptr): Owners {
    if b == NULL then owner[p := Input(i)] else owner[p := Input(i)][b := Local]
  }

  function Leftover(b: Ptr): set<Ptr> {
    if b == NULL then {} else {b}
  }

  lemma OwnedSwap(l: Memory, i: nat, p: Ptr, g: SignRec)
    requires Owned(l) && l.locals == {p} && i < |l.gs|
    requires g.buf == p && g.cached == l.gs[i].cached
    ensures var b := l.gs[i].buf;
            Owned(l.(owner := Swapped(l.owner, i, p, b), gs := l.gs[i := g], locals := Leftover(b)))
  {
    var b := l.gs[i].buf;
    assert FieldsOwn(l.gs[i], i, l.owner);
    var owner', gs', locals := Swapped(l.owner, i, p, b), l.gs[i := g], Leftover(b);
    forall q | q in owner'
      ensures OwnerRight(owner'[q], q, gs', locals)
    {
      assert q != p ==> OwnerRight(l.owner[q], q, l.gs, {p});
    }
    forall k | 0 <= k < |gs'|
      ensures FieldsOwn(gs'[k], k, owner')
    {
      assert FieldsOwn(l.gs[k], k, l.owner);
    }
  }

  /** The running function's only block takes the place of the input buffer of slot i,
      which is then the running function's to free. */
  lemma RepSwap(l: Memory, i: nat, p: Ptr, g: SignRec, m: Slot)
    requires Rep(l) && l.locals == {p} && i < MAX_SESSIONS
    requires g.buf == p && g.cached == l.gs[i].cached && SlotCoupled(l.heap, l.ss[i], g, m)
    ensures var b := l.gs[i].buf;
            Rep(l.(owner := Swapped(l.owner, i, p, b), gs := l.gs[i := g], ms := l.ms[i := m], locals := Leftover(b)))
  {
    var b := l.gs[i].buf;
    OwnedSwap(l, i, p, g);
    assert l.ss[i := l.ss[i]] == l.ss;
    var l' := l.(owner := Swapped(l.owner, i, p, b), gs := l.gs[i := g], ms := l.ms[i := m], locals := Leftover(b));
    CoupledChange(l, l', i, l.ss[i], g, m);
  }

  /** memcpy into the input buffer of slot i. */
  lemma RepAppend(l: Memory, i: nat, block: seq<byte>, g: SignRec, m: Slot)
    requires Rep(l) && l.locals == {} && i < MAX_SESSIONS
    requires l.gs[i].buf != NULL && g.buf == l.gs[i].buf && g.cached == l.gs[i].cached
    requires SlotCoupled(l.heap[l.gs[i].buf := block], l.ss[i], g, m)
    ensures Rep(l.(heap := l.heap[l.gs[i].buf := block], gs := l.gs[i := g], ms := l.ms[i := m]))
  {
    OwnedFields(l, i);
    OwnedSame(l, i, g);
    var heap' := l.heap[l.gs[i].buf := block];
    assert heap'.Keys == l.heap.Keys;
    assert l.ss[i := l.ss[i]] == l.ss;
    CoupledChange(l, l.(heap := heap', gs := l.gs[i := g], ms := l.ms[i := m]), i, l.ss[i], g, m);
  }
}
