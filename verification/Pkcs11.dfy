/**
 The PKCS#11 module as a state machine over values: one step per entry point,
 driven by an environment that answers every allocation and every request to the
 server as it likes. The class in Ksp11.dfy is proved to take these steps.
 */
module Pkcs11 {
  import opened Bytes
  import opened Hashes
  import EcdsaCodec
  import DigestInfo
  import Thumbprint
  import opened SignatureLength

  const MAX_SESSIONS: nat := 16
  const MAX_SIGNATURE: nat := 1024 * 1024
  const DIGEST_ROOM: nat := 64
  const MAX_FIELD: nat := 128
  const FIRST_CAPACITY: nat := 256

  /** Sizes are 64-bit numbers; doubling stays below the limit up to MAX_NEED. */
  const ULONG_LIMIT: nat := 0x1_0000_0000_0000_0000
  const MAX_NEED: nat := 0x8000_0000_0000_0000

  datatype Rv =
    | Ok | AlreadyInitialized | NotInitialized | ArgumentsBad | DeviceError | HostMemory
    | SlotIdInvalid | SessionReadOnly | SessionCount | SessionHandleInvalid
    | OperationActive | OperationNotInitialized | KeyHandleInvalid | ObjectHandleInvalid
    | MechanismInvalid | FunctionFailed | DataInvalid | BufferTooSmall
    | AttributeSensitive | AttributeTypeInvalid

  // ----- the environment -----

  /** What reaches the server: the bridge has normalised the thumbprint and turned
      the module's numbers into protocol values. */
  datatype Request = Request(thumbprint: string, digest: seq<byte>, hash: Hash, padding: Padding)

  /** reply(k, r) answers the k-th request, alloc(k) says whether the k-th allocation
      succeeds, digest is the local hash function. */
  datatype Env = Env(
    reply: (nat, Request) -> Option<seq<byte>>,
    alloc: nat -> bool,
    digest: (Hash, seq<byte>) -> seq<byte>)

  /** Requests sent and allocations tried so far. */
  datatype Ledger = Ledger(log: seq<Request>, allocs: nat)

  // ----- objects -----

  datatype KeyType = Rsa | Ec

  /** The public key of a certificate as parse_cert_pubkey finds it. */
  datatype CertKey = NoKey | RsaPublic(n: seq<byte>, e: seq<byte>) | EcPublic(params: seq<byte>, point: seq<byte>)

  /** One entry of the bridge's list, already cut to the bridge's C arrays. */
  datatype KeyInfo = KeyInfo(thumbprint: string, subject: seq<byte>, keySize: int, key: CertKey)

  datatype KeyObject = KeyObject(
    handle: nat, ktype: KeyType, keySize: int, thumbprint: string, keyLabel: seq<byte>, id: seq<byte>,
    modulus: seq<byte>, pubexp: seq<byte>, ecParams: seq<byte>, ecPoint: seq<byte>)

  const OCTET_STRING: byte := 0x04

  /** The EC point behind a tag and a one-byte length, dropped when too long. */
  function WrapPoint(point: seq<byte>): seq<byte> {
    if |point| <= 254 then [OCTET_STRING, |point|] + point else []
  }

  function MakeObject(info: KeyInfo, handle: nat): KeyObject {
    var id := Thumbprint.HexDecode(info.thumbprint, 20);
    match info.key
    case NoKey => KeyObject(handle, Rsa, info.keySize, info.thumbprint, info.subject, id, [], [], [], [])
    case RsaPublic(n, e) => KeyObject(handle, Rsa, info.keySize, info.thumbprint, info.subject, id, n, e, [], [])
    case EcPublic(params, point) =>
      KeyObject(handle, Ec, info.keySize, info.thumbprint, info.subject, id, [], [], params, WrapPoint(point))
  }

  /** The objects made from the answers to the indexed gets: failed ones are skipped. */
  function BuildObjects(answers: seq<Option<KeyInfo>>): (objs: seq<KeyObject>)
    ensures |objs| <= |answers|
    ensures forall k | 0 <= k < |objs| :: objs[k].handle == k + 1
  {
    if answers == [] then []
    else
      var before := BuildObjects(answers[..|answers| - 1]);
      match answers[|answers| - 1]
      case None => before
      case Some(info) => before + [MakeObject(info, |before| + 1)]
  }

  /** Bytes of one coordinate; C division truncates towards zero. */
  function FieldBytes(keySize: int): int {
    if keySize + 7 >= 0 then (keySize + 7) / 8 else -((-(keySize + 7)) / 8)
  }

  // ----- mechanisms -----

  datatype Mechanism =
    | RsaPkcs | Sha256RsaPkcs | Sha384RsaPkcs | Sha512RsaPkcs
    | RsaPkcsPss | Sha256RsaPkcsPss | Sha384RsaPkcsPss | Sha512RsaPkcsPss
    | Ecdsa | EcdsaSha256 | EcdsaSha384 | EcdsaSha512
    | OtherMechanism(code: nat)

  datatype MechRow = MechRow(mechanism: Mechanism, hash: Option<Hash>, pss: bool)

  /** The row of the mechanism table, if there is one. */
  function MechOf(m: Mechanism): Option<MechRow> {
    match m
    case RsaPkcs => Some(MechRow(m, None, false))
    case Sha256RsaPkcs => Some(MechRow(m, Some(Sha256), false))
    case Sha384RsaPkcs => Some(MechRow(m, Some(Sha384), false))
    case Sha512RsaPkcs => Some(MechRow(m, Some(Sha512), false))
    case RsaPkcsPss => Some(MechRow(m, None, true))
    case Sha256RsaPkcsPss => Some(MechRow(m, Some(Sha256), true))
    case Sha384RsaPkcsPss => Some(MechRow(m, Some(Sha384), true))
    case Sha512RsaPkcsPss => Some(MechRow(m, Some(Sha512), true))
    case Ecdsa => Some(MechRow(m, None, false))
    case EcdsaSha256 => Some(MechRow(m, Some(Sha256), false))
    case EcdsaSha384 => Some(MechRow(m, Some(Sha384), false))
    case EcdsaSha512 => Some(MechRow(m, Some(Sha512), false))
    case OtherMechanism(_) => None
  }

  predicate IsEcMechanism(m: Mechanism) {
    m.Ecdsa? || m.EcdsaSha256? || m.EcdsaSha384? || m.EcdsaSha512?
  }

  /** mech_ok_for_type. */
  predicate MechOkFor(m: Mechanism, ktype: KeyType) {
    !m.OtherMechanism? && (IsEcMechanism(m) <==> ktype == Ec)
  }

  /** CK_RSA_PKCS_PSS_PARAMS by its numbers: hash mechanism, mask generation function and
      salt length. A null block is none, and so is one too short to be read. */
  datatype PssParam = NoParam | Param(hashAlg: nat, mgf: nat, saltLen: nat)

  const CKM_SHA512_256: nat := 0x4c
  const CKM_SHA256: nat := 0x250
  const CKM_SHA384: nat := 0x260
  const CKM_SHA512: nat := 0x270

  const CKG_MGF1_SHA256: nat := 2
  const CKG_MGF1_SHA384: nat := 3
  const CKG_MGF1_SHA512: nat := 4

  datatype MechArg = MechArg(mechanism: Mechanism, param: PssParam)

  /** The number kept in the signing state: 0 means to be derived from the input. */
  function InitialHashAlg(row: MechRow, param: PssParam): nat {
    match row.hash
    case Some(h) => h.Number()
    case None =>
      if row.pss && param.Param? then
        if param.hashAlg == CKM_SHA384 then 2 else if param.hashAlg == CKM_SHA512 then 3 else 1
      else 0
  }

  // ----- state -----

  /** A signing operation: its key, mechanism, accumulated input and cached signature. */
  datatype Op =
    | Idle
    | Active(obj: nat, row: MechRow, hashAlg: nat, input: seq<byte>, cap: nat, cached: Option<seq<byte>>)

  datatype Slot = Closed | Open(handle: nat, op: Op)

  datatype Find = Find(active: bool, handles: seq<nat>, pos: nat)

  datatype World = World(
    initialized: bool, objects: seq<KeyObject>, slots: seq<Slot>, nextHandle: nat, find: Find, io: Ledger)

  const NO_FIND := Find(false, [], 0)

  function AllClosed(): (s: seq<Slot>)
    ensures |s| == MAX_SESSIONS
  {
    seq(MAX_SESSIONS, _ => Closed)
  }

  const START := World(false, [], AllClosed(), 1, NO_FIND, Ledger([], 0))

  // ----- calls and replies -----

  /** Where the signature goes: no buffer asks for the length, len is what
      pulSignatureLen holds and None when that pointer is null. */
  datatype SigArg = SigArg(buffer: bool, len: Option<nat>)

  datatype FlagKind =
    | TokenFlag | PrivateFlag | ModifiableFlag | CopyableFlag | DestroyableFlag | LocalFlag
    | SignFlag | VerifyFlag | EncryptFlag | DecryptFlag | WrapFlag | UnwrapFlag
    | SensitiveFlag | ExtractableFlag | AlwaysAuthenticateFlag | NeverExtractableFlag

  datatype AttrKind =
    | Class | KeyTypeAttr | Id | Label | Flag(flag: FlagKind)
    | Modulus | PublicExponent | EcParams | EcPoint | Secret | UnknownAttr

  datatype Attr = Attr(kind: AttrKind, value: seq<byte>)

  datatype Call =
    | Initialize(reserved: bool, bridgeUp: bool, answers: seq<Option<KeyInfo>>)
    | Finalize(reserved: bool)
    | OpenSession(slotId: nat, readWrite: bool, hasOut: bool)
    | CloseSession(session: nat)
    | CloseAllSessions(slotId: nat)
    | SignInit(session: nat, mech: Option<MechArg>, key: nat)
    | Sign(session: nat, data: seq<byte>, arg: SigArg)
    | SignUpdate(session: nat, part: seq<byte>)
    | SignFinal(session: nat, arg: SigArg)
    | FindObjectsInit(session: nat, template: seq<Attr>)
    | FindObjects(session: nat, hasOut: bool, max: nat)
    | FindObjectsFinal(session: nat)

  /** The return code and what was written through the caller's pointers. */
  datatype Reply =
    | Status(rv: Rv)
    | Opened(rv: Rv, handle: nat)
    | Signed(rv: Rv, len: Option<nat>, sig: Option<seq<byte>>)
    | Found(rv: Rv, handles: seq<nat>)

  datatype Outcome = Outcome(w: World, reply: Reply)

  // ----- sessions -----

  /** The first open slot with this handle, or the number of slots. */
  function FindSession(slots: seq<Slot>, h: nat): (i: nat)
    ensures i <= |slots|
    ensures i < |slots| ==> slots[i].Open? && slots[i].handle == h
    ensures forall k | 0 <= k < i :: slots[k].Open? ==> slots[k].handle != h
  {
    if slots == [] || (slots[0].Open? && slots[0].handle == h) then 0 else 1 + FindSession(slots[1..], h)
  }

  /** The first closed slot, or the number of slots. */
  function FirstClosed(slots: seq<Slot>): (i: nat)
    ensures i <= |slots|
    ensures i < |slots| ==> slots[i].Closed?
    ensures forall k | 0 <= k < i :: slots[k].Open?
  {
    if slots == [] || slots[0].Closed? then 0 else 1 + FirstClosed(slots[1..])
  }

  function InitializeStep(env: Env, w: World, reserved: bool, bridgeUp: bool, answers: seq<Option<KeyInfo>>): Outcome {
    if w.initialized then Outcome(w, Status(AlreadyInitialized))
    else if reserved then Outcome(w, Status(ArgumentsBad))
    else if !bridgeUp then Outcome(w, Status(DeviceError))
    else if answers == [] then
      Outcome(w.(initialized := true, slots := AllClosed()), Status(Ok))
    else
      var io := w.io.(allocs := w.io.allocs + 1);
      if !env.alloc(w.io.allocs) then Outcome(w.(io := io), Status(HostMemory))
      else Outcome(w.(initialized := true, objects := BuildObjects(answers), slots := AllClosed(), io := io),
          Status(Ok))
  }

  function FinalizeStep(w: World, reserved: bool): Outcome {
    if reserved then Outcome(w, Status(ArgumentsBad))
    else Outcome(w.(initialized := false, objects := [], slots := AllClosed()), Status(Ok))
  }

  function OpenSessionStep(w: World, slotId: nat, readWrite: bool, hasOut: bool): Outcome {
    var i := FirstClosed(w.slots);
    if slotId != 0 then Outcome(w, Status(SlotIdInvalid))
    else if !hasOut then Outcome(w, Status(ArgumentsBad))
    else if !w.initialized then Outcome(w, Status(NotInitialized))
    else if readWrite then Outcome(w, Status(SessionReadOnly))
    else if i == |w.slots| then Outcome(w, Status(SessionCount))
    else Outcome(w.(slots := w.slots[i := Open(w.nextHandle, Idle)], nextHandle := w.nextHandle + 1),
        Opened(Ok, w.nextHandle))
  }

  function CloseSessionStep(w: World, h: nat): Outcome {
    var i := FindSession(w.slots, h);
    if !w.initialized then Outcome(w, Status(NotInitialized))
    else if i == |w.slots| then Outcome(w, Status(SessionHandleInvalid))
    else Outcome(w.(slots := w.slots[i := Closed]), Status(Ok))
  }

  function CloseAllSessionsStep(w: World, slotId: nat): Outcome {
    if slotId != 0 then Outcome(w, Status(SlotIdInvalid))
    else if !w.initialized then Outcome(w, Status(NotInitialized))
    else Outcome(w.(slots := AllClosed()), Status(Ok))
  }

  // ----- signing -----

  function SetOp(w: World, i: nat, op: Op): World
    requires i < |w.slots| && w.slots[i].Open?
  {
    w.(slots := w.slots[i := w.slots[i].(op := op)])
  }

  function SignInitStep(w: World, h: nat, mech: Option<MechArg>, key: nat): Outcome {
    var i := FindSession(w.slots, h);
    if !w.initialized then Outcome(w, Status(NotInitialized))
    else if i == |w.slots| then Outcome(w, Status(SessionHandleInvalid))
    else if key == 0 || key > |w.objects| then Outcome(w, Status(KeyHandleInvalid))
    else if mech.None? then Outcome(w, Status(ArgumentsBad))
    else if w.slots[i].op.Active? then Outcome(w, Status(OperationActive))
    else
      var row := MechOf(mech.value.mechanism);
      if row.None? || !MechOkFor(mech.value.mechanism, w.objects[key - 1].ktype) then
        Outcome(w, Status(MechanismInvalid))
      else
        var alg := InitialHashAlg(row.value, mech.value.param);
        Outcome(SetOp(w, i, Active(key - 1, row.value, alg, [], 0, None)), Status(Ok))
  }

  /** The digest to send with its hash number, or the error that ends the operation. */
  datatype Prepared = Ready(digest: seq<byte>, hashAlg: nat) | Refused(rv: Rv)

  function BuildDigest(env: Env, io: Ledger, row: MechRow, hashAlg: nat, ktype: KeyType, data: seq<byte>)
    : (Ledger, Prepared)
  {
    if row.hash.Some? then
      (io.(allocs := io.allocs + 1),
       if env.alloc(io.allocs) then Ready(env.digest(row.hash.value, data), hashAlg) else Refused(FunctionFailed))
    else if row.pss then
      (io, if |data| > DIGEST_ROOM then Refused(DataInvalid)
           else Ready(data, if hashAlg == 0 then HashNumberFromLength(|data|) else hashAlg))
    else if ktype == Ec then
      (io, if |data| > DIGEST_ROOM then Refused(DataInvalid) else Ready(data, HashNumberFromLength(|data|)))
    else
      (io,
       match DigestInfo.LinuxDigest(data)
       case None => Refused(DataInvalid)
       case Some(d) => Ready(d.bytes, d.hashAlg))
  }

  datatype Produced = Made(sig: seq<byte>) | Failed(rv: Rv)

  function MakeRequest(o: KeyObject, p: Prepared, pss: bool): Request
    requires p.Ready?
  {
    Request(Thumbprint.Normalize(o.thumbprint), p.digest, HashFromInt(p.hashAlg), PaddingFromInt(if pss then 2 else 1))
  }

  /** Two requests: the first for the length, the second for the bytes, which must fit
      the first length plus slack. */
  function AskServer(env: Env, io: Ledger, r: Request): (Ledger, Produced) {
    var io1 := io.(log := io.log + [r]);
    var first := env.reply(|io.log|, r);
    if first.None? || |first.value| == 0 || |first.value| > MAX_SIGNATURE then (io1, Failed(FunctionFailed))
    else
      var io2 := io1.(allocs := io1.allocs + 1);
      if !env.alloc(io1.allocs) then (io2, Failed(HostMemory))
      else
        var io3 := io2.(log := io2.log + [r]);
        var second := env.reply(|io2.log|, r);
        if second.None? || |second.value| > |first.value| + SLACK then (io3, Failed(FunctionFailed))
        else (io3, Made(second.value))
  }

  /** EC signatures are turned into raw r||s of the key's field width. */
  function ConvertSignature(env: Env, io: Ledger, o: KeyObject, sig: seq<byte>): (Ledger, Produced) {
    var field := FieldBytes(o.keySize);
    if o.ktype == Rsa then (io, Made(sig))
    else if field <= 0 || field > MAX_FIELD then (io, Failed(FunctionFailed))
    else if EcdsaCodec.DecodeSignature(sig).Bad? then (io, Failed(FunctionFailed))
    else
      var io1 := io.(allocs := io.allocs + 1);
      match EcdsaCodec.DerToRaw(sig, field)
      case Some(raw) => (io1, if env.alloc(io.allocs) then Made(raw) else Failed(FunctionFailed))
      case None => (io1, Failed(FunctionFailed))
  }

  function Produce(env: Env, io: Ledger, o: KeyObject, row: MechRow, hashAlg: nat, data: seq<byte>)
    : (Ledger, Produced)
  {
    var (io1, p) := BuildDigest(env, io, row, hashAlg, o.ktype, data);
    if p.Refused? then (io1, Failed(p.rv))
    else
      var (io2, der) := AskServer(env, io1, MakeRequest(o, p, row.pss));
      if der.Failed? then (io2, der) else ConvertSignature(env, io2, o, der.sig)
  }

  /** Hands over a signature: a size query caches it, everything else ends the operation. */
  function Deliver(w: World, i: nat, sig: seq<byte>, arg: SigArg): Outcome
    requires i < |w.slots| && w.slots[i].Open? && w.slots[i].op.Active? && arg.len.Some?
  {
    if !arg.buffer then
      Outcome(SetOp(w, i, w.slots[i].op.(cached := Some(sig))), Signed(Ok, Some(|sig|), None))
    else if arg.len.value < |sig| then
      Outcome(SetOp(w, i, Idle), Signed(BufferTooSmall, Some(|sig|), None))
    else
      Outcome(SetOp(w, i, Idle), Signed(Ok, Some(|sig|), Some(sig)))
  }

  function DoSign(env: Env, w: World, i: nat, data: seq<byte>, arg: SigArg): Outcome
    requires i < |w.slots| && w.slots[i].Open?
    requires w.slots[i].op.Active? ==> w.slots[i].op.obj < |w.objects|
  {
    var op := w.slots[i].op;
    if op.Idle? then Outcome(w, Signed(OperationNotInitialized, None, None))
    else if arg.len.None? then Outcome(w, Signed(ArgumentsBad, None, None))
    else if op.cached.Some? then Deliver(w, i, op.cached.value, arg)
    else
      var (io, p) := Produce(env, w.io, w.objects[op.obj], op.row, op.hashAlg, data);
      match p
      case Failed(rv) => Outcome(SetOp(w.(io := io), i, Idle), Signed(rv, None, None))
      case Made(sig) => Deliver(w.(io := io), i, sig, arg)
  }

  function SignStep(env: Env, w: World, h: nat, data: Option<seq<byte>>, arg: SigArg): Outcome
    requires ObjectsOk(w)
  {
    var i := FindSession(w.slots, h);
    if !w.initialized then Outcome(w, Signed(NotInitialized, None, None))
    else if i == |w.slots| then Outcome(w, Signed(SessionHandleInvalid, None, None))
    else
      var op := w.slots[i].op;
      DoSign(env, w, i, if data.Some? then data.value else if op.Active? then op.input else [], arg)
  }

  /** Doubles the capacity until it holds what is needed. */
  function Double(cap: nat, need: nat): (r: nat)
    requires cap > 0
    ensures r >= need && r >= cap
    decreases need - cap
  {
    if cap >= need then cap else Double(2 * cap, need)
  }

  function Grow(cap: nat, need: nat): nat {
    Double(if cap > 0 then 2 * cap else FIRST_CAPACITY, need)
  }

  function SignUpdateStep(env: Env, w: World, h: nat, part: seq<byte>): Outcome {
    var i := FindSession(w.slots, h);
    if !w.initialized then Outcome(w, Status(NotInitialized))
    else if i == |w.slots| then Outcome(w, Status(SessionHandleInvalid))
    else if w.slots[i].op.Idle? then Outcome(w, Status(OperationNotInitialized))
    else
      var op := w.slots[i].op;
      var need := |op.input| + |part|;
      if need <= op.cap then Outcome(SetOp(w, i, op.(input := op.input + part)), Status(Ok))
      else
        var w1 := w.(io := w.io.(allocs := w.io.allocs + 1));
        if !env.alloc(w.io.allocs) then Outcome(w1, Status(HostMemory))
        else Outcome(SetOp(w1, i, op.(input := op.input + part, cap := Grow(op.cap, need))), Status(Ok))
  }

  // ----- finding objects -----

  /** The bytes of a CK_ULONG below 256, little-endian. */
  function Ulong(n: byte): seq<byte> {
    [n, 0, 0, 0, 0, 0, 0, 0]
  }

  const PRIVATE_KEY_CLASS: byte := 3

  function KeyTypeNumber(t: KeyType): byte {
    match t case Rsa => 0 case Ec => 3
  }

  predicate EntryMatches(o: KeyObject, a: Attr) {
    match a.kind
    case Class => a.value == Ulong(PRIVATE_KEY_CLASS)
    case KeyTypeAttr => a.value == Ulong(KeyTypeNumber(o.ktype))
    case Label => a.value == o.keyLabel
    case Id => a.value == o.id
    case _ => false
  }

  predicate ObjectMatches(o: KeyObject, template: seq<Attr>) {
    forall k | 0 <= k < |template| :: EntryMatches(o, template[k])
  }

  /** Handles of the matching objects, in table order. */
  function MatchingHandles(objects: seq<KeyObject>, template: seq<Attr>): seq<nat> {
    if objects == [] then []
    else
      var last := objects[|objects| - 1];
      MatchingHandles(objects[..|objects| - 1], template)
          + (if ObjectMatches(last, template) then [last.handle] else [])
  }

  function FindObjectsInitStep(env: Env, w: World, h: nat, template: seq<Attr>): Outcome {
    if !w.initialized then Outcome(w, Status(NotInitialized))
    else if FindSession(w.slots, h) == |w.slots| then Outcome(w, Status(SessionHandleInvalid))
    else if w.find.active then Outcome(w, Status(OperationActive))
    else if w.objects == [] then Outcome(w.(find := Find(true, [], 0)), Status(Ok))
    else
      var w1 := w.(io := w.io.(allocs := w.io.allocs + 1));
      if !env.alloc(w.io.allocs) then Outcome(w1.(find := NO_FIND), Status(HostMemory))
      else Outcome(w1.(find := Find(true, MatchingHandles(w.objects, template), 0)), Status(Ok))
  }

  function FindObjectsStep(w: World, h: nat, hasOut: bool, max: nat): Outcome
    requires w.find.pos <= |w.find.handles|
  {
    if !w.initialized then Outcome(w, Status(NotInitialized))
    else if FindSession(w.slots, h) == |w.slots| then Outcome(w, Status(SessionHandleInvalid))
    else if !w.find.active then Outcome(w, Status(OperationNotInitialized))
    else if !hasOut then Outcome(w, Status(ArgumentsBad))
    else
      var left := |w.find.handles| - w.find.pos;
      var n := if left <= max then left else max;
      Outcome(w.(find := w.find.(pos := w.find.pos + n)), Found(Ok, w.find.handles[w.find.pos..w.find.pos + n]))
  }

  function FindObjectsFinalStep(w: World, h: nat): Outcome {
    if !w.initialized then Outcome(w, Status(NotInitialized))
    else if FindSession(w.slots, h) == |w.slots| then Outcome(w, Status(SessionHandleInvalid))
    else Outcome(w.(find := NO_FIND), Status(Ok))
  }

  // ----- the invariant, steps and runs -----

  predicate ObjectsOk(w: World) {
    forall i | 0 <= i < |w.slots| :: w.slots[i].Open? && w.slots[i].op.Active? ==> w.slots[i].op.obj < |w.objects|
  }

  /** A capacity that the growth rule can reach while holding n bytes. */
  ghost predicate CapacityOk(cap: nat, n: nat) {
    && n <= cap
    && (cap == 0 || exists k: nat :: cap == FIRST_CAPACITY * Power2(k))
    && (cap <= FIRST_CAPACITY || cap < 2 * n)
  }

  function Power2(k: nat): (p: nat)
    ensures p > 0
  {
    if k == 0 then 1 else 2 * Power2(k - 1)
  }

  /** An operation fits the objects: its mechanism is a table row allowed for its key
      and its hash number is one this mechanism can have. */
  ghost predicate OpOk(op: Op, objects: seq<KeyObject>) {
    op.Active? ==>
      && op.obj < |objects|
      && MechOf(op.row.mechanism) == Some(op.row)
      && MechOkFor(op.row.mechanism, objects[op.obj].ktype)
      && (op.row.hash.Some? ==> op.hashAlg == op.row.hash.value.Number())
      && (op.row.hash.None? ==> op.hashAlg <= if op.row.pss then 3 else 0)
      && CapacityOk(op.cap, |op.input|)
  }

  ghost predicate Inv(w: World) {
    && |w.slots| == MAX_SESSIONS
    && w.nextHandle >= 1
    && (forall i | 0 <= i < |w.slots| ::
          w.slots[i].Open? ==> 0 < w.slots[i].handle < w.nextHandle && OpOk(w.slots[i].op, w.objects))
    && (forall i, j | 0 <= i < j < |w.slots| ::
          w.slots[i].Open? && w.slots[j].Open? ==> w.slots[i].handle != w.slots[j].handle)
    && (!w.initialized ==> w.objects == [] && forall i | 0 <= i < |w.slots| :: w.slots[i].Closed?)
    && (forall k | 0 <= k < |w.objects| :: w.objects[k].handle == k + 1)
    && w.find.pos <= |w.find.handles|
  }

  function Step(env: Env, w: World, c: Call): Outcome
    requires Inv(w)
  {
    match c
    case Initialize(reserved, bridgeUp, answers) => InitializeStep(env, w, reserved, bridgeUp, answers)
    case Finalize(reserved) => FinalizeStep(w, reserved)
    case OpenSession(slotId, readWrite, hasOut) => OpenSessionStep(w, slotId, readWrite, hasOut)
    case CloseSession(h) => CloseSessionStep(w, h)
    case CloseAllSessions(slotId) => CloseAllSessionsStep(w, slotId)
    case SignInit(h, mech, key) => SignInitStep(w, h, mech, key)
    case Sign(h, data, arg) => SignStep(env, w, h, Some(data), arg)
    case SignUpdate(h, part) => SignUpdateStep(env, w, h, part)
    case SignFinal(h, arg) => SignStep(env, w, h, None, arg)
    case FindObjectsInit(h, template) => FindObjectsInitStep(env, w, h, template)
    case FindObjects(h, hasOut, max) => FindObjectsStep(w, h, hasOut, max)
    case FindObjectsFinal(h) => FindObjectsFinalStep(w, h)
  }

  // ----- every step keeps the invariant -----

  lemma {:induction false} DoubleKeepsPower(cap: nat, need: nat, k: nat)
    requires cap == FIRST_CAPACITY * Power2(k)
    ensures exists k': nat :: Double(cap, need) == FIRST_CAPACITY * Power2(k')
    ensures Double(cap, need) == cap || Double(cap, need) < 2 * need
    decreases need - cap
  {
    if cap < need {
      DoubleKeepsPower(2 * cap, need, k + 1);
    }
  }

  /** Growing for more bytes than fit keeps the capacity rule. */
  lemma GrowKeepsRule(cap: nat, n: nat, need: nat)
    requires CapacityOk(cap, n) && need > cap
    ensures CapacityOk(Grow(cap, need), need)
  {
    if cap == 0 {
      assert Power2(0) == 1;
      DoubleKeepsPower(FIRST_CAPACITY, need, 0);
    } else {
      var k: nat :| cap == FIRST_CAPACITY * Power2(k);
      DoubleKeepsPower(2 * cap, need, k + 1);
    }
  }

  lemma InvIgnoresLedger(w: World, io: Ledger)
    requires Inv(w)
    ensures Inv(w.(io := io))
  {
  }

  /** A new operation in a slot keeps the invariant. */
  lemma SetOpKeepsInv(w: World, i: nat, op: Op, io: Ledger)
    requires Inv(w) && i < |w.slots| && w.slots[i].Open? && OpOk(op, w.objects)
    ensures Inv(SetOp(w.(io := io), i, op))
  {
  }

  lemma DeliverKeepsInv(w: World, io: Ledger, i: nat, sig: seq<byte>, arg: SigArg)
    requires Inv(w) && i < |w.slots| && w.slots[i].Open? && w.slots[i].op.Active? && arg.len.Some?
    ensures Inv(Deliver(w.(io := io), i, sig, arg).w)
  {
    SetOpKeepsInv(w, i, Idle, io);
    SetOpKeepsInv(w, i, w.slots[i].op.(cached := Some(sig)), io);
  }

  lemma SignKeepsInv(env: Env, w: World, h: nat, data: Option<seq<byte>>, arg: SigArg)
    requires Inv(w)
    ensures Inv(SignStep(env, w, h, data, arg).w)
  {
    hide Produce;
    var i := FindSession(w.slots, h);
    if w.initialized && i < |w.slots| && w.slots[i].op.Active? && arg.len.Some? {
      var op := w.slots[i].op;
      var input := if data.Some? then data.value else op.input;
      if op.cached.Some? {
        DeliverKeepsInv(w, w.io, i, op.cached.value, arg);
      } else {
        var (io, p) := Produce(env, w.io, w.objects[op.obj], op.row, op.hashAlg, input);
        match p
        case Failed(_) => SetOpKeepsInv(w, i, Idle, io);
        case Made(sig) => DeliverKeepsInv(w, io, i, sig, arg);
      }
    }
  }

  lemma CapacityHolds(cap: nat, n: nat, m: nat)
    requires CapacityOk(cap, n) && n <= m <= cap
    ensures CapacityOk(cap, m)
  {
  }

  lemma SlotOpOk(w: World, i: nat)
    requires Inv(w) && i < |w.slots| && w.slots[i].Open?
    ensures OpOk(w.slots[i].op, w.objects)
  {
  }

  lemma UpdateKeepsInv(env: Env, w: World, h: nat, part: seq<byte>)
    requires Inv(w)
    ensures Inv(SignUpdateStep(env, w, h, part).w)
  {
    hide Inv, Grow, CapacityOk, MechOf, MechOkFor;
    var i := FindSession(w.slots, h);
    if w.initialized && i < |w.slots| && w.slots[i].op.Active? {
      SlotOpOk(w, i);
      var op := w.slots[i].op;
      var need := |op.input| + |part|;
      if need <= op.cap {
        CapacityHolds(op.cap, |op.input|, need);
        SetOpKeepsInv(w, i, op.(input := op.input + part), w.io);
      } else {
        InvIgnoresLedger(w, w.io.(allocs := w.io.allocs + 1));
        GrowKeepsRule(op.cap, |op.input|, need);
        SetOpKeepsInv(w, i, op.(input := op.input + part, cap := Grow(op.cap, need)), w.io.(allocs := w.io.allocs + 1));
      }
    }
  }

  lemma SignInitKeepsInv(w: World, h: nat, mech: Option<MechArg>, key: nat)
    requires Inv(w)
    ensures Inv(SignInitStep(w, h, mech, key).w)
  {
    var i := FindSession(w.slots, h);
    if w.initialized && i < |w.slots| && 0 < key <= |w.objects| && mech.Some? && w.slots[i].op.Idle? {
      var row := MechOf(mech.value.mechanism);
      if row.Some? && MechOkFor(mech.value.mechanism, w.objects[key - 1].ktype) {
        var op := Active(key - 1, row.value, InitialHashAlg(row.value, mech.value.param), [], 0, None);
        SetOpKeepsInv(w, i, op, w.io);
      }
    }
  }

  lemma SessionCallsKeepInv(env: Env, w: World, c: Call)
    requires Inv(w)
    requires c.Initialize? || c.Finalize? || c.OpenSession? || c.CloseSession? || c.CloseAllSessions?
    ensures Inv(Step(env, w, c).w)
  {
    hide CapacityOk, MechOf, MechOkFor;
    if c.OpenSession? {
      var i, w' := FirstClosed(w.slots), Step(env, w, c).w;
      if w' != w {
        assert forall k | 0 <= k < |w.slots| && k != i :: w'.slots[k] == w.slots[k];
      }
    } else if c.CloseSession? {
      var i, w' := FindSession(w.slots, c.session), Step(env, w, c).w;
      if w' != w {
        assert forall k | 0 <= k < |w.slots| && k != i :: w'.slots[k] == w.slots[k];
      }
    }
  }

  lemma FindCallsKeepInv(env: Env, w: World, c: Call)
    requires Inv(w)
    requires c.FindObjectsInit? || c.FindObjects? || c.FindObjectsFinal?
    ensures Inv(Step(env, w, c).w)
  {
    hide CapacityOk, MechOf, MechOkFor, MatchingHandles;
    var w' := Step(env, w, c).w;
    assert w'.slots == w.slots && w'.objects == w.objects;
  }

  lemma NextHandleGrows(env: Env, w: World, c: Call)
    requires Inv(w)
    ensures Step(env, w, c).w.nextHandle >= w.nextHandle
  {
    hide Inv, Produce, Grow, MatchingHandles, BuildObjects, MechOf, MechOkFor, InitialHashAlg;
  }

  /** Every entry point keeps the invariant, whatever the environment answers. */
  lemma StepKeepsInv(env: Env, w: World, c: Call)
    requires Inv(w)
    ensures Inv(Step(env, w, c).w)
    ensures Step(env, w, c).w.nextHandle >= w.nextHandle
  {
    hide Inv, SignStep, SignUpdateStep, SignInitStep;
    NextHandleGrows(env, w, c);
    match c
    case Sign(h, data, arg) => SignKeepsInv(env, w, h, Some(data), arg);
    case SignFinal(h, arg) => SignKeepsInv(env, w, h, None, arg);
    case SignUpdate(h, part) => UpdateKeepsInv(env, w, h, part);
    case SignInit(h, mech, key) => SignInitKeepsInv(w, h, mech, key);
    case FindObjectsInit(_, _) => FindCallsKeepInv(env, w, c);
    case FindObjects(_, _, _) => FindCallsKeepInv(env, w, c);
    case FindObjectsFinal(_) => FindCallsKeepInv(env, w, c);
    case _ => SessionCallsKeepInv(env, w, c);
  }

  /** The state after a list of calls. */
  ghost function Run(env: Env, w: World, cs: seq<Call>): (r: World)
    requires Inv(w)
    ensures Inv(r)
    ensures r.nextHandle >= w.nextHandle
    decreases |cs|
  {
    if cs == [] then w
    else
      StepKeepsInv(env, w, cs[0]);
      Run(env, Step(env, w, cs[0]).w, cs[1..])
  }

  lemma StartOk()
    ensures Inv(START)
  {
  }
}
