/**
 What a caller sees of the objects: their attributes and the templates that they match,
 stated from the key information that C_Initialize received.
 */
module Objects {
  import opened Bytes
  import opened Pkcs11
  import opened Attributes
  import Finding
  import Lists
  import Thumbprint

  // ----- the object table -----

  function IsAnswer(a: Option<KeyInfo>): bool {
    a.Some?
  }

  /** The index of the object that the i-th get makes. */
  function IndexOf(answers: seq<Option<KeyInfo>>, i: nat): nat
    requires i <= |answers|
  {
    Lists.Count(answers[..i], IsAnswer)
  }

  /** Every answered get makes one object, in order, and no other object is made. */
  lemma {:induction false} ObjectOfAnswer(answers: seq<Option<KeyInfo>>, i: nat)
    requires i < |answers| && answers[i].Some?
    ensures IndexOf(answers, i) < |BuildObjects(answers)| == IndexOf(answers, |answers|)
    ensures BuildObjects(answers)[IndexOf(answers, i)] == MakeObject(answers[i].value, IndexOf(answers, i) + 1)
  {
    hide MakeObject;
    TableSize(answers);
    var front := answers[..|answers| - 1];
    if i < |front| {
      ObjectOfAnswer(front, i);
      assert front[..i] == answers[..i];
      TableSize(front);
    } else {
      TableSize(front);
      assert front[..|front|] == front == answers[..i];
      assert answers[..|answers|] == answers;
    }
  }

  lemma {:induction false} TableSize(answers: seq<Option<KeyInfo>>)
    ensures |BuildObjects(answers)| == IndexOf(answers, |answers|)
  {
    assert answers[..|answers|] == answers;
    if answers != [] {
      var front := answers[..|answers| - 1];
      TableSize(front);
      assert front[..|front|] == front;
    }
  }

  /** Conversely every object comes from an answered get. */
  lemma {:induction false} AnswerOfObject(answers: seq<Option<KeyInfo>>, k: nat) returns (i: nat)
    requires k < |BuildObjects(answers)|
    ensures i < |answers| && answers[i].Some? && IndexOf(answers, i) == k
    decreases |answers|
  {
    var front := answers[..|answers| - 1];
    if k < |BuildObjects(front)| {
      i := AnswerOfObject(front, k);
      assert front[..i] == answers[..i];
    } else {
      i := |front|;
      TableSize(front);
      assert front[..|front|] == front == answers[..i];
    }
  }

  // ----- attributes -----

  /** The bytes of an attribute of a private key with this information; none where the key
      has no such attribute. */
  function BytesOf(info: KeyInfo, kind: AttrKind): seq<byte> {
    match kind
    case Class => [3, 0, 0, 0, 0, 0, 0, 0]
    case KeyTypeAttr => [if info.key.EcPublic? then 3 else 0, 0, 0, 0, 0, 0, 0, 0]
    case Id => Thumbprint.HexDecode(info.thumbprint, 20)
    case Label => info.subject
    case Flag(f) => [if IsSet(f) then 1 else 0]
    case Modulus => if info.key.RsaPublic? then info.key.n else []
    case PublicExponent => if info.key.RsaPublic? then info.key.e else []
    case EcParams => if info.key.EcPublic? then info.key.params else []
    case EcPoint =>
      if info.key.EcPublic? && |info.key.point| <= 254 then [4, |info.key.point|] + info.key.point else []
    case Secret => []
    case UnknownAttr => []
  }

  /** The sixteen flags by name. */
  predicate IsSet(f: FlagKind) {
    match f
    case TokenFlag => true
    case PrivateFlag => false
    case ModifiableFlag => false
    case CopyableFlag => true
    case DestroyableFlag => true
    case LocalFlag => false
    case SignFlag => true
    case VerifyFlag => true
    case EncryptFlag => false
    case DecryptFlag => false
    case WrapFlag => false
    case UnwrapFlag => false
    case SensitiveFlag => true
    case ExtractableFlag => false
    case AlwaysAuthenticateFlag => false
    case NeverExtractableFlag => true
  }

  lemma ValueIsBytes(info: KeyInfo, handle: nat, kind: AttrKind)
    ensures ValueOf(MakeObject(info, handle), kind) == BytesOf(info, kind)
    ensures MakeObject(info, handle).keySize == info.keySize
  {
  }

  /** Whether the i-th answer made the object with this handle. */
  predicate MadeBy(answers: seq<Option<KeyInfo>>, i: nat, handle: nat) {
    i < |answers| && answers[i].Some? && handle == IndexOf(answers, i) + 1
  }

  lemma ObjectBytes(answers: seq<Option<KeyInfo>>, i: nat, handle: nat, kind: AttrKind)
    requires MadeBy(answers, i, handle)
    ensures 1 <= handle <= |BuildObjects(answers)|
    ensures ValueOf(BuildObjects(answers)[handle - 1], kind) == BytesOf(answers[i].value, kind)
  {
    ObjectOfAnswer(answers, i);
    ValueIsBytes(answers[i].value, handle, kind);
  }

  /** One entry of C_GetAttributeValue for the object that the i-th get made: what becomes of
      the buffer and of the length, and the fault. */
  lemma EntryOutcome(answers: seq<Option<KeyInfo>>, i: nat, handle: nat, c: Cell)
    requires MadeBy(answers, i, handle) && CellOk(c)
    ensures 1 <= handle <= |BuildObjects(answers)|
    ensures var v := BytesOf(answers[i].value, c.kind);
            var (c', fault) := Query(BuildObjects(answers)[handle - 1], c);
            && c'.kind == c.kind
            && (fault == Sensitive <==> c.kind.Secret?)
            && (fault == Invalid <==> !c.kind.Secret? && v == [])
            && (fault == Small <==> v != [] && c.buf.Some? && c.len < |v|)
            && c'.len == (if v == [] then 0xffff_ffff_ffff_ffff else |v|)
            && (if v != [] && c.buf.Some? && c.len >= |v| then
                  && c'.buf.Some? && |c'.buf.value| == |c.buf.value|
                  && v <= c'.buf.value && c'.buf.value[|v|..] == c.buf.value[|v|..]
                else c'.buf == c.buf)
  {
    hide BytesOf, ValueOf, BuildObjects;
    ObjectBytes(answers, i, handle, c.kind);
    SecretHasNone(answers[i].value, c.kind);
  }

  lemma SecretHasNone(info: KeyInfo, kind: AttrKind)
    ensures kind.Secret? ==> BytesOf(info, kind) == []
  {
  }

  /** Whether some entry asks for a secret, has no value, or has too short a buffer. */
  predicate AsksSecret(cells: seq<Cell>) {
    exists k | 0 <= k < |cells| :: cells[k].kind.Secret?
  }

  predicate AsksMissing(info: KeyInfo, cells: seq<Cell>) {
    exists k | 0 <= k < |cells| :: !cells[k].kind.Secret? && BytesOf(info, cells[k].kind) == []
  }

  predicate LacksRoom(info: KeyInfo, cells: seq<Cell>) {
    exists k | 0 <= k < |cells| :: cells[k].buf.Some? && cells[k].len < |BytesOf(info, cells[k].kind)|
  }

  /** The return code of C_GetAttributeValue for a whole template: a secret before a missing
      attribute before a short buffer. */
  lemma CodeOutcome(answers: seq<Option<KeyInfo>>, i: nat, handle: nat, cells: seq<Cell>)
    requires MadeBy(answers, i, handle) && forall c | c in cells :: CellOk(c)
    ensures 1 <= handle <= |BuildObjects(answers)|
    ensures var info := answers[i].value;
            ReturnCode(BuildObjects(answers)[handle - 1], cells) ==
            if AsksSecret(cells) then AttributeSensitive
            else if AsksMissing(info, cells) then AttributeTypeInvalid
            else if LacksRoom(info, cells) then BufferTooSmall
            else Ok
  {
    hide BytesOf, BuildObjects, Query, IndexOf;
    ObjectInTable(answers, i, handle);
    var o, info := BuildObjects(answers)[handle - 1], answers[i].value;
    forall k | 0 <= k < |cells|
      ensures Query(o, cells[k]).1 == Sensitive <==> cells[k].kind.Secret?
      ensures Query(o, cells[k]).1 == Invalid <==> !cells[k].kind.Secret? && BytesOf(info, cells[k].kind) == []
      ensures Query(o, cells[k]).1 == Small <==>
              BytesOf(info, cells[k].kind) != [] && cells[k].buf.Some? && cells[k].len < |BytesOf(info, cells[k].kind)|
    {
      EntryOutcome(answers, i, handle, cells[k]);
    }
    FaultMeans(o, info, cells);
  }

  lemma ObjectInTable(answers: seq<Option<KeyInfo>>, i: nat, handle: nat)
    requires MadeBy(answers, i, handle)
    ensures 1 <= handle <= |BuildObjects(answers)|
  {
    ObjectOfAnswer(answers, i);
  }

  /** The faults of the entries are the three conditions. */
  lemma FaultMeans(o: KeyObject, info: KeyInfo, cells: seq<Cell>)
    requires forall c | c in cells :: CellOk(c)
    requires forall k | 0 <= k < |cells| ::
               && (Query(o, cells[k]).1 == Sensitive <==> cells[k].kind.Secret?)
               && (Query(o, cells[k]).1 == Invalid <==>
                     !cells[k].kind.Secret? && BytesOf(info, cells[k].kind) == [])
               && (Query(o, cells[k]).1 == Small <==>
                     && BytesOf(info, cells[k].kind) != [] && cells[k].buf.Some?
                     && cells[k].len < |BytesOf(info, cells[k].kind)|)
    ensures AnyFault(o, cells, Sensitive) <==> AsksSecret(cells)
    ensures AnyFault(o, cells, Invalid) <==> AsksMissing(info, cells)
    ensures AnyFault(o, cells, Small) <==> LacksRoom(info, cells)
  {
    hide Query, BytesOf;
    if AsksSecret(cells) {
      var k :| 0 <= k < |cells| && cells[k].kind.Secret?;
      assert Query(o, cells[k]).1 == Sensitive;
    }
    if AsksMissing(info, cells) {
      var k :| 0 <= k < |cells| && !cells[k].kind.Secret? && BytesOf(info, cells[k].kind) == [];
      assert Query(o, cells[k]).1 == Invalid;
    }
    if LacksRoom(info, cells) {
      var k :| 0 <= k < |cells| && cells[k].buf.Some? && cells[k].len < |BytesOf(info, cells[k].kind)|;
      assert Query(o, cells[k]).1 == Small;
    }
  }

  // ----- templates -----

  /** The attributes that a search can ask for. */
  predicate IsSearchable(kind: AttrKind) {
    kind.Class? || kind.KeyTypeAttr? || kind.Label? || kind.Id?
  }

  lemma EntryMeans(info: KeyInfo, handle: nat, a: Attr)
    ensures EntryMatches(MakeObject(info, handle), a) <==> IsSearchable(a.kind) && a.value == BytesOf(info, a.kind)
  {
  }

  /** Every entry asks for a searchable attribute and gives exactly its bytes. */
  predicate Fits(info: KeyInfo, template: seq<Attr>) {
    forall k | 0 <= k < |template| ::
      IsSearchable(template[k].kind) && template[k].value == BytesOf(info, template[k].kind)
  }

  /** A search finds exactly the objects whose attributes the template gives: class, key
      type, label and id. Any other attribute in it makes it find nothing. */
  lemma FoundExactly(answers: seq<Option<KeyInfo>>, template: seq<Attr>, handle: nat)
    ensures handle in MatchingHandles(BuildObjects(answers), template) <==>
            exists i: nat :: MadeBy(answers, i, handle) && Fits(answers[i].value, template)
  {
    hide BytesOf, EntryMatches, MatchingHandles, IsSearchable, IndexOf, MakeObject;
    var objs := BuildObjects(answers);
    Finding.MatchingMeaning(objs, template);
    forall i: nat | MadeBy(answers, i, handle)
      ensures Finding.IsMatch(objs, template, handle) <==> Fits(answers[i].value, template)
    {
      ObjectOfAnswer(answers, i);
      forall k | 0 <= k < |template|
        ensures EntryMatches(objs[handle - 1], template[k]) <==>
                IsSearchable(template[k].kind) && template[k].value == BytesOf(answers[i].value, template[k].kind)
      {
        EntryMeans(answers[i].value, handle, template[k]);
      }
    }
    if 1 <= handle <= |objs| {
      var i := AnswerOfObject(answers, handle - 1);
      assert MadeBy(answers, i, handle);
    } else {
      forall i: nat | MadeBy(answers, i, handle)
        ensures false
      {
        ObjectOfAnswer(answers, i);
      }
    }
  }
}
