/** C_GetAttributeValue: every template entry on its own, one return code for all. */
module Attributes {
  import opened Bytes
  import opened Pkcs11
  import EcdsaCodec

  /** The length that says an attribute is not to be had. */
  const UNAVAILABLE: nat := ULONG_LIMIT - 1

  /** One CK_ATTRIBUTE of the caller: no buffer asks for the size, len is ulValueLen. */
  datatype Cell = Cell(kind: AttrKind, buf: Option<seq<byte>>, len: nat)

  /** The caller's buffers are as long as their length fields say. */
  predicate CellOk(c: Cell) {
    c.buf.Some? ==> c.len <= |c.buf.value|
  }

  datatype Fault = Fine | Small | Invalid | Sensitive

  /** bool_attr. */
  predicate FlagValue(f: FlagKind) {
    f.TokenFlag? || f.DestroyableFlag? || f.CopyableFlag? || f.SignFlag? || f.VerifyFlag? || f.SensitiveFlag?
    || f.NeverExtractableFlag?
  }

  /** The bytes of an attribute; none when the object does not have it. */
  function ValueOf(o: KeyObject, kind: AttrKind): seq<byte> {
    match kind
    case Class => Ulong(PRIVATE_KEY_CLASS)
    case KeyTypeAttr => Ulong(KeyTypeNumber(o.ktype))
    case Id => o.id
    case Label => o.keyLabel
    case Flag(f) => [if FlagValue(f) then 1 else 0]
    case Modulus => o.modulus
    case PublicExponent => o.pubexp
    case EcParams => o.ecParams
    case EcPoint => o.ecPoint
    case Secret => []
    case UnknownAttr => []
  }

  /** What is done to one entry. */
  function Query(o: KeyObject, c: Cell): (Cell, Fault)
    requires CellOk(c)
  {
    var v := ValueOf(o, c.kind);
    if c.kind.Secret? then (c.(len := UNAVAILABLE), Sensitive)
    else if v == [] then (c.(len := UNAVAILABLE), Invalid)
    else if c.buf.None? then (c.(len := |v|), Fine)
    else if c.len < |v| then (c.(len := |v|), Small)
    else (c.(len := |v|, buf := Some(v + c.buf.value[|v|..])), Fine)
  }

  predicate AnyFault(o: KeyObject, cells: seq<Cell>, f: Fault)
    requires forall c | c in cells :: CellOk(c)
  {
    exists i | 0 <= i < |cells| :: Query(o, cells[i]).1 == f
  }

  /** The return code of the worst fault: sensitive, then invalid, then a short buffer. */
  function ReturnCode(o: KeyObject, cells: seq<Cell>): Rv
    requires forall c | c in cells :: CellOk(c)
  {
    if AnyFault(o, cells, Sensitive) then AttributeSensitive
    else if AnyFault(o, cells, Invalid) then AttributeTypeInvalid
    else if AnyFault(o, cells, Small) then BufferTooSmall
    else Ok
  }

  /** attr_size: the size, 0 for what is not there, and whether it is sensitive. */
  method AttrSize(o: KeyObject, kind: AttrKind) returns (size: nat, sensitive: bool)
    ensures size == |ValueOf(o, kind)| && sensitive == kind.Secret?
  {
    sensitive := false;
    match kind {
      case Class => size := 8;
      case KeyTypeAttr => size := 8;
      case Id => size := |o.id|;
      case Label => size := |o.keyLabel|;
      case Flag(_) => size := 1;
      case Modulus => size := |o.modulus|;
      case PublicExponent => size := |o.pubexp|;
      case EcParams => size := |o.ecParams|;
      case EcPoint => size := |o.ecPoint|;
      case Secret => size, sensitive := 0, true;
      case UnknownAttr => size := 0;
    }
  }

  /** The branches for one entry; the faults set the three flags of the loop. */
  method QueryEntry(o: KeyObject, a: Cell) returns (a': Cell, fault: Fault)
    requires CellOk(a)
    ensures (a', fault) == Query(o, a)
  {
    var size, sensitive := AttrSize(o, a.kind);
    if sensitive {
      return a.(len := UNAVAILABLE), Sensitive;
    }
    if size == 0 {
      return a.(len := UNAVAILABLE), Invalid;
    }
    if a.buf.None? {
      return a.(len := size), Fine;
    }
    if a.len < size {
      return a.(len := size), Small;
    }
    return a.(len := size, buf := Some(ValueOf(o, a.kind) + a.buf.value[size..])), Fine;
  }

  /** The loop of C_GetAttributeValue over the caller's array of entries. */
  method GetAttributeValues(o: KeyObject, template: array<Cell>) returns (rv: Rv)
    requires forall c | c in template[..] :: CellOk(c)
    modifies template
    ensures forall c | c in old(template[..]) :: CellOk(c)
    ensures forall i | 0 <= i < template.Length :: template[i] == Query(o, old(template[..])[i]).0
    ensures rv == ReturnCode(o, old(template[..]))
    ensures rv in {Ok, AttributeSensitive, AttributeTypeInvalid, BufferTooSmall}
  {
    hide Query;
    ghost var before := template[..];
    var anySensitive, anyInvalid, anySmall := false, false, false;
    var i := 0;
    while i < template.Length
      invariant 0 <= i <= template.Length
      invariant forall k | 0 <= k < i :: template[k] == Query(o, before[k]).0
      invariant template[i..] == before[i..]
      invariant anySensitive <==> exists k | 0 <= k < i :: Query(o, before[k]).1 == Sensitive
      invariant anyInvalid <==> exists k | 0 <= k < i :: Query(o, before[k]).1 == Invalid
      invariant anySmall <==> exists k | 0 <= k < i :: Query(o, before[k]).1 == Small
    {
      assert template[i] == template[i..][0] == before[i..][0] == before[i];
      var a, fault := QueryEntry(o, template[i]);
      template[i] := a;
      anySensitive := anySensitive || fault == Sensitive;
      anyInvalid := anyInvalid || fault == Invalid;
      anySmall := anySmall || fault == Small;
      i := i + 1;
    }
    rv := if anySensitive then AttributeSensitive
          else if anyInvalid then AttributeTypeInvalid
          else if anySmall then BufferTooSmall
          else Ok;
  }

  // ----- the two-call protocol -----

  /** A template that only asks for sizes. */
  function SizeQuery(kinds: seq<AttrKind>): (cells: seq<Cell>)
    ensures |cells| == |kinds| && forall c | c in cells :: CellOk(c)
  {
    seq(|kinds|, i requires 0 <= i < |kinds| => Cell(kinds[i], None, 0))
  }

  /** Buffers of the sizes that the first call reported; where it reported none, the
      caller may offer anything. */
  ghost predicate SizedAs(o: KeyObject, kinds: seq<AttrKind>, cells: seq<Cell>) {
    && |cells| == |kinds|
    && forall i | 0 <= i < |kinds| ::
         && cells[i].kind == kinds[i] && CellOk(cells[i])
         && var len := Query(o, SizeQuery(kinds)[i]).0.len;
            len != UNAVAILABLE ==> cells[i].buf.Some? && |cells[i].buf.value| == cells[i].len == len
  }

  /** For a template of any length and mixture: the data call returns the same code as
      the sizing call, fills the buffer of every attribute that the object has with
      exactly its bytes, and leaves all other buffers untouched. */
  lemma SizesThenBytes(o: KeyObject, kinds: seq<AttrKind>, cells: seq<Cell>)
    requires forall i | 0 <= i < |kinds| :: |ValueOf(o, kinds[i])| < UNAVAILABLE
    requires SizedAs(o, kinds, cells)
    ensures forall c | c in cells :: CellOk(c)
    ensures ReturnCode(o, cells) == ReturnCode(o, SizeQuery(kinds))
    ensures forall i | 0 <= i < |kinds| ::
              Query(o, cells[i]).0 ==
              if ValueOf(o, kinds[i]) != [] then Cell(kinds[i], Some(ValueOf(o, kinds[i])), |ValueOf(o, kinds[i])|)
              else cells[i].(len := UNAVAILABLE)
  {
    var first := SizeQuery(kinds);
    forall i | 0 <= i < |kinds|
      ensures Query(o, cells[i]).1 == Query(o, first[i]).1
      ensures Query(o, first[i]).1 != Small
      ensures Query(o, cells[i]).0 ==
              if ValueOf(o, kinds[i]) != [] then Cell(kinds[i], Some(ValueOf(o, kinds[i])), |ValueOf(o, kinds[i])|)
              else cells[i].(len := UNAVAILABLE)
    {
      var v := ValueOf(o, kinds[i]);
      assert first[i] == Cell(kinds[i], None, 0);
      if v != [] {
        assert v + cells[i].buf.value[|v|..] == v;
      }
    }
    SameFaults(o, cells, first, Sensitive);
    SameFaults(o, cells, first, Invalid);
    SameFaults(o, cells, first, Small);
  }

  lemma SameFaults(o: KeyObject, a: seq<Cell>, b: seq<Cell>, f: Fault)
    requires |a| == |b| && (forall c | c in a :: CellOk(c)) && (forall c | c in b :: CellOk(c))
    requires forall i | 0 <= i < |a| :: Query(o, a[i]).1 == Query(o, b[i]).1
    ensures AnyFault(o, a, f) == AnyFault(o, b, f)
  {
    if AnyFault(o, a, f) {
      var i :| 0 <= i < |a| && Query(o, a[i]).1 == f;
      assert Query(o, b[i]).1 == f;
    }
    if AnyFault(o, b, f) {
      var i :| 0 <= i < |b| && Query(o, b[i]).1 == f;
      assert Query(o, a[i]).1 == f;
    }
  }

  /** Sensitive and unknown attributes are never written, whatever buffer is offered,
      and the sign of a missing attribute is a length no attribute has. */
  lemma NeverWritten(o: KeyObject, c: Cell)
    requires CellOk(c) && |ValueOf(o, c.kind)| < UNAVAILABLE
    ensures Query(o, c).0.buf != c.buf ==> c.buf.Some? && ValueOf(o, c.kind) != [] && |ValueOf(o, c.kind)| <= c.len
    ensures Query(o, c).0.len == UNAVAILABLE <==> ValueOf(o, c.kind) == []
    ensures c.kind.Secret? || c.kind.UnknownAttr? ==> Query(o, c).0.buf == c.buf
  {
  }

  /** The one-byte length around the EC point makes an OCTET STRING of X.690 exactly
      for points of at most 127 bytes. */
  lemma PointIsOctetString(point: seq<byte>)
    requires |point| <= EcdsaCodec.MAX_CONTENT
    ensures WrapPoint(point) == EcdsaCodec.EncodeElement(OCTET_STRING, point) <==> |point| <= 127
  {
    var der := EcdsaCodec.EncodeElement(OCTET_STRING, point);
    EcdsaCodec.LengthFitsFourBytes(|point|);
    MinBytesValue(|point|);
    if |point| <= 254 {
      assert WrapPoint(point)[1] == |point|;
      assert |point| >= 0x80 ==> |der| != |WrapPoint(point)|;
    }
  }
}
