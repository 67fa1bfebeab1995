/** Message schemas, the values a C++ object may hold for them, and when a value fits a schema. */
module PbSchema {
  import opened Varint
  import opened PbTags

  // What a field's C++ value looks like.
  datatype Value =
    | Num(n: int)                               // integers, bools, and the bit pattern of a float or double
    | Data(bytes: seq<byte>)                    // a string or byte buffer
    | Many(elems: seq<Value>)                   // a container
    | Record(slots: seq<Value>)                 // a struct; one slot for each declared field
    | Absent | Present(value: Value)            // a std::optional
    | NoMember | Member(index: nat, value: Value)  // a variant; NoMember is its index 0

  // How absence of a field is represented: not at all, by an empty std::optional, by an empty buffer, or by a
  // default value.
  datatype Presence = Required | Optional | OptionalBuffer | DefaultTo(value: Value)

  // What bytes are read into: a resizable buffer of elements of some size, or one of fixed length.
  datatype Buffer = Resizable(unit: nat) | FixedSize(size: nat)

  // What a repeated field is read into: a container that grows, a map, or a range of fixed length, perhaps an array,
  // with the value that clearing gives it.
  datatype Target = Growing | Associative | FixedCount(count: nat, cleared: Value, isArray: bool)

  datatype Field =
    | Scalar(id: nat, ty: IntType, presence: Presence)
    | Fixed(id: nat, ty: IntType, presence: Presence)
    | Bytes(id: nat, buffer: Buffer, presence: Presence)
    | Message(id: nat, fields: seq<Field>, presence: Presence)
    | Repeated(elem: Field, target: Target)
    | Oneof(members: seq<Field>)

  predicate IsContent(f: Field) {
    !f.Repeated? && !f.Oneof?
  }

  predicate IsOptional(f: Field) {
    !IsContent(f) || f.presence != Required
  }

  predicate IsPacked(elem: Field) {
    elem.Scalar? || elem.Fixed?
  }

  function FieldId(f: Field): nat
    requires !f.Oneof?
  {
    if f.Repeated? then (if IsContent(f.elem) then f.elem.id else 0) else f.id
  }

  function WireType(f: Field): nat {
    match f
    case Scalar(_, _, _) => VARINT
    case Fixed(_, ty, _) => if ty.Int? && ty.width == W32 then FIX32 else FIX64
    case _ => LEN_DLM
  }

  // Ids above the limit do not fit a 32-bit tag; well-formed schemas have none.
  function TagOf(f: Field): Tag
    requires !f.Oneof?
  {
    TagNumber(if FieldId(f) < ID_LIMIT then FieldId(f) else 0, WireType(f))
  }

  /* ----- the tables a message is dispatched with ----- */

  // The fields a reader can meet: a oneof injects its members, any other field itself.  Each entry holds the
  // index of the declared field and of the member in it.
  function Expansion(fs: seq<Field>, k: nat): (r: seq<(nat, nat)>)
    requires k <= |fs|
    ensures forall e :: e in r ==> k <= e.0 < |fs| && (fs[e.0].Oneof? ==> e.1 < |fs[e.0].members|)
    decreases |fs| - k
  {
    if k == |fs| then []
    else if fs[k].Oneof? then seq(|fs[k].members|, m => (k, m)) + Expansion(fs, k + 1)
    else [(k, 0)] + Expansion(fs, k + 1)
  }

  predicate IsEntry(fs: seq<Field>, e: (nat, nat)) {
    e.0 < |fs| && if fs[e.0].Oneof? then e.1 < |fs[e.0].members| else e.1 == 0
  }

  function EntryField(fs: seq<Field>, e: (nat, nat)): Field
    requires IsEntry(fs, e)
  {
    if fs[e.0].Oneof? then fs[e.0].members[e.1] else fs[e.0]
  }

  lemma {:induction false} ExpansionMembers(fs: seq<Field>, k: nat, e: (nat, nat))
    requires k <= |fs|
    ensures e in Expansion(fs, k) <==> k <= e.0 && IsEntry(fs, e)
    decreases |fs| - k
  {
    if k < |fs| {
      ExpansionMembers(fs, k + 1, e);
      if fs[k].Oneof? {
        var own := seq(|fs[k].members|, m => (k, m));
        if e.0 == k && e.1 < |fs[k].members| {
          assert own[e.1] == e;
        }
      }
    }
  }

  // No two fields a reader can meet share an id.
  ghost predicate DistinctIds(fs: seq<Field>) {
    && (forall e | IsEntry(fs, e) :: !EntryField(fs, e).Oneof?)
    && forall d, e | IsEntry(fs, d) && IsEntry(fs, e) && d != e ::
          FieldId(EntryField(fs, d)) != FieldId(EntryField(fs, e))
  }

  /* ----- well-formed schemas ----- */

  ghost predicate WellFormed(f: Field)
    decreases f
  {
    var sound :=
      match f
      case Scalar(id, ty, p) => 0 < id < ID_LIMIT && IsVarintType(ty) && p != OptionalBuffer && DefaultFits(f)
      case Fixed(id, ty, p) => 0 < id < ID_LIMIT && IsFixedType(ty) && p != OptionalBuffer && DefaultFits(f)
      case Bytes(id, buffer, p) =>
        && 0 < id < ID_LIMIT && DefaultFits(f)
        && (buffer.Resizable? ==> buffer.unit > 0)
        && (p == OptionalBuffer ==> buffer.Resizable?)
      case Message(id, fields, p) =>  // an outermost message has id 0
        && 0 <= id < ID_LIMIT && p != OptionalBuffer && DefaultFits(f)
        && |fields| > 0 && DistinctIds(fields)
        && forall i | 0 <= i < |fields| :: WellFormed(fields[i]) && (fields[i].Message? ==> fields[i].id > 0)
      case Repeated(elem, target) =>
        && IsContent(elem) && elem.presence == Required && elem.id > 0 && WellFormed(elem)
        && (target.Associative? ==> elem.Message? && |elem.fields| == 2)
        && (target.FixedCount? ==> target.cleared.Many? && |target.cleared.elems| == target.count)
      case Oneof(members) =>
        forall i | 0 <= i < |members| ::
          IsContent(members[i]) && members[i].presence == Required && members[i].id > 0 && WellFormed(members[i]);
    sound
  }

  predicate IsFixedType(ty: IntType) {
    ty.Int? && (ty.width == W32 || ty.width == W64) && !ty.zigzag
  }

  ghost predicate DefaultFits(f: Field)
    requires IsContent(f)
    decreases f, 1
  {
    f.presence.DefaultTo? ==> Fits(f, f.presence.value)
  }

  /* ----- values that fit ----- */

  // x can be the content of f, its presence aside.
  ghost predicate Fits(f: Field, x: Value)
    requires IsContent(f)
    decreases f, 0
  {
    var fits :=
      match f
      case Scalar(_, ty, _) => x.Num? && InRange(ty, x.n)
      case Fixed(_, ty, _) => x.Num? && InRange(ty, x.n)
      case Bytes(_, buffer, _) =>
        && x.Data?
        && if buffer.Resizable? then buffer.unit > 0 && |x.bytes| % buffer.unit == 0 else |x.bytes| == buffer.size
      case Message(_, fields, _) =>
        x.Record? && |x.slots| == |fields| && forall i | 0 <= i < |fields| :: Conforms(fields[i], x.slots[i]);
    fits
  }

  // v can be the value of f, wrapped as f's presence, container or variant demands.
  ghost predicate Conforms(f: Field, v: Value)
    decreases f, 1
  {
    var conforms :=
      match f
      case Repeated(elem, target) =>
        && v.Many? && IsContent(elem)
        && (forall i | 0 <= i < |v.elems| :: Fits(elem, v.elems[i]))
        && (target.FixedCount? ==> |v.elems| == target.count)
        && (target.Associative? ==> DistinctKeys(v.elems))
      case Oneof(members) =>
        || v.NoMember?
        || (v.Member? && v.index < |members| && IsContent(members[v.index]) && Fits(members[v.index], v.value))
      case _ =>
        if f.presence == Optional then v.Absent? || (v.Present? && Fits(f, v.value)) else Fits(f, v);
    conforms
  }

  // Map entries are records whose first slot is the key.
  function KeyOf(entry: Value): Value {
    if entry.Record? && |entry.slots| > 0 then entry.slots[0] else Absent
  }

  ghost predicate DistinctKeys(entries: seq<Value>) {
    forall i, j | 0 <= i < j < |entries| :: KeyOf(entries[i]) != KeyOf(entries[j])
  }

  /* ----- presence ----- */

  predicate HasVal(f: Field, v: Value)
    requires IsContent(f)
  {
    match f.presence
    case Required => true
    case Optional => v.Present?
    case OptionalBuffer => v.Data? && |v.bytes| > 0
    case DefaultTo(d) => v != d
  }

  function ConstVal(f: Field, v: Value): Value
    requires IsContent(f)
  {
    if f.presence == Optional && v.Present? then v.value else v
  }

  // The value to read into; an empty std::optional is filled first.
  function MutableVal(f: Field, v: Value): Value
    requires IsContent(f)
  {
    if f.presence != Optional then v else if v.Present? then v.value else Blank
  }

  function Wrap(f: Field, x: Value): Value
    requires IsContent(f)
  {
    if f.presence == Optional then Present(x) else x
  }

  // Stands for a freshly constructed value.
  const Blank: Value := Num(0)

  function SlotsOf(n: nat, v: Value): (r: seq<Value>)
    ensures |r| == n
  {
    if v.Record? && |v.slots| == n then v.slots else seq(n, _ => Blank)
  }

  function ElemsOf(n: nat, v: Value): (r: seq<Value>)
    ensures |r| == n
  {
    if v.Many? && |v.elems| == n then v.elems else seq(n, _ => Blank)
  }

  // What clearing leaves.
  function Cleared(f: Field): Value
    requires IsOptional(f)
  {
    match f
    case Repeated(_, target) => if target.FixedCount? then target.cleared else Many([])
    case Oneof(_) => NoMember
    case _ =>
      match f.presence
      case DefaultTo(d) => d
      case OptionalBuffer => Data([])
      case _ => Absent
  }

  // Whether writing f puts anything on the wire.
  predicate Written(f: Field, v: Value) {
    match f
    case Repeated(elem, _) => IsPacked(elem) || (v.Many? && v.elems != [])
    case Oneof(_) => v.Member?
    case _ => HasVal(f, v)
  }

  // What an absent field is left with.
  predicate IsAbsentValue(f: Field, v: Value) {
    match f
    case Repeated(_, target) => v == if target.FixedCount? then target.cleared else Many([])
    case Oneof(_) => v == NoMember
    case _ =>
      match f.presence
      case Required => false
      case Optional => v == Absent
      case OptionalBuffer => v == Data([])
      case DefaultTo(d) => v == d
  }

  // A value that puts nothing on the wire is the value clearing gives back.
  lemma UnwrittenIsCleared(f: Field, v: Value)
    requires WellFormed(f) && Conforms(f, v) && !Written(f, v)
    ensures IsOptional(f) && v == Cleared(f)
  {
    if f.Repeated? && f.target.FixedCount? {
      assert f.target.cleared.elems == [];
    }
  }
}
