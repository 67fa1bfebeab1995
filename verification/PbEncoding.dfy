/** The wire format as one recursive encoder, and what it promises about lengths. */
module PbEncoding {
  import opened Arith
  import opened Varint
  import opened PbTags
  import opened PbSchema

  const LENGTH_LIMIT: nat := 0x1_0000_0000  // lengths are 32-bit

  // Little-endian bytes of an unsigned number.
  function LittleEndian(u: nat, size: nat): (s: seq<byte>)
    ensures |s| == size
  {
    if size == 0 then [] else [u % 0x100] + LittleEndian(u / 0x100, size - 1)
  }

  function FromLittleEndian(s: seq<byte>): nat {
    if s == [] then 0 else s[0] + 0x100 * FromLittleEndian(s[1..])
  }

  function FixedBytes(ty: IntType): nat {
    if ty.Int? && ty.width == W32 then 4 else 8
  }

  function StoreFixed(ty: IntType, n: int): (s: seq<byte>)
    ensures |s| == FixedBytes(ty)
  {
    LittleEndian(ToUnsigned(if FixedBytes(ty) == 4 then W32 else W64, n), FixedBytes(ty))
  }

  function LoadFixed(ty: IntType, s: seq<byte>): int {
    if ty.Int? && ty.signed then ToSigned(ty.width, FromLittleEndian(s)) else FromLittleEndian(s)
  }

  function Prefixed(body: seq<byte>): (s: seq<byte>)
    ensures |s| == |Encode(|body|)| + |body|
  {
    Encode(|body|) + body
  }

  function Tagged(f: Field, payload: seq<byte>): (s: seq<byte>)
    requires !f.Oneof?
    ensures |s| == |Encode(TagOf(f))| + |payload|
  {
    Encode(TagOf(f)) + payload
  }

  // What follows the tag of a field whose content is x.
  ghost function Payload(f: Field, x: Value): seq<byte>
    requires IsContent(f) && WellFormed(f) && Fits(f, x)
    decreases f, 0, 0
  {
    match f
    case Scalar(_, ty, _) => EncodeAs(ty, x.n)
    case Fixed(_, ty, _) => StoreFixed(ty, x.n)
    case Bytes(_, _, _) => Prefixed(x.bytes)
    case Message(_, fields, _) => Prefixed(FieldsBytes(fields, x.slots, 0))
  }

  ghost predicate AllConform(fs: seq<Field>, vs: seq<Value>) {
    && |vs| == |fs|
    && (forall i | 0 <= i < |fs| :: WellFormed(fs[i]) && Conforms(fs[i], vs[i]))
    && forall i | 0 <= i < |fs| :: fs[i].Message? ==> fs[i].id > 0
  }

  // The declared fields of a message from the k-th on, in declaration order.
  ghost function FieldsBytes(fs: seq<Field>, vs: seq<Value>, k: nat): seq<byte>
    requires AllConform(fs, vs) && k <= |fs|
    decreases fs, 0, |fs| - k
  {
    if k == |fs| then [] else FieldBytes(fs[k], vs[k]) + FieldsBytes(fs, vs, k + 1)
  }

  // One declared field with its tag; nothing when it has no value.
  ghost function FieldBytes(f: Field, v: Value): seq<byte>
    requires WellFormed(f) && Conforms(f, v)
    decreases f, 2, 0
  {
    match f
    case Repeated(elem, _) =>
      if IsPacked(elem) then Tagged(f, Prefixed(PackedBytes(elem, v.elems, 0))) else RunBytes(elem, v.elems, 0)
    case Oneof(members) =>
      if v.NoMember? then [] else Tagged(members[v.index], Payload(members[v.index], v.value))
    case _ =>
      if HasVal(f, v) then Tagged(f, Payload(f, ConstVal(f, v))) else []
  }

  ghost predicate AllFit(elem: Field, es: seq<Value>) {
    IsContent(elem) && WellFormed(elem) && forall i | 0 <= i < |es| :: Fits(elem, es[i])
  }

  // Elements without tags, from the k-th on.
  ghost function PackedBytes(elem: Field, es: seq<Value>, k: nat): seq<byte>
    requires AllFit(elem, es) && k <= |es|
    decreases elem, 1, |es| - k
  {
    if k == |es| then [] else Payload(elem, es[k]) + PackedBytes(elem, es, k + 1)
  }

  // Elements each with the tag, from the k-th on.
  ghost function RunBytes(elem: Field, es: seq<Value>, k: nat): seq<byte>
    requires AllFit(elem, es) && k <= |es|
    decreases elem, 1, |es| - k
  {
    if k == |es| then [] else Tagged(elem, Payload(elem, es[k])) + RunBytes(elem, es, k + 1)
  }

  // A buffer holds a tagged field, or a message with a length prefix, or the bare fields of a message.
  datatype Form = WithTag | LengthPrefixed | Bare

  ghost predicate FormFits(f: Field, form: Form) {
    if form == WithTag then !f.Oneof? && FieldId(f) > 0 else f.Message? && f.presence == Required
  }

  ghost function BytesOf(f: Field, form: Form, v: Value): seq<byte>
    requires WellFormed(f) && Conforms(f, v) && FormFits(f, form)
  {
    match form
    case WithTag => FieldBytes(f, v)
    case LengthPrefixed => Payload(f, v)
    case Bare => assert Fits(f, v); FieldsBytes(f.fields, v.slots, 0)
  }

  /* ----- facts about the encoding ----- */

  lemma Assoc(a: seq<byte>, b: seq<byte>, c: seq<byte>)
    ensures (a + b) + c == a + (b + c)
    ensures (a + b)[|a|..] == b
  {
  }

  lemma {:induction false} LittleEndianInverse(u: nat, size: nat, bound: nat)
    requires u < bound && ((bound == 0x1_0000_0000 && size == 4) || (bound == 0x1_0000_0000_0000_0000 && size == 8))
    ensures FromLittleEndian(LittleEndian(u, size)) == u
  {
    LittleEndianPrefix(u, size);
    Pow256Values();
    DivModUnique(u, Pow256(size), 0, u);
  }

  function Pow256(n: nat): (p: nat)
    ensures p > 0
  {
    if n == 0 then 1 else 0x100 * Pow256(n - 1)
  }

  lemma Pow256Values()
    ensures Pow256(4) == 0x1_0000_0000 && Pow256(8) == 0x1_0000_0000_0000_0000
  {
    assert Pow256(2) == 0x1_0000;
    assert Pow256(6) == 0x1_0000_0000_0000;
  }

  lemma SplitLowByte(u: nat, p: nat)
    requires p > 0
    ensures u % (0x100 * p) == u % 0x100 + 0x100 * (u / 0x100 % p)
  {
    var q, r := u / 0x100 / p, u / 0x100 % p;
    assert u == 0x100 * (q * p + r) + u % 0x100;
    assert q * (0x100 * p) == 0x100 * (q * p);
    DivModUnique(u, 0x100 * p, q, u % 0x100 + 0x100 * r);
  }

  lemma {:induction false} LittleEndianPrefix(u: nat, size: nat)
    ensures FromLittleEndian(LittleEndian(u, size)) == u % Pow256(size)
  {
    if size == 0 {
      assert Pow256(0) == 1;
    } else {
      LittleEndianPrefix(u / 0x100, size - 1);
      SplitLowByte(u, Pow256(size - 1));
      assert LittleEndian(u, size)[1..] == LittleEndian(u / 0x100, size - 1);
    }
  }

  lemma FixedRoundTrip(ty: IntType, n: int)
    requires IsFixedType(ty) && InRange(ty, n)
    ensures LoadFixed(ty, StoreFixed(ty, n)) == n
  {
    var m := Mod(ty.width);
    LittleEndianInverse(n % m, FixedBytes(ty), m);
    if ty.signed {
      ToSignedMeaning(ty.width, n);
    } else {
      DivModUnique(n, m, 0, n);
    }
  }

  lemma PayloadNotEmpty(f: Field, x: Value)
    requires IsContent(f) && WellFormed(f) && Fits(f, x)
    ensures |Payload(f, x)| >= 1
  {
  }

  // A written field puts at least a tag and one byte on the wire, an unwritten one nothing.
  lemma WrittenMeansBytes(f: Field, v: Value)
    requires WellFormed(f) && Conforms(f, v)
    ensures Written(f, v) <==> FieldBytes(f, v) != []
  {
  }

  // Nothing at all is written exactly for an absent value, a oneof without member, or an unpacked field without
  // elements.
  lemma NothingWritten(f: Field, v: Value)
    requires WellFormed(f) && Conforms(f, v)
    ensures FieldBytes(f, v) == [] <==> if f.Repeated? then !IsPacked(f.elem) && v.elems == [] else IsAbsentValue(f, v)
  {
    WrittenMeansBytes(f, v);
  }

  // Byte i of a little-endian number is its i-th base-256 digit.
  lemma {:induction false} LittleEndianByte(u: nat, size: nat, i: nat)
    requires i < size
    ensures LittleEndian(u, size)[i] == u / Pow256(i) % 0x100
  {
    if i > 0 {
      LittleEndianByte(u / 0x100, size - 1, i - 1);
      DivDiv(u, Pow256(i - 1));
    }
  }

  lemma DivDiv(u: nat, p: nat)
    requires p > 0
    ensures u / 0x100 / p == u / (0x100 * p)
  {
    SplitLowByte(u, p);
    var q, r := u / 0x100 / p, u / 0x100 % p;
    assert u / 0x100 == q * p + r;
    assert u == 0x100 * (q * p) + (0x100 * r + u % 0x100);
    assert 0x100 * (q * p) == q * (0x100 * p);
    DivModUnique(u, 0x100 * p, q, 0x100 * r + u % 0x100);
  }
}
