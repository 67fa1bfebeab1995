/** The two-pass encoder: one pass computes lengths into a flat cache, the other writes and consumes it. */
module PbTwoPass {
  import opened Arith
  import opened Varint
  import opened PbTags
  import opened PbSchema
  import opened PbEncoding

  /* ----- lengths known from the schema ----- */

  predicate IsStatic(f: Field)
    decreases f
  {
    match f
    case Scalar(_, ty, p) => p == Required && ty == Bool
    case Fixed(_, _, p) => p == Required
    case Bytes(_, _, _) => false
    case Message(_, fields, p) => p == Required && forall i | 0 <= i < |fields| :: IsStatic(fields[i])
    case Repeated(elem, target) => target.FixedCount? && target.isArray && IsStatic(elem)
    case Oneof(_) => false
  }

  // The count-leading-zeros formula, for lengths and tags.
  function VarintSize(n: nat): nat {
    if n < LENGTH_LIMIT then NonNegative(WireSize(UINT32, n)) else 0
  }

  function NonNegative(n: int): nat {
    if n < 0 then 0 else n
  }

  lemma VarintSizeIsExact(n: nat)
    requires n < LENGTH_LIMIT
    ensures VarintSize(n) == |Encode(n)|
  {
    DivModUnique(n, LENGTH_LIMIT, 0, n);
    WireSizeIsExact(UINT32, n);
  }

  function TagSize(f: Field): nat {
    if f.Oneof? then 0 else VarintSize(TagOf(f))
  }

  function DelimitedSize(len: nat): nat {
    VarintSize(len) + len
  }

  // n elements of m bytes.
  function Times(n: nat, m: nat): nat {
    if n == 0 then 0 else m + Times(n - 1, m)
  }

  lemma {:induction false} TimesIsProduct(n: nat, m: nat)
    ensures Times(n, m) == n * m
  {
    if n > 0 {
      TimesIsProduct(n - 1, m);
      assert n * m == m + (n - 1) * m;
    }
  }

  // What follows the tag of a static field.
  function StaticPayload(f: Field): nat
    decreases f, 0
  {
    match f
    case Scalar(_, _, _) => 1
    case Fixed(_, ty, _) => FixedBytes(ty)
    case Message(_, fields, _) => DelimitedSize(StaticFields(fields, 0))
    case _ => 0
  }

  function StaticField(f: Field): nat
    decreases f, 1
  {
    match f
    case Repeated(elem, target) =>
      if !target.FixedCount? then 0
      else if IsPacked(elem) then TagSize(f) + DelimitedSize(Times(target.count, StaticPayload(elem)))
      else Times(target.count, TagSize(f) + StaticPayload(elem))
    case _ => TagSize(f) + StaticPayload(f)
  }

  function StaticFields(fs: seq<Field>, k: nat): nat
    requires k <= |fs|
    decreases fs, |fs| - k
  {
    if k == |fs| then 0 else StaticField(fs[k]) + StaticFields(fs, k + 1)
  }

  /* ----- the cache: sub-lengths in preorder, none for a static subtree ----- */

  ghost function CacheOfContent(f: Field, x: Value): seq<nat>
    requires IsContent(f) && WellFormed(f) && Fits(f, x)
    decreases f, 0, 0
  {
    if f.Message? && !IsStatic(f) then [|FieldsBytes(f.fields, x.slots, 0)|] + CacheOfFields(f.fields, x.slots,
          0) else []
  }

  ghost function CacheOfField(f: Field, v: Value): seq<nat>
    requires WellFormed(f) && Conforms(f, v)
    decreases f, 2, 0
  {
    match f
    case Repeated(elem, _) =>
      if IsStatic(elem) then []
      else if IsPacked(elem) then [|PackedBytes(elem, v.elems, 0)|]
      else CacheOfRun(elem, v.elems, 0)
    case Oneof(members) => if v.NoMember? then [] else CacheOfContent(members[v.index], v.value)
    case _ => if HasVal(f, v) then CacheOfContent(f, ConstVal(f, v)) else []
  }

  ghost function CacheOfFields(fs: seq<Field>, vs: seq<Value>, k: nat): seq<nat>
    requires AllConform(fs, vs) && k <= |fs|
    decreases fs, 0, |fs| - k
  {
    if k == |fs| then [] else CacheOfField(fs[k], vs[k]) + CacheOfFields(fs, vs, k + 1)
  }

  ghost function CacheOfRun(elem: Field, es: seq<Value>, k: nat): seq<nat>
    requires AllFit(elem, es) && k <= |es|
    decreases elem, 1, |es| - k
  {
    if k == |es| then [] else CacheOfContent(elem, es[k]) + CacheOfRun(elem, es, k + 1)
  }

  /* ----- how many slots the cache needs, counted without computing any length ----- */

  function CountContent(f: Field, x: Value): nat
    decreases f, 0, 0
  {
    if f.Message? && !IsStatic(f) && x.Record? && |x.slots| == |f.fields| then
          1 + CountFields(f.fields, x.slots, 0) else 0
  }

  function CountField(f: Field, v: Value): nat
    decreases f, 2, 0
  {
    match f
    case Repeated(elem, _) =>
      if IsStatic(elem) then 0 else if IsPacked(elem) then 1 else if v.Many? then CountRun(elem, v.elems, 0) else 0
    case Oneof(members) => if v.Member? && v.index < |members| then CountContent(members[v.index], v.value) else 0
    case _ => if HasVal(f, v) then CountContent(f, ConstVal(f, v)) else 0
  }

  function CountFields(fs: seq<Field>, vs: seq<Value>, k: nat): nat
    requires |vs| == |fs| && k <= |fs|
    decreases fs, 0, |fs| - k
  {
    if k == |fs| then 0 else CountField(fs[k], vs[k]) + CountFields(fs, vs, k + 1)
  }

  function CountRun(elem: Field, es: seq<Value>, k: nat): nat
    requires k <= |es|
    decreases elem, 1, |es| - k
  {
    if k == |es| then 0 else CountContent(elem, es[k]) + CountRun(elem, es, k + 1)
  }

  lemma {:induction false} CountContentIsExact(f: Field, x: Value)
    requires IsContent(f) && WellFormed(f) && Fits(f, x)
    ensures CountContent(f, x) == |CacheOfContent(f, x)|
    decreases f, 0, 0
  {
    if f.Message? && !IsStatic(f) {
      CountFieldsIsExact(f.fields, x.slots, 0);
    }
  }

  // The slots counted beforehand are exactly the slots the size pass fills.
  lemma {:induction false} CountIsExact(f: Field, v: Value)
    requires WellFormed(f) && Conforms(f, v)
    ensures CountField(f, v) == |CacheOfField(f, v)|
    decreases f, 2, 0
  {
    match f
    case Repeated(elem, _) => if !IsStatic(elem) && !IsPacked(elem) { CountRunIsExact(elem, v.elems, 0); }
    case Oneof(members) => if v.Member? { CountContentIsExact(members[v.index], v.value); }
    case _ => if HasVal(f, v) { CountContentIsExact(f, ConstVal(f, v)); }
  }

  lemma {:induction false} CountFieldsIsExact(fs: seq<Field>, vs: seq<Value>, k: nat)
    requires AllConform(fs, vs) && k <= |fs|
    ensures CountFields(fs, vs, k) == |CacheOfFields(fs, vs, k)|
    decreases fs, 0, |fs| - k
  {
    if k < |fs| {
      CountIsExact(fs[k], vs[k]);
      CountFieldsIsExact(fs, vs, k + 1);
    }
  }

  lemma {:induction false} CountRunIsExact(elem: Field, es: seq<Value>, k: nat)
    requires AllFit(elem, es) && k <= |es|
    ensures CountRun(elem, es, k) == |CacheOfRun(elem, es, k)|
    decreases elem, 1, |es| - k
  {
    if k < |es| {
      CountContentIsExact(elem, es[k]);
      CountRunIsExact(elem, es, k + 1);
    }
  }

  /* ----- static lengths are the true ones, whatever the value ----- */

  lemma {:induction false} StaticPayloadIsExact(f: Field, x: Value)
    requires IsContent(f) && WellFormed(f) && Fits(f, x) && IsStatic(f)
    requires |Payload(f, x)| < LENGTH_LIMIT
    ensures StaticPayload(f) == |Payload(f, x)|
    decreases f, 0, 0
  {
    if f.Message? {
      StaticFieldsAreExact(f.fields, x.slots, 0);
      VarintSizeIsExact(StaticFields(f.fields, 0));
    }
  }

  lemma {:induction false} StaticFieldIsExact(f: Field, v: Value)
    requires WellFormed(f) && Conforms(f, v) && IsStatic(f)
    requires |FieldBytes(f, v)| < LENGTH_LIMIT
    ensures StaticField(f) == |FieldBytes(f, v)|
    decreases f, 2, 0
  {
    match f
    case Repeated(_, _) => StaticRepeatedIsExact(f, v);
    case Scalar(_, _, _) => VarintSizeIsExact(TagOf(f)); StaticPayloadIsExact(f, v);
    case Fixed(_, _, _) => VarintSizeIsExact(TagOf(f)); StaticPayloadIsExact(f, v);
    case Message(_, _, _) => VarintSizeIsExact(TagOf(f)); StaticPayloadIsExact(f, v);
  }

  lemma {:induction false} StaticRepeatedIsExact(f: Field, v: Value)
    requires f.Repeated? && WellFormed(f) && Conforms(f, v) && IsStatic(f)
    requires |FieldBytes(f, v)| < LENGTH_LIMIT
    ensures StaticField(f) == |FieldBytes(f, v)|
    decreases f, 1, 0
  {
    VarintSizeIsExact(TagOf(f));
    if IsPacked(f.elem) {
      PackedIsProduct(f.elem, v.elems, 0);
      VarintSizeIsExact(|PackedBytes(f.elem, v.elems, 0)|);
    } else {
      assert TagOf(f.elem) == TagOf(f);
      RunIsProduct(f.elem, v.elems, 0);
    }
  }

  lemma {:induction false} StaticFieldsAreExact(fs: seq<Field>, vs: seq<Value>, k: nat)
    requires AllConform(fs, vs) && k <= |fs| && forall i | 0 <= i < |fs| :: IsStatic(fs[i])
    requires |FieldsBytes(fs, vs, k)| < LENGTH_LIMIT
    ensures StaticFields(fs, k) == |FieldsBytes(fs, vs, k)|
    decreases fs, 0, |fs| - k
  {
    if k < |fs| {
      StaticFieldIsExact(fs[k], vs[k]);
      StaticFieldsAreExact(fs, vs, k + 1);
    }
  }

  lemma {:induction false} PackedIsProduct(elem: Field, es: seq<Value>, k: nat)
    requires AllFit(elem, es) && IsStatic(elem) && k <= |es| && |PackedBytes(elem, es, k)| < LENGTH_LIMIT
    ensures |PackedBytes(elem, es, k)| == Times(|es| - k, StaticPayload(elem))
    decreases elem, 1, |es| - k
  {
    if k < |es| {
      StaticPayloadIsExact(elem, es[k]);
      PackedIsProduct(elem, es, k + 1);
    }
  }

  lemma {:induction false} ElementSize(elem: Field, x: Value)
    requires IsContent(elem) && WellFormed(elem) && Fits(elem, x) && IsStatic(elem) && |Payload(elem, x)| < LENGTH_LIMIT
    ensures |Tagged(elem, Payload(elem, x))| == TagSize(elem) + StaticPayload(elem)
    decreases elem, 0, 1
  {
    VarintSizeIsExact(TagOf(elem));
    StaticPayloadIsExact(elem, x);
  }

  lemma RunLength(elem: Field, es: seq<Value>, k: nat)
    requires AllFit(elem, es) && k < |es|
    ensures |RunBytes(elem, es, k)| == |Tagged(elem, Payload(elem, es[k]))| + |RunBytes(elem, es, k + 1)|
    ensures |Payload(elem, es[k])| <= |Tagged(elem, Payload(elem, es[k]))|
  {
  }

  lemma {:induction false} RunIsProduct(elem: Field, es: seq<Value>, k: nat)
    requires AllFit(elem, es) && IsStatic(elem) && k <= |es| && |RunBytes(elem, es, k)| < LENGTH_LIMIT
    ensures |RunBytes(elem, es, k)| == Times(|es| - k, TagSize(elem) + StaticPayload(elem))
    decreases elem, 1, |es| - k
  {
    if k < |es| {
      var n, m := |es| - k, TagSize(elem) + StaticPayload(elem);
      RunLength(elem, es, k);
      ElementSize(elem, es[k]);
      RunIsProduct(elem, es, k + 1);
      assert |es| - (k + 1) == n - 1;
      assert Times(n, m) == m + Times(n - 1, m);
    }
  }

  // Nothing is cached for a field of static length, however large it is.
  lemma StaticNeedsNoSlots(f: Field, v: Value)
    requires WellFormed(f) && Conforms(f, v) && IsStatic(f)
    ensures CountField(f, v) == 0 && CacheOfField(f, v) == []
  {
  }
}
