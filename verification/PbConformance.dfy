/** Whatever the decoder accepts conforms to the schema, so it can be encoded again and comes back the same. */
module PbConformance {
  import opened PbErrors
  import opened Varint
  import opened PbTags
  import opened PbSchema
  import opened PbEncoding
  import opened PbDecoding
  import opened PbRoundTrip
  import opened PbCopying

  // What clearing leaves in ranges of fixed length fits their elements.
  ghost predicate ClearsFit(f: Field)
    decreases f
  {
    match f
    case Repeated(elem, target) =>
      && ClearsFit(elem) && IsContent(elem)
      && (target.FixedCount? && target.cleared.Many? ==>
            forall i | 0 <= i < |target.cleared.elems| :: Fits(elem, target.cleared.elems[i]))
    case Oneof(members) => forall i | 0 <= i < |members| :: ClearsFit(members[i])
    case Message(_, fields, _) => forall i | 0 <= i < |fields| :: ClearsFit(fields[i])
    case _ => true
  }

  lemma ClearedConforms(f: Field)
    requires WellFormed(f) && ClearsFit(f) && IsOptional(f)
    ensures Conforms(f, Cleared(f))
  {
  }

  ghost predicate SeenConform(fs: seq<Field>, slots: seq<Value>, seen: set<nat>) {
    |slots| == |fs| && forall i | i in seen && i < |fs| :: Conforms(fs[i], slots[i])
  }

  ghost predicate Clearable(fs: seq<Field>) {
    Readable(fs) && forall i | 0 <= i < |fs| :: ClearsFit(fs[i])
  }

  lemma {:induction false} ContentFits(f: Field, prior: Value, s: seq<byte>)
    requires IsContent(f) && WellFormed(f) && ClearsFit(f) && ReadContent(f, prior, s).Ok?
    ensures Fits(f, ReadContent(f, prior, s).value)
    decreases f, 0, 0
  {
    match f
    case Scalar(_, ty, _) => ReadAsInRange(ty, s);
    case Fixed(_, ty, _) => StoreLoad(ty, s[..FixedBytes(ty)]);
    case Bytes(_, _, _) =>
    case Message(_, fields, _) =>
      FieldsConform(fields, SlotsOf(|fields|, prior), {}, ReadSlice(s, MsgIncomplete).value);
  }

  lemma {:induction false} FieldsConform(fs: seq<Field>, slots: seq<Value>, seen: set<nat>, s: seq<byte>)
    requires Clearable(fs) && SeenConform(fs, slots, seen) && ReadFields(fs, slots, seen, s).Success?
    ensures var vs := ReadFields(fs, slots, seen, s).value; forall i | 0 <= i < |fs| :: Conforms(fs[i], vs[i])
    decreases fs, 4, |s|
  {
    if s == [] {
      ExamConforms(fs, slots, seen, 0);
    } else {
      var tag, n := ReadAs(UINT32, s).value, ReadAs(UINT32, s).used;
      ReadAsInRange(UINT32, s);
      StepConforms(fs, slots, seen, tag, s[n..]);
      var step := FieldStep(fs, slots, seen, tag, s[n..]);
      FieldsConform(fs, step.slots, step.seen, s[n..][step.used..]);
    }
  }

  lemma {:induction false} StepConforms(fs: seq<Field>, slots: seq<Value>, seen: set<nat>, tag: Tag, rest: seq<byte>)
    requires Clearable(fs) && SeenConform(fs, slots, seen) && FieldStep(fs, slots, seen, tag, rest).Next?
    ensures var step := FieldStep(fs, slots, seen, tag, rest); SeenConform(fs, step.slots, step.seen)
    decreases fs, 3, 0
  {
    match Dispatch(fs, tag)
    case Nobody =>
    case Entry(i, m) =>
      EntryConforms(fs[i], m, slots[i], rest);
      StuckStays(fs[i], m, slots[i], rest);
  }

  // Only an unpacked range can get stuck; its elements were read, or are what they were.
  lemma {:induction false} StuckStays(f: Field, m: nat, prior: Value, s: seq<byte>)
    requires WellFormed(f) && ClearsFit(f) && (f.Oneof? ==> m < |f.members|)
    ensures var r := ReadEntry(f, m, prior, s); r.Stuck? && Conforms(f, prior) ==> Conforms(f, r.value)
    decreases f, 2, 0
  {
    if f.Repeated? && !IsPacked(f.elem) && f.target.FixedCount? && Conforms(f, prior) {
      RangeFits(f.elem, prior.elems, 0, s);
    } else if f.Repeated? && !IsPacked(f.elem) && !f.target.FixedCount? {
      RunNotStuck(f.elem, f.target.Associative?, [], s);
    }
  }

  lemma {:induction false} RunNotStuck(elem: Field, associative: bool, acc: seq<Value>, s: seq<byte>)
    requires IsContent(elem) && WellFormed(elem)
    ensures !ReadRun(elem, associative, acc, s).Stuck?
    decreases |s|
  {
    if s != [] {
      match ReadContent(elem, Blank, s)
      case Err(_) =>
      case Ok(x, n) =>
        var tag := ExamTag(TagOf(elem), s[n..]);
        if tag.Ok? {
          RunNotStuck(elem, associative, Insert(associative, acc, x), s[n..][tag.used..]);
        }
    }
  }

  lemma {:induction false} EntryConforms(f: Field, m: nat, prior: Value, s: seq<byte>)
    requires WellFormed(f) && ClearsFit(f) && (f.Oneof? ==> m < |f.members|)
    ensures var r := ReadEntry(f, m, prior, s); r.Done? ==> Conforms(f, r.value)
    decreases f, 1, 0
  {
    if !ReadEntry(f, m, prior, s).Done? {
      return;
    }
    match f
    case Repeated(elem, target) =>
      if IsPacked(elem) {
        var body := ReadSlice(s, RepeatedIncomplete);
        if body.Ok? && ReadPackedBody(elem, target, body.value).Success? {
          PackedConforms(elem, target, body.value);
        }
      } else if target.FixedCount? {
        RangeFits(elem, ElemsOf(target.count, prior), 0, s);
      } else {
        RunFits(elem, target.Associative?, [], s);
      }
    case Oneof(members) =>
      ContentFits(members[m], if prior.Member? && prior.index == m then prior.value else Blank, s);
    case _ =>
      ContentFits(f, MutableVal(f, prior), s);
  }

  ghost predicate ElemsFit(elem: Field, es: seq<Value>)
    requires IsContent(elem)
  {
    forall i | 0 <= i < |es| :: Fits(elem, es[i])
  }

  lemma {:induction false} PackedConforms(elem: Field, target: Target, body: seq<byte>)
    requires IsContent(elem) && WellFormed(elem) && ClearsFit(elem) && ReadPackedBody(elem, target, body).Success?
    requires IsPacked(elem)
    ensures var es := ReadPackedBody(elem, target, body).value;
            ElemsFit(elem, es) && (target.FixedCount? ==> |es| == target.count)
    decreases elem, 2
  {
    if IsStaticElem(elem) {
      CountFits(elem, CountIn(elem, |body|), [], body);
    } else if target.FixedCount? {
      CountFits(elem, target.count, [], body);
    } else {
      AllElementsFit(elem, [], body);
    }
  }

  lemma {:induction false} CountFits(elem: Field, count: nat, acc: seq<Value>, s: seq<byte>)
    requires IsContent(elem) && WellFormed(elem) && ClearsFit(elem) && ElemsFit(elem, acc)
    requires ReadCount(elem, count, acc, s).Success?
    ensures var es := ReadCount(elem, count, acc, s).value; ElemsFit(elem, es) && |es| == |acc| + count
    decreases elem, 1, count
  {
    if count > 0 {
      var r := ReadContent(elem, Blank, s);
      ContentFits(elem, Blank, s);
      CountFits(elem, count - 1, acc + [r.value], s[r.used..]);
    }
  }

  lemma {:induction false} AllElementsFit(elem: Field, acc: seq<Value>, s: seq<byte>)
    requires IsContent(elem) && WellFormed(elem) && ClearsFit(elem) && ElemsFit(elem, acc)
          && ReadAll(elem, acc, s).Success?
    ensures ElemsFit(elem, ReadAll(elem, acc, s).value)
    decreases elem, 1, |s|
  {
    if s != [] {
      var r := ReadContent(elem, Blank, s);
      ContentFits(elem, Blank, s);
      AllElementsFit(elem, acc + [r.value], s[r.used..]);
    }
  }

  // Elements of a run, the keys of a map all different.
  ghost predicate RunSoFar(elem: Field, associative: bool, acc: seq<Value>)
    requires IsContent(elem)
  {
    ElemsFit(elem, acc) && (associative ==> DistinctKeys(acc))
  }

  lemma InsertKeeps(elem: Field, associative: bool, acc: seq<Value>, x: Value)
    requires IsContent(elem) && RunSoFar(elem, associative, acc) && Fits(elem, x)
    ensures RunSoFar(elem, associative, Insert(associative, acc, x))
  {
  }

  lemma {:induction false} RunFits(elem: Field, associative: bool, acc: seq<Value>, s: seq<byte>)
    requires IsContent(elem) && WellFormed(elem) && ClearsFit(elem) && RunSoFar(elem, associative, acc)
    ensures var r := ReadRun(elem, associative, acc, s);
            r.Done? ==> r.value.Many? && RunSoFar(elem, associative, r.value.elems)
    decreases elem, 1, |s|
  {
    if s != [] && ReadContent(elem, Blank, s).Ok? {
      var r := ReadContent(elem, Blank, s);
      var acc', rest := Insert(associative, acc, r.value), s[r.used..];
      ContentFits(elem, Blank, s);
      InsertKeeps(elem, associative, acc, r.value);
      var tag := ExamTag(TagOf(elem), rest);
      if tag.Ok? {
        RunFits(elem, associative, acc', rest[tag.used..]);
      }
    }
  }

  ghost predicate FitUpTo(elem: Field, es: seq<Value>, j: nat)
    requires IsContent(elem)
  {
    j <= |es| && forall i | 0 <= i < j :: Fits(elem, es[i])
  }

  // A range that is read through fits; one that gets stuck fits if it did before.
  ghost predicate RangeResult(elem: Field, before: seq<Value>, r: EntryRead)
    requires IsContent(elem)
  {
    && (r.Done? ==> r.value.Many? && |r.value.elems| == |before| && ElemsFit(elem, r.value.elems))
    && (r.Stuck? ==>
          r.value.Many? && |r.value.elems| == |before| && (ElemsFit(elem, before) ==> ElemsFit(elem, r.value.elems)))
  }

  lemma {:induction false} RangeFits(elem: Field, elems: seq<Value>, j: nat, s: seq<byte>)
    requires IsContent(elem) && WellFormed(elem) && ClearsFit(elem) && FitUpTo(elem, elems, j)
    ensures RangeResult(elem, elems, ReadRange(elem, elems, j, s))
    decreases elem, 1, |elems| - j, 1
  {
    if j < |elems| {
      var t := if j == 0 then Ok((), 0) else ExamTag(TagOf(elem), s);
      if t.Ok? {
        assert j == 0 ==> s[t.used..] == s;
        RangeElemFits(elem, elems, j, s[t.used..]);
      }
    }
  }

  lemma {:induction false} RangeElemFits(elem: Field, elems: seq<Value>, j: nat, s: seq<byte>)
    requires IsContent(elem) && WellFormed(elem) && ClearsFit(elem) && FitUpTo(elem, elems, j) && j < |elems|
    ensures RangeResult(elem, elems, ReadRangeElem(elem, elems, j, s))
    decreases elem, 1, |elems| - j, 0
  {
    match ReadContent(elem, elems[j], s)
    case Err(_) =>
    case Ok(x, n) =>
      ContentFits(elem, elems[j], s);
      RangeFits(elem, elems[j := x], j + 1, s[n..]);
  }

  lemma {:induction false} ExamConforms(fs: seq<Field>, slots: seq<Value>, seen: set<nat>, k: nat)
    requires Clearable(fs) && SeenConform(fs, slots, seen) && k <= |fs| && ExamFields(fs, slots, seen, k).Success?
    requires forall i | 0 <= i < k :: Conforms(fs[i], slots[i])
    ensures var vs := ExamFields(fs, slots, seen, k).value; forall i | 0 <= i < |fs| :: Conforms(fs[i], vs[i])
    decreases |fs| - k
  {
    if k < |fs| {
      if k in seen {
        ExamConforms(fs, slots, seen, k + 1);
      } else {
        ClearedConforms(fs[k]);
        ExamConforms(fs, slots[k := Cleared(fs[k])], seen, k + 1);
      }
    }
  }

  // What a full read accepts, whatever the bytes and the target, is a value of the schema ...
  lemma AcceptedConforms(f: Field, form: Form, prior: Value, s: seq<byte>)
    requires WellFormed(f) && ClearsFit(f) && FormFits(f, form) && FullRead(f, form, prior, s).Success?
    ensures Conforms(f, FullRead(f, form, prior, s).value)
  {
    match form
    case WithTag => EntryConforms(f, 0, prior, s[ExamTag(TagOf(f), s).used..]);
    case LengthPrefixed => ContentFits(f, prior, s);
    case Bare => FieldsConform(f.fields, SlotsOf(|f.fields|, prior), {}, s);
  }

  // ... and encoding it and reading again gives the same value.
  lemma AcceptedReadsAgain(f: Field, form: Form, prior: Value, s: seq<byte>, target: Value)
    requires WellFormed(f) && ClearsFit(f) && FormFits(f, form) && FullRead(f, form, prior, s).Success?
    ensures var v := FullRead(f, form, prior, s).value;
            Conforms(f, v)
            && (|BytesOf(f, form, v)| < LENGTH_LIMIT ==>
                  FullRead(f, form, target, BytesOf(f, form, v))
                  == if form == WithTag && !Written(f, v) then Failure(TagMismatch) else Success(v))
  {
    AcceptedConforms(f, form, prior, s);
    var v := FullRead(f, form, prior, s).value;
    if |BytesOf(f, form, v)| < LENGTH_LIMIT {
      WriteThenRead(f, form, v, target);
    }
  }
}
