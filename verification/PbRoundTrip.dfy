/** Reading what was written gives the written value back, whatever the target held before. */
module PbRoundTrip {
  import opened Arith
  import opened PbErrors
  import opened Varint
  import opened PbTags
  import opened PbSchema
  import opened PbEncoding
  import opened PbDecoding

  lemma DropSum(s: seq<byte>, m: nat, n: nat)
    requires m + n <= |s|
    ensures s[m..][n..] == s[m + n..]
  {
  }

  lemma ReadSliceRoundTrip(body: seq<byte>, rest: seq<byte>, incomplete: PbError)
    requires |body| < LENGTH_LIMIT
    ensures ReadSlice(Prefixed(body) + rest, incomplete) == Ok(body, |Prefixed(body)|)
  {
    var s, n := Prefixed(body) + rest, |Encode(|body|)|;
    assert s == Encode(|body|) + (body + rest);
    TagRoundTrip(|body|, body + rest);
    assert s[n..n + |body|] == body;
  }

  // Content written after a tag is read back, and nothing after it is looked at.
  lemma {:induction false} ContentRoundTrip(f: Field, x: Value, prior: Value, rest: seq<byte>)
    requires IsContent(f) && WellFormed(f) && Fits(f, x)
    requires |Payload(f, x)| < LENGTH_LIMIT
    ensures ReadContent(f, prior, Payload(f, x) + rest) == Ok(x, |Payload(f, x)|)
    decreases f, 0, 0
  {
    var s := Payload(f, x) + rest;
    match f
    case Scalar(_, ty, _) =>
      RoundTrip(ty, x.n, rest);
    case Fixed(_, ty, _) =>
      FixedRoundTrip(ty, x.n);
      assert s[..FixedBytes(ty)] == StoreFixed(ty, x.n);
    case Bytes(_, _, _) =>
      var n := |Encode(|x.bytes|)|;
      assert s == Encode(|x.bytes|) + (x.bytes + rest);
      TagRoundTrip(|x.bytes|, x.bytes + rest);
      assert s[n..n + |x.bytes|] == x.bytes;
    case Message(_, fields, _) =>
      var body := FieldsBytes(fields, x.slots, 0);
      ReadSliceRoundTrip(body, rest, MsgIncomplete);
      FieldsRoundTrip(fields, x.slots, 0, SlotsOf(|fields|, prior), {});
  }

  // The state of the message loop when it has met the fields before the k-th one.
  ghost predicate Reached(fs: seq<Field>, vs: seq<Value>, k: nat, slots: seq<Value>, seen: set<nat>) {
    && |vs| == |fs| == |slots| && k <= |fs|
    && (forall i | i in seen :: i < k && slots[i] == vs[i])
    && forall i | 0 <= i < k && i !in seen :: !Written(fs[i], vs[i])
  }

  lemma ReachedNext(fs: seq<Field>, vs: seq<Value>, k: nat, slots: seq<Value>, seen: set<nat>)
    requires Reached(fs, vs, k, slots, seen) && k < |fs|
    ensures Reached(fs, vs, k + 1, slots[k := vs[k]], seen + {k})
  {
  }

  lemma {:induction false} FieldsRoundTrip(fs: seq<Field>, vs: seq<Value>, k: nat, slots: seq<Value>, seen: set<nat>)
    requires AllConform(fs, vs) && DistinctIds(fs)
    requires Reached(fs, vs, k, slots, seen)
    requires |FieldsBytes(fs, vs, k)| < LENGTH_LIMIT
    ensures ReadFields(fs, slots, seen, FieldsBytes(fs, vs, k)) == Success(vs)
    decreases fs, 3, |fs| - k
  {
    if k == |fs| {
      ExamRestores(fs, vs, slots, seen, 0);
    } else {
      WrittenMeansBytes(fs[k], vs[k]);
      var rest := FieldsBytes(fs, vs, k + 1);
      if !Written(fs[k], vs[k]) {
        assert FieldsBytes(fs, vs, k) == rest;
        FieldsRoundTrip(fs, vs, k + 1, slots, seen);
      } else {
        FieldRoundTrip(fs, vs, k, slots, seen);
        ReachedNext(fs, vs, k, slots, seen);
        FieldsRoundTrip(fs, vs, k + 1, slots[k := vs[k]], seen + {k});
      }
    }
  }

  // One pass of the loop over a record.
  lemma ReadOneRecord(fs: seq<Field>, slots: seq<Value>, seen: set<nat>, tag: Tag, payload: seq<byte>)
    requires Readable(fs) && |slots| == |fs|
    ensures ReadFields(fs, slots, seen, Encode(tag) + payload)
         == AfterStep(fs, FieldStep(fs, slots, seen, tag, payload), payload)
  {
    var s, n := Encode(tag) + payload, |Encode(tag)|;
    TagRoundTrip(tag, payload);
    assert s[n..] == payload;
    var step := FieldStep(fs, slots, seen, tag, payload);
    if step.Next? {
      assert s[n + step.used..] == payload[step.used..];
    }
  }

  // One pass of the loop reads one written field.
  lemma {:induction false} FieldRoundTrip(fs: seq<Field>, vs: seq<Value>, k: nat, slots: seq<Value>, seen: set<nat>)
    requires AllConform(fs, vs) && DistinctIds(fs) && k < |fs| == |slots|
    requires Written(fs[k], vs[k]) && |FieldsBytes(fs, vs, k)| < LENGTH_LIMIT
    ensures ReadFields(fs, slots, seen, FieldsBytes(fs, vs, k))
         == ReadFields(fs, slots[k := vs[k]], seen + {k}, FieldsBytes(fs, vs, k + 1))
    decreases fs, 2, 1, 0
  {
    var rest, tail, m := FieldsBytes(fs, vs, k + 1), AfterTag(fs[k], vs[k]), MemberOf(fs[k], vs[k]);
    FieldsBeginWithTag(fs, vs, k);
    ReadOneRecord(fs, slots, seen, TagOf(EntryField(fs, (k, m))), tail + rest);
    StepRoundTrip(fs, vs, k, slots, seen);
    Assoc(tail, rest, []);
  }

  lemma {:induction false} StepRoundTrip(fs: seq<Field>, vs: seq<Value>, k: nat, slots: seq<Value>, seen: set<nat>)
    requires AllConform(fs, vs) && DistinctIds(fs) && k < |fs| == |slots|
    requires Written(fs[k], vs[k]) && |FieldsBytes(fs, vs, k)| < LENGTH_LIMIT
    ensures FieldStep(fs, slots, seen, TagOf(EntryField(fs, (k, MemberOf(fs[k], vs[k])))),
                      AfterTag(fs[k], vs[k]) + FieldsBytes(fs, vs, k + 1))
         == Next(slots[k := vs[k]], seen + {k}, |AfterTag(fs[k], vs[k])|)
    decreases fs, 2, 0, 1
  {
    var m, rest := MemberOf(fs[k], vs[k]), FieldsBytes(fs, vs, k + 1);
    var tail := AfterTag(fs[k], vs[k]);
    assert Dispatch(fs, TagOf(EntryField(fs, (k, m)))) == Entry(k, m) by {
      IdsBelowLimit(fs);
      DispatchFinds(fs, (k, m));
    }
    EntryInPlace(fs, vs, k, slots[k]);
    StepOfEntry(fs, slots, seen, (k, m), tail + rest);
  }

  lemma {:induction false} EntryInPlace(fs: seq<Field>, vs: seq<Value>, k: nat, prior: Value)
    requires AllConform(fs, vs) && DistinctIds(fs) && k < |fs|
    requires Written(fs[k], vs[k]) && |FieldsBytes(fs, vs, k)| < LENGTH_LIMIT
    ensures ReadEntry(fs[k], MemberOf(fs[k], vs[k]), prior, AfterTag(fs[k], vs[k]) + FieldsBytes(fs, vs, k + 1))
         == Done(vs[k], |AfterTag(fs[k], vs[k])|)
    decreases fs, 2, 0, 0
  {
    FieldsBeginWithTag(fs, vs, k);
    NextTagDiffers(fs, vs, k, k + 1);
    EntryRoundTrip(fs[k], vs[k], MemberOf(fs[k], vs[k]), prior, FieldsBytes(fs, vs, k + 1));
  }

  lemma StepOfEntry(fs: seq<Field>, slots: seq<Value>, seen: set<nat>, e: (nat, nat), s: seq<byte>)
    requires Readable(fs) && |slots| == |fs| && IsEntry(fs, e)
    requires Dispatch(fs, TagOf(EntryField(fs, e))) == Entry(e.0, e.1)
    requires ReadEntry(fs[e.0], e.1, slots[e.0], s).Done?
    ensures var r := ReadEntry(fs[e.0], e.1, slots[e.0], s);
            FieldStep(fs, slots, seen, TagOf(EntryField(fs, e)), s) == Next(slots[e.0 := r.value], seen + {e.0}, r.used)
  {
  }

  // The member a written oneof writes; 0 for every other field.
  function MemberOf(f: Field, v: Value): nat {
    if f.Oneof? && v.Member? then v.index else 0
  }

  // What a written field puts after its first tag.
  ghost function AfterTag(f: Field, v: Value): seq<byte>
    requires WellFormed(f) && Conforms(f, v) && Written(f, v)
    decreases f, 2, 1
  {
    match f
    case Repeated(elem, _) =>
      if IsPacked(elem) then Prefixed(PackedBytes(elem, v.elems, 0))
      else Payload(elem, v.elems[0]) + RunBytes(elem, v.elems, 1)
    case Oneof(members) => Payload(members[v.index], v.value)
    case _ => Payload(f, ConstVal(f, v))
  }

  lemma FieldIsRecord(f: Field, v: Value)
    requires WellFormed(f) && Conforms(f, v) && Written(f, v)
    ensures FieldBytes(f, v) == Encode(TagOf(if f.Oneof? then f.members[v.index] else f)) + AfterTag(f, v)
    ensures AfterTag(f, v) != []
  {
    if f.Repeated? && !IsPacked(f.elem) {
      assert WireType(f.elem) == LEN_DLM;
      assert TagOf(f.elem) == TagOf(f);
    }
  }

  lemma IdsBelowLimit(fs: seq<Field>)
    requires forall i | 0 <= i < |fs| :: WellFormed(fs[i])
    ensures forall d: (nat, nat) | IsEntry(fs, d) && !EntryField(fs, d).Oneof? :: FieldId(EntryField(fs, d)) < ID_LIMIT
  {
    forall d: (nat, nat) | IsEntry(fs, d) && !EntryField(fs, d).Oneof? ensures FieldId(EntryField(fs, d)) < ID_LIMIT {
      assert WellFormed(fs[d.0]);
    }
  }

  lemma TagsDiffer(fs: seq<Field>, d: (nat, nat), e: (nat, nat))
    requires DistinctIds(fs) && IsEntry(fs, d) && IsEntry(fs, e) && d != e
    requires forall i | 0 <= i < |fs| :: WellFormed(fs[i])
    ensures TagOf(EntryField(fs, d)) != TagOf(EntryField(fs, e))
  {
    IdsBelowLimit(fs);
  }

  // The fields after the k-th one never begin with the k-th one's tag.
  lemma {:induction false} NextTagDiffers(fs: seq<Field>, vs: seq<Value>, k: nat, j: nat)
    requires AllConform(fs, vs) && DistinctIds(fs) && k < j <= |fs|
    requires Written(fs[k], vs[k])
    ensures ExamTag(TagOf(EntryField(fs, (k, MemberOf(fs[k], vs[k])))), FieldsBytes(fs, vs, j)).Err?
    decreases |fs| - j
  {
    var own := (k, MemberOf(fs[k], vs[k]));
    if j < |fs| {
      WrittenMeansBytes(fs[j], vs[j]);
      if !Written(fs[j], vs[j]) {
        assert FieldsBytes(fs, vs, j) == FieldsBytes(fs, vs, j + 1);
        NextTagDiffers(fs, vs, k, j + 1);
      } else {
        var other := (j, MemberOf(fs[j], vs[j]));
        TagsDiffer(fs, own, other);
        FieldsBeginWithTag(fs, vs, j);
        var tail := AfterTag(fs[j], vs[j]) + FieldsBytes(fs, vs, j + 1);
        ExamTagOfRecord(TagOf(EntryField(fs, own)), TagOf(EntryField(fs, other)), tail);
      }
    }
  }

  lemma FieldsBeginWithTag(fs: seq<Field>, vs: seq<Value>, j: nat)
    requires AllConform(fs, vs) && DistinctIds(fs) && j < |fs| && Written(fs[j], vs[j])
    ensures FieldsBytes(fs, vs, j)
         == Encode(TagOf(EntryField(fs, (j, MemberOf(fs[j], vs[j]))))) + (AfterTag(fs[j], vs[j]) + FieldsBytes(fs,
               vs, j + 1))
    ensures AfterTag(fs[j], vs[j]) != []
  {
    FieldIsRecord(fs[j], vs[j]);
    Assoc(Encode(TagOf(EntryField(fs, (j, MemberOf(fs[j], vs[j]))))), AfterTag(fs[j], vs[j]), FieldsBytes(fs, vs,
          j + 1));
  }

  lemma {:induction false} EntryRoundTrip(f: Field, v: Value, m: nat, prior: Value, rest: seq<byte>)
    requires WellFormed(f) && Conforms(f, v) && Written(f, v) && m == MemberOf(f, v)
    requires |AfterTag(f, v)| < LENGTH_LIMIT
    requires ExamTag(TagOf(if f.Oneof? then f.members[m] else f), rest).Err?
    ensures ReadEntry(f, m, prior, AfterTag(f, v) + rest) == Done(v, |AfterTag(f, v)|)
    decreases f, 1, 0
  {
    match f
    case Repeated(elem, target) =>
      if IsPacked(elem) {
        PackedRoundTrip(elem, target, v.elems, rest);
      } else {
        UnpackedRoundTrip(f, v, prior, rest);
      }
    case Oneof(members) =>
      ContentRoundTrip(members[m], v.value, if prior.Member? && prior.index == m then prior.value else Blank, rest);
    case _ =>
      ContentRoundTrip(f, ConstVal(f, v), MutableVal(f, prior), rest);
  }

  lemma {:induction false} UnpackedRoundTrip(f: Field, v: Value, prior: Value, rest: seq<byte>)
    requires f.Repeated? && !IsPacked(f.elem) && WellFormed(f) && Conforms(f, v) && Written(f, v)
    requires |AfterTag(f, v)| < LENGTH_LIMIT
    requires ExamTag(TagOf(f), rest).Err?
    ensures ReadEntry(f, 0, prior, AfterTag(f, v) + rest) == Done(v, |AfterTag(f, v)|)
    decreases f, 0, 0
  {
    assert TagOf(f.elem) == TagOf(f);
    if f.target.FixedCount? {
      RangeRoundTrip(f.elem, ElemsOf(f.target.count, prior), v.elems, 0, rest);
    } else {
      WholeRunRoundTrip(f.elem, f.target.Associative?, v.elems, rest);
    }
  }

  lemma {:induction false} WholeRunRoundTrip(elem: Field, associative: bool, es: seq<Value>, rest: seq<byte>)
    requires AllFit(elem, es) && es != [] && (associative ==> DistinctKeys(es)) && ExamTag(TagOf(elem), rest).Err?
    requires |Payload(elem, es[0]) + RunBytes(elem, es, 1)| < LENGTH_LIMIT
    ensures var s := Payload(elem, es[0]) + RunBytes(elem, es, 1);
            ReadRun(elem, associative, [], s + rest) == Done(Many(es), |s|)
    decreases elem, 1, |es| + 2
  {
    RunRoundTrip(elem, associative, [], es, 0, rest);
    AllCollected(associative, es, 0);
    Assoc(Payload(elem, es[0]), RunBytes(elem, es, 1), rest);
    assert es[..0] == [];
  }

  lemma {:induction false} PackedRoundTrip(elem: Field, target: Target, es: seq<Value>, rest: seq<byte>)
    requires AllFit(elem, es) && IsPacked(elem)
    requires target.FixedCount? ==> |es| == target.count
    requires |Prefixed(PackedBytes(elem, es, 0))| < LENGTH_LIMIT
    ensures ReadPacked(elem, target, Prefixed(PackedBytes(elem, es, 0)) + rest)
         == Done(Many(es), |Prefixed(PackedBytes(elem, es, 0))|)
    decreases elem, 2, 0
  {
    var body := PackedBytes(elem, es, 0);
    ReadSliceRoundTrip(body, rest, RepeatedIncomplete);
    PackedBodyRoundTrip(elem, target, es);
  }

  lemma {:induction false} PackedBodyRoundTrip(elem: Field, target: Target, es: seq<Value>)
    requires AllFit(elem, es) && IsPacked(elem) && |PackedBytes(elem, es, 0)| < LENGTH_LIMIT
    requires target.FixedCount? ==> |es| == target.count
    ensures ReadPackedBody(elem, target, PackedBytes(elem, es, 0)) == Success(es)
    decreases elem, 1, |es| + 1
  {
    assert es[..0] == [];
    if IsStaticElem(elem) {
      PackedStaticLength(elem, es, 0);
      DivModUnique(|PackedBytes(elem, es, 0)|, StaticElemSize(elem), |es|, 0);
      ReadCountRoundTrip(elem, es, 0);
    } else if target.FixedCount? {
      ReadCountRoundTrip(elem, es, 0);
    } else {
      ReadAllRoundTrip(elem, es, 0);
    }
  }

  // Elements of known size make a body of known size.
  lemma {:induction false} PackedStaticLength(elem: Field, es: seq<Value>, k: nat)
    requires AllFit(elem, es) && IsStaticElem(elem) && k <= |es|
    ensures |PackedBytes(elem, es, k)| == (|es| - k) * StaticElemSize(elem)
    decreases |es| - k
  {
    if k < |es| {
      PackedStaticLength(elem, es, k + 1);
      assert |Payload(elem, es[k])| == StaticElemSize(elem);
      assert (|es| - k) * StaticElemSize(elem) == StaticElemSize(elem) + (|es| - k - 1) * StaticElemSize(elem);
    }
  }

  lemma {:induction false} ReadAllRoundTrip(elem: Field, es: seq<Value>, k: nat)
    requires AllFit(elem, es) && k <= |es| && |PackedBytes(elem, es, k)| < LENGTH_LIMIT
    ensures ReadAll(elem, es[..k], PackedBytes(elem, es, k)) == Success(es)
    decreases elem, 1, |es| - k
  {
    if k == |es| {
      assert es[..k] == es;
    } else {
      var rest := PackedBytes(elem, es, k + 1);
      PayloadNotEmpty(elem, es[k]);
      ContentRoundTrip(elem, es[k], Blank, rest);
      assert PackedBytes(elem, es, k) == Payload(elem, es[k]) + rest;
      Assoc(Payload(elem, es[k]), rest, []);
      InsertNew(false, es, k);
      ReadAllRoundTrip(elem, es, k + 1);
    }
  }

  lemma {:induction false} ReadCountRoundTrip(elem: Field, es: seq<Value>, k: nat)
    requires AllFit(elem, es) && k <= |es| && |PackedBytes(elem, es, k)| < LENGTH_LIMIT
    ensures ReadCount(elem, |es| - k, es[..k], PackedBytes(elem, es, k)) == Success(es)
    decreases elem, 1, |es| - k
  {
    if k == |es| {
      assert es[..k] == es;
    } else {
      var rest := PackedBytes(elem, es, k + 1);
      ContentRoundTrip(elem, es[k], Blank, rest);
      assert PackedBytes(elem, es, k) == Payload(elem, es[k]) + rest;
      Assoc(Payload(elem, es[k]), rest, []);
      InsertNew(false, es, k);
      ReadCountRoundTrip(elem, es, k + 1);
      assert |es| - (k + 1) == |es| - k - 1;
    }
  }

  // Reading one element of a run.
  lemma ReadOneOfRun(elem: Field, associative: bool, acc: seq<Value>, x: Value, p: seq<byte>, tail: seq<byte>)
    requires IsContent(elem) && WellFormed(elem) && p != []
    requires ReadContent(elem, Blank, p + tail) == Ok(x, |p|)
    ensures ReadRun(elem, associative, acc, p + tail)
          == Advance(RunOn(elem, associative, Insert(associative, acc, x), tail), |p|)
  {
    Assoc(p, tail, []);
  }

  lemma RunGoesOn(elem: Field, associative: bool, acc: seq<Value>, next: seq<byte>)
    requires IsContent(elem) && WellFormed(elem) && next != []
    ensures RunOn(elem, associative, acc, Encode(TagOf(elem)) + next)
         == Advance(ReadRun(elem, associative, acc, next), |Encode(TagOf(elem))|)
  {
    ExamTagOfRecord(TagOf(elem), TagOf(elem), next);
    Assoc(Encode(TagOf(elem)), next, []);
  }

  // A run from its k-th element on, whose tag has been read; acc has been read before.
  lemma {:induction false} RunRoundTrip(elem: Field, associative: bool, acc: seq<Value>, es: seq<Value>, k: nat,
                                        rest: seq<byte>)
    requires AllFit(elem, es) && k < |es|
    requires |Payload(elem, es[k])| + |RunBytes(elem, es, k + 1)| < LENGTH_LIMIT
    requires ExamTag(TagOf(elem), rest).Err?
    ensures ReadRun(elem, associative, acc, Payload(elem, es[k]) + (RunBytes(elem, es, k + 1) + rest))
         == Done(Many(Collected(associative, acc, es, k)), |Payload(elem, es[k])| + |RunBytes(elem, es, k + 1)|)
    decreases elem, 1, |es| - k + 1, 0
  {
    var p, tail := Payload(elem, es[k]), RunBytes(elem, es, k + 1) + rest;
    PayloadNotEmpty(elem, es[k]);
    ContentRoundTrip(elem, es[k], Blank, tail);
    ReadOneOfRun(elem, associative, acc, es[k], p, tail);
    RestOfRunRoundTrip(elem, associative, Insert(associative, acc, es[k]), es, k + 1, rest);
  }

  // What a container holds after the elements from the k-th on have been put into it.
  function Collected(associative: bool, acc: seq<Value>, es: seq<Value>, k: nat): seq<Value>
    requires k <= |es|
    decreases |es| - k
  {
    if k == |es| then acc else Collected(associative, Insert(associative, acc, es[k]), es, k + 1)
  }

  // A run from its k-th element on, whose tag has not been read.
  lemma {:induction false} RestOfRunRoundTrip(elem: Field, associative: bool, acc: seq<Value>, es: seq<Value>, k: nat,
                                              rest: seq<byte>)
    requires AllFit(elem, es) && k <= |es|
    requires |RunBytes(elem, es, k)| < LENGTH_LIMIT
    requires ExamTag(TagOf(elem), rest).Err?
    ensures RunOn(elem, associative, acc, RunBytes(elem, es, k) + rest)
         == Done(Many(Collected(associative, acc, es, k)), |RunBytes(elem, es, k)|)
    decreases elem, 1, |es| - k + 1, 1
  {
    if k == |es| {
      assert RunBytes(elem, es, k) + rest == rest;
    } else {
      RunBegins(elem, es, k, rest);
      RunRoundTrip(elem, associative, acc, es, k, rest);
      RunGoesOn(elem, associative, acc, Payload(elem, es[k]) + (RunBytes(elem, es, k + 1) + rest));
    }
  }

  // Elements with keys of their own are all kept, in order.
  lemma {:induction false} AllCollected(associative: bool, es: seq<Value>, k: nat)
    requires k <= |es| && (associative ==> DistinctKeys(es))
    ensures Collected(associative, es[..k], es, k) == es
    decreases |es| - k
  {
    if k == |es| {
      assert es[..k] == es;
    } else {
      InsertNew(associative, es, k);
      AllCollected(associative, es, k + 1);
    }
  }

  lemma RunBegins(elem: Field, es: seq<Value>, k: nat, rest: seq<byte>)
    requires AllFit(elem, es) && k < |es|
    ensures RunBytes(elem, es, k) + rest
         == Encode(TagOf(elem)) + (Payload(elem, es[k]) + (RunBytes(elem, es, k + 1) + rest))
    ensures Payload(elem, es[k]) != []
  {
    var code, p, r := Encode(TagOf(elem)), Payload(elem, es[k]), RunBytes(elem, es, k + 1);
    PayloadNotEmpty(elem, es[k]);
    Assoc(code + p, r, rest);
    Assoc(code, p, r + rest);
  }

  lemma InsertNew(associative: bool, es: seq<Value>, k: nat)
    requires k < |es| && (associative ==> DistinctKeys(es))
    ensures Insert(associative, es[..k], es[k]) == es[..k + 1]
  {
    assert es[..k] + [es[k]] == es[..k + 1];
  }

  // A range from its j-th element on; the first element's tag has been read.
  ghost function RangeBytes(elem: Field, es: seq<Value>, j: nat): seq<byte>
    requires AllFit(elem, es) && j <= |es|
  {
    if j == 0 && |es| > 0 then Payload(elem, es[0]) + RunBytes(elem, es, 1) else RunBytes(elem, es, j)
  }

  // Reading one element of a range, its tag in code.
  lemma ReadOneOfRange(elem: Field, elems: seq<Value>, j: nat, x: Value, code: seq<byte>, p: seq<byte>, tail: seq<byte>)
    requires IsContent(elem) && WellFormed(elem) && j < |elems| && p != []
    requires code == if j == 0 then [] else Encode(TagOf(elem))
    requires ReadContent(elem, elems[j], p + tail) == Ok(x, |p|)
    ensures ReadRange(elem, elems, j, code + (p + tail))
         == Advance(ReadRange(elem, elems[j := x], j + 1, tail), |code| + |p|)
  {
    Assoc(code, p + tail, []);
    assert ReadRange(elem, elems, j, code + (p + tail)) == Advance(ReadRangeElem(elem, elems, j, p + tail), |code|) by {
      if j > 0 {
        ExamTagOfRecord(TagOf(elem), TagOf(elem), p + tail);
      } else {
        assert code + (p + tail) == p + tail;
      }
    }
    Assoc(p, tail, []);
  }

  lemma RangeBegins(elem: Field, es: seq<Value>, j: nat, rest: seq<byte>)
    requires AllFit(elem, es) && j < |es|
    ensures RangeBytes(elem, es, j) + rest
         == (if j == 0 then [] else Encode(TagOf(elem))) + (Payload(elem, es[j]) + (RangeBytes(elem, es, j + 1) + rest))
    ensures |RangeBytes(elem, es, j)|
         == (if j == 0 then 0 else |Encode(TagOf(elem))|) + |Payload(elem, es[j])| + |RangeBytes(elem, es, j + 1)|
  {
    assert RangeBytes(elem, es, j + 1) == RunBytes(elem, es, j + 1);
    var p, r := Payload(elem, es[j]), RunBytes(elem, es, j + 1);
    Assoc(p, r, rest);
    if j > 0 {
      RunBegins(elem, es, j, rest);
    }
  }

  lemma UpdateExtends(elems: seq<Value>, es: seq<Value>, j: nat)
    requires j < |es| == |elems| && elems[..j] == es[..j]
    ensures elems[j := es[j]][..j + 1] == es[..j + 1]
  {
    assert elems[j := es[j]][..j + 1] == elems[..j] + [es[j]];
  }

  lemma {:induction false} RangeStep(elem: Field, elems: seq<Value>, es: seq<Value>, j: nat, rest: seq<byte>)
    requires AllFit(elem, es) && j < |es| == |elems|
    requires |RangeBytes(elem, es, j)| < LENGTH_LIMIT
    ensures |RangeBytes(elem, es, j)| >= |RangeBytes(elem, es, j + 1)|
    ensures ReadRange(elem, elems, j, RangeBytes(elem, es, j) + rest)
         == Advance(ReadRange(elem, elems[j := es[j]], j + 1, RangeBytes(elem, es, j + 1) + rest),
                    |RangeBytes(elem, es, j)| - |RangeBytes(elem, es, j + 1)|)
    decreases elem, 1, |es| - j
  {
    var p, after := Payload(elem, es[j]), RangeBytes(elem, es, j + 1) + rest;
    var code := if j == 0 then [] else Encode(TagOf(elem));
    PayloadNotEmpty(elem, es[j]);
    RangeBegins(elem, es, j, rest);
    ContentRoundTrip(elem, es[j], elems[j], after);
    ReadOneOfRange(elem, elems, j, es[j], code, p, after);
  }

  lemma {:induction false} RangeRoundTrip(elem: Field, elems: seq<Value>, es: seq<Value>, j: nat, rest: seq<byte>)
    requires AllFit(elem, es) && j <= |es| == |elems|
    requires elems[..j] == es[..j]
    requires |RangeBytes(elem, es, j)| < LENGTH_LIMIT
    ensures ReadRange(elem, elems, j, RangeBytes(elem, es, j) + rest) == Done(Many(es), |RangeBytes(elem, es, j)|)
    decreases elem, 1, |es| - j + 1
  {
    if j == |es| {
      assert elems == elems[..j] == es;
    } else {
      RangeStep(elem, elems, es, j, rest);
      UpdateExtends(elems, es, j);
      RangeRoundTrip(elem, elems[j := es[j]], es, j + 1, rest);
    }
  }

  // Fields met hold what was written; fields not met are cleared, which restores what was not written.
  lemma {:induction false} ExamRestores(fs: seq<Field>, vs: seq<Value>, slots: seq<Value>, seen: set<nat>, k: nat)
    requires AllConform(fs, vs) && |slots| == |fs| && k <= |fs|
    requires forall i | 0 <= i < |fs| && i in seen :: slots[i] == vs[i]
    requires forall i | 0 <= i < k :: slots[i] == vs[i]
    requires forall i | 0 <= i < |fs| && i !in seen :: !Written(fs[i], vs[i])
    ensures ExamFields(fs, slots, seen, k) == Success(vs)
    decreases |fs| - k
  {
    if k == |fs| {
      assert slots == vs;
    } else if k in seen {
      ExamRestores(fs, vs, slots, seen, k + 1);
    } else {
      UnwrittenIsCleared(fs[k], vs[k]);
      ExamRestores(fs, vs, slots[k := Cleared(fs[k])], seen, k + 1);
    }
  }

  /* ----- whole buffers ----- */

  // Reads a whole buffer into a target holding prior; bytes left over are an error.
  ghost function FullRead(f: Field, form: Form, prior: Value, s: seq<byte>): Result<Value>
    requires WellFormed(f) && FormFits(f, form)
  {
    match form
    case WithTag =>
      (match ExamTag(TagOf(f), s)
       case Err(e) => Failure(e)
       case Ok(_, t) =>
         match ReadEntry(f, 0, prior, s[t..])
         case Done(v, n) => if t + n == |s| then Success(v) else Failure(MoreDataThanRequired)
         case Stuck(_) => Failure(TagMismatch)
         case Failed(e) => Failure(e))
    case LengthPrefixed =>
      (match ReadContent(f, prior, s)
       case Err(e) => Failure(e)
       case Ok(v, n) => if n == |s| then Success(v) else Failure(MoreDataThanRequired))
    case Bare =>
      match ReadFields(f.fields, SlotsOf(|f.fields|, prior), {}, s)
      case Failure(e) => Failure(e)
      case Success(slots) => Success(Record(slots))
  }

  lemma TaggedRoundTrip(f: Field, v: Value, prior: Value)
    requires WellFormed(f) && Conforms(f, v) && FormFits(f, WithTag) && Written(f, v)
    requires |FieldBytes(f, v)| < LENGTH_LIMIT
    ensures FullRead(f, WithTag, prior, FieldBytes(f, v)) == Success(v)
  {
    var tail := AfterTag(f, v);
    FieldIsRecord(f, v);
    ExamTagOfRecord(TagOf(f), TagOf(f), tail);
    EntryRoundTrip(f, v, 0, prior, []);
    assert tail + [] == tail;
    Assoc(Encode(TagOf(f)), tail, []);
  }

  // What write produces, full_read turns back into the value written, whatever the target held before.  Only a
  // tagged field without a value cannot be read back, because nothing is written for it.
  lemma WriteThenRead(f: Field, form: Form, v: Value, prior: Value)
    requires WellFormed(f) && Conforms(f, v) && FormFits(f, form)
    requires |BytesOf(f, form, v)| < LENGTH_LIMIT
    ensures FullRead(f, form, prior, BytesOf(f, form, v))
         == if form == WithTag && !Written(f, v) then Failure(TagMismatch) else Success(v)
  {
    var s := BytesOf(f, form, v);
    match form
    case WithTag =>
      WrittenMeansBytes(f, v);
      if Written(f, v) {
        TaggedRoundTrip(f, v, prior);
      }
    case LengthPrefixed =>
      ContentRoundTrip(f, v, prior, []);
      assert s + [] == s;
    case Bare =>
      FieldsRoundTrip(f.fields, v.slots, 0, SlotsOf(|f.fields|, prior), {});
  }
}
