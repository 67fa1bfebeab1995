/** The decoder's loops.  A pair of cursors is the slice of bytes between them; a read moves the first one. */
module PbReader {
  import opened Wrappers
  import opened PbErrors
  import opened Varint
  import opened PbTags
  import opened PbSchema
  import opened PbEncoding
  import opened PbDecoding
  import opened PbRoundTrip

  method ReadNumber(s: seq<byte>, t: IntType) returns (r: Read<int>)
    requires IsVarintType(t)
    ensures r == ReadAs(t, s)
  {
    assert s[0..|s|] == s;
    r := ReadVarint(s, 0, |s|, t);
  }

  // Skips a field nobody claimed.
  method SkipUnclaimed(wireType: nat, s: seq<byte>) returns (r: Read<()>)
    ensures r == SkipField(wireType, s)
  {
    if wireType == VARINT {
      assert s[0..|s|] == s;
      r := SkipVarint(s, 0, |s|);
    } else if wireType == FIX32 {
      r := SkipBytes(s, 4);
    } else if wireType == FIX64 {
      r := SkipBytes(s, 8);
    } else if wireType == LEN_DLM {
      var len := ReadNumber(s, UINT32);
      if len.Err? {
        return Err(len.error);
      }
      ReadAsInRange(UINT32, s);
      var skip := SkipBytes(s[len.used..], len.value);
      r := if skip.Err? then skip else Ok((), len.used + skip.used);
    } else {
      r := Ok((), 0);
    }
  }

  // A length prefix and the slice it announces.
  method TakeSlice(s: seq<byte>, incomplete: PbError) returns (r: Read<seq<byte>>)
    ensures r == ReadSlice(s, incomplete)
  {
    var len := ReadNumber(s, UINT32);
    if len.Err? {
      return Err(len.error);
    }
    ReadAsInRange(UINT32, s);
    if len.used + len.value > |s| {
      return Err(incomplete);
    }
    r := Ok(s[len.used..len.used + len.value], len.used + len.value);
  }

  method ReadContentInto(f: Field, prior: Value, s: seq<byte>) returns (r: Read<Value>)
    requires IsContent(f) && WellFormed(f)
    ensures r == ReadContent(f, prior, s)
    decreases f, 0
  {
    match f
    case Scalar(_, ty, _) =>
      var v := ReadNumber(s, ty);
      r := if v.Err? then Err(v.error) else Ok(Num(v.value), v.used);
    case Fixed(_, ty, _) =>
      if FixedBytes(ty) > |s| {
        return Err(FixedIncomplete);
      }
      r := Ok(Num(LoadFixed(ty, s[..FixedBytes(ty)])), FixedBytes(ty));
    case Bytes(_, buffer, _) =>
      var len := ReadNumber(s, UINT32);
      if len.Err? {
        return Err(len.error);
      }
      ReadAsInRange(UINT32, s);
      if !BufferTakes(buffer, len.value) {
        return Err(InvalidLength);
      }
      if len.used + len.value > |s| {
        return Err(OutOfBounds);
      }
      r := Ok(Data(s[len.used..len.used + len.value]), len.used + len.value);
    case Message(_, fields, _) =>
      var body := TakeSlice(s, MsgIncomplete);
      if body.Err? {
        return Err(body.error);
      }
      var slots := ReadFieldsInto(fields, SlotsOf(|fields|, prior), body.value);
      r := if slots.Failure? then Err(slots.error) else Ok(Record(slots.value), body.used);
  }

  // The message loop: every pass consumes at least a tag, and the loop ends exactly at the end of the slice.
  method ReadFieldsInto(fs: seq<Field>, prior: seq<Value>, s: seq<byte>) returns (r: Result<seq<Value>>)
    requires Readable(fs) && |prior| == |fs|
    ensures r == ReadFields(fs, prior, {}, s)
    decreases fs, 1
  {
    var rest, slots, seen := s, prior, {};
    while rest != []
      invariant |slots| == |fs|
      invariant ReadFields(fs, prior, {}, s) == ReadFields(fs, slots, seen, rest)
      decreases |rest|
    {
      var tag := ReadNumber(rest, UINT32);
      if tag.Err? {
        return Failure(tag.error);
      }
      ReadAsInRange(UINT32, rest);
      var step := ReadClaimed(fs, slots, seen, tag.value, rest[tag.used..]);
      if step.Halt? {
        return Failure(step.error);
      }
      rest, slots, seen := rest[tag.used..][step.used..], step.slots, step.seen;
    }
    r := Exam(fs, slots, seen);
  }

  // One pass after the tag: the declared field's entry is read, anything else is skipped.
  method ReadClaimed(fs: seq<Field>, slots: seq<Value>, seen: set<nat>, tag: Tag, s: seq<byte>) returns (r: Step)
    requires Readable(fs) && |slots| == |fs|
    ensures r == FieldStep(fs, slots, seen, tag, s)
    decreases fs, 0
  {
    var d := Dispatch(fs, tag);
    var current := slots;
    if d.Entry? {
      var v := ReadEntryInto(fs[d.slot], d.member, slots[d.slot], s);
      if v.Done? {
        return Next(slots[d.slot := v.value], seen + {d.slot}, v.used);
      }
      if v.Failed? {
        return Halt(v.error);
      }
      current := slots[d.slot := v.value];
    }
    var skip := SkipUnclaimed(tag % 8, s);
    r := if skip.Err? then Halt(skip.error) else Next(current, seen, skip.used);
  }

  method Exam(fs: seq<Field>, slots: seq<Value>, seen: set<nat>) returns (r: Result<seq<Value>>)
    requires |slots| == |fs|
    ensures r == ExamFields(fs, slots, seen, 0)
  {
    var v := slots;
    for k := 0 to |fs|
      invariant |v| == |fs| && ExamFields(fs, slots, seen, 0) == ExamFields(fs, v, seen, k)
    {
      if k !in seen {
        if !IsOptional(fs[k]) {
          return Failure(RequiredFieldMissing);
        }
        v := v[k := Cleared(fs[k])];
      }
    }
    r := Success(v);
  }

  method ReadEntryInto(f: Field, m: nat, prior: Value, s: seq<byte>) returns (r: EntryRead)
    requires WellFormed(f) && (f.Oneof? ==> m < |f.members|)
    ensures r == ReadEntry(f, m, prior, s)
    decreases f, 1
  {
    match f
    case Repeated(elem, target) =>
      if IsPacked(elem) {
        r := ReadPackedInto(elem, target, s);
      } else if target.FixedCount? {
        r := ReadRangeInto(elem, ElemsOf(target.count, prior), s);
      } else {
        r := ReadRunInto(elem, target.Associative?, s);
      }
    case Oneof(members) =>
      var v := ReadContentInto(members[m], if prior.Member? && prior.index == m then prior.value else Blank, s);
      r := if v.Err? then Failed(v.error) else Done(Member(m, v.value), v.used);
    case _ =>
      var v := ReadContentInto(f, MutableVal(f, prior), s);
      r := if v.Err? then Failed(v.error) else Done(Wrap(f, v.value), v.used);
  }

  method ReadPackedInto(elem: Field, target: Target, s: seq<byte>) returns (r: EntryRead)
    requires IsContent(elem) && WellFormed(elem)
    ensures r == ReadPacked(elem, target, s)
    decreases elem, 2
  {
    var body := TakeSlice(s, RepeatedIncomplete);
    if body.Err? {
      return Failed(body.error);
    }
    var count := CountIn(elem, |body.value|);
    if IsStaticElem(elem) && !IsWhole(elem, |body.value|) {
      return Failed(InvalidLength);
    }
    if IsStaticElem(elem) && target.FixedCount? && count != target.count {
      return Failed(InvalidLength);
    }
    var es;
    if IsStaticElem(elem) {
      es := ReadCounted(elem, count, body.value);
    } else if target.FixedCount? {
      es := ReadCounted(elem, target.count, body.value);
    } else {
      es := ReadToEnd(elem, body.value);
    }
    r := if es.Failure? then Failed(es.error) else Done(Many(es.value), body.used);
  }

  method ReadCounted(elem: Field, count: nat, s: seq<byte>) returns (r: Result<seq<Value>>)
    requires IsContent(elem) && WellFormed(elem)
    ensures r == ReadCount(elem, count, [], s)
    decreases elem, 1
  {
    var rest, acc := s, [];
    for i := 0 to count
      invariant ReadCount(elem, count, [], s) == ReadCount(elem, count - i, acc, rest)
    {
      var v := ReadContentInto(elem, Blank, rest);
      if v.Err? {
        return Failure(v.error);
      }
      rest, acc := rest[v.used..], acc + [v.value];
    }
    r := if rest == [] then Success(acc) else Failure(InvalidLength);
  }

  method ReadToEnd(elem: Field, s: seq<byte>) returns (r: Result<seq<Value>>)
    requires IsContent(elem) && WellFormed(elem)
    ensures r == ReadAll(elem, [], s)
    decreases elem, 1
  {
    var rest, acc := s, [];
    while rest != []
      invariant ReadAll(elem, [], s) == ReadAll(elem, acc, rest)
      decreases |rest|
    {
      var v := ReadContentInto(elem, Blank, rest);
      if v.Err? {
        return Failure(v.error);
      }
      rest, acc := rest[v.used..], acc + [v.value];
    }
    r := Success(acc);
  }

  method ReadRunInto(elem: Field, associative: bool, s: seq<byte>) returns (r: EntryRead)
    requires IsContent(elem) && WellFormed(elem)
    ensures r == ReadRun(elem, associative, [], s)
    decreases elem, 2
  {
    var rest, acc, used: nat := s, [], 0;
    while rest != []
      invariant ReadRun(elem, associative, [], s) == Advance(ReadRun(elem, associative, acc, rest), used)
      decreases |rest|
    {
      var halt, more, after, n := ReadOneInto(elem, associative, acc, rest);
      if halt.Some? {
        return Advance(halt.value, used);
      }
      rest, acc, used := after, more, used + n;
    }
    r := Done(Many(acc), used);
  }

  // An element of a run and the tag of the next one; or the end of the run.
  method ReadOneInto(elem: Field, associative: bool, acc: seq<Value>, s: seq<byte>)
    returns (halt: Option<EntryRead>, more: seq<Value>, rest: seq<byte>, used: nat)
    requires IsContent(elem) && WellFormed(elem) && s != []
    ensures halt.Some? ==> ReadRun(elem, associative, acc, s) == halt.value
    ensures halt.None? ==>
              && |rest| < |s|
              && ReadRun(elem, associative, acc, s) == Advance(ReadRun(elem, associative, more, rest), used)
    decreases elem, 1
  {
    var v := ReadContentInto(elem, Blank, s);
    if v.Err? {
      return Some(Failed(v.error)), acc, s, 0;
    }
    more, rest, used := Insert(associative, acc, v.value), s[v.used..], v.used;
    assert ReadRun(elem, associative, acc, s) == Advance(RunOn(elem, associative, more, rest), used);
    halt, rest, used := ReadNextTag(elem, associative, more, rest, used);
  }

  // Whether a run goes on: the tag that would follow.
  method ReadNextTag(elem: Field, associative: bool, acc: seq<Value>, s: seq<byte>, before: nat)
    returns (halt: Option<EntryRead>, rest: seq<byte>, used: nat)
    requires IsContent(elem) && WellFormed(elem)
    ensures halt.Some? ==> Advance(RunOn(elem, associative, acc, s), before) == halt.value
    ensures halt.None? ==>
              && |rest| < |s|
              && Advance(RunOn(elem, associative, acc, s), before)
                 == Advance(ReadRun(elem, associative, acc, rest), used)
  {
    rest, used := s, before;
    var tag := ExamTag(TagOf(elem), rest);
    if tag.Err? {
      return Some(Done(Many(acc), used)), rest, used;
    }
    return None, rest[tag.used..], used + tag.used;
  }

  method ReadRangeInto(elem: Field, prior: seq<Value>, s: seq<byte>) returns (r: EntryRead)
    requires IsContent(elem) && WellFormed(elem)
    ensures r == ReadRange(elem, prior, 0, s)
    decreases elem, 3
  {
    var rest, elems, used: nat := s, prior, 0;
    for j := 0 to |prior|
      invariant |elems| == |prior|
      invariant ReadRange(elem, prior, 0, s) == Advance(ReadRange(elem, elems, j, rest), used)
    {
      var halt, more, after, n := ReadElementInto(elem, elems, j, rest);
      if halt.Some? {
        return halt.value;
      }
      rest, elems, used := after, more, used + n;
    }
    r := Done(Many(elems), used);
  }

  // The j-th element, behind its tag unless it is the first; or what stops the reading of the range.
  method ReadElementInto(elem: Field, elems: seq<Value>, j: nat, s: seq<byte>)
    returns (halt: Option<EntryRead>, more: seq<Value>, rest: seq<byte>, used: nat)
    requires IsContent(elem) && WellFormed(elem) && j < |elems|
    ensures halt.Some? ==> !halt.value.Done? && ReadRange(elem, elems, j, s) == halt.value
    ensures halt.None? ==>
              && |more| == |elems|
              && ReadRange(elem, elems, j, s) == Advance(ReadRange(elem, more, j + 1, rest), used)
    decreases elem, 2
  {
    var start, t := s, 0;
    if j > 0 {
      var tag := ExamTag(TagOf(elem), s);
      if tag.Err? {
        return Some(Stuck(Many(elems))), elems, s, 0;
      }
      start, t := s[tag.used..], tag.used;
    }
    assert ReadRange(elem, elems, j, s) == Advance(ReadRangeElem(elem, elems, j, start), t);
    halt, more, rest, used := ReadUntaggedInto(elem, elems, j, start);
    used := t + used;
  }

  method ReadUntaggedInto(elem: Field, elems: seq<Value>, j: nat, s: seq<byte>)
    returns (halt: Option<EntryRead>, more: seq<Value>, rest: seq<byte>, used: nat)
    requires IsContent(elem) && WellFormed(elem) && j < |elems|
    ensures halt.Some? ==> !halt.value.Done? && ReadRangeElem(elem, elems, j, s) == halt.value
    ensures halt.None? ==>
              && |more| == |elems|
              && ReadRangeElem(elem, elems, j, s) == Advance(ReadRange(elem, more, j + 1, rest), used)
    decreases elem, 1
  {
    var v := ReadContentInto(elem, elems[j], s);
    if v.Err? {
      return Some(Failed(v.error)), elems, s, 0;
    }
    return None, elems[j := v.value], s[v.used..], v.used;
  }

  method ReadTagged(f: Field, prior: Value, s: seq<byte>) returns (r: Result<Value>)
    requires WellFormed(f) && FormFits(f, WithTag)
    ensures r == FullRead(f, WithTag, prior, s)
  {
    var tag := ExamTag(TagOf(f), s);
    if tag.Err? {
      return Failure(tag.error);
    }
    var v := ReadEntryInto(f, 0, prior, s[tag.used..]);
    match v {
      case Done(x, n) => r := if tag.used + n == |s| then Success(x) else Failure(MoreDataThanRequired);
      case Stuck(_) => r := Failure(TagMismatch);
      case Failed(e) => r := Failure(e);
    }
  }

  method ReadWhole(f: Field, form: Form, prior: Value, s: seq<byte>) returns (r: Result<Value>)
    requires WellFormed(f) && FormFits(f, form)
    ensures r == FullRead(f, form, prior, s)
  {
    match form
    case WithTag =>
      r := ReadTagged(f, prior, s);
    case LengthPrefixed =>
      var v := ReadContentInto(f, prior, s);
      r := if v.Err? then Failure(v.error) else if v.used == |s| then Success(v.value)
            else Failure(MoreDataThanRequired);
    case Bare =>
      var v := ReadFieldsInto(f.fields, SlotsOf(|f.fields|, prior), s);
      r := if v.Failure? then Failure(v.error) else Success(Record(v.value));
  }
}
