/** Input that ends too early, goes on too long, or falls apart: which error comes of it. */
module PbTruncated {
  import opened PbErrors
  import opened Varint
  import opened PbTags
  import opened PbSchema
  import opened PbEncoding
  import opened PbDecoding
  import opened PbRoundTrip
  import opened PbRecords
  import opened PbUnknown

  lemma {:induction false} EncodeContinues(u: nat)
    ensures forall i | 0 <= i < |Encode(u)| - 1 :: Encode(u)[i] >= 0x80
    ensures Encode(u)[|Encode(u)| - 1] < 0x80
  {
    if u >= 0x80 {
      EncodeContinues(u / 0x80);
    }
  }

  // A varint cut short is recognised as such.
  lemma CutVarint(t: IntType, v: int, n: nat)
    requires IsVarintType(t) && InRange(t, v) && n < |EncodeAs(t, v)|
    ensures ReadAs(t, EncodeAs(t, v)[..n]) == Err(VarintIncomplete)
  {
    var code := EncodeAs(t, v);
    EncodeContinues(ToWire(t, v));
    RoundTrip(t, v, []);
    assert code + [] == code;
    assert |code| <= MaxWireSize(t);
    ParseExactly(code[..n], MaxWireSize(t), MaxLastByte(t), 0);
  }

  // Which error a cut payload gives.
  ghost function CutError(f: Field, x: Value, n: nat): PbError
    requires IsContent(f) && WellFormed(f) && Fits(f, x) && n < |Payload(f, x)|
  {
    match f
    case Scalar(_, _, _) => VarintIncomplete
    case Fixed(_, _, _) => FixedIncomplete
    case Bytes(_, _, _) => if n < |Encode(|x.bytes|)| then VarintIncomplete else OutOfBounds
    case Message(_, fields, _) =>
      if n < |Encode(|FieldsBytes(fields, x.slots, 0)|)| then VarintIncomplete else MsgIncomplete
  }

  // A payload cut short anywhere is refused, whatever the target held.
  lemma CutPayload(f: Field, x: Value, prior: Value, n: nat)
    requires IsContent(f) && WellFormed(f) && Fits(f, x) && n < |Payload(f, x)| < LENGTH_LIMIT
    ensures ReadContent(f, prior, Payload(f, x)[..n]) == Err(CutError(f, x, n))
  {
    match f
    case Scalar(_, ty, _) => CutVarint(ty, x.n, n);
    case Fixed(_, _, _) =>
    case Bytes(_, _, _) => CutPrefixed(x.bytes, n);
    case Message(_, fields, _) => CutPrefixed(FieldsBytes(fields, x.slots, 0), n);
  }

  lemma CutPrefixed(body: seq<byte>, n: nat)
    requires n < |Prefixed(body)| < LENGTH_LIMIT
    ensures var s := Prefixed(body)[..n];
            if n < |Encode(|body|)| then ReadAs(UINT32, s) == Err(VarintIncomplete)
            else ReadAs(UINT32, s) == Ok(|body|, |Encode(|body|)|) && |Encode(|body|)| + |body| > |s|
  {
    var code := Encode(|body|);
    if n < |code| {
      TagRoundTrip(|body|, []);
      EncodedLength(|body|);
      CutVarint(UINT32, |body|, n);
      assert Prefixed(body)[..n] == code[..n];
    } else {
      TagRoundTrip(|body|, body[..n - |code|]);
      assert Prefixed(body)[..n] == code + body[..n - |code|];
    }
  }

  lemma EncodedLength(u: nat)
    requires u < LENGTH_LIMIT
    ensures EncodeAs(UINT32, u) == Encode(u)
  {
  }

  // A buffer with a length prefix is read exactly if nothing is missing from it and nothing follows it.
  lemma WholeOrNothing(f: Field, v: Value, prior: Value, n: nat, extra: seq<byte>)
    requires WellFormed(f) && Conforms(f, v) && FormFits(f, LengthPrefixed)
    requires n <= |BytesOf(f, LengthPrefixed, v)| < LENGTH_LIMIT
    ensures var s := BytesOf(f, LengthPrefixed, v);
            && (n < |s| ==> FullRead(f, LengthPrefixed, prior, s[..n]).Failure?)
            && (extra != [] ==> FullRead(f, LengthPrefixed, prior, s + extra) == Failure(MoreDataThanRequired))
            && FullRead(f, LengthPrefixed, prior, s) == Success(v)
  {
    var s := BytesOf(f, LengthPrefixed, v);
    if n < |s| {
      CutPayload(f, v, prior, n);
    }
    ContentRoundTrip(f, v, prior, extra);
    WriteThenRead(f, LengthPrefixed, v, prior);
  }

  // A tagged field is read exactly if nothing follows it, except what begins with its own tag again.
  lemma NothingMayFollow(f: Field, v: Value, prior: Value, extra: seq<byte>)
    requires WellFormed(f) && Conforms(f, v) && FormFits(f, WithTag) && Written(f, v)
    requires |FieldBytes(f, v)| < LENGTH_LIMIT && extra != [] && ExamTag(TagOf(f), extra).Err?
    ensures FullRead(f, WithTag, prior, FieldBytes(f, v) + extra) == Failure(MoreDataThanRequired)
  {
    var tail := AfterTag(f, v);
    FieldIsRecord(f, v);
    ExamTagOfRecord(TagOf(f), TagOf(f), tail + extra);
    EntryRoundTrip(f, v, 0, prior, extra);
    Assoc(Encode(TagOf(f)), tail, extra);
    Assoc(Encode(TagOf(f)), tail + extra, []);
  }

  // Bytes are accepted exactly in a length the buffer can hold.
  lemma BytesExactly(f: Field, body: seq<byte>, prior: Value, rest: seq<byte>)
    requires f.Bytes? && WellFormed(f) && |body| < LENGTH_LIMIT
    ensures ReadContent(f, prior, Prefixed(body) + rest)
         == if Fits(f, Data(body)) then Ok(Data(body), |Prefixed(body)|) else Err(InvalidLength)
  {
    var n := |Encode(|body|)|;
    Assoc(Encode(|body|), body, rest);
    TagRoundTrip(|body|, body + rest);
    assert (Prefixed(body) + rest)[n..n + |body|] == body;
  }

  /* ----- inside a message ----- */

  // At any point of the message loop, bytes that are no tag are an error ...
  lemma BadTagFails(fs: seq<Field>, slots: seq<Value>, seen: set<nat>, s: seq<byte>)
    requires Readable(fs) && |slots| == |fs| && s != [] && ReadAs(UINT32, s).Err?
    ensures ReadFields(fs, slots, seen, s) == Failure(ReadAs(UINT32, s).error)
  {
  }

  // ... and so is a field, or member of a oneof, that cannot be read.
  lemma BadEntryFails(fs: seq<Field>, slots: seq<Value>, seen: set<nat>, i: nat, m: nat, code: seq<byte>,
                      rest: seq<byte>, e: PbError)
    requires Readable(fs) && DistinctIds(fs) && |slots| == |fs| && IsEntry(fs, (i, m))
    requires ReadAs(UINT32, code) == Ok(TagOf(EntryField(fs, (i, m))), |code|)
    requires ReadEntry(fs[i], m, slots[i], rest) == Failed(e)
    ensures ReadFields(fs, slots, seen, code + rest) == Failure(e)
  {
    IdsBelowLimit(fs);
    DispatchFinds(fs, (i, m));
    ReadOneCoded(fs, slots, seen, TagOf(EntryField(fs, (i, m))), code, rest);
  }

  // A message that ends within a field is refused, with the error of the part in which it ends.
  lemma CutRecord(fs: seq<Field>, slots: seq<Value>, seen: set<nat>, i: nat, x: Value, n: nat)
    requires Readable(fs) && DistinctIds(fs) && |slots| == |fs| && i < |fs| && IsContent(fs[i]) && Fits(fs[i], x)
    requires 0 < n < |Tagged(fs[i], Payload(fs[i], x))| < LENGTH_LIMIT
    ensures var t := |Encode(TagOf(fs[i]))|;
            ReadFields(fs, slots, seen, Tagged(fs[i], Payload(fs[i], x))[..n])
            == Failure(if n < t then VarintIncomplete else CutError(fs[i], x, n - t))
  {
    var code, p := Encode(TagOf(fs[i])), Payload(fs[i], x);
    var s := Tagged(fs[i], p)[..n];
    EncodedLength(TagOf(fs[i]));
    if n < |code| {
      assert s == code[..n];
      CutVarint(UINT32, TagOf(fs[i]), n);
      BadTagFails(fs, slots, seen, s);
    } else {
      assert s == code + p[..n - |code|];
      TagRoundTrip(TagOf(fs[i]), []);
      assert code + [] == code;
      CutPayload(fs[i], x, MutableVal(fs[i], slots[i]), n - |code|);
      BadEntryFails(fs, slots, seen, i, 0, code, p[..n - |code|], CutError(fs[i], x, n - |code|));
    }
  }

  // The same for a field nobody claims.
  lemma CutUnknown(fs: seq<Field>, slots: seq<Value>, seen: set<nat>, tag: Tag, code: seq<byte>, p: seq<byte>, n: nat)
    requires Readable(fs) && |slots| == |fs| && Complete(fs, Unknown(tag, code, p)) && n < |p|
    ensures SkipField(tag % 8, p[..n]).Err?
    ensures ReadFields(fs, slots, seen, code + p[..n]) == Failure(SkipField(tag % 8, p[..n]).error)
  {
    CutSkip(tag % 8, p, n);
    ReadOneCoded(fs, slots, seen, tag, code, p[..n]);
  }

  lemma CutSkip(wireType: nat, p: seq<byte>, n: nat)
    requires wireType in {0, 1, 2, 5} && SkipField(wireType, p) == Ok((), |p|) && n < |p|
    ensures SkipField(wireType, p[..n]).Err?
  {
    var r := SkipField(wireType, p[..n]);
    if r.Ok? {
      SkipsExactly(wireType, p[..n]);
      assert p[..n][..r.used] == p[..r.used];
      SkipsExactly(wireType, p);
    }
  }

  /* ----- inside a field of several elements or members ----- */

  // The member of a oneof, a packed body and the first element of a range must be there as a whole.
  lemma CutMember(f: Field, m: nat, x: Value, prior: Value, n: nat)
    requires f.Oneof? && WellFormed(f) && m < |f.members| && Fits(f.members[m], x)
    requires n < |Payload(f.members[m], x)| < LENGTH_LIMIT
    ensures ReadEntry(f, m, prior, Payload(f.members[m], x)[..n]) == Failed(CutError(f.members[m], x, n))
  {
    CutPayload(f.members[m], x, if prior.Member? && prior.index == m then prior.value else Blank, n);
  }

  lemma CutPacked(f: Field, es: seq<Value>, prior: Value, n: nat)
    requires f.Repeated? && WellFormed(f) && IsPacked(f.elem) && AllFit(f.elem, es)
    requires n < |Prefixed(PackedBytes(f.elem, es, 0))| < LENGTH_LIMIT
    ensures var body := PackedBytes(f.elem, es, 0);
            ReadEntry(f, 0, prior, Prefixed(body)[..n])
            == Failed(if n < |Encode(|body|)| then VarintIncomplete else RepeatedIncomplete)
  {
    CutPrefixed(PackedBytes(f.elem, es, 0), n);
  }

  // A run fails if its last element is cut short, however many precede it.
  lemma {:induction false} CutRun(elem: Field, associative: bool, acc: seq<Value>, es: seq<Value>, k: nat, x: Value,
                                  n: nat)
    requires AllFit(elem, es) && k <= |es| && Fits(elem, x) && 0 < n < |Payload(elem, x)| < LENGTH_LIMIT
    requires |RunBytes(elem, es, k)| < LENGTH_LIMIT
    ensures RunOn(elem, associative, acc, RunBytes(elem, es, k) + (Encode(TagOf(elem)) + Payload(elem, x)[..n]))
         == Failed(CutError(elem, x, n))
    decreases |es| - k
  {
    var last := Encode(TagOf(elem)) + Payload(elem, x)[..n];
    if k == |es| {
      assert RunBytes(elem, es, k) + last == last;
      CutElement(elem, associative, acc, x, n);
    } else {
      OneOfRunPasses(elem, associative, acc, es, k, last);
      CutRun(elem, associative, Insert(associative, acc, es[k]), es, k + 1, x, n);
    }
  }

  lemma OneOfRunPasses(elem: Field, associative: bool, acc: seq<Value>, es: seq<Value>, k: nat, rest: seq<byte>)
    requires AllFit(elem, es) && k < |es| && |RunBytes(elem, es, k)| < LENGTH_LIMIT
    ensures |RunBytes(elem, es, k + 1)| <= |RunBytes(elem, es, k)|
    ensures RunOn(elem, associative, acc, RunBytes(elem, es, k) + rest)
         == Advance(Advance(RunOn(elem, associative, Insert(associative, acc, es[k]), RunBytes(elem, es, k + 1) + rest),
                            |Payload(elem, es[k])|), |Encode(TagOf(elem))|)
  {
    var p, tail := Payload(elem, es[k]), RunBytes(elem, es, k + 1) + rest;
    RunBegins(elem, es, k, rest);
    ContentRoundTrip(elem, es[k], Blank, tail);
    ReadOneOfRun(elem, associative, acc, es[k], p, tail);
    RunGoesOn(elem, associative, acc, p + tail);
  }

  lemma CutElement(elem: Field, associative: bool, acc: seq<Value>, x: Value, n: nat)
    requires IsContent(elem) && WellFormed(elem) && Fits(elem, x) && 0 < n < |Payload(elem, x)| < LENGTH_LIMIT
    ensures RunOn(elem, associative, acc, Encode(TagOf(elem)) + Payload(elem, x)[..n]) == Failed(CutError(elem, x, n))
  {
    CutPayload(elem, x, Blank, n);
    RunGoesOn(elem, associative, acc, Payload(elem, x)[..n]);
  }

  // The j-th element of a range is read in place, and fails the range if it is cut short.
  lemma CutRange(elem: Field, elems: seq<Value>, j: nat, x: Value, n: nat)
    requires IsContent(elem) && WellFormed(elem) && Fits(elem, x) && j < |elems|
    requires 0 < n < |Payload(elem, x)| < LENGTH_LIMIT
    ensures ReadRange(elem, elems, j, (if j == 0 then [] else Encode(TagOf(elem))) + Payload(elem, x)[..n])
         == Failed(CutError(elem, x, n))
  {
    var p := Payload(elem, x)[..n];
    CutPayload(elem, x, elems[j], n);
    if j == 0 {
      assert [] + p == p;
    } else {
      ExamTagOfRecord(TagOf(elem), TagOf(elem), p);
      Assoc(Encode(TagOf(elem)), p, []);
    }
  }
}
