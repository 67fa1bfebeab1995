/** Decoding depends on the bytes alone: not on what the target held, nor on what follows a record. */
module PbTarget {
  import opened PbErrors
  import opened Varint
  import opened PbTags
  import opened PbSchema
  import opened PbEncoding
  import opened PbDecoding
  import opened PbRoundTrip

  /* ----- the target ----- */

  // For every input whatever, valid or not, content read into two different targets comes out the same.
  lemma {:induction false} ContentIgnoresTarget(f: Field, p: Value, q: Value, s: seq<byte>)
    requires IsContent(f) && WellFormed(f)
    ensures ReadContent(f, p, s) == ReadContent(f, q, s)
    decreases f, 0, 0
  {
    if f.Message? && ReadSlice(s, MsgIncomplete).Ok? {
      var n := |f.fields|;
      FieldsIgnoreTarget(f.fields, SlotsOf(n, p), SlotsOf(n, q), {}, ReadSlice(s, MsgIncomplete).value);
    }
  }

  ghost predicate AgreeOn(seen: set<nat>, a: seq<Value>, b: seq<Value>) {
    |a| == |b| && forall i | i in seen && i < |a| :: a[i] == b[i]
  }

  lemma {:induction false} FieldsIgnoreTarget(fs: seq<Field>, a: seq<Value>, b: seq<Value>, seen: set<nat>,
                                              s: seq<byte>)
    requires Readable(fs) && |a| == |fs| && AgreeOn(seen, a, b)
    ensures ReadFields(fs, a, seen, s) == ReadFields(fs, b, seen, s)
    decreases fs, 4, |s|
  {
    if s == [] {
      ExamIgnoresTarget(fs, a, b, seen, 0);
    } else {
      match ReadAs(UINT32, s)
      case Err(_) =>
      case Ok(tag, n) =>
        ReadAsInRange(UINT32, s);
        StepIgnoresTarget(fs, a, b, seen, tag, s[n..]);
        var x, y := FieldStep(fs, a, seen, tag, s[n..]), FieldStep(fs, b, seen, tag, s[n..]);
        if x.Next? {
          FieldsIgnoreTarget(fs, x.slots, y.slots, x.seen, s[n..][x.used..]);
        }
    }
  }

  lemma {:induction false} StepIgnoresTarget(fs: seq<Field>, a: seq<Value>, b: seq<Value>, seen: set<nat>, tag: Tag,
                                             rest: seq<byte>)
    requires Readable(fs) && |a| == |fs| && AgreeOn(seen, a, b)
    ensures var x, y := FieldStep(fs, a, seen, tag, rest), FieldStep(fs, b, seen, tag, rest);
            if x.Next? then y.Next? && x.seen == y.seen && x.used
                  == y.used && AgreeOn(x.seen, x.slots, y.slots) else x == y
    decreases fs, 3, 0
  {
    match Dispatch(fs, tag)
    case Nobody =>
    case Entry(i, m) => EntryIgnoresTarget(fs[i], m, a[i], b[i], rest);
  }

  lemma {:induction false} EntryIgnoresTarget(f: Field, m: nat, p: Value, q: Value, s: seq<byte>)
    requires WellFormed(f) && (f.Oneof? ==> m < |f.members|)
    ensures SameOutcome(ReadEntry(f, m, p, s), ReadEntry(f, m, q, s))
    decreases f, 2, 0
  {
    match f
    case Repeated(elem, target) =>
      if !IsPacked(elem) && target.FixedCount? {
        RangeIgnoresTarget(elem, ElemsOf(target.count, p), ElemsOf(target.count, q), 0, s);
      }
    case Oneof(members) =>
      ContentIgnoresTarget(members[m], if p.Member? && p.index == m then p.value else Blank,
                           if q.Member? && q.index == m then q.value else Blank, s);
    case _ =>
      ContentIgnoresTarget(f, MutableVal(f, p), MutableVal(f, q), s);
  }

  // Equal, except for the elements a stuck range did not reach.
  predicate SameOutcome(x: EntryRead, y: EntryRead) {
    x == y || (x.Stuck? && y.Stuck?)
  }

  lemma {:induction false} RangeIgnoresTarget(elem: Field, a: seq<Value>, b: seq<Value>, j: nat, s: seq<byte>)
    requires IsContent(elem) && WellFormed(elem) && j <= |a| == |b| && a[..j] == b[..j]
    ensures SameOutcome(ReadRange(elem, a, j, s), ReadRange(elem, b, j, s))
    decreases elem, 1, |a| - j
  {
    if j == |a| {
      assert a == a[..j] == b[..j] == b;
    } else {
      var t := if j == 0 then Ok((), 0) else ExamTag(TagOf(elem), s);
      if t.Ok? {
        assert j == 0 ==> s[t.used..] == s;
        RangeElemIgnoresTarget(elem, a, b, j, s[t.used..]);
      }
    }
  }

  lemma {:induction false} RangeElemIgnoresTarget(elem: Field, a: seq<Value>, b: seq<Value>, j: nat, s: seq<byte>)
    requires IsContent(elem) && WellFormed(elem) && j < |a| == |b| && a[..j] == b[..j]
    ensures SameOutcome(ReadRangeElem(elem, a, j, s), ReadRangeElem(elem, b, j, s))
    decreases elem, 1, |a| - j, 0
  {
    ContentIgnoresTarget(elem, a[j], b[j], s);
    match ReadContent(elem, a[j], s)
    case Err(_) =>
    case Ok(x, n) =>
      assert a[j := x][..j + 1] == a[..j] + [x] == b[j := x][..j + 1];
      RangeIgnoresTarget(elem, a[j := x], b[j := x], j + 1, s[n..]);
  }

  lemma {:induction false} ExamIgnoresTarget(fs: seq<Field>, a: seq<Value>, b: seq<Value>, seen: set<nat>, k: nat)
    requires |a| == |fs| && k <= |fs| && AgreeOn(seen, a, b)
    requires forall i | 0 <= i < k :: a[i] == b[i]
    ensures ExamFields(fs, a, seen, k) == ExamFields(fs, b, seen, k)
    decreases |fs| - k
  {
    if k == |fs| {
      assert a == b;
    } else if k in seen {
      ExamIgnoresTarget(fs, a, b, seen, k + 1);
    } else if IsOptional(fs[k]) {
      ExamIgnoresTarget(fs, a[k := Cleared(fs[k])], b[k := Cleared(fs[k])], seen, k + 1);
    }
  }

  lemma TaggedIgnoresTarget(f: Field, p: Value, q: Value, s: seq<byte>)
    requires WellFormed(f) && FormFits(f, WithTag)
    ensures FullRead(f, WithTag, p, s) == FullRead(f, WithTag, q, s)
  {
    var t := ExamTag(TagOf(f), s);
    if t.Ok? {
      EntryIgnoresTarget(f, 0, p, q, s[t.used..]);
    }
  }

  lemma BareIgnoresTarget(f: Field, p: Value, q: Value, s: seq<byte>)
    requires WellFormed(f) && FormFits(f, Bare)
    ensures FullRead(f, Bare, p, s) == FullRead(f, Bare, q, s)
  {
    FieldsIgnoreTarget(f.fields, SlotsOf(|f.fields|, p), SlotsOf(|f.fields|, q), {}, s);
  }

  // Reading a whole buffer never depends on the target.
  lemma FullReadIgnoresTarget(f: Field, form: Form, p: Value, q: Value, s: seq<byte>)
    requires WellFormed(f) && FormFits(f, form)
    ensures FullRead(f, form, p, s) == FullRead(f, form, q, s)
  {
    match form
    case WithTag =>
      TaggedIgnoresTarget(f, p, q, s);
    case LengthPrefixed =>
      ContentIgnoresTarget(f, p, q, s);
    case Bare =>
      BareIgnoresTarget(f, p, q, s);
  }

  /* ----- what follows ----- */

  // t begins with the first n bytes of s.
  ghost predicate Shares(s: seq<byte>, t: seq<byte>, n: nat) {
    n <= |s| && n <= |t| && s[..n] == t[..n]
  }

  lemma SharesLess(s: seq<byte>, t: seq<byte>, n: nat, k: nat)
    requires Shares(s, t, n) && k <= n
    ensures Shares(s, t, k) && Shares(s[k..], t[k..], n - k)
    ensures s[k..n] == t[k..n]
  {
    assert s[..k] == s[..n][..k] && t[..k] == t[..n][..k];
    assert s[k..][..n - k] == s[..n][k..] && t[k..][..n - k] == t[..n][k..];
    assert s[k..n] == s[..n][k..] && t[k..n] == t[..n][k..];
  }

  lemma SliceStable(s: seq<byte>, t: seq<byte>, incomplete: PbError)
    requires ReadSlice(s, incomplete).Ok? && Shares(s, t, ReadSlice(s, incomplete).used)
    ensures ReadSlice(t, incomplete) == ReadSlice(s, incomplete)
  {
    var n, used := ReadAs(UINT32, s).used, ReadSlice(s, incomplete).used;
    ReadAsInRange(UINT32, s);
    SharesLess(s, t, used, n);
    ReadAsStable(UINT32, s, t);
  }

  // Content that was read successfully is read the same from any input that begins with the same bytes.
  lemma ContentStable(f: Field, p: Value, s: seq<byte>, t: seq<byte>)
    requires IsContent(f) && WellFormed(f)
    requires ReadContent(f, p, s).Ok? && Shares(s, t, ReadContent(f, p, s).used)
    ensures ReadContent(f, p, t) == ReadContent(f, p, s)
  {
    var used := ReadContent(f, p, s).used;
    match f
    case Scalar(_, ty, _) => ReadAsStable(ty, s, t);
    case Fixed(_, _, _) =>
    case Bytes(_, _, _) =>
      var n := ReadAs(UINT32, s).used;
      ReadAsInRange(UINT32, s);
      SharesLess(s, t, used, n);
      ReadAsStable(UINT32, s, t);
    case Message(_, _, _) => SliceStable(s, t, MsgIncomplete);
  }

  // The tag that continues a run of f; only unpacked containers that grow look for one.
  predicate RunsOn(f: Field) {
    f.Repeated? && !IsPacked(f.elem) && !f.target.FixedCount?
  }

  lemma EntryStable(f: Field, m: nat, p: Value, s: seq<byte>, t: seq<byte>)
    requires WellFormed(f) && (f.Oneof? ==> m < |f.members|)
    requires s != [] && ReadEntry(f, m, p, s).Done? && Shares(s, t, ReadEntry(f, m, p, s).used)
    requires RunsOn(f) ==> ExamTag(TagOf(f), t[ReadEntry(f, m, p, s).used..]).Err?
    ensures ReadEntry(f, m, p, t) == ReadEntry(f, m, p, s)
  {
    match f
    case Repeated(elem, target) =>
      if IsPacked(elem) {
        SliceStable(s, t, RepeatedIncomplete);
      } else if target.FixedCount? {
        RangeStable(elem, ElemsOf(target.count, p), 0, s, t);
      } else {
        assert TagOf(elem) == TagOf(f);
        RunStable(elem, target.Associative?, [], s, t, t[ReadEntry(f, m, p, s).used..]);
      }
    case Oneof(members) =>
      ContentStable(members[m], if p.Member? && p.index == m then p.value else Blank, s, t);
    case _ =>
      ContentStable(f, MutableVal(f, p), s, t);
  }

  lemma {:induction false} RunStable(elem: Field, associative: bool, acc: seq<Value>, s: seq<byte>, t: seq<byte>,
                                     rest: seq<byte>)
    requires IsContent(elem) && WellFormed(elem) && s != []
    requires ReadRun(elem, associative, acc, s).Done? && Shares(s, t, ReadRun(elem, associative, acc, s).used)
    requires t[ReadRun(elem, associative, acc, s).used..] == rest && ExamTag(TagOf(elem), rest).Err?
    ensures ReadRun(elem, associative, acc, t) == ReadRun(elem, associative, acc, s)
    ensures ReadRun(elem, associative, acc, s).used >= 1
    decreases |s|, 1
  {
    var used := ReadRun(elem, associative, acc, s).used;
    var n, acc' := RunBegin(elem, associative, acc, s);
    SharesLess(s, t, used, n);
    ContentStable(elem, Blank, s, t);
    DropSum(t, n, used - n);
    RunOnStable(elem, associative, acc', s[n..], t[n..], rest);
  }

  lemma RunBegin(elem: Field, associative: bool, acc: seq<Value>, s: seq<byte>) returns (n: nat, acc': seq<Value>)
    requires IsContent(elem) && WellFormed(elem) && s != [] && ReadRun(elem, associative, acc, s).Done?
    ensures ReadContent(elem, Blank, s).Ok? && n == ReadContent(elem, Blank, s).used && 1 <= n <= |s|
    ensures acc' == Insert(associative, acc, ReadContent(elem, Blank, s).value)
    ensures RunOn(elem, associative, acc', s[n..]).Done?
    ensures ReadRun(elem, associative, acc, s) == Advance(RunOn(elem, associative, acc', s[n..]), n)
  {
    n := ReadContent(elem, Blank, s).used;
    acc' := Insert(associative, acc, ReadContent(elem, Blank, s).value);
  }

  lemma {:induction false} RunOnStable(elem: Field, associative: bool, acc: seq<Value>, s: seq<byte>, t: seq<byte>,
                                       rest: seq<byte>)
    requires IsContent(elem) && WellFormed(elem)
    requires RunOn(elem, associative, acc, s).Done? && Shares(s, t, RunOn(elem, associative, acc, s).used)
    requires t[RunOn(elem, associative, acc, s).used..] == rest && ExamTag(TagOf(elem), rest).Err?
    ensures RunOn(elem, associative, acc, t) == RunOn(elem, associative, acc, s)
    decreases |s|, 1
  {
    if ExamTag(TagOf(elem), s).Err? {
      assert t[0..] == t;
    } else {
      GoneOn(elem, associative, acc, s, t, rest);
    }
  }

  lemma {:induction false} GoneOn(elem: Field, associative: bool, acc: seq<Value>, s: seq<byte>, t: seq<byte>,
                                  rest: seq<byte>)
    requires IsContent(elem) && WellFormed(elem) && ExamTag(TagOf(elem), s).Ok?
    requires RunOn(elem, associative, acc, s).Done? && Shares(s, t, RunOn(elem, associative, acc, s).used)
    requires t[RunOn(elem, associative, acc, s).used..] == rest && ExamTag(TagOf(elem), rest).Err?
    ensures RunOn(elem, associative, acc, t) == RunOn(elem, associative, acc, s)
    decreases |s|, 0
  {
    var used, n := RunOn(elem, associative, acc, s).used, ExamTag(TagOf(elem), s).used;
    SharesLess(s, t, used, n);
    DropSum(t, n, used - n);
    RunUsesSome(elem, associative, acc, s[n..]);
    RunStable(elem, associative, acc, s[n..], t[n..], rest);
  }

  lemma RunUsesSome(elem: Field, associative: bool, acc: seq<Value>, s: seq<byte>)
    requires IsContent(elem) && WellFormed(elem) && s != [] && ReadRun(elem, associative, acc, s).Done?
    ensures ReadRun(elem, associative, acc, s).used >= 1
  {
  }

  lemma {:induction false} RangeStable(elem: Field, elems: seq<Value>, j: nat, s: seq<byte>, t: seq<byte>)
    requires IsContent(elem) && WellFormed(elem) && j <= |elems|
    requires ReadRange(elem, elems, j, s).Done? && Shares(s, t, ReadRange(elem, elems, j, s).used)
    ensures ReadRange(elem, elems, j, t) == ReadRange(elem, elems, j, s)
    decreases |elems| - j, 1
  {
    if j < |elems| {
      if j == 0 {
        RangeElemStable(elem, elems, j, s, t);
      } else {
        var code := ExamTag(TagOf(elem), s);
        var used := ReadRange(elem, elems, j, s).used;
        SharesLess(s, t, used, code.used);
        assert ReadRangeElem(elem, elems, j, s[code.used..]).used >= 1;
        RangeElemStable(elem, elems, j, s[code.used..], t[code.used..]);
      }
    }
  }

  lemma {:induction false} RangeElemStable(elem: Field, elems: seq<Value>, j: nat, s: seq<byte>, t: seq<byte>)
    requires IsContent(elem) && WellFormed(elem) && j < |elems|
    requires ReadRangeElem(elem, elems, j, s).Done? && Shares(s, t, ReadRangeElem(elem, elems, j, s).used)
    ensures ReadRangeElem(elem, elems, j, t) == ReadRangeElem(elem, elems, j, s)
    decreases |elems| - j, 0
  {
    var used := ReadRangeElem(elem, elems, j, s).used;
    var x := ReadContent(elem, elems[j], s);
    SharesLess(s, t, used, x.used);
    ContentStable(elem, elems[j], s, t);
    var more := elems[j := x.value];
    assert ReadRangeElem(elem, elems, j, s) == Advance(ReadRange(elem, more, j + 1, s[x.used..]), x.used);
    assert ReadRangeElem(elem, elems, j, t) == Advance(ReadRange(elem, more, j + 1, t[x.used..]), x.used);
    RangeStable(elem, more, j + 1, s[x.used..], t[x.used..]);
  }
}
