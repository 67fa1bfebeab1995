/** Unpacked ranges of fixed length with too few elements on the wire. */
module PbShortRange {
  import opened PbErrors
  import opened Varint
  import opened PbTags
  import opened PbSchema
  import opened PbEncoding
  import opened PbDecoding
  import opened PbRoundTrip
  import opened PbTarget
  import opened PbRecords
  import opened PbUnknown

  // The first elements of a range replaced by those of a run from its k-th on.
  function Patched(elems: seq<Value>, j: nat, es: seq<Value>, k: nat): (r: seq<Value>)
    requires k <= |es| && j + |es| - k <= |elems|
    ensures |r| == |elems|
    decreases |es| - k
  {
    if k == |es| then elems else Patched(elems[j := es[k]], j + 1, es, k + 1)
  }

  lemma {:induction false} PatchedAt(elems: seq<Value>, j: nat, es: seq<Value>, k: nat, i: nat)
    requires k <= |es| && j + |es| - k <= |elems| && i < |elems|
    ensures Patched(elems, j, es, k)[i] == if j <= i < j + |es| - k then es[i - j + k] else elems[i]
    decreases |es| - k
  {
    if k < |es| {
      PatchedAt(elems[j := es[k]], j + 1, es, k + 1, i);
    }
  }

  // Reading a range gets stuck behind the last element there is.
  lemma {:induction false} RunGetsStuck(elem: Field, elems: seq<Value>, j: nat, es: seq<Value>, k: nat, rest: seq<byte>)
    requires AllFit(elem, es) && k <= |es| && 0 < j && j + |es| - k < |elems|
    requires |RunBytes(elem, es, k)| < LENGTH_LIMIT && ExamTag(TagOf(elem), rest).Err?
    ensures ReadRange(elem, elems, j, RunBytes(elem, es, k) + rest) == Stuck(Many(Patched(elems, j, es, k)))
    decreases |es| - k
  {
    if k == |es| {
      assert RunBytes(elem, es, k) + rest == rest;
    } else {
      var tail := RunBytes(elem, es, k + 1) + rest;
      RunBegins(elem, es, k, rest);
      ContentRoundTrip(elem, es[k], elems[j], tail);
      ReadOneOfRange(elem, elems, j, es[k], Encode(TagOf(elem)), Payload(elem, es[k]), tail);
      RunGetsStuck(elem, elems[j := es[k]], j + 1, es, k + 1, rest);
    }
  }

  lemma RangeGetsStuck(elem: Field, elems: seq<Value>, es: seq<Value>, k: nat, rest: seq<byte>)
    requires AllFit(elem, es) && k < |es| && |es| - k < |elems|
    requires |RunBytes(elem, es, k)| < LENGTH_LIMIT && ExamTag(TagOf(elem), rest).Err?
    ensures ReadRange(elem, elems, 0, Payload(elem, es[k]) + (RunBytes(elem, es, k + 1) + rest))
         == Stuck(Many(Patched(elems, 0, es, k)))
  {
    var p, tail := Payload(elem, es[k]), RunBytes(elem, es, k + 1) + rest;
    RunBegins(elem, es, k, rest);
    ContentRoundTrip(elem, es[k], elems[0], tail);
    ReadOneOfRange(elem, elems, 0, es[k], [], p, tail);
    assert [] + (p + tail) == p + tail;
    RunGetsStuck(elem, elems[0 := es[k]], 1, es, k + 1, rest);
  }

  // An unpacked range of fixed length.
  ghost predicate IsRange(fs: seq<Field>, i: nat) {
    && i < |fs| && fs[i].Repeated? && fs[i].target.FixedCount? && !IsPacked(fs[i].elem)
    && Readable(fs) && DistinctIds(fs)
  }

  // One pass of the loop over the first element of too few: some of the target is overwritten, and the element is
  // skipped like a field nobody claims.
  lemma OneElementSkipped(fs: seq<Field>, slots: seq<Value>, seen: set<nat>, i: nat, es: seq<Value>, k: nat,
                          rest: seq<byte>)
    requires IsRange(fs, i) && |slots| == |fs| && AllFit(fs[i].elem, es) && k < |es| && |es| - k < fs[i].target.count
    requires |RunBytes(fs[i].elem, es, k)| < LENGTH_LIMIT && ExamTag(TagOf(fs[i]), rest).Err?
    ensures var elem, elems := fs[i].elem, ElemsOf(fs[i].target.count, slots[i]);
            FieldStep(fs, slots, seen, TagOf(fs[i]), Payload(elem, es[k]) + (RunBytes(elem, es, k + 1) + rest))
            == Next(slots[i := Many(Patched(elems, 0, es, k))], seen, |Payload(elem, es[k])|)
  {
    var f := fs[i];
    var elem, elems, tag := f.elem, ElemsOf(f.target.count, slots[i]), TagOf(f);
    assert IsEntry(fs, (i, 0)) && EntryField(fs, (i, 0)) == f;
    IdsBelowLimit(fs);
    DispatchFinds(fs, (i, 0));
    RangeGetsStuck(elem, elems, es, k, rest);
    SkipsElement(elem, es[k], RunBytes(elem, es, k + 1) + rest);
    assert tag == TagOf(elem);
  }

  lemma SkipsElement(elem: Field, x: Value, rest: seq<byte>)
    requires IsContent(elem) && WellFormed(elem) && Fits(elem, x) && |Payload(elem, x)| < LENGTH_LIMIT
    ensures SkipField(TagOf(elem) % 8, Payload(elem, x) + rest) == Ok((), |Payload(elem, x)|)
  {
    var p := Payload(elem, x);
    ContentIsPayload(elem, x);
    TagCarriesType(elem);
    assert (p + rest)[..|p|] == p;
    SkipsExactly(WireType(elem), p + rest);
  }

  // A range whose first n elements are all x.
  function Smeared(elems: seq<Value>, n: nat, x: Value): (r: seq<Value>)
    ensures |r| == |elems|
    ensures forall t | 0 <= t < |elems| :: r[t] == if t < n then x else elems[t]
  {
    seq(|elems|, t requires 0 <= t < |elems| => if t < n then x else elems[t])
  }

  lemma PatchedThenSmeared(elems: seq<Value>, es: seq<Value>, k: nat)
    requires k < |es| && |es| - k < |elems|
    ensures Smeared(Patched(elems, 0, es, k), |es| - k - 1, es[|es| - 1]) == Smeared(elems, |es| - k, es[|es| - 1])
  {
    var patched := Patched(elems, 0, es, k);
    forall t | 0 <= t < |elems| ensures patched[t] == if t < |es| - k then es[t + k] else elems[t] {
      PatchedAt(elems, 0, es, k, t);
    }
  }

  // The loop's slots after the elements from the k-th on, too few for the range.
  function SlotsAfterRun(fs: seq<Field>, slots: seq<Value>, i: nat, es: seq<Value>, k: nat): seq<Value>
    requires i < |fs| == |slots| && fs[i].Repeated? && fs[i].target.FixedCount? && k < |es|
  {
    slots[i := Many(Smeared(ElemsOf(fs[i].target.count, slots[i]), |es| - k, es[|es| - 1]))]
  }

  lemma ReadOneOfTooFew(fs: seq<Field>, slots: seq<Value>, seen: set<nat>, i: nat, es: seq<Value>, k: nat,
                        rest: seq<byte>)
    requires IsRange(fs, i) && |slots| == |fs| && AllFit(fs[i].elem, es) && k < |es| && |es| - k < fs[i].target.count
    requires |RunBytes(fs[i].elem, es, k)| < LENGTH_LIMIT && ExamTag(TagOf(fs[i]), rest).Err?
    ensures var elem, elems := fs[i].elem, ElemsOf(fs[i].target.count, slots[i]);
            ReadFields(fs, slots, seen, RunBytes(elem, es, k) + rest)
            == ReadFields(fs, slots[i := Many(Patched(elems, 0, es, k))], seen, RunBytes(elem, es, k + 1) + rest)
  {
    var elem := fs[i].elem;
    var p, tail := Payload(elem, es[k]), RunBytes(elem, es, k + 1) + rest;
    RunBegins(elem, es, k, rest);
    ReadOneRecord(fs, slots, seen, TagOf(elem), p + tail);
    OneElementSkipped(fs, slots, seen, i, es, k, rest);
    Assoc(p, tail, []);
  }

  // A run of too few elements does not count as an occurrence of the range, and leaves its last element in as many
  // places of the target as it has elements.
  lemma {:induction false} TooFewOverwrite(fs: seq<Field>, slots: seq<Value>, seen: set<nat>, i: nat, es: seq<Value>,
                                           k: nat, rest: seq<byte>)
    requires IsRange(fs, i) && |slots| == |fs| && AllFit(fs[i].elem, es) && k < |es| && |es| - k < fs[i].target.count
    requires |RunBytes(fs[i].elem, es, k)| < LENGTH_LIMIT && ExamTag(TagOf(fs[i]), rest).Err?
    ensures ReadFields(fs, slots, seen, RunBytes(fs[i].elem, es, k) + rest)
         == ReadFields(fs, SlotsAfterRun(fs, slots, i, es, k), seen, rest)
    decreases |es| - k
  {
    var elem, elems := fs[i].elem, ElemsOf(fs[i].target.count, slots[i]);
    var slots' := slots[i := Many(Patched(elems, 0, es, k))];
    ReadOneOfTooFew(fs, slots, seen, i, es, k, rest);
    PatchedThenSmeared(elems, es, k);
    if k + 1 < |es| {
      RunBegins(elem, es, k, rest);
      TooFewOverwrite(fs, slots', seen, i, es, k + 1, rest);
      assert SlotsAfterRun(fs, slots', i, es, k + 1) == SlotsAfterRun(fs, slots, i, es, k);
    } else {
      assert RunBytes(elem, es, k + 1) + rest == rest;
      assert Smeared(Patched(elems, 0, es, k), 0, es[k]) == Patched(elems, 0, es, k);
    }
  }

  // So a run of too few elements counts for nothing if the range has not been met before.
  lemma TooFewCountForNothing(fs: seq<Field>, slots: seq<Value>, seen: set<nat>, i: nat, es: seq<Value>,
                              rest: seq<byte>)
    requires IsRange(fs, i) && |slots| == |fs| && AllFit(fs[i].elem, es) && 0 < |es| < fs[i].target.count
    requires |RunBytes(fs[i].elem, es, 0)| < LENGTH_LIMIT && ExamTag(TagOf(fs[i]), rest).Err? && i !in seen
    ensures ReadFields(fs, slots, seen, RunBytes(fs[i].elem, es, 0) + rest) == ReadFields(fs, slots, seen, rest)
  {
    TooFewOverwrite(fs, slots, seen, i, es, 0, rest);
    FieldsIgnoreTarget(fs, slots, SlotsAfterRun(fs, slots, i, es, 0), seen, rest);
  }
}
