/** What decoding a message yields, record by record, and exactly when and how it fails. */
module PbRequired {
  import opened PbErrors
  import opened Varint
  import opened PbTags
  import opened PbSchema
  import opened PbEncoding
  import opened PbDecoding
  import opened PbRoundTrip
  import opened PbTarget
  import opened PbRecords

  // A field with neither an empty state nor a default.
  predicate MustOccur(f: Field) {
    IsContent(f) && f.presence == Required
  }

  // After the loop every required field must have been met; other fields not met get their absent value.
  lemma {:induction false} ExamExactly(fs: seq<Field>, slots: seq<Value>, seen: set<nat>, k: nat)
    requires |slots| == |fs| && k <= |fs|
    ensures var r := ExamFields(fs, slots, seen, k);
            if forall i | k <= i < |fs| && MustOccur(fs[i]) :: i in seen then
              && r.Success? && |r.value| == |fs|
              && forall i | 0 <= i < |fs| ::
                   if i < k || i in seen then r.value[i] == slots[i] else IsAbsentValue(fs[i], r.value[i])
            else r == Failure(RequiredFieldMissing)
    decreases |fs| - k
  {
    if k < |fs| {
      if k in seen {
        ExamExactly(fs, slots, seen, k + 1);
      } else if !MustOccur(fs[k]) {
        ExamExactly(fs, slots[k := Cleared(fs[k])], seen, k + 1);
      }
    }
  }

  ghost predicate AllPresent(fs: seq<Field>, rs: seq<Rec>) {
    forall i | 0 <= i < |fs| && MustOccur(fs[i]) :: HasRecord(rs, 0, i)
  }

  // What a sequence of records decodes to.
  ghost predicate DecodesTo(fs: seq<Field>, rs: seq<Rec>, r: Result<seq<Value>>)
    requires Wellformed(fs, rs)
  {
    if AllPresent(fs, rs) then
      && r.Success? && |r.value| == |fs|
      && (forall j | 0 <= j < |rs| && IsLast(rs, j) :: r.value[rs[j].slot] == ValueOf(fs, rs[j]))
      && forall i | 0 <= i < |fs| && !HasRecord(rs, 0, i) :: IsAbsentValue(fs[i], r.value[i])
    else r == Failure(RequiredFieldMissing)
  }

  // Decoding succeeds exactly if every required field has a record; each field then has the value of its last
  // record, or its absent value.
  lemma RecordsDecode(fs: seq<Field>, rs: seq<Rec>, p: seq<Value>)
    requires Wellformed(fs, rs) && |p| == |fs|
    ensures DecodesTo(fs, rs, ReadFields(fs, p, {}, Wire(fs, rs, 0)))
  {
    var final, met := ReadRecords(fs, rs, 0, p, {});
    assert forall i :: i in met <==> HasRecord(rs, 0, i);
    ExamExactly(fs, final, met, 0);
    forall j | 0 <= j < |rs| && IsLast(rs, j) ensures HasRecord(rs, 0, rs[j].slot) {
    }
  }

  // The same for a buffer with the bare fields of a message ...
  lemma BareDecodes(f: Field, rs: seq<Rec>, prior: Value)
    requires f.Message? && WellFormed(f) && FormFits(f, Bare) && Wellformed(f.fields, rs)
    ensures var r := FullRead(f, Bare, prior, Wire(f.fields, rs, 0));
            if AllPresent(f.fields, rs) then
              r.Success? && r.value.Record? && DecodesTo(f.fields, rs, Success(r.value.slots))
            else r == Failure(RequiredFieldMissing)
  {
    RecordsDecode(f.fields, rs, SlotsOf(|f.fields|, prior));
  }

  // ... and for a message behind its length, whatever follows ...
  lemma MessageDecodes(f: Field, rs: seq<Rec>, prior: Value, rest: seq<byte>)
    requires f.Message? && WellFormed(f) && Wellformed(f.fields, rs) && |Wire(f.fields, rs, 0)| < LENGTH_LIMIT
    ensures var body := Wire(f.fields, rs, 0);
            var r := ReadContent(f, prior, Prefixed(body) + rest);
            if AllPresent(f.fields, rs) then
              r.Ok? && r.used == |Prefixed(body)| && r.value.Record? && DecodesTo(f.fields, rs, Success(r.value.slots))
            else r == Err(RequiredFieldMissing)
  {
    ReadSliceRoundTrip(Wire(f.fields, rs, 0), rest, MsgIncomplete);
    RecordsDecode(f.fields, rs, SlotsOf(|f.fields|, prior));
  }

  // ... so that a nested message without a required field makes the enclosing one fail, wherever it occurs in it.
  lemma NestedFailure(os: seq<Field>, slots: seq<Value>, seen: set<nat>, i: nat, rs: seq<Rec>, code: seq<byte>,
                      rest: seq<byte>)
    requires Readable(os) && DistinctIds(os) && |slots| == |os| && i < |os| && os[i].Message?
    requires Wellformed(os[i].fields, rs) && !AllPresent(os[i].fields, rs)
    requires |Wire(os[i].fields, rs, 0)| < LENGTH_LIMIT && ReadAs(UINT32, code) == Ok(TagOf(os[i]), |code|)
    ensures ReadFields(os, slots, seen, code + (Prefixed(Wire(os[i].fields, rs, 0)) + rest))
            == Failure(RequiredFieldMissing)
  {
    var payload := Prefixed(Wire(os[i].fields, rs, 0)) + rest;
    assert IsEntry(os, (i, 0)) && EntryField(os, (i, 0)) == os[i];
    IdsBelowLimit(os);
    DispatchFinds(os, (i, 0));
    ReadOneCoded(os, slots, seen, TagOf(os[i]), code, payload);
    MessageDecodes(os[i], rs, MutableVal(os[i], slots[i]), rest);
  }
}
