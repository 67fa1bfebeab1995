/** The order of field records on the wire does not matter, and neither do records nobody claims. */
module PbRecords {
  import opened PbErrors
  import opened Varint
  import opened PbTags
  import opened PbSchema
  import opened PbEncoding
  import opened PbDecoding
  import opened PbRoundTrip
  import opened PbTarget

  // A complete record of a message: an occurrence of a declared field (for an unpacked repeated one, the whole
  // run), or a field the schema does not know.  code is the tag's bytes, padded or not.
  datatype Rec =
    | Known(slot: nat, member: nat, code: seq<byte>, payload: seq<byte>)
    | Unknown(tag: Tag, code: seq<byte>, payload: seq<byte>)

  ghost predicate Complete(fs: seq<Field>, r: Rec)
    requires Readable(fs)
  {
    match r
    case Known(i, m, code, payload) =>
      && IsEntry(fs, (i, m)) && payload != []
      && ReadAs(UINT32, code) == Ok(TagOf(EntryField(fs, (i, m))), |code|)
      && var read := ReadEntry(fs[i], m, Blank, payload);
         read.Done? && read.used == |payload|
    case Unknown(tag, code, payload) =>
      && Dispatch(fs, tag).Nobody?
      && ReadAs(UINT32, code) == Ok(tag, |code|)
      && tag % 8 in {VARINT, FIX64, LEN_DLM, FIX32}
      && SkipField(tag % 8, payload) == Ok((), |payload|)
  }

  ghost function ValueOf(fs: seq<Field>, r: Rec): Value
    requires Readable(fs) && r.Known? && Complete(fs, r)
  {
    ReadEntry(fs[r.slot], r.member, Blank, r.payload).value
  }

  function RecTag(fs: seq<Field>, r: Rec): Tag
    requires r.Known? ==> IsEntry(fs, (r.slot, r.member)) && !EntryField(fs, (r.slot, r.member)).Oneof?
  {
    match r case Known(i, m, _, _) => TagOf(EntryField(fs, (i, m))) case Unknown(tag, _, _) => tag
  }

  // A tag that takes more bytes than it must.
  predicate IsPadded(tag: Tag, code: seq<byte>) {
    |code| != |Encode(tag)|
  }

  // q cannot be taken for the next element of a run r.
  ghost predicate EndsRun(fs: seq<Field>, r: Rec, q: Rec)
    requires Readable(fs) && Complete(fs, r) && Complete(fs, q)
  {
    r.Known? && RunsOn(fs[r.slot]) && q.Known? && q.slot == r.slot ==> IsPadded(RecTag(fs, q), q.code)
  }

  // Complete records; no two runs of the same unpacked field in a row, for they would be one run.
  ghost predicate Wellformed(fs: seq<Field>, rs: seq<Rec>) {
    && Readable(fs) && DistinctIds(fs)
    && (forall i | 0 <= i < |rs| :: Complete(fs, rs[i]))
    && forall i, j | 0 <= i < |rs| && j == i + 1 < |rs| :: EndsRun(fs, rs[i], rs[j])
  }

  // The records from the k-th on.
  ghost function Wire(fs: seq<Field>, rs: seq<Rec>, k: nat): seq<byte>
    requires k <= |rs|
    decreases |rs| - k
  {
    if k == |rs| then [] else rs[k].code + (rs[k].payload + Wire(fs, rs, k + 1))
  }

  lemma CompleteNotEmpty(fs: seq<Field>, r: Rec)
    requires Readable(fs) && Complete(fs, r)
    ensures r.payload != []
  {
  }

  // A record nobody claims has a tag no field carries.
  lemma RecTagsDiffer(fs: seq<Field>, r: Rec, q: Rec)
    requires Readable(fs) && DistinctIds(fs) && Complete(fs, r) && Complete(fs, q)
    requires r.Known? && (q.Known? ==> q.slot != r.slot)
    ensures RecTag(fs, r) != RecTag(fs, q)
  {
    if q.Known? {
      TagsDiffer(fs, (r.slot, r.member), (q.slot, q.member));
    } else {
      IdsBelowLimit(fs);
      DispatchFinds(fs, (r.slot, r.member));
    }
  }

  // Whatever bytes a tag is written in, it is read the same in front of anything.
  lemma CodeReads(tag: Tag, code: seq<byte>, rest: seq<byte>)
    requires ReadAs(UINT32, code) == Ok(tag, |code|)
    ensures ReadAs(UINT32, code + rest) == Ok(tag, |code|) && (code + rest)[|code|..] == rest
  {
    assert (code + rest)[..|code|] == code == code[..|code|];
    ReadAsStable(UINT32, code, code + rest);
  }

  // The byte comparison takes a tag for another one exactly if both are the same and it is not padded.
  lemma CodeIsExamined(tag: Tag, carried: Tag, code: seq<byte>, payload: seq<byte>)
    requires ReadAs(UINT32, code) == Ok(carried, |code|) && payload != []
    ensures ExamTag(tag, code + payload).Ok? <==> tag == carried && !IsPadded(tag, code)
  {
    CodeReads(carried, code, payload);
    ExamTagExactly(tag, code + payload);
  }

  lemma NextRecordDiffers(fs: seq<Field>, rs: seq<Rec>, k: nat)
    requires Wellformed(fs, rs) && k < |rs| && rs[k].Known? && RunsOn(fs[rs[k].slot])
    ensures ExamTag(RecTag(fs, rs[k]), Wire(fs, rs, k + 1)).Err?
  {
    if k + 1 < |rs| {
      var r, q := rs[k], rs[k + 1];
      assert EndsRun(fs, r, q);
      CompleteNotEmpty(fs, q);
      if !(q.Known? && q.slot == r.slot) {
        RecTagsDiffer(fs, r, q);
      }
      CodeIsExamined(RecTag(fs, r), RecTag(fs, q), q.code, q.payload + Wire(fs, rs, k + 2));
    }
  }

  // One pass of the loop over a record.
  lemma ReadOneCoded(fs: seq<Field>, slots: seq<Value>, seen: set<nat>, tag: Tag, code: seq<byte>, rest: seq<byte>)
    requires Readable(fs) && |slots| == |fs| && ReadAs(UINT32, code) == Ok(tag, |code|)
    ensures ReadFields(fs, slots, seen, code + rest) == AfterStep(fs, FieldStep(fs, slots, seen, tag, rest), rest)
  {
    CodeReads(tag, code, rest);
  }

  // The loop's state after a record.
  ghost function SlotsAfter(fs: seq<Field>, r: Rec, slots: seq<Value>): seq<Value>
    requires Readable(fs) && |slots| == |fs| && Complete(fs, r)
  {
    if r.Known? then slots[r.slot := ValueOf(fs, r)] else slots
  }

  function SeenAfter(r: Rec, seen: set<nat>): set<nat> {
    if r.Known? then seen + {r.slot} else seen
  }

  lemma StepOverRecord(fs: seq<Field>, rs: seq<Rec>, k: nat, slots: seq<Value>, seen: set<nat>)
    requires Wellformed(fs, rs) && k < |rs| && |slots| == |fs|
    ensures FieldStep(fs, slots, seen, RecTag(fs, rs[k]), rs[k].payload + Wire(fs, rs, k + 1))
         == Next(SlotsAfter(fs, rs[k], slots), SeenAfter(rs[k], seen), |rs[k].payload|)
  {
    var r, rest := rs[k], Wire(fs, rs, k + 1);
    match r
    case Known(i, m, _, payload) =>
      IdsBelowLimit(fs);
      DispatchFinds(fs, (i, m));
      EntryIgnoresTarget(fs[i], m, slots[i], Blank, payload);
      if RunsOn(fs[i]) {
        NextRecordDiffers(fs, rs, k);
      }
      Assoc(payload, rest, []);
      assert payload[..|payload|] == payload == (payload + rest)[..|payload|];
      EntryStable(fs[i], m, slots[i], payload, payload + rest);
    case Unknown(tag, _, payload) =>
      SkipStable(tag % 8, payload, rest);
  }

  lemma SkipStable(wireType: nat, payload: seq<byte>, rest: seq<byte>)
    requires SkipField(wireType, payload) == Ok((), |payload|)
    requires wireType in {VARINT, FIX64, LEN_DLM, FIX32}
    ensures SkipField(wireType, payload + rest) == Ok((), |payload|)
  {
    var s := payload + rest;
    if wireType == VARINT {
      assert s[..|payload|] == payload == payload[..|payload|];
      SkippedAsParsed(payload, 10);
      SkippedAsParsed(s, 10);
      ParseStable(payload, s, 10, 1);
    } else if wireType == LEN_DLM {
      var n := ReadAs(UINT32, payload).used;
      assert s[..n] == payload[..n];
      ReadAsStable(UINT32, payload, s);
    }
  }

  // Whether some record from the k-th on is an occurrence of slot i.
  ghost predicate HasRecord(rs: seq<Rec>, k: nat, i: nat) {
    exists j :: k <= j < |rs| && rs[j].Known? && rs[j].slot == i
  }

  // The j-th record is the last occurrence of its slot.
  ghost predicate IsLast(rs: seq<Rec>, j: nat) {
    j < |rs| && rs[j].Known? && !HasRecord(rs, j + 1, rs[j].slot)
  }

  // final and met are the loop's state after the records from the k-th on, begun with slots and seen.
  ghost predicate After(fs: seq<Field>, rs: seq<Rec>, k: nat, slots: seq<Value>, seen: set<nat>, final: seq<Value>,
                        met: set<nat>)
    requires Wellformed(fs, rs) && k <= |rs|
  {
    && |final| == |fs| == |slots|
    && (forall i :: i in met <==> i in seen || HasRecord(rs, k, i))
    && (forall j | k <= j < |rs| && IsLast(rs, j) :: final[rs[j].slot] == ValueOf(fs, rs[j]))
    && forall i | 0 <= i < |fs| && !HasRecord(rs, k, i) :: final[i] == slots[i]
  }

  lemma HasOneMore(rs: seq<Rec>, k: nat)
    requires k < |rs|
    ensures forall i :: HasRecord(rs, k, i) <==> HasRecord(rs, k + 1, i) || (rs[k].Known? && rs[k].slot == i)
  {
    forall i ensures HasRecord(rs, k, i) <==> HasRecord(rs, k + 1, i) || (rs[k].Known? && rs[k].slot == i) {
      assert rs[k].Known? && rs[k].slot == i ==> HasRecord(rs, k, i);
    }
  }

  lemma AfterOneMore(fs: seq<Field>, rs: seq<Rec>, k: nat, slots: seq<Value>, seen: set<nat>, final: seq<Value>,
                     met: set<nat>)
    requires Wellformed(fs, rs) && k < |rs| && |slots| == |fs|
    requires After(fs, rs, k + 1, SlotsAfter(fs, rs[k], slots), SeenAfter(rs[k], seen), final, met)
    ensures After(fs, rs, k, slots, seen, final, met)
  {
    HasOneMore(rs, k);
  }

  // The loop meets every record in turn and ends in that state.
  lemma {:induction false} ReadRecords(fs: seq<Field>, rs: seq<Rec>, k: nat, slots: seq<Value>, seen: set<nat>)
    returns (final: seq<Value>, met: set<nat>)
    requires Wellformed(fs, rs) && k <= |rs| && |slots| == |fs|
    ensures After(fs, rs, k, slots, seen, final, met)
    ensures ReadFields(fs, slots, seen, Wire(fs, rs, k)) == ExamFields(fs, final, met, 0)
    decreases |rs| - k
  {
    if k == |rs| {
      final, met := slots, seen;
    } else {
      var r := rs[k];
      final, met := ReadRecords(fs, rs, k + 1, SlotsAfter(fs, r, slots), SeenAfter(r, seen));
      AfterOneMore(fs, rs, k, slots, seen, final, met);
      ReadOneCoded(fs, slots, seen, RecTag(fs, r), r.code, r.payload + Wire(fs, rs, k + 1));
      StepOverRecord(fs, rs, k, slots, seen);
      Assoc(r.payload, Wire(fs, rs, k + 1), []);
    }
  }

  // The last record of slot i gives it the value v.
  ghost predicate Decides(fs: seq<Field>, rs: seq<Rec>, i: nat, v: Value)
    requires Wellformed(fs, rs)
  {
    exists j: nat :: IsLast(rs, j) && rs[j].slot == i && ValueOf(fs, rs[j]) == v
  }

  // Decoding depends only on the value of the last record of each slot, whatever else occurs, in whatever order,
  // however tags are written, and whatever the target held.
  lemma LastRecordsDecide(fs: seq<Field>, rs: seq<Rec>, qs: seq<Rec>, p: seq<Value>, q: seq<Value>)
    requires Wellformed(fs, rs) && Wellformed(fs, qs) && |p| == |fs| == |q|
    requires forall i, v :: Decides(fs, rs, i, v) <==> Decides(fs, qs, i, v)
    ensures ReadFields(fs, p, {}, Wire(fs, rs, 0)) == ReadFields(fs, q, {}, Wire(fs, qs, 0))
  {
    var a, met := ReadRecords(fs, rs, 0, p, {});
    var b, met' := ReadRecords(fs, qs, 0, q, {});
    forall i ensures i in met <==> i in met' {
      if i in met {
        var j, j' := SharedLast(fs, rs, qs, i);
      }
      if i in met' {
        var j, j' := SharedLast(fs, qs, rs, i);
      }
    }
    assert met == met';
    forall i | i in met && i < |fs| ensures a[i] == b[i] {
      var j, j' := SharedLast(fs, rs, qs, i);
    }
    ExamIgnoresTarget(fs, a, b, met, 0);
  }

  lemma {:induction false} LastExists(rs: seq<Rec>, k: nat, i: nat) returns (j: nat)
    requires HasRecord(rs, k, i)
    ensures k <= j < |rs| && IsLast(rs, j) && rs[j].slot == i
    decreases |rs| - k
  {
    if HasRecord(rs, k + 1, i) {
      j := LastExists(rs, k + 1, i);
    } else {
      j := k;
    }
  }

  lemma SharedLast(fs: seq<Field>, rs: seq<Rec>, qs: seq<Rec>, i: nat) returns (j: nat, j': nat)
    requires Wellformed(fs, rs) && Wellformed(fs, qs) && HasRecord(rs, 0, i)
    requires forall v :: Decides(fs, rs, i, v) ==> Decides(fs, qs, i, v)
    ensures IsLast(rs, j) && IsLast(qs, j') && rs[j].slot == i == qs[j'].slot && HasRecord(qs, 0, i)
    ensures ValueOf(fs, rs[j]) == ValueOf(fs, qs[j'])
  {
    j := LastExists(rs, 0, i);
    assert Decides(fs, rs, i, ValueOf(fs, rs[j]));
    j' :| IsLast(qs, j') && qs[j'].slot == i && ValueOf(fs, qs[j']) == ValueOf(fs, rs[j]);
  }

  // Where no declared field occurs twice, and so no oneof has two members, permuting records and inserting or
  // removing records nobody claims changes nothing.
  lemma OrderIrrelevant(fs: seq<Field>, rs: seq<Rec>, qs: seq<Rec>, p: seq<Value>, q: seq<Value>)
    requires Wellformed(fs, rs) && Wellformed(fs, qs) && |p| == |fs| == |q|
    requires OnceEach(rs) && OnceEach(qs) && forall r: Rec | r.Known? :: r in rs <==> r in qs
    ensures ReadFields(fs, p, {}, Wire(fs, rs, 0)) == ReadFields(fs, q, {}, Wire(fs, qs, 0))
  {
    forall i, v ensures Decides(fs, rs, i, v) <==> Decides(fs, qs, i, v) {
      SameDecides(fs, rs, qs, i, v);
      SameDecides(fs, qs, rs, i, v);
    }
    LastRecordsDecide(fs, rs, qs, p, q);
  }

  ghost predicate OnceEach(rs: seq<Rec>) {
    forall i, j | 0 <= i < j < |rs| && rs[i].Known? && rs[j].Known? :: rs[i].slot != rs[j].slot
  }

  lemma SameDecides(fs: seq<Field>, rs: seq<Rec>, qs: seq<Rec>, i: nat, v: Value)
    requires Wellformed(fs, rs) && Wellformed(fs, qs) && OnceEach(qs) && forall r: Rec | r.Known? :: r in rs ==> r in qs
    ensures Decides(fs, rs, i, v) ==> Decides(fs, qs, i, v)
  {
    if Decides(fs, rs, i, v) {
      var j: nat :| IsLast(rs, j) && rs[j].slot == i && ValueOf(fs, rs[j]) == v;
      assert rs[j] in rs;
      var j': nat :| j' < |qs| && qs[j'] == rs[j];
      assert IsLast(qs, j');
    }
  }

  // A later record of a slot replaces an earlier one: nothing is merged or concatenated.
  lemma LaterRecordReplaces(fs: seq<Field>, rs: seq<Rec>, k: nat, p: seq<Value>)
    requires k < |rs| && rs[k].Known? && HasRecord(rs, k + 1, rs[k].slot)
    requires Wellformed(fs, rs) && Wellformed(fs, rs[..k] + rs[k + 1..]) && |p| == |fs|
    ensures ReadFields(fs, p, {}, Wire(fs, rs, 0)) == ReadFields(fs, p, {}, Wire(fs, rs[..k] + rs[k + 1..], 0))
  {
    var qs := rs[..k] + rs[k + 1..];
    forall i, v ensures Decides(fs, rs, i, v) <==> Decides(fs, qs, i, v) {
      DropOverridden(fs, rs, k, i, v);
    }
    LastRecordsDecide(fs, rs, qs, p, p);
  }

  lemma DropOverridden(fs: seq<Field>, rs: seq<Rec>, k: nat, i: nat, v: Value)
    requires k < |rs| && rs[k].Known? && HasRecord(rs, k + 1, rs[k].slot)
    requires Wellformed(fs, rs) && Wellformed(fs, rs[..k] + rs[k + 1..])
    ensures Decides(fs, rs, i, v) <==> Decides(fs, rs[..k] + rs[k + 1..], i, v)
  {
    if Decides(fs, rs, i, v) {
      var j: nat :| IsLast(rs, j) && rs[j].slot == i && ValueOf(fs, rs[j]) == v;
      LastAfterDrop(rs, k, j);
    }
    DropDecidesNothing(fs, rs, k, i, v);
  }

  lemma DropDecidesNothing(fs: seq<Field>, rs: seq<Rec>, k: nat, i: nat, v: Value)
    requires k < |rs| && rs[k].Known? && HasRecord(rs, k + 1, rs[k].slot)
    requires Wellformed(fs, rs) && Wellformed(fs, rs[..k] + rs[k + 1..])
    ensures Decides(fs, rs[..k] + rs[k + 1..], i, v) ==> Decides(fs, rs, i, v)
  {
    var qs := rs[..k] + rs[k + 1..];
    if Decides(fs, qs, i, v) {
      var j': nat :| IsLast(qs, j') && qs[j'].slot == i && ValueOf(fs, qs[j']) == v;
      var j := if j' < k then j' else j' + 1;
      LastAfterDrop(rs, k, j);
      assert IsLast(rs, j) && rs[j].slot == i && ValueOf(fs, rs[j]) == v;
    }
  }

  lemma LastAfterDrop(rs: seq<Rec>, k: nat, j: nat)
    requires k < |rs| && rs[k].Known? && HasRecord(rs, k + 1, rs[k].slot) && j < |rs| && j != k
    ensures var qs := rs[..k] + rs[k + 1..]; var j' := if j < k then j else j - 1;
            qs[j'] == rs[j] && (IsLast(rs, j) <==> IsLast(qs, j'))
  {
    var qs := rs[..k] + rs[k + 1..];
    var j' := if j < k then j else j - 1;
    var slot := if rs[j].Known? then rs[j].slot else 0;
    if HasRecord(rs, j + 1, slot) {
      var i := LastExists(rs, j + 1, slot);
      assert i != k;
      assert qs[if i < k then i else i - 1] == rs[i];
    }
    if HasRecord(qs, j' + 1, slot) {
      var i := LastExists(qs, j' + 1, slot);
      assert rs[if i < k then i else i + 1] == qs[i];
    }
  }

  // An element with a padded tag ends the run before it and, with what follows, replaces it.
  lemma PaddedTagReplaces(fs: seq<Field>, a: Rec, b: Rec, p: seq<Value>)
    requires Readable(fs) && DistinctIds(fs) && |p| == |fs| && Complete(fs, a) && Complete(fs, b)
    requires a.Known? && b.Known? && a.slot == b.slot && RunsOn(fs[a.slot]) && IsPadded(RecTag(fs, b), b.code)
    ensures ReadFields(fs, p, {}, a.code + (a.payload + (b.code + b.payload)))
          == ReadFields(fs, p, {}, b.code + b.payload)
  {
    var rs := [a, b];
    PairOfRuns(fs, a, b);
    assert rs[1].Known? && HasRecord(rs, 1, a.slot);
    assert rs[..0] + rs[1..] == [b];
    LaterRecordReplaces(fs, rs, 0, p);
    PairOnWire(fs, a, b);
    OneRecord(fs, b);
  }

  lemma PairOfRuns(fs: seq<Field>, a: Rec, b: Rec)
    requires Readable(fs) && DistinctIds(fs) && Complete(fs, a) && Complete(fs, b) && EndsRun(fs, a, b)
    ensures Wellformed(fs, [a, b]) && Wellformed(fs, [b])
  {
  }

  lemma PairOnWire(fs: seq<Field>, a: Rec, b: Rec)
    ensures Wire(fs, [a, b], 0) == a.code + (a.payload + (b.code + b.payload))
  {
    var rs := [a, b];
    assert Wire(fs, rs, 2) == [] && b.payload + [] == b.payload;
    assert Wire(fs, rs, 1) == b.code + b.payload;
  }

  lemma OneRecord(fs: seq<Field>, b: Rec)
    ensures Wire(fs, [b], 0) == b.code + b.payload
  {
    assert Wire(fs, [b], 1) == [];
  }
}
