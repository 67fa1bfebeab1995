/** The decoder: what reading a field from a slice of bytes yields, given what the target held before. */
module PbDecoding {
  import opened PbErrors
  import opened Varint
  import opened PbTags
  import opened PbSchema
  import opened PbEncoding

  // Reading one occurrence of a declared field.  A range of fixed length can get stuck on a foreign tag, which
  // leaves some of its elements overwritten.
  datatype EntryRead = Done(value: Value, used: nat) | Stuck(value: Value) | Failed(error: PbError)

  // One pass of the message loop, after the tag.
  datatype Step = Next(slots: seq<Value>, seen: set<nat>, used: nat) | Halt(error: PbError)

  /* ----- skipping what is not known ----- */

  function SkipBytes(s: seq<byte>, n: nat): (r: Read<()>)
    ensures r.Ok? ==> r.used <= |s|
  {
    if n <= |s| then Ok((), n) else Err(InvalidLength)
  }

  // Skips the payload of a field nobody claimed.  For a wire type that does not exist nothing is skipped.
  function SkipField(wireType: nat, s: seq<byte>): (r: Read<()>)
    ensures r.Ok? ==> r.used <= |s|
  {
    if wireType == VARINT then Skipped(s)
    else if wireType == FIX32 then SkipBytes(s, 4)
    else if wireType == FIX64 then SkipBytes(s, 8)
    else if wireType == LEN_DLM then
      match ReadAs(UINT32, s)
      case Err(e) => Err(e)
      case Ok(len, n) =>
        (ReadAsInRange(UINT32, s);
         match SkipBytes(s[n..], len) case Err(e) => Err(e) case Ok(_, k) => Ok((), n + k))
    else Ok((), 0)
  }

  // A length prefix and the slice it announces.
  function ReadSlice(s: seq<byte>, incomplete: PbError): (r: Read<seq<byte>>)
    ensures r.Ok? ==> 1 <= r.used <= |s| && |r.value| < r.used && r.value == s[r.used - |r.value|..r.used]
  {
    match ReadAs(UINT32, s)
    case Err(e) => Err(e)
    case Ok(len, n) =>
      (ReadAsInRange(UINT32, s);
       if n + len > |s| then Err(incomplete) else Ok(s[n..n + len], n + len))
  }

  /* ----- dispatch ----- */

  datatype Dispatched = Nobody | Entry(slot: nat, member: nat)

  // The switch over the case tags of the expanded fields.
  function Dispatch(fs: seq<Field>, tag: Tag): (d: Dispatched)
    requires forall e | IsEntry(fs, e) :: !EntryField(fs, e).Oneof?
    ensures d.Entry? ==> IsEntry(fs, (d.slot, d.member)) && TagOf(EntryField(fs, (d.slot, d.member))) == tag
  {
    ExpansionIsEntries(fs);
    DispatchFrom(fs, Expansion(fs, 0), tag, 0)
  }

  function DispatchFrom(fs: seq<Field>, table: seq<(nat, nat)>, tag: Tag, j: nat): (d: Dispatched)
    requires j <= |table|
    requires forall e | e in table :: IsEntry(fs, e) && !EntryField(fs, e).Oneof?
    ensures d.Entry? ==> (d.slot, d.member) in table && TagOf(EntryField(fs, (d.slot, d.member))) == tag
    ensures d.Nobody? ==> forall i | j <= i < |table| :: TagOf(EntryField(fs, table[i])) != tag
    decreases |table| - j
  {
    if j == |table| then Nobody
    else if TagOf(EntryField(fs, table[j])) == tag then Entry(table[j].0, table[j].1)
    else DispatchFrom(fs, table, tag, j + 1)
  }

  lemma ExpansionIsEntries(fs: seq<Field>)
    ensures forall e :: e in Expansion(fs, 0) <==> IsEntry(fs, e)
  {
    forall e ensures e in Expansion(fs, 0) <==> IsEntry(fs, e) {
      ExpansionMembers(fs, 0, e);
    }
  }

  // With distinct ids the tag of a field leads to that field, and a tag nobody carries leads nowhere.
  lemma DispatchFinds(fs: seq<Field>, e: (nat, nat))
    requires DistinctIds(fs) && IsEntry(fs, e)
    requires forall d | IsEntry(fs, d) :: FieldId(EntryField(fs, d)) < ID_LIMIT
    ensures Dispatch(fs, TagOf(EntryField(fs, e))) == Entry(e.0, e.1)
  {
    ExpansionIsEntries(fs);
    var d := Dispatch(fs, TagOf(EntryField(fs, e)));
    var table := Expansion(fs, 0);
    assert e in table;
    assert d.Entry?;
    assert IsEntry(fs, (d.slot, d.member));
    assert FieldId(EntryField(fs, (d.slot, d.member))) == FieldId(EntryField(fs, e));
  }

  /* ----- reading ----- */

  ghost predicate Readable(fs: seq<Field>) {
    && (forall i | 0 <= i < |fs| :: WellFormed(fs[i]))
    && (forall e | IsEntry(fs, e) :: !EntryField(fs, e).Oneof?)
  }

  // Reads what follows the tag into a target holding prior.
  ghost function ReadContent(f: Field, prior: Value, s: seq<byte>): (r: Read<Value>)
    requires IsContent(f) && WellFormed(f)
    ensures r.Ok? ==> 1 <= r.used <= |s|
    decreases f, 0, 0
  {
    match f
    case Scalar(_, ty, _) =>
      (match ReadAs(ty, s) case Err(e) => Err(e) case Ok(n, k) => Ok(Num(n), k))
    case Fixed(_, ty, _) =>
      var size := FixedBytes(ty);
      if size <= |s| then Ok(Num(LoadFixed(ty, s[..size])), size) else Err(FixedIncomplete)
    case Bytes(_, buffer, _) =>
      (match ReadAs(UINT32, s)
       case Err(e) => Err(e)
       case Ok(len, n) =>
         ReadAsInRange(UINT32, s);
         if !BufferTakes(buffer, len) then Err(InvalidLength)
         else if n + len > |s| then Err(OutOfBounds)
         else Ok(Data(s[n..n + len]), n + len))
    case Message(_, fields, _) =>
      match ReadSlice(s, MsgIncomplete)
      case Err(e) => Err(e)
      case Ok(body, n) =>
        match ReadFields(fields, SlotsOf(|fields|, prior), {}, body)
        case Failure(e) => Err(e)
        case Success(slots) => Ok(Record(slots), n)
  }

  predicate BufferTakes(buffer: Buffer, len: nat) {
    match buffer
    case Resizable(unit) => unit > 0 && len % unit == 0
    case FixedSize(size) => len == size
  }

  // The message loop; seen holds the declared fields met so far.
  ghost function ReadFields(fs: seq<Field>, slots: seq<Value>, seen: set<nat>, s: seq<byte>): (r: Result<seq<Value>>)
    requires Readable(fs) && |slots| == |fs|
    ensures r.Success? ==> |r.value| == |fs|
    decreases fs, 4, |s|, 0
  {
    if s == [] then ExamFields(fs, slots, seen, 0)
    else
      match ReadAs(UINT32, s)
      case Err(e) => Failure(e)
      case Ok(tag, n) =>
        ReadAsInRange(UINT32, s);
        AfterStep(fs, FieldStep(fs, slots, seen, tag, s[n..]), s[n..])
  }

  // Goes on with the bytes the step left over.
  ghost function AfterStep(fs: seq<Field>, step: Step, rest: seq<byte>): (r: Result<seq<Value>>)
    requires Readable(fs) && (step.Next? ==> |step.slots| == |fs| && step.used <= |rest|)
    ensures r.Success? ==> |r.value| == |fs|
    decreases fs, 4, |rest|, 1
  {
    match step
    case Halt(e) => Failure(e)
    case Next(slots, seen, k) => ReadFields(fs, slots, seen, rest[k..])
  }

  ghost function FieldStep(fs: seq<Field>, slots: seq<Value>, seen: set<nat>, tag: Tag, rest: seq<byte>): (r: Step)
    requires Readable(fs) && |slots| == |fs|
    ensures r.Next? ==> |r.slots| == |fs| && r.used <= |rest|
    decreases fs, 3, 0
  {
    match Dispatch(fs, tag)
    case Nobody => Skip(slots, seen, tag, rest)
    case Entry(i, m) =>
      match ReadEntry(fs[i], m, slots[i], rest)
      case Done(v, k) => Next(slots[i := v], seen + {i}, k)
      case Stuck(v) => Skip(slots[i := v], seen, tag, rest)
      case Failed(e) => Halt(e)
  }

  function Skip(slots: seq<Value>, seen: set<nat>, tag: Tag, rest: seq<byte>): (r: Step)
    ensures r.Next? ==> |r.slots| == |slots| && r.used <= |rest|
  {
    match SkipField(tag % 8, rest)
    case Err(e) => Halt(e)
    case Ok(_, k) => Next(slots, seen, k)
  }

  // After the loop: fields not met are cleared if they are optional and an error otherwise.
  function ExamFields(fs: seq<Field>, slots: seq<Value>, seen: set<nat>, k: nat): (r: Result<seq<Value>>)
    requires |slots| == |fs| && k <= |fs|
    ensures r.Success? ==> |r.value| == |fs|
    decreases |fs| - k
  {
    if k == |fs| then Success(slots)
    else if k in seen then ExamFields(fs, slots, seen, k + 1)
    else if IsOptional(fs[k]) then ExamFields(fs, slots[k := Cleared(fs[k])], seen, k + 1)
    else Failure(RequiredFieldMissing)
  }

  // Reads one occurrence of declared field f, for a oneof its m-th member.
  ghost function ReadEntry(f: Field, m: nat, prior: Value, s: seq<byte>): (r: EntryRead)
    requires WellFormed(f) && (f.Oneof? ==> m < |f.members|)
    ensures r.Done? ==> r.used <= |s|
    decreases f, 2, 0
  {
    match f
    case Repeated(elem, target) =>
      if IsPacked(elem) then ReadPacked(elem, target, s)
      else if target.FixedCount? then ReadRange(elem, ElemsOf(target.count, prior), 0, s)
      else ReadRun(elem, target.Associative?, [], s)
    case Oneof(members) =>
      (match ReadContent(members[m], if prior.Member? && prior.index == m then prior.value else Blank, s)
       case Err(e) => Failed(e)
       case Ok(x, n) => Done(Member(m, x), n))
    case _ =>
      match ReadContent(f, MutableVal(f, prior), s)
      case Err(e) => Failed(e)
      case Ok(x, n) => Done(Wrap(f, x), n)
  }

  // The length of every encoded element, where that is known in advance.
  function StaticElemSize(elem: Field): (n: nat)
    ensures n > 0
  {
    if elem.Fixed? then FixedBytes(elem.ty) else 1
  }

  // How many elements fit, and whether nothing is left over.
  function CountIn(elem: Field, len: nat): nat {
    var size := StaticElemSize(elem);
    if size == 4 then len / 4 else if size == 8 then len / 8 else len
  }

  predicate IsWhole(elem: Field, len: nat) {
    var size := StaticElemSize(elem);
    if size == 4 then len % 4 == 0 else size == 8 ==> len % 8 == 0
  }

  predicate IsStaticElem(elem: Field) {
    elem.Fixed? || (elem.Scalar? && elem.ty == Bool)
  }

  ghost function ReadPacked(elem: Field, target: Target, s: seq<byte>): (r: EntryRead)
    requires IsContent(elem) && WellFormed(elem)
    ensures r.Done? ==> r.used <= |s|
    decreases elem, 2, 0
  {
    match ReadSlice(s, RepeatedIncomplete)
    case Err(e) => Failed(e)
    case Ok(body, n) =>
      match ReadPackedBody(elem, target, body)
      case Failure(e) => Failed(e)
      case Success(es) => Done(Many(es), n)
  }

  ghost function ReadPackedBody(elem: Field, target: Target, body: seq<byte>): Result<seq<Value>>
    requires IsContent(elem) && WellFormed(elem)
    decreases elem, 1, 1
  {
    var count := CountIn(elem, |body|);
    if IsStaticElem(elem) && !IsWhole(elem, |body|) then Failure(InvalidLength)
    else if IsStaticElem(elem) && target.FixedCount? && count != target.count then Failure(InvalidLength)
    else if IsStaticElem(elem) then ReadCount(elem, count, [], body)
    else if target.FixedCount? then ReadCount(elem, target.count, [], body)
    else ReadAll(elem, [], body)
  }

  // Exactly count elements, which must use up the whole body.
  ghost function ReadCount(elem: Field, count: nat, acc: seq<Value>, s: seq<byte>): Result<seq<Value>>
    requires IsContent(elem) && WellFormed(elem)
    decreases elem, 1, 0, count
  {
    if count == 0 then
      if s == [] then Success(acc) else Failure(InvalidLength)
    else
      match ReadContent(elem, Blank, s)
      case Err(e) => Failure(e)
      case Ok(x, n) => ReadCount(elem, count - 1, acc + [x], s[n..])
  }

  // Elements up to the end of the body.
  ghost function ReadAll(elem: Field, acc: seq<Value>, s: seq<byte>): Result<seq<Value>>
    requires IsContent(elem) && WellFormed(elem)
    decreases elem, 1, 0, |s|
  {
    if s == [] then Success(acc)
    else
      match ReadContent(elem, Blank, s)
      case Err(e) => Failure(e)
      case Ok(x, n) => ReadAll(elem, acc + [x], s[n..])
  }

  // An unpacked run: elements are read as long as the next bytes carry the field's tag.
  ghost function ReadRun(elem: Field, associative: bool, acc: seq<Value>, s: seq<byte>): (r: EntryRead)
    requires IsContent(elem) && WellFormed(elem)
    ensures r.Done? ==> r.used <= |s|
    decreases elem, 1, 0, |s|
  {
    if s == [] then Done(Many(acc), 0)
    else
      match ReadContent(elem, Blank, s)
      case Err(e) => Failed(e)
      case Ok(x, n) => Advance(RunOn(elem, associative, Insert(associative, acc, x), s[n..]), n)
  }

  ghost function RunOn(elem: Field, associative: bool, acc: seq<Value>, s: seq<byte>): (r: EntryRead)
    requires IsContent(elem) && WellFormed(elem)
    ensures r.Done? ==> r.used <= |s|
    decreases elem, 1, 0, |s|
  {
    match ExamTag(TagOf(elem), s)
    case Err(_) => Done(Many(acc), 0)
    case Ok(_, t) => Advance(ReadRun(elem, associative, acc, s[t..]), t)
  }

  // An unpacked range of fixed length, from its j-th element on; the first tag has been read already.
  ghost function ReadRange(elem: Field, elems: seq<Value>, j: nat, s: seq<byte>): (r: EntryRead)
    requires IsContent(elem) && WellFormed(elem) && j <= |elems|
    ensures r.Done? ==> r.used <= |s|
    decreases elem, 1, 0, |elems| - j, 1
  {
    if j == |elems| then Done(Many(elems), 0)
    else if j == 0 then ReadRangeElem(elem, elems, j, s)
    else
      match ExamTag(TagOf(elem), s)
      case Err(_) => Stuck(Many(elems))
      case Ok(_, t) => Advance(ReadRangeElem(elem, elems, j, s[t..]), t)
  }

  ghost function ReadRangeElem(elem: Field, elems: seq<Value>, j: nat, s: seq<byte>): (r: EntryRead)
    requires IsContent(elem) && WellFormed(elem) && j < |elems|
    ensures r.Done? ==> r.used <= |s|
    decreases elem, 1, 0, |elems| - j, 0
  {
    match ReadContent(elem, elems[j], s)
    case Err(e) => Failed(e)
    case Ok(x, n) => Advance(ReadRange(elem, elems[j := x], j + 1, s[n..]), n)
  }

  function Advance(r: EntryRead, n: nat): EntryRead {
    if r.Done? then Done(r.value, n + r.used) else r
  }

  // A map replaces the value stored under an equal key.
  function Insert(associative: bool, acc: seq<Value>, x: Value): seq<Value> {
    var i := if associative then IndexOfKey(acc, KeyOf(x), 0) else |acc|;
    if i < |acc| then acc[i := x] else acc + [x]
  }

  function IndexOfKey(acc: seq<Value>, key: Value, i: nat): (r: nat)
    requires i <= |acc|
    ensures i <= r <= |acc|
    ensures r < |acc| ==> KeyOf(acc[r]) == key
    ensures forall j | i <= j < r :: KeyOf(acc[j]) != key
    decreases |acc| - i
  {
    if i == |acc| || KeyOf(acc[i]) == key then i else IndexOfKey(acc, key, i + 1)
  }
}
