/** Fields the schema does not know: what counts as one, and that every field another schema writes does. */
module PbUnknown {
  import opened Arith
  import opened PbErrors
  import opened Varint
  import opened PbTags
  import opened PbSchema
  import opened PbEncoding
  import opened PbDecoding
  import opened PbRoundTrip
  import opened PbRecords

  ghost predicate StartsWithLength(payload: seq<byte>, n: nat) {
    1 <= n <= |payload| && ReadAs(UINT32, payload[..n]) == Ok(|payload| - n, n)
  }

  // A varint, four bytes, eight bytes, or a length and as many bytes.
  ghost predicate IsPayload(wireType: nat, payload: seq<byte>) {
    match wireType
    case 0 => EndsAt(payload, |payload|, 10, 1)
    case 1 => |payload| == 8
    case 2 => exists n :: StartsWithLength(payload, n)
    case 5 => |payload| == 4
    case _ => false
  }

  // What is skipped is a payload of the wire type, and a payload is skipped whole, whatever follows it.
  lemma SkipsExactly(wireType: nat, s: seq<byte>)
    requires wireType in {0, 1, 2, 5}
    ensures SkipField(wireType, s).Ok? ==> IsPayload(wireType, s[..SkipField(wireType, s).used])
    ensures forall n | 0 <= n <= |s| && IsPayload(wireType, s[..n]) :: SkipField(wireType, s) == Ok((), n)
  {
    if wireType == VARINT {
      SkipsVarint(s);
    } else if wireType == LEN_DLM {
      SkipsDelimited(s);
    }
  }

  lemma SkipsVarint(s: seq<byte>)
    ensures Skipped(s).Ok? ==> IsPayload(VARINT, s[..Skipped(s).used])
    ensures forall n | 0 <= n <= |s| && IsPayload(VARINT, s[..n]) :: Skipped(s) == Ok((), n)
  {
    SkippedAsParsed(s, 10);
    if Skipped(s).Ok? {
      ParsedEnds(s, 10, 1);
    }
    forall n | 0 <= n <= |s| && IsPayload(VARINT, s[..n]) ensures Skipped(s) == Ok((), n) {
      VarintEnds(s, n);
    }
  }

  lemma VarintEnds(s: seq<byte>, n: nat)
    requires n <= |s| && EndsAt(s[..n], n, 10, 1)
    ensures Skipped(s) == Ok((), n)
  {
    assert forall i | 0 <= i < n :: s[..n][i] == s[i];
    ParseExactly(s, 10, 1, n);
    SkippedAsParsed(s, 10);
  }

  lemma SkipsDelimited(s: seq<byte>)
    ensures SkipField(LEN_DLM, s).Ok? ==> IsPayload(LEN_DLM, s[..SkipField(LEN_DLM, s).used])
    ensures forall n | 0 <= n <= |s| && IsPayload(LEN_DLM, s[..n]) :: SkipField(LEN_DLM, s) == Ok((), n)
  {
    if SkipField(LEN_DLM, s).Ok? {
      DelimitedStarts(s);
    }
    forall n | 0 <= n <= |s| && IsPayload(LEN_DLM, s[..n]) ensures SkipField(LEN_DLM, s) == Ok((), n) {
      var k :| StartsWithLength(s[..n], k);
      LengthReads(s, n, k);
    }
  }

  lemma DelimitedStarts(s: seq<byte>)
    requires SkipField(LEN_DLM, s).Ok?
    ensures StartsWithLength(s[..SkipField(LEN_DLM, s).used], ReadAs(UINT32, s).used)
  {
    var n, used := ReadAs(UINT32, s).used, SkipField(LEN_DLM, s).used;
    ReadAsInRange(UINT32, s);
    assert s[..used][..n] == s[..n];
    ReadAsStable(UINT32, s, s[..n]);
  }

  lemma LengthReads(s: seq<byte>, n: nat, k: nat)
    requires n <= |s| && StartsWithLength(s[..n], k)
    ensures SkipField(LEN_DLM, s) == Ok((), n)
  {
    assert s[..n][..k] == s[..k] == s[..k][..k];
    ReadAsStable(UINT32, s[..k], s);
  }

  // A field nobody claims: its tag is that of no field that can be met, and its payload is that of its wire type.
  lemma UnknownExactly(fs: seq<Field>, tag: Tag, code: seq<byte>, payload: seq<byte>)
    requires Readable(fs)
    ensures Complete(fs, Unknown(tag, code, payload)) <==>
              && (forall e | IsEntry(fs, e) :: TagOf(EntryField(fs, e)) != tag)
              && ReadAs(UINT32, code) == Ok(tag, |code|)
              && IsPayload(tag % 8, payload)
  {
    DispatchExactly(fs, tag);
    assert payload[..|payload|] == payload;
    if tag % 8 in {0, 1, 2, 5} {
      SkipsExactly(tag % 8, payload);
    }
  }

  lemma DispatchExactly(fs: seq<Field>, tag: Tag)
    requires forall e | IsEntry(fs, e) :: !EntryField(fs, e).Oneof?
    ensures Dispatch(fs, tag).Nobody? <==> forall e | IsEntry(fs, e) :: TagOf(EntryField(fs, e)) != tag
  {
    ExpansionIsEntries(fs);
    if Dispatch(fs, tag).Nobody? {
      var table := Expansion(fs, 0);
      forall e | IsEntry(fs, e) ensures TagOf(EntryField(fs, e)) != tag {
        assert e in table;
      }
    }
  }

  // What any schema writes for a field is a payload of the field's wire type ...
  lemma ContentIsPayload(f: Field, x: Value)
    requires IsContent(f) && WellFormed(f) && Fits(f, x) && |Payload(f, x)| < LENGTH_LIMIT
    ensures IsPayload(WireType(f), Payload(f, x))
  {
    match f
    case Scalar(_, ty, _) => EncodedIsPayload(ToWire(ty, x.n));
    case Fixed(_, _, _) =>
    case Bytes(_, _, _) => PrefixedIsPayload(x.bytes);
    case Message(_, fields, _) => PrefixedIsPayload(FieldsBytes(fields, x.slots, 0));
  }

  lemma EncodedIsPayload(u: nat)
    requires u < 0x1_0000_0000_0000_0000
    ensures IsPayload(VARINT, Encode(u))
  {
    var t := Int(W64, false, false);
    DivModUnique(u, 0x1_0000_0000_0000_0000, 0, u);
    RoundTrip(t, u, []);
    assert Encode(u) + [] == Encode(u) == Encode(u)[..|Encode(u)|];
    SkipAgreesWithRead(Encode(u));
    SkipsVarint(Encode(u));
  }

  lemma PrefixedIsPayload(body: seq<byte>)
    requires |body| < LENGTH_LIMIT
    ensures IsPayload(LEN_DLM, Prefixed(body))
  {
    var n := |Encode(|body|)|;
    TagRoundTrip(|body|, []);
    assert Encode(|body|) + [] == Encode(|body|) == Prefixed(body)[..n];
    assert StartsWithLength(Prefixed(body), n);
  }

  // ... so that a schema without the field takes it for a field nobody claims, and goes on behind it.
  lemma WrittenIsSkipped(f: Field, x: Value, fs: seq<Field>, slots: seq<Value>, seen: set<nat>, rest: seq<byte>)
    requires IsContent(f) && WellFormed(f) && Fits(f, x) && |Payload(f, x)| < LENGTH_LIMIT
    requires Readable(fs) && |slots| == |fs| && forall e | IsEntry(fs, e) :: TagOf(EntryField(fs, e)) != TagOf(f)
    ensures Complete(fs, Unknown(TagOf(f), Encode(TagOf(f)), Payload(f, x)))
    ensures ReadFields(fs, slots, seen, Tagged(f, Payload(f, x)) + rest) == ReadFields(fs, slots, seen, rest)
  {
    var tag, p := TagOf(f), Payload(f, x);
    WrittenIsUnknown(f, x, fs);
    UnknownIsSkipped(fs, slots, seen, tag, Encode(tag), p, rest);
    Assoc(Encode(tag), p, rest);
  }

  lemma TagCarriesType(f: Field)
    requires !f.Oneof?
    ensures TagOf(f) % 8 == WireType(f)
  {
  }

  lemma WrittenIsUnknown(f: Field, x: Value, fs: seq<Field>)
    requires IsContent(f) && WellFormed(f) && Fits(f, x) && |Payload(f, x)| < LENGTH_LIMIT
    requires Readable(fs) && forall e | IsEntry(fs, e) :: TagOf(EntryField(fs, e)) != TagOf(f)
    ensures Complete(fs, Unknown(TagOf(f), Encode(TagOf(f)), Payload(f, x)))
  {
    ContentIsPayload(f, x);
    TagRoundTrip(TagOf(f), []);
    assert Encode(TagOf(f)) + [] == Encode(TagOf(f));
    TagCarriesType(f);
    UnknownExactly(fs, TagOf(f), Encode(TagOf(f)), Payload(f, x));
  }

  lemma UnknownIsSkipped(fs: seq<Field>, slots: seq<Value>, seen: set<nat>, tag: Tag, code: seq<byte>, p: seq<byte>,
                         rest: seq<byte>)
    requires Readable(fs) && |slots| == |fs| && Complete(fs, Unknown(tag, code, p))
    ensures ReadFields(fs, slots, seen, code + (p + rest)) == ReadFields(fs, slots, seen, rest)
  {
    ReadOneCoded(fs, slots, seen, tag, code, p + rest);
    SkipStable(tag % 8, p, rest);
    assert FieldStep(fs, slots, seen, tag, p + rest) == Next(slots, seen, |p|);
    Assoc(p, rest, []);
  }
}
