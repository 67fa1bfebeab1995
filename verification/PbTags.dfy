/** Field tags: the number, its bytes, and the two ways the source recognises one. */
module PbTags {
  import opened Arith
  import opened PbErrors
  import opened Varint

  const VARINT: nat := 0
  const FIX64: nat := 1
  const LEN_DLM: nat := 2
  const FIX32: nat := 5

  const ID_LIMIT: nat := 0x2000_0000  // 2^29, so that a tag fits 32 bits

  const UINT32 := Int(W32, false, false)

  type Tag = t: nat | t < 0x1_0000_0000

  // (id << 3) | wire type
  function TagNumber(id: nat, wireType: nat): Tag
    requires id < ID_LIMIT && wireType < 8
  {
    id * 8 + wireType
  }

  // The compile-time check: compares bytes, and insists on at least one byte after the tag.
  function ExamTag(tag: Tag, s: seq<byte>): (r: Read<()>)
    ensures r.Ok? ==> 1 <= r.used < |s|
  {
    var code := Encode(tag);
    if |code| < |s| && s[..|code|] == code then Ok((), |code|) else Err(TagMismatch)
  }

  // The run-time check: decodes a 32-bit number and compares it.
  function ExamTagByDecoding(tag: Tag, s: seq<byte>): Read<()> {
    match ReadAs(UINT32, s)
    case Err(e) => Err(e)
    case Ok(t, n) => if t == tag then Ok((), n) else Err(TagMismatch)
  }

  lemma TagRoundTrip(tag: Tag, rest: seq<byte>)
    ensures ReadAs(UINT32, Encode(tag) + rest) == Ok(tag, |Encode(tag)|)
  {
    assert ToWire(UINT32, tag) == tag by { DivModUnique(tag, 0x1_0000_0000, 0, tag); }
    RoundTrip(UINT32, tag, rest);
  }

  // On a record with a payload, both checks accept exactly when the record carries the wanted tag.
  lemma ExamTagOfRecord(tag: Tag, carried: Tag, payload: seq<byte>)
    requires payload != []
    ensures ExamTag(tag, Encode(carried) + payload) == if tag == carried then Ok((), |Encode(tag)|)
          else Err(TagMismatch)
    ensures ExamTagByDecoding(tag, Encode(carried) + payload) == ExamTag(tag, Encode(carried) + payload)
  {
    var s, code := Encode(carried) + payload, Encode(tag);
    TagRoundTrip(carried, payload);
    if |code| < |s| && s[..|code|] == code {
      assert s == code + s[|code|..];
      PrefixFree(carried, payload, tag, s[|code|..]);
    }
  }

  // On arbitrary input the byte comparison accepts exactly when decoding accepts, the tag was written in as
  // few bytes as possible, and it is not the last thing in the input.
  lemma ExamTagExactly(tag: Tag, s: seq<byte>)
    ensures ExamTag(tag, s).Ok? <==> ExamTagByDecoding(tag, s) == Ok((), |Encode(tag)|) && |Encode(tag)| < |s|
  {
    var code := Encode(tag);
    if ExamTag(tag, s).Ok? {
      TagRoundTrip(tag, s[|code|..]);
      assert s == code + s[|code|..];
    }
    if ExamTagByDecoding(tag, s) == Ok((), |code|) && |code| < |s| {
      ReadUint32(s);
      ParseCanonical(s, 5, 15);
    }
  }

  lemma ReadUint32(s: seq<byte>)
    ensures ReadAs(UINT32, s) == Parse(s, 5, 15)
  {
    if Parse(s, 5, 15).Ok? {
      var u := Parse(s, 5, 15).value;
      ParseBound(s, 5, 15);
      WireLimit(UINT32);
      DivModUnique(u, 0x1_0000_0000, 0, u);
    }
  }

  // A parsed number written in the minimal number of bytes was written by the encoder.
  lemma {:induction false} ParseCanonical(s: seq<byte>, left: nat, last: byte)
    requires 1 <= left && last < 0x80 && Parse(s, left, last).Ok?
    requires |Encode(Parse(s, left, last).value)| == Parse(s, left, last).used
    ensures s[..Parse(s, left, last).used] == Encode(Parse(s, left, last).value)
    decreases left
  {
    var u, n := Parse(s, left, last).value, Parse(s, left, last).used;
    if left > 1 && s[0] >= 0x80 {
      var rest := Parse(s[1..], left - 1, last);
      assert n >= 2;
      assert u >= 0x80 && u / 0x80 == rest.value && u % 0x80 == s[0] % 0x80;
      ParseCanonical(s[1..], left - 1, last);
      assert s[..n] == [s[0]] + s[1..][..n - 1];
    }
  }

  // The two differ on a tag padded with a zero byte, and on a tag at the very end of the input.
  lemma ExamTagDiffers()
    ensures ExamTagByDecoding(8, [0x88, 0, 1]).Ok? && ExamTag(8, [0x88, 0, 1]).Err?
    ensures ExamTagByDecoding(8, [8]).Ok? && ExamTag(8, [8]).Err?
  {
    TagRoundTrip(8, []);
    assert Encode(8) == [8];
    assert [8] + [] == [8];
    var s: seq<byte> := [0x88, 0, 1];
    assert s[1..] == [0, 1];
    assert Parse(s[1..], 4, 15) == Ok(0, 1);
    assert Parse(s, 5, 15) == Ok(8, 2);
  }
}
