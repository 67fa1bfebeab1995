/** The passes themselves: lengths into the cache, then bytes into the buffer. */
module PbWriter {
  import opened Arith
  import opened Varint
  import opened PbTags
  import opened PbSchema
  import opened PbEncoding
  import opened PbTwoPass

  /* ----- the size pass ----- */

  // A length and as many bytes.
  method SizeDelimited(len: nat) returns (size: nat)
    requires len < LENGTH_LIMIT
    ensures size == |Encode(len)| + len
  {
    VarintSizeIsExact(len);
    size := DelimitedSize(len);
  }

  method SizeTag(f: Field) returns (size: nat)
    requires !f.Oneof?
    ensures size == |Encode(TagOf(f))|
  {
    VarintSizeIsExact(TagOf(f));
    size := TagSize(f);
  }

  // The size of what follows the tag; sub-lengths go to the cache from position at on.
  method SizeContent(f: Field, x: Value, lc: array<nat>, at: nat) returns (size: nat, next: nat)
    requires IsContent(f) && WellFormed(f) && Fits(f, x) && |Payload(f, x)| < LENGTH_LIMIT
    requires at + |CacheOfContent(f, x)| <= lc.Length
    modifies lc
    ensures size == |Payload(f, x)| && next == at + |CacheOfContent(f, x)|
    ensures lc[at..next] == CacheOfContent(f, x)
    ensures lc[..at] == old(lc[..at]) && lc[next..] == old(lc[next..])
    decreases f, 1
  {
    next := at;
    if IsStatic(f) {
      StaticPayloadIsExact(f, x);
      return StaticPayload(f), next;
    }
    match f
    case Scalar(_, ty, _) =>
      WireSizeIsExact(ty, x.n);
      size := WireSize(ty, x.n);
    case Fixed(_, ty, _) =>
      size := FixedBytes(ty);
    case Bytes(_, _, _) =>
      size := SizeDelimited(|x.bytes|);
    case Message(_, _, _) =>
      size, next := SizeMessage(f, x, lc, at);
  }

  // The length of the fields is stored before any of theirs.
  method SizeMessage(f: Field, x: Value, lc: array<nat>, at: nat) returns (size: nat, next: nat)
    requires f.Message? && !IsStatic(f) && WellFormed(f) && Fits(f, x) && |Payload(f, x)| < LENGTH_LIMIT
    requires at + |CacheOfContent(f, x)| <= lc.Length
    modifies lc
    ensures size == |Payload(f, x)| && next == at + |CacheOfContent(f, x)|
    ensures lc[at..next] == CacheOfContent(f, x)
    ensures lc[..at] == old(lc[..at]) && lc[next..] == old(lc[next..])
    decreases f, 0
  {
    var len;
    len, next := SizeFields(f.fields, x.slots, lc, at + 1);
    lc[at] := len;
    size := SizeDelimited(len);
    assert lc[at..next] == [len] + lc[at + 1..next];
  }

  method SizeFields(fs: seq<Field>, vs: seq<Value>, lc: array<nat>, at: nat) returns (size: nat, next: nat)
    requires AllConform(fs, vs) && |FieldsBytes(fs, vs, 0)| < LENGTH_LIMIT
    requires at + |CacheOfFields(fs, vs, 0)| <= lc.Length
    modifies lc
    ensures size == |FieldsBytes(fs, vs, 0)| && next == at + |CacheOfFields(fs, vs, 0)|
    ensures lc[at..next] == CacheOfFields(fs, vs, 0)
    ensures lc[..at] == old(lc[..at]) && lc[next..] == old(lc[next..])
    decreases fs, 0
  {
    size, next := 0, at;
    for k := 0 to |fs|
      invariant size + |FieldsBytes(fs, vs, k)| == |FieldsBytes(fs, vs, 0)|
      invariant at <= next && next + |CacheOfFields(fs, vs, k)| == at + |CacheOfFields(fs, vs, 0)|
      invariant lc[at..next] + CacheOfFields(fs, vs, k) == CacheOfFields(fs, vs, 0)
      invariant lc[..at] == old(lc[..at]) && lc[next..] == old(lc[next..])
    {
      ghost var before := lc[..];
      var s, n := SizeField(fs[k], vs[k], lc, next);
      Extend(before, lc[..], at, next, n, CacheOfField(fs[k], vs[k]), CacheOfFields(fs, vs, k + 1));
      size, next := size + s, n;
    }
  }

  // An array part that grows by one stretch.
  lemma Extend<T>(before: seq<T>, after: seq<T>, at: nat, mid: nat, end: nat, part: seq<T>, rest: seq<T>)
    requires at <= mid <= end <= |before| == |after|
    requires after[..mid] == before[..mid] && after[mid..end] == part
    ensures after[at..end] + rest == before[at..mid] + (part + rest)
    ensures after[..at] == before[..at]
  {
    assert after[at..mid] == after[..mid][at..] == before[..mid][at..] == before[at..mid];
    assert after[at..end] == after[at..mid] + after[mid..end];
    assert after[..at] == after[..mid][..at] == before[..mid][..at];
  }

  lemma Join<T>(before: seq<T>, after: seq<T>, at: nat, mid: nat, end: nat, part: seq<T>)
    requires at <= mid <= end <= |before| == |after|
    requires after[..mid] == before[..mid] && after[mid..end] == part
    ensures after[at..end] == before[at..mid] + part
    ensures after[..at] == before[..at]
  {
    Extend(before, after, at, mid, end, part, []);
    assert after[at..end] + [] == after[at..end];
    assert part + [] == part;
  }

  method SizeField(f: Field, v: Value, lc: array<nat>, at: nat) returns (size: nat, next: nat)
    requires WellFormed(f) && Conforms(f, v) && |FieldBytes(f, v)| < LENGTH_LIMIT
    requires at + |CacheOfField(f, v)| <= lc.Length
    modifies lc
    ensures size == |FieldBytes(f, v)| && next == at + |CacheOfField(f, v)|
    ensures lc[at..next] == CacheOfField(f, v)
    ensures lc[..at] == old(lc[..at]) && lc[next..] == old(lc[next..])
    decreases f, 2
  {
    size, next := 0, at;
    match f
    case Repeated(elem, _) =>
      size, next := SizeRepeated(f, v, lc, at);
    case Oneof(members) =>
      if v.Member? {
        var tagSize := SizeTag(members[v.index]);
        size, next := SizeContent(members[v.index], v.value, lc, at);
        size := tagSize + size;
      }
    case _ =>
      if HasVal(f, v) {
        var tagSize := SizeTag(f);
        size, next := SizeContent(f, ConstVal(f, v), lc, at);
        size := tagSize + size;
      }
  }

  method SizeRepeated(f: Field, v: Value, lc: array<nat>, at: nat) returns (size: nat, next: nat)
    requires f.Repeated? && WellFormed(f) && Conforms(f, v) && |FieldBytes(f, v)| < LENGTH_LIMIT
    requires at + |CacheOfField(f, v)| <= lc.Length
    modifies lc
    ensures size == |FieldBytes(f, v)| && next == at + |CacheOfField(f, v)|
    ensures lc[at..next] == CacheOfField(f, v)
    ensures lc[..at] == old(lc[..at]) && lc[next..] == old(lc[next..])
    decreases f, 1
  {
    var elem, es := f.elem, v.elems;
    if IsPacked(elem) {
      var len;
      len, next := SizePackedBody(f, v, lc, at);
      var tagSize := SizeTag(f);
      size := SizeDelimited(len);
      size := tagSize + size;
    } else if IsStatic(elem) {
      next := at;
      size := SizeStaticRun(elem, es);
    } else {
      size, next := SizeRun(elem, es, lc, at);
    }
  }

  // Elements of known length are counted, not measured.
  method SizeStaticRun(elem: Field, es: seq<Value>) returns (size: nat)
    requires AllFit(elem, es) && IsStatic(elem) && |RunBytes(elem, es, 0)| < LENGTH_LIMIT
    ensures size == |RunBytes(elem, es, 0)|
  {
    RunIsProduct(elem, es, 0);
    TimesIsProduct(|es|, TagSize(elem) + StaticPayload(elem));
    size := |es| * (TagSize(elem) + StaticPayload(elem));
  }

  method SizePackedBody(f: Field, v: Value, lc: array<nat>, at: nat) returns (len: nat, next: nat)
    requires f.Repeated? && IsPacked(f.elem) && WellFormed(f) && Conforms(f, v) && |FieldBytes(f, v)| < LENGTH_LIMIT
    requires at + |CacheOfField(f, v)| <= lc.Length
    modifies lc
    ensures len == |PackedBytes(f.elem, v.elems, 0)| && next == at + |CacheOfField(f, v)|
    ensures lc[at..next] == CacheOfField(f, v)
    ensures lc[..at] == old(lc[..at]) && lc[next..] == old(lc[next..])
    decreases f, 0
  {
    var elem, es := f.elem, v.elems;
    if IsStatic(elem) {
      PackedIsProduct(elem, es, 0);
      TimesIsProduct(|es|, StaticPayload(elem));
      len, next := |es| * StaticPayload(elem), at;
    } else {
      next := at + 1;
      len := SizePacked(elem, es, lc, next);
      lc[at] := len;
      assert lc[at..next] == [len];
    }
  }

  // Packed elements use no cache themselves.
  method SizePacked(elem: Field, es: seq<Value>, lc: array<nat>, at: nat) returns (len: nat)
    requires AllFit(elem, es) && IsPacked(elem) && |PackedBytes(elem, es, 0)| < LENGTH_LIMIT && at <= lc.Length
    modifies lc
    ensures len == |PackedBytes(elem, es, 0)| && lc[..] == old(lc[..])
    decreases elem, 2
  {
    len := 0;
    for k := 0 to |es|
      invariant len + |PackedBytes(elem, es, k)| == |PackedBytes(elem, es, 0)|
      invariant lc[..] == old(lc[..])
    {
      ghost var before := lc[..];
      var s, n := SizeContent(elem, es[k], lc, at);
      assert lc[..] == lc[..at] + lc[at..] && before == before[..at] + before[at..];
      len := len + s;
    }
  }

  method SizeRun(elem: Field, es: seq<Value>, lc: array<nat>, at: nat) returns (size: nat, next: nat)
    requires AllFit(elem, es) && |RunBytes(elem, es, 0)| < LENGTH_LIMIT
    requires at + |CacheOfRun(elem, es, 0)| <= lc.Length
    modifies lc
    ensures size == |RunBytes(elem, es, 0)| && next == at + |CacheOfRun(elem, es, 0)|
    ensures lc[at..next] == CacheOfRun(elem, es, 0)
    ensures lc[..at] == old(lc[..at]) && lc[next..] == old(lc[next..])
    decreases elem, 2
  {
    size, next := 0, at;
    var tagSize := SizeTag(elem);
    for k := 0 to |es|
      invariant size + |RunBytes(elem, es, k)| == |RunBytes(elem, es, 0)|
      invariant at <= next && next + |CacheOfRun(elem, es, k)| == at + |CacheOfRun(elem, es, 0)|
      invariant lc[at..next] + CacheOfRun(elem, es, k) == CacheOfRun(elem, es, 0)
      invariant lc[..at] == old(lc[..at]) && lc[next..] == old(lc[next..])
    {
      ghost var before := lc[..];
      var s, n := SizeContent(elem, es[k], lc, next);
      Extend(before, lc[..], at, next, n, CacheOfContent(elem, es[k]), CacheOfRun(elem, es, k + 1));
      size, next := size + tagSize + s, n;
    }
  }

  /* ----- the write pass ----- */

  // Bytes go to b from position at on; cached lengths are taken from lc from position pos on, unchecked.
  method WriteContent(f: Field, x: Value, b: array<byte>, at: nat, lc: array<nat>, pos: nat)
    returns (end: nat, next: nat)
    requires IsContent(f) && WellFormed(f) && Fits(f, x) && |Payload(f, x)| < LENGTH_LIMIT
    requires at + |Payload(f, x)| <= b.Length
    requires pos + |CacheOfContent(f, x)| <= lc.Length && lc[pos..pos + |CacheOfContent(f, x)|] == CacheOfContent(f, x)
    modifies b
    ensures end == at + |Payload(f, x)| && next == pos + |CacheOfContent(f, x)|
    ensures b[at..end] == Payload(f, x)
    ensures b[..at] == old(b[..at]) && b[end..] == old(b[end..])
    decreases f, 1
  {
    next := pos;
    match f
    case Scalar(_, ty, _) =>
      end := AppendVarint(b, at, ty, x.n);
    case Fixed(_, ty, _) =>
      end := WriteBytes(b, at, StoreFixed(ty, x.n));
    case Bytes(_, _, _) =>
      end := WriteLength(b, at, |x.bytes|);
      end := WriteAfter(b, at, end, x.bytes);
    case Message(_, _, _) =>
      end, next := WriteMessage(f, x, b, at, lc, pos);
  }

  method WriteMessage(f: Field, x: Value, b: array<byte>, at: nat, lc: array<nat>, pos: nat)
    returns (end: nat, next: nat)
    requires f.Message? && WellFormed(f) && Fits(f, x) && |Payload(f, x)| < LENGTH_LIMIT
    requires at + |Payload(f, x)| <= b.Length
    requires pos + |CacheOfContent(f, x)| <= lc.Length && lc[pos..pos + |CacheOfContent(f, x)|] == CacheOfContent(f, x)
    modifies b
    ensures end == at + |Payload(f, x)| && next == pos + |CacheOfContent(f, x)|
    ensures b[at..end] == Payload(f, x)
    ensures b[..at] == old(b[..at]) && b[end..] == old(b[end..])
    decreases f, 0
  {
    var fields := f.fields;
    var len;
    len, next := MessageLength(f, x, lc, pos);
    var mid := WriteLength(b, at, len);
    ghost var before := b[..];
    end, next := WriteFields(fields, x.slots, b, mid, lc, next);
    Join(before, b[..], at, mid, end, FieldsBytes(fields, x.slots, 0));
  }

  // The length of a message body: a constant if the message is static, else taken from the cache.
  method MessageLength(f: Field, x: Value, lc: array<nat>, pos: nat) returns (len: nat, next: nat)
    requires f.Message? && WellFormed(f) && Fits(f, x) && |Payload(f, x)| < LENGTH_LIMIT
    requires pos + |CacheOfContent(f, x)| <= lc.Length && lc[pos..pos + |CacheOfContent(f, x)|] == CacheOfContent(f, x)
    ensures len == |FieldsBytes(f.fields, x.slots, 0)|
    ensures next + |CacheOfFields(f.fields, x.slots, 0)| == pos + |CacheOfContent(f, x)|
    ensures lc[next..next + |CacheOfFields(f.fields, x.slots, 0)|] == CacheOfFields(f.fields, x.slots, 0)
  {
    if IsStatic(f) {
      StaticFieldsAreExact(f.fields, x.slots, 0);
      StaticFieldsHaveNoCache(f.fields, x.slots, 0);
      len, next := StaticFields(f.fields, 0), pos;
    } else {
      SplitCache(lc[..], pos, [|FieldsBytes(f.fields, x.slots, 0)|], CacheOfFields(f.fields, x.slots, 0));
      assert lc[pos] == lc[pos..pos + 1][0];
      len, next := lc[pos], pos + 1;
    }
  }

  lemma StaticHasNoCache(f: Field, v: Value)
    requires WellFormed(f) && Conforms(f, v) && IsStatic(f)
    ensures CacheOfField(f, v) == []
  {
  }

  lemma {:induction false} StaticFieldsHaveNoCache(fs: seq<Field>, vs: seq<Value>, k: nat)
    requires AllConform(fs, vs) && k <= |fs| && forall i | 0 <= i < |fs| :: IsStatic(fs[i])
    ensures CacheOfFields(fs, vs, k) == []
    decreases |fs| - k
  {
    if k < |fs| {
      StaticHasNoCache(fs[k], vs[k]);
      StaticFieldsHaveNoCache(fs, vs, k + 1);
    }
  }

  method WriteBytes(b: array<byte>, at: nat, s: seq<byte>) returns (end: nat)
    requires at + |s| <= b.Length
    modifies b
    ensures end == at + |s| && b[at..end] == s
    ensures b[..at] == old(b[..at]) && b[end..] == old(b[end..])
  {
    end := at + |s|;
    forall i | 0 <= i < |s| {
      b[at + i] := s[i];
    }
  }

  // Writes s behind what at..mid already holds.
  method WriteAfter(b: array<byte>, at: nat, mid: nat, s: seq<byte>) returns (end: nat)
    requires at <= mid && mid + |s| <= b.Length
    modifies b
    ensures end == mid + |s| && b[at..end] == old(b[at..mid]) + s
    ensures b[..at] == old(b[..at]) && b[end..] == old(b[end..])
  {
    end := WriteBytes(b, mid, s);
    Join(old(b[..]), b[..], at, mid, end, s);
  }

  method WriteLength(b: array<byte>, at: nat, len: nat) returns (end: nat)
    requires len < LENGTH_LIMIT && at + |Encode(len)| <= b.Length
    modifies b
    ensures end == at + |Encode(len)| && b[at..end] == Encode(len)
    ensures b[..at] == old(b[..at]) && b[end..] == old(b[end..])
  {
    DivModUnique(len, LENGTH_LIMIT, 0, len);
    end := AppendVarint(b, at, UINT32, len);
  }

  // A tag and then content.
  method WriteTagged(f: Field, tag: Tag, x: Value, b: array<byte>, at: nat, lc: array<nat>, pos: nat)
    returns (end: nat, next: nat)
    requires IsContent(f) && WellFormed(f) && Fits(f, x) && |Payload(f, x)| < LENGTH_LIMIT
    requires at + |Encode(tag)| + |Payload(f, x)| <= b.Length
    requires pos + |CacheOfContent(f, x)| <= lc.Length && lc[pos..pos + |CacheOfContent(f, x)|] == CacheOfContent(f, x)
    modifies b
    ensures end == at + |Encode(tag)| + |Payload(f, x)| && next == pos + |CacheOfContent(f, x)|
    ensures b[at..end] == Encode(tag) + Payload(f, x)
    ensures b[..at] == old(b[..at]) && b[end..] == old(b[end..])
    decreases f, 2, 0
  {
    var mid := WriteLength(b, at, tag);
    ghost var before := b[..];
    end, next := WriteContent(f, x, b, mid, lc, pos);
    Join(before, b[..], at, mid, end, Payload(f, x));
  }

  method WriteFields(fs: seq<Field>, vs: seq<Value>, b: array<byte>, at: nat, lc: array<nat>, pos: nat)
    returns (end: nat, next: nat)
    requires AllConform(fs, vs) && |FieldsBytes(fs, vs, 0)| < LENGTH_LIMIT
    requires at + |FieldsBytes(fs, vs, 0)| <= b.Length
    requires pos + |CacheOfFields(fs, vs, 0)| <= lc.Length
    requires lc[pos..pos + |CacheOfFields(fs, vs, 0)|] == CacheOfFields(fs, vs, 0)
    modifies b
    ensures end == at + |FieldsBytes(fs, vs, 0)| && next == pos + |CacheOfFields(fs, vs, 0)|
    ensures b[at..end] == FieldsBytes(fs, vs, 0)
    ensures b[..at] == old(b[..at]) && b[end..] == old(b[end..])
    decreases fs, 1
  {
    end, next := at, pos;
    for k := 0 to |fs|
      invariant at <= end && end + |FieldsBytes(fs, vs, k)| == at + |FieldsBytes(fs, vs, 0)|
      invariant b[at..end] + FieldsBytes(fs, vs, k) == FieldsBytes(fs, vs, 0)
      invariant b[..at] == old(b[..at]) && b[end..] == old(b[end..])
      invariant next + |CacheOfFields(fs, vs, k)| == pos + |CacheOfFields(fs, vs, 0)|
      invariant lc[next..next + |CacheOfFields(fs, vs, k)|] == CacheOfFields(fs, vs, k)
    {
      ghost var before := b[..];
      var e, n := WriteFieldOf(fs, vs, k, b, end, lc, next);
      Extend(before, b[..], at, end, e, FieldBytes(fs[k], vs[k]), FieldsBytes(fs, vs, k + 1));
      end, next := e, n;
    }
  }

  // The k-th declared field.
  method WriteFieldOf(fs: seq<Field>, vs: seq<Value>, k: nat, b: array<byte>, at: nat, lc: array<nat>, pos: nat)
    returns (end: nat, next: nat)
    requires AllConform(fs, vs) && k < |fs| && |FieldsBytes(fs, vs, k)| < LENGTH_LIMIT
    requires at + |FieldsBytes(fs, vs, k)| <= b.Length
    requires pos + |CacheOfFields(fs, vs, k)| <= lc.Length
    requires lc[pos..pos + |CacheOfFields(fs, vs, k)|] == CacheOfFields(fs, vs, k)
    modifies b
    ensures end == at + |FieldBytes(fs[k], vs[k])| && next == pos + |CacheOfField(fs[k], vs[k])|
    ensures b[at..end] == FieldBytes(fs[k], vs[k])
    ensures b[..at] == old(b[..at]) && b[end..] == old(b[end..])
    ensures lc[next..next + |CacheOfFields(fs, vs, k + 1)|] == CacheOfFields(fs, vs, k + 1)
    decreases fs, 0
  {
    ghost var cache := lc[..];
    SplitCache(cache, pos, CacheOfField(fs[k], vs[k]), CacheOfFields(fs, vs, k + 1));
    end, next := WriteField(fs[k], vs[k], b, at, lc, pos);
    assert lc[..] == cache;
  }

  lemma SplitCache(s: seq<nat>, at: nat, a: seq<nat>, b: seq<nat>)
    requires at + |a + b| <= |s| && s[at..at + |a + b|] == a + b
    ensures s[at..at + |a|] == a && s[at + |a|..at + |a| + |b|] == b
  {
    assert at + |a| + |b| == at + |a + b|;
    Split(s, at, at + |a|, at + |a + b|, a, b);
  }

  lemma Split<T>(s: seq<T>, at: nat, mid: nat, end: nat, a: seq<T>, b: seq<T>)
    requires at <= mid <= end <= |s| && |a| == mid - at && s[at..end] == a + b
    ensures s[at..mid] == a && s[mid..end] == b
  {
    assert s[at..mid] == s[at..end][..mid - at];
    assert s[mid..end] == s[at..end][mid - at..];
  }

  method WriteField(f: Field, v: Value, b: array<byte>, at: nat, lc: array<nat>, pos: nat) returns (end: nat, next: nat)
    requires WellFormed(f) && Conforms(f, v) && |FieldBytes(f, v)| < LENGTH_LIMIT
    requires at + |FieldBytes(f, v)| <= b.Length
    requires pos + |CacheOfField(f, v)| <= lc.Length && lc[pos..pos + |CacheOfField(f, v)|] == CacheOfField(f, v)
    modifies b
    ensures end == at + |FieldBytes(f, v)| && next == pos + |CacheOfField(f, v)|
    ensures b[at..end] == FieldBytes(f, v)
    ensures b[..at] == old(b[..at]) && b[end..] == old(b[end..])
    decreases f, 4
  {
    end, next := at, pos;
    match f
    case Repeated(elem, _) =>
      if IsPacked(elem) {
        end, next := WritePacked(f, v, b, at, lc, pos);
      } else {
        if IsStatic(elem) { StaticRunHasNoCache(elem, v.elems, 0); }
        end, next := WriteRun(elem, v.elems, b, at, lc, pos);
      }
    case Oneof(members) =>
      if v.Member? {
        end, next := WriteTagged(members[v.index], TagOf(members[v.index]), v.value, b, at, lc, pos);
      }
    case _ =>
      if HasVal(f, v) {
        end, next := WriteTagged(f, TagOf(f), ConstVal(f, v), b, at, lc, pos);
      }
  }

  lemma {:induction false} StaticRunHasNoCache(elem: Field, es: seq<Value>, k: nat)
    requires AllFit(elem, es) && IsStatic(elem) && k <= |es|
    ensures CacheOfRun(elem, es, k) == []
    decreases |es| - k
  {
    if k < |es| {
      StaticRunHasNoCache(elem, es, k + 1);
    }
  }

  method WritePacked(f: Field, v: Value, b: array<byte>, at: nat, lc: array<nat>, pos: nat)
    returns (end: nat, next: nat)
    requires f.Repeated? && IsPacked(f.elem) && WellFormed(f) && Conforms(f, v) && |FieldBytes(f, v)| < LENGTH_LIMIT
    requires at + |FieldBytes(f, v)| <= b.Length
    requires pos + |CacheOfField(f, v)| <= lc.Length && lc[pos..pos + |CacheOfField(f, v)|] == CacheOfField(f, v)
    modifies b
    ensures end == at + |FieldBytes(f, v)| && next == pos + |CacheOfField(f, v)|
    ensures b[at..end] == FieldBytes(f, v)
    ensures b[..at] == old(b[..at]) && b[end..] == old(b[end..])
    decreases f, 3
  {
    var elem, es := f.elem, v.elems;
    var len;
    len, next := PackedLength(f, v, lc, pos);
    var mid := WriteHeader(b, at, TagOf(f), len);
    ghost var before := b[..];
    end := WritePackedElems(elem, es, b, mid, lc);
    Join(before, b[..], at, mid, end, PackedBytes(elem, es, 0));
    Assoc(Encode(TagOf(f)), Encode(len), PackedBytes(elem, es, 0));
  }

  // The length of a packed body: computed if its elements are static, else taken from the cache.
  method PackedLength(f: Field, v: Value, lc: array<nat>, pos: nat) returns (len: nat, next: nat)
    requires f.Repeated? && IsPacked(f.elem) && WellFormed(f) && Conforms(f, v) && |FieldBytes(f, v)| < LENGTH_LIMIT
    requires pos + |CacheOfField(f, v)| <= lc.Length && lc[pos..pos + |CacheOfField(f, v)|] == CacheOfField(f, v)
    ensures len == |PackedBytes(f.elem, v.elems, 0)| && next == pos + |CacheOfField(f, v)|
  {
    var elem, es := f.elem, v.elems;
    if IsStatic(elem) {
      PackedIsProduct(elem, es, 0);
      TimesIsProduct(|es|, StaticPayload(elem));
      len, next := |es| * StaticPayload(elem), pos;
    } else {
      assert lc[pos] == lc[pos..pos + 1][0];
      len, next := lc[pos], pos + 1;
    }
  }

  method WriteHeader(b: array<byte>, at: nat, tag: Tag, len: nat) returns (end: nat)
    requires len < LENGTH_LIMIT && at + |Encode(tag)| + |Encode(len)| <= b.Length
    modifies b
    ensures end == at + |Encode(tag)| + |Encode(len)| && b[at..end] == Encode(tag) + Encode(len)
    ensures b[..at] == old(b[..at]) && b[end..] == old(b[end..])
  {
    var mid := WriteLength(b, at, tag);
    ghost var before := b[..];
    end := WriteLength(b, mid, len);
    Join(before, b[..], at, mid, end, Encode(len));
  }

  method WritePackedElems(elem: Field, es: seq<Value>, b: array<byte>, at: nat, lc: array<nat>) returns (end: nat)
    requires AllFit(elem, es) && IsPacked(elem) && |PackedBytes(elem, es, 0)| < LENGTH_LIMIT
    requires at + |PackedBytes(elem, es, 0)| <= b.Length
    modifies b
    ensures end == at + |PackedBytes(elem, es, 0)| && b[at..end] == PackedBytes(elem, es, 0)
    ensures b[..at] == old(b[..at]) && b[end..] == old(b[end..])
    decreases elem, 2
  {
    end := at;
    for k := 0 to |es|
      invariant at <= end && end + |PackedBytes(elem, es, k)| == at + |PackedBytes(elem, es, 0)|
      invariant b[at..end] + PackedBytes(elem, es, k) == PackedBytes(elem, es, 0)
      invariant b[..at] == old(b[..at]) && b[end..] == old(b[end..])
    {
      ghost var before := b[..];
      var e, _ := WriteContent(elem, es[k], b, end, lc, 0);
      PackedUnfolds(elem, es, k);
      Extend(before, b[..], at, end, e, Payload(elem, es[k]), PackedBytes(elem, es, k + 1));
      end := e;
    }
  }

  lemma PackedUnfolds(elem: Field, es: seq<Value>, k: nat)
    requires AllFit(elem, es) && k < |es|
    ensures PackedBytes(elem, es, k) == Payload(elem, es[k]) + PackedBytes(elem, es, k + 1)
    ensures |PackedBytes(elem, es, k)| == |Payload(elem, es[k])| + |PackedBytes(elem, es, k + 1)|
  {
  }

  lemma RunUnfolds(elem: Field, es: seq<Value>, k: nat)
    requires AllFit(elem, es) && k < |es|
    ensures RunBytes(elem, es, k) == Encode(TagOf(elem)) + Payload(elem, es[k]) + RunBytes(elem, es, k + 1)
    ensures |RunBytes(elem, es, k)| == |Encode(TagOf(elem))| + |Payload(elem, es[k])| + |RunBytes(elem, es, k + 1)|
    ensures CacheOfRun(elem, es, k) == CacheOfContent(elem, es[k]) + CacheOfRun(elem, es, k + 1)
  {
  }

  method WriteRun(elem: Field, es: seq<Value>, b: array<byte>, at: nat, lc: array<nat>, pos: nat)
    returns (end: nat, next: nat)
    requires AllFit(elem, es) && |RunBytes(elem, es, 0)| < LENGTH_LIMIT
    requires at + |RunBytes(elem, es, 0)| <= b.Length
    requires pos + |CacheOfRun(elem, es, 0)| <= lc.Length
    requires lc[pos..pos + |CacheOfRun(elem, es, 0)|] == CacheOfRun(elem, es, 0)
    modifies b
    ensures end == at + |RunBytes(elem, es, 0)| && next == pos + |CacheOfRun(elem, es, 0)|
    ensures b[at..end] == RunBytes(elem, es, 0)
    ensures b[..at] == old(b[..at]) && b[end..] == old(b[end..])
    decreases elem, 4
  {
    end, next := at, pos;
    ghost var before, bytes, cache := b[..], RunBytes(elem, es, 0), CacheOfRun(elem, es, 0);
    for k := 0 to |es|
      invariant Underway(before, b[..], at, end, bytes, RunBytes(elem, es, k))
      invariant Pending(lc[..], next, CacheOfRun(elem, es, k)) && next + |CacheOfRun(elem, es, k)| == pos + |cache|
    {
      end, next := WriteNext(elem, es, k, b, before, bytes, at, end, lc, next);
    }
  }

  // Of the bytes to be put at position at all but rest are there; nothing else of the buffer has changed.
  ghost predicate Underway(before: seq<byte>, now: seq<byte>, at: nat, end: nat, bytes: seq<byte>, rest: seq<byte>) {
    var ok :=
      && |now| == |before| && at <= end && end + |rest| == at + |bytes| <= |now|
      && now[at..end] + rest == bytes && now[..at] == before[..at] && now[end..] == before[end..];
    ok
  }

  // What the cache still holds from position next on.
  ghost predicate Pending(lc: seq<nat>, next: nat, cache: seq<nat>) {
    var ok := next + |cache| <= |lc| && lc[next..next + |cache|] == cache;
    ok
  }

  // The k-th element of a run that began at position start.
  method WriteNext(elem: Field, es: seq<Value>, k: nat, b: array<byte>, ghost before: seq<byte>, ghost bytes: seq<byte>,
                   ghost start: nat, at: nat, lc: array<nat>, pos: nat)
    returns (end: nat, next: nat)
    requires AllFit(elem, es) && k < |es| && |bytes| < LENGTH_LIMIT
    requires Underway(before, b[..], start, at, bytes, RunBytes(elem, es, k))
    requires Pending(lc[..], pos, CacheOfRun(elem, es, k))
    modifies b
    ensures Underway(before, b[..], start, end, bytes, RunBytes(elem, es, k + 1))
    ensures Pending(lc[..], next, CacheOfRun(elem, es, k + 1))
    ensures next + |CacheOfRun(elem, es, k + 1)| == pos + |CacheOfRun(elem, es, k)|
    decreases elem, 3
  {
    ghost var now := b[..];
    end, next := WriteElement(elem, es, k, b, at, lc, pos);
    RunUnfolds(elem, es, k);
    StaysUnderway(before, now, b[..], start, at, end, bytes,
                  Encode(TagOf(elem)) + Payload(elem, es[k]), RunBytes(elem, es, k + 1));
  }

  lemma StaysUnderway(before: seq<byte>, now: seq<byte>, after: seq<byte>, at: nat, mid: nat, end: nat,
                      bytes: seq<byte>, part: seq<byte>, rest: seq<byte>)
    requires Underway(before, now, at, mid, bytes, part + rest) && |after| == |now|
    requires end == mid + |part| <= |after| && after[mid..end] == part
    requires after[..mid] == now[..mid] && after[end..] == now[end..]
    ensures Underway(before, after, at, end, bytes, rest)
  {
    Extend(now, after, at, mid, end, part, rest);
    assert now[end..] == now[mid..][end - mid..] == before[mid..][end - mid..] == before[end..];
  }

  method WriteElement(elem: Field, es: seq<Value>, k: nat, b: array<byte>, at: nat, lc: array<nat>, pos: nat)
    returns (end: nat, next: nat)
    requires AllFit(elem, es) && k < |es| && |RunBytes(elem, es, k)| < LENGTH_LIMIT
    requires at + |RunBytes(elem, es, k)| <= b.Length && Pending(lc[..], pos, CacheOfRun(elem, es, k))
    modifies b
    ensures end == at + |Encode(TagOf(elem)) + Payload(elem, es[k])| && next == pos + |CacheOfContent(elem, es[k])|
    ensures b[at..end] == Encode(TagOf(elem)) + Payload(elem, es[k])
    ensures b[..at] == old(b[..at]) && b[end..] == old(b[end..])
    ensures Pending(lc[..], next, CacheOfRun(elem, es, k + 1))
    decreases elem, 2, 1
  {
    RunUnfolds(elem, es, k);
    SplitCache(lc[..], pos, CacheOfContent(elem, es[k]), CacheOfRun(elem, es, k + 1));
    end, next := WriteTagged(elem, TagOf(elem), es[k], b, at, lc, pos);
  }

  /* ----- both passes together ----- */

  // Counts the cache slots, sizes into a cache of that size, writes into a buffer of that size.
  method Write(f: Field, form: Form, v: Value) returns (b: array<byte>)
    requires WellFormed(f) && Conforms(f, v) && FormFits(f, form) && |BytesOf(f, form, v)| < LENGTH_LIMIT
    ensures fresh(b) && b[..] == BytesOf(f, form, v)
    ensures form == WithTag ==>
              (b.Length == 0 <==> if f.Repeated? then !IsPacked(f.elem) && v.elems == [] else IsAbsentValue(f, v))
  {
    var count;
    match form {
      case WithTag =>
        CountIsExact(f, v);
        count := CountField(f, v);
      case LengthPrefixed =>
        CountContentIsExact(f, v);
        count := CountContent(f, v);
      case Bare =>
        CountFieldsIsExact(f.fields, v.slots, 0);
        count := CountFields(f.fields, v.slots, 0);
    }
    b := DoWrite(f, form, v, count);
    if form == WithTag {
      NothingWritten(f, v);
      assert b[..] == [] <==> b.Length == 0;
    }
  }

  ghost function CacheOf(f: Field, form: Form, v: Value): seq<nat>
    requires WellFormed(f) && Conforms(f, v) && FormFits(f, form)
  {
    match form
    case WithTag => CacheOfField(f, v)
    case LengthPrefixed => CacheOfContent(f, v)
    case Bare => assert Fits(f, v); CacheOfFields(f.fields, v.slots, 0)
  }

  method DoWrite(f: Field, form: Form, v: Value, count: nat) returns (b: array<byte>)
    requires WellFormed(f) && Conforms(f, v) && FormFits(f, form) && |BytesOf(f, form, v)| < LENGTH_LIMIT
    requires count == |CacheOf(f, form, v)|
    ensures fresh(b) && b[..] == BytesOf(f, form, v)
  {
    var lc := new nat[count];
    var size, filled;
    match form {
      case WithTag => size, filled := SizeField(f, v, lc, 0);
      case LengthPrefixed => size, filled := SizeContent(f, v, lc, 0);
      case Bare => size, filled := SizeFields(f.fields, v.slots, lc, 0);
    }
    assert filled == count;
    b := new byte[size];
    var end, consumed;
    match form {
      case WithTag => end, consumed := WriteField(f, v, b, 0, lc, 0);
      case LengthPrefixed => end, consumed := WriteContent(f, v, b, 0, lc, 0);
      case Bare => end, consumed := WriteFields(f.fields, v.slots, b, 0, lc, 0);
    }
    assert end == b.Length && consumed == count;
    assert b[..] == b[0..end];
  }
}
