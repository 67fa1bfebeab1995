/** Packed fields whose memory has the wire's layout are copied; copying does what the loop over the elements does. */
module PbCopying {
  import opened Arith
  import opened PbErrors
  import opened Varint
  import opened PbSchema
  import opened PbEncoding
  import opened PbDecoding

  // The bytes of a contiguous buffer of fixed-size elements on a little-endian machine.
  function MemoryImage(ty: IntType, ns: seq<int>): (s: seq<byte>)
    ensures |s| == |ns| * FixedBytes(ty)
  {
    seq(|ns| * FixedBytes(ty), p requires 0 <= p < |ns| * FixedBytes(ty) =>
      (Locate(p, |ns|, FixedBytes(ty)); StoreFixed(ty, ns[p / FixedBytes(ty)])[p % FixedBytes(ty)]))
  }

  lemma Locate(p: nat, n: nat, size: nat)
    requires size > 0 && p < n * size
    ensures p / size < n && p % size < size
  {
    assert p == p / size * size + p % size;
    if p / size >= n {
      MulMonotone(n, p / size, size);
    }
  }

  function Numbers(es: seq<Value>): (ns: seq<int>)
    ensures |ns| == |es|
  {
    seq(|es|, i requires 0 <= i < |es| => if es[i].Num? then es[i].n else 0)
  }

  // Copying the buffer writes the same bytes as writing the elements one by one.
  lemma CopyIsElementwise(elem: Field, es: seq<Value>)
    requires AllFit(elem, es) && elem.Fixed?
    ensures MemoryImage(elem.ty, Numbers(es)) == PackedBytes(elem, es, 0)
  {
    var size := FixedBytes(elem.ty);
    PackedIsImage(elem, es, 0);
    assert MemoryImage(elem.ty, Numbers(es)) == MemoryImage(elem.ty, Numbers(es))[0 * size..];
  }

  lemma {:induction false} PackedIsImage(elem: Field, es: seq<Value>, k: nat)
    requires AllFit(elem, es) && elem.Fixed? && k <= |es|
    ensures k * FixedBytes(elem.ty) <= |MemoryImage(elem.ty, Numbers(es))|
    ensures MemoryImage(elem.ty, Numbers(es))[k * FixedBytes(elem.ty)..] == PackedBytes(elem, es, k)
    decreases |es| - k
  {
    var size, image := FixedBytes(elem.ty), MemoryImage(elem.ty, Numbers(es));
    MulMonotone(k, |es|, size);
    if k < |es| {
      MulMonotone(k + 1, |es|, size);
      PackedIsImage(elem, es, k + 1);
      assert (k + 1) * size == k * size + size;
      ImageElement(elem, es, k);
      assert image[k * size..] == image[k * size..(k + 1) * size] + image[(k + 1) * size..];
    }
  }

  lemma ImageElement(elem: Field, es: seq<Value>, k: nat)
    requires AllFit(elem, es) && elem.Fixed? && k < |es|
    requires (k + 1) * FixedBytes(elem.ty) <= |MemoryImage(elem.ty, Numbers(es))|
    ensures MemoryImage(elem.ty, Numbers(es))[k * FixedBytes(elem.ty)..(k + 1) * FixedBytes(elem.ty)]
          == Payload(elem, es[k])
  {
    var size, image := FixedBytes(elem.ty), MemoryImage(elem.ty, Numbers(es));
    var part := image[k * size..(k + 1) * size];
    assert |part| == size;
    forall j | 0 <= j < size ensures part[j] == StoreFixed(elem.ty, es[k].n)[j] {
      DivModUnique(k * size + j, size, k, j);
    }
  }

  // A bool takes one byte in memory as well, 0 or 1.
  lemma {:induction false} CopyOfBools(elem: Field, es: seq<Value>, k: nat)
    requires AllFit(elem, es) && elem.Scalar? && elem.ty == Bool && k <= |es|
    ensures PackedBytes(elem, es, k) == seq(|es| - k, i requires 0 <= i < |es| - k => es[k + i].n as byte)
    decreases |es| - k
  {
    if k < |es| {
      CopyOfBools(elem, es, k + 1);
      assert Payload(elem, es[k]) == [es[k].n];
    }
  }

  /* ----- reading ----- */

  lemma {:induction false} LittleEndianOnto(s: seq<byte>)
    ensures LittleEndian(FromLittleEndian(s), |s|) == s
  {
    if s != [] {
      var y := FromLittleEndian(s[1..]);
      LittleEndianOnto(s[1..]);
      DivModUnique(s[0] + 0x100 * y, 0x100, y, s[0]);
      assert s == [s[0]] + s[1..];
    }
  }

  lemma {:induction false} LittleEndianBound(s: seq<byte>)
    ensures FromLittleEndian(s) < Pow256(|s|)
  {
    if s != [] {
      LittleEndianBound(s[1..]);
    }
  }

  // Storing inverts loading, too.
  lemma StoreLoad(ty: IntType, s: seq<byte>)
    requires IsFixedType(ty) && |s| == FixedBytes(ty)
    ensures StoreFixed(ty, LoadFixed(ty, s)) == s && InRange(ty, LoadFixed(ty, s))
  {
    var u, m := FromLittleEndian(s), Mod(ty.width);
    LittleEndianOnto(s);
    LittleEndianBound(s);
    Pow256Values();
    DivModUnique(u, m, 0, u);
    if ty.signed && u >= m / 2 {
      var n: int := u as int - m;
      DivModUnique(n, m, -1, u);
    }
  }

  lemma {:induction false} PackedShift(elem: Field, x: Value, es: seq<Value>, k: nat)
    requires AllFit(elem, es) && AllFit(elem, [x] + es) && k <= |es|
    ensures PackedBytes(elem, [x] + es, k + 1) == PackedBytes(elem, es, k)
    decreases |es| - k
  {
    if k < |es| {
      assert ([x] + es)[k + 1] == es[k];
      PackedShift(elem, x, es, k + 1);
    }
  }

  predicate AreBits(s: seq<byte>) {
    forall i | 0 <= i < |s| :: s[i] <= 1
  }

  // Whole elements of known size are always read, and encode to the bytes read: for bools only if these are 0 or 1.
  lemma {:induction false} ReadWholeElements(elem: Field, count: nat, acc: seq<Value>, s: seq<byte>)
    returns (es: seq<Value>)
    requires IsContent(elem) && WellFormed(elem) && IsStaticElem(elem) && |s| == count * StaticElemSize(elem)
    ensures AllFit(elem, es) && |es| == count && ReadCount(elem, count, acc, s) == Success(acc + es)
    ensures elem.Fixed? ==> PackedBytes(elem, es, 0) == s
    ensures elem.Scalar? ==> (PackedBytes(elem, es, 0) == s <==> AreBits(s)) && |PackedBytes(elem, es, 0)| == |s|
    decreases count
  {
    if count == 0 {
      es := [];
      assert acc + [] == acc;
    } else {
      var size := StaticElemSize(elem);
      assert count * size == size + (count - 1) * size;
      FirstElement(elem, s);
      var x := ReadContent(elem, Blank, s).value;
      var more := ReadWholeElements(elem, count - 1, acc + [x], s[size..]);
      es := [x] + more;
      assert acc + [x] + more == acc + es;
      FitFirst(elem, x, more);
      PackedFirst(elem, x, more);
      BytesFirst(Payload(elem, x), PackedBytes(elem, more, 0), s, size);
    }
  }

  lemma FitFirst(elem: Field, x: Value, es: seq<Value>)
    requires AllFit(elem, es) && Fits(elem, x)
    ensures AllFit(elem, [x] + es)
  {
    assert forall i | 0 < i < |[x] + es| :: ([x] + es)[i] == es[i - 1];
  }

  lemma PackedFirst(elem: Field, x: Value, es: seq<Value>)
    requires AllFit(elem, es) && AllFit(elem, [x] + es) && Fits(elem, x)
    ensures PackedBytes(elem, [x] + es, 0) == Payload(elem, x) + PackedBytes(elem, es, 0)
  {
    PackedShift(elem, x, es, 0);
    assert ([x] + es)[0] == x;
  }

  lemma BytesFirst(a: seq<byte>, b: seq<byte>, s: seq<byte>, n: nat)
    requires |a| == n <= |s|
    ensures a + b == s <==> a == s[..n] && b == s[n..]
    ensures AreBits(s) <==> AreBits(s[..n]) && AreBits(s[n..])
  {
    assert s == s[..n] + s[n..];
    assert (a + b)[..n] == a && (a + b)[n..] == b;
    assert forall i | n <= i < |s| :: s[i] == s[n..][i - n];
  }

  lemma FirstElement(elem: Field, s: seq<byte>)
    requires IsContent(elem) && WellFormed(elem) && IsStaticElem(elem) && |s| >= StaticElemSize(elem)
    ensures var r := ReadContent(elem, Blank, s);
            && r.Ok? && r.used == StaticElemSize(elem) && Fits(elem, r.value)
            && |Payload(elem, r.value)| == r.used
            && (elem.Fixed? ==> Payload(elem, r.value) == s[..r.used])
            && (elem.Scalar? ==> (Payload(elem, r.value) == s[..r.used] <==> AreBits(s[..r.used])))
  {
    if elem.Fixed? {
      StoreLoad(elem.ty, s[..FixedBytes(elem.ty)]);
    }
  }

  // The elements the loop reads are those whose memory is the bytes copied: always for fixed-size numbers ...
  lemma CopyReadsAsElements(elem: Field, body: seq<byte>)
    requires IsContent(elem) && WellFormed(elem) && elem.Fixed? && |body| % FixedBytes(elem.ty) == 0
    ensures var r := ReadPackedBody(elem, Growing, body);
            r.Success? && AllFit(elem, r.value) && MemoryImage(elem.ty, Numbers(r.value)) == body
  {
    var size := FixedBytes(elem.ty);
    WholeCount(|body|, size);
    var es := ReadWholeElements(elem, |body| / size, [], body);
    CopyIsElementwise(elem, es);
    assert [] + es == es;
  }

  lemma WholeCount(len: nat, size: nat)
    requires (size == 4 || size == 8) && len % size == 0
    ensures len == len / size * size
  {
  }

  // ... and for bools exactly if every byte on the wire is 0 or 1: any other is read as 1, but copied as it is.
  lemma CopyReadsAsBools(elem: Field, body: seq<byte>)
    requires IsContent(elem) && WellFormed(elem) && elem.Scalar? && elem.ty == Bool
    ensures var r := ReadPackedBody(elem, Growing, body);
            r.Success? && AllFit(elem, r.value) && (PackedBytes(elem, r.value, 0) == body <==> AreBits(body))
  {
    var es := ReadWholeElements(elem, |body|, [], body);
    assert [] + es == es;
  }
}
