/** Packed fields: a body is read exactly if it is elements and nothing else, and as many as there should be. */
module PbPacked {
  import opened Arith
  import opened PbErrors
  import opened Varint
  import opened PbSchema
  import opened PbEncoding
  import opened PbDecoding

  // A body is the elements one after the other, and nothing else.
  ghost predicate SplitsInto(elem: Field, s: seq<byte>, es: seq<Value>)
    requires IsContent(elem) && WellFormed(elem)
    decreases |es|
  {
    if es == [] then s == []
    else
      var r := ReadContent(elem, Blank, s);
      r.Ok? && r.value == es[0] && SplitsInto(elem, s[r.used..], es[1..])
  }

  lemma {:induction false} ReadAllExactly(elem: Field, acc: seq<Value>, s: seq<byte>, es: seq<Value>)
    requires IsContent(elem) && WellFormed(elem)
    ensures ReadAll(elem, acc, s) == Success(acc + es) <==> SplitsInto(elem, s, es)
    decreases |s|
  {
    var r := ReadContent(elem, Blank, s);
    if s == [] {
      assert acc + es == acc <==> es == [];
    } else if r.Ok? {
      var rest := s[r.used..];
      if es != [] && es[0] == r.value {
        ReadAllExactly(elem, acc + [r.value], rest, es[1..]);
        assert acc + [r.value] + es[1..] == acc + es;
      } else {
        ReadAllGrows(elem, acc + [r.value], rest);
        NoPrefix(acc, r.value, es);
      }
    }
  }

  lemma NoPrefix(acc: seq<Value>, x: Value, es: seq<Value>)
    requires es != [] ==> es[0] != x
    ensures !(acc + [x] <= acc + es)
  {
    assert (acc + [x])[|acc|] == x;
    assert es != [] ==> (acc + es)[|acc|] == es[0];
  }

  // What has been read before stays in front.
  lemma {:induction false} ReadAllGrows(elem: Field, acc: seq<Value>, s: seq<byte>)
    requires IsContent(elem) && WellFormed(elem)
    ensures var r := ReadAll(elem, acc, s); r.Success? ==> acc <= r.value
    decreases |s|
  {
    if s != [] {
      var r := ReadContent(elem, Blank, s);
      if r.Ok? {
        ReadAllGrows(elem, acc + [r.value], s[r.used..]);
      }
    }
  }

  lemma {:induction false} ReadCountExactly(elem: Field, count: nat, acc: seq<Value>, s: seq<byte>, es: seq<Value>)
    requires IsContent(elem) && WellFormed(elem)
    ensures ReadCount(elem, count, acc, s) == Success(acc + es) <==> SplitsInto(elem, s, es) && |es| == count
    decreases count
  {
    var r := ReadContent(elem, Blank, s);
    if count == 0 {
      assert acc + es == acc <==> es == [];
    } else if r.Ok? {
      var rest := s[r.used..];
      if es != [] && es[0] == r.value {
        ReadCountExactly(elem, count - 1, acc + [r.value], rest, es[1..]);
        assert acc + [r.value] + es[1..] == acc + es;
      } else {
        CountDiffers(elem, count, acc, s, es);
      }
    }
  }

  // Another first element.
  lemma CountDiffers(elem: Field, count: nat, acc: seq<Value>, s: seq<byte>, es: seq<Value>)
    requires IsContent(elem) && WellFormed(elem) && count > 0
    requires var r := ReadContent(elem, Blank, s); r.Ok? && !(es != [] && es[0] == r.value)
    ensures ReadCount(elem, count, acc, s) != Success(acc + es)
    ensures !(SplitsInto(elem, s, es) && |es| == count)
  {
    var r := ReadContent(elem, Blank, s);
    ReadCountGrows(elem, count - 1, acc + [r.value], s[r.used..]);
    NoPrefix(acc, r.value, es);
  }

  lemma {:induction false} ReadCountGrows(elem: Field, count: nat, acc: seq<Value>, s: seq<byte>)
    requires IsContent(elem) && WellFormed(elem)
    ensures var r := ReadCount(elem, count, acc, s); r.Success? ==> acc <= r.value
    decreases count
  {
    if count > 0 {
      var r := ReadContent(elem, Blank, s);
      if r.Ok? {
        ReadCountGrows(elem, count - 1, acc + [r.value], s[r.used..]);
      }
    }
  }

  lemma {:induction false} StaticSplits(elem: Field, s: seq<byte>, es: seq<Value>)
    requires IsContent(elem) && WellFormed(elem) && IsStaticElem(elem) && SplitsInto(elem, s, es)
    ensures |s| == |es| * StaticElemSize(elem)
    decreases |es|
  {
    if es != [] {
      var size := StaticElemSize(elem);
      StaticSplits(elem, s[size..], es[1..]);
      assert |es| * size == size + (|es| - 1) * size;
    }
  }

  lemma WholeMeansCount(elem: Field, len: nat, n: nat)
    requires elem.Fixed? || StaticElemSize(elem) == 1
    requires len == n * StaticElemSize(elem)
    ensures IsWhole(elem, len) && CountIn(elem, len) == n
  {
  }

  // A packed body is read as a list of elements exactly if it splits into them without rest; a range of fixed
  // length wants its own number of them.
  lemma PackedExactly(elem: Field, target: Target, body: seq<byte>, es: seq<Value>)
    requires IsContent(elem) && WellFormed(elem) && IsPacked(elem)
    ensures ReadPackedBody(elem, target, body) == Success(es)
       <==> SplitsInto(elem, body, es) && (target.FixedCount? ==> |es| == target.count)
  {
    var count := if IsStaticElem(elem) then CountIn(elem, |body|) else if target.FixedCount? then target.count else 0;
    ReadCountExactly(elem, count, [], body, es);
    ReadAllExactly(elem, [], body, es);
    assert [] + es == es;
    if IsStaticElem(elem) && SplitsInto(elem, body, es) {
      StaticSplits(elem, body, es);
      WholeMeansCount(elem, |body|, |es|);
    }
  }
}
