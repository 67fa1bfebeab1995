/** Maps: of several entries with one key the last one on the wire stays. */
module PbMaps {
  import opened Varint
  import opened PbErrors
  import opened PbTags
  import opened PbSchema
  import opened PbEncoding
  import opened PbDecoding
  import opened PbRoundTrip

  // The i-th entry, with no other of its key after it.
  predicate IsLastOfKey(es: seq<Value>, i: nat) {
    i < |es| && forall j | i < j < |es| :: KeyOf(es[j]) != KeyOf(es[i])
  }

  ghost predicate IsKept(es: seq<Value>, k: nat, e: Value) {
    exists i :: k <= i && IsLastOfKey(es, i) && es[i] == e
  }

  lemma InsertReplaces(acc: seq<Value>, x: Value)
    requires DistinctKeys(acc)
    ensures DistinctKeys(Insert(true, acc, x))
    ensures forall e :: e in Insert(true, acc, x) <==> e == x || (e in acc && KeyOf(e) != KeyOf(x))
  {
    var r, i := Insert(true, acc, x), IndexOfKey(acc, KeyOf(x), 0);
    if i < |acc| {
      assert r[i] == x;
      forall j | 0 <= j < |acc| && j != i ensures KeyOf(acc[j]) != KeyOf(x) && acc[j] in r {
        assert KeyOf(acc[if j < i then j else i]) != KeyOf(acc[if j < i then i else j]);
        assert r[j] == acc[j];
      }
    }
  }

  lemma {:induction false} CollectedKeepsLast(acc: seq<Value>, es: seq<Value>, k: nat)
    requires k <= |es| && DistinctKeys(acc)
    ensures var r := Collected(true, acc, es, k);
            && DistinctKeys(r)
            && forall e :: e in r <==>
                 IsKept(es, k, e) || (e in acc && forall i | k <= i < |es| :: KeyOf(es[i]) != KeyOf(e))
    decreases |es| - k
  {
    if k < |es| {
      InsertReplaces(acc, es[k]);
      CollectedKeepsLast(Insert(true, acc, es[k]), es, k + 1);
      forall e ensures IsKept(es, k, e) <==>
                         IsKept(es, k + 1, e) || (e == es[k] && forall i | k < i < |es| :: KeyOf(es[i]) != KeyOf(e))
      {
        if e == es[k] && forall i | k < i < |es| :: KeyOf(es[i]) != KeyOf(e) {
          assert IsLastOfKey(es, k);
        }
      }
    }
  }

  lemma RunIsCollected(elem: Field, associative: bool, es: seq<Value>, rest: seq<byte>)
    requires AllFit(elem, es) && es != [] && ExamTag(TagOf(elem), rest).Err?
    requires |Payload(elem, es[0]) + RunBytes(elem, es, 1)| < LENGTH_LIMIT
    ensures var s := Payload(elem, es[0]) + RunBytes(elem, es, 1);
            ReadRun(elem, associative, [], s + rest) == Done(Many(Collected(associative, [], es, 0)), |s|)
  {
    RunRoundTrip(elem, associative, [], es, 0, rest);
    Assoc(Payload(elem, es[0]), RunBytes(elem, es, 1), rest);
  }

  lemma MapReadsRun(f: Field, prior: Value, s: seq<byte>)
    requires f.Repeated? && f.target.Associative? && WellFormed(f)
    ensures ReadEntry(f, 0, prior, s) == ReadRun(f.elem, true, [], s)
  {
  }

  // Reading entries, repeated keys or not, yields a map of the last entry of each key.
  lemma MapKeepsLast(f: Field, es: seq<Value>, prior: Value, rest: seq<byte>) returns (r: seq<Value>)
    requires f.Repeated? && f.target.Associative? && WellFormed(f) && AllFit(f.elem, es) && es != []
    requires |Payload(f.elem, es[0]) + RunBytes(f.elem, es, 1)| < LENGTH_LIMIT && ExamTag(TagOf(f.elem), rest).Err?
    ensures var s := Payload(f.elem, es[0]) + RunBytes(f.elem, es, 1);
            ReadEntry(f, 0, prior, s + rest) == Done(Many(r), |s|)
    ensures DistinctKeys(r) && forall e :: e in r <==> IsKept(es, 0, e)
  {
    r := Collected(true, [], es, 0);
    var s := Payload(f.elem, es[0]) + RunBytes(f.elem, es, 1);
    CollectedKeepsLast([], es, 0);
    RunIsCollected(f.elem, true, es, rest);
    MapReadsRun(f, prior, s + rest);
  }
}
