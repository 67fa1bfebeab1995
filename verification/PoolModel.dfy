/** The resource pool's operations as functions on its fields; every one runs under the pool's mutex. */
module PoolModel {
  import opened Wrappers
  import opened Sequences

  type Res = nat   // a resource; in counter mode, the count at which it was handed out
  type Slot = nat  // the address of a queue element; addresses are reused
  type Who = nat   // an awaiter

  datatype Id = Id(seqNo: nat, slot: Slot)

  // An awaiter in the queue, with the id it was given.
  datatype Waiter = Waiter(who: Who, id: Id)

  // A queue element; its pointer is null once its awaiter has been removed.
  datatype Entry = Entry(slot: Slot, live: Option<Waiter>)

  // hasRes is false for the counter mode, which keeps only size; inuse and unused serve the other mode.
  datatype Pool = Pool(
    hasRes: bool, cap: nat, size: nat, inuse: seq<Res>, unused: seq<Res>,
    queue: seq<Entry>, ids: set<Id>, idSeq: nat)

  function InUse(p: Pool): nat {
    if p.hasRes then |p.inuse| else p.size
  }

  function Occupied(p: Pool): nat {
    if p.hasRes then |p.unused| + |p.inuse| else p.size
  }

  function Without(s: seq<Res>, r: Res): (t: seq<Res>)
    ensures forall x :: x in t <==> x in s && x != r
    ensures r !in s ==> t == s
  {
    if s == [] then []
    else if s[0] == r then Without(s[1..], r)
    else [s[0]] + Without(s[1..], r)
  }

  lemma {:induction false} WithoutKeeps(s: seq<Res>, r: Res)
    requires NoDuplicates(s)
    ensures NoDuplicates(Without(s, r))
    ensures |Without(s, r)| == |s| - if r in s then 1 else 0
  {
    if s != [] {
      assert forall i | 0 <= i < |s[1..]| :: s[1..][i] == s[i + 1];
      WithoutKeeps(s[1..], r);
      assert s[0] !in s[1..];
    }
  }

  // Takes an unused resource, or creates one (made) while there are fewer than the capacity in use.
  function TryAcquire(p: Pool, made: Res): (Pool, Option<Res>) {
    if p.hasRes then
      if p.unused == [] && |p.inuse| >= p.cap then (p, None)
      else
        var unused := if p.unused == [] then [made] + p.unused else p.unused;
        (p.(inuse := [unused[0]] + p.inuse, unused := unused[1..]), Some(unused[0]))
    else if p.size < p.cap then (p.(size := p.size + 1), Some(p.size + 1))
    else (p, None)
  }

  function AddAwaiter(p: Pool, who: Who, slot: Slot): (Pool, Id) {
    var id := Id(p.idSeq + 1, slot);
    (p.(queue := p.queue + [Entry(slot, Some(Waiter(who, id)))], ids := p.ids + {id}, idSeq := p.idSeq + 1), id)
  }

  // Writes null through the slot address an id carries.
  function Nullify(q: seq<Entry>, slot: Slot): (r: seq<Entry>)
    ensures |r| == |q|
    ensures forall i | 0 <= i < |q| :: r[i] == if q[i].slot == slot then Entry(slot, None) else q[i]
  {
    seq(|q|, i requires 0 <= i < |q| => if q[i].slot == slot then Entry(slot, None) else q[i])
  }

  function RemoveAwaiter(p: Pool, id: Id): (Pool, bool) {
    if id in p.ids then (p.(ids := p.ids - {id}, queue := Nullify(p.queue, id.slot)), true) else (p, false)
  }

  function DropDead(q: seq<Entry>): (r: seq<Entry>)
    ensures |r| <= |q| && r == q[|q| - |r|..]
    ensures r != [] ==> r[0].live.Some?
    ensures forall i | 0 <= i < |q| - |r| :: q[i].live.None?
  {
    if q != [] && q[0].live.None? then DropDead(q[1..]) else q
  }

  // Hands the resource to the first live waiter, if there is one.
  function Recycle(p: Pool, it: Res): (Pool, Option<Waiter>) {
    HandOver(p.(queue := DropDead(p.queue)), it)
  }

  function HandOver(p: Pool, it: Res): (Pool, Option<Waiter>) {
    if p.queue == [] then
      if p.hasRes then (p.(inuse := Without(p.inuse, it), unused := [it] + p.unused), None)
      else (p.(size := if p.size > 0 then p.size - 1 else 0), None)
    else if p.queue[0].live.Some? then
      (p.(queue := p.queue[1..], ids := p.ids - {p.queue[0].live.value.id}), p.queue[0].live)
    else (p, None)
  }

  function Reserve(p: Pool, n: nat): Pool {
    if n > Occupied(p) then p.(cap := n) else p
  }

  function ClearUnused(p: Pool): Pool {
    p.(unused := [])
  }

  // Creates resources up to the capacity; each goes to the front.
  function CreateAll(p: Pool, made: seq<Res>): Pool {
    p.(unused := Prepend(made, p.unused))
  }

  function Prepend(made: seq<Res>, rest: seq<Res>): (r: seq<Res>)
    ensures |r| == |made| + |rest|
    ensures forall x :: x in r <==> x in made || x in rest
  {
    if made == [] then rest else Prepend(made[1..], [made[0]] + rest)
  }

  /* ----- what every operation keeps ----- */

  predicate IsNew(p: Pool, r: Res) {
    r !in p.inuse && r !in p.unused
  }

  predicate HasSlot(q: seq<Entry>, slot: Slot) {
    exists i :: 0 <= i < |q| && q[i].slot == slot
  }

  predicate IsLive(q: seq<Entry>, i: int) {
    0 <= i < |q| && q[i].live.Some?
  }

  function LiveId(q: seq<Entry>, i: int): Id
    requires IsLive(q, i)
  {
    q[i].live.value.id
  }

  ghost predicate Holds(q: seq<Entry>, id: Id) {
    exists i :: IsLive(q, i) && LiveId(q, i) == id
  }

  // Nothing exists beyond the capacity, and nothing twice.
  predicate Listed(p: Pool) {
    && 0 < p.cap && Occupied(p) <= p.cap
    && if p.hasRes then NoDuplicates(p.inuse + p.unused) else p.inuse == [] && p.unused == []
  }

  // The ids in the set are those of the live queue entries, each pointing at its own slot.
  ghost predicate Linked(q: seq<Entry>, ids: set<Id>) {
    && (forall i, j | 0 <= i < j < |q| :: q[i].slot != q[j].slot)
    && (forall i | IsLive(q, i) :: LiveId(q, i).slot == q[i].slot && LiveId(q, i) in ids)
    && (forall id | id in ids :: Holds(q, id))
  }

  // Awaiters queue in the order in which they were given their ids.
  ghost predicate Numbered(q: seq<Entry>, idSeq: nat) {
    && (forall i, j | IsLive(q, i) && IsLive(q, j) && i < j :: LiveId(q, i).seqNo < LiveId(q, j).seqNo)
    && (forall i | IsLive(q, i) :: LiveId(q, i).seqNo <= idSeq)
  }

  ghost predicate Sound(p: Pool) {
    Listed(p) && Linked(p.queue, p.ids) && Numbered(p.queue, p.idSeq)
  }

  // A resource is handed out exactly while fewer than the capacity are in use; it was in nobody's hands.
  lemma AcquireKeeps(p: Pool, made: Res)
    requires Listed(p) && IsNew(p, made)
    ensures var (q, got) := TryAcquire(p, made);
            && Listed(q) && (got.Some? <==> InUse(p) < p.cap)
            && InUse(q) == InUse(p) + (if got.Some? then 1 else 0)
            && (p.hasRes && got.Some? ==> got.value !in p.inuse && q.inuse == [got.value] + p.inuse)
  {
    var unused := if p.unused == [] then [made] else p.unused;
    if p.hasRes && (p.unused != [] || |p.inuse| < p.cap) {
      assert NoDuplicates(p.inuse + unused) by {
        if p.unused == [] {
          assert p.inuse + p.unused == p.inuse;
        }
      }
      MoveToFront(p.inuse, unused);
    }
  }

  lemma MoveToFront(a: seq<Res>, b: seq<Res>)
    requires NoDuplicates(a + b) && b != []
    ensures NoDuplicates([b[0]] + a + b[1..]) && b[0] !in a
  {
    PartsDiffer(a, b);
    assert b == [b[0]] + b[1..];
    PartsDiffer([b[0]], b[1..]);
    JoinDiffers([b[0]], a);
    JoinDiffers([b[0]] + a, b[1..]);
  }

  lemma AppendKeeps(q: seq<Entry>, ids: set<Id>, idSeq: nat, slot: Slot, who: Who)
    requires Linked(q, ids) && Numbered(q, idSeq) && !HasSlot(q, slot)
    ensures var id := Id(idSeq + 1, slot);
            id !in ids && Linked(q + [Entry(slot, Some(Waiter(who, id)))], ids + {id})
            && Numbered(q + [Entry(slot, Some(Waiter(who, id)))], idSeq + 1)
  {
    var id := Id(idSeq + 1, slot);
    var r := q + [Entry(slot, Some(Waiter(who, id)))];
    forall other | other in ids + {id} ensures Holds(r, other) {
      if other in ids {
        var i :| IsLive(q, i) && LiveId(q, i) == other;
        assert IsLive(r, i) && LiveId(r, i) == other;
      } else {
        assert IsLive(r, |q|) && LiveId(r, |q|) == other;
      }
    }
  }

  // Exactly the entry with the id dies.
  lemma NullifyIsExact(q: seq<Entry>, ids: set<Id>, id: Id)
    requires Linked(q, ids) && id in ids
    ensures forall i | 0 <= i < |q| :: q[i].slot == id.slot <==> IsLive(q, i) && LiveId(q, i) == id
  {
    var k :| IsLive(q, k) && LiveId(q, k) == id;
    assert q[k].slot == id.slot;
  }

  lemma NullifyKeeps(q: seq<Entry>, ids: set<Id>, idSeq: nat, id: Id)
    requires Linked(q, ids) && Numbered(q, idSeq) && id in ids
    ensures Linked(Nullify(q, id.slot), ids - {id}) && Numbered(Nullify(q, id.slot), idSeq)
    ensures forall e | e in Nullify(q, id.slot) && e.live.Some? :: e in q && e.live.value.id != id
  {
    var r := Nullify(q, id.slot);
    NullifyIsExact(q, ids, id);
    forall i | IsLive(r, i) ensures IsLive(q, i) && LiveId(q, i) == LiveId(r, i) && LiveId(q, i) != id {
    }
    forall e | e in r && e.live.Some? ensures e in q && e.live.value.id != id {
      var i :| 0 <= i < |r| && r[i] == e;
      assert IsLive(r, i) && q[i] == e;
    }
    forall other | other in ids - {id} ensures Holds(r, other) {
      var i :| IsLive(q, i) && LiveId(q, i) == other;
      assert IsLive(r, i) && LiveId(r, i) == other;
    }
  }

  // Behind the first awaiter come those with greater ids.
  lemma FirstIsLeast(q: seq<Entry>, idSeq: nat)
    requires Numbered(q, idSeq) && IsLive(q, 0)
    ensures forall e | e in q[1..] && e.live.Some? :: LiveId(q, 0).seqNo < e.live.value.id.seqNo
  {
    forall e | e in q[1..] && e.live.Some? ensures LiveId(q, 0).seqNo < e.live.value.id.seqNo {
      var i :| 0 <= i < |q[1..]| && q[1..][i] == e;
      assert IsLive(q, i + 1) && LiveId(q, i + 1) == e.live.value.id;
    }
  }

  // Dropping the first entry, with ids those of the rest.
  lemma DropKeeps(q: seq<Entry>, ids: set<Id>, idSeq: nat, rest: set<Id>)
    requires Linked(q, ids) && Numbered(q, idSeq) && q != []
    requires rest == if q[0].live.Some? then ids - {q[0].live.value.id} else ids
    ensures Linked(q[1..], rest) && Numbered(q[1..], idSeq)
  {
    var r := q[1..];
    assert forall i | 0 <= i < |r| :: r[i] == q[i + 1];
    forall i | IsLive(r, i) ensures IsLive(q, i + 1) && LiveId(r, i) == LiveId(q, i + 1) {
    }
    forall id | id in rest ensures Holds(r, id) {
      var i :| IsLive(q, i) && LiveId(q, i) == id;
      assert IsLive(r, i - 1) && LiveId(r, i - 1) == id;
    }
  }

  lemma {:induction false} DropDeadKeeps(q: seq<Entry>, ids: set<Id>, idSeq: nat)
    requires Linked(q, ids) && Numbered(q, idSeq)
    ensures Linked(DropDead(q), ids) && Numbered(DropDead(q), idSeq)
  {
    if q != [] && q[0].live.None? {
      DropKeeps(q, ids, idSeq, ids);
      DropDeadKeeps(q[1..], ids, idSeq);
    }
  }

  lemma HandOverKeeps(p: Pool, it: Res)
    requires Sound(p) && (p.hasRes ==> it in p.inuse) && (p.queue == [] ==> InUse(p) > 0)
    requires p.queue != [] ==> IsLive(p.queue, 0)
    ensures Sound(HandOver(p, it).0) && InUse(HandOver(p, it).0) == InUse(p) - (if p.queue == [] then 1 else 0)
  {
    if p.queue == [] {
      if p.hasRes {
        MoveBack(p.inuse, it, p.unused);
      }
    } else {
      DropKeeps(p.queue, p.ids, p.idSeq, p.ids - {LiveId(p.queue, 0)});
    }
  }

  lemma PartsDiffer(a: seq<Res>, b: seq<Res>)
    requires NoDuplicates(a + b)
    ensures NoDuplicates(a) && NoDuplicates(b) && forall x | x in a :: x !in b
  {
    forall i, j | 0 <= i < j < |a| ensures a[i] != a[j] {
      assert (a + b)[i] == a[i] && (a + b)[j] == a[j];
    }
    forall i, j | 0 <= i < j < |b| ensures b[i] != b[j] {
      assert (a + b)[|a| + i] == b[i] && (a + b)[|a| + j] == b[j];
    }
    forall i, j | 0 <= i < |a| && 0 <= j < |b| ensures a[i] != b[j] {
      assert (a + b)[i] == a[i] && (a + b)[|a| + j] == b[j];
    }
  }

  lemma JoinDiffers(a: seq<Res>, b: seq<Res>)
    requires NoDuplicates(a) && NoDuplicates(b) && forall x | x in a :: x !in b
    ensures NoDuplicates(a + b)
  {
    var s := a + b;
    forall i, j | 0 <= i < j < |s| ensures s[i] != s[j] {
      if i < |a| <= j {
        assert s[i] in a && s[j] in b;
      }
    }
  }

  lemma MoveBack(a: seq<Res>, it: Res, b: seq<Res>)
    requires NoDuplicates(a + b) && it in a
    ensures NoDuplicates(Without(a, it) + ([it] + b)) && |Without(a, it)| == |a| - 1
  {
    PartsDiffer(a, b);
    WithoutKeeps(a, it);
    JoinDiffers([it], b);
    JoinDiffers(Without(a, it), [it] + b);
  }

  /* ----- what exists ----- */

  // Every resource there is, in use or not.
  function Stock(p: Pool): multiset<Res> {
    multiset(p.inuse) + multiset(p.unused)
  }

  lemma {:induction false} WithoutCounts(s: seq<Res>, r: Res)
    requires NoDuplicates(s) && r in s
    ensures multiset(s) == multiset(Without(s, r)) + multiset{r}
  {
    assert s == [s[0]] + s[1..];
    if s[0] == r {
      assert forall i | 0 <= i < |s[1..]| :: s[1..][i] == s[i + 1];
      WithoutAbsent(s[1..], r);
    } else {
      assert forall i | 0 <= i < |s[1..]| :: s[1..][i] == s[i + 1];
      WithoutCounts(s[1..], r);
    }
  }

  lemma WithoutAbsent(s: seq<Res>, r: Res)
    requires r !in s
    ensures Without(s, r) == s
  {
  }

  lemma MoveBackConserves(a: seq<Res>, it: Res, b: seq<Res>)
    requires NoDuplicates(a + b) && it in a
    ensures multiset(Without(a, it)) + multiset{it} == multiset(a)
    ensures multiset(Without(a, it)) + multiset([it] + b) == multiset(a) + multiset(b)
    ensures |Without(a, it)| == |a| - 1
  {
    PartsDiffer(a, b);
    WithoutCounts(a, it);
    WithoutKeeps(a, it);
  }

  // What handing back does to the resources.
  predicate Conserved(p: Pool, q: Pool, it: Res, w: Option<Waiter>) {
    && Stock(q) == Stock(p) && Occupied(q) == Occupied(p) && q.cap == p.cap
    && if w.Some? then q.inuse == p.inuse && q.unused == p.unused
       else q.unused == [it] + p.unused && multiset(q.inuse) + multiset{it} == multiset(p.inuse)
  }

  lemma HandOverConserves(p: Pool, it: Res)
    requires p.hasRes && NoDuplicates(p.inuse + p.unused) && it in p.inuse && (p.queue != [] ==> IsLive(p.queue, 0))
    ensures var (q, w) := HandOver(p, it); Conserved(p, q, it, w) && (w.Some? <==> p.queue != [])
  {
    if p.queue == [] {
      MoveBackConserves(p.inuse, it, p.unused);
    }
  }

  lemma LiveMeansIds(q: seq<Entry>, ids: set<Id>)
    requires Linked(q, ids) && (q != [] ==> IsLive(q, 0))
    ensures ids != {} <==> q != []
  {
    if q == [] {
      assert forall id :: !Holds(q, id);
    } else {
      assert LiveId(q, 0) in ids;
    }
  }

  // A resource handed back goes to a waiter or to the front of the unused ones; none appears and none is lost.
  lemma RecycleConserves(p: Pool, it: Res)
    requires Sound(p) && p.hasRes && it in p.inuse
    ensures var (q, w) := Recycle(p, it); Conserved(p, q, it, w) && (w.Some? <==> p.ids != {})
  {
    DropDeadKeeps(p.queue, p.ids, p.idSeq);
    LiveMeansIds(DropDead(p.queue), p.ids);
    HandOverConserves(p.(queue := DropDead(p.queue)), it);
  }

  // From p to q by handing back it: served is the awaiter that has waited longest, if any waits; the resource stays in
  // use for it, or else becomes the first unused one.
  ghost predicate Recycled(p: Pool, q: Pool, it: Res, served: Option<Waiter>) {
    var ok :=
      && Sound(q) && InUse(q) == InUse(p) - (if served.Some? then 0 else 1)
      && (served.Some? <==> p.ids != {})
      && (served.Some? ==>
            && served.value.id in p.ids && q.ids == p.ids - {served.value.id}
            && forall id | id in p.ids :: served.value.id.seqNo <= id.seqNo)
      && (p.hasRes ==> Conserved(p, q, it, served));
    ok
  }

  lemma RecycleKeeps(p: Pool, it: Res)
    requires Sound(p) && (p.hasRes ==> it in p.inuse) && InUse(p) > 0
    ensures Recycled(p, Recycle(p, it).0, it, Recycle(p, it).1)
  {
    var d := DropDead(p.queue);
    DropDeadKeeps(p.queue, p.ids, p.idSeq);
    LiveMeansIds(d, p.ids);
    HandOverKeeps(p.(queue := d), it);
    if p.hasRes {
      RecycleConserves(p, it);
    }
    forall id | id in p.ids ensures d != [] && LiveId(d, 0).seqNo <= id.seqNo {
      assert Holds(d, id);
    }
  }

  // An unused resource is handed out whenever there is one; only without one a resource is created, and only below
  // the capacity.
  lemma AcquireConserves(p: Pool, made: Res)
    requires Listed(p) && p.hasRes
    ensures var (q, got) := TryAcquire(p, made);
            && (got.Some? <==> InUse(p) < p.cap)
            && (p.unused != [] ==> got.Some? && got.value in p.unused)
            && (p.unused == [] && got.Some? ==> got.value == made)
            && Stock(q) == Stock(p) + (if p.unused == [] && got.Some? then multiset{made} else multiset{})
            && (got.Some? ==> multiset(q.inuse) == multiset(p.inuse) + multiset{got.value})
  {
    assert p.unused != [] ==> p.unused == [p.unused[0]] + p.unused[1..];
  }

  // What is handed back while nobody waits is what is handed out next.
  lemma ReleasedIsReused(p: Pool, it: Res, made: Res)
    requires Sound(p) && p.hasRes && it in p.inuse && p.ids == {}
    ensures TryAcquire(Recycle(p, it).0, made).1 == Some(it)
  {
    RecycleConserves(p, it);
  }

  lemma {:induction false} PrependCounts(made: seq<Res>, rest: seq<Res>)
    ensures multiset(Prepend(made, rest)) == multiset(made) + multiset(rest)
    decreases |made|
  {
    if made != [] {
      PrependCounts(made[1..], [made[0]] + rest);
      assert made == [made[0]] + made[1..];
    }
  }

  // Acquiring time after time; the number of times it succeeds.
  function AcquireOften(p: Pool, made: seq<Res>): (Pool, nat)
    decreases |made|
  {
    if made == [] then (p, 0)
    else
      var (q, got) := TryAcquire(p, made[0]);
      var (r, n) := AcquireOften(q, made[1..]);
      (r, n + if got.Some? then 1 else 0)
  }

  lemma {:induction false} AcquiresUpToCapacity(p: Pool, made: seq<Res>)
    requires Listed(p) && NoDuplicates(made) && forall r | r in made :: IsNew(p, r)
    ensures var room := p.cap - InUse(p);
            AcquireOften(p, made).1 == if |made| < room then |made| else room
    decreases |made|
  {
    if made != [] {
      AcquireKeeps(p, made[0]);
      assert forall i | 0 <= i < |made[1..]| :: made[1..][i] == made[i + 1];
      forall r | r in made[1..] ensures IsNew(TryAcquire(p, made[0]).0, r) {
        assert r in made;
      }
      AcquiresUpToCapacity(TryAcquire(p, made[0]).0, made[1..]);
    }
  }

  // A reservation beyond what exists makes room for exactly so many resources in use; any other changes nothing.
  lemma ReservationIsRoom(p: Pool, n: nat, made: seq<Res>)
    requires Listed(p) && NoDuplicates(made) && forall r | r in made :: IsNew(p, r)
    ensures var q := Reserve(p, n);
            if n <= Occupied(p) then q == p
            else
              && Stock(q) == Stock(p) && InUse(q) == InUse(p)
              && AcquireOften(q, made).1 == if |made| < n - InUse(p) then |made| else n - InUse(p)
  {
    if n > Occupied(p) {
      AcquiresUpToCapacity(Reserve(p, n), made);
    }
  }

  lemma {:induction false} CreateAllKeeps(p: Pool, made: seq<Res>)
    requires Listed(p) && p.hasRes && |made| + Occupied(p) <= p.cap
    requires NoDuplicates(made) && forall i | 0 <= i < |made| :: IsNew(p, made[i])
    ensures Listed(CreateAll(p, made))
    decreases |made|
  {
    if made != [] {
      var q := p.(unused := [made[0]] + p.unused);
      assert forall i | 0 <= i < |made[1..]| :: made[1..][i] == made[i + 1];
      InsertKeeps(p.inuse, p.unused, made[0]);
      CreateAllKeeps(q, made[1..]);
    }
  }

  lemma InsertKeeps(a: seq<Res>, b: seq<Res>, x: Res)
    requires NoDuplicates(a + b) && x !in a && x !in b
    ensures NoDuplicates(a + ([x] + b))
  {
    PartsDiffer(a, b);
    JoinDiffers([x], b);
    JoinDiffers(a, [x] + b);
  }

  lemma ClearKeeps(p: Pool)
    requires Listed(p)
    ensures Listed(ClearUnused(p)) && InUse(ClearUnused(p)) == InUse(p)
  {
    assert forall i | 0 <= i < |p.inuse| :: (p.inuse + p.unused)[i] == p.inuse[i];
    assert p.inuse + [] == p.inuse;
  }
}
