/** Runs of a pool: acquirers, waiters, timers, stop callbacks and holders, one critical section at a time. */
module PoolRuns {
  import opened Wrappers
  import opened Sequences
  import opened PoolModel

  // Who owns a resource in use: a holder, or an awaiter whose resumption has been posted.
  datatype Owner = Held(h: nat) | InFlight(who: Who)

  datatype Cause = Recycled | TimedOut | Stopped

  datatype Fate = Waiting(id: Id) | Settled(id: Id, cause: Cause)

  datatype World = World(pool: Pool, owners: map<Owner, Res>, fates: map<Who, Fate>, served: seq<Id>)

  function Initial(hasRes: bool, cap: nat): World {
    World(Pool(hasRes, cap, 0, [], [], [], {}, 0), map[], map[], [])
  }

  datatype Action =
    | Acquire(h: nat, made: Res)
    | AcquireOrWait(who: Who, h: nat, made: Res, slot: Slot)
    | Expire(id: Id, cause: Cause)   // a timer or a stop callback, with the id it captured
    | Resume(who: Who, h: nat)
    | Release(h: nat)
    | Reserve(n: nat) | ClearUnused | CreateAll(all: seq<Res>)

  predicate Enabled(s: World, a: Action) {
    var enabled :=
      match a
      case Acquire(h, made) => Held(h) !in s.owners && IsNew(s.pool, made)
      case AcquireOrWait(who, h, made, slot) =>
        Held(h) !in s.owners && IsNew(s.pool, made) && who !in s.fates && !HasSlot(s.pool.queue, slot)
      case Expire(_, cause) => cause != Recycled
      case Resume(who, h) => InFlight(who) in s.owners && Held(h) !in s.owners
      case Release(h) => Held(h) in s.owners
      case Reserve(_) => true
      case ClearUnused => s.pool.hasRes
      case CreateAll(all) =>
        && s.pool.hasRes && |all| + Occupied(s.pool) == s.pool.cap
        && NoDuplicates(all) && forall i | 0 <= i < |all| :: IsNew(s.pool, all[i]);
    enabled
  }

  // The holder of a freed or handed-over resource no longer has it.
  function Drop(s: World, h: nat): map<Owner, Res> {
    s.owners - {Held(h)}
  }

  // The awaiter with a given id.
  ghost predicate WaitsWith(s: World, who: Who, id: Id) {
    who in s.fates && s.fates[who] == Waiting(id)
  }

  ghost function Expired(s: World, id: Id, cause: Cause): map<Who, Fate> {
    map who | who in s.fates :: if s.fates[who] == Waiting(id) then Settled(id, cause) else s.fates[who]
  }

  function Acquired(s: World, h: nat, made: Res): World {
    var (p, got) := TryAcquire(s.pool, made);
    if got.Some? then s.(pool := p, owners := s.owners[Held(h) := got.value]) else s
  }

  function Enqueued(s: World, who: Who, slot: Slot): World {
    var (p, id) := AddAwaiter(s.pool, who, slot);
    s.(pool := p, fates := s.fates[who := Waiting(id)])
  }

  // Recycling first drops the tombstones at the front of the queue ...
  function Trimmed(s: World): World {
    s.(pool := s.pool.(queue := DropDead(s.pool.queue)))
  }

  // ... and then hands the resource of holder h over.
  function HandOverTo(s: World, h: nat): World
    requires Held(h) in s.owners
  {
    var it := s.owners[Held(h)];
    var (p, w) := HandOver(s.pool, it);
    if w.Some? then
      World(p, Drop(s, h)[InFlight(w.value.who) := it], s.fates[w.value.who := Settled(w.value.id, Recycled)],
        s.served + [w.value.id])
    else s.(pool := p, owners := Drop(s, h))
  }

  function Resumed(s: World, who: Who, h: nat): World
    requires InFlight(who) in s.owners
  {
    s.(owners := (s.owners - {InFlight(who)})[Held(h) := s.owners[InFlight(who)]])
  }

  ghost function ExpiredWorld(s: World, id: Id, cause: Cause): World {
    var (p, removed) := RemoveAwaiter(s.pool, id);
    if removed then s.(pool := p, fates := Expired(s, id, cause)) else s
  }

  ghost function Apply(s: World, a: Action): World
    requires Enabled(s, a)
  {
    match a
    case Acquire(h, made) => Acquired(s, h, made)
    case AcquireOrWait(who, h, made, slot) =>
      if TryAcquire(s.pool, made).1.Some? then Acquired(s, h, made) else Enqueued(s, who, slot)
    case Expire(id, cause) => ExpiredWorld(s, id, cause)
    case Resume(who, h) => Resumed(s, who, h)
    case Release(h) => HandOverTo(Trimmed(s), h)
    case Reserve(n) => s.(pool := PoolModel.Reserve(s.pool, n))
    case ClearUnused => s.(pool := PoolModel.ClearUnused(s.pool))
    case CreateAll(all) => s.(pool := PoolModel.CreateAll(s.pool, all))
  }

  /* ----- invariants ----- */

  // Every resource in use has exactly one owner, and nobody waits for a pool of which nothing is in use.
  ghost predicate Owned(s: World) {
    && |s.owners| == InUse(s.pool)
    && (s.pool.hasRes ==>
          && (forall o :: o in s.owners ==> s.owners[o] in s.pool.inuse)
          && forall o, o' :: o in s.owners && o' in s.owners && o != o' ==> s.owners[o] != s.owners[o'])
    && (s.pool.queue != [] ==> InUse(s.pool) > 0)
  }

  // Live queue entries and waiting awaiters correspond.
  ghost predicate Matched(s: World) {
    && (forall e | e in s.pool.queue && e.live.Some? :: WaitsWith(s, e.live.value.who, e.live.value.id))
    && (forall who | who in s.fates && s.fates[who].Waiting? :: s.fates[who].id in s.pool.ids)
    && (forall who | InFlight(who) in s.owners ::
          who in s.fates && s.fates[who].Settled? && s.fates[who].cause == Recycled)
  }

  // No id is given twice, and awaiters are served in the order of their ids.
  ghost predicate Ordered(s: World) {
    && (forall who | who in s.fates :: s.fates[who].id.seqNo <= s.pool.idSeq)
    && (forall a, b | a in s.fates && b in s.fates && a != b :: s.fates[a].id.seqNo != s.fates[b].id.seqNo)
    && (forall i, j | 0 <= i < j < |s.served| :: s.served[i].seqNo < s.served[j].seqNo)
    && (forall id, e | id in s.served && e in s.pool.queue && e.live.Some? :: id.seqNo < e.live.value.id.seqNo)
    && (forall id | id in s.served :: id.seqNo <= s.pool.idSeq)
  }

  ghost predicate Inv(s: World) {
    Sound(s.pool) && Owned(s) && Matched(s) && Ordered(s)
  }

  /* ----- acquiring ----- */

  lemma AcquireKeepsOwned(s: World, h: nat, made: Res)
    requires Listed(s.pool) && Owned(s) && Held(h) !in s.owners && IsNew(s.pool, made)
    ensures Owned(Acquired(s, h, made))
  {
    PoolModel.AcquireKeeps(s.pool, made);
  }

  lemma AcquireKeepsInv(s: World, h: nat, made: Res)
    requires Inv(s) && Held(h) !in s.owners && IsNew(s.pool, made)
    ensures Inv(Acquired(s, h, made))
  {
    PoolModel.AcquireKeeps(s.pool, made);
    AcquireKeepsOwned(s, h, made);
  }

  lemma EnqueueKeepsMatched(s: World, who: Who, slot: Slot)
    requires Matched(s) && who !in s.fates
    ensures Matched(Enqueued(s, who, slot))
  {
  }

  lemma EnqueueKeepsOrdered(s: World, who: Who, slot: Slot)
    requires Ordered(s) && Numbered(s.pool.queue, s.pool.idSeq) && who !in s.fates
    ensures Ordered(Enqueued(s, who, slot))
  {
  }

  lemma EnqueueKeepsInv(s: World, who: Who, slot: Slot)
    requires Inv(s) && who !in s.fates && !HasSlot(s.pool.queue, slot) && InUse(s.pool) > 0
    ensures Inv(Enqueued(s, who, slot))
  {
    AppendKeeps(s.pool.queue, s.pool.ids, s.pool.idSeq, slot, who);
    EnqueueKeepsMatched(s, who, slot);
    EnqueueKeepsOrdered(s, who, slot);
  }

  /* ----- recycling ----- */

  lemma TrimKeepsInv(s: World)
    requires Inv(s)
    ensures Inv(Trimmed(s))
  {
    DropDeadKeeps(s.pool.queue, s.pool.ids, s.pool.idSeq);
    TrimKeepsEntries(s.pool.queue);
  }

  lemma {:induction false} TrimKeepsEntries(q: seq<Entry>)
    ensures forall e | e in DropDead(q) :: e in q
  {
    if q != [] && q[0].live.None? {
      TrimKeepsEntries(q[1..]);
    }
  }

  lemma HandOverKeepsOwned(s: World, h: nat)
    requires Sound(s.pool) && Owned(s) && Matched(s) && Held(h) in s.owners
    requires s.pool.queue != [] ==> IsLive(s.pool.queue, 0)
    ensures Owned(HandOverTo(s, h))
  {
    var it, q := s.owners[Held(h)], s.pool.queue;
    assert s.owners == Drop(s, h)[Held(h) := it];
    if q == [] {
      HandOverKeeps(s.pool, it);
    } else {
      assert InFlight(q[0].live.value.who) !in s.owners;
    }
  }

  lemma HandOverKeepsMatched(s: World, h: nat)
    requires Numbered(s.pool.queue, s.pool.idSeq) && Matched(s) && Held(h) in s.owners && IsLive(s.pool.queue, 0)
    requires Ordered(s)
    ensures Matched(HandOverTo(s, h))
  {
    var q := s.pool.queue;
    var first := q[0].live.value;
    FirstIsLeast(q, s.pool.idSeq);
    assert WaitsWith(s, first.who, first.id);
    forall e | e in q[1..] && e.live.Some?
      ensures WaitsWith(s, e.live.value.who, e.live.value.id) && e.live.value.who != first.who
    {
    }
  }

  lemma HandOverKeepsOrdered(s: World, h: nat)
    requires Numbered(s.pool.queue, s.pool.idSeq) && Matched(s) && Ordered(s) && Held(h) in s.owners
    requires IsLive(s.pool.queue, 0)
    ensures Ordered(HandOverTo(s, h))
  {
    var q := s.pool.queue;
    FirstIsLeast(q, s.pool.idSeq);
    assert q[0] in q;
  }

  lemma HandOverKeepsInv(s: World, h: nat)
    requires Inv(s) && Held(h) in s.owners && (s.pool.queue != [] ==> IsLive(s.pool.queue, 0))
    ensures Inv(HandOverTo(s, h))
  {
    assert |s.owners| > 0;
    HandOverKeeps(s.pool, s.owners[Held(h)]);
    HandOverKeepsOwned(s, h);
    if s.pool.queue != [] {
      HandOverKeepsMatched(s, h);
      HandOverKeepsOrdered(s, h);
    }
  }

  /* ----- the rest ----- */

  lemma ExpireKeepsInv(s: World, id: Id, cause: Cause)
    requires Inv(s) && id in s.pool.ids && cause != Recycled
    ensures Inv(Apply(s, Expire(id, cause)))
  {
    NullifyKeeps(s.pool.queue, s.pool.ids, s.pool.idSeq, id);
    ExpireKeepsMatched(s, id, cause);
    ExpireKeepsOrdered(s, id, cause);
  }

  lemma ExpireKeepsMatched(s: World, id: Id, cause: Cause)
    requires Matched(s) && id in s.pool.ids && cause != Recycled
    requires forall e | e in Nullify(s.pool.queue, id.slot) && e.live.Some? ::
          e in s.pool.queue && e.live.value.id != id
    ensures Matched(Apply(s, Expire(id, cause)))
  {
  }

  lemma ExpireKeepsOrdered(s: World, id: Id, cause: Cause)
    requires Ordered(s) && id in s.pool.ids && cause != Recycled
    requires forall e | e in Nullify(s.pool.queue, id.slot) && e.live.Some? ::
          e in s.pool.queue && e.live.value.id != id
    ensures Ordered(Apply(s, Expire(id, cause)))
  {
  }

  lemma ResumeKeepsInv(s: World, who: Who, h: nat)
    requires Inv(s) && InFlight(who) in s.owners && Held(h) !in s.owners
    ensures Inv(Apply(s, Resume(who, h)))
  {
    var o := s.owners - {InFlight(who)};
    assert s.owners == o[InFlight(who) := s.owners[InFlight(who)]];
    assert |o| == |s.owners| - 1;
  }

  lemma SizingKeepsInv(s: World, a: Action)
    requires (a.Reserve? || a.ClearUnused? || a.CreateAll?) && Inv(s) && Enabled(s, a)
    ensures Inv(Apply(s, a))
  {
    match a
    case Reserve(_) =>
    case ClearUnused => ClearKeeps(s.pool);
    case CreateAll(all) => PoolModel.CreateAllKeeps(s.pool, all);
  }

  lemma StepKeepsInv(s: World, a: Action)
    requires Inv(s) && Enabled(s, a)
    ensures Inv(Apply(s, a))
  {
    match a
    case Acquire(h, made) => AcquireKeepsInv(s, h, made);
    case AcquireOrWait(who, h, made, slot) =>
      PoolModel.AcquireKeeps(s.pool, made);
      if TryAcquire(s.pool, made).1.Some? {
        AcquireKeepsInv(s, h, made);
      } else {
        EnqueueKeepsInv(s, who, slot);
      }
    case Expire(id, cause) =>
      if id in s.pool.ids {
        ExpireKeepsInv(s, id, cause);
      }
    case Resume(who, h) => ResumeKeepsInv(s, who, h);
    case Release(h) =>
      TrimKeepsInv(s);
      HandOverKeepsInv(Trimmed(s), h);
    case Reserve(_) => SizingKeepsInv(s, a);
    case ClearUnused => SizingKeepsInv(s, a);
    case CreateAll(_) => SizingKeepsInv(s, a);
  }

  /* ----- runs ----- */

  ghost predicate Run(states: seq<World>, actions: seq<Action>) {
    && |states| == |actions| + 1
    && (exists hasRes, cap :: cap > 0 && states[0] == Initial(hasRes, cap))
    && forall i {:trigger actions[i]} | 0 <= i < |actions| ::
         Enabled(states[i], actions[i]) && states[i + 1] == Apply(states[i], actions[i])
  }

  lemma {:induction false} InvAlways(states: seq<World>, actions: seq<Action>, i: nat)
    requires Run(states, actions) && i < |states|
    ensures Inv(states[i])
  {
    if i > 0 {
      InvAlways(states, actions, i - 1);
      var a := actions[i - 1];
      StepKeepsInv(states[i - 1], a);
    }
  }

  /* ----- what always holds ----- */

  function LiveCount(q: seq<Entry>): nat {
    if q == [] then 0 else LiveCount(q[1..]) + if q[0].live.Some? then 1 else 0
  }

  lemma {:induction false} CountOfIds(q: seq<Entry>, ids: set<Id>, idSeq: nat)
    requires Linked(q, ids) && Numbered(q, idSeq)
    ensures |ids| == LiveCount(q)
  {
    if q == [] {
      forall id ensures id !in ids {
        assert !Holds(q, id);
      }
      assert ids == {};
    } else {
      var rest := if q[0].live.Some? then ids - {q[0].live.value.id} else ids;
      DropKeeps(q, ids, idSeq, rest);
      CountOfIds(q[1..], rest, idSeq);
      assert q[0].live.Some? ==> IsLive(q, 0) && LiveId(q, 0) in ids;
    }
  }

  // The ids in the set are those of the live queue entries, one each, pointing at their own slots.
  lemma QueueMatchesIds(states: seq<World>, actions: seq<Action>, i: nat)
    requires Run(states, actions) && i < |states|
    ensures var p := states[i].pool; Linked(p.queue, p.ids) && |p.ids| == LiveCount(p.queue)
  {
    InvAlways(states, actions, i);
    CountOfIds(states[i].pool.queue, states[i].pool.ids, states[i].pool.idSeq);
  }

  // Nothing beyond the capacity exists, and each resource in use has one owner.
  lemma ResourcesConserved(states: seq<World>, actions: seq<Action>, i: nat)
    requires Run(states, actions) && i < |states|
    ensures var s := states[i];
            && Occupied(s.pool) <= s.pool.cap && |s.owners| == InUse(s.pool)
            && (s.pool.hasRes ==>
                  && (forall r :: r in s.pool.inuse <==> exists o :: o in s.owners && s.owners[o] == r)
                  && (forall o, o' | o in s.owners && o' in s.owners && s.owners[o] == s.owners[o'] :: o == o')
                  && (forall r | r in s.pool.unused :: r !in s.owners.Values))
  {
    InvAlways(states, actions, i);
    var s := states[i];
    if s.pool.hasRes {
      PartsDiffer(s.pool.inuse, s.pool.unused);
      EveryResourceIsOwned(s.owners, s.pool.inuse);
    }
  }

  ghost function Elements(s: seq<Res>): set<Res> {
    set r | r in s
  }

  lemma {:induction false} SizeOfDistinct(s: seq<Res>)
    requires NoDuplicates(s)
    ensures |Elements(s)| == |s|
  {
    if s != [] {
      assert forall i | 0 <= i < |s[1..]| :: s[1..][i] == s[i + 1];
      SizeOfDistinct(s[1..]);
      assert Elements(s) == {s[0]} + Elements(s[1..]);
    }
  }

  lemma {:induction false} SizeOfInjective(m: map<Owner, Res>)
    requires forall o, o' | o in m && o' in m && o != o' :: m[o] != m[o']
    ensures |m.Values| == |m|
    decreases |m|
  {
    if m != map[] {
      var o :| o in m;
      var rest := m - {o};
      assert m == rest[o := m[o]];
      SizeOfInjective(rest);
      assert m.Values == rest.Values + {m[o]};
    }
  }

  // As many owners as resources, no two with the same: each resource is owned.
  lemma EveryResourceIsOwned(m: map<Owner, Res>, all: seq<Res>)
    requires NoDuplicates(all) && |m| == |all| && forall o | o in m :: m[o] in all
    requires forall o, o' | o in m && o' in m && o != o' :: m[o] != m[o']
    ensures forall r | r in all :: exists o :: o in m && m[o] == r
  {
    SizeOfDistinct(all);
    SizeOfInjective(m);
    var missing := Elements(all) - m.Values;
    assert Elements(all) == m.Values + missing;
    forall r | r in all ensures exists o :: o in m && m[o] == r {
      assert r in Elements(all) && r in m.Values;
    }
  }

  // What the destructor asserts follows from nothing being in use.
  lemma NothingInUseNothingQueued(states: seq<World>, actions: seq<Action>, i: nat)
    requires Run(states, actions) && i < |states| && InUse(states[i].pool) == 0
    ensures states[i].pool.queue == [] && states[i].pool.ids == {} && states[i].owners == map[]
  {
    InvAlways(states, actions, i);
    QueueMatchesIds(states, actions, i);
  }

  /* ----- waiters and capacity ----- */

  // Somebody waits only for a pool that is fully in use.
  predicate Full(s: World) {
    s.pool.ids != {} ==> s.pool.unused == [] && InUse(s.pool) == s.pool.cap
  }

  // A reservation of more than the capacity while somebody waits.
  predicate RaisesOverWaiters(s: World, a: Action) {
    a.Reserve? && s.pool.ids != {} && a.n > s.pool.cap
  }

  // A step keeps the pool full for its waiters unless it raises the capacity over them, and then it never does.
  lemma StepKeepsFull(s: World, a: Action)
    requires Inv(s) && Full(s) && Enabled(s, a)
    ensures Full(Apply(s, a)) <==> !RaisesOverWaiters(s, a)
  {
    match a
    case Acquire(_, made) => PoolModel.AcquireKeeps(s.pool, made);
    case AcquireOrWait(_, _, made, _) => PoolModel.AcquireKeeps(s.pool, made);
    case Expire(_, _) =>
    case Resume(_, _) =>
    case Release(h) => ReleaseKeepsFull(s, h);
    case Reserve(_) =>
    case ClearUnused =>
    case CreateAll(_) =>
  }

  lemma ReleaseKeepsFull(s: World, h: nat)
    requires Inv(s) && Full(s) && Held(h) in s.owners
    ensures Full(HandOverTo(Trimmed(s), h))
  {
    TrimKeepsInv(s);
    HandOverKeeps(Trimmed(s).pool, s.owners[Held(h)]);
  }

  // In every state of a run waiters mean a full pool if and only if the run never raises the capacity over waiters.
  lemma {:induction false} WaitersMeanFull(states: seq<World>, actions: seq<Action>)
    requires Run(states, actions)
    ensures (forall s | s in states :: Full(s)) <==>
              forall i {:trigger actions[i]} | 0 <= i < |actions| :: !RaisesOverWaiters(states[i], actions[i])
    decreases |actions|
  {
    if actions != [] {
      var n := |actions| - 1;
      var states', actions' := states[..n + 1], actions[..n];
      assert Run(states', actions');
      WaitersMeanFull(states', actions');
      InvAlways(states, actions, n);
      assert states == states' + [states[n + 1]];
      assert states[n] in states';
      assert forall i {:trigger actions[i]} | 0 <= i < n :: actions'[i] == actions[i];
      var a := actions[n];
      if Full(states[n]) {
        StepKeepsFull(states[n], a);
      }
    } else {
      assert states == [states[0]];
    }
  }

  // It does happen that a reservation leaves a waiter beside free capacity: nobody is woken.
  lemma GrowthWakesNobody()
    ensures exists states: seq<World>, actions: seq<Action> ::
              Run(states, actions) && |states| == 4 && !Full(states[3]) && InUse(states[3].pool) < states[3].pool.cap
  {
    var s0 := Initial(true, 1);
    var a0, a1, a2 := Acquire(0, 10), AcquireOrWait(7, 1, 11, 0), Action.Reserve(2);
    var s1 := Apply(s0, a0);
    var s2 := Apply(s1, a1);
    var s3 := Apply(s2, a2);
    assert Run([s0, s1, s2, s3], [a0, a1, a2]) by {
      assert s1.pool.inuse == [10] && s1.pool.unused == [];
    }
    assert Id(1, 0) in s3.pool.ids;
  }

  /* ----- settling ----- */

  // A settled awaiter stays settled, by the same cause.
  lemma {:induction false} SettledOnce(states: seq<World>, actions: seq<Action>, i: nat, j: nat, who: Who)
    requires Run(states, actions) && i <= j < |states|
    requires who in states[i].fates && states[i].fates[who].Settled?
    ensures who in states[j].fates && states[j].fates[who] == states[i].fates[who]
  {
    if i < j {
      SettledOnce(states, actions, i, j - 1, who);
      InvAlways(states, actions, j - 1);
      SettledStep(states[j - 1], actions[j - 1], who);
    }
  }

  lemma SettledStep(s: World, a: Action, who: Who)
    requires Matched(s) && Enabled(s, a) && who in s.fates && s.fates[who].Settled?
    ensures var t := Apply(s, a); who in t.fates && t.fates[who] == s.fates[who]
  {
    if a.Release? {
      SettledRelease(s, a.h, who);
    }
  }

  lemma SettledRelease(s: World, h: nat, who: Who)
    requires Matched(s) && Held(h) in s.owners && who in s.fates && s.fates[who].Settled?
    ensures var t := HandOverTo(Trimmed(s), h); who in t.fates && t.fates[who] == s.fates[who]
  {
    TrimKeepsEntries(s.pool.queue);
    SettledHandOver(Trimmed(s), h, who);
  }

  lemma SettledHandOver(s: World, h: nat, who: Who)
    requires Matched(s) && Held(h) in s.owners && who in s.fates && s.fates[who].Settled?
    ensures var t := HandOverTo(s, h); who in t.fates && t.fates[who] == s.fates[who]
  {
    assert s.pool.queue != [] ==> s.pool.queue[0] in s.pool.queue;
  }

  // A timer or stop callback removes the awaiter that waits with its id, and that one only ...
  lemma ExpireRemovesItsWaiter(states: seq<World>, actions: seq<Action>, i: nat, who: Who, id: Id, cause: Cause)
    requires Run(states, actions) && i < |states| && WaitsWith(states[i], who, id) && cause != Recycled
    ensures var s, t := states[i], Apply(states[i], Expire(id, cause));
            && t.fates == s.fates[who := Settled(id, cause)] && t.owners == s.owners
            && id in s.pool.ids && t.pool.ids == s.pool.ids - {id}
            && exists k: nat :: IsTombstoned(s.pool.queue, t.pool.queue, k, Waiter(who, id))
  {
    InvAlways(states, actions, i);
    TombstoneInPlace(states[i], who, id);
    assert Apply(states[i], Expire(id, cause)).fates == states[i].fates[who := Settled(id, cause)];
  }

  // after is before with the k-th entry, which holds w, dead.
  predicate IsTombstoned(before: seq<Entry>, after: seq<Entry>, k: nat, w: Waiter) {
    IsLive(before, k) && before[k].live.value == w && after == before[k := Entry(before[k].slot, None)]
  }

  lemma TombstoneInPlace(s: World, who: Who, id: Id)
    requires Inv(s) && WaitsWith(s, who, id)
    ensures exists k: nat :: IsTombstoned(s.pool.queue, Nullify(s.pool.queue, id.slot), k, Waiter(who, id))
  {
    var q := s.pool.queue;
    assert Holds(q, id);
    var k :| IsLive(q, k) && LiveId(q, k) == id;
    NullifyIsExact(q, s.pool.ids, id);
    assert q[k] in q;
    forall j | 0 <= j < |q| && j != k ensures q[j].slot != id.slot {
      assert q[if j < k then j else k].slot != q[if j < k then k else j].slot;
    }
    assert Nullify(q, id.slot) == q[k := Entry(q[k].slot, None)];
    assert IsTombstoned(q, Nullify(q, id.slot), k, Waiter(who, id));
  }

  // ... and nothing once that awaiter is settled, even if its slot has been given to another.
  lemma StaleIdIsHarmless(states: seq<World>, actions: seq<Action>, i: nat, j: nat, who: Who, cause: Cause)
    requires Run(states, actions) && i <= j < |states| && cause != Recycled
    requires who in states[i].fates && states[i].fates[who].Settled?
    ensures Apply(states[j], Expire(states[i].fates[who].id, cause)) == states[j]
  {
    SettledOnce(states, actions, i, j, who);
    InvAlways(states, actions, j);
    SettledIdIsGone(states[j], who);
  }

  lemma SettledIdIsGone(s: World, who: Who)
    requires Inv(s) && who in s.fates && s.fates[who].Settled?
    ensures s.fates[who].id !in s.pool.ids
  {
    var q, id := s.pool.queue, s.fates[who].id;
    forall k | IsLive(q, k) ensures LiveId(q, k) != id {
      assert q[k] in q;
    }
    assert !Holds(q, id);
  }

  /* ----- order ----- */

  // A returned resource goes to the awaiter that has waited longest, and stays in use; with none it is free.
  lemma ReleaseServesTheOldest(states: seq<World>, actions: seq<Action>, i: nat, h: nat)
    requires Run(states, actions) && i < |states| && Held(h) in states[i].owners
    ensures var s, t := states[i], Apply(states[i], Release(h));
            if s.pool.ids == {} then
              && t.owners == s.owners - {Held(h)} && t.fates == s.fates && InUse(t.pool) == InUse(s.pool) - 1
              && (s.pool.hasRes ==> t.pool.unused == [s.owners[Held(h)]] + s.pool.unused)
            else
              InUse(t.pool) == InUse(s.pool) && exists who, id :: Serves(s, t, h, who, id)
  {
    InvAlways(states, actions, i);
    if states[i].pool.ids == {} {
      ReleaseFrees(states[i], h);
    } else {
      ReleaseServes(states[i], h);
    }
  }

  lemma ReleaseFrees(s: World, h: nat)
    requires Inv(s) && Held(h) in s.owners && s.pool.ids == {}
    ensures var t := HandOverTo(Trimmed(s), h);
            && t.owners == s.owners - {Held(h)} && t.fates == s.fates && InUse(t.pool) == InUse(s.pool) - 1
            && (s.pool.hasRes ==> t.pool.unused == [s.owners[Held(h)]] + s.pool.unused)
  {
    if s.pool.hasRes {
      RecycleConserves(s.pool, s.owners[Held(h)]);
    }
    TrimKeepsInv(s);
    HandOverKeeps(Trimmed(s).pool, s.owners[Held(h)]);
  }

  lemma ReleaseServes(s: World, h: nat)
    requires Inv(s) && Held(h) in s.owners && s.pool.ids != {}
    ensures var t := HandOverTo(Trimmed(s), h); InUse(t.pool) == InUse(s.pool) && exists who, id ::
          Serves(s, t, h, who, id)
  {
    TrimKeepsInv(s);
    var q := DropDead(s.pool.queue);
    var id :| id in s.pool.ids;
    assert Holds(q, id);
    HandOverKeeps(Trimmed(s).pool, s.owners[Held(h)]);
    ServesFirst(Trimmed(s), h);
    assert Serves(s, HandOverTo(Trimmed(s), h), h, q[0].live.value.who, q[0].live.value.id);
  }

  ghost predicate Serves(s: World, t: World, h: nat, who: Who, id: Id) {
    && Held(h) in s.owners && WaitsWith(s, who, id)
    && (forall w | w in s.fates && s.fates[w].Waiting? && w != who :: id.seqNo < s.fates[w].id.seqNo)
    && t.fates == s.fates[who := Settled(id, Recycled)]
    && t.owners == (s.owners - {Held(h)})[InFlight(who) := s.owners[Held(h)]]
    && t.served == s.served + [id]
  }

  lemma ServesFirst(s: World, h: nat)
    requires Inv(s) && Held(h) in s.owners && IsLive(s.pool.queue, 0)
    ensures var w := s.pool.queue[0].live.value; Serves(s, HandOverTo(s, h), h, w.who, w.id)
  {
    var q := s.pool.queue;
    var first := q[0].live.value;
    assert q[0] in q;
    forall w | w in s.fates && s.fates[w].Waiting? && w != first.who ensures first.id.seqNo < s.fates[w].id.seqNo {
      assert Holds(q, s.fates[w].id);
      var i :| IsLive(q, i) && LiveId(q, i) == s.fates[w].id;
    }
  }

  // Awaiters are served in the order in which they began to wait.
  lemma ServedInOrder(states: seq<World>, actions: seq<Action>, i: nat, a: nat, b: nat)
    requires Run(states, actions) && i < |states| && a < b < |states[i].served|
    ensures states[i].served[a].seqNo < states[i].served[b].seqNo
  {
    InvAlways(states, actions, i);
  }

  /* ----- nothing is lost ----- */

  // The resources a step brings into being.
  function Created(s: World, a: Action): multiset<Res> {
    match a
    case Acquire(_, made) => CreatedFor(s.pool, made)
    case AcquireOrWait(_, _, made, _) => CreatedFor(s.pool, made)
    case CreateAll(all) => multiset(all)
    case _ => multiset{}
  }

  function CreatedFor(p: Pool, made: Res): multiset<Res> {
    if p.unused == [] && |p.inuse| < p.cap then multiset{made} else multiset{}
  }

  lemma AcquiredConserves(s: World, h: nat, made: Res)
    requires Inv(s) && s.pool.hasRes
    ensures Stock(Acquired(s, h, made).pool) == Stock(s.pool) + CreatedFor(s.pool, made)
  {
    AcquireConserves(s.pool, made);
  }

  lemma ReleaseConserves(s: World, h: nat)
    requires Inv(s) && s.pool.hasRes && Held(h) in s.owners
    ensures Stock(HandOverTo(Trimmed(s), h).pool) == Stock(s.pool)
  {
    RecycleConserves(s.pool, s.owners[Held(h)]);
  }

  // Only clearing destroys resources, and only unused ones; only acquiring from a pool without unused ones and
  // filling a pool create any.
  lemma StepConserves(s: World, a: Action)
    requires Inv(s) && s.pool.hasRes && Enabled(s, a)
    ensures Stock(Apply(s, a).pool)
         == if a.ClearUnused? then multiset(s.pool.inuse) else Stock(s.pool) + Created(s, a)
  {
    match a
    case Acquire(h, made) => AcquiredConserves(s, h, made);
    case AcquireOrWait(_, h, made, _) => AcquiredConserves(s, h, made);
    case Release(h) => ReleaseConserves(s, h);
    case CreateAll(all) => PrependCounts(all, s.pool.unused);
    case Expire(_, _) =>
    case Resume(_, _) =>
    case Reserve(_) =>
    case ClearUnused =>
  }

  // A resource once created exists as long as unused ones are not cleared, and while it is owned even then.
  lemma {:induction false} NothingIsLost(states: seq<World>, actions: seq<Action>, i: nat, j: nat, r: Res)
    requires Run(states, actions) && i <= j < |states| && states[i].pool.hasRes && r in Stock(states[i].pool)
    requires forall k {:trigger actions[k]} | i <= k < j && actions[k].ClearUnused? :: r in states[k].owners.Values
    ensures states[j].pool.hasRes && r in Stock(states[j].pool)
  {
    if i < j {
      NothingIsLost(states, actions, i, j - 1, r);
      InvAlways(states, actions, j - 1);
      StepConserves(states[j - 1], actions[j - 1]);
      KindStays(states[j - 1], actions[j - 1]);
    }
  }

  lemma KindStays(s: World, a: Action)
    requires Enabled(s, a)
    ensures Apply(s, a).pool.hasRes == s.pool.hasRes
  {
  }

  /* ----- counter mode ----- */

  // The pool seen as a counter.
  function Counting(p: Pool): Pool {
    p.(hasRes := false, size := InUse(p), inuse := [], unused := [])
  }

  // A pool of resources behaves as a counter does: in acquiring, in recycling, and in queueing ...
  lemma AcquireAgrees(p: Pool, made: Res)
    requires Listed(p)
    ensures var (q, got) := TryAcquire(p, made); var (r, free) := TryAcquire(Counting(p), made);
            Counting(q) == r && (got.Some? <==> free.Some?)
  {
  }

  lemma RecycleAgrees(p: Pool, it: Res)
    requires Listed(p) && (p.hasRes ==> it in p.inuse)
    ensures var (q, w) := PoolModel.Recycle(p, it); var (r, v) := PoolModel.Recycle(Counting(p), 0);
            Counting(q) == r && w == v
  {
    if p.hasRes {
      MoveBack(p.inuse, it, p.unused);
    }
  }

  lemma QueueingAgrees(p: Pool, who: Who, slot: Slot, id: Id)
    ensures var (q, d) := AddAwaiter(p, who, slot); AddAwaiter(Counting(p), who, slot) == (Counting(q), d)
    ensures var (q, d) := RemoveAwaiter(p, id); RemoveAwaiter(Counting(p), id) == (Counting(q), d)
  {
  }

  // ... except that unused resources can keep a reservation from taking effect.
  lemma ReserveAgrees(p: Pool, n: nat)
    requires Listed(p)
    ensures Counting(PoolModel.Reserve(p, n)) == PoolModel.Reserve(Counting(p), n)
            <==> !(InUse(p) < n <= Occupied(p)) || n == p.cap
  {
  }
}
