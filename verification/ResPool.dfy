/** The pool itself: methods that update its fields as the source's do. */
module ResPool {
  import opened Wrappers
  import opened Sequences
  import opened PoolModel

  class Pool {
    const hasRes: bool
    var cap: nat
    var size: nat
    var inuse: seq<Res>
    var unused: seq<Res>
    var awaiterQueue: seq<Entry>
    var awaiters: set<Id>
    var idSeq: nat

    ghost function View(): PoolModel.Pool
      reads this
    {
      PoolModel.Pool(hasRes, cap, size, inuse, unused, awaiterQueue, awaiters, idSeq)
    }

    ghost predicate Valid()
      reads this
    {
      Sound(View())
    }

    constructor (hasRes: bool, cap: nat)
      requires cap > 0
      ensures Valid() && View() == PoolModel.Pool(hasRes, cap, 0, [], [], [], {}, 0)
    {
      this.hasRes, this.cap, size := hasRes, cap, 0;
      inuse, unused, awaiterQueue, awaiters, idSeq := [], [], [], {}, 0;
    }

    method OccupiedCap() returns (n: nat)
      ensures n == Occupied(View())
    {
      n := if hasRes then |unused| + |inuse| else size;
    }

    // Succeeds exactly below the capacity, with a resource nobody had; the creator would make the one given.
    method TryAcquire(made: Res) returns (it: Option<Res>)
      requires Valid() && IsNew(View(), made)
      modifies this
      ensures Valid() && (View(), it) == PoolModel.TryAcquire(old(View()), made)
      ensures it.Some? <==> old(InUse(View())) < cap
      ensures InUse(View()) == old(InUse(View())) + (if it.Some? then 1 else 0)
      ensures hasRes && it.Some? ==> it.value !in old(inuse) && inuse == [it.value] + old(inuse)
      ensures hasRes && old(unused) != [] ==> it.Some? && it.value in old(unused) && Stock(View()) == old(Stock(View()))
      ensures hasRes && old(unused) == [] && it.Some? ==> it.value == made && unused == []
    {
      PoolModel.AcquireKeeps(View(), made);
      if hasRes {
        AcquireConserves(View(), made);
      }
      if hasRes {
        if unused == [] {
          if |inuse| < cap {
            unused := [made] + unused;
          } else {
            return None;
          }
        }
        it := Some(unused[0]);
        inuse, unused := [unused[0]] + inuse, unused[1..];
      } else {
        if size < cap {
          size := size + 1;
          return Some(size);
        }
        return None;
      }
    }

    // The id is greater than any before it, and the queue's last entry is the only one that has it.
    method AddAwaiter(who: Who, slot: Slot) returns (id: Id)
      requires Valid() && !HasSlot(awaiterQueue, slot)
      modifies this
      ensures Valid() && (View(), id) == PoolModel.AddAwaiter(old(View()), who, slot)
      ensures forall other | other in old(awaiters) :: other.seqNo < id.seqNo
      ensures forall i | IsLive(awaiterQueue, i) :: LiveId(awaiterQueue, i) == id <==> i == |awaiterQueue| - 1
    {
      AppendKeeps(awaiterQueue, awaiters, idSeq, slot, who);
      idSeq := idSeq + 1;
      id := Id(idSeq, slot);
      awaiterQueue := awaiterQueue + [Entry(slot, Some(Waiter(who, id)))];
      awaiters := awaiters + {id};
    }

    // Removes the awaiter that waits with the id, if any, and no other.
    method RemoveAwaiter(id: Id) returns (removed: bool)
      requires Valid()
      modifies this
      ensures Valid() && (View(), removed) == PoolModel.RemoveAwaiter(old(View()), id)
      ensures removed <==> Holds(old(awaiterQueue), id)
      ensures |awaiterQueue| == |old(awaiterQueue)| && !Holds(awaiterQueue, id)
      ensures forall i | 0 <= i < |awaiterQueue| ::
                if IsLive(old(awaiterQueue), i) && LiveId(old(awaiterQueue), i) == id then awaiterQueue[i].live.None?
                else awaiterQueue[i] == old(awaiterQueue)[i]
    {
      if id in awaiters {
        NullifyIsExact(awaiterQueue, awaiters, id);
        NullifyKeeps(awaiterQueue, awaiters, idSeq, id);
        awaiters := awaiters - {id};
        awaiterQueue := Nullify(awaiterQueue, id.slot);
        return true;
      }
      return false;
    }

    // Tombstones at the front are dropped.
    method PopDead()
      modifies this`awaiterQueue
      ensures awaiterQueue == DropDead(old(awaiterQueue))
    {
      while |awaiterQueue| > 0 && awaiterQueue[0].live.None?
        invariant DropDead(awaiterQueue) == DropDead(old(awaiterQueue))
        decreases |awaiterQueue|
      {
        awaiterQueue := awaiterQueue[1..];
      }
    }

    // The resource stays in use and goes to a waiter as long as there is one.
    method Recycle(it: Res) returns (w: Option<Waiter>)
      requires Valid() && (hasRes ==> it in inuse) && InUse(View()) > 0
      modifies this
      ensures Valid() && (View(), w) == PoolModel.Recycle(old(View()), it)
      ensures Recycled(old(View()), View(), it, w)
    {
      ghost var p := View();
      RecycleKeeps(p, it);
      PopDead();
      assert View() == p.(queue := DropDead(p.queue));
      w := HandOver(it);
      assert (View(), w) == PoolModel.Recycle(p, it);
    }

    // With the first awaiter, if any, alive.
    method HandOver(it: Res) returns (w: Option<Waiter>)
      modifies this
      ensures (View(), w) == PoolModel.HandOver(old(View()), it)
    {
      if |awaiterQueue| == 0 {
        if hasRes {
          inuse, unused := Without(inuse, it), [it] + unused;
        } else {
          size := if size > 0 then size - 1 else 0;
        }
        return None;
      }
      w := awaiterQueue[0].live;
      if w.Some? {
        awaiters := awaiters - {w.value.id};
        awaiterQueue := awaiterQueue[1..];
      }
    }

    // More than what exists becomes the capacity; the rest of the pool never changes.
    method Reserve(n: nat)
      requires Valid()
      modifies this`cap
      ensures Valid() && View() == PoolModel.Reserve(old(View()), n)
      ensures cap == if n > old(Occupied(View())) then n else old(cap)
    {
      var occupied := OccupiedCap();
      if n > occupied {
        cap := n;
      }
    }

    method ClearUnused()
      requires Valid()
      modifies this`unused
      ensures Valid() && View() == PoolModel.ClearUnused(old(View())) && unused == []
    {
      ClearKeeps(View());
      unused := [];
    }

    // Fills the pool up to its capacity with what the creator comes up with, one resource for each call.
    method CreateAll(made: seq<Res>)
      requires Valid() && hasRes && |made| == cap - Occupied(View())
      requires NoDuplicates(made) && forall i | 0 <= i < |made| :: IsNew(View(), made[i])
      modifies this
      ensures Valid() && View() == PoolModel.CreateAll(old(View()), made)
      ensures Occupied(View()) == cap && inuse == old(inuse)
      ensures multiset(unused) == multiset(made) + old(multiset(unused))
    {
      CreateAllKeeps(View(), made);
      PrependCounts(made, unused);
      for i := 0 to |made|
        invariant View() == old(View()).(unused := unused)
        invariant Prepend(made[i..], unused) == Prepend(made, old(unused))
      {
        assert made[i..][0] == made[i] && made[i..][1..] == made[i + 1..];
        unused := [made[i]] + unused;
      }
      assert made[|made|..] == [];
    }
  }
}
