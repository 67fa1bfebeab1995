/** The intrusive list of callbacks, relinked in place while the lock is held. */
module StopList {

  // What a __prev_ field points at: nothing, the head of the list, or the __next_ field of another node.
  datatype Link = Unlinked | AtHead | AtNextOf(node: CallbackNode)

  class CallbackNode {
    var next: CallbackNode?
    var prev: Link

    constructor ()
      ensures next == null && prev == Unlinked
    {
      next, prev := null, Unlinked;
    }
  }

  class CallbackList {
    var head: CallbackNode?
    ghost var nodes: seq<CallbackNode>  // the callbacks from the head on

    ghost predicate Valid()
      reads this, nodes
    {
      && (forall i, j | 0 <= i < j < |nodes| :: nodes[i] != nodes[j])
      && head == NodeAt(0)
      && (forall i {:trigger nodes[i].next} | 0 <= i < |nodes| :: nodes[i].next == NodeAt(i + 1))
      && (forall i {:trigger nodes[i].prev} | 0 <= i < |nodes| :: nodes[i].prev == LinkAt(i))
    }

    // The i-th node, or null past the end.
    ghost function NodeAt(i: nat): CallbackNode?
      reads this
    {
      if i < |nodes| then nodes[i] else null
    }

    ghost function LinkAt(i: nat): Link
      reads this
    {
      if 0 < i <= |nodes| then AtNextOf(nodes[i - 1]) else AtHead
    }

    constructor ()
      ensures Valid() && nodes == []
    {
      head, nodes := null, [];
    }

    method PushFront(cb: CallbackNode)
      requires Valid() && cb !in nodes
      modifies this, cb, nodes
      ensures Valid() && nodes == [cb] + old(nodes)
    {
      assert head != null ==> head == nodes[0];
      cb.next := head;
      if cb.next != null {
        cb.next.prev := AtNextOf(cb);
      }
      cb.prev := AtHead;
      head := cb;
      nodes := [cb] + nodes;
    }

    // Dequeues the head, marks it as removed, and tells whether there are more.
    method PopFront() returns (cb: CallbackNode, anyMore: bool)
      requires Valid() && head != null
      modifies this, nodes
      ensures Valid() && old(nodes) == [cb] + nodes
      ensures cb.prev == Unlinked && anyMore == (nodes != [])
    {
      assert head == nodes[0];
      cb := head;
      assert cb.next == NodeAt(1);
      head := cb.next;
      anyMore := head != null;
      if anyMore {
        head.prev := AtHead;
      }
      cb.prev := Unlinked;
      nodes := nodes[1..];
    }

    // Takes a linked node out by writing through its __prev_ pointer.
    method Unlink(cb: CallbackNode, ghost k: nat)
      requires Valid() && k < |nodes| && nodes[k] == cb
      modifies this, nodes
      ensures Valid() && nodes == old(nodes)[..k] + old(nodes)[k + 1..]
    {
      assert cb.prev == LinkAt(k) && cb.next == NodeAt(k + 1);
      match cb.prev {
        case AtHead => head := cb.next;
        case AtNextOf(node) => assert node == nodes[k - 1]; node.next := cb.next;
      }
      if cb.next != null {
        cb.next.prev := cb.prev;
      }
      nodes := nodes[..k] + nodes[k + 1..];
    }
  }
}
