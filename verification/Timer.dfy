// The timer service over the tree.
module Timer {
  import opened RbShape
  import opened RbOrder
  import opened RbDelete
  import opened RbTree
  import opened TimerSpec
  import opened Options
  import opened MachineWords

  const RET_AGAIN := -2

  class Event {
    const keyTimer: RbNode
    var timerSet: bool
    var timedOut: bool
    var cancelable: bool

    constructor (n: RbNode, cancelable: bool)
      ensures keyTimer == n && !timerSet && !timedOut && this.cancelable == cancelable
    {
      keyTimer := n;
      timerSet, timedOut := false, false;
      this.cancelable := cancelable;
    }
  }

  class EventTimer {
    const rbtree: RbTree
    // from an embedded node to the event around it
    const events: map<RbNode, Event>
    const handlers: map<RbNode, seq<Op>>
    var now: nat

    constructor (tree: RbTree, events: map<RbNode, Event>, handlers: map<RbNode, seq<Op>>, now: nat)
      ensures rbtree == tree && this.events == events && this.handlers == handlers && this.now == now
    {
      this.rbtree, this.events, this.handlers, this.now := tree, events, handlers, now;
    }

    ghost predicate Valid()
      reads this, rbtree, rbtree.repr, events.Values
    {
      && rbtree.Valid() && rbtree.sentinel !in events && rbtree.repr <= events.Keys + {rbtree.sentinel}
      && (forall n :: n in events ==> events[n].keyTimer == n && (events[n].timerSet <==> n in rbtree.repr))
      && (forall n, i :: n in handlers && 0 <= i < |handlers[n]| ==> handlers[n][i].n in events)
    }

    ghost function Items(): seq<Item>
      reads this, rbtree
    {
      rbtree.Items()
    }

    lemma PendingFacts(ev: Event)
      requires Valid() && ev.keyTimer in events && events[ev.keyTimer] == ev
      ensures ev.timerSet <==> Lookup(Items(), ev.keyTimer).Some?
      ensures ev.timerSet ==> Lookup(Items(), ev.keyTimer).value == ev.keyTimer.key
      ensures ev.keyTimer in rbtree.repr <==> ev.timerSet
      ensures ev.keyTimer != rbtree.sentinel
    {
      var s, n := Items(), ev.keyTimer;
      rbtree.ItemOf(n);
      LookupIn(s, n);
      if ev.timerSet {
        var k := Lookup(s, n).value;
        var i: nat :| i < |s| && s[i] == Item(n, k);
        var j: nat :| j < |s| && s[j] == Item(n, n.key);
        OrderDistinct(rbtree.tree, i, j);
      }
    }

    // No timer node is in the tree twice.
    lemma ItemsOnce()
      requires Valid()
      ensures NoTwice(Items())
    {
      var s := Items();
      forall i, j | 0 <= i < j < |s|
        ensures s[i].n != s[j].n
      {
        if s[i].n == s[j].n {
          OrderDistinct(rbtree.tree, i, j);
        }
      }
    }

    lemma SortedItems()
      requires Valid()
      ensures Sorted(Items())
    {
    }

    method DelTimer(ev: Event)
      requires Valid() && ev.keyTimer in events && events[ev.keyTimer] == ev && ev.timerSet
      modifies rbtree, rbtree.repr, ev`timerSet
      ensures Valid() && Items() == Removed(old(Items()), ev.keyTimer)
      ensures rbtree.repr == old(rbtree.repr) - {ev.keyTimer} && !ev.timerSet
      ensures ev.keyTimer.left == null && ev.keyTimer.right == null && ev.keyTimer.parent == null
    {
      hide RbTree.Valid, RbTree.Items, Removed;
      var n := ev.keyTimer;
      rbtree.Delete(n);
      n.left := null;
      n.right := null;
      n.parent := null;
      ev.timerSet := false;
    }

    method AddTimer(ev: Event, timer: nat)
      requires Valid() && ev.keyTimer in events && events[ev.keyTimer] == ev
      modifies rbtree, rbtree.repr, ev`timerSet, ev.keyTimer
      ensures Valid() && Items() == Added(old(Items()), now, ev.keyTimer, timer)
      ensures rbtree.repr == old(rbtree.repr) + {ev.keyTimer} && ev.timerSet
    {
      hide RbTree.Valid, RbTree.Items, Removed, Inserted, Lookup;
      PendingFacts(ev);
      var key := (now + timer) % TWO64;
      if ev.timerSet {
        var diff := ToInt32(key - ev.keyTimer.key);
        if Abs32(diff) < LAZY_DELAY {
          return;
        }
        DelTimer(ev);
      }
      ev.keyTimer.key := key;
      rbtree.Insert(ev.keyTimer);
      ev.timerSet := true;
    }

    // The handler of ev, acting on the timers.
    method RunHandler(n: RbNode)
      requires Valid()
      modifies rbtree, rbtree.sentinel, events.Keys, events.Values`timerSet
      ensures Valid() && Items() == AllDone(old(Items()), now, OpsOf(handlers, n))
    {
      hide RbTree.Valid, RbTree.Items, Removed, Added, AllDone, Lookup, Inserted;
      var ops := OpsOf(handlers, n);
      var i := 0;
      ghost var s := Items();
      assert ops[0..] == ops;
      while i < |ops|
        invariant 0 <= i <= |ops| && Valid()
        invariant AllDone(Items(), now, ops[i..]) == AllDone(s, now, ops)
      {
        AllDoneStep(Items(), now, ops[i..]);
        assert ops[i..][1..] == ops[i + 1..];
        var ev := events[ops[i].n];
        match ops[i] {
          case Arm(_, delay) =>
            AddTimer(ev, delay);
          case Disarm(_) =>
            PendingFacts(ev);
            if ev.timerSet {
              DelTimer(ev);
            } else {
              RemovedAbsent(Items(), ev.keyTimer);
            }
        }
        i := i + 1;
      }
      AllDoneStep(Items(), now, ops[i..]);
    }

    // The timer ev runs out: its handler acts when it is off the tree.
    method Fire(ev: Event)
      requires Valid() && ev.keyTimer in events && events[ev.keyTimer] == ev && ev.timerSet
      modifies rbtree, rbtree.sentinel, events.Keys, events.Values`timerSet, ev`timedOut
      ensures Valid() && ev.timedOut
      ensures forall n :: n in events && n != ev.keyTimer ==> events[n].timedOut == old(events[n].timedOut)
      ensures Items() == AllDone(Removed(old(Items()), ev.keyTimer), now, OpsOf(handlers, ev.keyTimer))
    {
      hide RbTree.Valid, RbTree.Items, Removed, AllDone;
      PendingFacts(ev);
      rbtree.Delete(ev.keyTimer);
      ev.timerSet := false;
      ev.timedOut := true;
      RunHandler(ev.keyTimer);
    }

    // The first node of a tree that is not empty.
    method First() returns (node: RbNode)
      requires Valid() && rbtree.root != rbtree.sentinel
      ensures Items() != [] && node == Items()[0].n && node.key == Items()[0].key
      ensures node in events && events[node].timerSet && events[node].keyTimer == node
    {
      rbtree.RootOf();
      node := rbtree.Min(rbtree.root, Top, rbtree.tree);
      rbtree.FirstItem();
    }

    lemma EmptyTree()
      requires Valid()
      ensures rbtree.root == rbtree.sentinel <==> Items() == []
    {
      rbtree.RootOf();
    }

    method Expire() returns (fired: seq<RbNode>)
      requires Valid() && InRange(Items(), now) && NoneDueAtOnce(handlers)
      modifies rbtree, rbtree.sentinel, events.Keys, events.Values`timerSet, events.Values`timedOut
      ensures Valid() && Sorted(old(Items()))
      ensures Fired(Items(), fired) == Expired(old(Items()), now, handlers)
      ensures forall n :: n in fired ==> n in events
      ensures forall n :: n in events ==>
        && events[n].timedOut == (old(events[n].timedOut) || n in fired)
        && events[n].cancelable == old(events[n].cancelable)
    {
      hide EventTimer.Valid, RbTree.Valid, RbTree.Items, Removed, AllDone, Sorted, Expired, DuePart;
      fired := [];
      ghost var s := Items();
      SortedItems();
      while true
        invariant Valid() && InRange(Items(), now) && Sorted(Items()) && Sorted(s)
        invariant var r := Expired(Items(), now, handlers);
          Expired(s, now, handlers) == Fired(r.left, fired + r.fired)
        invariant forall n :: n in fired ==> n in events
        invariant forall n :: n in events ==> events[n].timedOut == (old(events[n].timedOut) || n in fired)
        decreases |DuePart(Items(), now)|
      {
        ExpiredStep(Items(), now, handlers);
        EmptyTree();
        if rbtree.root == rbtree.sentinel {
          assert fired + [] == fired;
          return;
        }
        var node := First();
        if ToInt32(node.key - now) > 0 {
          assert fired + [] == fired;
          return;
        }
        Fire(events[node]);
        fired := fired + [node];
      }
    }

    // The time until the first deadline, as the program computes it.
    method Find() returns (timer: int)
      requires Valid()
      ensures timer == Found(Items(), now)
    {
      EmptyTree();
      if rbtree.root == rbtree.sentinel {
        return INFINITE;
      }
      var node := First();
      timer := ToInt32(node.key - now) % TWO64;
      timer := if timer > 0 then timer else 0;
    }

    // 0 when all pending timers are cancelable, RET_AGAIN else.
    method NoLeft() returns (r: int)
      requires Valid()
      ensures r == 0 || r == RET_AGAIN
      ensures r == 0 <==> forall x :: x in Items() ==> x.n in events && events[x.n].cancelable
    {
      EmptyTree();
      if rbtree.root == rbtree.sentinel {
        return 0;
      }
      var first := First();
      var node: RbNode? := first;
      ghost var i := 0;
      while node != null
        invariant 0 <= i <= |Items()| && (node == null <==> i == |Items()|)
        invariant i < |Items()| ==> node == Items()[i].n
        invariant forall j :: 0 <= j < i ==> Items()[j].n in events && events[Items()[j].n].cancelable
        decreases |Items()| - i
      {
        rbtree.ItemInTree(i);
        var ev := events[node];
        if !ev.cancelable {
          assert Items()[i] in Items();
          return RET_AGAIN;
        }
        node := rbtree.Next(node, i);
        i := i + 1;
      }
      return 0;
    }
  }
}
