// The timer service as a stable sorted list of (timer node, deadline).
module TimerSpec {
  import opened RbShape
  import opened RbOrder
  import opened Options
  import opened MachineWords

  const LAZY_DELAY: int := 300
  const INFINITE: int := TWO64 - 1

  // A cast to a 32-bit signed integer, and abs on one (whose result for the
  // least integer is that integer).
  function ToInt32(x: int): (r: int)
    ensures -TWO31 <= r < TWO31
  {
    var r := x % TWO32;
    if r < TWO31 then r else r - TWO32
  }

  function Abs32(x: int): int
  {
    if x == -TWO31 then x else if x < 0 then -x else x
  }

  // What a handler may do to the timers.
  datatype Op = Arm(n: RbNode, delay: nat) | Disarm(n: RbNode)

  predicate Due(key: nat, now: nat) { ToInt32(key - now) <= 0 }

  // Deadlines closer to now than 2^31 ms, on a clock that does not wrap meanwhile.
  ghost predicate InRange(s: seq<Item>, now: nat)
  {
    now + TWO31 <= TWO64 && forall x :: x in s ==> -TWO31 < x.key - now < TWO31
  }

  function Lookup(s: seq<Item>, n: RbNode): Option<nat>
  {
    if s == [] then None else if s[0].n == n then Some(s[0].key) else Lookup(s[1..], n)
  }

  // add_timer: a new deadline close to the old one changes nothing.
  function Added(s: seq<Item>, now: nat, n: RbNode, delay: nat): seq<Item>
  {
    var key := (now + delay) % TWO64;
    match Lookup(s, n)
    case None => Inserted(s, Item(n, key))
    case Some(k) =>
      if Abs32(ToInt32(key - k)) < LAZY_DELAY then s else Inserted(Removed(s, n), Item(n, key))
  }

  function Done(s: seq<Item>, now: nat, op: Op): seq<Item>
  {
    match op
    case Arm(n, delay) => Added(s, now, n, delay)
    case Disarm(n) => Removed(s, n)
  }

  function AllDone(s: seq<Item>, now: nat, ops: seq<Op>): seq<Item>
    decreases |ops|
  {
    if ops == [] then s else AllDone(Done(s, now, ops[0]), now, ops[1..])
  }

  // The items that are due, from the front.
  function DuePart(s: seq<Item>, now: nat): seq<Item>
  {
    if s == [] || !Due(s[0].key, now) then [] else [s[0]] + DuePart(s[1..], now)
  }

  // No handler arms a timer that is due at once.
  ghost predicate NoneDueAtOnce(h: map<RbNode, seq<Op>>)
  {
    forall n, i :: n in h && 0 <= i < |h[n]| && h[n][i].Arm? ==> 0 < h[n][i].delay < TWO31
  }

  function OpsOf(h: map<RbNode, seq<Op>>, n: RbNode): seq<Op> { if n in h then h[n] else [] }

  lemma DueMeans(key: nat, now: nat)
    requires -TWO31 < key - now < TWO31
    ensures Due(key, now) <==> key <= now
    ensures ToInt32(key - now) == key - now
  {
  }

  lemma {:induction false} DueInserted(s: seq<Item>, it: Item, now: nat)
    requires InRange(s, now) && now < it.key < now + TWO31
    ensures DuePart(Inserted(s, it), now) == DuePart(s, now)
  {
    DueMeans(it.key, now);
    if s != [] {
      DueMeans(s[0].key, now);
      if s[0].key <= it.key {
        assert Inserted(s, it)[1..] == Inserted(s[1..], it);
        DueInserted(s[1..], it, now);
      } else {
        assert Inserted(s, it) == [it] + s;
      }
    }
  }

  lemma {:induction false} DueRemoved(s: seq<Item>, n: RbNode, now: nat)
    requires InRange(s, now) && Sorted(s)
    ensures |DuePart(Removed(s, n), now)| <= |DuePart(s, now)|
    ensures (forall x :: x in DuePart(s, now) ==> x.n != n) ==> DuePart(Removed(s, n), now) == DuePart(s, now)
  {
    if s != [] {
      DueMeans(s[0].key, now);
      if s[0].n == n {
        if |s| > 1 {
          DueMeans(s[1].key, now);
        }
      } else {
        assert Removed(s, n)[1..] == Removed(s[1..], n);
        DueRemoved(s[1..], n, now);
      }
    }
  }

  lemma {:induction false} InsertedMembers(s: seq<Item>, it: Item)
    ensures forall x :: x in Inserted(s, it) <==> x in s || x == it
  {
    if s != [] && s[0].key <= it.key {
      InsertedMembers(s[1..], it);
    }
  }

  // s' is as good a timer list as s, with nothing more due.
  ghost predicate Keeps(s: seq<Item>, s': seq<Item>, n: RbNode, now: nat)
  {
    && InRange(s', now) && Sorted(s')
    && |DuePart(s', now)| <= |DuePart(s, now)|
    && ((forall x :: x in DuePart(s, now) ==> x.n != n) ==> DuePart(s', now) == DuePart(s, now))
  }

  lemma RemoveKeeps(s: seq<Item>, n: RbNode, now: nat)
    requires InRange(s, now) && Sorted(s)
    ensures Keeps(s, Removed(s, n), n, now)
  {
    DueRemoved(s, n, now);
    RemovedSorted(s, n);
  }

  lemma InsertKeeps(s: seq<Item>, it: Item, now: nat)
    requires InRange(s, now) && Sorted(s) && now < it.key < now + TWO31
    ensures Keeps(s, Inserted(s, it), it.n, now)
  {
    var i := InsertedFacts(s, it);
    InsertedMembers(s, it);
    DueInserted(s, it, now);
  }

  // One operation keeps the list sorted and in range, and adds nothing due.
  lemma DoneKeeps(s: seq<Item>, now: nat, op: Op)
    requires InRange(s, now) && Sorted(s) && (op.Arm? ==> 0 < op.delay < TWO31)
    ensures Keeps(s, Done(s, now, op), op.n, now)
  {
    hide Inserted, Removed, DuePart, Sorted;
    RemoveKeeps(s, op.n, now);
    if op.Arm? {
      var it := Item(op.n, now + op.delay);
      assert (now + op.delay) % TWO64 == now + op.delay;
      InsertKeeps(s, it, now);
      InsertKeeps(Removed(s, op.n), it, now);
    }
  }

  lemma {:induction false} AllDoneKeeps(s: seq<Item>, now: nat, ops: seq<Op>)
    requires InRange(s, now) && Sorted(s)
    requires forall i :: 0 <= i < |ops| && ops[i].Arm? ==> 0 < ops[i].delay < TWO31
    ensures var s' := AllDone(s, now, ops);
      && InRange(s', now) && Sorted(s')
      && |DuePart(s', now)| <= |DuePart(s, now)|
      && ((forall x, i :: x in DuePart(s, now) && 0 <= i < |ops| ==> x.n != ops[i].n) ==>
            DuePart(s', now) == DuePart(s, now))
    decreases |ops|
  {
    if ops != [] {
      DoneKeeps(s, now, ops[0]);
      AllDoneKeeps(Done(s, now, ops[0]), now, ops[1..]);
    }
  }

  datatype Fired = Fired(left: seq<Item>, fired: seq<RbNode>)

  // expire: fires the first timer while it is due; each handler then acts on the rest.
  function Expired(s: seq<Item>, now: nat, h: map<RbNode, seq<Op>>): Fired
    requires InRange(s, now) && Sorted(s) && NoneDueAtOnce(h)
    decreases |DuePart(s, now)|
  {
    if s == [] || !Due(s[0].key, now) then Fired(s, [])
    else
      AllDoneKeeps(s[1..], now, OpsOf(h, s[0].n));
      var r := Expired(AllDone(s[1..], now, OpsOf(h, s[0].n)), now, h);
      Fired(r.left, [s[0].n] + r.fired)
  }

  lemma AllDoneStep(s: seq<Item>, now: nat, ops: seq<Op>)
    ensures ops == [] ==> AllDone(s, now, ops) == s
    ensures ops != [] ==> AllDone(s, now, ops) == AllDone(Done(s, now, ops[0]), now, ops[1..])
  {
  }

  // A handler that arms its own timer with no delay: a turn of the loop leaves
  // the list as it was, so the loop does not end.
  lemma ExpiredForever(n: RbNode, now: nat)
    requires now < TWO64
    ensures var s := [Item(n, now)]; Due(s[0].key, now) && AllDone(s[1..], now, [Arm(n, 0)]) == s
  {
    hide AllDone;
    var s, arm: seq<Op> := [Item(n, now)], [Arm(n, 0)];
    assert |s[1..]| == 0 && |arm[1..]| == 0;
    AllDoneStep(s[1..], now, arm);
    AllDoneStep(s, now, arm[1..]);
    assert Done([], now, arm[0]) == s;
  }

  function NodesOf(s: seq<Item>): (r: seq<RbNode>)
    ensures |r| == |s| && forall i :: 0 <= i < |s| ==> r[i] == s[i].n
  {
    seq(|s|, i requires 0 <= i < |s| => s[i].n)
  }

  // The handlers of the due timers, one after the other, on the rest.
  function HandlersRun(due: seq<Item>, rest: seq<Item>, now: nat, h: map<RbNode, seq<Op>>): seq<Item>
  {
    if due == [] then rest
    else HandlersRun(due[1..], AllDone(rest, now, OpsOf(h, due[0].n)), now, h)
  }

  // No handler touches a timer that is due and has its turn later.
  ghost predicate LeaveLaterDue(due: seq<Item>, h: map<RbNode, seq<Op>>)
  {
    forall i, j, k :: 0 <= i < j < |due| && 0 <= k < |OpsOf(h, due[i].n)| ==> OpsOf(h, due[i].n)[k].n != due[j].n
  }

  // After expire nothing is due.
  lemma {:induction false} ExpiredLeavesNoneDue(s: seq<Item>, now: nat, h: map<RbNode, seq<Op>>)
    requires InRange(s, now) && Sorted(s) && NoneDueAtOnce(h)
    ensures var left := Expired(s, now, h).left;
      InRange(left, now) && Sorted(left) && forall x :: x in left ==> now < x.key
    decreases |DuePart(s, now)|
  {
    if s != [] {
      DueMeans(s[0].key, now);
      if Due(s[0].key, now) {
        AllDoneKeeps(s[1..], now, OpsOf(h, s[0].n));
        ExpiredLeavesNoneDue(AllDone(s[1..], now, OpsOf(h, s[0].n)), now, h);
      }
    }
  }

  lemma {:induction false} DueMembers(s: seq<Item>, now: nat)
    requires InRange(s, now) && Sorted(s)
    ensures |DuePart(s, now)| <= |s| && DuePart(s, now) == s[..|DuePart(s, now)|]
    ensures forall i :: 0 <= i < |s| ==> (s[i].key <= now <==> i < |DuePart(s, now)|)
  {
    if s != [] {
      DueMeans(s[0].key, now);
      if Due(s[0].key, now) {
        DueMembers(s[1..], now);
      }
    }
  }

  // An operation on timers that are not due passes the due ones by.
  ghost predicate PassedBy(d: seq<Item>, now: nat, op: Op)
  {
    forall x :: x in d ==> x.key <= now && x.n != op.n
  }

  lemma {:induction false} LookupBehind(d: seq<Item>, rest: seq<Item>, n: RbNode)
    requires forall x :: x in d ==> x.n != n
    ensures Lookup(d + rest, n) == Lookup(rest, n)
    ensures Removed(d + rest, n) == d + Removed(rest, n)
  {
    if d == [] {
      assert d + rest == rest && d + Removed(rest, n) == Removed(rest, n);
    } else {
      assert (d + rest)[1..] == d[1..] + rest;
      LookupBehind(d[1..], rest, n);
      assert [d[0]] + (d[1..] + Removed(rest, n)) == d + Removed(rest, n);
    }
  }

  lemma {:induction false} InsertedBehind(d: seq<Item>, rest: seq<Item>, it: Item)
    requires forall x :: x in d ==> x.key <= it.key
    ensures Inserted(d + rest, it) == d + Inserted(rest, it)
  {
    if d == [] {
      assert d + rest == rest && d + Inserted(rest, it) == Inserted(rest, it);
    } else {
      assert (d + rest)[1..] == d[1..] + rest;
      InsertedBehind(d[1..], rest, it);
      assert [d[0]] + (d[1..] + Inserted(rest, it)) == d + Inserted(rest, it);
    }
  }

  lemma DoneBehind(d: seq<Item>, rest: seq<Item>, now: nat, op: Op)
    requires PassedBy(d, now, op) && now + TWO31 <= TWO64 && (op.Arm? ==> 0 < op.delay < TWO31)
    ensures Done(d + rest, now, op) == d + Done(rest, now, op)
  {
    hide Inserted, Removed, Lookup;
    LookupBehind(d, rest, op.n);
    if op.Arm? {
      var it := Item(op.n, (now + op.delay) % TWO64);
      InsertedBehind(d, rest, it);
      InsertedBehind(d, Removed(rest, op.n), it);
    }
  }

  lemma {:induction false} AllDoneBehind(d: seq<Item>, rest: seq<Item>, now: nat, ops: seq<Op>)
    requires now + TWO31 <= TWO64
    requires forall i :: 0 <= i < |ops| ==> PassedBy(d, now, ops[i]) && (ops[i].Arm? ==> 0 < ops[i].delay < TWO31)
    ensures AllDone(d + rest, now, ops) == d + AllDone(rest, now, ops)
    decreases |ops|
  {
    if ops != [] {
      DoneBehind(d, rest, now, ops[0]);
      AllDoneBehind(d, Done(rest, now, ops[0]), now, ops[1..]);
    }
  }

  lemma {:induction false} DuePartOf(d: seq<Item>, rest: seq<Item>, now: nat)
    requires InRange(d, now) && InRange(rest, now)
    requires (forall x :: x in d ==> x.key <= now) && (forall x :: x in rest ==> now < x.key)
    ensures DuePart(d + rest, now) == d
  {
    if d == [] {
      assert d + rest == rest;
      if rest != [] { DueMeans(rest[0].key, now); }
    } else {
      DueMeans(d[0].key, now);
      assert (d + rest)[1..] == d[1..] + rest;
      DuePartOf(d[1..], rest, now);
    }
  }

  // The handler of the first due timer acts on the timers not due only.
  lemma FirstHandler(due: seq<Item>, rest: seq<Item>, now: nat, h: map<RbNode, seq<Op>>)
    requires InRange(due + rest, now) && NoneDueAtOnce(h) && LeaveLaterDue(due, h) && due != []
    requires forall x :: x in due ==> x.key <= now
    ensures var ops := OpsOf(h, due[0].n);
      AllDone((due + rest)[1..], now, ops) == due[1..] + AllDone(rest, now, ops)
    ensures LeaveLaterDue(due[1..], h)
  {
    var ops := OpsOf(h, due[0].n);
    assert (due + rest)[1..] == due[1..] + rest;
    forall i | 0 <= i < |ops|
      ensures PassedBy(due[1..], now, ops[i])
    {
      forall x | x in due[1..]
        ensures x.key <= now && x.n != ops[i].n
      {
        var j :| 0 <= j < |due[1..]| && due[1..][j] == x;
        assert x == due[j + 1];
      }
    }
    AllDoneBehind(due[1..], rest, now, ops);
    forall i, j, k | 0 <= i < j < |due[1..]| && 0 <= k < |OpsOf(h, due[1..][i].n)|
      ensures OpsOf(h, due[1..][i].n)[k].n != due[1..][j].n
    {
      assert due[1..][i] == due[i + 1] && due[1..][j] == due[j + 1];
    }
  }

  // due is all that is due of a timer list, rest is what is not.
  ghost predicate Split(due: seq<Item>, rest: seq<Item>, now: nat, h: map<RbNode, seq<Op>>)
  {
    && InRange(due + rest, now) && Sorted(due + rest) && LeaveLaterDue(due, h)
    && (forall x :: x in due ==> x.key <= now) && (forall x :: x in rest ==> now < x.key)
  }

  lemma NoneDue(s': seq<Item>, now: nat, s: seq<Item>, ops: seq<Op>)
    requires InRange(s, now) && InRange(s', now) && Sorted(s') && |DuePart(s', now)| <= |DuePart(s, now)|
    requires Sorted(s) && forall x :: x in s ==> now < x.key
    ensures forall x :: x in s' ==> now < x.key
  {
    DueMembers(s, now);
    DueMembers(s', now);
    assert |DuePart(s, now)| == 0;
  }

  lemma SortedRest(d: seq<Item>, rest: seq<Item>)
    requires Sorted(d + rest)
    ensures Sorted(rest)
  {
    forall i, j | 0 <= i < j < |rest|
      ensures rest[i].key <= rest[j].key
    {
      assert (d + rest)[|d| + i] == rest[i] && (d + rest)[|d| + j] == rest[j];
    }
  }

  lemma ExpireStep(due: seq<Item>, rest: seq<Item>, now: nat, h: map<RbNode, seq<Op>>)
    requires Split(due, rest, now, h) && NoneDueAtOnce(h) && due != []
    ensures Split(due[1..], AllDone(rest, now, OpsOf(h, due[0].n)), now, h)
  {
    hide AllDone, DuePart, Sorted;
    var s, ops := due + rest, OpsOf(h, due[0].n);
    FirstHandler(due, rest, now, h);
    assert s == [due[0]] + s[1..];
    SortedRest([due[0]], s[1..]);
    SortedRest(due, rest);
    AllDoneKeeps(s[1..], now, ops);
    AllDoneKeeps(rest, now, ops);
    NoneDue(AllDone(rest, now, ops), now, rest, ops);
  }

  lemma NothingDue(rest: seq<Item>, now: nat, h: map<RbNode, seq<Op>>)
    requires Split([], rest, now, h) && NoneDueAtOnce(h)
    ensures InRange(rest, now) && Sorted(rest) && Expired(rest, now, h) == Fired(rest, [])
  {
    assert [] + rest == rest;
    if rest != [] {
      DueMeans(rest[0].key, now);
    }
  }

  lemma FirstFires(due: seq<Item>, rest: seq<Item>, now: nat, h: map<RbNode, seq<Op>>)
    requires Split(due, rest, now, h) && NoneDueAtOnce(h) && due != []
    requires Split(due[1..], AllDone(rest, now, OpsOf(h, due[0].n)), now, h)
    ensures var r := Expired(due[1..] + AllDone(rest, now, OpsOf(h, due[0].n)), now, h);
      Expired(due + rest, now, h) == Fired(r.left, [due[0].n] + r.fired)
  {
    hide AllDone, DuePart, Sorted;
    DueMeans((due + rest)[0].key, now);
    FirstHandler(due, rest, now, h);
    assert (due + rest)[0] == due[0];
  }

  // When no handler touches a due timer that has its turn later, expire fires
  // exactly the timers due, in the order of the list, and their handlers act,
  // in that order, on exactly the timers not due.
  lemma {:induction false} ExpiredFiresTheDue(due: seq<Item>, rest: seq<Item>, now: nat, h: map<RbNode, seq<Op>>)
    requires Split(due, rest, now, h) && NoneDueAtOnce(h)
    ensures Expired(due + rest, now, h) == Fired(HandlersRun(due, rest, now, h), NodesOf(due))
    decreases |due|
  {
    hide AllDone, DuePart, Sorted, Split;
    if due == [] {
      assert due + rest == rest;
      NothingDue(rest, now, h);
    } else {
      ExpireStep(due, rest, now, h);
      FirstFires(due, rest, now, h);
      ExpiredFiresTheDue(due[1..], AllDone(rest, now, OpsOf(h, due[0].n)), now, h);
      assert NodesOf(due) == [due[0].n] + NodesOf(due[1..]);
    }
  }

  // ---- add_timer ----

  ghost predicate NoTwice(s: seq<Item>)
  {
    forall i, j :: 0 <= i < j < |s| ==> s[i].n != s[j].n
  }

  lemma {:induction false} LookupIn(s: seq<Item>, n: RbNode)
    ensures Lookup(s, n).None? <==> forall x :: x in s ==> x.n != n
    ensures Lookup(s, n).Some? ==> Item(n, Lookup(s, n).value) in s
  {
    if s != [] && s[0].n != n {
      LookupIn(s[1..], n);
    }
  }

  lemma {:induction false} LookupInserted(s: seq<Item>, it: Item, n: RbNode)
    requires Lookup(s, it.n).None?
    ensures Lookup(Inserted(s, it), n) == if n == it.n then Some(it.key) else Lookup(s, n)
  {
    if s != [] && s[0].key <= it.key {
      assert Inserted(s, it)[1..] == Inserted(s[1..], it);
      LookupInserted(s[1..], it, n);
    } else {
      assert Inserted(s, it)[1..] == s;
    }
  }

  lemma {:induction false} LookupRemoved(s: seq<Item>, n: RbNode, n': RbNode)
    requires NoTwice(s)
    ensures Lookup(Removed(s, n), n') == if n' == n then None else Lookup(s, n')
  {
    if s != [] {
      if s[0].n == n {
        LookupIn(s[1..], n);
      } else {
        assert Removed(s, n)[1..] == Removed(s[1..], n);
        LookupRemoved(s[1..], n, n');
      }
    }
  }

  // The deadline of n is within 300 ms of key.
  predicate CloseTo(s: seq<Item>, n: RbNode, key: int)
  {
    Lookup(s, n).Some? && -300 < Lookup(s, n).value - key < 300
  }

  // The program takes the old deadline for close enough.
  predicate KeptOld(s: seq<Item>, n: RbNode, key: int)
  {
    Lookup(s, n).Some? && Abs32(ToInt32(key - Lookup(s, n).value)) < LAZY_DELAY
  }

  lemma AddedLookup(s: seq<Item>, now: nat, n: RbNode, delay: nat, n': RbNode)
    requires NoTwice(s) && !KeptOld(s, n, (now + delay) % TWO64)
    ensures Lookup(Added(s, now, n, delay), n') == if n' == n then Some((now + delay) % TWO64) else Lookup(s, n')
  {
    hide Lookup, Inserted, Removed;
    var it := Item(n, (now + delay) % TWO64);
    if Lookup(s, n).None? {
      LookupInserted(s, it, n');
    } else {
      LookupRemoved(s, n, n);
      LookupRemoved(s, n, n');
      LookupInserted(Removed(s, n), it, n');
    }
  }

  // add_timer leaves a deadline less than 300 ms from the one asked for exactly
  // when the 32-bit difference it looks at does not hide a large one; no other
  // deadline changes.
  lemma AddedIsClose(s: seq<Item>, now: nat, n: RbNode, delay: nat)
    requires NoTwice(s)
    ensures var key, s' := (now + delay) % TWO64, Added(s, now, n, delay);
      && (CloseTo(s', n, key) <==> !KeptOld(s, n, key) || CloseTo(s, n, key))
      && (forall n' :: n' != n ==> Lookup(s', n') == Lookup(s, n'))
  {
    var key := (now + delay) % TWO64;
    LookupRemoved(s, n, n);
    if !KeptOld(s, n, key) {
      forall n'
        ensures Lookup(Added(s, now, n, delay), n') == if n' == n then Some(key) else Lookup(s, n')
      {
        AddedLookup(s, now, n, delay, n');
      }
    }
  }

  lemma SmallDifference(d: int)
    requires -TWO31 < d < TWO31
    ensures Abs32(ToInt32(d)) < 300 ==> -300 < d < 300
  {
  }

  // In range, the 32-bit difference is the difference, so the deadline is close.
  lemma AddedIsCloseInRange(s: seq<Item>, now: nat, n: RbNode, delay: nat)
    requires NoTwice(s) && delay < TWO31 && now + delay < TWO64
    requires forall x :: x in s ==> -TWO31 < now + delay - x.key < TWO31
    ensures CloseTo(Added(s, now, n, delay), n, now + delay)
  {
    hide Added, NoTwice, Lookup, ToInt32, Abs32;
    AddedIsClose(s, now, n, delay);
    LookupIn(s, n);
    if KeptOld(s, n, now + delay) {
      SmallDifference(now + delay - Lookup(s, n).value);
    }
  }

  // 2^32 ms between the old deadline and the new one look like none at all.
  lemma AddedFarOff(n: RbNode)
    ensures var s, now := [Item(n, 1000)], TWO32;
      Added(s, now, n, 1000) == s && !CloseTo(s, n, now + 1000)
  {
  }

  // ---- find ----

  // find: the gap to the first deadline, cut to 32 bits and read as unsigned.
  function Found(s: seq<Item>, now: nat): int
  {
    if s == [] then INFINITE
    else
      var timer := ToInt32(s[0].key - now) % TWO64;
      if timer > 0 then timer else 0
  }

  // The time to sleep: until the earliest deadline, or not at all.
  function Wait(s: seq<Item>, now: nat): int
  {
    if s == [] then INFINITE else if s[0].key <= now then 0 else s[0].key - now
  }

  // find gives the time to sleep exactly when no timer is overdue.
  lemma FoundIsWait(s: seq<Item>, now: nat)
    requires InRange(s, now) && Sorted(s)
    ensures Found(s, now) == Wait(s, now) <==> forall x :: x in s ==> now <= x.key
    ensures forall x :: x in s && x.key < now ==> Found(s, now) >= TWO64 - TWO31
  {
    if s != [] {
      DueMeans(s[0].key, now);
    }
  }

  // One timer, overdue by a millisecond: find says to sleep for ages.
  lemma FoundOverdue(n: RbNode)
    ensures Found([Item(n, 99)], 100) == TWO64 - 1 && Wait([Item(n, 99)], 100) == 0
  {
  }

  // ---- one turn of the loops ----

  lemma {:induction false} RemovedAbsent(s: seq<Item>, n: RbNode)
    requires Lookup(s, n).None?
    ensures Removed(s, n) == s
  {
    if s != [] {
      RemovedAbsent(s[1..], n);
    }
  }

  lemma ExpiredStep(s: seq<Item>, now: nat, h: map<RbNode, seq<Op>>)
    requires InRange(s, now) && Sorted(s) && NoneDueAtOnce(h)
    ensures (s == [] || !Due(s[0].key, now)) ==> Expired(s, now, h) == Fired(s, [])
    ensures s != [] && Due(s[0].key, now) ==>
      var s' := AllDone(Removed(s, s[0].n), now, OpsOf(h, s[0].n));
      && InRange(s', now) && Sorted(s') && |DuePart(s', now)| < |DuePart(s, now)|
      && Expired(s, now, h) == Fired(Expired(s', now, h).left, [s[0].n] + Expired(s', now, h).fired)
  {
    if s != [] && Due(s[0].key, now) {
      assert Removed(s, s[0].n) == s[1..];
      AllDoneKeeps(s[1..], now, OpsOf(h, s[0].n));
    }
  }
}
