// Connections that are handed out, closed and reused, on the epoll back end.
module Connection {
  import opened Lists

  // The fields that the connection code and the back end read and write.
  class Event {
    var write: bool
    var accept: bool
    var instance: bool
    var active: bool
    var ready: bool
    var complete: bool
    var timedOut: bool
    var timerSet: bool
    var posted: bool
    var closed: bool
    var available: int
    var index: int

    // memset with 0.
    method Clear()
      modifies this
      ensures !write && !accept && !instance && !active && !ready && !complete && !timedOut
      ensures !timerSet && !posted && !closed && available == 0 && index == 0
    {
      write, accept, instance, active, ready, complete := false, false, false, false, false, false;
      timedOut, timerSet, posted, closed, available, index := false, false, false, false, 0, 0;
    }
  }

  class Conn {
    var fd: int
    var shared: bool
    const read: Event
    const write: Event

    // The two events are blocks of memory that nothing else has touched yet.
    constructor ()
      ensures fresh(read) && fresh(write) && read != write
      ensures read.closed && read.instance && write.closed
    {
      read, write := new Event, new Event;
      new;
      read.closed, read.instance, write.closed := true, true, true;
    }
  }

  const INVALID_INDEX := 0xd0d0d0d0

  // The posted queues, by their elements.
  datatype Queues = Queues(accept: seq<Event>, next: seq<Event>, events: seq<Event>)

  datatype Name = ToAccept | ToNext | ToEvents

  ghost function All(q: Queues): seq<Event> { q.accept + q.next + q.events }

  function Drop(s: seq<Event>, e: Event): seq<Event>
  {
    if s == [] then [] else if s[0] == e then Drop(s[1..], e) else [s[0]] + Drop(s[1..], e)
  }

  function DropAll(q: Queues, e: Event): Queues
  {
    Queues(Drop(q.accept, e), Drop(q.next, e), Drop(q.events, e))
  }

  function Append(q: Queues, name: Name, e: Event): Queues
  {
    match name
    case ToAccept => q.(accept := q.accept + [e])
    case ToNext => q.(next := q.next + [e])
    case ToEvents => q.(events := q.events + [e])
  }

  lemma {:induction false} DropFacts(s: seq<Event>, e: Event)
    ensures forall x :: x in Drop(s, e) <==> x in s && x != e
    ensures Distinct(s) ==> Distinct(Drop(s, e))
    ensures e !in s ==> Drop(s, e) == s
  {
    if s != [] {
      assert s == [s[0]] + s[1..];
      DropFacts(s[1..], e);
      assert Distinct(s) ==> Distinct(s[1..]) && s[0] !in s[1..];
    }
  }

  lemma {:induction false} DropConcat(a: seq<Event>, b: seq<Event>, e: Event)
    ensures Drop(a + b, e) == Drop(a, e) + Drop(b, e)
  {
    if a == [] {
      assert a + b == b;
    } else {
      assert (a + b)[1..] == a[1..] + b;
      DropConcat(a[1..], b, e);
    }
  }

  lemma DropAllFacts(q: Queues, e: Event)
    ensures forall x :: x in All(DropAll(q, e)) <==> x in All(q) && x != e
    ensures Distinct(All(q)) ==> Distinct(All(DropAll(q, e)))
    ensures e !in All(q) ==> DropAll(q, e) == q
  {
    DropConcat(q.accept + q.next, q.events, e);
    DropConcat(q.accept, q.next, e);
    DropFacts(All(q), e);
    DropFacts(q.accept, e);
    DropFacts(q.next, e);
    DropFacts(q.events, e);
  }

  lemma InsertFacts(a: seq<Event>, b: seq<Event>, e: Event)
    ensures forall x :: x in a + [e] + b <==> x in a + b || x == e
    ensures Distinct(a + b) && e !in a + b ==> Distinct(a + [e] + b)
  {
    var s, t := a + b, a + [e] + b;
    forall x
      ensures x in t <==> x in s || x == e
    {
      assert x in s <==> x in a || x in b;
    }
    if Distinct(s) && e !in s {
      forall i, j | 0 <= i < j < |t|
        ensures t[i] != t[j]
      {
        assert i < |a| ==> t[i] == s[i];
        assert i > |a| ==> t[i] == s[i - 1];
        assert j < |a| ==> t[j] == s[j];
        assert j > |a| ==> t[j] == s[j - 1];
      }
    }
  }

  lemma AppendFacts(q: Queues, name: Name, e: Event)
    ensures forall x :: x in All(Append(q, name, e)) <==> x in All(q) || x == e
    ensures Distinct(All(q)) && e !in All(q) ==> Distinct(All(Append(q, name, e)))
  {
    var r := Append(q, name, e);
    match name
    case ToAccept =>
      assert All(r) == q.accept + [e] + (q.next + q.events) && All(q) == q.accept + (q.next + q.events);
      InsertFacts(q.accept, q.next + q.events, e);
    case ToNext =>
      assert All(r) == q.accept + q.next + [e] + q.events;
      InsertFacts(q.accept + q.next, q.events, e);
    case ToEvents =>
      assert All(r) == q.accept + q.next + q.events + [e] + [] && All(q) == q.accept + q.next + q.events + [];
      InsertFacts(q.accept + q.next + q.events, [], e);
  }

  // ---- the invariant, part by part, on values ----

  // Every connection has its own two events.
  ghost predicate Layout(conns: set<Conn>, owner: map<Event, Conn>)
  {
    && (forall c :: c in conns ==> c.read in owner && c.write in owner && c.read != c.write)
    && (forall c :: c in conns ==> owner[c.read] == c && owner[c.write] == c)
    && (forall e :: e in owner ==> owner[e] in conns && (e == owner[e].read || e == owner[e].write))
  }

  // The instance bit after so many uses of a connection.
  function Bit(uses: nat): bool { uses % 2 == 0 }

  lemma BitsAgree(g: nat, u: nat)
    requires g <= u
    ensures Bit(g) == Bit(u) <==> (u - g) % 2 == 0
  {
  }

  // inst holds the events whose bit is set.
  ghost predicate Instances(conns: set<Conn>, uses: map<Conn, nat>, inst: set<Event>)
  {
    && uses.Keys == conns
    && (forall c :: c in conns ==> (c.read in inst <==> Bit(uses[c])))
    && (forall c :: c in conns && uses[c] > 0 ==> (c.write in inst <==> Bit(uses[c])))
  }

  // What is free is free once, closed, and out of the tree and the queues.
  ghost predicate FreeList(conns: set<Conn>, free: seq<Conn>, uses: map<Conn, nat>, open: set<Conn>, linked: set<Event>)
  {
    && uses.Keys == conns
    && Distinct(free)
    && (forall c :: c in free ==> c in conns && c.read !in linked && c.write !in linked && (uses[c] > 0 ==> c !in open))
    && (forall c :: c in conns && uses[c] == 0 ==> c in free)
  }

  // Once a connection has been used, a flag of its events tells what links to
  // them; before that it is whatever the memory held.
  ghost predicate FlagsTell(conns: set<Conn>, uses: map<Conn, nat>, flagged: set<Event>, linked: set<Event>)
  {
    && uses.Keys == conns
    && (forall c :: c in conns && uses[c] > 0 ==>
          (c.read in flagged <==> c.read in linked) && (c.write in flagged <==> c.write in linked))
  }

  lemma OthersApart(conns: set<Conn>, owner: map<Event, Conn>, c: Conn)
    requires Layout(conns, owner) && c in conns
    ensures forall d :: d in conns && d != c ==> d.read !in {c.read, c.write} && d.write !in {c.read, c.write}
  {
    forall d | d in conns && d != c
      ensures d.read !in {c.read, c.write} && d.write !in {c.read, c.write}
    {
      assert owner[d.read] != owner[c.read];
    }
  }

  lemma InstancesGot(conns: set<Conn>, owner: map<Event, Conn>, uses: map<Conn, nat>, inst: set<Event>, c: Conn,
                      now: set<Event>)
    requires Layout(conns, owner) && Instances(conns, uses, inst) && c in conns
    requires now == if c.read in inst then inst - {c.read, c.write} else inst + {c.read, c.write}
    ensures Instances(conns, uses[c := uses[c] + 1], now)
  {
    hide Layout;
    OthersApart(conns, owner, c);
  }

  lemma FreeGot(conns: set<Conn>, free: seq<Conn>, uses: map<Conn, nat>, open: set<Conn>, linked: set<Event>,
                now: set<Conn>)
    requires FreeList(conns, free, uses, open, linked) && free != []
    requires now <= open + {free[0]}
    ensures FreeList(conns, free[1..], uses[free[0] := uses[free[0]] + 1], now, linked)
    ensures free[0] in uses && free[0] !in free[1..] && free[0] in conns
    ensures free[0].read !in linked && free[0].write !in linked
  {
    var c, rest := free[0], free[1..];
    assert forall i :: 0 <= i < |rest| ==> rest[i] == free[i + 1];
    assert c !in rest;
    assert forall d :: d in free ==> d == c || d in rest;
  }

  lemma FlagsGot(conns: set<Conn>, owner: map<Event, Conn>, uses: map<Conn, nat>, flagged: set<Event>,
                 linked: set<Event>, c: Conn)
    requires Layout(conns, owner) && FlagsTell(conns, uses, flagged, linked) && c in conns
    requires c.read !in linked && c.write !in linked
    ensures FlagsTell(conns, uses[c := uses[c] + 1], flagged - {c.read, c.write}, linked)
  {
    OthersApart(conns, owner, c);
  }

  lemma FreeClosed(conns: set<Conn>, free: seq<Conn>, uses: map<Conn, nat>, open: set<Conn>, linked: set<Event>,
                   c: Conn, now: set<Event>)
    requires FreeList(conns, free, uses, open, linked) && c in conns && c in open && uses[c] > 0
    requires now <= linked && c.read !in now && c.write !in now
    ensures c !in free && FreeList(conns, free + [c], uses, open - {c}, now)
  {
  }

  // The flag and the link of one event change together.
  lemma FlagsBoth(conns: set<Conn>, uses: map<Conn, nat>, flagged: set<Event>, linked: set<Event>, e: Event)
    requires FlagsTell(conns, uses, flagged, linked)
    ensures FlagsTell(conns, uses, flagged + {e}, linked + {e})
    ensures FlagsTell(conns, uses, flagged - {e}, linked - {e})
  {
  }

  lemma FreeLinks(conns: set<Conn>, owner: map<Event, Conn>, free: seq<Conn>, uses: map<Conn, nat>, open: set<Conn>,
      linked: set<Event>, e: Event, fewer: set<Event>)
    requires Layout(conns, owner) && FreeList(conns, free, uses, open, linked) && fewer <= linked
    ensures FreeList(conns, free, uses, open, fewer)
    ensures e in owner && owner[e] !in free ==> FreeList(conns, free, uses, open, linked + {e})
  {
  }

  // What the loop of the back end hands on for one report, and to which queue.
  datatype Pick = Pick(e: Event, name: Name)

  function Post(q: Queues, p: Pick): Queues
  {
    if p.e in q.accept + q.next + q.events then q else Append(q, p.name, p.e)
  }

  // An event that is queued stays where it is; another joins the end of the
  // queue that is named.
  lemma PostIs(q: Queues, e: Event, name: Name)
    ensures e in All(q) ==> Post(q, Pick(e, name)) == q
    ensures e !in All(q) && name == ToAccept ==> Post(q, Pick(e, name)) == Queues(q.accept + [e], q.next, q.events)
    ensures e !in All(q) && name == ToNext ==> Post(q, Pick(e, name)) == Queues(q.accept, q.next + [e], q.events)
    ensures e !in All(q) && name == ToEvents ==> Post(q, Pick(e, name)) == Queues(q.accept, q.next, q.events + [e])
  {
  }

  function PostAll(q: Queues, ps: seq<Pick>): Queues
  {
    if ps == [] then q else Post(PostAll(q, ps[..|ps| - 1]), ps[|ps| - 1])
  }

  function QueueOf(q: Queues, name: Name): seq<Event>
  {
    match name case ToAccept => q.accept case ToNext => q.next case ToEvents => q.events
  }

  function Pulled(q: Queues, name: Name): Queues
    requires QueueOf(q, name) != []
  {
    match name
    case ToAccept => q.(accept := q.accept[1..])
    case ToNext => q.(next := q.next[1..])
    case ToEvents => q.(events := q.events[1..])
  }

  lemma AllIndexed(q: Queues)
    ensures var a, n, k := |q.accept|, |q.next|, |q.events|;
      && |All(q)| == a + n + k
      && (forall i :: 0 <= i < a ==> q.accept[i] == All(q)[i])
      && (forall i :: 0 <= i < n ==> q.next[i] == All(q)[a + i])
      && (forall i :: 0 <= i < k ==> q.events[i] == All(q)[a + n + i])
  {
  }

  // An element of one queue is once in it and in no other.
  lemma OneQueue(q: Queues, name: Name, e: Event)
    requires Distinct(All(q)) && QueueOf(q, name) != [] && e == QueueOf(q, name)[0]
    ensures e in All(q) && e !in QueueOf(q, name)[1..]
    ensures name != ToAccept ==> Drop(q.accept, e) == q.accept
    ensures name != ToNext ==> Drop(q.next, e) == q.next
    ensures name != ToEvents ==> Drop(q.events, e) == q.events
  {
    hide Distinct, Drop, All;
    var a, n := |q.accept|, |q.next|;
    var at := match name case ToAccept => 0 case ToNext => a case ToEvents => a + n;
    AllIndexed(q);
    Apart(All(q), at);
    DropFacts(q.accept, e);
    DropFacts(q.next, e);
    DropFacts(q.events, e);
    var t := QueueOf(q, name)[1..];
    assert forall i :: 0 <= i < |t| ==> t[i] == QueueOf(q, name)[i + 1];
  }

  // With no repeats, the head of a queue is only there.
  lemma HeadDrops(q: Queues, name: Name)
    requires Distinct(All(q)) && QueueOf(q, name) != []
    ensures DropAll(q, QueueOf(q, name)[0]) == Pulled(q, name) && QueueOf(q, name)[0] in All(q)
  {
    var e, t := QueueOf(q, name)[0], QueueOf(q, name)[1..];
    OneQueue(q, name, e);
    DropFacts(t, e);
  }

  lemma MovedFacts(q: Queues)
    ensures var r := Queues(q.accept, [], q.events + q.next);
      (forall x :: x in All(r) <==> x in All(q)) && (Distinct(All(q)) ==> Distinct(All(r)))
  {
    var r := Queues(q.accept, [], q.events + q.next);
    var a, n, k := |q.accept|, |q.next|, |q.events|;
    forall x
      ensures x in All(r) <==> x in All(q)
    {
      assert x in All(q) <==> x in q.accept || x in q.next || x in q.events;
    }
    if Distinct(All(q)) {
      forall i, j | 0 <= i < j < |All(r)|
        ensures All(r)[i] != All(r)[j]
      {
        assert All(r)[i] == All(q)[if i < a then i else if i < a + k then i + n else i - k];
        assert All(r)[j] == All(q)[if j < a then j else if j < a + k then j + n else j - k];
      }
    }
  }

  ghost predicate Picked(ps: seq<Pick>, e: Event)
  {
    exists k :: 0 <= k < |ps| && ps[k].e == e
  }

  lemma PickedNone()
    ensures forall e: Event :: !Picked([], e)
  {
  }

  lemma PostNone(q: Queues)
    ensures PostAll(q, []) == q
  {
  }

  lemma PostFew(q: Queues, p: Pick)
    ensures PostAll(q, []) == q && PostAll(q, [p]) == Post(q, p)
  {
    assert PostAll(q, [p][..0]) == q;
  }

  lemma PostOne(q: Queues, ps: seq<Pick>, p: Pick)
    ensures PostAll(q, ps + [p]) == Post(PostAll(q, ps), p)
  {
    assert (ps + [p])[..|ps|] == ps;
  }

  lemma {:induction false} PostAppend(q: Queues, a: seq<Pick>, b: seq<Pick>)
    ensures PostAll(q, a + b) == PostAll(PostAll(q, a), b)
  {
    if b == [] {
      assert a + b == a;
    } else {
      var n := |b| - 1;
      assert a + b == (a + b[..n]) + [b[n]];
      PostOne(q, a + b[..n], b[n]);
      PostAppend(q, a, b[..n]);
    }
  }

  // A pick of e stands in front of all picks of f.
  ghost predicate Earlier(ps: seq<Pick>, e: Event, f: Event)
  {
    exists k :: 0 <= k < |ps| && ps[k].e == e && forall m :: 0 <= m <= k ==> ps[m].e != f
  }

  // The name of a pick tells whether its event is one of a.
  ghost predicate Named(ps: seq<Pick>, a: set<Event>)
  {
    forall p :: p in ps ==> p.name == if p.e in a then ToAccept else ToEvents
  }

  // What is new in a queue, by the picks.
  ghost predicate InOrder(s: seq<Event>, was: nat, ps: seq<Pick>)
  {
    forall i, j :: was <= i < j < |s| ==> Earlier(ps, s[i], s[j])
  }

  lemma EarlierMore(ps: seq<Pick>, p: Pick, e: Event, f: Event)
    ensures Earlier(ps, e, f) ==> Earlier(ps + [p], e, f)
    ensures Picked(ps, e) && !Picked(ps, p.e) ==> Earlier(ps + [p], e, p.e)
  {
    var qs := ps + [p];
    if Earlier(ps, e, f) {
      var k :| 0 <= k < |ps| && ps[k].e == e && forall m :: 0 <= m <= k ==> ps[m].e != f;
      assert qs[k].e == e && forall m :: 0 <= m <= k ==> qs[m] == ps[m];
    }
    if Picked(ps, e) && !Picked(ps, p.e) {
      var k :| 0 <= k < |ps| && ps[k].e == e;
      assert qs[k].e == e && forall m :: 0 <= m <= k ==> qs[m] == ps[m];
    }
  }

  lemma EarlierNone(e: Event, f: Event)
    ensures !Earlier([], e, f)
  {
  }

  lemma EarlierSplit(ps: seq<Pick>, two: seq<Pick>, e: Event, f: Event)
    requires Earlier(ps + two, e, f)
    ensures Earlier(ps, e, f) || (!Picked(ps, f) && Earlier(two, e, f))
  {
    var all := ps + two;
    var k :| 0 <= k < |all| && all[k].e == e && forall m :: 0 <= m <= k ==> all[m].e != f;
    assert forall m :: 0 <= m < |ps| ==> all[m] == ps[m];
    assert forall m :: 0 <= m < |two| ==> all[|ps| + m] == two[m];
    if k < |ps| {
      assert ps[k].e == e;
    } else {
      assert two[k - |ps|].e == e;
    }
  }

  lemma NamedMore(ps: seq<Pick>, two: seq<Pick>, a: set<Event>)
    requires Named(ps, a) && Named(two, a)
    ensures Named(ps + two, a)
  {
  }

  lemma InOrderMore(s: seq<Event>, was: nat, ps: seq<Pick>, p: Pick)
    requires InOrder(s, was, ps) && was <= |s|
    ensures InOrder(s, was, ps + [p])
    ensures (forall i :: was <= i < |s| ==> Picked(ps, s[i])) && !Picked(ps, p.e) ==> InOrder(s + [p.e], was, ps + [p])
  {
    hide Picked, Earlier;
    forall i, j | was <= i < j < |s|
      ensures Earlier(ps + [p], s[i], s[j])
    {
      EarlierMore(ps, p, s[i], s[j]);
    }
    forall i | was <= i < |s| && Picked(ps, s[i]) && !Picked(ps, p.e)
      ensures Earlier(ps + [p], s[i], p.e)
    {
      EarlierMore(ps, p, s[i], p.e);
    }
  }

  lemma PickedPush(ps: seq<Pick>, p: Pick, e: Event)
    ensures Picked(ps + [p], e) <==> Picked(ps, e) || e == p.e
  {
    assert (ps + [p])[|ps|] == p && forall k :: 0 <= k < |ps| ==> (ps + [p])[k] == ps[k];
  }

  // What the picks make of the queues.
  ghost predicate Posted(q: Queues, ps: seq<Pick>, a: set<Event>, r: Queues)
  {
    && r.next == q.next && q.accept <= r.accept && q.events <= r.events
    && (forall e :: e in r.accept ==> e in q.accept || (e !in All(q) && e in a && Picked(ps, e)))
    && (forall e :: e in r.events ==> e in q.events || (e !in All(q) && e !in a && Picked(ps, e)))
    && (forall k :: 0 <= k < |ps| && ps[k].e !in All(q) ==> ps[k].e in if ps[k].e in a then r.accept else r.events)
    && (forall i :: |q.accept| <= i < |r.accept| ==> Picked(ps, r.accept[i]))
    && (forall i :: |q.events| <= i < |r.events| ==> Picked(ps, r.events[i]))
    && InOrder(r.accept, |q.accept|, ps) && InOrder(r.events, |q.events|, ps)
  }

  lemma PostedWhere(q: Queues, ps: seq<Pick>, a: set<Event>, r: Queues, e: Event)
    requires Posted(q, ps, a, r)
    ensures e in All(r) <==> e in All(q) || Picked(ps, e)
    ensures e in All(r) && e !in All(q) ==> e in if e in a then r.accept else r.events
  {
    hide InOrder;
    assert forall x: Queues :: e in All(x) <==> e in x.accept || e in x.next || e in x.events;
    if Picked(ps, e) && e !in All(q) {
      var k :| 0 <= k < |ps| && ps[k].e == e;
    }
  }

  lemma AllIs(q: Queues)
    ensures All(q) == q.accept + q.next + q.events
  {
  }

  lemma PostedOne(q: Queues, ps: seq<Pick>, a: set<Event>, r: Queues, p: Pick)
    requires Posted(q, ps, a, r) && p.name == if p.e in a then ToAccept else ToEvents
    ensures Posted(q, ps + [p], a, Post(r, p))
  {
    hide Picked, InOrder, All;
    PostedWhere(q, ps, a, r, p.e);
    assert All(r) == r.accept + r.next + r.events by {
      AllIs(r);
    }
    forall e
      ensures Picked(ps + [p], e) <==> Picked(ps, e) || e == p.e
    {
      PickedPush(ps, p, e);
    }
    InOrderMore(r.accept, |q.accept|, ps, p);
    InOrderMore(r.events, |q.events|, ps, p);
  }

  lemma PostedNone(q: Queues, a: set<Event>)
    ensures Posted(q, [], a, q)
  {
  }

  lemma {:induction false} PostAllIs(q: Queues, ps: seq<Pick>, a: set<Event>)
    requires Named(ps, a)
    ensures Posted(q, ps, a, PostAll(q, ps))
  {
    hide Posted, Post;
    if ps == [] {
      PostedNone(q, a);
    } else {
      var rest, p := ps[..|ps| - 1], ps[|ps| - 1];
      assert ps == rest + [p];
      PostAllIs(q, rest, a);
      PostedOne(q, rest, a, PostAll(q, rest), p);
    }
  }

  // One report of the kernel: the tag it was given, and what happened.
  datatype Report = Report(c: Conn, instance: bool, readable: bool, writable: bool, failed: bool)

  lemma LayoutMore(conns: set<Conn>, owner: map<Event, Conn>, c: Conn)
    requires Layout(conns, owner) && c !in conns && c.read != c.write && c.read !in owner && c.write !in owner
    ensures Layout(conns + {c}, owner[c.read := c][c.write := c])
  {
  }

  lemma LayoutNone()
    ensures Layout({}, map[])
  {
  }

  // The blocks of connections and events, linked one to one.
  method NewConns(size: nat)
    returns (cs: seq<Conn>, ghost conns: set<Conn>, ghost owner: map<Event, Conn>, ghost uses: map<Conn, nat>)
    ensures |cs| == |conns| == size && Layout(conns, owner)
    ensures FreeList(conns, cs, uses, conns, {}) && (forall c :: c in conns ==> c.read.instance && uses[c] == 0)
  {
    hide Layout;
    cs, conns, owner, uses := [], {}, map[], map[];
    LayoutNone();
    while |cs| < size
      invariant |cs| == |conns| <= size && Layout(conns, owner) && uses.Keys == conns
      invariant forall i, j :: 0 <= i < j < |cs| ==> cs[i] != cs[j]
      invariant forall c :: c in cs <==> c in conns
      invariant forall c :: c in conns ==> c.read.instance && uses[c] == 0
    {
      var c := new Conn();
      LayoutMore(conns, owner, c);
      cs, conns, owner, uses := cs + [c], conns + {c}, owner[c.read := c][c.write := c], uses[c := 0];
    }
  }

  // The steps of a worker.
  datatype Step =
    | GetStep(fd: int)
    | CloseStep(c: Conn)
    | AddStep(c: Conn, epollOk: bool)
    | ArmStep(e: Event)
    | DisarmStep(e: Event)
    | FireStep(e: Event)
    | DeferStep(e: Event)
    | TakeStep(name: Name)
    | MoveStep
    | PollStep(rs: seq<Report>)

  class Cycle {
    ghost const conns: set<Conn>
    ghost const owner: map<Event, Conn>

    var connFree: seq<Conn>
    var timers: set<Event>
    var queues: Queues
    ghost var uses: map<Conn, nat>

    ghost function Queued(): set<Event>
      reads this`queues
    {
      set e | e in All(queues)
    }

    ghost function Inst(): set<Event>
      reads owner.Keys`instance
    {
      set e | e in owner && e.instance
    }

    ghost function TimerSet(): set<Event>
      reads owner.Keys`timerSet
    {
      set e | e in owner && e.timerSet
    }

    ghost function PostedSet(): set<Event>
      reads owner.Keys`posted
    {
      set e | e in owner && e.posted
    }

    ghost function Open(): set<Conn>
      reads conns`fd
    {
      set c | c in conns && c.fd != -1
    }

    ghost predicate Valid()
      reads this, conns, owner.Keys
    {
      && Layout(conns, owner)
      && Instances(conns, uses, Inst())
      && FreeList(conns, connFree, uses, Open(), timers + Queued())
      && FlagsTell(conns, uses, TimerSet(), timers)
      && FlagsTell(conns, uses, PostedSet(), Queued())
      && Distinct(All(queues)) && timers + Queued() <= owner.Keys
    }

    lemma Start()
      requires Layout(conns, owner) && FreeList(conns, connFree, uses, conns, {})
      requires forall c :: c in conns ==> c.read.instance && uses[c] == 0
      requires timers == {} && queues == Queues([], [], [])
      ensures Valid() && |conns| == |connFree|
    {
      assert timers + Queued() == {};
      DistinctSize(connFree);
      assert (set c | c in connFree) == conns;
    }

    // The connections of a worker, all free, in the order they were made.
    constructor (size: nat)
      ensures Valid() && |conns| == |connFree| == size && timers == {} && queues == Queues([], [], [])
      ensures forall c :: c in conns ==> uses[c] == 0
    {
      var cs;
      ghost var cn, ow, us;
      cs, cn, ow, us := NewConns(size);
      connFree, timers, queues := cs, {}, Queues([], [], []);
      conns, owner, uses := cn, ow, us;
      new;
      Start();
    }

    ghost predicate InUse(c: Conn)
      reads this`connFree
    {
      c in conns && c !in connFree
    }

    // The memsets of get, and what is written over them.
    method Wipe(c: Conn, s: int)
      requires c.read != c.write
      modifies c, c.read, c.write
      ensures c.fd == s && !c.shared && c.read.instance == c.write.instance == !old(c.read.instance)
      ensures forall e :: e in {c.read, c.write} ==>
        !e.accept && !e.active && !e.ready && !e.timerSet && !e.posted && !e.closed && e.index == INVALID_INDEX
      ensures !c.read.write && c.write.write
    {
      c.fd, c.shared := 0, false;
      c.fd := s;
      var instance := c.read.instance;
      c.read.Clear();
      c.write.Clear();
      c.read.instance := !instance;
      c.write.instance := !instance;
      c.read.index := INVALID_INDEX;
      c.write.index := INVALID_INDEX;
      c.read.accept := false;
      c.write.write := true;
    }

    lemma LayoutOf(c: Conn)
      requires Valid() && c in conns
      ensures c.read in owner && c.write in owner && c.read != c.write && owner[c.read] == owner[c.write] == c
    {
    }

    // event_connection::get.  std::queue has no defined front when it is empty.
    method Get(s: int) returns (c: Conn)
      requires Valid() && connFree != []
      modifies this`connFree, this`uses, connFree[0], connFree[0].read, connFree[0].write
      ensures Valid() && c == old(connFree[0]) && connFree == old(connFree[1..])
      ensures InUse(c) && uses == old(uses[c := uses[c] + 1])
      ensures c.read !in timers && c.write !in timers && c.read !in All(queues) && c.write !in All(queues)
      ensures c.fd == s && !c.shared && c.read.instance == c.write.instance == !old(c.read.instance)
      ensures forall e :: e in {c.read, c.write} ==>
        !e.accept && !e.active && !e.ready && !e.timerSet && !e.posted && !e.closed && e.index == INVALID_INDEX
      ensures !c.read.write && c.write.write
    {
      hide Layout, Instances, FreeList, FlagsTell, Distinct, All, Bit;
      c := connFree[0];
      ghost var free, linked, inst, open := connFree, timers + Queued(), Inst(), Open();
      ghost var ts, ps := TimerSet(), PostedSet();
      FreeGot(conns, free, uses, open, linked, open + {c});
      LayoutOf(c);
      connFree := connFree[1..];
      Wipe(c, s);
      assert Inst() == if c.read in inst then inst - {c.read, c.write} else inst + {c.read, c.write};
      assert TimerSet() == ts - {c.read, c.write};
      assert PostedSet() == ps - {c.read, c.write};
      assert Open() == if s == -1 then open - {c} else open + {c};
      InstancesGot(conns, owner, uses, inst, c, Inst());
      FlagsGot(conns, owner, uses, ts, timers, c);
      FlagsGot(conns, owner, uses, ps, Queued(), c);
      FreeGot(conns, free, uses, open, linked, Open());
      uses := uses[c := uses[c] + 1];
    }

    // del_timer and add_timer, as far as the tree's members go.
    method DelTimer(e: Event)
      requires Valid() && e in timers
      modifies this`timers, e`timerSet
      ensures Valid() && timers == old(timers) - {e} && !e.timerSet
    {
      hide Layout, Instances, FreeList, FlagsTell, Distinct;
      ghost var ts := TimerSet();
      FlagsBoth(conns, uses, ts, timers, e);
      FreeLinks(conns, owner, connFree, uses, Open(), timers + Queued(), e, timers - {e} + Queued());
      timers := timers - {e};
      e.timerSet := false;
      assert TimerSet() == ts - {e};
    }

    method AddTimer(e: Event)
      requires Valid() && e in owner && InUse(owner[e])
      modifies this`timers, e`timerSet
      ensures Valid() && timers == old(timers) + {e} && e.timerSet
    {
      hide Layout, Instances, FreeList, FlagsTell, Distinct;
      ghost var ts := TimerSet();
      FlagsBoth(conns, uses, ts, timers, e);
      FreeLinks(conns, owner, connFree, uses, Open(), timers + Queued(), e, {});
      assert timers + Queued() + {e} == timers + {e} + Queued();
      timers := timers + {e};
      e.timerSet := true;
      assert TimerSet() == ts + {e};
    }

    // One turn of expire, before the handler: the tree picks the event.
    method FireTimer(e: Event)
      requires Valid() && e in timers
      modifies this`timers, e`timerSet, e`timedOut
      ensures Valid() && timers == old(timers) - {e} && !e.timerSet && e.timedOut
    {
      hide Layout, Instances, FreeList, FlagsTell, Distinct;
      DelTimer(e);
      e.timedOut := true;
    }

    lemma UsedFlags(e: Event)
      requires Valid() && e in owner && owner[e] !in connFree
      ensures owner[e] in conns && uses[owner[e]] > 0
      ensures (e.posted <==> e in All(queues)) && (e.timerSet <==> e in timers)
    {
    }

    // post_event.
    method PostEvent(e: Event, name: Name)
      requires Valid() && e in owner && InUse(owner[e])
      modifies this`queues, e`posted
      ensures Valid() && e.posted
      ensures queues == Post(old(queues), Pick(e, name))
    {
      hide Layout, Instances, FreeList, FlagsTell, Distinct, Append, Bit;
      UsedFlags(e);
      if !e.posted {
        ghost var ps := PostedSet();
        ghost var q := Queued();
        AppendFacts(queues, name, e);
        FlagsBoth(conns, uses, ps, q, e);
        FreeLinks(conns, owner, connFree, uses, Open(), timers + q, e, {});
        assert timers + q + {e} == timers + (q + {e});
        e.posted := true;
        queues := Append(queues, name, e);
        assert Queued() == q + {e};
        assert PostedSet() == ps + {e};
      }
    }

    // posted_event: the event leaves whichever queue holds it.
    method UnpostEvent(e: Event)
      requires Valid() && e in All(queues)
      modifies this`queues, e`posted
      ensures Valid() && !e.posted
      ensures queues == DropAll(old(queues), e)
    {
      hide Layout, Instances, FreeList, FlagsTell, Distinct, DropAll, Drop;
      ghost var ps := PostedSet();
      ghost var q := Queued();
      DropAllFacts(queues, e);
      FlagsBoth(conns, uses, ps, q, e);
      FreeLinks(conns, owner, connFree, uses, Open(), timers + q, e, timers + (q - {e}));
      e.posted := false;
      queues := DropAll(queues, e);
      assert Queued() == q - {e};
      assert PostedSet() == ps - {e};
    }

    // epoll_del_connection on close.
    method Deactivate(c: Conn)
      requires Valid() && c in conns
      modifies c.read`active, c.write`active
      ensures Valid() && !c.read.active && !c.write.active
    {
      hide Layout, Instances, FreeList, FlagsTell, Distinct;
      c.read.active := false;
      c.write.active := false;
    }

    lemma BitOf(c: Conn)
      requires Valid() && c in conns
      ensures c in uses && c.read.instance == Bit(uses[c])
    {
      hide FreeList, FlagsTell, Distinct;
      assert c.read in owner;
      assert c.read in Inst() <==> Bit(uses[c]);
    }

    // epoll_add_connection; epollOk is the answer of the kernel.
    // The tag goes to epoll with the connection.
    method AddConnection(c: Conn, epollOk: bool) returns (rc: int, tag: bool)
      requires Valid() && InUse(c)
      modifies c.read`active, c.write`active
      ensures Valid() && (rc == 0 <==> epollOk) && (rc == -1 || rc == 0)
      ensures tag == c.read.instance == Bit(uses[c])
      ensures if epollOk then c.read.active && c.write.active
        else c.read.active == old(c.read.active) && c.write.active == old(c.write.active)
    {
      hide Layout, Instances, FreeList, FlagsTell, Distinct;
      BitOf(c);
      tag := c.read.instance;
      if !epollOk {
        return -1, tag;
      }
      c.read.active := true;
      c.write.active := true;
      rc := 0;
    }

    lemma UsedConn(c: Conn)
      requires Valid() && c in conns && uses[c] > 0
      ensures c.read.posted <==> c.read in All(queues)
      ensures c.write.posted <==> c.write in All(queues)
      ensures c.read.timerSet <==> c.read in timers
      ensures c.write.timerSet <==> c.write in timers
    {
    }

    method Unlink(c: Conn)
      requires Valid() && c in conns && uses[c] > 0
      modifies this`timers, c.read`timerSet, c.write`timerSet
      ensures Valid() && timers == old(timers) - {c.read, c.write}
    {
      hide Cycle.Valid;
      UsedConn(c);
      if c.read.timerSet {
        DelTimer(c.read);
      }
      UsedConn(c);
      if c.write.timerSet {
        DelTimer(c.write);
      }
    }

    method Unpost(c: Conn, e: Event)
      requires Valid() && c in conns && uses[c] > 0 && (e == c.read || e == c.write)
      modifies this`queues, e`posted
      ensures Valid() && e !in All(queues) && !e.posted
      ensures queues == DropAll(old(queues), e)
    {
      hide Layout, Instances, FreeList, FlagsTell, Distinct;
      UsedConn(c);
      DropAllFacts(queues, e);
      if e.posted {
        UnpostEvent(e);
      }
    }

    method Unqueue(c: Conn)
      requires Valid() && c in conns && uses[c] > 0
      modifies this`queues, c.read`posted, c.write`posted
      ensures Valid() && c.read !in All(queues) && c.write !in All(queues)
      ensures queues == DropAll(DropAll(old(queues), c.read), c.write)
    {
      hide Cycle.Valid, DropAll, All;
      Unpost(c, c.read);
      DropAllFacts(queues, c.write);
      Unpost(c, c.write);
    }

    // The last lines of close: back to the free connections.
    method Release(c: Conn)
      requires Valid() && c in conns && uses[c] > 0 && c.fd != -1
      requires c.read !in timers && c.write !in timers && c.read !in All(queues) && c.write !in All(queues)
      modifies this`connFree, c`fd, c.read`closed, c.write`closed
      ensures Valid() && c.fd == -1 && c.read.closed && c.write.closed
      ensures connFree == old(connFree) + [c] && c !in old(connFree)
    {
      hide Layout, Instances, FreeList, FlagsTell, Distinct;
      ghost var open := Open();
      FreeClosed(conns, connFree, uses, open, timers + Queued(), c, timers + Queued());
      c.read.closed := true;
      c.write.closed := true;
      connFree := connFree + [c];
      c.fd := -1;
      assert Open() == open - {c};
    }

    // event_connection::close: a closed connection is left alone.
    method Close(c: Conn)
      requires Valid() && c in conns && uses[c] > 0
      modifies this`connFree, this`timers, this`queues, c`fd, c.read, c.write
      ensures Valid() && c.fd == -1 && uses == old(uses)
      ensures old(c.fd) == -1 ==> connFree == old(connFree) && timers == old(timers) && queues == old(queues)
      ensures old(c.fd) != -1 ==> connFree == old(connFree) + [c] && c !in old(connFree)
      ensures old(c.fd) != -1 ==> timers == old(timers) - {c.read, c.write}
      ensures old(c.fd) != -1 ==> queues == DropAll(DropAll(old(queues), c.read), c.write)
      ensures old(c.fd) != -1 ==> c.read.closed && c.write.closed && (!c.shared ==> !c.read.active && !c.write.active)
      ensures c.read.instance == old(c.read.instance) && c.write.instance == old(c.write.instance)
    {
      hide Cycle.Valid, DropAll, All;
      if c.fd == -1 {
        return;
      }
      Unlink(c);
      if !c.shared {
        Deactivate(c);
      }
      Unqueue(c);
      Release(c);
    }

    // process_posted, one turn before the handler: the head is taken off.
    method PopPosted(name: Name) returns (e: Event)
      requires Valid() && QueueOf(queues, name) != []
      modifies this`queues, {QueueOf(queues, name)[0]}`posted
      ensures Valid() && e == old(QueueOf(queues, name))[0] && !e.posted
      ensures queues == Pulled(old(queues), name)
    {
      hide Layout, Instances, FreeList, FlagsTell;
      e := QueueOf(queues, name)[0];
      HeadDrops(queues, name);
      UnpostEvent(e);
    }

    method MarkNext()
      requires Valid()
      modifies queues.next`ready, queues.next`available
      ensures Valid() && forall e :: e in queues.next ==> e.ready && e.available == -1
    {
      hide Layout, Instances, FreeList, FlagsTell, Distinct, Cycle.Inst, Cycle.TimerSet, Cycle.PostedSet;
      var i := 0;
      while i < |queues.next|
        invariant 0 <= i <= |queues.next| && Valid()
        invariant forall k :: 0 <= k < i ==> queues.next[k].ready && queues.next[k].available == -1
      {
        queues.next[i].ready := true;
        queues.next[i].available := -1;
        i := i + 1;
      }
    }

    // move_posted_next.
    method MovePostedNext()
      requires Valid()
      modifies this`queues, queues.next`ready, queues.next`available
      ensures Valid()
      ensures queues == Queues(old(queues.accept), [], old(queues.events) + old(queues.next))
      ensures forall e :: e in old(queues.next) ==> e.ready && e.available == -1
    {
      hide Layout, Instances, FreeList, FlagsTell, Distinct, Cycle.Inst, Cycle.TimerSet, Cycle.PostedSet;
      MarkNext();
      MovedFacts(queues);
      ghost var q := Queued();
      queues := Queues(queues.accept, [], queues.events + queues.next);
      assert Queued() == q;
    }

    // A report of a closed connection, or with the instance bit of another
    // use, is passed over.
    predicate Passes(r: Report)
      reads r.c`fd, r.c.read`instance
    {
      r.c.fd != -1 && r.c.read.instance == r.instance
    }

    function ReadPick(r: Report): seq<Pick>
      reads r.c`fd, r.c.read`instance, r.c.read`active, r.c.read`accept
    {
      if Passes(r) && (r.readable || r.failed) && r.c.read.active then
        [Pick(r.c.read, if r.c.read.accept then ToAccept else ToEvents)]
      else []
    }

    function WritePick(r: Report): seq<Pick>
      reads r.c`fd, r.c.read`instance, r.c.write`active, r.c.write`instance
    {
      if Passes(r) && (r.writable || r.failed) && r.c.write.active && r.c.write.instance == r.instance then
        [Pick(r.c.write, ToEvents)]
      else []
    }

    // What the back end hands on for a list of reports.
    function Picks(rs: seq<Report>): seq<Pick>
      reads (set r | r in rs :: r.c)`fd
      reads (set r | r in rs :: r.c.read)`instance, (set r | r in rs :: r.c.read)`active
      reads (set r | r in rs :: r.c.read)`accept
      reads (set r | r in rs :: r.c.write)`instance, (set r | r in rs :: r.c.write)`active
    {
      if rs == [] then [] else Picks(rs[..|rs| - 1]) + (ReadPick(rs[|rs| - 1]) + WritePick(rs[|rs| - 1]))
    }

    lemma OpenInUse(c: Conn)
      requires Valid() && c in conns && uses[c] > 0 && c.fd != -1
      ensures InUse(c)
    {
    }

    method DeliverRead(r: Report)
      requires Valid() && r.c in conns && uses[r.c] > 0 && Passes(r)
      modifies this`queues, r.c.read`posted, r.c.read`ready, r.c.read`available
      ensures Valid() && queues == PostAll(old(queues), ReadPick(r))
      ensures if ReadPick(r) != [] then r.c.read.ready && r.c.read.available == -1
        else r.c.read.ready == old(r.c.read.ready) && r.c.read.available == old(r.c.read.available)
    {
      hide Layout, Instances, FreeList, FlagsTell, Distinct, PostAll, Post;
      var c := r.c;
      LayoutOf(c);
      OpenInUse(c);
      PostFew(queues, Pick(c.read, if c.read.accept then ToAccept else ToEvents));
      if (r.readable || r.failed) && c.read.active {
        c.read.ready := true;
        c.read.available := -1;
        PostEvent(c.read, if c.read.accept then ToAccept else ToEvents);
      }
    }

    method DeliverWrite(r: Report)
      requires Valid() && r.c in conns && uses[r.c] > 0 && Passes(r)
      modifies this`queues, r.c.write`posted, r.c.write`ready, r.c.write`complete
      ensures Valid() && queues == PostAll(old(queues), WritePick(r))
      ensures if WritePick(r) != [] then r.c.write.ready && r.c.write.complete
        else r.c.write.ready == old(r.c.write.ready) && r.c.write.complete == old(r.c.write.complete)
    {
      hide Layout, Instances, FreeList, FlagsTell, Distinct, PostAll, Post;
      var c := r.c;
      LayoutOf(c);
      OpenInUse(c);
      PostFew(queues, Pick(c.write, ToEvents));
      if (r.writable || r.failed) && c.write.active {
        if c.fd == -1 || c.write.instance != r.instance {
          return;
        }
        c.write.ready := true;
        c.write.complete := true;
        PostEvent(c.write, ToEvents);
      }
    }

    // One turn of the loop of epoll_process_events.
    method Deliver(r: Report)
      requires Valid() && r.c in conns && uses[r.c] > 0
      modifies this`queues, r.c.read`posted, r.c.write`posted
      modifies r.c.read`ready, r.c.read`available, r.c.write`ready, r.c.write`complete
      ensures Valid() && queues == PostAll(PostAll(old(queues), ReadPick(r)), WritePick(r))
      ensures if ReadPick(r) != [] then r.c.read.ready && r.c.read.available == -1
        else r.c.read.ready == old(r.c.read.ready) && r.c.read.available == old(r.c.read.available)
      ensures if WritePick(r) != [] then r.c.write.ready && r.c.write.complete
        else r.c.write.ready == old(r.c.write.ready) && r.c.write.complete == old(r.c.write.complete)
    {
      hide Cycle.Valid, PostAll, Post;
      LayoutOf(r.c);
      if r.c.fd == -1 || r.c.read.instance != r.instance {
        PostFew(queues, Pick(r.c.read, ToNext));
        return;
      }
      DeliverRead(r);
      DeliverWrite(r);
    }

    lemma PickedMore(ps: seq<Pick>, more: seq<Pick>)
      ensures forall e :: Picked(ps + more, e) <==> Picked(ps, e) || Picked(more, e)
    {
      forall e
        ensures Picked(ps + more, e) == (Picked(ps, e) || Picked(more, e))
      {
        if Picked(ps, e) {
          var k :| 0 <= k < |ps| && ps[k].e == e;
          assert (ps + more)[k].e == e;
        }
        if Picked(more, e) {
          var k :| 0 <= k < |more| && more[k].e == e;
          assert (ps + more)[|ps| + k].e == e;
        }
      }
    }

    // A report hands on at most the two events of its connection.
    lemma PickedOf(r: Report, e: Event)
      ensures Picked(ReadPick(r) + WritePick(r), e) <==>
        (e == r.c.read && ReadPick(r) != []) || (e == r.c.write && WritePick(r) != [])
    {
      var more := ReadPick(r) + WritePick(r);
      if (e == r.c.read && ReadPick(r) != []) || (e == r.c.write && WritePick(r) != []) {
        assert more[if e == r.c.read && ReadPick(r) != [] then 0 else |ReadPick(r)|].e == e;
      }
    }

    lemma PicksNone()
      ensures Picks([]) == []
    {
    }

    lemma PicksStep(rs: seq<Report>, i: nat)
      requires i < |rs|
      ensures Picks(rs[..i + 1]) == Picks(rs[..i]) + (ReadPick(rs[i]) + WritePick(rs[i]))
    {
      assert rs[..i + 1][..i] == rs[..i];
    }

    // The report is of an open connection in the same use, and e is an active
    // event of it that is ready.
    ghost predicate Hands(r: Report, e: Event)
      reads r.c`fd, r.c.read`instance, r.c.read`active, r.c.write`instance, r.c.write`active
    {
      && r.c.fd != -1 && r.c.read.instance == r.instance
      && ((e == r.c.read && r.c.read.active && (r.readable || r.failed)) ||
          (e == r.c.write && r.c.write.active && r.c.write.instance == r.instance && (r.writable || r.failed)))
    }

    ghost predicate Handed(rs: seq<Report>, e: Event)
      reads (set r | r in rs :: r.c)`fd
      reads (set r | r in rs :: r.c.read)`instance, (set r | r in rs :: r.c.read)`active
      reads (set r | r in rs :: r.c.write)`instance, (set r | r in rs :: r.c.write)`active
    {
      exists i :: 0 <= i < |rs| && Hands(rs[i], e)
    }

    // Some report hands on e before any hands on f; of the events of one report,
    // the read event comes first.
    ghost predicate HandedBefore(rs: seq<Report>, e: Event, f: Event)
      reads (set r | r in rs :: r.c)`fd
      reads (set r | r in rs :: r.c.read)`instance, (set r | r in rs :: r.c.read)`active
      reads (set r | r in rs :: r.c.write)`instance, (set r | r in rs :: r.c.write)`active
    {
      exists i :: 0 <= i < |rs| && Hands(rs[i], e) && (forall j :: 0 <= j < i ==> !Hands(rs[j], f))
        && (Hands(rs[i], f) ==> e == rs[i].c.read)
    }

    ghost function Accepting(): set<Event>
      reads owner.Keys`accept
    {
      set e | e in owner && e == owner[e].read && e.accept
    }

    lemma HandsIs(r: Report, e: Event)
      requires r.c.read != r.c.write
      ensures Hands(r, e) <==> (e == r.c.read && ReadPick(r) != []) || (e == r.c.write && WritePick(r) != [])
    {
    }

    // What is picked is what a report hands on.
    lemma {:induction false} PicksHand(rs: seq<Report>, e: Event)
      requires forall r :: r in rs ==> r.c.read != r.c.write
      ensures Picked(Picks(rs), e) <==> Handed(rs, e)
    {
      hide Picked, Cycle.ReadPick, Cycle.WritePick, Cycle.Hands;
      if rs == [] {
        PicksNone();
        PickedNone();
      } else {
        var n := |rs| - 1;
        var rest, last := rs[..n], rs[n];
        assert rs == rest + [last];
        PicksHand(rest, e);
        HandsIs(last, e);
        PicksStep(rs, n);
        assert rs[..n + 1] == rs;
        PickedMore(Picks(rest), ReadPick(last) + WritePick(last));
        PickedOf(last, e);
        assert Handed(rs, e) <==> Handed(rest, e) || Hands(last, e) by {
          assert forall i :: 0 <= i < n ==> rest[i] == rs[i];
        }
      }
    }

    lemma HandedMore(rs: seq<Report>, last: Report, e: Event, f: Event)
      ensures HandedBefore(rs, e, f) ==> HandedBefore(rs + [last], e, f)
      ensures Hands(last, e) && !Handed(rs, f) && (Hands(last, f) ==> e == last.c.read) ==>
        HandedBefore(rs + [last], e, f)
    {
      hide Cycle.Hands;
      var all := rs + [last];
      assert all[|rs|] == last && forall i :: 0 <= i < |rs| ==> all[i] == rs[i];
    }

    lemma PickShape(r: Report)
      ensures ReadPick(r) == [] || (|ReadPick(r)| == 1 && ReadPick(r)[0].e == r.c.read)
      ensures WritePick(r) == [] || (|WritePick(r)| == 1 && WritePick(r)[0].e == r.c.write)
    {
    }

    // In the picks of one report the read event comes first.
    lemma PairOrder(r: Report, e: Event, f: Event)
      requires r.c.read != r.c.write && Earlier(ReadPick(r) + WritePick(r), e, f)
      ensures Hands(r, e) && (Hands(r, f) ==> e == r.c.read)
    {
      hide Cycle.ReadPick, Cycle.WritePick, Cycle.Hands;
      HandsIs(r, e);
      HandsIs(r, f);
      PickShape(r);
      assert (ReadPick(r) + WritePick(r))[..|ReadPick(r)|] == ReadPick(r);
    }

    // The order of the picks is that of the reports.
    lemma {:induction false} PicksBefore(rs: seq<Report>, e: Event, f: Event)
      requires forall r :: r in rs ==> r.c.read != r.c.write
      requires Earlier(Picks(rs), e, f)
      ensures HandedBefore(rs, e, f)
    {
      hide Cycle.ReadPick, Cycle.WritePick, Cycle.Hands, Cycle.Picks, Cycle.Handed, Cycle.HandedBefore, Earlier;
      if rs == [] {
        PicksNone();
        EarlierNone(e, f);
      } else {
        var n := |rs| - 1;
        var rest, last := rs[..n], rs[n];
        assert rs == rest + [last];
        PicksStep(rs, n);
        assert rs[..n + 1] == rs;
        var two := ReadPick(last) + WritePick(last);
        EarlierSplit(Picks(rest), two, e, f);
        if Earlier(Picks(rest), e, f) {
          PicksBefore(rest, e, f);
        } else {
          PicksHand(rest, f);
          PairOrder(last, e, f);
        }
        HandedMore(rest, last, e, f);
      }
    }

    lemma OneNamed(r: Report)
      requires Layout(conns, owner) && r.c in conns
      ensures Named(ReadPick(r) + WritePick(r), Accepting())
    {
    }

    lemma {:induction false} PicksNamed(rs: seq<Report>)
      requires Layout(conns, owner) && forall r :: r in rs ==> r.c in conns
      ensures Named(Picks(rs), Accepting())
    {
      hide Layout, Cycle.ReadPick, Cycle.WritePick, Cycle.Accepting;
      if rs == [] {
        PicksNone();
      } else {
        var n := |rs| - 1;
        PicksNamed(rs[..n]);
        OneNamed(rs[n]);
        PicksStep(rs, n);
        assert rs[..n + 1] == rs;
        NamedMore(Picks(rs[..n]), ReadPick(rs[n]) + WritePick(rs[n]), Accepting());
      }
    }

    // What the reports make of the queues q.
    ghost predicate Polled(q: Queues, rs: seq<Report>)
      reads this, conns, owner.Keys
      reads (set r | r in rs :: r.c)`fd
      reads (set r | r in rs :: r.c.read)`instance, (set r | r in rs :: r.c.read)`active
      reads (set r | r in rs :: r.c.write)`instance, (set r | r in rs :: r.c.write)`active
    {
      && queues.next == q.next && q.accept <= queues.accept && q.events <= queues.events
      && (forall e :: e in owner && e == owner[e].read && e.accept ==>
            (e in queues.accept <==> e in q.accept || (e !in All(q) && Handed(rs, e)))
            && (e in queues.events <==> e in q.events))
      && (forall e :: e in owner && !(e == owner[e].read && e.accept) ==>
            (e in queues.events <==> e in q.events || (e !in All(q) && Handed(rs, e)))
            && (e in queues.accept <==> e in q.accept))
      && (forall i, j :: |q.accept| <= i < j < |queues.accept| ==> HandedBefore(rs, queues.accept[i], queues.accept[j]))
      && (forall i, j :: |q.events| <= i < j < |queues.events| ==> HandedBefore(rs, queues.events[i], queues.events[j]))
    }

    lemma PolledIs(q: Queues, rs: seq<Report>)
      requires Layout(conns, owner) && (forall r :: r in rs ==> r.c in conns) && queues == PostAll(q, Picks(rs))
      ensures Polled(q, rs)
    {
      hide Cycle.Picks, Cycle.Hands, Cycle.Handed, Cycle.HandedBefore, PostAll, Picked, Earlier;
      var ps, a := Picks(rs), Accepting();
      PicksNamed(rs);
      PostAllIs(q, ps, a);
      forall e | e in owner
        ensures (e in queues.accept <==> e in q.accept || (e !in All(q) && e in a && Handed(rs, e)))
        ensures (e in queues.events <==> e in q.events || (e !in All(q) && e !in a && Handed(rs, e)))
      {
        PicksHand(rs, e);
        PostedWhere(q, ps, a, queues, e);
      }
      forall i, j | |q.accept| <= i < j < |queues.accept|
        ensures HandedBefore(rs, queues.accept[i], queues.accept[j])
      {
        PicksBefore(rs, queues.accept[i], queues.accept[j]);
      }
      forall i, j | |q.events| <= i < j < |queues.events|
        ensures HandedBefore(rs, queues.events[i], queues.events[j])
      {
        PicksBefore(rs, queues.events[i], queues.events[j]);
      }
    }

    lemma OthersOf(c: Conn)
      requires Valid() && c in conns
      ensures c.read != c.write && c.read in owner && c.write in owner
      ensures forall d :: d in conns ==> d.read in owner && d.write in owner && d.read != c.write && d.write != c.read
      ensures forall d :: d in conns && d != c ==> d.read != c.read && d.write != c.write
    {
      OthersApart(conns, owner, c);
    }

    lemma AllOwned(rs: seq<Report>)
      requires Valid() && forall r :: r in rs ==> r.c in conns
      ensures forall r :: r in rs ==> r.c.read in owner && r.c.write in owner
    {
    }

    method DeliverBoth(r: Report)
      requires Valid() && r.c in conns && uses[r.c] > 0
      modifies this`queues, r.c.read`posted, r.c.write`posted
      modifies r.c.read`ready, r.c.read`available, r.c.write`ready, r.c.write`complete
      ensures Valid() && queues == PostAll(old(queues), ReadPick(r) + WritePick(r))
      ensures forall e :: e in owner ==> e.ready == (old(e.ready) || Picked(ReadPick(r) + WritePick(r), e))
      ensures forall c :: c in conns ==>
        c.read.available == if Picked(ReadPick(r) + WritePick(r), c.read) then -1 else old(c.read.available)
      ensures forall c :: c in conns ==>
        c.write.complete == (old(c.write.complete) || Picked(ReadPick(r) + WritePick(r), c.write))
    {
      hide Cycle.Valid, PostAll, Cycle.ReadPick, Cycle.WritePick, Picked;
      forall e
        ensures Picked(ReadPick(r) + WritePick(r), e) <==>
          (e == r.c.read && ReadPick(r) != []) || (e == r.c.write && WritePick(r) != [])
      {
        PickedOf(r, e);
      }
      OthersOf(r.c);
      PostAppend(queues, ReadPick(r), WritePick(r));
      Deliver(r);
    }

    // The loop of epoll_process_events.
    method DeliverAll(rs: seq<Report>)
      requires Valid() && forall r :: r in rs ==> r.c in conns && uses[r.c] > 0
      modifies this`queues, owner.Keys`posted, owner.Keys`ready, owner.Keys`available, owner.Keys`complete
      ensures Valid() && queues == PostAll(old(queues), Picks(rs))
      ensures forall e :: e in owner ==> e.ready == (old(e.ready) || Picked(Picks(rs), e))
      ensures forall c :: c in conns ==>
        c.read.available == if Picked(Picks(rs), c.read) then -1 else old(c.read.available)
      ensures forall c :: c in conns ==> c.write.complete == (old(c.write.complete) || Picked(Picks(rs), c.write))
    {
      hide Cycle.Valid, PostAll, Cycle.Picks, Cycle.ReadPick, Cycle.WritePick, Picked;
      PostNone(queues);
      AllOwned(rs);
      PicksNone();
      PickedNone();
      var i := 0;
      ghost var done: seq<Pick> := [];
      while i < |rs|
        invariant 0 <= i <= |rs| && Valid() && done == Picks(rs[..i])
        invariant queues == PostAll(old(queues), done)
        invariant forall e :: e in owner ==> e.ready == (old(e.ready) || Picked(done, e))
        invariant forall c :: c in conns ==>
          c.read.available == if Picked(done, c.read) then -1 else old(c.read.available)
        invariant forall c :: c in conns ==> c.write.complete == (old(c.write.complete) || Picked(done, c.write))
      {
        assert rs[i] in rs;
        PicksStep(rs, i);
        ghost var more := ReadPick(rs[i]) + WritePick(rs[i]);
        PickedMore(done, more);
        DeliverBoth(rs[i]);
        PostAppend(old(queues), done, more);
        forall e | e in owner ensures e.ready == (old(e.ready) || Picked(done + more, e)) {
        }
        forall c | c in conns
          ensures c.read.available == if Picked(done + more, c.read) then -1 else old(c.read.available) {
        }
        forall c | c in conns ensures c.write.complete == (old(c.write.complete) || Picked(done + more, c.write)) {
        }
        done := done + more;
        i := i + 1;
      }
      assert rs[..|rs|] == rs;
    }

    lemma HandedAll(rs: seq<Report>)
      requires Valid() && forall r :: r in rs ==> r.c in conns
      ensures forall e :: e in owner ==> (Picked(Picks(rs), e) <==> Handed(rs, e))
    {
      hide Cycle.Picks, Cycle.Handed, Picked;
      forall e | e in owner
        ensures Picked(Picks(rs), e) <==> Handed(rs, e)
      {
        PicksHand(rs, e);
      }
    }

    // epoll_process_events over what the kernel reports.  An event that a report
    // hands on and that no queue has joins the accepted ones, if it is the read
    // event of a listening socket, and the others if not, in the order of the
    // reports; nothing else moves.
    method ProcessEvents(rs: seq<Report>)
      requires Valid() && forall r :: r in rs ==> r.c in conns && uses[r.c] > 0
      modifies this`queues, owner.Keys`posted, owner.Keys`ready, owner.Keys`available, owner.Keys`complete
      ensures Valid() && queues == PostAll(old(queues), Picks(rs))
      ensures old(queues.accept) <= queues.accept && old(queues.events) <= queues.events
      ensures queues.next == old(queues.next)
      ensures forall e :: e in owner && e == owner[e].read && e.accept ==>
        && (e in queues.accept <==> e in old(queues.accept) || (e !in old(All(queues)) && Handed(rs, e)))
        && (e in queues.events <==> e in old(queues.events))
      ensures forall e :: e in owner && !(e == owner[e].read && e.accept) ==>
        && (e in queues.events <==> e in old(queues.events) || (e !in old(All(queues)) && Handed(rs, e)))
        && (e in queues.accept <==> e in old(queues.accept))
      ensures forall i, j :: |old(queues.accept)| <= i < j < |queues.accept| ==>
        HandedBefore(rs, queues.accept[i], queues.accept[j])
      ensures forall i, j :: |old(queues.events)| <= i < j < |queues.events| ==>
        HandedBefore(rs, queues.events[i], queues.events[j])
      ensures forall e :: e in owner ==> e.ready == (old(e.ready) || Handed(rs, e))
      ensures forall c :: c in conns ==> c.read.available == if Handed(rs, c.read) then -1 else old(c.read.available)
      ensures forall c :: c in conns ==> c.write.complete == (old(c.write.complete) || Handed(rs, c.write))
    {
      hide Instances, FreeList, FlagsTell, Distinct, PostAll, Cycle.Picks, Picked, Cycle.Handed, Cycle.HandedBefore;
      hide All;
      DeliverAll(rs);
      PolledIs(old(queues), rs);
      HandedAll(rs);
    }

    lemma UseOf(c: Conn)
      requires Valid() && c in conns && uses[c] > 0
      ensures c.read.instance == Bit(uses[c]) && (c in connFree ==> c.fd == -1)
    {
      hide FlagsTell, Distinct;
      assert c.read in owner;
      assert c.read in Inst() <==> Bit(uses[c]);
      assert c in Open() <==> c.fd != -1;
    }

    // A tag made in use g of a connection is looked at again just when the
    // connection is open and an even number of uses lies in between.  So a
    // close and one reuse, or a close alone, make it stale.
    lemma StaleTag(r: Report, g: nat)
      requires Valid() && r.c in conns && 1 <= g <= uses[r.c] && r.instance == Bit(g)
      ensures Passes(r) <==> r.c.fd != -1 && (uses[r.c] - g) % 2 == 0
      ensures r.c in connFree || uses[r.c] == g + 1 ==> ReadPick(r) == [] && WritePick(r) == []
    {
      hide Layout, FlagsTell, Distinct, FreeList;
      BitsAgree(g, uses[r.c]);
      UseOf(r.c);
    }

    // Every connection is free or in use, and never both.
    lemma Partition()
      requires Valid()
      ensures |connFree| + |set c | c in conns && InUse(c)| == |conns|
    {
      var f, u := set c | c in connFree, set c | c in conns && InUse(c);
      DistinctSize(connFree);
      assert f + u == conns && f * u == {};
    }

    // What a handler may do: it acts on connections that it holds, and the
    // kernel reports connections that were given to it.
    ghost predicate Enabled(step: Step)
      reads this`connFree, this`uses, this`timers, this`queues
    {
      match step
      case GetStep(_) => connFree != []
      case CloseStep(c) => c in conns && c in uses && uses[c] > 0
      case AddStep(c, _) => InUse(c)
      case ArmStep(e) => e in owner && InUse(owner[e])
      case DisarmStep(e) => e in timers
      case FireStep(e) => e in timers
      case DeferStep(e) => e in owner && InUse(owner[e])
      case TakeStep(name) => QueueOf(queues, name) != []
      case MoveStep => true
      case PollStep(rs) => forall r :: r in rs ==> r.c in conns && r.c in uses && uses[r.c] > 0
    }

    lemma AllFrames()
      requires Valid()
      ensures forall c :: c in conns ==> c.read in owner && c.write in owner
      ensures forall c :: c in connFree ==> c in conns
      ensures timers <= owner.Keys && forall e :: e in All(queues) ==> e in owner
      ensures forall name :: QueueOf(queues, name) != [] ==> QueueOf(queues, name)[0] in owner
    {
      forall name | QueueOf(queues, name) != []
        ensures QueueOf(queues, name)[0] in owner
      {
        HeadDrops(queues, name);
      }
      assert forall e :: e in All(queues) ==> e in Queued();
    }

    // Every step keeps the invariant and forgets no use of a connection.
    method Do(step: Step)
      requires Valid() && Enabled(step)
      modifies this, conns, owner.Keys
      ensures Valid() && forall c :: c in conns ==> uses[c] >= old(uses[c])
    {
      hide Layout, Instances, FreeList, FlagsTell, Distinct, Cycle.Picks, PostAll;
      AllFrames();
      match step
      case GetStep(fd) => var c := Get(fd);
      case CloseStep(c) => Close(c);
      case AddStep(c, epollOk) => var rc, tag := AddConnection(c, epollOk);
      case ArmStep(e) => AddTimer(e);
      case DisarmStep(e) => DelTimer(e);
      case FireStep(e) => FireTimer(e);
      case DeferStep(e) => PostEvent(e, ToNext);
      case TakeStep(name) => var e := PopPosted(name);
      case MoveStep => MovePostedNext();
      case PollStep(rs) => ProcessEvents(rs);
    }
  }
}
