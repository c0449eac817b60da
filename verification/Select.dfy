// The registry of the select back end: a dense index and two sets of
// descriptors.
module Select {
  import opened Lists

  const INVALID_INDEX: int := 0xd0d0d0d0

  datatype Kind = Read | Write

  // An event and, of its connection, the descriptor.
  class Event {
    const fd: int
    const write: bool
    var active: bool
    var index: int

    constructor (fd: int, write: bool)
      requires fd >= 0
      ensures this.fd == fd && this.write == write && !active && index == INVALID_INDEX
    {
      this.fd, this.write, active, index := fd, write, false, INVALID_INDEX;
    }
  }

  // The descriptors of the events of one kind.
  ghost function FdsOf(s: seq<Event>, write: bool): set<int>
  {
    set e | e in s && e.write == write :: e.fd
  }

  // No two events of a kind share a descriptor.
  ghost predicate OwnFds(s: seq<Event>)
  {
    forall i, j :: 0 <= i < j < |s| && s[i].write == s[j].write ==> s[i].fd != s[j].fd
  }

  ghost predicate IsMax(s: seq<Event>, m: int)
  {
    (forall e :: e in s ==> e.fd <= m) && exists e :: e in s && e.fd == m
  }

  // The last element goes to place k, and the sequence is one shorter.
  ghost function Compacted(s: seq<Event>, k: nat): (t: seq<Event>)
    requires k < |s|
    ensures |t| == |s| - 1
  {
    if k == |s| - 1 then s[..k] else s[..|s| - 1][k := s[|s| - 1]]
  }

  lemma CompactedFacts(s: seq<Event>, k: nat)
    requires k < |s| && Distinct(s)
    ensures Distinct(Compacted(s, k)) && s[k] !in Compacted(s, k)
    ensures forall e :: e in Compacted(s, k) <==> e in s && e != s[k]
    ensures OwnFds(s) ==> OwnFds(Compacted(s, k))
  {
    var t, n := Compacted(s, k), |s| - 1;
    forall e | e in s && e != s[k]
      ensures e in t
    {
      var i :| 0 <= i < |s| && s[i] == e;
      assert t[if i == n then k else i] == e;
    }
    assert forall i :: 0 <= i < n ==> t[i] == s[if i == k then n else i];
  }

  lemma CompactedFds(s: seq<Event>, k: nat)
    requires k < |s| && Distinct(s) && OwnFds(s)
    ensures FdsOf(Compacted(s, k), s[k].write) == FdsOf(s, s[k].write) - {s[k].fd}
    ensures FdsOf(Compacted(s, k), !s[k].write) == FdsOf(s, !s[k].write)
  {
    CompactedFacts(s, k);
    var t, x := Compacted(s, k), s[k];
    forall e | e in t && e.write == x.write
      ensures e.fd != x.fd
    {
      var i :| 0 <= i < |s| && s[i] == e;
      assert s[if i < k then i else k].fd != s[if i < k then k else i].fd;
    }
    forall d | d in FdsOf(s, x.write) - {x.fd}
      ensures d in FdsOf(t, x.write)
    {
      var e :| e in s && e.write == x.write && e.fd == d;
      assert e in t;
    }
    var other := FdsOf(s, !x.write);
    forall d | d in other
      ensures d in FdsOf(t, !x.write)
    {
      var e :| e in s && e.write == !x.write && e.fd == d;
      assert e in t;
    }
  }

  lemma FdIn(s: seq<Event>, k: nat)
    requires k < |s|
    ensures s[k].fd in FdsOf(s, s[k].write)
  {
  }

  lemma AppendFacts(s: seq<Event>, e: Event, m: int)
    requires Distinct(s) && OwnFds(s) && e !in s && e.fd !in FdsOf(s, e.write)
    ensures Distinct(s + [e]) && OwnFds(s + [e])
    ensures FdsOf(s + [e], e.write) == FdsOf(s, e.write) + {e.fd} && FdsOf(s + [e], !e.write) == FdsOf(s, !e.write)
    ensures IsMax(s, m) ==> IsMax(s + [e], if m < e.fd then e.fd else m)
  {
    var t := s + [e];
    assert forall x :: x in t <==> x in s || x == e;
    forall i | 0 <= i < |s| && s[i].write == e.write
      ensures s[i].fd != e.fd
    {
      assert s[i] in s;
    }
    assert e in t;
    if IsMax(s, m) && m >= e.fd {
      var x :| x in s && x.fd == m;
      assert x in t;
    }
  }

  lemma CompactedMax(s: seq<Event>, k: nat, m: int)
    requires k < |s| && Distinct(s)
    ensures IsMax(s, m) && s[k].fd != m ==> IsMax(Compacted(s, k), m)
  {
    CompactedFacts(s, k);
    if IsMax(s, m) && s[k].fd != m {
      var x :| x in s && x.fd == m;
      assert x in Compacted(s, k);
    }
  }

  lemma MaxMore(s: seq<Event>, i: nat, m: int)
    requires i < |s| && s[i].fd >= 0
    requires if i == 0 then m == -1 else IsMax(s[..i], m)
    ensures IsMax(s[..i + 1], if m < s[i].fd then s[i].fd else m)
  {
    var t := s[..i + 1];
    assert t == s[..i] + [s[i]] && s[i] in t;
    forall e | e in t
      ensures e in s[..i] || e == s[i]
    {
    }
    if m >= s[i].fd {
      var x :| x in s[..i] && x.fd == m;
      assert x in t;
    }
  }

  class SelectModule {
    const indexs: array<Event?>
    ghost const all: set<Event>

    var events: nat
    var readSet: set<int>
    var writeSet: set<int>
    var maxFd: int
    ghost var registered: seq<Event>

    ghost predicate Indexed()
      reads this`events, this`registered, indexs, all`index
    {
      && events == |registered| <= indexs.Length
      && (forall i :: 0 <= i < events ==>
            indexs[i] == registered[i] && registered[i] in all && registered[i].index == i)
      && (forall e :: e in all && e !in registered ==> e.index == INVALID_INDEX)
    }

    ghost predicate Valid()
      reads this, indexs, all`index
    {
      && |all| <= indexs.Length && |all| < INVALID_INDEX && (forall e :: e in all ==> e.fd >= 0)
      && Indexed() && Distinct(registered) && OwnFds(registered)
      && readSet == FdsOf(registered, false) && writeSet == FdsOf(registered, true)
      && (maxFd == -1 || IsMax(registered, maxFd))
    }

    // The index has a place for each event of the worker.
    constructor (size: nat, ghost all: set<Event>)
      requires |all| <= size && |all| < INVALID_INDEX && forall e :: e in all ==> e.index == INVALID_INDEX && e.fd >= 0
      ensures Valid() && registered == [] && this.all == all && fresh(indexs)
    {
      indexs := new Event?[size](_ => null);
      this.all := all;
      events, readSet, writeSet, maxFd, registered := 0, {}, {}, -1, [];
    }

    // Each set holds the descriptors of the registered events of its kind.
    lemma SetsAre(d: int)
      requires Valid()
      ensures d in readSet <==> exists i :: 0 <= i < |registered| && !registered[i].write && registered[i].fd == d
      ensures d in writeSet <==> exists i :: 0 <= i < |registered| && registered[i].write && registered[i].fd == d
    {
      if d in readSet {
        var e :| e in registered && !e.write && e.fd == d;
        var i :| 0 <= i < |registered| && registered[i] == e;
        assert !registered[i].write && registered[i].fd == d;
      }
      if d in writeSet {
        var e :| e in registered && e.write && e.fd == d;
        var i :| 0 <= i < |registered| && registered[i] == e;
        assert registered[i].write && registered[i].fd == d;
      }
    }

    // An event has a place exactly when it is registered.
    lemma KnownIndex(ev: Event)
      requires Indexed() && |all| <= indexs.Length && |all| < INVALID_INDEX && Distinct(registered) && ev in all
      ensures ev.index == INVALID_INDEX <==> ev !in registered
      ensures ev in registered ==> 0 <= ev.index < events && registered[ev.index] == ev
    {
      if ev in registered {
        var i :| 0 <= i < |registered| && registered[i] == ev;
        DistinctSize(registered);
        var s := set e | e in registered;
        SubsetSize(s, all);
      }
    }

    lemma RoomLeft(ev: Event)
      requires Indexed() && Distinct(registered) && |all| <= indexs.Length && ev in all && ev !in registered
      ensures events < indexs.Length
    {
      DistinctSize(registered);
      var s := set e | e in registered;
      assert s <= all - {ev};
      SubsetSize(s, all - {ev});
    }

    // The last lines of select_proc_add_event: the next place of the index.
    method Place(ev: Event)
      requires Indexed() && events < indexs.Length && ev in all && ev !in registered
      modifies this`events, this`registered, indexs, ev
      ensures Indexed() && ev.active && registered == old(registered) + [ev]
    {
      ev.active := true;
      indexs[events] := ev;
      ev.index := events;
      events := events + 1;
      registered := registered + [ev];
    }

    // select_proc_add_event.
    method AddEvent(ev: Event, event: Kind) returns (rc: int)
      requires Valid() && ev in all
      requires ev !in registered ==> ev.fd !in FdsOf(registered, ev.write)
      modifies this, indexs, ev
      ensures Valid()
      ensures rc == if ev in old(registered) || (event == Write) == ev.write then 0 else -1
      ensures registered ==
        if ev in old(registered) || (event == Write) != ev.write then old(registered) else old(registered) + [ev]
      ensures ev.active == (old(ev.active) || registered != old(registered))
    {
      hide FdsOf, OwnFds, Distinct, IsMax, SelectModule.Indexed;
      KnownIndex(ev);
      if ev.index != INVALID_INDEX {
        return 0;
      }
      if (event == Read && ev.write) || (event == Write && !ev.write) {
        return -1;
      }
      AppendFacts(registered, ev, maxFd);
      RoomLeft(ev);
      if event == Read {
        readSet := readSet + {ev.fd};
      } else {
        writeSet := writeSet + {ev.fd};
      }
      if maxFd != -1 && maxFd < ev.fd {
        maxFd := ev.fd;
      }
      Place(ev);
      return 0;
    }

    // The last lines of select_del_event: the index stays dense.
    method Unindex(ev: Event)
      requires Indexed() && Distinct(registered) && ev in all && 0 <= ev.index < events && registered[ev.index] == ev
      requires Distinct(Compacted(registered, ev.index))
      modifies this`events, this`registered, indexs, all`index
      ensures Indexed() && ev.index == INVALID_INDEX && registered == Compacted(old(registered), old(ev.index))
    {
      ghost var k: nat := ev.index;
      CompactedFacts(registered, k);
      events := events - 1;
      if ev.index < events {
        var e := indexs[events];
        indexs[ev.index] := e;
        e.index := ev.index;
      }
      ev.index := INVALID_INDEX;
      registered := Compacted(registered, k);
    }

    // select_del_event.  The index stays dense whatever the kind; the sets stay
    // those of the registered events if and only if the kind is that of the event.
    method DelEvent(ev: Event, event: Kind)
      requires Valid() && ev in all
      modifies this, indexs, all`index, ev`active
      ensures Indexed() && Distinct(registered) && !ev.active && ev.index == INVALID_INDEX && ev !in registered
      ensures forall e :: e in registered <==> e in old(registered) && e != ev
      ensures Valid() <==> (event == Write) == ev.write || ev !in old(registered)
      ensures ev !in old(registered) ==> registered == old(registered)
    {
      hide FdsOf, OwnFds, Distinct, IsMax, Compacted;
      KnownIndex(ev);
      ev.active := false;
      if ev.index == INVALID_INDEX {
        return;
      }
      ghost var k: nat := ev.index;
      CompactedFacts(registered, k);
      CompactedFds(registered, k);
      CompactedMax(registered, k, maxFd);
      FdIn(registered, k);
      if event == Read {
        readSet := readSet - {ev.fd};
      } else {
        writeSet := writeSet - {ev.fd};
      }
      if maxFd == ev.fd {
        maxFd := -1;
      }
      Unindex(ev);
    }

    // The head of select_process_events: the largest descriptor, if it is not
    // known; -1 only when nothing is registered.
    method FindMax()
      requires Valid()
      modifies this`maxFd
      ensures Valid() && (maxFd == -1 <==> registered == [])
      ensures registered != [] ==>
        (forall e :: e in registered ==> e.fd <= maxFd) && exists e :: e in registered && e.fd == maxFd
    {
      hide FdsOf, OwnFds, Distinct;
      if maxFd == -1 {
        var i := 0;
        while i < events
          invariant i <= events && (maxFd == -1 <==> i == 0) && (i > 0 ==> IsMax(registered[..i], maxFd))
        {
          MaxMore(registered, i, maxFd);
          if maxFd < indexs[i].fd {
            maxFd := indexs[i].fd;
          }
          i := i + 1;
        }
        assert registered[..i] == registered;
      }
    }
  }
}
