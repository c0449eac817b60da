// The table of child processes: spawn, exit marks, signals, reaping, reload.
module ProcessTable {
  import opened ProcessEntry

  const PROCESSES_MAX: nat := 1024

  // ---- slots ----

  // The first slot below last whose pid is the given one; last if there is none.
  function SlotOf(ps: seq<Proc>, last: nat, pid: int): (s: nat)
    requires last <= |ps|
    ensures s <= last && (s < last ==> ps[s].pid == pid) && forall i :: 0 <= i < s ==> ps[i].pid != pid
  {
    if last == 0 then 0
    else
      var s := SlotOf(ps, last - 1, pid);
      if s < last - 1 || ps[last - 1].pid == pid then s else last
  }

  lemma SlotIs(ps: seq<Proc>, last: nat, pid: int, s: nat)
    requires s <= last <= |ps| && (s < last ==> ps[s].pid == pid) && forall i :: 0 <= i < s ==> ps[i].pid != pid
    ensures SlotOf(ps, last, pid) == s
  {
  }

  // ---- marking exits ----

  // One answer of waitpid.  For a process that is not in the table the slot
  // behind the last one is looked at.
  function Marked(ps: seq<Proc>, last: nat, w: Waited): (r: seq<Proc>)
    requires last <= |ps|
    ensures |r| == |ps|
  {
    var s := SlotOf(ps, last, w.pid);
    if s < last then ps[s := After(ps[s], Exit(w.status2))]
    else if w.status2 && s < |ps| then ps[s := ps[s].(respawn := false)]
    else ps
  }

  function MarkedAll(ps: seq<Proc>, last: nat, ws: seq<Waited>): (r: seq<Proc>)
    requires last <= |ps|
    ensures |r| == |ps|
  {
    if ws == [] then ps else Marked(MarkedAll(ps, last, ws[..|ws| - 1]), last, ws[|ws| - 1])
  }

  // What the entries hear of it.
  function ToldExit(ps: seq<Proc>, last: nat, told: seq<seq<Told>>, w: Waited): (r: seq<seq<Told>>)
    requires last <= |ps| == |told|
    ensures |r| == |told|
  {
    var s := SlotOf(ps, last, w.pid);
    if s < last then told[s := told[s] + [Exit(w.status2)]] else told
  }

  function ToldExits(ps: seq<Proc>, last: nat, told: seq<seq<Told>>, ws: seq<Waited>): (r: seq<seq<Told>>)
    requires last <= |ps| == |told|
    ensures |r| == |told|
  {
    if ws == [] then told else ToldExit(ps, last, ToldExits(ps, last, told, ws[..|ws| - 1]), ws[|ws| - 1])
  }

  // The entry behind the last one is read inside the array.
  predicate InBounds(ps: seq<Proc>, last: nat, w: Waited)
    requires last <= |ps|
  {
    w.status2 ==> SlotOf(ps, last, w.pid) < |ps|
  }

  lemma FullTable(ps: seq<Proc>, w: Waited)
    requires |ps| == PROCESSES_MAX && w.status2
    ensures InBounds(ps, PROCESSES_MAX, w) <==> exists i :: 0 <= i < PROCESSES_MAX && ps[i].pid == w.pid
  {
    var s := SlotOf(ps, PROCESSES_MAX, w.pid);
  }

  // ---- the invariant ----

  // What the table shows, and that nothing runs behind its end.
  predicate Shape(ps: seq<Proc>, last: nat)
    requires last <= |ps|
  {
    && (forall i :: 0 <= i < last ==> ps[i].pid == -1 || ps[i].pid > 0)
    && (forall i :: 0 <= i < last && ps[i].pid != -1 && ps[i].respawn ==> !ps[i].detached)
    && (forall i :: last <= i < |ps| ==> ps[i].pid <= 0 || ps[i].exited)
  }

  // An entry is what it was when its slot was filled and what it was told since.
  predicate Recorded(ps: seq<Proc>, last: nat, born: seq<Proc>, told: seq<seq<Told>>)
    requires last <= |ps| == |born| == |told|
  {
    forall i :: 0 <= i < last && ps[i].pid != -1 ==>
      Spawned(born[i]) && ps[i] == Replay(born[i], told[i])
  }

  predicate DistinctPids(ps: seq<Proc>, last: nat)
    requires last <= |ps|
  {
    forall i, j :: 0 <= i < j < last && Running(ps[i]) && Running(ps[j]) ==> ps[i].pid != ps[j].pid
  }

  // The unexited entries are children not waited for, each listed once.
  predicate Known(ps: seq<Proc>, last: nat, children: set<int>)
    requires last <= |ps|
  {
    && (forall i :: 0 <= i < last && Running(ps[i]) ==> ps[i].pid in children)
    && DistinctPids(ps, last)
  }

  predicate Fresh(ps: seq<Proc>, last: nat, pid: int)
    requires last <= |ps|
  {
    forall i :: 0 <= i < last && Running(ps[i]) ==> ps[i].pid != pid
  }

  // A spawn keeps the pids of the unexited entries distinct just when the
  // kernel gives one that none of them has.
  lemma SpawnDistinct(ps: seq<Proc>, last: nat, s: nat, e: Proc)
    requires s <= last <= |ps| && s < |ps| && Running(e) && (s < last ==> !Running(ps[s]))
    requires DistinctPids(ps, last)
    ensures DistinctPids(ps[s := e], if s == last then last + 1 else last) <==> Fresh(ps, last, e.pid)
  {
    var qs := ps[s := e];
    if !Fresh(ps, last, e.pid) {
      var i :| 0 <= i < last && Running(ps[i]) && ps[i].pid == e.pid;
      assert i != s && qs[i].pid == qs[s].pid == e.pid;
      assert qs[if i < s then i else s].pid == qs[if i < s then s else i].pid;
    }
  }

  // The process ends, but an earlier entry that has exited carries its pid.
  predicate Strays(ps: seq<Proc>, last: nat, pid: int)
    requires last <= |ps|
  {
    exists i :: SlotOf(ps, last, pid) < i < last && Running(ps[i]) && ps[i].pid == pid
  }

  // An answer of waitpid marks the entry of the running process if and only if
  // no earlier entry, left behind by an exited one, has the same pid.
  lemma MarkedIs(ps: seq<Proc>, last: nat, w: Waited, i: nat)
    requires i < last <= |ps| && Running(ps[i]) && ps[i].pid == w.pid
    ensures Marked(ps, last, w)[i].exited <==> forall j :: 0 <= j < i ==> ps[j].pid != w.pid
    ensures Marked(ps, last, w)[i].exited ==>
      Marked(ps, last, w) == ps[i := ps[i].(exited := true, respawn := ps[i].respawn && !w.status2)]
    ensures DistinctPids(ps, last) ==> (Strays(ps, last, w.pid) <==> exists j :: 0 <= j < i && ps[j].pid == w.pid)
    ensures forall k :: 0 <= k < last && ps[k].pid != w.pid ==> Marked(ps, last, w)[k] == ps[k]
  {
    var s := SlotOf(ps, last, w.pid);
    assert s <= i;
  }

  // A worker that could not be started again keeps its entry; when the kernel
  // gives its pid to a worker in a later slot, the exit of that worker is lost.
  lemma StaleEntry()
    ensures var ps := [Proc(7, true, false, false, false, true), Proc(7, true, false, false, false, false)];
      Known(ps, 2, {7}) && Strays(ps, 2, 7) && Marked(ps, 2, Waited(7, false)) == ps
  {
    var ps := [Proc(7, true, false, false, false, true), Proc(7, true, false, false, false, false)];
    SlotIs(ps, 2, 7, 0);
    assert Running(ps[1]) && ps[1].pid == 7;
  }

  // ---- what one change of an entry keeps ----

  lemma SpawnKeeps(ps: seq<Proc>, last: nat, born: seq<Proc>, told: seq<seq<Told>>, s: nat, flag: int, pid: int)
    requires last <= |ps| == |born| == |told| && s < |ps| && DETACHED <= flag && pid > 0
    requires Shape(ps, last) && Recorded(ps, last, born, told)
    requires if flag >= 0 then s < last && ps[s].respawn && !ps[s].exiting && ps[s].pid != -1 else s <= last
    ensures var e, now := Entry(flag, pid, ps[s]), if s == last then last + 1 else last;
      Shape(ps[s := e], now) && Recorded(ps[s := e], now, born[s := e], told[s := []])
  {
  }

  lemma SpawnKnown(ps: seq<Proc>, last: nat, children: set<int>, s: nat, e: Proc)
    requires s <= last <= |ps| && s < |ps| && Known(ps, last, children) && e.pid !in children
    ensures Known(ps[s := e], if s == last then last + 1 else last, children + {e.pid})
  {
  }

  // The entry hears something more.
  lemma ToldKeeps(ps: seq<Proc>, last: nat, born: seq<Proc>, told: seq<seq<Told>>, i: nat, t: Told)
    requires i < last <= |ps| == |born| == |told|
    requires Shape(ps, last) && Recorded(ps, last, born, told)
    ensures Shape(ps[i := After(ps[i], t)], last)
    ensures ps[i].pid != -1 ==> Recorded(ps[i := After(ps[i], t)], last, born, told[i := told[i] + [t]])
    ensures Recorded(ps[i := After(ps[i], t)], last, born, told[i := told[i] + [t]])
  {
    assert (told[i] + [t])[..|told[i]|] == told[i];
  }

  lemma ToldKnown(ps: seq<Proc>, last: nat, children: set<int>, i: nat, t: Told)
    requires i < last <= |ps| && Known(ps, last, children)
    ensures Known(ps[i := After(ps[i], t)], last, children)
  {
    assert After(ps[i], t).pid == ps[i].pid && (Running(After(ps[i], t)) ==> Running(ps[i]));
  }

  lemma MarkedKnown(ps: seq<Proc>, last: nat, children: set<int>, w: Waited)
    requires last <= |ps| && Known(ps, last, children) && !Strays(ps, last, w.pid)
    ensures Known(Marked(ps, last, w), last, children - {w.pid})
  {
    var s := SlotOf(ps, last, w.pid);
    if s < last {
      ToldKnown(ps, last, children, s, Exit(w.status2));
    }
  }

  // An entry behind the table keeps its pid and its exit mark.
  lemma BehindKeeps(ps: seq<Proc>, last: nat, born: seq<Proc>, told: seq<seq<Told>>)
    requires last < |ps| == |born| == |told| && Shape(ps, last) && Recorded(ps, last, born, told)
    ensures var qs := ps[last := ps[last].(respawn := false)];
      && Shape(qs, last) && Recorded(qs, last, born, told)
      && forall children :: Known(ps, last, children) ==> Known(qs, last, children)
  {
  }

  lemma MarkedKeeps(ps: seq<Proc>, last: nat, born: seq<Proc>, told: seq<seq<Told>>, w: Waited)
    requires last <= |ps| == |born| == |told| && Shape(ps, last) && Recorded(ps, last, born, told)
    ensures Shape(Marked(ps, last, w), last) && Recorded(Marked(ps, last, w), last, born, ToldExit(ps, last, told, w))
  {
    hide Shape, Recorded;
    var s := SlotOf(ps, last, w.pid);
    if s < last {
      ToldKeeps(ps, last, born, told, s, Exit(w.status2));
    } else if s < |ps| {
      BehindKeeps(ps, last, born, told);
    }
  }

  // Marks change no pid below last, and only the entries of the pids named.
  lemma {:induction false} MarkedOthers(ps: seq<Proc>, last: nat, ws: seq<Waited>)
    requires last <= |ps|
    ensures var qs := MarkedAll(ps, last, ws);
      && (forall i :: 0 <= i < |ps| ==> qs[i].pid == ps[i].pid)
      && (forall i :: 0 <= i < last && (forall k :: 0 <= k < |ws| ==> ws[k].pid != ps[i].pid) ==> qs[i] == ps[i])
  {
    if ws != [] {
      MarkedOthers(ps, last, ws[..|ws| - 1]);
    }
  }

  lemma {:induction false} SlotSame(ps: seq<Proc>, qs: seq<Proc>, last: nat, pid: int)
    requires last <= |ps| == |qs| && forall i :: 0 <= i < last ==> qs[i].pid == ps[i].pid
    ensures SlotOf(ps, last, pid) == SlotOf(qs, last, pid)
  {
    SlotIs(qs, last, pid, SlotOf(ps, last, pid));
  }

  // The next answer, seen from the table as it was before the first one.
  lemma NextAnswer(ps: seq<Proc>, last: nat, told: seq<seq<Told>>, ws: seq<Waited>, k: nat)
    requires k < |ws| && last <= |ps| == |told|
    requires forall j :: 0 <= j < k ==> ws[j].pid != ws[k].pid
    ensures var qs, g := MarkedAll(ps, last, ws[..k]), ToldExits(ps, last, told, ws[..k]);
      && MarkedAll(ps, last, ws[..k + 1]) == Marked(qs, last, ws[k])
      && ToldExits(ps, last, told, ws[..k + 1]) == ToldExit(qs, last, g, ws[k])
      && (InBounds(ps, last, ws[k]) <==> InBounds(qs, last, ws[k]))
      && (Strays(ps, last, ws[k].pid) <==> Strays(qs, last, ws[k].pid))
  {
    var qs := MarkedAll(ps, last, ws[..k]);
    assert ws[..k + 1][..k] == ws[..k];
    MarkedOthers(ps, last, ws[..k]);
    SlotSame(ps, qs, last, ws[k].pid);
    assert forall i :: 0 <= i < last && ps[i].pid == ws[k].pid ==> qs[i] == ps[i];
    assert forall i :: 0 <= i < last && qs[i].pid == ws[k].pid ==> qs[i] == ps[i];
  }

  lemma FewerKeeps(ps: seq<Proc>, last: nat, born: seq<Proc>, told: seq<seq<Told>>)
    requires last < |ps| == |born| == |told| && ps[last].exited
    requires Shape(ps, last + 1) && Recorded(ps, last + 1, born, told)
    ensures Shape(ps, last) && Recorded(ps, last, born, told)
    ensures forall children :: Known(ps, last + 1, children) ==> Known(ps, last, children)
  {
  }

  lemma EmptyKeeps(ps: seq<Proc>, last: nat, born: seq<Proc>, told: seq<seq<Told>>, i: nat)
    requires i < last <= |ps| == |born| == |told| && Shape(ps, last) && Recorded(ps, last, born, told)
    ensures var qs := ps[i := ps[i].(pid := -1)]; Shape(qs, last) && Recorded(qs, last, born, told)
    ensures forall children :: Known(ps, last, children) ==> Known(ps[i := ps[i].(pid := -1)], last, children)
  {
  }

  // The answers of fork from i on: no child that is still there, and none twice.
  predicate ForksLeft(children: set<int>, forks: seq<Fork>, i: nat)
  {
    && (forall k :: i <= k < |forks| && forks[k].pid != -1 ==> forks[k].pid > 0 && forks[k].pid !in children)
    && (forall j, k :: i <= j < k < |forks| && forks[j].pid != -1 ==> forks[j].pid != forks[k].pid)
  }

  // The answers of waitpid: children, none twice.
  predicate Waits(children: set<int>, ws: seq<Waited>)
  {
    && (forall k :: 0 <= k < |ws| ==> ws[k].pid in children && ws[k].pid > 0)
    && (forall j, k :: 0 <= j < k < |ws| ==> ws[j].pid != ws[k].pid)
  }

  lemma ShapeAt(ps: seq<Proc>, last: nat, i: nat)
    requires i < last <= |ps| && Shape(ps, last) && ps[i].pid != -1 && ps[i].respawn
    ensures !ps[i].detached
  {
  }

  lemma ForkOf(children: set<int>, forks: seq<Fork>, i: nat)
    requires i < |forks| && ForksLeft(children, forks, i)
    ensures forks[i].pid != -1 ==> forks[i].pid > 0 && forks[i].pid !in children
    ensures ForksLeft(children, forks, i + 1) && ForksLeft(children + {forks[i].pid}, forks, i + 1)
  {
  }

  // Reaping looks at the end of the table once, at the last slot.
  function Shrunk(ps: seq<Proc>, last: nat, stopping: bool): nat
    requires last <= |ps|
  {
    if last > 0 && Dropped(ps[last - 1], stopping) then last - 1 else last
  }

  lemma ShrunkIs(ps: seq<Proc>, last: nat, stopping: bool)
    requires last <= |ps|
    ensures last - 1 <= Shrunk(ps, last, stopping) <= last && Shrunk(ps, 0, stopping) == 0
  {
  }

  // The first n slots after reaping.
  predicate ReapedTo(ps: seq<Proc>, born: seq<Proc>, told: seq<seq<Told>>, forks: seq<Fork>, stopping: bool,
                     qs: seq<Proc>, b: seq<Proc>, t: seq<seq<Told>>, n: nat)
    requires n <= |ps| == |born| == |told| == |forks| == |qs| == |b| == |t|
  {
    forall i :: 0 <= i < n ==>
      && qs[i] == Reaped(ps[i], stopping, forks[i])
      && b[i] == (if Renewed(ps[i], stopping, forks[i]) then qs[i] else born[i])
      && t[i] == (if Renewed(ps[i], stopping, forks[i]) then [] else told[i])
  }

  lemma ReapedNext(ps: seq<Proc>, born: seq<Proc>, told: seq<seq<Told>>, forks: seq<Fork>, stopping: bool,
                   qs: seq<Proc>, b: seq<Proc>, t: seq<seq<Told>>, n: nat,
                   rs: seq<Proc>, c: seq<Proc>, u: seq<seq<Told>>)
    requires n < |ps| == |born| == |told| == |forks| == |qs| == |b| == |t| == |rs| == |c| == |u|
    requires ReapedTo(ps, born, told, forks, stopping, qs, b, t, n) && b[n] == born[n] && t[n] == told[n]
    requires rs == qs[n := Reaped(ps[n], stopping, forks[n])]
    requires if Renewed(ps[n], stopping, forks[n]) then c == b[n := rs[n]] && u == t[n := []] else c == b && u == t
    ensures ReapedTo(ps, born, told, forks, stopping, rs, c, u, n + 1)
  {
  }

  // The pids of the processes that reaping the first n slots starts.
  function Started(ps: seq<Proc>, forks: seq<Fork>, stopping: bool, n: nat): set<int>
    requires n <= |ps| == |forks|
  {
    set i | 0 <= i < n && Renewed(ps[i], stopping, forks[i]) :: forks[i].pid
  }

  lemma StartedNext(ps: seq<Proc>, forks: seq<Fork>, stopping: bool, n: nat)
    requires n < |ps| == |forks|
    ensures Started(ps, forks, stopping, n + 1)
      == Started(ps, forks, stopping, n) + (if Renewed(ps[n], stopping, forks[n]) then {forks[n].pid} else {})
  {
  }

  lemma DroppedOnly(e: Proc, stopping: bool, f: Fork)
    ensures !(Dropped(e, stopping) && Renewed(e, stopping, f))
  {
  }

  lemma ReapedNone(ps: seq<Proc>, born: seq<Proc>, told: seq<seq<Told>>, forks: seq<Fork>, stopping: bool)
    requires |ps| == |born| == |told| == |forks|
    ensures ReapedTo(ps, born, told, forks, stopping, ps, born, told, 0) && Started(ps, forks, stopping, 0) == {}
  {
  }

  function Pids(ws: seq<Waited>): set<int>
  {
    set k | 0 <= k < |ws| :: ws[k].pid
  }

  lemma NoAnswers(ps: seq<Proc>, last: nat, told: seq<seq<Told>>)
    requires last <= |ps| == |told|
    ensures MarkedAll(ps, last, []) == ps && ToldExits(ps, last, told, []) == told
  {
  }

  lemma OneAnswer(children: set<int>, ws: seq<Waited>, k: nat)
    requires k < |ws| && Waits(children, ws[k..])
    ensures ws[k].pid > 0 && Waits(children - {ws[k].pid}, ws[k + 1..])
    ensures Pids(ws[..k + 1]) == Pids(ws[..k]) + {ws[k].pid}
  {
    assert ws[k..][0] == ws[k];
    assert ws[k + 1..] == ws[k..][1..];
    assert ws[..k + 1] == ws[..k] + [ws[k]];
    assert forall j :: 0 <= j < k ==> ws[..k + 1][j] == ws[..k][j];
    forall p | p in Pids(ws[..k]) + {ws[k].pid}
      ensures p in Pids(ws[..k + 1])
    {
      if p == ws[k].pid {
        assert ws[..k + 1][k].pid == p;
      } else {
        var j :| 0 <= j < k && ws[..k][j].pid == p;
        assert ws[..k + 1][j].pid == p;
      }
    }
  }

  class Table {
    const procs: array<Proc>

    var last: nat
    var slot: nat
    var reap: bool
    var stopping: bool
    ghost var born: seq<Proc>
    ghost var told: seq<seq<Told>>
    ghost var children: set<int>
    ghost var astray: bool

    // Astray: a process ended whose pid an entry left behind has.
    ghost predicate Valid()
      reads this`last, this`born, this`told, this`children, this`astray, procs
    {
      && last <= PROCESSES_MAX == procs.Length == |born| == |told|
      && Shape(procs[..], last)
      && Recorded(procs[..], last, born, told)
      && (astray || Known(procs[..], last, children))
    }

    // There may be children that the table does not list.
    constructor (ghost others: set<int>)
      ensures Valid() && last == 0 && !stopping && !astray && children == others && fresh(procs)
    {
      procs := new Proc[PROCESSES_MAX](_ => Proc(0, false, false, false, false, false));
      last, slot, reap, stopping := 0, 0, false, false;
      born, told := seq(PROCESSES_MAX, _ => Proc(0, false, false, false, false, false)), seq(PROCESSES_MAX, _ => []);
      children, astray := others, false;
    }

    // The fields of a slot that has a new process.
    method Fill(s: nat, flag: int, pid: int)
      requires s < procs.Length && DETACHED <= flag
      modifies procs
      ensures procs[..] == old(procs[..])[s := Entry(flag, pid, old(procs[..])[s])]
    {
      procs[s] := procs[s].(pid := pid, exited := false);
      if flag >= 0 {
        return;
      }
      procs[s] := procs[s].(exiting := false);
      if flag == NORESPAWN {
        procs[s] := procs[s].(respawn := false, justSpawn := false, detached := false);
      } else if flag == JUST_SPAWN {
        procs[s] := procs[s].(respawn := false, justSpawn := true, detached := false);
      } else if flag == RESPAWN {
        procs[s] := procs[s].(respawn := true, justSpawn := false, detached := false);
      } else if flag == JUST_RESPAWN {
        procs[s] := procs[s].(respawn := true, justSpawn := true, detached := false);
      } else if flag == DETACHED {
        procs[s] := procs[s].(respawn := false, justSpawn := false, detached := true);
      }
    }

    // unix_spawn_process in the parent: -1 for a failure.
    method Spawn(flag: int, f: Fork) returns (pid: int)
      requires Valid() && DETACHED <= flag < last
      requires f.pid != -1 ==> f.pid > 0 && f.pid !in children
      requires flag >= 0 ==> Dropped(procs[flag], true) && Respawnable(procs[flag], false)
      modifies this`last, this`slot, this`born, this`told, this`children, procs
      ensures Valid() && (pid == -1 || pid == f.pid)
      ensures var s := if flag >= 0 then flag else SlotOf(old(procs[..]), old(last), -1);
        if s < PROCESSES_MAX && Forks(flag, f) then
          && pid != -1 && slot == s && last == (if s == old(last) then s + 1 else old(last))
          && procs[..] == old(procs[..])[s := Entry(flag, pid, old(procs[..])[s])]
          && born == old(born)[s := procs[s]] && told == old(told)[s := []] && children == old(children) + {pid}
        else
          && pid == -1 && procs[..] == old(procs[..]) && last == old(last)
          && born == old(born) && told == old(told) && children == old(children)
      ensures pid != -1 && flag < 0 ==> slot < PROCESSES_MAX && var e := procs[slot];
        && e.pid == pid && !e.exiting && !e.exited && (e.detached <==> flag == -5)
        && (e.respawn <==> flag == -3 || flag == -4) && (e.justSpawn <==> flag == -2 || flag == -4)
      ensures pid != -1 && flag >= 0 ==> procs[flag] == old(procs[flag]).(pid := pid, exited := false)
      ensures pid != -1 ==> (f.socketOk || flag == -5) && f.pid != -1
      ensures pid == -1 && f.pid != -1 && (f.socketOk || flag == -5) ==>
        flag < 0 && last == PROCESSES_MAX && forall i :: 0 <= i < last ==> procs[i].pid != -1
    {
      hide Shape, Recorded, Known, SlotOf;
      ghost var ps := procs[..];
      var s: nat;
      if flag >= 0 {
        s := flag;
      } else {
        s := 0;
        while s < last
          invariant s <= last && forall i :: 0 <= i < s ==> procs[i].pid != -1
        {
          if procs[s].pid == -1 {
            break;
          }
          s := s + 1;
        }
        SlotIs(ps, last, -1, s);
        if s == PROCESSES_MAX {
          return -1;
        }
      }
      if flag != DETACHED && !f.socketOk {
        return -1;
      }
      slot := s;
      if f.pid == -1 {
        return -1;
      }
      pid := f.pid;
      Fill(s, flag, pid);
      if flag < 0 && s == last {
        last := last + 1;
      }
      born, told, children := born[s := procs[s]], told[s := []], children + {pid};
      SpawnKeeps(ps, old(last), old(born), old(told), s, flag, pid);
      if !astray {
        SpawnKnown(ps, old(last), old(children), s, Entry(flag, pid, ps[s]));
      }
    }

    // One answer: whether all reads are inside the array.
    method MarkOne(w: Waited) returns (inside: bool)
      requires Valid() && w.pid > 0
      modifies this`told, this`children, this`astray, procs
      ensures Valid() && inside == InBounds(old(procs[..]), last, w)
      ensures inside ==>
        && procs[..] == Marked(old(procs[..]), last, w) && told == ToldExit(old(procs[..]), last, old(told), w)
        && astray == (old(astray) || Strays(old(procs[..]), last, w.pid)) && children == old(children) - {w.pid}
      ensures !inside ==>
        procs[..] == old(procs[..]) && told == old(told) && astray == old(astray) && children == old(children)
    {
      hide Shape, Recorded, Known, Strays;
      ghost var ps := procs[..];
      var i := 0;
      while i < last
        invariant i <= last && forall j :: 0 <= j < i ==> ps[j].pid != w.pid
        invariant procs[..] == ps
        modifies {}
      {
        if procs[i].pid == w.pid {
          break;
        }
        i := i + 1;
      }
      SlotIs(ps, last, w.pid, i);
      MarkedKeeps(ps, last, born, told, w);
      if !astray && !Strays(ps, last, w.pid) {
        MarkedKnown(ps, last, children, w);
      }
      if i < last {
        procs[i] := procs[i].(exited := true);
      }
      if w.status2 {
        if i == PROCESSES_MAX {
          return false;
        }
        if procs[i].respawn {
          procs[i] := procs[i].(respawn := false);
        }
      }
      told, astray, children := ToldExit(ps, last, told, w), astray || Strays(ps, last, w.pid), children - {w.pid};
      inside := true;
      assert procs[..] == Marked(ps, last, w);
    }

    // unix_process_get_status, with the answers of waitpid until it has none;
    // done says how many are dealt with before a read outside the array.
    method GetStatus(ws: seq<Waited>) returns (done: nat)
      requires Valid() && Waits(children, ws)
      modifies this`told, this`children, this`astray, procs
      ensures Valid() && done <= |ws| && children == old(children) - Pids(ws[..done])
      ensures procs[..] == MarkedAll(old(procs[..]), last, ws[..done])
      ensures told == ToldExits(old(procs[..]), last, old(told), ws[..done])
      ensures astray <==> old(astray) || exists k :: 0 <= k < done && Strays(old(procs[..]), last, ws[k].pid)
      ensures forall k :: 0 <= k < done ==> InBounds(old(procs[..]), last, ws[k])
      ensures done < |ws| ==> !InBounds(old(procs[..]), last, ws[done])
    {
      hide Marked, MarkedAll, ToldExit, ToldExits, Shape, Recorded, Known, Strays, InBounds;
      ghost var ps := procs[..];
      NoAnswers(ps, last, told);
      done := 0;
      while done < |ws|
        invariant done <= |ws| && Valid() && Waits(children, ws[done..]) && children == old(children) - Pids(ws[..done])
        invariant procs[..] == MarkedAll(ps, last, ws[..done])
        invariant told == ToldExits(ps, last, old(told), ws[..done])
        invariant astray <==> old(astray) || exists k :: 0 <= k < done && Strays(ps, last, ws[k].pid)
        invariant forall k :: 0 <= k < done ==> InBounds(ps, last, ws[k])
      {
        NextAnswer(ps, last, old(told), ws, done);
        OneAnswer(children, ws, done);
        var inside := MarkOne(ws[done]);
        if !inside {
          return;
        }
        done := done + 1;
      }
      assert ws[..done] == ws;
    }

    method SignalBody(i: nat, sig: Signal, written: bool, kill: Kill)
      requires i < procs.Length
      modifies this`reap, procs
      ensures procs[..] == old(procs[..])[i := Signalled(old(procs[i]), sig, written, kill)]
      ensures reap == (old(reap) || FoundGone(old(procs[i]), sig, written, kill))
    {
      var e := procs[i];
      if e.detached || e.pid == -1 {
        return;
      }
      if e.justSpawn {
        procs[i] := e.(justSpawn := false);
        return;
      }
      if e.exiting && sig == Shutdown {
        return;
      }
      if sig != Other && written {
        if sig != Reopen {
          procs[i] := e.(exiting := true);
        }
        return;
      }
      if kill != Delivered {
        if kill == Gone {
          procs[i] := e.(exited := true, exiting := false);
          reap := true;
        }
        return;
      }
      if sig != Reopen {
        procs[i] := e.(exiting := true);
      }
    }

    // One turn of the loop of signal_worker_process.
    method SignalOne(i: nat, sig: Signal, written: bool, kill: Kill)
      requires Valid() && i < last
      modifies this`reap, this`told, procs
      ensures Valid() && told == old(told)[i := old(told)[i] + [Sent(sig, written, kill)]]
      ensures procs[..] == old(procs[..])[i := Signalled(old(procs[i]), sig, written, kill)]
      ensures reap == (old(reap) || FoundGone(old(procs[i]), sig, written, kill))
    {
      hide Shape, Recorded, Known;
      ghost var ps, t := procs[..], Sent(sig, written, kill);
      SignalBody(i, sig, written, kill);
      told := told[i := told[i] + [t]];
      ToldKeeps(ps, last, born, old(told), i, t);
      if !astray {
        ToldKnown(ps, last, children, i, t);
      }
    }

    // signal_worker_process.
    method SignalWorkers(sig: Signal, writes: seq<bool>, kills: seq<Kill>)
      requires Valid() && |writes| == |kills| == PROCESSES_MAX
      modifies this`reap, this`told, procs
      ensures Valid()
      ensures forall i :: 0 <= i < last ==> procs[i] == Signalled(old(procs[i]), sig, writes[i], kills[i])
      ensures forall i :: 0 <= i < last ==> told[i] == old(told[i]) + [Sent(sig, writes[i], kills[i])]
      ensures forall i :: last <= i < PROCESSES_MAX ==> procs[i] == old(procs[i]) && told[i] == old(told[i])
      ensures reap <==> old(reap) || exists i :: 0 <= i < last && FoundGone(old(procs[i]), sig, writes[i], kills[i])
    {
      hide Shape, Recorded, Known, Signalled, FoundGone;
      ghost var ps := procs[..];
      var i := 0;
      while i < last
        invariant i <= last && Valid()
        invariant forall k :: 0 <= k < i ==> procs[k] == Signalled(ps[k], sig, writes[k], kills[k])
        invariant forall k :: 0 <= k < i ==> told[k] == old(told[k]) + [Sent(sig, writes[k], kills[k])]
        invariant forall k :: i <= k < PROCESSES_MAX ==> procs[k] == ps[k] && told[k] == old(told[k])
        invariant reap <==> old(reap) || exists k :: 0 <= k < i && FoundGone(ps[k], sig, writes[k], kills[k])
      {
        SignalOne(i, sig, writes[i], kills[i]);
        i := i + 1;
      }
    }

    // One turn of the loop of unix_reap_children.
    method ReapOne(i: nat, f: Fork) returns (alive: bool)
      requires Valid() && i < last && (f.pid != -1 ==> f.pid > 0 && f.pid !in children)
      modifies this`last, this`slot, this`born, this`told, this`children, procs
      ensures Valid() && alive == (i < last && Live(procs[i]))
      ensures var gone := i == old(last) - 1 && Dropped(old(procs[i]), stopping);
        && last == (if gone then old(last) - 1 else old(last))
        && procs[..] == (if gone then old(procs[..]) else old(procs[..])[i := Reaped(old(procs[i]), stopping, f)])
      ensures if Renewed(old(procs[i]), stopping, f) then
          born == old(born)[i := procs[i]] && told == old(told)[i := []] && children == old(children) + {f.pid}
        else
          born == old(born) && told == old(told) && children == old(children)
    {
      hide Shape, Recorded, Known;
      ghost var ps := procs[..];
      alive := false;
      var e := procs[i];
      if e.pid == -1 {
        assert ps[i := e] == ps;
        return;
      }
      if e.exited {
        if e.respawn && !e.exiting && !stopping {
          ShapeAt(ps, last, i);
          var pid := Spawn(i, f);
          assert ps[i := e] == ps;
          alive := pid != -1;
          return;
        }
        if i == last - 1 {
          last := last - 1;
          FewerKeeps(ps, last, born, told);
        } else {
          procs[i] := e.(pid := -1);
          EmptyKeeps(ps, last, born, told, i);
          assert procs[..] == ps[i := e.(pid := -1)];
        }
      } else {
        assert ps[i := e] == ps;
        alive := e.exiting || !e.detached;
      }
    }

    // A turn, after the slots before i have been reaped.
    method ReapTurn(i: nat, forks: seq<Fork>, ghost ps: seq<Proc>, ghost b: seq<Proc>, ghost t: seq<seq<Told>>)
      returns (alive: bool)
      requires Valid() && i < last && |forks| == |ps| == |b| == |t| == PROCESSES_MAX && ForksLeft(children, forks, i)
      requires ReapedTo(ps, b, t, forks, stopping, procs[..], born, told, i)
      requires forall k :: i <= k < PROCESSES_MAX ==> procs[k] == ps[k] && born[k] == b[k] && told[k] == t[k]
      modifies this`last, this`slot, this`born, this`told, this`children, procs
      ensures Valid() && last == if i + 1 < old(last) then old(last) else Shrunk(ps, old(last), stopping)
      ensures ReapedTo(ps, b, t, forks, stopping, procs[..], born, told, if i < last then i + 1 else last)
      ensures forall k :: i < k < PROCESSES_MAX ==> procs[k] == ps[k] && born[k] == b[k] && told[k] == t[k]
      ensures forall k :: 0 <= k < i ==> procs[k] == old(procs[k])
      ensures ForksLeft(children, forks, i + 1) && alive == (i < last && Live(procs[i]))
      ensures children == old(children) + if Renewed(ps[i], stopping, forks[i]) then {forks[i].pid} else {}
    {
      hide Shape, Recorded, Known, ForksLeft, ReapedTo, Reaped, Renewed, Dropped, Live;
      assert procs[..][i] == ps[i];
      ForkOf(children, forks, i);
      ghost var qs, c, u := procs[..], born, told;
      alive := ReapOne(i, forks[i]);
      DroppedOnly(ps[i], stopping, forks[i]);
      if i < last {
        ReapedNext(ps, b, t, forks, stopping, qs, c, u, i, procs[..], born, told);
      }
    }

    // unix_reap_children: whether some child is still to be waited for.
    method ReapChildren(forks: seq<Fork>) returns (live: bool)
      requires Valid() && |forks| == PROCESSES_MAX && ForksLeft(children, forks, 0)
      modifies this`last, this`slot, this`born, this`told, this`children, procs
      ensures Valid() && last == Shrunk(old(procs[..]), old(last), stopping)
      ensures ReapedTo(old(procs[..]), old(born), old(told), forks, stopping, procs[..], born, told, last)
      ensures live <==> exists i :: 0 <= i < last && var e := procs[i];
        e.pid != -1 && !e.exited && (e.exiting || !e.detached)
      ensures children == old(children) + Started(old(procs[..]), forks, stopping, old(last))
    {
      hide Shape, Recorded, Known, ForksLeft, ReapedTo, Started, Reaped, Renewed, Dropped, Live, Shrunk;
      ghost var ps, size := procs[..], last;
      ReapedNone(ps, born, told, forks, stopping);
      ShrunkIs(ps, last, stopping);
      var i := 0;
      live := false;
      while i < last
        invariant Valid() && i <= size && last == (if i < size then size else Shrunk(ps, size, stopping))
        invariant var n := if i < last then i else last;
          ReapedTo(ps, old(born), old(told), forks, stopping, procs[..], born, told, n)
        invariant forall k :: i <= k < PROCESSES_MAX ==>
          procs[k] == ps[k] && born[k] == old(born[k]) && told[k] == old(told[k])
        invariant live <==> exists k :: 0 <= k < i && k < last && Live(procs[k])
        invariant ForksLeft(children, forks, i)
        invariant children == old(children) + Started(ps, forks, stopping, i)
      {
        StartedNext(ps, forks, stopping, i);
        var alive := ReapTurn(i, forks, ps, old(born), old(told));
        live := live || alive;
        i := i + 1;
      }
      LiveIs();
    }

    // Reaping starts the process of a slot again just in this case, told by all
    // that has happened since it was spawned.
    lemma StartedAgain(i: nat, f: Fork)
      requires Valid() && i < last && procs[i].pid != -1
      ensures Renewed(procs[i], stopping, f) <==>
        && procs[i].exited && born[i].respawn && Exit(true) !in told[i]
        && !StillReached(born[i], told[i]) && !stopping && Forks(0, f)
    {
      RenewedIs(born[i], told[i], stopping, f);
    }

    // Other parts of the program start children, too.
    ghost method Elsewhere(pid: int)
      requires Valid()
      modifies this`children
      ensures Valid() && children == old(children) + {pid}
    {
      hide Shape, Recorded;
      children := children + {pid};
    }
  }
}
