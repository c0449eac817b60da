// What the master does with the table: its turns and the reload.
module ProcessMaster {
  import opened ProcessEntry
  import opened ProcessTable

  datatype Send = Send(sig: Signal, writes: seq<bool>, kills: seq<Kill>)

  datatype Step =
    | SpawnStep(flag: int, f: Fork)
    | OtherStep(pid: int)
    | WaitStep(ws: seq<Waited>)
    | SendStep(send: Send)
    | ReapStep(forks: seq<Fork>)
    | StopStep

  predicate Answers(s: Send) { |s.writes| == |s.kills| == PROCESSES_MAX }

  // What the system promises about its answers, and which steps the master takes.
  ghost predicate Allowed(t: Table, step: Step)
    requires t.Valid()
    reads t, t.procs
  {
    match step
    case SpawnStep(flag, f) => DETACHED <= flag <= NORESPAWN && (f.pid != -1 ==> f.pid > 0 && f.pid !in t.children)
    case OtherStep(pid) => pid > 0 && pid !in t.children
    case WaitStep(ws) => Waits(t.children, ws)
    case SendStep(send) => Answers(send)
    case ReapStep(forks) => |forks| == PROCESSES_MAX && ForksLeft(t.children, forks, 0)
    case StopStep => true
  }

  // Every entry is one of before that may have heard more, or that of a process
  // just started in a slot where none was running.
  predicate Grown(ps: seq<Proc>, last: nat, born: seq<Proc>, told: seq<seq<Told>>,
                  qs: seq<Proc>, now: nat, b: seq<Proc>, t: seq<seq<Told>>)
    requires last <= |ps| == |born| == |told| && now <= |qs| == |b| == |t| == |ps|
  {
    forall i :: 0 <= i < now && qs[i].pid != -1 ==>
      || (i < last && ps[i].pid == qs[i].pid && b[i] == born[i] && told[i] <= t[i])
      || ((i < last ==> !Running(ps[i])) && qs[i] == b[i] && t[i] == [])
  }

  lemma SpawnGrows(ps: seq<Proc>, last: nat, born: seq<Proc>, told: seq<seq<Told>>, s: nat, e: Proc)
    requires s <= last <= |ps| == |born| == |told| && s < |ps| && (s < last ==> !Running(ps[s]))
    ensures Grown(ps, last, born, told, ps[s := e], if s == last then last + 1 else last, born[s := e], told[s := []])
  {
  }

  lemma HeardGrows(ps: seq<Proc>, last: nat, born: seq<Proc>, told: seq<seq<Told>>, qs: seq<Proc>, t: seq<seq<Told>>)
    requires last <= |ps| == |born| == |told| == |qs| == |t|
    requires forall i :: 0 <= i < last ==> qs[i].pid == ps[i].pid && told[i] <= t[i]
    ensures Grown(ps, last, born, told, qs, last, born, t)
  {
  }

  lemma SignalKeepsPids(sig: Signal)
    ensures forall e, written, kill :: Signalled(e, sig, written, kill).pid == e.pid
  {
  }

  lemma Sizes(t: Table)
    requires t.Valid()
    ensures t.last <= PROCESSES_MAX == t.procs.Length == |t.born| == |t.told|
  {
  }

  lemma {:induction false} ExitsGrow(ps: seq<Proc>, last: nat, told: seq<seq<Told>>, ws: seq<Waited>)
    requires last <= |ps| == |told|
    ensures forall i :: 0 <= i < last ==> told[i] <= ToldExits(ps, last, told, ws)[i]
  {
    if ws != [] {
      ExitsGrow(ps, last, told, ws[..|ws| - 1]);
    }
  }

  lemma ReapGrows(ps: seq<Proc>, last: nat, born: seq<Proc>, told: seq<seq<Told>>, forks: seq<Fork>, stopping: bool,
                  qs: seq<Proc>, now: nat, b: seq<Proc>, t: seq<seq<Told>>)
    requires now <= last <= |ps| == |born| == |told| == |forks| == |qs| == |b| == |t|
    requires ReapedTo(ps, born, told, forks, stopping, qs, b, t, now)
    ensures Grown(ps, last, born, told, qs, now, b, t)
  {
  }

  // Any step keeps the invariant and the history of every entry that stays; so
  // does any run.
  method Do(t: Table, step: Step) returns (inside: bool)
    requires t.Valid() && Allowed(t, step)
    modifies t, t.procs
    ensures t.Valid()
    ensures Grown(old(t.procs[..]), old(t.last), old(t.born), old(t.told), t.procs[..], t.last, t.born, t.told)
    ensures inside <==> (step.WaitStep? ==>
      forall k :: 0 <= k < |step.ws| ==> InBounds(old(t.procs[..]), old(t.last), step.ws[k]))
  {
    hide Table.Valid, Shape, Recorded, Known, Grown, ReapedTo, Signalled, Strays;
    hide Marked, MarkedAll, ToldExit, ToldExits;
    ghost var ps, last, born, told := t.procs[..], t.last, t.born, t.told;
    Sizes(t);
    inside := true;
    match step
    case SpawnStep(flag, f) =>
      var pid := t.Spawn(flag, f);
      if pid == -1 {
        HeardGrows(ps, last, born, told, ps, told);
      } else {
        SpawnGrows(ps, last, born, told, t.slot, t.procs[t.slot]);
      }
    case OtherStep(pid) =>
      t.Elsewhere(pid);
      HeardGrows(ps, last, born, told, ps, told);
    case WaitStep(ws) =>
      var done := t.GetStatus(ws);
      t.reap := true;
      inside := done == |ws|;
      MarkedOthers(ps, last, ws[..done]);
      ExitsGrow(ps, last, told, ws[..done]);
      HeardGrows(ps, last, born, told, t.procs[..], t.told);
    case SendStep(send) =>
      t.SignalWorkers(send.sig, send.writes, send.kills);
      Sizes(t);
      SignalKeepsPids(send.sig);
      HeardGrows(ps, last, born, told, t.procs[..], t.told);
    case ReapStep(forks) =>
      t.reap := false;
      var _ := t.ReapChildren(forks);
      Sizes(t);
      ReapGrows(ps, last, born, told, forks, t.stopping, t.procs[..], t.last, t.born, t.told);
    case StopStep =>
      t.stopping := true;
      HeardGrows(ps, last, born, told, ps, told);
  }

  // ---- starting workers ----

  predicate Taken(ps: seq<Proc>, last: nat, i: nat)
    requires last <= |ps|
  {
    i < last && ps[i].pid != -1
  }

  // The entries taken before are as they were; other slots are free or hold a
  // process just started with the given flag and a pid out of pids.
  predicate Joined(ps: seq<Proc>, last: nat, born: seq<Proc>, told: seq<seq<Told>>, flag: int, pids: seq<int>,
                   qs: seq<Proc>, now: nat, b: seq<Proc>, t: seq<seq<Told>>)
    requires last <= now <= |ps| == |born| == |told| == |qs| == |b| == |t|
  {
    forall i :: 0 <= i < now ==>
      if Taken(ps, last, i) then qs[i] == ps[i] && b[i] == born[i] && t[i] == told[i]
      else qs[i].pid == -1 || (qs[i] == b[i] == Entry(flag, qs[i].pid, qs[i]) && t[i] == [] && qs[i].pid in pids)
  }

  lemma JoinedNone(ps: seq<Proc>, last: nat, born: seq<Proc>, told: seq<seq<Told>>, flag: int)
    requires last <= |ps| == |born| == |told|
    ensures Joined(ps, last, born, told, flag, [], ps, last, born, told)
  {
  }

  lemma JoinedNext(ps: seq<Proc>, last: nat, born: seq<Proc>, told: seq<seq<Told>>, flag: int, pids: seq<int>,
                   qs: seq<Proc>, now: nat, b: seq<Proc>, t: seq<seq<Told>>, s: nat, pid: int)
    requires last <= now <= |ps| == |born| == |told| == |qs| == |b| == |t| && flag < 0 && pid > 0
    requires Joined(ps, last, born, told, flag, pids, qs, now, b, t)
    requires s <= now && s < |ps| && (s < now ==> qs[s].pid == -1)
    ensures var e := Entry(flag, pid, qs[s]);
      var later := if s == now then now + 1 else now;
      Joined(ps, last, born, told, flag, pids + [pid], qs[s := e], later, b[s := e], t[s := []])
  {
  }

  lemma JoinedNot(ps: seq<Proc>, last: nat, born: seq<Proc>, told: seq<seq<Told>>, flag: int, pids: seq<int>,
                  qs: seq<Proc>, now: nat, b: seq<Proc>, t: seq<seq<Told>>)
    requires last <= now <= |ps| == |born| == |told| == |qs| == |b| == |t|
    requires Joined(ps, last, born, told, flag, pids, qs, now, b, t)
    ensures Joined(ps, last, born, told, flag, pids + [-1], qs, now, b, t)
  {
  }

  predicate Full(ps: seq<Proc>, last: nat)
    requires last <= |ps|
  {
    last == |ps| && forall i :: 0 <= i < last ==> ps[i].pid != -1
  }

  predicate Lists(ps: seq<Proc>, last: nat, pid: int)
    requires last <= |ps|
  {
    exists i :: 0 <= i < last && ps[i].pid == pid && Running(ps[i])
  }

  lemma FullIs(ps: seq<Proc>, last: nat)
    requires last <= |ps|
    ensures Full(ps, last) <==> SlotOf(ps, last, -1) == |ps|
  {
  }

  lemma ListsMore(ps: seq<Proc>, last: nat, s: nat, e: Proc)
    requires s <= last <= |ps| && s < |ps| && (s < last ==> ps[s].pid == -1) && Running(e)
    ensures var now := if s == last then last + 1 else last;
      && Lists(ps[s := e], now, e.pid) && !Full(ps, last)
      && forall pid :: Lists(ps, last, pid) ==> Lists(ps[s := e], now, pid)
  {
    var now, qs := if s == last then last + 1 else last, ps[s := e];
    assert qs[s] == e;
    forall pid | Lists(ps, last, pid)
      ensures Lists(qs, now, pid)
    {
      var i :| 0 <= i < last && ps[i].pid == pid && Running(ps[i]);
      assert qs[i] == ps[i];
    }
  }

  function ForkPids(forks: seq<Fork>): set<int>
  {
    set k | 0 <= k < |forks| :: forks[k].pid
  }

  // nodes_start_worker_process: the processes for pulls, logs and statistics.
  method StartWorkers(t: Table, flag: int, forks: seq<Fork>) returns (pids: seq<int>)
    requires t.Valid() && DETACHED < flag < 0 && |forks| == 3 && ForksLeft(t.children, forks, 0)
    modifies t`last, t`slot, t`born, t`told, t`children, t.procs
    ensures t.Valid() && old(t.last) <= t.last && |pids| == 3
    ensures forall n :: 0 <= n < 3 ==> if pids[n] == -1 then !Forks(flag, forks[n]) || Full(t.procs[..], t.last)
      else pids[n] == forks[n].pid && Lists(t.procs[..], t.last, pids[n])
    ensures t.children <= old(t.children) + ForkPids(forks) && forall n :: 0 <= n < 3 ==> pids[n] in [-1, forks[n].pid]
    ensures var ps, last, born, told := old(t.procs[..]), old(t.last), old(t.born), old(t.told);
      Joined(ps, last, born, told, flag, pids, t.procs[..], t.last, t.born, t.told)
  {
    hide Table.Valid, Shape, Recorded, Known, Joined, ForksLeft, Full, Lists;
    ghost var ps, last, born, told := t.procs[..], t.last, t.born, t.told;
    Sizes(t);
    JoinedNone(ps, last, born, told, flag);
    pids := [];
    var n := 0;
    while n < 3
      invariant n <= 3 && |pids| == n && t.Valid() && ForksLeft(t.children, forks, n)
      invariant last <= t.last <= |ps| == |t.procs[..]| == |t.born| == |t.told|
      invariant forall m :: 0 <= m < n ==> if pids[m] == -1 then !Forks(flag, forks[m]) || Full(t.procs[..], t.last)
        else pids[m] == forks[m].pid && Lists(t.procs[..], t.last, pids[m])
      invariant Joined(ps, last, born, told, flag, pids, t.procs[..], t.last, t.born, t.told)
      invariant t.children <= old(t.children) + ForkPids(forks)
      invariant forall m :: 0 <= m < n ==> pids[m] in [-1, forks[m].pid]
    {
      ghost var qs, now, b, g := t.procs[..], t.last, t.born, t.told;
      ForkOf(t.children, forks, n);
      var pid := t.Spawn(flag, forks[n]);
      Sizes(t);
      if pid == -1 {
        FullIs(qs, now);
        JoinedNot(ps, last, born, told, flag, pids, qs, now, b, g);
      } else {
        JoinedNext(ps, last, born, told, flag, pids, qs, now, b, g, t.slot, pid);
        ListsMore(qs, now, t.slot, t.procs[t.slot]);
      }
      pids := pids + [pid];
      n := n + 1;
    }
  }

  // ---- a turn of the master ----

  // What a turn does after reaping, in the order of its tests.
  datatype Act = Tell(send: Send) | Start(flag: int, forks: seq<Fork>)

  predicate ActAllowed(a: Act)
  {
    match a
    case Tell(send) => Answers(send)
    case Start(flag, forks) => DETACHED < flag < 0 && |forks| == 3
  }

  function StartForks(acts: seq<Act>): seq<Fork>
  {
    if acts == [] then [] else (if acts[0].Start? then acts[0].forks else []) + StartForks(acts[1..])
  }

  // Who runs and is exiting still does, or has left the table; a worker just
  // started, with a pid out of pids, may have taken its slot.
  predicate Leaving(ps: seq<Proc>, last: nat, born: seq<Proc>, pids: set<int>, qs: seq<Proc>, now: nat, b: seq<Proc>)
    requires last <= |ps| == |born| == |qs| == |b| && now <= |qs|
  {
    forall i :: 0 <= i < last && i < now && Running(ps[i]) && ps[i].exiting ==>
      || qs[i].pid == -1 || qs[i].pid in pids
      || (qs[i].pid == ps[i].pid && Running(qs[i]) && qs[i].exiting && b[i] == born[i])
  }

  // kill does not miss a child that nobody has waited for.
  predicate Honest(ps: seq<Proc>, last: nat, children: set<int>, kills: seq<Kill>)
    requires last <= |ps| == |kills|
  {
    forall i :: 0 <= i < last && kills[i] == Gone ==> ps[i].pid !in children
  }

  lemma {:induction false} ExitMarks(ps: seq<Proc>, last: nat, ws: seq<Waited>)
    requires last <= |ps|
    ensures var qs := MarkedAll(ps, last, ws);
      forall i :: 0 <= i < last ==> qs[i].pid == ps[i].pid && qs[i].exiting == ps[i].exiting
  {
    if ws != [] {
      ExitMarks(ps, last, ws[..|ws| - 1]);
    }
  }

  lemma LeavingReaped(ps: seq<Proc>, last: nat, born: seq<Proc>, told: seq<seq<Told>>, ws: seq<Waited>,
                      g: seq<seq<Told>>, forks: seq<Fork>, stopping: bool,
                      qs: seq<Proc>, now: nat, b: seq<Proc>, t: seq<seq<Told>>)
    requires now <= last <= |ps| == |born| == |told| == |g| == |forks| == |qs| == |b| == |t|
    requires ReapedTo(MarkedAll(ps, last, ws), born, g, forks, stopping, qs, b, t, now)
    ensures Leaving(ps, last, born, {}, qs, now, b)
  {
    hide MarkedAll;
    ExitMarks(ps, last, ws);
  }

  lemma LeavingSignalled(ps: seq<Proc>, last: nat, born: seq<Proc>, pids: set<int>,
                         qs: seq<Proc>, now: nat, b: seq<Proc>, children: set<int>, s: Send, rs: seq<Proc>)
    requires last <= |ps| == |born| == |qs| == |b| == |rs| == |s.writes| == |s.kills| && now <= |qs|
    requires Leaving(ps, last, born, pids, qs, now, b) && Known(qs, now, children)
    requires Honest(qs, now, children, s.kills)
    requires forall i :: 0 <= i < now ==> rs[i] == Signalled(qs[i], s.sig, s.writes[i], s.kills[i])
    ensures Leaving(ps, last, born, pids, rs, now, b)
  {
    forall i: nat | i < last && i < now && Running(ps[i]) && ps[i].exiting && qs[i].pid != -1 && qs[i].pid !in pids
      ensures rs[i].pid == ps[i].pid && Running(rs[i]) && rs[i].exiting && b[i] == born[i]
    {
      assert s.kills[i] != Gone;
    }
  }

  lemma KnownOf(t: Table)
    requires t.Valid() && !t.astray
    ensures Known(t.procs[..], t.last, t.children)
  {
  }

  lemma LeavingAll(ps: seq<Proc>, last: nat, born: seq<Proc>)
    requires last <= |ps| == |born|
    ensures Leaving(ps, last, born, {}, ps, last, born)
  {
  }

  lemma LeavingJoined(ps: seq<Proc>, last: nat, born: seq<Proc>, pids: set<int>, flag: int, more: seq<int>,
                      qs: seq<Proc>, now: nat, b: seq<Proc>, g: seq<seq<Told>>,
                      rs: seq<Proc>, later: nat, c: seq<Proc>, u: seq<seq<Told>>)
    requires last <= |ps| == |born| == |qs| == |b| == |g| == |rs| == |c| == |u| && now <= later <= |ps|
    requires Leaving(ps, last, born, pids, qs, now, b) && Joined(qs, now, b, g, flag, more, rs, later, c, u)
    ensures Leaving(ps, last, born, pids + (set p | p in more), rs, later, c)
  {
  }

  lemma ForksUsed(children: set<int>, a: seq<Fork>, b: seq<Fork>, now: set<int>)
    requires ForksLeft(children, a + b, 0) && now <= children + ForkPids(a)
    ensures ForksLeft(now, b, 0)
  {
    var all := a + b;
    assert forall k :: 0 <= k < |a| ==> all[k] == a[k];
    assert forall k :: 0 <= k < |b| ==> all[|a| + k] == b[k];
  }

  lemma ForksFirst(children: set<int>, a: seq<Fork>, b: seq<Fork>)
    requires ForksLeft(children, a + b, 0)
    ensures ForksLeft(children, a, 0)
  {
    assert forall k :: 0 <= k < |a| ==> (a + b)[k] == a[k];
  }

  lemma MorePids(a: seq<Fork>, b: seq<Fork>)
    ensures ForkPids(a) <= ForkPids(a + b) && ForkPids(b) <= ForkPids(a + b)
  {
    forall k | 0 <= k < |a|
      ensures a[k].pid in ForkPids(a + b)
    {
      assert (a + b)[k] == a[k];
    }
    forall k | 0 <= k < |b|
      ensures b[k].pid in ForkPids(a + b)
    {
      assert (a + b)[|a| + k] == b[k];
    }
  }

  lemma {:induction false} NextForks(acts: seq<Act>, k: nat)
    requires k < |acts|
    ensures var first := if acts[k].Start? then acts[k].forks else [];
      && StartForks(acts[k..]) == first + StartForks(acts[k + 1..])
      && ForkPids(first) <= ForkPids(StartForks(acts))
  {
    assert acts[k..][0] == acts[k] && acts[k..][1..] == acts[k + 1..];
    var first := if acts[k].Start? then acts[k].forks else [];
    if k == 0 {
      assert acts[0..] == acts;
      MorePids(first, StartForks(acts[1..]));
    } else {
      NextForks(acts[1..], k - 1);
      assert acts[1..][k - 1..] == acts[k..] && acts[1..][k..] == acts[k + 1..];
      MorePids(if acts[0].Start? then acts[0].forks else [], StartForks(acts[1..]));
    }
  }

  lemma StartedPids(ps: seq<Proc>, forks: seq<Fork>, stopping: bool, n: nat)
    requires n <= |ps| == |forks|
    ensures Started(ps, forks, stopping, n) <= ForkPids(forks)
  {
  }

  lemma StartedOf(forks: seq<Fork>, pids: seq<int>)
    requires |forks| == |pids| && forall n :: 0 <= n < |pids| ==> pids[n] in [-1, forks[n].pid]
    ensures (set p | p in pids) <= ForkPids(forks) + {-1}
  {
    forall p | p in pids
      ensures p in ForkPids(forks) + {-1}
    {
      var n :| 0 <= n < |pids| && pids[n] == p;
    }
  }

  // One act of a turn.
  method ActStep(t: Table, acts: seq<Act>, k: nat, ghost ps: seq<Proc>, ghost last: nat, ghost born: seq<Proc>,
                 ghost pids: set<int>, ghost good: bool)
    returns (ghost honest: bool, ghost more: set<int>)
    requires t.Valid() && k < |acts| && ActAllowed(acts[k]) && last <= |ps| == |born| == t.procs.Length == |t.born|
    requires t.last <= t.procs.Length && ForksLeft(t.children, StartForks(acts[k..]), 0)
    requires good ==> !t.astray && Leaving(ps, last, born, pids, t.procs[..], t.last, t.born)
    modifies t, t.procs
    ensures t.Valid() && t.last <= t.procs.Length == |t.born| == |t.told| && t.astray == old(t.astray)
    ensures ForksLeft(t.children, StartForks(acts[k + 1..]), 0) && more <= ForkPids(StartForks(acts)) + {-1}
    ensures good && honest ==> Leaving(ps, last, born, pids + more, t.procs[..], t.last, t.born)
  {
    hide Table.Valid, Shape, Recorded, Known, Signalled, Leaving, Honest, ForksLeft, StartForks, Joined, ForkPids;
    hide Full, Lists;
    ghost var qs, now, b, g, children := t.procs[..], t.last, t.born, t.told, t.children;
    Sizes(t);
    NextForks(acts, k);
    honest, more := true, {};
    match acts[k]
    case Tell(send) =>
      honest := Honest(qs, now, children, send.kills);
      if !t.astray {
        KnownOf(t);
      }
      t.SignalWorkers(send.sig, send.writes, send.kills);
      Sizes(t);
      if good && honest {
        LeavingSignalled(ps, last, born, pids, qs, now, b, children, send, t.procs[..]);
      }
      assert pids + more == pids && [] + StartForks(acts[k + 1..]) == StartForks(acts[k + 1..]);
    case Start(flag, forks) =>
      ForksFirst(children, forks, StartForks(acts[k + 1..]));
      var started := StartWorkers(t, flag, forks);
      Sizes(t);
      ForksUsed(children, forks, StartForks(acts[k + 1..]), t.children);
      more := set p | p in started;
      StartedOf(forks, started);
      if good {
        LeavingJoined(ps, last, born, pids, flag, started, qs, now, b, g, t.procs[..], t.last, t.born, t.told);
      }
  }

  // A turn: what waitpid reports is reaped before workers are started and signals
  // go out.  So a worker that a signal has reached while it ran is never started
  // again, as long as kill is honest and no exit went to an entry left behind.
  method Turn(t: Table, ws: seq<Waited>, forks: seq<Fork>, acts: seq<Act>)
    returns (done: nat, ghost honest: bool, ghost pids: set<int>)
    requires t.Valid() && Waits(t.children, ws) && |forks| == PROCESSES_MAX
    requires ForksLeft(t.children - Pids(ws), forks + StartForks(acts), 0)
    requires forall k :: 0 <= k < |acts| ==> ActAllowed(acts[k])
    modifies t, t.procs
    ensures t.Valid() && done <= |ws| && pids <= ForkPids(StartForks(acts)) + {-1}
    ensures done == |ws| && honest && !t.astray ==>
      Leaving(old(t.procs[..]), old(t.last), old(t.born), pids, t.procs[..], t.last, t.born)
  {
    hide Table.Valid, Shape, Recorded, Known, ReapedTo, Signalled, Strays, Leaving, Honest, ForksLeft, StartForks;
    hide Marked, MarkedAll, ToldExits, Joined, ForkPids;
    ghost var ps, last, born, told := t.procs[..], t.last, t.born, t.told;
    Sizes(t);
    honest, pids := true, {};
    done := t.GetStatus(ws);
    if done < |ws| {
      return;
    }
    assert ws[..done] == ws;
    ghost var g, children := t.told, t.children;
    if ws != [] {
      t.reap := true;
    }
    if t.reap {
      t.reap := false;
      ForksFirst(t.children, forks, StartForks(acts));
      StartedPids(t.procs[..], forks, t.stopping, t.last);
      var _ := t.ReapChildren(forks);
      Sizes(t);
      LeavingReaped(ps, last, born, told, ws, g, forks, t.stopping, t.procs[..], t.last, t.born, t.told);
    } else {
      NoAnswers(ps, last, told);
      LeavingAll(ps, last, born);
    }
    ForksUsed(children, forks, StartForks(acts), t.children);
    var k := 0;
    assert acts[0..] == acts;
    while k < |acts|
      invariant k <= |acts| && t.Valid() && t.last <= |t.procs[..]| == |ps| == |t.born| == |t.told|
      invariant ForksLeft(t.children, StartForks(acts[k..]), 0)
      invariant pids <= ForkPids(StartForks(acts)) + {-1}
      invariant honest && !t.astray ==> Leaving(ps, last, born, pids, t.procs[..], t.last, t.born)
    {
      ghost var h, more := ActStep(t, acts, k, ps, last, born, pids, honest && !t.astray);
      honest, pids := honest && h, pids + more;
      k := k + 1;
    }
  }

  // ---- what a reload does ----

  // What the signal is for each entry.
  function Words(s: Send): seq<Told>
    requires Answers(s)
  {
    seq(PROCESSES_MAX, i requires 0 <= i < PROCESSES_MAX => Sent(s.sig, s.writes[i], s.kills[i]))
  }

  // An old worker is told to shut down; a new one loses its mark and nothing else.
  predicate Reloaded(ps: seq<Proc>, last: nat, born: seq<Proc>, told: seq<seq<Told>>, sent: seq<Told>,
                     qs: seq<Proc>, now: nat, b: seq<Proc>, t: seq<seq<Told>>)
    requires last <= now <= |ps| == |born| == |told| == |qs| == |b| == |t| == |sent|
  {
    forall i :: 0 <= i < now && qs[i].pid != -1 ==>
      if Taken(ps, last, i) then qs[i] == After(ps[i], sent[i]) && b[i] == born[i] && t[i] == told[i] + [sent[i]]
      else
        && b[i].pid == qs[i].pid && b[i].respawn && b[i].justSpawn && !b[i].detached && !b[i].exiting && !b[i].exited
        && qs[i] == b[i].(justSpawn := false) && t[i] == [sent[i]]
  }

  lemma JoinedReloaded(ps: seq<Proc>, last: nat, born: seq<Proc>, told: seq<seq<Told>>, sent: seq<Told>, pids: seq<int>,
                       qs: seq<Proc>, now: nat, b: seq<Proc>, t: seq<seq<Told>>, rs: seq<Proc>, u: seq<seq<Told>>)
    requires last <= now <= |ps| == |born| == |told| == |qs| == |b| == |t| == |rs| == |u| == |sent|
    requires Joined(ps, last, born, told, JUST_RESPAWN, pids, qs, now, b, t)
    requires forall i :: 0 <= i < now ==> sent[i].Sent? && rs[i] == After(qs[i], sent[i]) && u[i] == t[i] + [sent[i]]
    ensures Reloaded(ps, last, born, told, sent, rs, now, b, u)
  {
  }

  lemma ReloadedAt(ps: seq<Proc>, last: nat, born: seq<Proc>, told: seq<seq<Told>>, sent: seq<Told>,
                   qs: seq<Proc>, now: nat, b: seq<Proc>, t: seq<seq<Told>>)
    requires last <= now <= |ps| == |born| == |told| == |qs| == |b| == |t| == |sent|
    requires Reloaded(ps, last, born, told, sent, qs, now, b, t)
    ensures forall i :: 0 <= i < now && qs[i].pid != -1 && !Taken(ps, last, i) ==>
      && b[i].respawn && b[i].justSpawn && Spawned(b[i]) && !b[i].detached && t[i] == [sent[i]]
      && qs[i] == b[i].(justSpawn := false)
  {
  }

  // The answer to a reconfiguration, from the new workers on.
  method Reload(t: Table, forks: seq<Fork>, send: Send)
    requires t.Valid() && |forks| == 3 && ForksLeft(t.children, forks, 0)
    requires send.sig == Shutdown && Answers(send)
    modifies t, t.procs
    ensures t.Valid() && old(t.last) <= t.last && t.stopping == old(t.stopping)
    ensures var ps, last, born, told := old(t.procs[..]), old(t.last), old(t.born), old(t.told);
      Reloaded(ps, last, born, told, Words(send), t.procs[..], t.last, t.born, t.told)
    ensures forall i :: 0 <= i < t.last && t.procs[i].pid != -1 && !(i < old(t.last) && old(t.procs[i]).pid != -1) ==>
      && t.born[i].respawn && t.born[i].justSpawn && !t.born[i].detached
      && t.procs[i].respawn && !t.procs[i].justSpawn && !t.procs[i].exiting && !t.procs[i].exited
  {
    hide Table.Valid, Shape, Recorded, Known, Joined, Reloaded, ForksLeft, Full, Lists, Signalled;
    ghost var ps, last, born, told := t.procs[..], t.last, t.born, t.told;
    Sizes(t);
    var pids := StartWorkers(t, JUST_RESPAWN, forks);
    Sizes(t);
    ghost var qs, b, g := t.procs[..], t.born, t.told;
    t.SignalWorkers(send.sig, send.writes, send.kills);
    Sizes(t);
    JoinedReloaded(ps, last, born, told, Words(send), pids, qs, t.last, b, g, t.procs[..], t.told);
    ReloadedAt(ps, last, born, told, Words(send), t.procs[..], t.last, t.born, t.told);
  }

  // Any time after the reload: an old worker is started again by reaping if and
  // only if it has exited, other than with status 2, and
  //  - the SHUTDOWN or a signal before it had reached the worker, but a later
  //    signal found it gone and none reached it after that, or
  //  - neither had, and no later signal reached it without being taken back.
  lemma OldWorker(t: Table, i: nat, h: seq<Told>, written: bool, kill: Kill, later: seq<Told>, f: Fork)
    requires t.Valid() && i < t.last && t.procs[i].pid != -1 && !t.born[i].detached
    requires t.told[i] == h + [Sent(Shutdown, written, kill)] + later && (t.born[i].justSpawn ==> Signals(h))
    ensures Renewed(t.procs[i], t.stopping, f) <==>
      && t.procs[i].exited && t.born[i].respawn && Exit(true) !in h + later && !t.stopping && Forks(0, f)
      && (if written || kill == Delivered || StillReached(t.born[i], h) then Cleared(later) else !Reached(later))
  {
    hide StillReached, Signals, Cleared, Reached;
    OldGeneration(t.born[i], h, written, kill, later);
  }

  // A worker that the reload started, any time later: when it has exited, it is
  // started again unless with status 2 or after a signal that reached it for good.
  lemma NewWorker(ps: seq<Proc>, last: nat, born: seq<Proc>, told: seq<seq<Told>>, send: Send,
                  qs: seq<Proc>, now: nat, b: seq<Proc>, g: seq<seq<Told>>,
                  t: Table, i: nat, later: seq<Told>, f: Fork)
    requires Answers(send) && send.sig == Shutdown
    requires last <= now <= PROCESSES_MAX == |ps| == |born| == |told| == |qs| == |b| == |g|
    requires Reloaded(ps, last, born, told, Words(send), qs, now, b, g)
    requires i < now && qs[i].pid != -1 && !Taken(ps, last, i)
    requires t.Valid() && i < t.last && t.procs[i].pid != -1 && t.born[i] == b[i] && t.told[i] == g[i] + later
    ensures Renewed(t.procs[i], t.stopping, f) <==>
      t.procs[i].exited && Exit(true) !in later && !Reached(later) && !t.stopping && Forks(0, f)
  {
    hide Reached, Reloaded;
    ReloadedAt(ps, last, born, told, Words(send), qs, now, b, g);
    NewGeneration(b[i], send.writes[i], send.kills[i], later);
  }

  lemma OneExit(ps: seq<Proc>, ws: seq<Waited>)
    requires 0 < |ps| && |ws| == 1 && ws[0] == Waited(ps[0].pid, false)
    ensures MarkedAll(ps, 1, ws) == ps[0 := ps[0].(exited := true)]
    ensures InBounds(ps, 1, ws[0]) && !Strays(ps, 1, ws[0].pid)
  {
    SlotIs(ps, 1, ws[0].pid, 0);
    assert ws[..0] == [];
  }

  // A worker that SHUTDOWN reached and that has ended, not reaped yet.
  method ReachedAndGone() returns (t: Table)
    ensures fresh(t) && fresh(t.procs) && t.Valid() && !t.astray && !t.stopping && t.children == {} && t.last == 1
    ensures t.procs[0] == Proc(7, true, false, false, true, true)
  {
    hide Table.Valid, Shape, Recorded, Known, Strays;
    t := new Table({});
    Sizes(t);
    SlotIs(t.procs[..], 0, -1, 0);
    var _ := t.Spawn(RESPAWN, Fork(true, 7));
    Sizes(t);
    t.SignalWorkers(Shutdown, seq(PROCESSES_MAX, _ => true), seq(PROCESSES_MAX, _ => Refused));
    Sizes(t);
    var ws := [Waited(7, false)];
    OneExit(t.procs[..], ws);
    var _ := t.GetStatus(ws);
    Sizes(t);
    assert t.procs[..][0].exited;
  }

  // A REOPEN that goes out before the table is reaped finds it gone, and so
  // reaping starts it again.
  method ReopenRevives() returns (t: Table)
    ensures fresh(t) && t.Valid() && !t.astray && t.last == 1 && t.procs[0] == Proc(8, true, false, false, false, false)
  {
    hide Table.Valid, Shape, Recorded, Known, Strays;
    t := ReachedAndGone();
    Sizes(t);
    t.SignalWorkers(Reopen, seq(PROCESSES_MAX, _ => false), seq(PROCESSES_MAX, _ => Gone));
    Sizes(t);
    assert t.procs[0] == Proc(7, true, false, false, false, true);
    var _ := t.ReapChildren(seq(PROCESSES_MAX, i => Fork(true, if i == 0 then 8 else -1)));
  }

  // A worker has ended and could not be started again, since fork failed.
  method LeftBehind() returns (t: Table)
    ensures fresh(t) && fresh(t.procs) && t.Valid() && !t.astray && t.children == {} && t.last == 1
    ensures t.procs[0] == Proc(7, true, false, false, false, true)
  {
    hide Table.Valid, Shape, Recorded, Known, Strays;
    t := new Table({});
    Sizes(t);
    SlotIs(t.procs[..], 0, -1, 0);
    var _ := t.Spawn(RESPAWN, Fork(true, 7));
    Sizes(t);
    var ws := [Waited(7, false)];
    OneExit(t.procs[..], ws);
    var _ := t.GetStatus(ws);
    Sizes(t);
    assert t.procs[..][0].exited;
    var _ := t.ReapChildren(seq(PROCESSES_MAX, i => Fork(true, -1)));
    Sizes(t);
  }

  lemma SecondExit(ps: seq<Proc>, ws: seq<Waited>)
    requires 2 <= |ps| && |ws| == 1 && ws[0] == Waited(ps[0].pid, false) && ps[1].pid == ps[0].pid && Running(ps[1])
    ensures MarkedAll(ps, 2, ws) == ps[0 := ps[0].(exited := true)]
    ensures InBounds(ps, 2, ws[0]) && Strays(ps, 2, ws[0].pid)
  {
    SlotIs(ps, 2, ws[0].pid, 0);
    assert ws[..0] == [];
  }

  // The kernel gives its pid to the next worker.  When that one ends, the entry
  // left behind is marked once more, and the worker is listed as running for ever.
  method ExitLost() returns (t: Table)
    ensures fresh(t) && t.Valid() && t.last == 2 && Running(t.procs[1]) && t.procs[1].pid == 7
    ensures t.children == {} && t.astray
  {
    hide Table.Valid, Shape, Recorded, Known;
    t := LeftBehind();
    Sizes(t);
    SlotIs(t.procs[..], 1, -1, 1);
    var _ := t.Spawn(RESPAWN, Fork(true, 7));
    Sizes(t);
    var ws := [Waited(7, false)];
    SecondExit(t.procs[..], ws);
    var _ := t.GetStatus(ws);
    Sizes(t);
    assert t.procs[..][1] == Proc(7, true, false, false, false, false);
  }
}
