// One entry of the table of child processes, and what becomes of it over time.
module ProcessEntry {
  const NORESPAWN: int := -1
  const JUST_SPAWN: int := -2
  const RESPAWN: int := -3
  const JUST_RESPAWN: int := -4
  const DETACHED: int := -5

  datatype Proc = Proc(pid: int, respawn: bool, justSpawn: bool, detached: bool, exiting: bool, exited: bool)

  // What the system answers: to socketpair and fork, to a write on a channel
  // followed by kill if need be, and to waitpid.
  datatype Fork = Fork(socketOk: bool, pid: int)

  datatype Kill = Delivered | Gone | Refused

  datatype Waited = Waited(pid: int, status2: bool)

  datatype Signal = Shutdown | Terminate | Reopen | Other

  // ---- spawning ----

  predicate Forks(flag: int, f: Fork) { (f.socketOk || flag == DETACHED) && f.pid != -1 }

  // A flag from 0 on is a slot whose process is started again.
  function Entry(flag: int, pid: int, was: Proc): Proc
  {
    if flag >= 0 then was.(pid := pid, exited := false)
    else
      var respawn, justSpawn := flag in {RESPAWN, JUST_RESPAWN}, flag in {JUST_SPAWN, JUST_RESPAWN};
      Proc(pid, respawn, justSpawn, flag == DETACHED, false, false)
  }

  // ---- signals ----

  function Signalled(e: Proc, sig: Signal, written: bool, kill: Kill): Proc
  {
    if e.detached || e.pid == -1 then e
    else if e.justSpawn then e.(justSpawn := false)
    else if e.exiting && sig == Shutdown then e
    else if sig != Other && written then e.(exiting := e.exiting || sig != Reopen)
    else
      match kill
      case Gone => e.(exited := true, exiting := false)
      case Refused => e
      case Delivered => e.(exiting := e.exiting || sig != Reopen)
  }

  // The signal finds that the process is not there any more.
  predicate FoundGone(e: Proc, sig: Signal, written: bool, kill: Kill)
  {
    && !e.detached && e.pid != -1 && !e.justSpawn && !(e.exiting && sig == Shutdown)
    && !(sig != Other && written) && kill == Gone
  }

  // ---- reaping ----

  predicate Running(e: Proc) { e.pid != -1 && !e.exited }

  predicate Live(e: Proc) { Running(e) && (e.exiting || !e.detached) }

  predicate Respawnable(e: Proc, stopping: bool) { e.respawn && !e.exiting && !stopping }

  predicate Dropped(e: Proc, stopping: bool) { e.pid != -1 && e.exited && !Respawnable(e, stopping) }

  // The slot gets a new process.
  predicate Renewed(e: Proc, stopping: bool, f: Fork)
  {
    e.pid != -1 && e.exited && Respawnable(e, stopping) && Forks(0, f)
  }

  function Reaped(e: Proc, stopping: bool, f: Fork): Proc
  {
    if Dropped(e, stopping) then e.(pid := -1)
    else if Renewed(e, stopping, f) then Entry(0, f.pid, e)
    else e
  }

  // Reaping, case by case: who has not exited stays; who has is started again,
  // stays when that fails, or is given up.
  lemma ReapedIs(e: Proc, stopping: bool, f: Fork)
    ensures e.pid == -1 || !e.exited ==> Reaped(e, stopping, f) == e
    ensures e.pid != -1 && e.exited ==>
      var again := e.respawn && !e.exiting && !stopping;
      && (!again ==> Reaped(e, stopping, f) == e.(pid := -1))
      && (again && f.socketOk && f.pid != -1 ==> Reaped(e, stopping, f) == e.(pid := f.pid, exited := false))
      && (again && !(f.socketOk && f.pid != -1) ==> Reaped(e, stopping, f) == e)
  {
  }

  // Who is still to be waited for.
  lemma LiveIs()
    ensures forall e :: Live(e) <==> e.pid != -1 && !e.exited && (e.exiting || !e.detached)
  {
  }

  // ---- what an entry is told between two spawns into its slot ----

  datatype Told = Sent(sig: Signal, written: bool, kill: Kill) | Exit(status2: bool)

  function After(e: Proc, t: Told): Proc
  {
    match t
    case Sent(sig, written, kill) => Signalled(e, sig, written, kill)
    case Exit(status2) => e.(exited := true, respawn := e.respawn && !status2)
  }

  function Replay(b: Proc, h: seq<Told>): Proc
  {
    if h == [] then b else After(Replay(b, h[..|h| - 1]), h[|h| - 1])
  }

  // The signal asks for the end of the process, and the channel or kill take it.
  predicate Reaches(t: Told)
  {
    t.Sent? && t.sig != Reopen && ((t.sig != Other && t.written) || t.kill == Delivered)
  }

  // The signal finds the process gone and takes the mark back.
  predicate Clears(t: Told)
  {
    t.Sent? && t.sig != Shutdown && !(t.sig != Other && t.written) && t.kill == Gone
  }

  predicate Reached(h: seq<Told>)
  {
    exists k :: 0 <= k < |h| && Reaches(h[k]) && forall j :: k < j < |h| ==> !Clears(h[j])
  }

  predicate Cleared(h: seq<Told>)
  {
    exists k :: 0 <= k < |h| && Clears(h[k]) && forall j :: k < j < |h| ==> !Reaches(h[j])
  }

  predicate Signals(h: seq<Told>) { exists k :: 0 <= k < |h| && h[k].Sent? }

  // The last word was a signal that reached the process; the first signal only
  // takes the mark of a process just spawned.
  predicate StillReached(b: Proc, h: seq<Told>)
  {
    exists k :: 0 <= k < |h| && Reaches(h[k]) && (b.justSpawn ==> Signals(h[..k]))
      && forall j :: k < j < |h| ==> !Clears(h[j])
  }

  predicate Ends(b: Proc, h: seq<Told>, k: nat)
    requires k < |h|
  {
    match h[k]
    case Exit(_) => true
    case Sent(sig, written, kill) =>
      && (b.justSpawn ==> Signals(h[..k])) && !(sig == Shutdown && StillReached(b, h[..k]))
      && !(sig != Other && written) && kill == Gone
  }

  // An entry whose slot has just been filled.
  predicate Spawned(b: Proc) { b.pid != -1 && !(b.respawn && b.detached) && !b.exiting && !b.exited }

  lemma SignalsPush(h: seq<Told>, t: Told)
    ensures Signals(h + [t]) <==> Signals(h) || t.Sent?
  {
    if Signals(h) {
      var k :| 0 <= k < |h| && h[k].Sent?;
      assert (h + [t])[k].Sent?;
    }
    assert (h + [t])[|h|] == t;
  }

  lemma StillReachedPush(b: Proc, h: seq<Told>, t: Told)
    ensures StillReached(b, h + [t]) <==>
      (Reaches(t) && (b.justSpawn ==> Signals(h))) || (StillReached(b, h) && !Clears(t))
  {
    var g := h + [t];
    assert g[|h|] == t && g[..|h|] == h;
    if StillReached(b, h) && !Clears(t) {
      var k :| 0 <= k < |h| && Reaches(h[k]) && (b.justSpawn ==> Signals(h[..k]))
        && forall j :: k < j < |h| ==> !Clears(h[j]);
      assert g[k] == h[k] && g[..k] == h[..k];
    }
    if StillReached(b, g) {
      var k :| 0 <= k < |g| && Reaches(g[k]) && (b.justSpawn ==> Signals(g[..k]))
        && forall j :: k < j < |g| ==> !Clears(g[j]);
      if k < |h| {
        assert g[k] == h[k] && g[..k] == h[..k];
        assert forall j :: k < j < |h| ==> h[j] == g[j];
      }
    }
  }

  lemma MarkedUnreached(b: Proc, h: seq<Told>)
    requires StillReached(b, h) && b.justSpawn
    ensures Signals(h)
  {
    var k :| 0 <= k < |h| && Reaches(h[k]) && (b.justSpawn ==> Signals(h[..k]))
      && forall j :: k < j < |h| ==> !Clears(h[j]);
  }

  lemma NothingTold(b: Proc)
    ensures !Signals([]) && !StillReached(b, [])
  {
  }

  // What is left of all that an entry was told: whether it counts as exiting
  // depends on the last signal that reached it or found it gone.
  lemma {:induction false} ReplayIs(b: Proc, h: seq<Told>)
    requires Spawned(b) && !b.detached
    ensures var e := Replay(b, h);
      && e.pid == b.pid && !e.detached
      && (e.justSpawn <==> b.justSpawn && !Signals(h))
      && (e.exiting <==> StillReached(b, h))
      && (e.respawn <==> b.respawn && Exit(true) !in h)
  {
    hide Signals, StillReached;
    if h == [] {
      NothingTold(b);
    } else {
      var g, t := h[..|h| - 1], h[|h| - 1];
      assert h == g + [t];
      ReplayIs(b, g);
      SignalsPush(g, t);
      StillReachedPush(b, g, t);
      if b.justSpawn && StillReached(b, g) {
        MarkedUnreached(b, g);
      }
    }
  }

  lemma {:induction false} ReplayKeeps(b: Proc, h: seq<Told>)
    requires Spawned(b)
    ensures var e := Replay(b, h); e.pid == b.pid && e.detached == b.detached && (e.respawn ==> b.respawn)
  {
    if h != [] {
      ReplayKeeps(b, h[..|h| - 1]);
    }
  }

  // Of all that can have happened to a worker, reaping starts it again just in
  // this case.
  lemma RenewedIs(b: Proc, h: seq<Told>, stopping: bool, f: Fork)
    requires Spawned(b)
    ensures var e := Replay(b, h); Renewed(e, stopping, f) <==>
      && e.exited && b.respawn && Exit(true) !in h && !StillReached(b, h) && !stopping && Forks(0, f)
  {
    hide StillReached;
    ReplayKeeps(b, h);
    if !b.detached {
      ReplayIs(b, h);
    }
  }

  // It counts as exited once waitpid named it or a signal found it gone.
  lemma {:induction false} ReplayExited(b: Proc, h: seq<Told>)
    requires Spawned(b) && !b.detached
    ensures Replay(b, h).exited <==> exists k :: 0 <= k < |h| && Ends(b, h, k)
  {
    hide Signals, StillReached;
    if h != [] {
      var g, t := h[..|h| - 1], h[|h| - 1];
      assert h == g + [t];
      ReplayExited(b, g);
      ReplayIs(b, g);
      assert forall k :: 0 <= k < |g| ==> g[..k] == h[..k];
      assert forall k :: 0 <= k < |g| ==> (Ends(b, g, k) <==> Ends(b, h, k));
      assert Ends(b, h, |g|) <==> Replay(b, h).exited && (t.Exit? || FoundGone(Replay(b, g), t.sig, t.written, t.kill));
      assert Replay(b, h).exited <==> Replay(b, g).exited || Ends(b, h, |g|);
    }
  }

  // ---- generations ----

  lemma SignalsAppend(h: seq<Told>, g: seq<Told>)
    requires Signals(h)
    ensures Signals(h + g)
  {
    var k :| 0 <= k < |h| && h[k].Sent?;
    assert (h + g)[k].Sent?;
  }

  lemma ReachedPush(g: seq<Told>, t: Told)
    ensures Reached(g + [t]) <==> Reaches(t) || (Reached(g) && !Clears(t))
  {
    var h := g + [t];
    assert h[|g|] == t && forall j :: 0 <= j < |g| ==> h[j] == g[j];
    if Reached(g) && !Clears(t) {
      var k :| 0 <= k < |g| && Reaches(g[k]) && forall j :: k < j < |g| ==> !Clears(g[j]);
      assert Reaches(h[k]);
    }
  }

  lemma ClearedPush(g: seq<Told>, t: Told)
    ensures Cleared(g + [t]) <==> Clears(t) || (Cleared(g) && !Reaches(t))
  {
    var h := g + [t];
    assert h[|g|] == t && forall j :: 0 <= j < |g| ==> h[j] == g[j];
    if Cleared(g) && !Reaches(t) {
      var k :| 0 <= k < |g| && Clears(g[k]) && forall j :: k < j < |g| ==> !Reaches(g[j]);
      assert Clears(h[k]);
    }
  }

  lemma StillReachedLater(b: Proc, h: seq<Told>, later: seq<Told>)
    requires b.justSpawn ==> Signals(h)
    ensures StillReached(b, h + later) <==> Reached(later) || (StillReached(b, h) && !Cleared(later))
    decreases |later|
  {
    hide Signals;
    if later == [] {
      assert h + later == h;
    } else {
      var g, t := later[..|later| - 1], later[|later| - 1];
      assert later == g + [t] && h + later == h + g + [t];
      StillReachedLater(b, h, g);
      if b.justSpawn {
        SignalsAppend(h, g);
      }
      StillReachedPush(b, h + g, t);
      ReachedPush(g, t);
      ClearedPush(g, t);
    }
  }

  lemma EitherWord(h: seq<Told>)
    ensures !(Reached(h) && Cleared(h))
  {
  }

  // A worker of the old generation, when it has exited, is started again if and
  // only if the SHUTDOWN of the reload (or a signal before it) reached it and a
  // later signal took that back for good, or none reached it for good.
  lemma OldGeneration(b: Proc, h: seq<Told>, written: bool, kill: Kill, later: seq<Told>)
    requires Spawned(b) && !b.detached && (b.justSpawn ==> Signals(h))
    ensures var sent := Sent(Shutdown, written, kill);
      Respawnable(Replay(b, h + [sent] + later), false) <==>
        && b.respawn && Exit(true) !in h + later
        && (if written || kill == Delivered || StillReached(b, h) then Cleared(later) else !Reached(later))
  {
    hide Signals, StillReached, Reached, Cleared;
    var sent := Sent(Shutdown, written, kill);
    ReplayIs(b, h + [sent] + later);
    SignalsPush(h, sent);
    StillReachedPush(b, h, sent);
    StillReachedLater(b, h + [sent], later);
    EitherWord(later);
  }

  // A worker of the new generation loses the mark to the SHUTDOWN of the reload
  // and is started again unless a later signal reaches it for good.
  lemma NewGeneration(b: Proc, written: bool, kill: Kill, later: seq<Told>)
    requires Spawned(b) && !b.detached && b.justSpawn
    ensures var e := Replay(b, [Sent(Shutdown, written, kill)] + later);
      && !e.justSpawn && (e.exiting <==> Reached(later))
      && (Respawnable(e, false) <==> b.respawn && Exit(true) !in later && !Reached(later))
  {
    hide Signals, StillReached, Reached, Cleared;
    var sent := Sent(Shutdown, written, kill);
    assert [] + [sent] == [sent];
    NothingTold(b);
    SignalsPush([], sent);
    StillReachedPush(b, [], sent);
    StillReachedLater(b, [sent], later);
    if later == [] {
      assert [sent] + later == [sent];
    } else {
      SignalsAppend([sent], later);
    }
    ReplayIs(b, [sent] + later);
  }
}
