/**
 Session lock sets. When each session runs one lock call at a time, every lock a session owns
 between calls is in its lock set, so ReleaseAll frees all of them and returns their number.
 */
module LockSessions {
  import opened Wrappers
  import opened Locks
  import opened LockTheorems

  // ---------------------------------------------------------------- what one step does to Owned and Listed

  lemma SwapOwned(m: Memory, name: string, cell: nat, curr: nat, rec: OwnedLock, u: SessionId)
    requires ValidMemory(m) && HasCell(m, name, cell) && ValidLock(rec)
    requires CompareAndSwap(m, cell, curr, rec).Some?
    ensures var m' := CompareAndSwap(m, cell, curr, rec).value;
            && ValidMemory(m')
            && Owned(m', u) == if rec.owner == u then Owned(m, u) + {name} else Owned(m, u) - {name}
  {
    SwapGrows(m, cell, curr, rec);
    var m' := CompareAndSwap(m, cell, curr, rec).value;
    forall n | n in m.locks
      ensures n in Owned(m', u) <==> if n == name then rec.owner == u else n in Owned(m, u)
    {
      assert n == name || m'.cells[m.locks[n]] == m.cells[m.locks[n]];
    }
  }

  lemma CreateOwned(m: Memory, name: string, u: SessionId)
    requires ValidMemory(m) && name !in m.locks
    ensures ValidMemory(Create(m, name)) && Owned(Create(m, name), u) == Owned(m, u)
  {
    CreateGrows(m, name);
  }

  // ---------------------------------------------------------------- the invariant of one session

  /**
   What holds of a session's owned locks and lock set while it runs `call` (None: no call).
   An acquired lock is listed by the very call that acquired it; a freed lock is unlisted after
   it was freed; ReleaseAll has every owned lock still ahead of it, and has counted the others.
   */
  predicate Tracked(owned: set<string>, listed: set<string>, call: Option<Call>) {
    match call
    case Some(LockCall(name, LockList)) => owned <= listed + {name}
    case Some(UnlockCall(name, UnlockUnlist)) => owned <= listed - {name}
    case Some(ReleaseCall(todo, released, owned0, at)) =>
      && owned <= (if at.ReleaseNext? then todo else todo + {at.name})
      && owned <= listed
      && released + |owned| == |owned0|
    case _ => owned <= listed
  }

  predicate SessionInv(sh: Shared, s: SessionId, call: Option<Call>)
    requires ValidMemory(sh.mem)
  {
    Tracked(Owned(sh.mem, s), Listed(sh, s), call)
  }

  lemma LockSwapKeepsTracked(sh: Shared, s: SessionId, name: string, at: LockAt, mv: Move, blocked: bool)
    requires ValidMemory(sh.mem) && ValidCall(sh.mem, s, LockCall(name, at))
    requires at.LockSwap? && mv == Advance && sh.mem.cells[at.cell] == at.curr
    requires Owned(sh.mem, s) <= Listed(sh, s)
    ensures StepLock(sh, s, name, at, mv, blocked).Some?
    ensures var eff := StepLock(sh, s, name, at, mv, blocked).value;
            ValidMemory(eff.shared.mem) && SessionInv(eff.shared, s, eff.next)
  {
    SwapOwned(sh.mem, name, at.cell, at.curr, LockRecord(s, sh.mem.heap[at.curr]), s);
    if sh.mem.heap[at.curr].owner == s {
      assert name in Owned(sh.mem, s);
    }
  }

  lemma LockKeepsTracked(sh: Shared, s: SessionId, name: string, at: LockAt, mv: Move, blocked: bool)
    requires ValidMemory(sh.mem) && ValidCall(sh.mem, s, LockCall(name, at))
    requires StepLock(sh, s, name, at, mv, blocked).Some?
    requires SessionInv(sh, s, Some(LockCall(name, at)))
    ensures var eff := StepLock(sh, s, name, at, mv, blocked).value;
            ValidMemory(eff.shared.mem) && SessionInv(eff.shared, s, eff.next)
  {
    if at.LockCreate? && name !in sh.mem.locks {
      CreateOwned(sh.mem, name, s);
    } else if at.LockSwap? && sh.mem.cells[at.cell] == at.curr {
      LockSwapKeepsTracked(sh, s, name, at, mv, blocked);
    }
  }

  lemma UnlockKeepsTracked(sh: Shared, s: SessionId, name: string, at: UnlockAt, mv: Move, blocked: bool)
    requires ValidMemory(sh.mem) && ValidCall(sh.mem, s, UnlockCall(name, at))
    requires StepUnlock(sh, s, name, at, mv, blocked).Some?
    requires SessionInv(sh, s, Some(UnlockCall(name, at)))
    ensures var eff := StepUnlock(sh, s, name, at, mv, blocked).value;
            ValidMemory(eff.shared.mem) && SessionInv(eff.shared, s, eff.next)
  {
    if at.UnlockSwap? && sh.mem.cells[at.cell] == at.curr {
      SwapOwned(sh.mem, name, at.cell, at.curr, UnlockRecord(s, sh.mem.heap[at.curr]), s);
      assert name in Owned(sh.mem, s);
    }
  }

  lemma ReleaseKeepsTracked(sh: Shared, s: SessionId, call: Call, mv: Move)
    requires ValidMemory(sh.mem) && call.ReleaseCall? && ValidCall(sh.mem, s, call)
    requires StepRelease(sh, s, call, mv).Some?
    requires SessionInv(sh, s, Some(call))
    ensures var eff := StepRelease(sh, s, call, mv).value;
            ValidMemory(eff.shared.mem) && SessionInv(eff.shared, s, eff.next)
    ensures var eff := StepRelease(sh, s, call, mv).value;
            eff.event.ReleasedAll? ==> Owned(eff.shared.mem, s) == {} && eff.event.count == |call.owned0|
  {
    var at := call.release;
    if at.ReleaseSwap? && sh.mem.cells[at.cell] == at.curr {
      SwapOwned(sh.mem, at.name, at.cell, at.curr, FREE, s);
      assert at.name in Owned(sh.mem, s);
    } else if at.ReleaseGet? {
      assert at.name !in sh.mem.locks ==> at.name !in Owned(sh.mem, s);
    } else if at.ReleaseLoad? {
      assert sh.mem.heap[sh.mem.cells[at.cell]].owner != s ==> at.name !in Owned(sh.mem, s);
    }
  }

  lemma CallKeepsTracked(sh: Shared, s: SessionId, call: Call, mv: Move, blocked: bool)
    requires ValidMemory(sh.mem) && ValidCall(sh.mem, s, call)
    requires StepCall(sh, s, call, mv, blocked).Some?
    requires SessionInv(sh, s, Some(call))
    ensures var eff := StepCall(sh, s, call, mv, blocked).value;
            ValidMemory(eff.shared.mem) && SessionInv(eff.shared, s, eff.next)
  {
    match call
    case LockCall(name, at) => LockKeepsTracked(sh, s, name, at, mv, blocked);
    case UnlockCall(name, at) => UnlockKeepsTracked(sh, s, name, at, mv, blocked);
    case ReleaseCall(_, _, _, _) => ReleaseKeepsTracked(sh, s, call, mv);
    case StateCall(_, _) =>
  }

  /** What another session owns and lists is the same before and after. */
  predicate SameFor(sh: Shared, sh': Shared, u: SessionId)
    requires ValidMemory(sh.mem)
  {
    ValidMemory(sh'.mem) && Owned(sh'.mem, u) == Owned(sh.mem, u) && Listed(sh', u) == Listed(sh, u)
  }

  lemma SwapKeepsOthers(m: Memory, name: string, cell: nat, curr: nat, rec: OwnedLock, s: SessionId, u: SessionId)
    requires ValidMemory(m) && HasCell(m, name, cell) && ValidLock(rec) && Read(m, curr, {0, s as nat})
    requires rec.owner in {0, s as nat} && u != s
    requires CompareAndSwap(m, cell, curr, rec).Some?
    ensures var m' := CompareAndSwap(m, cell, curr, rec).value;
            ValidMemory(m') && Owned(m', u) == Owned(m, u)
  {
    SwapOwned(m, name, cell, curr, rec, u);
    assert name !in Owned(m, u);
  }

  lemma LockKeepsOthers(sh: Shared, s: SessionId, name: string, at: LockAt, mv: Move, blocked: bool, u: SessionId)
    requires ValidMemory(sh.mem) && ValidCall(sh.mem, s, LockCall(name, at))
    requires StepLock(sh, s, name, at, mv, blocked).Some? && u != s
    ensures SameFor(sh, StepLock(sh, s, name, at, mv, blocked).value.shared, u)
  {
    if at.LockCreate? && name !in sh.mem.locks {
      CreateOwned(sh.mem, name, u);
    } else if at.LockSwap? && sh.mem.cells[at.cell] == at.curr {
      SwapKeepsOthers(sh.mem, name, at.cell, at.curr, LockRecord(s, sh.mem.heap[at.curr]), s, u);
    }
  }

  lemma UnlockKeepsOthers(sh: Shared, s: SessionId, name: string, at: UnlockAt, mv: Move, blocked: bool, u: SessionId)
    requires ValidMemory(sh.mem) && ValidCall(sh.mem, s, UnlockCall(name, at))
    requires StepUnlock(sh, s, name, at, mv, blocked).Some? && u != s
    ensures SameFor(sh, StepUnlock(sh, s, name, at, mv, blocked).value.shared, u)
  {
    if at.UnlockSwap? && sh.mem.cells[at.cell] == at.curr {
      SwapKeepsOthers(sh.mem, name, at.cell, at.curr, UnlockRecord(s, sh.mem.heap[at.curr]), s, u);
    }
  }

  lemma ReleaseKeepsOthers(sh: Shared, s: SessionId, call: Call, mv: Move, u: SessionId)
    requires ValidMemory(sh.mem) && call.ReleaseCall? && ValidCall(sh.mem, s, call)
    requires StepRelease(sh, s, call, mv).Some? && u != s
    ensures SameFor(sh, StepRelease(sh, s, call, mv).value.shared, u)
  {
    var at := call.release;
    if at.ReleaseSwap? && sh.mem.cells[at.cell] == at.curr {
      SwapKeepsOthers(sh.mem, at.name, at.cell, at.curr, FREE, s, u);
    }
  }

  /** A step of one session changes neither what another session owns nor what it lists. */
  lemma CallKeepsOthers(sh: Shared, s: SessionId, call: Call, mv: Move, blocked: bool, u: SessionId)
    requires ValidMemory(sh.mem) && ValidCall(sh.mem, s, call)
    requires StepCall(sh, s, call, mv, blocked).Some? && u != s
    ensures SameFor(sh, StepCall(sh, s, call, mv, blocked).value.shared, u)
  {
    match call
    case LockCall(name, at) => LockKeepsOthers(sh, s, name, at, mv, blocked, u);
    case UnlockCall(name, at) => UnlockKeepsOthers(sh, s, name, at, mv, blocked, u);
    case ReleaseCall(_, _, _, _) => ReleaseKeepsOthers(sh, s, call, mv, u);
    case StateCall(_, _) =>
  }

  // ---------------------------------------------------------------- one call at a time

  /** Each session runs its calls on a thread of its own, so one after another. */
  predicate OneCallAtATime(run: Run) {
    forall k :: 0 <= k < |run.moves| ==> (run.moves[k].1.Start? ==> run.moves[k].1.session == run.moves[k].0)
  }

  function RunningCall(st: State, s: SessionId): Option<Call> {
    if s in st.threads then Some(st.threads[s].call) else None
  }

  predicate Sessions(st: State) {
    && Valid(st)
    && (forall t :: t in st.threads ==> st.threads[t].session == t)
    && (forall s: SessionId :: SessionInv(st.shared, s, RunningCall(st, s)))
  }

  lemma StepKeepsSession(st: State, t: nat, mv: Move, u: SessionId)
    requires Valid(st) && Exec(st, t, mv).Some? && t in st.threads && st.threads[t].session == t
    requires SessionInv(st.shared, u, RunningCall(st, u))
    ensures var st' := Exec(st, t, mv).value.state;
            SessionInv(st'.shared, u, RunningCall(st', u))
  {
    var s, call := st.threads[t].session, st.threads[t].call;
    if u == s {
      CallKeepsTracked(st.shared, s, call, mv, MutexHeld(st, s));
    } else {
      CallKeepsOthers(st.shared, s, call, mv, MutexHeld(st, s), u);
    }
  }

  lemma StartKeepsSession(st: State, t: nat, mv: Move, u: SessionId)
    requires Valid(st) && Exec(st, t, mv).Some? && t !in st.threads
    requires mv.Start? && mv.session == t
    requires SessionInv(st.shared, u, RunningCall(st, u))
    ensures var st' := Exec(st, t, mv).value.state;
            SessionInv(st'.shared, u, RunningCall(st', u))
  {
  }

  lemma StepKeepsSessions(st: State, t: nat, mv: Move)
    requires Sessions(st) && Exec(st, t, mv).Some?
    requires mv.Start? ==> mv.session == t
    ensures Sessions(Exec(st, t, mv).value.state)
  {
    var st' := Exec(st, t, mv).value.state;
    forall u: SessionId
      ensures SessionInv(st'.shared, u, RunningCall(st', u))
    {
      assert SessionInv(st.shared, u, RunningCall(st, u));
      if t in st.threads {
        StepKeepsSession(st, t, mv, u);
      } else {
        StartKeepsSession(st, t, mv, u);
      }
    }
  }

  lemma InitialSessions()
    ensures Sessions(INITIAL)
  {
    forall s: SessionId
      ensures SessionInv(INITIAL.shared, s, RunningCall(INITIAL, s))
    {
      assert Owned(INITIAL.shared.mem, s) == {};
    }
  }

  lemma {:induction false} RunKeepsSessions(run: Run, k: nat)
    requires Possible(run) && OneCallAtATime(run) && k < |run.states|
    ensures Sessions(run.states[k])
  {
    if k == 0 {
      InitialSessions();
    } else {
      RunKeepsSessions(run, k - 1);
      assert Steps(run.states[k - 1], run.moves[k - 1], run.events[k - 1], run.states[k]);
      StepKeepsSessions(run.states[k - 1], run.moves[k - 1].0, run.moves[k - 1].1);
    }
  }

  /** Between its calls, a session's lock set holds every lock it owns. */
  lemma OwnedLocksAreListed(run: Run, k: nat, s: SessionId)
    requires Possible(run) && OneCallAtATime(run) && k < |run.states|
    ensures var st := run.states[k];
            Valid(st) && (s !in st.threads ==> Owned(st.shared.mem, s) <= Listed(st.shared, s))
  {
    RunKeepsSessions(run, k);
    assert SessionInv(run.states[k].shared, s, RunningCall(run.states[k], s));
  }

  // ---------------------------------------------------------------- ReleaseAll

  predicate InReleaseAll(st: State, s: SessionId, owned0: set<string>) {
    s in st.threads && st.threads[s].call.ReleaseCall? && st.threads[s].call.owned0 == owned0
  }

  predicate EndsReleaseAll(ev: Event, s: SessionId) {
    ev.ReleasedAll? && ev.session == s
  }

  lemma ReleaseAllStarts(st: State, s: SessionId)
    requires Valid(st) && Exec(st, s, Start(s, ReleaseAll)).Some?
    ensures InReleaseAll(Exec(st, s, Start(s, ReleaseAll)).value.state, s, Owned(st.shared.mem, s))
  {
  }

  lemma ReleaseAllContinues(st: State, t: nat, mv: Move, s: SessionId, owned0: set<string>)
    requires Valid(st) && Exec(st, t, mv).Some? && InReleaseAll(st, s, owned0) && st.threads[s].session == s
    requires !EndsReleaseAll(Exec(st, t, mv).value.event, s)
    ensures InReleaseAll(Exec(st, t, mv).value.state, s, owned0)
  {
  }

  /** While a session's ReleaseAll runs, its auxiliary variable keeps what the session owned at the start. */
  lemma {:induction false} ReleaseAllInProgress(run: Run, s: SessionId, i: nat, k: nat)
    requires Possible(run) && OneCallAtATime(run) && i < k < |run.states|
    requires run.moves[i] == (s as nat, Start(s, ReleaseAll))
    requires forall x :: i < x < k ==> !EndsReleaseAll(run.events[x], s)
    ensures Valid(run.states[i])
    ensures InReleaseAll(run.states[k], s, Owned(run.states[i].shared.mem, s))
  {
    assert Steps(run.states[k - 1], run.moves[k - 1], run.events[k - 1], run.states[k]);
    if i + 1 == k {
      ReleaseAllStarts(run.states[i], s);
    } else {
      ReleaseAllInProgress(run, s, i, k - 1);
      RunKeepsSessions(run, k - 1);
      ReleaseAllContinues(run.states[k - 1], run.moves[k - 1].0, run.moves[k - 1].1, s,
                          Owned(run.states[i].shared.mem, s));
    }
  }

  lemma ReleaseAllEnds(st: State, t: nat, mv: Move, s: SessionId, owned0: set<string>)
    requires Sessions(st) && Exec(st, t, mv).Some? && InReleaseAll(st, s, owned0)
    requires EndsReleaseAll(Exec(st, t, mv).value.event, s)
    ensures Exec(st, t, mv).value.event.count == |owned0|
    ensures Owned(Exec(st, t, mv).value.state.shared.mem, s) == {}
  {
    StepNamesItsSession(st, t, mv);
    assert SessionInv(st.shared, s, RunningCall(st, s));
    ReleaseKeepsTracked(st.shared, s, st.threads[s].call, mv);
  }

  /**
   In every run where each session makes one call at a time, ReleaseAll leaves its session owning
   nothing and returns exactly the number of locks the session owned when it was called.
   */
  lemma ReleaseAllIsExact(run: Run, s: SessionId, i: nat, j: nat)
    requires Possible(run) && OneCallAtATime(run) && i < j < |run.moves|
    requires run.moves[i] == (s as nat, Start(s, ReleaseAll))
    requires EndsReleaseAll(run.events[j], s)
    requires forall x :: i < x < j ==> !EndsReleaseAll(run.events[x], s)
    ensures Valid(run.states[i]) && Valid(run.states[j + 1])
    ensures run.events[j].count == |Owned(run.states[i].shared.mem, s)|
    ensures Owned(run.states[j + 1].shared.mem, s) == {}
  {
    ReleaseAllInProgress(run, s, i, j);
    RunKeepsSessions(run, j);
    assert Steps(run.states[j], run.moves[j], run.events[j], run.states[j + 1]);
    ReleaseAllEnds(run.states[j], run.moves[j].0, run.moves[j].1, s, Owned(run.states[i].shared.mem, s));
  }
}
