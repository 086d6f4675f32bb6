/**
 That calls get on. A Lock times out only where it was disturbed: in every run, another session
 owned the lock or another thread moved its cell while the call ran. And a call that runs alone
 returns after a bounded number of steps, with the answer and the effect of its atomic operation.
 */
module LockProgress {
  import opened Wrappers
  import opened Locks
  import opened LockTheorems

  // ---------------------------------------------------------------- why a Lock times out

  /** Thread `t` started Lock(name) for session `s` with move `i` and was in that call up to state `k`. */
  predicate Locking(run: Run, t: nat, s: SessionId, name: string, i: nat, k: nat)
    requires Possible(run)
  {
    && i < k < |run.states|
    && run.moves[i] == (t, Start(s, Lock(name)))
    && t !in run.states[i].threads
    && forall j :: i < j <= k ==> t in run.states[j].threads
  }

  predicate OwnedByOther(m: Memory, s: SessionId, name: string)
    requires ValidMemory(m)
  {
    name in m.locks && m.heap[m.cells[m.locks[name]]].owner !in {0, s as nat}
  }

  /** The name's cell holds another pointer afterwards. */
  predicate CellMoved(m: Memory, m': Memory, name: string)
    requires ValidMemory(m) && ValidMemory(m')
  {
    name in m.locks && name in m'.locks && m.cells[m.locks[name]] != m'.cells[m'.locks[name]]
  }

  /** At moment `j` another session owns the lock, or another thread than `t` moves its cell. */
  predicate Disturbed(run: Run, t: nat, s: SessionId, name: string, j: nat)
    requires Possible(run) && j < |run.moves|
  {
    var st, st' := run.states[j], run.states[j + 1];
    assert Steps(st, run.moves[j], run.events[j], st');
    OwnedByOther(st.shared.mem, s, name) || (run.moves[j].0 != t && CellMoved(st.shared.mem, st'.shared.mem, name))
  }

  ghost predicate DisturbedSince(run: Run, t: nat, s: SessionId, name: string, i: nat, k: nat)
    requires Possible(run) && k < |run.states|
  {
    exists j :: i <= j < k && Disturbed(run, t, s, name, j)
  }

  /** The call has to go round, or will: its swap failed, it saw another owner, or its pointer is out of date. */
  predicate Behind(m: Memory, at: LockAt) {
    match at
    case LockLoad(_, tried) => tried
    case LockSwap(cell, curr) => cell < |m.cells| && m.cells[cell] != curr
    case _ => false
  }

  /** A step of the thread itself falls behind only if it was, or if it reads another owner. */
  lemma OwnStepBehind(st: State, t: nat, mv: Move, s: SessionId, name: string, at: LockAt)
    requires Valid(st) && t in st.threads && st.threads[t] == Thread(s, LockCall(name, at))
    requires Exec(st, t, mv).Some? && t in Exec(st, t, mv).value.state.threads
    ensures var st' := Exec(st, t, mv).value.state;
            && st'.threads[t].session == s && st'.threads[t].call.LockCall? && st'.threads[t].call.name == name
            && (Behind(st'.shared.mem, st'.threads[t].call.lock) ==>
                  Behind(st.shared.mem, at) || OwnedByOther(st.shared.mem, s, name))
  {
  }

  /** A step of another thread puts the call behind only by moving the cell. */
  lemma OtherStepBehind(st: State, u: nat, mv: Move, t: nat, s: SessionId, name: string, at: LockAt)
    requires Valid(st) && t in st.threads && st.threads[t] == Thread(s, LockCall(name, at)) && u != t
    requires Exec(st, u, mv).Some?
    ensures var st' := Exec(st, u, mv).value.state;
            && t in st'.threads && st'.threads[t] == st.threads[t]
            && (Behind(st'.shared.mem, at) ==> Behind(st.shared.mem, at) || CellMoved(st.shared.mem, st'.shared.mem, name))
  {
    StepGrowsMemory(st, u, mv);
  }

  lemma {:induction false} BehindWasDisturbed(run: Run, t: nat, s: SessionId, name: string, i: nat, k: nat)
    requires Possible(run) && Locking(run, t, s, name, i, k)
    ensures var th := run.states[k].threads[t];
            && th.session == s && th.call.LockCall? && th.call.name == name
            && (Behind(run.states[k].shared.mem, th.call.lock) ==> DisturbedSince(run, t, s, name, i, k))
    decreases k
  {
    var j := k - 1;
    assert Steps(run.states[j], run.moves[j], run.events[j], run.states[k]);
    if i < j {
      BehindWasDisturbed(run, t, s, name, i, j);
      var at := run.states[j].threads[t].call.lock;
      if run.moves[j].0 == t {
        OwnStepBehind(run.states[j], t, run.moves[j].1, s, name, at);
      } else {
        OtherStepBehind(run.states[j], run.moves[j].0, run.moves[j].1, t, s, name, at);
      }
      if Behind(run.states[k].shared.mem, run.states[k].threads[t].call.lock) &&
         !Behind(run.states[j].shared.mem, at) {
        assert Disturbed(run, t, s, name, j);
      }
    }
  }

  lemma TimesOutBehind(sh: Shared, s: SessionId, call: Call, mv: Move, blocked: bool, s': SessionId, name: string)
    requires ValidMemory(sh.mem) && ValidCall(sh.mem, s, call) && StepCall(sh, s, call, mv, blocked).Some?
    requires StepCall(sh, s, call, mv, blocked).value.event == TimedOut(s', name)
    ensures s == s' && call.LockCall? && call.name == name && Behind(sh.mem, call.lock)
  {
  }

  /** Only a Lock that has to go round times out. */
  lemma TimeOutIsBehind(st: State, t: nat, mv: Move, s: SessionId, name: string)
    requires Valid(st) && Exec(st, t, mv).Some? && Exec(st, t, mv).value.event == TimedOut(s, name)
    ensures t in st.threads && st.threads[t].session == s
    ensures var call := st.threads[t].call;
            call.LockCall? && call.name == name && Behind(st.shared.mem, call.lock)
  {
    if t in st.threads {
      var th := st.threads[t];
      TimesOutBehind(st.shared, th.session, th.call, mv, MutexHeld(st, th.session), s, name);
    }
  }

  /** Every running Lock was started, with this session and name. */
  lemma {:induction false} LockWasStarted(run: Run, t: nat, k: nat) returns (i: nat)
    requires Possible(run) && k < |run.states| && t in run.states[k].threads && run.states[k].threads[t].call.LockCall?
    ensures Locking(run, t, run.states[k].threads[t].session, run.states[k].threads[t].call.name, i, k)
  {
    var j := k - 1;
    assert k > 0;
    assert Steps(run.states[j], run.moves[j], run.events[j], run.states[k]);
    if t in run.states[j].threads {
      LockStays(run.states[j], run.moves[j].0, run.moves[j].1, t);
      i := LockWasStarted(run, t, j);
    } else {
      i := j;
    }
  }

  /** The next step of a Lock comes from a Lock of the same name. */
  lemma LockContinues(sh: Shared, s: SessionId, call: Call, mv: Move, blocked: bool)
    requires ValidMemory(sh.mem) && ValidCall(sh.mem, s, call) && StepCall(sh, s, call, mv, blocked).Some?
    requires var next := StepCall(sh, s, call, mv, blocked).value.next;
             next.Some? && next.value.LockCall?
    ensures call.LockCall? && call.name == StepCall(sh, s, call, mv, blocked).value.next.value.name
  {
  }

  lemma LockStays(st: State, u: nat, mv: Move, t: nat)
    requires Valid(st) && t in st.threads && Exec(st, u, mv).Some?
    requires var st' := Exec(st, u, mv).value.state;
             t in st'.threads && st'.threads[t].call.LockCall?
    ensures var th, th' := st.threads[t], Exec(st, u, mv).value.state.threads[t];
            th.session == th'.session && th.call.LockCall? && th.call.name == th'.call.name
  {
    if u == t {
      var s := st.threads[t].session;
      LockContinues(st.shared, s, st.threads[t].call, mv, MutexHeld(st, s));
    }
  }

  /**
   In every run, a Lock that times out was disturbed: at some moment since the call started another
   session owned the lock, or another thread moved its cell.
   */
  lemma TimeOutWasDisturbed(run: Run, k: nat, s: SessionId, name: string)
    requires Possible(run) && k < |run.events| && run.events[k] == TimedOut(s, name)
    ensures exists i :: Locking(run, run.moves[k].0, s, name, i, k) && DisturbedSince(run, run.moves[k].0, s, name, i, k)
  {
    var t := run.moves[k].0;
    assert Steps(run.states[k], run.moves[k], run.events[k], run.states[k + 1]);
    TimeOutIsBehind(run.states[k], t, run.moves[k].1, s, name);
    var i := LockWasStarted(run, t, k);
    BehindWasDisturbed(run, t, s, name, i, k);
  }

  // ---------------------------------------------------------------- a thread that runs alone

  type Goal = (Event, State) -> bool

  /**
   Running alone, thread `t` takes a step that meets `goal` within `fuel` steps, whatever moves the
   scheduler chooses for it; until then it can always move.
   */
  ghost predicate Reaches(st: State, t: nat, fuel: nat, goal: Goal)
    requires Valid(st)
    decreases fuel, 0
  {
    && fuel > 0
    && (exists mv :: Exec(st, t, mv).Some?)
    && forall mv :: Exec(st, t, mv).Some? ==> Meets(Exec(st, t, mv).value, t, fuel - 1, goal)
  }

  /** A step meets the goal, or the thread reaches it later. */
  ghost predicate Meets(done: Done, t: nat, fuel: nat, goal: Goal)
    decreases fuel, 1
  {
    goal(done.event, done.state) || (Valid(done.state) && Reaches(done.state, t, fuel, goal))
  }

  lemma {:induction false} Longer(st: State, t: nat, fuel: nat, fuel': nat, goal: Goal)
    requires Valid(st) && Reaches(st, t, fuel, goal) && fuel <= fuel'
    ensures Reaches(st, t, fuel', goal)
    decreases fuel, 0
  {
    forall mv | Exec(st, t, mv).Some?
      ensures Meets(Exec(st, t, mv).value, t, fuel' - 1, goal)
    {
      MeetsLater(Exec(st, t, mv).value, t, fuel - 1, fuel' - 1, goal);
    }
  }

  lemma {:induction false} MeetsLater(done: Done, t: nat, fuel: nat, fuel': nat, goal: Goal)
    requires Meets(done, t, fuel, goal) && fuel <= fuel'
    ensures Meets(done, t, fuel', goal)
    decreases fuel, 1
  {
    if !goal(done.event, done.state) {
      Longer(done.state, t, fuel, fuel', goal);
    }
  }

  /** What reaches the first goal leads on to the second. */
  ghost predicate LeadsOn(t: nat, goal: Goal, fuel: nat, goal': Goal) {
    forall ev, st' :: goal(ev, st') ==> Meets(Done(st', ev), t, fuel, goal')
  }

  /** The first goal is reached, and from there the second. */
  lemma {:induction false} Then(st: State, t: nat, first: nat, goal: Goal, second: nat, goal': Goal)
    requires Valid(st) && Reaches(st, t, first, goal) && LeadsOn(t, goal, second, goal')
    ensures Reaches(st, t, first + second, goal')
    decreases first, 0
  {
    forall mv | Exec(st, t, mv).Some?
      ensures Meets(Exec(st, t, mv).value, t, first - 1 + second, goal')
    {
      MeetsThen(Exec(st, t, mv).value, t, first - 1, goal, second, goal');
    }
  }

  lemma {:induction false} MeetsThen(done: Done, t: nat, first: nat, goal: Goal, second: nat, goal': Goal)
    requires Meets(done, t, first, goal) && LeadsOn(t, goal, second, goal')
    ensures Meets(done, t, first + second, goal')
    decreases first, 1
  {
    if goal(done.event, done.state) {
      assert Meets(Done(done.state, done.event), t, second, goal');
      MeetsLater(done, t, second, first + second, goal');
    } else {
      Then(done.state, t, first, goal, second, goal');
    }
  }

  /** The other threads as in `st`, and `t` in a call of `s`. */
  function During(st: State, sh: Shared, t: nat, s: SessionId, call: Call): State {
    State(sh, st.threads[t := Thread(s, call)])
  }

  function Outcome(st: State, t: nat, s: SessionId, eff: Effect): Done {
    var after := if eff.next.Some? then During(st, eff.shared, t, s, eff.next.value) else State(eff.shared, st.threads);
    Done(after, eff.event)
  }

  /** A step of `t`: its call makes it, and the other threads are as before. */
  lemma StepAlone(st: State, sh: Shared, t: nat, s: SessionId, call: Call, mv: Move)
    requires t !in st.threads && Valid(During(st, sh, t, s, call))
    ensures ValidMemory(sh.mem) && ValidCall(sh.mem, s, call)
    ensures var mid := During(st, sh, t, s, call);
            var eff := StepCall(sh, s, call, mv, MutexHeld(mid, s));
            && (eff.None? ==> Exec(mid, t, mv).None?)
            && (eff.Some? ==> Exec(mid, t, mv) == Some(Outcome(st, t, s, eff.value)) && Valid(Outcome(st, t, s, eff.value).state))
  {
    var mid := During(st, sh, t, s, call);
    assert mid.threads[t] == Thread(s, call);
    assert ValidCall(sh.mem, s, call);
    var eff := StepCall(sh, s, call, mv, MutexHeld(mid, s));
    if eff.Some? {
      assert mid.threads - {t} == st.threads;
      assert forall call' :: mid.threads[t := Thread(s, call')] == During(st, eff.value.shared, t, s, call').threads;
    }
  }

  lemma StartIs(st: State, t: nat, s: SessionId, request: Request)
    requires Valid(st) && t !in st.threads
    ensures var call := FirstStep(st.shared, s, request);
            && Exec(st, t, Start(s, request)) == Some(Done(During(st, st.shared, t, s, call), Internal))
            && Valid(During(st, st.shared, t, s, call))
  {
  }

  lemma MutexAlone(st: State, sh: Shared, t: nat, s: SessionId, call: Call)
    requires t !in st.threads && !call.ReleaseCall?
    ensures MutexHeld(During(st, sh, t, s, call), s) == MutexHeld(st, s)
  {
    var mid := During(st, sh, t, s, call);
    if u :| u in st.threads && st.threads[u].session == s && st.threads[u].call.ReleaseCall? {
      assert mid.threads[u] == st.threads[u];
    }
  }

  /** Reaching a goal, by the steps of the call alone; `first` is a move it can make. */
  lemma ByCall(st: State, sh: Shared, t: nat, s: SessionId, call: Call, first: Move, fuel: nat, goal: Goal)
    requires t !in st.threads && Valid(During(st, sh, t, s, call))
    requires ValidMemory(sh.mem) && ValidCall(sh.mem, s, call)
    requires StepCall(sh, s, call, first, MutexHeld(During(st, sh, t, s, call), s)).Some?
    requires forall mv ::
               var eff := StepCall(sh, s, call, mv, MutexHeld(During(st, sh, t, s, call), s));
               eff.Some? ==> Meets(Outcome(st, t, s, eff.value), t, fuel, goal)
    ensures Reaches(During(st, sh, t, s, call), t, fuel + 1, goal)
  {
    var mid := During(st, sh, t, s, call);
    StepAlone(st, sh, t, s, call, first);
    forall mv | Exec(mid, t, mv).Some?
      ensures Meets(Exec(mid, t, mv).value, t, fuel, goal)
    {
      StepAlone(st, sh, t, s, call, mv);
    }
  }

  /** These calls can only advance. */
  predicate Advances(call: Call) {
    call.UnlockCall? || call.StateCall? || (call.LockCall? && !(call.lock.LockLoad? && call.lock.tried))
  }

  lemma ByAdvance(st: State, sh: Shared, t: nat, s: SessionId, call: Call, fuel: nat, goal: Goal)
    requires t !in st.threads && Valid(During(st, sh, t, s, call)) && Advances(call)
    requires ValidMemory(sh.mem) && ValidCall(sh.mem, s, call)
    requires var eff := StepCall(sh, s, call, Advance, MutexHeld(During(st, sh, t, s, call), s));
             eff.Some? && Meets(Outcome(st, t, s, eff.value), t, fuel, goal)
    ensures Reaches(During(st, sh, t, s, call), t, fuel + 1, goal)
  {
    ByCall(st, sh, t, s, call, Advance, fuel, goal);
  }

  /** A call whose next step returns. */
  lemma ByReturning(st: State, sh: Shared, t: nat, s: SessionId, call: Call, sh': Shared, ev: Event)
    requires t !in st.threads && Valid(During(st, sh, t, s, call)) && Advances(call)
    requires ValidMemory(sh.mem) && ValidCall(sh.mem, s, call)
    requires StepCall(sh, s, call, Advance, MutexHeld(During(st, sh, t, s, call), s)) == Some(Effect(sh', ev, None))
    ensures Valid(State(sh', st.threads))
    ensures Outcome(st, t, s, Effect(sh', ev, None)) == Done(State(sh', st.threads), ev)
  {
    StepAlone(st, sh, t, s, call, Advance);
  }

  lemma ByAdvanceOrTimeOut(st: State, sh: Shared, t: nat, s: SessionId, name: string, at: LockAt, fuel: nat, goal: Goal)
    requires t !in st.threads && Valid(During(st, sh, t, s, LockCall(name, at))) && at.LockLoad?
    requires ValidMemory(sh.mem) && ValidCall(sh.mem, s, LockCall(name, at))
    requires var held := MutexHeld(During(st, sh, t, s, LockCall(name, at)), s);
             var eff, out := StepLock(sh, s, name, at, Advance, held), StepLock(sh, s, name, at, TimeOut, held);
             && eff.Some? && Meets(Outcome(st, t, s, eff.value), t, fuel, goal)
             && (out.Some? ==> Meets(Outcome(st, t, s, out.value), t, fuel, goal))
    ensures Reaches(During(st, sh, t, s, LockCall(name, at)), t, fuel + 1, goal)
  {
    var held := MutexHeld(During(st, sh, t, s, LockCall(name, at)), s);
    assert forall mv :: StepLock(sh, s, name, at, mv, held).Some? ==> mv == Advance || mv == TimeOut;
    ByCall(st, sh, t, s, LockCall(name, at), Advance, fuel, goal);
  }

  // ---------------------------------------------------------------- Lock alone

  /** The table once the name has its cell. */
  function Made(tbl: Table, name: string): Table {
    if name in tbl then tbl else tbl[name := FREE]
  }

  /**
   The lock is taken: its count is one higher and no other lock has changed. The call returns if the
   lock was its session's already; otherwise it goes on to list the name.
   */
  ghost predicate Taken(st: State, tbl: Table, listed: map<SessionId, set<string>>, t: nat, s: SessionId, name: string, ev: Event, st': State) {
    && Valid(st') && ev == Locked(s, name) && st'.shared.listed == listed
    && TableOf(st'.shared.mem) == tbl[name := OwnedLock(s, Held(tbl, s, name) + 1)]
    && st'.threads == if Held(tbl, s, name) > 0 then st.threads else st.threads[t := Thread(s, LockCall(name, LockList))]
  }

  /** The lock is taken, or a call that was behind already gives up and leaves everything as it is. */
  ghost function Taking(st: State, tbl: Table, listed: map<SessionId, set<string>>, t: nat, s: SessionId, name: string, late: bool): Goal {
    (ev, st': State) =>
      || Taken(st, tbl, listed, t, s, name, ev, st')
      || (late && Valid(st') && ev == TimedOut(s, name) && st'.shared.listed == listed && st'.threads == st.threads &&
          TableOf(st'.shared.mem) == tbl)
  }

  function LockRank(m: Memory, at: LockAt): nat {
    match at
    case LockGet => 4
    case LockCreate => 3
    case LockLoad(_, _) => 2
    case LockSwap(_, _) => if Behind(m, at) then 3 else 1
    case LockList => 0
  }

  lemma OneMore(tbl: Table, s: SessionId, name: string)
    requires ValidLock(Made(tbl, name)[name]) && Made(tbl, name)[name].owner in {0, s as nat}
    ensures LockRecord(s, Made(tbl, name)[name]) == OwnedLock(s, Held(tbl, s, name) + 1)
    ensures Held(tbl, s, name) > 0 <==> Made(tbl, name)[name].owner != 0
  {
  }

  lemma LockSwapTable(m: Memory, s: SessionId, name: string, cell: nat, curr: nat, tbl: Table)
    requires ValidMemory(m) && HasCell(m, name, cell) && Read(m, curr, {0, s as nat})
    requires m.cells[cell] == curr && TableOf(m) == Made(tbl, name)
    ensures var m' := CompareAndSwap(m, cell, curr, LockRecord(s, m.heap[curr]));
            m'.Some? && ValidMemory(m'.value) && TableOf(m'.value) == tbl[name := OwnedLock(s, Held(tbl, s, name) + 1)]
    ensures m.heap[curr].owner != 0 <==> Held(tbl, s, name) > 0
  {
    var rec := LockRecord(s, m.heap[curr]);
    SwapActsOnWhatWasRead(m, name, cell, curr, rec);
    OneMore(tbl, s, name);
    assert Made(tbl, name)[name := rec] == tbl[name := rec];
  }

  lemma LockSwapEffect(sh: Shared, s: SessionId, name: string, cell: nat, curr: nat, tbl: Table, blocked: bool)
    requires ValidMemory(sh.mem) && ValidCall(sh.mem, s, LockCall(name, LockSwap(cell, curr)))
    requires sh.mem.cells[cell] == curr && TableOf(sh.mem) == Made(tbl, name)
    ensures var r := StepLock(sh, s, name, LockSwap(cell, curr), Advance, blocked);
            && r.Some? && r.value.event == Locked(s, name) && r.value.shared.listed == sh.listed
            && ValidMemory(r.value.shared.mem)
            && TableOf(r.value.shared.mem) == tbl[name := OwnedLock(s, Held(tbl, s, name) + 1)]
            && r.value.next == if Held(tbl, s, name) > 0 then None else Some(LockCall(name, LockList))
  {
    LockSwapTable(sh.mem, s, name, cell, curr, tbl);
  }

  lemma LockSwaps(st: State, sh: Shared, t: nat, s: SessionId, name: string, cell: nat, curr: nat, tbl: Table, late: bool)
    requires t !in st.threads && Valid(During(st, sh, t, s, LockCall(name, LockSwap(cell, curr))))
    requires ValidMemory(sh.mem) && cell < |sh.mem.cells| && sh.mem.cells[cell] == curr
    requires TableOf(sh.mem) == Made(tbl, name)
    ensures Reaches(During(st, sh, t, s, LockCall(name, LockSwap(cell, curr))), t, 1,
                    Taking(st, tbl, sh.listed, t, s, name, late))
  {
    var call := LockCall(name, LockSwap(cell, curr));
    var held := MutexHeld(During(st, sh, t, s, call), s);
    StepAlone(st, sh, t, s, call, Advance);
    LockSwapEffect(sh, s, name, cell, curr, tbl, held);
    MeetsTaken(st, sh, t, s, name, StepCall(sh, s, call, Advance, held).value, tbl, late);
    ByAdvance(st, sh, t, s, call, 0, Taking(st, tbl, sh.listed, t, s, name, late));
  }

  lemma MeetsTaken(st: State, sh: Shared, t: nat, s: SessionId, name: string, eff: Effect, tbl: Table, late: bool)
    requires Valid(Outcome(st, t, s, eff).state) && eff.event == Locked(s, name) && eff.shared.listed == sh.listed
    requires ValidMemory(eff.shared.mem)
    requires TableOf(eff.shared.mem) == tbl[name := OwnedLock(s, Held(tbl, s, name) + 1)]
    requires eff.next == if Held(tbl, s, name) > 0 then None else Some(LockCall(name, LockList))
    ensures Meets(Outcome(st, t, s, eff), t, 0, Taking(st, tbl, sh.listed, t, s, name, late))
  {
    var done := Outcome(st, t, s, eff);
    assert Taken(st, tbl, sh.listed, t, s, name, done.event, done.state);
  }

  /** The table stands at `tbl`, but for the cell of a new name that the call may have made. */
  predicate Based(m: Memory, tbl: Table, name: string)
    requires ValidMemory(m)
  {
    if name in m.locks then TableOf(m) == Made(tbl, name) else TableOf(m) == tbl
  }

  /** A step before the swap that will succeed leads closer to it. */
  lemma LockComesCloser(sh: Shared, s: SessionId, name: string, at: LockAt, tbl: Table, blocked: bool)
    requires ValidMemory(sh.mem) && ValidCall(sh.mem, s, LockCall(name, at)) && !at.LockList?
    requires Based(sh.mem, tbl, name) && Made(tbl, name)[name].owner in {0, s as nat}
    requires at.LockSwap? ==> Behind(sh.mem, at)
    ensures var r := StepLock(sh, s, name, at, Advance, blocked);
            && r.Some? && r.value.next.Some? && r.value.next.value.LockCall? && r.value.next.value.name == name
            && ValidMemory(r.value.shared.mem) && Based(r.value.shared.mem, tbl, name)
            && r.value.shared.listed == sh.listed
            && Closer(sh.mem, at, r.value.shared.mem, r.value.next.value.lock)
  {
    if at.LockCreate? && name !in sh.mem.locks {
      CreateAddsFreeLock(sh.mem, name);
    }
  }

  predicate Closer(m: Memory, at: LockAt, m': Memory, at': LockAt) {
    !at'.LockList? && LockRank(m', at') < LockRank(m, at) && (Behind(m', at') ==> Behind(m, at))
  }

  /** Running alone on a lock that is free or its own, a Lock takes it. */
  lemma {:induction false} LockTakes(st: State, sh: Shared, t: nat, s: SessionId, name: string, at: LockAt, tbl: Table, late: bool)
    requires t !in st.threads && Valid(During(st, sh, t, s, LockCall(name, at))) && !at.LockList?
    requires ValidMemory(sh.mem) && Based(sh.mem, tbl, name)
    requires Made(tbl, name)[name].owner in {0, s as nat}
    requires (Behind(sh.mem, at) ==> late) && (late ==> name in tbl)
    ensures Reaches(During(st, sh, t, s, LockCall(name, at)), t, LockRank(sh.mem, at),
                    Taking(st, tbl, sh.listed, t, s, name, late))
    decreases LockRank(sh.mem, at)
  {
    var call := LockCall(name, at);
    StepAlone(st, sh, t, s, call, Advance);
    if at.LockSwap? && !Behind(sh.mem, at) {
      LockSwaps(st, sh, t, s, name, at.cell, at.curr, tbl, late);
    } else {
      var held := MutexHeld(During(st, sh, t, s, call), s);
      LockComesCloser(sh, s, name, at, tbl, held);
      var eff := StepCall(sh, s, call, Advance, held).value;
      LockTakes(st, eff.shared, t, s, name, eff.next.value.lock, tbl, late);
      LockFollows(st, sh, t, s, name, at, eff, tbl, late);
    }
  }

  lemma LockFollows(st: State, sh: Shared, t: nat, s: SessionId, name: string, at: LockAt, eff: Effect, tbl: Table, late: bool)
    requires t !in st.threads && Valid(During(st, sh, t, s, LockCall(name, at)))
    requires ValidMemory(sh.mem) && ValidCall(sh.mem, s, LockCall(name, at)) && Based(sh.mem, tbl, name)
    requires (Behind(sh.mem, at) ==> late) && (late ==> name in tbl)
    requires StepCall(sh, s, LockCall(name, at), Advance, MutexHeld(During(st, sh, t, s, LockCall(name, at)), s)) == Some(eff)
    requires eff.next.Some? && eff.next.value.LockCall? && Closer(sh.mem, at, eff.shared.mem, eff.next.value.lock)
    requires var next := Outcome(st, t, s, eff).state;
             Valid(next) && Reaches(next, t, LockRank(eff.shared.mem, eff.next.value.lock), Taking(st, tbl, sh.listed, t, s, name, late))
    ensures Reaches(During(st, sh, t, s, LockCall(name, at)), t, LockRank(sh.mem, at),
                    Taking(st, tbl, sh.listed, t, s, name, late))
  {
    var goal := Taking(st, tbl, sh.listed, t, s, name, late);
    var call := LockCall(name, at);
    MeetsLater(Outcome(st, t, s, eff), t, LockRank(eff.shared.mem, eff.next.value.lock), LockRank(sh.mem, at) - 1, goal);
    if Advances(call) {
      ByAdvance(st, sh, t, s, call, LockRank(sh.mem, at) - 1, goal);
    } else {
      LockGivesUp(st, sh, t, s, name, at, tbl);
      ByAdvanceOrTimeOut(st, sh, t, s, name, at, 1, goal);
    }
  }

  lemma LockGivesUp(st: State, sh: Shared, t: nat, s: SessionId, name: string, at: LockAt, tbl: Table)
    requires t !in st.threads && Valid(During(st, sh, t, s, LockCall(name, at))) && at.LockLoad? && at.tried
    requires ValidMemory(sh.mem) && ValidCall(sh.mem, s, LockCall(name, at)) && TableOf(sh.mem) == tbl
    ensures var r := StepLock(sh, s, name, at, TimeOut, MutexHeld(During(st, sh, t, s, LockCall(name, at)), s));
            r.Some? && Meets(Outcome(st, t, s, r.value), t, 1, Taking(st, tbl, sh.listed, t, s, name, true))
  {
    StepAlone(st, sh, t, s, LockCall(name, at), TimeOut);
  }

  /** The call is over: the lock is taken, and listed if it was not the session's before. */
  ghost predicate LockOver(st: State, tbl: Table, sh: Shared, s: SessionId, name: string, st': State) {
    && Valid(st') && st'.threads == st.threads
    && TableOf(st'.shared.mem) == tbl[name := OwnedLock(s, Held(tbl, s, name) + 1)]
    && st'.shared.listed == if Held(tbl, s, name) > 0 then sh.listed else sh.listed[s := Listed(sh, s) + {name}]
  }

  ghost function LockEnds(st: State, tbl: Table, sh: Shared, s: SessionId, name: string): Goal {
    (ev, st') => LockOver(st, tbl, sh, s, name, st')
  }

  lemma LockListEnds(st: State, sh: Shared, t: nat, s: SessionId, name: string, tbl: Table, sh0: Shared)
    requires t !in st.threads && Valid(During(st, sh, t, s, LockCall(name, LockList))) && !MutexHeld(st, s)
    requires ValidMemory(sh.mem) && sh.listed == sh0.listed && Held(tbl, s, name) == 0
    requires TableOf(sh.mem) == tbl[name := OwnedLock(s, 1)]
    ensures Reaches(During(st, sh, t, s, LockCall(name, LockList)), t, 1, LockEnds(st, tbl, sh0, s, name))
  {
    var call := LockCall(name, LockList);
    var sh' := sh.(listed := sh.listed[s := Listed(sh, s) + {name}]);
    MutexAlone(st, sh, t, s, call);
    ByReturning(st, sh, t, s, call, sh', Internal);
    assert LockOver(st, tbl, sh0, s, name, State(sh', st.threads));
    ByAdvance(st, sh, t, s, call, 0, LockEnds(st, tbl, sh0, s, name));
  }

  lemma TakenEnds(st: State, sh: Shared, t: nat, s: SessionId, name: string, tbl: Table, ev: Event, st': State)
    requires t !in st.threads && !MutexHeld(st, s) && Taken(st, tbl, sh.listed, t, s, name, ev, st')
    ensures Meets(Done(st', ev), t, 1, LockEnds(st, tbl, sh, s, name))
  {
    if Held(tbl, s, name) == 0 {
      assert st' == During(st, st'.shared, t, s, LockCall(name, LockList));
      LockListEnds(st, st'.shared, t, s, name, tbl, sh);
    }
  }

  /**
   A Lock of a free lock, a new one or one of its own session, running alone: within four steps it
   takes the lock, and unless a ReleaseAll of its session holds the mutex it returns one step later.
   */
  lemma LockAlone(st: State, t: nat, s: SessionId, name: string)
    requires Valid(st) && t !in st.threads && !OwnedByOther(st.shared.mem, s, name)
    ensures var tbl, start := TableOf(st.shared.mem), Exec(st, t, Start(s, Lock(name))).value.state;
            && Reaches(start, t, 4, Taking(st, tbl, st.shared.listed, t, s, name, false))
            && (!MutexHeld(st, s) ==> Reaches(start, t, 5, LockEnds(st, tbl, st.shared, s, name)))
  {
    var tbl, start := TableOf(st.shared.mem), Exec(st, t, Start(s, Lock(name))).value.state;
    StartIs(st, t, s, Lock(name));
    TakesWhatIsThere(st.shared.mem, s, name, LockGet);
    LockTakes(st, st.shared, t, s, name, LockGet, tbl, false);
    if !MutexHeld(st, s) {
      TakingLeadsOn(st, st.shared, t, s, name, tbl);
      Then(start, t, 4, Taking(st, tbl, st.shared.listed, t, s, name, false), 1, LockEnds(st, tbl, st.shared, s, name));
    }
  }

  lemma TakingLeadsOn(st: State, sh: Shared, t: nat, s: SessionId, name: string, tbl: Table)
    requires t !in st.threads && !MutexHeld(st, s)
    ensures LeadsOn(t, Taking(st, tbl, sh.listed, t, s, name, false), 1, LockEnds(st, tbl, sh, s, name))
  {
    forall ev, st' | Taking(st, tbl, sh.listed, t, s, name, false)(ev, st')
      ensures Meets(Done(st', ev), t, 1, LockEnds(st, tbl, sh, s, name))
    {
      TakenEnds(st, sh, t, s, name, tbl, ev, st');
    }
  }

  // ---------------------------------------------------------------- Unlock alone

  function UnlockAnswer(tbl: Table, s: SessionId, name: string): Event {
    if name !in tbl then Missing(s, name)
    else if tbl[name].owner != s then NotOwned(s, name)
    else Unlocked(s, name)
  }

  /** The last of the session's locks on the name goes. */
  predicate LastOne(tbl: Table, s: SessionId, name: string) {
    Held(tbl, s, name) == 1
  }

  /** The table with one lock of the session on the name less, if it has one. */
  function OneLess(tbl: Table, s: SessionId, name: string): Table {
    if Held(tbl, s, name) == 0 then tbl
    else if LastOne(tbl, s, name) then tbl[name := FREE]
    else tbl[name := OwnedLock(s, Held(tbl, s, name) - 1)]
  }

  /** The answer is there and the table has changed; the call returns, or goes on to take the name off the list. */
  ghost predicate Answered(st: State, tbl: Table, listed: map<SessionId, set<string>>, t: nat, s: SessionId, name: string, ev: Event, st': State) {
    && Valid(st') && ev == UnlockAnswer(tbl, s, name) && st'.shared.listed == listed
    && TableOf(st'.shared.mem) == OneLess(tbl, s, name)
    && st'.threads == if LastOne(tbl, s, name) then st.threads[t := Thread(s, UnlockCall(name, UnlockUnlist))] else st.threads
  }

  ghost function Answering(st: State, tbl: Table, listed: map<SessionId, set<string>>, t: nat, s: SessionId, name: string): Goal {
    (ev, st') => Answered(st, tbl, listed, t, s, name, ev, st')
  }

  function UnlockRank(m: Memory, at: UnlockAt): nat {
    match at
    case UnlockGet => 3
    case UnlockLoad(_) => 2
    case UnlockSwap(cell, curr) => if cell < |m.cells| && m.cells[cell] == curr then 1 else 3
    case UnlockUnlist => 0
  }

  lemma OneFewer(tbl: Table, s: SessionId, name: string)
    requires name in tbl && tbl[name].owner == s && ValidLock(tbl[name])
    ensures tbl[name := UnlockRecord(s, tbl[name])] == OneLess(tbl, s, name)
    ensures UnlockRecord(s, tbl[name]).count == 0 <==> LastOne(tbl, s, name)
  {
  }

  lemma UnlockSwapEffect(sh: Shared, s: SessionId, name: string, cell: nat, curr: nat, blocked: bool)
    requires ValidMemory(sh.mem) && ValidCall(sh.mem, s, UnlockCall(name, UnlockSwap(cell, curr)))
    requires sh.mem.cells[cell] == curr
    ensures var r, tbl := StepUnlock(sh, s, name, UnlockSwap(cell, curr), Advance, blocked), TableOf(sh.mem);
            && r.Some? && r.value.event == UnlockAnswer(tbl, s, name) && r.value.shared.listed == sh.listed
            && ValidMemory(r.value.shared.mem) && TableOf(r.value.shared.mem) == OneLess(tbl, s, name)
            && r.value.next == if LastOne(tbl, s, name) then Some(UnlockCall(name, UnlockUnlist)) else None
  {
    SwapActsOnWhatWasRead(sh.mem, name, cell, curr, UnlockRecord(s, sh.mem.heap[curr]));
    OneFewer(TableOf(sh.mem), s, name);
  }

  /** A step of Unlock answers, or leads closer to the answer without changing anything. */
  lemma UnlockStep(sh: Shared, s: SessionId, name: string, at: UnlockAt, blocked: bool)
    requires ValidMemory(sh.mem) && ValidCall(sh.mem, s, UnlockCall(name, at)) && !at.UnlockUnlist?
    ensures var r, tbl := StepUnlock(sh, s, name, at, Advance, blocked), TableOf(sh.mem);
            r.Some? &&
            if r.value.event == Internal then
              && r.value.shared == sh && r.value.next.Some? && r.value.next.value.UnlockCall? && r.value.next.value.name == name
              && !r.value.next.value.unlock.UnlockUnlist?
              && UnlockRank(sh.mem, r.value.next.value.unlock) < UnlockRank(sh.mem, at)
            else
              && r.value.event == UnlockAnswer(tbl, s, name) && r.value.shared.listed == sh.listed
              && ValidMemory(r.value.shared.mem) && TableOf(r.value.shared.mem) == OneLess(tbl, s, name)
              && r.value.next == if LastOne(tbl, s, name) then Some(UnlockCall(name, UnlockUnlist)) else None
  {
    if at.UnlockSwap? && sh.mem.cells[at.cell] == at.curr {
      UnlockSwapEffect(sh, s, name, at.cell, at.curr, blocked);
    }
  }

  lemma {:induction false} UnlockAnswers(st: State, sh: Shared, t: nat, s: SessionId, name: string, at: UnlockAt)
    requires t !in st.threads && Valid(During(st, sh, t, s, UnlockCall(name, at))) && !at.UnlockUnlist?
    requires ValidMemory(sh.mem)
    ensures Reaches(During(st, sh, t, s, UnlockCall(name, at)), t, UnlockRank(sh.mem, at),
                    Answering(st, TableOf(sh.mem), sh.listed, t, s, name))
    decreases UnlockRank(sh.mem, at)
  {
    var goal := Answering(st, TableOf(sh.mem), sh.listed, t, s, name);
    var call := UnlockCall(name, at);
    var fuel := UnlockRank(sh.mem, at) - 1;
    StepAlone(st, sh, t, s, call, Advance);
    var held := MutexHeld(During(st, sh, t, s, call), s);
    UnlockStep(sh, s, name, at, held);
    var eff := StepCall(sh, s, call, Advance, held).value;
    if eff.event == Internal {
      var at' := eff.next.value.unlock;
      UnlockAnswers(st, sh, t, s, name, at');
      MeetsLater(Outcome(st, t, s, eff), t, UnlockRank(sh.mem, at'), fuel, goal);
    } else {
      AnswerMeets(st, sh, t, s, name, eff, fuel);
    }
    ByAdvance(st, sh, t, s, call, fuel, goal);
  }

  lemma AnswerMeets(st: State, sh: Shared, t: nat, s: SessionId, name: string, eff: Effect, fuel: nat)
    requires ValidMemory(sh.mem) && ValidMemory(eff.shared.mem) && Valid(Outcome(st, t, s, eff).state)
    requires eff.event == UnlockAnswer(TableOf(sh.mem), s, name) && eff.shared.listed == sh.listed
    requires TableOf(eff.shared.mem) == OneLess(TableOf(sh.mem), s, name)
    requires eff.next == if LastOne(TableOf(sh.mem), s, name) then Some(UnlockCall(name, UnlockUnlist)) else None
    ensures Meets(Outcome(st, t, s, eff), t, fuel, Answering(st, TableOf(sh.mem), sh.listed, t, s, name))
  {
    var done := Outcome(st, t, s, eff);
    assert Answered(st, TableOf(sh.mem), sh.listed, t, s, name, done.event, done.state);
  }

  /** The call is over: one lock less, and the name off the list if it was the last. */
  ghost predicate UnlockOver(st: State, tbl: Table, sh: Shared, s: SessionId, name: string, st': State) {
    && Valid(st') && st'.threads == st.threads && TableOf(st'.shared.mem) == OneLess(tbl, s, name)
    && st'.shared.listed == if LastOne(tbl, s, name) then sh.listed[s := Listed(sh, s) - {name}] else sh.listed
  }

  ghost function UnlockEnds(st: State, tbl: Table, sh: Shared, s: SessionId, name: string): Goal {
    (ev, st') => UnlockOver(st, tbl, sh, s, name, st')
  }

  lemma UnlistEnds(st: State, sh: Shared, t: nat, s: SessionId, name: string, tbl: Table, sh0: Shared)
    requires t !in st.threads && Valid(During(st, sh, t, s, UnlockCall(name, UnlockUnlist))) && !MutexHeld(st, s)
    requires ValidMemory(sh.mem) && sh.listed == sh0.listed && LastOne(tbl, s, name)
    requires TableOf(sh.mem) == OneLess(tbl, s, name)
    ensures Reaches(During(st, sh, t, s, UnlockCall(name, UnlockUnlist)), t, 1, UnlockEnds(st, tbl, sh0, s, name))
  {
    var call := UnlockCall(name, UnlockUnlist);
    var sh' := sh.(listed := sh.listed[s := Listed(sh, s) - {name}]);
    MutexAlone(st, sh, t, s, call);
    ByReturning(st, sh, t, s, call, sh', Internal);
    assert UnlockOver(st, tbl, sh0, s, name, State(sh', st.threads));
    ByAdvance(st, sh, t, s, call, 0, UnlockEnds(st, tbl, sh0, s, name));
  }

  lemma AnsweredEnds(st: State, sh: Shared, t: nat, s: SessionId, name: string, tbl: Table, ev: Event, st': State)
    requires t !in st.threads && !MutexHeld(st, s) && Answered(st, tbl, sh.listed, t, s, name, ev, st')
    ensures Meets(Done(st', ev), t, 1, UnlockEnds(st, tbl, sh, s, name))
  {
    if LastOne(tbl, s, name) {
      assert st' == During(st, st'.shared, t, s, UnlockCall(name, UnlockUnlist));
      UnlistEnds(st, st'.shared, t, s, name, tbl, sh);
    }
  }

  /**
   An Unlock running alone: within three steps it answers, that the lock does not exist, that the
   session does not own it, or that it has one lock less; and it returns one step later.
   */
  lemma UnlockAlone(st: State, t: nat, s: SessionId, name: string)
    requires Valid(st) && t !in st.threads
    ensures var tbl, start := TableOf(st.shared.mem), Exec(st, t, Start(s, Unlock(name))).value.state;
            && Reaches(start, t, 3, Answering(st, tbl, st.shared.listed, t, s, name))
            && (!MutexHeld(st, s) ==> Reaches(start, t, 4, UnlockEnds(st, tbl, st.shared, s, name)))
  {
    var tbl, start := TableOf(st.shared.mem), Exec(st, t, Start(s, Unlock(name))).value.state;
    StartIs(st, t, s, Unlock(name));
    UnlockAnswers(st, st.shared, t, s, name, UnlockGet);
    if !MutexHeld(st, s) {
      AnsweringLeadsOn(st, st.shared, t, s, name, tbl);
      Then(start, t, 3, Answering(st, tbl, st.shared.listed, t, s, name), 1, UnlockEnds(st, tbl, st.shared, s, name));
    }
  }

  lemma AnsweringLeadsOn(st: State, sh: Shared, t: nat, s: SessionId, name: string, tbl: Table)
    requires t !in st.threads && !MutexHeld(st, s)
    ensures LeadsOn(t, Answering(st, tbl, sh.listed, t, s, name), 1, UnlockEnds(st, tbl, sh, s, name))
  {
    forall ev, st' | Answering(st, tbl, sh.listed, t, s, name)(ev, st')
      ensures Meets(Done(st', ev), t, 1, UnlockEnds(st, tbl, sh, s, name))
    {
      AnsweredEnds(st, sh, t, s, name, tbl, ev, st');
    }
  }

  // ---------------------------------------------------------------- ReleaseAll alone

  function OwnedIn(tbl: Table, s: SessionId): set<string> {
    set n | n in tbl && tbl[n].owner == s
  }

  /** The table with the session's locks on these names freed. */
  function Freed(tbl: Table, s: SessionId, names: set<string>): Table {
    map n | n in tbl :: if n in names && tbl[n].owner == s then FREE else tbl[n]
  }

  function Visiting(at: ReleaseAt): set<string> {
    if at.ReleaseNext? then {} else {at.name}
  }

  /** The names of `names` that are done with. */
  function Visited(call: Call, names: set<string>): set<string>
    requires call.ReleaseCall?
  {
    names - call.todo - Visiting(call.release)
  }

  /** The names `done` are freed and counted, on top of `base`. */
  predicate FreedSoFar(now: Table, released: nat, s: SessionId, tbl: Table, done: set<string>, base: nat) {
    now == Freed(tbl, s, done) && released == base + |OwnedIn(tbl, s) * done|
  }

  /** The call visits `names`, and so far the visited ones are freed and counted. */
  predicate Releasing(sh: Shared, s: SessionId, call: Call, tbl: Table, names: set<string>, base: nat)
    requires ValidMemory(sh.mem) && call.ReleaseCall?
  {
    && call.todo <= names && Visiting(call.release) <= names - call.todo
    && FreedSoFar(TableOf(sh.mem), call.released, s, tbl, Visited(call, names), base)
  }

  /** The call has returned: the session's locks on the names are freed, and the answer counts them. */
  ghost predicate ReleaseOver(st: State, tbl: Table, listed: map<SessionId, set<string>>, s: SessionId, names: set<string>, base: nat, ev: Event, st': State) {
    && Valid(st') && st'.threads == st.threads && st'.shared.listed == listed
    && ev == ReleasedAll(s, base + |OwnedIn(tbl, s) * names|)
    && TableOf(st'.shared.mem) == Freed(tbl, s, names)
  }

  ghost function ReleaseEnds(st: State, tbl: Table, listed: map<SessionId, set<string>>, s: SessionId, names: set<string>, base: nat): Goal {
    (ev, st') => ReleaseOver(st, tbl, listed, s, names, base, ev, st')
  }

  function ReleaseRank(m: Memory, call: Call): nat
    requires call.ReleaseCall?
  {
    4 * |call.todo| +
    match call.release
    case ReleaseNext => 1
    case ReleaseGet(_) => 4
    case ReleaseLoad(_, _) => 3
    case ReleaseSwap(_, cell, curr) => if cell < |m.cells| && m.cells[cell] == curr then 2 else 4
  }

  lemma FreedOne(tbl: Table, s: SessionId, done: set<string>, name: string)
    requires name !in done && name in tbl && tbl[name].owner == s
    ensures Freed(tbl, s, done + {name}) == Freed(tbl, s, done)[name := FREE]
    ensures |OwnedIn(tbl, s) * (done + {name})| == |OwnedIn(tbl, s) * done| + 1
  {
    assert OwnedIn(tbl, s) * (done + {name}) == OwnedIn(tbl, s) * done + {name};
  }

  lemma FreedNone(tbl: Table, s: SessionId, done: set<string>, name: string)
    requires !(name in tbl && tbl[name].owner == s)
    ensures Freed(tbl, s, done + {name}) == Freed(tbl, s, done)
    ensures OwnedIn(tbl, s) * (done + {name}) == OwnedIn(tbl, s) * done
  {
  }

  /** One more name is done with: it was the session's and is free now, or it was not and nothing has changed. */
  lemma FreesOneMore(now: Table, now': Table, released: nat, released': nat, s: SessionId, tbl: Table, done: set<string>, name: string, base: nat)
    requires FreedSoFar(now, released, s, tbl, done, base) && name !in done
    requires if name in now && now[name].owner == s then now' == now[name := FREE] && released' == released + 1
             else now' == now && released' == released
    ensures FreedSoFar(now', released', s, tbl, done + {name}, base)
  {
    if name in tbl && tbl[name].owner == s {
      FreedOne(tbl, s, done, name);
    } else {
      FreedNone(tbl, s, done, name);
    }
  }

  /** The names a step leaves to visit, and those it has visited. */
  predicate VisitStep(call: Call, call': Call)
    requires call.ReleaseCall? && call'.ReleaseCall?
  {
    if call.release.ReleaseNext? then !call'.release.ReleaseNext? && call'.release.name in call.todo && call'.todo == call.todo - {call'.release.name}
    else call'.todo == call.todo && (call'.release.ReleaseNext? || call'.release.name == call.release.name)
  }

  lemma VisitedStep(call: Call, call': Call, names: set<string>)
    requires call.ReleaseCall? && call'.ReleaseCall? && VisitStep(call, call')
    requires call.todo <= names && Visiting(call.release) <= names - call.todo
    ensures call'.todo <= names && Visiting(call'.release) <= names - call'.todo
    ensures Visited(call', names) ==
            if call'.release.ReleaseNext? then Visited(call, names) + {call.release.name} else Visited(call, names)
    ensures !call.release.ReleaseNext? ==> call.release.name !in Visited(call, names)
  {
  }

  /** What a step of ReleaseAll does to the table and the count. */
  predicate ReleaseStep(sh: Shared, s: SessionId, call: Call, eff: Effect)
    requires ValidMemory(sh.mem) && ValidMemory(eff.shared.mem) && call.ReleaseCall? && eff.next.Some? && eff.next.value.ReleaseCall?
  {
    var now, now', call' := TableOf(sh.mem), TableOf(eff.shared.mem), eff.next.value;
    && VisitStep(call, call') && eff.shared.listed == sh.listed
    && (if call'.release.ReleaseNext? && call.release.name in now && now[call.release.name].owner == s then
          now' == now[call.release.name := FREE] && call'.released == call.released + 1
        else
          now' == now && call'.released == call.released)
  }

  lemma ReleaseStepIs(sh: Shared, s: SessionId, call: Call, mv: Move)
    requires ValidMemory(sh.mem) && call.ReleaseCall? && ValidCall(sh.mem, s, call)
    requires StepRelease(sh, s, call, mv).Some?
    ensures var eff := StepRelease(sh, s, call, mv).value;
            if eff.next.Some? then ValidMemory(eff.shared.mem) && eff.next.value.ReleaseCall? && ReleaseStep(sh, s, call, eff)
            else call.release.ReleaseNext? && call.todo == {} && eff == Effect(sh, ReleasedAll(s, call.released), None)
  {
    if call.release.ReleaseSwap? && sh.mem.cells[call.release.cell] == call.release.curr {
      SwapActsOnWhatWasRead(sh.mem, call.release.name, call.release.cell, call.release.curr, FREE);
    }
  }

  lemma ReleaseKeeps(sh: Shared, s: SessionId, call: Call, eff: Effect, tbl: Table, names: set<string>, base: nat)
    requires ValidMemory(sh.mem) && call.ReleaseCall? && Releasing(sh, s, call, tbl, names, base)
    requires ValidMemory(eff.shared.mem) && eff.next.Some? && eff.next.value.ReleaseCall? && ReleaseStep(sh, s, call, eff)
    ensures Releasing(eff.shared, s, eff.next.value, tbl, names, base)
  {
    var call' := eff.next.value;
    VisitedStep(call, call', names);
    if call'.release.ReleaseNext? {
      FreesOneMore(TableOf(sh.mem), TableOf(eff.shared.mem), call.released, call'.released, s, tbl, Visited(call, names),
                   call.release.name, base);
    }
  }

  lemma ReleaseComesCloser(sh: Shared, s: SessionId, call: Call, mv: Move)
    requires ValidMemory(sh.mem) && call.ReleaseCall? && ValidCall(sh.mem, s, call)
    requires StepRelease(sh, s, call, mv).Some? && StepRelease(sh, s, call, mv).value.next.Some?
    ensures var eff := StepRelease(sh, s, call, mv).value;
            eff.next.value.ReleaseCall? && ReleaseRank(eff.shared.mem, eff.next.value) < ReleaseRank(sh.mem, call)
  {
    if call.release.ReleaseNext? {
      var call' := StepRelease(sh, s, call, mv).value.next.value;
      assert call.todo == call'.todo + {mv.name};
    }
  }

  /** A ReleaseAll can always move: to a listed name if it has one left. */
  lemma ReleaseMoves(sh: Shared, s: SessionId, call: Call, blocked: bool) returns (mv: Move)
    requires ValidMemory(sh.mem) && call.ReleaseCall? && ValidCall(sh.mem, s, call)
    ensures StepCall(sh, s, call, mv, blocked).Some?
  {
    if call.release.ReleaseNext? && call.todo != {} {
      var n :| n in call.todo;
      mv := Pick(n);
    } else {
      mv := Advance;
    }
  }

  lemma {:induction false} ReleaseReturns(st: State, sh: Shared, t: nat, s: SessionId, call: Call, tbl: Table, names: set<string>, base: nat)
    requires t !in st.threads && call.ReleaseCall? && Valid(During(st, sh, t, s, call))
    requires ValidMemory(sh.mem) && Releasing(sh, s, call, tbl, names, base)
    ensures Reaches(During(st, sh, t, s, call), t, ReleaseRank(sh.mem, call), ReleaseEnds(st, tbl, sh.listed, s, names, base))
    decreases ReleaseRank(sh.mem, call)
  {
    var goal := ReleaseEnds(st, tbl, sh.listed, s, names, base);
    var fuel := ReleaseRank(sh.mem, call) - 1;
    var held := MutexHeld(During(st, sh, t, s, call), s);
    StepAlone(st, sh, t, s, call, Advance);
    forall mv | StepCall(sh, s, call, mv, held).Some?
      ensures Meets(Outcome(st, t, s, StepCall(sh, s, call, mv, held).value), t, fuel, goal)
    {
      var eff := StepCall(sh, s, call, mv, held).value;
      StepAlone(st, sh, t, s, call, mv);
      ReleaseStepIs(sh, s, call, mv);
      if eff.next.Some? {
        ReleaseKeeps(sh, s, call, eff, tbl, names, base);
        ReleaseComesCloser(sh, s, call, mv);
        ReleaseReturns(st, eff.shared, t, s, eff.next.value, tbl, names, base);
        MeetsLater(Outcome(st, t, s, eff), t, ReleaseRank(eff.shared.mem, eff.next.value), fuel, goal);
      } else {
        ReleaseMeets(st, sh, t, s, call, eff, tbl, names, base, fuel);
      }
    }
    var first := ReleaseMoves(sh, s, call, held);
    ByCall(st, sh, t, s, call, first, fuel, goal);
  }

  lemma ReleaseMeets(st: State, sh: Shared, t: nat, s: SessionId, call: Call, eff: Effect, tbl: Table, names: set<string>, base: nat, fuel: nat)
    requires ValidMemory(sh.mem) && call.ReleaseCall? && Releasing(sh, s, call, tbl, names, base)
    requires call.release.ReleaseNext? && call.todo == {} && eff == Effect(sh, ReleasedAll(s, call.released), None)
    requires Valid(Outcome(st, t, s, eff).state)
    ensures Meets(Outcome(st, t, s, eff), t, fuel, ReleaseEnds(st, tbl, sh.listed, s, names, base))
  {
    assert Visited(call, names) == names;
    assert ReleaseOver(st, tbl, sh.listed, s, names, base, eff.event, State(sh, st.threads));
  }

  /**
   A ReleaseAll running alone returns. It frees exactly the listed locks that its session owns, leaves
   every other lock as it is, and answers their number, whatever the order in which it visits them.
   */
  lemma ReleaseAllAlone(st: State, t: nat, s: SessionId)
    requires Valid(st) && t !in st.threads
    ensures var tbl, names, start := TableOf(st.shared.mem), Listed(st.shared, s), Exec(st, t, Start(s, ReleaseAll)).value.state;
            Reaches(start, t, 4 * |names| + 1, ReleaseEnds(st, tbl, st.shared.listed, s, names, 0))
  {
    StartIs(st, t, s, ReleaseAll);
    ReleaseFromStart(st, t, s, Listed(st.shared, s), Owned(st.shared.mem, s));
  }

  lemma ReleaseFromStart(st: State, t: nat, s: SessionId, names: set<string>, owned0: set<string>)
    requires Valid(st) && t !in st.threads && Valid(During(st, st.shared, t, s, ReleaseCall(names, 0, owned0, ReleaseNext)))
    ensures Reaches(During(st, st.shared, t, s, ReleaseCall(names, 0, owned0, ReleaseNext)), t, 4 * |names| + 1,
                    ReleaseEnds(st, TableOf(st.shared.mem), st.shared.listed, s, names, 0))
  {
    StartsReleasing(st.shared, s, names, owned0);
    ReleaseReturns(st, st.shared, t, s, ReleaseCall(names, 0, owned0, ReleaseNext), TableOf(st.shared.mem), names, 0);
  }

  lemma StartsReleasing(sh: Shared, s: SessionId, names: set<string>, owned0: set<string>)
    requires ValidMemory(sh.mem)
    ensures Releasing(sh, s, ReleaseCall(names, 0, owned0, ReleaseNext), TableOf(sh.mem), names, 0)
  {
    assert Visited(ReleaseCall(names, 0, owned0, ReleaseNext), names) == {};
    FreedNothing(TableOf(sh.mem), s);
  }

  lemma FreedNothing(tbl: Table, s: SessionId)
    ensures Freed(tbl, s, {}) == tbl && |OwnedIn(tbl, s) * {}| == 0
  {
  }

  // ---------------------------------------------------------------- every call alone

  ghost function Gone(t: nat): Goal {
    (ev, st': State) => t !in st'.threads
  }

  lemma StateReturns(st: State, sh: Shared, t: nat, s: SessionId, name: string, found: Option<nat>)
    requires t !in st.threads && Valid(During(st, sh, t, s, StateCall(name, found)))
    ensures Reaches(During(st, sh, t, s, StateCall(name, found)), t, 2, Gone(t))
    decreases found.None?
  {
    var call := StateCall(name, found);
    StepAlone(st, sh, t, s, call, Advance);
    var eff := StepCall(sh, s, call, Advance, MutexHeld(During(st, sh, t, s, call), s)).value;
    if eff.next.Some? {
      var call' := eff.next.value;
      StepAlone(st, sh, t, s, call', Advance);
      ByAdvance(st, sh, t, s, call', 0, Gone(t));
    }
    ByAdvance(st, sh, t, s, call, 1, Gone(t));
  }

  /** The step that updates the session's list returns. */
  lemma ListReturns(st: State, sh: Shared, t: nat, s: SessionId, call: Call)
    requires t !in st.threads && Valid(During(st, sh, t, s, call)) && !MutexHeld(st, s)
    requires (call.LockCall? && call.lock.LockList?) || (call.UnlockCall? && call.unlock.UnlockUnlist?)
    ensures Reaches(During(st, sh, t, s, call), t, 1, Gone(t))
  {
    MutexAlone(st, sh, t, s, call);
    StepAlone(st, sh, t, s, call, Advance);
    ByAdvance(st, sh, t, s, call, 0, Gone(t));
  }

  lemma TakenReturns(st: State, sh: Shared, t: nat, s: SessionId, name: string, tbl: Table, late: bool, ev: Event, st': State)
    requires t !in st.threads && !MutexHeld(st, s) && Taking(st, tbl, sh.listed, t, s, name, late)(ev, st')
    ensures Meets(Done(st', ev), t, 1, Gone(t))
  {
    if t in st'.threads {
      assert st' == During(st, st'.shared, t, s, LockCall(name, LockList));
      ListReturns(st, st'.shared, t, s, LockCall(name, LockList));
    }
  }

  lemma TakesWhatIsThere(m: Memory, s: SessionId, name: string, at: LockAt)
    requires ValidMemory(m) && ValidCall(m, s, LockCall(name, at)) && !OwnedByOther(m, s, name)
    ensures Based(m, TableOf(m), name) && Made(TableOf(m), name)[name].owner in {0, s as nat}
    ensures Behind(m, at) ==> name in TableOf(m)
  {
  }

  lemma LockReturns(st: State, sh: Shared, t: nat, s: SessionId, name: string, at: LockAt)
    requires t !in st.threads && Valid(During(st, sh, t, s, LockCall(name, at))) && !MutexHeld(st, s) && !at.LockList?
    requires ValidMemory(sh.mem) && ValidCall(sh.mem, s, LockCall(name, at)) && !OwnedByOther(sh.mem, s, name)
    ensures Reaches(During(st, sh, t, s, LockCall(name, at)), t, LockRank(sh.mem, at) + 1, Gone(t))
  {
    var tbl, late := TableOf(sh.mem), Behind(sh.mem, at);
    TakesWhatIsThere(sh.mem, s, name, at);
    LockTakes(st, sh, t, s, name, at, tbl, late);
    TakingOut(During(st, sh, t, s, LockCall(name, at)), LockRank(sh.mem, at), st, sh, t, s, name, tbl, late);
  }

  /** A call that comes to take its lock comes to its end. */
  lemma TakingOut(mid: State, fuel: nat, st: State, sh: Shared, t: nat, s: SessionId, name: string, tbl: Table, late: bool)
    requires t !in st.threads && !MutexHeld(st, s) && Valid(mid)
    requires Reaches(mid, t, fuel, Taking(st, tbl, sh.listed, t, s, name, late))
    ensures Reaches(mid, t, fuel + 1, Gone(t))
  {
    TakingLeadsOut(st, sh, t, s, name, tbl, late);
    Then(mid, t, fuel, Taking(st, tbl, sh.listed, t, s, name, late), 1, Gone(t));
  }

  lemma TakingLeadsOut(st: State, sh: Shared, t: nat, s: SessionId, name: string, tbl: Table, late: bool)
    requires t !in st.threads && !MutexHeld(st, s)
    ensures LeadsOn(t, Taking(st, tbl, sh.listed, t, s, name, late), 1, Gone(t))
  {
    forall ev, st' | Taking(st, tbl, sh.listed, t, s, name, late)(ev, st')
      ensures Meets(Done(st', ev), t, 1, Gone(t))
    {
      TakenReturns(st, sh, t, s, name, tbl, late, ev, st');
    }
  }

  lemma AnsweredReturns(st: State, sh: Shared, t: nat, s: SessionId, name: string, tbl: Table, ev: Event, st': State)
    requires t !in st.threads && !MutexHeld(st, s) && Answered(st, tbl, sh.listed, t, s, name, ev, st')
    ensures Meets(Done(st', ev), t, 1, Gone(t))
  {
    if t in st'.threads {
      assert st' == During(st, st'.shared, t, s, UnlockCall(name, UnlockUnlist));
      ListReturns(st, st'.shared, t, s, UnlockCall(name, UnlockUnlist));
    }
  }

  lemma UnlockReturns(st: State, sh: Shared, t: nat, s: SessionId, name: string, at: UnlockAt)
    requires t !in st.threads && Valid(During(st, sh, t, s, UnlockCall(name, at))) && !MutexHeld(st, s) && !at.UnlockUnlist?
    requires ValidMemory(sh.mem)
    ensures Reaches(During(st, sh, t, s, UnlockCall(name, at)), t, UnlockRank(sh.mem, at) + 1, Gone(t))
  {
    UnlockAnswers(st, sh, t, s, name, at);
    AnsweringLeadsOut(st, sh, t, s, name, TableOf(sh.mem));
    Then(During(st, sh, t, s, UnlockCall(name, at)), t, UnlockRank(sh.mem, at),
         Answering(st, TableOf(sh.mem), sh.listed, t, s, name), 1, Gone(t));
  }

  lemma AnsweringLeadsOut(st: State, sh: Shared, t: nat, s: SessionId, name: string, tbl: Table)
    requires t !in st.threads && !MutexHeld(st, s)
    ensures LeadsOn(t, Answering(st, tbl, sh.listed, t, s, name), 1, Gone(t))
  {
    forall ev, st' | Answering(st, tbl, sh.listed, t, s, name)(ev, st')
      ensures Meets(Done(st', ev), t, 1, Gone(t))
    {
      AnsweredReturns(st, sh, t, s, name, tbl, ev, st');
    }
  }

  lemma {:induction false} ReleaseAllReturns(st: State, sh: Shared, t: nat, s: SessionId, call: Call)
    requires t !in st.threads && call.ReleaseCall? && Valid(During(st, sh, t, s, call))
    ensures Reaches(During(st, sh, t, s, call), t, ReleaseRank(sh.mem, call), Gone(t))
    decreases ReleaseRank(sh.mem, call)
  {
    var fuel := ReleaseRank(sh.mem, call) - 1;
    var held := MutexHeld(During(st, sh, t, s, call), s);
    StepAlone(st, sh, t, s, call, Advance);
    forall mv | StepCall(sh, s, call, mv, held).Some?
      ensures Meets(Outcome(st, t, s, StepCall(sh, s, call, mv, held).value), t, fuel, Gone(t))
    {
      var eff := StepCall(sh, s, call, mv, held).value;
      StepAlone(st, sh, t, s, call, mv);
      if eff.next.Some? {
        ReleaseComesCloser(sh, s, call, mv);
        ReleaseAllReturns(st, eff.shared, t, s, eff.next.value);
        MeetsLater(Outcome(st, t, s, eff), t, ReleaseRank(eff.shared.mem, eff.next.value), fuel, Gone(t));
      }
    }
    var first := ReleaseMoves(sh, s, call, held);
    ByCall(st, sh, t, s, call, first, fuel, Gone(t));
  }

  /** What a call waits for: Lock for another owner, and Lock and Unlock for a ReleaseAll of their session. */
  predicate Waits(st: State, t: nat)
    requires Valid(st) && t in st.threads
  {
    var Thread(s, call) := st.threads[t];
    || (call.LockCall? && !call.lock.LockList? && OwnedByOther(st.shared.mem, s, call.name))
    || ((call.LockCall? || call.UnlockCall?) && MutexHeld(st, s))
  }

  /** From every state, reached in whatever way: a call that waits for nobody returns if it runs alone. */
  lemma ReturnsAlone(st: State, t: nat)
    requires Valid(st) && t in st.threads && !Waits(st, t)
    ensures exists fuel :: Reaches(st, t, fuel, Gone(t))
  {
    var Thread(s, call) := st.threads[t];
    var rest := State(st.shared, st.threads - {t});
    assert st == During(rest, st.shared, t, s, call);
    if !call.ReleaseCall? {
      MutexAlone(rest, st.shared, t, s, call);
    }
    match call
    case LockCall(name, at) =>
      if at.LockList? { ListReturns(rest, st.shared, t, s, call); } else { LockReturns(rest, st.shared, t, s, name, at); }
    case UnlockCall(name, at) =>
      if at.UnlockUnlist? { ListReturns(rest, st.shared, t, s, call); } else { UnlockReturns(rest, st.shared, t, s, name, at); }
    case ReleaseCall(_, _, _, _) => ReleaseAllReturns(rest, st.shared, t, s, call);
    case StateCall(name, found) => StateReturns(rest, st.shared, t, s, name, found);
  }

  /** Nothing has changed, and giving up now answers that the time is over. */
  ghost predicate MayGiveUp(st: State, t: nat, s: SessionId, name: string, st': State) {
    && Valid(st) && Valid(st') && st'.shared == st.shared
    && Exec(st', t, TimeOut) == Some(Done(st, TimedOut(s, name)))
  }

  ghost function GivingUp(st: State, t: nat, s: SessionId, name: string): Goal {
    (ev, st') => MayGiveUp(st, t, s, name, st')
  }

  lemma TriedMayGiveUp(st: State, t: nat, s: SessionId, name: string, cell: nat)
    requires Valid(st) && t !in st.threads && Valid(During(st, st.shared, t, s, LockCall(name, LockLoad(cell, true))))
    ensures MayGiveUp(st, t, s, name, During(st, st.shared, t, s, LockCall(name, LockLoad(cell, true))))
  {
    StepAlone(st, st.shared, t, s, LockCall(name, LockLoad(cell, true)), TimeOut);
    assert st == State(st.shared, st.threads);
  }

  /** A Lock of a lock that another session owns looks once, changes nothing, and may then time out. */
  lemma LockOfOther(st: State, t: nat, s: SessionId, name: string)
    requires Valid(st) && t !in st.threads && OwnedByOther(st.shared.mem, s, name)
    ensures Reaches(Exec(st, t, Start(s, Lock(name))).value.state, t, 2, GivingUp(st, t, s, name))
  {
    var cell := st.shared.mem.locks[name];
    var get, load := LockCall(name, LockGet), LockCall(name, LockLoad(cell, false));
    StartIs(st, t, s, Lock(name));
    StepAlone(st, st.shared, t, s, get, Advance);
    StepAlone(st, st.shared, t, s, load, Advance);
    TriedMayGiveUp(st, t, s, name, cell);
    ByAdvance(st, st.shared, t, s, load, 0, GivingUp(st, t, s, name));
    ByAdvance(st, st.shared, t, s, get, 1, GivingUp(st, t, s, name));
  }
}
