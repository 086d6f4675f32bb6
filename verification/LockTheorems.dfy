/**
 What every interleaving of the lock protocol guarantees. The reference is an atomic lock table:
 a map from names to {Owner, Count} on which each event of the protocol acts in one step.
 */
module LockTheorems {
  import opened Wrappers
  import opened Locks

  type Table = map<string, OwnedLock>

  // ---------------------------------------------------------------- the atomic lock table

  /** The effect of one event on the atomic table; None when the table does not allow the event. */
  function Apply(tbl: Table, ev: Event): Option<Table> {
    match ev
    case Internal | TimedOut(_, _) | ReleasedAll(_, _) => Some(tbl)
    case Created(n) => if n in tbl then None else Some(tbl[n := FREE])
    case Locked(s, n) =>
      if n !in tbl then None
      else if tbl[n].owner == 0 then Some(tbl[n := OwnedLock(s, 1)])
      else if tbl[n].owner == s then Some(tbl[n := OwnedLock(s, tbl[n].count + 1)])
      else None
    case Unlocked(s, n) =>
      if n !in tbl || tbl[n].owner != s then None
      else if tbl[n].count > 1 then Some(tbl[n := OwnedLock(s, tbl[n].count - 1)])
      else Some(tbl[n := FREE])
    case Released(s, n) => if n !in tbl || tbl[n].owner != s then None else Some(tbl[n := FREE])
    case Missing(_, n) => if n in tbl then None else Some(tbl)
    case NotOwned(s, n) => if n in tbl && tbl[n].owner != s then Some(tbl) else None
    case Observed(n, state, o) =>
      var seen :=
        if n !in tbl then (LockDoesNotExist, 0)
        else if tbl[n].owner == 0 then (LockFree, 0)
        else (LockInUse, tbl[n].owner);
      if seen == (state, o) then Some(tbl) else None
  }

  function Replay(events: seq<Event>): Option<Table> {
    if events == [] then Some(map[])
    else
      match Replay(events[..|events| - 1])
      case None => None
      case Some(tbl) => Apply(tbl, events[|events| - 1])
  }

  /** The table a memory stands for. */
  function TableOf(m: Memory): Table
    requires ValidMemory(m)
  {
    map n | n in m.locks :: m.heap[m.cells[m.locks[n]]]
  }

  // ---------------------------------------------------------------- runs

  /** A run of the system: the moves of the scheduler, the states passed through, and the events. */
  datatype Run = Run(moves: seq<(nat, Move)>, states: seq<State>, events: seq<Event>)

  predicate Steps(before: State, move: (nat, Move), event: Event, after: State) {
    Valid(before) && Exec(before, move.0, move.1) == Some(Done(after, event))
  }

  predicate Possible(run: Run) {
    && |run.states| == |run.moves| + 1
    && |run.events| == |run.moves|
    && run.states[0] == INITIAL
    && forall k :: 0 <= k < |run.moves| ==> Steps(run.states[k], run.moves[k], run.events[k], run.states[k + 1])
  }

  // ---------------------------------------------------------------- refinement

  /** A successful swap acts on the record that was read, and changes the table at that name only. */
  lemma SwapActsOnWhatWasRead(m: Memory, name: string, cell: nat, curr: nat, rec: OwnedLock)
    requires ValidMemory(m) && HasCell(m, name, cell) && ValidLock(rec)
    requires CompareAndSwap(m, cell, curr, rec).Some?
    ensures var m' := CompareAndSwap(m, cell, curr, rec).value;
            && curr < |m.heap| && TableOf(m)[name] == m.heap[curr]
            && ValidMemory(m') && TableOf(m') == TableOf(m)[name := rec]
  {
    SwapGrows(m, cell, curr, rec);
    var m' := CompareAndSwap(m, cell, curr, rec).value;
    assert TableOf(m').Keys == TableOf(m)[name := rec].Keys;
    forall n | n in m.locks
      ensures TableOf(m')[n] == TableOf(m)[name := rec][n]
    {
      assert n == name || m'.cells[m.locks[n]] == m.cells[m.locks[n]];
    }
  }

  lemma CreateAddsFreeLock(m: Memory, name: string)
    requires ValidMemory(m) && name !in m.locks
    ensures ValidMemory(Create(m, name)) && TableOf(Create(m, name)) == TableOf(m)[name := FREE]
  {
    CreateGrows(m, name);
  }

  predicate Refines(sh: Shared, eff: Effect)
    requires ValidMemory(sh.mem)
  {
    ValidMemory(eff.shared.mem) && Apply(TableOf(sh.mem), eff.event) == Some(TableOf(eff.shared.mem))
  }

  /** The three swaps of the protocol, as steps of the table. */
  lemma LockSwapRefines(m: Memory, s: SessionId, name: string, cell: nat, curr: nat)
    requires ValidMemory(m) && HasCell(m, name, cell) && Read(m, curr, {0, s as nat})
    requires CompareAndSwap(m, cell, curr, LockRecord(s, m.heap[curr])).Some?
    ensures var m' := CompareAndSwap(m, cell, curr, LockRecord(s, m.heap[curr])).value;
            ValidMemory(m') && Apply(TableOf(m), Locked(s, name)) == Some(TableOf(m'))
  {
    SwapActsOnWhatWasRead(m, name, cell, curr, LockRecord(s, m.heap[curr]));
  }

  lemma UnlockSwapRefines(m: Memory, s: SessionId, name: string, cell: nat, curr: nat)
    requires ValidMemory(m) && HasCell(m, name, cell) && Read(m, curr, {s as nat})
    requires CompareAndSwap(m, cell, curr, UnlockRecord(s, m.heap[curr])).Some?
    ensures var m' := CompareAndSwap(m, cell, curr, UnlockRecord(s, m.heap[curr])).value;
            ValidMemory(m') && Apply(TableOf(m), Unlocked(s, name)) == Some(TableOf(m'))
  {
    SwapActsOnWhatWasRead(m, name, cell, curr, UnlockRecord(s, m.heap[curr]));
  }

  lemma ReleaseSwapRefines(m: Memory, s: SessionId, name: string, cell: nat, curr: nat)
    requires ValidMemory(m) && HasCell(m, name, cell) && Read(m, curr, {s as nat})
    requires CompareAndSwap(m, cell, curr, FREE).Some?
    ensures var m' := CompareAndSwap(m, cell, curr, FREE).value;
            ValidMemory(m') && Apply(TableOf(m), Released(s, name)) == Some(TableOf(m'))
  {
    SwapActsOnWhatWasRead(m, name, cell, curr, FREE);
  }

  lemma LockRefines(sh: Shared, s: SessionId, name: string, at: LockAt, mv: Move, blocked: bool)
    requires ValidMemory(sh.mem) && ValidCall(sh.mem, s, LockCall(name, at))
    requires StepLock(sh, s, name, at, mv, blocked).Some?
    ensures Refines(sh, StepLock(sh, s, name, at, mv, blocked).value)
  {
    if at.LockCreate? && name !in sh.mem.locks {
      CreateAddsFreeLock(sh.mem, name);
    } else if at.LockSwap? && sh.mem.cells[at.cell] == at.curr {
      LockSwapRefines(sh.mem, s, name, at.cell, at.curr);
    }
  }

  lemma UnlockRefines(sh: Shared, s: SessionId, name: string, at: UnlockAt, mv: Move, blocked: bool)
    requires ValidMemory(sh.mem) && ValidCall(sh.mem, s, UnlockCall(name, at))
    requires StepUnlock(sh, s, name, at, mv, blocked).Some?
    ensures Refines(sh, StepUnlock(sh, s, name, at, mv, blocked).value)
  {
    if at.UnlockSwap? && sh.mem.cells[at.cell] == at.curr {
      UnlockSwapRefines(sh.mem, s, name, at.cell, at.curr);
    }
  }

  lemma ReleaseRefines(sh: Shared, s: SessionId, call: Call, mv: Move)
    requires ValidMemory(sh.mem) && call.ReleaseCall? && ValidCall(sh.mem, s, call)
    requires StepRelease(sh, s, call, mv).Some?
    ensures Refines(sh, StepRelease(sh, s, call, mv).value)
  {
    if call.release.ReleaseSwap? && sh.mem.cells[call.release.cell] == call.release.curr {
      ReleaseSwapRefines(sh.mem, s, call.release.name, call.release.cell, call.release.curr);
    }
  }

  lemma CallRefines(sh: Shared, s: SessionId, call: Call, mv: Move, blocked: bool)
    requires ValidMemory(sh.mem) && ValidCall(sh.mem, s, call)
    requires StepCall(sh, s, call, mv, blocked).Some?
    ensures Refines(sh, StepCall(sh, s, call, mv, blocked).value)
  {
    match call
    case LockCall(name, at) => LockRefines(sh, s, name, at, mv, blocked);
    case UnlockCall(name, at) => UnlockRefines(sh, s, name, at, mv, blocked);
    case ReleaseCall(_, _, _, _) => ReleaseRefines(sh, s, call, mv);
    case StateCall(_, _) =>
  }

  /** Every step of every thread is one step of the atomic table, or leaves it as it is. */
  lemma StepRefinesTable(st: State, t: nat, mv: Move)
    requires Valid(st) && Exec(st, t, mv).Some?
    ensures var done := Exec(st, t, mv).value;
            Apply(TableOf(st.shared.mem), done.event) == Some(TableOf(done.state.shared.mem))
  {
    if t in st.threads {
      var s := st.threads[t].session;
      CallRefines(st.shared, s, st.threads[t].call, mv, MutexHeld(st, s));
    }
  }

  /** At every point of every run, the events so far replayed on the atomic table give exactly the locks in memory. */
  lemma {:induction false} RunRefinesTable(run: Run, k: nat)
    requires Possible(run) && k < |run.states|
    ensures Valid(run.states[k])
    ensures Replay(run.events[..k]) == Some(TableOf(run.states[k].shared.mem))
  {
    if k > 0 {
      RunRefinesTable(run, k - 1);
      assert Steps(run.states[k - 1], run.moves[k - 1], run.events[k - 1], run.states[k]);
      StepRefinesTable(run.states[k - 1], run.moves[k - 1].0, run.moves[k - 1].1);
      assert run.events[..k][..k - 1] == run.events[..k - 1];
    }
  }

  // ---------------------------------------------------------------- counts and ownership

  /** Locks minus unlocks of one session on one name; ReleaseAll forgets what it frees. */
  function Balance(events: seq<Event>, s: SessionId, name: string): int {
    if events == [] then 0
    else
      var b := Balance(events[..|events| - 1], s, name);
      match events[|events| - 1]
      case Locked(s', n) => if s' == s && n == name then b + 1 else b
      case Unlocked(s', n) => if s' == s && n == name then b - 1 else b
      case Released(s', n) => if s' == s && n == name then 0 else b
      case _ => b
  }

  predicate ValidTable(tbl: Table) {
    forall n :: n in tbl ==> ValidLock(tbl[n])
  }

  /** What a table records for a session: the count if it owns the lock, else nothing. */
  function Held(tbl: Table, s: SessionId, name: string): nat {
    if name in tbl && tbl[name].owner == s then tbl[name].count else 0
  }

  lemma {:induction false} ReplayCounts(events: seq<Event>, s: SessionId, name: string)
    requires Replay(events).Some?
    ensures ValidTable(Replay(events).value)
    ensures Balance(events, s, name) == Held(Replay(events).value, s, name)
  {
    if events != [] {
      ReplayCounts(events[..|events| - 1], s, name);
    }
  }

  /**
   In every run: the record of a lock has owner 0 exactly when its count is 0, and each session's
   locks minus unlocks since it acquired the lock is the count when it is the owner and 0 otherwise.
   So at most one session has an outstanding lock on a name.
   */
  lemma CountIsLocksMinusUnlocks(run: Run, k: nat, s: SessionId, name: string)
    requires Possible(run) && k < |run.states|
    ensures Valid(run.states[k])
    ensures var tbl := TableOf(run.states[k].shared.mem);
            && Balance(run.events[..k], s, name) == Held(tbl, s, name)
            && (name in tbl ==> (tbl[name].owner == 0 <==> tbl[name].count == 0))
            && (Balance(run.events[..k], s, name) > 0 ==>
                  forall s': SessionId :: s' != s ==> Balance(run.events[..k], s', name) == 0)
  {
    RunRefinesTable(run, k);
    var events := run.events[..k];
    ReplayCounts(events, s, name);
    if Balance(events, s, name) > 0 {
      forall s': SessionId | s' != s
        ensures Balance(events, s', name) == 0
      {
        ReplayCounts(events, s', name);
      }
    }
  }

  /** The session a step acts for. */
  function Actor(st: State, t: nat, mv: Move): SessionId
    requires Exec.requires(st, t, mv) && Exec(st, t, mv).Some?
  {
    if t in st.threads then st.threads[t].session else mv.session
  }

  /** The session named by an event that changes a lock or reports a ReleaseAll is the session that acts. */
  predicate NamesSession(ev: Event, s: SessionId) {
    match ev
    case Locked(s', _) => s' == s
    case Unlocked(s', _) => s' == s
    case Released(s', _) => s' == s
    case ReleasedAll(s', _) => s' == s
    case _ => true
  }

  lemma StepNamesItsSession(st: State, t: nat, mv: Move)
    requires Valid(st) && Exec(st, t, mv).Some?
    ensures NamesSession(Exec(st, t, mv).value.event, Actor(st, t, mv))
  {
  }

  lemma ApplyKeepsOthers(tbl: Table, ev: Event, s: SessionId, name: string)
    requires Apply(tbl, ev).Some? && NamesSession(ev, s)
    requires name in tbl && tbl[name].owner !in {0, s as nat}
    ensures name in Apply(tbl, ev).value && Apply(tbl, ev).value[name] == tbl[name]
  {
  }

  /** No step of another session changes a lock that is owned. */
  lemma OwnedLockUntouchedByOthers(st: State, t: nat, mv: Move, name: string)
    requires Valid(st) && Exec(st, t, mv).Some?
    requires name in TableOf(st.shared.mem)
    requires TableOf(st.shared.mem)[name].owner !in {0, Actor(st, t, mv) as nat}
    ensures var after := TableOf(Exec(st, t, mv).value.state.shared.mem);
            name in after && after[name] == TableOf(st.shared.mem)[name]
  {
    StepRefinesTable(st, t, mv);
    StepNamesItsSession(st, t, mv);
    ApplyKeepsOthers(TableOf(st.shared.mem), Exec(st, t, mv).value.event, Actor(st, t, mv), name);
  }

  // ---------------------------------------------------------------- cells and pointers over a run

  lemma StepGrowsMemory(st: State, t: nat, mv: Move)
    requires Valid(st) && Exec(st, t, mv).Some?
    ensures Extends(st.shared.mem, Exec(st, t, mv).value.state.shared.mem)
  {
    if t in st.threads {
      var s := st.threads[t].session;
      StepCallGrows(st.shared, s, st.threads[t].call, mv, MutexHeld(st, s));
    }
  }

  /** A name keeps its cell for ever, records never change, and the pointer in a cell only moves forward. */
  lemma {:induction false} MemoryOnlyGrows(run: Run, i: nat, j: nat)
    requires Possible(run) && i <= j < |run.states|
    ensures Extends(run.states[i].shared.mem, run.states[j].shared.mem)
    decreases j - i
  {
    if i < j {
      assert Steps(run.states[i], run.moves[i], run.events[i], run.states[i + 1]);
      StepGrowsMemory(run.states[i], run.moves[i].0, run.moves[i].1);
      MemoryOnlyGrows(run, i + 1, j);
    }
  }

  /**
   No ABA: if a cell holds the same pointer at two moments of a run, it held it all the time in
   between. A compare-and-swap that succeeds therefore follows its load with no change of the cell.
   */
  lemma SamePointerMeansUnchanged(run: Run, i: nat, k: nat, j: nat, cell: nat)
    requires Possible(run) && i <= k <= j < |run.states|
    requires cell < |run.states[i].shared.mem.cells| && cell < |run.states[j].shared.mem.cells|
    requires run.states[i].shared.mem.cells[cell] == run.states[j].shared.mem.cells[cell]
    ensures cell < |run.states[k].shared.mem.cells|
    ensures run.states[k].shared.mem.cells[cell] == run.states[i].shared.mem.cells[cell]
  {
    MemoryOnlyGrows(run, i, k);
    MemoryOnlyGrows(run, k, j);
  }
}
