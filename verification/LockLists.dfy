/**
 When exactly a session's lock set misses a lock that the session owns, in runs where sessions may
 make any number of lock calls at the same time.
 */
module LockLists {
  import opened Wrappers
  import opened Locks
  import opened LockTheorems
  import opened LockSessions

  /** The thread is about to add the name to the set of its session, or to take it out. */
  predicate Listing(th: Thread, s: SessionId, n: string) {
    th == Thread(s, LockCall(n, LockList))
  }

  predicate Unlisting(th: Thread, s: SessionId, n: string) {
    th == Thread(s, UnlockCall(n, UnlockUnlist))
  }

  /** A call of the session has acquired the lock and not listed it yet. */
  predicate Pending(st: State, s: SessionId, n: string) {
    exists t :: t in st.threads && Listing(st.threads[t], s, n)
  }

  // ---------------------------------------------------------------- one step of a call

  lemma CallLists(sh: Shared, s: SessionId, call: Call, mv: Move, blocked: bool, u: SessionId, n: string)
    requires ValidMemory(sh.mem) && ValidCall(sh.mem, s, call) && StepCall(sh, s, call, mv, blocked).Some?
    ensures n in Listed(StepCall(sh, s, call, mv, blocked).value.shared, u) <==>
            if u == s && call == LockCall(n, LockList) then true
            else if u == s && call == UnlockCall(n, UnlockUnlist) then false
            else n in Listed(sh, u)
  {
  }

  /** A session comes to own a lock by the swap of its own Lock call, which lists it next. */
  lemma LockAcquires(sh: Shared, s: SessionId, name: string, at: LockAt, mv: Move, blocked: bool, n: string)
    requires ValidMemory(sh.mem) && ValidCall(sh.mem, s, LockCall(name, at)) && StepLock(sh, s, name, at, mv, blocked).Some?
    ensures var eff := StepLock(sh, s, name, at, mv, blocked).value;
            && ValidMemory(eff.shared.mem)
            && (n in Owned(eff.shared.mem, s) && n !in Owned(sh.mem, s) ==> n == name && eff.next == Some(LockCall(n, LockList)))
  {
    if at.LockCreate? && name !in sh.mem.locks {
      CreateOwned(sh.mem, name, s);
    } else if at.LockSwap? && sh.mem.cells[at.cell] == at.curr {
      SwapOwned(sh.mem, name, at.cell, at.curr, LockRecord(s, sh.mem.heap[at.curr]), s);
      if sh.mem.heap[at.curr].owner == s {
        assert name in Owned(sh.mem, s);
      }
    }
  }

  lemma UnlockAcquiresNothing(sh: Shared, s: SessionId, name: string, at: UnlockAt, mv: Move, blocked: bool, n: string)
    requires ValidMemory(sh.mem) && ValidCall(sh.mem, s, UnlockCall(name, at)) && StepUnlock(sh, s, name, at, mv, blocked).Some?
    ensures var eff := StepUnlock(sh, s, name, at, mv, blocked).value;
            && ValidMemory(eff.shared.mem)
            && (n in Owned(eff.shared.mem, s) ==> n in Owned(sh.mem, s))
            && (eff.next == Some(UnlockCall(n, UnlockUnlist)) ==> n !in Owned(eff.shared.mem, s))
  {
    if at.UnlockSwap? && sh.mem.cells[at.cell] == at.curr {
      SwapOwned(sh.mem, name, at.cell, at.curr, UnlockRecord(s, sh.mem.heap[at.curr]), s);
      assert name in Owned(sh.mem, s);
    }
  }

  lemma ReleaseAcquiresNothing(sh: Shared, s: SessionId, call: Call, mv: Move, n: string)
    requires ValidMemory(sh.mem) && call.ReleaseCall? && ValidCall(sh.mem, s, call) && StepRelease(sh, s, call, mv).Some?
    ensures var eff := StepRelease(sh, s, call, mv).value;
            ValidMemory(eff.shared.mem) && (n in Owned(eff.shared.mem, s) ==> n in Owned(sh.mem, s))
  {
    var at := call.release;
    if at.ReleaseSwap? && sh.mem.cells[at.cell] == at.curr {
      SwapOwned(sh.mem, at.name, at.cell, at.curr, FREE, s);
    }
  }

  lemma CallAcquires(sh: Shared, s: SessionId, call: Call, mv: Move, blocked: bool, u: SessionId, n: string)
    requires ValidMemory(sh.mem) && ValidCall(sh.mem, s, call) && StepCall(sh, s, call, mv, blocked).Some?
    ensures var eff := StepCall(sh, s, call, mv, blocked).value;
            && ValidMemory(eff.shared.mem)
            && (n in Owned(eff.shared.mem, u) && n !in Owned(sh.mem, u) ==>
                  u == s && call.LockCall? && call.name == n && eff.next == Some(LockCall(n, LockList)))
            && (u == s && eff.next == Some(UnlockCall(n, UnlockUnlist)) ==> n !in Owned(eff.shared.mem, s))
  {
    if u != s {
      CallKeepsOthers(sh, s, call, mv, blocked, u);
    } else {
      CallAcquiresOwn(sh, s, call, mv, blocked, n);
    }
  }

  lemma CallAcquiresOwn(sh: Shared, s: SessionId, call: Call, mv: Move, blocked: bool, n: string)
    requires ValidMemory(sh.mem) && ValidCall(sh.mem, s, call) && StepCall(sh, s, call, mv, blocked).Some?
    ensures var eff := StepCall(sh, s, call, mv, blocked).value;
            && ValidMemory(eff.shared.mem)
            && (n in Owned(eff.shared.mem, s) && n !in Owned(sh.mem, s) ==>
                  call.LockCall? && call.name == n && eff.next == Some(LockCall(n, LockList)))
            && (eff.next == Some(UnlockCall(n, UnlockUnlist)) ==> n !in Owned(eff.shared.mem, s))
  {
    match call
    case LockCall(name, at) => LockAcquires(sh, s, name, at, mv, blocked, n);
    case UnlockCall(name, at) => UnlockAcquiresNothing(sh, s, name, at, mv, blocked, n);
    case ReleaseCall(_, _, _, _) => ReleaseAcquiresNothing(sh, s, call, mv, n);
    case StateCall(_, _) =>
  }

  // ---------------------------------------------------------------- one step of the system

  predicate Lists(st: State, t: nat, s: SessionId, n: string) {
    t in st.threads && Listing(st.threads[t], s, n)
  }

  predicate Unlists(st: State, t: nat, s: SessionId, n: string) {
    t in st.threads && Unlisting(st.threads[t], s, n)
  }

  /** What one step does to a name in a session's lock set, and to the session's ownership of it. */
  lemma StepLists(st: State, t: nat, mv: Move, s: SessionId, n: string)
    requires Valid(st) && Exec(st, t, mv).Some?
    ensures var st' := Exec(st, t, mv).value.state;
            n in Listed(st'.shared, s) <==> Lists(st, t, s, n) || (n in Listed(st.shared, s) && !Unlists(st, t, s, n))
  {
    if t in st.threads {
      var Thread(u, call) := st.threads[t];
      CallLists(st.shared, u, call, mv, MutexHeld(st, u), s, n);
    }
  }

  lemma StepAcquires(st: State, t: nat, mv: Move, s: SessionId, n: string)
    requires Valid(st) && Exec(st, t, mv).Some?
    ensures var st' := Exec(st, t, mv).value.state;
            n in Owned(st'.shared.mem, s) && n !in Owned(st.shared.mem, s) ==>
              && t in st.threads && st.threads[t].session == s && st.threads[t].call.LockCall? && st.threads[t].call.name == n
              && Lists(st', t, s, n)
  {
    if t in st.threads {
      var Thread(u, call) := st.threads[t];
      CallAcquires(st.shared, u, call, mv, MutexHeld(st, u), s, n);
    }
  }

  lemma StepPending(st: State, t: nat, mv: Move, s: SessionId, n: string)
    requires Valid(st) && Exec(st, t, mv).Some? && Pending(st, s, n) && !Lists(st, t, s, n)
    ensures Pending(Exec(st, t, mv).value.state, s, n)
  {
    var t' :| t' in st.threads && Listing(st.threads[t'], s, n);
    assert t' != t;
    var st' := Exec(st, t, mv).value.state;
    assert t' in st'.threads && st'.threads[t'] == st.threads[t'];
  }

  /** The session owns the lock, misses it in its lock set, and no call of it is about to list it. */
  predicate Missing(st: State, s: SessionId, n: string)
    requires Valid(st)
  {
    n in Owned(st.shared.mem, s) && n !in Listed(st.shared, s) && !Pending(st, s, n)
  }

  /** A lock that is missing was missing before, or has just been taken out of the set. */
  lemma StepMissing(st: State, t: nat, mv: Move, s: SessionId, n: string)
    requires Valid(st) && Exec(st, t, mv).Some? && Missing(Exec(st, t, mv).value.state, s, n)
    ensures n in Owned(st.shared.mem, s) && !Lists(st, t, s, n) && (Missing(st, s, n) || Unlists(st, t, s, n))
  {
    StepLists(st, t, mv, s, n);
    StepAcquires(st, t, mv, s, n);
    if Pending(st, s, n) {
      StepPending(st, t, mv, s, n);
    }
  }

  // ---------------------------------------------------------------- runs

  predicate OwnedAt(st: State, s: SessionId, n: string) {
    Valid(st) && n in Owned(st.shared.mem, s)
  }

  predicate OwnedFrom(run: Run, j: int, k: int, s: SessionId, n: string) {
    0 <= j <= k < |run.states| && forall i :: j <= i <= k ==> OwnedAt(run.states[i], s, n)
  }

  predicate NotListedFrom(run: Run, j: int, k: int, s: SessionId, n: string) {
    0 <= j <= k <= |run.moves| && k <= |run.states| && forall i :: j <= i < k ==> !Lists(run.states[i], run.moves[i].0, s, n)
  }

  /** At step j an Unlock took the name out of the set of its session, which has owned the lock all the time since and not listed it again. */
  ghost predicate LostAt(run: Run, j: int, k: int, s: SessionId, n: string) {
    && 0 <= j < k && j < |run.states| && j < |run.moves| && Unlists(run.states[j], run.moves[j].0, s, n)
    && OwnedFrom(run, j, k, s, n) && NotListedFrom(run, j, k, s, n)
  }

  ghost predicate Lost(run: Run, k: nat, s: SessionId, n: string) {
    exists j :: LostAt(run, j, k, s, n)
  }

  lemma OwnedLonger(run: Run, j: nat, k: nat, s: SessionId, n: string)
    requires 0 < k < |run.states| && OwnedFrom(run, j, k - 1, s, n) && OwnedAt(run.states[k], s, n)
    ensures OwnedFrom(run, j, k, s, n)
  {
  }

  lemma NotListedLonger(run: Run, j: nat, k: nat, s: SessionId, n: string)
    requires 0 < k <= |run.moves| && k < |run.states| && NotListedFrom(run, j, k - 1, s, n)
    requires !Lists(run.states[k - 1], run.moves[k - 1].0, s, n)
    ensures NotListedFrom(run, j, k, s, n)
  {
  }

  lemma StaysLost(run: Run, j: nat, k: nat, s: SessionId, n: string)
    requires 0 < k < |run.states| && k <= |run.moves| && LostAt(run, j, k - 1, s, n)
    requires OwnedAt(run.states[k], s, n) && !Lists(run.states[k - 1], run.moves[k - 1].0, s, n)
    ensures LostAt(run, j, k, s, n)
  {
    OwnedLonger(run, j, k, s, n);
    NotListedLonger(run, j, k, s, n);
  }

  lemma BecomesLost(run: Run, k: nat, s: SessionId, n: string)
    requires 0 < k < |run.states| && k <= |run.moves|
    requires OwnedAt(run.states[k - 1], s, n) && OwnedAt(run.states[k], s, n)
    requires Unlists(run.states[k - 1], run.moves[k - 1].0, s, n) && !Lists(run.states[k - 1], run.moves[k - 1].0, s, n)
    ensures LostAt(run, k - 1, k, s, n)
  {
  }

  lemma {:induction false} MissingWasLost(run: Run, k: nat, s: SessionId, n: string)
    requires Possible(run) && k < |run.states|
    ensures Valid(run.states[k])
    ensures Missing(run.states[k], s, n) ==> Lost(run, k, s, n)
  {
    if k > 0 {
      MissingWasLost(run, k - 1, s, n);
      var before, t, mv := run.states[k - 1], run.moves[k - 1].0, run.moves[k - 1].1;
      assert Steps(before, run.moves[k - 1], run.events[k - 1], run.states[k]);
      if Missing(run.states[k], s, n) {
        StepMissing(before, t, mv, s, n);
        if Unlists(before, t, s, n) {
          BecomesLost(run, k, s, n);
        } else {
          var j :| LostAt(run, j, k - 1, s, n);
          StaysLost(run, j, k, s, n);
        }
      }
    }
  }

  /** A name that is taken out stays out as long as it is not listed again. */
  lemma {:induction false} StaysOut(run: Run, j: nat, k: nat, s: SessionId, n: string)
    requires Possible(run) && j < k < |run.states|
    requires Unlists(run.states[j], run.moves[j].0, s, n) && NotListedFrom(run, j, k, s, n)
    ensures n !in Listed(run.states[k].shared, s)
  {
    assert Steps(run.states[k - 1], run.moves[k - 1], run.events[k - 1], run.states[k]);
    StepLists(run.states[k - 1], run.moves[k - 1].0, run.moves[k - 1].1, s, n);
    if k - 1 > j {
      assert NotListedFrom(run, j, k - 1, s, n);
      StaysOut(run, j, k - 1, s, n);
    }
  }

  /**
   In every run: when no call of the session is about to list a name, the session owns its lock and
   misses it in its lock set exactly when an Unlock took the name out of the set while the session
   owned the lock, and the session has kept the lock and not listed it since.
   */
  lemma MissingIffLost(run: Run, k: nat, s: SessionId, n: string)
    requires Possible(run) && k < |run.states| && !Pending(run.states[k], s, n)
    ensures Valid(run.states[k])
    ensures n in Owned(run.states[k].shared.mem, s) - Listed(run.states[k].shared, s) <==> Lost(run, k, s, n)
  {
    MissingWasLost(run, k, s, n);
    if Lost(run, k, s, n) {
      var j :| LostAt(run, j, k, s, n);
      StaysOut(run, j, k, s, n);
      assert OwnedAt(run.states[k], s, n);
    }
  }

  // ---------------------------------------------------------------- the condition for callers

  /** No Lock and Unlock of the same name by the session are in progress at the same time. */
  predicate NoOverlap(st: State, s: SessionId) {
    forall t, u :: t in st.threads && u in st.threads && st.threads[t].session == st.threads[u].session == s
                   && st.threads[t].call.LockCall? && st.threads[u].call.UnlockCall? ==>
                     st.threads[t].call.name != st.threads[u].call.name
  }

  predicate NeverOverlaps(run: Run, s: SessionId) {
    forall k :: 0 <= k < |run.states| ==> NoOverlap(run.states[k], s)
  }

  /** A call that is about to take a name out has freed its lock, and nobody of the session has acquired it again. */
  ghost predicate UnlistsFreed(st: State, s: SessionId) {
    Valid(st) && forall t, n :: Unlists(st, t, s, n) ==> n !in Owned(st.shared.mem, s)
  }

  lemma StepFrees(st: State, t: nat, mv: Move, s: SessionId, n: string)
    requires Valid(st) && Exec(st, t, mv).Some? && t in st.threads
    ensures var st' := Exec(st, t, mv).value.state;
            Unlists(st', t, s, n) ==> n !in Owned(st'.shared.mem, s)
  {
    var Thread(u, call) := st.threads[t];
    CallAcquires(st.shared, u, call, mv, MutexHeld(st, u), s, n);
  }

  lemma StepUnlistsFreed(st: State, t: nat, mv: Move, s: SessionId)
    requires UnlistsFreed(st, s) && NoOverlap(st, s) && Exec(st, t, mv).Some?
    ensures UnlistsFreed(Exec(st, t, mv).value.state, s)
  {
    var st' := Exec(st, t, mv).value.state;
    forall t', n | Unlists(st', t', s, n) ensures n !in Owned(st'.shared.mem, s) {
      if t' == t {
        if t in st.threads {
          StepFrees(st, t, mv, s, n);
        }
      } else {
        assert Unlists(st, t', s, n);
        StepAcquires(st, t, mv, s, n);
      }
    }
  }

  lemma {:induction false} RunUnlistsFreed(run: Run, k: nat, s: SessionId)
    requires Possible(run) && NeverOverlaps(run, s) && k < |run.states|
    ensures UnlistsFreed(run.states[k], s)
  {
    if k > 0 {
      RunUnlistsFreed(run, k - 1, s);
      assert Steps(run.states[k - 1], run.moves[k - 1], run.events[k - 1], run.states[k]);
      StepUnlistsFreed(run.states[k - 1], run.moves[k - 1].0, run.moves[k - 1].1, s);
    }
  }

  /**
   As long as a session's Lock and Unlock of the same name never overlap, and however its other calls
   do, its lock set holds every lock it owns that no call of it is about to list.
   */
  lemma NothingMissing(run: Run, k: nat, s: SessionId, n: string)
    requires Possible(run) && NeverOverlaps(run, s) && k < |run.states|
    ensures Valid(run.states[k]) && !Missing(run.states[k], s, n)
  {
    MissingWasLost(run, k, s, n);
    if Missing(run.states[k], s, n) {
      var j :| LostAt(run, j, k, s, n);
      assert OwnedAt(run.states[j], s, n);
      RunUnlistsFreed(run, j, s);
    }
  }

  // ---------------------------------------------------------------- a run that loses a lock

  const HELD := OwnedLock(7, 1)

  type Sets = map<SessionId, set<string>>

  /** The memory with one lock, "a", whose records so far are `heap`. */
  function MemOf(heap: seq<OwnedLock>): Memory {
    if heap == [] then Memory([], [], map[]) else Memory(heap, [|heap| - 1], map["a" := 0])
  }

  /** Session 7 runs calls on threads 1 and 2. */
  function Calls(first: Option<Call>, second: Option<Call>): map<nat, Thread> {
    var t1: map<nat, Thread> := if first.Some? then map[1 := Thread(7, first.value)] else map[];
    var t2: map<nat, Thread> := if second.Some? then map[2 := Thread(7, second.value)] else map[];
    t1 + t2
  }

  function Scene(heap: seq<OwnedLock>, listed: Sets, first: Option<Call>, second: Option<Call>): State {
    State(Shared(MemOf(heap), listed), Calls(first, second))
  }

  predicate Good(heap: seq<OwnedLock>, call: Option<Call>) {
    && (forall i :: 0 <= i < |heap| ==> heap[i] in {FREE, HELD})
    && ValidMemory(MemOf(heap))
    && (call.Some? ==> !call.value.ReleaseCall? && ValidCall(MemOf(heap), 7, call.value))
  }

  lemma GoodScene(heap: seq<OwnedLock>, listed: Sets, first: Option<Call>, second: Option<Call>)
    requires Good(heap, first) && Good(heap, second)
    ensures Valid(Scene(heap, listed, first, second)) && !MutexHeld(Scene(heap, listed, first, second), 7)
  {
  }

  /** The calls after a step of one of them. */
  function ThreadsAfter(threads: map<nat, Thread>, t: nat, s: SessionId, next: Option<Call>): map<nat, Thread> {
    if next.None? then threads - {t} else threads[t := Thread(s, next.value)]
  }

  lemma FirstThreads(call: Call, second: Option<Call>, next: Option<Call>)
    ensures 1 in Calls(Some(call), second) && Calls(Some(call), second)[1] == Thread(7, call)
    ensures ThreadsAfter(Calls(Some(call), second), 1, 7, next) == Calls(next, second)
  {
  }

  lemma SecondThreads(first: Option<Call>, call: Call, next: Option<Call>)
    ensures 2 in Calls(first, Some(call)) && Calls(first, Some(call))[2] == Thread(7, call)
    ensures ThreadsAfter(Calls(first, Some(call)), 2, 7, next) == Calls(first, next)
  {
  }

  lemma ExecIs(st: State, t: nat, mv: Move, eff: Effect)
    requires Valid(st) && t in st.threads
    requires StepCall(st.shared, st.threads[t].session, st.threads[t].call, mv, MutexHeld(st, st.threads[t].session)) == Some(eff)
    ensures Exec(st, t, mv) == Some(Done(State(eff.shared, ThreadsAfter(st.threads, t, st.threads[t].session, eff.next)), eff.event))
  {
  }

  /** One step of the call on the first thread, or on the second. */
  lemma FirstSteps(heap: seq<OwnedLock>, listed: Sets, call: Call, second: Option<Call>, heap': seq<OwnedLock>, listed': Sets, next: Option<Call>, ev: Event)
    requires Good(heap, Some(call)) && Good(heap, second)
    requires StepCall(Shared(MemOf(heap), listed), 7, call, Advance, false) == Some(Effect(Shared(MemOf(heap'), listed'), ev, next))
    ensures Steps(Scene(heap, listed, Some(call), second), (1, Advance), ev, Scene(heap', listed', next, second))
  {
    var st := Scene(heap, listed, Some(call), second);
    GoodScene(heap, listed, Some(call), second);
    FirstThreads(call, second, next);
    ExecIs(st, 1, Advance, Effect(Shared(MemOf(heap'), listed'), ev, next));
  }

  lemma SecondSteps(heap: seq<OwnedLock>, listed: Sets, first: Option<Call>, call: Call, heap': seq<OwnedLock>, listed': Sets, next: Option<Call>, ev: Event)
    requires Good(heap, first) && Good(heap, Some(call))
    requires StepCall(Shared(MemOf(heap), listed), 7, call, Advance, false) == Some(Effect(Shared(MemOf(heap'), listed'), ev, next))
    ensures Steps(Scene(heap, listed, first, Some(call)), (2, Advance), ev, Scene(heap', listed', first, next))
  {
    var st := Scene(heap, listed, first, Some(call));
    GoodScene(heap, listed, first, Some(call));
    SecondThreads(first, call, next);
    ExecIs(st, 2, Advance, Effect(Shared(MemOf(heap'), listed'), ev, next));
  }

  lemma FirstStarts(heap: seq<OwnedLock>, listed: Sets, request: Request, call: Call)
    requires Good(heap, None) && !request.ReleaseAll? && call == FirstStep(Shared(MemOf(heap), listed), 7, request)
    ensures Steps(Scene(heap, listed, None, None), (1, Start(7, request)), Internal, Scene(heap, listed, Some(call), None))
  {
    GoodScene(heap, listed, None, None);
    assert Calls(None, None)[1 := Thread(7, call)] == Calls(Some(call), None);
  }

  lemma SecondStarts(heap: seq<OwnedLock>, listed: Sets, first: Option<Call>, request: Request, call: Call)
    requires Good(heap, first) && !request.ReleaseAll? && call == FirstStep(Shared(MemOf(heap), listed), 7, request)
    ensures Steps(Scene(heap, listed, first, None), (2, Start(7, request)), Internal, Scene(heap, listed, first, Some(call)))
  {
    GoodScene(heap, listed, first, None);
    assert Calls(first, None)[2 := Thread(7, call)] == Calls(first, Some(call));
  }

  ghost predicate Reached(st: State) {
    exists run :: EndsIn(run, st)
  }

  predicate EndsIn(run: Run, st: State) {
    Possible(run) && run.states[|run.moves|] == st
  }

  lemma ReachedNext(st: State, move: (nat, Move), ev: Event, st': State)
    requires Reached(st) && Steps(st, move, ev, st')
    ensures Reached(st')
  {
    var run :| EndsIn(run, st);
    var longer := Run(run.moves + [move], run.states + [st'], run.events + [ev]);
    forall k | 0 <= k < |longer.moves|
      ensures Steps(longer.states[k], longer.moves[k], longer.events[k], longer.states[k + 1])
    {
      if k < |run.moves| {
        assert Steps(run.states[k], run.moves[k], run.events[k], run.states[k + 1]);
      }
    }
    assert EndsIn(longer, st');
  }

  lemma SwapMem(heap: seq<OwnedLock>, rec: OwnedLock)
    requires heap != []
    ensures CompareAndSwap(MemOf(heap), 0, |heap| - 1, rec) == Some(MemOf(heap + [rec]))
  {
    assert ([|heap| - 1])[0 := |heap|] == [|heap|];
  }

  /** A Lock of "a", which is free, from the lookup of its cell to the swap. */
  lemma LockTaken(heap: seq<OwnedLock>, listed: Sets)
    requires Good(heap, None) && heap != [] && heap[|heap| - 1] == FREE
    ensures var sh := Shared(MemOf(heap), listed);
            && Good(heap, Some(LockCall("a", LockLoad(0, false)))) && Good(heap, Some(LockCall("a", LockSwap(0, |heap| - 1))))
            && StepLock(sh, 7, "a", LockLoad(0, false), Advance, false) ==
               Some(Effect(sh, Internal, Some(LockCall("a", LockSwap(0, |heap| - 1)))))
            && StepLock(sh, 7, "a", LockSwap(0, |heap| - 1), Advance, false) ==
               Some(Effect(Shared(MemOf(heap + [HELD]), listed), Locked(7, "a"), Some(LockCall("a", LockList))))
    ensures Good(heap + [HELD], None)
  {
    SwapMem(heap, HELD);
  }

  /** An Unlock of "a", which session 7 holds once, from the lookup of its cell to the swap. */
  lemma UnlockFreed(heap: seq<OwnedLock>, listed: Sets)
    requires Good(heap, None) && heap != [] && heap[|heap| - 1] == HELD
    ensures var sh := Shared(MemOf(heap), listed);
            && Good(heap, Some(UnlockCall("a", UnlockLoad(0)))) && Good(heap, Some(UnlockCall("a", UnlockSwap(0, |heap| - 1))))
            && StepUnlock(sh, 7, "a", UnlockLoad(0), Advance, false) ==
               Some(Effect(sh, Internal, Some(UnlockCall("a", UnlockSwap(0, |heap| - 1)))))
            && StepUnlock(sh, 7, "a", UnlockSwap(0, |heap| - 1), Advance, false) ==
               Some(Effect(Shared(MemOf(heap + [FREE]), listed), Unlocked(7, "a"), Some(UnlockCall("a", UnlockUnlist))))
    ensures Good(heap + [FREE], None)
  {
    SwapMem(heap, FREE);
  }

  lemma ListedByLock(heap: seq<OwnedLock>, listed: Sets)
    requires Good(heap, None)
    ensures Good(heap, Some(LockCall("a", LockList)))
    ensures StepLock(Shared(MemOf(heap), listed), 7, "a", LockList, Advance, false) ==
            Some(Effect(Shared(MemOf(heap), listed[7 := Listed(Shared(MemOf(heap), listed), 7) + {"a"}]), Internal, None))
  {
  }

  lemma UnlistedByUnlock(heap: seq<OwnedLock>, listed: Sets)
    requires Good(heap, None)
    ensures Good(heap, Some(UnlockCall("a", UnlockUnlist)))
    ensures StepUnlock(Shared(MemOf(heap), listed), 7, "a", UnlockUnlist, Advance, false) ==
            Some(Effect(Shared(MemOf(heap), listed[7 := Listed(Shared(MemOf(heap), listed), 7) - {"a"}]), Internal, None))
  {
  }

  /** From the start, session 7 comes to own and list the lock "a". */
  lemma LocksOnce(heap: seq<OwnedLock>, listed: Sets)
    requires heap == [FREE, HELD] && listed == map[7 := {"a"}]
    ensures Reached(Scene(heap, listed, None, None)) && Good(heap, None)
  {
    var empty: Sets := map[];
    FirstScene(empty);
    LockCreates(empty);
    FirstStarts([], empty, Lock("a"), LockCall("a", LockGet));
    ReachedNext(Scene([], empty, None, None), (1, Start(7, Lock("a"))), Internal, Scene([], empty, Some(LockCall("a", LockGet)), None));
    FirstSteps([], empty, LockCall("a", LockGet), None, [], empty, Some(LockCall("a", LockCreate)), Internal);
    ReachedNext(Scene([], empty, Some(LockCall("a", LockGet)), None), (1, Advance), Internal, Scene([], empty, Some(LockCall("a", LockCreate)), None));
    FirstSteps([], empty, LockCall("a", LockCreate), None, [FREE], empty, Some(LockCall("a", LockLoad(0, false))), Created("a"));
    ReachedNext(Scene([], empty, Some(LockCall("a", LockCreate)), None), (1, Advance), Created("a"), Scene([FREE], empty, Some(LockCall("a", LockLoad(0, false))), None));
    assert {} + {"a"} == {"a"} && [FREE] + [HELD] == heap;
    FirstLocks([FREE], empty, heap, listed);
  }

  lemma FirstScene(empty: Sets)
    requires empty == map[]
    ensures Reached(Scene([], empty, None, None)) && Good([], None)
  {
    assert EndsIn(Run([], [INITIAL], []), INITIAL);
    assert Scene([], empty, None, None) == INITIAL;
  }

  /** A Lock of a name that has no cell yet. */
  lemma LockCreates(listed: Sets)
    ensures var sh := Shared(MemOf([]), listed);
            && Good([], Some(LockCall("a", LockGet))) && Good([], Some(LockCall("a", LockCreate))) && Good([FREE], None)
            && StepLock(sh, 7, "a", LockGet, Advance, false) == Some(Effect(sh, Internal, Some(LockCall("a", LockCreate))))
            && StepLock(sh, 7, "a", LockCreate, Advance, false) ==
               Some(Effect(Shared(MemOf([FREE]), listed), Created("a"), Some(LockCall("a", LockLoad(0, false)))))
  {
    assert [] + [FREE] == [FREE];
    assert Create(MemOf([]), "a") == MemOf([FREE]);
  }

  /** The rest of a Lock on the first thread. */
  lemma FirstLocks(heap: seq<OwnedLock>, listed: Sets, heap': seq<OwnedLock>, listed': Sets)
    requires Good(heap, None) && heap != [] && heap[|heap| - 1] == FREE && heap' == heap + [HELD]
    requires listed' == listed[7 := Listed(Shared(MemOf(heap'), listed), 7) + {"a"}]
    requires Reached(Scene(heap, listed, Some(LockCall("a", LockLoad(0, false))), None))
    ensures Reached(Scene(heap', listed', None, None)) && Good(heap', None)
  {
    var load, swap, list := LockCall("a", LockLoad(0, false)), LockCall("a", LockSwap(0, |heap| - 1)), LockCall("a", LockList);
    LockTaken(heap, listed);
    FirstSteps(heap, listed, load, None, heap, listed, Some(swap), Internal);
    ReachedNext(Scene(heap, listed, Some(load), None), (1, Advance), Internal, Scene(heap, listed, Some(swap), None));
    FirstSteps(heap, listed, swap, None, heap', listed, Some(list), Locked(7, "a"));
    ReachedNext(Scene(heap, listed, Some(swap), None), (1, Advance), Locked(7, "a"), Scene(heap', listed, Some(list), None));
    ListedByLock(heap', listed);
    FirstSteps(heap', listed, list, None, heap', listed', None, Internal);
    ReachedNext(Scene(heap', listed, Some(list), None), (1, Advance), Internal, Scene(heap', listed', None, None));
  }

  /** An Unlock on the first thread, up to where it takes the name out of the set. */
  lemma FirstUnlocks(heap: seq<OwnedLock>, listed: Sets, heap': seq<OwnedLock>)
    requires Good(heap, None) && heap != [] && heap[|heap| - 1] == HELD && heap' == heap + [FREE]
    requires Reached(Scene(heap, listed, None, None))
    ensures Reached(Scene(heap', listed, Some(UnlockCall("a", UnlockUnlist)), None)) && Good(heap', None)
  {
    var get, load, swap := UnlockCall("a", UnlockGet), UnlockCall("a", UnlockLoad(0)), UnlockCall("a", UnlockSwap(0, |heap| - 1));
    var unlist := UnlockCall("a", UnlockUnlist);
    FirstStarts(heap, listed, Unlock("a"), get);
    ReachedNext(Scene(heap, listed, None, None), (1, Start(7, Unlock("a"))), Internal, Scene(heap, listed, Some(get), None));
    FirstSteps(heap, listed, get, None, heap, listed, Some(load), Internal);
    ReachedNext(Scene(heap, listed, Some(get), None), (1, Advance), Internal, Scene(heap, listed, Some(load), None));
    UnlockFreed(heap, listed);
    FirstSteps(heap, listed, load, None, heap, listed, Some(swap), Internal);
    ReachedNext(Scene(heap, listed, Some(load), None), (1, Advance), Internal, Scene(heap, listed, Some(swap), None));
    FirstSteps(heap, listed, swap, None, heap', listed, Some(unlist), Unlocked(7, "a"));
    ReachedNext(Scene(heap, listed, Some(swap), None), (1, Advance), Unlocked(7, "a"), Scene(heap', listed, Some(unlist), None));
  }

  /** A whole Lock on the second thread beside a call on the first. */
  lemma SecondLocks(heap: seq<OwnedLock>, listed: Sets, first: Option<Call>, heap': seq<OwnedLock>, listed': Sets)
    requires Good(heap, first) && Good(heap + [HELD], first) && heap != [] && heap[|heap| - 1] == FREE && heap' == heap + [HELD]
    requires listed' == listed[7 := Listed(Shared(MemOf(heap'), listed), 7) + {"a"}]
    requires Reached(Scene(heap, listed, first, None))
    ensures Reached(Scene(heap', listed', first, None))
  {
    var get, load, swap := LockCall("a", LockGet), LockCall("a", LockLoad(0, false)), LockCall("a", LockSwap(0, |heap| - 1));
    var list := LockCall("a", LockList);
    SecondStarts(heap, listed, first, Lock("a"), get);
    ReachedNext(Scene(heap, listed, first, None), (2, Start(7, Lock("a"))), Internal, Scene(heap, listed, first, Some(get)));
    LockTaken(heap, listed);
    SecondSteps(heap, listed, first, get, heap, listed, Some(load), Internal);
    ReachedNext(Scene(heap, listed, first, Some(get)), (2, Advance), Internal, Scene(heap, listed, first, Some(load)));
    SecondSteps(heap, listed, first, load, heap, listed, Some(swap), Internal);
    ReachedNext(Scene(heap, listed, first, Some(load)), (2, Advance), Internal, Scene(heap, listed, first, Some(swap)));
    SecondSteps(heap, listed, first, swap, heap', listed, Some(list), Locked(7, "a"));
    ReachedNext(Scene(heap, listed, first, Some(swap)), (2, Advance), Locked(7, "a"), Scene(heap', listed, first, Some(list)));
    ListedByLock(heap', listed);
    SecondSteps(heap', listed, first, list, heap', listed', None, Internal);
    ReachedNext(Scene(heap', listed, first, Some(list)), (2, Advance), Internal, Scene(heap', listed', first, None));
  }

  /** No call runs, and session 7 owns the lock "a" and lists nothing. */
  predicate Forgotten(st: State) {
    st.threads == map[] && Valid(st) && Owned(st.shared.mem, 7) == {"a"} && Listed(st.shared, 7) == {}
  }

  /**
   Without the condition a lock is lost: session 7 locks "a" and unlocks it on one thread, and locks it
   again on another before the unlock has taken it out of the set. A ReleaseAll would then visit no name.
   */
  lemma OverlappingCallsLoseALock()
    ensures exists st :: Reached(st) && Forgotten(st)
  {
    LosesALock([FREE, HELD]);
  }

  lemma LosesALock(heap: seq<OwnedLock>)
    requires heap == [FREE, HELD]
    ensures exists st :: Reached(st) && Forgotten(st)
  {
    var listed: Sets := map[7 := {"a"}];
    var unlist := UnlockCall("a", UnlockUnlist);
    LocksOnce(heap, listed);
    FirstUnlocks(heap, listed, heap + [FREE]);
    var heap2, heap3 := heap + [FREE], heap + [FREE] + [HELD];
    UnlistedByUnlock(heap2, listed);
    LockTaken(heap2, listed);
    UnlistedByUnlock(heap3, listed);
    assert {"a"} + {"a"} == {"a"};
    assert listed[7 := {"a"} + {"a"}] == listed;
    SecondLocks(heap2, listed, Some(unlist), heap3, listed);
    var none: Sets := listed[7 := {"a"} - {"a"}];
    FirstSteps(heap3, listed, unlist, None, heap3, none, None, Internal);
    ReachedNext(Scene(heap3, listed, Some(unlist), None), (1, Advance), Internal, Scene(heap3, none, None, None));
    GoodScene(heap3, none, None, None);
    assert Calls(None, None) == map[] && {"a"} - {"a"} == {};
    assert Forgotten(Scene(heap3, none, None, None));
  }
}
