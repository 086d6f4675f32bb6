/**
 Reentrant named locks: the lock-free protocol of sql/lock_subsystem.go together with the
 per-session lock set of sql/session.go.

 A lock name owns one cell; a cell holds a pointer to an immutable {Owner, Count} record. Every
 call loads the pointer, decides from the record, and swaps in a fresh record with
 compare-and-swap. The model interleaves these atomic steps of any number of threads. A pointer
 is an index into `heap`, and allocation always appends: the garbage collector never reuses an
 address that a thread still holds.
 */
module Locks {
  import opened Wrappers

  /** Session ID 0 is reserved as invalid, so owner 0 can mean "free". */
  type SessionId = s: nat | 0 < s < 0x1_0000_0000 witness 1

  datatype OwnedLock = OwnedLock(owner: nat, count: nat)

  const FREE := OwnedLock(0, 0)

  datatype LockState = LockDoesNotExist | LockInUse | LockFree

  /** The lock subsystem: allocated records, cells pointing to them, and the cell of each name. */
  datatype Memory = Memory(heap: seq<OwnedLock>, cells: seq<nat>, locks: map<string, nat>)

  /** What all threads share: the lock subsystem and the lock set of each session. */
  datatype Shared = Shared(mem: Memory, listed: map<SessionId, set<string>>)

  /**
   The next atomic step of a call: look the name up, create its cell, load the cell, swap it
   against the pointer `curr` that was loaded, or update the session's lock set. `tried` records
   that Lock went round its loop once, which is when it may time out.
   */
  datatype LockAt = LockGet | LockCreate | LockLoad(cell: nat, tried: bool) | LockSwap(cell: nat, curr: nat) | LockList
  datatype UnlockAt = UnlockGet | UnlockLoad(cell: nat) | UnlockSwap(cell: nat, curr: nat) | UnlockUnlist
  datatype ReleaseAt =
    | ReleaseNext
    | ReleaseGet(name: string)
    | ReleaseLoad(name: string, cell: nat)
    | ReleaseSwap(name: string, cell: nat, curr: nat)

  /**
   A running call. ReleaseAll still has the names `todo` to visit and has freed `released` locks;
   `owned0` is an auxiliary variable, the locks its session owned when it started.
   */
  datatype Call =
    | LockCall(name: string, lock: LockAt)
    | UnlockCall(name: string, unlock: UnlockAt)
    | ReleaseCall(todo: set<string>, released: nat, owned0: set<string>, release: ReleaseAt)
    | StateCall(name: string, found: Option<nat>)

  datatype Thread = Thread(session: SessionId, call: Call)

  datatype State = State(shared: Shared, threads: map<nat, Thread>)

  /** What the scheduler lets a thread do: start a call, advance it, give up, or take the next listed name. */
  datatype Move =
    | Start(session: SessionId, request: Request)
    | Advance
    | TimeOut
    | Pick(name: string)

  datatype Request = Lock(name: string) | Unlock(name: string) | ReleaseAll | GetLockState(name: string)

  /** What a step means to callers: the effect on the lock table, or the answer of a call. */
  datatype Event =
    | Internal
    | Created(name: string)
    | Locked(session: SessionId, name: string)
    | TimedOut(session: SessionId, name: string)
    | Unlocked(session: SessionId, name: string)
    | Missing(session: SessionId, name: string)
    | NotOwned(session: SessionId, name: string)
    | Released(session: SessionId, name: string)
    | ReleasedAll(session: SessionId, count: nat)
    | Observed(name: string, state: LockState, owner: nat)

  datatype Effect = Effect(shared: Shared, event: Event, next: Option<Call>)

  datatype Done = Done(state: State, event: Event)

  const INITIAL := State(Shared(Memory([], [], map[]), map[]), map[])

  // ---------------------------------------------------------------- well-formedness

  predicate ValidLock(r: OwnedLock) {
    (r.owner == 0 <==> r.count == 0) && r.owner < 0x1_0000_0000
  }

  predicate ValidMemory(m: Memory) {
    && (forall p :: 0 <= p < |m.heap| ==> ValidLock(m.heap[p]))
    && (forall c :: 0 <= c < |m.cells| ==> m.cells[c] < |m.heap|)
    && (forall n :: n in m.locks ==> m.locks[n] < |m.cells|)
    && (forall n, k :: n in m.locks && k in m.locks && m.locks[n] == m.locks[k] ==> n == k)
  }

  predicate HasCell(m: Memory, name: string, cell: nat) {
    name in m.locks && m.locks[name] == cell && cell < |m.cells|
  }

  predicate Read(m: Memory, curr: nat, owners: set<nat>) {
    curr < |m.heap| && m.heap[curr].owner in owners
  }

  /** What a call knows: its cell is the one of its name, and the record it is about to replace was free or its own. */
  predicate ValidCall(m: Memory, s: SessionId, call: Call) {
    match call
    case LockCall(name, LockLoad(cell, _)) => HasCell(m, name, cell)
    case LockCall(name, LockSwap(cell, curr)) => HasCell(m, name, cell) && Read(m, curr, {0, s as nat})
    case UnlockCall(name, UnlockLoad(cell)) => HasCell(m, name, cell)
    case UnlockCall(name, UnlockSwap(cell, curr)) => HasCell(m, name, cell) && Read(m, curr, {s as nat})
    case ReleaseCall(_, _, _, ReleaseLoad(name, cell)) => HasCell(m, name, cell)
    case ReleaseCall(_, _, _, ReleaseSwap(name, cell, curr)) => HasCell(m, name, cell) && Read(m, curr, {s as nat})
    case StateCall(name, Some(cell)) => HasCell(m, name, cell)
    case _ => true
  }

  predicate Valid(st: State) {
    && ValidMemory(st.shared.mem)
    && forall t :: t in st.threads ==> ValidCall(st.shared.mem, st.threads[t].session, st.threads[t].call)
  }

  // ---------------------------------------------------------------- the protocol

  function Listed(sh: Shared, s: SessionId): set<string> {
    if s in sh.listed then sh.listed[s] else {}
  }

  /** Compare-and-swap of a pointer to a freshly allocated record. */
  function CompareAndSwap(m: Memory, cell: nat, curr: nat, rec: OwnedLock): Option<Memory>
    requires cell < |m.cells|
  {
    if m.cells[cell] == curr then
      Some(m.(heap := m.heap + [rec], cells := m.cells[cell := |m.heap|]))
    else
      None
  }

  /** The new entry made by createLock: a new cell holding a pointer to a new free record. */
  function Create(m: Memory, name: string): Memory {
    Memory(m.heap + [FREE], m.cells + [|m.heap|], m.locks[name := |m.cells|])
  }

  function Continue(sh: Shared, call: Call): Option<Effect> {
    Some(Effect(sh, Internal, Some(call)))
  }

  function Return(sh: Shared, ev: Event): Option<Effect> {
    Some(Effect(sh, ev, None))
  }

  function LockRecord(s: SessionId, rec: OwnedLock): OwnedLock {
    if rec.owner == 0 then OwnedLock(s, 1) else OwnedLock(s, rec.count + 1)
  }

  function UnlockRecord(s: SessionId, rec: OwnedLock): OwnedLock {
    if rec.count > 1 then OwnedLock(s, rec.count - 1) else FREE
  }

  /** Lock. `blocked` says that a ReleaseAll of the same session holds the session's mutex for reading. */
  function StepLock(sh: Shared, s: SessionId, name: string, at: LockAt, mv: Move, blocked: bool): Option<Effect>
    requires ValidMemory(sh.mem) && ValidCall(sh.mem, s, LockCall(name, at))
  {
    var m := sh.mem;
    match at
    case LockGet =>
      if mv != Advance then None
      else if name in m.locks then Continue(sh, LockCall(name, LockLoad(m.locks[name], false)))
      else Continue(sh, LockCall(name, LockCreate))
    case LockCreate =>
      if mv != Advance then None
      else if name in m.locks then Continue(sh, LockCall(name, LockLoad(m.locks[name], false)))
      else
        var call := LockCall(name, LockLoad(|m.cells|, false));
        Some(Effect(sh.(mem := Create(m, name)), Created(name), Some(call)))
    case LockLoad(cell, tried) =>
      if mv == TimeOut && tried then Return(sh, TimedOut(s, name))
      else if mv != Advance then None
      else if m.heap[m.cells[cell]].owner in {0, s as nat} then
        Continue(sh, LockCall(name, LockSwap(cell, m.cells[cell])))
      else
        Continue(sh, LockCall(name, LockLoad(cell, true)))
    case LockSwap(cell, curr) =>
      if mv != Advance then None
      else
        (match CompareAndSwap(m, cell, curr, LockRecord(s, m.heap[curr]))
         case None => Continue(sh, LockCall(name, LockLoad(cell, true)))
         case Some(m') =>
           var next := if m.heap[curr].owner == 0 then Some(LockCall(name, LockList)) else None;
           Some(Effect(sh.(mem := m'), Locked(s, name), next)))
    case LockList =>
      if mv != Advance || blocked then None
      else Return(sh.(listed := sh.listed[s := Listed(sh, s) + {name}]), Internal)
  }

  function StepUnlock(sh: Shared, s: SessionId, name: string, at: UnlockAt, mv: Move, blocked: bool): Option<Effect>
    requires ValidMemory(sh.mem) && ValidCall(sh.mem, s, UnlockCall(name, at))
  {
    if mv != Advance then None else
    var m := sh.mem;
    match at
    case UnlockGet =>
      if name in m.locks then Continue(sh, UnlockCall(name, UnlockLoad(m.locks[name])))
      else Return(sh, Missing(s, name))
    case UnlockLoad(cell) =>
      if m.heap[m.cells[cell]].owner != s then Return(sh, NotOwned(s, name))
      else Continue(sh, UnlockCall(name, UnlockSwap(cell, m.cells[cell])))
    case UnlockSwap(cell, curr) =>
      var rec := UnlockRecord(s, m.heap[curr]);
      (match CompareAndSwap(m, cell, curr, rec)
       case None => Continue(sh, UnlockCall(name, UnlockLoad(cell)))
       case Some(m') =>
         var next := if rec.count == 0 then Some(UnlockCall(name, UnlockUnlist)) else None;
         Some(Effect(sh.(mem := m'), Unlocked(s, name), next)))
    case UnlockUnlist =>
      if blocked then None
      else Return(sh.(listed := sh.listed[s := Listed(sh, s) - {name}]), Internal)
  }

  function StepRelease(sh: Shared, s: SessionId, call: Call, mv: Move): Option<Effect>
    requires ValidMemory(sh.mem) && call.ReleaseCall? && ValidCall(sh.mem, s, call)
  {
    var m := sh.mem;
    match call.release
    case ReleaseNext =>
      if mv == Advance && call.todo == {} then Return(sh, ReleasedAll(s, call.released))
      else if mv.Pick? && mv.name in call.todo then
        Continue(sh, call.(todo := call.todo - {mv.name}, release := ReleaseGet(mv.name)))
      else None
    case ReleaseGet(name) =>
      if mv != Advance then None
      else if name in m.locks then Continue(sh, call.(release := ReleaseLoad(name, m.locks[name])))
      else Continue(sh, call.(release := ReleaseNext))
    case ReleaseLoad(name, cell) =>
      if mv != Advance then None
      else if m.heap[m.cells[cell]].owner != s then Continue(sh, call.(release := ReleaseNext))
      else Continue(sh, call.(release := ReleaseSwap(name, cell, m.cells[cell])))
    case ReleaseSwap(name, cell, curr) =>
      if mv != Advance then None
      else
        (match CompareAndSwap(m, cell, curr, FREE)
         case None => Continue(sh, call.(release := ReleaseLoad(name, cell)))
         case Some(m') =>
           var next := call.(released := call.released + 1, release := ReleaseNext);
           Some(Effect(sh.(mem := m'), Released(s, name), Some(next))))
  }

  function StepState(sh: Shared, s: SessionId, name: string, found: Option<nat>, mv: Move): Option<Effect>
    requires ValidMemory(sh.mem) && ValidCall(sh.mem, s, StateCall(name, found))
  {
    if mv != Advance then None else
    var m := sh.mem;
    match found
    case None =>
      if name in m.locks then Continue(sh, StateCall(name, Some(m.locks[name])))
      else Return(sh, Observed(name, LockDoesNotExist, 0))
    case Some(cell) =>
      var rec := m.heap[m.cells[cell]];
      if rec.owner == 0 then Return(sh, Observed(name, LockFree, 0))
      else Return(sh, Observed(name, LockInUse, rec.owner))
  }

  /** One step of a running call. */
  function StepCall(sh: Shared, s: SessionId, call: Call, mv: Move, blocked: bool): Option<Effect>
    requires ValidMemory(sh.mem) && ValidCall(sh.mem, s, call)
  {
    match call
    case LockCall(name, at) => StepLock(sh, s, name, at, mv, blocked)
    case UnlockCall(name, at) => StepUnlock(sh, s, name, at, mv, blocked)
    case ReleaseCall(_, _, _, _) => StepRelease(sh, s, call, mv)
    case StateCall(name, found) => StepState(sh, s, name, found, mv)
  }

  /** The names whose lock the session owns. */
  function Owned(m: Memory, s: SessionId): set<string>
    requires ValidMemory(m)
  {
    set n | n in m.locks && m.heap[m.cells[m.locks[n]]].owner == s
  }

  function FirstStep(sh: Shared, s: SessionId, request: Request): Call
    requires ValidMemory(sh.mem)
  {
    match request
    case Lock(name) => LockCall(name, LockGet)
    case Unlock(name) => UnlockCall(name, UnlockGet)
    case ReleaseAll => ReleaseCall(Listed(sh, s), 0, Owned(sh.mem, s), ReleaseNext)
    case GetLockState(name) => StateCall(name, None)
  }

  /** IterLocks holds the session's mutex for reading while ReleaseAll runs. */
  predicate MutexHeld(st: State, s: SessionId) {
    exists t :: t in st.threads && st.threads[t].session == s && st.threads[t].call.ReleaseCall?
  }

  /** One step of thread `t`; None when the scheduler cannot make this move now. */
  function Exec(st: State, t: nat, mv: Move): (r: Option<Done>)
    requires Valid(st)
    ensures r.Some? ==> Valid(r.value.state)
  {
    if t !in st.threads then
      if !mv.Start? then None
      else
        var thread := Thread(mv.session, FirstStep(st.shared, mv.session, mv.request));
        Some(Done(st.(threads := st.threads[t := thread]), Internal))
    else
      var Thread(s, call) := st.threads[t];
      match StepCall(st.shared, s, call, mv, MutexHeld(st, s))
      case None => None
      case Some(eff) =>
        StepCallGrows(st.shared, s, call, mv, MutexHeld(st, s));
        ValidCallsStable(st, eff.shared.mem);
        var threads' := match eff.next
                        case None => st.threads - {t}
                        case Some(call') => st.threads[t := Thread(s, call')];
        Some(Done(State(eff.shared, threads'), eff.event))
  }

  // ---------------------------------------------------------------- well-formedness is kept

  /** Memory only grows: records never change, a name never gets another cell. */
  predicate Extends(m: Memory, m': Memory) {
    && m.heap <= m'.heap
    && |m.cells| <= |m'.cells|
    && (forall n :: n in m.locks ==> n in m'.locks && m'.locks[n] == m.locks[n])
    && (forall c :: 0 <= c < |m.cells| ==> m.cells[c] <= m'.cells[c])
  }

  lemma SwapGrows(m: Memory, cell: nat, curr: nat, rec: OwnedLock)
    requires ValidMemory(m) && cell < |m.cells| && ValidLock(rec)
    ensures var r := CompareAndSwap(m, cell, curr, rec);
            r.Some? ==> ValidMemory(r.value) && Extends(m, r.value)
  {
  }

  lemma CreateGrows(m: Memory, name: string)
    requires ValidMemory(m) && name !in m.locks
    ensures ValidMemory(Create(m, name)) && Extends(m, Create(m, name))
  {
  }

  /** A step leaves memory well-formed and grown, and the call knowing what it needs next. */
  predicate Grown(sh: Shared, s: SessionId, eff: Effect) {
    && ValidMemory(eff.shared.mem) && Extends(sh.mem, eff.shared.mem)
    && (eff.next.Some? ==> ValidCall(eff.shared.mem, s, eff.next.value))
  }

  lemma StepLockGrows(sh: Shared, s: SessionId, name: string, at: LockAt, mv: Move, blocked: bool)
    requires ValidMemory(sh.mem) && ValidCall(sh.mem, s, LockCall(name, at))
    requires StepLock(sh, s, name, at, mv, blocked).Some?
    ensures Grown(sh, s, StepLock(sh, s, name, at, mv, blocked).value)
  {
    if at.LockCreate? && name !in sh.mem.locks {
      CreateGrows(sh.mem, name);
    } else if at.LockSwap? {
      SwapGrows(sh.mem, at.cell, at.curr, LockRecord(s, sh.mem.heap[at.curr]));
    }
  }

  lemma StepUnlockGrows(sh: Shared, s: SessionId, name: string, at: UnlockAt, mv: Move, blocked: bool)
    requires ValidMemory(sh.mem) && ValidCall(sh.mem, s, UnlockCall(name, at))
    requires StepUnlock(sh, s, name, at, mv, blocked).Some?
    ensures Grown(sh, s, StepUnlock(sh, s, name, at, mv, blocked).value)
  {
    if at.UnlockSwap? {
      SwapGrows(sh.mem, at.cell, at.curr, UnlockRecord(s, sh.mem.heap[at.curr]));
    }
  }

  lemma StepReleaseGrows(sh: Shared, s: SessionId, call: Call, mv: Move)
    requires ValidMemory(sh.mem) && call.ReleaseCall? && ValidCall(sh.mem, s, call)
    requires StepRelease(sh, s, call, mv).Some?
    ensures Grown(sh, s, StepRelease(sh, s, call, mv).value)
  {
    if call.release.ReleaseSwap? {
      SwapGrows(sh.mem, call.release.cell, call.release.curr, FREE);
    }
  }

  lemma StepCallGrows(sh: Shared, s: SessionId, call: Call, mv: Move, blocked: bool)
    requires ValidMemory(sh.mem) && ValidCall(sh.mem, s, call)
    requires StepCall(sh, s, call, mv, blocked).Some?
    ensures Grown(sh, s, StepCall(sh, s, call, mv, blocked).value)
  {
    match call
    case LockCall(name, at) => StepLockGrows(sh, s, name, at, mv, blocked);
    case UnlockCall(name, at) => StepUnlockGrows(sh, s, name, at, mv, blocked);
    case ReleaseCall(_, _, _, _) => StepReleaseGrows(sh, s, call, mv);
    case StateCall(_, _) =>
  }

  lemma ValidCallStable(m: Memory, m': Memory, s: SessionId, call: Call)
    requires ValidCall(m, s, call) && Extends(m, m')
    ensures ValidCall(m', s, call)
  {
  }

  lemma ValidCallsStable(st: State, m': Memory)
    requires Valid(st) && Extends(st.shared.mem, m')
    ensures forall t :: t in st.threads ==> ValidCall(m', st.threads[t].session, st.threads[t].call)
  {
    forall t | t in st.threads
      ensures ValidCall(m', st.threads[t].session, st.threads[t].call)
    {
      ValidCallStable(st.shared.mem, m', st.threads[t].session, st.threads[t].call);
    }
  }
}
