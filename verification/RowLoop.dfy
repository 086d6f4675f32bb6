/**
 Sending a query's rows to the client, from server/handler.go: a goroutine reads the row iterator
 and passes rows over an unbuffered channel to a loop that hands them on in batches. Every order in
 which the two can take their steps is a run of the state machine below.
 */
module RowLoop {
  import opened Wrappers
  import opened Expressions

  type Output = seq<string>
  type Batch = seq<Output>

  const ROWS_BATCH := 100

  /**
   What the handler works on: the rows of the iterator, the error it ends with instead of io.EOF,
   the conversion of a row for the wire, and the error of the k-th callback.
   */
  datatype Query = Query(
    rows: seq<Row>,
    failure: Option<string>,
    rowToSQL: Row -> Result<Output, string>,
    callback: (nat, Batch) -> Option<string>)

  /** `i` rows have been handed over. Sending and SendingEnd are blocked on a channel. */
  datatype Producer = Checking(i: nat) | Reading(i: nat) | Sending(i: nat) | SendingEnd(i: nat) | Stopped(i: nat)

  datatype Consumer = AtTop | AtSelect | HasRow(row: Row) | Returned(err: Option<string>)

  /** `r` is the batch being filled, `sent` are the batches the callback has been given. */
  datatype State = State(producer: Producer, consumer: Consumer, r: Option<Batch>, processed: bool, sent: seq<Batch>, quit: bool)

  datatype Move = Check | Fetch | Top | TakeRow | Convert | TakeEnd | Tick

  const INITIAL := State(Checking(0), AtTop, None, false, [], false)

  /** The handler calls back with a batch and goes on as `next` if that succeeds. */
  function CallBack(q: Query, s: State, batch: Batch, next: State): State {
    var after := next.(sent := s.sent + [batch]);
    match q.callback(|s.sent|, batch)
    case None => after
    case Some(e) => after.(consumer := Returned(Some(e)), quit := true)
  }

  /** The head of the loop. */
  function DoTop(q: Query, s: State): State {
    var r := if s.r.None? then [] else s.r.value;
    if |r| == ROWS_BATCH then CallBack(q, s, r, s.(r := None, processed := true))
    else s.(r := Some(r), consumer := AtSelect)
  }

  /** The row just received joins the batch. */
  function DoConvert(q: Query, s: State): State
    requires s.consumer.HasRow? && s.r.Some?
  {
    match q.rowToSQL(s.consumer.row)
    case Err(e) => s.(consumer := Returned(Some(e)), quit := true)
    case Ok(out) => s.(r := Some(s.r.value + [out]), consumer := AtTop)
  }

  /** The error channel passes the end of the rows. */
  function DoTakeEnd(q: Query, s: State): State
    requires s.producer.SendingEnd? && s.r.Some?
  {
    var t := s.(producer := Stopped(s.producer.i), quit := true);
    if q.failure.Some? then t.(consumer := Returned(q.failure))
    else if |s.r.value| == 0 && s.processed then t.(consumer := Returned(None))
    else CallBack(q, s, s.r.value, t.(consumer := Returned(None)))
  }

  /** One step of either side, or of both where they meet on a channel; None where it cannot be taken. */
  function Do(q: Query, s: State, m: Move): Option<State> {
    match m
    case Check =>
      if !s.producer.Checking? then None
      else Some(s.(producer := if s.quit then Stopped(s.producer.i) else Reading(s.producer.i)))
    case Fetch =>
      if !s.producer.Reading? then None
      else Some(s.(producer := if s.producer.i < |q.rows| then Sending(s.producer.i) else SendingEnd(s.producer.i)))
    case Top => if s.consumer != AtTop then None else Some(DoTop(q, s))
    case TakeRow =>
      if s.consumer != AtSelect || !s.producer.Sending? || s.producer.i >= |q.rows| then None
      else Some(s.(producer := Checking(s.producer.i + 1), consumer := HasRow(q.rows[s.producer.i])))
    case Convert => if !s.consumer.HasRow? || s.r.None? then None else Some(DoConvert(q, s))
    case TakeEnd => if s.consumer != AtSelect || !s.producer.SendingEnd? || s.r.None? then None else Some(DoTakeEnd(q, s))
    case Tick => if s.consumer != AtSelect then None else Some(s.(consumer := AtTop))
  }

  /** The state a run of moves leads to. */
  function Run(q: Query, moves: seq<Move>): Option<State> {
    if moves == [] then Some(INITIAL)
    else
      match Run(q, moves[..|moves| - 1])
      case None => None
      case Some(s) => Do(q, s, moves[|moves| - 1])
  }

  // ---------------------------------------------------------------- what every state keeps

  predicate AllConvert(q: Query, n: nat)
    requires n <= |q.rows|
  {
    forall i :: 0 <= i < n ==> q.rowToSQL(q.rows[i]).Ok?
  }

  /** The first rows, converted. */
  function Outputs(q: Query, n: nat): Batch
    requires n <= |q.rows| && AllConvert(q, n)
  {
    seq(n, i requires 0 <= i < n => q.rowToSQL(q.rows[i]).value)
  }

  function Concat(batches: seq<Batch>): Batch {
    if batches == [] then [] else Concat(batches[..|batches| - 1]) + batches[|batches| - 1]
  }

  /** Every batch has a hundred rows. */
  predicate AllFull(batches: seq<Batch>) {
    batches == [] || (|batches[|batches| - 1]| == ROWS_BATCH && AllFull(batches[..|batches| - 1]))
  }

  function Filled(s: State): Batch {
    if s.r.None? then [] else s.r.value
  }

  /** How many rows are in the batches: all that were handed over, but for one that is not converted yet. */
  function Taken(s: State): int {
    if s.consumer.HasRow? then s.producer.i - 1 else s.producer.i
  }

  /** While the loop runs: everything taken has been sent in full batches or waits in the next one. */
  predicate Running(q: Query, s: State) {
    && s.producer.i <= |q.rows| && 0 <= Taken(s) && AllConvert(q, Taken(s))
    && (s.consumer.HasRow? ==> s.consumer.row == q.rows[Taken(s)])
    && Concat(s.sent) + Filled(s) == Outputs(q, Taken(s))
    && AllFull(s.sent) && |Filled(s)| <= ROWS_BATCH
    && (s.processed <==> s.sent != [])
    && (s.consumer != AtTop ==> s.r.Some? && |s.r.value| < ROWS_BATCH)
    && !s.quit && !s.producer.Stopped?
    && (s.producer.Sending? ==> s.producer.i < |q.rows|)
    && (s.producer.SendingEnd? ==> s.producer.i == |q.rows|)
  }

  /** The number of callbacks for n rows: one for each hundred begun, and one where there are no rows. */
  function Callbacks(n: nat): nat {
    if n == 0 then 1 else (n + ROWS_BATCH - 1) / ROWS_BATCH
  }

  /** The client has been sent exactly the converted rows, in order, in batches of a hundred. */
  predicate Complete(q: Query, s: State) {
    && AllConvert(q, |q.rows|) && q.failure.None?
    && Concat(s.sent) == Outputs(q, |q.rows|)
    && |s.sent| == Callbacks(|q.rows|)
    && AllFull(s.sent[..|s.sent| - 1])
    && s.producer.Stopped?
  }

  /** The batches sent are full ones, and their rows the first of the iterator. */
  predicate Partial(q: Query, s: State) {
    && |Concat(s.sent)| <= |q.rows| && AllConvert(q, |Concat(s.sent)|)
    && Concat(s.sent) == Outputs(q, |Concat(s.sent)|)
    && (s.sent == [] || AllFull(s.sent[..|s.sent| - 1]))
  }

  predicate Inv(q: Query, s: State) {
    match s.consumer
    case Returned(None) => Complete(q, s)
    case Returned(Some(_)) => Partial(q, s)
    case _ => Running(q, s)
  }

  lemma ConcatMore(batches: seq<Batch>, batch: Batch)
    ensures Concat(batches + [batch]) == Concat(batches) + batch
  {
    assert (batches + [batch])[..|batches|] == batches;
  }

  lemma {:induction false} ConcatLength(batches: seq<Batch>)
    requires AllFull(batches)
    ensures |Concat(batches)| == ROWS_BATCH * |batches|
  {
    if batches != [] {
      ConcatLength(batches[..|batches| - 1]);
    }
  }

  /** Sending a batch of the rows taken keeps what has been sent a prefix of them. */
  lemma SentPrefix(q: Query, s: State, t: State)
    requires Running(q, s) && (t.sent == s.sent || t.sent == s.sent + [Filled(s)])
    ensures Partial(q, t)
  {
    ConcatMore(s.sent, Filled(s));
    var out, all := Concat(t.sent), Outputs(q, Taken(s));
    assert out == all[..|out|];
    assert t.sent != s.sent ==> t.sent[..|t.sent| - 1] == s.sent;
  }

  lemma AllFullMore(batches: seq<Batch>, batch: Batch)
    requires AllFull(batches) && |batch| == ROWS_BATCH
    ensures AllFull(batches + [batch])
  {
    assert (batches + [batch])[..|batches|] == batches;
  }

  /** A full batch moves from the rows waiting to the rows sent. */
  lemma FullBatchSent(q: Query, s: State)
    requires Running(q, s) && |Filled(s)| == ROWS_BATCH
    ensures Concat(s.sent + [Filled(s)]) == Outputs(q, Taken(s)) && AllFull(s.sent + [Filled(s)])
  {
    ConcatMore(s.sent, Filled(s));
    AllFullMore(s.sent, Filled(s));
  }

  lemma TopSends(q: Query, s: State)
    requires Running(q, s) && s.consumer == AtTop && |Filled(s)| == ROWS_BATCH
    ensures Running(q, State(s.producer, AtTop, None, true, s.sent + [Filled(s)], s.quit))
  {
    var t := State(s.producer, AtTop, None, true, s.sent + [Filled(s)], s.quit);
    FullBatchSent(q, s);
    assert Taken(t) == Taken(s) && Filled(t) == [];
    assert Concat(t.sent) + [] == Concat(t.sent);
  }

  lemma TopFills(q: Query, s: State)
    requires Running(q, s) && s.consumer == AtTop && |Filled(s)| < ROWS_BATCH
    ensures Running(q, s.(r := Some(Filled(s)), consumer := AtSelect))
  {
    var t := s.(r := Some(Filled(s)), consumer := AtSelect);
    assert Filled(t) == Filled(s) && Taken(t) == Taken(s);
  }

  /** The head of the loop either opens the batch, or hands a full one over. */
  lemma TopIs(q: Query, s: State)
    requires s.consumer == AtTop && |Filled(s)| <= ROWS_BATCH
    ensures var t := DoTop(q, s);
            if |Filled(s)| < ROWS_BATCH then t == s.(r := Some(Filled(s)), consumer := AtSelect)
            else if q.callback(|s.sent|, Filled(s)).None? then t == State(s.producer, AtTop, None, true, s.sent + [Filled(s)], s.quit)
            else t.consumer.Returned? && t.consumer.err.Some? && t.sent == s.sent + [Filled(s)] && t.producer == s.producer
  {
  }

  lemma TopKeeps(q: Query, s: State)
    requires Running(q, s) && s.consumer == AtTop
    ensures Inv(q, DoTop(q, s))
  {
    TopIs(q, s);
    var t := DoTop(q, s);
    if |Filled(s)| < ROWS_BATCH {
      TopFills(q, s);
      assert Running(q, t);
    } else if q.callback(|s.sent|, Filled(s)).None? {
      TopSends(q, s);
      assert Running(q, t);
    } else {
      SentPrefix(q, s, t);
      assert Partial(q, t);
    }
  }

  lemma ConvertKeeps(q: Query, s: State)
    requires Running(q, s) && s.consumer.HasRow?
    ensures Inv(q, DoConvert(q, s))
  {
    var t := DoConvert(q, s);
    SentPrefix(q, s, t);
    if t.consumer == AtTop {
      var i := Taken(s);
      assert AllConvert(q, i + 1);
      assert Outputs(q, i + 1) == Outputs(q, i) + [q.rowToSQL(q.rows[i]).value];
    }
  }

  lemma CallbackCount(n: nat, full: nat, rest: nat)
    requires n == ROWS_BATCH * full + rest && rest < ROWS_BATCH
    ensures Callbacks(n) == if rest == 0 && full > 0 then full else full + 1
  {
  }

  lemma TakeEndKeeps(q: Query, s: State)
    requires Running(q, s) && s.consumer == AtSelect && s.producer.SendingEnd?
    ensures Inv(q, DoTakeEnd(q, s))
  {
    var t := DoTakeEnd(q, s);
    SentPrefix(q, s, t);
    ConcatMore(s.sent, Filled(s));
    ConcatLength(s.sent);
    CallbackCount(|q.rows|, |s.sent|, |Filled(s)|);
    if t.consumer == Returned(None) {
      assert Concat(s.sent) + [] == Concat(s.sent);
      if t.sent != s.sent {
        assert t.sent[..|t.sent| - 1] == s.sent;
      }
    }
  }

  /** The steps of the producer, the passing of a row and the tick change nothing that was taken or sent. */
  lemma QuietStepKeeps(q: Query, s: State, m: Move)
    requires Inv(q, s) && Do(q, s, m).Some? && m in {Check, Fetch, TakeRow, Tick}
    ensures Inv(q, Do(q, s, m).value)
  {
    var t := Do(q, s, m).value;
    assert Filled(t) == Filled(s) && t.sent == s.sent;
    if !s.consumer.Returned? {
      assert Taken(t) == Taken(s);
    }
  }

  lemma StepKeeps(q: Query, s: State, m: Move)
    requires Inv(q, s) && Do(q, s, m).Some?
    ensures Inv(q, Do(q, s, m).value)
  {
    match m
    case Top => TopKeeps(q, s);
    case Convert => ConvertKeeps(q, s);
    case TakeEnd => TakeEndKeeps(q, s);
    case _ => QuietStepKeeps(q, s, m);
  }

  /**
   In every schedule, a handler that returns without an error has sent exactly the converted rows,
   in order, in batches of a hundred but for the last, with the callbacks that n rows call for; and
   one that returns an error has sent a prefix of them.
   */
  lemma {:induction false} EverySchedule(q: Query, moves: seq<Move>)
    requires Run(q, moves).Some?
    ensures Inv(q, Run(q, moves).value)
  {
    if moves == [] {
      assert Outputs(q, 0) == [];
    } else {
      EverySchedule(q, moves[..|moves| - 1]);
      StepKeeps(q, Run(q, moves[..|moves| - 1]).value, moves[|moves| - 1]);
    }
  }

  // ---------------------------------------------------------------- progress

  /** As long as the handler has not returned, one of the two sides can go on, and not by waiting. */
  lemma NeverStuck(q: Query, s: State)
    requires Inv(q, s) && !s.consumer.Returned?
    ensures exists m :: m != Tick && Do(q, s, m).Some?
  {
    if s.consumer == AtTop {
      assert Do(q, s, Top).Some?;
    } else if s.consumer.HasRow? {
      assert Do(q, s, Convert).Some?;
    } else if s.producer.Checking? {
      assert Do(q, s, Check).Some?;
    } else if s.producer.Reading? {
      assert Do(q, s, Fetch).Some?;
    } else if s.producer.Sending? {
      assert Do(q, s, TakeRow).Some?;
    } else {
      assert Do(q, s, TakeEnd).Some?;
    }
  }

  /** How much is left to do. */
  function Left(q: Query, s: State): int {
    8 * (|q.rows| - s.producer.i)
    + (match s.producer case Checking(_) => 3 case Reading(_) => 2 case Sending(_) => 1 case SendingEnd(_) => 1 case Stopped(_) => 0)
    + (if s.consumer == AtTop then (if |Filled(s)| == ROWS_BATCH then 2 else 1) else if s.consumer.HasRow? then 3 else 0)
  }

  /** Every step but waiting brings the handler closer to its return; waiting sets it back by one at most. */
  lemma EachStepCounts(q: Query, s: State, m: Move)
    requires Running(q, s) && !s.consumer.Returned? && Do(q, s, m).Some?
    ensures Left(q, s) >= 0
    ensures if m == Tick then Left(q, Do(q, s, m).value) <= Left(q, s) + 1 else Left(q, Do(q, s, m).value) < Left(q, s)
  {
  }

  /** A producer that waits to hand over a row after the handler has returned waits forever. */
  predicate Abandoned(s: State) {
    s.consumer.Returned? && (s.producer.Sending? || s.producer.SendingEnd?)
  }

  lemma AbandonedForever(q: Query, s: State, m: Move)
    requires Abandoned(s)
    ensures Do(q, s, m).None?
  {
  }

  // ---------------------------------------------------------------- when the producer is left behind

  /** The k-th batch of a hundred rows. */
  function FullBatch(q: Query, k: nat): Batch
    requires ROWS_BATCH * (k + 1) <= |q.rows| && AllConvert(q, ROWS_BATCH * (k + 1))
  {
    Outputs(q, ROWS_BATCH * (k + 1))[ROWS_BATCH * k..]
  }

  /** The callback fails on the k-th batch of a hundred rows. */
  predicate BatchFails(q: Query, k: int) {
    && 0 <= k && ROWS_BATCH * (k + 1) <= |q.rows| && AllConvert(q, ROWS_BATCH * (k + 1))
    && q.callback(k, FullBatch(q, k)).Some?
  }

  predicate RowFails(q: Query, i: int) {
    0 <= i < |q.rows| && q.rowToSQL(q.rows[i]).Err?
  }

  /** A row cannot be converted, or the callback fails on a full batch. */
  ghost predicate Fails(q: Query) {
    (exists i :: RowFails(q, i)) || (exists k :: BatchFails(q, k))
  }

  lemma {:induction false} ConcatAt(batches: seq<Batch>, k: nat)
    requires AllFull(batches) && k < |batches|
    ensures |Concat(batches)| == ROWS_BATCH * |batches|
    ensures batches[k] == Concat(batches)[ROWS_BATCH * k..ROWS_BATCH * (k + 1)]
  {
    var n := |batches| - 1;
    ConcatLength(batches);
    ConcatLength(batches[..n]);
    var front := Concat(batches[..n]);
    assert Concat(batches) == front + batches[n];
    if k < n {
      ConcatAt(batches[..n], k);
      assert batches[..n][k] == batches[k];
      assert Concat(batches)[ROWS_BATCH * k..ROWS_BATCH * (k + 1)] == front[ROWS_BATCH * k..ROWS_BATCH * (k + 1)];
    } else {
      assert (front + batches[n])[|front|..] == batches[n];
    }
  }

  /** The rows of a batch of a hundred are the outputs at its place. */
  lemma BatchAt(q: Query, n: nat, k: nat)
    requires n <= |q.rows| && AllConvert(q, n) && ROWS_BATCH * (k + 1) <= n
    ensures FullBatch(q, k) == Outputs(q, n)[ROWS_BATCH * k..ROWS_BATCH * (k + 1)]
  {
    assert Outputs(q, ROWS_BATCH * (k + 1)) == Outputs(q, n)[..ROWS_BATCH * (k + 1)];
  }

  lemma FilledIsBatch(q: Query, s: State)
    requires Running(q, s) && |Filled(s)| == ROWS_BATCH
    ensures ROWS_BATCH * (|s.sent| + 1) == Taken(s) && Filled(s) == FullBatch(q, |s.sent|)
  {
    ConcatLength(s.sent);
    BatchAt(q, Taken(s), |s.sent|);
    var all := Concat(s.sent) + Filled(s);
    assert all[|Concat(s.sent)|..] == Filled(s);
  }

  /** A handler that has returned has stopped its producer, or had a row or a batch that fails. */
  ghost predicate Excused(q: Query, s: State) {
    s.consumer.Returned? ==> s.producer.Stopped? || Fails(q)
  }

  lemma StepKeepsExcused(q: Query, s: State, m: Move)
    requires Inv(q, s) && Excused(q, s) && Do(q, s, m).Some?
    ensures Excused(q, Do(q, s, m).value)
  {
    if !s.consumer.Returned? {
      if m == Top && |Filled(s)| == ROWS_BATCH {
        FilledIsBatch(q, s);
        assert q.callback(|s.sent|, Filled(s)).Some? ==> BatchFails(q, |s.sent|);
      } else if m == Convert {
        assert q.rowToSQL(s.consumer.row).Err? ==> RowFails(q, Taken(s));
      }
    }
  }

  lemma {:induction false} EveryReturnExcused(q: Query, moves: seq<Move>)
    requires Run(q, moves).Some?
    ensures Inv(q, Run(q, moves).value) && Excused(q, Run(q, moves).value)
  {
    EverySchedule(q, moves);
    if moves != [] {
      EveryReturnExcused(q, moves[..|moves| - 1]);
      StepKeepsExcused(q, Run(q, moves[..|moves| - 1]).value, moves[|moves| - 1]);
    }
  }

  ghost predicate Reachable(q: Query, s: State) {
    exists moves :: Run(q, moves) == Some(s)
  }

  ghost predicate MayAbandon(q: Query) {
    exists s :: Reachable(q, s) && Abandoned(s)
  }

  lemma ReachNext(q: Query, s: State, m: Move)
    requires Reachable(q, s) && Do(q, s, m).Some?
    ensures Reachable(q, Do(q, s, m).value)
  {
    var moves :| Run(q, moves) == Some(s);
    assert (moves + [m])[..|moves|] == moves;
    assert Run(q, moves + [m]) == Do(q, s, m);
  }

  predicate NoCallbackFailed(q: Query, sent: seq<Batch>) {
    forall k :: 0 <= k < |sent| ==> q.callback(k, sent[k]).None?
  }

  /** n rows are taken, the loop is at its head, and the producer already offers what comes next. */
  predicate Ahead(q: Query, s: State, n: nat) {
    && n <= |q.rows| && Running(q, s) && s.consumer == AtTop && NoCallbackFailed(q, s.sent)
    && s.producer == if n < |q.rows| then Sending(n) else SendingEnd(n)
  }

  /** Calling back with a full batch leaves the producer behind or goes on. */
  lemma Flush(q: Query, s: State, n: nat)
    requires Reachable(q, s) && Ahead(q, s, n)
    ensures MayAbandon(q) || exists t :: Reachable(q, t) && Ahead(q, t, n) && |Filled(t)| < ROWS_BATCH
  {
    if |Filled(s)| == ROWS_BATCH {
      var t := DoTop(q, s);
      ReachNext(q, s, Top);
      TopKeeps(q, s);
      if t.consumer.Returned? {
        assert Abandoned(t);
      } else {
        assert Ahead(q, t, n) && |Filled(t)| < ROWS_BATCH;
      }
    }
  }

  /** The state after the loop has taken the row on offer and the producer has fetched the next one. */
  function Offered(q: Query, s: State, n: nat): State
    requires n < |q.rows|
  {
    s.(r := Some(Filled(s)), consumer := HasRow(q.rows[n]),
       producer := if n + 1 < |q.rows| then Sending(n + 1) else SendingEnd(n + 1))
  }

  lemma ReachOffered(q: Query, s: State, n: nat)
    requires Reachable(q, s) && Ahead(q, s, n) && |Filled(s)| < ROWS_BATCH && n < |q.rows|
    ensures Reachable(q, Offered(q, s, n))
  {
    var s1 := s.(r := Some(Filled(s)), consumer := AtSelect);
    ReachNext(q, s, Top);
    var s2 := s1.(producer := Checking(n + 1), consumer := HasRow(q.rows[n]));
    ReachNext(q, s1, TakeRow);
    var s3 := s2.(producer := Reading(n + 1));
    ReachNext(q, s2, Check);
    ReachNext(q, s3, Fetch);
  }

  lemma OfferedRuns(q: Query, s: State, n: nat)
    requires Ahead(q, s, n) && |Filled(s)| < ROWS_BATCH && n < |q.rows|
    ensures Running(q, Offered(q, s, n))
  {
    var t := Offered(q, s, n);
    assert Filled(t) == Filled(s) && Taken(t) == Taken(s) == n;
  }

  /** Taking a row while the producer fetches the next leaves the producer behind or goes on. */
  lemma TakeNext(q: Query, s: State, n: nat)
    requires Reachable(q, s) && Ahead(q, s, n) && |Filled(s)| < ROWS_BATCH && n < |q.rows|
    ensures MayAbandon(q) || exists t :: Reachable(q, t) && Ahead(q, t, n + 1)
  {
    ReachOffered(q, s, n);
    OfferedRuns(q, s, n);
    var offered := Offered(q, s, n);
    var t := DoConvert(q, offered);
    ReachNext(q, offered, Convert);
    ConvertKeeps(q, offered);
    if t.consumer.Returned? {
      assert Abandoned(t);
    } else {
      assert Ahead(q, t, n + 1);
    }
  }

  lemma {:induction false} KeepAhead(q: Query, n: nat)
    requires n <= |q.rows|
    ensures MayAbandon(q) || exists s :: Reachable(q, s) && Ahead(q, s, n) && |Filled(s)| < ROWS_BATCH
  {
    if n == 0 {
      StartAhead(q);
    } else {
      KeepAhead(q, n - 1);
      if !MayAbandon(q) {
        var s :| Reachable(q, s) && Ahead(q, s, n - 1) && |Filled(s)| < ROWS_BATCH;
        TakeNext(q, s, n - 1);
        var t :| Reachable(q, t) && Ahead(q, t, n);
        Flush(q, t, n);
      }
    }
  }

  lemma StartAhead(q: Query)
    ensures exists s :: Reachable(q, s) && Ahead(q, s, 0) && |Filled(s)| < ROWS_BATCH
  {
    assert Run(q, []) == Some(INITIAL) && Reachable(q, INITIAL);
    EverySchedule(q, []);
    ReachNext(q, INITIAL, Check);
    var s := INITIAL.(producer := Reading(0));
    ReachNext(q, s, Fetch);
    var t := INITIAL.(producer := if 0 < |q.rows| then Sending(0) else SendingEnd(0));
    assert Reachable(q, t) && Ahead(q, t, 0) && Filled(t) == [];
  }

  /** Where everything was taken and sent, no row and no batch fails. */
  lemma AllSentNoFailure(q: Query, s: State)
    requires Ahead(q, s, |q.rows|) && |Filled(s)| < ROWS_BATCH
    ensures !Fails(q)
  {
    ConcatLength(s.sent);
    forall k | 0 <= k && ROWS_BATCH * (k + 1) <= |q.rows| ensures !BatchFails(q, k) {
      ConcatAt(s.sent, k);
      BatchAt(q, |q.rows|, k);
      var from, to := ROWS_BATCH * k, ROWS_BATCH * (k + 1);
      assert (Concat(s.sent) + Filled(s))[from..to] == Concat(s.sent)[from..to];
    }
  }

  /**
   Some schedule leaves the producer blocked for ever behind a handler that has returned exactly when
   a row of the query cannot be converted or the callback fails on one of its full batches. An
   iterator that ends with an error, or a callback that fails on the last batch, never does.
   */
  lemma AbandonedIff(q: Query)
    ensures MayAbandon(q) <==> Fails(q)
  {
    if MayAbandon(q) {
      var s :| Reachable(q, s) && Abandoned(s);
      var moves :| Run(q, moves) == Some(s);
      EveryReturnExcused(q, moves);
    } else {
      KeepAhead(q, |q.rows|);
      var s :| Reachable(q, s) && Ahead(q, s, |q.rows|) && |Filled(s)| < ROWS_BATCH;
      AllSentNoFailure(q, s);
    }
  }
}
