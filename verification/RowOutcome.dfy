/**
 What the handler answers, whatever the schedule: the outcome is that of one simple loop over the
 rows, an error has one of three causes, and returning tells the row reader to stop.
 */
module RowOutcome {
  import opened Wrappers
  import opened RowLoop

  // ---------------------------------------------------------------- why the handler returns an error

  /** The batches sent are full, and the callback has accepted them all. */
  predicate Accepted(q: Query, sent: seq<Batch>) {
    AllFull(sent) && NoCallbackFailed(q, sent)
  }

  /** Every row was converted, and the iterator ended with this error. */
  predicate IteratorFailed(q: Query, s: State, e: string) {
    && q.failure == Some(e) && AllConvert(q, |q.rows|)
    && Accepted(q, s.sent) && |s.sent| == |q.rows| / ROWS_BATCH
  }

  /** Row `i` is the first that cannot be converted, and this is its error. */
  predicate ConversionFailed(q: Query, s: State, e: string, i: nat) {
    && i < |q.rows| && AllConvert(q, i) && q.rowToSQL(q.rows[i]) == Err(e)
    && Accepted(q, s.sent) && |s.sent| == i / ROWS_BATCH
  }

  /** The callback answered this error to the last batch it was given, and accepted those before. */
  predicate CallbackFailed(q: Query, s: State, e: string) {
    && s.sent != [] && q.callback(|s.sent| - 1, s.sent[|s.sent| - 1]) == Some(e)
    && Accepted(q, s.sent[..|s.sent| - 1])
  }

  ghost predicate HasCause(q: Query, s: State, e: string) {
    IteratorFailed(q, s, e) || CallbackFailed(q, s, e) || exists i :: ConversionFailed(q, s, e, i)
  }

  /** What every state has to show: an error has a cause, otherwise every batch sent was accepted; returning closes `quit`. */
  ghost predicate Explained(q: Query, s: State) {
    match s.consumer
    case Returned(Some(e)) => HasCause(q, s, e) && s.quit
    case Returned(None) => NoCallbackFailed(q, s.sent) && s.quit
    case _ => Running(q, s) && NoCallbackFailed(q, s.sent)
  }

  /** How many batches are full: as many hundreds as rows were taken, but for one that waits. */
  lemma SentCount(q: Query, s: State)
    requires Running(q, s) && |Filled(s)| < ROWS_BATCH
    ensures |s.sent| == Taken(s) / ROWS_BATCH
  {
    ConcatLength(s.sent);
    assert Taken(s) == ROWS_BATCH * |s.sent| + |Filled(s)|;
  }

  lemma AcceptedMore(q: Query, sent: seq<Batch>, batch: Batch)
    requires NoCallbackFailed(q, sent) && q.callback(|sent|, batch).None?
    ensures NoCallbackFailed(q, sent + [batch])
  {
  }

  lemma LastFailed(q: Query, s: State, t: State, batch: Batch, e: string)
    requires AllFull(s.sent) && NoCallbackFailed(q, s.sent) && t.sent == s.sent + [batch] && q.callback(|s.sent|, batch) == Some(e)
    ensures CallbackFailed(q, t, e)
  {
    assert t.sent[..|t.sent| - 1] == s.sent;
  }

  lemma TopExplained(q: Query, s: State)
    requires Running(q, s) && NoCallbackFailed(q, s.sent) && s.consumer == AtTop
    ensures Explained(q, DoTop(q, s))
  {
    var t := DoTop(q, s);
    TopKeeps(q, s);
    if |Filled(s)| == ROWS_BATCH {
      match q.callback(|s.sent|, Filled(s))
      case None => AcceptedMore(q, s.sent, Filled(s));
      case Some(e) => LastFailed(q, s, t, Filled(s), e);
    }
  }

  lemma ConvertExplained(q: Query, s: State)
    requires Running(q, s) && NoCallbackFailed(q, s.sent) && s.consumer.HasRow?
    ensures Explained(q, DoConvert(q, s))
  {
    var t := DoConvert(q, s);
    ConvertKeeps(q, s);
    if t.consumer.Returned? {
      SentCount(q, s);
      assert ConversionFailed(q, t, t.consumer.err.value, Taken(s));
    }
  }

  lemma TakeEndExplained(q: Query, s: State)
    requires Running(q, s) && NoCallbackFailed(q, s.sent) && s.consumer == AtSelect && s.producer.SendingEnd?
    ensures Explained(q, DoTakeEnd(q, s))
  {
    var t := DoTakeEnd(q, s);
    if q.failure.Some? {
      SentCount(q, s);
      assert IteratorFailed(q, t, q.failure.value);
    } else if t.sent != s.sent {
      match q.callback(|s.sent|, Filled(s))
      case None => AcceptedMore(q, s.sent, Filled(s));
      case Some(e) => LastFailed(q, s, t, Filled(s), e);
    }
  }

  lemma QuietExplained(q: Query, s: State, m: Move)
    requires Inv(q, s) && Explained(q, s) && Do(q, s, m).Some? && m in {Check, Fetch, TakeRow, Tick}
    ensures Explained(q, Do(q, s, m).value)
  {
    var t := Do(q, s, m).value;
    QuietStepKeeps(q, s, m);
    assert t.sent == s.sent && t.quit == s.quit;
    if s.consumer.Returned? {
      assert t.consumer == s.consumer;
      if s.consumer.err.Some? {
        CauseStays(q, s, t, s.consumer.err.value);
      }
    }
  }

  lemma CauseStays(q: Query, s: State, t: State, e: string)
    requires HasCause(q, s, e) && t.sent == s.sent
    ensures HasCause(q, t, e)
  {
    if i: nat :| ConversionFailed(q, s, e, i) {
      assert ConversionFailed(q, t, e, i);
    }
  }

  lemma StepExplained(q: Query, s: State, m: Move)
    requires Inv(q, s) && Explained(q, s) && Do(q, s, m).Some?
    ensures Explained(q, Do(q, s, m).value)
  {
    match m
    case Top => TopExplained(q, s);
    case Convert => ConvertExplained(q, s);
    case TakeEnd => TakeEndExplained(q, s);
    case _ => QuietExplained(q, s, m);
  }

  /**
   In every schedule, a handler that returns an error has one of three causes: the iterator ended with
   it, it is the conversion error of the first row that has one, or the callback answered it to the
   last batch. In each case the callback accepted every batch before, and all full batches of the rows
   up to there were sent.
   */
  lemma {:induction false} EveryErrorHasACause(q: Query, moves: seq<Move>)
    requires Run(q, moves).Some?
    ensures Explained(q, Run(q, moves).value)
  {
    EverySchedule(q, moves);
    if moves != [] {
      EverySchedule(q, moves[..|moves| - 1]);
      EveryErrorHasACause(q, moves[..|moves| - 1]);
      StepExplained(q, Run(q, moves[..|moves| - 1]).value, moves[|moves| - 1]);
    }
  }

  /** A query in which nothing fails returns without an error in every schedule that returns. */
  lemma NothingFailsNoError(q: Query, moves: seq<Move>)
    requires Run(q, moves).Some? && Run(q, moves).value.consumer.Returned?
    requires q.failure.None? && AllConvert(q, |q.rows|) && forall k, batch :: q.callback(k, batch).None?
    ensures Run(q, moves).value.consumer == Returned(None)
  {
    EveryErrorHasACause(q, moves);
  }

  /** Once the handler has returned, a producer that checks stops: it reads no further row. */
  lemma ReturnStopsProducer(q: Query, moves: seq<Move>)
    requires Run(q, moves).Some? && Run(q, moves).value.consumer.Returned? && Run(q, moves).value.producer.Checking?
    ensures forall m :: Do(q, Run(q, moves).value, m).Some? ==> Do(q, Run(q, moves).value, m).value.producer.Stopped?
  {
    EveryErrorHasACause(q, moves);
  }

  // ---------------------------------------------------------------- one outcome

  datatype Outcome = Outcome(err: Option<string>, sent: seq<Batch>)

  /** The handler without goroutines: the rest of the rows, one after the other. */
  function Sequential(q: Query, i: nat, batch: Batch, sent: seq<Batch>): Outcome
    requires i <= |q.rows|
    decreases |q.rows| - i, |batch|
  {
    if |batch| == ROWS_BATCH then
      match q.callback(|sent|, batch)
      case Some(e) => Outcome(Some(e), sent + [batch])
      case None => Sequential(q, i, [], sent + [batch])
    else if i < |q.rows| then
      match q.rowToSQL(q.rows[i])
      case Err(e) => Outcome(Some(e), sent)
      case Ok(out) => Sequential(q, i + 1, batch + [out], sent)
    else if q.failure.Some? then Outcome(q.failure, sent)
    else if batch == [] && sent != [] then Outcome(None, sent)
    else Outcome(q.callback(|sent|, batch), sent + [batch])
  }

  /** What is still to come leads to the outcome, or it is there. */
  predicate Heading(q: Query, s: State, outcome: Outcome) {
    if s.consumer.Returned? then Outcome(s.consumer.err, s.sent) == outcome
    else Running(q, s) && Sequential(q, Taken(s), Filled(s), s.sent) == outcome
  }

  lemma TopHeads(q: Query, s: State)
    requires Running(q, s) && s.consumer == AtTop
    ensures Heading(q, DoTop(q, s), Sequential(q, Taken(s), Filled(s), s.sent))
  {
    TopKeeps(q, s);
    var t := DoTop(q, s);
    if |Filled(s)| == ROWS_BATCH && t.consumer == AtTop {
      assert Filled(t) == [] && t.sent == s.sent + [Filled(s)] && Taken(t) == Taken(s);
    }
  }

  lemma ConvertHeads(q: Query, s: State)
    requires Running(q, s) && s.consumer.HasRow?
    ensures Heading(q, DoConvert(q, s), Sequential(q, Taken(s), Filled(s), s.sent))
  {
    ConvertKeeps(q, s);
    assert s.consumer.row == q.rows[Taken(s)];
  }

  lemma TakeEndHeads(q: Query, s: State)
    requires Running(q, s) && s.consumer == AtSelect && s.producer.SendingEnd?
    ensures Heading(q, DoTakeEnd(q, s), Sequential(q, Taken(s), Filled(s), s.sent))
  {
  }

  lemma QuietHeads(q: Query, s: State, m: Move, outcome: Outcome)
    requires Inv(q, s) && Heading(q, s, outcome) && Do(q, s, m).Some? && m in {Check, Fetch, TakeRow, Tick}
    ensures Heading(q, Do(q, s, m).value, outcome)
  {
    QuietStepKeeps(q, s, m);
    var t := Do(q, s, m).value;
    assert Filled(t) == Filled(s) && t.sent == s.sent;
    if !s.consumer.Returned? {
      assert Taken(t) == Taken(s);
    }
  }

  lemma StepHeads(q: Query, s: State, m: Move, outcome: Outcome)
    requires Inv(q, s) && Heading(q, s, outcome) && Do(q, s, m).Some?
    ensures Heading(q, Do(q, s, m).value, outcome)
  {
    match m
    case Top => TopHeads(q, s);
    case Convert => ConvertHeads(q, s);
    case TakeEnd => TakeEndHeads(q, s);
    case _ => QuietHeads(q, s, m, outcome);
  }

  /** Every schedule that returns answers what the simple loop answers, and has sent the same batches. */
  lemma {:induction false} OutcomeIsSequential(q: Query, moves: seq<Move>)
    requires Run(q, moves).Some?
    ensures Heading(q, Run(q, moves).value, Sequential(q, 0, [], []))
  {
    EverySchedule(q, moves);
    if moves != [] {
      EverySchedule(q, moves[..|moves| - 1]);
      OutcomeIsSequential(q, moves[..|moves| - 1]);
      StepHeads(q, Run(q, moves[..|moves| - 1]).value, moves[|moves| - 1], Sequential(q, 0, [], []));
    }
  }

  /** So the order in which the goroutines run decides nothing: two schedules that return agree on the error and on what was sent. */
  lemma OneOutcome(q: Query, moves: seq<Move>, moves': seq<Move>)
    requires Run(q, moves).Some? && Run(q, moves').Some?
    requires Run(q, moves).value.consumer.Returned? && Run(q, moves').value.consumer.Returned?
    ensures Run(q, moves).value.consumer == Run(q, moves').value.consumer
    ensures Run(q, moves).value.sent == Run(q, moves').value.sent
  {
    OutcomeIsSequential(q, moves);
    OutcomeIsSequential(q, moves');
  }
}
