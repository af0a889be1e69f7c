/** The single-writer coordinator: a worker that owns one database and never leaks a transaction between commands. */
module Coordinator {
  import opened Core

  /** A call into the database that may also unwind. */
  datatype Call = Done | Failed(error: Error) | Panicked

  predicate Unknown(e: Error) { e == TransactionOutcomeUnknown }

  /** An error after which it is certain what happened. */
  type Refusal = e: Error | !Unknown(e) witness Error.Schema

  /** What a statement does to a state on its own account: the state it makes, or why it declines. */
  datatype Outcome<S> = Changed(value: S) | Declined(error: Refusal)

  function CallOf<S>(o: Outcome<S>): Call {
    match o
    case Changed(_) => Done
    case Declined(e) => Failed(e)
  }

  /** Everything one database handle holds, and the state to restore while a transaction is open. */
  class Database<S(0)> {
    const writable: bool
    const calm: bool  // no file operation fails, nothing unwinds or comes late
    var data: S
    var saved: Option<S>

    constructor (initial: S, w: bool, c: bool)
      ensures data == initial && saved == None && writable == w && calm == c
    {
      data, saved, writable, calm := initial, None, w, c;
    }

    /** Whether something goes wrong here. */
    method Trouble() returns (b: bool)
      ensures calm ==> !b
    {
      b := *;
      b := b && !calm;
    }

    /** `begin_transaction`. */
    method Begin() returns (r: Result<()>)
      modifies this
      ensures data == old(data)
      ensures r.Ok? ==> writable && old(saved).None? && saved == Some(data)
      ensures r.Err? ==> saved == old(saved)
      ensures !writable ==> r == Err(ReadOnly)
      ensures writable && old(saved).Some? ==> r == Err(Transaction)
      ensures calm && writable && old(saved).None? ==> r.Ok?
    {
      if !writable { return Err(ReadOnly); }
      if saved.Some? { return Err(Transaction); }
      var trouble := Trouble();
      if trouble { return Err(Io); }
      trouble := Trouble();
      if trouble { return Err(TransactionOutcomeUnknown); }
      saved := Some(data);
      r := Ok(());
    }

    /** `commit_transaction`: past the commit point the transaction is consumed even when its sync fails. */
    method Commit() returns (r: Result<()>)
      modifies this
      ensures data == old(data)
      ensures old(saved).None? ==> r == Err(Transaction)
      ensures r.Ok? || r == Err(TransactionOutcomeUnknown) ==> saved == None
      ensures r.Err? && !Unknown(r.error) ==> saved == old(saved)
      ensures calm && old(saved).Some? ==> r.Ok?
    {
      if saved.None? { return Err(Transaction); }
      var trouble := Trouble();
      if trouble { return Err(Io); }
      saved := None;
      trouble := Trouble();
      if trouble { return Err(TransactionOutcomeUnknown); }
      r := Ok(());
    }

    /** `rollback_transaction`: the recovery state is consumed, so a failure leaves the outcome unknown. */
    method Rollback() returns (r: Result<()>)
      modifies this
      ensures old(saved).None? ==> r == Err(Transaction) && data == old(data)
      ensures saved == None
      ensures old(saved).Some? ==> (r.Ok? ==> data == old(saved).value) && (r.Err? ==> Unknown(r.error))
      ensures calm && old(saved).Some? ==> r.Ok?
    {
      if saved.None? { return Err(Transaction); }
      var before := saved.value;
      saved := None;
      var trouble := Trouble();
      if trouble {
        data := *;
        return Err(TransactionOutcomeUnknown);
      }
      data := before;
      r := Ok(());
    }

    /**
     The body of a mutation inside a transaction: it completes, fails half way, fails after an inner
     statement already rolled everything back, or unwinds.
     */
    method Mutate(effect: S -> Outcome<S>) returns (r: Call)
      modifies this
      ensures r.Done? ==> effect(old(data)) == Changed(data) && saved == old(saved)
      ensures r.Failed? ==> saved == old(saved) || (saved == None && (!Unknown(r.error) ==> data == old(saved).value))
      ensures r.Panicked? ==> saved == old(saved) || saved == None
      ensures calm ==> r == CallOf(effect(old(data)))
    {
      var trouble := Trouble();
      if trouble { data := *; return Failed(Io); }
      trouble := Trouble();
      if trouble { data := *; return Panicked; }
      trouble := Trouble();
      var outcome := if trouble then Declined(Io) else effect(data);
      if outcome.Changed? {
        data := outcome.value;
        return Done;
      }
      data := *;
      var inner: bool := *;
      if inner && saved.Some? {
        var rolled := Rollback();
        return Failed(if rolled.Ok? then outcome.error else TransactionOutcomeUnknown);
      }
      r := Failed(outcome.error);
    }

    /** `transaction`: completes and commits, or leaves no trace unless the outcome is unknown. */
    method Transact(effect: S -> Outcome<S>) returns (r: Call)
      requires saved == None
      modifies this
      ensures r.Done? ==> effect(old(data)) == Changed(data)
      ensures r.Failed? && !Unknown(r.error) ==> data == old(data)
      ensures !r.Panicked? ==> saved == None
      ensures r.Done? ==> writable
      ensures !writable ==> r == Failed(ReadOnly)
      ensures calm && writable ==> r == CallOf(effect(old(data)))
    {
      var begun := Begin();
      if begun.Err? { return Failed(begun.error); }
      r := Mutate(effect);
      if r.Done? {
        var done := Commit();
        if done.Ok? { return Done; }
        if saved.None? { return Failed(done.error); }
        var back := Rollback();
        r := Failed(if back.Ok? then done.error else TransactionOutcomeUnknown);
      } else if r.Failed? && saved.Some? {
        var back := Rollback();
        if back.Err? { r := Failed(TransactionOutcomeUnknown); }
      }
    }

    /** `atomic_mutation`: a failed statement takes the whole open transaction with it. */
    method AtomicMutation(effect: S -> Outcome<S>) returns (r: Call)
      modifies this
      ensures r.Done? ==> effect(old(data)) == Changed(data) && saved == old(saved)
      ensures r.Failed? ==> saved == None
      ensures r.Failed? && !Unknown(r.error) ==> data == if old(saved).Some? then old(saved).value else old(data)
      ensures calm && (writable || old(saved).Some?) ==> r == CallOf(effect(old(data)))
    {
      if saved.None? {
        r := Transact(effect);
        return;
      }
      r := Mutate(effect);
      if r.Failed? && saved.Some? {
        var back := Rollback();
        if back.Err? { r := Failed(TransactionOutcomeUnknown); }
      }
    }

    /** A read: nothing changes unless it unwinds. */
    method Read() returns (r: Call)
      modifies this
      ensures !r.Panicked? ==> data == old(data) && saved == old(saved)
      ensures calm ==> r.Done?
    {
      var trouble := Trouble();
      if trouble { return Failed(Io); }
      trouble := Trouble();
      if trouble { data := *; return Panicked; }
      trouble := Trouble();
      if trouble { return Failed(TransactionOutcomeUnknown); }
      r := Done;
    }

    /** `changes_since`: reads the retained log. */
    method ListChanges() returns (r: Call)
      modifies this
      ensures !r.Panicked? ==> data == old(data) && saved == old(saved)
      ensures r.Failed? ==> !Unknown(r.error)
      ensures old(saved).Some? ==> r == Failed(Transaction)
      ensures calm && old(saved).None? ==> r.Done?
    {
      if saved.Some? { return Failed(Transaction); }
      var trouble := Trouble();
      if trouble { return Failed(Io); }
      trouble := Trouble();
      if trouble { data := *; return Panicked; }
      r := Done;
    }

    /** `prune_changes` runs outside any transaction: an error may come after its checkpoint is durable. */
    method Prune(effect: S -> Outcome<S>) returns (r: Call)
      modifies this
      ensures saved == old(saved)
      ensures old(saved).Some? ==> r == Failed(Transaction) && data == old(data)
      ensures r.Done? ==> effect(old(data)) == Changed(data)
      ensures r.Failed? ==> !Unknown(r.error) && (data == old(data) || effect(old(data)) == Changed(data))
      ensures calm && old(saved).None? ==> r == CallOf(effect(old(data)))
      ensures old(saved).None? && effect(old(data)).Declined? ==> r.Panicked? || (r.Failed? && data == old(data))
    {
      if saved.Some? { return Failed(Transaction); }
      var trouble := Trouble();
      if trouble { return Failed(Io); }
      trouble := Trouble();
      if trouble { data := *; return Panicked; }
      var outcome := effect(data);
      if outcome.Declined? { return Failed(outcome.error); }
      data := outcome.value;
      trouble := Trouble();
      if trouble { return Failed(Io); }
      r := Done;
    }
  }

  // ---- ending a failed write ----

  /** `safe_rollback`: no transaction is open afterwards; true when that is certain. */
  method SafeRollback<S(0)>(db: Database<S>) returns (ok: bool)
    modifies db
    ensures ok ==> db.saved == None && db.data == if old(db.saved).Some? then old(db.saved).value else old(db.data)
    ensures db.calm || old(db.saved).None? ==> ok
  {
    if db.saved.None? { return true; }
    var call := RollbackCall(db);
    ok := call.Done?;
  }

  method RollbackCall<S(0)>(db: Database<S>) returns (r: Call)
    requires db.saved.Some?
    modifies db
    ensures r.Done? ==> db.saved == None && db.data == old(db.saved).value
    ensures db.calm ==> r.Done?
  {
    var trouble := db.Trouble();
    if trouble { return Panicked; }
    var rolled := db.Rollback();
    r := if rolled.Ok? then Done else Failed(rolled.error);
  }

  /** `finish_failed_write`: the error to report, and whether the worker may go on. */
  method FinishFailed<S(0)>(db: Database<S>, primary: Error, fatal: bool) returns (e: Error, safe: bool)
    modifies db
    ensures safe ==> e == primary && !fatal && !Unknown(e) && db.saved == None
    ensures old(db.saved).None? ==> db.data == old(db.data) && db.saved == None
    ensures !Unknown(e) ==> e == primary && db.saved == None
    ensures !safe && !fatal ==> Unknown(e)
    ensures !Unknown(e) ==> db.data == if old(db.saved).Some? then old(db.saved).value else old(db.data)
    ensures db.calm ==> e == primary && (safe <==> !fatal && !Unknown(primary)) && db.saved == None
    ensures db.calm ==> db.data == if old(db.saved).Some? then old(db.saved).value else old(db.data)
  {
    var poison := fatal || Unknown(primary);
    if db.saved.None? { return primary, !poison; }
    var ok := SafeRollback(db);
    e := if ok then primary else TransactionOutcomeUnknown;
    safe := ok && !poison;
  }

  // ---- one write ----

  /** What the caller of a write is told. */
  datatype Answer = Accepted | RolledBack | Refused(error: Error) | Unwound

  /** An answer after which nothing more may run. */
  predicate Fatal(a: Answer) { a.Unwound? || (a.Refused? && Unknown(a.error)) }

  /** The database after an answer: the write's outcome, no trace, or (only when fatal) anything. */
  ghost predicate Answers<S(!new)>(before: S, after: Outcome<S>, a: Answer, safe: bool, data: S, saved: Option<S>) {
    && (a.Accepted? ==> after == Changed(data))
    && (!a.Accepted? && !Fatal(a) ==> data == before)
    && (!Fatal(a) ==> saved == None)
    && (safe <==> !Fatal(a))
  }

  /** A failed call inside an open transaction. */
  method AnswerFailure<S(0, !new)>(db: Database<S>, r: Call, ghost before: S, ghost after: Outcome<S>)
      returns (a: Answer, safe: bool)
    requires !r.Done? && (db.saved == Some(before) || db.saved == None)
    requires r.Failed? && !Unknown(r.error) && db.saved == None ==> db.data == before
    modifies db
    ensures Answers(before, after, a, safe, db.data, db.saved) && !a.Accepted? && !a.RolledBack?
    ensures r.Failed? ==> a == Refused(r.error) || a == Refused(TransactionOutcomeUnknown)
    ensures r.Failed? && db.calm ==> a == Refused(r.error)
    ensures r.Panicked? ==> a == Unwound
    ensures db.calm ==> db.saved == None && (old(db.saved) == Some(before) ==> db.data == before)
  {
    var e;
    if r.Panicked? {
      e, safe := FinishFailed(db, Transaction, true);
      return Unwound, false;
    }
    e, safe := FinishFailed(db, r.error, false);
    a := Refused(e);
  }

  /** The end of a write whose statements succeeded: a late deadline, the commit, or its failure. */
  method CommitWrite<S(0, !new)>(db: Database<S>, ghost before: S, ghost after: Outcome<S>)
      returns (a: Answer, safe: bool)
    requires db.saved == Some(before) && after == Changed(db.data)
    modifies db
    ensures Answers(before, after, a, safe, db.data, db.saved) && !a.RolledBack?
    ensures db.calm ==> a == Accepted
  {
    var call := CommitCall(db);
    if call.Done? { return Accepted, true; }
    a, safe := AnswerFailure(db, call, before, after);
  }

  method CommitCall<S(0)>(db: Database<S>) returns (r: Call)
    requires db.saved.Some?
    modifies db
    ensures db.data == old(db.data) && (db.saved == old(db.saved) || db.saved == None)
    ensures r.Done? ==> db.saved == None
    ensures r.Failed? && !Unknown(r.error) ==> db.saved == old(db.saved)
    ensures db.calm ==> r.Done?
  {
    var trouble := db.Trouble();
    if trouble { return Failed(Io); }
    trouble := db.Trouble();
    if trouble { return Panicked; }
    var done := db.Commit();
    r := if done.Ok? then Done else Failed(done.error);
  }

  /** `begin_transaction` through `call_database`, with the answer when it does not open one. */
  method Open<S(0, !new)>(db: Database<S>, ghost after: Outcome<S>) returns (started: bool, a: Answer, safe: bool)
    requires db.saved == None
    modifies db
    ensures db.data == old(db.data)
    ensures started ==> db.saved == Some(db.data) && db.writable
    ensures !started ==> Answers(old(db.data), after, a, safe, db.data, db.saved) && !a.Accepted? && !a.RolledBack?
    ensures db.calm ==> (started <==> db.writable) && (!started ==> a == Refused(ReadOnly))
  {
    var trouble := db.Trouble();
    if trouble { return false, Refused(Io), true; }
    if !db.writable { return false, Refused(ReadOnly), true; }
    trouble := db.Trouble();
    if trouble { return false, Unwound, false; }
    var begun := db.Begin();
    if begun.Ok? { return true, Accepted, true; }
    started := false;
    var e;
    e, safe := FinishFailed(db, begun.error, Unknown(begun.error));
    a := Refused(e);
  }

  /** The answer to a write that meets no trouble but its own. */
  function Verdict<S>(writable: bool, o: Outcome<S>): Answer {
    if !writable then Refused(ReadOnly) else match o
    case Changed(_) => Accepted
    case Declined(e) => Refused(e)
  }

  /** `run_write`. */
  method RunWrite<S(0, !new)>(db: Database<S>, effect: S -> Outcome<S>) returns (a: Answer, safe: bool)
    requires db.saved == None
    modifies db
    ensures Answers(old(db.data), effect(old(db.data)), a, safe, db.data, db.saved) && !a.RolledBack?
    ensures a.Accepted? ==> db.writable
    ensures db.calm ==> a == Verdict(db.writable, effect(old(db.data)))
  {
    ghost var before := db.data;
    var started;
    started, a, safe := Open(db, effect(before));
    if !started { return; }
    var r := db.Mutate(effect);
    if r.Done? {
      a, safe := CommitWrite(db, before, effect(before));
    } else {
      a, safe := AnswerFailure(db, r, before, effect(before));
    }
  }

  // ---- a write session ----

  datatype SessionStep<!S> = SQuery(effect: S -> Outcome<S>) | SControl | SCommit | SRollback

  /** The effect of the first n queries, up to one that declines. */
  function Combined<S>(steps: seq<SessionStep<S>>, n: nat, x: S): Outcome<S>
    requires n <= |steps|
  {
    if n == 0 then Changed(x) else
    var before := Combined(steps, n - 1, x);
    if before.Changed? && steps[n - 1].SQuery? then steps[n - 1].effect(before.value) else before
  }

  /** The first n steps are queries that take effect, and the next one, if any, is not. */
  predicate QueriesUpTo<S>(steps: seq<SessionStep<S>>, n: nat, x: S) {
    && n <= |steps| && (forall k :: 0 <= k < n ==> steps[k].SQuery?) && Combined(steps, n, x).Changed?
    && (n < |steps| && steps[n].SQuery? ==> Combined(steps, n + 1, x).Declined?)
  }

  /** How a session that meets no trouble ends: by its commit, by control SQL, by a query that declines, or undone. */
  function CalmAnswer<S>(steps: seq<SessionStep<S>>, n: nat, x: S): Answer
    requires QueriesUpTo(steps, n, x)
  {
    if n == |steps| then RolledBack else match steps[n]
    case SCommit => Accepted
    case SControl => Refused(Transaction)
    case SRollback => RolledBack
    case SQuery(_) => Refused(Combined(steps, n + 1, x).error)
  }

  /**
   `serve_write_session`: served until it commits, rolls back, fails, times out or disconnects. Accepted
   means committed; then its n queries, and no others, took effect together. An explicit rollback is confirmed,
   unless rolling back itself failed.
   */
  method ServeSession<S(0, !new)>(db: Database<S>, steps: seq<SessionStep<S>>) returns (n: nat, a: Answer, safe: bool)
    requires db.saved == Some(db.data)
    modifies db
    ensures n <= |steps| && Answers(old(db.data), Combined(steps, n, old(db.data)), a, safe, db.data, db.saved)
    ensures forall k :: 0 <= k < n ==> steps[k].SQuery?
    ensures a.Accepted? ==> n < |steps| && steps[n].SCommit?
    ensures a.RolledBack? ==> n == |steps| || steps[n].SRollback?
    ensures n < |steps| && steps[n].SRollback? ==> a == RolledBack || a == Refused(TransactionOutcomeUnknown)
    ensures n < |steps| && steps[n].SControl? ==> a == Refused(Transaction) || a == Refused(TransactionOutcomeUnknown)
    ensures db.calm ==> QueriesUpTo(steps, n, old(db.data)) && a == CalmAnswer(steps, n, old(db.data))
  {
    ghost var before := db.data;
    n := 0;
    while n < |steps| && steps[n].SQuery?
      invariant n <= |steps| && db.saved == Some(before) && Combined(steps, n, before) == Changed(db.data)
      invariant forall k :: 0 <= k < n ==> steps[k].SQuery?
    {
      var trouble := db.Trouble();
      if trouble {
        a, safe := AnswerFailure(db, Failed(Io), before, Combined(steps, n, before));
        return;
      }
      var r := db.Mutate(steps[n].effect);
      if !r.Done? {
        a, safe := AnswerFailure(db, r, before, Combined(steps, n, before));
        return;
      }
      n := n + 1;
    }
    if n < |steps| && steps[n].SCommit? {
      a, safe := CommitWrite(db, before, Combined(steps, n, before));
    } else if n < |steps| && steps[n].SControl? {
      a, safe := AnswerFailure(db, Failed(Transaction), before, Combined(steps, n, before));
    } else {
      // an explicit rollback, or a dropped handle
      a, safe := AnswerRollback(db, before, Combined(steps, n, before));
    }
  }

  /** `rollback_for_response`. */
  method AnswerRollback<S(0, !new)>(db: Database<S>, ghost before: S, ghost after: Outcome<S>)
      returns (a: Answer, safe: bool)
    requires db.saved == Some(before)
    modifies db
    ensures Answers(before, after, a, safe, db.data, db.saved)
    ensures a == RolledBack || a == Refused(TransactionOutcomeUnknown)
    ensures db.calm ==> a == RolledBack
  {
    safe := SafeRollback(db);
    a := if safe then RolledBack else Refused(TransactionOutcomeUnknown);
  }

  // ---- the queue ----

  datatype Command<!S> =
    | WriteQuery(effect: S -> Outcome<S>)
    | ReadQuery
    | ControlQuery
    | Administer(effect: S -> Outcome<S>)
    | Checkpoint
    | Inform
    | Changes
    | Prune(effect: S -> Outcome<S>)
    | WriteSession(steps: seq<SessionStep<S>>)

  /** The command's outcome from a state: its whole effect when accepted; only a prune may act and still fail. */
  ghost predicate Explains<S(!new)>(c: Command<S>, a: Answer, before: S, after: S) {
    if !a.Accepted? then after == before || (c.Prune? && c.effect(before) == Changed(after))
    else match c
    case Prune(f) => f(before) == Changed(after)
    case ControlQuery => false
    case WriteQuery(f) => f(before) == Changed(after)
    case Administer(f) => f(before) == Changed(after)
    case WriteSession(steps) =>
      exists n :: 0 <= n < |steps| && steps[n].SCommit? && Combined(steps, n, before) == Changed(after)
    case _ => after == before
  }

  function AnswerOf(r: Call): Answer {
    if r.Done? then Accepted else if r.Panicked? then Unwound else Refused(r.error)
  }

  ghost predicate CalmSession<S(!new)>(writable: bool, steps: seq<SessionStep<S>>, x: S, a: Answer) {
    if writable then exists n: nat :: QueriesUpTo(steps, n, x) && a == CalmAnswer(steps, n, x)
    else a == Refused(ReadOnly)
  }

  /** The answer to a command that meets no trouble but its own. */
  ghost predicate Expected<S(!new)>(c: Command<S>, writable: bool, x: S, a: Answer) {
    match c
    case WriteQuery(f) => a == Verdict(writable, f(x))
    case Administer(f) => a == Verdict(writable, f(x))
    case Prune(f) => a == Verdict(true, f(x))
    case WriteSession(steps) => CalmSession(writable, steps, x, a)
    case ControlQuery => a == Refused(Transaction)
    case _ => a == Accepted
  }

  /** `execute_top_level`, `administrative_call`, `begin_write_session` and the calls the worker makes itself. */
  method Execute<S(0, !new)>(db: Database<S>, c: Command<S>) returns (a: Answer, keep: bool)
    requires db.saved == None
    modifies db
    ensures keep <==> !Fatal(a)
    ensures keep ==> db.saved == None && Explains(c, a, old(db.data), db.data)
    ensures c.ControlQuery? ==> a == Refused(Transaction) && keep
    ensures c.Inform? ==> a == Accepted
    ensures (c.WriteQuery? || c.WriteSession? || c.Administer?) && a.Accepted? ==> db.writable
    ensures db.calm ==> keep && Expected(c, db.writable, old(db.data), a)
  {
    match c
    case WriteQuery(effect) => a, keep := RunWrite(db, effect);
    case ReadQuery =>
      var r := db.Read();
      a := AnswerOf(r);
      keep := !Fatal(a);
    case Checkpoint =>
      var r := db.Read();
      a := AnswerOf(r);
      keep := !Fatal(a);
    case Changes =>
      var r := db.ListChanges();
      a := AnswerOf(r);
      keep := !r.Panicked?;
    case Prune(effect) =>
      var r := db.Prune(effect);
      a := AnswerOf(r);
      keep := !r.Panicked?;
    case ControlQuery => a, keep := Refused(Transaction), true;
    case Administer(effect) =>
      var r := db.Transact(effect);
      a := AnswerOf(r);
      keep := !Fatal(a);
    case Inform => a, keep := Accepted, true;
    case WriteSession(steps) => a, keep := Session(db, steps);
  }

  /** `begin_write_session`. */
  method Session<S(0, !new)>(db: Database<S>, steps: seq<SessionStep<S>>) returns (a: Answer, keep: bool)
    requires db.saved == None
    modifies db
    ensures keep <==> !Fatal(a)
    ensures keep ==> db.saved == None && Explains(WriteSession(steps), a, old(db.data), db.data)
    ensures a.Accepted? ==> db.writable
    ensures db.calm ==> CalmSession(db.writable, steps, old(db.data), a)
  {
    ghost var before := db.data;
    var started;
    started, a, keep := Open(db, Changed(db.data));
    if !started { return; }
    var trouble := db.Trouble();
    if trouble {
      // a passed deadline, or nobody left to serve
      a, keep := AnswerFailure(db, Failed(Io), before, Changed(before));
      return;
    }
    var n;
    n, a, keep := ServeSession(db, steps);
  }

  /** A run's states: one before each command and one after the last. */
  ghost predicate Trace<S(!new)>(commands: seq<Command<S>>, answers: seq<Answer>, states: seq<S>) {
    && |states| == |answers| + 1 && |answers| <= |commands|
    && forall i :: 0 <= i < |answers| ==> Explains(commands[i], answers[i], states[i], states[i + 1])
  }

  ghost predicate AllExpected<S(!new)>(commands: seq<Command<S>>, writable: bool, answers: seq<Answer>,
      states: seq<S>)
  {
    && |answers| <= |commands| && |answers| < |states|
    && forall i :: 0 <= i < |answers| ==> Expected(commands[i], writable, states[i], answers[i])
  }

  /**
   `run_worker`: commands run one after the other; whenever the next is taken no transaction is open and
   the data is the first state moved on by exactly the accepted commands; after a panic or an unknown
   outcome nothing more runs.
   */
  method RunWorker<S(0, !new)>(db: Database<S>, commands: seq<Command<S>>)
      returns (answers: seq<Answer>, ghost states: seq<S>)
    requires db.saved == None
    modifies db
    ensures |answers| <= |commands| && |answers| <= |states|
      && (forall i :: 0 <= i < |answers| - 1 ==> !Fatal(answers[i]))
    ensures |answers| < |commands| ==> answers != [] && Fatal(Last(answers))
    ensures answers == [] || !Fatal(Last(answers)) ==>
      db.saved == None && Trace(commands, answers, states) && Last(states) == db.data
    ensures answers != [] ==> Trace(commands, answers[..|answers| - 1], states[..|answers|])
    ensures states != [] && states[0] == old(db.data)
    ensures forall i :: 0 <= i < |answers| && commands[i].ControlQuery? ==> answers[i] == Refused(Transaction)
    ensures db.calm ==> |answers| == |commands| && AllExpected(commands, db.writable, answers, states)
  {
    answers, states := [], [db.data];
    for i := 0 to |commands|
      invariant |answers| == i && db.saved == None && Trace(commands, answers, states) && Last(states) == db.data
      invariant states[0] == old(db.data) && forall k :: 0 <= k < i ==> !Fatal(answers[k])
      invariant forall k :: 0 <= k < i && commands[k].ControlQuery? ==> answers[k] == Refused(Transaction)
      invariant db.calm ==> AllExpected(commands, db.writable, answers, states)
    {
      var a, keep := Execute(db, commands[i]);
      answers := answers + [a];
      assert answers[..i] + [a] == answers;
      if !keep { return; }
      states := states + [db.data];
    }
  }
}
