/** The three tables behind the engine, the repository calls on them, and the semantics of a
    database transaction over a recorded sequence of those calls. */
module Store {
  import opened Wrappers
  import opened Model

  /** A limit row is identified by the customer's NIK and the tenor. */
  datatype LimitKey = LimitKey(nik: string, tenor: int)

  /** Customers by NIK, remaining limits by (NIK, tenor), and the transaction log in insertion order. */
  datatype Store = Store(customers: map<string, Customer>, limits: map<LimitKey, int>, transactions: seq<Transaction>)

  /** The driver error, if any, that each step of a call reports; None means the step succeeds. */
  datatype Faults = Faults(
    begin: Option<string>,
    getCustomer: Option<string>,
    getLimit: Option<string>,
    insert: Option<string>,
    update: Option<string>,
    commit: Option<string>)

  const NoFaults: Faults := Faults(None, None, None, None, None, None)

  /** The customer with this NIK, or nothing when no row matches. */
  function GetCustomer(st: Store, nik: string): (r: Option<Customer>)
    ensures r.Some? <==> nik in st.customers
    ensures r.Some? ==> r.value == st.customers[nik]
  {
    if nik in st.customers then Some(st.customers[nik]) else None
  }

  /** The limit row for (nik, tenor), or nothing when no row matches. */
  function GetLimit(st: Store, nik: string, tenor: int): (r: Option<CustomerLimit>)
    ensures r.Some? <==> LimitKey(nik, tenor) in st.limits
    ensures r.Some? ==> r.value == CustomerLimit(nik, tenor, st.limits[LimitKey(nik, tenor)])
  {
    var key := LimitKey(nik, tenor);
    if key in st.limits then Some(CustomerLimit(nik, tenor, st.limits[key])) else None
  }

  /** Sets the amount of the (nik, tenor) row; like the UPDATE it issues, it touches no other
      row and creates none. */
  function UpdateLimit(st: Store, nik: string, tenor: int, amount: int): (r: Store)
    ensures r.customers == st.customers && r.transactions == st.transactions
    ensures r.limits.Keys == st.limits.Keys
    ensures LimitKey(nik, tenor) in st.limits ==> r.limits[LimitKey(nik, tenor)] == amount
    ensures forall k :: k in st.limits && k != LimitKey(nik, tenor) ==> r.limits[k] == st.limits[k]
  {
    var key := LimitKey(nik, tenor);
    if key in st.limits then st.(limits := st.limits[key := amount]) else st
  }

  /** Appends one record to the transaction log. */
  function InsertTransaction(st: Store, t: Transaction): (r: Store)
    ensures r.customers == st.customers && r.limits == st.limits
    ensures r.transactions == st.transactions + [t]
  {
    st.(transactions := st.transactions + [t])
  }

  /** Reading back a row just written gives the written amount; every other row reads as before. */
  lemma GetAfterUpdate(st: Store, nik: string, tenor: int, amount: int)
    requires LimitKey(nik, tenor) in st.limits
    ensures GetLimit(UpdateLimit(st, nik, tenor, amount), nik, tenor) == Some(CustomerLimit(nik, tenor, amount))
    ensures forall n: string, te: int :: LimitKey(n, te) != LimitKey(nik, tenor) ==>
      GetLimit(UpdateLimit(st, nik, tenor, amount), n, te) == GetLimit(st, n, te)
  {
  }

  /** One call against the database, in the order it is issued; writes and the transaction
      handle carry whether they succeeded. */
  datatype Op =
    | Begin(ok: bool)
    | ReadCustomer(nik: string)
    | ReadLimit(nik: string, tenor: int)
    | Insert(t: Transaction, ok: bool)
    | Update(nik: string, tenor: int, amount: int, ok: bool)
    | Commit(ok: bool)
    | Rollback

  /** The committed tables, and the working copy of an open database transaction if there is one. */
  datatype Scope = Scope(committed: Store, pending: Option<Store>)

  /** Writes go to the open transaction's working copy, or straight to the tables when none is
      open; a successful commit publishes the working copy; a failed commit or a rollback drops it. */
  function Step(sc: Scope, op: Op): Scope {
    match op
    case Begin(ok) => if ok then Scope(sc.committed, Some(sc.committed)) else sc
    case ReadCustomer(_) => sc
    case ReadLimit(_, _) => sc
    case Insert(t, ok) =>
      if !ok then sc
      else if sc.pending.Some? then sc.(pending := Some(InsertTransaction(sc.pending.value, t)))
      else sc.(committed := InsertTransaction(sc.committed, t))
    case Update(nik, tenor, amount, ok) =>
      if !ok then sc
      else if sc.pending.Some? then sc.(pending := Some(UpdateLimit(sc.pending.value, nik, tenor, amount)))
      else sc.(committed := UpdateLimit(sc.committed, nik, tenor, amount))
    case Commit(ok) =>
      if ok && sc.pending.Some? then Scope(sc.pending.value, None) else Scope(sc.committed, None)
    case Rollback => Scope(sc.committed, None)
  }

  /** The scope after the calls ops, in order. */
  function StepAll(sc: Scope, ops: seq<Op>): Scope
    decreases |ops|
  {
    if ops == [] then sc else Step(StepAll(sc, ops[..|ops| - 1]), ops[|ops| - 1])
  }

  /** The tables after the calls ops, issued against st with no transaction open. */
  function Replay(st: Store, ops: seq<Op>): Store {
    StepAll(Scope(st, None), ops).committed
  }

  lemma StepAllSnoc(sc: Scope, ops: seq<Op>, op: Op)
    ensures StepAll(sc, ops + [op]) == Step(StepAll(sc, ops), op)
  {
    assert (ops + [op])[..|ops|] == ops;
  }

  /** Inside an open transaction, reads and writes reach only the working copy. */
  lemma {:induction false} WorkStaysPending(sc: Scope, ops: seq<Op>)
    requires sc.pending.Some?
    requires forall i :: 0 <= i < |ops| ==> InScope(ops[i])
    ensures StepAll(sc, ops).committed == sc.committed && StepAll(sc, ops).pending.Some?
    decreases |ops|
  {
    if ops != [] {
      WorkStaysPending(sc, ops[..|ops| - 1]);
    }
  }

  /** Nothing done inside an open transaction reaches the tables when it ends in a rollback. */
  lemma RollbackDiscardsWork(sc: Scope, ops: seq<Op>)
    requires sc.pending.Some?
    requires forall i :: 0 <= i < |ops| ==> InScope(ops[i])
    ensures StepAll(sc, ops + [Rollback]) == Scope(sc.committed, None)
  {
    WorkStaysPending(sc, ops);
    StepAllSnoc(sc, ops, Rollback);
  }

  /** A call that neither opens nor closes a transaction. */
  predicate InScope(op: Op) {
    !op.Begin? && !op.Commit? && !op.Rollback?
  }

  lemma {:induction false} StepAllAppend(sc: Scope, a: seq<Op>, b: seq<Op>)
    ensures StepAll(sc, a + b) == StepAll(StepAll(sc, a), b)
    decreases |b|
  {
    if b != [] {
      assert (a + b)[..|a + b| - 1] == a + b[..|b| - 1];
      StepAllAppend(sc, a, b[..|b| - 1]);
    } else {
      assert a + b == a;
    }
  }

  /** A transaction that ends in a rollback leaves the tables as they were. */
  lemma RolledBackLeavesTables(st: Store, work: seq<Op>)
    requires forall i :: 0 <= i < |work| ==> InScope(work[i])
    ensures Replay(st, [Begin(true)] + work + [Rollback]) == st
  {
    var s0 := Scope(st, None);
    StepAllAppend(s0, [Begin(true)], work);
    StepAllSnoc(s0, [Begin(true)] + work, Rollback);
    assert StepAll(s0, [Begin(true)]) == Scope(st, Some(st));
    RollbackDiscardsWork(Scope(st, Some(st)), work);
  }

  /** A transaction whose commit fails, followed by the rollback, leaves the tables as they were. */
  lemma FailedCommitLeavesTables(st: Store, work: seq<Op>)
    requires forall i :: 0 <= i < |work| ==> InScope(work[i])
    ensures Replay(st, [Begin(true)] + work + [Commit(false), Rollback]) == st
  {
    var s0 := Scope(st, None);
    StepAllAppend(s0, [Begin(true)], work);
    StepAllAppend(s0, [Begin(true)] + work, [Commit(false), Rollback]);
    assert StepAll(s0, [Begin(true)]) == Scope(st, Some(st));
    WorkStaysPending(Scope(st, Some(st)), work);
    assert [Commit(false), Rollback][..1] == [Commit(false)];
  }

  /** A committed transaction publishes exactly its working copy. */
  lemma CommitPublishesWork(st: Store, work: seq<Op>)
    requires forall i :: 0 <= i < |work| ==> InScope(work[i])
    ensures StepAll(Scope(st, Some(st)), work).pending.Some?
    ensures Replay(st, [Begin(true)] + work + [Commit(true)]) == StepAll(Scope(st, Some(st)), work).pending.value
  {
    var s0 := Scope(st, None);
    StepAllAppend(s0, [Begin(true)], work);
    StepAllSnoc(s0, [Begin(true)] + work, Commit(true));
    assert StepAll(s0, [Begin(true)]) == Scope(st, Some(st));
    WorkStaysPending(Scope(st, Some(st)), work);
  }

  /** How a database transaction ends. */
  datatype Ending =
    | NeverBegun
    | EndsInRollback
    | EndsInFailedCommit
    | EndsInCommit
    | EndsInCommitThenRollback

  /** The calls of a transaction: its begin, the work inside it, and its ending. */
  function Framed(work: seq<Op>, ending: Ending): seq<Op> {
    match ending
    case NeverBegun => [Begin(false)]
    case EndsInRollback => [Begin(true)] + work + [Rollback]
    case EndsInFailedCommit => [Begin(true)] + work + [Commit(false), Rollback]
    case EndsInCommit => [Begin(true)] + work + [Commit(true)]
    case EndsInCommitThenRollback => [Begin(true)] + work + [Commit(true), Rollback]
  }

  predicate Commits(ending: Ending) {
    ending.EndsInCommit? || ending.EndsInCommitThenRollback?
  }

  /** The tables are those the committed work leaves, or unchanged when nothing commits. */
  lemma ReplayFramed(st: Store, work: seq<Op>, ending: Ending)
    requires forall i :: 0 <= i < |work| ==> InScope(work[i])
    ensures StepAll(Scope(st, Some(st)), work).pending.Some?
    ensures Replay(st, Framed(work, ending)) == if Commits(ending) then StepAll(Scope(st, Some(st)), work).pending.value else st
  {
    WorkStaysPending(Scope(st, Some(st)), work);
    match ending
    case NeverBegun =>
      StepAllSnoc(Scope(st, None), [], Begin(false));
      assert [] + [Begin(false)] == [Begin(false)];
    case EndsInRollback =>
      RolledBackLeavesTables(st, work);
    case EndsInFailedCommit =>
      FailedCommitLeavesTables(st, work);
    case EndsInCommit =>
      CommitPublishesWork(st, work);
    case EndsInCommitThenRollback =>
      CommitPublishesWork(st, work);
      RollbackAfterCommitIsHarmless(st, [Begin(true)] + work + [Commit(true)]);
      assert Framed(work, ending) == [Begin(true)] + work + [Commit(true)] + [Rollback];
  }

  /** A rollback once the transaction has ended, like the one deferred past a commit, changes nothing. */
  lemma RollbackAfterCommitIsHarmless(st: Store, ops: seq<Op>)
    requires ops != [] && ops[|ops| - 1].Commit?
    ensures Replay(st, ops + [Rollback]) == Replay(st, ops)
  {
    StepAllSnoc(Scope(st, None), ops, Rollback);
  }
}
