/** The check-deduct-record engine: one purchase request against a customer's limit for a tenor,
    run inside one database transaction. */
module TransactionUsecase {
  import opened Wrappers
  import opened Model
  import opened Dto
  import opened Store
  import ContractNumber

  /** The two clock readings the engine takes: one for the contract number, one for the
      creation time. */
  datatype Clock = Clock(unixNano: int, now: Instant)

  /** The errors the engine returns; the wrapped ones carry the driver's error text. */
  datatype UsecaseError =
    | BeginFailed(cause: string)
    | CustomerLookupFailed(cause: string)
    | CustomerNotFound
    | LimitLookupFailed(cause: string)
    | LimitExceeded
    | InsertFailed(cause: string)
    | UpdateFailed(cause: string)
    | CommitFailed(cause: string)
  {
    function Error(): string {
      match this
      case BeginFailed(c) => "failed to begin transaction: " + c
      case CustomerLookupFailed(c) => "failed to get customer: " + c
      case CustomerNotFound => "customer not found"
      case LimitLookupFailed(c) => "failed to get customer limit: " + c
      case LimitExceeded => "transaction amount exceeds available limit"
      case InsertFailed(c) => "failed to create transaction: " + c
      case UpdateFailed(c) => "failed to update customer limit: " + c
      case CommitFailed(c) => "failed to commit transaction: " + c
    }
  }

  /** What a call returns: the stored record, an error, or neither (the nil-limit panic that
      the deferred recover swallows). */
  datatype Outcome = Created(t: Transaction) | Failed(err: UsecaseError) | Recovered

  /** The outcome, the database calls issued in order, and the tables afterwards. */
  datatype Reply = Reply(outcome: Outcome, ops: seq<Op>, store: Store)

  /** The amount a request takes from the limit. */
  function Total(req: CreateTransactionRequest): int {
    req.otr + req.adminFee
  }

  /** The limit row a request draws on. */
  function Key(req: CreateTransactionRequest): LimitKey {
    LimitKey(req.customerNik, req.tenor)
  }

  /** The amounts and their total fit in int64, and so does the limit after deduction. */
  predicate InRange(st: Store, req: CreateTransactionRequest) {
    && IsInt64(req.otr) && IsInt64(req.adminFee) && IsInt64(Total(req))
    && (Key(req) in st.limits ==> IsInt64(st.limits[Key(req)]) && IsInt64(st.limits[Key(req)] - Total(req)))
  }

  /** The record built for a request. */
  function Record(req: CreateTransactionRequest, clock: Clock): Transaction {
    Transaction(ContractNumber.FromUnixNano(clock.unixNano), req.customerNik, req.otr, req.adminFee,
                req.installment, req.interest, req.assetName, clock.now)
  }

  /** Everything a call needs to succeed: no step faults, the customer and the limit row exist,
      and the limit covers the total. */
  predicate Succeeds(st: Store, req: CreateTransactionRequest, faults: Faults) {
    && faults.begin.None? && faults.getCustomer.None? && faults.getLimit.None?
    && faults.insert.None? && faults.update.None? && faults.commit.None?
    && req.customerNik in st.customers
    && Key(req) in st.limits
    && Total(req) <= st.limits[Key(req)]
  }

  /** One call. It succeeds exactly when nothing faults, the customer and the row exist and the
      limit covers OTR + admin fee; it then returns the appended record, whose fields are the
      request's, and the row is lowered by exactly that total, staying non-negative. Every
      other outcome leaves the tables as they were. */
  function CreateTransaction(st: Store, req: CreateTransactionRequest, faults: Faults, clock: Clock): (r: Reply)
    requires InRange(st, req)
    ensures r.outcome.Created? <==> Succeeds(st, req, faults)
    ensures !r.outcome.Created? ==> r.store == st
    ensures r.outcome.Created? ==>
      && r.outcome.t.customerNik == req.customerNik && r.outcome.t.otr == req.otr
      && r.outcome.t.adminFee == req.adminFee && r.outcome.t.installment == req.installment
      && r.outcome.t.interest == req.interest && r.outcome.t.assetName == req.assetName
      && r.outcome.t.createdAt == clock.now
      && r.outcome.t.contractNumber == ContractNumber.FromUnixNano(clock.unixNano)
    ensures r.outcome.Created? ==>
      && r.store.customers == st.customers
      && r.store.transactions == st.transactions + [r.outcome.t]
      && r.store.limits == st.limits[Key(req) := st.limits[Key(req)] - Total(req)]
      && r.store.limits[Key(req)] >= 0
  {
    var nik := req.customerNik;
    if faults.begin.Some? then Reply(Failed(BeginFailed(faults.begin.value)), [Begin(false)], st)
    else
      var started := [Begin(true), ReadCustomer(nik)];
      if faults.getCustomer.Some? then Reply(Failed(CustomerLookupFailed(faults.getCustomer.value)), started + [Rollback], st)
      else if GetCustomer(st, nik).None? then Reply(Failed(CustomerNotFound), started + [Rollback], st)
      else
        var read := started + [ReadLimit(nik, req.tenor)];
        if faults.getLimit.Some? then Reply(Failed(LimitLookupFailed(faults.getLimit.value)), read + [Rollback], st)
        else if GetLimit(st, nik, req.tenor).None? then Reply(Recovered, read + [Rollback], st)
        else
          var limit := GetLimit(st, nik, req.tenor).value;
          var total := req.otr + req.adminFee;
          if limit.limitAmount < total then Reply(Failed(LimitExceeded), read + [Rollback], st)
          else
            var t := Record(req, clock);
            if faults.insert.Some? then Reply(Failed(InsertFailed(faults.insert.value)), read + [Insert(t, false), Rollback], st)
            else
              var newLimit := limit.limitAmount - total;
              var inserted := read + [Insert(t, true)];
              if faults.update.Some? then
                Reply(Failed(UpdateFailed(faults.update.value)), inserted + [Update(nik, req.tenor, newLimit, false), Rollback], st)
              else
                var updated := inserted + [Update(nik, req.tenor, newLimit, true)];
                if faults.commit.Some? then Reply(Failed(CommitFailed(faults.commit.value)), updated + [Commit(false), Rollback], st)
                else Reply(Created(t), updated + [Commit(true)], UpdateLimit(InsertTransaction(st, t), nik, req.tenor, newLimit))
  }

  /** Every trace is a transaction framing some work inside it; the transaction commits exactly
      when the call succeeds, and the committed work is the two reads, the insert and the limit write. */
  lemma TraceShape(st: Store, req: CreateTransactionRequest, faults: Faults, clock: Clock)
    returns (work: seq<Op>, ending: Ending)
    requires InRange(st, req)
    ensures forall i :: 0 <= i < |work| ==> InScope(work[i])
    ensures var r := CreateTransaction(st, req, faults, clock);
      && r.ops == Framed(work, ending)
      && (Commits(ending) <==> r.outcome.Created?)
      && (r.outcome.Created? ==> Key(req) in st.limits && r.outcome.t == Record(req, clock) && work == WriteWork(st, req, clock, true))
  {
    var nik := req.customerNik;
    if faults.begin.Some? {
      work, ending := [], NeverBegun;
    } else if faults.getCustomer.Some? || nik !in st.customers {
      work, ending := [ReadCustomer(nik)], EndsInRollback;
      CustomerStageTrace(st, req, faults, clock);
    } else if faults.getLimit.Some? || Key(req) !in st.limits || st.limits[Key(req)] < Total(req) {
      work, ending := [ReadCustomer(nik), ReadLimit(nik, req.tenor)], EndsInRollback;
      LimitStageTrace(st, req, faults, clock);
    } else if faults.insert.Some? {
      work, ending := [ReadCustomer(nik), ReadLimit(nik, req.tenor), Insert(Record(req, clock), false)], EndsInRollback;
      InsertStageTrace(st, req, faults, clock);
    } else if faults.update.Some? {
      work, ending := WriteWork(st, req, clock, false), EndsInRollback;
      UpdateFailureTrace(st, req, faults, clock);
    } else if faults.commit.Some? {
      work, ending := WriteWork(st, req, clock, true), EndsInFailedCommit;
      CommitFailureTrace(st, req, faults, clock);
    } else {
      work, ending := WriteWork(st, req, clock, true), EndsInCommit;
      CommittedTrace(st, req, faults, clock);
    }
  }

  /** Traces of calls stopped at the customer lookup. */
  lemma CustomerStageTrace(st: Store, req: CreateTransactionRequest, faults: Faults, clock: Clock)
    requires InRange(st, req)
    requires faults.begin.None? && (faults.getCustomer.Some? || req.customerNik !in st.customers)
    ensures var r := CreateTransaction(st, req, faults, clock);
      !r.outcome.Created? && r.ops == Framed([ReadCustomer(req.customerNik)], EndsInRollback)
  {
  }

  /** Traces of calls stopped at the limit lookup or the limit check. */
  lemma LimitStageTrace(st: Store, req: CreateTransactionRequest, faults: Faults, clock: Clock)
    requires InRange(st, req)
    requires faults.begin.None? && faults.getCustomer.None? && req.customerNik in st.customers
    requires faults.getLimit.Some? || Key(req) !in st.limits || st.limits[Key(req)] < Total(req)
    ensures var r := CreateTransaction(st, req, faults, clock);
      && !r.outcome.Created?
      && r.ops == Framed([ReadCustomer(req.customerNik), ReadLimit(req.customerNik, req.tenor)], EndsInRollback)
  {
  }

  /** Traces of calls that fail at the insert. */
  lemma InsertStageTrace(st: Store, req: CreateTransactionRequest, faults: Faults, clock: Clock)
    requires InRange(st, req)
    requires faults.begin.None? && faults.getCustomer.None? && req.customerNik in st.customers
    requires faults.getLimit.None? && Key(req) in st.limits && Total(req) <= st.limits[Key(req)]
    requires faults.insert.Some?
    ensures var r := CreateTransaction(st, req, faults, clock);
      && !r.outcome.Created?
      && r.ops == Framed([ReadCustomer(req.customerNik), ReadLimit(req.customerNik, req.tenor),
                          Insert(Record(req, clock), false)], EndsInRollback)
  {
  }

  /** The calls of a transaction whose insert succeeds, up to and including the limit write. */
  function WriteWork(st: Store, req: CreateTransactionRequest, clock: Clock, updated: bool): seq<Op>
    requires Key(req) in st.limits
  {
    [ReadCustomer(req.customerNik), ReadLimit(req.customerNik, req.tenor), Insert(Record(req, clock), true),
     Update(req.customerNik, req.tenor, st.limits[Key(req)] - Total(req), updated)]
  }

  /** Traces of calls whose limit write fails. */
  lemma UpdateFailureTrace(st: Store, req: CreateTransactionRequest, faults: Faults, clock: Clock)
    requires InRange(st, req)
    requires faults.begin.None? && faults.getCustomer.None? && req.customerNik in st.customers
    requires faults.getLimit.None? && Key(req) in st.limits && Total(req) <= st.limits[Key(req)]
    requires faults.insert.None? && faults.update.Some?
    ensures var r := CreateTransaction(st, req, faults, clock);
      !r.outcome.Created? && r.ops == Framed(WriteWork(st, req, clock, false), EndsInRollback)
  {
  }

  /** Traces of calls whose commit fails. */
  lemma CommitFailureTrace(st: Store, req: CreateTransactionRequest, faults: Faults, clock: Clock)
    requires InRange(st, req)
    requires faults.begin.None? && faults.getCustomer.None? && req.customerNik in st.customers
    requires faults.getLimit.None? && Key(req) in st.limits && Total(req) <= st.limits[Key(req)]
    requires faults.insert.None? && faults.update.None? && faults.commit.Some?
    ensures var r := CreateTransaction(st, req, faults, clock);
      !r.outcome.Created? && r.ops == Framed(WriteWork(st, req, clock, true), EndsInFailedCommit)
  {
    var nik, t := req.customerNik, Record(req, clock);
    var calls := [Begin(true), ReadCustomer(nik), ReadLimit(nik, req.tenor), Insert(t, true),
                  Update(nik, req.tenor, st.limits[Key(req)] - Total(req), true), Commit(false), Rollback];
    assert CreateTransaction(st, req, faults, clock).ops == calls;
    assert Framed(WriteWork(st, req, clock, true), EndsInFailedCommit) == calls;
  }

  /** Traces of calls that commit. */
  lemma CommittedTrace(st: Store, req: CreateTransactionRequest, faults: Faults, clock: Clock)
    requires InRange(st, req) && Succeeds(st, req, faults)
    ensures var r := CreateTransaction(st, req, faults, clock);
      && r.outcome == Created(Record(req, clock))
      && r.ops == Framed(WriteWork(st, req, clock, true), EndsInCommit)
  {
  }

  /** The working copy after the successful work holds the record and the lowered limit. */
  lemma SuccessfulWork(st: Store, t: Transaction, nik: string, tenor: int, amount: int)
    ensures StepAll(Scope(st, Some(st)), [ReadCustomer(nik), ReadLimit(nik, tenor), Insert(t, true), Update(nik, tenor, amount, true)])
         == Scope(st, Some(UpdateLimit(InsertTransaction(st, t), nik, tenor, amount)))
  {
    var sc := Scope(st, Some(st));
    var w := [ReadCustomer(nik), ReadLimit(nik, tenor), Insert(t, true), Update(nik, tenor, amount, true)];
    StepAllSnoc(sc, [], ReadCustomer(nik));
    StepAllSnoc(sc, [ReadCustomer(nik)], ReadLimit(nik, tenor));
    StepAllSnoc(sc, w[..2], Insert(t, true));
    StepAllSnoc(sc, w[..3], Update(nik, tenor, amount, true));
    assert w[..3] + [w[3]] == w && w[..2] + [w[2]] == w[..3] && [ReadCustomer(nik)] + [w[1]] == w[..2];
  }

  /** The tables the engine returns are the ones its recorded calls produce under
      transaction semantics: the rollbacks on the error paths are what restore them. */
  lemma StoreFollowsTrace(st: Store, req: CreateTransactionRequest, faults: Faults, clock: Clock)
    requires InRange(st, req)
    ensures var r := CreateTransaction(st, req, faults, clock); r.store == Replay(st, r.ops)
  {
    var r := CreateTransaction(st, req, faults, clock);
    var work, ending := TraceShape(st, req, faults, clock);
    ReplayFramed(st, work, ending);
    if r.outcome.Created? {
      SuccessfulWork(st, Record(req, clock), req.customerNik, req.tenor, st.limits[Key(req)] - Total(req));
    }
  }

  /** Each failing step after the begin is reported with its own wrapped error, carrying the
      driver's text; a failed limit lookup is an error, not the recovered panic. */
  lemma StepFaultsReported(st: Store, req: CreateTransactionRequest, faults: Faults, clock: Clock)
    requires InRange(st, req) && faults.begin.None?
    ensures var r := CreateTransaction(st, req, faults, clock);
      var found := faults.getCustomer.None? && req.customerNik in st.customers;
      var covered := found && faults.getLimit.None? && Key(req) in st.limits && Total(req) <= st.limits[Key(req)];
      var written := covered && faults.insert.None? && faults.update.None?;
      && (faults.getCustomer.Some? ==> r.outcome == Failed(CustomerLookupFailed(faults.getCustomer.value)))
      && (found && faults.getLimit.Some? ==> r.outcome == Failed(LimitLookupFailed(faults.getLimit.value)))
      && (covered && faults.insert.Some? ==> r.outcome == Failed(InsertFailed(faults.insert.value)))
      && (covered && faults.insert.None? && faults.update.Some? ==> r.outcome == Failed(UpdateFailed(faults.update.value)))
      && (written && faults.commit.Some? ==> r.outcome == Failed(CommitFailed(faults.commit.value)))
  {
  }

  /** A failed begin is the first thing checked, and nothing else is attempted. */
  lemma BeginFailureStopsEverything(st: Store, req: CreateTransactionRequest, faults: Faults, clock: Clock)
    requires InRange(st, req) && faults.begin.Some?
    ensures var r := CreateTransaction(st, req, faults, clock);
      r.outcome == Failed(BeginFailed(faults.begin.value)) && r.ops == [Begin(false)]
  {
  }

  /** An unknown customer is reported before the limit is looked at: no limit is read or
      written, no record is appended, and the transaction is rolled back. */
  lemma CustomerCheckedFirst(st: Store, req: CreateTransactionRequest, faults: Faults, clock: Clock)
    requires InRange(st, req)
    requires faults.begin.None? && faults.getCustomer.None? && req.customerNik !in st.customers
    ensures var r := CreateTransaction(st, req, faults, clock);
      && r.outcome == Failed(CustomerNotFound)
      && r.ops == [Begin(true), ReadCustomer(req.customerNik), Rollback]
      && (forall i :: 0 <= i < |r.ops| ==> !r.ops[i].ReadLimit? && !r.ops[i].Insert? && !r.ops[i].Update?)
      && r.store == st
  {
  }

  /** Once the customer and the row are found, the request is refused for its amount exactly
      when the limit is below OTR + admin fee; spending the whole limit is allowed. */
  lemma LimitExceededIff(st: Store, req: CreateTransactionRequest, faults: Faults, clock: Clock)
    requires InRange(st, req)
    requires faults.begin.None? && faults.getCustomer.None? && faults.getLimit.None?
    requires req.customerNik in st.customers && Key(req) in st.limits
    ensures CreateTransaction(st, req, faults, clock).outcome == Failed(LimitExceeded)
        <==> st.limits[Key(req)] < Total(req)
  {
  }

  /** A request for exactly the remaining limit succeeds and leaves the row at zero. */
  lemma SpendingTheWholeLimit(st: Store, req: CreateTransactionRequest, clock: Clock)
    requires InRange(st, req)
    requires req.customerNik in st.customers && Key(req) in st.limits && st.limits[Key(req)] == Total(req)
    ensures var r := CreateTransaction(st, req, NoFaults, clock);
      r.outcome.Created? && r.store.limits[Key(req)] == 0
  {
  }

  /** A missing limit row is never checked for: reading the amount of the absent row panics, the
      deferred recover rolls back, and the call returns neither a record nor an error. */
  lemma AbsentLimitIsRecovered(st: Store, req: CreateTransactionRequest, faults: Faults, clock: Clock)
    requires InRange(st, req)
    requires faults.begin.None? && faults.getCustomer.None? && faults.getLimit.None?
    requires req.customerNik in st.customers && Key(req) !in st.limits
    ensures var r := CreateTransaction(st, req, faults, clock);
      && r.outcome == Recovered
      && r.ops == [Begin(true), ReadCustomer(req.customerNik), ReadLimit(req.customerNik, req.tenor), Rollback]
      && r.store == st
  {
  }

  /** On success the calls are, in order: begin, the two reads, the insert, the write of the
      lowered limit, and the commit. */
  lemma InsertPrecedesUpdate(st: Store, req: CreateTransactionRequest, clock: Clock)
    requires InRange(st, req) && Succeeds(st, req, NoFaults)
    ensures var r := CreateTransaction(st, req, NoFaults, clock);
      r.ops == [Begin(true), ReadCustomer(req.customerNik), ReadLimit(req.customerNik, req.tenor),
                Insert(r.outcome.t, true),
                Update(req.customerNik, req.tenor, st.limits[Key(req)] - Total(req), true),
                Commit(true)]
  {
  }

  /** A failed limit write comes after a successful insert, and the rollback undoes that insert. */
  lemma UpdateFailureUndoesInsert(st: Store, req: CreateTransactionRequest, faults: Faults, clock: Clock)
    requires InRange(st, req)
    requires Succeeds(st, req, faults.(update := None)) && faults.update.Some?
    ensures var r := CreateTransaction(st, req, faults, clock);
      && r.outcome == Failed(UpdateFailed(faults.update.value))
      && |r.ops| == 6 && r.ops[3] == Insert(Record(req, clock), true) && !r.ops[4].ok && r.ops[5] == Rollback
      && Replay(st, r.ops) == st
  {
    StoreFollowsTrace(st, req, faults, clock);
  }

  /** A failed commit leaves the tables as they were, though every write succeeded. */
  lemma CommitFailureUndoesAll(st: Store, req: CreateTransactionRequest, faults: Faults, clock: Clock)
    requires InRange(st, req)
    requires Succeeds(st, req, faults.(commit := None)) && faults.commit.Some?
    ensures var r := CreateTransaction(st, req, faults, clock);
      && r.outcome == Failed(CommitFailed(faults.commit.value))
      && r.ops[3].Insert? && r.ops[3].ok && r.ops[4].Update? && r.ops[4].ok
      && Replay(st, r.ops) == st
  {
    StoreFollowsTrace(st, req, faults, clock);
  }

  /** Installment and interest are recorded but play no part in the decision or the deduction. */
  lemma InstallmentAndInterestIrrelevant(st: Store, req: CreateTransactionRequest, installment: int, interest: int,
                                         faults: Faults, clock: Clock)
    requires InRange(st, req)
    ensures var other := req.(installment := installment, interest := interest);
      var a := CreateTransaction(st, req, faults, clock);
      var b := CreateTransaction(st, other, faults, clock);
      && a.outcome.Created? == b.outcome.Created?
      && (a.outcome.Failed? ==> b.outcome == a.outcome)
      && a.store.limits == b.store.limits
  {
  }

  /** One call of a sequence: the request, the faults its steps meet and its clock readings. */
  datatype Call = Call(req: CreateTransactionRequest, faults: Faults, clock: Clock)

  /** Limits are non-negative int64 values. */
  predicate WellFormed(st: Store) {
    forall k :: k in st.limits ==> 0 <= st.limits[k] <= MaxInt64
  }

  /** Amounts and their total fit in int64 and the total is not negative. The validators ensure a
      positive OTR and a non-negative fee but not that their sum fits in int64. */
  predicate Admissible(req: CreateTransactionRequest) {
    IsInt64(req.otr) && IsInt64(req.adminFee) && 0 <= Total(req) <= MaxInt64
  }

  /** Admissible amounts on well-formed tables never overflow in one call. */
  lemma AdmissibleInRange(st: Store, req: CreateTransactionRequest)
    requires WellFormed(st) && Admissible(req)
    ensures InRange(st, req)
  {
    assert Key(req) in st.limits ==> 0 <= st.limits[Key(req)] <= MaxInt64;
  }

  datatype Run = Run(outcomes: seq<Outcome>, store: Store)

  /** One call of a sequence on well-formed tables: it keeps them well formed and lowers only the
      row it drew on, by its total, when it succeeds. */
  function Apply(st: Store, c: Call): (r: Reply)
    requires WellFormed(st) && Admissible(c.req)
    ensures WellFormed(r.store) && r.store.limits.Keys == st.limits.Keys && r.store.customers == st.customers
    ensures forall k :: k in st.limits ==>
      r.store.limits[k] == st.limits[k] - (if r.outcome.Created? && Key(c.req) == k then Total(c.req) else 0)
    ensures r.store.transactions == st.transactions + (if r.outcome.Created? then [r.outcome.t] else [])
  {
    AdmissibleInRange(st, c.req);
    CreateTransaction(st, c.req, c.faults, c.clock)
  }

  /** The calls one after another, each on the tables the previous one left. */
  function RunCalls(st: Store, calls: seq<Call>): (r: Run)
    requires WellFormed(st)
    requires forall i :: 0 <= i < |calls| ==> Admissible(calls[i].req)
    ensures |r.outcomes| == |calls|
    ensures WellFormed(r.store) && r.store.limits.Keys == st.limits.Keys
    decreases |calls|
  {
    if calls == [] then Run([], st)
    else
      assert Admissible(calls[0].req);
      var first := Apply(st, calls[0]);
      var rest := RunCalls(first.store, calls[1..]);
      Run([first.outcome] + rest.outcomes, rest.store)
  }

  /** The total taken from row key by the successful calls. */
  function Spent(key: LimitKey, calls: seq<Call>, outcomes: seq<Outcome>): int
    requires |outcomes| == |calls|
    decreases |calls|
  {
    if calls == [] then 0
    else (if outcomes[0].Created? && Key(calls[0].req) == key then Total(calls[0].req) else 0)
         + Spent(key, calls[1..], outcomes[1..])
  }

  /** The records of the successful calls, in call order. */
  function Recorded(outcomes: seq<Outcome>): seq<Transaction>
    decreases |outcomes|
  {
    if outcomes == [] then []
    else (if outcomes[0].Created? then [outcomes[0].t] else []) + Recorded(outcomes[1..])
  }

  /** Over any sequence of calls each row ends at its initial amount minus what the successful
      calls on it took, never negative, and the log grows by exactly their records. */
  lemma {:induction false} RunDeducts(st: Store, calls: seq<Call>, key: LimitKey)
    requires WellFormed(st)
    requires forall i :: 0 <= i < |calls| ==> Admissible(calls[i].req)
    requires key in st.limits
    ensures var r := RunCalls(st, calls);
      && r.store.limits[key] == st.limits[key] - Spent(key, calls, r.outcomes)
      && r.store.limits[key] >= 0
      && r.store.transactions == st.transactions + Recorded(r.outcomes)
      && r.store.customers == st.customers
    decreases |calls|
  {
    if calls != [] {
      assert Admissible(calls[0].req);
      var first := Apply(st, calls[0]);
      var rest := RunCalls(first.store, calls[1..]);
      RunDeducts(first.store, calls[1..], key);
      var o := RunCalls(st, calls).outcomes;
      assert RunCalls(st, calls).store == rest.store;
      assert o[0] == first.outcome && o[1..] == rest.outcomes;
      assert Spent(key, calls, o)
          == (if first.outcome.Created? && Key(calls[0].req) == key then Total(calls[0].req) else 0)
             + Spent(key, calls[1..], rest.outcomes);
      assert Recorded(o) == (if first.outcome.Created? then [first.outcome.t] else []) + Recorded(rest.outcomes);
    }
  }

  /** Two requests on one row that each fit but together exceed it: the second is refused. */
  lemma ContendedLimit(st: Store, a: CreateTransactionRequest, b: CreateTransactionRequest, ca: Clock, cb: Clock)
    requires WellFormed(st) && Admissible(a) && Admissible(b)
    requires Key(a) == Key(b) && a.customerNik in st.customers && Key(a) in st.limits
    requires Total(a) <= st.limits[Key(a)] && Total(b) <= st.limits[Key(a)]
    requires Total(a) + Total(b) > st.limits[Key(a)]
    ensures var first := CreateTransaction(st, a, NoFaults, ca);
      && first.outcome.Created?
      && CreateTransaction(first.store, b, NoFaults, cb).outcome == Failed(LimitExceeded)
  {
  }

  /** A refusal for the amount depends on neither the clock nor the later steps' faults. */
  lemma RefusalIgnoresClockAndLaterFaults(st: Store, req: CreateTransactionRequest, f: Faults, g: Faults, c: Clock, d: Clock)
    requires InRange(st, req)
    requires f.begin == g.begin && f.getCustomer == g.getCustomer && f.getLimit == g.getLimit
    requires CreateTransaction(st, req, f, c).outcome == Failed(LimitExceeded)
    ensures CreateTransaction(st, req, g, d).outcome == Failed(LimitExceeded)
  {
  }

  /** The wrapped errors keep the driver's text at their end. */
  lemma WrappedErrorsEndWithCause(e: UsecaseError)
    requires !e.CustomerNotFound? && !e.LimitExceeded?
    ensures |e.Error()| > |e.cause| && e.Error()[|e.Error()| - |e.cause|..] == e.cause
  {
  }

  /** part occurs in s starting at index i. */
  predicate OccursAt(s: string, part: string, i: int) {
    0 <= i <= |s| - |part| && s[i..i + |part|] == part
  }

  /** part occurs somewhere in s. */
  ghost predicate Contains(s: string, part: string) {
    exists i :: OccursAt(s, part, i)
  }

  lemma EndsWithContains(prefix: string, part: string)
    ensures Contains(prefix + part, part)
  {
    assert (prefix + part)[|prefix|..|prefix| + |part|] == part;
    assert OccursAt(prefix + part, part, |prefix|);
  }

  const KnownNik: string := "1234567890123456"
  const UnknownNik: string := "9999999999999999"

  /** One customer, John Doe, with the given limit for tenor 6. */
  function ScenarioStore(limit: int): Store {
    Store(map[KnownNik := Customer(KnownNik, "John Doe", "", "", "", 0, "", "")],
          map[LimitKey(KnownNik, 6) := limit], [])
  }

  /** A laptop on a 6-month tenor: OTR 1,000,000 and admin fee 50,000. */
  const LaptopRequest: CreateTransactionRequest :=
    CreateTransactionRequest(KnownNik, 1000000, 50000, 1000000, 100000, "Laptop", 6)

  /** A laptop on a 6-month tenor: OTR 9,000,000 and admin fee 1,000,000. */
  function LargeRequest(nik: string): CreateTransactionRequest {
    CreateTransactionRequest(nik, 9000000, 1000000, 1000000, 100000, "Laptop", 6)
  }

  /** From a limit of 10,000,000 the laptop leaves 8,950,000: the record is inserted, the
      lowered limit written, and the transaction committed. */
  lemma ScenarioSuccessfulCreation(clock: Clock)
    ensures var r := CreateTransaction(ScenarioStore(10000000), LaptopRequest, NoFaults, clock);
      && r.outcome.Created?
      && r.outcome.t.customerNik == KnownNik && r.outcome.t.otr == 1000000 && r.outcome.t.adminFee == 50000
      && r.outcome.t.installment == 1000000 && r.outcome.t.interest == 100000 && r.outcome.t.assetName == "Laptop"
      && r.ops == [Begin(true), ReadCustomer(KnownNik), ReadLimit(KnownNik, 6), Insert(r.outcome.t, true),
                   Update(KnownNik, 6, 8950000, true), Commit(true)]
      && r.store.limits[LimitKey(KnownNik, 6)] == 8950000
      && r.store.transactions == [r.outcome.t]
  {
    InsertPrecedesUpdate(ScenarioStore(10000000), LaptopRequest, clock);
  }

  /** An unknown NIK is refused with an error mentioning the missing customer, whether the lookup
      reports it as an error or finds no row; the transaction is rolled back before any limit is read. */
  lemma ScenarioUnknownCustomer(clock: Clock)
    ensures var st := ScenarioStore(10000000);
      var r := CreateTransaction(st, LargeRequest(UnknownNik), NoFaults.(getCustomer := Some("customer not found")), clock);
      var q := CreateTransaction(st, LargeRequest(UnknownNik), NoFaults, clock);
      && r.outcome == Failed(CustomerLookupFailed("customer not found"))
      && Contains(r.outcome.err.Error(), "customer not found")
      && q.outcome == Failed(CustomerNotFound)
      && Contains(q.outcome.err.Error(), "customer not found")
      && r.ops == q.ops == [Begin(true), ReadCustomer(UnknownNik), Rollback]
      && r.store == q.store == st
  {
    EndsWithContains("failed to get customer: ", "customer not found");
    EndsWithContains("", "customer not found");
    assert "" + "customer not found" == "customer not found";
  }

  /** A total of 10,000,000 against a limit of 1,000,000 is refused for its amount, rolled back,
      and no limit is written. */
  lemma ScenarioInsufficientLimit(clock: Clock)
    ensures var st := ScenarioStore(1000000);
      var r := CreateTransaction(st, LargeRequest(KnownNik), NoFaults, clock);
      && r.outcome == Failed(LimitExceeded)
      && r.ops == [Begin(true), ReadCustomer(KnownNik), ReadLimit(KnownNik, 6), Rollback]
      && (forall i :: 0 <= i < |r.ops| ==> !r.ops[i].Update?)
      && r.store == st
  {
  }
}
