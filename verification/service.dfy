/** The older engine variant: it takes a ready-made record and a tenor, does not check that the
    customer exists, counts a missing limit row as insufficient, writes the limit before
    inserting the record, and relies on a deferred rollback for every early return. */
module TransactionService {
  import opened Wrappers
  import opened Model
  import opened Store
  import TransactionUsecase
  import opened Dto

  /** The errors the variant returns; the wrapped ones carry the driver's error text. */
  datatype ServiceError =
    | BeginFailed(cause: string)
    | LimitLookupFailed(cause: string)
    | InsufficientLimit
    | UpdateFailed(cause: string)
    | InsertFailed(cause: string)
    | CommitFailed(cause: string)
  {
    function Error(): string {
      match this
      case BeginFailed(c) => "failed to begin transaction: " + c
      case LimitLookupFailed(c) => "failed to get customer limit: " + c
      case InsufficientLimit => "insufficient limit"
      case UpdateFailed(c) => "failed to update customer limit: " + c
      case InsertFailed(c) => "failed to create transaction: " + c
      case CommitFailed(c) => "failed to commit transaction: " + c
    }
  }

  /** The wrapped errors keep the driver's text at their end. */
  lemma WrappedErrorsEndWithCause(e: ServiceError)
    requires !e.InsufficientLimit?
    ensures |e.Error()| > |e.cause| && e.Error()[|e.Error()| - |e.cause|..] == e.cause
  {
  }

  /** The error if any, the database calls issued in order, and the tables afterwards. */
  datatype ServiceReply = ServiceReply(err: Option<ServiceError>, ops: seq<Op>, store: Store)

  /** The amount a record takes from the limit. */
  function Total(t: Transaction): int {
    t.otr + t.adminFee
  }

  /** The amounts and their total fit in int64, and so does the limit after deduction. */
  predicate InRange(st: Store, t: Transaction, tenor: int) {
    var key := LimitKey(t.customerNik, tenor);
    && IsInt64(t.otr) && IsInt64(t.adminFee) && IsInt64(Total(t))
    && (key in st.limits ==> IsInt64(st.limits[key]) && IsInt64(st.limits[key] - Total(t)))
  }

  /** Everything the variant needs to succeed: no step faults, and a row that covers the total. */
  predicate Succeeds(st: Store, t: Transaction, tenor: int, faults: Faults) {
    var key := LimitKey(t.customerNik, tenor);
    && faults.begin.None? && faults.getLimit.None? && faults.update.None?
    && faults.insert.None? && faults.commit.None?
    && key in st.limits && Total(t) <= st.limits[key]
  }

  /** One call. It succeeds exactly when nothing faults and the row covers OTR + admin fee; it then
      stores the record exactly as passed and lowers that row by the total. A missing or too small
      row is reported as insufficient, and every error leaves the tables as they were. */
  function CreateTransaction(st: Store, t: Transaction, tenor: int, faults: Faults): (r: ServiceReply)
    requires InRange(st, t, tenor)
    ensures r.err.None? <==> Succeeds(st, t, tenor, faults)
    ensures r.err.Some? ==> r.store == st
    ensures r.err.None? ==>
      && r.store.customers == st.customers
      && r.store.transactions == st.transactions + [t]
      && r.store.limits == st.limits[LimitKey(t.customerNik, tenor) := st.limits[LimitKey(t.customerNik, tenor)] - Total(t)]
    ensures faults.begin.None? && faults.getLimit.None? &&
            (LimitKey(t.customerNik, tenor) !in st.limits || st.limits[LimitKey(t.customerNik, tenor)] < Total(t))
            ==> r.err == Some(InsufficientLimit)
  {
    var nik := t.customerNik;
    if faults.begin.Some? then ServiceReply(Some(BeginFailed(faults.begin.value)), [Begin(false)], st)
    else
      var read := [Begin(true), ReadLimit(nik, tenor)];
      if faults.getLimit.Some? then ServiceReply(Some(LimitLookupFailed(faults.getLimit.value)), read + [Rollback], st)
      else
        var limit := GetLimit(st, nik, tenor);
        if limit.None? || limit.value.limitAmount < t.otr + t.adminFee then
          ServiceReply(Some(InsufficientLimit), read + [Rollback], st)
        else
          var newLimit := limit.value.limitAmount - (t.otr + t.adminFee);
          if faults.update.Some? then
            ServiceReply(Some(UpdateFailed(faults.update.value)), read + [Update(nik, tenor, newLimit, false), Rollback], st)
          else
            var updated := read + [Update(nik, tenor, newLimit, true)];
            if faults.insert.Some? then
              ServiceReply(Some(InsertFailed(faults.insert.value)), updated + [Insert(t, false), Rollback], st)
            else
              var inserted := updated + [Insert(t, true)];
              if faults.commit.Some? then
                ServiceReply(Some(CommitFailed(faults.commit.value)), inserted + [Commit(false), Rollback], st)
              else
                ServiceReply(None, inserted + [Commit(true), Rollback], InsertTransaction(UpdateLimit(st, nik, tenor, newLimit), t))
  }

  /** The calls inside the transaction once the row covers the total: the read, the limit write
      and the insert, each with whether it succeeded. */
  function Work(st: Store, t: Transaction, tenor: int, updated: bool, inserted: bool): seq<Op>
    requires LimitKey(t.customerNik, tenor) in st.limits
  {
    [ReadLimit(t.customerNik, tenor),
     Update(t.customerNik, tenor, st.limits[LimitKey(t.customerNik, tenor)] - Total(t), updated),
     Insert(t, inserted)]
  }

  /** Traces of calls stopped before any write. */
  lemma ReadStageTrace(st: Store, t: Transaction, tenor: int, faults: Faults)
    requires InRange(st, t, tenor) && faults.begin.None?
    requires faults.getLimit.Some? || LimitKey(t.customerNik, tenor) !in st.limits
             || st.limits[LimitKey(t.customerNik, tenor)] < Total(t)
    ensures var r := CreateTransaction(st, t, tenor, faults);
      r.err.Some? && r.ops == Framed([ReadLimit(t.customerNik, tenor)], EndsInRollback)
  {
  }

  /** Traces of calls whose limit write fails. */
  lemma UpdateFailureTrace(st: Store, t: Transaction, tenor: int, faults: Faults)
    requires InRange(st, t, tenor) && faults.begin.None? && faults.getLimit.None?
    requires LimitKey(t.customerNik, tenor) in st.limits && Total(t) <= st.limits[LimitKey(t.customerNik, tenor)]
    requires faults.update.Some?
    ensures var r := CreateTransaction(st, t, tenor, faults);
      r.err.Some? && r.ops == Framed(Work(st, t, tenor, false, false)[..2], EndsInRollback)
  {
  }

  /** Traces of calls whose limit write succeeds. */
  lemma WriteStageTrace(st: Store, t: Transaction, tenor: int, faults: Faults)
    requires InRange(st, t, tenor) && faults.begin.None? && faults.getLimit.None?
    requires LimitKey(t.customerNik, tenor) in st.limits && Total(t) <= st.limits[LimitKey(t.customerNik, tenor)]
    requires faults.update.None?
    ensures var r := CreateTransaction(st, t, tenor, faults);
      r.ops == Framed(Work(st, t, tenor, true, faults.insert.None?),
                      if faults.insert.Some? then EndsInRollback
                      else if faults.commit.Some? then EndsInFailedCommit
                      else EndsInCommitThenRollback)
  {
  }

  /** Every trace is a transaction framing some work; it commits exactly when the call succeeds,
      and the committed work is the read, the limit write and the insert. */
  lemma TraceShape(st: Store, t: Transaction, tenor: int, faults: Faults) returns (work: seq<Op>, ending: Ending)
    requires InRange(st, t, tenor)
    ensures forall i :: 0 <= i < |work| ==> InScope(work[i])
    ensures var r := CreateTransaction(st, t, tenor, faults);
      && r.ops == Framed(work, ending)
      && (Commits(ending) <==> r.err.None?)
      && (r.err.None? ==> LimitKey(t.customerNik, tenor) in st.limits && work == Work(st, t, tenor, true, true))
      && (r.err.None? ==> ending == EndsInCommitThenRollback)
      && (ending != NeverBegun ==> r.ops[|r.ops| - 1] == Rollback)
  {
    var key := LimitKey(t.customerNik, tenor);
    if faults.begin.Some? {
      work, ending := [], NeverBegun;
    } else if faults.getLimit.Some? || key !in st.limits || st.limits[key] < Total(t) {
      work, ending := [ReadLimit(t.customerNik, tenor)], EndsInRollback;
      ReadStageTrace(st, t, tenor, faults);
    } else if faults.update.Some? {
      work, ending := Work(st, t, tenor, false, false)[..2], EndsInRollback;
      UpdateFailureTrace(st, t, tenor, faults);
    } else {
      work := Work(st, t, tenor, true, faults.insert.None?);
      ending := if faults.insert.Some? then EndsInRollback
                else if faults.commit.Some? then EndsInFailedCommit
                else EndsInCommitThenRollback;
      WriteStageTrace(st, t, tenor, faults);
    }
  }

  /** The working copy after the successful work holds the lowered limit and the record. */
  lemma SuccessfulWork(st: Store, t: Transaction, tenor: int, amount: int)
    ensures StepAll(Scope(st, Some(st)), [ReadLimit(t.customerNik, tenor), Update(t.customerNik, tenor, amount, true), Insert(t, true)])
         == Scope(st, Some(InsertTransaction(UpdateLimit(st, t.customerNik, tenor, amount), t)))
  {
    var sc := Scope(st, Some(st));
    var w := [ReadLimit(t.customerNik, tenor), Update(t.customerNik, tenor, amount, true), Insert(t, true)];
    StepAllSnoc(sc, [], w[0]);
    StepAllSnoc(sc, [w[0]], w[1]);
    StepAllSnoc(sc, w[..2], w[2]);
    assert w[..2] + [w[2]] == w && [w[0]] + [w[1]] == w[..2];
  }

  /** The tables the variant returns are the ones its recorded calls produce under transaction
      semantics; the deferred rollback that follows a commit changes nothing. */
  lemma StoreFollowsTrace(st: Store, t: Transaction, tenor: int, faults: Faults)
    requires InRange(st, t, tenor)
    ensures var r := CreateTransaction(st, t, tenor, faults); r.store == Replay(st, r.ops)
  {
    var r := CreateTransaction(st, t, tenor, faults);
    var work, ending := TraceShape(st, t, tenor, faults);
    ReplayFramed(st, work, ending);
    if r.err.None? {
      SuccessfulWork(st, t, tenor, st.limits[LimitKey(t.customerNik, tenor)] - Total(t));
    }
  }

  /** Each failing step is reported with its own wrapped error, carrying the driver's text. */
  lemma StepFaultsReported(st: Store, t: Transaction, tenor: int, faults: Faults)
    requires InRange(st, t, tenor)
    ensures var r := CreateTransaction(st, t, tenor, faults);
      var key := LimitKey(t.customerNik, tenor);
      var covered := faults.begin.None? && faults.getLimit.None? && key in st.limits && Total(t) <= st.limits[key];
      var written := covered && faults.update.None? && faults.insert.None?;
      && (faults.begin.Some? ==> r.err == Some(BeginFailed(faults.begin.value)))
      && (faults.begin.None? && faults.getLimit.Some? ==> r.err == Some(LimitLookupFailed(faults.getLimit.value)))
      && (covered && faults.update.Some? ==> r.err == Some(UpdateFailed(faults.update.value)))
      && (covered && faults.update.None? && faults.insert.Some? ==> r.err == Some(InsertFailed(faults.insert.value)))
      && (written && faults.commit.Some? ==> r.err == Some(CommitFailed(faults.commit.value)))
  {
  }

  /** The limit is written before the record is inserted; when the insert fails, the deferred
      rollback undoes the limit write. */
  lemma UpdatePrecedesInsert(st: Store, t: Transaction, tenor: int, faults: Faults)
    requires InRange(st, t, tenor) && faults.begin.None? && faults.getLimit.None? && faults.update.None?
    requires LimitKey(t.customerNik, tenor) in st.limits && Total(t) <= st.limits[LimitKey(t.customerNik, tenor)]
    requires faults.insert.Some?
    ensures var r := CreateTransaction(st, t, tenor, faults);
      && r.err == Some(InsertFailed(faults.insert.value))
      && r.ops[2].Update? && r.ops[2].ok && r.ops[3] == Insert(t, false) && r.ops[4] == Rollback
      && Replay(st, r.ops) == st
  {
    StoreFollowsTrace(st, t, tenor, faults);
    WriteStageTrace(st, t, tenor, faults);
  }

  /** A failed commit leaves the tables as they were, though both writes succeeded. */
  lemma CommitFailureUndoesAll(st: Store, t: Transaction, tenor: int, faults: Faults)
    requires InRange(st, t, tenor)
    requires faults.begin.None? && faults.getLimit.None? && faults.update.None? && faults.insert.None?
    requires LimitKey(t.customerNik, tenor) in st.limits && Total(t) <= st.limits[LimitKey(t.customerNik, tenor)]
    requires faults.commit.Some?
    ensures var r := CreateTransaction(st, t, tenor, faults);
      && r.err == Some(CommitFailed(faults.commit.value))
      && r.ops[2].Update? && r.ops[2].ok && r.ops[3] == Insert(t, true)
      && Replay(st, r.ops) == st
  {
    StoreFollowsTrace(st, t, tenor, faults);
    WriteStageTrace(st, t, tenor, faults);
  }

  /** Neither the customer table nor the customer lookup plays any part: the call reads only the
      (NIK, tenor) row. */
  lemma NoCustomerCheck(st: Store, t: Transaction, tenor: int, faults: Faults,
                        customers: map<string, Customer>, lookup: Option<string>)
    requires InRange(st, t, tenor)
    ensures var a := CreateTransaction(st, t, tenor, faults);
      var b := CreateTransaction(st.(customers := customers), t, tenor, faults.(getCustomer := lookup));
      && a.err == b.err && a.ops == b.ops
      && b.store == a.store.(customers := customers)
  {
  }

  /** The outcome depends on the limit table only through the (NIK, tenor) row. */
  lemma OnlyTheRowMatters(st: Store, other: Store, t: Transaction, tenor: int, faults: Faults)
    requires InRange(st, t, tenor) && InRange(other, t, tenor)
    requires LimitKey(t.customerNik, tenor) in st.limits <==> LimitKey(t.customerNik, tenor) in other.limits
    requires LimitKey(t.customerNik, tenor) in st.limits ==>
             st.limits[LimitKey(t.customerNik, tenor)] == other.limits[LimitKey(t.customerNik, tenor)]
    ensures CreateTransaction(st, t, tenor, faults).err == CreateTransaction(other, t, tenor, faults).err
    ensures CreateTransaction(st, t, tenor, faults).ops == CreateTransaction(other, t, tenor, faults).ops
  {
  }

  /** The variant given the record the usecase builds, for the usecase's tenor. */
  function OnUsecaseRecord(st: Store, req: CreateTransactionRequest, faults: Faults,
                           clock: TransactionUsecase.Clock): ServiceReply
    requires TransactionUsecase.InRange(st, req)
  {
    CreateTransaction(st, TransactionUsecase.Record(req, clock), req.tenor, faults)
  }

  /** For a known customer whose lookup does not fail, both engines succeed on the same inputs
      and then leave the same tables, although they issue the writes in opposite orders. */
  lemma VariantsAgreeForKnownCustomers(st: Store, req: CreateTransactionRequest, faults: Faults,
                                       clock: TransactionUsecase.Clock)
    requires TransactionUsecase.InRange(st, req)
    requires req.customerNik in st.customers && faults.getCustomer.None?
    ensures var u := TransactionUsecase.CreateTransaction(st, req, faults, clock);
      var v := OnUsecaseRecord(st, req, faults, clock);
      && (u.outcome.Created? <==> v.err.None?)
      && u.store == v.store
  {
  }

  /** A usecase success implies the variant's success on the same record, whatever the customer
      table holds. */
  lemma UsecaseSuccessImpliesVariantSuccess(st: Store, req: CreateTransactionRequest, faults: Faults,
                                            clock: TransactionUsecase.Clock)
    requires TransactionUsecase.InRange(st, req)
    requires TransactionUsecase.CreateTransaction(st, req, faults, clock).outcome.Created?
    ensures OnUsecaseRecord(st, req, faults, clock).err.None?
  {
  }

  /** With the customer present and no row for the tenor, the usecase returns neither a record
      nor an error, while the variant reports an insufficient limit; neither changes the tables. */
  lemma VariantsDifferOnMissingRow(st: Store, req: CreateTransactionRequest,
                                   clock: TransactionUsecase.Clock)
    requires TransactionUsecase.InRange(st, req)
    requires req.customerNik in st.customers && TransactionUsecase.Key(req) !in st.limits
    ensures TransactionUsecase.CreateTransaction(st, req, NoFaults, clock).outcome == TransactionUsecase.Recovered
    ensures OnUsecaseRecord(st, req, NoFaults, clock).err == Some(InsufficientLimit)
    ensures TransactionUsecase.CreateTransaction(st, req, NoFaults, clock).store == OnUsecaseRecord(st, req, NoFaults, clock).store == st
  {
    TransactionUsecase.AbsentLimitIsRecovered(st, req, NoFaults, clock);
  }
}
