# Credit-limit transaction engine

A Dafny model of the core of a consumer-credit backend. A customer, identified by a NIK, has a
remaining credit limit for each tenor. A purchase request names the customer, the tenor, the
price on the road (OTR), an admin fee, the installment, the interest and the asset. The engine:

1. checks that the customer exists;
2. reads the limit row for (NIK, tenor);
3. refuses the request when OTR + admin fee exceeds that limit;
4. appends a transaction record with a clock-derived contract number;
5. writes back the lowered limit;

and does all of this inside one database transaction.

The model covers:

- the usecase engine (`TransactionUsecase`) and its older service variant (`TransactionService`),
  which skips the customer check and writes the limit before inserting the record;
- the repositories as abstract contracts over a store of maps and a sequence (`Store`);
- the database transaction as an independent replay semantics over the calls each engine issues;
- the two request validators, first-failure (`Dto`) and accumulating (`ValidateService`);
- the error payload types and the error-to-status mapping (`Errors`, `ValidateService`);
- the contract-number builders (`ContractNumber`), with decimal formatting and parsing (`Decimal`).

Modules:

| module | file | follows |
|---|---|---|
| `Wrappers` | wrappers.dfy | an `Option` type |
| `Model` | model.dfy | model/models.go |
| `Errors` | errors.dfy | errors/error_handler.go |
| `Dto` | dto.dfy | delivery/dto/transaction_dto.go |
| `ValidateService` | validate_service.dfy | service/validate_service.go |
| `Decimal` | decimal.dfy | Go's `%d` and `%04d` verbs |
| `ContractNumber` | contract_number.dfy | the contract numbers of the usecase and of its test file |
| `Store` | store.dfy | repository/*.go and the database transaction |
| `TransactionUsecase` | usecase.dfy | usecase/transaction/transaction_usecase.go |
| `TransactionService` | service.dfy | service/transaction_service.go |

Each engine call is a pure function of:

- the store (customers, limits keyed by (NIK, tenor), the transaction log);
- the request;
- a `Faults` record naming which repository or transaction steps fail, with the driver's error text;
- for the usecase, a `Clock` holding the two clock readings.

It returns an outcome, the trace of database calls it issued in order (`Store.Op`) and the new
store. `Store.Replay` gives an independent meaning to a trace:

- `Begin` opens a working copy;
- writes go to the working copy;
- a successful `Commit` publishes the working copy;
- a failed commit or a `Rollback` discards it;
- a rollback after a commit changes nothing.

For both engines, the store each call returns is the one its own trace replays to. The all-or-nothing
behaviour therefore follows from the order of calls the engines issue; it is not assumed.

Where the written behaviour and the code differ, the model follows the code:

- The service variant answers an absent limit row with "insufficient limit". It has no separate
  limit-not-found error.
- The usecase never checks for an absent limit row. Reading the amount of the missing row panics.
  The deferred `recover` rolls back and the call returns neither a record nor an error. The model
  makes this the explicit outcome `Recovered`.
- The accumulating validator builds its error value without a status code, so the code is 0.
  See "## Findings".

## Model

| member | source | states |
|---|---|---|
| `Errors.NewErrorResponse` | errors/error_handler.go:13-24 | The response keeps the code as given, its `Error()` text is the message, and its status is the reason phrase of the code. |
| `Errors.ValidationErrors.Add` | errors/error_handler.go:65-70 | Exactly one entry `{field, message}` is appended at the end, every earlier entry stays where it was, and code, status and message are untouched. |
| `Errors.NewValidationError` | errors/error_handler.go:50-62 | The collection carries code 400 and "Bad Request", its `Error()` is the given message, the given entries are stored unchanged, and it reports errors iff the list is non-empty. |
| `Errors.AddReportsErrors` | errors/error_handler.go:65-75 | After any `Add` the collection reports errors and its last entry is the one added. |
| `Dto.ValidIffNoViolation` | delivery/dto/transaction_dto.go:20-43 | A request passes the seven field checks exactly when no field's rule fails. |
| `Dto.ViolationsCharacterised` | service/validate_service.go:28-54 | The reference list of failing fields holds exactly the fields whose rule fails, each once and in check order. It has at most seven entries and is empty iff the request is valid. |
| `Dto.ViolationsHeadIsFirstFailure` | delivery/dto/transaction_dto.go:21-41 | For an invalid request the head of the reference list fails and no field checked before it fails. |
| `Dto.FirstFailureUnique` | delivery/dto/transaction_dto.go:21-41 | At most one field is the first to fail. |
| `Dto.ComplaintIsNameAndRule` | delivery/dto/transaction_dto.go:21-41 | The first-failure message of each field is that field's JSON name, a space, and the rule text the accumulating validator records for it. |
| `Dto.Validate` | delivery/dto/transaction_dto.go:20-43 | No message iff all seven checks hold; otherwise the message is the complaint about a field that fails while no earlier field fails. |
| `Dto.ValidateReportsFirstViolation` | delivery/dto/transaction_dto.go:21-41 | For an invalid request, `Validate` reports the complaint about the head of the reference list, which is the first violated check in field order. |
| `Dto.ZeroBoundaries` | delivery/dto/transaction_dto.go:24-41 | Zero is rejected for OTR, installment and tenor, with their messages, and accepted for the admin fee and the interest. |
| `ValidateService.AddIf` | service/validate_service.go:28-54 | One check of the chain: the entries collected so far are exactly the failing fields among those checked, in check order. |
| `ValidateService.ValidateTransactionRequest` | service/validate_service.go:23-61 | Nil iff all seven checks hold. Otherwise the entries are one per violated check in field order, the message is "Validation failed", and code and status stay unset. It rejects exactly what `Dto.Validate` rejects, and its first entry spells `Validate`'s message. |
| `ValidateService.ZeroRequestViolations` | service/validate_service.go:28-54 | The all-zero request violates exactly five checks: NIK, OTR, installment, asset name and tenor. |
| `ValidateService.ValidateZeroRequest` | service/validate_service.go:28-54 | Validating the all-zero request yields five entries, in the order customer_nik, otr, installment, asset_name, tenor. |
| `ValidateService.HandleError` | service/validate_service.go:64-74 | A validation collection or an error response is answered with its own code and itself. Anything else is answered with 500 and the shared internal-server-error response. |
| `ValidateService.HandleErrorIsStable` | service/validate_service.go:64-74 | Handling the body `HandleError` produced gives the same status and body again. |
| `ValidateService.RejectionStatus` | service/validate_service.go:24-26 | As written, every rejected request is answered with status 0. |
| `ValidateService.ValidateTransactionRequestCorrected` | errors/error_handler.go:50-57 | The validator with its collection built by `NewValidationError`: the same entries and message, with code 400 and status "Bad Request". |
| `ValidateService.RejectionStatusCorrected` | service/validate_service.go:64-67 | With the corrected validator every rejected request is answered with 400. |
| `Decimal.PadLeft` | usecase/transaction/transaction_usecase_test.go:222 | Zero padding yields only digits, at least the requested width, and exactly that width when the number fits. The digits read back as the number. |
| `Decimal.ParseFormatInt` | usecase/transaction/transaction_usecase.go:111 | Parsing the `%d` rendering (`FormatInt`) of any integer, negatives included, gives that integer back. |
| `Decimal.FormatIntInjective` | usecase/transaction/transaction_usecase.go:111 | Two integers have the same `%d` rendering exactly when they are equal. |
| `ContractNumber.FromUnixNano` | usecase/transaction/transaction_usecase.go:111 | The usecase's contract number starts with "CON-" and has at least one character after it. |
| `ContractNumber.FromUnixNanoRoundTrip` | usecase/transaction/transaction_usecase.go:111 | The clock reading decodes back out of the contract number. |
| `ContractNumber.FromUnixNanoInjective` | usecase/transaction/transaction_usecase.go:111 | Two calls get the same contract number exactly when the clock read the same nanosecond. |
| `ContractNumber.NikPrefix` | usecase/transaction/transaction_usecase_test.go:213-217 | The prefix is the first eight characters of the NIK when the NIK is longer than eight, and the whole NIK otherwise. |
| `ContractNumber.FormatYear` | usecase/transaction/transaction_usecase_test.go:220 | A year in 0..9999 is written as four digits that read back as the year. |
| `ContractNumber.Timestamp` | usecase/transaction/transaction_usecase_test.go:220 | The timestamp is fourteen digits for a year in 0..9999. |
| `ContractNumber.Generate` | usecase/transaction/transaction_usecase_test.go:212-223 | The contract number starts with the NIK prefix and "-". Its length is the prefix length plus twenty for a four-digit year, and at least that otherwise. |
| `ContractNumber.TimestampFields` | usecase/transaction/transaction_usecase_test.go:220 | For a year in 0..9999, the timestamp's digit groups read back as day, month, year, hour, minute and second. |
| `ContractNumber.ParseGenerate` | usecase/transaction/transaction_usecase_test.go:212-223 | For a year in 0..9999, splitting a generated contract number recovers the NIK prefix, the six calendar fields and the suffix, which is the nanosecond field modulo 10000. |
| `ContractNumber.SuffixInRange` | usecase/transaction/transaction_usecase_test.go:221-222 | For every instant, the contract number ends in "-" and four digits that read as the nanosecond field modulo 10000, so the suffix lies in 0..9999. For a year in 0..9999 the parser recovers that suffix. |
| `ContractNumber.GenerateTestTable` | usecase/transaction/transaction_usecase_test.go:225-250 | The table's two NIKs give "12345678-" and "1234-" as leading characters on 1 January 2023. |
| `Store.GetCustomer` | repository/customer_repo.go:23-30 | A customer comes back iff the NIK is present, and it is the stored one. An absent NIK is "no customer", not an error. |
| `Store.GetLimit` | repository/limit_repo.go:24-43 | A limit comes back iff the (NIK, tenor) row is present, carrying that NIK, tenor and amount. An absent row is "no limit", not an error. |
| `Store.UpdateLimit` | repository/limit_repo.go:46-60 | An absolute write of one row: that row takes the new amount if present, no other row changes, no row appears, and customers and records are untouched. |
| `Store.InsertTransaction` | repository/transaction_repo.go:22-48 | The record is appended to the log as given, and nothing else changes. |
| `Store.GetAfterUpdate` | repository/limit_repo.go:24-60 | Reading a row after writing it gives the written amount. Reading any other (NIK, tenor) row gives what it read before. |
| `Store.WorkStaysPending` | usecase/transaction/transaction_usecase.go:70-132 | Inside an open transaction the repository calls change only the working copy, never the committed tables. |
| `Store.RollbackDiscardsWork` | usecase/transaction/transaction_usecase.go:84-91 | A rollback drops the working copy and leaves the committed tables as they were. |
| `Store.ReplayFramed` | usecase/transaction/transaction_usecase.go:70-138 | A transaction framing some work leaves the tables the work produces on the working copy when it commits, and the tables unchanged when it never begins, rolls back or fails to commit. |
| `Store.RollbackAfterCommitIsHarmless` | service/transaction_service.go:54-55 | The deferred rollback that runs after a commit changes nothing. |
| `TransactionUsecase.CreateTransaction` | usecase/transaction/transaction_usecase.go:68-141 | A record is created iff begin, both lookups, insert, update and commit all succeed, the customer and the row exist, and the row covers OTR + admin fee. On failure the store is unchanged. On success the record (`Record`) copies the request's fields, takes the clock's time, and takes the contract number `FromUnixNano` builds from the clock's nanosecond reading. It is appended, only the (NIK, tenor) row changes and becomes old − total ≥ 0, and customers are untouched. |
| `TransactionUsecase.TraceShape` | usecase/transaction/transaction_usecase.go:70-138 | Every trace is one transaction around some work. It commits exactly when a record is created, and then the work is the two reads, the insert of that record and the write of the lowered limit. |
| `TransactionUsecase.StoreFollowsTrace` | usecase/transaction/transaction_usecase.go:70-138 | The store a call returns is the one its own database calls replay to under transaction semantics. |
| `TransactionUsecase.StepFaultsReported` | usecase/transaction/transaction_usecase.go:83-138 | After a successful begin, a failing customer lookup, limit lookup, insert, limit write or commit is reported with its own wrapped error and the driver's text. A failed limit lookup is an error, not the recovered outcome. |
| `TransactionUsecase.BeginFailureStopsEverything` | usecase/transaction/transaction_usecase.go:70-73 | A failed begin returns that error, issues no other call and changes nothing. |
| `TransactionUsecase.CustomerCheckedFirst` | usecase/transaction/transaction_usecase.go:83-94 | An unknown customer gives "customer not found" after only begin, the customer read and a rollback. No limit is read or written and nothing is appended. |
| `TransactionUsecase.LimitExceededIff` | usecase/transaction/transaction_usecase.go:101-107 | With the customer and the row found, the request is refused for its amount exactly when the row is below OTR + admin fee. |
| `TransactionUsecase.SpendingTheWholeLimit` | usecase/transaction/transaction_usecase.go:101-129 | A request for exactly the remaining limit succeeds and leaves the row at zero. |
| `TransactionUsecase.AbsentLimitIsRecovered` | usecase/transaction/transaction_usecase.go:76-104 | A missing limit row yields neither a record nor an error, after begin, two reads and a rollback, with the store unchanged. |
| `TransactionUsecase.InsertPrecedesUpdate` | usecase/transaction/transaction_usecase.go:121-138 | On success the calls are, in order: begin, the customer read, the limit read, the insert, the write of the lowered limit, and the commit. |
| `TransactionUsecase.UpdateFailureUndoesInsert` | usecase/transaction/transaction_usecase.go:122-132 | A failed limit write follows a successful insert, and the rollback leaves the store without that record. |
| `TransactionUsecase.CommitFailureUndoesAll` | usecase/transaction/transaction_usecase.go:134-138 | A failed commit after both writes leaves the store unchanged. |
| `TransactionUsecase.InstallmentAndInterestIrrelevant` | usecase/transaction/transaction_usecase.go:101-129 | Changing installment and interest changes neither the decision nor the limits. |
| `TransactionUsecase.Apply` | usecase/transaction/transaction_usecase.go:101-129 | One call on well-formed tables keeps limits in 0..MaxInt64 and keeps the row keys and customers. It lowers the request's row by its total only when a record is created, and appends only that record. |
| `TransactionUsecase.RunCalls` | usecase/transaction/transaction_usecase.go:68-141 | A sequence of calls, each on the tables the previous one left, gives one outcome per call and keeps the tables well formed. |
| `TransactionUsecase.RunDeducts` | usecase/transaction/transaction_usecase.go:104-129 | Over any sequence of calls, each row ends at its initial amount minus the totals of the successful calls on it, and never below zero. The log gains exactly the created records in call order, and customers are unchanged. |
| `TransactionUsecase.ContendedLimit` | usecase/transaction/transaction_usecase.go:101-107 | Two requests on one row that each fit but together exceed it: the first succeeds and the second is refused for its amount. |
| `TransactionUsecase.RefusalIgnoresClockAndLaterFaults` | usecase/transaction/transaction_usecase.go:101-107 | A refusal for the amount does not depend on the clock or on faults in steps after the check. |
| `TransactionUsecase.WrappedErrorsEndWithCause` | usecase/transaction/transaction_usecase.go:70-137 | The text of each wrapped error (`UsecaseError.Error`, the `fmt.Errorf` texts) ends with the driver's error text. |
| `TransactionUsecase.ScenarioSuccessfulCreation` | usecase/transaction/transaction_usecase_test.go:78-120 | From a limit of 10,000,000 the 1,000,000 + 50,000 request writes 8,950,000 and commits, with the calls in the order the test expects. |
| `TransactionUsecase.ScenarioUnknownCustomer` | usecase/transaction/transaction_usecase_test.go:121-141 | An unknown NIK is refused with an error mentioning "customer not found", rolls back, and reads or writes no limit. This holds whether the lookup errs or finds no row. |
| `TransactionUsecase.ScenarioInsufficientLimit` | usecase/transaction/transaction_usecase_test.go:142-164 | A total of 10,000,000 against a limit of 1,000,000 is refused with the limit-exceeded error, rolled back, and not written. |
| `TransactionService.CreateTransaction` | service/transaction_service.go:45-83 | No error iff begin, read, update, insert and commit succeed and the row exists and covers OTR + admin fee. On error the store is unchanged. On success the record is appended exactly as passed, only the row changes to old − total, and customers are untouched. An absent or insufficient row reads as "insufficient limit". |
| `TransactionService.TraceShape` | service/transaction_service.go:49-80 | Every trace is one transaction around some work. Once begun, it ends with the deferred rollback, also after a successful commit. It commits exactly when there is no error, and then the work is the read, the write of the lowered limit and the insert. |
| `TransactionService.StoreFollowsTrace` | service/transaction_service.go:49-80 | The store the variant returns is the one its own calls replay to, deferred rollback included. |
| `TransactionService.StepFaultsReported` | service/transaction_service.go:50-80 | A failing begin, limit lookup, limit write, insert or commit is reported with its own wrapped error and the driver's text. A failed lookup is not reported as insufficient limit. |
| `TransactionService.UpdatePrecedesInsert` | service/transaction_service.go:55-75 | The limit is written before the record is inserted. When the insert fails, the deferred rollback leaves the limit unchanged. |
| `TransactionService.CommitFailureUndoesAll` | service/transaction_service.go:77-80 | A failed commit after both writes leaves the store unchanged. |
| `TransactionService.NoCustomerCheck` | service/transaction_service.go:57-64 | Neither the customer table nor a customer-lookup fault affects the error, the calls or the resulting limits. |
| `TransactionService.OnlyTheRowMatters` | service/transaction_service.go:57-64 | The error and the calls depend on the limit table only through the (NIK, tenor) row. |
| `TransactionService.WrappedErrorsEndWithCause` | service/transaction_service.go:50-80 | The text of each wrapped error of the variant (`ServiceError.Error`) ends with the driver's error text. |
| `TransactionService.VariantsAgreeForKnownCustomers` | service/transaction_service.go:45-83 | For a known customer whose lookup does not fail, and given the record the usecase builds, the usecase creates a record iff the variant returns no error, and both leave the same store. |
| `TransactionService.UsecaseSuccessImpliesVariantSuccess` | service/transaction_service.go:57-80 | Whenever the usecase creates a record, the variant given that record succeeds. |
| `TransactionService.VariantsDifferOnMissingRow` | service/transaction_service.go:62-64 | For a known customer, with no faults and no row for the tenor, the usecase returns neither record nor error while the variant reports "insufficient limit". Both leave the store unchanged. |

## Left out

- Concurrency: the service's mutex and SQL isolation levels are not modelled. Each call is one atomic transition over the store.
- SQL text, row scanning and logging in the repositories: only their contracts over maps and a sequence are kept.
- Which connection runs a repository read: the reads go to the pool, not the transaction. Reads change nothing, so only their position in the call trace is kept.
- The HTTP handlers, the server wiring, configuration and the database connection are not modelled.
- Customer creation and the response DTOs are not modelled.
- `CreateTransactionRequest.ToString` is not modelled: it only formats fields.
- `http.StatusText`: `Errors.StatusText` is a small table of the codes the core uses.
- Clock: the current time and its Unix-nanosecond reading are the `Clock` parameter. The model lets them be unrelated readings, as the two separate clock calls allow.
- Driver errors: these are the `Faults` parameter. The error text is whatever the driver returned.
- Go panics: the only one the core can hit, reading the absent limit row, is the explicit outcome `Recovered`.
- NIK slicing is per character rather than per byte. The two agree for the ASCII digits a NIK is made of.
- `TransactionUsecase.CreateTransaction`: does not model int64 wrap-around of OTR + admin fee or of the lowered limit. The precondition `InRange` asks that the amounts, their total and the lowered limit fit in int64.
- `TransactionService.CreateTransaction`: does not model int64 wrap-around either. The precondition `InRange` asks for the same.
- `TransactionUsecase.RunCalls`: assumes each request is `Admissible`: int64 amounts whose total is non-negative and fits in int64. The validators ensure a positive OTR and a non-negative fee, but not that their sum fits. Without the assumption one call could raise a limit or overflow it.
- `TransactionUsecase.RunDeducts`: assumes admissible requests, for the same reason.
- The source itself breaks the non-negative-limit invariant when OTR + admin fee wraps around in int64. Take OTR = 2^63 − 1 and an admin fee of 1: the total wraps to −2^63 and passes the limit check at usecase/transaction/transaction_usecase.go:104. The write at :128 then stores a wrapped, negative limit. service/transaction_service.go:62,67 behave the same way. The model does not follow this path: its preconditions keep every total in int64.
- `ContractNumber.Timestamp`: fixes the length only for years 0..9999, where Go's layout writes four digits.
- `ContractNumber.Generate`: fixes the length only for years 0..9999, for the same reason.
- `ContractNumber.TimestampFields`: holds only for years 0..9999. Outside that range Go's "2006" layout writes more than four year digits (or a minus sign), so the fixed digit groups no longer line up.
- `ContractNumber.ParseGenerate`: holds only for years 0..9999, for the same reason. For a longer year the timestamp is longer than fourteen characters and `Parse` rejects the number.

## Findings

| source | as written | input that shows it | evidently intended | confidence | as-written member | corrected member |
|---|---|---|---|---|---|---|
| service/validate_service.go:24-26 | The validation error is built as a struct literal with only its message set, so its code stays 0. `HandleError` answers with that code. | Any invalid request, for example the all-zero request: `HandleError` answers with status 0. | Build the collection with `NewValidationError`, so a rejected request is answered with 400 "Bad Request". | not executed | `ValidateService.RejectionStatus` | `ValidateService.RejectionStatusCorrected` |
