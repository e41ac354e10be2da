/** The accumulating request validator and the mapping from an error value to an HTTP status. */
module ValidateService {
  import opened Wrappers
  import opened Errors
  import opened Dto

  /** The entry the accumulating validator records when field f fails. */
  function Entry(f: Field): ValidationError {
    ValidationError(f.Name(), f.Rule())
  }

  function Entries(fs: seq<Field>): (r: seq<ValidationError>)
    ensures |r| == |fs|
    ensures forall i :: 0 <= i < |fs| ==> r[i] == Entry(fs[i])
  {
    if fs == [] then [] else [Entry(fs[0])] + Entries(fs[1..])
  }

  lemma {:induction false} EntriesAppend(a: seq<Field>, b: seq<Field>)
    ensures Entries(a + b) == Entries(a) + Entries(b)
  {
    var e := Entries(a + b);
    assert |e| == |Entries(a) + Entries(b)|;
    forall i | 0 <= i < |e|
      ensures e[i] == (Entries(a) + Entries(b))[i]
    {
      assert (a + b)[i] == if i < |a| then a[i] else b[i - |a|];
    }
  }

  lemma EntriesSnoc(fs: seq<Field>, f: Field)
    ensures Entries(fs + [f]) == Entries(fs) + [Entry(f)]
  {
    EntriesAppend(fs, [f]);
  }

  /** fs lists, in check order, exactly the failing fields among the first k checked. */
  ghost predicate CollectedUpTo(req: CreateTransactionRequest, fs: seq<Field>, k: nat) {
    && StrictlyRanked(fs)
    && (forall f :: f in fs ==> f.Rank() < k)
    && (forall f :: f in fs <==> f.Rank() < k && Violated(req, f))
  }

  /** One step of the chain: `if failed { v.Add(field, message) }`, the check of field f.
      The ghost list fs follows the failing fields collected so far. */
  method AddIf(v: ValidationErrors, failed: bool, field: string, message: string,
               ghost req: CreateTransactionRequest, ghost fs: seq<Field>, ghost f: Field)
    returns (r: ValidationErrors, ghost fs': seq<Field>)
    requires failed == Violated(req, f) && field == f.Name() && message == f.Rule()
    requires v.errors == Entries(fs)
    requires CollectedUpTo(req, fs, f.Rank())
    ensures r.errors == Entries(fs')
    ensures CollectedUpTo(req, fs', f.Rank() + 1)
    ensures r.code == v.code && r.status == v.status && r.message == v.message
  {
    if failed {
      EntriesSnoc(fs, f);
      r := v.Add(field, message);
      fs' := fs + [f];
      forall i, j | 0 <= i < j < |fs'|
        ensures fs'[i].Rank() < fs'[j].Rank()
      {
        assert fs'[i] == fs[i] && fs[i] in fs;
      }
    } else {
      r := v;
      fs' := fs;
    }
    forall g
      ensures g in fs' <==> g.Rank() < f.Rank() + 1 && Violated(req, g)
    {
      RankDetermines(g, f);
    }
  }

  /** Two check-ordered lists with the same members are the same list. */
  lemma {:induction false} RankedListUnique(a: seq<Field>, b: seq<Field>)
    requires StrictlyRanked(a) && StrictlyRanked(b)
    requires forall f :: f in a <==> f in b
    ensures a == b
    decreases |a|
  {
    assert a != [] ==> a[0] in b;
    assert b != [] ==> b[0] in a;
    if a != [] && b != [] {
      HeadIsLeast(a, b[0]);
      HeadIsLeast(b, a[0]);
      RankDetermines(a[0], b[0]);
      forall f
        ensures f in a[1..] <==> f in b[1..]
      {
        TailMembers(a, f);
        TailMembers(b, f);
      }
      RankedListUnique(a[1..], b[1..]);
      assert a == [a[0]] + a[1..];
      assert b == [b[0]] + b[1..];
    }
  }

  /** In a check-ordered list the head has the least rank. */
  lemma HeadIsLeast(a: seq<Field>, f: Field)
    requires StrictlyRanked(a) && f in a
    ensures a[0].Rank() <= f.Rank()
  {
    var i :| 0 <= i < |a| && a[i] == f;
    assert i == 0 || a[0].Rank() < a[i].Rank();
  }

  /** The tail of a check-ordered list holds everything except the head. */
  lemma TailMembers(a: seq<Field>, f: Field)
    requires StrictlyRanked(a) && a != []
    ensures f in a[1..] <==> f in a && f != a[0]
  {
    if f in a[1..] {
      var i :| 0 <= i < |a[1..]| && a[1..][i] == f;
      assert a[i + 1] == f;
    }
    if f in a && f != a[0] {
      var i :| 0 <= i < |a| && a[i] == f;
      assert a[1..][i - 1] == f;
    }
  }

  /** A complete collection is the reference list, and its head is what Validate reports. */
  lemma CollectedIsReference(req: CreateTransactionRequest, fs: seq<Field>)
    requires CollectedUpTo(req, fs, 7)
    ensures fs == Violations(req)
    ensures fs == [] <==> req.Valid()
    ensures fs != [] ==> Validate(req) == Some(fs[0].Name() + " " + fs[0].Rule())
  {
    ViolationsCharacterised(req);
    RankedListUnique(fs, Violations(req));
    if fs != [] {
      ValidateReportsFirstViolation(req);
      ComplaintIsNameAndRule(fs[0]);
    }
  }

  /** Runs all seven checks and collects one entry per failing field, in check order.
      The collection keeps the zero code and empty status it was created with, and it
      agrees with the first-failure validator: both reject exactly the same requests,
      and the first entry spells the first-failure complaint. */
  method ValidateTransactionRequest(req: CreateTransactionRequest) returns (r: Option<ValidationErrors>)
    ensures r.None? <==> req.Valid()
    ensures r.Some? ==> r.value.errors == Entries(Violations(req))
    ensures r.Some? ==> r.value.Error() == "Validation failed" && r.value.code == 0 && r.value.status == ""
    ensures r.None? <==> Validate(req).None?
    ensures r.Some? ==> r.value.errors != [] && Validate(req) == Some(r.value.errors[0].field + " " + r.value.errors[0].message)
  {
    var v := ValidationErrors(0, "", "Validation failed", []);
    ghost var fs: seq<Field> := [];
    v, fs := AddIf(v, req.customerNik == "", "customer_nik", "is required", req, fs, CustomerNik);
    v, fs := AddIf(v, req.otr <= 0, "otr", "must be greater than 0", req, fs, Otr);
    v, fs := AddIf(v, req.adminFee < 0, "admin_fee", "cannot be negative", req, fs, AdminFee);
    v, fs := AddIf(v, req.installment <= 0, "installment", "must be greater than 0", req, fs, Installment);
    v, fs := AddIf(v, req.interest < 0, "interest", "cannot be negative", req, fs, Interest);
    v, fs := AddIf(v, req.assetName == "", "asset_name", "is required", req, fs, AssetName);
    v, fs := AddIf(v, req.tenor <= 0, "tenor", "must be greater than 0", req, fs, Tenor);
    CollectedIsReference(req, fs);
    if v.HasErrors() {
      r := Some(v);
    } else {
      r := None;
    }
  }

  /** The request with every field at its zero value. */
  const ZeroRequest: CreateTransactionRequest := CreateTransactionRequest("", 0, 0, 0, 0, "", 0)

  /** The zero request fails five checks: the fee and the interest may be zero. */
  lemma ZeroRequestViolations()
    ensures Violations(ZeroRequest) == [CustomerNik, Otr, Installment, AssetName, Tenor]
  {
  }

  /** Validating the zero request yields exactly five entries, in check order. */
  method ValidateZeroRequest() returns (fields: seq<string>)
    ensures fields == ["customer_nik", "otr", "installment", "asset_name", "tenor"]
  {
    var r := ValidateTransactionRequest(ZeroRequest);
    ZeroRequestViolations();
    fields := seq(|r.value.errors|, i requires 0 <= i < |r.value.errors| => r.value.errors[i].field);
  }

  /** The error values HandleError tells apart: a validation collection, a coded error response, anything else. */
  datatype Failure = Invalid(errs: ValidationErrors) | Coded(resp: ErrorResponse) | Opaque(text: string) {
    function Error(): string {
      match this
      case Invalid(v) => v.Error()
      case Coded(e) => e.Error()
      case Opaque(t) => t
    }
  }

  /** The status code a typed error carries. */
  function CarriedCode(f: Failure): int
    requires !f.Opaque?
  {
    match f
    case Invalid(v) => v.code
    case Coded(e) => e.code
  }

  /** The HTTP status and body for an error: a typed error answers with its own code and itself,
      anything else with 500 and the shared internal-server-error response. */
  function HandleError(err: Failure): (r: (int, Failure))
    ensures !r.1.Opaque? && r.0 == CarriedCode(r.1)
    ensures !err.Opaque? ==> r.1 == err
    ensures err.Opaque? ==> r == (StatusInternalServerError, Coded(ErrInternalServerError))
    ensures err.Opaque? ==> r.1.Error() == "internal server error"
  {
    match err
    case Invalid(v) => (v.code, err)
    case Coded(e) => (e.code, err)
    case Opaque(_) => (StatusInternalServerError, Coded(ErrInternalServerError))
  }

  /** Handling the body HandleError produced gives the same answer again. */
  lemma HandleErrorIsStable(err: Failure)
    ensures HandleError(HandleError(err).1) == HandleError(err)
  {
  }

  /** The status a rejected request is answered with, as the validator builds its error. */
  method RejectionStatus(req: CreateTransactionRequest) returns (status: int)
    requires !req.Valid()
    ensures status == 0
  {
    var r := ValidateTransactionRequest(req);
    status := HandleError(Invalid(r.value)).0;
  }

  /** The validator with its collection built by NewValidationError, so that it carries 400. */
  method ValidateTransactionRequestCorrected(req: CreateTransactionRequest) returns (r: Option<ValidationErrors>)
    ensures r.None? <==> req.Valid()
    ensures r.Some? ==> r.value.errors == Entries(Violations(req)) && r.value.Error() == "Validation failed"
    ensures r.Some? ==> r.value.code == StatusBadRequest && r.value.status == "Bad Request"
  {
    var collected := ValidateTransactionRequest(req);
    if collected.Some? {
      r := Some(NewValidationError(collected.value.message, collected.value.errors));
    } else {
      r := None;
    }
  }

  /** With the corrected validator a rejected request is answered with 400. */
  method RejectionStatusCorrected(req: CreateTransactionRequest) returns (status: int)
    requires !req.Valid()
    ensures status == StatusBadRequest
  {
    var r := ValidateTransactionRequestCorrected(req);
    status := HandleError(Invalid(r.value)).0;
  }
}
