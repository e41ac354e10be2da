/** The purchase request and its first-failure validator. */
module Dto {
  import opened Wrappers

  /** The purchase request as the client sends it. */
  datatype CreateTransactionRequest = CreateTransactionRequest(
    customerNik: string,
    otr: int,
    adminFee: int,
    installment: int,
    interest: int,
    assetName: string,
    tenor: int)
  {
    /** All seven field rules hold; a zero admin fee or interest is acceptable. */
    predicate Valid() {
      && customerNik != ""
      && otr > 0
      && adminFee >= 0
      && installment > 0
      && interest >= 0
      && assetName != ""
      && tenor > 0
    }
  }

  /** The checked fields, in the order both validators check them. */
  datatype Field = CustomerNik | Otr | AdminFee | Installment | Interest | AssetName | Tenor {

    function Rank(): nat {
      match this
      case CustomerNik => 0
      case Otr => 1
      case AdminFee => 2
      case Installment => 3
      case Interest => 4
      case AssetName => 5
      case Tenor => 6
    }

    /** The field's wire name. */
    function Name(): string {
      match this
      case CustomerNik => "customer_nik"
      case Otr => "otr"
      case AdminFee => "admin_fee"
      case Installment => "installment"
      case Interest => "interest"
      case AssetName => "asset_name"
      case Tenor => "tenor"
    }

    /** What the field's rule demands, phrased as the complaint when it fails. */
    function Rule(): string {
      match this
      case CustomerNik => "is required"
      case Otr => "must be greater than 0"
      case AdminFee => "cannot be negative"
      case Installment => "must be greater than 0"
      case Interest => "cannot be negative"
      case AssetName => "is required"
      case Tenor => "must be greater than 0"
    }
  }

  /** The field checked at position k. */
  function FieldAt(k: nat): (f: Field)
    requires k < 7
    ensures f.Rank() == k
  {
    match k
    case 0 => CustomerNik
    case 1 => Otr
    case 2 => AdminFee
    case 3 => Installment
    case 4 => Interest
    case 5 => AssetName
    case _ => Tenor
  }

  /** The rule for field f fails on req. */
  predicate Violated(req: CreateTransactionRequest, f: Field) {
    match f
    case CustomerNik => req.customerNik == ""
    case Otr => req.otr <= 0
    case AdminFee => req.adminFee < 0
    case Installment => req.installment <= 0
    case Interest => req.interest < 0
    case AssetName => req.assetName == ""
    case Tenor => req.tenor <= 0
  }

  /** The failing fields among the first k checked, in check order. */
  function ViolationsUpTo(req: CreateTransactionRequest, k: nat): seq<Field>
    requires k <= 7
  {
    if k == 0 then []
    else ViolationsUpTo(req, k - 1) + (if Violated(req, FieldAt(k - 1)) then [FieldAt(k - 1)] else [])
  }

  /** Reference: every failing field, in check order. */
  function Violations(req: CreateTransactionRequest): seq<Field> {
    ViolationsUpTo(req, 7)
  }

  predicate StrictlyRanked(fs: seq<Field>) {
    forall i, j :: 0 <= i < j < |fs| ==> fs[i].Rank() < fs[j].Rank()
  }

  lemma RankDetermines(f: Field, g: Field)
    ensures f.Rank() == g.Rank() ==> f == g
  {
  }

  lemma {:induction false} ViolationsUpToMembers(req: CreateTransactionRequest, k: nat, f: Field)
    requires k <= 7
    ensures f in ViolationsUpTo(req, k) <==> f.Rank() < k && Violated(req, f)
  {
    if k > 0 {
      ViolationsUpToMembers(req, k - 1, f);
      RankDetermines(f, FieldAt(k - 1));
    }
  }

  lemma {:induction false} ViolationsUpToRanked(req: CreateTransactionRequest, k: nat)
    requires k <= 7
    ensures StrictlyRanked(ViolationsUpTo(req, k))
    ensures |ViolationsUpTo(req, k)| <= k
  {
    if k > 0 {
      ViolationsUpToRanked(req, k - 1);
      var init := ViolationsUpTo(req, k - 1);
      forall g | g in init
        ensures g.Rank() < k - 1
      {
        ViolationsUpToMembers(req, k - 1, g);
      }
    }
  }

  /** A request is valid exactly when no field's rule fails. */
  lemma ValidIffNoViolation(req: CreateTransactionRequest)
    ensures req.Valid() <==> forall f :: !Violated(req, f)
  {
    if !req.Valid() {
      if req.customerNik == "" { assert Violated(req, CustomerNik); }
      else if req.otr <= 0 { assert Violated(req, Otr); }
      else if req.adminFee < 0 { assert Violated(req, AdminFee); }
      else if req.installment <= 0 { assert Violated(req, Installment); }
      else if req.interest < 0 { assert Violated(req, Interest); }
      else if req.assetName == "" { assert Violated(req, AssetName); }
      else { assert Violated(req, Tenor); }
    }
  }

  /** The reference list names exactly the failing fields, each once, in check order. */
  lemma ViolationsCharacterised(req: CreateTransactionRequest)
    ensures forall f :: f in Violations(req) <==> Violated(req, f)
    ensures StrictlyRanked(Violations(req))
    ensures |Violations(req)| <= 7
    ensures req.Valid() <==> Violations(req) == []
  {
    var v := Violations(req);
    forall f
      ensures f in v <==> Violated(req, f)
    {
      ViolationsUpToMembers(req, 7, f);
    }
    ViolationsUpToRanked(req, 7);
    ValidIffNoViolation(req);
    assert v != [] ==> Violated(req, v[0]);
  }

  /** f fails on req and no field checked before it does. */
  predicate FirstFailure(req: CreateTransactionRequest, f: Field) {
    Violated(req, f) && forall g: Field :: g.Rank() < f.Rank() ==> !Violated(req, g)
  }

  /** The head of the reference list is the first failing field. */
  lemma ViolationsHeadIsFirstFailure(req: CreateTransactionRequest)
    requires !req.Valid()
    ensures Violations(req) != [] && FirstFailure(req, Violations(req)[0])
  {
    ViolationsCharacterised(req);
  }

  lemma FirstFailureUnique(req: CreateTransactionRequest, f: Field, g: Field)
    requires FirstFailure(req, f) && FirstFailure(req, g)
    ensures f == g
  {
    assert f.Rank() < g.Rank() ==> !Violated(req, f);
    assert g.Rank() < f.Rank() ==> !Violated(req, g);
    RankDetermines(f, g);
  }

  /** The text Validate reports when field f is the first to fail. */
  function Complaint(f: Field): string {
    match f
    case CustomerNik => "customer_nik is required"
    case Otr => "otr must be greater than 0"
    case AdminFee => "admin_fee cannot be negative"
    case Installment => "installment must be greater than 0"
    case Interest => "interest cannot be negative"
    case AssetName => "asset_name is required"
    case Tenor => "tenor must be greater than 0"
  }

  /** The complaint about one field is its wire name, one space, and its rule; one lemma per field
      keeps each string comparison small. */
  lemma CustomerNikComplaint()
    ensures Complaint(CustomerNik) == CustomerNik.Name() + " " + CustomerNik.Rule()
  {
  }

  lemma OtrComplaint()
    ensures Complaint(Otr) == Otr.Name() + " " + Otr.Rule()
  {
  }

  lemma AdminFeeComplaint()
    ensures Complaint(AdminFee) == AdminFee.Name() + " " + AdminFee.Rule()
  {
  }

  lemma InstallmentComplaint()
    ensures Complaint(Installment) == Installment.Name() + " " + Installment.Rule()
  {
  }

  lemma InterestComplaint()
    ensures Complaint(Interest) == Interest.Name() + " " + Interest.Rule()
  {
  }

  lemma AssetNameComplaint()
    ensures Complaint(AssetName) == AssetName.Name() + " " + AssetName.Rule()
  {
  }

  lemma TenorComplaint()
    ensures Complaint(Tenor) == Tenor.Name() + " " + Tenor.Rule()
  {
  }

  /** Every complaint is the field's wire name, one space, and its rule. */
  lemma ComplaintIsNameAndRule(f: Field)
    ensures Complaint(f) == f.Name() + " " + f.Rule()
  {
    match f
    case CustomerNik => CustomerNikComplaint();
    case Otr => OtrComplaint();
    case AdminFee => AdminFeeComplaint();
    case Installment => InstallmentComplaint();
    case Interest => InterestComplaint();
    case AssetName => AssetNameComplaint();
    case Tenor => TenorComplaint();
  }

  /** First-failure validation: nothing when every rule holds, otherwise the complaint of the first failing field. */
  function Validate(req: CreateTransactionRequest): (r: Option<string>)
    ensures r.None? <==> req.Valid()
    ensures r.Some? ==> exists f :: FirstFailure(req, f) && r.value == Complaint(f)
  {
    if req.customerNik == "" then
      assert FirstFailure(req, CustomerNik); Some("customer_nik is required")
    else if req.otr <= 0 then
      assert FirstFailure(req, Otr); Some("otr must be greater than 0")
    else if req.adminFee < 0 then
      assert FirstFailure(req, AdminFee); Some("admin_fee cannot be negative")
    else if req.installment <= 0 then
      assert FirstFailure(req, Installment); Some("installment must be greater than 0")
    else if req.interest < 0 then
      assert FirstFailure(req, Interest); Some("interest cannot be negative")
    else if req.assetName == "" then
      assert FirstFailure(req, AssetName); Some("asset_name is required")
    else if req.tenor <= 0 then
      assert FirstFailure(req, Tenor); Some("tenor must be greater than 0")
    else None
  }

  /** The first failing field is unique, so Validate names the head of the reference list. */
  lemma ValidateReportsFirstViolation(req: CreateTransactionRequest)
    requires !req.Valid()
    ensures Violations(req) != []
    ensures Validate(req) == Some(Complaint(Violations(req)[0]))
  {
    ViolationsHeadIsFirstFailure(req);
    var h := Violations(req)[0];
    var f :| FirstFailure(req, f) && Validate(req).value == Complaint(f);
    FirstFailureUnique(req, f, h);
  }

  /** Zero is rejected for the price, the installment and the tenor, and accepted for the fee and the interest. */
  lemma ZeroBoundaries(req: CreateTransactionRequest)
    requires req.customerNik != "" && req.assetName != ""
    ensures req.otr == 0 ==> Validate(req) == Some("otr must be greater than 0")
    ensures req.otr > 0 && req.adminFee == 0 && req.installment == 0 ==> Validate(req) == Some("installment must be greater than 0")
    ensures req.otr > 0 && req.adminFee == 0 && req.installment > 0 && req.interest == 0 && req.tenor == 0
         ==> Validate(req) == Some("tenor must be greater than 0")
    ensures req.otr > 0 && req.adminFee == 0 && req.installment > 0 && req.interest == 0 && req.tenor > 0
         ==> Validate(req) == None
  {
  }
}
