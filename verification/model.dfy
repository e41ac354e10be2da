/** The persisted entities: customers, per-tenor limits and transaction records. */
module Model {

  /** Go's int64 range; the engines require the amounts they add and subtract to stay inside it. */
  const MinInt64: int := -0x8000_0000_0000_0000
  const MaxInt64: int := 0x7FFF_FFFF_FFFF_FFFF

  predicate IsInt64(x: int) {
    MinInt64 <= x <= MaxInt64
  }

  /** A wall-clock reading as Go's time.Time exposes it through its calendar fields. */
  datatype Instant = Instant(year: int, month: int, day: int, hour: int, minute: int, second: int, nanosecond: int) {
    predicate Valid() {
      && 1 <= month <= 12
      && 1 <= day <= 31
      && 0 <= hour < 24
      && 0 <= minute < 60
      && 0 <= second < 60
      && 0 <= nanosecond < 1_000_000_000
    }
  }

  /** A customer; the engine only ever asks whether one exists for a NIK. */
  datatype Customer = Customer(
    nik: string,
    fullName: string,
    legalName: string,
    birthPlace: string,
    birthDate: string,
    salary: int,
    photoKtp: string,
    photoSelfie: string)

  /** The remaining limit of one customer for one tenor. */
  datatype CustomerLimit = CustomerLimit(customerNik: string, tenor: int, limitAmount: int)

  /** A recorded purchase on credit. */
  datatype Transaction = Transaction(
    contractNumber: string,
    customerNik: string,
    otr: int,
    adminFee: int,
    installment: int,
    interest: int,
    assetName: string,
    createdAt: Instant)
}
