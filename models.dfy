/**
 * The ledger's records (users, accounts, cards, transactions, loans and their
 * schedule entries), the outcome of an operation, and the calendar arithmetic
 * the card-expiry check needs. Monetary fields are exact decimals (`real`);
 * instants are UTC.
 */
module Models {

  datatype Option<T> = None | Some(value: T)

  /** What a rejected operation reports to the HTTP layer, in place of a status code. */
  datatype Error =
    | ValidationError     // bad caller input: non-positive amount or term, same-account transfer, empty user ID
    | NotFound            // a referenced user, account or card is absent
    | Conflict            // username or email already registered
    | InsufficientFunds
    | CardExpired
    | InternalError       // a step the protocol expected to succeed failed

  datatype Status = Ok | Err(error: Error)

  datatype Result<T> = Success(value: T) | Failure(error: Error)

  /**
   * An instant in UTC: `month` counts calendar months from January of year 0
   * (year * 12 + month - 1) and `nanos` is the time elapsed since the first
   * instant of that month.
   */
  datatype Instant = Instant(month: int, nanos: nat)

  const NanosPerSecond: nat := 1_000_000_000
  const NanosPerDay: nat := 86_400 * NanosPerSecond

  /** The month index of calendar month `month` (1-based) of `year`; out-of-range months normalize into neighbouring years. */
  function MonthIndex(year: int, month: int): int {
    year * 12 + (month - 1)
  }

  predicate IsLeapYear(year: int) {
    year % 4 == 0 && (year % 100 != 0 || year % 400 == 0)
  }

  /** Days in the month with index `m` (proleptic Gregorian calendar). */
  function DaysIn(m: int): (days: int)
    ensures 28 <= days <= 31
  {
    var year, month := m / 12, m % 12 + 1;
    if month == 2 then (if IsLeapYear(year) then 29 else 28)
    else if month == 4 || month == 6 || month == 9 || month == 11 then 30
    else 31
  }

  /** An instant whose offset lies inside its month. */
  predicate WellFormed(t: Instant) {
    t.nanos < DaysIn(t.month) * NanosPerDay
  }

  /** `a` is strictly later than `b`. */
  predicate After(a: Instant, b: Instant) {
    a.month > b.month || (a.month == b.month && a.nanos > b.nanos)
  }

  datatype User = User(id: string, username: string, email: string, passwordHash: string, createdAt: Instant)

  datatype Account = Account(id: string, userId: string, number: string, balance: real, createdAt: Instant)

  datatype Card = Card(id: string, accountId: string, number: string, expiryMonth: int, expiryYear: int,
                       cvv: string, createdAt: Instant)

  /**
   * An entry of the audit log. An empty `fromAccountId` means money entered
   * the ledger from outside, an empty `toAccountId` that it left it.
   */
  datatype Transaction = Transaction(id: string, fromAccountId: string, toAccountId: string, amount: real,
                                     timestamp: Instant, transactionType: string, description: string)

  const PaymentType := "payment"
  const TransferType := "transfer"
  const DepositType := "deposit"
  const LoanDisbursementType := "loan_disbursement"

  /** One entry of a loan's payment schedule; `dueMonth` is a month index. */
  datatype Payment = Payment(dueMonth: int, amount: real, principalPart: real, interestPart: real, paid: bool)

  datatype Loan = Loan(id: string, userId: string, accountId: string, amount: real, interestRate: real,
                       termMonths: int, startDate: Instant, paymentSchedule: seq<Payment>, remainingAmount: real)

  /**
   * The last instant a card is usable: 23:59:59 UTC on the last day of its
   * expiry month. The month may lie outside 1..12; it is normalized.
   */
  function CardExpiry(card: Card): (t: Instant)
    ensures WellFormed(t) && t.month == MonthIndex(card.expiryYear, card.expiryMonth)
    ensures t.nanos + NanosPerSecond == DaysIn(t.month) * NanosPerDay
  {
    var m := MonthIndex(card.expiryYear, card.expiryMonth);
    Instant(m, DaysIn(m) * NanosPerDay - NanosPerSecond)
  }

  predicate IsExpired(card: Card, now: Instant) {
    After(now, CardExpiry(card))
  }

  /** A card is usable before its expiry month and in that month up to 23:59:59.000 on its last day, and expired in every later month. */
  lemma ExpiryBoundary(card: Card, now: Instant)
    requires WellFormed(now)
    ensures now.month < MonthIndex(card.expiryYear, card.expiryMonth) ==> !IsExpired(card, now)
    ensures now.month > MonthIndex(card.expiryYear, card.expiryMonth) ==> IsExpired(card, now)
    ensures now.month == MonthIndex(card.expiryYear, card.expiryMonth) ==>
              (IsExpired(card, now) <==> now.nanos + NanosPerSecond > DaysIn(now.month) * NanosPerDay)
  {
  }
}
