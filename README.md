# BankApp ledger core in Dafny

This project models the core of BankApp, a small Go banking service that keeps users, accounts, payment cards, loans and an audit log of transactions in memory. The model has three parts.

- **The ledger store** (`storage.dfy`, module `Storage`).
  - A class `InMemoryStorage` with the same ten tables as the Go struct: four primary maps, the transaction list and five secondary indexes (username → user, email → user, user → account IDs, account → card IDs, user → loan IDs).
  - Each `Add*` operation and `UpdateAccountBalance` is a method that changes only the tables it names. Each `Get*` lookup is a method proved against its contract; the list lookups are proved against `Resolve` and `Involving` and keep the loops of the Go code, with their invariants.
  - The class invariant `Valid()` is referential integrity: every record is stored under its own ID; the username and email indexes point at stored users; every account, card and loan names stored owners and is filed in its owner's index; and every index entry resolves. Every operation preserves it.
  - The ghost function `Unrecorded()` is the sum of all balances minus the net money the log says entered the ledger. It is the ledger's conservation law: the handlers keep it constant, provided account creation uses an account ID not already stored and the credited or debited account ID is non-empty (see "## Left out").
- **The amortization engine** (`amortization.dfy`, module `Amortization`).
  - `CalculateMonthlyPayment`, with its guards, its zero-rate branch and banker's rounding.
  - `GeneratePaymentSchedule`, the month loop with its final-month and overshoot correction. It is proved against the predicate `IsSchedule`, which determines the schedule uniquely, and its principal parts are proved to sum exactly to the loan amount.
- **The handler protocols** (`handlers.dfy`, module `Handlers`).
  - The validate, mutate and record steps of account creation, transfer, card payment, deposit and loan application.
  - The financial summary.
  - HTTP status codes become the `Error` values of `models.dfy`.

The records (`Account`, `Card`, `Transaction`, `Loan`, `Payment`, `User`) and the card-expiry calendar are in `models.dfy`. Decimal rounding is in `money.dfy`.

Fresh IDs, account numbers and the current instant are parameters of the operations. The outcome of the key-rate lookup is a `Result<real>` parameter. An instant is a month index (`year * 12 + month - 1`) plus nanoseconds into that month, in UTC.

Money is `real`: the decimal library the service uses is exact for addition, subtraction and comparison, and so are Dafny's reals. Integer cents would be narrower than the code. The handlers accept any positive decimal (a deposit of 0.001 is stored as such). Division is the one operation where the model is exact and the code is not: the decimal library rounds every quotient to 16 decimal places (see "## Left out").

The Go handlers are package functions over one global store. Here they are module-level methods that take the store `s` as a parameter.

## Model

| member | source | states |
|---|---|---|
| Money.RoundHalfEven | utils.go:64 | the result is an integer within 1/2 of the input, and on a tie it is even |
| Money.RoundHalfEvenUnique | utils.go:64 | no other integer has both properties, so the rounding is determined by them |
| Money.RoundBank2 | utils.go:64 | `RoundBank(2)` yields whole cents within half a cent of the input, and an even number of cents on an exact half cent |
| Money.RoundBank2Unique | utils.go:64 | any amount meeting that rule is the result of `RoundBank(2)`, so the rule determines the rounding |
| Money.RoundBank2OfCents | utils.go:80 | an amount that is already whole cents is left unchanged |
| Money.RoundBank2Idempotent | utils.go:64 | rounding twice equals rounding once |
| Money.CentsClosed | utils.go:76 | whole-cent amounts are closed under addition and subtraction |
| Models.DaysIn | handlers.go:216 | every month has 28 to 31 days |
| Models.CardExpiry | handlers.go:216 | the expiry instant lies in the normalized expiry month, one second before the month ends (23:59:59 on its last day) |
| Models.ExpiryBoundary | handlers.go:215-217 | a card is usable before its expiry month and during that month up to its final second, and expired in every later month |
| Amortization.MonthlyRate | utils.go:46 | the monthly rate times 1200 is the annual percentage rate |
| Amortization.CalculateMonthlyPayment | utils.go:42-65 | a non-positive term gives 0; a zero rate gives a payment that repays the loan in `termMonths` equal parts; otherwise the payment is 0 when `(1+r)^n - 1` is 0, and else it is the annuity payment rounded half to even to cents |
| Amortization.AnnuityPayment | utils.go:52-62 | the annuity payment P solves `P * ((1+r)^n - 1) == L * r * (1+r)^n` |
| Amortization.OutstandingClosedForm | utils.go:52-62 | after k months of accrual and payment the balance times r is `L*r*(1+r)^k - P*((1+r)^k - 1)` |
| Amortization.AnnuityRepaysLoan | utils.go:52-62 | before rounding, the annuity payment leaves exactly nothing owed after the full term |
| Amortization.StraightLineRepaysLoan | utils.go:48-50 | with a zero rate, `termMonths` payments of `loanAmount / termMonths` repay the loan exactly |
| Amortization.InterestDue | utils.go:75 | each month's interest is the remaining principal times the monthly rate, rounded half to even to cents |
| Amortization.GeneratePaymentSchedule | utils.go:67-98 | the result satisfies `IsSchedule`: empty for a zero term (a negative term is the one case where the code panics instead, see "## Left out"), otherwise 1 to `termMonths` unpaid entries; entry i is due i+1 months after the start; interest is the rounded interest on the principal still owed; regular entries pay `monthlyPayment` and leave a positive balance; the last entry pays off the rest with a rounded amount; and the principal parts sum to the loan amount |
| Amortization.RemainingStep | utils.go:92 | paying entry k lowers the remaining principal by exactly that entry's principal part |
| Amortization.ScheduleRepaysPrincipal | utils.go:69-95 | any schedule with `IsSchedule` and a positive term repays the loan amount exactly and leaves zero owed after its last entry |
| Amortization.ClosingEntryRepays | utils.go:78-79 | a closing entry that pays exactly the remaining principal brings the principal total up to the loan amount |
| Amortization.ScheduleDueDatesIncrease | utils.go:73 | due months strictly increase and stay within the term |
| Amortization.ScheduleTotalsAddUp | utils.go:76-80 | with cent inputs every entry's amount is its principal plus its interest, so the amount column sums to the other two |
| Amortization.ScheduleUnique | utils.go:67-98 | `IsSchedule` admits exactly one schedule, so the loop's result is the only one that meets the specification |
| Storage.File | storage.go:76 | filing an ID puts it last in the owner's list after the IDs already there, the owner becomes a key, and every other owner's list is unchanged |
| Storage.FileKeeps | storage.go:76 | filing keeps every ID already filed, under every owner |
| Storage.Resolve | storage.go:90-96 | the records of the listed IDs, in order, skipping absent IDs; never longer than the ID list, and exactly as long when every ID is present |
| Storage.ResolveConcat | storage.go:92-96 | resolving is order-preserving: the records of a concatenation are the concatenation of the records |
| Storage.ResolveAllPresent | storage.go:92-96 | when every ID is present, entry j is the record of ID j |
| Storage.ResolveMembership | storage.go:92-96 | a record is in the result exactly when some listed, present ID names it |
| Storage.CollectPresent | storage.go:90-97 | the lookup loop returns `Resolve` of the ID list |
| Storage.Involving | storage.go:127-133 | the history is a filter of the log: never longer than it, and every entry involves the account |
| Storage.InvolvingConcat | storage.go:128-132 | filtering preserves order: the history of a concatenation is the concatenation of the histories |
| Storage.InvolvingComplete | storage.go:128-132 | no logged transaction that names the account is missing from its history |
| Storage.NetFlowAppend | storage.go:121 | appending a transaction adds its external flow to the net flow |
| Storage.TotalBalanceCredit | storage.go:113-114 | crediting one account changes the sum of all balances by exactly the amount |
| Storage.TotalBalanceInsert | storage.go:75 | inserting a new account adds its balance to the sum |
| Storage.Credit | storage.go:109-114 | the credited account's balance changes by `amount`; no other field and no other account changes |
| Storage.InMemoryStorage.constructor | storage.go:26-39 | all tables start empty, the store is consistent and `Unrecorded()` is 0 |
| Storage.InMemoryStorage.AddUser | storage.go:41-56 | fails with `Conflict` and changes nothing when the username or the email is indexed; otherwise all three user tables gain the user |
| Storage.InMemoryStorage.GetUserByUsername | storage.go:58-67 | returns a user exactly when the username is indexed, and it is the user stored under the indexed ID |
| Storage.InMemoryStorage.AddAccount | storage.go:69-78 | fails with `NotFound` and changes nothing for an unknown owner; otherwise stores the account and appends its ID to the owner's list |
| Storage.InMemoryStorage.GetAccount | storage.go:80-85 | returns the stored account exactly when the ID is stored |
| Storage.InMemoryStorage.GetUserAccounts | storage.go:87-98 | returns `Resolve` of the user's account list |
| Storage.InMemoryStorage.UpdateAccountBalance | storage.go:100-116 | fails with `NotFound` and changes nothing for an unknown account; otherwise the accounts become `Credit(old, id, amount)`, a negative result included, and `Unrecorded()` grows by `amount` |
| Storage.InMemoryStorage.AddTransaction | storage.go:118-122 | the log becomes the old log plus the new record, and `Unrecorded()` drops by the record's external flow |
| Storage.InMemoryStorage.GetAccountTransactions | storage.go:124-134 | returns `Involving(log, id)`: the matching transactions in log order |
| Storage.InMemoryStorage.AddCard | storage.go:136-145 | fails with `NotFound` and changes nothing when the card's account is absent; otherwise stores and files the card |
| Storage.InMemoryStorage.GetAccountCards | storage.go:147-158 | returns `Resolve` of the account's card list |
| Storage.InMemoryStorage.GetCardByNumber | storage.go:160-169 | finds a card exactly when some stored card has the number, and what it finds is a stored card with that number |
| Storage.InMemoryStorage.AddLoan | storage.go:171-183 | fails with `NotFound` and changes nothing when the user or the account is absent; otherwise stores and files the loan |
| Storage.InMemoryStorage.GetUserLoans | storage.go:185-196 | returns `Resolve` of the user's loan list |
| Storage.InMemoryStorage.GetLoan | storage.go:198-203 | returns the stored loan exactly when the ID is stored |
| Storage.AddUserKeepsConsistent | storage.go:52-54 | registering a user with a free username and email keeps the store consistent |
| Storage.AddAccountKeepsConsistent | storage.go:75-76 | storing and filing an account of a known user keeps the store consistent |
| Storage.AddCardKeepsConsistent | storage.go:142-143 | storing and filing a card of a stored account keeps the store consistent |
| Storage.AddLoanKeepsConsistent | storage.go:180-181 | storing and filing a loan of a known user and account keeps the store consistent |
| Storage.SameOwnersKeepConsistent | storage.go:113-114 | changing only balances keeps the store consistent |
| Storage.FileResolves | storage.go:76 | filing the ID of a newly stored record keeps the index resolving |
| Storage.IndexLookupComplete | storage.go:87-98 | on a consistent store a lookup drops nothing: one record per filed ID, in filing order |
| Storage.UserAccountsComplete | storage.go:87-98 | on a consistent store, every stored account a user owns is in that user's lookup |
| Storage.UserLoansComplete | storage.go:185-196 | on a consistent store, every stored loan a user took is in that user's lookup |
| Handlers.LoanRate | handlers.go:378-384 | the loan rate is the key rate plus 5, or 10 plus 5 when the lookup failed |
| Handlers.CreateAccount | handlers.go:106-134 | an empty user ID is a validation error and an unknown user an internal error, and neither changes anything; otherwise a zero-balance account is stored and filed, and, for an account ID not already stored, `Unrecorded()` is unchanged |
| Handlers.Transfer | handlers.go:254-310 | same account, a non-positive amount, a missing account and insufficient funds are rejected in that order with no change; success debits the source and credits the destination by `amount`, appends one transfer record naming both accounts' numbers, and keeps `Unrecorded()` |
| Handlers.TransferKeepsConsistent | handlers.go:291-295 | the transfer's two balance writes keep the store consistent |
| Handlers.TransferKeepsTotal | handlers.go:291-295 | the transfer leaves the sum of all balances unchanged |
| Handlers.TransferMovesOnlyTwoBalances | handlers.go:291-295 | the source loses `amount`, the destination gains it, their sum is preserved and every other account is unchanged |
| Handlers.PayWithCard | handlers.go:196-252 | for a well-formed current instant, a non-positive amount, an unknown card, an expired card and insufficient funds are rejected with no change; a balance equal to the amount suffices; success debits the card's account and appends one payment record from that account to nobody |
| Handlers.CardOwnerStored | handlers.go:222-226 | on a consistent store a stored card's account exists under the ID the card names, so the "associated account not found" branch is unreachable |
| Handlers.Deposit | handlers.go:312-349 | a non-positive amount is a validation error and a missing account is not found, and neither changes anything; success credits the account and appends one deposit record from nobody to it |
| Handlers.ApplyLoan | handlers.go:351-428 | a non-positive amount or term, an unknown user and an unknown account are rejected with no change; a granted loan has the rate from `LoanRate`, `remainingAmount == amount` and a schedule that meets `IsSchedule` and repays the amount; it is stored and filed, the account is credited with the amount and one disbursement record is appended |
| Handlers.CountActive | handlers.go:476-481 | the number of active loans is between 0 and the number of loans |
| Handlers.GetFinancialSummary | handlers.go:463-494 | the summary holds the number and the balance sum of the user's looked-up accounts, the sum of their loans' remaining amounts and the count of loans with a positive remainder |
| Handlers.NoActiveLoansIffSettled | handlers.go:478-480 | no loan is active exactly when no loan has a positive remaining amount |
| Handlers.DebtZeroIffNoActiveLoans | handlers.go:476-481 | when no remainder is negative, the total debt is non-negative and is zero exactly when no loan is active |
| Handlers.SumBalancesConcat | handlers.go:471-473 | the balance total of two lists of accounts is the sum of their totals |

## Left out

- HTTP and JSON: request decoding, response writing, status codes and routing (main.go) are left out. Each rejection is an `Error` value instead.
- Concurrency: the store's read/write mutex and the key-rate mutex are left out, and the store is sequential. The check-then-act windows between separate lock sections have no sequential counterpart. In `PayWithCardHandler` the window is between reading the account and updating its balance. In `ApplyLoanHandler` it is between the existence checks and `AddLoan`/`UpdateAccountBalance`.
- services.go is not part of this model. The key-rate lookup is a `Result<real>` parameter. E-mail notification is I/O.
- Randomness and clocks: ID, account-number, card-number and CVV generation, and the expiry-date generator, are parameters or left out. A single `now` parameter stands for every `time.Now()` call of one handler.
- `RegisterUserHandler`, `LoginUserHandler`, `GenerateCardHandler` and the read-only list handlers are left out. Password hashing is a foreign call. The store operations those handlers use are modelled.
- Transaction-history sorting by timestamp in `GetTransactionsHandler` is left out: it is a library sort over clock-valued timestamps.
- Calendar arithmetic: due dates are month indexes (`startDate.AddDate(0, i+1, 0)` becomes `startMonth + i + 1`). The day-of-month overflow that `AddDate` normalizes is not modelled.
- Handlers.ApplyLoan: the schedule's start month is the UTC month of `now`, while the code's `time.Now()` and `AddDate` count months in the server's local time zone. On a server not running in UTC, a loan applied near a month boundary has every due month one month off from the code's.
- Amortization.CalculateMonthlyPayment: `Div` and `Pow` are exact here, while the decimal library rounds each quotient to 16 decimal places. The zero-rate payment `loanAmount / termMonths` is therefore exact here and rounded to 16 places in the code, and the annuity quotient can differ before its rounding to cents.
- Amortization.MonthlyRate: the rate is the exact `annualRate / 1200`. The code rounds each of its two divisions to 16 places, so `r * 1200 == annualRate` fails in the code for rates such as 21.5 (0.0179166666666667). A nonzero rate small enough to round to 0 takes the zero-rate branch in the code and the annuity branch here. The rates the service produces (key rate 16 plus 5, or 10 plus 5) divide exactly.
- Amortization.InterestDue: the interest is computed from the exact monthly rate. With a 16-place rate the product can land just past a half cent, where exact arithmetic lands on it: at 21.5% on a remaining 1284.00 the model gives 23.00 and the code 23.01.
- Amortization.GeneratePaymentSchedule: a negative term makes the code's `make([]Payment, 0, termMonths)` panic; here the loop does not run and the result is empty. Its only caller rejects a non-positive term first. The schedule inherits the exact monthly rate of `InterestDue`, so an interest entry can differ from the code's by a cent for rates that do not divide exactly.
- Amortization.ScheduleTotalsAddUp: proved only for a loan amount and a payment in whole cents. With finer inputs the closing entry's rounded amount can differ from its principal plus interest.
- Handlers.Transfer: the two balance writes form one update of the account table, because the two IDs differ. The intermediate state between the writes is not modelled.
- Handlers.CreateAccount: a reused account ID overwrites the stored account and its balance with the new zero-balance account, as the code's map write at storage.go:75 does. `Unrecorded()` is proved unchanged only for an account ID not already stored.
- Handlers.Transfer, Handlers.PayWithCard, Handlers.Deposit, Handlers.ApplyLoan: `Unrecorded()` is proved constant when the credited or debited account ID is non-empty. An empty ID would make the log record look like money leaving or entering the ledger.
- Handlers.PayWithCard: when several stored cards share a number, which one the lookup returns is not determined, because Go's map iteration order is unspecified. The contract speaks of the card it returns.
- Handlers.GetFinancialSummary: the counts are those of the index lookups. An account or loan ID filed twice, which only a reused ID could cause, is counted twice, as in the code.
