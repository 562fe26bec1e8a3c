/**
 * The ledger rules of the HTTP handlers: open an account, transfer between
 * accounts, pay with a card, deposit, apply for a loan, and summarize a
 * user's finances. Each protocol validates its input, changes the store and
 * records what it did in the transaction log. Fresh IDs, account numbers, the
 * current instant and the key-rate lookup are parameters.
 */
module Handlers {
  import opened Models
  import opened Storage
  import opened Amortization

  /** The rate used when the key-rate lookup fails, in percent per year. */
  const DefaultKeyRate: real := 10.0
  /** The bank's margin over the key rate, in percentage points. */
  const LoanMargin: real := 5.0

  /** The yearly rate of a new loan: the key rate (or the default when the lookup failed) plus the margin. */
  function LoanRate(keyRate: Result<real>): (rate: real)
    ensures keyRate.Success? ==> rate - keyRate.value == LoanMargin
    ensures keyRate.Failure? ==> rate == DefaultKeyRate + LoanMargin
  {
    (if keyRate.Success? then keyRate.value else DefaultKeyRate) + LoanMargin
  }

  /**
   * Opens an account for `userId` with a zero balance. The store refuses an
   * owner it does not know, which surfaces as an internal error.
   */
  method CreateAccount(s: InMemoryStorage, userId: string, accountId: string, number: string, now: Instant)
    returns (result: Result<Account>)
    requires s.Valid()
    modifies s`accounts, s`accountIndex
    ensures s.Valid()
    ensures userId == "" ==> result == Failure(ValidationError)
    ensures userId != "" && userId !in old(s.users) ==> result == Failure(InternalError)
    ensures result.Success? <==> userId != "" && userId in old(s.users)
    ensures result.Success? ==> && result.value == Account(accountId, userId, number, 0.0, now)
                                && s.accounts == old(s.accounts)[accountId := result.value]
                                && s.accountIndex == File(old(s.accountIndex), userId, accountId)
    ensures result.Failure? ==> s.accounts == old(s.accounts) && s.accountIndex == old(s.accountIndex)
    ensures accountId !in old(s.accounts) ==> s.Unrecorded() == old(s.Unrecorded())
  {
    if userId == "" {
      return Failure(ValidationError);
    }
    var account := Account(accountId, userId, number, 0.0, now);
    ghost var before := s.accounts;
    var status := s.AddAccount(account);
    if status.Err? {
      return Failure(InternalError);
    }
    if accountId !in before {
      TotalBalanceInsert(before, accountId, account);
    }
    result := Success(account);
  }

  /**
   * Moves `amount` from one account to another and logs the transfer. Both
   * balances are written straight into the store's account table.
   */
  method Transfer(s: InMemoryStorage, fromId: string, toId: string, amount: real, txId: string, now: Instant)
    returns (status: Status)
    requires s.Valid()
    modifies s`accounts, s`transactions
    ensures s.Valid()
    ensures fromId == toId ==> status == Err(ValidationError)
    ensures fromId != toId && amount <= 0.0 ==> status == Err(ValidationError)
    ensures fromId != toId && amount > 0.0 && (fromId !in old(s.accounts) || toId !in old(s.accounts)) ==>
              status == Err(NotFound)
    ensures (fromId != toId && amount > 0.0 && fromId in old(s.accounts) && toId in old(s.accounts) &&
             old(s.accounts)[fromId].balance < amount) ==> status == Err(InsufficientFunds)
    ensures status.Ok? <==> && fromId != toId && amount > 0.0 && fromId in old(s.accounts) && toId in old(s.accounts)
                            && old(s.accounts)[fromId].balance >= amount
    ensures status.Err? ==> s.accounts == old(s.accounts) && s.transactions == old(s.transactions)
    ensures status.Ok? ==> s.accounts == Credit(Credit(old(s.accounts), fromId, -amount), toId, amount)
    ensures status.Ok? ==>
              s.transactions == old(s.transactions) +
                [Transaction(txId, fromId, toId, amount, now, TransferType,
                             "Transfer from " + old(s.accounts)[fromId].number + " to " + old(s.accounts)[toId].number)]
    ensures fromId != "" && toId != "" ==> s.Unrecorded() == old(s.Unrecorded())
  {
    hide StoreConsistent;
    if fromId == toId {
      return Err(ValidationError);
    }
    if amount <= 0.0 {
      return Err(ValidationError);
    }
    if fromId !in s.accounts {
      return Err(NotFound);
    }
    if toId !in s.accounts {
      return Err(NotFound);
    }
    var fromAccount, toAccount := s.accounts[fromId], s.accounts[toId];
    if fromAccount.balance < amount {
      return Err(InsufficientFunds);
    }
    TransferKeepsConsistent(s.users, s.accounts, s.cards, s.loans, s.userIndex, s.emailIndex, s.accountIndex,
                            s.cardIndex, s.loanIndex, fromId, toId, amount);
    TransferKeepsTotal(s.accounts, fromId, toId, amount);
    s.accounts := Credit(Credit(s.accounts, fromId, -amount), toId, amount);
    assert s.Valid();
    var tx := Transaction(txId, fromId, toId, amount, now, TransferType,
                          "Transfer from " + fromAccount.number + " to " + toAccount.number);
    NetFlowAppend(s.transactions, tx);
    s.transactions := s.transactions + [tx];
    status := Ok;
  }

  /** Moving money between two stored accounts keeps the store consistent. */
  lemma TransferKeepsConsistent(
      users: map<string, User>, accounts: map<string, Account>, cards: map<string, Card>,
      loans: map<string, Loan>, userIndex: map<string, string>, emailIndex: map<string, string>,
      accountIndex: map<string, seq<string>>, cardIndex: map<string, seq<string>>, loanIndex: map<string, seq<string>>,
      fromId: string, toId: string, amount: real)
    requires fromId in accounts && toId in accounts
    requires StoreConsistent(users, accounts, cards, loans, userIndex, emailIndex, accountIndex, cardIndex, loanIndex)
    ensures StoreConsistent(users, Credit(Credit(accounts, fromId, -amount), toId, amount), cards, loans,
                            userIndex, emailIndex, accountIndex, cardIndex, loanIndex)
  {
    var after := Credit(Credit(accounts, fromId, -amount), toId, amount);
    CreditSameOwners(accounts, fromId, -amount);
    CreditSameOwners(Credit(accounts, fromId, -amount), toId, amount);
    assert SameOwners(accounts, after);
    SameOwnersKeepConsistent(users, accounts, cards, loans, userIndex, emailIndex, accountIndex, cardIndex, loanIndex,
                             after);
  }

  /** Moving money between two stored accounts leaves the sum of all balances unchanged. */
  lemma TransferKeepsTotal(accounts: map<string, Account>, fromId: string, toId: string, amount: real)
    requires fromId in accounts && toId in accounts
    ensures TotalBalance(Credit(Credit(accounts, fromId, -amount), toId, amount)) == TotalBalance(accounts)
  {
    TotalBalanceCredit(accounts, fromId, -amount);
    TotalBalanceCredit(Credit(accounts, fromId, -amount), toId, amount);
  }

  /** A transfer conserves the two balances' sum and leaves every other account as it was. */
  lemma TransferMovesOnlyTwoBalances(accounts: map<string, Account>, fromId: string, toId: string, amount: real)
    requires fromId in accounts && toId in accounts && fromId != toId
    ensures var after := Credit(Credit(accounts, fromId, -amount), toId, amount);
            && after.Keys == accounts.Keys
            && after[fromId].balance == accounts[fromId].balance - amount
            && after[toId].balance == accounts[toId].balance + amount
            && after[fromId].balance + after[toId].balance == accounts[fromId].balance + accounts[toId].balance
            && forall id {:trigger after[id]} :: id in accounts && id != fromId && id != toId ==> after[id] == accounts[id]
  {
  }

  /**
   * Charges a card payment to the card's account and logs money leaving the
   * ledger. `card` is the card the number lookup found, if any; when several
   * cards share the number, which one is found is not determined.
   */
  method PayWithCard(s: InMemoryStorage, cardNumber: string, amount: real, merchant: string, txId: string,
                     now: Instant)
    returns (status: Status, ghost card: Option<Card>)
    requires s.Valid() && WellFormed(now)
    modifies s`accounts, s`transactions
    ensures s.Valid()
    ensures amount <= 0.0 ==> status == Err(ValidationError) && card.None?
    ensures amount > 0.0 ==> (card.None? <==> !HasCardNumber(old(s.cards), cardNumber))
    ensures amount > 0.0 && card.None? ==> status == Err(NotFound)
    ensures card.Some? ==> IsStored(old(s.cards), card.value) && card.value.number == cardNumber
    ensures card.Some? && IsExpired(card.value, now) ==> status == Err(CardExpired)
    ensures card.Some? && !IsExpired(card.value, now) ==>
              && card.value.accountId in old(s.accounts)
              && (old(s.accounts)[card.value.accountId].balance < amount ==> status == Err(InsufficientFunds))
              && (old(s.accounts)[card.value.accountId].balance >= amount ==> status.Ok?)
    ensures status.Err? ==> s.accounts == old(s.accounts) && s.transactions == old(s.transactions)
    ensures status.Ok? ==> card.Some?
    ensures status.Ok? ==> s.accounts == Credit(old(s.accounts), card.value.accountId, -amount)
    ensures status.Ok? ==> s.transactions == old(s.transactions) +
                             [Transaction(txId, card.value.accountId, "", amount, now, PaymentType, "Payment to " + merchant)]
    ensures status.Ok? && card.value.accountId != "" ==> s.Unrecorded() == old(s.Unrecorded())
  {
    hide StoreConsistent;
    card := None;
    if amount <= 0.0 {
      return Err(ValidationError), card;
    }
    var found := s.GetCardByNumber(cardNumber);
    card := found;
    if found.None? {
      return Err(NotFound), card;
    }
    if IsExpired(found.value, now) {
      return Err(CardExpired), card;
    }
    CardOwnerStored(s.users, s.accounts, s.cards, s.loans, s.userIndex, s.emailIndex, s.accountIndex, s.cardIndex,
                    s.loanIndex, found.value);
    var account := s.GetAccount(found.value.accountId);
    if account.None? {
      assert false;
      return Err(InternalError), card;
    }
    if account.value.balance < amount {
      return Err(InsufficientFunds), card;
    }
    ghost var before := s.accounts;
    var updated := s.UpdateAccountBalance(account.value.id, -amount);
    if updated.Err? {
      assert false;
      return Err(InternalError), card;
    }
    var tx := Transaction(txId, account.value.id, "", amount, now, PaymentType, "Payment to " + merchant);
    s.AddTransaction(tx);
    status := Ok;
  }

  /** Under the store's invariant a stored card's account is stored too, under the ID the card names. */
  lemma CardOwnerStored(
      users: map<string, User>, accounts: map<string, Account>, cards: map<string, Card>,
      loans: map<string, Loan>, userIndex: map<string, string>, emailIndex: map<string, string>,
      accountIndex: map<string, seq<string>>, cardIndex: map<string, seq<string>>, loanIndex: map<string, seq<string>>,
      card: Card)
    requires StoreConsistent(users, accounts, cards, loans, userIndex, emailIndex, accountIndex, cardIndex, loanIndex)
    requires IsStored(cards, card)
    ensures card.accountId in accounts && accounts[card.accountId].id == card.accountId
  {
  }

  /**
   * Credits a deposit to an account and logs money entering the ledger. The
   * log entry names the account's number as read back after the credit.
   */
  method Deposit(s: InMemoryStorage, toId: string, amount: real, txId: string, now: Instant) returns (status: Status)
    requires s.Valid()
    modifies s`accounts, s`transactions
    ensures s.Valid()
    ensures amount <= 0.0 ==> status == Err(ValidationError)
    ensures amount > 0.0 && toId !in old(s.accounts) ==> status == Err(NotFound)
    ensures status.Ok? <==> amount > 0.0 && toId in old(s.accounts)
    ensures status.Err? ==> s.accounts == old(s.accounts) && s.transactions == old(s.transactions)
    ensures status.Ok? ==> s.accounts == Credit(old(s.accounts), toId, amount)
    ensures status.Ok? ==>
              s.transactions == old(s.transactions) +
                [Transaction(txId, "", toId, amount, now, DepositType, "Deposit to account " + old(s.accounts)[toId].number)]
    ensures toId != "" ==> s.Unrecorded() == old(s.Unrecorded())
  {
    hide StoreConsistent;
    if amount <= 0.0 {
      return Err(ValidationError);
    }
    var updated := s.UpdateAccountBalance(toId, amount);
    if updated.Err? {
      // the store fails only for a missing account, which the protocol reports as not found
      return Err(NotFound);
    }
    var account := s.GetAccount(toId);
    var number := if account.Some? then account.value.number else "";
    var tx := Transaction(txId, "", toId, amount, now, DepositType, "Deposit to account " + number);
    s.AddTransaction(tx);
    status := Ok;
  }

  /**
   * Grants a loan: prices it at the key rate plus the margin, builds its
   * schedule from the instant of the application, stores it, pays the
   * principal into the chosen account and logs the disbursement as money
   * entering the ledger.
   */
  method ApplyLoan(s: InMemoryStorage, userId: string, accountId: string, amount: real, termMonths: int,
                   keyRate: Result<real>, loanId: string, txId: string, now: Instant)
    returns (result: Result<Loan>)
    requires s.Valid()
    modifies s`loans, s`loanIndex, s`accounts, s`transactions
    ensures s.Valid()
    ensures amount <= 0.0 || termMonths <= 0 ==> result == Failure(ValidationError)
    ensures amount > 0.0 && termMonths > 0 && (userId !in old(s.users) || accountId !in old(s.accounts)) ==>
              result == Failure(NotFound)
    ensures result.Success? <==> amount > 0.0 && termMonths > 0 && userId in old(s.users) && accountId in old(s.accounts)
    ensures result.Failure? ==> && s.loans == old(s.loans) && s.loanIndex == old(s.loanIndex)
                                && s.accounts == old(s.accounts) && s.transactions == old(s.transactions)
    ensures result.Success? ==>
              && result.value.id == loanId && result.value.userId == userId && result.value.accountId == accountId
              && result.value.amount == amount && result.value.remainingAmount == amount
              && result.value.interestRate == LoanRate(keyRate)
              && result.value.termMonths == termMonths && result.value.startDate == now
    ensures result.Success? ==>
              && IsSchedule(result.value.paymentSchedule, amount, LoanRate(keyRate), termMonths, now.month,
                            CalculateMonthlyPayment(amount, LoanRate(keyRate), termMonths))
              && SumOf(result.value.paymentSchedule, Principal) == amount
    ensures result.Success? ==> && s.loans == old(s.loans)[loanId := result.value]
                                && s.loanIndex == File(old(s.loanIndex), userId, loanId)
    ensures result.Success? ==> s.accounts == Credit(old(s.accounts), accountId, amount)
    ensures result.Success? ==>
              s.transactions == old(s.transactions) +
                [Transaction(txId, "", accountId, amount, now, LoanDisbursementType,
                             "Loan disbursement (ID: " + loanId + ")")]
    ensures accountId != "" ==> s.Unrecorded() == old(s.Unrecorded())
  {
    hide StoreConsistent;
    if amount <= 0.0 || termMonths <= 0 {
      return Failure(ValidationError);
    }
    if userId !in s.users {
      return Failure(NotFound);
    }
    if accountId !in s.accounts {
      return Failure(NotFound);
    }
    var interestRate := LoanRate(keyRate);
    var monthlyPayment := CalculateMonthlyPayment(amount, interestRate, termMonths);
    var schedule := GeneratePaymentSchedule(amount, interestRate, termMonths, now.month, monthlyPayment);
    var loan := Loan(loanId, userId, accountId, amount, interestRate, termMonths, now, schedule, amount);
    var added := s.AddLoan(loan);
    if added.Err? {
      assert false;
      return Failure(InternalError);
    }
    var credited := s.UpdateAccountBalance(accountId, amount);
    if credited.Err? {
      assert false;
      return Failure(InternalError);
    }
    var tx := Transaction(txId, "", accountId, amount, now, LoanDisbursementType,
                          "Loan disbursement (ID: " + loan.id + ")");
    s.AddTransaction(tx);
    result := Success(loan);
  }

  /** A user's financial overview: what their accounts hold and what their loans still owe. */
  datatype Summary = Summary(userId: string, totalAccountBalance: real, numberOfAccounts: int, totalLoanDebt: real,
                             activeLoans: int)

  /** The sum of the balances of `accounts`. */
  function SumBalances(accounts: seq<Account>): real {
    if accounts == [] then 0.0 else SumBalances(accounts[..|accounts| - 1]) + accounts[|accounts| - 1].balance
  }

  /** The sum of what `loans` still owe. */
  function TotalDebt(loans: seq<Loan>): real {
    if loans == [] then 0.0 else TotalDebt(loans[..|loans| - 1]) + loans[|loans| - 1].remainingAmount
  }

  /** How many of `loans` still owe a positive amount. */
  function CountActive(loans: seq<Loan>): (n: int)
    ensures 0 <= n <= |loans|
  {
    if loans == [] then 0
    else CountActive(loans[..|loans| - 1]) + (if loans[|loans| - 1].remainingAmount > 0.0 then 1 else 0)
  }

  /**
   * Summarizes the accounts and loans the user's indexes list: the number of
   * accounts and the sum of their balances, the sum of the loans' remaining
   * amounts and how many of them are still active.
   */
  method GetFinancialSummary(s: InMemoryStorage, userId: string) returns (summary: Summary)
    ensures summary.userId == userId
    ensures summary.numberOfAccounts == |Resolve(Lookup(s.accountIndex, userId), s.accounts)|
    ensures summary.totalAccountBalance == SumBalances(Resolve(Lookup(s.accountIndex, userId), s.accounts))
    ensures summary.totalLoanDebt == TotalDebt(Resolve(Lookup(s.loanIndex, userId), s.loans))
    ensures summary.activeLoans == CountActive(Resolve(Lookup(s.loanIndex, userId), s.loans))
  {
    var accounts := s.GetUserAccounts(userId);
    var loans := s.GetUserLoans(userId);
    var totalBalance := 0.0;
    for i := 0 to |accounts|
      invariant totalBalance == SumBalances(accounts[..i])
    {
      SumBalancesStep(accounts, i);
      totalBalance := totalBalance + accounts[i].balance;
    }
    assert accounts[..|accounts|] == accounts;
    var totalLoanDebt := 0.0;
    var activeLoans := 0;
    for i := 0 to |loans|
      invariant totalLoanDebt == TotalDebt(loans[..i])
      invariant activeLoans == CountActive(loans[..i])
    {
      LoanTotalsStep(loans, i);
      totalLoanDebt := totalLoanDebt + loans[i].remainingAmount;
      if loans[i].remainingAmount > 0.0 {
        activeLoans := activeLoans + 1;
      }
    }
    assert loans[..|loans|] == loans;
    summary := Summary(userId, totalBalance, |accounts|, totalLoanDebt, activeLoans);
  }

  /** Extending a prefix of `accounts` by one account adds that account's balance. */
  lemma SumBalancesStep(accounts: seq<Account>, i: int)
    requires 0 <= i < |accounts|
    ensures SumBalances(accounts[..i + 1]) == SumBalances(accounts[..i]) + accounts[i].balance
  {
    assert accounts[..i + 1][..i] == accounts[..i];
  }

  /** Extending a prefix of `loans` by one loan adds its remaining amount, and counts it when it is positive. */
  lemma LoanTotalsStep(loans: seq<Loan>, i: int)
    requires 0 <= i < |loans|
    ensures TotalDebt(loans[..i + 1]) == TotalDebt(loans[..i]) + loans[i].remainingAmount
    ensures CountActive(loans[..i + 1]) == CountActive(loans[..i]) + (if loans[i].remainingAmount > 0.0 then 1 else 0)
  {
    assert loans[..i + 1][..i] == loans[..i];
  }

  /** A user has no active loan exactly when every loan listed for them owes nothing positive. */
  lemma {:induction false} NoActiveLoansIffSettled(loans: seq<Loan>)
    ensures CountActive(loans) == 0 <==> forall i :: 0 <= i < |loans| ==> loans[i].remainingAmount <= 0.0
  {
    if loans != [] {
      var n := |loans| - 1;
      NoActiveLoansIffSettled(loans[..n]);
      assert forall i :: 0 <= i < n ==> loans[..n][i] == loans[i];
    }
  }

  /**
   * When no loan owes a negative amount, the total debt is non-negative, and
   * it is zero exactly when no loan is active.
   */
  lemma {:induction false} DebtZeroIffNoActiveLoans(loans: seq<Loan>)
    requires forall i :: 0 <= i < |loans| ==> loans[i].remainingAmount >= 0.0
    ensures TotalDebt(loans) >= 0.0
    ensures TotalDebt(loans) == 0.0 <==> CountActive(loans) == 0
  {
    if loans != [] {
      var n := |loans| - 1;
      assert forall i :: 0 <= i < n ==> loans[..n][i] == loans[i];
      DebtZeroIffNoActiveLoans(loans[..n]);
    }
  }

  /** The balance total of two joined lists is the sum of their totals. */
  lemma {:induction false} SumBalancesConcat(a: seq<Account>, b: seq<Account>)
    ensures SumBalances(a + b) == SumBalances(a) + SumBalances(b)
  {
    if b != [] {
      var b' := b[..|b| - 1];
      SumBalancesConcat(a, b');
      assert (a + b)[..|a + b| - 1] == a + b';
    } else {
      assert a + b == a;
    }
  }
}
