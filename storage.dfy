/**
 * The in-memory ledger store: primary tables of users, accounts, cards and
 * loans keyed by ID, the secondary indexes kept beside them, and the
 * append-only transaction log.
 */
module Storage {
  import opened Models

  /** The list an index holds for `key`; a key the index lacks reads as the empty list. */
  function Lookup(index: map<string, seq<string>>, key: string): seq<string> {
    if key in index then index[key] else []
  }

  /** The index after filing `id` last in the list of `owner`. */
  function File(index: map<string, seq<string>>, owner: string, id: string): (r: map<string, seq<string>>)
    ensures r.Keys == index.Keys + {owner}
    ensures r[owner] == Lookup(index, owner) + [id]
    ensures forall o :: o in index && o != owner ==> r[o] == index[o]
  {
    index[owner := Lookup(index, owner) + [id]]
  }

  /** Filing an ID keeps every ID already filed, under every owner. */
  lemma FileKeeps(index: map<string, seq<string>>, owner: string, id: string, o: string, x: string)
    requires x in Lookup(index, o)
    ensures x in Lookup(File(index, owner, id), o)
  {
    if o == owner {
      assert Lookup(File(index, owner, id), o) == Lookup(index, o) + [id];
    }
  }

  /** The records of `table` named by `ids`, in the order of `ids`, skipping IDs the table lacks. */
  function Resolve<T>(ids: seq<string>, table: map<string, T>): (r: seq<T>)
    ensures |r| <= |ids|
    ensures (forall j :: 0 <= j < |ids| ==> ids[j] in table) ==> |r| == |ids|
  {
    if ids == [] then []
    else
      var last := ids[|ids| - 1];
      Resolve(ids[..|ids| - 1], table) + (if last in table then [table[last]] else [])
  }

  /** Resolving is order-preserving: resolving a concatenation concatenates the results. */
  lemma {:induction false} ResolveConcat<T>(a: seq<string>, b: seq<string>, table: map<string, T>)
    ensures Resolve(a + b, table) == Resolve(a, table) + Resolve(b, table)
  {
    if b == [] {
      assert a + b == a;
    } else {
      var b', last := b[..|b| - 1], b[|b| - 1];
      var tail := if last in table then [table[last]] else [];
      ResolveConcat(a, b', table);
      assert (a + b)[..|a + b| - 1] == a + b' && (a + b)[|a + b| - 1] == last;
      assert Resolve(a + b, table) == Resolve(a + b', table) + tail;
      assert Resolve(b, table) == Resolve(b', table) + tail;
    }
  }

  /** When every ID is present, entry `j` of the result is the record of `ids[j]`. */
  lemma {:induction false} ResolveAllPresent<T>(ids: seq<string>, table: map<string, T>)
    requires forall j :: 0 <= j < |ids| ==> ids[j] in table
    ensures |Resolve(ids, table)| == |ids|
    ensures forall j :: 0 <= j < |ids| ==> Resolve(ids, table)[j] == table[ids[j]]
  {
    if ids != [] {
      ResolveAllPresent(ids[..|ids| - 1], table);
    }
  }

  /** A record is in the result exactly when some listed ID names it. */
  lemma {:induction false} ResolveMembership<T>(ids: seq<string>, table: map<string, T>, x: T)
    ensures x in Resolve(ids, table) <==> exists j :: 0 <= j < |ids| && ids[j] in table && table[ids[j]] == x
  {
    if ids != [] {
      var n := |ids| - 1;
      ResolveMembership(ids[..n], table, x);
      if exists j :: 0 <= j < |ids| && ids[j] in table && table[ids[j]] == x {
        var j :| 0 <= j < |ids| && ids[j] in table && table[ids[j]] == x;
        if j < n {
          assert ids[..n][j] == ids[j];
        }
      }
      if exists j :: 0 <= j < n && ids[..n][j] in table && table[ids[..n][j]] == x {
        var j :| 0 <= j < n && ids[..n][j] in table && table[ids[..n][j]] == x;
        assert ids[j] == ids[..n][j];
      }
    }
  }

  /** The loop shared by the three index lookups: collect the records the IDs name, in order. */
  method CollectPresent<T>(ids: seq<string>, table: map<string, T>) returns (records: seq<T>)
    ensures records == Resolve(ids, table)
  {
    records := [];
    for i := 0 to |ids|
      invariant records == Resolve(ids[..i], table)
    {
      assert ids[..i + 1][..i] == ids[..i];
      if ids[i] in table {
        records := records + [table[ids[i]]];
      }
    }
    assert ids[..|ids|] == ids;
  }

  predicate Involves(tx: Transaction, accountId: string) {
    tx.fromAccountId == accountId || tx.toAccountId == accountId
  }

  /** The transactions of `txs` that name `accountId` on either side, in log order. */
  function Involving(txs: seq<Transaction>, accountId: string): (r: seq<Transaction>)
    ensures |r| <= |txs|
    ensures forall j :: 0 <= j < |r| ==> Involves(r[j], accountId)
  {
    if txs == [] then []
    else
      var last := txs[|txs| - 1];
      Involving(txs[..|txs| - 1], accountId) + (if Involves(last, accountId) then [last] else [])
  }

  /** Filtering is order-preserving: filtering a concatenation concatenates the results. */
  lemma {:induction false} InvolvingConcat(a: seq<Transaction>, b: seq<Transaction>, accountId: string)
    ensures Involving(a + b, accountId) == Involving(a, accountId) + Involving(b, accountId)
  {
    if b == [] {
      assert a + b == a;
    } else {
      var b' := b[..|b| - 1];
      InvolvingConcat(a, b', accountId);
      assert (a + b)[..|a + b| - 1] == a + b';
    }
  }

  /** No transaction naming the account is dropped. */
  lemma {:induction false} InvolvingComplete(txs: seq<Transaction>, accountId: string, tx: Transaction)
    requires tx in txs && Involves(tx, accountId)
    ensures tx in Involving(txs, accountId)
  {
    var n := |txs| - 1;
    if txs[n] != tx {
      assert tx in txs[..n] by {
        var j :| 0 <= j < |txs| && txs[j] == tx;
        assert j < n && txs[..n][j] == tx;
      }
      InvolvingComplete(txs[..n], accountId, tx);
    }
  }

  /** The net money a transaction brings into the ledger: positive for a deposit or disbursement, negative for a card payment. */
  function ExternalFlow(tx: Transaction): real {
    (if tx.fromAccountId == "" then tx.amount else 0.0) - (if tx.toAccountId == "" then tx.amount else 0.0)
  }

  /** The net money the logged transactions brought into the ledger. */
  function NetFlow(txs: seq<Transaction>): real {
    if txs == [] then 0.0 else NetFlow(txs[..|txs| - 1]) + ExternalFlow(txs[|txs| - 1])
  }

  lemma NetFlowAppend(txs: seq<Transaction>, tx: Transaction)
    ensures NetFlow(txs + [tx]) == NetFlow(txs) + ExternalFlow(tx)
  {
    assert (txs + [tx])[..|txs|] == txs;
  }

  /** The sum of all account balances. */
  ghost function TotalBalance(accounts: map<string, Account>): real
    decreases |accounts|
  {
    if accounts == map[] then 0.0
    else
      var id :| id in accounts;
      assert |accounts - {id}| < |accounts| by {
        assert (accounts - {id}).Keys == accounts.Keys - {id};
      }
      accounts[id].balance + TotalBalance(accounts - {id})
  }

  /** The total may be split at any account, not only the one the definition happens to pick. */
  lemma {:induction false} TotalBalanceSplit(accounts: map<string, Account>, id: string)
    requires id in accounts
    ensures TotalBalance(accounts) == accounts[id].balance + TotalBalance(accounts - {id})
    decreases |accounts|
  {
    var picked :| picked in accounts && TotalBalance(accounts) == accounts[picked].balance + TotalBalance(accounts - {picked});
    if picked != id {
      var rest := accounts - {picked};
      assert |rest| < |accounts| by { assert rest.Keys == accounts.Keys - {picked}; }
      assert |accounts - {id}| < |accounts| by { assert (accounts - {id}).Keys == accounts.Keys - {id}; }
      TotalBalanceSplit(rest, id);
      TotalBalanceSplit(accounts - {id}, picked);
      assert rest - {id} == accounts - {id} - {picked};
    }
  }

  /** Replacing one account's record changes the total by the change in that account's balance. */
  lemma TotalBalanceUpdate(accounts: map<string, Account>, id: string, account: Account)
    requires id in accounts
    ensures TotalBalance(accounts[id := account]) == TotalBalance(accounts) - accounts[id].balance + account.balance
  {
    TotalBalanceSplit(accounts, id);
    TotalBalanceSplit(accounts[id := account], id);
    assert accounts[id := account] - {id} == accounts - {id};
  }

  /** Crediting one account moves the total by the amount credited. */
  lemma TotalBalanceCredit(accounts: map<string, Account>, id: string, amount: real)
    requires id in accounts
    ensures TotalBalance(Credit(accounts, id, amount)) == TotalBalance(accounts) + amount
  {
    TotalBalanceUpdate(accounts, id, accounts[id].(balance := accounts[id].balance + amount));
  }

  /** Adding a record under a new ID adds its balance to the total. */
  lemma TotalBalanceInsert(accounts: map<string, Account>, id: string, account: Account)
    requires id !in accounts
    ensures TotalBalance(accounts[id := account]) == TotalBalance(accounts) + account.balance
  {
    TotalBalanceSplit(accounts[id := account], id);
    assert accounts[id := account] - {id} == accounts;
  }

  /** The accounts after adding `amount` to the balance of account `id`; nothing else about any account changes. */
  function Credit(accounts: map<string, Account>, id: string, amount: real): (r: map<string, Account>)
    requires id in accounts
    ensures r.Keys == accounts.Keys
    ensures r[id].balance == accounts[id].balance + amount
    ensures r[id] == accounts[id].(balance := r[id].balance)
    ensures forall other {:trigger r[other]} :: other in accounts && other != id ==> r[other] == accounts[other]
  {
    accounts[id := accounts[id].(balance := accounts[id].balance + amount)]
  }

  /** Some stored card carries `number`. */
  ghost predicate HasCardNumber(cards: map<string, Card>, number: string) {
    exists id {:trigger cards[id]} :: id in cards && cards[id].number == number
  }

  /** `record` is stored under some ID of `table`. */
  ghost predicate IsStored<T>(table: map<string, T>, record: T) {
    exists id {:trigger table[id]} :: id in table && table[id] == record
  }

  class InMemoryStorage {
    var users: map<string, User>                 // user ID -> user
    var accounts: map<string, Account>           // account ID -> account
    var cards: map<string, Card>                 // card ID -> card
    var loans: map<string, Loan>                 // loan ID -> loan
    var transactions: seq<Transaction>           // append-only log
    var userIndex: map<string, string>           // username -> user ID
    var emailIndex: map<string, string>          // email -> user ID
    var accountIndex: map<string, seq<string>>   // user ID -> account IDs, in insertion order
    var cardIndex: map<string, seq<string>>      // account ID -> card IDs
    var loanIndex: map<string, seq<string>>      // user ID -> loan IDs

    /** The store's tables and indexes refer to each other consistently. */
    ghost predicate Valid()
      reads this
    {
      StoreConsistent(users, accounts, cards, loans, userIndex, emailIndex, accountIndex, cardIndex, loanIndex)
    }

    /** Money held in accounts that the log does not account for as external inflow; zero in a store built only by the protocols when no account ID is reused and every credited or debited ID is non-empty. */
    ghost function Unrecorded(): real
      reads this
    {
      TotalBalance(accounts) - NetFlow(transactions)
    }

    constructor ()
      ensures Valid()
      ensures users == map[] && accounts == map[] && cards == map[] && loans == map[] && transactions == []
      ensures userIndex == map[] && emailIndex == map[]
      ensures accountIndex == map[] && cardIndex == map[] && loanIndex == map[]
      ensures Unrecorded() == 0.0
    {
      users, accounts, cards, loans := map[], map[], map[], map[];
      transactions := [];
      userIndex, emailIndex := map[], map[];
      accountIndex, cardIndex, loanIndex := map[], map[], map[];
    }

    /** Registers a user unless the username or the email is already taken. */
    method AddUser(user: User) returns (status: Status)
      requires Valid()
      modifies this`users, this`userIndex, this`emailIndex
      ensures Valid()
      ensures status.Ok? <==> user.username !in old(userIndex) && user.email !in old(emailIndex)
      ensures status.Err? ==> status.error == Conflict
      ensures status.Ok? ==> && users == old(users)[user.id := user]
                             && userIndex == old(userIndex)[user.username := user.id]
                             && emailIndex == old(emailIndex)[user.email := user.id]
      ensures status.Err? ==> users == old(users) && userIndex == old(userIndex) && emailIndex == old(emailIndex)
    {
      hide StoreConsistent;
      if user.username in userIndex {
        return Err(Conflict);
      }
      if user.email in emailIndex {
        return Err(Conflict);
      }
      AddUserKeepsConsistent(users, accounts, cards, loans, userIndex, emailIndex, accountIndex, cardIndex, loanIndex,
                             user);
      users := users[user.id := user];
      userIndex := userIndex[user.username := user.id];
      emailIndex := emailIndex[user.email := user.id];
      status := Ok;
    }

    method GetUserByUsername(username: string) returns (user: Option<User>)
      requires Valid()
      ensures user.Some? <==> username in userIndex
      ensures user.Some? ==> user.value == users[userIndex[username]] && user.value.id == userIndex[username]
    {
      if username !in userIndex {
        return None;
      }
      var userId := userIndex[username];
      if userId in users {
        user := Some(users[userId]);
      } else {
        user := None;
      }
    }

    /** Stores an account and files its ID last in its owner's index, provided the owner exists. */
    method AddAccount(account: Account) returns (status: Status)
      requires Valid()
      modifies this`accounts, this`accountIndex
      ensures Valid()
      ensures status.Ok? <==> account.userId in old(users)
      ensures status.Err? ==> status.error == NotFound
      ensures status.Ok? ==> && accounts == old(accounts)[account.id := account]
                             && accountIndex == File(old(accountIndex), account.userId, account.id)
      ensures status.Err? ==> accounts == old(accounts) && accountIndex == old(accountIndex)
    {
      hide StoreConsistent;
      if account.userId !in users {
        return Err(NotFound);
      }
      AddAccountKeepsConsistent(users, accounts, cards, loans, userIndex, emailIndex, accountIndex, cardIndex, loanIndex,
                                account);
      accounts := accounts[account.id := account];
      accountIndex := File(accountIndex, account.userId, account.id);
      status := Ok;
    }

    method GetAccount(accountId: string) returns (account: Option<Account>)
      ensures account.Some? <==> accountId in accounts
      ensures account.Some? ==> account.value == accounts[accountId]
    {
      if accountId in accounts {
        account := Some(accounts[accountId]);
      } else {
        account := None;
      }
    }

    /** The user's accounts in the order they were opened. */
    method GetUserAccounts(userId: string) returns (result: seq<Account>)
      ensures result == Resolve(Lookup(accountIndex, userId), accounts)
    {
      result := CollectPresent(Lookup(accountIndex, userId), accounts);
    }

    /** Adds `amount` (of either sign) to the account's balance; the balance may become negative. */
    method UpdateAccountBalance(accountId: string, amount: real) returns (status: Status)
      requires Valid()
      modifies this`accounts
      ensures Valid()
      ensures status.Ok? <==> accountId in old(accounts)
      ensures status.Err? ==> status.error == NotFound && accounts == old(accounts)
      ensures status.Ok? ==> accounts == Credit(old(accounts), accountId, amount)
      ensures status.Ok? ==> Unrecorded() == old(Unrecorded()) + amount
    {
      hide StoreConsistent;
      if accountId !in accounts {
        return Err(NotFound);
      }
      CreditSameOwners(accounts, accountId, amount);
      SameOwnersKeepConsistent(users, accounts, cards, loans, userIndex, emailIndex, accountIndex, cardIndex, loanIndex,
                               Credit(accounts, accountId, amount));
      TotalBalanceCredit(accounts, accountId, amount);
      accounts := Credit(accounts, accountId, amount);
      status := Ok;
    }

    method AddTransaction(tx: Transaction)
      requires Valid()
      modifies this`transactions
      ensures Valid()
      ensures transactions == old(transactions) + [tx]
      ensures Unrecorded() == old(Unrecorded()) - ExternalFlow(tx)
    {
      hide StoreConsistent;
      NetFlowAppend(transactions, tx);
      transactions := transactions + [tx];
    }

    /** The account's history: every logged transaction that names it as source or destination, in log order. */
    method GetAccountTransactions(accountId: string) returns (result: seq<Transaction>)
      ensures result == Involving(transactions, accountId)
    {
      result := [];
      for i := 0 to |transactions|
        invariant result == Involving(transactions[..i], accountId)
      {
        assert transactions[..i + 1][..i] == transactions[..i];
        var tx := transactions[i];
        if tx.fromAccountId == accountId || tx.toAccountId == accountId {
          result := result + [tx];
        }
      }
      assert transactions[..|transactions|] == transactions;
    }

    /** Stores a card and files it under its account, provided the account exists. */
    method AddCard(card: Card) returns (status: Status)
      requires Valid()
      modifies this`cards, this`cardIndex
      ensures Valid()
      ensures status.Ok? <==> card.accountId in old(accounts)
      ensures status.Err? ==> status.error == NotFound
      ensures status.Ok? ==> && cards == old(cards)[card.id := card]
                             && cardIndex == File(old(cardIndex), card.accountId, card.id)
      ensures status.Err? ==> cards == old(cards) && cardIndex == old(cardIndex)
    {
      hide StoreConsistent;
      if card.accountId !in accounts {
        return Err(NotFound);
      }
      AddCardKeepsConsistent(users, accounts, cards, loans, userIndex, emailIndex, accountIndex, cardIndex, loanIndex,
                             card);
      cards := cards[card.id := card];
      cardIndex := File(cardIndex, card.accountId, card.id);
      status := Ok;
    }

    method GetAccountCards(accountId: string) returns (result: seq<Card>)
      ensures result == Resolve(Lookup(cardIndex, accountId), cards)
    {
      result := CollectPresent(Lookup(cardIndex, accountId), cards);
    }

    /**
     * Some card with the given number, if there is one. Cards are scanned in
     * no particular order, so when several share a number any of them may
     * be returned.
     */
    method GetCardByNumber(number: string) returns (card: Option<Card>)
      ensures card.Some? <==> HasCardNumber(cards, number)
      ensures card.Some? ==> card.value.number == number && IsStored(cards, card.value)
    {
      var unvisited := cards.Keys;
      while unvisited != {}
        invariant unvisited <= cards.Keys
        invariant forall id {:trigger cards[id]} :: id in cards && id !in unvisited ==> cards[id].number != number
        decreases unvisited
      {
        var id :| id in unvisited;
        if cards[id].number == number {
          return Some(cards[id]);
        }
        unvisited := unvisited - {id};
      }
      return None;
    }

    /** Stores a loan and files it under its user, provided both its user and its account exist. */
    method AddLoan(loan: Loan) returns (status: Status)
      requires Valid()
      modifies this`loans, this`loanIndex
      ensures Valid()
      ensures status.Ok? <==> loan.userId in old(users) && loan.accountId in old(accounts)
      ensures status.Err? ==> status.error == NotFound
      ensures status.Ok? ==> && loans == old(loans)[loan.id := loan]
                             && loanIndex == File(old(loanIndex), loan.userId, loan.id)
      ensures status.Err? ==> loans == old(loans) && loanIndex == old(loanIndex)
    {
      hide StoreConsistent;
      if loan.userId !in users {
        return Err(NotFound);
      }
      if loan.accountId !in accounts {
        return Err(NotFound);
      }
      AddLoanKeepsConsistent(users, accounts, cards, loans, userIndex, emailIndex, accountIndex, cardIndex, loanIndex,
                             loan);
      loans := loans[loan.id := loan];
      loanIndex := File(loanIndex, loan.userId, loan.id);
      status := Ok;
    }

    method GetUserLoans(userId: string) returns (result: seq<Loan>)
      ensures result == Resolve(Lookup(loanIndex, userId), loans)
    {
      result := CollectPresent(Lookup(loanIndex, userId), loans);
    }

    method GetLoan(loanId: string) returns (loan: Option<Loan>)
      ensures loan.Some? <==> loanId in loans
      ensures loan.Some? ==> loan.value == loans[loanId]
    {
      if loanId in loans {
        loan := Some(loans[loanId]);
      } else {
        loan := None;
      }
    }
  }

  /**
   * Referential integrity between the tables and the indexes: every record
   * is stored under its own ID, its owner exists, and its ID is filed in its
   * owner's index; every ID an index holds names a stored record.
   */
  ghost predicate StoreConsistent(
      users: map<string, User>, accounts: map<string, Account>, cards: map<string, Card>,
      loans: map<string, Loan>, userIndex: map<string, string>, emailIndex: map<string, string>,
      accountIndex: map<string, seq<string>>, cardIndex: map<string, seq<string>>, loanIndex: map<string, seq<string>>)
  {
    && UsersConsistent(users, userIndex, emailIndex)
    && AccountsConsistent(users, accounts, accountIndex)
    && CardsConsistent(accounts, cards, cardIndex)
    && LoansConsistent(users, accounts, loans, loanIndex)
  }

  /** Users are stored under their IDs and both uniqueness indexes point at stored users. */
  ghost predicate UsersConsistent(users: map<string, User>, userIndex: map<string, string>,
                                  emailIndex: map<string, string>)
  {
    && (forall id :: id in users ==> users[id].id == id)
    && (forall name :: name in userIndex ==> userIndex[name] in users)
    && (forall email :: email in emailIndex ==> emailIndex[email] in users)
  }

  /** Accounts are stored under their IDs, belong to stored users and are filed in their owner's index. */
  ghost predicate AccountsConsistent(users: map<string, User>, accounts: map<string, Account>,
                                     accountIndex: map<string, seq<string>>)
  {
    && (forall id {:trigger accounts[id]} :: id in accounts ==>
          && accounts[id].id == id
          && accounts[id].userId in users
          && id in Lookup(accountIndex, accounts[id].userId))
    && (forall owner :: owner in accountIndex ==> owner in users)
    && IndexResolves(accountIndex, accounts)
  }

  /** Cards are stored under their IDs, belong to stored accounts and are filed in their account's index. */
  ghost predicate CardsConsistent(accounts: map<string, Account>, cards: map<string, Card>,
                                  cardIndex: map<string, seq<string>>)
  {
    && (forall id {:trigger cards[id]} :: id in cards ==>
          && cards[id].id == id
          && cards[id].accountId in accounts
          && id in Lookup(cardIndex, cards[id].accountId))
    && (forall owner :: owner in cardIndex ==> owner in accounts)
    && IndexResolves(cardIndex, cards)
  }

  /** Loans are stored under their IDs, name a stored user and account, and are filed in their user's index. */
  ghost predicate LoansConsistent(users: map<string, User>, accounts: map<string, Account>, loans: map<string, Loan>,
                                  loanIndex: map<string, seq<string>>)
  {
    && (forall id {:trigger loans[id]} :: id in loans ==>
          && loans[id].id == id
          && loans[id].userId in users
          && loans[id].accountId in accounts
          && id in Lookup(loanIndex, loans[id].userId))
    && (forall owner :: owner in loanIndex ==> owner in users)
    && IndexResolves(loanIndex, loans)
  }

  /** Registering a user whose username and email are free keeps the store consistent. */
  lemma AddUserKeepsConsistent(
      users: map<string, User>, accounts: map<string, Account>, cards: map<string, Card>,
      loans: map<string, Loan>, userIndex: map<string, string>, emailIndex: map<string, string>,
      accountIndex: map<string, seq<string>>, cardIndex: map<string, seq<string>>, loanIndex: map<string, seq<string>>, user: User)
    requires StoreConsistent(users, accounts, cards, loans, userIndex, emailIndex, accountIndex, cardIndex, loanIndex)
    ensures StoreConsistent(users[user.id := user], accounts, cards, loans, userIndex[user.username := user.id],
                            emailIndex[user.email := user.id], accountIndex, cardIndex, loanIndex)
  {
    var users' := users[user.id := user];
    assert UsersConsistent(users', userIndex[user.username := user.id], emailIndex[user.email := user.id]);
    assert AccountsConsistent(users', accounts, accountIndex);
    assert LoansConsistent(users', accounts, loans, loanIndex);
  }

  /** Storing an account of a stored user and filing it under that user keeps the store consistent. */
  lemma AddAccountKeepsConsistent(
      users: map<string, User>, accounts: map<string, Account>, cards: map<string, Card>,
      loans: map<string, Loan>, userIndex: map<string, string>, emailIndex: map<string, string>,
      accountIndex: map<string, seq<string>>, cardIndex: map<string, seq<string>>, loanIndex: map<string, seq<string>>, account: Account)
    requires account.userId in users
    requires StoreConsistent(users, accounts, cards, loans, userIndex, emailIndex, accountIndex, cardIndex, loanIndex)
    ensures StoreConsistent(users, accounts[account.id := account], cards, loans, userIndex, emailIndex,
                            File(accountIndex, account.userId, account.id), cardIndex, loanIndex)
  {
    FileResolves(accountIndex, accounts, account.userId, account.id, account);
    forall id | id in accounts && id != account.id {
      FileKeeps(accountIndex, account.userId, account.id, accounts[id].userId, id);
    }
    var accounts' := accounts[account.id := account];
    assert AccountsConsistent(users, accounts', File(accountIndex, account.userId, account.id));
    assert CardsConsistent(accounts', cards, cardIndex);
    assert LoansConsistent(users, accounts', loans, loanIndex);
  }

  /** Storing a card of a stored account and filing it under that account keeps the store consistent. */
  lemma AddCardKeepsConsistent(
      users: map<string, User>, accounts: map<string, Account>, cards: map<string, Card>,
      loans: map<string, Loan>, userIndex: map<string, string>, emailIndex: map<string, string>,
      accountIndex: map<string, seq<string>>, cardIndex: map<string, seq<string>>, loanIndex: map<string, seq<string>>, card: Card)
    requires card.accountId in accounts
    requires StoreConsistent(users, accounts, cards, loans, userIndex, emailIndex, accountIndex, cardIndex, loanIndex)
    ensures StoreConsistent(users, accounts, cards[card.id := card], loans, userIndex, emailIndex, accountIndex,
                            File(cardIndex, card.accountId, card.id), loanIndex)
  {
    var cards', cardIndex' := cards[card.id := card], File(cardIndex, card.accountId, card.id);
    FileResolves(cardIndex, cards, card.accountId, card.id, card);
    forall id | id in cards'
      ensures cards'[id].id == id && cards'[id].accountId in accounts && id in Lookup(cardIndex', cards'[id].accountId)
    {
      if id != card.id {
        FileKeeps(cardIndex, card.accountId, card.id, cards[id].accountId, id);
      }
    }
    assert CardsConsistent(accounts, cards', cardIndex');
  }

  /** Storing a loan of a stored user and account and filing it under that user keeps the store consistent. */
  lemma AddLoanKeepsConsistent(
      users: map<string, User>, accounts: map<string, Account>, cards: map<string, Card>,
      loans: map<string, Loan>, userIndex: map<string, string>, emailIndex: map<string, string>,
      accountIndex: map<string, seq<string>>, cardIndex: map<string, seq<string>>, loanIndex: map<string, seq<string>>, loan: Loan)
    requires loan.userId in users && loan.accountId in accounts
    requires StoreConsistent(users, accounts, cards, loans, userIndex, emailIndex, accountIndex, cardIndex, loanIndex)
    ensures StoreConsistent(users, accounts, cards, loans[loan.id := loan], userIndex, emailIndex, accountIndex,
                            cardIndex, File(loanIndex, loan.userId, loan.id))
  {
    var loans', loanIndex' := loans[loan.id := loan], File(loanIndex, loan.userId, loan.id);
    FileResolves(loanIndex, loans, loan.userId, loan.id, loan);
    forall id | id in loans'
      ensures && loans'[id].id == id && loans'[id].userId in users && loans'[id].accountId in accounts
              && id in Lookup(loanIndex', loans'[id].userId)
    {
      if id != loan.id {
        FileKeeps(loanIndex, loan.userId, loan.id, loans[id].userId, id);
      }
    }
    assert LoansConsistent(users, accounts, loans', loanIndex');
  }

  /** `after` holds the same accounts as `before`, each under the same ID and owner; only balances may differ. */
  ghost predicate SameOwners(before: map<string, Account>, after: map<string, Account>) {
    && after.Keys == before.Keys
    && forall id {:trigger after[id]} :: id in before ==> after[id].id == before[id].id && after[id].userId == before[id].userId
  }

  /** Changing balances, and nothing else about any account, keeps the store consistent. */
  lemma SameOwnersKeepConsistent(
      users: map<string, User>, accounts: map<string, Account>, cards: map<string, Card>,
      loans: map<string, Loan>, userIndex: map<string, string>, emailIndex: map<string, string>,
      accountIndex: map<string, seq<string>>, cardIndex: map<string, seq<string>>, loanIndex: map<string, seq<string>>, accounts': map<string, Account>)
    requires SameOwners(accounts, accounts')
    requires StoreConsistent(users, accounts, cards, loans, userIndex, emailIndex, accountIndex, cardIndex, loanIndex)
    ensures StoreConsistent(users, accounts', cards, loans, userIndex, emailIndex, accountIndex, cardIndex, loanIndex)
  {
    forall a | a in accounts'
      ensures accounts'[a].id == a && accounts'[a].userId in users && a in Lookup(accountIndex, accounts'[a].userId)
    {
    }
    assert AccountsConsistent(users, accounts', accountIndex);
    assert CardsConsistent(accounts', cards, cardIndex);
    assert LoansConsistent(users, accounts', loans, loanIndex);
  }

  /** Crediting one account changes nothing about any account but that account's balance. */
  lemma CreditSameOwners(accounts: map<string, Account>, id: string, amount: real)
    requires id in accounts
    ensures SameOwners(accounts, Credit(accounts, id, amount))
  {
  }

  /** Every ID filed in the index names a record of the table. */
  ghost predicate IndexResolves<T>(index: map<string, seq<string>>, table: map<string, T>) {
    forall owner, j :: owner in index && 0 <= j < |index[owner]| ==> index[owner][j] in table
  }

  /** Filing a newly stored record's ID keeps the index resolving. */
  lemma FileResolves<T>(index: map<string, seq<string>>, table: map<string, T>, owner: string, id: string, record: T)
    requires IndexResolves(index, table)
    ensures IndexResolves(File(index, owner, id), table[id := record])
  {
    var index', table' := File(index, owner, id), table[id := record];
    forall o, j | o in index' && 0 <= j < |index'[o]|
      ensures index'[o][j] in table'
    {
      if o == owner {
        var old_ := Lookup(index, owner);
        assert index'[o] == old_ + [id];
        if j < |old_| {
          assert index'[o][j] == old_[j];
          assert old_[j] == index[o][j];
        }
      } else {
        assert index'[o] == index[o];
      }
    }
  }

  /** Under the store's invariant an index lookup drops nothing: one record per filed ID, in filing order. */
  lemma IndexLookupComplete<T>(index: map<string, seq<string>>, table: map<string, T>, owner: string)
    requires IndexResolves(index, table)
    ensures |Resolve(Lookup(index, owner), table)| == |Lookup(index, owner)|
    ensures forall j :: 0 <= j < |Lookup(index, owner)| ==>
              Resolve(Lookup(index, owner), table)[j] == table[Lookup(index, owner)[j]]
  {
    ResolveAllPresent(Lookup(index, owner), table);
  }

  /** Under the store's invariant a user's account lookup includes every stored account that user owns. */
  lemma UserAccountsComplete(users: map<string, User>, accounts: map<string, Account>,
                             accountIndex: map<string, seq<string>>, userId: string, id: string)
    requires AccountsConsistent(users, accounts, accountIndex)
    requires id in accounts && accounts[id].userId == userId
    ensures accounts[id] in Resolve(Lookup(accountIndex, userId), accounts)
  {
    var ids := Lookup(accountIndex, userId);
    var j :| 0 <= j < |ids| && ids[j] == id;
    ResolveMembership(ids, accounts, accounts[id]);
  }

  /** Under the store's invariant a user's loan lookup includes every stored loan that user took. */
  lemma UserLoansComplete(users: map<string, User>, accounts: map<string, Account>, loans: map<string, Loan>,
                          loanIndex: map<string, seq<string>>, userId: string, id: string)
    requires LoansConsistent(users, accounts, loans, loanIndex)
    requires id in loans && loans[id].userId == userId
    ensures loans[id] in Resolve(Lookup(loanIndex, userId), loans)
  {
    var ids := Lookup(loanIndex, userId);
    var j :| 0 <= j < |ids| && ids[j] == id;
    ResolveMembership(ids, loans, loans[id]);
  }
}
