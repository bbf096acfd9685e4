/** The operations of `BankingSystem` as transitions on the whole store.

    Each public operation of stages 1 to 4 is a function from the store
    before the call to the store after it and the value returned. The class in
    module Banking performs the same steps in place and is proved to produce
    exactly these values; the lemmas here state what each operation promises. */
module Operations {
  import opened Entries
  import opened Ledger

  /** The whole state of a `BankingSystem`: the entries, the per-account
      lists, the accounts in creation order and the three id counters. */
  datatype Store = Store(entries: seq<Entry>, accounts: Accounts, order: seq<string>,
                         transactions: nat, transfers: nat, scheduled: nat)

  /** A store after an operation, with the operation's return value. */
  datatype Done<T> = Done(store: Store, value: T)

  /** The store invariant. */
  ghost predicate Sound(st: Store)
  {
    Consistent(st.entries, st.accounts, st.order, st.transactions, st.transfers, st.scheduled)
  }

  /** What the queries need: every listed index names an entry, and every
      account in the creation order is known. */
  predicate Indexed(st: Store)
  {
    AccountsInRange(st.entries, st.accounts) && forall a :: a in st.order ==> a in st.accounts
  }

  /** The store of a new `BankingSystem`. */
  function Empty(): (st: Store)
    ensures Sound(st) && st.accounts == map[] && st.entries == []
  {
    Store([], map[], [], 0, 0, 0)
  }

  /** The id the next entry of family `k` receives. */
  function NextId(st: Store, k: IdKind): Id
  {
    Id(k, Counter(k, st.transactions, st.transfers, st.scheduled))
  }

  /** `st` with `e` added to the arena, listed by the accounts it involves,
      and the counter of its family advanced. */
  function Recorded(st: Store, e: Entry): (r: Store)
    requires Indexed(st)
    requires e.recipient in st.accounts && (!e.Transaction? ==> e.sender in st.accounts)
    ensures Indexed(r) && r.accounts.Keys == st.accounts.Keys && r.order == st.order
    ensures r.entries == st.entries + [e]
  {
    BalancesAfterListing(st.entries, st.accounts, e);
    assert ListEntry(st.accounts, e, |st.entries|).Keys == st.accounts.Keys;
    Store(st.entries + [e], ListEntry(st.accounts, e, |st.entries|), st.order,
          Bump(KindOf(e), TransactionKind, st.transactions),
          Bump(KindOf(e), TransferKind, st.transfers),
          Bump(KindOf(e), ScheduledKind, st.scheduled))
  }

  /** Recording a well-formed entry under the next id of its family keeps the
      store sound and moves each balance by exactly the entry's effect. */
  lemma RecordedSpec(st: Store, e: Entry)
    requires Sound(st)
    requires WellFormed(e) && e.recipient in st.accounts && (!e.Transaction? ==> e.sender in st.accounts)
    requires e.id == NextId(st, KindOf(e))
    ensures Sound(Recorded(st, e))
    ensures RecordedBalances(st.entries, st.accounts, Recorded(st, e).entries, Recorded(st, e).accounts, e)
  {
    ConsistentAfterAppend(st.entries, st.accounts, st.order, st.transactions, st.transfers, st.scheduled, e);
    BalancesAfterListing(st.entries, st.accounts, e);
  }

  /** Recording pushes the new entry's position onto the list of each account
      it involves (its recipient, and the sender of a two-party entry) and of
      no other account, and advances only its own family's counter. */
  lemma RecordedLists(st: Store, e: Entry)
    requires Indexed(st)
    requires e.recipient in st.accounts && (!e.Transaction? ==> e.sender in st.accounts)
    ensures var r := Recorded(st, e);
      forall a :: a in st.accounts ==>
        r.accounts[a] == if Involves(e, a) then st.accounts[a] + [|st.entries|] else st.accounts[a]
    ensures var r := Recorded(st, e);
      forall k :: NextId(r, k) == if k == KindOf(e) then Id(k, NextId(st, k).ordinal + 1) else NextId(st, k)
  {
    forall a | a in st.accounts
      ensures Recorded(st, e).accounts[a] == if Involves(e, a) then st.accounts[a] + [|st.entries|] else st.accounts[a]
    {
      ListEntryAt(st.entries, st.accounts, e, a);
    }
  }

  // ===========================================================================
  // Stage 1

  /** `createAccount(accountId)`: adds no entry and uses no id; an existing
      account keeps its list, and a new one starts with an empty list. */
  function CreateAccount(st: Store, accountId: string): (r: Done<bool>)
    ensures r.store.entries == st.entries
    ensures r.store.transactions == st.transactions && r.store.transfers == st.transfers
    ensures r.store.scheduled == st.scheduled
    ensures forall a :: a in st.accounts ==> a in r.store.accounts && r.store.accounts[a] == st.accounts[a]
    ensures r.value ==> accountId in r.store.accounts && r.store.accounts[accountId] == []
    ensures r.value <==> accountId !in st.accounts
    ensures r.value ==> r.store.accounts.Keys == st.accounts.Keys + {accountId} && r.store.order == st.order + [accountId]
    ensures !r.value ==> r.store == st
  {
    if accountId in st.accounts then Done(st, false)
    else Done(st.(accounts := st.accounts[accountId := []], order := st.order + [accountId]), true)
  }

  /** An account can be created once; a new account has balance 0 at every
      time, and no other balance changes. */
  lemma CreateAccountSpec(st: Store, accountId: string)
    requires Sound(st)
    ensures CreateAccount(st, accountId).value <==> accountId !in st.accounts
    ensures !CreateAccount(st, accountId).value ==> CreateAccount(st, accountId).store == st
    ensures Sound(CreateAccount(st, accountId).store)
    ensures var r := CreateAccount(st, accountId).store;
      CreateAccount(st, accountId).value ==> forall t :: Balance(r.entries, r.accounts, accountId, t) == Some(0)
    ensures var r := CreateAccount(st, accountId).store;
      forall a, t :: a != accountId ==> Balance(r.entries, r.accounts, a, t) == Balance(st.entries, st.accounts, a, t)
    ensures CreateAccount(st, accountId).value ==> !CreateAccount(CreateAccount(st, accountId).store, accountId).value
  {
    var r := CreateAccount(st, accountId).store;
    if accountId !in st.accounts {
      forall i | 0 <= i < |r.entries|
        ensures r.entries[i].recipient in r.accounts && i in r.accounts[r.entries[i].recipient]
      {
        assert r.entries[i].recipient in st.accounts;
      }
    }
  }

  /** `deposit(accountId, amount, timestamp)`: on success the one new entry
      is a deposit on the account under the next transaction id. */
  function Deposit(st: Store, accountId: string, amount: int, timestamp: int): (r: Done<bool>)
    requires Indexed(st)
    ensures r.store.accounts.Keys == st.accounts.Keys && r.store.order == st.order
    ensures r.store.entries == st.entries +
      if r.value then [Transaction(timestamp, amount, TxType.Deposit, accountId, NextId(st, TransactionKind))] else []
  {
    if accountId !in st.accounts || amount <= 0 then Done(st, false)
    else Done(Recorded(st, Transaction(timestamp, amount, TxType.Deposit, accountId, NextId(st, TransactionKind))), true)
  }

  /** A deposit succeeds exactly on a known account with a positive amount;
      it raises that account's balance by the amount at every time from
      `timestamp` on and changes no other balance. */
  lemma DepositSpec(st: Store, accountId: string, amount: int, timestamp: int)
    requires Sound(st)
    ensures Deposit(st, accountId, amount, timestamp).value <==> accountId in st.accounts && amount > 0
    ensures !Deposit(st, accountId, amount, timestamp).value ==> Deposit(st, accountId, amount, timestamp).store == st
    ensures Sound(Deposit(st, accountId, amount, timestamp).store)
    ensures var r := Deposit(st, accountId, amount, timestamp);
      r.value ==> forall t ::
                    Balance(r.store.entries, r.store.accounts, accountId, t)
                      == Some(Balance(st.entries, st.accounts, accountId, t).value + (if timestamp <= t then amount else 0))
    ensures var r := Deposit(st, accountId, amount, timestamp).store;
      forall a, t :: a != accountId ==> Balance(r.entries, r.accounts, a, t) == Balance(st.entries, st.accounts, a, t)
  {
    if accountId in st.accounts && amount > 0 {
      var e := Transaction(timestamp, amount, TxType.Deposit, accountId, NextId(st, TransactionKind));
      RecordedSpec(st, e);
      TransactionRecorded(st.entries, st.accounts, Recorded(st, e).entries, Recorded(st, e).accounts, e);
    }
  }

  /** `withdraw(accountId, amount, timestamp)`: the funds check uses the
      balance at `timestamp` only; on success the one new entry is a
      withdrawal from the account under the next transaction id. */
  function Withdraw(st: Store, accountId: string, amount: int, timestamp: int): (r: Done<bool>)
    requires Indexed(st)
    ensures r.store.accounts.Keys == st.accounts.Keys && r.store.order == st.order
    ensures r.store.entries == st.entries +
      if r.value then [Transaction(timestamp, amount, Withdrawal, accountId, NextId(st, TransactionKind))] else []
  {
    if accountId !in st.accounts || amount <= 0 then Done(st, false)
    else if Tally(st.entries, st.accounts[accountId], accountId, timestamp) < amount then Done(st, false)
    else Done(Recorded(st, Transaction(timestamp, amount, Withdrawal, accountId, NextId(st, TransactionKind))), true)
  }

  /** A withdrawal succeeds exactly on a known account with a positive amount
      covered by the balance at `timestamp`; it lowers that balance by the
      amount from `timestamp` on, leaving it non-negative at `timestamp`, and
      changes no other balance. */
  lemma WithdrawSpec(st: Store, accountId: string, amount: int, timestamp: int)
    requires Sound(st)
    ensures Withdraw(st, accountId, amount, timestamp).value <==>
      accountId in st.accounts && amount > 0 && Balance(st.entries, st.accounts, accountId, timestamp).value >= amount
    ensures !Withdraw(st, accountId, amount, timestamp).value ==> Withdraw(st, accountId, amount, timestamp).store == st
    ensures Sound(Withdraw(st, accountId, amount, timestamp).store)
    ensures var r := Withdraw(st, accountId, amount, timestamp);
      r.value ==> forall t ::
                    Balance(r.store.entries, r.store.accounts, accountId, t)
                      == Some(Balance(st.entries, st.accounts, accountId, t).value - (if timestamp <= t then amount else 0))
    ensures var r := Withdraw(st, accountId, amount, timestamp);
      r.value ==> Balance(r.store.entries, r.store.accounts, accountId, timestamp).value >= 0
    ensures var r := Withdraw(st, accountId, amount, timestamp).store;
      forall a, t :: a != accountId ==> Balance(r.entries, r.accounts, a, t) == Balance(st.entries, st.accounts, a, t)
  {
    if Withdraw(st, accountId, amount, timestamp).value {
      var e := Transaction(timestamp, amount, Withdrawal, accountId, NextId(st, TransactionKind));
      RecordedSpec(st, e);
      TransactionRecorded(st.entries, st.accounts, Recorded(st, e).entries, Recorded(st, e).accounts, e);
    }
  }

  /** The funds check looks at `timestamp` only: a withdrawal covered at
      `timestamp` succeeds even when the balance at a later time `t` is below
      the amount, and then leaves the balance at `t` negative. */
  lemma WithdrawOverdrawsLater(st: Store, accountId: string, amount: int, timestamp: int, t: int)
    requires Sound(st) && accountId in st.accounts && amount > 0 && timestamp <= t
    requires Balance(st.entries, st.accounts, accountId, timestamp).value >= amount
    requires Balance(st.entries, st.accounts, accountId, t).value < amount
    ensures var r := Withdraw(st, accountId, amount, timestamp);
      r.value && Balance(r.store.entries, r.store.accounts, accountId, t).value < 0
  {
    WithdrawSpec(st, accountId, amount, timestamp);
  }

  // ===========================================================================
  // Stage 3

  /** `createTransfer(from, to, amount, timestamp, timeToLive)`. */
  function CreateTransfer(st: Store, fromId: string, toId: string, amount: int, timestamp: int, timeToLive: int)
    : (r: Done<Option<Id>>)
    requires Indexed(st)
    ensures Indexed(r.store) && r.store.accounts.Keys == st.accounts.Keys && r.store.order == st.order
    ensures st.entries <= r.store.entries
  {
    if fromId !in st.accounts || toId !in st.accounts || fromId == toId || amount <= 0 || timeToLive <= 0 then
      Done(st, None)
    else if Tally(st.entries, st.accounts[fromId], fromId, timestamp) < amount then
      Done(st, None)
    else
      var id := NextId(st, TransferKind);
      Done(Recorded(st, Transfer(timestamp, amount, fromId, toId, timeToLive, id, false)), Some(id))
  }

  /** A transfer is created exactly between two different known accounts,
      for a positive amount and time to live, when the sender's balance at
      `timestamp` covers the amount; its id was never issued before. */
  lemma CreateTransferSpec(st: Store, fromId: string, toId: string, amount: int, timestamp: int, timeToLive: int)
    requires Sound(st)
    ensures CreateTransfer(st, fromId, toId, amount, timestamp, timeToLive).value.Some? <==>
      && fromId in st.accounts && toId in st.accounts && fromId != toId && amount > 0 && timeToLive > 0
      && Balance(st.entries, st.accounts, fromId, timestamp).value >= amount
    ensures var r := CreateTransfer(st, fromId, toId, amount, timestamp, timeToLive);
      r.value.None? ==> r.store == st
    ensures Sound(CreateTransfer(st, fromId, toId, amount, timestamp, timeToLive).store)
    ensures var r := CreateTransfer(st, fromId, toId, amount, timestamp, timeToLive);
      r.value.Some? ==> forall i :: 0 <= i < |st.entries| ==> st.entries[i].id != r.value.value
  {
    var r := CreateTransfer(st, fromId, toId, amount, timestamp, timeToLive);
    if r.value.Some? {
      var e := Transfer(timestamp, amount, fromId, toId, timeToLive, r.value.value, false);
      assert r.store == Recorded(st, e);
      RecordedSpec(st, e);
    }
  }

  /** A created transfer takes the next transfer id and is recorded as one
      new entry: a pending transfer from `fromId` to `toId` created at
      `timestamp`, whose position is pushed onto the sender's list and then
      the recipient's, and the transfer counter alone advances. A refused
      call changes nothing. */
  lemma CreateTransferRecords(st: Store, fromId: string, toId: string, amount: int, timestamp: int, timeToLive: int)
    requires Indexed(st)
    ensures var r := CreateTransfer(st, fromId, toId, amount, timestamp, timeToLive);
      r.value.None? ==> r.store == st
    ensures var r := CreateTransfer(st, fromId, toId, amount, timestamp, timeToLive);
      r.value.Some? ==>
        && fromId in st.accounts && toId in st.accounts && fromId != toId
        && r.value.value == NextId(st, TransferKind)
        && r.store.entries == st.entries + [Transfer(timestamp, amount, fromId, toId, timeToLive, r.value.value, false)]
        && r.store.accounts == st.accounts[fromId := st.accounts[fromId] + [|st.entries|]][toId := st.accounts[toId] + [|st.entries|]]
        && r.store.order == st.order
        && NextId(r.store, TransferKind) == Id(TransferKind, r.value.value.ordinal + 1)
        && NextId(r.store, TransactionKind) == NextId(st, TransactionKind)
        && NextId(r.store, ScheduledKind) == NextId(st, ScheduledKind)
  {
    var r := CreateTransfer(st, fromId, toId, amount, timestamp, timeToLive);
    if r.value.Some? {
      var e := Transfer(timestamp, amount, fromId, toId, timeToLive, r.value.value, false);
      assert r.store == Recorded(st, e);
      RecordedLists(st, e);
      assert Involves(e, fromId) && Involves(e, toId);
    }
  }

  /** A created transfer lowers the sender's balance by the amount from
      `timestamp` to the expiration; no other balance moves, the
      recipient's included. */
  lemma CreateTransferBalances(st: Store, fromId: string, toId: string, amount: int, timestamp: int, timeToLive: int)
    requires Sound(st)
    ensures var r := CreateTransfer(st, fromId, toId, amount, timestamp, timeToLive);
      r.value.Some? ==>
        forall t ::
          Balance(r.store.entries, r.store.accounts, fromId, t)
            == Some(Balance(st.entries, st.accounts, fromId, t).value - (if timestamp <= t <= timestamp + timeToLive then amount else 0))
    ensures var r := CreateTransfer(st, fromId, toId, amount, timestamp, timeToLive).store;
      forall a, t :: a != fromId ==> Balance(r.entries, r.accounts, a, t) == Balance(st.entries, st.accounts, a, t)
    ensures var r := CreateTransfer(st, fromId, toId, amount, timestamp, timeToLive);
      r.value.Some? ==> Balance(r.store.entries, r.store.accounts, fromId, timestamp).value >= 0
  {
    var r := CreateTransfer(st, fromId, toId, amount, timestamp, timeToLive);
    if r.value.Some? {
      var e := Transfer(timestamp, amount, fromId, toId, timeToLive, r.value.value, false);
      assert r.store == Recorded(st, e);
      RecordedSpec(st, e);
      TransferRecorded(st.entries, st.accounts, r.store.entries, r.store.accounts, e);
    }
  }

  /** A created transfer has no status before its timestamp, is pending up to
      its expiration and expired afterwards, until someone accepts it. */
  lemma CreatedTransferStatus(st: Store, fromId: string, toId: string, amount: int, timestamp: int, timeToLive: int)
    requires Sound(st)
    requires CreateTransfer(st, fromId, toId, amount, timestamp, timeToLive).value.Some?
    ensures var r := CreateTransfer(st, fromId, toId, amount, timestamp, timeToLive);
      forall t :: TransferStatus(r.store.entries, r.store.accounts, r.store.order, r.value.value, t)
        == if t < timestamp then None else if t <= timestamp + timeToLive then Some(Pending) else Some(Expired)
  {
    var r := CreateTransfer(st, fromId, toId, amount, timestamp, timeToLive);
    CreateTransferSpec(st, fromId, toId, amount, timestamp, timeToLive);
    var s := r.store;
    forall t ensures TransferStatus(s.entries, s.accounts, s.order, r.value.value, t)
      == if t < timestamp then None else if t <= timestamp + timeToLive then Some(Pending) else Some(Expired)
    {
      StatusOfUniqueTransfer(s.entries, s.accounts, s.order, s.transactions, s.transfers, s.scheduled, |st.entries|, t);
    }
  }

  /** `acceptTransfer(transferId, timestamp)`: accepts the first transfer with
      this id among the entries visible at `timestamp`, if it is pending. */
  function AcceptTransfer(st: Store, transferId: Id, timestamp: int): (r: Done<bool>)
    requires Indexed(st)
    ensures Indexed(r.store) && r.store.accounts == st.accounts && r.store.order == st.order
    ensures |r.store.entries| == |st.entries|
    ensures match LookupTransfer(st.entries, st.accounts, st.order, transferId, timestamp)
      case None => !r.value
      case Some(i) =>
        && (r.value <==> Accept(st.entries[i], timestamp).ok)
        && var e := st.entries[i];
           (r.value ==> r.store == st.(entries := st.entries[i := Transfer(e.timestamp, e.amount, e.sender, e.recipient, e.timeToLive, e.id, true)]))
    ensures !r.value ==> r.store == st
  {
    match LookupTransfer(st.entries, st.accounts, st.order, transferId, timestamp)
    case None => Done(st, false)
    case Some(i) =>
      var step := Accept(st.entries[i], timestamp);
      if step.ok then Done(st.(entries := st.entries[i := step.entry]), true) else Done(st, false)
  }

  /** Accepting succeeds exactly when the transfer's status at `timestamp` is
      pending; a refused accept changes nothing. */
  lemma AcceptTransferOutcome(st: Store, transferId: Id, timestamp: int)
    requires Sound(st)
    ensures AcceptTransfer(st, transferId, timestamp).value
        <==> TransferStatus(st.entries, st.accounts, st.order, transferId, timestamp) == Some(Pending)
    ensures !AcceptTransfer(st, transferId, timestamp).value ==> AcceptTransfer(st, transferId, timestamp).store == st
    ensures Sound(AcceptTransfer(st, transferId, timestamp).store)
  {
    var found := LookupTransfer(st.entries, st.accounts, st.order, transferId, timestamp);
    if found.Some? {
      var i := found.value;
      LookupTransferFinds(st.entries, st.accounts, st.order, st.transactions, st.transfers, st.scheduled, transferId, timestamp);
      var step := Accept(st.entries[i], timestamp);
      if step.ok {
        ConsistentAfterStep(st.entries, st.accounts, st.order, st.transactions, st.transfers, st.scheduled, i, step.entry);
      }
    }
  }

  /** After the transfer at position `i` is accepted, its recipient gains the
      amount from the transfer's timestamp on, its sender now loses the amount
      also after the expiration, and nobody else's balance moves. */
  lemma AcceptTransferBalances(st: Store, transferId: Id, timestamp: int, i: nat)
    requires Sound(st)
    requires LookupTransfer(st.entries, st.accounts, st.order, transferId, timestamp) == Some(i)
    requires AcceptTransfer(st, transferId, timestamp).value
    ensures var r := AcceptTransfer(st, transferId, timestamp).store; var e := st.entries[i];
      forall t ::
        Balance(r.entries, r.accounts, e.recipient, t)
          == Some(Balance(st.entries, st.accounts, e.recipient, t).value + (if e.timestamp <= t then e.amount else 0))
    ensures var r := AcceptTransfer(st, transferId, timestamp).store; var e := st.entries[i];
      forall t ::
        Balance(r.entries, r.accounts, e.sender, t)
          == Some(Balance(st.entries, st.accounts, e.sender, t).value - (if Expiration(e) < t then e.amount else 0))
    ensures var r := AcceptTransfer(st, transferId, timestamp).store; var e := st.entries[i];
      forall a, t :: a != e.sender && a != e.recipient ==>
        Balance(r.entries, r.accounts, a, t) == Balance(st.entries, st.accounts, a, t)
  {
    LookupTransferFinds(st.entries, st.accounts, st.order, st.transactions, st.transfers, st.scheduled, transferId, timestamp);
    var r := AcceptTransfer(st, transferId, timestamp).store;
    assert r.accounts == st.accounts && r.entries == st.entries[i := Accept(st.entries[i], timestamp).entry];
    AcceptedBalances(st.entries, st.accounts, i, timestamp);
  }

  /** After the transfer at position `i` is accepted, it reads as accepted
      from its timestamp on, and every later accept of it fails. */
  lemma AcceptTransferFinal(st: Store, transferId: Id, timestamp: int, i: nat)
    requires Sound(st)
    requires LookupTransfer(st.entries, st.accounts, st.order, transferId, timestamp) == Some(i)
    requires AcceptTransfer(st, transferId, timestamp).value
    ensures var r := AcceptTransfer(st, transferId, timestamp).store;
      forall t :: TransferStatus(r.entries, r.accounts, r.order, transferId, t)
        == if t < st.entries[i].timestamp then None else Some(Accepted)
    ensures var r := AcceptTransfer(st, transferId, timestamp).store;
      forall t :: !AcceptTransfer(r, transferId, t).value
  {
    var r := AcceptTransfer(st, transferId, timestamp).store;
    LookupTransferFinds(st.entries, st.accounts, st.order, st.transactions, st.transfers, st.scheduled, transferId, timestamp);
    assert r.entries == st.entries[i := Accept(st.entries[i], timestamp).entry];
    AcceptTransferOutcome(st, transferId, timestamp);
    forall t ensures TransferStatus(r.entries, r.accounts, r.order, transferId, t)
      == if t < st.entries[i].timestamp then None else Some(Accepted)
    {
      StatusOfUniqueTransfer(r.entries, r.accounts, r.order, r.transactions, r.transfers, r.scheduled, i, t);
    }
    forall t ensures !AcceptTransfer(r, transferId, t).value {
      AcceptTransferOutcome(r, transferId, t);
    }
  }

  // ===========================================================================
  // Stage 4

  /** `scheduleTransfer(timestamp, from, to, amount, scheduledFor, timeToLive)`. */
  function ScheduleTransfer(st: Store, timestamp: int, fromId: string, toId: string, amount: int,
                            scheduledFor: int, timeToLive: int): (r: Done<Option<Id>>)
    requires Indexed(st)
    ensures r.store.accounts.Keys == st.accounts.Keys && r.store.order == st.order
    ensures r.value.Some? ==>
      && r.value.value == NextId(st, ScheduledKind)
      && r.store.entries == st.entries + [Scheduled(timestamp, amount, fromId, toId, scheduledFor, timeToLive, r.value.value, false, false)]
    ensures r.value.None? ==> r.store == st
  {
    if fromId !in st.accounts || toId !in st.accounts || fromId == toId || amount <= 0 || timeToLive <= 0 then
      Done(st, None)
    else if scheduledFor < timestamp then
      Done(st, None)
    else
      var id := NextId(st, ScheduledKind);
      Done(Recorded(st, Scheduled(timestamp, amount, fromId, toId, scheduledFor, timeToLive, id, false, false)), Some(id))
  }

  /** Scheduling succeeds exactly between two different known accounts, for
      a positive amount and time to live, due no earlier than `timestamp`.
      No balance moves, and from `timestamp` on both accounts list the new id
      among their pending scheduled transfers. */
  lemma ScheduleTransferSpec(st: Store, timestamp: int, fromId: string, toId: string, amount: int,
                             scheduledFor: int, timeToLive: int)
    requires Sound(st)
    ensures ScheduleTransfer(st, timestamp, fromId, toId, amount, scheduledFor, timeToLive).value.Some? <==>
      && fromId in st.accounts && toId in st.accounts && fromId != toId && amount > 0 && timeToLive > 0
      && scheduledFor >= timestamp
    ensures var r := ScheduleTransfer(st, timestamp, fromId, toId, amount, scheduledFor, timeToLive);
      r.value.None? ==> r.store == st
    ensures Sound(ScheduleTransfer(st, timestamp, fromId, toId, amount, scheduledFor, timeToLive).store)
    ensures var r := ScheduleTransfer(st, timestamp, fromId, toId, amount, scheduledFor, timeToLive).store;
      forall a, t :: Balance(r.entries, r.accounts, a, t) == Balance(st.entries, st.accounts, a, t)
    ensures var r := ScheduleTransfer(st, timestamp, fromId, toId, amount, scheduledFor, timeToLive);
      r.value.Some? ==> forall t :: timestamp <= t ==>
        && r.value.value in ScheduledIds(r.store.entries, r.store.accounts, fromId, t).value
        && r.value.value in ScheduledIds(r.store.entries, r.store.accounts, toId, t).value
  {
    var r := ScheduleTransfer(st, timestamp, fromId, toId, amount, scheduledFor, timeToLive);
    if r.value.Some? {
      var e := Scheduled(timestamp, amount, fromId, toId, scheduledFor, timeToLive, r.value.value, false, false);
      RecordedSpec(st, e);
      ScheduledRecorded(st.entries, st.accounts, r.store.entries, r.store.accounts, e);
      var n := |st.entries|;
      assert r.store.entries[n] == e;
      assert n in r.store.accounts[fromId] && n in r.store.accounts[toId];
      forall t | timestamp <= t
        ensures r.value.value in ScheduledIds(r.store.entries, r.store.accounts, fromId, t).value
        ensures r.value.value in ScheduledIds(r.store.entries, r.store.accounts, toId, t).value
      {
        ScheduledIdsContents(r.store.entries, r.store.accounts, fromId, t);
        ScheduledIdsContents(r.store.entries, r.store.accounts, toId, t);
      }
    }
  }

  /** A scheduled transfer that `processScheduledTransfers(t)` acts on:
      pending and due. (Being due implies being visible at `t`, since a
      scheduled transfer is never due before its own timestamp.) */
  predicate Due(e: Entry, t: int)
  {
    e.Scheduled? && StatusAt(e, t) == Pending && e.scheduledFor <= t
  }

  /** `entries` holds `n` earlier entries followed by one transfer created at
      `t` per id of `ids`, and the ids are consecutive transfer ids from `first`. */
  predicate Issued(entries: seq<Entry>, n: nat, first: nat, ids: seq<Id>, t: int)
  {
    && |entries| == n + |ids|
    && forall j :: 0 <= j < |ids| ==>
         && ids[j] == Id(TransferKind, first + j)
         && entries[n + j].Transfer? && entries[n + j].id == ids[j] && entries[n + j].timestamp == t
  }

  /** Two runs of issued transfers, the second after the first, with the
      first run left in place, make one run. */
  lemma IssuedConcat(mid: seq<Entry>, final: seq<Entry>, n: nat, first: nat, ids1: seq<Id>, ids2: seq<Id>, t: int)
    requires Issued(mid, n, first, ids1, t)
    requires Issued(final, |mid|, first + |ids1|, ids2, t)
    requires forall j :: 0 <= j < |mid| && !mid[j].Scheduled? ==> final[j] == mid[j]
    ensures Issued(final, n, first, ids1 + ids2, t)
  {
    var ids := ids1 + ids2;
    forall j | 0 <= j < |ids|
      ensures ids[j] == Id(TransferKind, first + j)
      ensures final[n + j].Transfer? && final[n + j].id == ids[j] && final[n + j].timestamp == t
    {
      if j < |ids1| {
        assert ids[j] == ids1[j] && mid[n + j].Transfer?;
      } else {
        assert ids[j] == ids2[j - |ids1|] && n + j == |mid| + (j - |ids1|);
      }
    }
  }

  /** `after` extends `before`, and every entry of `before` keeps its id, and
      is unchanged unless it is a scheduled transfer. */
  predicate Kept(before: seq<Entry>, after: seq<Entry>)
  {
    && |before| <= |after|
    && forall j :: 0 <= j < |before| ==>
         && after[j].id == before[j].id
         && (!before[j].Scheduled? ==> after[j] == before[j])
  }

  lemma KeptTransitive(a: seq<Entry>, b: seq<Entry>, c: seq<Entry>)
    requires Kept(a, b) && Kept(b, c)
    ensures Kept(a, c)
  {
  }

  /** One step of `processScheduledTransfers(t)`, on the entry at position
      `i`: it issues at most one transfer and changes no other existing entry. */
  function ProcessOne(st: Store, i: nat, t: int): (r: Done<seq<Id>>)
    requires Indexed(st) && i < |st.entries|
    ensures Indexed(r.store) && r.store.accounts.Keys == st.accounts.Keys && r.store.order == st.order
    ensures Issued(r.store.entries, |st.entries|, st.transfers, r.value, t) && |r.value| <= 1
    ensures r.store.transfers == st.transfers + |r.value|
    ensures forall j :: 0 <= j < |st.entries| && j != i ==> r.store.entries[j] == st.entries[j]
    ensures r.store.entries[i].id == st.entries[i].id
    ensures !st.entries[i].Scheduled? ==> r.store.entries[i] == st.entries[i]
  {
    var e := st.entries[i];
    if Due(e, t) then
      var created := CreateTransfer(st, e.sender, e.recipient, e.amount, t, e.timeToLive);
      var s := created.store;
      if created.value.Some? then Done(s.(entries := s.entries[i := Accept(e, t).entry]), [created.value.value])
      else Done(s.(entries := s.entries[i := Reject(e, t).entry]), [])
    else Done(st, [])
  }

  /** The rest of `processScheduledTransfers(t)`: the steps over `visible`, in
      order. They issue consecutive fresh transfer ids, appending one transfer
      created at `t` per id, and never change what identifies an existing
      entry nor any existing entry other than a scheduled transfer. */
  function ProcessFrom(st: Store, visible: seq<nat>, t: int): (r: Done<seq<Id>>)
    requires Indexed(st) && InRange(st.entries, visible)
    ensures Indexed(r.store)
    ensures Issued(r.store.entries, |st.entries|, st.transfers, r.value, t)
    ensures r.store.transfers == st.transfers + |r.value|
    ensures Kept(st.entries, r.store.entries)
    decreases |visible|
  {
    if visible == [] then Done(st, [])
    else
      var one := ProcessOne(st, visible[0], t);
      assert InRange(one.store.entries, visible[1..]);
      assert Kept(st.entries, one.store.entries);
      var rest := ProcessFrom(one.store, visible[1..], t);
      KeptTransitive(st.entries, one.store.entries, rest.store.entries);
      IssuedConcat(one.store.entries, rest.store.entries, |st.entries|, st.transfers, one.value, rest.value, t);
      Done(rest.store, one.value + rest.value)
  }

  /** After the first `k` steps over `visible`, which returned `done`, the
      store is `st`, and the steps still to come finish at `goal`. */
  ghost predicate Remaining(st: Store, visible: seq<nat>, k: nat, t: int, done: seq<Id>, goal: Done<seq<Id>>)
  {
    && Indexed(st) && InRange(st.entries, visible) && k <= |visible|
    && ProcessFrom(st, visible[k..], t).store == goal.store
    && done + ProcessFrom(st, visible[k..], t).value == goal.value
  }

  /** Taking the step on `visible[k]` keeps the steps still to come on course. */
  lemma RemainingStep(st: Store, visible: seq<nat>, k: nat, t: int, done: seq<Id>, goal: Done<seq<Id>>)
    requires Remaining(st, visible, k, t, done, goal) && k < |visible|
    ensures var one := ProcessOne(st, visible[k], t);
      Remaining(one.store, visible, k + 1, t, done + one.value, goal)
  {
    assert visible[k..][0] == visible[k];
    assert visible[k..][1..] == visible[k + 1..];
    var one := ProcessOne(st, visible[k], t);
    assert InRange(one.store.entries, visible);
    var rest := ProcessFrom(one.store, visible[k + 1..], t);
    assert done + (one.value + rest.value) == (done + one.value) + rest.value;
  }

  /** The walk starts on course, and once every step is taken the store and
      the returned ids are the goal. */
  lemma RemainingEnds(st: Store, visible: seq<nat>, t: int, done: seq<Id>, goal: Done<seq<Id>>)
    ensures Indexed(st) && InRange(st.entries, visible) ==>
      Remaining(st, visible, 0, t, [], ProcessFrom(st, visible, t))
    ensures Remaining(st, visible, |visible|, t, done, goal) ==> Done(st, done) == goal
  {
    assert visible[0..] == visible;
    assert visible[|visible|..] == [];
    assert done + [] == done;
  }

  /** `processScheduledTransfers(t)`: the steps over the entries visible at `t`,
      listed before any step runs. */
  function ProcessScheduledTransfers(st: Store, t: int): (r: Done<seq<Id>>)
    requires Indexed(st)
    ensures Indexed(r.store) && r.store.transfers == st.transfers + |r.value|
    ensures Issued(r.store.entries, |st.entries|, st.transfers, r.value, t)
    ensures Kept(st.entries, r.store.entries)
  {
    ProcessFrom(st, AllVisible(st.entries, st.accounts, st.order, t), t)
  }

  /** One step keeps the store sound. */
  lemma ProcessOneSound(st: Store, i: nat, t: int)
    requires Sound(st) && i < |st.entries|
    ensures Sound(ProcessOne(st, i, t).store)
  {
    var e := st.entries[i];
    if Due(e, t) {
      assert WellFormed(e) && e.sender in st.accounts && e.recipient in st.accounts;
      CreateTransferSpec(st, e.sender, e.recipient, e.amount, t, e.timeToLive);
      var created := CreateTransfer(st, e.sender, e.recipient, e.amount, t, e.timeToLive);
      var s := created.store;
      assert s.entries[i] == e;
      ScheduledResolvesOnce(e, t, t);
      if created.value.Some? {
        ConsistentAfterStep(s.entries, s.accounts, s.order, s.transactions, s.transfers, s.scheduled, i, Accept(e, t).entry);
      } else {
        ConsistentAfterStep(s.entries, s.accounts, s.order, s.transactions, s.transfers, s.scheduled, i, Reject(e, t).entry);
      }
    }
  }

  /** One step: an entry that is not due is left alone; a due one is either
      accepted, with one transfer created at `t` under the next transfer id
      appended, or rejected; no other existing entry changes. */
  lemma ProcessOneShape(st: Store, i: nat, t: int)
    requires Indexed(st) && i < |st.entries|
    ensures !Due(st.entries[i], t) ==> ProcessOne(st, i, t) == Done(st, [])
    ensures var r := ProcessOne(st, i, t); var e := st.entries[i];
      Due(e, t) ==>
        && |r.value| <= 1
        && r.store.transfers == st.transfers + |r.value|
        && |r.store.entries| == |st.entries| + |r.value|
        && (forall j :: 0 <= j < |st.entries| && j != i ==> r.store.entries[j] == st.entries[j])
        && r.store.entries[i] == (if r.value == [] then Reject(e, t).entry else Accept(e, t).entry)
        && (r.value != [] ==>
              && r.value[0] == Id(TransferKind, st.transfers)
              && r.store.entries[|st.entries|] == Transfer(t, e.amount, e.sender, e.recipient, e.timeToLive, r.value[0], false))
  {
  }

  /** A due scheduled transfer is accepted exactly when its sender's balance
      at `t` covers the amount: the other conditions of `createTransfer` hold
      for every scheduled transfer the store created. */
  lemma ProcessOneFunds(st: Store, i: nat, t: int)
    requires Sound(st) && i < |st.entries| && Due(st.entries[i], t)
    ensures var e := st.entries[i];
      ProcessOne(st, i, t).value != [] <==> Balance(st.entries, st.accounts, e.sender, t).value >= e.amount
  {
    var e := st.entries[i];
    assert WellFormed(e) && e.sender in st.accounts && e.recipient in st.accounts;
  }

  /** The steps keep the store sound. */
  lemma {:induction false} ProcessFromSound(st: Store, visible: seq<nat>, t: int)
    requires Sound(st) && InRange(st.entries, visible)
    ensures Sound(ProcessFrom(st, visible, t).store)
    decreases |visible|
  {
    if visible != [] {
      ProcessOneSound(st, visible[0], t);
      var one := ProcessOne(st, visible[0], t);
      assert InRange(one.store.entries, visible[1..]);
      ProcessFromSound(one.store, visible[1..], t);
    }
  }

  /** Every scheduled transfer that is due at `t` and listed in `visible` ends
      accepted or rejected; every other existing entry is untouched. */
  lemma {:induction false} ProcessFromResolves(st: Store, visible: seq<nat>, t: int)
    requires Indexed(st) && InRange(st.entries, visible)
    ensures var r := ProcessFrom(st, visible, t);
      forall j :: 0 <= j < |st.entries| ==>
        if Due(st.entries[j], t) && j in visible then
          r.store.entries[j] == Accept(st.entries[j], t).entry || r.store.entries[j] == Reject(st.entries[j], t).entry
        else r.store.entries[j] == st.entries[j]
    decreases |visible|
  {
    if visible != [] {
      var i := visible[0];
      ProcessOneShape(st, i, t);
      var one := ProcessOne(st, i, t);
      assert InRange(one.store.entries, visible[1..]);
      ProcessFromResolves(one.store, visible[1..], t);
      var r := ProcessFrom(st, visible, t);
      forall j | 0 <= j < |st.entries|
        ensures if Due(st.entries[j], t) && j in visible then
          r.store.entries[j] == Accept(st.entries[j], t).entry || r.store.entries[j] == Reject(st.entries[j], t).entry
        else r.store.entries[j] == st.entries[j]
      {
        assert j in visible <==> j == i || j in visible[1..];
        if j == i && Due(st.entries[j], t) {
          assert !Due(one.store.entries[j], t);
        }
      }
    }
  }

  /** A pass over entries none of which is due issues no transfer and leaves
      the store as it was. */
  lemma {:induction false} NothingDueNothingIssued(st: Store, visible: seq<nat>, t: int)
    requires Indexed(st) && InRange(st.entries, visible)
    requires forall j :: j in visible ==> !Due(st.entries[j], t)
    ensures ProcessFrom(st, visible, t) == Done(st, [])
    decreases |visible|
  {
    if visible != [] {
      ProcessOneShape(st, visible[0], t);
      assert forall j :: j in visible[1..] ==> j in visible;
      NothingDueNothingIssued(st, visible[1..], t);
    }
  }

  /** `processScheduledTransfers(t)` keeps the store sound and resolves every
      scheduled transfer due at `t`, accepting it or rejecting it; every other
      existing entry is untouched, and the returned ids are fresh consecutive
      transfer ids, one appended transfer created at `t` each. */
  lemma ProcessScheduledSpec(st: Store, t: int)
    requires Sound(st)
    ensures Sound(ProcessScheduledTransfers(st, t).store)
    ensures var r := ProcessScheduledTransfers(st, t);
      forall j :: 0 <= j < |st.entries| ==>
        if Due(st.entries[j], t) then
          r.store.entries[j] == Accept(st.entries[j], t).entry || r.store.entries[j] == Reject(st.entries[j], t).entry
        else r.store.entries[j] == st.entries[j]
    ensures var r := ProcessScheduledTransfers(st, t);
      && |r.store.entries| == |st.entries| + |r.value|
      && forall k :: 0 <= k < |r.value| ==>
           && r.value[k] == Id(TransferKind, st.transfers + k)
           && r.store.entries[|st.entries| + k].Transfer? && r.store.entries[|st.entries| + k].id == r.value[k]
  {
    var visible := AllVisible(st.entries, st.accounts, st.order, t);
    ProcessFromSound(st, visible, t);
    ProcessFromResolves(st, visible, t);
    AllVisibleContains(st.entries, st.accounts, st.order, st.transactions, st.transfers, st.scheduled, t);
    forall j | 0 <= j < |st.entries| && Due(st.entries[j], t) ensures j in visible {
      assert WellFormed(st.entries[j]);
    }
  }

  /** Accepting or rejecting a due scheduled transfer leaves it no longer due,
      at any time, and different from what it was. */
  lemma ResolvedNotDue(e: Entry, t: int, t': int)
    requires Due(e, t)
    ensures !Due(Accept(e, t).entry, t') && Accept(e, t).entry != e
    ensures !Due(Reject(e, t).entry, t') && Reject(e, t).entry != e
  {
    assert StatusAt(Accept(e, t).entry, t) == Accepted;
    assert StatusAt(Reject(e, t).entry, t) == Rejected;
  }

  /** `processScheduledTransfers(t)` returns no id and changes nothing exactly
      when no scheduled transfer is due at `t`. */
  lemma ProcessScheduledIdle(st: Store, t: int)
    requires Sound(st)
    ensures (forall j :: 0 <= j < |st.entries| ==> !Due(st.entries[j], t)) <==>
      ProcessScheduledTransfers(st, t) == Done(st, [])
  {
    if forall j :: 0 <= j < |st.entries| ==> !Due(st.entries[j], t) {
      NothingDueNothingIssued(st, AllVisible(st.entries, st.accounts, st.order, t), t);
    } else {
      var j :| 0 <= j < |st.entries| && Due(st.entries[j], t);
      ProcessScheduledSpec(st, t);
      ResolvedNotDue(st.entries[j], t, t);
    }
  }

  /** Calling `processScheduledTransfers` again, at any time, returns none of
      the ids the first call returned and leaves every scheduled transfer the
      first call resolved as the first call left it. */
  lemma ProcessScheduledRepeat(st: Store, t1: int, t2: int)
    requires Sound(st)
    ensures var r1 := ProcessScheduledTransfers(st, t1); var r2 := ProcessScheduledTransfers(r1.store, t2);
      forall k1, k2 :: 0 <= k1 < |r1.value| && 0 <= k2 < |r2.value| ==> r1.value[k1] != r2.value[k2]
    ensures var r1 := ProcessScheduledTransfers(st, t1); var r2 := ProcessScheduledTransfers(r1.store, t2);
      forall j :: 0 <= j < |st.entries| && Due(st.entries[j], t1) ==> r2.store.entries[j] == r1.store.entries[j]
  {
    var r1 := ProcessScheduledTransfers(st, t1);
    ProcessScheduledSpec(st, t1);
    ProcessScheduledSpec(r1.store, t2);
    forall j | 0 <= j < |st.entries| && Due(st.entries[j], t1) ensures !Due(r1.store.entries[j], t2) {
      var e := st.entries[j];
      assert Accept(e, t1).ok && Reject(e, t1).ok;
    }
  }

  /** A store `r` that holds the entries of `st` resolved at `t1`, followed by
      the transfers it issued: an entry of `r` due at `t2` is an entry of `st`
      due at `t2` and not due at `t1`. */
  lemma DueAfterResolving(st: Store, r: Done<seq<Id>>, t1: int, t2: int, j: nat)
    requires Issued(r.store.entries, |st.entries|, st.transfers, r.value, t1)
    requires forall i :: 0 <= i < |st.entries| ==>
      if Due(st.entries[i], t1) then
        r.store.entries[i] == Accept(st.entries[i], t1).entry || r.store.entries[i] == Reject(st.entries[i], t1).entry
      else r.store.entries[i] == st.entries[i]
    requires j < |r.store.entries|
    ensures Due(r.store.entries[j], t2) ==> j < |st.entries| && Due(st.entries[j], t2) && !Due(st.entries[j], t1)
  {
    if j < |st.entries| {
      if Due(st.entries[j], t1) {
        ResolvedNotDue(st.entries[j], t1, t2);
      }
    } else {
      var k := j - |st.entries|;
      assert r.store.entries[|st.entries| + k].id == r.value[k];
    }
  }

  /** After a call at `t1`, an entry is due at `t2` only if it was there
      before the call, due at `t2` and not due at `t1`. */
  lemma DueAfterProcessing(st: Store, t1: int, t2: int, j: nat)
    requires Sound(st)
    requires j < |ProcessScheduledTransfers(st, t1).store.entries|
    ensures Due(ProcessScheduledTransfers(st, t1).store.entries[j], t2) ==>
      j < |st.entries| && Due(st.entries[j], t2) && !Due(st.entries[j], t1)
  {
    ProcessScheduledSpec(st, t1);
    DueAfterResolving(st, ProcessScheduledTransfers(st, t1), t1, t2, j);
  }

  /** When every scheduled transfer due at `t2` was already due at `t1`, a
      second call at `t2` after a call at `t1` returns no id and changes
      nothing: the transfers it would process were all resolved by the first. */
  lemma ProcessScheduledNothingNew(st: Store, t1: int, t2: int)
    requires Sound(st)
    requires forall j :: 0 <= j < |st.entries| && Due(st.entries[j], t2) ==> Due(st.entries[j], t1)
    ensures var r1 := ProcessScheduledTransfers(st, t1);
      ProcessScheduledTransfers(r1.store, t2) == Done(r1.store, [])
  {
    var r1 := ProcessScheduledTransfers(st, t1);
    forall j | 0 <= j < |r1.store.entries| ensures !Due(r1.store.entries[j], t2) {
      DueAfterProcessing(st, t1, t2, j);
    }
    NothingDueNothingIssued(r1.store, AllVisible(r1.store.entries, r1.store.accounts, r1.store.order, t2), t2);
  }
}
