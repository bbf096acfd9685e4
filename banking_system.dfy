/** The `BankingSystem` object: the account store held in fields and every
    public operation of stages 1 to 4. Each update changes the fields in
    place and is proved to leave exactly the store the corresponding
    transition of module Operations describes, so everything proved there
    about an operation holds of the method; each query reads the fields
    through the corresponding Ledger or Ranking function. */
module Banking {
  import opened Entries
  import opened Ledger
  import opened Ranking
  import Operations

  class BankingSystem {
    /** Every entry ever created, in creation order. */
    var entries: seq<Entry>
    /** Each account's list of entries, as indices into `entries`. */
    var accounts: Accounts
    /** The accounts in creation order (the key order of the account record). */
    var order: seq<string>
    /** The three per-class id counters. */
    var transactionCount: nat
    var transferCount: nat
    var scheduledCount: nat

    /** The store the fields hold. */
    function Snapshot(): Operations.Store
      reads this
    {
      Operations.Store(entries, accounts, order, transactionCount, transferCount, scheduledCount)
    }

    ghost predicate Valid()
      reads this
    {
      Operations.Sound(Snapshot())
    }

    constructor()
      ensures Valid() && Snapshot() == Operations.Empty()
    {
      entries := [];
      accounts := map[];
      order := [];
      transactionCount := 0;
      transferCount := 0;
      scheduledCount := 0;
    }

    // -------------------------------------------------------------------------
    // Queries

    /** `getBalance`: null for an unknown account, otherwise the code's
        replay of the account's entries (filter by time, sort, fold). */
    function GetBalance(accountId: string, timestamp: int): (r: Option<int>)
      requires Valid()
      reads this
      ensures r.None? <==> accountId !in accounts
      ensures r.Some? ==> r.value == AccountBalance(entries, accounts[accountId], accountId, timestamp)
    {
      BalanceIsReplay(entries, accounts, accountId, timestamp);
      Balance(entries, accounts, accountId, timestamp)
    }

    /** `getTransactionVolume`: null for an unknown account, never negative, and
        the total of the amounts the account's history lists at that time. */
    function GetTransactionVolume(accountId: string, timestamp: int): (r: Option<int>)
      requires Valid()
      reads this
      ensures r.None? <==> accountId !in accounts
      ensures r.Some? ==> r.value >= 0
      ensures r.Some? ==> r.value == LinesTotal(History(entries, accounts, accountId, timestamp).value)
    {
      VolumeNonNegative(entries, accounts, accountId, timestamp);
      VolumeIsHistoryTotal(entries, accounts, accountId, timestamp);
      Volume(entries, accounts, accountId, timestamp)
    }

    /** `getTopAccountsByTransactionVolume`: `min(n, #accounts)` ids, none for a negative `n`. */
    function GetTopAccountsByTransactionVolume(n: int, timestamp: int): (r: seq<string>)
      requires Valid()
      reads this
      ensures |r| == if n < 0 then 0 else if n < |order| then n else |order|
    {
      TopAccounts(entries, accounts, order, n, timestamp)
    }

    /** `getTransactionHistory`: null for an unknown account. */
    function GetTransactionHistory(accountId: string, timestamp: int): (r: Option<seq<HistoryLine>>)
      requires Valid()
      reads this
      ensures r.None? <==> accountId !in accounts
    {
      History(entries, accounts, accountId, timestamp)
    }

    /** `getTransferStatus`: a transfer is never reported rejected. */
    function GetTransferStatus(transferId: Id, timestamp: int): (r: Option<Status>)
      requires Valid()
      reads this
      ensures r != Some(Rejected)
    {
      TransferStatus(entries, accounts, order, transferId, timestamp)
    }

    /** `getScheduledTransferIds`: null for an unknown account. */
    function GetScheduledTransferIds(timestamp: int, accountId: string): (r: Option<seq<Id>>)
      requires Valid()
      reads this
      ensures r.None? <==> accountId !in accounts
    {
      ScheduledIds(entries, accounts, accountId, timestamp)
    }

    // -------------------------------------------------------------------------
    // Updates

    /** `createAccount`: adds an account with no entries, unless the id is taken. */
    method CreateAccount(accountId: string) returns (ok: bool)
      requires Valid()
      modifies this
      ensures Valid()
      ensures Operations.Done(Snapshot(), ok) == Operations.CreateAccount(old(Snapshot()), accountId)
    {
      Operations.CreateAccountSpec(Snapshot(), accountId);
      if accountId in accounts {
        return false;
      }
      accounts := accounts[accountId := []];
      order := order + [accountId];
      ok := true;
    }

    /** Adds `e` to the entries and to the lists of the accounts it involves,
        and advances the counter of its family: the entry constructor's id
        together with the `push` calls of `deposit`, `withdraw`,
        `createTransfer` and `scheduleTransfer`. */
    method Record(e: Entry)
      requires Valid() && WellFormed(e)
      requires e.recipient in accounts && (!e.Transaction? ==> e.sender in accounts)
      requires e.id == Operations.NextId(Snapshot(), KindOf(e))
      modifies this
      ensures Valid()
      ensures Snapshot() == Operations.Recorded(old(Snapshot()), e)
    {
      Operations.RecordedSpec(Snapshot(), e);
      accounts := ListEntry(accounts, e, |entries|);
      entries := entries + [e];
      transactionCount := Bump(KindOf(e), TransactionKind, transactionCount);
      transferCount := Bump(KindOf(e), TransferKind, transferCount);
      scheduledCount := Bump(KindOf(e), ScheduledKind, scheduledCount);
    }

    /** `deposit`. */
    method Deposit(accountId: string, amount: int, timestamp: int) returns (ok: bool)
      requires Valid()
      modifies this
      ensures Valid()
      ensures Operations.Done(Snapshot(), ok) == Operations.Deposit(old(Snapshot()), accountId, amount, timestamp)
    {
      if accountId !in accounts || amount <= 0 {
        return false;
      }
      Record(Transaction(timestamp, amount, TxType.Deposit, accountId, Id(TransactionKind, transactionCount)));
      ok := true;
    }

    /** `withdraw`. */
    method Withdraw(accountId: string, amount: int, timestamp: int) returns (ok: bool)
      requires Valid()
      modifies this
      ensures Valid()
      ensures Operations.Done(Snapshot(), ok) == Operations.Withdraw(old(Snapshot()), accountId, amount, timestamp)
    {
      if accountId !in accounts || amount <= 0 {
        return false;
      }
      if Tally(entries, accounts[accountId], accountId, timestamp) < amount {
        return false;
      }
      Record(Transaction(timestamp, amount, Withdrawal, accountId, Id(TransactionKind, transactionCount)));
      ok := true;
    }

    /** `createTransfer`: returns the new transfer's id, or nothing. */
    method CreateTransfer(fromId: string, toId: string, amount: int, timestamp: int, timeToLive: int)
      returns (id: Option<Id>)
      requires Valid()
      modifies this
      ensures Valid()
      ensures Operations.Done(Snapshot(), id)
        == Operations.CreateTransfer(old(Snapshot()), fromId, toId, amount, timestamp, timeToLive)
    {
      if fromId !in accounts || toId !in accounts || fromId == toId || amount <= 0 || timeToLive <= 0 {
        return None;
      }
      if Tally(entries, accounts[fromId], fromId, timestamp) < amount {
        return None;
      }
      var newId := Id(TransferKind, transferCount);
      Record(Transfer(timestamp, amount, fromId, toId, timeToLive, newId, false));
      id := Some(newId);
    }

    /** `acceptTransfer`. */
    method AcceptTransfer(transferId: Id, timestamp: int) returns (ok: bool)
      requires Valid()
      modifies this
      ensures Valid()
      ensures Operations.Done(Snapshot(), ok) == Operations.AcceptTransfer(old(Snapshot()), transferId, timestamp)
    {
      Operations.AcceptTransferOutcome(Snapshot(), transferId, timestamp);
      var found := LookupTransfer(entries, accounts, order, transferId, timestamp);
      if found.None? {
        return false;
      }
      var i := found.value;
      var step := Accept(entries[i], timestamp);
      if !step.ok {
        return false;
      }
      entries := entries[i := step.entry];
      ok := true;
    }

    /** `scheduleTransfer`: returns the new scheduled transfer's id, or nothing. */
    method ScheduleTransfer(timestamp: int, fromId: string, toId: string, amount: int, scheduledFor: int, timeToLive: int)
      returns (id: Option<Id>)
      requires Valid()
      modifies this
      ensures Valid()
      ensures Operations.Done(Snapshot(), id)
        == Operations.ScheduleTransfer(old(Snapshot()), timestamp, fromId, toId, amount, scheduledFor, timeToLive)
    {
      if fromId !in accounts || toId !in accounts || fromId == toId || amount <= 0 || timeToLive <= 0 {
        return None;
      }
      if scheduledFor < timestamp {
        return None;
      }
      var newId := Id(ScheduledKind, scheduledCount);
      Record(Scheduled(timestamp, amount, fromId, toId, scheduledFor, timeToLive, newId, false, false));
      id := Some(newId);
    }

    /** One step of `processScheduledTransfers`, on the entry at position
        `i`: a due scheduled transfer becomes a transfer created at
        `timestamp` and is accepted, or is rejected when that fails. */
    method ProcessOne(i: nat, timestamp: int) returns (ids: seq<Id>)
      requires Valid() && i < |entries|
      modifies this
      ensures Valid()
      ensures Operations.Done(Snapshot(), ids) == Operations.ProcessOne(old(Snapshot()), i, timestamp)
    {
      ghost var st := Snapshot();
      Operations.ProcessOneSound(st, i, timestamp);
      var e := entries[i];
      if e.Scheduled? && StatusAt(e, timestamp) == Pending && e.scheduledFor <= timestamp {
        var created := CreateTransfer(e.sender, e.recipient, e.amount, timestamp, e.timeToLive);
        ghost var mid := Snapshot();
        assert Operations.Done(mid, created) == Operations.CreateTransfer(st, e.sender, e.recipient, e.amount, timestamp, e.timeToLive);
        if created.Some? {
          entries := entries[i := Accept(e, timestamp).entry];
          ids := [created.value];
          assert Snapshot() == mid.(entries := mid.entries[i := Accept(e, timestamp).entry]);
        } else {
          entries := entries[i := Reject(e, timestamp).entry];
          ids := [];
          assert Snapshot() == mid.(entries := mid.entries[i := Reject(e, timestamp).entry]);
        }
      } else {
        ids := [];
      }
    }

    /** `processScheduledTransfers`: walks the entries visible at `timestamp`,
        listed once before the walk, one step per entry, and returns the ids
        of the transfers it created. */
    method ProcessScheduledTransfers(timestamp: int) returns (result: seq<Id>)
      requires Valid()
      modifies this
      ensures Valid()
      ensures Operations.Done(Snapshot(), result) == Operations.ProcessScheduledTransfers(old(Snapshot()), timestamp)
    {
      var visible := AllVisible(entries, accounts, order, timestamp);
      ghost var goal := Operations.ProcessFrom(Snapshot(), visible, timestamp);
      Operations.RemainingEnds(Snapshot(), visible, timestamp, [], goal);
      result := [];
      var k := 0;
      while k < |visible|
        invariant Valid() && Operations.Remaining(Snapshot(), visible, k, timestamp, result, goal)
      {
        Operations.RemainingStep(Snapshot(), visible, k, timestamp, result, goal);
        var ids := ProcessOne(visible[k], timestamp);
        result := result + ids;
        k := k + 1;
      }
      Operations.RemainingEnds(Snapshot(), visible, timestamp, result, goal);
    }
  }
}
