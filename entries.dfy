/** Ledger entries and their status state machines.

    Three kinds of entry: a deposit or withdrawal (always accepted), a
    transfer (pending, then accepted by a stored flag or expired by time)
    and a scheduled transfer (pending, then accepted or rejected, both
    stored flags). The status of an entry is never stored: it is computed
    from the flags and the query time. */
module Entries {

  /** The three id families; each entry class draws its ids from its own counter. */
  datatype IdKind = TransactionKind | TransferKind | ScheduledKind

  /** An id is its family prefix (`transaction`, `transfer`, `scheduled`) and the counter value. */
  datatype Id = Id(kind: IdKind, ordinal: nat)

  datatype TxType = Deposit | Withdrawal

  /** The `transactionType` tag of an entry. */
  datatype EntryType = DepositType | WithdrawalType | TransferType | ScheduledType

  datatype Status = Accepted | Pending | Expired | Rejected

  datatype Entry =
    | Transaction(timestamp: int, amount: int, txType: TxType, recipient: string, id: Id)
    | Transfer(timestamp: int, amount: int, sender: string, recipient: string,
               timeToLive: int, id: Id, accepted: bool)
    | Scheduled(timestamp: int, amount: int, sender: string, recipient: string,
                scheduledFor: int, timeToLive: int, id: Id, accepted: bool, rejected: bool)

  function TypeOf(e: Entry): EntryType
  {
    match e
    case Transaction(_, _, txType, _, _) => if txType == Deposit then DepositType else WithdrawalType
    case Transfer(_, _, _, _, _, _, _) => TransferType
    case Scheduled(_, _, _, _, _, _, _, _, _) => ScheduledType
  }

  /** The id family each entry class uses. */
  function KindOf(e: Entry): IdKind
  {
    match e
    case Transaction(_, _, _, _, _) => TransactionKind
    case Transfer(_, _, _, _, _, _, _) => TransferKind
    case Scheduled(_, _, _, _, _, _, _, _, _) => ScheduledKind
  }

  /** The fixed expiration time of a transfer, computed once at creation. */
  function Expiration(e: Entry): int
    requires e.Transfer?
  {
    e.timestamp + e.timeToLive
  }

  /** Invariants every entry the store creates satisfies. */
  predicate WellFormed(e: Entry)
  {
    && e.amount > 0
    && (!e.Transaction? ==> e.sender != e.recipient && e.timeToLive > 0)
    && (e.Scheduled? ==> e.scheduledFor >= e.timestamp && !(e.accepted && e.rejected))
  }

  /** The status of `e` as seen by a query at time `t`. Each class returns
      only the statuses its signature names. */
  function StatusAt(e: Entry, t: int): (s: Status)
    ensures e.Transaction? ==> s == Accepted
    ensures e.Transfer? ==> s != Rejected
    ensures e.Scheduled? ==> s != Expired
  {
    match e
    case Transaction(_, _, _, _, _) => Accepted
    case Transfer(_, _, _, _, _, _, accepted) =>
      if accepted then Accepted
      else if t > Expiration(e) then Expired
      else Pending
    case Scheduled(_, _, _, _, _, _, _, accepted, rejected) =>
      if accepted then Accepted
      else if rejected then Rejected
      else Pending
  }

  /** The outcome of `accept` or `reject`: whether it succeeded, and the entry afterwards. */
  datatype Step = Step(ok: bool, entry: Entry)

  /** Same entry up to its lifecycle flags. */
  predicate SameRecord(e: Entry, e': Entry)
  {
    match e
    case Transaction(_, _, _, _, _) => e' == e
    case Transfer(ts, amount, from, to, ttl, id, _) =>
      e'.Transfer? && e' == Transfer(ts, amount, from, to, ttl, id, e'.accepted)
    case Scheduled(ts, amount, from, to, at, ttl, id, _, _) =>
      e'.Scheduled? && e' == Scheduled(ts, amount, from, to, at, ttl, id, e'.accepted, e'.rejected)
  }

  /** `accept(t)`: a deposit or withdrawal refuses; a transfer or scheduled
      transfer sets its accepted flag exactly when it is pending at `t`. */
  function Accept(e: Entry, t: int): (r: Step)
    ensures r.ok <==> !e.Transaction? && StatusAt(e, t) == Pending
    ensures r.ok ==> forall t' :: StatusAt(r.entry, t') == Accepted
    ensures !r.ok ==> r.entry == e
    ensures SameRecord(e, r.entry)
  {
    match e
    case Transaction(_, _, _, _, _) => Step(false, e)
    case Transfer(ts, amount, from, to, ttl, id, _) =>
      if StatusAt(e, t) == Pending then Step(true, Transfer(ts, amount, from, to, ttl, id, true))
      else Step(false, e)
    case Scheduled(ts, amount, from, to, at, ttl, id, _, rejected) =>
      if StatusAt(e, t) == Pending then Step(true, Scheduled(ts, amount, from, to, at, ttl, id, true, rejected))
      else Step(false, e)
  }

  /** `reject(t)`: only a scheduled transfer can be rejected, and only while pending. */
  function Reject(e: Entry, t: int): (r: Step)
    ensures r.ok <==> e.Scheduled? && StatusAt(e, t) == Pending
    ensures r.ok ==> forall t' :: StatusAt(r.entry, t') == Rejected
    ensures !r.ok ==> r.entry == e
    ensures SameRecord(e, r.entry)
  {
    match e
    case Transaction(_, _, _, _, _) => Step(false, e)
    case Transfer(_, _, _, _, _, _, _) => Step(false, e)
    case Scheduled(ts, amount, from, to, at, ttl, id, accepted, _) =>
      if StatusAt(e, t) == Pending then Step(true, Scheduled(ts, amount, from, to, at, ttl, id, accepted, true))
      else Step(false, e)
  }

  // ---------------------------------------------------------------------------
  // Deposits and withdrawals

  /** A deposit or withdrawal is accepted at every time and ignores accept and reject. */
  lemma TransactionInert(e: Entry, t: int)
    requires e.Transaction?
    ensures StatusAt(e, t) == Accepted
    ensures Accept(e, t) == Step(false, e) && Reject(e, t) == Step(false, e)
  {
  }

  // ---------------------------------------------------------------------------
  // Transfers

  /** The three transfer statuses, each characterised by the flag and the expiration. */
  lemma TransferStatusCases(e: Entry, t: int)
    requires e.Transfer?
    ensures StatusAt(e, t) == Accepted <==> e.accepted
    ensures StatusAt(e, t) == Expired <==> !e.accepted && t > e.timestamp + e.timeToLive
    ensures StatusAt(e, t) == Pending <==> !e.accepted && t <= e.timestamp + e.timeToLive
  {
  }

  /** Expiry is monotone in time: expired stays expired, pending was pending earlier. */
  lemma TransferExpiryMonotone(e: Entry, t1: int, t2: int)
    requires e.Transfer? && t1 <= t2
    ensures StatusAt(e, t1) == Expired ==> StatusAt(e, t2) == Expired
    ensures StatusAt(e, t2) == Pending ==> StatusAt(e, t1) == Pending
  {
  }

  /** A transfer can be accepted once: afterwards every accept fails, at any time. */
  lemma TransferAcceptOnce(e: Entry, t: int, t': int)
    requires e.Transfer? && Accept(e, t).ok
    ensures Accept(e, t).entry.accepted
    ensures !Accept(Accept(e, t).entry, t').ok
  {
  }

  /** A transfer cannot be rejected; reject leaves it as it was. */
  lemma TransferRejectRefused(e: Entry, t: int)
    requires e.Transfer?
    ensures Reject(e, t) == Step(false, e)
  {
  }

  // ---------------------------------------------------------------------------
  // Scheduled transfers

  /** The status of a scheduled transfer does not depend on the query time. */
  lemma ScheduledStatusTimeless(e: Entry, t1: int, t2: int)
    requires e.Scheduled?
    ensures StatusAt(e, t1) == StatusAt(e, t2)
    ensures StatusAt(e, t1) == (if e.accepted then Accepted else if e.rejected then Rejected else Pending)
  {
  }

  /** Accept and reject keep the flags exclusive, and once either succeeded
      both fail forever. */
  lemma ScheduledResolvesOnce(e: Entry, t: int, t': int)
    requires e.Scheduled? && WellFormed(e)
    ensures WellFormed(Accept(e, t).entry) && WellFormed(Reject(e, t).entry)
    ensures Accept(e, t).ok ==> !Accept(Accept(e, t).entry, t').ok && !Reject(Accept(e, t).entry, t').ok
    ensures Reject(e, t).ok ==> !Accept(Reject(e, t).entry, t').ok && !Reject(Reject(e, t).entry, t').ok
  {
  }

  // ---------------------------------------------------------------------------
  // Across kinds

  /** An accepted deposit, withdrawal or transfer is accepted at every time:
      acceptance is a stored flag, not a function of time. */
  lemma AcceptedIsTimeless(e: Entry, t1: int, t2: int)
    requires StatusAt(e, t1) == Accepted
    ensures StatusAt(e, t2) == Accepted
  {
  }

  /** Accept and reject never change what identifies an entry or its place in time. */
  lemma StepsKeepRecord(e: Entry, t: int)
    ensures Accept(e, t).entry.id == e.id && Accept(e, t).entry.timestamp == e.timestamp
    ensures Reject(e, t).entry.id == e.id && Reject(e, t).entry.timestamp == e.timestamp
    ensures KindOf(Accept(e, t).entry) == KindOf(e) && KindOf(Reject(e, t).entry) == KindOf(e)
  {
  }
}
