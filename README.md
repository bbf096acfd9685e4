# Time-travelling bank ledger, modelled in Dafny

The system is an in-memory bank ledger, `BankingSystem`. Accounts hold lists of
entries:

- deposits and withdrawals (`Transaction`);
- transfers between two accounts (`Transfer`), which stay pending until the
  recipient accepts them, and expire when their time to live runs out;
- scheduled transfers (`Scheduled`), which become real transfers when
  `processScheduledTransfers` reaches their due time.

No balance is ever stored. Every query takes a time `t`, replays the
account's entries with `timestamp <= t`, and evaluates each entry's status as
of that same `t`.

## Layout

- `entries.dfy` (module `Entries`): the three entry classes as one datatype.
  - The status of an entry at a time is the pure function `StatusAt`.
  - `accept` and `reject` are `Accept` and `Reject`. Each returns whether it
    succeeded and the entry with its flag set.
  - Each id is its family (`transaction`, `transfer`, `scheduled`) plus the
    value of that family's counter.
- `ledger.dfy` (module `Ledger`): the store's state as values, and the queries.
  - Entries live in one arena `entries`.
  - An account holds the arena indices of its entries, so a transfer is one
    entry listed by both accounts, and a flag change on it is seen from both.
  - `Consistent` is the store invariant:
    - account directory;
    - append-only lists;
    - every entry listed by the accounts it involves;
    - well-formed entries;
    - unique ids below their counters.
  - The queries are `getBalance`, `getTransactionVolume`,
    `getTransactionHistory`, `getTransferStatus`, `getScheduledTransferIds`
    and the private helpers `getAllTransactions` and `getAccountTransactions`.
  - Each query is a function with lemmas saying what it returns.
- `ranking.dfy` (module `Ranking`): `getTopAccountsByTransactionVolume`. Its
  comparator sorts by volume descending, then by account id ascending.
- `operations.dfy` (module `Operations`): every update of stages 1–4 as a
  transition from the store before the call to the store after it and the
  returned value. The lemmas beside each transition state what the operation
  promises, and which balances move by how much.
- `banking_system.dfy` (module `Banking`): class `BankingSystem`.
  - It holds the store in fields and performs each update in place.
  - `processScheduledTransfers` is a loop over the entries visible at `t`.
  - Each method is proved to leave exactly the store and return exactly the
    value of the corresponding transition. Everything proved about the
    transitions therefore holds of the methods.

## How the code behaves

The model follows the code in these places. The interface comments, or the
usual expectation of a bank ledger, differ.

- **No conservation.** A pending transfer debits its sender without crediting
  its recipient, so the sum of all balances drops while a transfer is
  pending. `Ledger.TransferNetEffect` states each side's effect.
- **Failed scheduled transfers are kept.** `src/stage4.ts:14` says they are
  discarded. The code marks them rejected and keeps them
  (`src/bankingSystem.ts:240`), and so does the model.
- **No overdraft check at later times.** `src/stage1.ts:8` says balances are
  never negative. The funds check of `withdraw` and `createTransfer` looks
  only at the balance at the operation's own timestamp. The model proves
  non-negativity at that timestamp only (`Operations.WithdrawSpec`,
  `Operations.CreateTransferBalances`). A withdrawal covered at its own
  timestamp leaves a negative balance at any later time where the balance
  was below the amount (`Operations.WithdrawOverdrawsLater`). This happens,
  for example, when a withdrawal with a later timestamp was recorded first.
- **Acceptance is retroactive.** Acceptance is a stored flag. An accepted
  transfer reads as accepted at every time from its own timestamp on,
  including times before the `acceptTransfer` call.
- **Scheduled entries are listed twice.** `processScheduledTransfers` walks
  `getAllTransactions(t)`, in which a scheduled entry appears twice: once in
  the sender's list and once in the recipient's. The status check alone
  keeps the second visit from creating a second transfer.

## Model

| member | source | states |
|---|---|---|
| Entries.StatusAt | src/transaction.ts:45-155 | a deposit or withdrawal is always accepted; a transfer is never rejected; a scheduled transfer never expires |
| Entries.Accept | src/transaction.ts:93-100 | accept succeeds exactly for a transfer or scheduled transfer that is pending at `t`; on success the entry is accepted at every time; on failure nothing changes; only the flags can change |
| Entries.Reject | src/transaction.ts:164-171 | reject succeeds exactly for a scheduled transfer pending at `t`; on success it is rejected at every time; on failure nothing changes |
| Entries.TransactionInert | src/transaction.ts:37-47 | a deposit or withdrawal is accepted and refuses both accept and reject, unchanged |
| Entries.TransferStatusCases | src/transaction.ts:81-91 | accepted iff the flag is set; expired iff not accepted and `t > timestamp + ttl`; pending iff not accepted and `t <= timestamp + ttl` |
| Entries.TransferExpiryMonotone | src/transaction.ts:86-90 | expired at `t1` implies expired at every later time; pending at `t2` implies pending at every earlier time |
| Entries.TransferAcceptOnce | src/transaction.ts:93-100 | after a successful accept the flag is set and every later accept fails |
| Entries.TransferRejectRefused | src/transaction.ts:102-104 | reject on a transfer fails and changes nothing |
| Entries.ScheduledStatusTimeless | src/transaction.ts:145-155 | a scheduled transfer's status does not depend on the query time: accepted, else rejected, else pending |
| Entries.ScheduledResolvesOnce | src/transaction.ts:156-171 | the two flags are never both set; once accept or reject has succeeded, both fail forever |
| Entries.AcceptedIsTimeless | src/transaction.ts:81-84 | an entry accepted at one time is accepted at every time |
| Entries.StepsKeepRecord | src/transaction.ts:156-171 | accept and reject keep the entry's id, family and timestamp |
| Ledger.IdsAfterAppend | src/transaction.ts:77 | an entry created with its family's counter value, after which the counter is advanced, keeps ids unique and below their counters |
| Ledger.ListsAfterAppend | src/bankingSystem.ts:180-182 | pushing a new entry onto the lists of the accounts it involves keeps every list append-only, and every entry listed by its accounts |
| Ledger.ConsistentAfterAppend | src/bankingSystem.ts:180-183 | creating a well-formed entry under the next id of its family and pushing it to its accounts keeps the store invariant |
| Ledger.ConsistentAfterStep | src/bankingSystem.ts:185-190 | changing a shared entry's flags in place keeps the store invariant |
| Ledger.FilterTime | src/bankingSystem.ts:33 | the filtered list holds exactly the entries with `timestamp <= t`, and an increasing list stays increasing |
| Ledger.SortByTime | src/bankingSystem.ts:34 | the sort returns a permutation of its input |
| Ledger.SortByTimeSorted | src/bankingSystem.ts:34 | the sort orders its input by timestamp |
| Ledger.SortByTimeStable | src/bankingSystem.ts:27-35 | the sort of an account's list orders it by timestamp and keeps insertion order on ties |
| Ledger.StableSortedDistinct | src/bankingSystem.ts:27-35 | the sorted account list has no repeated entry |
| Ledger.StableUnique | src/bankingSystem.ts:27-35 | two lists ordered by timestamp, ties in insertion order, with the same entries are the same list |
| Ledger.TimeCut | src/bankingSystem.ts:33-34 | a list ordered by timestamp splits into the entries with `timestamp <= t` followed by the later ones |
| Ledger.PrefixByTime | src/bankingSystem.ts:27-35 | an ordered list holding exactly the entries of another ordered list with `timestamp <= t` is a prefix of it |
| Ledger.Effect | src/bankingSystem.ts:87-103 | a transfer moves only the balances of its sender and recipient; a scheduled transfer and an expired transfer move no balance |
| Ledger.BalanceSumSorted | src/bankingSystem.ts:81-86 | sorting before the fold does not change the sum |
| Ledger.AccountBalance | src/bankingSystem.ts:81-104 | filtering by time, sorting by timestamp and folding the effects gives the sum of the effects of the entries with `timestamp <= t`, in any order |
| Ledger.TallyIsFilteredSum | src/bankingSystem.ts:80-105 | the running tally over the list in insertion order equals the same filtered sum |
| Ledger.Balance | src/bankingSystem.ts:80-85 | null exactly for an unknown account; the value is the code's replay by `Ledger.BalanceIsReplay` |
| Ledger.BalanceIsReplay | src/bankingSystem.ts:80-105 | the balance is null exactly for an unknown account; otherwise it equals the filter, sort and fold of the account's entries |
| Ledger.BalancesAfterListing | src/bankingSystem.ts:180-182 | pushing an entry onto its accounts moves each balance by exactly the entry's effect on it, from its timestamp on |
| Ledger.TransactionRecorded | src/bankingSystem.ts:86-91 | a recorded deposit adds and a withdrawal subtracts its amount on its account from its timestamp on; no other balance moves |
| Ledger.TransferRecorded | src/bankingSystem.ts:92-100 | a new pending transfer debits its sender from its timestamp up to its expiration; no other balance moves, the recipient's included |
| Ledger.ScheduledRecorded | src/bankingSystem.ts:101-102 | a new scheduled transfer moves no balance at any time |
| Ledger.StatusOfUniqueTransfer | src/bankingSystem.ts:191-196 | the status query of a stored transfer's id is null before its timestamp and the transfer's own status afterwards |
| Ledger.AcceptedBalances | src/bankingSystem.ts:92-100 | accepting a transfer credits the recipient from the transfer's timestamp on; it keeps the sender debited after the expiration; no other balance moves |
| Ledger.TransferNetEffect | src/bankingSystem.ts:92-100 | an accepted transfer moves the amount from sender to recipient; a pending one only debits the sender; an expired one has no effect |
| Ledger.VolumeNonNegative | src/bankingSystem.ts:109-121 | the volume is null exactly for an unknown account, and never negative |
| Ledger.Volume | src/bankingSystem.ts:109-114 | null exactly for an unknown account; non-negative by `Ledger.VolumeNonNegative`, the history's total by `Ledger.VolumeIsHistoryTotal` |
| Ledger.AcceptedMoves | src/bankingSystem.ts:147 | keeps exactly the accepted, non-scheduled entries, and keeps the timestamp order |
| Ledger.HistoryContents | src/bankingSystem.ts:140-151 | the history holds exactly the accepted, non-scheduled entries with `timestamp <= t`, ordered by timestamp with ties in insertion order |
| Ledger.History | src/bankingSystem.ts:140-145 | null exactly for an unknown account; the lines are given by `Ledger.HistoryContents` and `Ledger.HistoryRendering` |
| Ledger.HistoryRendering | src/bankingSystem.ts:146-150 | the history is null exactly for an unknown account; each line carries its entry's type, amount and timestamp, and no line is of the scheduled type |
| Ledger.HistoryGrows | src/bankingSystem.ts:140-151 | the history at `t1` is a prefix of the history at every later time: it only grows at its end |
| Ledger.RenderCons | src/bankingSystem.ts:148-150 | rendering one more entry in front adds its amount to the total of the lines |
| Ledger.VolumeSumMoves | src/bankingSystem.ts:115-120 | the volume fold over a list equals the total of the amounts of its history lines |
| Ledger.VolumeIsHistoryTotal | src/bankingSystem.ts:109-151 | volume and history are null for the same accounts, and the volume is the total of the amounts the history lists |
| Ledger.PendingScheduled | src/bankingSystem.ts:253-255 | keeps exactly the scheduled transfers pending at `t`; a list in timestamp order stays in timestamp order |
| Ledger.ScheduledIdsContents | src/bankingSystem.ts:247-258 | null exactly for an unknown account; the ids listed are those of the account's scheduled transfers with `timestamp <= t` that are neither accepted nor rejected, in order of creation timestamp |
| Ledger.ScheduledIds | src/bankingSystem.ts:247-252 | null exactly for an unknown account; the ids are given by `Ledger.ScheduledIdsContents` |
| Ledger.FlattenContents | src/bankingSystem.ts:23-24 | the flattened lists hold exactly the entries some account lists |
| Ledger.AllVisible | src/bankingSystem.ts:22-26 | every index it returns names an entry; what it holds is given by `Ledger.AllVisibleContains` |
| Ledger.FindTransfer | src/bankingSystem.ts:186-187 | the search returns the first transfer with that id in the list, or none when the list holds none |
| Ledger.LookupTransfer | src/bankingSystem.ts:186-187 | what it finds is a stored transfer carrying that id; which one by `Ledger.LookupTransferFinds` |
| Ledger.LookupTransferFinds | src/bankingSystem.ts:185-196 | the lookup finds exactly the transfer with that id and `timestamp <= t`; a non-transfer id is never found |
| Ledger.TransferStatus | src/bankingSystem.ts:191-196 | never reports rejected; null or the transfer's own status by `Ledger.StatusOfUniqueTransfer` |
| Ledger.AllVisibleContains | src/bankingSystem.ts:22-26 | every entry with `timestamp <= t` is among the entries `getAllTransactions(t)` walks |
| Ranking.StrLt | src/bankingSystem.ts:135 | no id precedes itself |
| Ranking.StrLtTransitive | src/bankingSystem.ts:135 | the id order is transitive |
| Ranking.StrLtTotal | src/bankingSystem.ts:135 | two different ids are always ordered one way or the other |
| Ranking.RanksBefore | src/bankingSystem.ts:132-136 | no pair ranks before itself |
| Ranking.RanksBeforeTransitive | src/bankingSystem.ts:132-136 | the comparator is transitive |
| Ranking.RanksBeforeTotal | src/bankingSystem.ts:132-136 | the comparator orders any two different accounts |
| Ranking.SortRanked | src/bankingSystem.ts:132-136 | the sort returns a permutation of its input |
| Ranking.SortRankedSorted | src/bankingSystem.ts:132-136 | with distinct ids the sort produces a list ordered by the comparator |
| Ranking.Volumes | src/bankingSystem.ts:127-131 | one pair per account in key order, its volume or 0 |
| Ranking.SortedVolumes | src/bankingSystem.ts:127-136 | the sorted list holds exactly one pair per known account |
| Ranking.TopAccountsSpec | src/bankingSystem.ts:122-139 | empty for negative `n`; otherwise the first `min(n, #accounts)` known accounts, by volume descending, then id ascending; every account left out ranks after every one listed |
| Ranking.TopAccounts | src/bankingSystem.ts:122-139 | returns `min(n, #accounts)` ids, none for a negative `n`; which ones by `Ranking.TopAccountsSpec` |
| Operations.Empty | src/bankingSystem.ts:15-17 | a new system has no accounts and no entries, and satisfies the store invariant |
| Operations.Recorded | src/bankingSystem.ts:180-182 | the new entry is appended to the arena; the accounts and their order are the same |
| Operations.RecordedSpec | src/bankingSystem.ts:180-182 | recording a well-formed entry under the next id of its family keeps the invariant and moves each balance by exactly the entry's effect |
| Operations.RecordedLists | src/bankingSystem.ts:180-182 | the new entry is pushed onto the lists of exactly the accounts it involves; only its own family's counter advances |
| Operations.CreateAccount | src/bankingSystem.ts:42-49 | succeeds iff the id is new; then adds no entry and uses no id, every existing account keeps its list, the new account starts with an empty list and is appended to the creation order; a refused call changes nothing |
| Operations.CreateAccountSpec | src/bankingSystem.ts:42-49 | succeeds iff the id is new, else changes nothing; the new account's balance is 0 at every time; no other balance moves; a second create of the same id fails |
| Operations.Deposit | src/bankingSystem.ts:50-62 | on success the only change to the entries is one deposit on the account under the next transaction id; on failure none |
| Operations.DepositSpec | src/bankingSystem.ts:50-62 | succeeds iff the account exists and the amount is positive, else changes nothing; the balance rises by the amount from `timestamp` on; no other balance moves |
| Operations.Withdraw | src/bankingSystem.ts:63-79 | on success the only change to the entries is one withdrawal from the account under the next transaction id; on failure none |
| Operations.WithdrawSpec | src/bankingSystem.ts:63-79 | succeeds iff the account exists, the amount is positive and the balance at `timestamp` covers it, else changes nothing; the balance drops by the amount from `timestamp` on and is non-negative at `timestamp`; no other balance moves |
| Operations.WithdrawOverdrawsLater | src/bankingSystem.ts:72 | a withdrawal covered at its timestamp succeeds even when the balance at a later time is below the amount, and then leaves that later balance negative |
| Operations.CreateTransfer | src/bankingSystem.ts:155-184 | keeps the accounts and their order, and only appends to the entries; what is appended is stated by `Operations.CreateTransferRecords` |
| Operations.CreateTransferRecords | src/bankingSystem.ts:176-183 | a refused call changes nothing; a created transfer takes the next transfer id, is appended as `Transfer(timestamp, amount, from, to, ttl, id)` not yet accepted, its position is pushed onto the sender's and the recipient's lists (no other list changes), the order is kept and only the transfer counter advances |
| Operations.CreateTransferSpec | src/bankingSystem.ts:155-184 | returns an id iff both accounts exist and differ, amount and ttl are positive and the sender's balance at `timestamp` covers the amount; otherwise it changes nothing; the id is fresh; the invariant holds |
| Operations.CreateTransferBalances | src/bankingSystem.ts:176-183 | the sender's balance drops by the amount from `timestamp` to the expiration and is non-negative at `timestamp`; no other balance moves |
| Operations.CreatedTransferStatus | src/bankingSystem.ts:191-196 | the new transfer's status is null before `timestamp`, then pending up to the expiration, then expired |
| Operations.AcceptTransfer | src/bankingSystem.ts:185-190 | fails when no transfer with that id is visible; otherwise succeeds iff `accept` on the first one found does, and then the new store is the old one with exactly that entry marked accepted; a failed call changes nothing |
| Operations.AcceptTransferOutcome | src/bankingSystem.ts:185-190 | succeeds iff the transfer's status at `timestamp` is pending; a refused accept changes nothing; the invariant holds |
| Operations.AcceptTransferBalances | src/bankingSystem.ts:185-190 | after acceptance the recipient gains the amount from the transfer's timestamp on; the sender stays debited after the expiration; no other balance moves |
| Operations.AcceptTransferFinal | src/bankingSystem.ts:185-196 | after acceptance the status is accepted from the transfer's timestamp on, and every later accept fails |
| Operations.ScheduleTransfer | src/bankingSystem.ts:200-229 | on success returns the next scheduled id and appends one pending scheduled transfer carrying it; on failure changes nothing |
| Operations.ScheduleTransferSpec | src/bankingSystem.ts:200-229 | returns an id iff both accounts exist and differ, amount and ttl are positive and `scheduledFor >= timestamp`, else changes nothing; no balance moves at any time; both accounts list the id as pending from `timestamp` on |
| Operations.ProcessOne | src/bankingSystem.ts:233-241 | one step issues at most one transfer, under the next transfer id, appended with timestamp `t`; it changes no other existing entry |
| Operations.ProcessFrom | src/bankingSystem.ts:230-246 | the walk issues consecutive fresh transfer ids, one appended transfer each, and changes no existing entry other than scheduled transfers |
| Operations.ProcessOneSound | src/bankingSystem.ts:233-241 | one step keeps the store invariant |
| Operations.ProcessOneShape | src/bankingSystem.ts:233-241 | an entry that is not due is left alone; a due one is accepted, with one transfer of its amount between its parties appended, or rejected with nothing appended |
| Operations.ProcessOneFunds | src/bankingSystem.ts:235-236 | a due scheduled transfer is accepted exactly when its sender's balance at `t` covers the amount |
| Operations.ProcessFromSound | src/bankingSystem.ts:230-246 | the walk keeps the store invariant |
| Operations.ProcessFromResolves | src/bankingSystem.ts:230-246 | every due scheduled transfer the walk visits ends accepted or rejected, however often it is visited; every other entry is untouched |
| Operations.NothingDueNothingIssued | src/bankingSystem.ts:231-245 | a walk over entries none of which is due issues no transfer and changes nothing |
| Operations.ProcessScheduledTransfers | src/bankingSystem.ts:230-246 | returns consecutive fresh transfer ids, one appended transfer created at `t` each, and never changes an existing entry other than a scheduled transfer |
| Operations.ProcessScheduledSpec | src/bankingSystem.ts:230-246 | keeps the invariant; resolves every scheduled transfer due at `t` and touches no other existing entry; returns fresh consecutive transfer ids, each with its transfer appended |
| Operations.ResolvedNotDue | src/bankingSystem.ts:233-241 | a scheduled transfer, once accepted or rejected, is no longer due at any time, and differs from what it was |
| Operations.ProcessScheduledIdle | src/bankingSystem.ts:230-246 | the call returns no id and changes nothing exactly when no scheduled transfer is due at `t` |
| Operations.ProcessScheduledRepeat | src/bankingSystem.ts:230-246 | a second call returns none of the first call's ids and leaves every entry the first call resolved as it was |
| Operations.DueAfterResolving | src/bankingSystem.ts:230-246 | when the old entries are resolved at `t1` and only transfers are appended, an entry due at `t2` is an old one, due at `t2` and not due at `t1` |
| Operations.DueAfterProcessing | src/bankingSystem.ts:230-246 | after a call at `t1`, an entry due at `t2` was already there, due at `t2` and not due at `t1` |
| Operations.ProcessScheduledNothingNew | src/bankingSystem.ts:230-246 | a second call at which nothing new has fallen due returns no id and changes nothing |
| Banking.BankingSystem.constructor | src/bankingSystem.ts:15-17 | the new object holds the empty store |
| Banking.BankingSystem.GetBalance | src/bankingSystem.ts:80-105 | null exactly for an unknown account; otherwise the filter, sort and fold of its entries |
| Banking.BankingSystem.GetTransactionVolume | src/bankingSystem.ts:109-121 | null exactly for an unknown account; otherwise never negative and equal to the total of the amounts in the account's history at that time |
| Banking.BankingSystem.GetTopAccountsByTransactionVolume | src/bankingSystem.ts:122-139 | returns `min(n, #accounts)` ids, none for a negative `n` |
| Banking.BankingSystem.GetTransactionHistory | src/bankingSystem.ts:140-151 | null exactly for an unknown account |
| Banking.BankingSystem.GetTransferStatus | src/bankingSystem.ts:191-196 | never reports rejected |
| Banking.BankingSystem.GetScheduledTransferIds | src/bankingSystem.ts:247-258 | null exactly for an unknown account |
| Banking.BankingSystem.CreateAccount | src/bankingSystem.ts:42-49 | updates the fields exactly as `Operations.CreateAccount` and keeps the invariant |
| Banking.BankingSystem.Record | src/bankingSystem.ts:180-182 | appends the entry, pushes it onto its accounts' lists and advances its family's counter, keeping the invariant |
| Banking.BankingSystem.Deposit | src/bankingSystem.ts:50-62 | updates the fields exactly as `Operations.Deposit` and keeps the invariant |
| Banking.BankingSystem.Withdraw | src/bankingSystem.ts:63-79 | updates the fields exactly as `Operations.Withdraw` and keeps the invariant |
| Banking.BankingSystem.CreateTransfer | src/bankingSystem.ts:155-184 | updates the fields exactly as `Operations.CreateTransfer`, returns its id and keeps the invariant |
| Banking.BankingSystem.AcceptTransfer | src/bankingSystem.ts:185-190 | sets the shared entry's flag in place exactly as `Operations.AcceptTransfer` and keeps the invariant |
| Banking.BankingSystem.ScheduleTransfer | src/bankingSystem.ts:200-229 | updates the fields exactly as `Operations.ScheduleTransfer`, returns its id and keeps the invariant |
| Banking.BankingSystem.ProcessOne | src/bankingSystem.ts:233-241 | one pass of the reduce callback, exactly as `Operations.ProcessOne` |
| Banking.BankingSystem.ProcessScheduledTransfers | src/bankingSystem.ts:230-246 | the loop over the entries visible at `t` leaves exactly the store and ids of `Operations.ProcessScheduledTransfers` and keeps the invariant |

## Left out

- Numbers are `int`. JavaScript's floating-point `number` is not modelled:
  no rounding, no `NaN`, and no non-integer amounts, times or counts.
- `localeCompare` is modelled as lexicographic order by character code,
  `Ranking.StrLt`. Locale-sensitive collation is not modelled.
- `Object.keys` and `Object.values` are modelled as enumerating accounts in
  creation order (the `order` field). JavaScript lists integer-like keys
  first, and that is not modelled.
- `accountId in this.accounts` is modelled as membership among the created
  accounts. Names inherited from `Object.prototype` (such as `toString`),
  which the `in` operator also finds, are not modelled.
- Ids are modelled as a family tag plus a counter (`Entries.Id`), not as
  strings. An id string that no entry could carry is therefore not
  representable; the code treats such an id as not found.
- History lines are modelled as records `(type, amount, timestamp)`, not as
  rendered decimal strings.
- The id counters are `static` in the source, so all `BankingSystem`
  instances share them. The model keeps them as fields of one system.
- Banking.BankingSystem.GetTransactionHistory: states only that it is null
  exactly for an unknown account. The lines it returns are stated of
  `Ledger.History` by `Ledger.HistoryContents`, `Ledger.HistoryRendering` and
  `Ledger.HistoryGrows`.
- Banking.BankingSystem.GetScheduledTransferIds: states only that it is null
  exactly for an unknown account. The ids are stated of `Ledger.ScheduledIds`
  by `Ledger.ScheduledIdsContents`.
- Banking.BankingSystem.GetTransferStatus: states only that no transfer is
  reported rejected. When it is null and which status it reports are stated by
  `Ledger.LookupTransferFinds` and `Ledger.StatusOfUniqueTransfer`.
- Banking.BankingSystem.GetTopAccountsByTransactionVolume: states only the
  length of the result. Which accounts, in which order, is stated of
  `Ranking.TopAccounts` by `Ranking.TopAccountsSpec`.
- The stage interfaces `src/stage1.ts` to `src/stage4.ts` carry no logic and
  are not part of this model. The test files are not part of this model.
- Operations.ProcessScheduledSpec: states per step, not as a count over the
  whole run, that each accepted scheduled transfer contributes exactly one
  new id. `Operations.ProcessOneShape` states it for each step.
