/** The store's state as values, and the queries over it.

    All entries live in one arena `entries`; an account holds the arena
    indices of its entries, so a transfer or scheduled transfer is one
    entry listed by both of its accounts and a flag change on it is seen
    from both sides. Every query replays an account's entries with
    `timestamp <= t`, evaluating each entry's status at that same `t`. */
module Ledger {
  import opened Entries

  datatype Option<T> = None | Some(value: T)

  /** Each account's entries, as arena indices in insertion order. */
  type Accounts = map<string, seq<nat>>

  predicate InRange(entries: seq<Entry>, s: seq<nat>)
  {
    forall k :: 0 <= k < |s| ==> s[k] < |entries|
  }

  predicate Increasing(s: seq<nat>)
  {
    forall i, j :: 0 <= i < j < |s| ==> s[i] < s[j]
  }

  predicate AccountsInRange(entries: seq<Entry>, accounts: Accounts)
  {
    forall a :: a in accounts ==> InRange(entries, accounts[a])
  }

  /** True when the entry is listed by account `a`: its recipient, or the
      sender of a transfer or scheduled transfer. */
  predicate Involves(e: Entry, a: string)
  {
    a == e.recipient || (!e.Transaction? && a == e.sender)
  }

  // ===========================================================================
  // The store invariant

  /** The account directory: `order` lists every known account once, in creation order. */
  predicate Directory(accounts: Accounts, order: seq<string>)
  {
    && (forall a :: a in accounts ==> a in order)
    && (forall a :: a in order ==> a in accounts)
    && (forall i, j :: 0 <= i < j < |order| ==> order[i] != order[j])
  }

  /** Each account's list is append-only (increasing arena indices) and names only its own entries. */
  predicate Lists(entries: seq<Entry>, accounts: Accounts)
  {
    && AccountsInRange(entries, accounts)
    && forall a :: a in accounts ==>
         && Increasing(accounts[a])
         && (forall x :: x in accounts[a] ==> Involves(entries[x], a))
  }

  /** Every entry is listed by its recipient and, for two-party entries, by its sender. */
  predicate Listed(entries: seq<Entry>, accounts: Accounts)
  {
    forall i :: 0 <= i < |entries| ==>
      && entries[i].recipient in accounts && i in accounts[entries[i].recipient]
      && (!entries[i].Transaction? ==> entries[i].sender in accounts && i in accounts[entries[i].sender])
  }

  /** Ids: each family's counter is above every id it issued, and no id is issued twice. */
  predicate IdsIssued(entries: seq<Entry>, transactions: nat, transfers: nat, scheduled: nat)
  {
    && (forall i :: 0 <= i < |entries| ==>
          && entries[i].id.kind == KindOf(entries[i])
          && entries[i].id.ordinal < Counter(entries[i].id.kind, transactions, transfers, scheduled))
    && (forall i, j :: 0 <= i < j < |entries| ==> entries[i].id != entries[j].id)
  }

  function Counter(k: IdKind, transactions: nat, transfers: nat, scheduled: nat): nat
  {
    match k
    case TransactionKind => transactions
    case TransferKind => transfers
    case ScheduledKind => scheduled
  }

  predicate Consistent(entries: seq<Entry>, accounts: Accounts, order: seq<string>,
                       transactions: nat, transfers: nat, scheduled: nat)
  {
    && Directory(accounts, order)
    && Lists(entries, accounts)
    && Listed(entries, accounts)
    && (forall i :: 0 <= i < |entries| ==> WellFormed(entries[i]))
    && IdsIssued(entries, transactions, transfers, scheduled)
  }

  /** The account lists after a new entry, arena index `n`, is pushed onto
      the list of each account it involves. */
  function ListEntry(accounts: Accounts, e: Entry, n: nat): Accounts
    requires e.recipient in accounts && (!e.Transaction? ==> e.sender in accounts)
  {
    if e.Transaction? then accounts[e.recipient := accounts[e.recipient] + [n]]
    else accounts[e.sender := accounts[e.sender] + [n]][e.recipient := accounts[e.recipient] + [n]]
  }

  /** A counter after the family `k` issued one more id: only the counter of
      family `k` (`own`) moves. */
  function Bump(k: IdKind, own: IdKind, count: nat): nat
  {
    if k == own then count + 1 else count
  }

  /** Appending index `n` past the end of the arena to an account's list of
      its own entries keeps it increasing and in range. */
  lemma ListAfterAppend(entries: seq<Entry>, s: seq<nat>, e: Entry, a: string, grow: bool)
    requires InRange(entries, s) && Increasing(s) && (forall x :: x in s ==> Involves(entries[x], a))
    requires grow ==> Involves(e, a)
    ensures var s' := if grow then s + [|entries|] else s;
      && InRange(entries + [e], s') && Increasing(s')
      && forall x :: x in s' ==> Involves((entries + [e])[x], a)
  {
    var s' := if grow then s + [|entries|] else s;
    forall x | x in s' ensures x < |entries + [e]| && Involves((entries + [e])[x], a) {
      if x in s {
        var k :| 0 <= k < |s| && s[k] == x;
      }
    }
  }

  lemma ListsAfterAppend(entries: seq<Entry>, accounts: Accounts, e: Entry)
    requires Lists(entries, accounts) && Listed(entries, accounts)
    requires e.recipient in accounts && (!e.Transaction? ==> e.sender in accounts)
    ensures Lists(entries + [e], ListEntry(accounts, e, |entries|))
    ensures Listed(entries + [e], ListEntry(accounts, e, |entries|))
  {
    var n := |entries|;
    var entries' := entries + [e];
    var accounts' := ListEntry(accounts, e, n);
    forall a | a in accounts'
      ensures InRange(entries', accounts'[a]) && Increasing(accounts'[a])
      ensures forall x :: x in accounts'[a] ==> Involves(entries'[x], a)
    {
      assert accounts'[a] == if Involves(e, a) then accounts[a] + [n] else accounts[a];
      ListAfterAppend(entries, accounts[a], e, a, Involves(e, a));
    }
    assert forall a :: a in accounts ==> accounts[a] <= accounts'[a];
    forall i | 0 <= i < |entries'|
      ensures entries'[i].recipient in accounts' && i in accounts'[entries'[i].recipient]
      ensures !entries'[i].Transaction? ==> entries'[i].sender in accounts' && i in accounts'[entries'[i].sender]
    {
      if i < n {
        assert entries'[i] == entries[i];
      }
    }
  }

  lemma IdsAfterAppend(entries: seq<Entry>, transactions: nat, transfers: nat, scheduled: nat, e: Entry)
    requires IdsIssued(entries, transactions, transfers, scheduled)
    requires e.id == Id(KindOf(e), Counter(KindOf(e), transactions, transfers, scheduled))
    ensures IdsIssued(entries + [e], Bump(KindOf(e), TransactionKind, transactions),
                      Bump(KindOf(e), TransferKind, transfers), Bump(KindOf(e), ScheduledKind, scheduled))
  {
    var c1 := Bump(KindOf(e), TransactionKind, transactions);
    var c2 := Bump(KindOf(e), TransferKind, transfers);
    var c3 := Bump(KindOf(e), ScheduledKind, scheduled);
    var entries' := entries + [e];
    forall i | 0 <= i < |entries'|
      ensures entries'[i].id.kind == KindOf(entries'[i])
      ensures entries'[i].id.ordinal < Counter(entries'[i].id.kind, c1, c2, c3)
    {
      if i < |entries| { assert entries'[i] == entries[i]; }
    }
    forall i, j | 0 <= i < j < |entries'| ensures entries'[i].id != entries'[j].id {
      assert entries'[i] == entries[i];
      if j < |entries| { assert entries'[j] == entries[j]; }
    }
  }

  /** Appending a well-formed entry with the next id of its family, listed by
      the accounts it involves, keeps the store consistent. */
  lemma ConsistentAfterAppend(entries: seq<Entry>, accounts: Accounts, order: seq<string>,
                              transactions: nat, transfers: nat, scheduled: nat, e: Entry)
    requires Consistent(entries, accounts, order, transactions, transfers, scheduled)
    requires WellFormed(e) && e.recipient in accounts && (!e.Transaction? ==> e.sender in accounts)
    requires e.id == Id(KindOf(e), Counter(KindOf(e), transactions, transfers, scheduled))
    ensures Consistent(entries + [e], ListEntry(accounts, e, |entries|), order,
                       Bump(KindOf(e), TransactionKind, transactions),
                       Bump(KindOf(e), TransferKind, transfers), Bump(KindOf(e), ScheduledKind, scheduled))
  {
    ListsAfterAppend(entries, accounts, e);
    IdsAfterAppend(entries, transactions, transfers, scheduled, e);
    assert ListEntry(accounts, e, |entries|).Keys == accounts.Keys;
  }

  /** Replacing an entry by one that differs only in its lifecycle flags keeps
      the store consistent. */
  lemma ConsistentAfterStep(entries: seq<Entry>, accounts: Accounts, order: seq<string>,
                            transactions: nat, transfers: nat, scheduled: nat, i: nat, e: Entry)
    requires Consistent(entries, accounts, order, transactions, transfers, scheduled)
    requires i < |entries| && SameRecord(entries[i], e) && WellFormed(e)
    ensures Consistent(entries[i := e], accounts, order, transactions, transfers, scheduled)
  {
    var entries' := entries[i := e];
    assert e.recipient == entries[i].recipient && e.id == entries[i].id && KindOf(e) == KindOf(entries[i]);
    assert e.Transaction? == entries[i].Transaction?;
    assert !e.Transaction? ==> e.sender == entries[i].sender;
    forall a | a in accounts ensures forall x :: x in accounts[a] ==> Involves(entries'[x], a) {
    }
    forall p, q | 0 <= p < q < |entries'| ensures entries'[p].id != entries'[q].id {
    }
  }

  // ===========================================================================
  // Time filter and the stable sort by timestamp

  /** The entries of `s` with `timestamp <= t`, in the order of `s`. */
  function FilterTime(entries: seq<Entry>, s: seq<nat>, t: int): (r: seq<nat>)
    requires InRange(entries, s)
    ensures forall x :: x in r <==> x in s && entries[x].timestamp <= t
    ensures InRange(entries, r)
    ensures Increasing(s) ==> Increasing(r)
  {
    if s == [] then []
    else
      var init := FilterTime(entries, s[..|s| - 1], t);
      var x := s[|s| - 1];
      assert forall y :: y in s[..|s| - 1] ==> y in s;
      assert Increasing(s) ==> forall k :: 0 <= k < |init| ==> init[k] < x by {
        if Increasing(s) {
          forall k | 0 <= k < |init| ensures init[k] < x {
            assert init[k] in init;
            var m :| 0 <= m < |s| - 1 && s[m] == init[k];
          }
        }
      }
      if entries[x].timestamp <= t then init + [x] else init
  }

  /** `x` precedes `y` in the order a stable timestamp sort produces from an increasing list. */
  predicate Before(entries: seq<Entry>, x: nat, y: nat)
    requires x < |entries| && y < |entries|
  {
    entries[x].timestamp < entries[y].timestamp
    || (entries[x].timestamp == entries[y].timestamp && x < y)
  }

  predicate StableSorted(entries: seq<Entry>, r: seq<nat>)
    requires InRange(entries, r)
  {
    forall i, j :: 0 <= i < j < |r| ==> Before(entries, r[i], r[j])
  }

  predicate SortedByTime(entries: seq<Entry>, r: seq<nat>)
    requires InRange(entries, r)
  {
    forall i, j :: 0 <= i < j < |r| ==> entries[r[i]].timestamp <= entries[r[j]].timestamp
  }

  /** Inserts `x` after every element whose timestamp is not larger. */
  function InsertByTime(entries: seq<Entry>, x: nat, r: seq<nat>): (r': seq<nat>)
    requires x < |entries| && InRange(entries, r)
    ensures multiset(r') == multiset(r) + multiset{x}
    ensures InRange(entries, r')
    ensures forall k :: 0 <= k < |r'| ==> r'[k] == x || r'[k] in r
  {
    if r == [] then [x]
    else if entries[x].timestamp < entries[r[0]].timestamp then [x] + r
    else
      assert r == [r[0]] + r[1..];
      [r[0]] + InsertByTime(entries, x, r[1..])
  }

  /** The tail of a list sorted by timestamp is sorted, and its head comes no later than any of it. */
  lemma SortedTail(entries: seq<Entry>, r: seq<nat>)
    requires InRange(entries, r) && SortedByTime(entries, r) && r != []
    ensures InRange(entries, r[1..]) && SortedByTime(entries, r[1..])
    ensures forall k :: 0 <= k < |r[1..]| ==> entries[r[0]].timestamp <= entries[r[1..][k]].timestamp
  {
    forall i, j | 0 <= i < j < |r[1..]|
      ensures entries[r[1..][i]].timestamp <= entries[r[1..][j]].timestamp
    {
      assert r[1..][i] == r[i + 1] && r[1..][j] == r[j + 1];
    }
  }

  /** Prepending an element no later than any element keeps a list sorted by timestamp. */
  lemma SortedCons(entries: seq<Entry>, y: nat, r: seq<nat>)
    requires y < |entries| && InRange(entries, r) && SortedByTime(entries, r)
    requires forall k :: 0 <= k < |r| ==> entries[y].timestamp <= entries[r[k]].timestamp
    ensures InRange(entries, [y] + r) && SortedByTime(entries, [y] + r)
  {
    var r' := [y] + r;
    forall i, j | 0 <= i < j < |r'| ensures entries[r'[i]].timestamp <= entries[r'[j]].timestamp {
      assert r'[j] == r[j - 1];
      if i > 0 {
        assert r'[i] == r[i - 1];
      }
    }
  }

  lemma {:induction false} InsertKeepsSorted(entries: seq<Entry>, x: nat, r: seq<nat>)
    requires x < |entries| && InRange(entries, r) && SortedByTime(entries, r)
    ensures SortedByTime(entries, InsertByTime(entries, x, r))
  {
    if r == [] {
    } else if entries[x].timestamp < entries[r[0]].timestamp {
      SortedTail(entries, r);
      forall k | 0 <= k < |r| ensures entries[x].timestamp <= entries[r[k]].timestamp {
        if k > 0 {
          assert r[k] == r[1..][k - 1];
        }
      }
      SortedCons(entries, x, r);
    } else {
      SortedTail(entries, r);
      InsertKeepsSorted(entries, x, r[1..]);
      var rest := InsertByTime(entries, x, r[1..]);
      forall k | 0 <= k < |rest| ensures entries[r[0]].timestamp <= entries[rest[k]].timestamp {
        var y := rest[k];
        if y != x {
          var m :| 0 <= m < |r[1..]| && r[1..][m] == y;
        }
      }
      SortedCons(entries, r[0], rest);
    }
  }

  /** Array.prototype.sort with the comparator `a.timestamp - b.timestamp`:
      a stable insertion sort. */
  function SortByTime(entries: seq<Entry>, s: seq<nat>): (r: seq<nat>)
    requires InRange(entries, s)
    ensures multiset(r) == multiset(s)
    ensures InRange(entries, r)
  {
    if s == [] then []
    else
      assert s == s[..|s| - 1] + [s[|s| - 1]];
      InsertByTime(entries, s[|s| - 1], SortByTime(entries, s[..|s| - 1]))
  }

  /** The sort orders its input by timestamp. */
  lemma {:induction false} SortByTimeSorted(entries: seq<Entry>, s: seq<nat>)
    requires InRange(entries, s)
    ensures SortedByTime(entries, SortByTime(entries, s))
  {
    if s != [] {
      SortByTimeSorted(entries, s[..|s| - 1]);
      InsertKeepsSorted(entries, s[|s| - 1], SortByTime(entries, s[..|s| - 1]));
    }
  }

  /** The tail of a stable-sorted list is stable-sorted, and its head precedes all of it. */
  lemma StableTail(entries: seq<Entry>, r: seq<nat>)
    requires InRange(entries, r) && StableSorted(entries, r) && r != []
    ensures InRange(entries, r[1..]) && StableSorted(entries, r[1..])
    ensures forall k :: 0 <= k < |r[1..]| ==> Before(entries, r[0], r[1..][k])
  {
    forall i, j | 0 <= i < j < |r[1..]| ensures Before(entries, r[1..][i], r[1..][j]) {
      assert r[1..][i] == r[i + 1] && r[1..][j] == r[j + 1];
    }
  }

  /** Prepending an element that precedes every element keeps a list stable-sorted. */
  lemma StableCons(entries: seq<Entry>, y: nat, r: seq<nat>)
    requires y < |entries| && InRange(entries, r) && StableSorted(entries, r)
    requires forall k :: 0 <= k < |r| ==> Before(entries, y, r[k])
    ensures InRange(entries, [y] + r) && StableSorted(entries, [y] + r)
  {
    var r' := [y] + r;
    forall i, j | 0 <= i < j < |r'| ensures Before(entries, r'[i], r'[j]) {
      assert r'[j] == r[j - 1];
      if i > 0 {
        assert r'[i] == r[i - 1];
      }
    }
  }

  /** Inserting an element larger than all others keeps the (timestamp, index) order. */
  lemma {:induction false} InsertKeepsStable(entries: seq<Entry>, x: nat, r: seq<nat>)
    requires x < |entries| && InRange(entries, r)
    requires StableSorted(entries, r)
    requires forall y :: y in r ==> y < x
    ensures StableSorted(entries, InsertByTime(entries, x, r))
  {
    if r == [] {
    } else if entries[x].timestamp < entries[r[0]].timestamp {
      StableTail(entries, r);
      forall k | 0 <= k < |r| ensures Before(entries, x, r[k]) {
        if k > 0 {
          assert r[k] == r[1..][k - 1];
        }
      }
      StableCons(entries, x, r);
    } else {
      StableTail(entries, r);
      assert forall y :: y in r[1..] ==> y in r;
      InsertKeepsStable(entries, x, r[1..]);
      var rest := InsertByTime(entries, x, r[1..]);
      forall k | 0 <= k < |rest| ensures Before(entries, r[0], rest[k]) {
        var y := rest[k];
        if y == x {
          assert r[0] in r;
        } else {
          var m :| 0 <= m < |r[1..]| && r[1..][m] == y;
        }
      }
      StableCons(entries, r[0], rest);
    }
  }

  /** Stability: sorting an increasing index list orders it by (timestamp, insertion
      position), so entries with equal timestamps keep their insertion order. */
  lemma {:induction false} SortByTimeStable(entries: seq<Entry>, s: seq<nat>)
    requires InRange(entries, s) && Increasing(s)
    ensures StableSorted(entries, SortByTime(entries, s))
  {
    if s != [] {
      var init := s[..|s| - 1];
      var x := s[|s| - 1];
      assert Increasing(init);
      SortByTimeStable(entries, init);
      var sorted := SortByTime(entries, init);
      forall y | y in sorted ensures y < x {
        assert y in multiset(init);
        var k :| 0 <= k < |init| && init[k] == y;
      }
      InsertKeepsStable(entries, x, sorted);
    }
  }

  /** A stable-sorted list has no repeated index. */
  lemma StableSortedDistinct(entries: seq<Entry>, r: seq<nat>)
    requires InRange(entries, r) && StableSorted(entries, r)
    ensures forall i, j :: 0 <= i < j < |r| ==> r[i] != r[j]
  {
    forall i, j | 0 <= i < j < |r| ensures r[i] != r[j] {
      assert Before(entries, r[i], r[j]);
    }
  }

  /** Two stable-sorted lists with the same elements are the same list. */
  lemma {:induction false} StableUnique(entries: seq<Entry>, a: seq<nat>, b: seq<nat>)
    requires InRange(entries, a) && StableSorted(entries, a)
    requires InRange(entries, b) && StableSorted(entries, b)
    requires forall x :: x in a <==> x in b
    ensures a == b
    decreases |a|
  {
    assert a != [] ==> a[0] in a && a[0] in b;
    assert b != [] ==> b[0] in b && b[0] in a;
    if a != [] && b != [] {
      var i :| 0 <= i < |b| && b[i] == a[0];
      var j :| 0 <= j < |a| && a[j] == b[0];
      assert a[0] == b[0];
      StableTail(entries, a);
      StableTail(entries, b);
      StableSortedDistinct(entries, a);
      StableSortedDistinct(entries, b);
      forall x ensures x in a[1..] <==> x in b[1..] {
        if x in a[1..] {
          var k :| 0 <= k < |a[1..]| && a[1..][k] == x;
          assert a[k + 1] == x && a[k + 1] != a[0] && x in a;
          var k' :| 0 <= k' < |b| && b[k'] == x;
          assert b[1..][k' - 1] == x;
        }
        if x in b[1..] {
          var k :| 0 <= k < |b[1..]| && b[1..][k] == x;
          assert b[k + 1] == x && b[k + 1] != b[0] && x in b;
          var k' :| 0 <= k' < |a| && a[k'] == x;
          assert a[1..][k' - 1] == x;
        }
      }
      StableUnique(entries, a[1..], b[1..]);
      assert a == [a[0]] + a[1..] && b == [b[0]] + b[1..];
    }
  }

  /** A stable-sorted list splits into the elements with `timestamp <= t`
      followed by those with `timestamp > t`. */
  lemma {:induction false} TimeCut(entries: seq<Entry>, h: seq<nat>, t: int) returns (m: nat)
    requires InRange(entries, h) && StableSorted(entries, h)
    ensures m <= |h|
    ensures forall k :: 0 <= k < m ==> entries[h[k]].timestamp <= t
    ensures forall k :: m <= k < |h| ==> entries[h[k]].timestamp > t
    decreases |h|
  {
    if h == [] {
      m := 0;
    } else if entries[h[0]].timestamp > t {
      m := 0;
      forall k | 0 < k < |h| ensures entries[h[k]].timestamp > t {
        assert Before(entries, h[0], h[k]);
      }
    } else {
      StableTail(entries, h);
      var m' := TimeCut(entries, h[1..], t);
      m := m' + 1;
      forall k | 0 < k < |h| ensures h[k] == h[1..][k - 1] {
      }
    }
  }

  /** A stable-sorted list holding exactly the elements of another with
      `timestamp <= t` is a prefix of it. */
  lemma PrefixByTime(entries: seq<Entry>, h1: seq<nat>, h2: seq<nat>, t: int)
    requires InRange(entries, h1) && StableSorted(entries, h1)
    requires InRange(entries, h2) && StableSorted(entries, h2)
    requires forall x :: x in h1 <==> x in h2 && entries[x].timestamp <= t
    ensures h1 <= h2
  {
    var m := TimeCut(entries, h2, t);
    var p := h2[..m];
    assert InRange(entries, p) && StableSorted(entries, p);
    forall x ensures x in h1 <==> x in p {
      if x in h2 {
        var k :| 0 <= k < |h2| && h2[k] == x;
        assert k < m <==> x in p;
      }
    }
    StableUnique(entries, h1, p);
  }

  // ===========================================================================
  // getBalance

  /** What one entry adds to account `a`'s balance at time `t`: a deposit adds,
      a withdrawal subtracts; a transfer credits its recipient once accepted and
      debits its sender while pending or accepted; an expired transfer and a
      scheduled transfer add nothing. */
  function Effect(e: Entry, a: string, t: int): (r: int)
    ensures e.Transfer? && r != 0 ==> Involves(e, a)
    ensures e.Scheduled? || StatusAt(e, t) == Expired ==> r == 0
  {
    match e
    case Transaction(_, amount, txType, _, _) => if txType == Deposit then amount else -amount
    case Transfer(_, amount, sender, recipient, _, _, _) =>
      var s := StatusAt(e, t);
      if s == Accepted && recipient == a then amount
      else if (s == Accepted || s == Pending) && sender == a then -amount
      else 0
    case Scheduled(_, _, _, _, _, _, _, _, _) => 0
  }

  /** The fold `reduce((acc, tx) => acc + Effect(tx), 0)`. */
  function BalanceSum(entries: seq<Entry>, r: seq<nat>, a: string, t: int): int
    requires InRange(entries, r)
  {
    if r == [] then 0
    else Effect(entries[r[0]], a, t) + BalanceSum(entries, r[1..], a, t)
  }

  /** The balance of an account whose entry list is `ids`, at time `t`, as
      the code computes it: filter by time, sort by timestamp, fold. The sort
      does not matter: it is the sum of the effects of the entries with
      `timestamp <= t`, in any order. */
  function AccountBalance(entries: seq<Entry>, ids: seq<nat>, a: string, t: int): (r: int)
    requires InRange(entries, ids)
    ensures r == BalanceSum(entries, FilterTime(entries, ids, t), a, t)
  {
    BalanceSumSorted(entries, FilterTime(entries, ids, t), a, t);
    BalanceSum(entries, SortByTime(entries, FilterTime(entries, ids, t)), a, t)
  }

  /** The same sum as a running tally over the list in insertion order,
      counting each entry visible at `t`; `BalanceIsReplay` proves the two equal. */
  function Tally(entries: seq<Entry>, ids: seq<nat>, a: string, t: int): int
    requires InRange(entries, ids)
  {
    if ids == [] then 0
    else
      var x := ids[|ids| - 1];
      Tally(entries, ids[..|ids| - 1], a, t) + (if entries[x].timestamp <= t then Effect(entries[x], a, t) else 0)
  }

  /** `getBalance(a, t)`: null for an unknown account. */
  function Balance(entries: seq<Entry>, accounts: Accounts, a: string, t: int): (r: Option<int>)
    requires AccountsInRange(entries, accounts)
    ensures r.None? <==> a !in accounts
  {
    if a in accounts then Some(Tally(entries, accounts[a], a, t)) else None
  }

  lemma {:induction false} BalanceSumAppend(entries: seq<Entry>, r: seq<nat>, x: nat, a: string, t: int)
    requires InRange(entries, r) && x < |entries|
    ensures BalanceSum(entries, r + [x], a, t) == BalanceSum(entries, r, a, t) + Effect(entries[x], a, t)
  {
    if r != [] {
      assert (r + [x])[1..] == r[1..] + [x];
      BalanceSumAppend(entries, r[1..], x, a, t);
    }
  }

  lemma {:induction false} BalanceSumInsert(entries: seq<Entry>, x: nat, r: seq<nat>, a: string, t: int)
    requires x < |entries| && InRange(entries, r)
    ensures BalanceSum(entries, InsertByTime(entries, x, r), a, t)
         == Effect(entries[x], a, t) + BalanceSum(entries, r, a, t)
  {
    if r != [] && entries[x].timestamp >= entries[r[0]].timestamp {
      BalanceSumInsert(entries, x, r[1..], a, t);
      var rest := InsertByTime(entries, x, r[1..]);
      assert ([r[0]] + rest)[1..] == rest;
    }
  }

  /** The sort before the fold does not change the sum. */
  lemma {:induction false} BalanceSumSorted(entries: seq<Entry>, s: seq<nat>, a: string, t: int)
    requires InRange(entries, s)
    ensures BalanceSum(entries, SortByTime(entries, s), a, t) == BalanceSum(entries, s, a, t)
  {
    if s != [] {
      var init := s[..|s| - 1];
      var x := s[|s| - 1];
      assert s == init + [x];
      BalanceSumSorted(entries, init, a, t);
      BalanceSumInsert(entries, x, SortByTime(entries, init), a, t);
      BalanceSumAppend(entries, init, x, a, t);
    }
  }

  lemma {:induction false} TallyIsFilteredSum(entries: seq<Entry>, ids: seq<nat>, a: string, t: int)
    requires InRange(entries, ids)
    ensures Tally(entries, ids, a, t) == BalanceSum(entries, FilterTime(entries, ids, t), a, t)
  {
    if ids != [] {
      var init := ids[..|ids| - 1];
      var x := ids[|ids| - 1];
      TallyIsFilteredSum(entries, init, a, t);
      if entries[x].timestamp <= t {
        BalanceSumAppend(entries, FilterTime(entries, init, t), x, a, t);
      }
    }
  }

  /** `getBalance` is the code's replay: the tally equals filtering by time,
      sorting by timestamp and folding the effects. */
  lemma BalanceIsReplay(entries: seq<Entry>, accounts: Accounts, a: string, t: int)
    requires AccountsInRange(entries, accounts)
    ensures a !in accounts ==> Balance(entries, accounts, a, t).None?
    ensures a in accounts ==> Balance(entries, accounts, a, t) == Some(AccountBalance(entries, accounts[a], a, t))
  {
    if a in accounts {
      TallyIsFilteredSum(entries, accounts[a], a, t);
    }
  }

  /** Growing the arena without touching the list leaves the tally alone. */
  lemma {:induction false} TallyExtend(entries: seq<Entry>, e: Entry, ids: seq<nat>, a: string, t: int)
    requires InRange(entries, ids)
    ensures InRange(entries + [e], ids)
    ensures Tally(entries + [e], ids, a, t) == Tally(entries, ids, a, t)
  {
    if ids != [] {
      TallyExtend(entries, e, ids[..|ids| - 1], a, t);
    }
  }

  /** Appending an entry to the arena and to the list adds its effect once visible. */
  lemma TallyAppend(entries: seq<Entry>, e: Entry, ids: seq<nat>, a: string, t: int)
    requires InRange(entries, ids)
    ensures InRange(entries + [e], ids + [|entries|])
    ensures Tally(entries + [e], ids + [|entries|], a, t)
         == Tally(entries, ids, a, t) + (if e.timestamp <= t then Effect(e, a, t) else 0)
  {
    TallyExtend(entries, e, ids, a, t);
    assert (ids + [|entries|])[..|ids|] == ids;
  }

  /** Changing one entry in place (same timestamp) changes the tally of a list
      that holds it by the difference of its effects, once visible. */
  lemma {:induction false} TallyUpdate(entries: seq<Entry>, j: nat, e: Entry, ids: seq<nat>, a: string, t: int)
    requires j < |entries| && InRange(entries, ids) && Increasing(ids)
    requires e.timestamp == entries[j].timestamp
    ensures InRange(entries[j := e], ids)
    ensures Tally(entries[j := e], ids, a, t)
         == Tally(entries, ids, a, t)
            + (if j in ids && entries[j].timestamp <= t then Effect(e, a, t) - Effect(entries[j], a, t) else 0)
  {
    if ids != [] {
      var init := ids[..|ids| - 1];
      var x := ids[|ids| - 1];
      assert ids == init + [x];
      assert Increasing(init);
      TallyUpdate(entries, j, e, init, a, t);
      if j == x {
        assert j !in init by {
          forall k | 0 <= k < |init| ensures init[k] != j {
            assert init[k] == ids[k];
          }
        }
      }
    }
  }

  /** One account's list after listing a new entry: extended by the entry's
      index if the entry involves it, untouched otherwise. */
  lemma ListEntryAt(entries: seq<Entry>, accounts: Accounts, e: Entry, a: string)
    requires AccountsInRange(entries, accounts)
    requires e.recipient in accounts && (!e.Transaction? ==> e.sender in accounts)
    requires a in accounts
    ensures ListEntry(accounts, e, |entries|)[a] == if Involves(e, a) then accounts[a] + [|entries|] else accounts[a]
    ensures InRange(entries + [e], ListEntry(accounts, e, |entries|)[a])
  {
    assert InRange(entries, accounts[a]);
  }

  /** Listing a new entry changes account `a`'s balance by exactly the entry's
      effect on it, once it is visible. */
  lemma BalanceAfterListing(entries: seq<Entry>, accounts: Accounts, e: Entry, a: string, t: int)
    requires AccountsInRange(entries, accounts)
    requires e.recipient in accounts && (!e.Transaction? ==> e.sender in accounts)
    requires a in accounts
    ensures InRange(entries + [e], ListEntry(accounts, e, |entries|)[a])
    ensures Tally(entries + [e], ListEntry(accounts, e, |entries|)[a], a, t)
         == Tally(entries, accounts[a], a, t) + (if Involves(e, a) && e.timestamp <= t then Effect(e, a, t) else 0)
  {
    ListEntryAt(entries, accounts, e, a);
    if Involves(e, a) {
      TallyAppend(entries, e, accounts[a], a, t);
    } else {
      TallyExtend(entries, e, accounts[a], a, t);
    }
  }

  /** Every balance after `e` was recorded: the accounts are the same, and
      each one's balance at each time moved by exactly `e`'s effect on it, once
      `e` is visible. */
  ghost predicate RecordedBalances(entries: seq<Entry>, accounts: Accounts,
                             entries': seq<Entry>, accounts': Accounts, e: Entry)
    requires AccountsInRange(entries, accounts) && AccountsInRange(entries', accounts')
  {
    && accounts'.Keys == accounts.Keys
    && forall a, t :: a in accounts ==>
         Balance(entries', accounts', a, t)
         == Some(Balance(entries, accounts, a, t).value + (if Involves(e, a) && e.timestamp <= t then Effect(e, a, t) else 0))
  }

  /** The same for every account and time, through `getBalance`. */
  lemma BalancesAfterListing(entries: seq<Entry>, accounts: Accounts, e: Entry)
    requires AccountsInRange(entries, accounts)
    requires e.recipient in accounts && (!e.Transaction? ==> e.sender in accounts)
    ensures AccountsInRange(entries + [e], ListEntry(accounts, e, |entries|))
    ensures RecordedBalances(entries, accounts, entries + [e], ListEntry(accounts, e, |entries|), e)
  {
    var accounts' := ListEntry(accounts, e, |entries|);
    forall a | a in accounts' ensures InRange(entries + [e], accounts'[a]) {
      ListEntryAt(entries, accounts, e, a);
    }
    forall a, t | a in accounts
      ensures Balance(entries + [e], accounts', a, t)
           == Some(Balance(entries, accounts, a, t).value + (if Involves(e, a) && e.timestamp <= t then Effect(e, a, t) else 0))
    {
      BalanceAfterListingAt(entries, accounts, e, a, t);
    }
  }

  /** The same through `getBalance`, for one account and time. */
  lemma BalanceAfterListingAt(entries: seq<Entry>, accounts: Accounts, e: Entry, a: string, t: int)
    requires AccountsInRange(entries, accounts)
    requires e.recipient in accounts && (!e.Transaction? ==> e.sender in accounts)
    requires AccountsInRange(entries + [e], ListEntry(accounts, e, |entries|))
    requires a in accounts
    ensures Balance(entries + [e], ListEntry(accounts, e, |entries|), a, t)
         == Some(Balance(entries, accounts, a, t).value + (if Involves(e, a) && e.timestamp <= t then Effect(e, a, t) else 0))
  {
    BalanceAfterListing(entries, accounts, e, a, t);
    assert a in ListEntry(accounts, e, |entries|);
  }

  /** After a deposit or withdrawal on account `a` is recorded, `a`'s balance
      moves by the signed amount from the entry's timestamp on; no other
      balance moves. */
  lemma TransactionRecorded(entries: seq<Entry>, accounts: Accounts, entries': seq<Entry>, accounts': Accounts,
                            e: Entry)
    requires AccountsInRange(entries, accounts) && AccountsInRange(entries', accounts')
    requires e.Transaction? && e.recipient in accounts
    requires RecordedBalances(entries, accounts, entries', accounts', e)
    ensures forall t ::
              Balance(entries', accounts', e.recipient, t)
                == Some(Balance(entries, accounts, e.recipient, t).value
                        + (if e.timestamp <= t then (if e.txType == Deposit then e.amount else -e.amount) else 0))
    ensures forall a, t :: a != e.recipient ==> Balance(entries', accounts', a, t) == Balance(entries, accounts, a, t)
  {
  }

  /** After a new pending transfer is recorded, the sender's balance drops by
      the amount from the transfer's timestamp up to its expiration; no other
      balance moves, the recipient's included. */
  lemma TransferRecorded(entries: seq<Entry>, accounts: Accounts, entries': seq<Entry>, accounts': Accounts,
                         e: Entry)
    requires AccountsInRange(entries, accounts) && AccountsInRange(entries', accounts')
    requires e.Transfer? && !e.accepted && e.sender != e.recipient && e.sender in accounts
    requires RecordedBalances(entries, accounts, entries', accounts', e)
    ensures forall t ::
              Balance(entries', accounts', e.sender, t)
                == Some(Balance(entries, accounts, e.sender, t).value - (if e.timestamp <= t <= Expiration(e) then e.amount else 0))
    ensures forall a, t :: a != e.sender ==> Balance(entries', accounts', a, t) == Balance(entries, accounts, a, t)
  {
    forall t ensures Balance(entries', accounts', e.sender, t)
      == Some(Balance(entries, accounts, e.sender, t).value - (if e.timestamp <= t <= Expiration(e) then e.amount else 0))
    {
      TransferNetEffect(e, t);
    }
    forall a, t | a != e.sender ensures Balance(entries', accounts', a, t) == Balance(entries, accounts, a, t) {
      TransferNetEffect(e, t);
    }
  }

  /** Recording a scheduled transfer moves no balance. */
  lemma ScheduledRecorded(entries: seq<Entry>, accounts: Accounts, entries': seq<Entry>, accounts': Accounts,
                          e: Entry)
    requires AccountsInRange(entries, accounts) && AccountsInRange(entries', accounts')
    requires e.Scheduled?
    requires RecordedBalances(entries, accounts, entries', accounts', e)
    ensures forall a, t :: Balance(entries', accounts', a, t) == Balance(entries, accounts, a, t)
  {
  }

  /** The status of the transfer with id `id`, when the only entry carrying
      `id` is the transfer at position `i`: none before its timestamp, and
      its own status from then on. */
  lemma StatusOfUniqueTransfer(entries: seq<Entry>, accounts: Accounts, order: seq<string>,
                               transactions: nat, transfers: nat, scheduled: nat, i: nat, t: int)
    requires Consistent(entries, accounts, order, transactions, transfers, scheduled)
    requires i < |entries| && entries[i].Transfer?
    ensures TransferStatus(entries, accounts, order, entries[i].id, t)
         == if t < entries[i].timestamp then None else Some(StatusAt(entries[i], t))
  {
    var id := entries[i].id;
    LookupTransferFinds(entries, accounts, order, transactions, transfers, scheduled, id, t);
    if t < entries[i].timestamp {
      forall j | 0 <= j < |entries| ensures LookupTransfer(entries, accounts, order, id, t) != Some(j) {
        if j != i {
          assert entries[j].id != id;
        }
      }
    } else {
      assert LookupTransfer(entries, accounts, order, id, t) == Some(i);
    }
  }

  /** Accepting the pending transfer at position `i`, seen from one account:
      its recipient gains the amount from the transfer's timestamp on, its
      sender now also loses the amount after the expiration, and the tally of
      any other account does not move. */
  lemma AcceptedTally(entries: seq<Entry>, accounts: Accounts, i: nat, t0: int, a: string, t: int)
    requires Lists(entries, accounts) && Listed(entries, accounts)
    requires i < |entries| && entries[i].Transfer? && WellFormed(entries[i]) && Accept(entries[i], t0).ok
    requires a in accounts
    ensures InRange(entries[i := Accept(entries[i], t0).entry], accounts[a])
    ensures var e := entries[i];
      Tally(entries[i := Accept(e, t0).entry], accounts[a], a, t)
      == Tally(entries, accounts[a], a, t)
         + (if a == e.recipient && e.timestamp <= t then e.amount
            else if a == e.sender && Expiration(e) < t then -e.amount
            else 0)
  {
    var e := entries[i];
    var e' := Accept(e, t0).entry;
    assert InRange(entries, accounts[a]);
    TallyUpdate(entries, i, e', accounts[a], a, t);
    TransferNetEffect(e, t);
    TransferNetEffect(e', t);
    if i in accounts[a] {
      assert Involves(e, a);
    }
  }

  /** Accepting the pending transfer at position `i`, for every account. */
  lemma AcceptedBalances(entries: seq<Entry>, accounts: Accounts, i: nat, t0: int)
    requires Lists(entries, accounts) && Listed(entries, accounts)
    requires i < |entries| && entries[i].Transfer? && WellFormed(entries[i]) && Accept(entries[i], t0).ok
    ensures AccountsInRange(entries[i := Accept(entries[i], t0).entry], accounts)
    ensures var e := entries[i];
      forall t ::
        Balance(entries[i := Accept(e, t0).entry], accounts, e.recipient, t)
          == Some(Balance(entries, accounts, e.recipient, t).value + (if e.timestamp <= t then e.amount else 0))
    ensures var e := entries[i];
      forall t ::
        Balance(entries[i := Accept(e, t0).entry], accounts, e.sender, t)
          == Some(Balance(entries, accounts, e.sender, t).value - (if Expiration(e) < t then e.amount else 0))
    ensures var e := entries[i];
      forall a, t :: a != e.sender && a != e.recipient ==>
        Balance(entries[i := Accept(e, t0).entry], accounts, a, t) == Balance(entries, accounts, a, t)
  {
    var e := entries[i];
    var entries' := entries[i := Accept(e, t0).entry];
    forall a | a in accounts ensures InRange(entries', accounts[a]) {
      assert InRange(entries, accounts[a]);
    }
    forall a, t | a in accounts
      ensures Tally(entries', accounts[a], a, t)
              == Tally(entries, accounts[a], a, t)
                 + (if a == e.recipient && e.timestamp <= t then e.amount
                    else if a == e.sender && Expiration(e) < t then -e.amount
                    else 0)
    {
      AcceptedTally(entries, accounts, i, t0, a, t);
    }
  }

  /** A transfer's two sides cancel once it is accepted and while it is
      expired; while pending only the sender's hold is in force. */
  lemma TransferNetEffect(e: Entry, t: int)
    requires e.Transfer? && e.sender != e.recipient
    ensures StatusAt(e, t) == Accepted ==> Effect(e, e.sender, t) == -e.amount && Effect(e, e.recipient, t) == e.amount
    ensures StatusAt(e, t) == Pending ==> Effect(e, e.sender, t) == -e.amount && Effect(e, e.recipient, t) == 0
    ensures StatusAt(e, t) == Expired ==> Effect(e, e.sender, t) == 0 && Effect(e, e.recipient, t) == 0
  {
  }

  // ===========================================================================
  // getTransactionVolume

  /** An entry counts toward volume when accepted at `t` and not a scheduled transfer. */
  function VolumeContribution(e: Entry, t: int): int
  {
    if StatusAt(e, t) == Accepted && !e.Scheduled? then e.amount else 0
  }

  function VolumeSum(entries: seq<Entry>, r: seq<nat>, t: int): int
    requires InRange(entries, r)
  {
    if r == [] then 0
    else VolumeContribution(entries[r[0]], t) + VolumeSum(entries, r[1..], t)
  }

  /** `getTransactionVolume(a, t)`: null for an unknown account. */
  function Volume(entries: seq<Entry>, accounts: Accounts, a: string, t: int): (r: Option<int>)
    requires AccountsInRange(entries, accounts)
    ensures r.None? <==> a !in accounts
  {
    if a in accounts
    then Some(VolumeSum(entries, SortByTime(entries, FilterTime(entries, accounts[a], t)), t))
    else None
  }

  lemma {:induction false} VolumeSumNonNegative(entries: seq<Entry>, r: seq<nat>, t: int)
    requires InRange(entries, r)
    requires forall x :: x in r ==> entries[x].amount > 0
    ensures VolumeSum(entries, r, t) >= 0
  {
    if r != [] {
      assert forall x :: x in r[1..] ==> x in r;
      VolumeSumNonNegative(entries, r[1..], t);
    }
  }

  /** The volume is null exactly for an unknown account, and never negative. */
  lemma VolumeNonNegative(entries: seq<Entry>, accounts: Accounts, a: string, t: int)
    requires AccountsInRange(entries, accounts)
    requires forall i :: 0 <= i < |entries| ==> WellFormed(entries[i])
    ensures Volume(entries, accounts, a, t).None? <==> a !in accounts
    ensures Volume(entries, accounts, a, t).Some? ==> Volume(entries, accounts, a, t).value >= 0
  {
    if a in accounts {
      VolumeSumNonNegative(entries, SortByTime(entries, FilterTime(entries, accounts[a], t)), t);
    }
  }

  // ===========================================================================
  // getTransactionHistory and getScheduledTransferIds

  /** Keeps the accepted deposits, withdrawals and transfers, in order. */
  function AcceptedMoves(entries: seq<Entry>, r: seq<nat>, t: int): (h: seq<nat>)
    requires InRange(entries, r)
    ensures forall x :: x in h <==> x in r && StatusAt(entries[x], t) == Accepted && !entries[x].Scheduled?
    ensures InRange(entries, h)
    ensures StableSorted(entries, r) ==> StableSorted(entries, h)
  {
    if r == [] then []
    else
      var rest := AcceptedMoves(entries, r[1..], t);
      assert forall x :: x in r[1..] ==> x in r;
      assert StableSorted(entries, r) ==> StableSorted(entries, r[1..]) && forall x :: x in r[1..] ==> Before(entries, r[0], x) by {
        if StableSorted(entries, r) {
          forall i, j | 0 <= i < j < |r[1..]| ensures Before(entries, r[1..][i], r[1..][j]) {
            assert r[1..][i] == r[i + 1] && r[1..][j] == r[j + 1];
          }
          forall x | x in r[1..] ensures Before(entries, r[0], x) {
            var k :| 0 <= k < |r[1..]| && r[1..][k] == x;
            assert r[k + 1] == x;
          }
        }
      }
      assert r == [r[0]] + r[1..];
      if StatusAt(entries[r[0]], t) == Accepted && !entries[r[0]].Scheduled? then [r[0]] + rest else rest
  }

  /** The arena indices behind an account's history at `t`. */
  function HistoryIndices(entries: seq<Entry>, ids: seq<nat>, t: int): seq<nat>
    requires InRange(entries, ids)
  {
    AcceptedMoves(entries, SortByTime(entries, FilterTime(entries, ids, t)), t)
  }

  /** One history line: type, amount and timestamp. */
  datatype HistoryLine = HistoryLine(kind: EntryType, amount: int, timestamp: int)

  function Render(entries: seq<Entry>, h: seq<nat>): seq<HistoryLine>
    requires InRange(entries, h)
  {
    seq(|h|, k requires 0 <= k < |h| => HistoryLine(TypeOf(entries[h[k]]), entries[h[k]].amount, entries[h[k]].timestamp))
  }

  /** `getTransactionHistory(a, t)`: null for an unknown account. */
  function History(entries: seq<Entry>, accounts: Accounts, a: string, t: int): (r: Option<seq<HistoryLine>>)
    requires AccountsInRange(entries, accounts)
    ensures r.None? <==> a !in accounts
  {
    if a in accounts then Some(Render(entries, HistoryIndices(entries, accounts[a], t))) else None
  }

  /** The history holds exactly the account's accepted, non-scheduled entries
      with `timestamp <= t`, ordered by timestamp with ties in insertion order. */
  lemma HistoryContents(entries: seq<Entry>, ids: seq<nat>, t: int)
    requires InRange(entries, ids) && Increasing(ids)
    ensures forall x :: x in HistoryIndices(entries, ids, t) <==>
      && x in ids && entries[x].timestamp <= t
      && StatusAt(entries[x], t) == Accepted && !entries[x].Scheduled?
    ensures StableSorted(entries, HistoryIndices(entries, ids, t))
  {
    var f := FilterTime(entries, ids, t);
    var sorted := SortByTime(entries, f);
    SortByTimeStable(entries, f);
    forall x ensures x in sorted <==> x in f {
      assert x in sorted <==> x in multiset(sorted);
    }
  }

  /** Every line of the rendered history describes its entry. */
  lemma HistoryRendering(entries: seq<Entry>, accounts: Accounts, a: string, t: int)
    requires AccountsInRange(entries, accounts)
    ensures History(entries, accounts, a, t).None? <==> a !in accounts
    ensures a in accounts ==>
      var h := HistoryIndices(entries, accounts[a], t);
      var lines := History(entries, accounts, a, t).value;
      && |lines| == |h|
      && forall k :: 0 <= k < |h| ==>
           lines[k] == HistoryLine(TypeOf(entries[h[k]]), entries[h[k]].amount, entries[h[k]].timestamp)
           && lines[k].kind != ScheduledType
  {
    if a in accounts {
      var h := HistoryIndices(entries, accounts[a], t);
      forall k | 0 <= k < |h| ensures !entries[h[k]].Scheduled? {
        assert h[k] in h;
      }
    }
  }

  /** The history only grows with time, at its end: the history at `t1` is a
      prefix of the history at every later `t2`. */
  lemma HistoryGrows(entries: seq<Entry>, ids: seq<nat>, t1: int, t2: int)
    requires InRange(entries, ids) && Increasing(ids) && t1 <= t2
    ensures HistoryIndices(entries, ids, t1) <= HistoryIndices(entries, ids, t2)
  {
    var h1 := HistoryIndices(entries, ids, t1);
    var h2 := HistoryIndices(entries, ids, t2);
    HistoryContents(entries, ids, t1);
    HistoryContents(entries, ids, t2);
    forall x ensures x in h1 <==> x in h2 && entries[x].timestamp <= t1 {
      if x in h1 {
        AcceptedIsTimeless(entries[x], t1, t2);
      }
      if x in h2 {
        AcceptedIsTimeless(entries[x], t2, t1);
      }
    }
    PrefixByTime(entries, h1, h2, t1);
  }

  /** The sum of the amounts on some history lines. */
  function LinesTotal(lines: seq<HistoryLine>): int
  {
    if lines == [] then 0 else lines[0].amount + LinesTotal(lines[1..])
  }

  /** Rendering a list with one more index in front gives that index's line in front. */
  lemma RenderCons(entries: seq<Entry>, x: nat, h: seq<nat>)
    requires x < |entries| && InRange(entries, h)
    ensures InRange(entries, [x] + h)
    ensures LinesTotal(Render(entries, [x] + h)) == entries[x].amount + LinesTotal(Render(entries, h))
  {
    var lines := Render(entries, [x] + h);
    assert lines[1..] == Render(entries, h);
  }

  lemma {:induction false} VolumeSumMoves(entries: seq<Entry>, r: seq<nat>, t: int)
    requires InRange(entries, r)
    ensures VolumeSum(entries, r, t) == LinesTotal(Render(entries, AcceptedMoves(entries, r, t)))
  {
    if r != [] {
      VolumeSumMoves(entries, r[1..], t);
      var rest := AcceptedMoves(entries, r[1..], t);
      if StatusAt(entries[r[0]], t) == Accepted && !entries[r[0]].Scheduled? {
        assert AcceptedMoves(entries, r, t) == [r[0]] + rest;
        RenderCons(entries, r[0], rest);
      } else {
        assert AcceptedMoves(entries, r, t) == rest;
      }
    }
  }

  /** The volume and the history agree: both are null exactly for an unknown
      account, and the volume is the total of the amounts the history lists. */
  lemma VolumeIsHistoryTotal(entries: seq<Entry>, accounts: Accounts, a: string, t: int)
    requires AccountsInRange(entries, accounts)
    ensures Volume(entries, accounts, a, t).Some? <==> History(entries, accounts, a, t).Some?
    ensures a in accounts ==> Volume(entries, accounts, a, t).value == LinesTotal(History(entries, accounts, a, t).value)
  {
    if a in accounts {
      VolumeSumMoves(entries, SortByTime(entries, FilterTime(entries, accounts[a], t)), t);
    }
  }

  /** Keeps the scheduled transfers still pending at `t`, in order. */
  function PendingScheduled(entries: seq<Entry>, r: seq<nat>, t: int): (p: seq<nat>)
    requires InRange(entries, r)
    ensures forall x :: x in p <==> x in r && entries[x].Scheduled? && StatusAt(entries[x], t) == Pending
    ensures InRange(entries, p)
    ensures SortedByTime(entries, r) ==> SortedByTime(entries, p)
  {
    if r == [] then []
    else
      var rest := PendingScheduled(entries, r[1..], t);
      assert forall x :: x in r[1..] ==> x in r;
      assert r == [r[0]] + r[1..];
      assert SortedByTime(entries, r) ==> SortedByTime(entries, [r[0]] + rest) by {
        if SortedByTime(entries, r) {
          SortedTail(entries, r);
          forall k | 0 <= k < |rest| ensures entries[r[0]].timestamp <= entries[rest[k]].timestamp {
            assert rest[k] in r[1..];
            var j :| 0 <= j < |r[1..]| && r[1..][j] == rest[k];
          }
          SortedCons(entries, r[0], rest);
        }
      }
      if entries[r[0]].Scheduled? && StatusAt(entries[r[0]], t) == Pending then [r[0]] + rest else rest
  }

  function ScheduledIndices(entries: seq<Entry>, ids: seq<nat>, t: int): (p: seq<nat>)
    requires InRange(entries, ids)
    ensures InRange(entries, p) && SortedByTime(entries, p)
  {
    SortByTimeSorted(entries, FilterTime(entries, ids, t));
    PendingScheduled(entries, SortByTime(entries, FilterTime(entries, ids, t)), t)
  }

  function IdsOf(entries: seq<Entry>, p: seq<nat>): seq<Id>
    requires InRange(entries, p)
  {
    seq(|p|, k requires 0 <= k < |p| => entries[p[k]].id)
  }

  /** `getScheduledTransferIds(t, a)`: null for an unknown account. */
  function ScheduledIds(entries: seq<Entry>, accounts: Accounts, a: string, t: int): (r: Option<seq<Id>>)
    requires AccountsInRange(entries, accounts)
    ensures r.None? <==> a !in accounts
  {
    if a in accounts then Some(IdsOf(entries, ScheduledIndices(entries, accounts[a], t))) else None
  }

  /** The listed ids are those of the account's scheduled transfers with
      `timestamp <= t` that are neither accepted nor rejected. */
  lemma ScheduledIdsContents(entries: seq<Entry>, accounts: Accounts, a: string, t: int)
    requires AccountsInRange(entries, accounts)
    ensures ScheduledIds(entries, accounts, a, t).None? <==> a !in accounts
    ensures a in accounts ==>
      forall x :: x in accounts[a] ==>
        (entries[x].id in ScheduledIds(entries, accounts, a, t).value
          <== entries[x].Scheduled? && entries[x].timestamp <= t && !entries[x].accepted && !entries[x].rejected)
    ensures a in accounts ==>
      forall k :: 0 <= k < |ScheduledIndices(entries, accounts[a], t)| ==>
        var x := ScheduledIndices(entries, accounts[a], t)[k];
        && ScheduledIds(entries, accounts, a, t).value[k] == entries[x].id
        && x in accounts[a] && entries[x].Scheduled? && entries[x].timestamp <= t
        && !entries[x].accepted && !entries[x].rejected
    ensures a in accounts ==>
      forall i, j :: 0 <= i < j < |ScheduledIndices(entries, accounts[a], t)| ==>
        entries[ScheduledIndices(entries, accounts[a], t)[i]].timestamp
          <= entries[ScheduledIndices(entries, accounts[a], t)[j]].timestamp
  {
    if a in accounts {
      var f := FilterTime(entries, accounts[a], t);
      var sorted := SortByTime(entries, f);
      var p := ScheduledIndices(entries, accounts[a], t);
      var ids := ScheduledIds(entries, accounts, a, t).value;
      forall x ensures x in sorted <==> x in f {
        assert x in sorted <==> x in multiset(sorted);
      }
      forall x | x in accounts[a] && entries[x].Scheduled? && entries[x].timestamp <= t && !entries[x].accepted && !entries[x].rejected
        ensures entries[x].id in ids
      {
        assert x in p;
        var k :| 0 <= k < |p| && p[k] == x;
        assert ids[k] == entries[x].id;
      }
      forall k | 0 <= k < |p| ensures p[k] in accounts[a] && entries[p[k]].timestamp <= t {
        assert p[k] in p;
      }
    }
  }

  // ===========================================================================
  // Finding a transfer: getAllTransactions and find

  /** `Object.values(accounts).flat()`: every account's list, in account creation order. */
  function Flatten(order: seq<string>, accounts: Accounts): (r: seq<nat>)
    requires forall a :: a in order ==> a in accounts
  {
    if order == [] then []
    else
      assert forall a :: a in order[..|order| - 1] ==> a in order;
      Flatten(order[..|order| - 1], accounts) + accounts[order[|order| - 1]]
  }

  lemma {:induction false} FlattenContents(order: seq<string>, accounts: Accounts)
    requires forall a :: a in order ==> a in accounts
    ensures forall a, x :: a in order && x in accounts[a] ==> x in Flatten(order, accounts)
    ensures forall x :: x in Flatten(order, accounts) ==> exists a :: a in order && x in accounts[a]
  {
    if order != [] {
      var init := order[..|order| - 1];
      assert forall a :: a in init ==> a in order;
      FlattenContents(init, accounts);
      forall a, x | a in order && x in accounts[a] ensures x in Flatten(order, accounts) {
        if a != order[|order| - 1] {
          var k :| 0 <= k < |order| && order[k] == a;
          assert a in init;
        }
      }
    }
  }

  lemma FlattenInRange(entries: seq<Entry>, order: seq<string>, accounts: Accounts)
    requires forall a :: a in order ==> a in accounts
    requires AccountsInRange(entries, accounts)
    ensures InRange(entries, Flatten(order, accounts))
  {
    FlattenContents(order, accounts);
  }

  /** `getAllTransactions(t)`: all listed entries with `timestamp <= t`; a
      two-party entry appears once per account that lists it. */
  function AllVisible(entries: seq<Entry>, accounts: Accounts, order: seq<string>, t: int): (r: seq<nat>)
    requires forall a :: a in order ==> a in accounts
    requires AccountsInRange(entries, accounts)
    ensures InRange(entries, r)
  {
    FlattenInRange(entries, order, accounts);
    FilterTime(entries, Flatten(order, accounts), t)
  }

  /** `find(tx => tx.transactionType === "transfer" && tx.id() === id)`: the first match. */
  function FindTransfer(entries: seq<Entry>, r: seq<nat>, id: Id): (found: Option<nat>)
    requires InRange(entries, r)
    ensures found.Some? ==> found.value in r && entries[found.value].Transfer? && entries[found.value].id == id
    ensures found.None? ==> forall x :: x in r ==> !(entries[x].Transfer? && entries[x].id == id)
    ensures found.Some? ==>
      exists k :: 0 <= k < |r| && r[k] == found.value &&
        forall m :: 0 <= m < k ==> !(entries[r[m]].Transfer? && entries[r[m]].id == id)
  {
    if r == [] then None
    else if entries[r[0]].Transfer? && entries[r[0]].id == id then Some(r[0])
    else
      assert r == [r[0]] + r[1..];
      var rest := FindTransfer(entries, r[1..], id);
      assert rest.Some? ==>
        exists k :: 0 <= k < |r| && r[k] == rest.value &&
          forall m :: 0 <= m < k ==> !(entries[r[m]].Transfer? && entries[r[m]].id == id) by {
        if rest.Some? {
          var k :| 0 <= k < |r[1..]| && r[1..][k] == rest.value &&
            forall m :: 0 <= m < k ==> !(entries[r[1..][m]].Transfer? && entries[r[1..][m]].id == id);
          assert r[k + 1] == rest.value;
          forall m | 0 <= m < k + 1 ensures !(entries[r[m]].Transfer? && entries[r[m]].id == id) {
            if m > 0 { assert r[m] == r[1..][m - 1]; }
          }
        }
      }
      rest
  }

  /** The transfer `acceptTransfer` and `getTransferStatus` act on. */
  function LookupTransfer(entries: seq<Entry>, accounts: Accounts, order: seq<string>, id: Id, t: int): (found: Option<nat>)
    requires forall a :: a in order ==> a in accounts
    requires AccountsInRange(entries, accounts)
    ensures found.Some? ==> found.value < |entries| && entries[found.value].Transfer? && entries[found.value].id == id
  {
    FindTransfer(entries, AllVisible(entries, accounts, order, t), id)
  }

  /** `getTransferStatus(id, t)`: null when no transfer with that id is visible at `t`. */
  function TransferStatus(entries: seq<Entry>, accounts: Accounts, order: seq<string>, id: Id, t: int): (r: Option<Status>)
    requires forall a :: a in order ==> a in accounts
    requires AccountsInRange(entries, accounts)
    ensures r != Some(Rejected)
  {
    match LookupTransfer(entries, accounts, order, id, t)
    case Some(i) => Some(StatusAt(entries[i], t))
    case None => None
  }

  /** In a consistent store the lookup finds exactly the transfer carrying
      `id` whose timestamp is at most `t`, wherever it sits in the account lists. */
  lemma LookupTransferFinds(entries: seq<Entry>, accounts: Accounts, order: seq<string>,
                            transactions: nat, transfers: nat, scheduled: nat, id: Id, t: int)
    requires Consistent(entries, accounts, order, transactions, transfers, scheduled)
    ensures forall i :: 0 <= i < |entries| ==>
      (LookupTransfer(entries, accounts, order, id, t) == Some(i) <==>
         entries[i].Transfer? && entries[i].id == id && entries[i].timestamp <= t)
    ensures id.kind != TransferKind ==> LookupTransfer(entries, accounts, order, id, t).None?
  {
    FlattenContents(order, accounts);
    var vis := AllVisible(entries, accounts, order, t);
    forall i | 0 <= i < |entries| && entries[i].Transfer? && entries[i].id == id && entries[i].timestamp <= t
      ensures LookupTransfer(entries, accounts, order, id, t) == Some(i)
    {
      assert i in accounts[entries[i].recipient];
      assert i in vis;
    }
  }

  /** Every entry whose timestamp is at most `t` is visited by `getAllTransactions(t)`. */
  lemma AllVisibleContains(entries: seq<Entry>, accounts: Accounts, order: seq<string>,
                           transactions: nat, transfers: nat, scheduled: nat, t: int)
    requires Consistent(entries, accounts, order, transactions, transfers, scheduled)
    ensures forall i :: 0 <= i < |entries| && entries[i].timestamp <= t ==> i in AllVisible(entries, accounts, order, t)
  {
    FlattenContents(order, accounts);
    forall i | 0 <= i < |entries| && entries[i].timestamp <= t ensures i in AllVisible(entries, accounts, order, t) {
      assert i in accounts[entries[i].recipient];
    }
  }
}
