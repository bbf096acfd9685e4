/** `getTopAccountsByTransactionVolume`: every known account with its volume
    at `t`, sorted by volume descending and then by account id ascending,
    cut to the first `n`. */
module Ranking {
  import opened Entries
  import opened Ledger

  /** Strict lexicographic order on strings, by character code: no string
      precedes itself. */
  predicate StrLt(a: string, b: string)
    ensures StrLt(a, b) ==> a != b
  {
    if a == [] then b != []
    else if b == [] then false
    else a[0] < b[0] || (a[0] == b[0] && StrLt(a[1..], b[1..]))
  }

  lemma {:induction false} StrLtTransitive(a: string, b: string, c: string)
    requires StrLt(a, b) && StrLt(b, c)
    ensures StrLt(a, c)
  {
    if a != [] && b != [] && c != [] && a[0] == b[0] && b[0] == c[0] {
      StrLtTransitive(a[1..], b[1..], c[1..]);
    }
  }

  /** Two different strings are always ordered one way or the other. */
  lemma {:induction false} StrLtTotal(a: string, b: string)
    requires a != b
    ensures StrLt(a, b) || StrLt(b, a)
  {
    if a != [] && b != [] && a[0] == b[0] {
      assert a == [a[0]] + a[1..] && b == [b[0]] + b[1..];
      StrLtTotal(a[1..], b[1..]);
    }
  }

  /** An account together with its volume at the query time. */
  datatype Ranked = Ranked(accountId: string, volume: int)

  /** The comparator: the higher volume first; on equal volume, the smaller
      id first. No pair ranks before itself. */
  predicate RanksBefore(x: Ranked, y: Ranked)
    ensures RanksBefore(x, y) ==> x != y
  {
    x.volume > y.volume || (x.volume == y.volume && StrLt(x.accountId, y.accountId))
  }

  lemma RanksBeforeTransitive(x: Ranked, y: Ranked, z: Ranked)
    requires RanksBefore(x, y) && RanksBefore(y, z)
    ensures RanksBefore(x, z)
  {
    if x.volume == y.volume && y.volume == z.volume {
      StrLtTransitive(x.accountId, y.accountId, z.accountId);
    }
  }

  lemma RanksBeforeTotal(x: Ranked, y: Ranked)
    requires x.accountId != y.accountId
    ensures RanksBefore(x, y) || RanksBefore(y, x)
  {
    StrLtTotal(x.accountId, y.accountId);
  }

  predicate Ranking(r: seq<Ranked>)
  {
    forall i, j :: 0 <= i < j < |r| ==> RanksBefore(r[i], r[j])
  }

  predicate DistinctIds(s: seq<Ranked>)
  {
    forall i, j :: 0 <= i < j < |s| ==> s[i].accountId != s[j].accountId
  }

  function InsertRanked(x: Ranked, r: seq<Ranked>): (r': seq<Ranked>)
    ensures multiset(r') == multiset(r) + multiset{x}
    ensures forall k :: 0 <= k < |r'| ==> r'[k] == x || r'[k] in r
  {
    if r == [] then [x]
    else if RanksBefore(x, r[0]) then [x] + r
    else
      assert r == [r[0]] + r[1..];
      [r[0]] + InsertRanked(x, r[1..])
  }

  /** The sort the comparator drives, as an insertion sort. */
  function SortRanked(s: seq<Ranked>): (r: seq<Ranked>)
    ensures multiset(r) == multiset(s)
  {
    if s == [] then []
    else
      assert s == s[..|s| - 1] + [s[|s| - 1]];
      InsertRanked(s[|s| - 1], SortRanked(s[..|s| - 1]))
  }

  /** The tail of a ranking is a ranking, and its head ranks before all of it. */
  lemma RankingTail(r: seq<Ranked>)
    requires Ranking(r) && r != []
    ensures Ranking(r[1..])
    ensures forall k :: 0 <= k < |r[1..]| ==> RanksBefore(r[0], r[1..][k])
  {
    forall i, j | 0 <= i < j < |r[1..]| ensures RanksBefore(r[1..][i], r[1..][j]) {
      assert r[1..][i] == r[i + 1] && r[1..][j] == r[j + 1];
    }
  }

  /** Prepending a pair that ranks before every pair keeps a ranking. */
  lemma RankingCons(x: Ranked, r: seq<Ranked>)
    requires Ranking(r)
    requires forall k :: 0 <= k < |r| ==> RanksBefore(x, r[k])
    ensures Ranking([x] + r)
  {
    var r' := [x] + r;
    forall i, j | 0 <= i < j < |r'| ensures RanksBefore(r'[i], r'[j]) {
      assert r'[j] == r[j - 1];
      if i > 0 {
        assert r'[i] == r[i - 1];
      }
    }
  }

  lemma {:induction false} InsertRankedSorted(x: Ranked, r: seq<Ranked>)
    requires Ranking(r)
    requires forall y :: y in r ==> y.accountId != x.accountId
    ensures Ranking(InsertRanked(x, r))
  {
    if r == [] {
    } else if RanksBefore(x, r[0]) {
      RankingTail(r);
      forall k | 0 <= k < |r| ensures RanksBefore(x, r[k]) {
        if k > 0 {
          assert r[k] == r[1..][k - 1];
          RanksBeforeTransitive(x, r[0], r[k]);
        }
      }
      RankingCons(x, r);
    } else {
      assert r[0] in r;
      RanksBeforeTotal(x, r[0]);
      RankingTail(r);
      assert forall y :: y in r[1..] ==> y in r;
      InsertRankedSorted(x, r[1..]);
      var rest := InsertRanked(x, r[1..]);
      forall k | 0 <= k < |rest| ensures RanksBefore(r[0], rest[k]) {
        var y := rest[k];
        if y != x {
          var m :| 0 <= m < |r[1..]| && r[1..][m] == y;
        }
      }
      RankingCons(r[0], rest);
    }
  }

  /** With distinct account ids the comparator is a strict total order, so
      the sort produces the one ranking of its input. */
  lemma {:induction false} SortRankedSorted(s: seq<Ranked>)
    requires DistinctIds(s)
    ensures Ranking(SortRanked(s))
  {
    if s != [] {
      var init := s[..|s| - 1];
      var x := s[|s| - 1];
      assert DistinctIds(init);
      SortRankedSorted(init);
      forall y | y in SortRanked(init) ensures y.accountId != x.accountId {
        assert y in multiset(SortRanked(init));
        var k :| 0 <= k < |init| && init[k] == y;
      }
      InsertRankedSorted(x, SortRanked(init));
    }
  }

  /** `getTransactionVolume(a, t) ?? 0`. */
  function VolumeOrZero(entries: seq<Entry>, accounts: Accounts, a: string, t: int): int
    requires AccountsInRange(entries, accounts)
  {
    match Volume(entries, accounts, a, t)
    case Some(v) => v
    case None => 0
  }

  /** `getAllAccounts().map(accountId => ({ accountId, volume }))`. */
  function Volumes(entries: seq<Entry>, accounts: Accounts, order: seq<string>, t: int): (r: seq<Ranked>)
    requires AccountsInRange(entries, accounts)
    ensures |r| == |order|
    ensures forall k :: 0 <= k < |order| ==> r[k] == Ranked(order[k], VolumeOrZero(entries, accounts, order[k], t))
  {
    seq(|order|, k requires 0 <= k < |order| => Ranked(order[k], VolumeOrZero(entries, accounts, order[k], t)))
  }

  function IdsOfRanked(r: seq<Ranked>): (ids: seq<string>)
    ensures |ids| == |r| && forall k :: 0 <= k < |r| ==> ids[k] == r[k].accountId
  {
    seq(|r|, k requires 0 <= k < |r| => r[k].accountId)
  }

  /** `getTopAccountsByTransactionVolume(n, t)`. */
  function TopAccounts(entries: seq<Entry>, accounts: Accounts, order: seq<string>, n: int, t: int): (r: seq<string>)
    requires AccountsInRange(entries, accounts)
    ensures |r| == if n < 0 then 0 else if n < |order| then n else |order|
  {
    if n < 0 then []
    else
      var sorted := SortRanked(Volumes(entries, accounts, order, t));
      assert |sorted| == |multiset(sorted)| == |order|;
      IdsOfRanked(sorted[..if n < |sorted| then n else |sorted|])
  }

  /** The ranked pair of an account. */
  function RankOf(entries: seq<Entry>, accounts: Accounts, a: string, t: int): Ranked
    requires AccountsInRange(entries, accounts)
  {
    Ranked(a, VolumeOrZero(entries, accounts, a, t))
  }

  /** The sorted list holds exactly one ranked pair per known account. */
  lemma SortedVolumes(entries: seq<Entry>, accounts: Accounts, order: seq<string>, t: int)
    requires AccountsInRange(entries, accounts)
    ensures var sorted := SortRanked(Volumes(entries, accounts, order, t));
      && |sorted| == |order|
      && (forall k :: 0 <= k < |sorted| ==>
            sorted[k].accountId in order && sorted[k] == RankOf(entries, accounts, sorted[k].accountId, t))
      && (forall a :: a in order ==> exists p :: 0 <= p < |sorted| && sorted[p] == RankOf(entries, accounts, a, t))
  {
    var vols := Volumes(entries, accounts, order, t);
    var sorted := SortRanked(vols);
    assert |sorted| == |vols| by {
      assert |multiset(sorted)| == |multiset(vols)|;
    }
    forall k | 0 <= k < |sorted|
      ensures sorted[k].accountId in order && sorted[k] == RankOf(entries, accounts, sorted[k].accountId, t)
    {
      assert sorted[k] in multiset(vols);
      var q :| 0 <= q < |vols| && vols[q] == sorted[k];
    }
    forall a | a in order ensures exists p :: 0 <= p < |sorted| && sorted[p] == RankOf(entries, accounts, a, t) {
      var q :| 0 <= q < |order| && order[q] == a;
      assert vols[q] in multiset(sorted);
      var p :| 0 <= p < |sorted| && sorted[p] == vols[q];
    }
  }

  /** The top-`n` list: empty for negative `n`; otherwise `min(n, #accounts)`
      known accounts, in ranking order, and every account left out ranks
      after every account listed. */
  lemma TopAccountsSpec(entries: seq<Entry>, accounts: Accounts, order: seq<string>, n: int, t: int)
    requires AccountsInRange(entries, accounts)
    requires forall i, j :: 0 <= i < j < |order| ==> order[i] != order[j]
    ensures n < 0 ==> TopAccounts(entries, accounts, order, n, t) == []
    ensures n >= 0 ==> |TopAccounts(entries, accounts, order, n, t)| == if n < |order| then n else |order|
    ensures forall a :: a in TopAccounts(entries, accounts, order, n, t) ==> a in order
    ensures var r := TopAccounts(entries, accounts, order, n, t);
      forall i, j :: 0 <= i < j < |r| ==>
        RanksBefore(RankOf(entries, accounts, r[i], t), RankOf(entries, accounts, r[j], t))
    ensures var r := TopAccounts(entries, accounts, order, n, t);
      forall a, k :: a in order && a !in r && 0 <= k < |r| ==>
        RanksBefore(RankOf(entries, accounts, r[k], t), RankOf(entries, accounts, a, t))
  {
    if n >= 0 {
      var r := TopAccounts(entries, accounts, order, n, t);
      var vols := Volumes(entries, accounts, order, t);
      var sorted := SortRanked(vols);
      var m := if n < |sorted| then n else |sorted|;
      assert DistinctIds(vols);
      SortRankedSorted(vols);
      SortedVolumes(entries, accounts, order, t);
      assert r == IdsOfRanked(sorted[..m]);
      assert |r| == m;
      forall k | 0 <= k < m ensures r[k] == sorted[k].accountId && sorted[k] == RankOf(entries, accounts, r[k], t) {
        assert sorted[..m][k] == sorted[k];
      }
      forall a, k | a in order && a !in r && 0 <= k < |r|
        ensures RanksBefore(RankOf(entries, accounts, r[k], t), RankOf(entries, accounts, a, t))
      {
        var p :| 0 <= p < |sorted| && sorted[p] == RankOf(entries, accounts, a, t);
        assert forall q :: 0 <= q < m ==> r[q] in r;
        assert p >= m;
        assert RanksBefore(sorted[k], sorted[p]);
      }
    }
  }
}
