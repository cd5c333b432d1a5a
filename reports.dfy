/** The read side of the transaction log: the `date` index, the monthly
    summary and the recent-activity feed. */
module Reports {
  import opened Records

  // ---------------------------------------------------------------------------
  // The `date` index of the `transactions` store

  /** Index order: by date, and records with equal dates by primary key, as an
      IndexedDB index orders duplicate keys. */
  predicate IndexLe(a: Txn, b: Txn) {
    a.date < b.date || (a.date == b.date && a.id <= b.id)
  }

  predicate IndexSorted(s: seq<Txn>) {
    forall i, j :: 0 <= i < j < |s| ==> IndexLe(s[i], s[j])
  }

  /** A record no later than the first of a sorted sequence can go in front. */
  lemma PrependSorted(x: Txn, s: seq<Txn>)
    requires IndexSorted(s) && (s == [] || IndexLe(x, s[0]))
    ensures IndexSorted([x] + s)
  {
    var r := [x] + s;
    forall i, j | 0 <= i < j < |r| ensures IndexLe(r[i], r[j]) {
      if i == 0 && j > 1 {
        assert IndexLe(s[0], s[j - 1]);
      }
    }
  }

  /** `t` placed into the sorted sequence `s` at its index position. */
  function InsertByDate(t: Txn, s: seq<Txn>): (r: seq<Txn>)
    requires IndexSorted(s)
    ensures multiset(r) == multiset(s) + multiset{t}
    ensures IndexSorted(r)
  {
    if s == [] then [t]
    else if IndexLe(t, s[0]) then PrependSorted(t, s); [t] + s
    else
      var rest := InsertByDate(t, s[1..]);
      KeepHead(t, s, rest);
      [s[0]] + rest
  }

  /** When `t` goes after the head of `s`, the head stays in front of the
      rest with `t` inserted. */
  lemma KeepHead(t: Txn, s: seq<Txn>, rest: seq<Txn>)
    requires s != [] && IndexSorted(s) && !IndexLe(t, s[0])
    requires IndexSorted(rest) && multiset(rest) == multiset(s[1..]) + multiset{t}
    ensures multiset([s[0]] + rest) == multiset(s) + multiset{t}
    ensures IndexSorted([s[0]] + rest)
  {
    forall x | x in rest ensures IndexLe(s[0], x) {
      assert x in multiset(rest);
      if x != t { assert x in multiset(s[1..]); }
    }
    assert s == [s[0]] + s[1..];
    PrependSorted(s[0], rest);
  }

  /** The records of the log in index order. */
  function DateIndex(log: seq<Txn>): (r: seq<Txn>)
    ensures multiset(r) == multiset(log)
    ensures IndexSorted(r)
    decreases |log|
  {
    if log == [] then []
    else
      assert log == log[..|log| - 1] + [log[|log| - 1]];
      InsertByDate(log[|log| - 1], DateIndex(log[..|log| - 1]))
  }

  // ---------------------------------------------------------------------------
  // Recent activity: a reverse cursor over the date index, stopped at `limit`

  /** The first `n` records met by a cursor walking `index` backwards. */
  function Backwards(index: seq<Txn>, n: nat): (r: seq<Txn>)
    requires n <= |index|
    ensures |r| == n && forall k :: 0 <= k < n ==> r[k] == index[|index| - 1 - k]
  {
    seq(n, k requires 0 <= k < n => index[|index| - 1 - k])
  }

  /** Walking a sorted index backwards meets the newest records first, and
      every record it has not reached yet is no newer than those it has. */
  lemma BackwardsNewestFirst(index: seq<Txn>, n: nat)
    requires IndexSorted(index) && n <= |index|
    ensures forall j, k :: 0 <= j < k < n ==> IndexLe(Backwards(index, n)[k], Backwards(index, n)[j])
    ensures forall p, k :: 0 <= p < |index| - n && 0 <= k < n ==> IndexLe(index[p], Backwards(index, n)[k])
  {
  }

  /** One step further, a backwards walk meets the next older record. */
  lemma BackwardsOneMore(index: seq<Txn>, n: nat)
    requires 0 < n <= |index|
    ensures Backwards(index, n) == Backwards(index, n - 1) + [index[|index| - n]]
  {
  }

  /** The records from `m` on are the one at `m` followed by those after it. */
  lemma TailFrom(s: seq<Txn>, m: nat)
    requires m < |s|
    ensures s[m..] == [s[m]] + s[m + 1..]
  {
  }

  /** Adding the same record to both of two sequences with equal contents,
      at the end of one and at the front of the other, keeps them equal. */
  lemma MultisetsGrow(a: seq<Txn>, b: seq<Txn>, x: Txn)
    requires multiset(a) == multiset(b)
    ensures multiset(a + [x]) == multiset([x] + b)
  {
  }

  /** A backwards walk over `n` records meets each of the last `n` index
      entries exactly once. */
  lemma {:induction false} BackwardsIsTail(index: seq<Txn>, n: nat)
    requires n <= |index|
    ensures multiset(Backwards(index, n)) == multiset(index[|index| - n..])
    decreases n
  {
    if n > 0 {
      BackwardsIsTail(index, n - 1);
      var m := |index| - n;
      BackwardsOneMore(index, n);
      TailFrom(index, m);
      assert |index| - (n - 1) == m + 1;
      MultisetsGrow(Backwards(index, n - 1), index[m + 1..], index[m]);
    } else {
      assert Backwards(index, n) == [] == index[|index|..];
    }
  }

  /** Walking the index of `log` backwards meets only records of the log, and
      every record of the log it has not met is no newer than those it has. */
  lemma BackwardsCoversLog(log: seq<Txn>, n: nat)
    requires n <= |log|
    ensures |DateIndex(log)| == |log|
    ensures forall k :: 0 <= k < n ==> Backwards(DateIndex(log), n)[k] in log
    ensures multiset(Backwards(DateIndex(log), n)) <= multiset(log)
    ensures forall t, k :: t in log && t !in Backwards(DateIndex(log), n) && 0 <= k < n ==>
      IndexLe(t, Backwards(DateIndex(log), n)[k])
  {
    var index := DateIndex(log);
    assert |multiset(index)| == |multiset(log)|;
    var r := Backwards(index, n);
    BackwardsNewestFirst(index, n);
    BackwardsIsTail(index, n);
    assert index == index[..|index| - n] + index[|index| - n..];
    forall k | 0 <= k < n ensures r[k] in log {
      assert r[k] in multiset(index);
    }
    forall p | |index| - n <= p < |index| ensures index[p] in r {
      assert r[|index| - 1 - p] == index[p];
    }
    forall t, k | t in log && t !in r && 0 <= k < n ensures IndexLe(t, r[k]) {
      assert t in multiset(index);
      var p :| 0 <= p < |index| && index[p] == t;
    }
  }

  /** The `limit` most recent records, newest first, as the reverse cursor of
      `getRecentActivity` yields them. */
  function Latest(log: seq<Txn>, limit: int): (r: seq<Txn>)
    ensures |r| == if limit <= 0 then 0 else if limit < |log| then limit else |log|
    ensures forall j, k :: 0 <= j < k < |r| ==> IndexLe(r[k], r[j])
    ensures forall k :: 0 <= k < |r| ==> r[k] in log
    ensures multiset(r) <= multiset(log)
    ensures forall t, k :: t in log && t !in r && 0 <= k < |r| ==> IndexLe(t, r[k])
  {
    var n := if limit <= 0 then 0 else if limit < |log| then limit else |log|;
    BackwardsCoversLog(log, n);
    BackwardsNewestFirst(DateIndex(log), n);
    Backwards(DateIndex(log), n)
  }

  // ---------------------------------------------------------------------------
  // The monthly report: a range over the index and its summary

  /** The records whose date lies in the inclusive range [lo, hi], in order. */
  function InRange(s: seq<Txn>, lo: int, hi: int): (r: seq<Txn>)
    ensures forall k :: 0 <= k < |r| ==> lo <= r[k].date <= hi
    decreases |s|
  {
    if s == [] then []
    else
      var t := s[|s| - 1];
      InRange(s[..|s| - 1], lo, hi) + (if lo <= t.date <= hi then [t] else [])
  }

  /** The sum of the quantities of the records whose action is `a`. */
  function Sum(s: seq<Txn>, a: Action): (r: int)
    ensures (forall k :: 0 <= k < |s| ==> s[k].action != a) ==> r == 0
    ensures (forall k :: 0 <= k < |s| ==> s[k].quantity >= 0) ==> r >= 0
    decreases |s|
  {
    if s == [] then 0
    else Sum(s[..|s| - 1], a) + (if s[|s| - 1].action == a then s[|s| - 1].quantity else 0)
  }

  /** Summing one more record of a sequence adds its quantity to the total
      of its own action only. */
  lemma SumStep(s: seq<Txn>, i: int)
    requires 0 <= i < |s|
    ensures forall a :: Sum(s[..i + 1], a) == Sum(s[..i], a) + (if s[i].action == a then s[i].quantity else 0)
  {
    assert s[..i + 1][..i] == s[..i];
  }

  datatype Summary = Summary(totalIssued: int, totalReturned: int, netChange: int)

  datatype Report = Report(summary: Summary, transactions: seq<Txn>)

  /** A range keeps exactly the copies of the in-range records. */
  lemma {:induction false} InRangeCount(s: seq<Txn>, lo: int, hi: int, x: Txn)
    ensures multiset(InRange(s, lo, hi))[x] == if lo <= x.date <= hi then multiset(s)[x] else 0
    decreases |s|
  {
    if s != [] {
      var init, t := s[..|s| - 1], s[|s| - 1];
      InRangeCount(init, lo, hi, x);
      SplitLast(s);
      CountAppended(init, t, true, x);
      CountAppended(InRange(init, lo, hi), t, lo <= t.date <= hi, x);
    }
  }

  /** A non-empty sequence is its front followed by its last element. */
  lemma SplitLast(s: seq<Txn>)
    requires s != []
    ensures s == s[..|s| - 1] + [s[|s| - 1]]
  {
  }

  /** Appending `t` (or nothing) adds one copy of `t` (or none). */
  lemma CountAppended(u: seq<Txn>, t: Txn, add: bool, x: Txn)
    ensures multiset(u + (if add then [t] else []))[x] == multiset(u)[x] + (if add && x == t then 1 else 0)
  {
    if !add {
      assert u + [] == u;
    }
  }

  /** A range holds only in-range records, and all of them. */
  lemma InRangeMembers(s: seq<Txn>, lo: int, hi: int, x: Txn)
    ensures x in InRange(s, lo, hi) <==> x in s && lo <= x.date <= hi
  {
    InRangeCount(s, lo, hi, x);
    assert x in InRange(s, lo, hi) <==> x in multiset(InRange(s, lo, hi));
    assert x in s <==> x in multiset(s);
  }

  /** Ranges of two orderings of the same records hold the same records. */
  lemma InRangePermutation(s: seq<Txn>, u: seq<Txn>, lo: int, hi: int)
    requires multiset(s) == multiset(u)
    ensures multiset(InRange(s, lo, hi)) == multiset(InRange(u, lo, hi))
  {
    forall x ensures multiset(InRange(s, lo, hi))[x] == multiset(InRange(u, lo, hi))[x] {
      InRangeCount(s, lo, hi, x);
      InRangeCount(u, lo, hi, x);
    }
  }

  lemma {:induction false} SumAppend(s: seq<Txn>, u: seq<Txn>, a: Action)
    ensures Sum(s + u, a) == Sum(s, a) + Sum(u, a)
    decreases |u|
  {
    if u != [] {
      var init := u[..|u| - 1];
      SumAppend(s, init, a);
      var last := u[|u| - 1];
      assert (s + u)[..|s + u| - 1] == s + init;
      assert (s + u)[|s + u| - 1] == last;
      assert Sum(u, a) == Sum(init, a) + (if last.action == a then last.quantity else 0);
      assert Sum(s + u, a) == Sum(s + init, a) + (if last.action == a then last.quantity else 0);
    } else {
      assert s + u == s;
    }
  }

  /** Taking record `j` out of `u` takes its quantity off its action's total. */
  lemma SumRemove(u: seq<Txn>, j: int, a: Action)
    requires 0 <= j < |u|
    ensures Sum(u, a) == Sum(u[..j] + u[j + 1..], a) + (if u[j].action == a then u[j].quantity else 0)
  {
    assert u == u[..j] + [u[j]] + u[j + 1..];
    SumAppend(u[..j], [u[j]], a);
    SumAppend(u[..j] + [u[j]], u[j + 1..], a);
    SumAppend(u[..j], u[j + 1..], a);
  }

  /** Taking the same record out of two orderings of the same records leaves
      two orderings of the same records. */
  lemma RemoveMatching(s: seq<Txn>, u: seq<Txn>, j: int)
    requires s != [] && multiset(s) == multiset(u) && 0 <= j < |u| && u[j] == s[|s| - 1]
    ensures multiset(s[..|s| - 1]) == multiset(u[..j] + u[j + 1..])
  {
    var t := s[|s| - 1];
    assert s == s[..|s| - 1] + [t];
    assert u == u[..j] + [t] + u[j + 1..];
    assert multiset(u) == multiset(u[..j]) + multiset{t} + multiset(u[j + 1..]);
    assert multiset(s) == multiset(s[..|s| - 1]) + multiset{t};
    assert multiset(s[..|s| - 1]) == multiset(s) - multiset{t};
    assert multiset(u[..j]) + multiset(u[j + 1..]) == multiset(u) - multiset{t};
    assert multiset(u[..j] + u[j + 1..]) == multiset(u[..j]) + multiset(u[j + 1..]);
  }

  /** The totals do not depend on the order of the records. */
  lemma {:induction false} SumPermutation(s: seq<Txn>, u: seq<Txn>, a: Action)
    requires multiset(s) == multiset(u)
    ensures Sum(s, a) == Sum(u, a)
    decreases |s|
  {
    if s != [] {
      var t := s[|s| - 1];
      assert t in multiset(u);
      var j :| 0 <= j < |u| && u[j] == t;
      RemoveMatching(s, u, j);
      SumPermutation(s[..|s| - 1], u[..j] + u[j + 1..], a);
      SumRemove(u, j, a);
    }
  }

  /** The report's totals are those of the log's in-range records in any
      order: reading them through the date index changes nothing. */
  lemma ReportIgnoresOrder(log: seq<Txn>, lo: int, hi: int, a: Action)
    ensures Sum(InRange(DateIndex(log), lo, hi), a) == Sum(InRange(log, lo, hi), a)
  {
    InRangePermutation(DateIndex(log), log, lo, hi);
    SumPermutation(InRange(DateIndex(log), lo, hi), InRange(log, lo, hi), a);
  }
}
