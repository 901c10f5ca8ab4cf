/**
 * The month table's re-ordering: its key column becomes an ordered
 * categorical over the twelve month names, and the table is sorted by that
 * column, so the months follow the calendar rather than the alphabet.
 */
module MonthTable {
  import opened Wrappers
  import opened Calendar
  import opened GroupBy

  /** A month name as an ordered category; any other string becomes null. */
  function AsCategory(name: string): (c: Option<string>)
    ensures c == Some(name) <==> name in MonthOrder
    ensures c == None <==> name !in MonthOrder
  {
    var code := MonthCode(name);
    if code == -1 then None else Some(MonthOrder[code])
  }

  /** The table with its key column converted to the month categories. */
  function Categorize(t: Table<string>): Table<Option<string>>
  {
    seq(|t|, i requires 0 <= i < |t| => Entry(AsCategory(t[i].key), t[i].count))
  }

  /** The sort position of a category: its code, with null placed after December. */
  function Rank(k: Option<string>): nat
  {
    match k
    case None => 12
    case Some(name) => if MonthCode(name) == -1 then 12 else MonthCode(name)
  }

  /** A month name ranks at its category code; null and any other string rank last. */
  lemma RankCode(k: Option<string>)
    ensures Rank(k) <= 12
    ensures k.Some? && k.value in MonthOrder ==> Rank(k) == MonthCode(k.value) < 12
    ensures Rank(k) == 12 <==> k.None? || k.value !in MonthOrder
  {
  }

  /** Ranks ascending (ties allowed). */
  ghost predicate RankSorted<T>(s: seq<T>, rank: T -> nat)
  {
    forall i, j :: 0 <= i < j < |s| ==> rank(s[i]) <= rank(s[j])
  }

  /** Ranks strictly ascending. */
  ghost predicate StrictlyRankSorted<T>(s: seq<T>, rank: T -> nat)
  {
    forall i, j :: 0 <= i < j < |s| ==> rank(s[i]) < rank(s[j])
  }

  /** No two elements share a rank. */
  ghost predicate DistinctRanks<T>(s: seq<T>, rank: T -> nat)
  {
    forall i, j :: 0 <= i < j < |s| ==> rank(s[i]) != rank(s[j])
  }

  /** Every element ranks at least `lo`. */
  ghost predicate RankAtLeast<T>(lo: nat, s: seq<T>, rank: T -> nat)
  {
    forall i :: 0 <= i < |s| ==> lo <= rank(s[i])
  }

  /** Places `e` before the first element of `s` whose rank is not smaller. */
  function InsertByRank<T>(e: T, s: seq<T>, rank: T -> nat): (r: seq<T>)
    ensures multiset(r) == multiset(s) + multiset{e}
    ensures RankAtLeast(rank(e), s, rank) ==> r == [e] + s
  {
    if |s| == 0 then [e]
    else if rank(e) <= rank(s[0]) then [e] + s
    else
      assert s == [s[0]] + s[1..];
      [s[0]] + InsertByRank(e, s[1..], rank)
  }

  /** Insertion sort by rank: earlier elements stay first among equal ranks. */
  function SortByRank<T>(s: seq<T>, rank: T -> nat): (r: seq<T>)
    ensures multiset(r) == multiset(s)
  {
    if |s| == 0 then []
    else
      assert s == [s[0]] + s[1..];
      InsertByRank(s[0], SortByRank(s[1..], rank), rank)
  }

  lemma {:induction false} InsertByRankLowerBound<T>(lo: nat, e: T, s: seq<T>, rank: T -> nat)
    requires RankAtLeast(lo, s, rank) && lo <= rank(e)
    ensures RankAtLeast(lo, InsertByRank(e, s, rank), rank)
  {
    if |s| > 0 && rank(e) > rank(s[0]) {
      InsertByRankLowerBound(lo, e, s[1..], rank);
      var rest := InsertByRank(e, s[1..], rank);
      assert InsertByRank(e, s, rank) == [s[0]] + rest;
    }
  }

  lemma {:induction false} InsertByRankSorted<T>(e: T, s: seq<T>, rank: T -> nat)
    requires RankSorted(s, rank)
    ensures RankSorted(InsertByRank(e, s, rank), rank)
  {
    if |s| > 0 && rank(e) > rank(s[0]) {
      InsertByRankSorted(e, s[1..], rank);
      InsertByRankLowerBound(rank(s[0]), e, s[1..], rank);
      var rest := InsertByRank(e, s[1..], rank);
      assert InsertByRank(e, s, rank) == [s[0]] + rest;
    }
  }

  /** The sort is a permutation and leaves the ranks ascending. */
  lemma {:induction false} SortByRankSorted<T>(s: seq<T>, rank: T -> nat)
    ensures multiset(SortByRank(s, rank)) == multiset(s)
    ensures RankSorted(SortByRank(s, rank), rank)
  {
    if |s| > 0 {
      SortByRankSorted(s[1..], rank);
      InsertByRankSorted(s[0], SortByRank(s[1..], rank), rank);
    }
  }

  /** Putting an element ranked below everything in front keeps ranks strictly ascending. */
  lemma StrictPrepend<T>(x: T, s: seq<T>, rank: T -> nat)
    requires StrictlyRankSorted(s, rank) && RankAtLeast(rank(x) + 1, s, rank)
    ensures StrictlyRankSorted([x] + s, rank)
  {
    var r := [x] + s;
    forall i, j | 0 <= i < j < |r| ensures rank(r[i]) < rank(r[j]) {
      assert r[j] == s[j - 1];
      if i > 0 {
        assert r[i] == s[i - 1];
      }
    }
  }

  /** The tail of a strictly rank-sorted sequence is strictly sorted and ranks above its head. */
  lemma StrictTail<T>(s: seq<T>, rank: T -> nat)
    requires StrictlyRankSorted(s, rank) && |s| > 0
    ensures StrictlyRankSorted(s[1..], rank) && RankAtLeast(rank(s[0]) + 1, s[1..], rank)
  {
    var tail := s[1..];
    forall i, j | 0 <= i < j < |tail| ensures rank(tail[i]) < rank(tail[j]) {
      assert tail[i] == s[i + 1] && tail[j] == s[j + 1];
    }
    forall i | 0 <= i < |tail| ensures rank(s[0]) + 1 <= rank(tail[i]) {
      assert tail[i] == s[i + 1];
    }
  }

  lemma {:induction false} InsertByRankStrict<T>(e: T, s: seq<T>, rank: T -> nat)
    requires StrictlyRankSorted(s, rank)
    requires forall i :: 0 <= i < |s| ==> rank(s[i]) != rank(e)
    ensures StrictlyRankSorted(InsertByRank(e, s, rank), rank)
  {
    if |s| == 0 {
    } else if rank(e) <= rank(s[0]) {
      StrictTail(s, rank);
      assert RankAtLeast(rank(e) + 1, s, rank) by {
        forall i | 0 <= i < |s| ensures rank(e) + 1 <= rank(s[i]) {
          if i > 0 {
            assert s[i] == s[1..][i - 1];
          }
        }
      }
      assert InsertByRank(e, s, rank) == [e] + s;
      StrictPrepend(e, s, rank);
    } else {
      var tail := s[1..];
      StrictTail(s, rank);
      assert forall i :: 0 <= i < |tail| ==> rank(tail[i]) != rank(e) by {
        forall i | 0 <= i < |tail| ensures rank(tail[i]) != rank(e) {
          assert tail[i] == s[i + 1];
        }
      }
      InsertByRankStrict(e, tail, rank);
      InsertByRankLowerBound(rank(s[0]) + 1, e, tail, rank);
      assert InsertByRank(e, s, rank) == [s[0]] + InsertByRank(e, tail, rank);
      StrictPrepend(s[0], InsertByRank(e, tail, rank), rank);
    }
  }

  /** A sequence whose elements have pairwise distinct ranks comes out with strictly ascending ranks. */
  lemma {:induction false} SortByRankStrict<T>(s: seq<T>, rank: T -> nat)
    requires DistinctRanks(s, rank)
    ensures StrictlyRankSorted(SortByRank(s, rank), rank)
  {
    if |s| > 0 {
      var tail := s[1..];
      assert DistinctRanks(tail, rank) by {
        forall i, j | 0 <= i < j < |tail| ensures rank(tail[i]) != rank(tail[j]) {
          assert tail[i] == s[i + 1] && tail[j] == s[j + 1];
        }
      }
      SortByRankStrict(tail, rank);
      var sorted := SortByRank(tail, rank);
      forall k | 0 <= k < |sorted| ensures rank(sorted[k]) != rank(s[0]) {
        var x := sorted[k];
        assert x in multiset(tail);
        var j :| 0 <= j < |tail| && tail[j] == x;
        assert s[j + 1] == x;
      }
      InsertByRankStrict(s[0], sorted, rank);
    }
  }

  /** The rank of a row of the month table. */
  function RowRank(e: Entry<Option<string>>): nat
  {
    Rank(e.key)
  }

  /** `sort_values('mes')` on the categorical month column. */
  function SortByMonth(t: Table<Option<string>>): (r: Table<Option<string>>)
    ensures multiset(r) == multiset(t)
  {
    SortByRank(t, RowRank)
  }

  /**
   * The sorted month table holds the same rows, in ascending category code,
   * with nulls and strings outside the categories last.
   */
  lemma SortByMonthSorted(t: Table<Option<string>>)
    ensures multiset(SortByMonth(t)) == multiset(t)
    ensures RankSorted(SortByMonth(t), RowRank)
  {
    SortByRankSorted(t, RowRank);
  }

  lemma {:induction false} InsertByRankTotal(e: Entry<Option<string>>, s: Table<Option<string>>)
    ensures Total(InsertByRank(e, s, RowRank)) == Total(s) + e.count
  {
    if |s| > 0 && RowRank(e) > RowRank(s[0]) {
      var rest := InsertByRank(e, s[1..], RowRank);
      InsertByRankTotal(e, s[1..]);
      assert InsertByRank(e, s, RowRank)[1..] == rest;
    } else {
      assert InsertByRank(e, s, RowRank)[1..] == s;
    }
  }

  /** Sorting the month table leaves the sum of its counts unchanged. */
  lemma {:induction false} SortByMonthTotal(t: Table<Option<string>>)
    ensures Total(SortByMonth(t)) == Total(t)
  {
    if |t| > 0 {
      SortByMonthTotal(t[1..]);
      InsertByRankTotal(t[0], SortByRank(t[1..], RowRank));
    }
  }

  /** Categorizing a table of month names wraps every key and keeps every count. */
  lemma CategorizeMonths(t: Table<string>)
    requires forall i :: 0 <= i < |t| ==> MonthCode(t[i].key) >= 0
    ensures forall i :: 0 <= i < |t| ==> Categorize(t)[i] == Entry(Some(t[i].key), t[i].count)
  {
  }

  /** Sorting keeps exactly the rows it was given. */
  lemma SortByMonthMembers(t: Table<Option<string>>)
    ensures forall x :: x in SortByMonth(t) <==> x in t
  {
    var r := SortByMonth(t);
    forall x ensures x in r <==> x in t {
      assert x in r <==> x in multiset(r);
      assert x in t <==> x in multiset(t);
    }
  }

  /** A row of the sorted month table is an input row, `j`, with its key categorized. */
  lemma SortedRowOrigin(t: Table<string>, x: Entry<Option<string>>) returns (j: int)
    requires x in SortByMonth(Categorize(t))
    ensures 0 <= j < |t| && x == Entry(AsCategory(t[j].key), t[j].count)
  {
    var cat := Categorize(t);
    assert x in multiset(SortByMonth(cat));
    assert x in multiset(cat);
    j :| 0 <= j < |cat| && cat[j] == x;
  }

  /** A row keyed by a month name keeps its name and its count when categorized. */
  lemma CategorizedRow(e: Entry<string>, x: Entry<Option<string>>)
    requires MonthCode(e.key) >= 0 && x == Entry(AsCategory(e.key), e.count)
    ensures x.key == Some(e.key) && x.count == e.count && e.key in MonthOrder
  {
  }

  /** Categorizing distinct month names gives rows of pairwise distinct rank. */
  lemma CategorizeDistinct(t: Table<string>)
    requires forall i :: 0 <= i < |t| ==> MonthCode(t[i].key) >= 0
    requires forall i, j :: 0 <= i < j < |t| ==> t[i].key != t[j].key
    ensures DistinctRanks(Categorize(t), RowRank)
  {
    var cat := Categorize(t);
    CategorizeMonths(t);
    forall i, j | 0 <= i < j < |cat| ensures RowRank(cat[i]) != RowRank(cat[j]) {
      assert RowRank(cat[i]) == MonthCode(t[i].key);
      assert RowRank(cat[j]) == MonthCode(t[j].key);
      assert MonthOrder[MonthCode(t[i].key)] == t[i].key;
      assert MonthOrder[MonthCode(t[j].key)] == t[j].key;
    }
  }

  /** The sorted month-name rows are exactly the input rows, wrapped as categories. */
  lemma SortMonthNamesRows(t: Table<string>)
    requires forall i :: 0 <= i < |t| ==> MonthCode(t[i].key) >= 0
    ensures forall x :: x in SortByMonth(Categorize(t)) ==> x.key.Some? && Entry(x.key.value, x.count) in t
    ensures forall i :: 0 <= i < |t| ==> Entry(Some(t[i].key), t[i].count) in SortByMonth(Categorize(t))
  {
    var cat := Categorize(t);
    var r := SortByMonth(cat);
    CategorizeMonths(t);
    SortByMonthMembers(cat);
    forall x | x in r ensures x.key.Some? && Entry(x.key.value, x.count) in t {
      var j :| 0 <= j < |cat| && cat[j] == x;
      assert t[j] == Entry(x.key.value, x.count);
    }
    forall i | 0 <= i < |t| ensures Entry(Some(t[i].key), t[i].count) in r {
      assert cat[i] in cat;
    }
  }

  /** The sorted month-name rows follow the calendar strictly. */
  lemma SortMonthNamesOrder(t: Table<string>)
    requires forall i :: 0 <= i < |t| ==> MonthCode(t[i].key) >= 0
    requires forall i, j :: 0 <= i < j < |t| ==> t[i].key != t[j].key
    ensures forall x :: x in SortByMonth(Categorize(t)) ==> x.key.Some? && MonthCode(x.key.value) >= 0
    ensures forall i, j :: 0 <= i < j < |SortByMonth(Categorize(t))| ==>
      MonthCode(SortByMonth(Categorize(t))[i].key.value) < MonthCode(SortByMonth(Categorize(t))[j].key.value)
  {
    var cat := Categorize(t);
    var r := SortByMonth(cat);
    CategorizeMonths(t);
    CategorizeDistinct(t);
    SortByRankStrict(cat, RowRank);
    SortByMonthMembers(cat);
    forall x | x in r ensures x.key.Some? && MonthCode(x.key.value) >= 0 {
      var j :| 0 <= j < |cat| && cat[j] == x;
    }
    forall i, j | 0 <= i < j < |r| ensures MonthCode(r[i].key.value) < MonthCode(r[j].key.value) {
      assert r[i] in r && r[j] in r;
      MonthNameRank(r[i]);
      MonthNameRank(r[j]);
    }
  }

  /**
   * Sorting a table of distinct month names by category: the result holds the
   * same rows, in strictly ascending calendar order, with the same total.
   */
  lemma SortMonthNames(t: Table<string>)
    requires forall i :: 0 <= i < |t| ==> MonthCode(t[i].key) >= 0
    requires forall i, j :: 0 <= i < j < |t| ==> t[i].key != t[j].key
    ensures forall x :: x in SortByMonth(Categorize(t)) ==> x.key.Some? && Entry(x.key.value, x.count) in t
    ensures forall i :: 0 <= i < |t| ==> Entry(Some(t[i].key), t[i].count) in SortByMonth(Categorize(t))
    ensures forall i, j :: 0 <= i < j < |SortByMonth(Categorize(t))| ==>
      MonthCode(SortByMonth(Categorize(t))[i].key.value) < MonthCode(SortByMonth(Categorize(t))[j].key.value)
    ensures Total(SortByMonth(Categorize(t))) == Total(t)
  {
    SortMonthNamesRows(t);
    SortMonthNamesOrder(t);
    CategorizeTotal(t);
    SortByMonthTotal(Categorize(t));
  }

  /** A row keyed by a month name ranks at its category code. */
  lemma MonthNameRank(e: Entry<Option<string>>)
    requires e.key.Some? && MonthCode(e.key.value) >= 0
    ensures RowRank(e) == MonthCode(e.key.value)
  {
  }

  lemma {:induction false} CategorizeTotal(t: Table<string>)
    ensures Total(Categorize(t)) == Total(t)
  {
    if |t| > 0 {
      assert Categorize(t)[1..] == Categorize(t[1..]);
      CategorizeTotal(t[1..]);
    }
  }

}
