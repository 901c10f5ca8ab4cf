/**
 * `df.groupby(key).size().reset_index(name='quantidade')`: a table with one
 * row per distinct non-null key, in ascending key order, holding how many
 * input rows carry that key. Rows whose key is null are dropped (pandas'
 * default `dropna=True`), and the keys are sorted (`sort=True`).
 *
 * The grouped column is given as a sequence of nullable cells; the order on
 * keys is a parameter.
 */
module GroupBy {
  import opened Wrappers
  import opened Orders

  /** One row of a group-by size table: a key and its `quantidade`. */
  datatype Entry<K> = Entry(key: K, count: nat)

  type Table<K> = seq<Entry<K>>

  /** Number of cells of `col` holding the key `k`. */
  function Occurrences<K(==)>(col: seq<Option<K>>, k: K): nat
  {
    multiset(col)[Some(k)]
  }

  /** Number of non-null cells of `col`. */
  function NonNull<K>(col: seq<Option<K>>): nat
  {
    if |col| == 0 then 0
    else NonNull(col[..|col| - 1]) + (if col[|col| - 1].Some? then 1 else 0)
  }

  lemma {:induction false} NonNullConcat<K>(a: seq<Option<K>>, b: seq<Option<K>>)
    ensures NonNull(a + b) == NonNull(a) + NonNull(b)
  {
    if |b| == 0 {
      assert a + b == a;
    } else {
      var b' := b[..|b| - 1];
      assert (a + b)[..|a + b| - 1] == a + b';
      assert (a + b)[|a + b| - 1] == b[|b| - 1];
      NonNullConcat(a, b');
    }
  }

  /** The sum of the `quantidade` column. */
  function Total<K>(t: Table<K>): nat
  {
    if |t| == 0 then 0 else t[0].count + Total(t[1..])
  }

  /** The keys of a table. */
  function Keys<K>(t: Table<K>): set<K>
  {
    if |t| == 0 then {} else {t[0].key} + Keys(t[1..])
  }

  /** The count a table gives `k`, 0 when `k` has no row. */
  function CountOf<K(==)>(t: Table<K>, k: K): nat
  {
    if |t| == 0 then 0
    else if t[0].key == k then t[0].count
    else CountOf(t[1..], k)
  }

  /** Keys strictly ascending, hence also pairwise distinct. */
  ghost predicate StrictlySorted<K>(t: Table<K>, lt: (K, K) -> bool)
  {
    forall i, j :: 0 <= i < j < |t| ==> lt(t[i].key, t[j].key)
  }

  /** Every row of the table has a positive count. */
  ghost predicate Positive<K>(t: Table<K>)
  {
    forall i :: 0 <= i < |t| ==> t[i].count > 0
  }

  /** Every key of `t` is above `lo`. */
  ghost predicate Above<K>(lo: K, t: Table<K>, lt: (K, K) -> bool)
  {
    forall i :: 0 <= i < |t| ==> lt(lo, t[i].key)
  }

  /** Adds one row with key `k` to a table kept in ascending key order. */
  function Insert<K(==)>(t: Table<K>, k: K, lt: (K, K) -> bool): (r: Table<K>)
    ensures Keys(r) == Keys(t) + {k}
    ensures Total(r) == Total(t) + 1
    ensures Positive(t) ==> Positive(r)
    ensures |t| <= |r| <= |t| + 1
  {
    if |t| == 0 then [Entry(k, 1)]
    else if t[0].key == k then
      assert ([Entry(k, t[0].count + 1)] + t[1..])[1..] == t[1..];
      [Entry(k, t[0].count + 1)] + t[1..]
    else if lt(k, t[0].key) then
      assert ([Entry(k, 1)] + t)[1..] == t;
      [Entry(k, 1)] + t
    else
      var rest := Insert(t[1..], k, lt);
      assert ([t[0]] + rest)[1..] == rest;
      [t[0]] + rest
  }

  /** The group-by size table of the column `col`, keys ordered by `lt`. */
  function CountBy<K(==,!new)>(col: seq<Option<K>>, lt: (K, K) -> bool): (r: Table<K>)
    ensures Total(r) == NonNull(col)
    ensures Positive(r)
    ensures |r| <= |col|
  {
    if |col| == 0 then []
    else
      var prefix := col[..|col| - 1];
      assert col == prefix + [col[|col| - 1]];
      var t := CountBy(prefix, lt);
      match col[|col| - 1]
      case None => t
      case Some(k) => Insert(t, k, lt)
  }

  /** The keys of the group-by table are exactly the values of the non-null cells. */
  lemma {:induction false} CountByKeys<K(!new)>(col: seq<Option<K>>, lt: (K, K) -> bool)
    ensures forall k :: k in Keys(CountBy(col, lt)) <==> Some(k) in col
  {
    if |col| > 0 {
      var prefix := col[..|col| - 1];
      assert col == prefix + [col[|col| - 1]];
      CountByKeys(prefix, lt);
    }
  }

  lemma {:induction false} CountOfAbsent<K>(t: Table<K>, k: K)
    requires k !in Keys(t)
    ensures CountOf(t, k) == 0
  {
    if |t| > 0 {
      CountOfAbsent(t[1..], k);
    }
  }

  lemma {:induction false} KeysAbove<K(!new)>(lo: K, t: Table<K>, lt: (K, K) -> bool)
    requires StrictTotalOrder(lt) && Above(lo, t, lt)
    ensures lo !in Keys(t)
  {
    if |t| > 0 {
      KeysAbove(lo, t[1..], lt);
    }
  }

  lemma {:induction false} InsertAbove<K(!new)>(lo: K, t: Table<K>, k: K, lt: (K, K) -> bool)
    requires Above(lo, t, lt) && lt(lo, k)
    ensures Above(lo, Insert(t, k, lt), lt)
  {
    if |t| > 0 && t[0].key != k && !lt(k, t[0].key) {
      InsertAbove(lo, t[1..], k, lt);
    }
  }

  /** Inserting into a sorted table keeps it sorted and adds one to `k`'s count only. */
  lemma {:induction false} InsertCorrect<K(!new)>(t: Table<K>, k: K, lt: (K, K) -> bool)
    requires StrictTotalOrder(lt) && StrictlySorted(t, lt)
    ensures StrictlySorted(Insert(t, k, lt), lt)
    ensures forall x :: CountOf(Insert(t, k, lt), x) == CountOf(t, x) + (if x == k then 1 else 0)
  {
    var r := Insert(t, k, lt);
    if |t| == 0 {
    } else if t[0].key == k {
      assert r[1..] == t[1..];
    } else if lt(k, t[0].key) {
      assert Above(k, t, lt);
      KeysAbove(k, t, lt);
      CountOfAbsent(t, k);
      assert r[1..] == t;
    } else {
      assert lt(t[0].key, k);
      var rest := Insert(t[1..], k, lt);
      InsertCorrect(t[1..], k, lt);
      assert Above(t[0].key, t[1..], lt);
      InsertAbove(t[0].key, t[1..], k, lt);
      assert r == [t[0]] + rest;
      assert r[1..] == rest;
    }
  }

  /**
   * With a strict total order on keys, the group-by table is sorted, its keys
   * are distinct, and the count it gives every key is the number of cells
   * holding that key.
   */
  lemma {:induction false} CountByCorrect<K(!new)>(col: seq<Option<K>>, lt: (K, K) -> bool)
    requires StrictTotalOrder(lt)
    ensures StrictlySorted(CountBy(col, lt), lt)
    ensures forall k :: CountOf(CountBy(col, lt), k) == Occurrences(col, k)
  {
    if |col| > 0 {
      var prefix := col[..|col| - 1];
      assert col == prefix + [col[|col| - 1]];
      CountByCorrect(prefix, lt);
      match col[|col| - 1]
      case None =>
      case Some(k) => InsertCorrect(CountBy(prefix, lt), k, lt);
    }
  }

  /** In a table with distinct keys, `CountOf` reads the row of that key. */
  lemma {:induction false} CountOfRow<K(!new)>(t: Table<K>, lt: (K, K) -> bool, i: int)
    requires StrictTotalOrder(lt) && StrictlySorted(t, lt) && 0 <= i < |t|
    ensures CountOf(t, t[i].key) == t[i].count
  {
    if i > 0 {
      assert t[0].key != t[i].key;
      CountOfRow(t[1..], lt, i - 1);
    }
  }

  /** Membership in `Keys` is membership of some row. */
  lemma {:induction false} KeysRows<K>(t: Table<K>, k: K)
    ensures k in Keys(t) <==> exists i :: 0 <= i < |t| && t[i].key == k
  {
    if |t| > 0 {
      KeysRows(t[1..], k);
      if k in Keys(t[1..]) {
        var i :| 0 <= i < |t[1..]| && t[1..][i].key == k;
        assert t[i + 1].key == k;
      }
      if exists i :: 0 <= i < |t| && t[i].key == k {
        var i :| 0 <= i < |t| && t[i].key == k;
        if i > 0 {
          assert t[1..][i - 1].key == k;
        }
      }
    }
  }

  /**
   * Every row of the group-by table counts exactly the cells holding its key,
   * and every non-null cell value has a row.
   */
  lemma CountByRows<K(!new)>(col: seq<Option<K>>, lt: (K, K) -> bool)
    requires StrictTotalOrder(lt)
    ensures forall i :: 0 <= i < |CountBy(col, lt)| ==>
      CountBy(col, lt)[i].count == Occurrences(col, CountBy(col, lt)[i].key) > 0
    ensures forall k :: Some(k) in col ==>
      exists i :: 0 <= i < |CountBy(col, lt)| && CountBy(col, lt)[i] == Entry(k, Occurrences(col, k))
  {
    var t := CountBy(col, lt);
    CountByCorrect(col, lt);
    CountByKeys(col, lt);
    forall i | 0 <= i < |t|
      ensures t[i].count == Occurrences(col, t[i].key) > 0
    {
      CountOfRow(t, lt, i);
    }
    forall k | Some(k) in col
      ensures exists i :: 0 <= i < |t| && t[i] == Entry(k, Occurrences(col, k))
    {
      KeysRows(t, k);
      var i :| 0 <= i < |t| && t[i].key == k;
      CountOfRow(t, lt, i);
    }
  }

  /** The value of every non-null cell has its row in the group-by table. */
  lemma CountByCell<K(!new)>(col: seq<Option<K>>, lt: (K, K) -> bool, i: int)
    requires StrictTotalOrder(lt) && 0 <= i < |col| && col[i].Some?
    ensures Entry(col[i].value, Occurrences(col, col[i].value)) in CountBy(col, lt)
  {
    CountByRows(col, lt);
    assert Some(col[i].value) in col;
  }

  /** A column with no non-null cell gives the empty table, and only such a column does. */
  lemma CountByEmpty<K(!new)>(col: seq<Option<K>>, lt: (K, K) -> bool)
    ensures CountBy(col, lt) == [] <==> forall i :: 0 <= i < |col| ==> col[i].None?
  {
    var t := CountBy(col, lt);
    CountByKeys(col, lt);
    if t != [] {
      assert t[0].key in Keys(t);
    }
    if exists i :: 0 <= i < |col| && col[i].Some? {
      var i :| 0 <= i < |col| && col[i].Some?;
      assert Some(col[i].value) in col;
      assert col[i].value in Keys(t);
    }
  }

  /** A column whose every cell holds `k` gives the single row `k` counting all cells. */
  lemma {:induction false} CountByConstant<K(!new)>(col: seq<Option<K>>, lt: (K, K) -> bool, k: K)
    requires |col| > 0 && forall i :: 0 <= i < |col| ==> col[i] == Some(k)
    ensures CountBy(col, lt) == [Entry(k, |col|)]
  {
    var prefix := col[..|col| - 1];
    if |prefix| > 0 {
      assert forall i :: 0 <= i < |prefix| ==> prefix[i] == col[i];
      CountByConstant(prefix, lt, k);
    }
  }

  /** Two rows of a strictly sorted table have different keys. */
  lemma SortedDistinct<K(!new)>(t: Table<K>, lt: (K, K) -> bool, i: int, j: int)
    requires StrictTotalOrder(lt) && StrictlySorted(t, lt) && 0 <= i < j < |t|
    ensures t[i].key != t[j].key
  {
  }

}
