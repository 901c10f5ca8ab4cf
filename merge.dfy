/**
 * The resource-usage tables: each usage-link frame is left-merged with its
 * catalog on `foreign key == id`, and the merged frame is grouped by one of the
 * catalog's columns (`tipo_equipamento`, `tipo_material`, `nome`).
 *
 * Only the grouped column of the merged frame is modelled: one cell per
 * merged row, in the order pandas produces them (link rows in order, each
 * followed by its matches in catalog order).
 */
module Merge {
  import opened Wrappers
  import opened Orders
  import opened GroupBy

  /** A catalog row: its `id` and the label column the usage table groups on. */
  datatype CatalogRow = CatalogRow(id: Option<int>, name: Option<string>)

  /** A usage-link row: its foreign key into the catalog. */
  datatype LinkRow = LinkRow(fk: Option<int>)

  /**
   * The labels of the catalog rows whose id equals `fk`, in catalog order.
   * Ids compare as cells: a null foreign key meets a null id, as pandas'
   * merge pairs NaN keys with NaN keys.
   */
  function MatchedLabels(catalog: seq<CatalogRow>, fk: Option<int>): seq<Option<string>>
  {
    if |catalog| == 0 then []
    else (if catalog[0].id == fk then [catalog[0].name] else []) + MatchedLabels(catalog[1..], fk)
  }

  /** The merged rows one link row gives: one per match, or a single row with a null label. */
  function JoinRow(catalog: seq<CatalogRow>, link: LinkRow): seq<Option<string>>
  {
    var m := MatchedLabels(catalog, link.fk);
    if |m| == 0 then [None] else m
  }

  /** The label column of `links.merge(catalog, left_on=fk, right_on='id', how='left')`. */
  function LeftJoin(links: seq<LinkRow>, catalog: seq<CatalogRow>): seq<Option<string>>
  {
    if |links| == 0 then []
    else LeftJoin(links[..|links| - 1], catalog) + JoinRow(catalog, links[|links| - 1])
  }

  /** The usage table: the merged frame grouped by the catalog label. */
  function UsageCount(links: seq<LinkRow>, catalog: seq<CatalogRow>): Table<string>
  {
    CountBy(LeftJoin(links, catalog), StringLess)
  }

  /** Number of catalog rows with id `fk`. */
  function Matches(catalog: seq<CatalogRow>, fk: Option<int>): nat
  {
    if |catalog| == 0 then 0
    else (if catalog[0].id == fk then 1 else 0) + Matches(catalog[1..], fk)
  }

  /** Number of catalog rows with id `fk` and a non-null label. */
  function LabelledMatches(catalog: seq<CatalogRow>, fk: Option<int>): nat
  {
    if |catalog| == 0 then 0
    else (if catalog[0].id == fk && catalog[0].name.Some? then 1 else 0) + LabelledMatches(catalog[1..], fk)
  }

  /** Number of catalog rows with id `fk` and label `t`. */
  function MatchCount(catalog: seq<CatalogRow>, fk: Option<int>, t: string): nat
  {
    if |catalog| == 0 then 0
    else (if catalog[0].id == fk && catalog[0].name == Some(t) then 1 else 0) + MatchCount(catalog[1..], fk, t)
  }

  /** Over all link rows, the number of catalog rows each one matches with label `t`. */
  function Hits(links: seq<LinkRow>, catalog: seq<CatalogRow>, t: string): nat
  {
    if |links| == 0 then 0
    else Hits(links[..|links| - 1], catalog, t) + MatchCount(catalog, links[|links| - 1].fk, t)
  }

  /** Over all link rows, the number of labelled catalog rows each one matches. */
  function Resolved(links: seq<LinkRow>, catalog: seq<CatalogRow>): nat
  {
    if |links| == 0 then 0
    else Resolved(links[..|links| - 1], catalog) + LabelledMatches(catalog, links[|links| - 1].fk)
  }

  /** Over all link rows, the number of merged rows each one gives: its matches, or one. */
  function MergedRows(links: seq<LinkRow>, catalog: seq<CatalogRow>): nat
  {
    if |links| == 0 then 0
    else
      var m := Matches(catalog, links[|links| - 1].fk);
      MergedRows(links[..|links| - 1], catalog) + (if m == 0 then 1 else m)
  }

  /** Some catalog row has id `fk` and a non-null label. */
  ghost predicate Resolves(catalog: seq<CatalogRow>, fk: Option<int>)
  {
    exists i :: 0 <= i < |catalog| && catalog[i].id == fk && catalog[i].name.Some?
  }

  /** No two catalog rows share an id. */
  ghost predicate UniqueIds(catalog: seq<CatalogRow>)
  {
    forall i, j :: 0 <= i < j < |catalog| ==> catalog[i].id != catalog[j].id
  }

  /** The matched labels: one per matching row, holding `t` once per row labelled `t`. */
  lemma {:induction false} MatchedLabelsCounts(catalog: seq<CatalogRow>, fk: Option<int>)
    ensures |MatchedLabels(catalog, fk)| == Matches(catalog, fk)
    ensures NonNull(MatchedLabels(catalog, fk)) == LabelledMatches(catalog, fk)
    ensures forall t :: Occurrences(MatchedLabels(catalog, fk), t) == MatchCount(catalog, fk, t)
  {
    if |catalog| > 0 {
      var head: seq<Option<string>> := if catalog[0].id == fk then [catalog[0].name] else [];
      MatchedLabelsCounts(catalog[1..], fk);
      NonNullConcat(head, MatchedLabels(catalog[1..], fk));
      assert NonNull(head) == (if catalog[0].id == fk && catalog[0].name.Some? then 1 else 0) by {
        if catalog[0].id == fk {
          assert head[..0] == [];
        }
      }
    }
  }

  /** One link row adds `t` to the merged column once per catalog row it matches with label `t`. */
  lemma JoinRowCounts(catalog: seq<CatalogRow>, link: LinkRow)
    ensures |JoinRow(catalog, link)| == (if Matches(catalog, link.fk) == 0 then 1 else Matches(catalog, link.fk))
    ensures NonNull(JoinRow(catalog, link)) == LabelledMatches(catalog, link.fk)
    ensures forall t :: Occurrences(JoinRow(catalog, link), t) == MatchCount(catalog, link.fk, t)
  {
    MatchedLabelsCounts(catalog, link.fk);
    if Matches(catalog, link.fk) == 0 {
      var nulls: seq<Option<string>> := [None];
      assert nulls[..0] == [];
    }
  }

  /** The merged frame has, per link row, one row per match, and one row when nothing matches. */
  lemma {:induction false} LeftJoinRows(links: seq<LinkRow>, catalog: seq<CatalogRow>)
    ensures |LeftJoin(links, catalog)| == MergedRows(links, catalog)
    ensures |LeftJoin(links, catalog)| >= |links|
  {
    if |links| > 0 {
      LeftJoinRows(links[..|links| - 1], catalog);
      JoinRowCounts(catalog, links[|links| - 1]);
    }
  }

  /** The merged column holds `t` exactly `Hits` times and has `Resolved` non-null cells. */
  lemma {:induction false} LeftJoinCounts(links: seq<LinkRow>, catalog: seq<CatalogRow>)
    ensures forall t :: Occurrences(LeftJoin(links, catalog), t) == Hits(links, catalog, t)
    ensures NonNull(LeftJoin(links, catalog)) == Resolved(links, catalog)
  {
    if |links| > 0 {
      var prefix := links[..|links| - 1];
      var last := links[|links| - 1];
      LeftJoinCounts(prefix, catalog);
      JoinRowCounts(catalog, last);
      NonNullConcat(LeftJoin(prefix, catalog), JoinRow(catalog, last));
    }
  }

  /**
   * Each bucket of the usage table counts, over all link rows, the catalog
   * rows the link row matches that carry the bucket's label.
   */
  lemma UsageBucket(links: seq<LinkRow>, catalog: seq<CatalogRow>, t: string)
    ensures CountOf(UsageCount(links, catalog), t) == Hits(links, catalog, t)
  {
    StringLessIsStrictTotalOrder();
    CountByCorrect(LeftJoin(links, catalog), StringLess);
    LeftJoinCounts(links, catalog);
  }

  /**
   * One more link row adds, to each bucket `t`, the number of catalog rows its
   * foreign key matches that are labelled `t`; a bucket whose label it matches
   * nowhere stays as it was.
   */
  lemma UsageAppend(links: seq<LinkRow>, link: LinkRow, catalog: seq<CatalogRow>, t: string)
    ensures CountOf(UsageCount(links + [link], catalog), t)
         == CountOf(UsageCount(links, catalog), t) + MatchCount(catalog, link.fk, t)
  {
    UsageBucket(links + [link], catalog, t);
    UsageBucket(links, catalog, t);
    assert (links + [link])[..|links|] == links;
  }

  /** A link row whose foreign key matches no catalog row leaves the usage table unchanged. */
  lemma UnknownKey(links: seq<LinkRow>, link: LinkRow, catalog: seq<CatalogRow>)
    requires Matches(catalog, link.fk) == 0
    ensures UsageCount(links + [link], catalog) == UsageCount(links, catalog)
  {
    MatchedLabelsCounts(catalog, link.fk);
    var col := LeftJoin(links, catalog);
    assert (links + [link])[..|links|] == links;
    assert LeftJoin(links + [link], catalog) == col + [None];
    assert (col + [None])[..|col|] == col;
  }

  /** The usage total is the number of labelled catalog rows matched, summed over link rows. */
  lemma UsageTotal(links: seq<LinkRow>, catalog: seq<CatalogRow>)
    ensures Total(UsageCount(links, catalog)) == Resolved(links, catalog)
  {
    LeftJoinCounts(links, catalog);
  }

  lemma {:induction false} NoMatches(catalog: seq<CatalogRow>, fk: Option<int>)
    requires forall i :: 0 <= i < |catalog| ==> catalog[i].id != fk
    ensures Matches(catalog, fk) == 0 && LabelledMatches(catalog, fk) == 0
  {
    if |catalog| > 0 {
      NoMatches(catalog[1..], fk);
    }
  }

  /** With unique ids a foreign key matches at most one row, and one labelled row exactly when it resolves. */
  lemma {:induction false} UniqueMatch(catalog: seq<CatalogRow>, fk: Option<int>)
    requires UniqueIds(catalog)
    ensures Matches(catalog, fk) <= 1
    ensures LabelledMatches(catalog, fk) == (if Resolves(catalog, fk) then 1 else 0)
  {
    if |catalog| > 0 {
      var tail := catalog[1..];
      assert UniqueIds(tail) by {
        forall i, j | 0 <= i < j < |tail| ensures tail[i].id != tail[j].id {
          assert tail[i] == catalog[i + 1] && tail[j] == catalog[j + 1];
        }
      }
      UniqueMatch(tail, fk);
      if catalog[0].id == fk {
        assert forall i :: 0 <= i < |tail| ==> tail[i].id != fk by {
          forall i | 0 <= i < |tail| ensures tail[i].id != fk {
            assert tail[i] == catalog[i + 1];
          }
        }
        NoMatches(tail, fk);
      }
      if Resolves(tail, fk) {
        var i :| 0 <= i < |tail| && tail[i].id == fk && tail[i].name.Some?;
        assert catalog[i + 1] == tail[i];
      }
      if Resolves(catalog, fk) && !(catalog[0].id == fk && catalog[0].name.Some?) {
        var i :| 0 <= i < |catalog| && catalog[i].id == fk && catalog[i].name.Some?;
        assert tail[i - 1] == catalog[i];
      }
    }
  }

  /**
   * With unique catalog ids the usage total is at most the number of link
   * rows, and equals it exactly when every foreign key resolves to a
   * labelled catalog row.
   */
  lemma {:induction false} UsageTotalBound(links: seq<LinkRow>, catalog: seq<CatalogRow>)
    requires UniqueIds(catalog)
    ensures Total(UsageCount(links, catalog)) <= |links|
    ensures Total(UsageCount(links, catalog)) == |links| <==>
      forall i :: 0 <= i < |links| ==> Resolves(catalog, links[i].fk)
  {
    UsageTotal(links, catalog);
    ResolvedBound(links, catalog);
  }

  lemma {:induction false} ResolvedBound(links: seq<LinkRow>, catalog: seq<CatalogRow>)
    requires UniqueIds(catalog)
    ensures Resolved(links, catalog) <= |links|
    ensures Resolved(links, catalog) == |links| <==>
      forall i :: 0 <= i < |links| ==> Resolves(catalog, links[i].fk)
  {
    if |links| > 0 {
      var prefix := links[..|links| - 1];
      ResolvedBound(prefix, catalog);
      UniqueMatch(catalog, links[|links| - 1].fk);
      if forall i :: 0 <= i < |links| ==> Resolves(catalog, links[i].fk) {
        assert forall i :: 0 <= i < |prefix| ==> Resolves(catalog, prefix[i].fk) by {
          forall i | 0 <= i < |prefix| ensures Resolves(catalog, prefix[i].fk) {
            assert prefix[i] == links[i];
          }
        }
      }
      if Resolved(links, catalog) == |links| {
        forall i | 0 <= i < |links| ensures Resolves(catalog, links[i].fk) {
          if i < |prefix| {
            assert prefix[i] == links[i];
          }
        }
      }
    }
  }

  /**
   * When every link row points at the same catalog row, a row whose id no
   * other catalog row shares and whose label is `t`, the usage table is the
   * single bucket `t` with one count per link row.
   */
  lemma SingleEntity(links: seq<LinkRow>, catalog: seq<CatalogRow>, k: int)
    requires |links| > 0
    requires 0 <= k < |catalog| && catalog[k].name.Some? && UniqueId(catalog, k)
    requires forall i :: 0 <= i < |links| ==> links[i].fk == catalog[k].id
    ensures UsageCount(links, catalog) == [Entry(catalog[k].name.value, |links|)]
  {
    var t := catalog[k].name.value;
    var fk := catalog[k].id;
    MatchCountOfUnique(catalog, k);
    SingleLabel(links, catalog, fk, t);
    CountByConstant(LeftJoin(links, catalog), StringLess, t);
  }

  /** No catalog row other than row `k` has row `k`'s id. */
  ghost predicate UniqueId(catalog: seq<CatalogRow>, k: int)
    requires 0 <= k < |catalog|
  {
    forall i :: 0 <= i < |catalog| && i != k ==> catalog[i].id != catalog[k].id
  }

  /** A catalog row whose id no other row shares is the only match of that id. */
  lemma {:induction false} MatchCountOfUnique(catalog: seq<CatalogRow>, k: int)
    requires 0 <= k < |catalog| && catalog[k].name.Some? && UniqueId(catalog, k)
    ensures Matches(catalog, catalog[k].id) == 1
    ensures MatchCount(catalog, catalog[k].id, catalog[k].name.value) == 1
  {
    var tail := catalog[1..];
    if k == 0 {
      forall i | 0 <= i < |tail| ensures tail[i].id != catalog[0].id {
        assert tail[i] == catalog[i + 1];
      }
      NoMatches(tail, catalog[0].id);
      NoMatchCount(tail, catalog[0].id, catalog[0].name.value);
    } else {
      assert tail[k - 1] == catalog[k];
      assert UniqueId(tail, k - 1) by {
        forall i | 0 <= i < |tail| && i != k - 1 ensures tail[i].id != tail[k - 1].id {
          assert tail[i] == catalog[i + 1];
        }
      }
      MatchCountOfUnique(tail, k - 1);
    }
  }

  lemma {:induction false} NoMatchCount(catalog: seq<CatalogRow>, fk: Option<int>, t: string)
    requires forall i :: 0 <= i < |catalog| ==> catalog[i].id != fk
    ensures MatchCount(catalog, fk, t) == 0
  {
    if |catalog| > 0 {
      NoMatchCount(catalog[1..], fk, t);
    }
  }

  /** A link row matching exactly one catalog row, labelled `t`, gives the single merged cell `t`. */
  lemma JoinRowSingle(catalog: seq<CatalogRow>, link: LinkRow, t: string)
    requires Matches(catalog, link.fk) == 1 && MatchCount(catalog, link.fk, t) == 1
    ensures JoinRow(catalog, link) == [Some(t)]
  {
    MatchedLabelsCounts(catalog, link.fk);
    var m := MatchedLabels(catalog, link.fk);
    assert m == [m[0]];
    assert multiset(m)[Some(t)] == 1;
  }

  /** When every link row matches exactly one row, labelled `t`, the merged column is `t` once per link row. */
  lemma {:induction false} SingleLabel(links: seq<LinkRow>, catalog: seq<CatalogRow>, fk: Option<int>, t: string)
    requires forall i :: 0 <= i < |links| ==> links[i].fk == fk
    requires Matches(catalog, fk) == 1 && MatchCount(catalog, fk, t) == 1
    ensures |LeftJoin(links, catalog)| == |links|
    ensures forall i :: 0 <= i < |links| ==> LeftJoin(links, catalog)[i] == Some(t)
  {
    if |links| > 0 {
      var prefix := links[..|links| - 1];
      assert forall i :: 0 <= i < |prefix| ==> prefix[i] == links[i];
      SingleLabel(prefix, catalog, fk, t);
      JoinRowSingle(catalog, links[|links| - 1], t);
      assert LeftJoin(links, catalog) == LeftJoin(prefix, catalog) + [Some(t)];
    }
  }

}
