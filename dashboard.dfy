/**
 * The aggregation step of the dashboard: the incident frame gains its derived
 * `mes` and `area` columns, and seven count tables are built from the
 * incident, usage-link and catalog frames.
 */
module Dashboard {
  import opened Wrappers
  import opened Orders
  import opened Calendar
  import opened GroupBy
  import opened MonthTable
  import opened Merge

  /** A cell of the `urbano_rural` column: a boolean, or any other value (NaN, text). */
  datatype RawFlag = Flag(value: bool) | NotBoolean

  /**
   * One row of the incident frame: its `data` once parsed (null for NaT), its
   * `municipio` and its `urbano_rural` cell.
   */
  datatype Incident = Incident(date: Option<Date>, municipality: Option<string>, ruralFlag: RawFlag)

  /** The frames the tables are built from. */
  datatype Sources = Sources(
    incidents: seq<Incident>,
    equipment: seq<CatalogRow>, equipmentUse: seq<LinkRow>,
    materials: seq<CatalogRow>, materialUse: seq<LinkRow>,
    vehicles: seq<CatalogRow>, vehicleUse: seq<LinkRow>)

  /** The seven tables the dashboard charts. */
  datatype Aggregates = Aggregates(
    byMonth: Table<Option<string>>,
    byDay: Table<Date>,
    byMunicipality: Table<string>,
    byArea: Table<string>,
    equipmentUse: Table<string>,
    materialUse: Table<string>,
    vehicleUse: Table<string>)

  /** The `area` label of a flag: `True` is "Rural", `False` is "Urbano", anything else null. */
  function AreaLabel(f: RawFlag): (r: Option<string>)
    ensures r == Some("Rural") <==> f == Flag(true)
    ensures r == Some("Urbano") <==> f == Flag(false)
    ensures r == None <==> f == NotBoolean
  {
    match f
    case Flag(b) => if b then Some("Rural") else Some("Urbano")
    case NotBoolean => None
  }

  /** The `mes` cell of a date: its English month name, null for NaT. */
  function MonthOf(date: Option<Date>): Option<string>
  {
    match date
    case None => None
    case Some(d) => Some(MonthName(d.month))
  }

  /** A date's `mes` cell names month `m` exactly when the date lies in month `m`. */
  lemma MonthOfIs(date: Option<Date>, m: MonthNumber)
    ensures MonthOf(date) == Some(MonthName(m)) <==> date.Some? && date.value.month == m
    ensures MonthOf(date).None? <==> date.None?
  {
    if date.Some? {
      MonthNameCode(m);
      MonthNameCode(date.value.month);
    }
  }

  /** The derived `mes` column. */
  function MonthColumn(rows: seq<Incident>): seq<Option<string>>
  {
    seq(|rows|, i requires 0 <= i < |rows| => MonthOf(rows[i].date))
  }

  /** The derived `area` column. */
  function AreaColumn(rows: seq<Incident>): seq<Option<string>>
  {
    seq(|rows|, i requires 0 <= i < |rows| => AreaLabel(rows[i].ruralFlag))
  }

  /** The `data.dt.date` column. */
  function DayColumn(rows: seq<Incident>): seq<Option<Date>>
  {
    seq(|rows|, i requires 0 <= i < |rows| => rows[i].date)
  }

  /** The `municipio` column. */
  function MunicipalityColumn(rows: seq<Incident>): seq<Option<string>>
  {
    seq(|rows|, i requires 0 <= i < |rows| => rows[i].municipality)
  }

  /** `ocorrencias_por_mes`, after its calendar-order sort. */
  function ByMonth(rows: seq<Incident>): Table<Option<string>>
  {
    SortByMonth(Categorize(CountBy(MonthColumn(rows), StringLess)))
  }

  /** `ocorrencias_por_dia`. */
  function ByDay(rows: seq<Incident>): Table<Date>
  {
    CountBy(DayColumn(rows), DateLess)
  }

  /** `ocorrencias_por_municipio`. */
  function ByMunicipality(rows: seq<Incident>): Table<string>
  {
    CountBy(MunicipalityColumn(rows), StringLess)
  }

  /** `ocorrencias_por_area`. */
  function ByArea(rows: seq<Incident>): Table<string>
  {
    CountBy(AreaColumn(rows), StringLess)
  }

  /** All seven tables. */
  function Aggregate(src: Sources): Aggregates
  {
    Aggregates(
      ByMonth(src.incidents),
      ByDay(src.incidents),
      ByMunicipality(src.incidents),
      ByArea(src.incidents),
      UsageCount(src.equipmentUse, src.equipment),
      UsageCount(src.materialUse, src.materials),
      UsageCount(src.vehicleUse, src.vehicles))
  }

  // Reference counts over the incident rows

  /** Number of incidents with a date. */
  function Dated(rows: seq<Incident>): nat
  {
    if |rows| == 0 then 0
    else Dated(rows[..|rows| - 1]) + (if rows[|rows| - 1].date.Some? then 1 else 0)
  }

  /** Number of incidents dated `d`. */
  function OnDay(rows: seq<Incident>, d: Date): nat
  {
    if |rows| == 0 then 0
    else OnDay(rows[..|rows| - 1], d) + (if rows[|rows| - 1].date == Some(d) then 1 else 0)
  }

  /** Number of incidents dated in month `m` of any year. */
  function InMonth(rows: seq<Incident>, m: MonthNumber): nat
  {
    if |rows| == 0 then 0
    else
      var date := rows[|rows| - 1].date;
      InMonth(rows[..|rows| - 1], m) + (if date.Some? && date.value.month == m then 1 else 0)
  }

  /** Number of incidents with a municipality. */
  function Located(rows: seq<Incident>): nat
  {
    if |rows| == 0 then 0
    else Located(rows[..|rows| - 1]) + (if rows[|rows| - 1].municipality.Some? then 1 else 0)
  }

  /** Number of incidents in municipality `name`. */
  function InMunicipality(rows: seq<Incident>, name: string): nat
  {
    if |rows| == 0 then 0
    else InMunicipality(rows[..|rows| - 1], name) + (if rows[|rows| - 1].municipality == Some(name) then 1 else 0)
  }

  /** Number of incidents whose `urbano_rural` flag is the boolean `b`. */
  function WithFlag(rows: seq<Incident>, b: bool): nat
  {
    if |rows| == 0 then 0
    else WithFlag(rows[..|rows| - 1], b) + (if rows[|rows| - 1].ruralFlag == Flag(b) then 1 else 0)
  }

  // Columns against the reference counts

  lemma {:induction false} MonthColumnCounts(rows: seq<Incident>)
    ensures NonNull(MonthColumn(rows)) == Dated(rows)
    ensures forall m: MonthNumber :: Occurrences(MonthColumn(rows), MonthName(m)) == InMonth(rows, m)
  {
    var col := MonthColumn(rows);
    if |rows| > 0 {
      var prefix := rows[..|rows| - 1];
      MonthColumnCounts(prefix);
      assert col == MonthColumn(prefix) + [col[|col| - 1]];
      assert col[..|col| - 1] == MonthColumn(prefix);
      forall m: MonthNumber
        ensures Occurrences(col, MonthName(m)) == InMonth(rows, m)
      {
        MonthOfIs(rows[|rows| - 1].date, m);
      }
    }
  }

  lemma {:induction false} DayColumnCounts(rows: seq<Incident>)
    ensures NonNull(DayColumn(rows)) == Dated(rows)
    ensures forall d :: Occurrences(DayColumn(rows), d) == OnDay(rows, d)
  {
    var col := DayColumn(rows);
    if |rows| > 0 {
      var prefix := rows[..|rows| - 1];
      DayColumnCounts(prefix);
      assert col == DayColumn(prefix) + [col[|col| - 1]];
      assert col[..|col| - 1] == DayColumn(prefix);
    }
  }

  lemma {:induction false} MunicipalityColumnCounts(rows: seq<Incident>)
    ensures NonNull(MunicipalityColumn(rows)) == Located(rows)
    ensures forall name :: Occurrences(MunicipalityColumn(rows), name) == InMunicipality(rows, name)
  {
    var col := MunicipalityColumn(rows);
    if |rows| > 0 {
      var prefix := rows[..|rows| - 1];
      MunicipalityColumnCounts(prefix);
      assert col == MunicipalityColumn(prefix) + [col[|col| - 1]];
      assert col[..|col| - 1] == MunicipalityColumn(prefix);
    }
  }

  lemma {:induction false} AreaColumnCounts(rows: seq<Incident>)
    ensures NonNull(AreaColumn(rows)) == WithFlag(rows, true) + WithFlag(rows, false)
    ensures Occurrences(AreaColumn(rows), "Rural") == WithFlag(rows, true)
    ensures Occurrences(AreaColumn(rows), "Urbano") == WithFlag(rows, false)
    ensures forall x :: x in AreaColumn(rows) ==> x == None || x == Some("Rural") || x == Some("Urbano")
  {
    var col := AreaColumn(rows);
    if |rows| > 0 {
      var prefix := rows[..|rows| - 1];
      AreaColumnCounts(prefix);
      assert col == AreaColumn(prefix) + [col[|col| - 1]];
      assert col[..|col| - 1] == AreaColumn(prefix);
    }
  }

  lemma {:induction false} AllDated(rows: seq<Incident>)
    requires forall i :: 0 <= i < |rows| ==> rows[i].date.Some?
    ensures Dated(rows) == |rows|
  {
    if |rows| > 0 {
      var prefix := rows[..|rows| - 1];
      assert forall i :: 0 <= i < |prefix| ==> prefix[i] == rows[i];
      AllDated(prefix);
    }
  }

  lemma {:induction false} AllLocated(rows: seq<Incident>)
    requires forall i :: 0 <= i < |rows| ==> rows[i].municipality.Some?
    ensures Located(rows) == |rows|
  {
    if |rows| > 0 {
      var prefix := rows[..|rows| - 1];
      assert forall i :: 0 <= i < |prefix| ==> prefix[i] == rows[i];
      AllLocated(prefix);
    }
  }

  lemma {:induction false} AllFlagged(rows: seq<Incident>)
    requires forall i :: 0 <= i < |rows| ==> rows[i].ruralFlag.Flag?
    ensures WithFlag(rows, true) + WithFlag(rows, false) == |rows|
  {
    if |rows| > 0 {
      var prefix := rows[..|rows| - 1];
      assert forall i :: 0 <= i < |prefix| ==> prefix[i] == rows[i];
      AllFlagged(prefix);
    }
  }

  // The tables

  /** Each row of the day table counts the incidents on its date. */
  lemma ByDayRows(rows: seq<Incident>)
    ensures forall i :: 0 <= i < |ByDay(rows)| ==>
      ByDay(rows)[i].count == OnDay(rows, ByDay(rows)[i].key) > 0
  {
    DateLessIsStrictTotalOrder();
    CountByRows(DayColumn(rows), DateLess);
    DayColumnCounts(rows);
  }

  /** Every incident's date has its row in the day table. */
  lemma ByDayComplete(rows: seq<Incident>)
    ensures forall i :: 0 <= i < |rows| && rows[i].date.Some? ==>
      Entry(rows[i].date.value, OnDay(rows, rows[i].date.value)) in ByDay(rows)
  {
    var col := DayColumn(rows);
    DateLessIsStrictTotalOrder();
    DayColumnCounts(rows);
    forall i | 0 <= i < |rows| && rows[i].date.Some?
      ensures Entry(rows[i].date.value, OnDay(rows, rows[i].date.value)) in ByDay(rows)
    {
      assert col[i] == rows[i].date;
      CountByCell(col, DateLess, i);
    }
  }

  /**
   * The day table lists the dates that occur, in chronological order, each
   * with the number of incidents on that date; its counts add up to the
   * number of dated incidents, which is every incident when none lacks a date.
   */
  lemma ByDayCorrect(rows: seq<Incident>)
    ensures StrictlySorted(ByDay(rows), DateLess)
    ensures forall i :: 0 <= i < |ByDay(rows)| ==>
      ByDay(rows)[i].count == OnDay(rows, ByDay(rows)[i].key) > 0
    ensures forall i :: 0 <= i < |rows| && rows[i].date.Some? ==>
      Entry(rows[i].date.value, OnDay(rows, rows[i].date.value)) in ByDay(rows)
    ensures Total(ByDay(rows)) == Dated(rows)
    ensures (forall i :: 0 <= i < |rows| ==> rows[i].date.Some?) ==> Total(ByDay(rows)) == |rows|
  {
    DateLessIsStrictTotalOrder();
    CountByCorrect(DayColumn(rows), DateLess);
    ByDayRows(rows);
    ByDayComplete(rows);
    DayColumnCounts(rows);
    if forall i :: 0 <= i < |rows| ==> rows[i].date.Some? {
      AllDated(rows);
    }
  }

  /** Each row of the municipality table counts the incidents in its municipality. */
  lemma ByMunicipalityRows(rows: seq<Incident>)
    ensures forall i :: 0 <= i < |ByMunicipality(rows)| ==>
      ByMunicipality(rows)[i].count == InMunicipality(rows, ByMunicipality(rows)[i].key) > 0
  {
    StringLessIsStrictTotalOrder();
    CountByRows(MunicipalityColumn(rows), StringLess);
    MunicipalityColumnCounts(rows);
  }

  /** Every incident's municipality has its row in the municipality table. */
  lemma ByMunicipalityComplete(rows: seq<Incident>)
    ensures forall i :: 0 <= i < |rows| && rows[i].municipality.Some? ==>
      Entry(rows[i].municipality.value, InMunicipality(rows, rows[i].municipality.value)) in ByMunicipality(rows)
  {
    var col := MunicipalityColumn(rows);
    StringLessIsStrictTotalOrder();
    MunicipalityColumnCounts(rows);
    forall i | 0 <= i < |rows| && rows[i].municipality.Some?
      ensures Entry(rows[i].municipality.value, InMunicipality(rows, rows[i].municipality.value)) in ByMunicipality(rows)
    {
      assert col[i] == rows[i].municipality;
      CountByCell(col, StringLess, i);
    }
  }

  /**
   * The municipality table lists each municipality that occurs once, in
   * ascending name order, with its number of incidents; the counts add up to
   * the incidents that name a municipality.
   */
  lemma ByMunicipalityCorrect(rows: seq<Incident>)
    ensures StrictlySorted(ByMunicipality(rows), StringLess)
    ensures forall i :: 0 <= i < |ByMunicipality(rows)| ==>
      ByMunicipality(rows)[i].count == InMunicipality(rows, ByMunicipality(rows)[i].key) > 0
    ensures forall i :: 0 <= i < |rows| && rows[i].municipality.Some? ==>
      Entry(rows[i].municipality.value, InMunicipality(rows, rows[i].municipality.value)) in ByMunicipality(rows)
    ensures Total(ByMunicipality(rows)) == Located(rows)
    ensures (forall i :: 0 <= i < |rows| ==> rows[i].municipality.Some?) ==> Total(ByMunicipality(rows)) == |rows|
  {
    StringLessIsStrictTotalOrder();
    CountByCorrect(MunicipalityColumn(rows), StringLess);
    ByMunicipalityRows(rows);
    ByMunicipalityComplete(rows);
    MunicipalityColumnCounts(rows);
    if forall i :: 0 <= i < |rows| ==> rows[i].municipality.Some? {
      AllLocated(rows);
    }
  }

  /**
   * The area table has at most the two buckets "Rural" and "Urbano", counting
   * the incidents flagged `True` and `False`; an incident whose flag is not a
   * boolean is in neither.
   */
  lemma ByAreaCorrect(rows: seq<Incident>)
    ensures |ByArea(rows)| <= 2
    ensures forall i :: 0 <= i < |ByArea(rows)| ==> ByArea(rows)[i].key in {"Rural", "Urbano"}
    ensures CountOf(ByArea(rows), "Rural") == WithFlag(rows, true)
    ensures CountOf(ByArea(rows), "Urbano") == WithFlag(rows, false)
    ensures Total(ByArea(rows)) == WithFlag(rows, true) + WithFlag(rows, false)
    ensures (forall i :: 0 <= i < |rows| ==> rows[i].ruralFlag.Flag?) ==> Total(ByArea(rows)) == |rows|
  {
    var col := AreaColumn(rows);
    var t := ByArea(rows);
    StringLessIsStrictTotalOrder();
    CountByCorrect(col, StringLess);
    CountByKeys(col, StringLess);
    AreaColumnCounts(rows);
    forall i | 0 <= i < |t| ensures t[i].key in {"Rural", "Urbano"} {
      KeysRows(t, t[i].key);
      assert Some(t[i].key) in col;
    }
    if |t| > 2 {
      SortedDistinct(t, StringLess, 0, 1);
      SortedDistinct(t, StringLess, 0, 2);
      SortedDistinct(t, StringLess, 1, 2);
      assert false;
    }
    if forall i :: 0 <= i < |rows| ==> rows[i].ruralFlag.Flag? {
      AllFlagged(rows);
    }
  }

  /** One key of the grouped `mes` column is a month name, counting the incidents dated in that month. */
  lemma GroupedMonth(rows: seq<Incident>, i: int)
    requires 0 <= i < |CountBy(MonthColumn(rows), StringLess)|
    ensures var e := CountBy(MonthColumn(rows), StringLess)[i];
      MonthCode(e.key) >= 0 && e.count == InMonth(rows, MonthCode(e.key) + 1) > 0
  {
    var col := MonthColumn(rows);
    var g := CountBy(col, StringLess);
    StringLessIsStrictTotalOrder();
    CountByRows(col, StringLess);
    CountByKeys(col, StringLess);
    KeysRows(g, g[i].key);
    assert Some(g[i].key) in col;
    var r :| 0 <= r < |rows| && col[r] == Some(g[i].key);
    var m := rows[r].date.value.month;
    MonthNameCode(m);
    assert MonthName(m) == g[i].key;
    MonthColumnCounts(rows);
  }

  /**
   * Every key of the grouped `mes` column is a month name, counting the
   * incidents dated in that month.
   */
  lemma GroupedMonths(rows: seq<Incident>)
    ensures forall i :: 0 <= i < |CountBy(MonthColumn(rows), StringLess)| ==>
      var e := CountBy(MonthColumn(rows), StringLess)[i];
      MonthCode(e.key) >= 0 && e.count == InMonth(rows, MonthCode(e.key) + 1) > 0
  {
    forall i | 0 <= i < |CountBy(MonthColumn(rows), StringLess)|
      ensures var e := CountBy(MonthColumn(rows), StringLess)[i];
        MonthCode(e.key) >= 0 && e.count == InMonth(rows, MonthCode(e.key) + 1) > 0
    {
      GroupedMonth(rows, i);
    }
  }

  /** The grouped `mes` column holds distinct month names, as the categorical sort needs. */
  lemma GroupedMonthNames(rows: seq<Incident>)
    ensures forall i :: 0 <= i < |CountBy(MonthColumn(rows), StringLess)| ==>
      MonthCode(CountBy(MonthColumn(rows), StringLess)[i].key) >= 0
    ensures forall i, j :: 0 <= i < j < |CountBy(MonthColumn(rows), StringLess)| ==>
      CountBy(MonthColumn(rows), StringLess)[i].key != CountBy(MonthColumn(rows), StringLess)[j].key
  {
    var g := CountBy(MonthColumn(rows), StringLess);
    StringLessIsStrictTotalOrder();
    CountByCorrect(MonthColumn(rows), StringLess);
    GroupedMonths(rows);
    forall i, j | 0 <= i < j < |g| ensures g[i].key != g[j].key {
      SortedDistinct(g, StringLess, i, j);
    }
  }

  /** One row of the month table is a month name counting the incidents dated in that month. */
  lemma ByMonthRow(rows: seq<Incident>, i: int)
    requires 0 <= i < |ByMonth(rows)|
    ensures ByMonth(rows)[i].key.Some? && ByMonth(rows)[i].key.value in MonthOrder
    ensures ByMonth(rows)[i].count == InMonth(rows, MonthCode(ByMonth(rows)[i].key.value) + 1) > 0
  {
    var g := CountBy(MonthColumn(rows), StringLess);
    var x := ByMonth(rows)[i];
    var j := SortedRowOrigin(g, x);
    var e := g[j];
    GroupedMonth(rows, j);
    CategorizedRow(e, x);
    var n := InMonth(rows, MonthCode(e.key) + 1);
    assert e.count == n > 0;
    assert MonthCode(x.key.value) == MonthCode(e.key);
  }

  /** Each row of the month table is a month name counting the incidents dated in that month. */
  lemma ByMonthRows(rows: seq<Incident>)
    ensures forall i :: 0 <= i < |ByMonth(rows)| ==>
      ByMonth(rows)[i].key.Some? && ByMonth(rows)[i].key.value in MonthOrder
    ensures forall i :: 0 <= i < |ByMonth(rows)| ==>
      ByMonth(rows)[i].count == InMonth(rows, MonthCode(ByMonth(rows)[i].key.value) + 1) > 0
  {
    forall i | 0 <= i < |ByMonth(rows)|
      ensures ByMonth(rows)[i].key.Some? && ByMonth(rows)[i].key.value in MonthOrder
      ensures ByMonth(rows)[i].count == InMonth(rows, MonthCode(ByMonth(rows)[i].key.value) + 1) > 0
    {
      ByMonthRow(rows, i);
    }
  }

  /** Every month in which some incident is dated has its row in the month table. */
  lemma ByMonthComplete(rows: seq<Incident>)
    ensures forall m: MonthNumber :: InMonth(rows, m) > 0 ==>
      Entry(Some(MonthName(m)), InMonth(rows, m)) in ByMonth(rows)
  {
    var col := MonthColumn(rows);
    var g := CountBy(col, StringLess);
    GroupedMonths(rows);
    SortMonthNamesRows(g);
    StringLessIsStrictTotalOrder();
    CountByRows(col, StringLess);
    MonthColumnCounts(rows);
    forall m: MonthNumber | InMonth(rows, m) > 0
      ensures Entry(Some(MonthName(m)), InMonth(rows, m)) in ByMonth(rows)
    {
      assert Occurrences(col, MonthName(m)) > 0;
      assert Some(MonthName(m)) in col;
      var k :| 0 <= k < |g| && g[k] == Entry(MonthName(m), Occurrences(col, MonthName(m)));
    }
  }

  /**
   * The month table lists only months that occur, each once with the number
   * of incidents dated in it, in January-to-December order; its counts add up
   * to the number of dated incidents.
   */
  lemma ByMonthCorrect(rows: seq<Incident>)
    ensures forall i :: 0 <= i < |ByMonth(rows)| ==>
      ByMonth(rows)[i].key.Some? && ByMonth(rows)[i].key.value in MonthOrder
    ensures forall i, j :: 0 <= i < j < |ByMonth(rows)| ==>
      MonthCode(ByMonth(rows)[i].key.value) < MonthCode(ByMonth(rows)[j].key.value)
    ensures forall i :: 0 <= i < |ByMonth(rows)| ==>
      ByMonth(rows)[i].count == InMonth(rows, MonthCode(ByMonth(rows)[i].key.value) + 1) > 0
    ensures forall m: MonthNumber :: InMonth(rows, m) > 0 ==>
      Entry(Some(MonthName(m)), InMonth(rows, m)) in ByMonth(rows)
    ensures Total(ByMonth(rows)) == Dated(rows)
    ensures (forall i :: 0 <= i < |rows| ==> rows[i].date.Some?) ==> Total(ByMonth(rows)) == |rows|
  {
    var col := MonthColumn(rows);
    var g := CountBy(col, StringLess);
    if forall i :: 0 <= i < |rows| ==> rows[i].date.Some? {
      AllDated(rows);
    }
    GroupedMonthNames(rows);
    SortMonthNamesOrder(g);
    ByMonthRows(rows);
    ByMonthComplete(rows);
    CategorizeTotal(g);
    SortByMonthTotal(Categorize(g));
    MonthColumnCounts(rows);
  }

  /** Empty frames give seven empty tables. */
  lemma AggregateEmpty(src: Sources)
    requires src.incidents == [] && src.equipmentUse == [] && src.materialUse == [] && src.vehicleUse == []
    ensures Aggregate(src) == Aggregates([], [], [], [], [], [], [])
  {
  }

  /** The grouped `mes` column of two January incidents and one February incident. */
  lemma GroupExample()
    ensures CountBy([Some("January"), Some("January"), Some("February")], StringLess)
      == [Entry("February", 1), Entry("January", 2)]
  {
    var col := [Some("January"), Some("January"), Some("February")];
    assert col[..2] == [Some("January"), Some("January")];
    assert col[..2][..1] == [Some("January")];
    assert [Some("January")][..0] == [];
    assert CountBy(col[..2], StringLess) == [Entry("January", 2)];
    assert StringLess("February", "January");
  }

  /** Both grouped month names are categories, kept as they are. */
  lemma CategorizeExample()
    ensures Categorize([Entry("February", 1), Entry("January", 2)])
      == [Entry(Some("February"), 1), Entry(Some("January"), 2)]
  {
    assert MonthOrder[0] == "January" && MonthOrder[1] == "February";
    var c := Categorize([Entry("February", 1), Entry("January", 2)]);
    assert c[0] == Entry(AsCategory("February"), 1);
    assert c[1] == Entry(AsCategory("January"), 2);
  }

  /** The row of month `m` ranks at `m - 1`. */
  lemma MonthRowRank(m: MonthNumber, n: nat)
    ensures RowRank(Entry(Some(MonthName(m)), n)) == m - 1
  {
    MonthNameCode(m);
  }

  /** Sorting the categorized February and January rows puts January first. */
  lemma SortExample()
    ensures SortByMonth([Entry(Some("February"), 1), Entry(Some("January"), 2)])
      == [Entry(Some("January"), 2), Entry(Some("February"), 1)]
  {
    var jan := Entry(Some(MonthName(1)), 2);
    var feb := Entry(Some(MonthName(2)), 1);
    MonthRowRank(1, 2);
    MonthRowRank(2, 1);
    assert [feb, jan][1..] == [jan];
    assert SortByRank([jan], RowRank) == [jan];
    assert InsertByRank(feb, [jan], RowRank) == [jan, feb];
    assert SortByMonth([feb, jan]) == [jan, feb];
  }

  /**
   * Incidents dated 2024-01-05, 2024-01-20 and 2024-02-01 give the month
   * table January: 2, February: 1, in that order.
   */
  lemma ByMonthExample()
    ensures ByMonth([
      Incident(Some(Date(2024, 1, 5)), None, NotBoolean),
      Incident(Some(Date(2024, 1, 20)), None, NotBoolean),
      Incident(Some(Date(2024, 2, 1)), None, NotBoolean)])
      == [Entry(Some("January"), 2), Entry(Some("February"), 1)]
  {
    var rows := [
      Incident(Some(Date(2024, 1, 5)), None, NotBoolean),
      Incident(Some(Date(2024, 1, 20)), None, NotBoolean),
      Incident(Some(Date(2024, 2, 1)), None, NotBoolean)];
    assert MonthColumn(rows) == [Some("January"), Some("January"), Some("February")];
    GroupExample();
    CategorizeExample();
    SortExample();
  }

}
