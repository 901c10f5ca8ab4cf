/**
 * Calendar dates as `pd.to_datetime` yields them once parsed, their
 * chronological order, and the English month names that `strftime('%B')`
 * prints and that the month categories list.
 */
module Calendar {
  import Orders

  type MonthNumber = m: int | 1 <= m <= 12 witness 1
  type DayNumber = d: int | 1 <= d <= 31 witness 1

  /** A parsed calendar date (the `dt.date` part of a timestamp). */
  datatype Date = Date(year: int, month: MonthNumber, day: DayNumber)

  /** Chronological order: by year, then month, then day. */
  predicate DateLess(a: Date, b: Date)
  {
    || a.year < b.year
    || (a.year == b.year && a.month < b.month)
    || (a.year == b.year && a.month == b.month && a.day < b.day)
  }

  lemma DateLessIsStrictTotalOrder()
    ensures Orders.StrictTotalOrder(DateLess)
  {
  }

  /** The month categories, in calendar order (`meses_ordem_ingles`). */
  const MonthOrder: seq<string> :=
    ["January", "February", "March", "April", "May", "June",
     "July", "August", "September", "October", "November", "December"]

  /** `strftime('%B')` in an English locale. */
  function MonthName(m: MonthNumber): (name: string)
    ensures name == MonthOrder[m - 1]
  {
    match m
    case 1 => "January"
    case 2 => "February"
    case 3 => "March"
    case 4 => "April"
    case 5 => "May"
    case 6 => "June"
    case 7 => "July"
    case 8 => "August"
    case 9 => "September"
    case 10 => "October"
    case 11 => "November"
    case 12 => "December"
  }

  /** Position of `name` among the categories from position `k` on, or -1 when it is not there. */
  function CodeFrom(name: string, k: nat): (c: int)
    requires k <= |MonthOrder|
    ensures -1 <= c < |MonthOrder|
    ensures c == -1 <==> forall i :: k <= i < |MonthOrder| ==> MonthOrder[i] != name
    ensures 0 <= c ==> k <= c && MonthOrder[c] == name
    decreases |MonthOrder| - k
  {
    if k == |MonthOrder| then -1
    else if MonthOrder[k] == name then k
    else CodeFrom(name, k + 1)
  }

  /**
   * The code `pd.Categorical(..., categories=MonthOrder)` gives a value:
   * its position among the categories, or -1 (a null) for any other string.
   */
  function MonthCode(name: string): (c: int)
    ensures -1 <= c < 12
    ensures c == -1 <==> name !in MonthOrder
    ensures 0 <= c ==> MonthOrder[c] == name
  {
    CodeFrom(name, 0)
  }

  /** No month name occurs twice among the categories. */
  lemma MonthOrderDistinct()
    ensures forall i, j :: 0 <= i < j < |MonthOrder| ==> MonthOrder[i] != MonthOrder[j]
  {
  }

  /** The month name of month `m` has category code `m - 1`. */
  lemma MonthNameCode(m: MonthNumber)
    ensures MonthName(m) in MonthOrder
    ensures MonthCode(MonthName(m)) == m - 1
  {
    MonthOrderDistinct();
  }

}
