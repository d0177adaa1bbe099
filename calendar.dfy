/** Calendar months as integers.
    The calculator only ever builds dates on the first day of a month
    (`new Date(year, month - 1, 1)`), moves them by whole months
    (`setMonth(getMonth() + k)`) and compares them. All three operations are
    exact on a single month index `year * 12 + (month - 1)`, which is what
    this module works with. */
module Calendar {

  /** A parsed "YYYY-MM" value: the two numbers `split('-').map(Number)` yields. */
  datatype YearMonth = YearMonth(year: int, month: int)

  /** Index of the first day of `month` (1-based) in `year`. A month outside
      1..12 rolls over into the neighbouring years, as `new Date` does. */
  function MonthIndex(ym: YearMonth): int
  {
    ym.year * 12 + (ym.month - 1)
  }

  /** The calendar year an index falls in. */
  function YearOf(m: int): int
  {
    m / 12
  }

  /** The 1-based month number an index falls in. */
  function MonthOf(m: int): (k: int)
    ensures 1 <= k <= 12
  {
    m % 12 + 1
  }

  /** Moving a first-of-month date forward by `k` months. */
  function AddMonths(m: int, k: int): int
  {
    m + k
  }

  /** An index splits back into the year and month it was built from. */
  lemma YearMonthRoundTrip(m: int)
    ensures MonthIndex(YearMonth(YearOf(m), MonthOf(m))) == m
  {
  }

  /** A well-formed year and month are recovered from their index. */
  lemma {:induction false} MonthIndexRoundTrip(ym: YearMonth)
    requires 1 <= ym.month <= 12
    ensures YearOf(MonthIndex(ym)) == ym.year && MonthOf(MonthIndex(ym)) == ym.month
  {
    var m := MonthIndex(ym);
    assert m == 12 * ym.year + (ym.month - 1);
    assert 0 <= ym.month - 1 < 12;
  }

  /** `setMonth(getMonth() + k)` normalises a month overflow exactly like
      building the date with month `month + k` in the first place. */
  lemma AddMonthsRollsOver(ym: YearMonth, k: int)
    ensures AddMonths(MonthIndex(ym), k) == MonthIndex(YearMonth(ym.year, ym.month + k))
  {
  }

  /** Comparing two first-of-month dates (`>=` on `Date`) is the
      lexicographic order on (year, month), i.e. `>=` on the index. */
  lemma {:induction false} MonthIndexOrder(a: YearMonth, b: YearMonth)
    requires 1 <= a.month <= 12 && 1 <= b.month <= 12
    ensures MonthIndex(a) >= MonthIndex(b) <==>
            a.year > b.year || (a.year == b.year && a.month >= b.month)
  {
    if a.year > b.year {
      assert MonthIndex(a) >= (b.year + 1) * 12;
    } else if a.year < b.year {
      assert MonthIndex(b) >= (a.year + 1) * 12;
    }
  }
}
