/**
 * Summary statistics over generic records (scripts/stats.js): the total
 * amount, the number of records, a tally by category with its most
 * frequent category, and a seven-day trend of amounts.
 *
 * The clock is a parameter: `today` is a day number and `dayKey(n)` the
 * `YYYY-MM-DD` key (`toISOString().slice(0, 10)`) of day number `n`.
 */
module Stats {
  import opened Common
  import opened Tally
  import opened Buckets

  /** A record; `amount` is `None` when it is missing (a falsy amount counts as 0 either way). */
  datatype Record = Record(amount: Option<int>, category: string, date: string)

  /** `Number(r.amount || 0)`. */
  function AmountOf(r: Record): int
  {
    if r.amount.Some? then r.amount.value else 0
  }

  function DateOf(r: Record): string
  {
    r.date
  }

  function Categories(records: seq<Record>): (cs: seq<string>)
    ensures |cs| == |records| && forall i :: 0 <= i < |records| ==> cs[i] == records[i].category
  {
    seq(|records|, i requires 0 <= i < |records| => records[i].category)
  }

  /** The object `calcTotals` returns; `topCategory` is `None` for `null`. */
  datatype Totals = Totals(total: int, count: nat, topCategory: Option<string>, byCat: map<string, nat>)

  /**
   * `calcTotals(records)`. The top category is the first key of the tally
   * sorted by descending count; the sort is stable, so it is the first
   * category to reach the maximal count (`FirstTop`, see
   * `Tally.StableSortHeadIsFirstTop`). `|| null` turns both a missing first key
   * and an empty-string category into `null`.
   */
  function CalcTotals(records: seq<Record>): (r: Totals)
    ensures r.count == |records|
    ensures forall c :: c in r.byCat <==> exists i :: 0 <= i < |records| && records[i].category == c
    ensures forall c :: c in r.byCat ==> r.byCat[c] == Count(Categories(records), c)
    ensures records == [] ==> r.topCategory == None
  {
    var cats := Categories(records);
    var byCat := Tally.Tally(cats);
    var keys := Keys(cats);
    var top := if keys == [] then None else if FirstTop(keys, byCat) == "" then None else Some(FirstTop(keys, byCat));
    Totals(SumOf(records, AmountOf), |records|, top, byCat)
  }

  /**
   * `total` adds up the amounts, a missing amount contributing 0: one
   * record totals its amount (negative ones included), no records total 0,
   * and the total of a concatenation is the sum of the totals.
   */
  lemma TotalOfConcatenation(a: seq<Record>, b: seq<Record>, x: Record)
    ensures CalcTotals(a + b).total == CalcTotals(a).total + CalcTotals(b).total
    ensures CalcTotals([]).total == 0
    ensures CalcTotals([x]).total == AmountOf(x)
    ensures CalcTotals([Record(None, "", "")]).total == 0
  {
    SumOfAppend(a, b, AmountOf);
    assert [x][..0] == [];
  }

  /** The counts in `byCat` add up to `count`. */
  lemma ByCategorySumsToCount(records: seq<Record>)
    ensures SumCounts(Keys(Categories(records)), Categories(records)) == CalcTotals(records).count
  {
    TallySumsToLength(Categories(records));
  }

  /** There is a top category whenever there are records, unless the winning category is the empty string. */
  lemma TopCategoryPresent(records: seq<Record>)
    requires records != []
    requires forall i :: 0 <= i < |records| ==> records[i].category != ""
    ensures CalcTotals(records).topCategory.Some?
  {
    var cats := Categories(records);
    assert cats[0] in cats;
    var keys := Keys(cats);
    assert keys != [];
    FirstTopIsFirstMaximum(keys, Tally.Tally(cats));
  }

  /**
   * The top category has a maximal count, and every category that first
   * occurs before it has a strictly smaller count: ties go to the category
   * seen first.
   */
  lemma TopCategoryIsFirstMostFrequent(records: seq<Record>)
    requires CalcTotals(records).topCategory.Some?
    ensures var r := CalcTotals(records);
      var c := r.topCategory.value;
      && c in r.byCat
      && (forall d :: d in r.byCat ==> r.byCat[d] <= r.byCat[c])
      && (forall d :: d in r.byCat && FirstIndex(Categories(records), d) < FirstIndex(Categories(records), c) ==>
            r.byCat[d] < r.byCat[c])
  {
    FirstTopOfTally(Categories(records));
  }

  // ---------------------------------------------------------------------
  // Seven-day trend

  /** One entry of the trend: a day's key and the amounts recorded for it. */
  datatype DaySum = DaySum(date: string, sum: int)

  function DaySumOf(d: DaySum): int
  {
    d.sum
  }

  /** The keys of the seven days ending today, oldest first. */
  function TrendKeys(today: int, dayKey: int -> string): (ks: seq<string>)
    ensures |ks| == 7
    ensures forall j :: 0 <= j < 7 ==> ks[j] == dayKey(today - 6 + j)
  {
    seq(7, j requires 0 <= j < 7 => dayKey(today - 6 + j))
  }

  /** `last7DaysTrend(records)`: for each of the seven days, the amounts of the records whose date is that day's key. */
  function Last7DaysTrend(records: seq<Record>, today: int, dayKey: int -> string): (r: seq<DaySum>)
    ensures |r| == 7
    ensures r[0].date == dayKey(today - 6) && r[6].date == dayKey(today)
    ensures forall j :: 0 <= j < 7 ==>
      r[j].date == dayKey(today - 6 + j) && r[j].sum == BucketSum(records, DateOf, r[j].date, AmountOf)
  {
    var ks := TrendKeys(today, dayKey);
    seq(7, j requires 0 <= j < 7 => DaySum(ks[j], BucketSum(records, DateOf, ks[j], AmountOf)))
  }

  /** A day's sum counts an amount exactly when the record's date is that day's key. */
  lemma DaySumAddsMatchingRecord(records: seq<Record>, x: Record, today: int, dayKey: int -> string, j: nat)
    requires j < 7
    ensures Last7DaysTrend(records + [x], today, dayKey)[j].sum ==
      Last7DaysTrend(records, today, dayKey)[j].sum + (if x.date == dayKey(today - 6 + j) then AmountOf(x) else 0)
  {
    BucketSumSnoc(records, x, DateOf, dayKey(today - 6 + j), AmountOf);
  }

  /**
   * When the seven keys are distinct and amounts are not negative, the
   * trend holds at most the total amount, and exactly the total when every
   * record is dated within the week.
   */
  lemma TrendBoundedByTotal(records: seq<Record>, today: int, dayKey: int -> string)
    requires NoDuplicates(TrendKeys(today, dayKey))
    requires forall i :: 0 <= i < |records| ==> AmountOf(records[i]) >= 0
    ensures SumOf(Last7DaysTrend(records, today, dayKey), DaySumOf) <= CalcTotals(records).total
    ensures (forall i :: 0 <= i < |records| ==> records[i].date in TrendKeys(today, dayKey)) ==>
      SumOf(Last7DaysTrend(records, today, dayKey), DaySumOf) == CalcTotals(records).total
  {
    var ks := TrendKeys(today, dayKey);
    PointwiseBuckets(Last7DaysTrend(records, today, dayKey), DaySumOf, records, DateOf, ks, AmountOf);
    BucketsBoundedByTotal(records, DateOf, ks, AmountOf);
  }
}
