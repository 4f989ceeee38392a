/** Valuation of an asset record: the time elapsed since its start date, split
    into whole years and a day fraction exactly as the application computes it,
    the compound appreciation or depreciation applied to the recorded value,
    and the balance of a list of assets.

    "Today" is a parameter, the power function is a parameter (it is never
    interpreted), and double-precision amounts are exact reals. */
module ModelAsset {
  import opened Calendar
  import opened AssetChoices

  /** The fields of an asset record this model reads. */
  datatype Asset = Asset(
    assetType: string,
    value: real,
    startDate: Date,
    valueChange: string,
    valueChangeRate: real)

  predicate ValidAsset(asset: Asset) {
    asset.startDate.Valid()
  }

  /** Elapsed time as `years + days / denom`. */
  datatype Elapsed = Elapsed(years: int, days: int, denom: int) {
    function InYears(): real
      requires denom > 0
    {
      years as real + days as real / denom as real
    }
  }

  /** wxDateTime_t is an unsigned 16-bit integer: storing a difference in it
      keeps the value modulo 2^16. */
  const DATETIME_T_MODULUS: int := 0x1_0000

  function ToDateTimeT(x: int): (r: int)
    ensures 0 <= r < DATETIME_T_MODULUS
    ensures 0 <= x < DATETIME_T_MODULUS ==> r == x
    ensures -DATETIME_T_MODULUS <= x < 0 ==> r == x + DATETIME_T_MODULUS
  {
    x % DATETIME_T_MODULUS
  }

  /** The elapsed-time part of `value`: whole years, then the day count of
      the unfinished year over the length of today's year. */
  function ElapsedYears(start: Date, today: Date): (e: Elapsed)
    requires start.Valid() && today.Valid()
    ensures e.denom == DaysInYear(today.year)
    ensures 0 <= e.days < DATETIME_T_MODULUS
  {
    if today.year == start.year then
      Elapsed(0, ToDateTimeT(DayOfYear(today) - DayOfYear(start)), DaysInYear(today.year))
    else
      var diffYears := today.year - start.year;
      if DayOfYear(today) < DayOfYear(start) then
        Elapsed(
          diffYears - 1,
          ToDateTimeT(DaysInYear(start.year) - DayOfYear(start) + DayOfYear(today)),
          DaysInYear(today.year))
      else
        Elapsed(diffYears, ToDateTimeT(DayOfYear(today) - DayOfYear(start)), DaysInYear(today.year))
  }

  /** Same calendar year, start not after today: no whole year, and the day
      count is the true number of days between the two dates. */
  lemma ElapsedWithinYear(start: Date, today: Date)
    requires start.Valid() && today.Valid() && NotAfter(start, today)
    requires start.year == today.year
    ensures ElapsedYears(start, today).years == 0
    ensures ElapsedYears(start, today).days == DayOfYear(today) - DayOfYear(start)
    ensures ElapsedYears(start, today).days == RataDie(today) - RataDie(start)
  {
    RataDieCountsOrdinalDays(start);
    RataDieCountsOrdinalDays(today);
    DayOfYearOrder(start, today);
  }

  /** Same calendar year, start after today: the negative day difference
      wraps around in the unsigned 16-bit day count. */
  lemma ElapsedWithinYearWraps(start: Date, today: Date)
    requires start.Valid() && today.Valid() && !NotAfter(start, today)
    requires start.year == today.year
    ensures ElapsedYears(start, today).years == 0
    ensures ElapsedYears(start, today).days
      == DATETIME_T_MODULUS - (RataDie(start) - RataDie(today))
    ensures ElapsedYears(start, today).days > DATETIME_T_MODULUS - 366
  {
    RataDieCountsOrdinalDays(start);
    RataDieCountsOrdinalDays(today);
    DayOfYearOrder(start, today);
  }

  /** A later year, anniversary reached: the whole years are the difference of
      the calendar years, and the day count is the days since the date in
      today's year with the start date's day of year. */
  lemma ElapsedAfterAnniversary(start: Date, today: Date)
    requires start.Valid() && today.Valid()
    requires start.year != today.year && DayOfYear(today) >= DayOfYear(start)
    ensures ElapsedYears(start, today).years == today.year - start.year
    ensures ElapsedYears(start, today).days == DayOfYear(today) - DayOfYear(start)
    ensures 0 <= ElapsedYears(start, today).days <= 365
    ensures ElapsedYears(start, today).days
      == RataDie(today) - RataDie(start) - (DaysBeforeYear(today.year) - DaysBeforeYear(start.year))
  {
    RataDieCountsOrdinalDays(start);
    RataDieCountsOrdinalDays(today);
  }

  /** A later year, anniversary not yet reached: one year is borrowed, and the
      day count is the rest of the start year plus the days of today's year.
      It equals the true number of days between the dates less the days of
      the years strictly between the two, so it is exact across a single
      new year. */
  lemma ElapsedBeforeAnniversary(start: Date, today: Date)
    requires start.Valid() && today.Valid()
    requires start.year != today.year && DayOfYear(today) < DayOfYear(start)
    ensures ElapsedYears(start, today).years == today.year - start.year - 1
    ensures ElapsedYears(start, today).days
      == DaysInYear(start.year) - DayOfYear(start) + DayOfYear(today)
    ensures 1 <= ElapsedYears(start, today).days <= DaysInYear(start.year) - 1
    ensures ElapsedYears(start, today).days
      == RataDie(today) - RataDie(start) - (DaysBeforeYear(today.year) - DaysBeforeYear(start.year + 1))
    ensures today.year == start.year + 1 ==>
      ElapsedYears(start, today).days == RataDie(today) - RataDie(start)
  {
    RataDieCountsOrdinalDays(start);
    RataDieCountsOrdinalDays(today);
    DaysBeforeYearStep(start.year);
  }

  /** Start date and today are the same day: nothing has elapsed. */
  lemma ElapsedSameDay(date: Date)
    requires date.Valid()
    ensures ElapsedYears(date, date) == Elapsed(0, 0, DaysInYear(date.year))
    ensures ElapsedYears(date, date).InYears() == 0.0
  {
  }

  /** For a start date not after today, the whole years count the anniversaries
      of the start date's day of year that have been reached. */
  lemma ElapsedYearsCountsAnniversaries(start: Date, today: Date)
    requires start.Valid() && today.Valid() && NotAfter(start, today)
    ensures ElapsedYears(start, today).years
      == today.year - start.year - (if DayOfYear(today) < DayOfYear(start) then 1 else 0)
    ensures 0 <= ElapsedYears(start, today).years <= today.year - start.year
  {
    if start.year == today.year {
      DayOfYearOrder(start, today);
    }
  }

  /** For a start date not after today the fraction lies in [0, 1]: the day
      count never exceeds the length of today's year. */
  lemma ElapsedFractionBounds(start: Date, today: Date)
    requires start.Valid() && today.Valid() && NotAfter(start, today)
    ensures 0 <= ElapsedYears(start, today).days <= ElapsedYears(start, today).denom
    ensures ElapsedYears(start, today).InYears() >= 0.0
  {
    if start.year == today.year {
      DayOfYearOrder(start, today);
    }
    var e := ElapsedYears(start, today);
    ElapsedYearsCountsAnniversaries(start, today);
    FractionOfYear(e.years, e.days, e.denom);
  }

  /** years + days / denom with the day count within one year length. */
  lemma FractionOfYear(years: int, days: int, denom: int)
    requires denom == 365 || denom == 366
    requires 0 <= days <= denom
    ensures years as real <= Elapsed(years, days, denom).InYears() <= years as real + 1.0
  {
    assert days as real / denom as real <= 1.0 by {
      assert days as real <= denom as real;
    }
  }

  /** Comparing two day fractions by cross-multiplication. */
  lemma FractionOrder(d1: int, n1: int, d2: int, n2: int)
    requires n1 == 365 || n1 == 366
    requires n2 == 365 || n2 == 366
    requires d1 * n2 <= d2 * n1
    ensures d1 as real / n1 as real <= d2 as real / n2 as real
  {
    var x, y := d1 as real / n1 as real, d2 as real / n2 as real;
    assert d1 as real == x * n1 as real;
    assert d2 as real == y * n2 as real;
    assert x * (n1 as real * n2 as real) <= y * (n1 as real * n2 as real);
  }

  /** The largest fraction before a new year never exceeds the smallest one
      after it, whatever the lengths of the years involved. */
  lemma FractionAcrossNewYear(startDoy: int, startLen: int, lastLen: int, nextLen: int, d1: int, d2: int)
    requires startLen == 365 || startLen == 366
    requires lastLen == 365 || lastLen == 366
    requires nextLen == 365 || nextLen == 366
    requires 1 <= startDoy <= startLen
    requires startDoy <= d1 <= lastLen
    requires 1 <= d2
    ensures (d1 - startDoy) as real / lastLen as real
      <= (startLen - startDoy + d2) as real / nextLen as real
  {
    var lhs, rhs := d1 - startDoy, startLen - startDoy + d2;
    assert lhs <= lastLen - startDoy && rhs >= 366 - startDoy;
    if nextLen <= lastLen {
      assert lhs * nextLen <= (lastLen - startDoy) * lastLen;
      assert rhs * lastLen >= (366 - startDoy) * lastLen;
    } else {
      assert lhs * nextLen <= (365 - startDoy) * 366;
      assert rhs * lastLen >= (366 - startDoy) * 365;
    }
    FractionOrder(lhs, lastLen, rhs, nextLen);
  }

  /** Elapsed time never decreases as today advances, for a start date not
      after today. */
  lemma ElapsedMonotone(start: Date, today1: Date, today2: Date)
    requires start.Valid() && today1.Valid() && today2.Valid()
    requires NotAfter(start, today1) && NotAfter(today1, today2)
    ensures ElapsedYears(start, today1).InYears() <= ElapsedYears(start, today2).InYears()
  {
    var e1, e2 := ElapsedYears(start, today1), ElapsedYears(start, today2);
    ElapsedYearsCountsAnniversaries(start, today1);
    ElapsedYearsCountsAnniversaries(start, today2);
    ElapsedFractionBounds(start, today1);
    ElapsedFractionBounds(start, today2);
    FractionOfYear(e1.years, e1.days, e1.denom);
    FractionOfYear(e2.years, e2.days, e2.denom);
    var ds, d1, d2 := DayOfYear(start), DayOfYear(today1), DayOfYear(today2);
    if today1.year == today2.year {
      DayOfYearOrder(today1, today2);
    }
    if e1.years < e2.years {
      // e1 is at most e1.years + 1, which is at most e2.years
    } else if today1.year == today2.year {
      // same year and same borrowed year: the fractions share a denominator
      if start.year == today1.year {
        DayOfYearOrder(start, today1);
        DayOfYearOrder(start, today2);
      }
      assert e1.days <= e2.days;
      FractionOrder(e1.days, e1.denom, e2.days, e2.denom);
    } else {
      // anniversary reached in today1's year, not yet in the following year
      assert today2.year == today1.year + 1 && d1 >= ds && d2 < ds;
      if start.year == today1.year {
        DayOfYearOrder(start, today1);
      }
      FractionAcrossNewYear(ds, DaysInYear(start.year), e1.denom, e2.denom, d1, d2);
    }
  }

  /** The example of a start date on 2019-12-01 valued on 2020-01-10. */
  lemma ElapsedAcrossNewYearExample()
    ensures ElapsedYears(Date(2019, 12, 1), Date(2020, 1, 10)) == Elapsed(0, 40, 366)
  {
    assert DayOfYear(Date(2019, 12, 1)) == 335;
  }

  /** The example of 2016-02-28 to 2016-03-01 in a leap year. */
  lemma ElapsedLeapDayExample()
    ensures ElapsedYears(Date(2016, 2, 28), Date(2016, 3, 1)) == Elapsed(0, 2, 366)
  {
  }

  /** `value`: the recorded value, compounded per year by the rate when the
      value-change label resolves to appreciation or depreciation. */
  function Value(asset: Asset, today: Date, pow: (real, real) -> real): (v: real)
    requires ValidAsset(asset) && today.Valid()
    ensures (RateOf(asset.valueChange) != RateAppreciate.Code()
             && RateOf(asset.valueChange) != RateDepreciate.Code()) ==> v == asset.value
  {
    var years := ElapsedYears(asset.startDate, today).InYears();
    var rate := RateOf(asset.valueChange);
    if rate == RateAppreciate.Code() then
      asset.value * pow(1.0 + asset.valueChangeRate / 100.0, years)
    else if rate == RateDepreciate.Code() then
      asset.value * pow(1.0 - asset.valueChangeRate / 100.0, years)
    else
      asset.value
  }

  /** An asset whose value-change label is "None" in any case, or no known
      label at all, keeps its recorded value. */
  lemma ValueWithoutTrend(asset: Asset, today: Date, pow: (real, real) -> real)
    requires ValidAsset(asset) && today.Valid()
    requires EqualsNoCase(asset.valueChange, RATE_CHOICES[0].1)
      || forall i :: 0 <= i < |RATE_CHOICES| ==> !EqualsNoCase(RATE_CHOICES[i].1, asset.valueChange)
    ensures Value(asset, today, pow) == asset.value
  {
    if EqualsNoCase(asset.valueChange, RATE_CHOICES[0].1) {
      RateOfLabel(0, asset.valueChange);
    }
  }

  /** Valued on its start date, an asset is worth its recorded value, given a
      power function with x^0 = 1. */
  lemma ValueOnStartDate(asset: Asset, pow: (real, real) -> real)
    requires ValidAsset(asset)
    requires forall base :: pow(base, 0.0) == 1.0
    ensures Value(asset, asset.startDate, pow) == asset.value
  {
    ElapsedSameDay(asset.startDate);
  }

  /** An appreciating asset with a non-negative value and rate is worth no
      less later, given a power function that grows with the exponent for
      bases of at least 1. */
  lemma AppreciationNonDecreasing(asset: Asset, today1: Date, today2: Date, pow: (real, real) -> real)
    requires ValidAsset(asset) && today1.Valid() && today2.Valid()
    requires NotAfter(asset.startDate, today1) && NotAfter(today1, today2)
    requires RateOf(asset.valueChange) == RateAppreciate.Code()
    requires asset.value >= 0.0 && asset.valueChangeRate >= 0.0
    requires forall base, x, y :: 1.0 <= base && x <= y ==> pow(base, x) <= pow(base, y)
    ensures Value(asset, today1, pow) <= Value(asset, today2, pow)
  {
    ElapsedMonotone(asset.startDate, today1, today2);
    var base := 1.0 + asset.valueChangeRate / 100.0;
    var t1 := ElapsedYears(asset.startDate, today1).InYears();
    var t2 := ElapsedYears(asset.startDate, today2).InYears();
    assert pow(base, t1) <= pow(base, t2);
    ScaleNonNegative(asset.value, pow(base, t1), pow(base, t2));
  }

  /** A depreciating asset with a non-negative value and a rate of at most
      100% is worth no more later, given a power function that shrinks with
      the exponent for bases in [0, 1]. */
  lemma DepreciationNonIncreasing(asset: Asset, today1: Date, today2: Date, pow: (real, real) -> real)
    requires ValidAsset(asset) && today1.Valid() && today2.Valid()
    requires NotAfter(asset.startDate, today1) && NotAfter(today1, today2)
    requires RateOf(asset.valueChange) == RateDepreciate.Code()
    requires asset.value >= 0.0 && 0.0 <= asset.valueChangeRate <= 100.0
    requires forall base, x, y :: 0.0 <= base <= 1.0 && x <= y ==> pow(base, y) <= pow(base, x)
    ensures Value(asset, today2, pow) <= Value(asset, today1, pow)
  {
    ElapsedMonotone(asset.startDate, today1, today2);
    var base := 1.0 - asset.valueChangeRate / 100.0;
    var t1 := ElapsedYears(asset.startDate, today1).InYears();
    var t2 := ElapsedYears(asset.startDate, today2).InYears();
    assert pow(base, t2) <= pow(base, t1);
    ScaleNonNegative(asset.value, pow(base, t2), pow(base, t1));
  }

  lemma ScaleNonNegative(k: real, x: real, y: real)
    requires k >= 0.0 && x <= y
    ensures k * x <= k * y
  {
  }

  /** Sum of the projected values of `assets`, first to last. */
  function TotalValue(assets: seq<Asset>, today: Date, pow: (real, real) -> real): real
    requires forall asset :: asset in assets ==> ValidAsset(asset)
    requires today.Valid()
  {
    if assets == [] then 0.0
    else TotalValue(assets[..|assets| - 1], today, pow) + Value(assets[|assets| - 1], today, pow)
  }

  /** Sum of the recorded values of `assets`. */
  function RecordedTotal(assets: seq<Asset>): real {
    if assets == [] then 0.0
    else RecordedTotal(assets[..|assets| - 1]) + assets[|assets| - 1].value
  }

  /** `balance`: the projected values of the assets added up in order. */
  method Balance(assets: seq<Asset>, today: Date, pow: (real, real) -> real) returns (balance: real)
    requires forall asset :: asset in assets ==> ValidAsset(asset)
    requires today.Valid()
    ensures balance == TotalValue(assets, today, pow)
    ensures assets == [] ==> balance == 0.0
  {
    balance := 0.0;
    for n := 0 to |assets|
      invariant balance == TotalValue(assets[..n], today, pow)
    {
      assert assets[..n + 1][..n] == assets[..n];
      balance := balance + Value(assets[n], today, pow);
    }
    assert assets[..|assets|] == assets;
  }

  /** When no asset appreciates or depreciates, the balance is the sum of the
      recorded values. */
  lemma {:induction false} BalanceWithoutTrend(assets: seq<Asset>, today: Date, pow: (real, real) -> real)
    requires forall asset :: asset in assets ==> ValidAsset(asset)
    requires today.Valid()
    requires forall asset :: asset in assets ==>
      RateOf(asset.valueChange) != RateAppreciate.Code() && RateOf(asset.valueChange) != RateDepreciate.Code()
    ensures TotalValue(assets, today, pow) == RecordedTotal(assets)
  {
    if assets != [] {
      var last := assets[|assets| - 1];
      assert last in assets;
      BalanceWithoutTrend(assets[..|assets| - 1], today, pow);
    }
  }
}
