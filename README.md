# Asset valuation model (Money Manager Ex, `Model_Asset`)

A Dafny model of the non-persistent part of Money Manager Ex's asset table
accessor, `src/model/Model_Asset.cpp`:

- the two fixed choice tables of an asset record: its type (Property,
  Automobile, Household Object, Art, Jewellery, Cash, Other) and how its value
  changes (None, Appreciates, Depreciates);
- the reverse lookups `type` and `rate`. Each scans its table in order and
  returns the enumerator of the first label equal to the stored text ignoring
  case, or `-1`;
- `all_type` and `all_rate`, which list the labels in table order;
- `value`, which projects an asset's worth on a given day. It splits the time
  since the start date into whole years plus a day count over the length of
  today's year, and compounds the recorded value by the yearly rate;
- `balance`, the sum of the projected values of a list of assets.

The files:

- `calendar.dfy` (module `Calendar`) supplies the facts the code takes from
  wxDateTime. These are the Gregorian year length (the leap rule of section
  3.2.1 of ISO 8601:2004), month lengths, and the ordinal date (section 4.1.3
  of ISO 8601:2004). It also defines a serial day number, `RataDie`. It is
  computed from a March-based year, without month tables or the day of year,
  and `RataDieCountsOrdinalDays` proves it agrees with counting whole years
  plus the day of year. The "true number of days" in the lemmas below is a
  difference of `RataDie` values.
- `asset_choices.dfy` (module `AssetChoices`) holds the tables, the lookups
  and the label lists.
- `model_asset.dfy` (module `ModelAsset`) holds the record, the elapsed-time
  triple, `value` and `balance`.

The elapsed time is returned exactly, as the triple `(years, days, denom)`
whose value is `years + days / denom`. No floating point is involved. The
model keeps the code's arithmetic as it is:

- The day count is stored in `wxDateTime_t`, an unsigned 16-bit type. It is
  therefore taken modulo 2^16. For a start date later than today in the same
  year, the difference wraps (`ElapsedWithinYearWraps`).
- When the anniversary has not been reached, the code borrows a year. It then
  counts the rest of the start year, not the rest of the year before today.
  The lemmas state this against the true day count.
- The denominator is always the length of today's year.

Inputs the code reads from its environment are parameters:

- "today" (the code reads it from the system clock);
- the power function, which the model never interprets. Properties that need
  it take its behaviour as an explicit hypothesis;
- the list of assets (the code reads it from the database).

Model_Asset.h, which declares the enumerators, is not part of this model. The
enumerators are taken to be numbered from 0 in table order. `ASSETTYPE`
(line 94) relies on this when it indexes the label list with an enumerator.

## Model

| member | source | states |
|---|---|---|
| `Calendar.DaysInYear` | src/model/Model_Asset.cpp:157 | a year has 365 days, or 366 exactly when it is a Gregorian leap year |
| `Calendar.DayOfYear` | src/model/Model_Asset.cpp:148 | the ordinal date of a valid date lies between 1 and the length of its year |
| `Calendar.DayOfYearOrder` | src/model/Model_Asset.cpp:146-148 | within one year, comparing days of year is the same as comparing the dates, and equal days of year mean equal dates |
| `AssetChoices.FirstMatch` | src/model/Model_Asset.cpp:114 | the scan stops at the first entry whose label equals the input ignoring case; no earlier entry matches, and reaching the end means no entry matches |
| `AssetChoices.FirstMatchFindsOwnEntry` | src/model/Model_Asset.cpp:114 | in a table whose labels differ ignoring case, any spelling of an entry's label finds exactly that entry |
| `AssetChoices.RateLabelsDistinct` | src/model/Model_Asset.cpp:21-26 | the three rate labels are pairwise different ignoring case |
| `AssetChoices.TypeLabelsDistinct` | src/model/Model_Asset.cpp:28-37 | the seven type labels are pairwise different ignoring case |
| `AssetChoices.RateOf` | src/model/Model_Asset.cpp:124-128 | the result is -1 exactly when no rate label equals the input ignoring case; otherwise it is the enumerator of the first matching label |
| `AssetChoices.TypeOf` | src/model/Model_Asset.cpp:112-117 | the result is -1 exactly when no type label equals the input ignoring case; otherwise it is the enumerator of the first matching label |
| `AssetChoices.RateOfLabel` | src/model/Model_Asset.cpp:124-128 | a rate label in any case resolves to its own enumerator |
| `AssetChoices.TypeOfLabel` | src/model/Model_Asset.cpp:112-117 | a type label in any case resolves to its own enumerator |
| `AssetChoices.TypeOfExamples` | src/model/Model_Asset.cpp:112-117 | "automobile" and "AUTOMOBILE" resolve to the automobile enumerator; "Boat" resolves to -1 |
| `AssetChoices.CollectLabels` | src/model/Model_Asset.cpp:68-80 | the loop appends every label of the table, in table order and nothing else |
| `AssetChoices.AllRate` | src/model/Model_Asset.cpp:68-73 | the three rate labels in table order; each resolves back to its position under `rate` |
| `AssetChoices.AllType` | src/model/Model_Asset.cpp:75-80 | the seven type labels in table order; each resolves back to its position under `type` |
| `ModelAsset.ToDateTimeT` | src/model/Model_Asset.cpp:148 | storing into the unsigned 16-bit day count keeps values in [0, 2^16) and shifts a negative difference up by 2^16 |
| `ModelAsset.ElapsedYears` | src/model/Model_Asset.cpp:140-166 | the denominator is always the length of today's year, never the start year's, and the day count fits the 16-bit type |
| `ModelAsset.ElapsedWithinYear` | src/model/Model_Asset.cpp:146-150 | same year with start not after today: 0 whole years, and the day count is the day-of-year difference, which equals the true number of days between the dates |
| `ModelAsset.ElapsedWithinYearWraps` | src/model/Model_Asset.cpp:148 | same year with start after today: the day count wraps to 2^16 minus the true gap, so it exceeds 2^16 - 366 |
| `ModelAsset.ElapsedAfterAnniversary` | src/model/Model_Asset.cpp:160-165 | later year, anniversary reached: the whole years are the difference of the calendar years and the days are the day-of-year difference, within [0, 365]; this is the true gap less every full year from the start year up to today's year |
| `ModelAsset.ElapsedBeforeAnniversary` | src/model/Model_Asset.cpp:153-158 | later year, anniversary not reached: one year fewer, and the days are the rest of the start year plus today's day of year, within [1, start year length - 1]; this is the true gap less the years strictly between, so it is exact across one new year |
| `ModelAsset.ElapsedSameDay` | src/model/Model_Asset.cpp:146-149 | from a date to itself, elapsed time is exactly 0 |
| `ModelAsset.ElapsedYearsCountsAnniversaries` | src/model/Model_Asset.cpp:153-156 | for start not after today, the whole years are the year difference less one when today's day of year is before the start's; they are never negative |
| `ModelAsset.ElapsedFractionBounds` | src/model/Model_Asset.cpp:146-165 | for start not after today, the day count is at most the denominator, so the fraction lies in [0, 1] and the elapsed time is non-negative |
| `ModelAsset.ElapsedMonotone` | src/model/Model_Asset.cpp:140-166 | for start not after today, the elapsed time never decreases as today advances, across new years and leap years |
| `ModelAsset.ElapsedAcrossNewYearExample` | src/model/Model_Asset.cpp:154-158 | 2019-12-01 to 2020-01-10 gives 0 whole years and 40 days over 366 |
| `ModelAsset.ElapsedLeapDayExample` | src/model/Model_Asset.cpp:146-149 | 2016-02-28 to 2016-03-01 gives 2 days over 366 |
| `ModelAsset.Value` | src/model/Model_Asset.cpp:167-181 | when the value-change label resolves to neither appreciation nor depreciation (None, or -1 for an unknown label), the recorded value is returned unchanged |
| `ModelAsset.ValueWithoutTrend` | src/model/Model_Asset.cpp:167-181 | a value-change label of "None" in any case, or one matching no label, keeps the recorded value |
| `ModelAsset.ValueOnStartDate` | src/model/Model_Asset.cpp:140-181 | valued on its start date, an asset is worth its recorded value, for any trend, when x^0 = 1 |
| `ModelAsset.AppreciationNonDecreasing` | src/model/Model_Asset.cpp:171-173 | an appreciating asset with non-negative value and rate is worth no less on a later day, when pow grows with the exponent for bases of at least 1 |
| `ModelAsset.DepreciationNonIncreasing` | src/model/Model_Asset.cpp:174-176 | a depreciating asset with non-negative value and a rate of at most 100% is worth no more on a later day, when pow shrinks with the exponent for bases in [0, 1] |
| `ModelAsset.Balance` | src/model/Model_Asset.cpp:82-90 | the loop adds the projected values in order; the balance of no assets is 0 |
| `ModelAsset.BalanceWithoutTrend` | src/model/Model_Asset.cpp:82-90 | when no asset appreciates or depreciates, the balance is the sum of the recorded values |

## Left out

- `instance(db)`, `instance()`, the constructor and the destructor: singleton set-up and caching over an SQLite connection.
- `ASSETTYPE(type, op)` and the query builder `STARTDATE(const wxDate&, OP)`: query builders over the generated table class.
- `STARTDATE(const Data*)`, which `value` calls to read the start date, and `STARTDATE(const Data&)`: both parse the stored date string with `Model::to_date`, which is not part of this model. Start dates are given as dates.
- The `type(const Data&)`, `rate(const Data&)` and `value(const Data&)` overloads: each only forwards to the pointer version, and the model takes the stored strings and records as values.
- `currency()`: a call into the currency table, which is not part of this model.
- `wxTRANSLATE`: only the untranslated English labels are modelled.
- `CmpNoCase` is modelled as ASCII case folding. Locale-dependent folding of non-ASCII letters is not captured.
- `wxDate::Today()`: "today" is a parameter.
- `ModelAsset.Value`: says nothing about the two compounding branches beyond their use of the power function. `pow` is a parameter with no interpretation, because it is floating-point arithmetic.
- Double precision: amounts, rates and the elapsed time are exact reals, so the model does not capture rounding in the division, in `pow` or in the sum of `balance`.
- `ModelAsset.Balance`: takes the assets as a sequence in place of `this->all()`, which reads the database. It values every asset on one given `today`. The code's `value` reads the clock again for each record, so a sum that runs across midnight values some assets on the next day; that is not captured.
- The 32-bit range of `int` years: years are unbounded integers.
- wxDateTime's own range limits and calendar handling outside its supported dates: every year here follows the proleptic Gregorian calendar.
