# Coupon quota engine

A Dafny model of `CouponCodeService` (src/couponService.ts). The service is
an in-memory table of coupons. Each coupon carries four limits: a global
cap on redemptions, and per-user caps over all time, per UTC calendar day
and per week number.

- `addCoupon` creates a coupon. The limits come from four environment
  variables read at that moment.
- `verifyCoupon` checks whether one more redemption is allowed. It looks at
  the global count and, when a user id is given, at that user's total,
  today's day bucket and this week's `week_N` bucket.
- `applyCoupon` runs the check and, if it passes, increments those counters.

The model is in eight modules:

- `Wrappers`: `Option` and `Outcome`.
- `Types`: the records of src/types.ts. A user's usage is a structured
  record with a total, a day-key map and a week-number map. The source keeps
  all three in one string-keyed object, under `"total"`, `"YYYY-MM-DD"` and
  `"week_N"`. Those keys can never collide, so splitting them loses nothing.
- `Counters`: the `x || 0` reads and `+ 1` writes on a counter map, and the
  sum of a map's counts.
- `Calendar` and `IsoDate`: the two bucket keys, both in UTC.
  - The day key is the date part of `toISOString()`. The model converts the
    day number to a civil date and formats it as `YYYY-MM-DD`, or as
    `+YYYYYY-MM-DD` after year 9999. It proves that the key reads back to
    the date, so distinct days get distinct keys.
  - The week key is `getWeekNumber`, the ISO 8601 week number. It moves to
    the Thursday of the Monday-based week and takes
    `Math.ceil((ordinal + 1) / 7)` on reals. The model proves that this
    equals `ordinal / 7 + 1`, that the result lies in 1..53, that a whole
    Monday-to-Sunday week shares one number, and that the next week has a
    different number.
- `Quota`: the check (`Admits`) and the update (`Redeem`) on coupon values,
  and the invariants the update keeps:
  - the global count is within the global limit;
  - each user's total is within the user limit;
  - each day bucket and each week bucket is within its limit;
  - a user's day buckets, and also that user's week buckets, add up to the
    user's total;
  - the users' totals add up to at most the global count.
- `CouponService`: the class `CouponCodeService`. It has a `coupons` map
  field that `AddCoupon` and `ApplyCoupon` update, and `VerifyCoupon` is a
  function that reads it. Each method is proved against the `Quota` functions
  and keeps the class invariant `Valid()`.
- `Scenarios`: behaviours under the limits the test suite sets
  (10 / 3 / 1 / 2). Most follow a test of src/__tests__/couponService.test.ts;
  `SameWeekNumber` and `WeekKeyIgnoresYear` go beyond the suite and show
  how the week key behaves. Two go through the service class, the rest are
  stated on coupon values, which `ApplyCoupon`'s contract ties to the class.

Inputs the source reads from its surroundings are parameters here:

- the current time is `today`, a day number counted from 1970-01-01;
- the environment limits are a `Limits` value, where `None` stands for an
  unset variable, whose `Number(undefined)` is NaN and never reached;
- the user id is `Option<string>`. Both `None` and `Some("")` skip the user
  checks, following JavaScript truthiness.

The two bucket keys derived from `today` are grouped as a `Quota.Stamp`.

Two behaviours of the code, and one test that does not match it:

- The week key is the week number alone, with no year. Week 1 of 2023 and
  week 1 of 2024 share one bucket. `Scenarios.WeekKeyIgnoresYear` shows a
  user refused on 2024-01-01 because of two redemptions a year earlier.
- 2023-01-01 is a Sunday in week 52, not in the same week as 2023-01-02.
  2023-01-02 to 2023-01-08 are all week 1. See
  `Calendar.WeekNumberExamples`.
- The test "should respect user total limit"
  (src/__tests__/couponService.test.ts:65-70) expects three redemptions by
  one user on one day to succeed. With USER_DAILY_LIMIT=1 the code refuses
  the second one (`Scenarios.SameDay`). The day-reset and week-reset tests
  (lines 97-137) pass on any two distinct days (`Scenarios.NextDay`):
  - one redemption leaves the weekly limit of 2 unreached;
  - so neither test depends on a week boundary.

## Model

| member | source | states |
|---|---|---|
| Quota.ConfigsFor | src/couponService.ts:14-35 | The four configs addCoupon builds, one of each type. |
| Quota.NewCoupon | src/couponService.ts:14-36 | A new coupon has its code, the four configs GLOBAL_TOTAL, USER_TOTAL, USER_DAILY, USER_WEEKLY in that order with the given limits, a zero global count and no user records. |
| Quota.StampOf | src/couponService.ts:87-90 | The keys of a day: its day key and a week number in 1..53. |
| Quota.Reached | src/couponService.ts:47 | `count >= limit` is never true for a NaN limit, and a count below its limit is still within it after one increment. |
| Quota.UsageOf | src/couponService.ts:52 | A user's stored record, or for a user without one a record whose total and every bucket read as 0. |
| Quota.FindConfig | src/couponService.ts:44-46 | `find` gives nothing exactly when no config has the type; otherwise it gives the first config of that type. |
| Quota.GlobalAllows | src/couponService.ts:44-49 | A coupon with no GLOBAL_TOTAL config passes the global check. On a coupon as addCoupon builds it, the check passes exactly when the global count is below the global limit. |
| Quota.ConfigRejects | src/couponService.ts:54-67 | Only a user config with a numeric limit can reject, and a limit of 0 always rejects. |
| Quota.UserChecksPass | src/couponService.ts:53-68 | The user loop, with its early `return false`, gets through exactly when no config in the list rejects. |
| Quota.Admits | src/couponService.ts:44-71 | The check on a known coupon passes exactly when the global check does and, for a non-empty user id, no config rejects that user's counts. |
| Quota.AdmitsExactly | src/couponService.ts:44-69 | On a coupon as addCoupon builds it, the check passes exactly when the global count is below the global limit and, for a non-empty user id, the user's total, today's bucket and this week's bucket are each below their limits. An unset limit never rejects. |
| Quota.NewCouponWithinLimits | src/couponService.ts:44-69 | A fresh coupon admits anyone on any day unless one of the limits that applies is 0. |
| Quota.AnonymousOnlyGlobal | src/couponService.ts:51-69 | With no user id, or an empty one, only the global check applies. |
| Quota.Recorded | src/couponService.ts:84-91 | A user's record after one more redemption: the total, today's bucket and this week's bucket are each one higher, and every other bucket is unchanged. |
| Quota.Redeem | src/couponService.ts:77-92 | The coupon after the increments keeps its code and configs and has one more in the global count. Without a user nothing else changes. With one, that user gets a record (created if absent) counted once more, and no other user is touched. |
| Quota.RedeemEffect | src/couponService.ts:77-92 | A redemption adds one to the global count. For a user, the record is created if absent, and its total, today's bucket and this week's bucket each go up by one. Every other bucket, user, code and config is unchanged. |
| Quota.RedeemOtherDay | src/couponService.ts:87-88 | A redemption leaves the bucket of every other day unchanged, because distinct days have distinct day keys. |
| Quota.RedeemOtherWeek | src/couponService.ts:90-91 | A redemption leaves the bucket of every other week number unchanged. |
| Quota.NewCouponInvariant | src/couponService.ts:14-36 | A new coupon satisfies the quota invariants. |
| Quota.BucketsWithinTotal | src/couponService.ts:85-91 | Under the invariant, each of a user's day and week buckets is at most the user's total. |
| Quota.BumpWithin | src/couponService.ts:88-91 | A bucket below its limit is still within the limit after one increment. |
| Quota.RecordedInvariant | src/couponService.ts:84-91 | A user record below all three user limits keeps its invariant after the three increments: every count within its limit, and the day buckets and the week buckets each summing to the total. |
| Quota.UsersAfterRecord | src/couponService.ts:80-92 | After one user's increments, every user record is still consistent. |
| Quota.TotalsAfterRecord | src/couponService.ts:80-85 | After one user's increments, the sum of the users' totals has gone up by exactly one. |
| Quota.RedeemBelowLimits | src/couponService.ts:77-92 | A coupon that satisfies the invariants and is below every limit still satisfies them after the redemption. |
| Quota.RedeemPreservesInvariant | src/couponService.ts:74-92 | A redemption the check admits preserves the invariants and the coupon's limits. |
| Quota.GlobalLimitPermanent | src/couponService.ts:47-49 | Once the global count has reached the global limit, every user is refused on every day. Since a refused call leaves the table unchanged (`ApplyCoupon`), the refusal is permanent. |
| Counters.Count | src/couponService.ts:88 | A missing key reads as 0: a stored count reads as itself, and the read is 0 exactly when the key is missing or its count is 0. |
| Counters.Bump | src/couponService.ts:88 | An increment that reads a missing count as 0: the key is added if absent, its count goes up by one, and every other count is unchanged. |
| Counters.SumBump | src/couponService.ts:88 | One increment raises the sum of a counter map by exactly one. |
| Calendar.DateOf | src/couponService.ts:87 | A day number gives a valid calendar date from 1970 on. |
| Calendar.DayOfDateOf | src/couponService.ts:87 | Converting a day to a date and back gives the day. |
| Calendar.DateOfDayOf | src/couponService.ts:87 | Converting a valid date to a day and back gives the date. |
| Calendar.DateOfInjective | src/couponService.ts:87 | Distinct days have distinct dates. |
| IsoDate.YearText | src/couponService.ts:87 | The year field of `toISOString`: exactly four characters for years up to 9999, otherwise a leading '+', and never a leading '-'. |
| IsoDate.Padded | src/couponService.ts:87 | `padStart` with '0': at least the width and at least one digit, exactly the width when the number fits, and a digit first. |
| IsoDate.ParsePadded | src/couponService.ts:87 | The padded digits of n read back as n. |
| IsoDate.FormatDate | src/couponService.ts:87 | The date text has '-' at the two separator positions and is 10 characters for years up to 9999. |
| IsoDate.ParseFormat | src/couponService.ts:87 | Parsing the formatted date text gives back the date. |
| IsoDate.DayKey | src/couponService.ts:87 | The day key has the `YYYY-MM-DD` shape, with '-' at its two separator positions, and is ten characters for years up to 9999. |
| IsoDate.DayKeyDate | src/couponService.ts:87 | The day key of a day reads back as that day's calendar date. |
| IsoDate.DayKeyInjective | src/couponService.ts:59-60 | Two days have the same day key exactly when they are the same day, so every UTC day has a bucket of its own. |
| IsoDate.DayKeyExample | src/__tests__/couponService.test.ts:108-110 | Day 19358 has the key "2023-01-01". |
| Calendar.UtcWeekday | src/couponService.ts:102 | `getUTCDay` lies in 0..6; day 0 (1970-01-01) and every seventh day after it is a Thursday. |
| Calendar.IsoWeekday | src/couponService.ts:102 | The ISO weekday: Sunday becomes 7 and every other weekday keeps its number. |
| Calendar.WeekThursday | src/couponService.ts:102-103 | `setUTCDate(getUTCDate() + 4 - dayNum)` with Sunday as 7: the Thursday of the Monday-based week, at most three days away. |
| Calendar.Ceil | src/couponService.ts:105 | `Math.ceil`: the least integer at or above its argument. |
| Calendar.CeilDivSeven | src/couponService.ts:105 | `Math.ceil((k + 1) / 7)` on reals equals `k / 7 + 1` in integer division. |
| Calendar.WeekNumber | src/couponService.ts:98-106 | The week number lies in 1..53. |
| Calendar.SameWeekSameNumber | src/couponService.ts:98-106 | All seven days from a Monday to the next Sunday share one Thursday and one week number. |
| Calendar.NextWeekNumber | src/couponService.ts:98-106 | The week seven days later has the next number, or number 1 after week 52 or 53, so consecutive weeks never share a bucket. |
| Calendar.ExampleDays | src/couponService.ts:99-104 | 2022-01-01, 2023-01-01 and 2024-01-01 are days 18993, 19358 and 19723 (the `Date.UTC` day count). |
| Calendar.WeekNumberExamples | src/couponService.ts:98-106 | 2023-01-01 is a Sunday in week 52. 2023-01-02 (Monday) and 2023-01-08 (Sunday) are week 1, and so is 2024-01-01. |
| CouponService.CouponCodeService.constructor | src/couponService.ts:6-8 | A new service has an empty table, which satisfies the invariant. |
| CouponService.CouponCodeService.AddCoupon | src/couponService.ts:10-38 | A duplicate code fails with "Coupon code '<code>' already exists" and the table is unchanged. A new code gets exactly the fresh coupon. The invariant is kept. |
| CouponService.CouponCodeService.VerifyCoupon | src/couponService.ts:40-72 | An unknown code gives false. A known code gives true exactly when every limit is below its bound. It only reads the table. |
| CouponService.CountRedemption | src/couponService.ts:77-92 | The field-by-field increments give the coupon `Quota.Redeem` describes. |
| CouponService.CouponCodeService.ApplyCoupon | src/couponService.ts:74-96 | The result is the check's result. On false the table is unchanged. On true only that code's entry changes, to its redemption. The invariant is kept. |
| Scenarios.DuplicateCode | src/__tests__/couponService.test.ts:19-24 | Adding TEST123 twice: the second call fails with "Coupon code 'TEST123' already exists". |
| Scenarios.FreshCoupon | src/__tests__/couponService.test.ts:32-56 | A fresh coupon passes the check with and without a user. An unknown code fails the check and is not applied. |
| Scenarios.SameDay | src/__tests__/couponService.test.ts:72-75 | After one redemption, the same user is refused for the rest of that day. |
| Scenarios.NextDay | src/__tests__/couponService.test.ts:97-116 | After one redemption, the same user is admitted on any other day. |
| Scenarios.SameWeekNumber | src/couponService.ts:90-91 | Two redemptions on days with one week number fill the weekly bucket for every day with that number. |
| Scenarios.WeekKeyIgnoresYear | src/couponService.ts:90-91 | Redemptions on 2023-01-02 and 2023-01-08 make the user's redemption on 2024-01-01 refused. |
| Scenarios.DistinctUsers | src/__tests__/couponService.test.ts:58-61 | Up to ten distinct users in turn are each admitted. |
| Scenarios.DistinctUsersState | src/__tests__/couponService.test.ts:58-61 | After those users, the global count equals their number and each of them has a record. |
| Scenarios.GlobalLimitReached | src/__tests__/couponService.test.ts:58-63 | Ten distinct users are admitted and then an eleventh call is refused. |

## Left out

- Reading the environment and `Number(...)`: the limits are a parameter. Limits that are negative, fractional or from unparsable text (`Number("x")` is NaN, `Number("")` is 0) are represented only as NaN (`None`) or a natural number.
- The clock: `new Date()` becomes a day number. Times before 1970-01-01 and the time of day are not modelled. Every `new Date()` in one call is read as the same day, so a call that runs across midnight is not modelled.
- JavaScript `Date` range limits: `toISOString` throws beyond year 275760. The model formats any day.
- `getWeekNumber` reads the date with the local-time getters (`getFullYear`, `getMonth`, `getDate`), while the day key is UTC. Both are modelled in UTC, as if the process ran at UTC offset zero.
- `printCouponStatus` and its calls (src/couponService.ts:108-119, 37, 94): console output only.
- src/app.ts: the HTTP routes and status codes are transport and are not part of this model.
- Object-key quirks of JavaScript records, such as a coupon code or user id equal to `__proto__` or another inherited property name.
- Aliasing: the source updates the coupon object and the user record in place inside the table. The model keeps them as values and replaces the table entry. Nothing outside the class holds a reference to them, so the final state is the same.
- Concurrency: the source is single-threaded, and a check followed by its update is one method call here.
- Which limit refused a redemption: the source returns only a boolean, and so does the model.
- Quota.StampOf: states only the range of the week number. That distinct days have distinct day keys is `IsoDate.DayKeyInjective`.
- Number precision: the counters are JavaScript numbers (`usageCount++` and the `+ 1` writes at src/couponService.ts:78, 85, 88 and 91), exact only up to 2^53. The model's counters are unbounded naturals.
- The Date mock of the day-reset and week-reset tests (src/__tests__/couponService.test.ts:99-106, 120-127) makes every `new Date(...)` return the mocked instant whatever its arguments. Under it `getWeekNumber` subtracts the mocked instant from its own Thursday and yields week 0 for both mocked Sundays. The model computes the ISO week number of the actual day, as the code does without the mock.
