/** The records of the coupon table (the shapes declared in src/types.ts). */
module Types {
  import opened Wrappers

  /** The four scopes a limit applies to, in the order addCoupon lists them. */
  datatype RepeatCountType = GlobalTotal | UserTotal | UserDaily | UserWeekly

  /** One limit of a coupon. The limit comes from `Number(process.env.X)`;
      `None` stands for the NaN an unset variable gives, which no
      comparison `count >= limit` ever reaches. */
  datatype RepeatCountConfig = RepeatCountConfig(countType: RepeatCountType, limit: Option<nat>)

  /** One user's counters for one coupon. The source keeps them in one
      string-keyed record under the keys "total", "YYYY-MM-DD" and
      "week_N"; those three kinds of key never collide, so they are kept
      here as a total, a day-key map and a week-number map. */
  datatype UserUsage = UserUsage(total: nat, days: map<string, nat>, weeks: map<int, nat>)

  /** A coupon: its code, its four limits, the global redemption counter
      and the per-user counters. */
  datatype CouponCode = CouponCode(
    code: string,
    repeatCountConfigs: seq<RepeatCountConfig>,
    usageCount: nat,
    userUsage: map<string, UserUsage>)

  /** The four limit variables as they stand when a coupon is created
      (GLOBAL_TOTAL_LIMIT, USER_TOTAL_LIMIT, USER_DAILY_LIMIT,
      USER_WEEKLY_LIMIT). */
  datatype Limits = Limits(
    globalTotal: Option<nat>,
    userTotal: Option<nat>,
    userDaily: Option<nat>,
    userWeekly: Option<nat>)
}
