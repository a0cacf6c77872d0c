/** The quota rules of one coupon, on coupon values: the check that
    verifyCoupon runs on a known coupon, the counter update that
    applyCoupon performs after it, and the invariants that update keeps. */
module Quota {
  import opened Wrappers
  import opened Calendar
  import opened IsoDate
  import opened Types
  import opened Counters

  // ---------------------------------------------------------------------
  // Creation

  /** The four configs addCoupon stores, in its order: one of each type. */
  function ConfigsFor(env: Limits): (cs: seq<RepeatCountConfig>)
    ensures |cs| == 4
    ensures forall i, j :: 0 <= i < j < |cs| ==> cs[i].countType != cs[j].countType
  {
    [ RepeatCountConfig(GlobalTotal, env.globalTotal),
      RepeatCountConfig(UserTotal, env.userTotal),
      RepeatCountConfig(UserDaily, env.userDaily),
      RepeatCountConfig(UserWeekly, env.userWeekly) ]
  }

  /** The entry addCoupon stores for a new code: the four configs with the
      given limits, a zero global count and no user records. */
  function NewCoupon(code: string, env: Limits): (c: CouponCode)
    ensures WellFormed(c) && EnvOf(c) == env
    ensures c.code == code && c.usageCount == 0 && c.userUsage == map[]
  {
    CouponCode(code, ConfigsFor(env), 0, map[])
  }

  /** The limits a coupon was created with. */
  function EnvOf(c: CouponCode): Limits
    requires |c.repeatCountConfigs| == 4
  {
    var cs := c.repeatCountConfigs;
    Limits(cs[0].limit, cs[1].limit, cs[2].limit, cs[3].limit)
  }

  /** The coupon holds the four configs in addCoupon's order. */
  predicate WellFormed(c: CouponCode) {
    |c.repeatCountConfigs| == 4 && c.repeatCountConfigs == ConfigsFor(EnvOf(c))
  }

  // ---------------------------------------------------------------------
  // The clock

  /** The two bucket keys derived from the current time: the day key
      (`toISOString().split("T")[0]`) and the week number (getWeekNumber). */
  datatype Stamp = Stamp(dayKey: string, week: int)

  /** The keys of a UTC day; the week number lies in 1..53. (Distinct days
      have distinct day keys: IsoDate.DayKeyInjective.) */
  function StampOf(today: Day): (now: Stamp)
    ensures 1 <= now.week <= 53
  {
    Stamp(DayKey(today), WeekNumber(today))
  }

  // ---------------------------------------------------------------------
  // The check

  /** `count >= limit` in JavaScript: never true when the limit is NaN, and
      a count that has not reached its limit stays within it after one more. */
  function Reached(count: nat, limit: Option<nat>): (r: bool)
    ensures limit.None? ==> !r
    ensures !r ==> Within(count + 1, limit)
  {
    limit.Some? && count >= limit.value
  }

  /** `if (userId)`: a user id that is given and not empty. */
  predicate HasUser(userId: Option<string>) {
    userId.Some? && userId.value != ""
  }

  /** `coupon.userUsage[userId] || {}` with every count read as `|| 0`: the
      stored record, or one whose counts are all zero. */
  function UsageOf(c: CouponCode, user: string): (u: UserUsage)
    ensures user in c.userUsage ==> u == c.userUsage[user]
    ensures user !in c.userUsage ==>
              && u.total == 0
              && (forall k :: Count(u.days, k) == 0)
              && (forall w :: Count(u.weeks, w) == 0)
  {
    if user in c.userUsage then c.userUsage[user] else NoUsage
  }

  /** The record of a user who has not redeemed yet. */
  const NoUsage: UserUsage := UserUsage(0, map[], map[])

  /** `repeatCountConfigs.find(config => config.countType === t)`: the
      first config of that type, if any. */
  function FindConfig(configs: seq<RepeatCountConfig>, t: RepeatCountType): (r: Option<RepeatCountConfig>)
    ensures r.None? <==> forall i :: 0 <= i < |configs| ==> configs[i].countType != t
    ensures r.Some? ==> exists i :: 0 <= i < |configs| && configs[i] == r.value && r.value.countType == t
                                    && forall j :: 0 <= j < i ==> configs[j].countType != t
  {
    if configs == [] then None
    else if configs[0].countType == t then Some(configs[0])
    else
      var r := FindConfig(configs[1..], t);
      assert forall i :: 1 <= i < |configs| ==> configs[i] == configs[1..][i - 1];
      r
  }

  /** The global check: rejects once usageCount has reached the limit of
      the coupon's GLOBAL_TOTAL config; a coupon without one, or with a NaN
      limit, always passes it. */
  function GlobalAllows(c: CouponCode): (ok: bool)
    ensures FindConfig(c.repeatCountConfigs, GlobalTotal).None? ==> ok
    ensures WellFormed(c) ==> (ok <==> !Reached(c.usageCount, EnvOf(c).globalTotal))
  {
    var g := FindConfig(c.repeatCountConfigs, GlobalTotal);
    !(g.Some? && Reached(c.usageCount, g.value.limit))
  }

  /** One pass of the switch in the user loop: does this config reject?
      Only a user config with a numeric limit can; a limit of 0 always does. */
  function ConfigRejects(config: RepeatCountConfig, usage: UserUsage, now: Stamp): (r: bool)
    ensures r ==> config.limit.Some? && config.countType != GlobalTotal
    ensures config.limit == Some(0) && config.countType != GlobalTotal ==> r
  {
    match config.countType
    case UserTotal => Reached(usage.total, config.limit)
    case UserDaily => Reached(Count(usage.days, now.dayKey), config.limit)
    case UserWeekly => Reached(Count(usage.weeks, now.week), config.limit)
    case GlobalTotal => false
  }

  /** The loop over repeatCountConfigs with its early `return false`:
      it gets through exactly when no config rejects. */
  function UserChecksPass(configs: seq<RepeatCountConfig>, usage: UserUsage, now: Stamp): (ok: bool)
    ensures ok <==> forall i :: 0 <= i < |configs| ==> !ConfigRejects(configs[i], usage, now)
  {
    if configs == [] then true
    else if ConfigRejects(configs[0], usage, now) then false
    else
      var ok := UserChecksPass(configs[1..], usage, now);
      assert forall i :: 1 <= i < |configs| ==> configs[i] == configs[1..][i - 1];
      ok
  }

  /** verifyCoupon on a coupon that exists: it passes exactly when the
      global check does and, for a non-empty user id, no config rejects the
      user's counts. */
  function Admits(c: CouponCode, userId: Option<string>, now: Stamp): (ok: bool)
    ensures ok <==> GlobalAllows(c) &&
                    (HasUser(userId) ==>
                       forall i :: 0 <= i < |c.repeatCountConfigs| ==>
                         !ConfigRejects(c.repeatCountConfigs[i], UsageOf(c, userId.value), now))
  {
    GlobalAllows(c)
    && (HasUser(userId) ==> UserChecksPass(c.repeatCountConfigs, UsageOf(c, userId.value), now))
  }

  /** The count for today's day key. */
  function DayCount(c: CouponCode, user: string, now: Stamp): nat {
    Count(UsageOf(c, user).days, now.dayKey)
  }

  /** The count for this week's `week_N` key. */
  function WeekCount(c: CouponCode, user: string, now: Stamp): nat {
    Count(UsageOf(c, user).weeks, now.week)
  }

  /** The limits one by one: the global count is below the global limit
      and, for a non-empty user id, the user's total, today's count and this
      week's count are each below their limits; an unset (NaN) limit never
      counts as reached. */
  predicate WithinLimits(c: CouponCode, userId: Option<string>, now: Stamp)
    requires |c.repeatCountConfigs| == 4
  {
    var env := EnvOf(c);
    && !Reached(c.usageCount, env.globalTotal)
    && (HasUser(userId) ==>
          && !Reached(UsageOf(c, userId.value).total, env.userTotal)
          && !Reached(DayCount(c, userId.value, now), env.userDaily)
          && !Reached(WeekCount(c, userId.value, now), env.userWeekly))
  }

  /** On a coupon as addCoupon creates it, the check with its config search,
      its loop and its early returns passes exactly when every limit is
      below its bound. */
  lemma AdmitsExactly(c: CouponCode, userId: Option<string>, now: Stamp)
    requires WellFormed(c)
    ensures Admits(c, userId, now) <==> WithinLimits(c, userId, now)
  {
    var cs := c.repeatCountConfigs;
    assert FindConfig(cs, GlobalTotal) == Some(cs[0]);
    if HasUser(userId) {
      var u := UsageOf(c, userId.value);
      assert UserChecksPass(cs, u, now) <==>
        !ConfigRejects(cs[1], u, now) && !ConfigRejects(cs[2], u, now) && !ConfigRejects(cs[3], u, now);
    }
  }

  /** A coupon fresh from addCoupon admits anyone on any day, unless one of
      the limits that apply is 0. */
  lemma NewCouponWithinLimits(code: string, env: Limits, userId: Option<string>, now: Stamp)
    ensures WithinLimits(NewCoupon(code, env), userId, now) <==>
              && !Reached(0, env.globalTotal)
              && (HasUser(userId) ==>
                    !Reached(0, env.userTotal) && !Reached(0, env.userDaily) && !Reached(0, env.userWeekly))
  {
  }

  /** Without a user id, or with an empty one, only the global limit counts. */
  lemma AnonymousOnlyGlobal(c: CouponCode, userId: Option<string>, now: Stamp)
    requires !HasUser(userId)
    ensures Admits(c, userId, now) <==> GlobalAllows(c)
  {
  }

  // ---------------------------------------------------------------------
  // The update

  /** A user's record after one more redemption on `today`: total, today's
      day key and this week's key each go up by one, every other key as it
      was. */
  function Recorded(u: UserUsage, now: Stamp): (r: UserUsage)
    ensures r.total == u.total + 1
    ensures Count(r.days, now.dayKey) == Count(u.days, now.dayKey) + 1
    ensures Count(r.weeks, now.week) == Count(u.weeks, now.week) + 1
    ensures forall k :: k != now.dayKey ==> Count(r.days, k) == Count(u.days, k)
    ensures forall w :: w != now.week ==> Count(r.weeks, w) == Count(u.weeks, w)
  {
    UserUsage(u.total + 1, Bump(u.days, now.dayKey), Bump(u.weeks, now.week))
  }

  /** The coupon after applyCoupon's increments (the check having passed):
      the same code and configs, one more in the global count and, for a
      non-empty user id, that user's record (created if absent) recorded
      once more, no other user touched. */
  function Redeem(c: CouponCode, userId: Option<string>, now: Stamp): (r: CouponCode)
    ensures r.code == c.code && r.repeatCountConfigs == c.repeatCountConfigs
    ensures r.usageCount == c.usageCount + 1
    ensures !HasUser(userId) ==> r.userUsage == c.userUsage
    ensures HasUser(userId) ==>
              && r.userUsage.Keys == c.userUsage.Keys + {userId.value}
              && r.userUsage[userId.value] == Recorded(UsageOf(c, userId.value), now)
              && forall other :: other in c.userUsage && other != userId.value ==>
                   r.userUsage[other] == c.userUsage[other]
  {
    var counted := c.(usageCount := c.usageCount + 1);
    if HasUser(userId) then
      counted.(userUsage := c.userUsage[userId.value := Recorded(UsageOf(c, userId.value), now)])
    else counted
  }

  /** What a redemption changes, and that it changes nothing else: the
      global count goes up by one; for a user, that user's record (created
      if absent) has its total, today's bucket and this week's bucket one
      higher and every other bucket as it was; no other user is touched. */
  lemma RedeemEffect(c: CouponCode, userId: Option<string>, now: Stamp)
    ensures var r := Redeem(c, userId, now);
            && r.code == c.code && r.repeatCountConfigs == c.repeatCountConfigs
            && r.usageCount == c.usageCount + 1
            && (!HasUser(userId) ==> r.userUsage == c.userUsage)
            && (HasUser(userId) ==>
                  var user := userId.value;
                  var before, after := UsageOf(c, user), UsageOf(r, user);
                  && r.userUsage.Keys == c.userUsage.Keys + {user}
                  && (forall other :: other in c.userUsage && other != user ==> r.userUsage[other] == c.userUsage[other])
                  && after.total == before.total + 1
                  && DayCount(r, user, now) == DayCount(c, user, now) + 1
                  && WeekCount(r, user, now) == WeekCount(c, user, now) + 1
                  && (forall k :: k != now.dayKey ==> Count(after.days, k) == Count(before.days, k))
                  && (forall w :: w != now.week ==> Count(after.weeks, w) == Count(before.weeks, w)))
  {
  }

  /** A redemption on one day leaves the bucket of every other day as it
      was: day keys of distinct days differ. */
  lemma RedeemOtherDay(c: CouponCode, userId: Option<string>, today: Day, other: Day)
    requires HasUser(userId) && other != today
    ensures var r := Redeem(c, userId, StampOf(today));
            DayCount(r, userId.value, StampOf(other)) == DayCount(c, userId.value, StampOf(other))
  {
    DayKeyInjective(other, today);
  }

  /** A redemption leaves the bucket of every other week number as it was
      (the week key carries no year: see Scenarios.WeekKeyIgnoresYear). */
  lemma RedeemOtherWeek(c: CouponCode, userId: Option<string>, today: Day, other: Day)
    requires HasUser(userId) && WeekNumber(other) != WeekNumber(today)
    ensures var r := Redeem(c, userId, StampOf(today));
            WeekCount(r, userId.value, StampOf(other)) == WeekCount(c, userId.value, StampOf(other))
  {
  }

  // ---------------------------------------------------------------------
  // Invariants

  /** `count <= limit`, vacuous for an unset limit. */
  predicate Within(count: nat, limit: Option<nat>) {
    limit.None? || count <= limit.value
  }

  /** Every count in the map is within the limit. */
  predicate AllWithin<K>(m: map<K, nat>, limit: Option<nat>) {
    forall k :: k in m ==> Within(m[k], limit)
  }

  /** The users' totals. */
  function Totals(users: map<string, UserUsage>): (t: map<string, nat>)
    ensures t.Keys == users.Keys
  {
    map user | user in users :: users[user].total
  }

  /** A user's counters: the total within USER_TOTAL, every day bucket
      within USER_DAILY, every week bucket within USER_WEEKLY, and the day
      buckets as well as the week buckets adding up to the total (each
      redemption goes to exactly one day and one week). */
  ghost predicate UsageInvariant(u: UserUsage, env: Limits) {
    && Within(u.total, env.userTotal)
    && AllWithin(u.days, env.userDaily)
    && AllWithin(u.weeks, env.userWeekly)
    && SumValues(u.days) == u.total
    && SumValues(u.weeks) == u.total
  }

  /** A coupon's counters: the global count within GLOBAL_TOTAL, every
      user's counters consistent, no record under the empty user id, and
      the users' totals adding up to at most the global count (anonymous
      redemptions count only globally). */
  ghost predicate UsersConsistent(users: map<string, UserUsage>, env: Limits) {
    forall user :: user in users ==> UsageInvariant(users[user], env)
  }

  ghost predicate CouponInvariant(c: CouponCode) {
    && WellFormed(c)
    && Within(c.usageCount, EnvOf(c).globalTotal)
    && "" !in c.userUsage
    && UsersConsistent(c.userUsage, EnvOf(c))
    && SumValues(Totals(c.userUsage)) <= c.usageCount
  }

  lemma NewCouponInvariant(code: string, env: Limits)
    ensures CouponInvariant(NewCoupon(code, env))
  {
    assert Totals(map[]) == map[];
  }

  /** Each of a user's day and week buckets is at most the user's total. */
  lemma BucketsWithinTotal(u: UserUsage, env: Limits)
    requires UsageInvariant(u, env)
    ensures forall k :: k in u.days ==> u.days[k] <= u.total
    ensures forall w :: w in u.weeks ==> u.weeks[w] <= u.total
  {
    forall k | k in u.days ensures u.days[k] <= u.total {
      SumAtLeast(u.days, k);
    }
    forall w | w in u.weeks ensures u.weeks[w] <= u.total {
      SumAtLeast(u.weeks, w);
    }
  }

  /** A bucket that has not reached its limit stays within it after one
      more increment. */
  lemma BumpWithin<K>(m: map<K, nat>, k: K, limit: Option<nat>)
    requires AllWithin(m, limit) && !Reached(Count(m, k), limit)
    ensures AllWithin(Bump(m, k), limit)
  {
  }

  lemma RecordedInvariant(u: UserUsage, env: Limits, now: Stamp)
    requires UsageInvariant(u, env)
    requires !Reached(u.total, env.userTotal)
    requires !Reached(Count(u.days, now.dayKey), env.userDaily)
    requires !Reached(Count(u.weeks, now.week), env.userWeekly)
    ensures UsageInvariant(Recorded(u, now), env)
  {
    var key, week := now.dayKey, now.week;
    var days, weeks := Bump(u.days, key), Bump(u.weeks, week);
    BumpWithin(u.days, key, env.userDaily);
    BumpWithin(u.weeks, week, env.userWeekly);
    SumBump(u.days, key);
    SumBump(u.weeks, week);
  }

  lemma NoUsageInvariant(env: Limits)
    ensures UsageInvariant(NoUsage, env)
  {
    assert SumValues(NoUsage.days) == 0;
    assert SumValues(NoUsage.weeks) == 0;
  }

  /** Giving one user a record with one more than the old total bumps that
      user's entry in the map of totals. */
  lemma TotalsRecorded(users: map<string, UserUsage>, user: string, v: UserUsage)
    requires v.total == (if user in users then users[user].total else 0) + 1
    ensures Totals(users[user := v]) == Bump(Totals(users), user)
  {
    var t, b := Totals(users[user := v]), Bump(Totals(users), user);
    assert t.Keys == b.Keys;
    forall k | k in t ensures t[k] == b[k] {
    }
  }

  /** A redemption the check admits keeps every limit: the global count,
      the user's total, every day bucket and every week bucket stay within
      their limits, and the counters stay consistent with each other. */
  lemma RedeemPreservesInvariant(c: CouponCode, userId: Option<string>, now: Stamp)
    requires CouponInvariant(c) && Admits(c, userId, now)
    ensures CouponInvariant(Redeem(c, userId, now))
    ensures EnvOf(Redeem(c, userId, now)) == EnvOf(c)
  {
    AdmitsExactly(c, userId, now);
    RedeemBelowLimits(c, userId, now);
  }

  /** The same, from the limits each counter is below. */
  lemma RedeemBelowLimits(c: CouponCode, userId: Option<string>, now: Stamp)
    requires CouponInvariant(c) && WithinLimits(c, userId, now)
    ensures CouponInvariant(Redeem(c, userId, now))
  {
    var r := Redeem(c, userId, now);
    assert r.repeatCountConfigs == c.repeatCountConfigs;
    if HasUser(userId) {
      var user := userId.value;
      assert r.userUsage == c.userUsage[user := Recorded(UsageOf(c, user), now)];
      UsersAfterRecord(c.userUsage, user, EnvOf(c), now);
      TotalsAfterRecord(c.userUsage, user, now);
    } else {
      assert r.userUsage == c.userUsage;
    }
    InvariantFromParts(r);
  }

  lemma InvariantFromParts(r: CouponCode)
    requires WellFormed(r) && Within(r.usageCount, EnvOf(r).globalTotal)
    requires "" !in r.userUsage && UsersConsistent(r.userUsage, EnvOf(r))
    requires SumValues(Totals(r.userUsage)) <= r.usageCount
    ensures CouponInvariant(r)
  {
  }

  /** The users' side of a redemption by `user`: every record stays
      consistent. */
  lemma UsersAfterRecord(users: map<string, UserUsage>, user: string, env: Limits, now: Stamp)
    requires UsersConsistent(users, env)
    requires var before := if user in users then users[user] else NoUsage;
             && !Reached(before.total, env.userTotal)
             && !Reached(Count(before.days, now.dayKey), env.userDaily)
             && !Reached(Count(before.weeks, now.week), env.userWeekly)
    ensures var before := if user in users then users[user] else NoUsage;
            UsersConsistent(users[user := Recorded(before, now)], env)
  {
    var before := if user in users then users[user] else NoUsage;
    assert UsageInvariant(before, env) by {
      if user !in users { NoUsageInvariant(env); }
    }
    RecordedInvariant(before, env, now);
  }

  /** ... and the sum of the users' totals goes up by one. */
  lemma TotalsAfterRecord(users: map<string, UserUsage>, user: string, now: Stamp)
    ensures var before := if user in users then users[user] else NoUsage;
            SumValues(Totals(users[user := Recorded(before, now)])) == SumValues(Totals(users)) + 1
  {
    var before := if user in users then users[user] else NoUsage;
    TotalsRecorded(users, user, Recorded(before, now));
    SumBump(Totals(users), user);
  }

  /** Once the global count has reached the global limit the check rejects
      every user on every day. The rejection is permanent because a refused
      applyCoupon leaves the table unchanged
      (CouponService.CouponCodeService.ApplyCoupon). */
  lemma GlobalLimitPermanent(c: CouponCode, userId: Option<string>, now: Stamp)
    requires WellFormed(c) && Reached(c.usageCount, EnvOf(c).globalTotal)
    ensures !Admits(c, userId, now)
  {
    AdmitsExactly(c, userId, now);
  }
}
