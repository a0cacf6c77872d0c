/** Behaviours under the limits the test suite sets
    (src/__tests__/couponService.test.ts): two through the service class,
    the rest on coupon values, which ApplyCoupon's contract ties to the
    class. SameWeekNumber and WeekKeyIgnoresYear go beyond the suite. */
module Scenarios {
  import opened Wrappers
  import opened Calendar
  import opened IsoDate
  import opened Types
  import opened Counters
  import opened Quota
  import opened CouponService

  /** GLOBAL_TOTAL_LIMIT=10, USER_TOTAL_LIMIT=3, USER_DAILY_LIMIT=1,
      USER_WEEKLY_LIMIT=2. */
  const TestLimits: Limits := Limits(Some(10), Some(3), Some(1), Some(2))

  /** The coupon after its first redemption by `user` on day d: one
      redemption globally and for the user, today's bucket full under the
      daily limit of 1, every other day's bucket empty, and at most one in
      any week's bucket. */
  lemma AfterFirst(code: string, user: string, d: Day, other: Day)
    requires user != ""
    ensures var c1 := Redeem(NewCoupon(code, TestLimits), Some(user), StampOf(d));
            && c1.code == code && WellFormed(c1) && EnvOf(c1) == TestLimits
            && c1.usageCount == 1 && UsageOf(c1, user).total == 1
            && DayCount(c1, user, StampOf(d)) == 1
            && (other != d ==> DayCount(c1, user, StampOf(other)) == 0)
            && WeekCount(c1, user, StampOf(other)) <= 1
  {
    var c0 := NewCoupon(code, TestLimits);
    RedeemEffect(c0, Some(user), StampOf(d));
    if other != d {
      RedeemOtherDay(c0, Some(user), d, other);
    }
  }

  /** Adding a code twice: the first call succeeds, the second fails with
      the duplicate message. */
  method DuplicateCode() returns (first: Outcome<string>, second: Outcome<string>)
    ensures first == Pass
    ensures second == Fail("Coupon code 'TEST123' already exists")
  {
    var service := new CouponCodeService();
    first := service.AddCoupon("TEST123", TestLimits);
    second := service.AddCoupon("TEST123", TestLimits);
    assert "Coupon code '" + "TEST123" + "' already exists" == "Coupon code 'TEST123' already exists";
  }

  /** A fresh coupon passes the check with and without a user; an unknown
      code does not, and an unknown code is not applied. */
  method FreshCoupon(today: Day) returns (anonymous: bool, withUser: bool, unknown: bool, unknownApplied: bool)
    ensures anonymous && withUser
    ensures !unknown && !unknownApplied
  {
    var service := new CouponCodeService();
    var _ := service.AddCoupon("TEST123", TestLimits);
    anonymous := service.VerifyCoupon("TEST123", None, today);
    withUser := service.VerifyCoupon("TEST123", Some("user1"), today);
    unknown := service.VerifyCoupon("INVALID", None, today);
    unknownApplied := service.ApplyCoupon("INVALID", Some("user1"), today);
  }

  /** The same user on the same day: the first redemption is admitted and
      the next one that day is refused by the daily limit of 1, before the
      user total of 3 is reached. (A refused call changes nothing, so every
      later call that day is refused too.) */
  lemma SameDay(user: string, today: Day)
    requires user != ""
    ensures var c0 := NewCoupon("TEST123", TestLimits);
            var c1 := Redeem(c0, Some(user), StampOf(today));
            Admits(c0, Some(user), StampOf(today)) && !Admits(c1, Some(user), StampOf(today))
  {
    var c0 := NewCoupon("TEST123", TestLimits);
    var c1 := Redeem(c0, Some(user), StampOf(today));
    NewCouponWithinLimits("TEST123", TestLimits, Some(user), StampOf(today));
    AdmitsExactly(c0, Some(user), StampOf(today));
    AfterFirst("TEST123", user, today, today);
    AdmitsExactly(c1, Some(user), StampOf(today));
  }

  /** After a redemption, the same user is admitted on any other day: that
      day has a bucket of its own, and one redemption leaves the weekly limit
      of 2 unreached whatever the week. */
  lemma NextDay(user: string, today: Day, later: Day)
    requires user != "" && later != today
    ensures var c1 := Redeem(NewCoupon("COMPLEX", TestLimits), Some(user), StampOf(today));
            Admits(c1, Some(user), StampOf(later))
  {
    var c1 := Redeem(NewCoupon("COMPLEX", TestLimits), Some(user), StampOf(today));
    AfterFirst("COMPLEX", user, today, later);
    AdmitsExactly(c1, Some(user), StampOf(later));
  }

  /** Two redemptions on two days with the same week number fill the weekly
      bucket, and a third day with that week number is refused, even when it
      lies in another year. */
  lemma SameWeekNumber(user: string, d1: Day, d2: Day, d3: Day)
    requires user != "" && d1 != d2 && d3 != d1 && d3 != d2
    requires WeekNumber(d1) == WeekNumber(d2) == WeekNumber(d3)
    ensures var c1 := Redeem(NewCoupon("COMPLEX", TestLimits), Some(user), StampOf(d1));
            var c2 := Redeem(c1, Some(user), StampOf(d2));
            Admits(c1, Some(user), StampOf(d2)) && !Admits(c2, Some(user), StampOf(d3))
  {
    var c1 := Redeem(NewCoupon("COMPLEX", TestLimits), Some(user), StampOf(d1));
    var c2 := Redeem(c1, Some(user), StampOf(d2));
    AfterFirst("COMPLEX", user, d1, d2);
    NextDay(user, d1, d2);
    RedeemEffect(c1, Some(user), StampOf(d2));
    assert WeekCount(c2, user, StampOf(d3)) == 2 by {
      assert WeekCount(c1, user, StampOf(d2)) == 1 by {
        RedeemEffect(NewCoupon("COMPLEX", TestLimits), Some(user), StampOf(d1));
      }
    }
    AdmitsExactly(c2, Some(user), StampOf(d3));
  }

  /** 2023-01-02 (day 19359), 2023-01-08 (day 19365) and 2024-01-01
      (day 19723) all have week number 1: after redemptions on the first two,
      the weekly limit of 2 refuses the user a year later. */
  lemma WeekKeyIgnoresYear(user: string)
    requires user != ""
    ensures var c1 := Redeem(NewCoupon("COMPLEX", TestLimits), Some(user), StampOf(19359));
            var c2 := Redeem(c1, Some(user), StampOf(19365));
            !Admits(c2, Some(user), StampOf(19723))
  {
    WeekNumberExamples();
    SameWeekNumber(user, 19359, 19365, 19723);
  }

  /** The coupon after one redemption by each user in turn, all at the same
      time. */
  function RedeemEach(c: CouponCode, users: seq<string>, now: Stamp): CouponCode {
    if users == [] then c
    else Redeem(RedeemEach(c, users[..|users| - 1], now), Some(users[|users| - 1]), now)
  }

  /** A user without a record is admitted while the global count is below
      the global limit of 10. */
  lemma FreshUserAdmitted(c: CouponCode, user: string, now: Stamp)
    requires WellFormed(c) && EnvOf(c) == TestLimits && c.usageCount < 10
    requires user != "" && user !in c.userUsage
    ensures Admits(c, Some(user), now)
  {
    AdmitsExactly(c, Some(user), now);
  }

  /** After distinct users one after the other, up to the global limit of
      10, the global count is the number of users and each of them has a
      record. */
  lemma {:induction false} DistinctUsersState(users: seq<string>, now: Stamp)
    requires |users| <= 10
    requires forall i :: 0 <= i < |users| ==> users[i] != ""
    ensures var c := RedeemEach(NewCoupon("TEST123", TestLimits), users, now);
            && WellFormed(c) && EnvOf(c) == TestLimits && c.usageCount == |users|
            && (forall u :: u in c.userUsage <==> u in users)
  {
    if users == [] {
    } else {
      var n := |users| - 1;
      var prefix := users[..n];
      DistinctUsersState(prefix, now);
      RedeemEffect(RedeemEach(NewCoupon("TEST123", TestLimits), prefix, now), Some(users[n]), now);
      assert users == prefix + [users[n]];
    }
  }

  /** Each of those users is admitted in turn: a new user has nothing
      counted yet and the global count is below 10. */
  lemma DistinctUsers(users: seq<string>, now: Stamp)
    requires |users| <= 10
    requires forall i :: 0 <= i < |users| ==> users[i] != ""
    requires forall i, j :: 0 <= i < j < |users| ==> users[i] != users[j]
    ensures forall i :: 0 <= i < |users| ==>
              Admits(RedeemEach(NewCoupon("TEST123", TestLimits), users[..i], now), Some(users[i]), now)
  {
    forall i | 0 <= i < |users|
      ensures Admits(RedeemEach(NewCoupon("TEST123", TestLimits), users[..i], now), Some(users[i]), now)
    {
      var prefix := users[..i];
      DistinctUsersState(prefix, now);
      FreshUserAdmitted(RedeemEach(NewCoupon("TEST123", TestLimits), prefix, now), users[i], now);
    }
  }

  /** Ten distinct users are each admitted, and then an eleventh is
      refused: the global count has reached GLOBAL_TOTAL_LIMIT. */
  lemma GlobalLimitReached(users: seq<string>, eleventh: Option<string>, now: Stamp)
    requires |users| == 10
    requires forall i :: 0 <= i < |users| ==> users[i] != ""
    requires forall i, j :: 0 <= i < j < |users| ==> users[i] != users[j]
    ensures forall i :: 0 <= i < |users| ==>
              Admits(RedeemEach(NewCoupon("TEST123", TestLimits), users[..i], now), Some(users[i]), now)
    ensures !Admits(RedeemEach(NewCoupon("TEST123", TestLimits), users, now), eleventh, now)
  {
    DistinctUsers(users, now);
    DistinctUsersState(users, now);
    GlobalLimitPermanent(RedeemEach(NewCoupon("TEST123", TestLimits), users, now), eleventh, now);
  }
}
