/** CouponCodeService: the in-memory coupon table and its three
    operations. The table is a field that addCoupon and applyCoupon update
    in place; verifyCoupon only reads it. The current day is a parameter
    where the source reads the clock, and the four limits are a parameter
    where the source reads the environment. */
module CouponService {
  import opened Wrappers
  import opened Calendar
  import opened IsoDate
  import opened Types
  import opened Counters
  import opened Quota

  /** Every entry is stored under its own code and keeps the quota
      invariants of Quota.CouponInvariant. */
  ghost predicate TableValid(table: map<string, CouponCode>) {
    forall code :: code in table ==> table[code].code == code && CouponInvariant(table[code])
  }

  /** Storing a coupon that keeps the invariants under its own code keeps
      the table valid. */
  lemma StoreValid(table: map<string, CouponCode>, code: string, c: CouponCode)
    requires TableValid(table) && c.code == code && CouponInvariant(c)
    ensures TableValid(table[code := c])
  {
  }

  /** The increments of applyCoupon once the check has passed, one field
      at a time: the global count, then (for a non-empty user id) the user's
      record, created empty if absent, its total, today's day bucket and
      this week's bucket. The result is the coupon Quota.Redeem describes. */
  method CountRedemption(c: CouponCode, userId: Option<string>, now: Stamp) returns (coupon: CouponCode)
    ensures coupon == Redeem(c, userId, now)
  {
    coupon := c.(usageCount := c.usageCount + 1);
    if HasUser(userId) {
      var user := userId.value;
      var usage := if user in coupon.userUsage then coupon.userUsage[user] else UserUsage(0, map[], map[]);
      usage := usage.(total := usage.total + 1);
      var dayKey := now.dayKey;
      usage := usage.(days := usage.days[dayKey := Count(usage.days, dayKey) + 1]);
      var week := now.week;
      usage := usage.(weeks := usage.weeks[week := Count(usage.weeks, week) + 1]);
      coupon := coupon.(userUsage := coupon.userUsage[user := usage]);
    }
  }

  class CouponCodeService {
    /** The coupons by code. */
    var coupons: map<string, CouponCode>

    /** The class invariant: the table is valid. */
    ghost predicate Valid()
      reads this
    {
      TableValid(coupons)
    }

    /** A service starts with no coupons. */
    constructor()
      ensures Valid() && coupons == map[]
    {
      coupons := map[];
    }

    /** addCoupon: fails on a code that is already present and changes
        nothing; otherwise stores a fresh coupon with the four limits, a
        zero global count and no user records, and touches no other code. */
    method AddCoupon(code: string, env: Limits) returns (result: Outcome<string>)
      requires Valid()
      modifies this
      ensures Valid()
      ensures code in old(coupons) ==>
                result == Fail("Coupon code '" + code + "' already exists") && coupons == old(coupons)
      ensures code !in old(coupons) ==>
                result == Pass && coupons == old(coupons)[code := NewCoupon(code, env)]
    {
      if code in coupons {
        return Fail("Coupon code '" + code + "' already exists");
      }
      NewCouponInvariant(code, env);
      StoreValid(coupons, code, NewCoupon(code, env));
      coupons := coupons[code := NewCoupon(code, env)];
      result := Pass;
    }

    /** verifyCoupon: false for an unknown code; for a known one, true
        exactly when every limit is below its bound. It reads the table and
        changes nothing, so equal inputs on an equal table give equal
        answers. */
    function VerifyCoupon(code: string, userId: Option<string>, today: Day): (ok: bool)
      requires Valid()
      reads this
      ensures code !in coupons ==> !ok
      ensures code in coupons ==> (ok <==> WithinLimits(coupons[code], userId, StampOf(today)))
    {
      if code !in coupons then false
      else
        AdmitsExactly(coupons[code], userId, StampOf(today));
        Admits(coupons[code], userId, StampOf(today))
    }

    /** applyCoupon: runs the check; if it fails, returns false and the
        table is unchanged. Otherwise it adds one to the global count and,
        for a non-empty user id, creates the user's record if absent and adds
        one to its total, to today's day bucket and to this week's bucket;
        no other coupon, user or bucket changes, and the invariants hold
        afterwards. */
    method ApplyCoupon(code: string, userId: Option<string>, today: Day) returns (applied: bool)
      requires Valid()
      modifies this
      ensures Valid()
      ensures applied == old(VerifyCoupon(code, userId, today))
      ensures !applied ==> coupons == old(coupons)
      ensures applied ==>
                && code in old(coupons)
                && coupons == old(coupons)[code := Redeem(old(coupons)[code], userId, StampOf(today))]
    {
      if !VerifyCoupon(code, userId, today) {
        return false;
      }
      var now := StampOf(today);
      var coupon := CountRedemption(coupons[code], userId, now);
      RedeemPreservesInvariant(coupons[code], userId, now);
      StoreValid(coupons, code, coupon);
      coupons := coupons[code := coupon];
      applied := true;
    }
  }
}
