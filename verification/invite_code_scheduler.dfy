/**
 * The expiry sweeper as one pure step at time `now`. The source only runs
 * the bulk delete when some code expires at exactly `now`; the delete
 * itself then removes every code that expired strictly before `now`.
 */
module InviteCodeScheduler {
  import opened Common
  import opened Entities
  import opened Store
  import Codes = InviteCodeRepository
  import InviteCodeService

  /** `deleteExpiredInviteCodes` as written, guard included. */
  function Sweep(s: Store, now: Time): (t: Store)
    ensures t.(codes := s.codes) == s
    ensures t.codes <= s.codes
    ensures (forall c :: c in s.codes ==> c.expirationDate != now) ==> t == s
    ensures (exists c :: c in s.codes && c.expirationDate == now) ==>
      forall c :: c in t.codes <==> c in s.codes && now <= c.expirationDate
  {
    if Codes.FindByExpirationDate(s.codes, now) != {} then
      s.(codes := Codes.DeleteExpiredInviteCodes(s.codes, now))
    else
      s
  }

  /** The sweep never removes a code that redemption would still accept. */
  lemma SweepKeepsRedeemableCodes(s: Store, now: Time, c: InviteCode)
    requires c in s.codes && InviteCodeService.Redeemable(c, now)
    ensures c in Sweep(s, now).codes
  {
  }

  /** Sweeping twice at the same instant is sweeping once. */
  lemma SweepIdempotent(s: Store, now: Time)
    ensures Sweep(Sweep(s, now), now) == Sweep(s, now)
  {
    var t := Sweep(s, now);
    if exists c :: c in s.codes && c.expirationDate == now {
      var c :| c in s.codes && c.expirationDate == now;
      assert c in t.codes;
      assert Codes.DeleteExpiredInviteCodes(t.codes, now) == t.codes;
    }
  }

  lemma SweepPreservesValid(s: Store, now: Time)
    requires Valid(s)
    ensures Valid(Sweep(s, now))
  {
  }

  /** Without a code expiring at exactly `now`, an expired code survives the sweep. */
  lemma ExpiredCodeSurvivesSweep(s: Store, now: Time, c: InviteCode)
    requires c in s.codes && c.expirationDate < now
    requires forall d :: d in s.codes ==> d.expirationDate != now
    ensures c in Sweep(s, now).codes
  {
  }

  /**
   * A concrete store the guard leaves untouched: one code that expired a
   * second ago, and no code expiring right now.
   */
  lemma SweepGuardCounterexample()
    ensures var c := InviteCode(1, "000042", 0, OneHour);
      var s := EmptyStore.(codes := {c});
      Sweep(s, OneHour + 1).codes == {c} && c.expirationDate < OneHour + 1
  {
    var c := InviteCode(1, "000042", 0, OneHour);
    assert Codes.FindByExpirationDate({c}, OneHour + 1) == {};
  }

  /** The evidently intended sweep: delete every expired code, unconditionally. */
  function SweepIntended(s: Store, now: Time): (t: Store)
    ensures t.(codes := s.codes) == s
    ensures forall c :: c in t.codes <==> c in s.codes && InviteCodeService.Redeemable(c, now)
  {
    s.(codes := Codes.DeleteExpiredInviteCodes(s.codes, now))
  }

  /**
   * After the intended sweep no expired code is left to block issuance, it
   * is idempotent, and it agrees with the as-written sweep whenever the
   * guard happens to fire.
   */
  lemma SweepIntendedProperties(s: Store, now: Time)
    ensures forall c :: c in SweepIntended(s, now).codes ==> now <= c.expirationDate
    ensures SweepIntended(SweepIntended(s, now), now) == SweepIntended(s, now)
    ensures (exists c :: c in s.codes && c.expirationDate == now) ==> Sweep(s, now) == SweepIntended(s, now)
  {
    assert Codes.DeleteExpiredInviteCodes(SweepIntended(s, now).codes, now) == SweepIntended(s, now).codes;
    if exists c :: c in s.codes && c.expirationDate == now {
      assert Sweep(s, now).codes == SweepIntended(s, now).codes;
    }
  }

  lemma SweepIntendedPreservesValid(s: Store, now: Time)
    requires Valid(s)
    ensures Valid(SweepIntended(s, now))
  {
  }
}
