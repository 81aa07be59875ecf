/** The renewal window: three ports count the days left in three ways. */
module RenewalWindow {
  import opened Wrappers
  import opened Calendar
  import opened Timestamp
  import opened Database
  import opened Lifecycle

  /** Go: `int(time.Until(exp).Hours() / 24)` truncates toward zero. */
  function TruncatedDays(exp: nat, now: nat): int {
    if exp >= now then (exp - now) / SECONDS_PER_DAY else -((now - exp) / SECONDS_PER_DAY)
  }

  /** TypeScript: `Math.floor((exp - now) / 86400_000)` on milliseconds of whole seconds. */
  function FlooredDays(exp: nat, now: nat): int {
    (exp * 1000 - now * 1000) / 86_400_000
  }

  /** For a non-negative window all three counts refuse exactly while `(window + 1)` days or more remain. */
  lemma WindowExact(exp: nat, now: nat, window: int)
    requires window >= 0
    ensures DaysLeft(exp, now) > window <==> exp - now >= (window + 1) * SECONDS_PER_DAY
    ensures TruncatedDays(exp, now) > window <==> exp - now >= (window + 1) * SECONDS_PER_DAY
    ensures FlooredDays(exp, now) > window <==> exp - now >= (window + 1) * SECONDS_PER_DAY
  {
    assert exp * 1000 - now * 1000 == 1000 * (exp - now);
  }

  /** Each count is the whole number of days in the seconds left: rounded down (TypeScript), rounded toward
      zero (Go), and zero once the time has passed (Rust). */
  lemma CountsAreQuotients(exp: nat, now: nat)
    ensures FlooredDays(exp, now) * SECONDS_PER_DAY <= exp - now < (FlooredDays(exp, now) + 1) * SECONDS_PER_DAY
    ensures exp >= now ==> TruncatedDays(exp, now) == DaysLeft(exp, now) == FlooredDays(exp, now)
    ensures exp < now ==> DaysLeft(exp, now) == 0 && TruncatedDays(exp, now) <= 0
                          && -TruncatedDays(exp, now) * SECONDS_PER_DAY <= now - exp
                          && now - exp < (1 - TruncatedDays(exp, now)) * SECONDS_PER_DAY
  {
    assert exp * 1000 - now * 1000 == 1000 * (exp - now);
  }

  ghost predicate CountsAgree(window: int) {
    forall exp: nat, now: nat ::
      (DaysLeft(exp, now) > window <==> TruncatedDays(exp, now) > window) &&
      (DaysLeft(exp, now) > window <==> FlooredDays(exp, now) > window)
  }

  /** The three ports decide alike on every input exactly for the non-negative windows. */
  lemma CountsAgreeIff(window: int)
    ensures CountsAgree(window) <==> window >= 0
  {
    if window >= 0 {
      forall exp: nat, now: nat
        ensures (DaysLeft(exp, now) > window <==> TruncatedDays(exp, now) > window) &&
                (DaysLeft(exp, now) > window <==> FlooredDays(exp, now) > window)
      {
        WindowExact(exp, now, window);
      }
    } else {
      var now: nat := -window * SECONDS_PER_DAY;
      assert DaysLeft(0, now) == 0;
      assert FlooredDays(0, now) == window;
    }
  }

  // ---------- the decision of the handler ----------

  /** `now` lies before the renewal window of a certificate that expires at `exp`. */
  predicate BeforeWindow(exp: nat, now: nat, window: int) {
    exp - now >= (window + 1) * SECONDS_PER_DAY
  }

  lemma RenewAnswers(cfg: Config, rows: Table, authorized: bool, pick: Option<nat>, nowCheck: nat, now: nat)
    ensures var refusal := RenewRefusal(cfg, rows, pick, nowCheck);
            var result := ApplyRenew(cfg, rows, authorized, pick, nowCheck, now);
            if !authorized then result == (rows, Unauthorized)
            else if refusal.Some? then result == (rows, refusal.value)
            else result.1.Issued?
  {
  }

  lemma RefusalDecision(cfg: Config, rows: Table, nid: string, pick: Option<nat>, nowCheck: nat)
    requires cfg.renewalDays >= 0 && IsPick(rows, nid, pick)
    ensures pick.None? <==> forall i :: 0 <= i < |rows| && rows[i].rec.nid == nid ==> rows[i].revokedAt.Some?
    ensures var refusal := RenewRefusal(cfg, rows, pick, nowCheck);
            if pick.None? then refusal == Some(NotFound)
            else if BeforeWindow(IsoToEpoch(rows[pick.value].rec.expiresAt), nowCheck, cfg.renewalDays) then
              refusal.Some? && refusal.value.TooEarly?
            else refusal.None?
  {
    if pick.Some? {
      assert IsActive(rows[pick.value], nid);
      WindowExact(IsoToEpoch(rows[pick.value].rec.expiresAt), nowCheck, cfg.renewalDays);
    } else {
      assert forall i :: 0 <= i < |rows| ==> !IsActive(rows[i], nid);
    }
  }

  /** Without authorization a renewal is refused; otherwise it is not-found exactly without an unrevoked row
      of the NID, too early exactly before the window of the picked row, and granted in all other cases. Only
      a grant may change the table. */
  lemma RenewDecision(cfg: Config, rows: Table, authorized: bool, nid: string, pick: Option<nat>, nowCheck: nat,
                      now: nat)
    requires cfg.renewalDays >= 0 && IsPick(rows, nid, pick)
    ensures var result := Apply(cfg, rows, Renew(authorized, nid, pick, nowCheck, now));
            && (if !authorized then result.1 == Unauthorized
                else if forall i :: 0 <= i < |rows| && rows[i].rec.nid == nid ==> rows[i].revokedAt.Some? then
                  result.1 == NotFound
                else if BeforeWindow(IsoToEpoch(rows[pick.value].rec.expiresAt), nowCheck, cfg.renewalDays) then
                  result.1.TooEarly?
                else result.1.Issued?)
            && (!result.1.Issued? ==> result.0 == rows)
  {
    RenewAnswers(cfg, rows, authorized, pick, nowCheck, now);
    RefusalDecision(cfg, rows, nid, pick, nowCheck);
  }

  /** The number of days in a too-early answer is the wait: after that many days the window is open, one
      day sooner it is not. */
  lemma WaitIsExact(cfg: Config, rows: Table, pick: Option<nat>, nowCheck: nat)
    requires cfg.renewalDays >= 0
    requires RenewRefusal(cfg, rows, pick, nowCheck).Some? && RenewRefusal(cfg, rows, pick, nowCheck).value.TooEarly?
    ensures var days := RenewRefusal(cfg, rows, pick, nowCheck).value.opensIn;
            var exp := IsoToEpoch(rows[pick.value].rec.expiresAt);
            && days >= 1
            && !BeforeWindow(exp, nowCheck + days * SECONDS_PER_DAY, cfg.renewalDays)
            && BeforeWindow(exp, nowCheck + (days - 1) * SECONDS_PER_DAY, cfg.renewalDays)
  {
    WaitByDays(IsoToEpoch(rows[pick.value].rec.expiresAt), nowCheck, cfg.renewalDays);
  }

  lemma WaitByDays(exp: nat, now: nat, window: int)
    requires window >= 0 && DaysLeft(exp, now) > window
    ensures var days := DaysLeft(exp, now) - window;
            && !BeforeWindow(exp, now + days * SECONDS_PER_DAY, window)
            && BeforeWindow(exp, now + (days - 1) * SECONDS_PER_DAY, window)
  {
    var left := DaysLeft(exp, now);
    assert exp - now == left * SECONDS_PER_DAY + (exp - now) % SECONDS_PER_DAY;
  }
}
