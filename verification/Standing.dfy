/** What stands under interleaving: list entries, active rows, and the expiry that verify reports. */
module Standing {
  import opened Wrappers
  import opened Text
  import opened Timestamp
  import opened Database
  import opened Issue
  import opened Lifecycle
  import opened VerifySound
  import opened Ledger
  import opened Interleaving
  import opened InFlight
  import opened Race
  import opened Identity

  // ---------- the revocation list ----------

  /** In every schedule: the list and the unrevoked rows make up the table, and every earlier list is
      contained, with multiplicity, in every later one. */
  lemma ScheduleCrlHistory(cfg: Config, acts: seq<Action>, k: nat, before: seq<CrlEntry>, after: seq<CrlEntry>)
    requires k <= |acts| && IsCrl(After(cfg, acts[..k]).rows, before) && IsCrl(After(cfg, acts).rows, after)
    ensures |after| + UnrevokedCount(After(cfg, acts).rows) == |After(cfg, acts).rows|
    ensures multiset(before) <= multiset(after)
  {
    ScheduleExtends(cfg, acts, k);
    ListsContained(After(cfg, acts[..k]).rows, After(cfg, acts).rows, before, after);
  }

  // ---------- active rows ----------

  predicate RevokesAt(cfg: Config, acts: seq<Action>, m: nat, nid: string) {
    m < |acts| && Revokes(cfg, After(cfg, acts[..m]), acts[m], nid)
  }

  /** No revocation of `nid` is answered as done among the actions from `k` up to `n`. */
  predicate NotRevokedBetween(cfg: Config, acts: seq<Action>, k: nat, n: nat, nid: string) {
    forall m :: k <= m < n ==> !RevokesAt(cfg, acts, m, nid)
  }

  lemma CallOnActive(cfg: Config, rows: Table, p: Proc, r: Reading, nid: string, i: nat)
    requires i < |rows| && IsActive(rows[i], nid)
    ensures var next := Advanced(cfg, rows, p, r);
            && i < |next.0|
            && (IsActive(next.0[i], nid) <==> !(p.RevokeStart? && p.nid == nid && next.1.answer.RevokedOk?))
  {
  }

  lemma ActOnActive(cfg: Config, w: World, a: Action, nid: string, i: nat)
    requires i < |w.rows| && IsActive(w.rows[i], nid)
    ensures i < |Act(cfg, w, a).rows| && (IsActive(Act(cfg, w, a).rows[i], nid) <==> !Revokes(cfg, w, a, nid))
  {
    if a.Advance? && a.id in w.procs { CallOnActive(cfg, w.rows, w.procs[a.id], a.r, nid, i); }
  }

  lemma {:induction false} ActiveBetween(cfg: Config, acts: seq<Action>, horizon: nat, k: nat, n: nat, nid: string,
                                         i: nat)
    requires LegalSchedule(cfg, acts, horizon) && k <= n <= |acts|
    requires i < |After(cfg, acts[..k]).rows| && IsActive(After(cfg, acts[..k]).rows[i], nid)
    ensures i < |After(cfg, acts[..n]).rows|
    ensures IsActive(After(cfg, acts[..n]).rows[i], nid) <==> NotRevokedBetween(cfg, acts, k, n, nid)
    decreases n - k
  {
    if k < n {
      ScheduleStep(cfg, acts, k, horizon);
      ActOnActive(cfg, After(cfg, acts[..k]), acts[k], nid, i);
      if RevokesAt(cfg, acts, k, nid) {
        ExtendsAt(cfg, acts, k + 1, n);
      } else {
        ActiveBetween(cfg, acts, horizon, k + 1, n, nid, i);
      }
    }
  }

  /** In every schedule a row that is active at some moment is active later exactly when no revocation of
      its NID has been answered as done since. */
  lemma ActiveUntilRevoked(cfg: Config, acts: seq<Action>, horizon: nat, k: nat, nid: string, i: nat)
    requires LegalSchedule(cfg, acts, horizon) && k <= |acts|
    requires i < |After(cfg, acts[..k]).rows| && IsActive(After(cfg, acts[..k]).rows[i], nid)
    ensures i < |After(cfg, acts).rows| && After(cfg, acts).rows[i].rec == After(cfg, acts[..k]).rows[i].rec
    ensures IsActive(After(cfg, acts).rows[i], nid) <==> NotRevokedBetween(cfg, acts, k, |acts|, nid)
  {
    assert acts[..|acts|] == acts;
    ActiveBetween(cfg, acts, horizon, k, |acts|, nid, i);
    ScheduleExtends(cfg, acts, k);
  }

  /** Where both kinds last equally long and nothing wraps around, an accepted insert is honoured: until a
      revocation of its NID is answered as done, verify says valid at every time before the stored expiry. */
  lemma AcceptedIsHonoured(cfg: Config, acts: seq<Action>, horizon: nat, j: nat, pick: Option<nat>, t: nat)
    requires LegalSchedule(cfg, acts, horizon) && horizon < YEAR_10000 && OnePeriod(cfg, horizon)
    requires j < |acts| && acts[j].Advance? && acts[j].id in After(cfg, acts[..j]).procs
    requires Accepted(After(cfg, acts[..j]).rows, After(cfg, acts[..j]).procs[acts[j].id])
    requires var rec := StoredBy(cfg, After(cfg, acts[..j]).procs[acts[j].id], acts[j].r);
             NotRevokedBetween(cfg, acts, j + 1, |acts|, rec.nid) && IsPick(After(cfg, acts).rows, rec.nid, pick)
    ensures var rec := StoredBy(cfg, After(cfg, acts[..j]).procs[acts[j].id], acts[j].r);
            var v := Verify(After(cfg, acts).rows, pick, t);
            v.Verdict? && (t < ExpiryOf(rec) ==> v.valid)
  {
    var w := After(cfg, acts[..j]);
    var rec, i := StoredBy(cfg, w.procs[acts[j].id], acts[j].r), |w.rows|;
    ScheduleStep(cfg, acts, j, horizon);
    AcceptedCall(cfg, w.rows, w.procs[acts[j].id], acts[j].r);
    ActiveUntilRevoked(cfg, acts, horizon, j + 1, rec.nid, i);
    InterleavedVerifyIff(cfg, horizon);
    ActiveRowDecides(After(cfg, acts).rows, rec.nid, i, pick, t);
  }

  lemma ActiveRowDecides(rows: Table, nid: string, i: nat, pick: Option<nat>, t: nat)
    requires i < |rows| && IsActive(rows[i], nid) && VerifyRight(rows, nid, pick, t)
    ensures var v := Verify(rows, pick, t); v.Verdict? && (t < ExpiryOf(rows[i].rec) ==> v.valid)
  {
  }

  // ---------- the reported expiry ----------

  /** Without a revocation in between, verify goes on finding a NID, and the expiry that it answers never
      decreases. */
  ghost predicate ReportedExpiryHolds(cfg: Config, horizon: nat) {
    forall acts: seq<Action>, k: nat, nid: string, p: Option<nat>, s: nat, q: Option<nat>, t: nat ::
      LegalSchedule(cfg, acts, horizon) && k <= |acts| && NotRevokedBetween(cfg, acts, k, |acts|, nid)
      && IsPick(After(cfg, acts[..k]).rows, nid, p) && IsPick(After(cfg, acts).rows, nid, q) ==>
        ExpiryNotEarlier(After(cfg, acts[..k]).rows, p, s, After(cfg, acts).rows, q, t)
  }

  lemma OnePeriodExpiryHolds(cfg: Config, horizon: nat, acts: seq<Action>, k: nat, nid: string,
                             p: Option<nat>, s: nat, q: Option<nat>, t: nat)
    requires horizon < YEAR_10000 && OnePeriod(cfg, horizon) && LegalSchedule(cfg, acts, horizon) && k <= |acts|
    requires NotRevokedBetween(cfg, acts, k, |acts|, nid)
    requires IsPick(After(cfg, acts[..k]).rows, nid, p) && IsPick(After(cfg, acts).rows, nid, q)
    ensures ExpiryNotEarlier(After(cfg, acts[..k]).rows, p, s, After(cfg, acts).rows, q, t)
  {
    var rows := After(cfg, acts).rows;
    if p.Some? { ActiveUntilRevoked(cfg, acts, horizon, k, nid, p.value); }
    if q.Some? {
      ScheduleInvariants(cfg, acts, horizon);
      OnePeriodShared(cfg, rows, nid, horizon);
      PickIsLast(cfg, rows, nid, q.value, horizon);
    }
    AnsweredExpiryKept(After(cfg, acts[..k]).rows, rows, nid, p, s, q, t);
  }

  lemma RaceNotRevoked(cfg: Config, e: Entity, f: Entity, x: Times, y: Times, s: nat, t: nat, a: Record, b: Record,
                       horizon: nat)
    requires IsTrace(cfg, RaceSchedule(e, f, x, y, s, t), RaceWorlds(e, f, a, b), horizon)
    ensures NotRevokedBetween(cfg, RaceSchedule(e, f, x, y, s, t), 6, 8, "n")
    ensures After(cfg, RaceSchedule(e, f, x, y, s, t)[..6]).rows == [Row(a, None, None)]
  {
    TraceWorld(cfg, RaceSchedule(e, f, x, y, s, t), RaceWorlds(e, f, a, b), horizon, 6);
    TraceWorld(cfg, RaceSchedule(e, f, x, y, s, t), RaceWorlds(e, f, a, b), horizon, 7);
  }

  /** In the race the report drops from the first row's expiry to the second's. */
  lemma RaceExpiryDrops(cfg: Config, e: Entity, f: Entity, s: nat, t: nat, horizon: nat)
    requires s <= horizon && t <= horizon && e != Operator && f != Operator
    requires !LexLess(FmtIso(t), FmtIso(s))
    requires ExpirySecs(t, DaysFor(cfg, f)) < ExpirySecs(s, DaysFor(cfg, e))
    ensures !ReportedExpiryHolds(cfg, horizon)
  {
    var x, y := TimesFor(cfg, e, s), TimesFor(cfg, f, t);
    var a, b := NthRecord(cfg, e, 1, x), NthRecord(cfg, f, 2, y);
    RecordExpiry(cfg, a, s);
    RecordExpiry(cfg, b, t);
    RaceIsTrace(cfg, e, f, x, y, s, t, horizon);
    RaceRuns(cfg, e, f, x, y, s, t, horizon);
    RaceNotRevoked(cfg, e, f, x, y, s, t, a, b, horizon);
    ReportDrops(cfg, RaceSchedule(e, f, x, y, s, t), a, b, horizon);
  }

  lemma ReportDrops(cfg: Config, acts: seq<Action>, a: Record, b: Record, horizon: nat)
    requires LegalSchedule(cfg, acts, horizon) && |acts| == 8 && NotRevokedBetween(cfg, acts, 6, 8, "n")
    requires After(cfg, acts[..6]).rows == [Row(a, None, None)] && After(cfg, acts).rows == BothRows(a, b)
    requires a.nid == b.nid == "n" && !LexLess(b.issuedAt, a.issuedAt) && ExpiryOf(b) < ExpiryOf(a)
    ensures !ReportedExpiryHolds(cfg, horizon)
  {
    FirstPicked([Row(a, None, None)]);
    LaterRowPicked(BothRows(a, b), "n", 1, 0);
    assert !ExpiryNotEarlier([Row(a, None, None)], Some(0), 0, BothRows(a, b), Some(1), 0);
  }

  /** Under interleaving the reported expiry never decreases without a revocation exactly when agents and
      nodes are certified for equally long and no expiry wraps around. */
  lemma ReportedExpiryIff(cfg: Config, horizon: nat)
    requires horizon < YEAR_10000
    ensures ReportedExpiryHolds(cfg, horizon) <==> OnePeriod(cfg, horizon)
  {
    if OnePeriod(cfg, horizon) {
      forall acts: seq<Action>, k: nat, nid: string, p: Option<nat>, s: nat, q: Option<nat>, t: nat
        | LegalSchedule(cfg, acts, horizon) && k <= |acts| && NotRevokedBetween(cfg, acts, k, |acts|, nid)
          && IsPick(After(cfg, acts[..k]).rows, nid, p) && IsPick(After(cfg, acts).rows, nid, q)
        ensures ExpiryNotEarlier(After(cfg, acts[..k]).rows, p, s, After(cfg, acts).rows, q, t)
      {
        OnePeriodExpiryHolds(cfg, horizon, acts, k, nid, p, s, q, t);
      }
    } else {
      var e, f, s, t := RaceInputs(cfg, horizon);
      RaceExpiryDrops(cfg, e, f, s, t, horizon);
    }
  }
}
