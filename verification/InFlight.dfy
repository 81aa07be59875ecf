/** Revocation under interleaving: when it lasts, and the requests in flight that undo it. */
module InFlight {
  import opened Wrappers
  import opened Serial
  import opened Timestamp
  import opened Database
  import opened Issue
  import opened Lifecycle
  import opened VerifySound
  import opened Interleaving
  import opened Allocation
  import opened Ledger
  import Race

  // ---------- requests that can still store a row of the NID ----------

  predicate Buildable(req: Registration) {
    !(req.x509 && !LeafBuildable(req.nid, req.pubKey))
  }

  /** The request has passed its own check for `nid`: the active-row check of a registration, or the window
      check of a renewal. */
  predicate PastCheck(p: Proc, nid: string) {
    match p
    case RegChecked(req) => req.nid == nid && Buildable(req)
    case RegNumbered(req, _) => req.nid == nid && Buildable(req)
    case RenewFound(rec) => rec.nid == nid
    case RenewNumbered(rec, _) => rec.nid == nid
    case _ => false
  }

  /** The serial that the request holds, or would draw now, is free. */
  predicate SerialFree(cfg: Config, rows: Table, p: Proc) {
    if HasNumber(p) then !SerialTaken(rows, p.serial) else cfg.mode == Base16 || |rows| < 10
  }

  predicate Pending(cfg: Config, rows: Table, p: Proc, nid: string) {
    PastCheck(p, nid) && SerialFree(cfg, rows, p)
  }

  predicate NoneInFlight(cfg: Config, w: World, nid: string) {
    forall id :: id in w.procs ==> !Pending(cfg, w.rows, w.procs[id], nid)
  }

  // ---------- how long a NID stays inactive ----------

  /** In world `w` the request `id` had not made its check: it had not arrived, or was about to check. */
  predicate NotChecked(w: World, id: nat) {
    id !in w.procs || w.procs[id].RegStart?
  }

  /** From `w`, action `a` makes `nid` active, as the insert of a registration whose check came after `start`. */
  predicate LateInsert(cfg: Config, start: World, w: World, a: Action, nid: string) {
    && a.Advance? && a.id in w.procs
    && w.procs[a.id].RegNumbered? && w.procs[a.id].req.nid == nid
    && NotChecked(start, a.id)
    && !HasActive(w.rows, nid) && HasActive(Act(cfg, w, a).rows, nid)
  }

  /** Among the actions `more` there is the insert of such a registration. */
  ghost predicate Reregistered(cfg: Config, acts: seq<Action>, more: seq<Action>, nid: string) {
    exists j :: 0 <= j < |more| && LateInsert(cfg, After(cfg, acts), After(cfg, acts + more[..j]), more[j], nid)
  }

  /** However the schedule goes on, `nid` stays inactive until a registration that checks only then. */
  ghost predicate HoldsUntilReregistered(cfg: Config, acts: seq<Action>, horizon: nat, nid: string) {
    forall more :: LegalSchedule(cfg, acts + more, horizon) && HasActive(After(cfg, acts + more).rows, nid) ==>
      Reregistered(cfg, acts, more, nid)
  }

  /** From `w`, action `a` is a revocation of `nid` that is answered as done. */
  predicate Revokes(cfg: Config, w: World, a: Action, nid: string) {
    && a.Advance? && a.id in w.procs && w.procs[a.id].RevokeStart? && w.procs[a.id].nid == nid
    && Advanced(cfg, w.rows, w.procs[a.id], a.r).1.answer.RevokedOk?
  }

  predicate RevokedLast(cfg: Config, acts: seq<Action>, nid: string) {
    acts != [] && Revokes(cfg, After(cfg, acts[..|acts| - 1]), acts[|acts| - 1], nid)
  }

  lemma RevokeCallClears(cfg: Config, rows: Table, p: Proc, r: Reading)
    requires p.RevokeStart? && Advanced(cfg, rows, p, r).1.answer.RevokedOk?
    ensures HasActive(rows, p.nid) && !HasActive(Advanced(cfg, rows, p, r).0, p.nid)
  {
  }

  lemma RevokedInactive(cfg: Config, acts: seq<Action>, nid: string)
    requires RevokedLast(cfg, acts, nid)
    ensures !HasActive(After(cfg, acts).rows, nid)
  {
    var w, a := After(cfg, acts[..|acts| - 1]), acts[|acts| - 1];
    RevokeCallClears(cfg, w.rows, w.procs[a.id], a.r);
  }

  // ---------- nothing in flight: the NID stays inactive ----------

  /** What holds as long as no late registration of `nid` has inserted: the NID is inactive, whoever can
      still store a row of it is a late registration, and requests about to check are as they were. */
  predicate Quiet(cfg: Config, start: World, w: World, nid: string) {
    && !HasActive(w.rows, nid)
    && (forall id :: id in start.procs ==> id in w.procs)
    && forall id :: id in w.procs ==> QuietProc(cfg, start, w.rows, id, w.procs[id], nid)
  }

  predicate QuietProc(cfg: Config, start: World, rows: Table, id: nat, p: Proc, nid: string) {
    && (p.RegStart? ==> NotChecked(start, id))
    && (Pending(cfg, rows, p, nid) ==> (p.RegChecked? || p.RegNumbered?) && NotChecked(start, id))
  }

  lemma TakenStays(a: Table, b: Table, serial: string)
    requires Extends(a, b) && SerialTaken(a, serial)
    ensures SerialTaken(b, serial)
  {
    var i :| 0 <= i < |a| && a[i].rec.serial == serial;
    assert b[i].rec.serial == serial;
  }

  /** Growth of the table only uses up serials. */
  lemma PendingBefore(cfg: Config, a: Table, b: Table, p: Proc, nid: string)
    requires Extends(a, b) && Pending(cfg, b, p, nid)
    ensures Pending(cfg, a, p, nid)
  {
    if HasNumber(p) && SerialTaken(a, p.serial) { TakenStays(a, b, p.serial); }
  }

  /** A request that can store a row after its call could already do so before, or has just checked. */
  lemma PendingCall(cfg: Config, rows: Table, p: Proc, r: Reading, nid: string)
    requires WithinReach(cfg.mode, rows) && !HasActive(rows, nid)
    requires p.RenewStart? ==> IsPick(rows, p.nid, r.pick)
    requires var next := Advanced(cfg, rows, p, r); Pending(cfg, next.0, next.1, nid)
    ensures var q := Advanced(cfg, rows, p, r).1;
            (p.RegStart? && q.RegChecked?) || (Pending(cfg, rows, p, nid) && p.RegChecked? == q.RegNumbered?)
  {
    FreshIffRoom(cfg.mode, rows);
    if p.RenewStart? && r.pick.Some? {
      assert IsActive(rows[r.pick.value], p.nid);
    }
  }

  lemma PendingInserts(cfg: Config, rows: Table, p: Proc, r: Reading, nid: string)
    requires HasNumber(p) && Pending(cfg, rows, p, nid)
    ensures HasActive(Advanced(cfg, rows, p, r).0, nid)
  {
    var next := Advanced(cfg, rows, p, r).0;
    assert IsActive(next[|rows|], nid);
  }

  lemma CallKeepsInactive(cfg: Config, rows: Table, p: Proc, r: Reading, nid: string)
    requires !HasActive(rows, nid) && !(HasNumber(p) && Pending(cfg, rows, p, nid))
    ensures !HasActive(Advanced(cfg, rows, p, r).0, nid)
  {
  }

  lemma QuietCall(cfg: Config, start: World, rows: Table, id: nat, p: Proc, r: Reading, nid: string)
    requires WithinReach(cfg.mode, rows) && !HasActive(rows, nid)
    requires p.RenewStart? ==> IsPick(rows, p.nid, r.pick)
    requires QuietProc(cfg, start, rows, id, p, nid)
    ensures var next := Advanced(cfg, rows, p, r); QuietProc(cfg, start, next.0, id, next.1, nid)
  {
    var next := Advanced(cfg, rows, p, r);
    if Pending(cfg, next.0, next.1, nid) { PendingCall(cfg, rows, p, r, nid); }
  }

  lemma QuietAct(cfg: Config, start: World, w: World, a: Action, horizon: nat, nid: string)
    requires Quiet(cfg, start, w, nid) && WithinReach(cfg.mode, w.rows) && LegalAction(cfg, w, a, horizon)
    requires !LateInsert(cfg, start, w, a, nid)
    ensures Quiet(cfg, start, Act(cfg, w, a), nid)
  {
    var next := Act(cfg, w, a);
    if a.Advance? {
      var p := w.procs[a.id];
      if HasNumber(p) && Pending(cfg, w.rows, p, nid) { PendingInserts(cfg, w.rows, p, a.r, nid); }
      CallKeepsInactive(cfg, w.rows, p, a.r, nid);
      QuietCall(cfg, start, w.rows, a.id, p, a.r, nid);
      ActExtends(cfg, w, a);
    }
    forall id | id in next.procs ensures QuietProc(cfg, start, next.rows, id, next.procs[id], nid) {
      if a.Advance? && id != a.id && Pending(cfg, next.rows, next.procs[id], nid) {
        PendingBefore(cfg, w.rows, next.rows, w.procs[id], nid);
      }
    }
  }

  lemma LongerSchedule(cfg: Config, acts: seq<Action>, more: seq<Action>, horizon: nat)
    requires LegalSchedule(cfg, acts + more, horizon) && more != []
    ensures var last := |more| - 1;
            && LegalSchedule(cfg, acts + more[..last], horizon)
            && LegalAction(cfg, After(cfg, acts + more[..last]), more[last], horizon)
            && After(cfg, acts + more) == Act(cfg, After(cfg, acts + more[..last]), more[last])
  {
    var all, last := acts + more, |more| - 1;
    assert all[..|all| - 1] == acts + more[..last] && all[|all| - 1] == more[last];
    LastStep(cfg, all, horizon);
  }

  lemma ReregisteredLonger(cfg: Config, acts: seq<Action>, more: seq<Action>, nid: string)
    requires more != []
    requires Reregistered(cfg, acts, more[..|more| - 1], nid) ||
             LateInsert(cfg, After(cfg, acts), After(cfg, acts + more[..|more| - 1]), more[|more| - 1], nid)
    ensures Reregistered(cfg, acts, more, nid)
  {
    var last := |more| - 1;
    if Reregistered(cfg, acts, more[..last], nid) {
      var j :| 0 <= j < last &&
               LateInsert(cfg, After(cfg, acts), After(cfg, acts + more[..last][..j]), more[..last][j], nid);
      assert more[..last][..j] == more[..j];
    }
  }

  lemma {:induction false} QuietSchedule(cfg: Config, acts: seq<Action>, more: seq<Action>, horizon: nat, nid: string)
    requires LegalSchedule(cfg, acts + more, horizon) && Quiet(cfg, After(cfg, acts), After(cfg, acts), nid)
    ensures Reregistered(cfg, acts, more, nid) || Quiet(cfg, After(cfg, acts), After(cfg, acts + more), nid)
    decreases |more|
  {
    if more == [] {
      assert acts + more == acts;
    } else {
      var last := |more| - 1;
      var start, w := After(cfg, acts), After(cfg, acts + more[..last]);
      LongerSchedule(cfg, acts, more, horizon);
      QuietSchedule(cfg, acts, more[..last], horizon, nid);
      if Reregistered(cfg, acts, more[..last], nid) || LateInsert(cfg, start, w, more[last], nid) {
        ReregisteredLonger(cfg, acts, more, nid);
      } else {
        ScheduleNumbered(cfg, acts + more[..last], horizon);
        QuietAct(cfg, start, w, more[last], horizon, nid);
      }
    }
  }

  lemma QuietFromStart(cfg: Config, w: World, nid: string)
    requires !HasActive(w.rows, nid) && NoneInFlight(cfg, w, nid)
    ensures Quiet(cfg, w, w, nid)
  {
  }

  // ---------- something in flight: it stores its row ----------

  /** The kind of certificate that a pending request issues. */
  function KindOf(p: Proc): Entity {
    match p
    case RegChecked(req) => req.entity
    case RegNumbered(req, _) => req.entity
    case RenewFound(rec) => rec.entity
    case RenewNumbered(rec, _) => rec.entity
    case _ => Operator
  }

  function ReadingFor(cfg: Config, p: Proc, now: nat): Reading {
    Reading(None, 0, TimesFor(cfg, KindOf(p), now), "", "")
  }

  /** The remaining calls of a pending request, at clock reading `now`. */
  function Finish(cfg: Config, id: nat, p: Proc, now: nat): seq<Action> {
    var call := Advance(id, ReadingFor(cfg, p, now), now);
    if HasNumber(p) then [call] else [call, call]
  }

  lemma PendingLegal(cfg: Config, w: World, id: nat, nid: string, kind: Entity, now: nat, horizon: nat)
    requires id in w.procs && PastCheck(w.procs[id], nid) && KindOf(w.procs[id]) == kind && now <= horizon
    ensures LegalAction(cfg, w, Advance(id, Reading(None, 0, TimesFor(cfg, kind, now), "", ""), now), horizon)
  {
  }

  lemma PendingNumbers(cfg: Config, rows: Table, p: Proc, r: Reading, nid: string)
    requires !HasNumber(p) && Pending(cfg, rows, p, nid) && WithinReach(cfg.mode, rows)
    ensures var next := Advanced(cfg, rows, p, r);
            next.0 == rows && HasNumber(next.1) && Pending(cfg, rows, next.1, nid) && KindOf(next.1) == KindOf(p)
  {
    FreshIffRoom(cfg.mode, rows);
  }

  /** A request with a free serial in hand makes the NID active with its next call. */
  lemma NumberedFinishes(cfg: Config, acts: seq<Action>, id: nat, nid: string, now: nat, r: Reading, horizon: nat)
    requires LegalSchedule(cfg, acts, horizon) && now <= horizon && id in After(cfg, acts).procs
    requires HasNumber(After(cfg, acts).procs[id])
    requires Pending(cfg, After(cfg, acts).rows, After(cfg, acts).procs[id], nid)
    requires r == ReadingFor(cfg, After(cfg, acts).procs[id], now)
    ensures LegalSchedule(cfg, acts + [Advance(id, r, now)], horizon)
    ensures HasActive(After(cfg, acts + [Advance(id, r, now)]).rows, nid)
  {
    var w := After(cfg, acts);
    PendingLegal(cfg, w, id, nid, KindOf(w.procs[id]), now, horizon);
    OneMoreStep(cfg, acts, Advance(id, r, now), horizon);
    PendingInserts(cfg, w.rows, w.procs[id], r, nid);
  }

  /** A request that has no serial yet draws a free one. */
  lemma CheckedDraws(cfg: Config, acts: seq<Action>, id: nat, nid: string, now: nat, r: Reading, horizon: nat)
    requires LegalSchedule(cfg, acts, horizon) && now <= horizon && id in After(cfg, acts).procs
    requires !HasNumber(After(cfg, acts).procs[id])
    requires Pending(cfg, After(cfg, acts).rows, After(cfg, acts).procs[id], nid)
    requires r == ReadingFor(cfg, After(cfg, acts).procs[id], now)
    ensures LegalSchedule(cfg, acts + [Advance(id, r, now)], horizon)
    ensures var w := After(cfg, acts + [Advance(id, r, now)]);
            && id in w.procs && HasNumber(w.procs[id]) && Pending(cfg, w.rows, w.procs[id], nid)
            && r == ReadingFor(cfg, w.procs[id], now)
  {
    var w := After(cfg, acts);
    ScheduleNumbered(cfg, acts, horizon);
    PendingLegal(cfg, w, id, nid, KindOf(w.procs[id]), now, horizon);
    OneMoreStep(cfg, acts, Advance(id, r, now), horizon);
    PendingNumbers(cfg, w.rows, w.procs[id], r, nid);
  }

  lemma Twice<T>(s: seq<T>, x: T)
    ensures s + [x] + [x] == s + [x, x]
  {
  }

  lemma CheckedFinishes(cfg: Config, acts: seq<Action>, id: nat, nid: string, now: nat, r: Reading, horizon: nat)
    requires LegalSchedule(cfg, acts, horizon) && now <= horizon && id in After(cfg, acts).procs
    requires !HasNumber(After(cfg, acts).procs[id])
    requires Pending(cfg, After(cfg, acts).rows, After(cfg, acts).procs[id], nid)
    requires r == ReadingFor(cfg, After(cfg, acts).procs[id], now)
    ensures var more := [Advance(id, r, now), Advance(id, r, now)];
            LegalSchedule(cfg, acts + more, horizon) && HasActive(After(cfg, acts + more).rows, nid)
  {
    CheckedDraws(cfg, acts, id, nid, now, r, horizon);
    NumberedFinishes(cfg, acts + [Advance(id, r, now)], id, nid, now, r, horizon);
    Twice(acts, Advance(id, r, now));
  }

  /** A pending request that is served without interruption makes the NID active. */
  lemma PendingFinishes(cfg: Config, acts: seq<Action>, id: nat, nid: string, now: nat, horizon: nat)
    requires LegalSchedule(cfg, acts, horizon) && now <= horizon && id in After(cfg, acts).procs
    requires Pending(cfg, After(cfg, acts).rows, After(cfg, acts).procs[id], nid)
    ensures var more := Finish(cfg, id, After(cfg, acts).procs[id], now);
            LegalSchedule(cfg, acts + more, horizon) && HasActive(After(cfg, acts + more).rows, nid)
  {
    var r := ReadingFor(cfg, After(cfg, acts).procs[id], now);
    if HasNumber(After(cfg, acts).procs[id]) {
      NumberedFinishes(cfg, acts, id, nid, now, r, horizon);
    } else {
      CheckedFinishes(cfg, acts, id, nid, now, r, horizon);
    }
  }

  lemma UncheckedChecks(cfg: Config, acts: seq<Action>, id: nat, req: Registration, r: Reading, now: nat,
                        horizon: nat)
    requires LegalSchedule(cfg, acts, horizon) && now <= horizon && id in After(cfg, acts).procs
    requires After(cfg, acts).procs[id] == RegStart(req) && !HasActive(After(cfg, acts).rows, req.nid)
    ensures LegalSchedule(cfg, acts + [Advance(id, r, now)], horizon)
    ensures var w := After(cfg, acts);
            After(cfg, acts + [Advance(id, r, now)]) == World(w.rows, w.procs[id := RegChecked(req)])
  {
    var w := After(cfg, acts);
    Race.LegalUnstamped(cfg, w, id, r, now, horizon);
    OneMoreStep(cfg, acts, Advance(id, r, now), horizon);
    ActOfCall(cfg, w, id, r, now, (w.rows, RegChecked(req)));
  }

  lemma Associative<T>(a: seq<T>, b: seq<T>, c: seq<T>)
    ensures a + b + c == a + (b + c)
  {
  }

  lemma CheckedIsPending(cfg: Config, rows: Table, req: Registration)
    requires Buildable(req) && (cfg.mode == Base16 || |rows| < 10)
    ensures Pending(cfg, rows, RegChecked(req), req.nid)
  {
  }

  /** A registration in flight that is still to check is not undone by the revocation: served next, it finds
      the NID free and registers it. */
  lemma UncheckedRegisters(cfg: Config, acts: seq<Action>, id: nat, req: Registration, r: Reading, now: nat,
                           horizon: nat)
    requires LegalSchedule(cfg, acts, horizon) && now <= horizon && id in After(cfg, acts).procs
    requires After(cfg, acts).procs[id] == RegStart(req) && !HasActive(After(cfg, acts).rows, req.nid)
    requires Buildable(req) && (cfg.mode == Base16 || |After(cfg, acts).rows| < 10)
    ensures var more := [Advance(id, r, now)] + Finish(cfg, id, RegChecked(req), now);
            LegalSchedule(cfg, acts + more, horizon) && HasActive(After(cfg, acts + more).rows, req.nid)
  {
    UncheckedChecks(cfg, acts, id, req, r, now, horizon);
    CheckedIsPending(cfg, After(cfg, acts).rows, req);
    PendingFinishes(cfg, acts + [Advance(id, r, now)], id, req.nid, now, horizon);
    Associative(acts, [Advance(id, r, now)], Finish(cfg, id, RegChecked(req), now));
  }

  /** The request that finishes had made its check before. */
  lemma FinishIsNotLate(cfg: Config, acts: seq<Action>, id: nat, nid: string, now: nat)
    requires id in After(cfg, acts).procs && PastCheck(After(cfg, acts).procs[id], nid)
    ensures !Reregistered(cfg, acts, Finish(cfg, id, After(cfg, acts).procs[id], now), nid)
  {
  }

  // ---------- the exact condition ----------

  /** An inactive NID stays inactive until a registration that checks only then, whatever is scheduled,
      exactly when no request in flight has passed its check for it with a serial still free. */
  lemma StaysInactiveIff(cfg: Config, acts: seq<Action>, horizon: nat, nid: string)
    requires LegalSchedule(cfg, acts, horizon) && !HasActive(After(cfg, acts).rows, nid)
    ensures HoldsUntilReregistered(cfg, acts, horizon, nid) <==> NoneInFlight(cfg, After(cfg, acts), nid)
  {
    var w := After(cfg, acts);
    if NoneInFlight(cfg, w, nid) {
      QuietFromStart(cfg, w, nid);
      forall more | LegalSchedule(cfg, acts + more, horizon) && HasActive(After(cfg, acts + more).rows, nid)
        ensures Reregistered(cfg, acts, more, nid)
      {
        QuietSchedule(cfg, acts, more, horizon, nid);
      }
    } else {
      var id :| id in w.procs && Pending(cfg, w.rows, w.procs[id], nid);
      PendingFinishes(cfg, acts, id, nid, 0, horizon);
      FinishIsNotLate(cfg, acts, id, nid, 0);
    }
  }

  /** A successful revocation lasts until a registration that checks after it, in every continuation of the
      schedule, exactly when it overtakes no request that is past its check. */
  lemma RevocationLastsIff(cfg: Config, acts: seq<Action>, horizon: nat, nid: string)
    requires LegalSchedule(cfg, acts, horizon) && RevokedLast(cfg, acts, nid)
    ensures HoldsUntilReregistered(cfg, acts, horizon, nid) <==> NoneInFlight(cfg, After(cfg, acts), nid)
  {
    RevokedInactive(cfg, acts, nid);
    StaysInactiveIff(cfg, acts, horizon, nid);
  }

  /** While it lasts, every row of the NID is on the list, and verify and renew find nothing. */
  lemma LastingRevocation(cfg: Config, acts: seq<Action>, more: seq<Action>, horizon: nat, nid: string,
                          pick: Option<nat>, now: nat, nowIssue: nat, crl: seq<CrlEntry>)
    requires LegalSchedule(cfg, acts, horizon) && LegalSchedule(cfg, acts + more, horizon)
    requires RevokedLast(cfg, acts, nid)
    requires NoneInFlight(cfg, After(cfg, acts), nid) && !Reregistered(cfg, acts, more, nid)
    requires IsPick(After(cfg, acts + more).rows, nid, pick) && IsCrl(After(cfg, acts + more).rows, crl)
    ensures var rows := After(cfg, acts + more).rows;
            && Verify(rows, pick, now) == NidNotFound
            && ApplyRenew(cfg, rows, true, pick, now, nowIssue) == (rows, NotFound)
            && forall i :: 0 <= i < |rows| && rows[i].rec.nid == nid ==>
                 rows[i].revokedAt.Some? && EntryOf(rows[i]) in crl
  {
    var rows := After(cfg, acts + more).rows;
    RevocationLastsIff(cfg, acts, horizon, nid);
    InactiveNotFound(cfg, rows, nid, pick, now, nowIssue);
    InactiveListed(rows, nid, crl);
  }

  // ---------- the failing schedule: a renewal overtaken by a revocation ----------

  function RenewalReading(times: Times, check: nat, at: string): Reading {
    Reading(Some(0), check, times, at, at)
  }

  /** A registration is served, a renewal finds its row, and a revocation is served: times `x` are stored at
      clock reading `s`, the window check reads `check`, the revocation is stamped `at` at reading `u`. */
  function OvertakenAction(e: Entity, x: Times, y: Times, s: nat, check: nat, at: string, u: nat, k: nat): Action
    requires k < 8
  {
    if k == 0 then Arrive(0, RegStart(Subject(e)))
    else if k <= 3 then Advance(0, Race.RaceReading(x), s)
    else if k == 4 then Arrive(1, RenewStart("n"))
    else if k == 5 then Advance(1, RenewalReading(y, check, at), u)
    else if k == 6 then Arrive(2, RevokeStart("n", None))
    else Advance(2, RenewalReading(y, check, at), u)
  }

  function Overtaken(e: Entity, x: Times, y: Times, s: nat, check: nat, at: string, u: nat): (acts: seq<Action>)
    ensures |acts| == 8 && forall k :: 0 <= k < 8 ==> acts[k] == OvertakenAction(e, x, y, s, check, at, u, k)
  {
    seq(8, k requires 0 <= k < 8 => OvertakenAction(e, x, y, s, check, at, u, k))
  }

  /** The worlds it passes through; `a` is the stored record. */
  function OvertakenWorld(e: Entity, a: Record, at: string, k: nat): World
    requires k <= 8
  {
    var done, active := Race.IssuedDone(a), [Row(a, None, None)];
    if k == 0 then World([], map[])
    else if k == 1 then World([], map[0 := RegStart(Subject(e))])
    else if k == 2 then World([], map[0 := RegChecked(Subject(e))])
    else if k == 3 then World([], map[0 := RegNumbered(Subject(e), a.serial)])
    else if k == 4 then World(active, map[0 := done])
    else if k == 5 then World(active, map[0 := done, 1 := RenewStart("n")])
    else if k == 6 then World(active, map[0 := done, 1 := RenewFound(a)])
    else if k == 7 then World(active, map[0 := done, 1 := RenewFound(a), 2 := RevokeStart("n", None)])
    else World([Row(a, Some(at), Some(ReasonOf(None)))],
               map[0 := done, 1 := RenewFound(a), 2 := Done(RevokedOk("n", at, ReasonOf(None)))])
  }

  function OvertakenWorlds(e: Entity, a: Record, at: string): (ws: seq<World>)
    ensures |ws| == 9 && forall k :: 0 <= k < 9 ==> ws[k] == OvertakenWorld(e, a, at, k)
  {
    seq(9, k requires 0 <= k < 9 => OvertakenWorld(e, a, at, k))
  }

  lemma RenewCheck(cfg: Config, a: Record, r: Reading)
    requires r.pick == Some(0) && DaysLeft(ExpiryOf(a), r.nowCheck) <= cfg.renewalDays
    ensures var rows := [Row(a, None, None)]; Advanced(cfg, rows, RenewStart("n"), r) == (rows, RenewFound(a))
  {
  }

  lemma RevokedOnly(a: Record, at: string, reason: string)
    requires a.nid == "n"
    ensures Revoked([Row(a, None, None)], "n", at, reason) == [Row(a, Some(at), Some(reason))]
    ensures HasActive([Row(a, None, None)], "n")
  {
    assert IsActive([Row(a, None, None)][0], "n");
  }

  lemma RevokeCall(cfg: Config, a: Record, r: Reading)
    requires a.nid == "n"
    ensures Advanced(cfg, [Row(a, None, None)], RevokeStart("n", None), r) ==
            ([Row(a, Some(r.at), Some(ReasonOf(None)))], Done(RevokedOk("n", r.reply, ReasonOf(None))))
  {
    assert VALID_REASONS[4] == ReasonOf(None);
    RevokedOnly(a, r.at, ReasonOf(None));
  }

  lemma OvertakenArrivals(cfg: Config, e: Entity, x: Times, y: Times, s: nat, check: nat, at: string, u: nat,
                          a: Record, k: nat)
    requires k in {0, 1, 4, 6}
    ensures Act(cfg, OvertakenWorld(e, a, at, k), OvertakenAction(e, x, y, s, check, at, u, k)) ==
            OvertakenWorld(e, a, at, k + 1)
  {
  }

  lemma OvertakenNumber(cfg: Config, e: Entity, x: Times, s: nat, at: string, a: Record)
    requires a.serial == PrintSerial(1)
    ensures Act(cfg, OvertakenWorld(e, a, at, 2), Advance(0, Race.RaceReading(x), s)) == OvertakenWorld(e, a, at, 3)
  {
    InsertedFirst(a);
    Race.NumberCall(cfg, [], Subject(e), Race.RaceReading(x), a.serial);
  }

  lemma OvertakenInsert(cfg: Config, e: Entity, x: Times, s: nat, at: string, a: Record)
    requires a == NthRecord(cfg, e, 1, x)
    ensures Act(cfg, OvertakenWorld(e, a, at, 3), Advance(0, Race.RaceReading(x), s)) == OvertakenWorld(e, a, at, 4)
  {
    Race.InsertAccepted(cfg, [], Subject(e), a, x);
  }

  lemma FoundWorld(e: Entity, at: string, a: Record)
    ensures var w := OvertakenWorld(e, a, at, 5);
            && 1 in w.procs && w.procs[1] == RenewStart("n") && w.rows == [Row(a, None, None)]
            && World(w.rows, w.procs[1 := RenewFound(a)]) == OvertakenWorld(e, a, at, 6)
  {
  }

  lemma OvertakenFound(cfg: Config, e: Entity, r: Reading, u: nat, at: string, a: Record)
    requires Advanced(cfg, [Row(a, None, None)], RenewStart("n"), r) == ([Row(a, None, None)], RenewFound(a))
    ensures Act(cfg, OvertakenWorld(e, a, at, 5), Advance(1, r, u)) == OvertakenWorld(e, a, at, 6)
  {
    FoundWorld(e, at, a);
    ActOfCall(cfg, OvertakenWorld(e, a, at, 5), 1, r, u, ([Row(a, None, None)], RenewFound(a)));
  }

  lemma OvertakenRevoked(cfg: Config, e: Entity, r: Reading, u: nat, at: string, a: Record)
    requires a.nid == "n" && r.at == r.reply == at
    ensures Act(cfg, OvertakenWorld(e, a, at, 7), Advance(2, r, u)) == OvertakenWorld(e, a, at, 8)
  {
    RevokeCall(cfg, a, r);
  }

  lemma OvertakenStep(cfg: Config, e: Entity, x: Times, y: Times, s: nat, check: nat, at: string, u: nat, a: Record,
                      k: nat)
    requires k < 8 && a == NthRecord(cfg, e, 1, x) && DaysLeft(ExpiryOf(a), check) <= cfg.renewalDays
    ensures Act(cfg, OvertakenWorld(e, a, at, k), OvertakenAction(e, x, y, s, check, at, u, k)) ==
            OvertakenWorld(e, a, at, k + 1)
  {
    if k == 2 {
      OvertakenNumber(cfg, e, x, s, at, a);
    } else if k == 3 {
      OvertakenInsert(cfg, e, x, s, at, a);
    } else if k == 5 {
      RenewCheck(cfg, a, RenewalReading(y, check, at));
      OvertakenFound(cfg, e, RenewalReading(y, check, at), u, at, a);
    } else if k == 7 {
      OvertakenRevoked(cfg, e, RenewalReading(y, check, at), u, at, a);
    } else {
      OvertakenArrivals(cfg, e, x, y, s, check, at, u, a, k);
    }
  }

  lemma OvertakenLegalFirst(cfg: Config, e: Entity, x: Times, s: nat, at: string, a: Record, horizon: nat)
    requires s <= horizon && x == TimesFor(cfg, e, s)
    ensures LegalAction(cfg, OvertakenWorld(e, a, at, 3), Advance(0, Race.RaceReading(x), s), horizon)
  {
    Race.LegalInsert(cfg, OvertakenWorld(e, a, at, 3), 0, Subject(e), a.serial, Race.RaceReading(x), s, horizon);
  }

  lemma OvertakenLegalFound(cfg: Config, e: Entity, r: Reading, u: nat, at: string, a: Record, horizon: nat)
    requires u <= horizon && a.nid == "n" && r.pick == Some(0)
    ensures LegalAction(cfg, OvertakenWorld(e, a, at, 5), Advance(1, r, u), horizon)
  {
    FirstPicked([Row(a, None, None)]);
  }

  lemma OvertakenLegalRevoked(cfg: Config, e: Entity, r: Reading, u: nat, at: string, a: Record, horizon: nat)
    requires u <= horizon && r.at == FmtIso(u)
    ensures LegalAction(cfg, OvertakenWorld(e, a, at, 7), Advance(2, r, u), horizon)
  {
  }

  lemma OvertakenLegalRest(cfg: Config, e: Entity, x: Times, y: Times, s: nat, check: nat, at: string, u: nat,
                           a: Record, horizon: nat, k: nat)
    requires k in {0, 1, 2, 4, 6} && s <= horizon && e != Operator
    ensures LegalAction(cfg, OvertakenWorld(e, a, at, k), OvertakenAction(e, x, y, s, check, at, u, k), horizon)
  {
    SubjectOk(e);
  }

  lemma OvertakenLegal(cfg: Config, e: Entity, x: Times, y: Times, s: nat, check: nat, at: string, u: nat,
                       a: Record, horizon: nat, k: nat)
    requires k < 8 && s <= horizon && u <= horizon && e != Operator && a.nid == "n"
    requires x == TimesFor(cfg, e, s) && at == FmtIso(u)
    ensures LegalAction(cfg, OvertakenWorld(e, a, at, k), OvertakenAction(e, x, y, s, check, at, u, k), horizon)
  {
    if k == 3 {
      OvertakenLegalFirst(cfg, e, x, s, at, a, horizon);
    } else if k == 5 {
      OvertakenLegalFound(cfg, e, RenewalReading(y, check, at), u, at, a, horizon);
    } else if k == 7 {
      OvertakenLegalRevoked(cfg, e, RenewalReading(y, check, at), u, at, a, horizon);
    } else {
      OvertakenLegalRest(cfg, e, x, y, s, check, at, u, a, horizon, k);
    }
  }

  lemma OvertakenSteps(cfg: Config, e: Entity, x: Times, y: Times, s: nat, check: nat, at: string, u: nat,
                       a: Record, horizon: nat)
    requires a == NthRecord(cfg, e, 1, x) && DaysLeft(ExpiryOf(a), check) <= cfg.renewalDays
    requires forall k :: 0 <= k < 8 ==>
               LegalAction(cfg, OvertakenWorld(e, a, at, k), OvertakenAction(e, x, y, s, check, at, u, k), horizon)
    ensures IsTrace(cfg, Overtaken(e, x, y, s, check, at, u), OvertakenWorlds(e, a, at), horizon)
  {
    forall k | 0 <= k < 8
      ensures Act(cfg, OvertakenWorld(e, a, at, k), OvertakenAction(e, x, y, s, check, at, u, k)) ==
              OvertakenWorld(e, a, at, k + 1)
    {
      OvertakenStep(cfg, e, x, y, s, check, at, u, a, k);
    }
  }

  lemma OvertakenIsTrace(cfg: Config, e: Entity, x: Times, y: Times, s: nat, check: nat, at: string, u: nat,
                         a: Record, horizon: nat)
    requires s <= horizon && u <= horizon && e != Operator && x == TimesFor(cfg, e, s) && at == FmtIso(u)
    requires a == NthRecord(cfg, e, 1, x) && DaysLeft(ExpiryOf(a), check) <= cfg.renewalDays
    ensures IsTrace(cfg, Overtaken(e, x, y, s, check, at, u), OvertakenWorlds(e, a, at), horizon)
  {
    forall k | 0 <= k < 8
      ensures LegalAction(cfg, OvertakenWorld(e, a, at, k), OvertakenAction(e, x, y, s, check, at, u, k), horizon)
    {
      OvertakenLegal(cfg, e, x, y, s, check, at, u, a, horizon, k);
    }
    OvertakenSteps(cfg, e, x, y, s, check, at, u, a, horizon);
  }

  lemma OvertakenEnds(cfg: Config, e: Entity, x: Times, y: Times, s: nat, check: nat, at: string, u: nat,
                      a: Record, horizon: nat)
    requires a.nid == "n" && IsTrace(cfg, Overtaken(e, x, y, s, check, at, u), OvertakenWorlds(e, a, at), horizon)
    ensures var acts := Overtaken(e, x, y, s, check, at, u);
            && LegalSchedule(cfg, acts, horizon) && RevokedLast(cfg, acts, "n")
            && After(cfg, acts) == OvertakenWorld(e, a, at, 8)
  {
    var acts, ws := Overtaken(e, x, y, s, check, at, u), OvertakenWorlds(e, a, at);
    TraceIsLegal(cfg, acts, ws, horizon);
    TraceWorld(cfg, acts, ws, horizon, 7);
    RevokeCall(cfg, a, RenewalReading(y, check, at));
  }

  lemma FoundIsPending(cfg: Config, rows: Table, a: Record)
    requires |rows| == 1
    ensures Pending(cfg, rows, RenewFound(a), a.nid)
  {
  }

  lemma OnlyElement<T>(x: T)
    ensures forall y :: y in [x] || y in [x, x] ==> y == x
  {
  }

  lemma FinishesAlone(cfg: Config, id: nat, p: Proc, now: nat)
    ensures forall a :: a in Finish(cfg, id, p, now) ==> a.Advance? && a.id == id
  {
    OnlyElement(Advance(id, ReadingFor(cfg, p, now), now));
  }

  /** The failing schedule: the revocation is answered as done, no request arrives after it, and the renewal
      that it overtook makes the NID active again. */
  lemma RevocationOvertakes(cfg: Config, e: Entity, x: Times, s: nat, check: nat, at: string, u: nat, t: nat,
                            horizon: nat)
    requires s <= horizon && u <= horizon && t <= horizon && e != Operator
    requires x == TimesFor(cfg, e, s) && at == FmtIso(u)
    requires DaysLeft(ExpiryOf(NthRecord(cfg, e, 1, x)), check) <= cfg.renewalDays
    ensures var acts := Overtaken(e, x, x, s, check, at, u);
            var more := Finish(cfg, 1, RenewFound(NthRecord(cfg, e, 1, x)), t);
            && LegalSchedule(cfg, acts, horizon) && RevokedLast(cfg, acts, "n")
            && (forall a :: a in more ==> a.Advance? && a.id == 1)
            && LegalSchedule(cfg, acts + more, horizon) && HasActive(After(cfg, acts + more).rows, "n")
  {
    var a := NthRecord(cfg, e, 1, x);
    var acts := Overtaken(e, x, x, s, check, at, u);
    OvertakenIsTrace(cfg, e, x, x, s, check, at, u, a, horizon);
    OvertakenEnds(cfg, e, x, x, s, check, at, u, a, horizon);
    FoundIsPending(cfg, OvertakenWorld(e, a, at, 8).rows, a);
    PendingFinishes(cfg, acts, 1, "n", t, horizon);
    FinishesAlone(cfg, 1, RenewFound(a), t);
  }
}
