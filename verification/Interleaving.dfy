/** Concurrent handlers: every call on the mutex-guarded database is its own step, and the steps of
    different requests interleave in any order. */
module Interleaving {
  import opened Wrappers
  import opened Calendar
  import opened Serial
  import opened Timestamp
  import opened Database
  import opened Issue
  import opened Lifecycle
  import opened Ledger
  import opened Allocation

  // ---------- requests in flight ----------

  /** An authorized, well-formed request between two database calls. */
  datatype Proc =
    | RegStart(req: Registration)
    | RegChecked(req: Registration)
    | RegNumbered(req: Registration, serial: string)
    | RenewStart(nid: string)
    | RenewFound(rec: Record)
    | RenewNumbered(rec: Record, serial: string)
    | RevokeStart(nid: string, reason: Option<string>)
    | Done(answer: Response)

  predicate IsStart(p: Proc) {
    p.RegStart? || p.RenewStart? || p.RevokeStart?
  }

  /** What a call reads from outside: the row a query returned, the clock at the window check, the
      texts of `iso_now_plus`, and the texts of the two `iso_now` calls of a revocation. */
  datatype Reading = Reading(pick: Option<nat>, nowCheck: nat, times: Times, at: string, reply: string)

  /** One database call of a handler, and what the handler does until its next one. */
  function Advanced(cfg: Config, rows: Table, p: Proc, r: Reading): (Table, Proc) {
    match p
    case RegStart(req) => (rows, if HasActive(rows, req.nid) then Done(Conflict) else RegChecked(req))
    case RegChecked(req) => (rows, RegNumbered(req, NextSerial(cfg.mode, Serials(rows))))
    case RegNumbered(req, serial) =>
      if req.x509 && !LeafBuildable(req.nid, req.pubKey) then (rows, Done(Internal))
      else Ended(IssueAndStore(rows, RegisterRecord(cfg, req, serial, r.times)))
    case RenewStart(nid) =>
      var refusal := RenewRefusal(cfg, rows, r.pick, r.nowCheck);
      (rows, if refusal.Some? then Done(refusal.value) else RenewFound(rows[r.pick.value].rec))
    case RenewFound(rec) => (rows, RenewNumbered(rec, NextSerial(cfg.mode, Serials(rows))))
    case RenewNumbered(rec, serial) => Ended(IssueAndStore(rows, RenewedRecord(cfg, rec, serial, r.times)))
    case RevokeStart(nid, reason) => Ended(RevokeWith(rows, nid, reason, r.at, r.reply))
    case Done(_) => (rows, p)
  }

  function Ended(result: (Table, Response)): (Table, Proc) {
    (result.0, Done(result.1))
  }

  /** The texts that a call stores are those of the clock reading `now`. */
  predicate ReadAt(cfg: Config, p: Proc, r: Reading, now: nat) {
    match p
    case RegNumbered(req, _) => r.times == TimesFor(cfg, req.entity, now)
    case RenewNumbered(rec, _) => r.times == TimesFor(cfg, rec.entity, now)
    case RevokeStart(_, _) => r.at == FmtIso(now)
    case _ => true
  }

  /** What the routes and `validate_register` let through. */
  predicate WellFormedRequest(req: Registration) {
    KeyOk(req.pubKey) && req.nidOk && req.entity != Operator
  }

  datatype World = World(rows: Table, procs: map<nat, Proc>)

  datatype Action =
    | Arrive(id: nat, start: Proc)
    | Advance(id: nat, r: Reading, now: nat)

  function Act(cfg: Config, w: World, a: Action): World {
    match a
    case Arrive(id, start) => w.(procs := w.procs[id := start])
    case Advance(id, r, _) =>
      if id in w.procs then
        var next := Advanced(cfg, w.rows, w.procs[id], r);
        World(next.0, w.procs[id := next.1])
      else w
  }

  predicate LegalAction(cfg: Config, w: World, a: Action, horizon: nat) {
    match a
    case Arrive(id, start) => id !in w.procs && IsStart(start) && (start.RegStart? ==> WellFormedRequest(start.req))
    case Advance(id, r, now) =>
      && id in w.procs
      && now <= horizon
      && ReadAt(cfg, w.procs[id], r, now)
      && (w.procs[id].RenewStart? ==> IsPick(w.rows, w.procs[id].nid, r.pick))
  }

  function After(cfg: Config, acts: seq<Action>): World {
    if acts == [] then World([], map[])
    else Act(cfg, After(cfg, acts[..|acts| - 1]), acts[|acts| - 1])
  }

  predicate LegalSchedule(cfg: Config, acts: seq<Action>, horizon: nat) {
    forall k :: 0 <= k < |acts| ==> LegalAction(cfg, After(cfg, acts[..k]), acts[k], horizon)
  }

  lemma PrefixSchedule(cfg: Config, acts: seq<Action>, k: nat, horizon: nat)
    requires LegalSchedule(cfg, acts, horizon) && k <= |acts|
    ensures LegalSchedule(cfg, acts[..k], horizon)
  {
    forall j | 0 <= j < k ensures LegalAction(cfg, After(cfg, acts[..k][..j]), acts[..k][j], horizon) {
      assert acts[..k][..j] == acts[..j];
    }
  }

  /** Step `k` of a schedule. */
  lemma ScheduleStep(cfg: Config, acts: seq<Action>, k: nat, horizon: nat)
    requires LegalSchedule(cfg, acts, horizon) && k < |acts|
    ensures LegalAction(cfg, After(cfg, acts[..k]), acts[k], horizon)
    ensures After(cfg, acts[..k + 1]) == Act(cfg, After(cfg, acts[..k]), acts[k])
  {
    assert acts[..k + 1][..k] == acts[..k] && acts[..k + 1][k] == acts[k];
  }

  lemma LastStep(cfg: Config, acts: seq<Action>, horizon: nat)
    requires LegalSchedule(cfg, acts, horizon) && acts != []
    ensures LegalSchedule(cfg, acts[..|acts| - 1], horizon)
    ensures LegalAction(cfg, After(cfg, acts[..|acts| - 1]), acts[|acts| - 1], horizon)
    ensures After(cfg, acts) == Act(cfg, After(cfg, acts[..|acts| - 1]), acts[|acts| - 1])
  {
    PrefixSchedule(cfg, acts, |acts| - 1, horizon);
  }

  lemma ActOfCall(cfg: Config, w: World, id: nat, r: Reading, now: nat, next: (Table, Proc))
    requires id in w.procs && Advanced(cfg, w.rows, w.procs[id], r) == next
    ensures Act(cfg, w, Advance(id, r, now)) == World(next.0, w.procs[id := next.1])
  {
  }

  lemma OneMoreStep(cfg: Config, acts: seq<Action>, a: Action, horizon: nat)
    requires LegalSchedule(cfg, acts, horizon) && LegalAction(cfg, After(cfg, acts), a, horizon)
    ensures LegalSchedule(cfg, acts + [a], horizon) && After(cfg, acts + [a]) == Act(cfg, After(cfg, acts), a)
  {
    var all := acts + [a];
    assert all[..|acts|] == acts && all[|acts|] == a;
    forall k | 0 <= k < |all| ensures LegalAction(cfg, After(cfg, all[..k]), all[k], horizon) {
      if k < |acts| { assert all[..k] == acts[..k] && all[k] == acts[k]; }
    }
  }

  /** A schedule written out with the worlds that it passes through. */
  ghost predicate IsTrace(cfg: Config, acts: seq<Action>, ws: seq<World>, horizon: nat) {
    && |ws| == |acts| + 1
    && ws[0] == World([], map[])
    && forall k :: 0 <= k < |acts| ==>
         LegalAction(cfg, ws[k], acts[k], horizon) && Act(cfg, ws[k], acts[k]) == ws[k + 1]
  }

  lemma {:induction false} TraceWorld(cfg: Config, acts: seq<Action>, ws: seq<World>, horizon: nat, k: nat)
    requires IsTrace(cfg, acts, ws, horizon) && k <= |acts|
    ensures After(cfg, acts[..k]) == ws[k]
  {
    if k > 0 {
      TraceWorld(cfg, acts, ws, horizon, k - 1);
      assert acts[..k][..k - 1] == acts[..k - 1] && acts[..k][k - 1] == acts[k - 1];
    }
  }

  lemma TraceIsLegal(cfg: Config, acts: seq<Action>, ws: seq<World>, horizon: nat)
    requires IsTrace(cfg, acts, ws, horizon)
    ensures LegalSchedule(cfg, acts, horizon) && After(cfg, acts) == ws[|acts|]
  {
    forall k | 0 <= k < |acts| ensures LegalAction(cfg, After(cfg, acts[..k]), acts[k], horizon) {
      TraceWorld(cfg, acts, ws, horizon, k);
    }
    TraceWorld(cfg, acts, ws, horizon, |acts|);
    assert acts[..|acts|] == acts;
  }

  // ---------- a handler that runs alone is the atomic step ----------

  /** Three database calls in a row, by one request. */
  function RunAlone(cfg: Config, rows: Table, start: Proc, r: Reading): (Table, Proc) {
    var one := Advanced(cfg, rows, start, r);
    var two := Advanced(cfg, one.0, one.1, r);
    Advanced(cfg, two.0, two.1, r)
  }

  /** The outcome of a registration whose stored texts are `times`. */
  function RegisterOutcome(cfg: Config, rows: Table, req: Registration, times: Times): (Table, Response) {
    if HasActive(rows, req.nid) then (rows, Conflict)
    else if req.x509 && !LeafBuildable(req.nid, req.pubKey) then (rows, Internal)
    else IssueAndStore(rows, RegisterRecord(cfg, req, NextSerial(cfg.mode, Serials(rows)), times))
  }

  lemma RegisterCalls(cfg: Config, rows: Table, req: Registration, r: Reading)
    ensures RunAlone(cfg, rows, RegStart(req), r) == Ended(RegisterOutcome(cfg, rows, req, r.times))
  {
    if HasActive(rows, req.nid) {
      DoneStays(cfg, rows, Conflict, r);
    }
  }

  lemma DoneStays(cfg: Config, rows: Table, answer: Response, r: Reading)
    ensures Advanced(cfg, rows, Done(answer), r) == (rows, Done(answer))
  {
  }

  lemma RegisterAtomic(cfg: Config, rows: Table, req: Registration, times: Times, now: nat)
    requires KeyOk(req.pubKey) && req.nidOk && times == TimesFor(cfg, req.entity, now)
    ensures RegisterOutcome(cfg, rows, req, times) == ApplyRegister(cfg, rows, true, req, now)
  {
  }

  lemma RegisterAlone(cfg: Config, rows: Table, req: Registration, r: Reading, now: nat)
    requires KeyOk(req.pubKey) && req.nidOk && r.times == TimesFor(cfg, req.entity, now)
    ensures RunAlone(cfg, rows, RegStart(req), r) == Ended(ApplyRegister(cfg, rows, true, req, now))
  {
    RegisterCalls(cfg, rows, req, r);
    RegisterAtomic(cfg, rows, req, r.times, now);
  }

  lemma RenewFromFound(cfg: Config, rows: Table, rec: Record, r: Reading)
    ensures var two := Advanced(cfg, rows, RenewFound(rec), r);
            Advanced(cfg, two.0, two.1, r) ==
            Ended(IssueAndStore(rows, RenewedRecord(cfg, rec, NextSerial(cfg.mode, Serials(rows)), r.times)))
  {
  }

  lemma RenewCalls(cfg: Config, rows: Table, nid: string, r: Reading)
    ensures var refusal := RenewRefusal(cfg, rows, r.pick, r.nowCheck);
            RunAlone(cfg, rows, RenewStart(nid), r) ==
            if refusal.Some? then (rows, Done(refusal.value))
            else Ended(IssueAndStore(rows, RenewedRecord(cfg, rows[r.pick.value].rec,
                                                         NextSerial(cfg.mode, Serials(rows)), r.times)))
  {
    var refusal := RenewRefusal(cfg, rows, r.pick, r.nowCheck);
    if refusal.None? {
      RenewFromFound(cfg, rows, rows[r.pick.value].rec, r);
    } else {
      DoneStays(cfg, rows, refusal.value, r);
    }
  }

  lemma RenewAlone(cfg: Config, rows: Table, nid: string, r: Reading, now: nat)
    requires r.pick.Some? && r.pick.value < |rows| ==> r.times == TimesFor(cfg, rows[r.pick.value].rec.entity, now)
    ensures RunAlone(cfg, rows, RenewStart(nid), r) == Ended(ApplyRenew(cfg, rows, true, r.pick, r.nowCheck, now))
  {
    RenewCalls(cfg, rows, nid, r);
  }

  lemma RevokeCalls(cfg: Config, rows: Table, nid: string, reason: Option<string>, r: Reading)
    ensures RunAlone(cfg, rows, RevokeStart(nid, reason), r) == Ended(RevokeWith(rows, nid, reason, r.at, r.reply))
  {
    var result := RevokeWith(rows, nid, reason, r.at, r.reply);
    DoneStays(cfg, result.0, result.1, r);
  }

  lemma RevokeAlone(cfg: Config, rows: Table, nid: string, reason: Option<string>, r: Reading, now: nat, nowReply: nat)
    requires r.at == FmtIso(now) && r.reply == FmtIso(nowReply)
    ensures RunAlone(cfg, rows, RevokeStart(nid, reason), r) ==
            Ended(ApplyRevoke(rows, true, nid, reason, now, nowReply))
  {
    RevokeCalls(cfg, rows, nid, reason, r);
  }

  // ---------- what one call does to the table ----------

  /** A call leaves the table alone, runs one insert, or runs one revocation. */
  predicate CallCase(cfg: Config, rows: Table, p: Proc, r: Reading, next: Table) {
    || next == rows
    || (p.RegNumbered? && next == Inserted(rows, RegisterRecord(cfg, p.req, p.serial, r.times)))
    || (p.RenewNumbered? && next == Inserted(rows, RenewedRecord(cfg, p.rec, p.serial, r.times)))
    || (p.RevokeStart? && ReasonOf(p.reason) in VALID_REASONS
        && next == Revoked(rows, p.nid, r.at, ReasonOf(p.reason)))
  }

  lemma CallCases(cfg: Config, rows: Table, p: Proc, r: Reading)
    ensures CallCase(cfg, rows, p, r, Advanced(cfg, rows, p, r).0)
  {
  }

  lemma CallExtends(cfg: Config, rows: Table, p: Proc, r: Reading, next: Table)
    requires CallCase(cfg, rows, p, r, next)
    ensures Extends(rows, next)
  {
  }

  /** In every interleaving rows are never removed or rewritten, and a revocation is written once. */
  lemma {:induction false} ScheduleExtends(cfg: Config, acts: seq<Action>, k: nat)
    requires k <= |acts|
    ensures Extends(After(cfg, acts[..k]).rows, After(cfg, acts).rows)
  {
    if k == |acts| {
      assert acts[..k] == acts;
    } else {
      var last := |acts| - 1;
      var w := After(cfg, acts[..last]);
      assert acts[..last][..k] == acts[..k];
      ScheduleExtends(cfg, acts[..last], k);
      ActExtends(cfg, w, acts[last]);
      ExtendsTransitive(After(cfg, acts[..k]).rows, w.rows, After(cfg, acts).rows);
    }
  }

  lemma ActExtends(cfg: Config, w: World, a: Action)
    ensures Extends(w.rows, Act(cfg, w, a).rows)
  {
    if a.Advance? && a.id in w.procs {
      CallCases(cfg, w.rows, w.procs[a.id], a.r);
      CallExtends(cfg, w.rows, w.procs[a.id], a.r, Act(cfg, w, a).rows);
    }
  }

  // ---------- invariants of every interleaving ----------

  predicate ProcOk(p: Proc) {
    match p
    case RegStart(req) => req.entity != Operator
    case RegChecked(req) => req.entity != Operator
    case RegNumbered(req, _) => req.entity != Operator
    case RenewFound(rec) => rec.entity != Operator
    case RenewNumbered(rec, _) => rec.entity != Operator
    case _ => true
  }

  predicate ProcsOk(procs: map<nat, Proc>) {
    forall id :: id in procs ==> ProcOk(procs[id])
  }

  lemma CallKeepsWellFormed(cfg: Config, rows: Table, p: Proc, r: Reading, now: nat, next: Table, horizon: nat)
    requires WellFormed(cfg, rows, horizon) && ProcOk(p) && now <= horizon < TWO64
    requires ReadAt(cfg, p, r, now) && CallCase(cfg, rows, p, r, next)
    ensures WellFormed(cfg, next, horizon)
  {
    if next != rows {
      match p {
        case RegNumbered(req, serial) =>
          InsertKeepsWellFormed(cfg, rows, RegisterRecord(cfg, req, serial, r.times), now, horizon);
        case RenewNumbered(rec, serial) =>
          InsertKeepsWellFormed(cfg, rows, RenewedRecord(cfg, rec, serial, r.times), now, horizon);
        case RevokeStart(nid, reason) =>
          ClockStamp(now, horizon);
          RevokeKeepsWellFormed(cfg, rows, nid, r.at, ReasonOf(reason), horizon);
        case _ =>
      }
    }
  }

  lemma CallKeepsProc(cfg: Config, rows: Table, p: Proc, r: Reading)
    requires ProcOk(p) && forall i :: 0 <= i < |rows| ==> rows[i].rec.entity != Operator
    ensures ProcOk(Advanced(cfg, rows, p, r).1)
  {
  }

  lemma NoOperators(cfg: Config, rows: Table, horizon: nat)
    requires Each(rows, RowOk(cfg, horizon))
    ensures forall i :: 0 <= i < |rows| ==> rows[i].rec.entity != Operator
  {
    forall i | 0 <= i < |rows| ensures rows[i].rec.entity != Operator {
      RowEntity(cfg, rows, i, horizon);
    }
  }

  lemma ActKeepsWellFormed(cfg: Config, w: World, a: Action, horizon: nat)
    requires WellFormed(cfg, w.rows, horizon) && ProcsOk(w.procs) && LegalAction(cfg, w, a, horizon) && horizon < TWO64
    ensures WellFormed(cfg, Act(cfg, w, a).rows, horizon) && ProcsOk(Act(cfg, w, a).procs)
  {
    if a.Advance? {
      var p := w.procs[a.id];
      CallCases(cfg, w.rows, p, a.r);
      CallKeepsWellFormed(cfg, w.rows, p, a.r, a.now, Act(cfg, w, a).rows, horizon);
      NoOperators(cfg, w.rows, horizon);
      CallKeepsProc(cfg, w.rows, p, a.r);
    }
  }

  /** In every interleaving stored serials stay pairwise distinct, every row carries both stamps of one
      clock reading, and every revocation carries a time and an allowed reason. */
  lemma {:induction false} ScheduleInvariants(cfg: Config, acts: seq<Action>, horizon: nat)
    requires LegalSchedule(cfg, acts, horizon) && horizon < TWO64
    ensures WellFormed(cfg, After(cfg, acts).rows, horizon) && ProcsOk(After(cfg, acts).procs)
  {
    if acts != [] {
      var last := |acts| - 1;
      PrefixSchedule(cfg, acts, last, horizon);
      ScheduleInvariants(cfg, acts[..last], horizon);
      ActKeepsWellFormed(cfg, After(cfg, acts[..last]), acts[last], horizon);
    }
  }

  // ---------- the allocator under interleaving ----------

  /** A request that holds a serial and has not inserted yet. */
  predicate HasNumber(p: Proc) {
    p.RegNumbered? || p.RenewNumbered?
  }

  /** A serial that was the next one of this table or of an earlier one. */
  ghost predicate Drawn(mode: SerialRead, rows: Table, serial: string) {
    exists k :: 1 <= k <= |rows| + 1 && (mode == AsWritten ==> k <= 10) && serial == PrintSerial(k)
  }

  ghost predicate WorldNumbered(mode: SerialRead, w: World) {
    && WithinReach(mode, w.rows)
    && forall id :: id in w.procs && HasNumber(w.procs[id]) ==> Drawn(mode, w.rows, w.procs[id].serial)
  }

  lemma NextIsDrawn(mode: SerialRead, rows: Table)
    requires WithinReach(mode, rows)
    ensures Drawn(mode, rows, NextSerial(mode, Serials(rows)))
  {
    NextNumber(mode, rows);
    var k := if mode == AsWritten && |rows| == 10 then 10 else |rows| + 1;
    assert NextSerial(mode, Serials(rows)) == PrintSerial(k);
  }

  /** Of the serials drawn so far, the insert accepts exactly the one that follows the last row. */
  lemma AcceptedIff(mode: SerialRead, rows: Table, serial: string)
    requires WithinReach(mode, rows) && Drawn(mode, rows, serial)
    ensures !SerialTaken(rows, serial) <==> serial == PrintSerial(|rows| + 1)
  {
    var k :| 1 <= k <= |rows| + 1 && (mode == AsWritten ==> k <= 10) && serial == PrintSerial(k);
    TakenIffReached(rows, k);
    PrintSerialInjective(k, |rows| + 1);
  }

  lemma InsertKeepsReach(mode: SerialRead, rows: Table, rec: Record)
    requires WithinReach(mode, rows) && Drawn(mode, rows, rec.serial)
    ensures WithinReach(mode, Inserted(rows, rec))
  {
    AcceptedIff(mode, rows, rec.serial);
    if !SerialTaken(rows, rec.serial) {
      var k :| 1 <= k <= |rows| + 1 && (mode == AsWritten ==> k <= 10) && rec.serial == PrintSerial(k);
      PrintSerialInjective(k, |rows| + 1);
      AppendNumbered(rows, rec);
    }
  }

  lemma CallKeepsReach(cfg: Config, rows: Table, p: Proc, r: Reading, next: Table)
    requires WithinReach(cfg.mode, rows) && CallCase(cfg, rows, p, r, next)
    requires HasNumber(p) ==> Drawn(cfg.mode, rows, p.serial)
    ensures WithinReach(cfg.mode, next) && |rows| <= |next|
  {
    if next != rows {
      match p {
        case RegNumbered(req, serial) => InsertKeepsReach(cfg.mode, rows, RegisterRecord(cfg, req, serial, r.times));
        case RenewNumbered(rec, serial) => InsertKeepsReach(cfg.mode, rows, RenewedRecord(cfg, rec, serial, r.times));
        case RevokeStart(nid, reason) => RevokeKeepsNumbering(cfg.mode, rows, nid, r.at, ReasonOf(reason));
      }
    }
  }

  lemma DrawnStays(mode: SerialRead, a: Table, b: Table, serial: string)
    requires Drawn(mode, a, serial) && |a| <= |b|
    ensures Drawn(mode, b, serial)
  {
    var k :| 1 <= k <= |a| + 1 && (mode == AsWritten ==> k <= 10) && serial == PrintSerial(k);
    assert k <= |b| + 1;
  }

  lemma NumberedProc(cfg: Config, rows: Table, p: Proc, r: Reading)
    ensures var q := Advanced(cfg, rows, p, r).1; HasNumber(q) ==> q.serial == NextSerial(cfg.mode, Serials(rows))
    ensures HasNumber(Advanced(cfg, rows, p, r).1) ==> Advanced(cfg, rows, p, r).0 == rows
  {
  }

  lemma ActKeepsNumbered(cfg: Config, w: World, a: Action, horizon: nat)
    requires WorldNumbered(cfg.mode, w) && LegalAction(cfg, w, a, horizon)
    ensures WorldNumbered(cfg.mode, Act(cfg, w, a))
  {
    if a.Advance? {
      var p, next := w.procs[a.id], Act(cfg, w, a);
      CallCases(cfg, w.rows, p, a.r);
      CallKeepsReach(cfg, w.rows, p, a.r, next.rows);
      NumberedProc(cfg, w.rows, p, a.r);
      NextIsDrawn(cfg.mode, w.rows);
      forall id | id in next.procs && HasNumber(next.procs[id])
        ensures Drawn(cfg.mode, next.rows, next.procs[id].serial)
      {
        if id != a.id { DrawnStays(cfg.mode, w.rows, next.rows, w.procs[id].serial); }
      }
    }
  }

  /** In every interleaving row `i` carries number `i + 1`, every serial in flight is one of those numbers or
      the one after the last, and with the SQL as written there are never more than ten rows. */
  lemma {:induction false} ScheduleNumbered(cfg: Config, acts: seq<Action>, horizon: nat)
    requires LegalSchedule(cfg, acts, horizon)
    ensures WorldNumbered(cfg.mode, After(cfg, acts))
  {
    if acts != [] {
      var last := |acts| - 1;
      PrefixSchedule(cfg, acts, last, horizon);
      ScheduleNumbered(cfg, acts[..last], horizon);
      ActKeepsNumbered(cfg, After(cfg, acts[..last]), acts[last], horizon);
    }
  }

  // ---------- which inserts are lost ----------

  lemma WaitsStep(cfg: Config, acts: seq<Action>, horizon: nat, id: nat, i: nat)
    requires LegalSchedule(cfg, acts, horizon) && i < |acts| && id in After(cfg, acts[..i]).procs
    requires acts[i].Advance? ==> acts[i].id != id
    ensures id in After(cfg, acts[..i + 1]).procs
    ensures After(cfg, acts[..i + 1]).procs[id] == After(cfg, acts[..i]).procs[id]
  {
    ScheduleStep(cfg, acts, i, horizon);
  }

  /** Between its own calls a request does not change. */
  lemma {:induction false} Waits(cfg: Config, acts: seq<Action>, horizon: nat, id: nat, i: nat, j: nat)
    requires LegalSchedule(cfg, acts, horizon) && i <= j <= |acts| && id in After(cfg, acts[..i]).procs
    requires forall m :: i <= m < j && acts[m].Advance? ==> acts[m].id != id
    ensures id in After(cfg, acts[..j]).procs && After(cfg, acts[..j]).procs[id] == After(cfg, acts[..i]).procs[id]
    decreases j - i
  {
    if i < j {
      WaitsStep(cfg, acts, horizon, id, i);
      Waits(cfg, acts, horizon, id, i + 1, j);
    }
  }

  /** The NID that a request's own insert would make active. */
  function InsertTarget(p: Proc): Option<string> {
    match p
    case RegNumbered(req, _) => if req.x509 && !LeafBuildable(req.nid, req.pubKey) then None else Some(req.nid)
    case RenewNumbered(rec, _) => Some(rec.nid)
    case _ => None
  }

  lemma InsertCall(cfg: Config, rows: Table, p: Proc, r: Reading)
    requires InsertTarget(p).Some?
    ensures var next := Advanced(cfg, rows, p, r);
            && next.1.Done? && next.1.answer.Issued?
            && |next.0| == if SerialTaken(rows, p.serial) then |rows| else |rows| + 1
  {
  }

  /** `i` is the call at which the request drew the serial that it inserts at call `j`. */
  ghost predicate DrawsThenInserts(cfg: Config, acts: seq<Action>, i: nat, j: nat) {
    && i < j < |acts|
    && acts[i].Advance? && acts[j].Advance? && acts[i].id == acts[j].id
    && (forall m :: i < m < j && acts[m].Advance? ==> acts[m].id != acts[j].id)
    && acts[j].id in After(cfg, acts[..j]).procs
    && InsertTarget(After(cfg, acts[..j]).procs[acts[j].id]).Some?
  }

  predicate AnsweredIssued(w: World, id: nat) {
    id in w.procs && w.procs[id].Done? && w.procs[id].answer.Issued?
  }

  lemma DrawnAt(cfg: Config, acts: seq<Action>, horizon: nat, i: nat, j: nat)
    requires LegalSchedule(cfg, acts, horizon) && DrawsThenInserts(cfg, acts, i, j)
    ensures After(cfg, acts[..j]).procs[acts[j].id].serial == NextSerial(cfg.mode, Serials(After(cfg, acts[..i]).rows))
  {
    var w := After(cfg, acts[..i]);
    ScheduleStep(cfg, acts, i, horizon);
    Waits(cfg, acts, horizon, acts[j].id, i + 1, j);
    NumberedProc(cfg, w.rows, w.procs[acts[j].id], acts[i].r);
  }

  lemma TakenIffGrown(mode: SerialRead, drawn: Table, before: Table)
    requires WithinReach(mode, drawn) && WithinReach(mode, before) && |drawn| <= |before|
    ensures SerialTaken(before, NextSerial(mode, Serials(drawn))) <==>
            |before| > |drawn| || (mode == AsWritten && |drawn| == 10)
  {
    NextNumber(mode, drawn);
    TakenIffReached(before, if mode == AsWritten && |drawn| == 10 then 10 else |drawn| + 1);
  }

  lemma ReachAt(cfg: Config, acts: seq<Action>, horizon: nat, k: nat)
    requires LegalSchedule(cfg, acts, horizon) && k <= |acts|
    ensures WithinReach(cfg.mode, After(cfg, acts[..k]).rows)
  {
    PrefixSchedule(cfg, acts, k, horizon);
    ScheduleNumbered(cfg, acts[..k], horizon);
  }

  /** Whatever becomes of its row, an insert call is answered as issued. */
  lemma InsertAt(cfg: Config, acts: seq<Action>, horizon: nat, j: nat)
    requires LegalSchedule(cfg, acts, horizon) && j < |acts| && acts[j].Advance?
    requires acts[j].id in After(cfg, acts[..j]).procs
    requires InsertTarget(After(cfg, acts[..j]).procs[acts[j].id]).Some?
    ensures AnsweredIssued(After(cfg, acts[..j + 1]), acts[j].id)
    ensures var w := After(cfg, acts[..j]);
            |After(cfg, acts[..j + 1]).rows| ==
            if SerialTaken(w.rows, w.procs[acts[j].id].serial) then |w.rows| else |w.rows| + 1
  {
    var w := After(cfg, acts[..j]);
    ScheduleStep(cfg, acts, j, horizon);
    InsertCall(cfg, w.rows, w.procs[acts[j].id], acts[j].r);
  }

  lemma GrowsFrom(cfg: Config, acts: seq<Action>, i: nat, j: nat)
    requires i <= j <= |acts|
    ensures |After(cfg, acts[..i]).rows| <= |After(cfg, acts[..j]).rows|
  {
    assert acts[..j][..i] == acts[..i];
    ScheduleExtends(cfg, acts[..j], i);
  }

  /** The handler answers success either way; its insert is lost exactly when another request stored a row
      between its two calls, or when the SQL as written had already run out of numbers. */
  lemma LostIffGrown(cfg: Config, acts: seq<Action>, horizon: nat, i: nat, j: nat)
    requires LegalSchedule(cfg, acts, horizon) && DrawsThenInserts(cfg, acts, i, j)
    ensures AnsweredIssued(After(cfg, acts[..j + 1]), acts[j].id)
    ensures var drawn, before := |After(cfg, acts[..i]).rows|, |After(cfg, acts[..j]).rows|;
            |After(cfg, acts[..j + 1]).rows| ==
            if before > drawn || (cfg.mode == AsWritten && drawn == 10) then before else before + 1
  {
    DrawnAt(cfg, acts, horizon, i, j);
    ReachAt(cfg, acts, horizon, i);
    ReachAt(cfg, acts, horizon, j);
    GrowsFrom(cfg, acts, i, j);
    TakenIffGrown(cfg.mode, After(cfg, acts[..i]).rows, After(cfg, acts[..j]).rows);
    InsertAt(cfg, acts, horizon, j);
  }
}
