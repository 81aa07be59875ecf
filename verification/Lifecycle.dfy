/** The certificate lifecycle as a state machine: each handler is one atomic step on the table, as
    in the synchronous handlers of the TypeScript port. Clock readings, random NIDs and the row that a tied
    `LIMIT 1` returns are inputs of a step. */
module Lifecycle {
  import opened Wrappers
  import opened Calendar
  import opened Serial
  import opened Json
  import opened Timestamp
  import opened Database
  import opened Issue

  datatype Config = Config(caNid: string, agentDays: int, nodeDays: int, renewalDays: int, mode: SerialRead)

  /** No certificate issued up to `horizon` gets an expiry that wraps around. */
  predicate PeriodsFit(cfg: Config, horizon: nat) {
    PeriodFits(cfg.agentDays, horizon) && PeriodFits(cfg.nodeDays, horizon)
  }

  function DaysFor(cfg: Config, entity: Entity): int {
    if entity == Agent then cfg.agentDays else cfg.nodeDays
  }

  const VALID_REASONS: seq<string> :=
    ["key_compromise", "ca_compromise", "affiliation_changed", "superseded", "cessation_of_operation"]

  // ---------- events, answers and steps ----------

  /** `nidOk` says that the requested NID passed the character check (or none was requested). */
  datatype Registration = Registration(
    nid: string, nidOk: bool, entity: Entity, x509: bool, pubKey: string,
    capabilities: seq<string>, scope: Json, metadata: Option<Json>)

  datatype Event =
    | Register(authorized: bool, req: Registration, now: nat)
    | Renew(authorized: bool, target: string, pick: Option<nat>, nowCheck: nat, now: nat)
    | Revoke(authorized: bool, target: string, reason: Option<string>, now: nat, nowReply: nat)

  datatype Response =
    | Unauthorized
    | BadRequest
    | Conflict
    | NotFound
    | Internal
    | TooEarly(opensIn: int)
    | Issued(nid: string, serial: string, issuedAt: string, expiresAt: string)
    | RevokedOk(nid: string, at: string, reason: string)

  predicate KeyOk(pubKey: string) {
    StartsWith(pubKey, "ed25519:") && |pubKey| > 8
  }

  /** The two texts of `iso_now_plus`. */
  datatype Times = Times(issuedAt: string, expiresAt: string)

  function IsoNowPlus(now: nat, days: int): Times {
    Times(FmtIso(now), FmtIso(ExpirySecs(now, days)))
  }

  function TimesFor(cfg: Config, entity: Entity, now: nat): Times {
    IsoNowPlus(now, DaysFor(cfg, entity))
  }

  function RecordFor(cfg: Config, nid: string, entity: Entity, pubKey: string, capabilities: seq<string>,
                     scope: Json, metadata: Option<Json>, serial: string, times: Times): Record {
    Record(nid, entity, serial, pubKey, capabilities, scope, cfg.caNid, times.issuedAt, times.expiresAt, metadata)
  }

  /** The insert's result is dropped: the answer is success whether or not the row was stored. */
  function IssueAndStore(rows: Table, rec: Record): (Table, Response) {
    (Inserted(rows, rec), Issued(rec.nid, rec.serial, rec.issuedAt, rec.expiresAt))
  }

  function RegisterRecord(cfg: Config, req: Registration, serial: string, times: Times): Record {
    RecordFor(cfg, req.nid, req.entity, req.pubKey, req.capabilities, req.scope, req.metadata, serial, times)
  }

  function ApplyRegister(cfg: Config, rows: Table, authorized: bool, req: Registration, now: nat): (Table, Response) {
    if !authorized then (rows, Unauthorized)
    else if !KeyOk(req.pubKey) || !req.nidOk then (rows, BadRequest)
    else if HasActive(rows, req.nid) then (rows, Conflict)
    else if req.x509 && !LeafBuildable(req.nid, req.pubKey) then (rows, Internal)
    else
      var serial := NextSerial(cfg.mode, Serials(rows));
      IssueAndStore(rows, RegisterRecord(cfg, req, serial, TimesFor(cfg, req.entity, now)))
  }

  lemma RegisterStores(cfg: Config, rows: Table, req: Registration, now: nat, times: Times)
    requires KeyOk(req.pubKey) && req.nidOk && !req.x509 && !HasActive(rows, req.nid)
    requires times == TimesFor(cfg, req.entity, now)
    ensures ApplyRegister(cfg, rows, true, req, now) ==
            IssueAndStore(rows, RegisterRecord(cfg, req, NextSerial(cfg.mode, Serials(rows)), times))
  {
  }

  /** `exp.saturating_sub(now) / 86400`. */
  function DaysLeft(exp: nat, now: nat): nat {
    (if exp > now then exp - now else 0) / SECONDS_PER_DAY
  }

  function RenewedRecord(cfg: Config, rec: Record, serial: string, times: Times): Record {
    RecordFor(cfg, rec.nid, rec.entity, rec.pubKey, rec.capabilities, rec.scope, rec.metadata, serial, times)
  }

  /** Refuses while more than `window` days are left, naming the days until the window opens. */
  function WindowRefusal(left: nat, window: int): (r: Option<Response>)
    ensures r.Some? ==> r.value.TooEarly?
  {
    if left > window then Some(TooEarly(left - window)) else None
  }

  /** The answer that refuses a renewal, if any. */
  function RenewRefusal(cfg: Config, rows: Table, pick: Option<nat>, nowCheck: nat): (r: Option<Response>)
    ensures r.None? ==> pick.Some? && pick.value < |rows|
    ensures r.Some? ==> r.value.NotFound? || r.value.TooEarly?
  {
    if pick.None? || pick.value >= |rows| then Some(NotFound)
    else WindowRefusal(DaysLeft(IsoToEpoch(rows[pick.value].rec.expiresAt), nowCheck), cfg.renewalDays)
  }

  function ApplyRenew(cfg: Config, rows: Table, authorized: bool, pick: Option<nat>, nowCheck: nat,
                      now: nat): (Table, Response) {
    if !authorized then (rows, Unauthorized)
    else
      var refusal := RenewRefusal(cfg, rows, pick, nowCheck);
      if refusal.Some? then (rows, refusal.value)
      else
        var rec, serial := rows[pick.value].rec, NextSerial(cfg.mode, Serials(rows));
        IssueAndStore(rows, RenewedRecord(cfg, rec, serial, TimesFor(cfg, rec.entity, now)))
  }

  function ReasonOf(reason: Option<string>): string {
    if reason.Some? then reason.value else "cessation_of_operation"
  }

  /** The revocation proper; `at` is stored, `reply` is the second clock reading that is answered. */
  function RevokeWith(rows: Table, nid: string, reason: Option<string>, at: string, reply: string): (Table, Response) {
    if ReasonOf(reason) !in VALID_REASONS then (rows, BadRequest)
    else if !HasActive(rows, nid) then (rows, NotFound)
    else (Revoked(rows, nid, at, ReasonOf(reason)), RevokedOk(nid, reply, ReasonOf(reason)))
  }

  function ApplyRevoke(rows: Table, authorized: bool, nid: string, reason: Option<string>, now: nat,
                       nowReply: nat): (Table, Response) {
    if !authorized then (rows, Unauthorized)
    else RevokeWith(rows, nid, reason, FmtIso(now), FmtIso(nowReply))
  }

  function Apply(cfg: Config, rows: Table, e: Event): (Table, Response) {
    match e
    case Register(authorized, req, now) => ApplyRegister(cfg, rows, authorized, req, now)
    case Renew(authorized, _, pick, nowCheck, now) => ApplyRenew(cfg, rows, authorized, pick, nowCheck, now)
    case Revoke(authorized, nid, reason, now, nowReply) => ApplyRevoke(rows, authorized, nid, reason, now, nowReply)
  }

  datatype Verdict = NidNotFound | Verdict(valid: bool, rec: Record)

  /** `verify_handler` for the row that `get_active` returned. */
  function Verify(rows: Table, pick: Option<nat>, now: nat): Verdict {
    if pick.None? || pick.value >= |rows| then NidNotFound
    else Verdict(IsoToEpoch(rows[pick.value].rec.expiresAt) > now, rows[pick.value].rec)
  }

  // ---------- runs ----------

  /** The table after the events, starting from an empty one. */
  function State(cfg: Config, es: seq<Event>): Table {
    if es == [] then []
    else Apply(cfg, State(cfg, es[..|es| - 1]), es[|es| - 1]).0
  }

  /** The answer to event `k` of a run. */
  function Answer(cfg: Config, es: seq<Event>, k: nat): Response
    requires k < |es|
  {
    Apply(cfg, State(cfg, es[..k]), es[k]).1
  }

  /** Stored clock readings lie within the horizon; the picked row is one the query may return; the
      routes register agents and nodes only. */
  predicate LegalEvent(rows: Table, e: Event, horizon: nat) {
    match e
    case Register(_, req, now) => req.entity != Operator && now <= horizon
    case Renew(_, nid, pick, _, now) => IsPick(rows, nid, pick) && now <= horizon
    case Revoke(_, _, _, now, _) => now <= horizon
  }

  predicate LegalRun(cfg: Config, es: seq<Event>, horizon: nat) {
    forall k :: 0 <= k < |es| ==> LegalEvent(State(cfg, es[..k]), es[k], horizon)
  }

  /** One more event: the last step of a run. */
  lemma {:induction false} PrefixState(cfg: Config, es: seq<Event>)
    requires es != []
    ensures State(cfg, es) == Apply(cfg, State(cfg, es[..|es| - 1]), es[|es| - 1]).0
    ensures Answer(cfg, es, |es| - 1) == Apply(cfg, State(cfg, es[..|es| - 1]), es[|es| - 1]).1
  {
  }

  lemma PrefixLegal(cfg: Config, es: seq<Event>, k: nat, horizon: nat)
    requires LegalRun(cfg, es, horizon) && k <= |es|
    ensures LegalRun(cfg, es[..k], horizon)
  {
    forall j | 0 <= j < k ensures LegalEvent(State(cfg, es[..k][..j]), es[..k][j], horizon) {
      assert es[..k][..j] == es[..j];
    }
  }

  // ---------- what every reachable table satisfies ----------

  /** The text of a clock reading up to `horizon`. */
  predicate IsStamp(text: string, horizon: nat) {
    IsoToEpoch(text) <= horizon && text == FmtIso(IsoToEpoch(text))
  }

  /** Both timestamps come from one clock reading. */
  predicate WellStamped(cfg: Config, rec: Record, horizon: nat) {
    && IsStamp(rec.issuedAt, horizon)
    && rec.expiresAt == FmtIso(ExpirySecs(IsoToEpoch(rec.issuedAt), DaysFor(cfg, rec.entity)))
    && rec.issuedBy == cfg.caNid
    && rec.entity != Operator
  }

  predicate SameIdentity(a: Record, b: Record) {
    && a.entity == b.entity
    && a.pubKey == b.pubKey
    && a.capabilities == b.capabilities
    && a.scope == b.scope
    && a.issuedBy == b.issuedBy
    && a.metadata == b.metadata
  }

  predicate WellRevoked(row: Row, horizon: nat) {
    match row.revokedAt
    case None => row.revokeReason.None?
    case Some(at) => row.revokeReason.Some? && row.revokeReason.value in VALID_REASONS && IsStamp(at, horizon)
  }

  predicate DistinctSerials(rows: Table) {
    forall i, j :: 0 <= i < j < |rows| ==> rows[i].rec.serial != rows[j].rec.serial
  }

  predicate Each(rows: Table, p: Row -> bool) {
    forall i :: 0 <= i < |rows| ==> p(rows[i])
  }

  function RowOk(cfg: Config, horizon: nat): Row -> bool {
    (row: Row) => WellStamped(cfg, row.rec, horizon) && WellRevoked(row, horizon)
  }

  predicate WellFormed(cfg: Config, rows: Table, horizon: nat) {
    DistinctSerials(rows) && Each(rows, RowOk(cfg, horizon))
  }

  /** The unrevoked rows of one NID describe one and the same subject. */
  predicate OneIdentity(rows: Table) {
    forall i, j :: 0 <= i < |rows| && 0 <= j < |rows| && rows[i].rec.nid == rows[j].rec.nid
                   && rows[i].revokedAt.None? && rows[j].revokedAt.None? ==>
                     SameIdentity(rows[i].rec, rows[j].rec)
  }

  lemma InsertKeepsEach(rows: Table, rec: Record, p: Row -> bool)
    requires DistinctSerials(rows) && Each(rows, p) && p(Row(rec, None, None))
    ensures DistinctSerials(Inserted(rows, rec)) && Each(Inserted(rows, rec), p)
  {
  }

  lemma RevokeKeepsEach(rows: Table, nid: string, at: string, reason: string, p: Row -> bool)
    requires DistinctSerials(rows) && Each(rows, p)
    requires forall row :: p(row) && row.revokedAt.None? ==>
               p(row.(revokedAt := Some(at), revokeReason := Some(reason)))
    ensures DistinctSerials(Revoked(rows, nid, at, reason)) && Each(Revoked(rows, nid, at, reason), p)
  {
    var r := Revoked(rows, nid, at, reason);
    forall i | 0 <= i < |r| ensures p(r[i]) {
      assert p(rows[i]);
    }
  }

  lemma NewRowOk(cfg: Config, rec: Record, now: nat, horizon: nat)
    requires now <= horizon < TWO64 && rec.entity != Operator && rec.issuedBy == cfg.caNid
    requires Times(rec.issuedAt, rec.expiresAt) == TimesFor(cfg, rec.entity, now)
    ensures RowOk(cfg, horizon)(Row(rec, None, None))
  {
    NewStamp(cfg, rec, now, horizon);
  }

  lemma NewStamp(cfg: Config, rec: Record, now: nat, horizon: nat)
    requires now <= horizon < TWO64 && rec.entity != Operator && rec.issuedBy == cfg.caNid
    requires Times(rec.issuedAt, rec.expiresAt) == TimesFor(cfg, rec.entity, now)
    ensures WellStamped(cfg, rec, horizon)
  {
    FmtIsoRoundTrip(now);
  }

  lemma ClockStamp(now: nat, horizon: nat)
    requires now <= horizon < TWO64
    ensures IsStamp(FmtIso(now), horizon)
  {
    FmtIsoRoundTrip(now);
  }

  lemma RevokedWell(row: Row, at: string, reason: string, horizon: nat)
    requires IsStamp(at, horizon) && reason in VALID_REASONS
    ensures WellRevoked(row.(revokedAt := Some(at), revokeReason := Some(reason)), horizon)
  {
  }

  lemma RevokedRowOk(cfg: Config, row: Row, at: string, reason: string, horizon: nat)
    requires RowOk(cfg, horizon)(row) && WellRevoked(row.(revokedAt := Some(at), revokeReason := Some(reason)), horizon)
    ensures RowOk(cfg, horizon)(row.(revokedAt := Some(at), revokeReason := Some(reason)))
  {
  }

  lemma RevokeKeepsWellFormed(cfg: Config, rows: Table, nid: string, at: string, reason: string, horizon: nat)
    requires WellFormed(cfg, rows, horizon) && IsStamp(at, horizon) && reason in VALID_REASONS
    ensures WellFormed(cfg, Revoked(rows, nid, at, reason), horizon)
  {
    var p := RowOk(cfg, horizon);
    forall row | p(row) && row.revokedAt.None?
      ensures p(row.(revokedAt := Some(at), revokeReason := Some(reason)))
    {
      RevokedWell(row, at, reason, horizon);
      RevokedRowOk(cfg, row, at, reason, horizon);
    }
    RevokeKeepsEach(rows, nid, at, reason, p);
  }

  lemma InsertKeepsWellFormed(cfg: Config, rows: Table, rec: Record, now: nat, horizon: nat)
    requires WellFormed(cfg, rows, horizon) && now <= horizon < TWO64
    requires rec.entity != Operator && rec.issuedBy == cfg.caNid
    requires Times(rec.issuedAt, rec.expiresAt) == TimesFor(cfg, rec.entity, now)
    ensures WellFormed(cfg, Inserted(rows, rec), horizon)
  {
    NewRowOk(cfg, rec, now, horizon);
    InsertKeepsEach(rows, rec, RowOk(cfg, horizon));
  }

  lemma RowEntity(cfg: Config, rows: Table, i: nat, horizon: nat)
    requires Each(rows, RowOk(cfg, horizon)) && i < |rows|
    ensures rows[i].rec.entity != Operator && rows[i].rec.issuedBy == cfg.caNid
  {
    assert RowOk(cfg, horizon)(rows[i]);
  }

  /** A step leaves the table alone, runs one insert, or runs one revocation; its answer says which. */
  predicate StepCase(cfg: Config, rows: Table, e: Event, next: Table, answer: Response) {
    var serial := NextSerial(cfg.mode, Serials(rows));
    || (next == rows && !answer.Issued? && !answer.RevokedOk?)
    || (e.Register? && answer.Issued? && answer.nid == e.req.nid && answer.serial == serial
        && !HasActive(rows, e.req.nid)
        && next == Inserted(rows, RegisterRecord(cfg, e.req, serial, TimesFor(cfg, e.req.entity, e.now))))
    || (e.Renew? && answer.Issued? && answer.serial == serial && e.pick.Some? && e.pick.value < |rows|
        && next == Inserted(rows, RenewedRecord(cfg, rows[e.pick.value].rec, serial,
                                                TimesFor(cfg, rows[e.pick.value].rec.entity, e.now))))
    || (e.Revoke? && answer.RevokedOk? && answer.nid == e.target && HasActive(rows, e.target)
        && ReasonOf(e.reason) in VALID_REASONS
        && next == Revoked(rows, e.target, FmtIso(e.now), ReasonOf(e.reason)))
  }

  lemma RegisterCase(cfg: Config, rows: Table, authorized: bool, req: Registration, now: nat)
    ensures var r := ApplyRegister(cfg, rows, authorized, req, now);
            StepCase(cfg, rows, Register(authorized, req, now), r.0, r.1)
  {
  }

  lemma RenewCase(cfg: Config, rows: Table, authorized: bool, nid: string, pick: Option<nat>, nowCheck: nat, now: nat)
    ensures var r := ApplyRenew(cfg, rows, authorized, pick, nowCheck, now);
            StepCase(cfg, rows, Renew(authorized, nid, pick, nowCheck, now), r.0, r.1)
  {
  }

  lemma RevokeCase(cfg: Config, rows: Table, authorized: bool, nid: string, reason: Option<string>, now: nat,
                   nowReply: nat)
    ensures var r := ApplyRevoke(rows, authorized, nid, reason, now, nowReply);
            StepCase(cfg, rows, Revoke(authorized, nid, reason, now, nowReply), r.0, r.1)
  {
  }

  lemma StepCases(cfg: Config, rows: Table, e: Event)
    ensures StepCase(cfg, rows, e, Apply(cfg, rows, e).0, Apply(cfg, rows, e).1)
  {
    match e {
      case Register(authorized, req, now) => RegisterCase(cfg, rows, authorized, req, now);
      case Renew(authorized, nid, pick, nowCheck, now) => RenewCase(cfg, rows, authorized, nid, pick, nowCheck, now);
      case Revoke(authorized, nid, reason, now, nowReply) =>
        RevokeCase(cfg, rows, authorized, nid, reason, now, nowReply);
    }
  }

  lemma StepKeepsWellFormed(cfg: Config, rows: Table, e: Event, horizon: nat, next: Table, answer: Response)
    requires WellFormed(cfg, rows, horizon) && LegalEvent(rows, e, horizon) && horizon < TWO64
    requires StepCase(cfg, rows, e, next, answer)
    ensures WellFormed(cfg, next, horizon)
  {
    if next != rows {
      var serial := NextSerial(cfg.mode, Serials(rows));
      match e {
        case Register(_, req, now) =>
          var rec := RegisterRecord(cfg, req, serial, TimesFor(cfg, req.entity, now));
          InsertKeepsWellFormed(cfg, rows, rec, now, horizon);
        case Renew(_, _, pick, _, now) =>
          RowEntity(cfg, rows, pick.value, horizon);
          RenewKeepsWellFormed(cfg, rows, rows[pick.value].rec, serial, now, horizon);
        case Revoke(_, nid, reason, now, _) =>
          ClockStamp(now, horizon);
          RevokeKeepsWellFormed(cfg, rows, nid, FmtIso(now), ReasonOf(reason), horizon);
      }
    }
  }

  lemma RenewKeepsWellFormed(cfg: Config, rows: Table, rec: Record, serial: string, now: nat, horizon: nat)
    requires WellFormed(cfg, rows, horizon) && now <= horizon < TWO64 && rec.entity != Operator
    ensures WellFormed(cfg, Inserted(rows, RenewedRecord(cfg, rec, serial, TimesFor(cfg, rec.entity, now))), horizon)
  {
    InsertKeepsWellFormed(cfg, rows, RenewedRecord(cfg, rec, serial, TimesFor(cfg, rec.entity, now)), now, horizon);
  }

  lemma InsertKeepsOneIdentity(rows: Table, rec: Record)
    requires OneIdentity(rows)
    requires forall i :: 0 <= i < |rows| && IsActive(rows[i], rec.nid) ==> SameIdentity(rows[i].rec, rec)
    ensures OneIdentity(Inserted(rows, rec))
  {
  }

  /** Register needs an NID without active rows, renew copies the record: one identity per NID. */
  lemma StepKeepsOneIdentity(cfg: Config, rows: Table, e: Event, horizon: nat, next: Table, answer: Response)
    requires OneIdentity(rows) && LegalEvent(rows, e, horizon)
    requires forall i :: 0 <= i < |rows| ==> rows[i].rec.issuedBy == cfg.caNid
    requires StepCase(cfg, rows, e, next, answer)
    ensures OneIdentity(next)
  {
    var serial := NextSerial(cfg.mode, Serials(rows));
    if next != rows {
      match e {
        case Register(_, req, now) =>
          InsertKeepsOneIdentity(rows, RegisterRecord(cfg, req, serial, TimesFor(cfg, req.entity, now)));
        case Renew(_, nid, pick, _, now) =>
          var rec := rows[pick.value].rec;
          InsertKeepsOneIdentity(rows, RenewedRecord(cfg, rec, serial, TimesFor(cfg, rec.entity, now)));
        case Revoke(_, nid, reason, now, _) =>
      }
    }
  }

  lemma IssuedByCa(cfg: Config, rows: Table, horizon: nat)
    requires Each(rows, RowOk(cfg, horizon))
    ensures forall i :: 0 <= i < |rows| ==> rows[i].rec.issuedBy == cfg.caNid
  {
    forall i | 0 <= i < |rows| ensures rows[i].rec.issuedBy == cfg.caNid {
      RowEntity(cfg, rows, i, horizon);
    }
  }

  lemma {:induction false} ReachableInvariants(cfg: Config, es: seq<Event>, horizon: nat)
    requires LegalRun(cfg, es, horizon) && horizon < TWO64
    ensures WellFormed(cfg, State(cfg, es), horizon) && OneIdentity(State(cfg, es))
  {
    if es != [] {
      var last := |es| - 1;
      PrefixLegal(cfg, es, last, horizon);
      PrefixState(cfg, es);
      ReachableInvariants(cfg, es[..last], horizon);
      var rows := State(cfg, es[..last]);
      IssuedByCa(cfg, rows, horizon);
      StepCases(cfg, rows, es[last]);
      StepKeepsWellFormed(cfg, rows, es[last], horizon, State(cfg, es), Answer(cfg, es, last));
      StepKeepsOneIdentity(cfg, rows, es[last], horizon, State(cfg, es), Answer(cfg, es, last));
    }
  }
}
