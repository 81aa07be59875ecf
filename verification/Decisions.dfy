/** What each request is answered and what it does to the table, written out in terms of the request. */
module Decisions {
  import opened Wrappers
  import opened Serial
  import opened Timestamp
  import opened Database
  import opened Issue
  import opened Lifecycle

  // ---------- authorization ----------

  /** Refused for want of authorization exactly when there is none, and then without effect. */
  lemma UnauthorizedRefused(cfg: Config, rows: Table, e: Event)
    ensures Apply(cfg, rows, e).1.Unauthorized? <==> !e.authorized
    ensures !e.authorized ==> Apply(cfg, rows, e).0 == rows
  {
    match e {
      case Register(authorized, req, now) => RegisterAuthorized(cfg, rows, authorized, req, now);
      case Renew(authorized, _, pick, nowCheck, now) => RenewAuthorized(cfg, rows, authorized, pick, nowCheck, now);
      case Revoke(_, _, _, _, _) =>
    }
  }

  lemma RegisterAuthorized(cfg: Config, rows: Table, authorized: bool, req: Registration, now: nat)
    ensures ApplyRegister(cfg, rows, authorized, req, now).1.Unauthorized? <==> !authorized
    ensures !authorized ==> ApplyRegister(cfg, rows, authorized, req, now).0 == rows
  {
  }

  lemma RenewAuthorized(cfg: Config, rows: Table, authorized: bool, pick: Option<nat>, nowCheck: nat, now: nat)
    ensures ApplyRenew(cfg, rows, authorized, pick, nowCheck, now).1.Unauthorized? <==> !authorized
    ensures !authorized ==> ApplyRenew(cfg, rows, authorized, pick, nowCheck, now).0 == rows
  {
  }

  /** The history without its unauthorized requests. */
  function AuthorizedOnly(es: seq<Event>): seq<Event> {
    if es == [] then []
    else
      var last := es[|es| - 1];
      AuthorizedOnly(es[..|es| - 1]) + (if last.authorized then [last] else [])
  }

  lemma OneMoreEvent(cfg: Config, es: seq<Event>, e: Event)
    ensures State(cfg, es + [e]) == Apply(cfg, State(cfg, es), e).0
  {
    PrefixState(cfg, es + [e]);
    assert (es + [e])[..|es|] == es;
  }

  /** Unauthorized requests leave no trace: without them every history ends in the same table. */
  lemma {:induction false} UnauthorizedNoTrace(cfg: Config, es: seq<Event>)
    ensures State(cfg, es) == State(cfg, AuthorizedOnly(es))
  {
    if es != [] {
      var last := |es| - 1;
      UnauthorizedNoTrace(cfg, es[..last]);
      PrefixState(cfg, es);
      UnauthorizedRefused(cfg, State(cfg, es[..last]), es[last]);
      if es[last].authorized {
        OneMoreEvent(cfg, AuthorizedOnly(es[..last]), es[last]);
      } else {
        assert AuthorizedOnly(es) == AuthorizedOnly(es[..last]) + [] == AuthorizedOnly(es[..last]);
      }
    }
  }

  // ---------- registration ----------

  /** Some row of `nid` is unrevoked. */
  predicate InUse(rows: Table, nid: string) {
    exists i :: 0 <= i < |rows| && rows[i].rec.nid == nid && rows[i].revokedAt.None?
  }

  lemma InUseIsActive(rows: Table, nid: string)
    ensures HasActive(rows, nid) <==> InUse(rows, nid)
  {
    if HasActive(rows, nid) {
      var i :| 0 <= i < |rows| && IsActive(rows[i], nid);
      assert rows[i].rec.nid == nid && rows[i].revokedAt.None?;
    }
    if i :| 0 <= i < |rows| && rows[i].rec.nid == nid && rows[i].revokedAt.None? {
      assert IsActive(rows[i], nid);
    }
  }

  lemma LeafCondition(nid: string, pubKey: string)
    ensures LeafBuildable(nid, pubKey) <==>
            && |pubKey| == 72 && pubKey[..8] == "ed25519:"
            && (forall i :: 8 <= i < 72 ==>
                  '0' <= pubKey[i] <= '9' || 'a' <= pubKey[i] <= 'f' || 'A' <= pubKey[i] <= 'F')
            && forall i :: 0 <= i < |nid| ==> nid[i] as nat < 128
  {
    if |pubKey| == 72 {
      assert forall i :: 8 <= i < 72 ==> pubKey[i] == pubKey[8..][i - 8];
      assert forall i :: 0 <= i < 64 ==> pubKey[8..][i] == pubKey[i + 8];
    }
  }

  /** Which answer a registration gets. The key must be the prefix `ed25519:` and something after it; a v2
      registration needs exactly 64 hexadecimal digits there and an ASCII NID. */
  lemma RegisterDecision(cfg: Config, rows: Table, authorized: bool, req: Registration, now: nat)
    ensures var result := Apply(cfg, rows, Register(authorized, req, now));
            && (if !authorized then result.1 == Unauthorized
                else if |req.pubKey| <= 8 || req.pubKey[..8] != "ed25519:" || !req.nidOk then result.1 == BadRequest
                else if InUse(rows, req.nid) then result.1 == Conflict
                else if req.x509 &&
                        !(&& |req.pubKey| == 72
                          && (forall i :: 8 <= i < 72 ==>
                                || '0' <= req.pubKey[i] <= '9' || 'a' <= req.pubKey[i] <= 'f'
                                || 'A' <= req.pubKey[i] <= 'F')
                          && forall i :: 0 <= i < |req.nid| ==> req.nid[i] as nat < 128)
                then result.1 == Internal
                else result.1.Issued?)
            && (!result.1.Issued? ==> result.0 == rows)
  {
    InUseIsActive(rows, req.nid);
    LeafCondition(req.nid, req.pubKey);
    RegisterBranches(cfg, rows, authorized, req, now);
  }

  lemma RegisterBranches(cfg: Config, rows: Table, authorized: bool, req: Registration, now: nat)
    ensures var result := ApplyRegister(cfg, rows, authorized, req, now);
            && (if !authorized then result.1 == Unauthorized
                else if !KeyOk(req.pubKey) || !req.nidOk then result.1 == BadRequest
                else if HasActive(rows, req.nid) then result.1 == Conflict
                else if req.x509 && !LeafBuildable(req.nid, req.pubKey) then result.1 == Internal
                else result.1.Issued?)
            && (!result.1.Issued? ==> result.0 == rows)
  {
  }

  // ---------- what is stored ----------

  /** The table with `rec` appended as an unrevoked row, unless its serial is already there. */
  predicate Stores(rows: Table, rec: Record, next: Table) {
    if exists i :: 0 <= i < |rows| && rows[i].rec.serial == rec.serial then next == rows
    else next == rows + [Row(rec, None, None)]
  }

  /** The serial that follows the greatest number read from the table. */
  ghost predicate IsNextSerial(mode: SerialRead, rows: Table, serial: string) {
    exists m: nat :: IsMaxRead(mode, Serials(rows), m) && serial == PrintSerial(m + 1)
  }

  lemma NextSerialFollows(mode: SerialRead, rows: Table)
    ensures IsNextSerial(mode, rows, NextSerial(mode, Serials(rows)))
  {
    MaxReadIsMax(mode, Serials(rows));
  }

  lemma StoreAnswers(rows: Table, rec: Record, next: Table, answer: Response)
    requires (next, answer) == IssueAndStore(rows, rec)
    ensures Stores(rows, rec, next) && answer == Issued(rec.nid, rec.serial, rec.issuedAt, rec.expiresAt)
  {
  }

  lemma RegisterIssues(cfg: Config, rows: Table, authorized: bool, req: Registration, now: nat, times: Times)
    requires ApplyRegister(cfg, rows, authorized, req, now).1.Issued? && times == TimesFor(cfg, req.entity, now)
    ensures ApplyRegister(cfg, rows, authorized, req, now) ==
            IssueAndStore(rows, RegisterRecord(cfg, req, NextSerial(cfg.mode, Serials(rows)), times))
  {
  }

  lemma TimesWritten(cfg: Config, entity: Entity, now: nat)
    ensures TimesFor(cfg, entity, now) ==
            Times(FmtIso(now), FmtIso(ExpirySecs(now, if entity.Agent? then cfg.agentDays else cfg.nodeDays)))
  {
  }

  /** A registration that is answered as issued stores the request's columns, the next serial, this server as
      issuer, and the times that it answers. */
  lemma RegisterEffect(cfg: Config, rows: Table, authorized: bool, req: Registration, now: nat)
    requires Apply(cfg, rows, Register(authorized, req, now)).1.Issued?
    ensures var result := Apply(cfg, rows, Register(authorized, req, now));
            var serial, issuedAt, expiresAt := result.1.serial, result.1.issuedAt, result.1.expiresAt;
            && result.1.nid == req.nid && IsNextSerial(cfg.mode, rows, serial)
            && issuedAt == FmtIso(now)
            && expiresAt == FmtIso(ExpirySecs(now, if req.entity.Agent? then cfg.agentDays else cfg.nodeDays))
            && Stores(rows, Record(req.nid, req.entity, serial, req.pubKey, req.capabilities, req.scope, cfg.caNid,
                                   issuedAt, expiresAt, req.metadata), result.0)
  {
    var times, serial := TimesFor(cfg, req.entity, now), NextSerial(cfg.mode, Serials(rows));
    var result := ApplyRegister(cfg, rows, authorized, req, now);
    RegisterIssues(cfg, rows, authorized, req, now, times);
    NextSerialFollows(cfg.mode, rows);
    TimesWritten(cfg, req.entity, now);
    StoreAnswers(rows, RegisterRecord(cfg, req, serial, times), result.0, result.1);
  }

  lemma RenewIssues(cfg: Config, rows: Table, authorized: bool, pick: Option<nat>, nowCheck: nat, now: nat,
                    times: Times)
    requires ApplyRenew(cfg, rows, authorized, pick, nowCheck, now).1.Issued?
    requires pick.Some? && pick.value < |rows| ==> times == TimesFor(cfg, rows[pick.value].rec.entity, now)
    ensures pick.Some? && pick.value < |rows|
    ensures ApplyRenew(cfg, rows, authorized, pick, nowCheck, now) ==
            IssueAndStore(rows, RenewedRecord(cfg, rows[pick.value].rec, NextSerial(cfg.mode, Serials(rows)), times))
  {
  }

  lemma PickedRow(cfg: Config, rows: Table, authorized: bool, pick: Option<nat>, nowCheck: nat, now: nat)
    requires ApplyRenew(cfg, rows, authorized, pick, nowCheck, now).1.Issued?
    ensures pick.Some? && pick.value < |rows|
  {
  }

  /** A renewal that is answered as issued stores the picked row's subject again, under the next serial, with
      this server as issuer and the times that it answers. */
  lemma RenewEffect(cfg: Config, rows: Table, authorized: bool, nid: string, pick: Option<nat>, nowCheck: nat, now: nat)
    requires IsPick(rows, nid, pick) && Apply(cfg, rows, Renew(authorized, nid, pick, nowCheck, now)).1.Issued?
    ensures pick.Some?
    ensures var result := Apply(cfg, rows, Renew(authorized, nid, pick, nowCheck, now));
            var held := rows[pick.value].rec;
            var serial, issuedAt, expiresAt := result.1.serial, result.1.issuedAt, result.1.expiresAt;
            && result.1.nid == nid && IsNextSerial(cfg.mode, rows, serial)
            && issuedAt == FmtIso(now)
            && expiresAt == FmtIso(ExpirySecs(now, if held.entity.Agent? then cfg.agentDays else cfg.nodeDays))
            && Stores(rows, Record(nid, held.entity, serial, held.pubKey, held.capabilities, held.scope, cfg.caNid,
                                   issuedAt, expiresAt, held.metadata), result.0)
  {
    PickedRow(cfg, rows, authorized, pick, nowCheck, now);
    var held := rows[pick.value].rec;
    var times, serial := TimesFor(cfg, held.entity, now), NextSerial(cfg.mode, Serials(rows));
    var result := ApplyRenew(cfg, rows, authorized, pick, nowCheck, now);
    assert IsActive(rows[pick.value], nid);
    RenewIssues(cfg, rows, authorized, pick, nowCheck, now, times);
    NextSerialFollows(cfg.mode, rows);
    TimesWritten(cfg, held.entity, now);
    StoreAnswers(rows, RenewedRecord(cfg, held, serial, times), result.0, result.1);
  }

  // ---------- revocation ----------

  /** The reason that is recorded: the given one, or the default when none is given. */
  function GivenReason(reason: Option<string>): string {
    match reason
    case None => "cessation_of_operation"
    case Some(r) => r
  }

  lemma ReasonAllowed(reason: Option<string>)
    ensures ReasonOf(reason) == GivenReason(reason)
    ensures GivenReason(reason) in VALID_REASONS <==>
            GivenReason(reason) in {"key_compromise", "ca_compromise", "affiliation_changed", "superseded",
                                    "cessation_of_operation"}
  {
  }

  /** Exactly the unrevoked rows of `nid` get the time and the reason; all else is as before. */
  predicate Stamps(rows: Table, nid: string, at: string, reason: string, next: Table) {
    |next| == |rows| &&
    forall i :: 0 <= i < |rows| ==>
      next[i] == if rows[i].rec.nid == nid && rows[i].revokedAt.None? then Row(rows[i].rec, Some(at), Some(reason))
                 else rows[i]
  }

  lemma RevokedStamps(rows: Table, nid: string, at: string, reason: string)
    ensures Stamps(rows, nid, at, reason, Revoked(rows, nid, at, reason))
  {
  }

  lemma RevokeBranches(rows: Table, nid: string, reason: Option<string>, at: string, reply: string)
    ensures RevokeWith(rows, nid, reason, at, reply) ==
            if GivenReason(reason) !in VALID_REASONS then (rows, BadRequest)
            else if !HasActive(rows, nid) then (rows, NotFound)
            else (Revoked(rows, nid, at, GivenReason(reason)), RevokedOk(nid, reply, GivenReason(reason)))
  {
  }

  /** What a revocation is answered and does, in terms of the reason that was given. */
  lemma RevokeDecision(cfg: Config, rows: Table, authorized: bool, nid: string, reason: Option<string>, now: nat,
                       nowReply: nat)
    ensures var result := Apply(cfg, rows, Revoke(authorized, nid, reason, now, nowReply));
            var given := if reason.Some? then reason.value else "cessation_of_operation";
            if !authorized then result == (rows, Unauthorized)
            else if given !in {"key_compromise", "ca_compromise", "affiliation_changed", "superseded",
                               "cessation_of_operation"} then result == (rows, BadRequest)
            else if !InUse(rows, nid) then result == (rows, NotFound)
            else result.1 == RevokedOk(nid, FmtIso(nowReply), given) && Stamps(rows, nid, FmtIso(now), given, result.0)
  {
    ReasonAllowed(reason);
    InUseIsActive(rows, nid);
    RevokeBranches(rows, nid, reason, FmtIso(now), FmtIso(nowReply));
    RevokedStamps(rows, nid, FmtIso(now), GivenReason(reason));
  }
}
