/** What the holder of an issued certificate can count on, over whole histories. */
module Assurance {
  import opened Wrappers
  import opened Serial
  import opened Timestamp
  import opened Database
  import opened Issue
  import opened Lifecycle
  import opened VerifySound
  import Allocation
  import Ledger

  /** The subject that a registration asked for, certified by this server. */
  predicate Describes(cfg: Config, rec: Record, req: Registration) {
    && rec.entity == req.entity
    && rec.pubKey == req.pubKey
    && rec.capabilities == req.capabilities
    && rec.scope == req.scope
    && rec.metadata == req.metadata
    && rec.issuedBy == cfg.caNid
  }

  /** The row stored by an answered registration or renewal says what the answer says. */
  predicate StoredAs(row: Row, answer: Response)
    requires answer.Issued?
  {
    && row.revokedAt.None?
    && row.rec.nid == answer.nid
    && row.rec.serial == answer.serial
    && row.rec.issuedAt == answer.issuedAt
    && row.rec.expiresAt == answer.expiresAt
  }

  /** The new row is the last one of `next`. */
  ghost predicate StoredLast(cfg: Config, rows: Table, e: Event, next: Table, answer: Response)
    requires answer.Issued? && !e.Revoke?
  {
    && |next| == |rows| + 1 && next[..|rows|] == rows
    && StoredAs(next[|rows|], answer)
    && Times(answer.issuedAt, answer.expiresAt) == TimesFor(cfg, next[|rows|].rec.entity, e.now)
    && (e.Register? ==> answer.nid == e.req.nid && Describes(cfg, next[|rows|].rec, e.req))
  }

  lemma StoredRecord(rows: Table, rec: Record, next: Table, answer: Response)
    requires (next, answer) == IssueAndStore(rows, rec) && !SerialTaken(rows, rec.serial)
    ensures answer.Issued? && next == rows + [Row(rec, None, None)] && next[..|rows|] == rows
    ensures next[|rows|] == Row(rec, None, None) && StoredAs(next[|rows|], answer)
    ensures answer.issuedAt == rec.issuedAt && answer.expiresAt == rec.expiresAt
  {
  }

  lemma RegisteredLast(cfg: Config, rows: Table, authorized: bool, req: Registration, now: nat, next: Table,
                       answer: Response)
    requires (next, answer) == ApplyRegister(cfg, rows, authorized, req, now) && answer.Issued?
    requires !SerialTaken(rows, NextSerial(cfg.mode, Serials(rows)))
    ensures StoredLast(cfg, rows, Register(authorized, req, now), next, answer)
  {
    var times := TimesFor(cfg, req.entity, now);
    var rec := RegisterRecord(cfg, req, NextSerial(cfg.mode, Serials(rows)), times);
    StoredRecord(rows, rec, next, answer);
  }

  lemma RenewedLast(cfg: Config, rows: Table, e: Event, next: Table, answer: Response)
    requires e.Renew? && answer.Issued?
    requires (next, answer) == ApplyRenew(cfg, rows, e.authorized, e.pick, e.nowCheck, e.now)
    requires !SerialTaken(rows, NextSerial(cfg.mode, Serials(rows)))
    ensures StoredLast(cfg, rows, e, next, answer)
  {
    var before := rows[e.pick.value].rec;
    var times := TimesFor(cfg, before.entity, e.now);
    var rec := RenewedRecord(cfg, before, NextSerial(cfg.mode, Serials(rows)), times);
    StoredRecord(rows, rec, next, answer);
  }

  lemma IssuedLast(cfg: Config, rows: Table, e: Event, next: Table, answer: Response)
    requires (next, answer) == Apply(cfg, rows, e) && answer.Issued?
    requires !SerialTaken(rows, NextSerial(cfg.mode, Serials(rows)))
    ensures !e.Revoke? && StoredLast(cfg, rows, e, next, answer)
  {
    match e {
      case Register(authorized, req, now) => RegisteredLast(cfg, rows, authorized, req, now, next, answer);
      case Renew(_, _, _, _, _) => RenewedLast(cfg, rows, e, next, answer);
      case Revoke(_, _, _, _, _) =>
    }
  }

  /** The step of event `k` in a history. */
  lemma IssuedAt(cfg: Config, es: seq<Event>, k: nat)
    requires k < |es| && Answer(cfg, es, k).Issued?
    requires cfg.mode == Base16 || |State(cfg, es[..k])| < 10
    ensures !es[k].Revoke?
    ensures StoredLast(cfg, State(cfg, es[..k]), es[k], State(cfg, es[..k + 1]), Answer(cfg, es, k))
  {
    PrefixState(cfg, es[..k + 1]);
    assert es[..k + 1][..k] == es[..k] && es[..k + 1][k] == es[k];
    Allocation.SerialFreshIff(cfg, es[..k]);
    IssuedLast(cfg, State(cfg, es[..k]), es[k], State(cfg, es[..k + 1]), Answer(cfg, es, k));
  }

  lemma SameSubject(cfg: Config, a: Record, b: Record, req: Registration)
    requires SameIdentity(a, b) && Describes(cfg, a, req)
    ensures Describes(cfg, b, req)
  {
  }

  lemma ActiveRowInTable(rows: Table, nid: string, i: nat, pick: Option<nat>, t: nat)
    requires OneIdentity(rows) && i < |rows| && IsActive(rows[i], nid) && IsPick(rows, nid, pick)
    requires pick.Some? ==> PickExpiresLast(rows, nid, pick.value)
    ensures var v := Verify(rows, pick, t);
            v.Verdict? && SameIdentity(rows[i].rec, v.rec) && (t < ExpiryOf(rows[i].rec) ==> v.valid)
  {
    assert pick.Some?;
    assert IsActive(rows[pick.value], nid);
  }

  /** A row that is still active bounds the verdict from below. */
  lemma ActiveRowHonoured(cfg: Config, es: seq<Event>, horizon: nat, nid: string, i: nat, pick: Option<nat>, t: nat)
    requires VerifyGuard(cfg, horizon) && LegalRun(cfg, es, horizon) && horizon < YEAR_10000
    requires i < |State(cfg, es)| && IsActive(State(cfg, es)[i], nid) && IsPick(State(cfg, es), nid, pick)
    ensures var v := Verify(State(cfg, es), pick, t);
            && v.Verdict?
            && SameIdentity(State(cfg, es)[i].rec, v.rec)
            && (t < ExpiryOf(State(cfg, es)[i].rec) ==> v.valid)
  {
    ReachableInvariants(cfg, es, horizon);
    if pick.Some? { ReachablePickIsLast(cfg, es, horizon, nid, pick.value); }
    ActiveRowInTable(State(cfg, es), nid, i, pick, t);
  }

  /** Whenever the server answers that a certificate was issued and the allocator has room, then as long
      as the NID is not revoked, verify finds it: the subject is the registered one, and the verdict is
      valid at every time before the answered expiry, which is the configured period after issue. */
  lemma IssuedIsHonoured(cfg: Config, es: seq<Event>, horizon: nat, k: nat, pick: Option<nat>, t: nat)
    requires VerifyGuard(cfg, horizon) && LegalRun(cfg, es, horizon) && horizon < YEAR_10000
    requires k < |es| && Answer(cfg, es, k).Issued?
    requires cfg.mode == Base16 || |State(cfg, es[..k])| < 10
    requires Ledger.NotRevokedSince(cfg, es, k + 1, Answer(cfg, es, k).nid)
    requires IsPick(State(cfg, es), Answer(cfg, es, k).nid, pick)
    ensures !es[k].Revoke?
    ensures var v := Verify(State(cfg, es), pick, t);
            var expiry := IsoToEpoch(Answer(cfg, es, k).expiresAt);
            && v.Verdict?
            && (t < expiry ==> v.valid)
            && expiry == ExpirySecs(es[k].now, DaysFor(cfg, v.rec.entity))
            && (es[k].Register? ==> Answer(cfg, es, k).nid == es[k].req.nid && Describes(cfg, v.rec, es[k].req))
  {
    IssuedAt(cfg, es, k);
    var answer := Answer(cfg, es, k);
    var i := |State(cfg, es[..k])|;
    var row := State(cfg, es[..k + 1])[i];
    Ledger.ActiveStays(cfg, es, k + 1, answer.nid, i);
    ActiveRowHonoured(cfg, es, horizon, answer.nid, i, pick, t);
    ClockWithinHorizon(cfg, es, horizon, k);
    RecordExpiry(cfg, row.rec, es[k].now);
    if es[k].Register? { SameSubject(cfg, row.rec, Verify(State(cfg, es), pick, t).rec, es[k].req); }
  }

  lemma ClockWithinHorizon(cfg: Config, es: seq<Event>, horizon: nat, k: nat)
    requires LegalRun(cfg, es, horizon) && k < |es|
    ensures es[k].now <= horizon
  {
    assert LegalEvent(State(cfg, es[..k]), es[k], horizon);
  }
}
