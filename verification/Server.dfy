/** The HTTP handlers as methods on the server state: sequences of database and issuing calls.
    Each is proved to take exactly the atomic step of the lifecycle. */
module Server {
  import opened Wrappers
  import opened Serial
  import opened Json
  import opened CanonicalJson
  import opened Timestamp
  import opened Database
  import opened Issue
  import opened Lifecycle

  /** `cert[key].as_str().unwrap_or("")`. */
  function TextAt(cert: map<string, Json>, key: string): string {
    if key in cert && cert[key].Str? then cert[key].s else ""
  }

  function FieldsOfRecord(rec: Record): Fields {
    Fields(rec.capabilities, rec.expiresAt, rec.issuedAt, rec.issuedBy, rec.nid, rec.pubKey, rec.scope, rec.serial)
  }

  lemma SignedTimes(f: Fields, frame: map<string, Json>)
    requires SignedPart(frame) == UnsignedMap(f)
    ensures TextAt(frame, "issued_at") == f.issuedAt && TextAt(frame, "expires_at") == f.expiresAt
  {
    FieldsOfMap(f);
    assert "issued_at" in SignedPart(frame) && "expires_at" in SignedPart(frame);
  }

  /** The handler reads back the timestamps that it stores from the frame it answers with. */
  lemma FrameTimes(sign: string -> string, style: Style, f: Fields, metadata: Option<Json>, leafText: string,
                   rootText: string)
    ensures var v1 := Frame(sign, style, f, metadata);
            && TextAt(v1, "issued_at") == f.issuedAt && TextAt(v1, "expires_at") == f.expiresAt
            && TextAt(V2Frame(v1, leafText, rootText), "issued_at") == f.issuedAt
            && TextAt(V2Frame(v1, leafText, rootText), "expires_at") == f.expiresAt
  {
    DualTrustAgreement(sign, style, f, metadata, leafText, rootText);
    var v1 := Frame(sign, style, f, metadata);
    SignedTimes(f, v1);
    SignedTimes(f, V2Frame(v1, leafText, rootText));
  }

  /** The answered frame carries exactly the signed fields of `rec`, column by column, and their signature. */
  ghost predicate FrameFor(sign: string -> string, style: Style, frame: Option<map<string, Json>>, rec: Record) {
    && frame.Some?
    && SignedPart(frame.value) ==
       map["capabilities" := Strings(rec.capabilities), "expires_at" := Str(rec.expiresAt),
           "issued_at" := Str(rec.issuedAt), "issued_by" := Str(rec.issuedBy), "nid" := Str(rec.nid),
           "pub_key" := Str(rec.pubKey), "scope" := rec.scope, "serial" := Str(rec.serial)]
    && "signature" in frame.value
    && frame.value["signature"] == Str("ed25519:" + sign(Canonical(style, SignedPart(frame.value))))
  }

  const SIGNED_KEYS: set<string> :=
    {"capabilities", "expires_at", "issued_at", "issued_by", "nid", "pub_key", "scope", "serial"}

  /** Beside the eight signed members and the signature: the metadata if there is any, and in a v2 frame the
      format and the chain, leaf first. */
  predicate Carries(frame: map<string, Json>, metadata: Option<Json>, x509: bool, leafText: string, rootText: string) {
    && frame.Keys == SIGNED_KEYS + {"signature"} + (if metadata.Some? then {"metadata"} else {})
                     + (if x509 then {"cert_format", "cert_chain"} else {})
    && (metadata.Some? ==> frame["metadata"] == metadata.value)
    && (x509 ==> frame["cert_format"] == Str("v2-x509") && frame["cert_chain"] == Arr([Str(leafText), Str(rootText)]))
  }

  lemma IssuedFrame(sign: string -> string, style: Style, rec: Record, leafText: string, rootText: string)
    ensures var v1 := Frame(sign, style, FieldsOfRecord(rec), rec.metadata);
            && FrameFor(sign, style, Some(v1), rec)
            && FrameFor(sign, style, Some(V2Frame(v1, leafText, rootText)), rec)
  {
    DualTrustAgreement(sign, style, FieldsOfRecord(rec), rec.metadata, leafText, rootText);
  }

  lemma IssuedCarries(sign: string -> string, style: Style, rec: Record, leafText: string, rootText: string)
    ensures var v1 := Frame(sign, style, FieldsOfRecord(rec), rec.metadata);
            && Carries(v1, rec.metadata, false, leafText, rootText)
            && Carries(V2Frame(v1, leafText, rootText), rec.metadata, true, leafText, rootText)
  {
    var v1 := Frame(sign, style, FieldsOfRecord(rec), rec.metadata);
    FrameContents(sign, style, FieldsOfRecord(rec), rec.metadata, leafText, rootText);
    FieldsOfMap(FieldsOfRecord(rec));
    PlainCarries(v1, rec.metadata, leafText, rootText);
    ChainCarries(v1, V2Frame(v1, leafText, rootText), rec.metadata, leafText, rootText);
  }

  lemma PlainCarries(v1: map<string, Json>, metadata: Option<Json>, leafText: string, rootText: string)
    requires v1.Keys == SIGNED_KEYS + {"signature"} + (if metadata.Some? then {"metadata"} else {})
    requires metadata.Some? ==> v1["metadata"] == metadata.value
    ensures Carries(v1, metadata, false, leafText, rootText)
  {
  }

  lemma ChainCarries(v1: map<string, Json>, v2: map<string, Json>, metadata: Option<Json>, leafText: string,
                     rootText: string)
    requires Carries(v1, metadata, false, leafText, rootText)
    requires v2.Keys == v1.Keys + {"cert_format", "cert_chain"} && forall k :: k in v1 ==> v2[k] == v1[k]
    requires v2["cert_format"] == Str("v2-x509") && v2["cert_chain"] == Arr([Str(leafText), Str(rootText)])
    ensures Carries(v2, metadata, true, leafText, rootText)
  {
  }

  /** The record that a renewal of row `i` stores. */
  function RenewalOf(cfg: Config, rows: Table, i: nat, now: nat): Record
    requires i < |rows|
  {
    RenewedRecord(cfg, rows[i].rec, NextSerial(cfg.mode, Serials(rows)), TimesFor(cfg, rows[i].rec.entity, now))
  }

  lemma RenewByRefusal(cfg: Config, rows: Table, pick: Option<nat>, nowCheck: nat, now: nat, refusal: Option<Response>)
    requires refusal == RenewRefusal(cfg, rows, pick, nowCheck)
    ensures ApplyRenew(cfg, rows, true, pick, nowCheck, now) ==
            if refusal.Some? then (rows, refusal.value) else IssueAndStore(rows, RenewalOf(cfg, rows, pick.value, now))
  {
  }

  lemma RenewalTimes(cfg: Config, rows: Table, i: nat, now: nat)
    requires i < |rows|
    ensures var rec := RenewalOf(cfg, rows, i, now);
            && Times(rec.issuedAt, rec.expiresAt) == IsoNowPlus(now, DaysFor(cfg, rows[i].rec.entity))
            && rec.serial == NextSerial(cfg.mode, Serials(rows))
  {
  }

  class CaServer {
    const cfg: Config
    const db: CaDb
    const style: Style
    const sign: string -> string
    const encodeLeaf: Leaf -> string
    const rootText: string

    constructor (cfg: Config, style: Style, sign: string -> string, encodeLeaf: Leaf -> string, rootText: string)
      ensures this.cfg == cfg && this.db.mode == cfg.mode && fresh(this.db) && this.db.rows == []
    {
      this.cfg := cfg;
      this.style := style;
      this.sign := sign;
      this.encodeLeaf := encodeLeaf;
      this.rootText := rootText;
      this.db := new CaDb(cfg.mode);
    }

    /** The leaf text of a v2 frame for `rec`. */
    function LeafText(rec: Record, clock: nat): string {
      encodeLeaf(LeafOf(FieldsOfRecord(rec), rec.entity, clock))
    }

    /** Issue a frame for `rec`'s subject, v1 or v2; `None` when the leaf cannot be built. */
    method IssueFor(rec: Record, days: int, x509: bool, now: nat, clock: nat)
      returns (cert: Option<map<string, Json>>)
      requires rec.issuedAt == FmtIso(now) && rec.expiresAt == FmtIso(ExpirySecs(now, days))
      ensures cert.None? <==> x509 && !LeafBuildable(rec.nid, rec.pubKey)
      ensures cert.Some? ==> FrameFor(sign, style, cert, rec)
      ensures cert.Some? ==> Carries(cert.value, rec.metadata, x509, LeafText(rec, clock), rootText)
      ensures cert.Some? ==> TextAt(cert.value, "issued_at") == rec.issuedAt
      ensures cert.Some? ==> TextAt(cert.value, "expires_at") == rec.expiresAt
    {
      var leafText := encodeLeaf(LeafOf(FieldsOfRecord(rec), rec.entity, clock));
      IssuedFrame(sign, style, rec, leafText, rootText);
      IssuedCarries(sign, style, rec, leafText, rootText);
      FrameTimes(sign, style, FieldsOfRecord(rec), rec.metadata, leafText, rootText);
      if x509 {
        var f;
        cert, f := IssueCertX509(sign, style, rec.issuedBy, rec.nid, rec.pubKey, rec.entity, rec.capabilities,
                                 rec.scope, days, rec.serial, rec.metadata, now, clock, encodeLeaf, rootText);
        assert f == FieldsOfRecord(rec);
      } else {
        var v1, f := IssueCert(sign, style, rec.issuedBy, rec.nid, rec.pubKey, rec.capabilities, rec.scope,
                               days, rec.serial, rec.metadata, now);
        assert f == FieldsOfRecord(rec);
        cert := Some(v1);
      }
    }

    /** The tail of `register` and `renew`: issue, read the times back from the frame, insert, answer.
        The insert's result is dropped. */
    method IssueAndInsert(rec: Record, days: int, x509: bool, now: nat, clock: nat)
      returns (resp: Response, frame: Option<map<string, Json>>)
      requires Times(rec.issuedAt, rec.expiresAt) == IsoNowPlus(now, days)
      modifies db`rows
      ensures (db.rows, resp) == if x509 && !LeafBuildable(rec.nid, rec.pubKey) then (old(db.rows), Internal)
                                 else IssueAndStore(old(db.rows), rec)
      ensures resp.Issued? <==> frame.Some?
      ensures resp.Issued? ==> FrameFor(sign, style, frame, rec)
      ensures resp.Issued? ==> Carries(frame.value, rec.metadata, x509, LeafText(rec, clock), rootText)
    {
      var cert := IssueFor(rec, days, x509, now, clock);
      if cert.None? { return Internal, None; }
      var issuedAt, expiresAt := TextAt(cert.value, "issued_at"), TextAt(cert.value, "expires_at");
      var ok := db.Insert(rec.(issuedAt := issuedAt, expiresAt := expiresAt));
      return Issued(rec.nid, rec.serial, issuedAt, expiresAt), cert;
    }

    /** `register` and `register_x509`. */
    method Register(authorized: bool, req: Registration, now: nat, clock: nat)
      returns (resp: Response, frame: Option<map<string, Json>>)
      requires db.mode == cfg.mode
      modifies db`rows
      ensures (db.rows, resp) == ApplyRegister(cfg, old(db.rows), authorized, req, now)
      ensures resp.Issued? <==> frame.Some?
      ensures resp.Issued? ==>
                var rec := RegisterRecord(cfg, req, NextSerial(cfg.mode, Serials(old(db.rows))),
                                          TimesFor(cfg, req.entity, now));
                && FrameFor(sign, style, frame, rec)
                && Carries(frame.value, req.metadata, req.x509, LeafText(rec, clock), rootText)
    {
      if !authorized { return Unauthorized, None; }
      if !KeyOk(req.pubKey) || !req.nidOk { return BadRequest, None; }
      var active := db.GetActive(req.nid);
      if active.Some? {
        assert IsActive(db.rows[active.value], req.nid);
        return Conflict, None;
      }
      var serial := db.NextSerial();
      var rec := RegisterRecord(cfg, req, serial, TimesFor(cfg, req.entity, now));
      resp, frame := IssueAndInsert(rec, DaysFor(cfg, req.entity), req.x509, now, clock);
    }

    /** The checks of `renew`: the row that was found, and the window. */
    method CheckRenewal(pick: Option<nat>, nowCheck: nat) returns (refusal: Option<Response>)
      requires pick.Some? ==> pick.value < |db.rows|
      ensures refusal == RenewRefusal(cfg, db.rows, pick, nowCheck)
    {
      if pick.None? { return Some(NotFound); }
      var exp := IsoToEpoch(db.rows[pick.value].rec.expiresAt);
      var left := DaysLeft(exp, nowCheck);
      refusal := WindowRefusal(left, cfg.renewalDays);
    }

    /** `renew` past its checks: number, issue, insert, answer. */
    method RenewFound(i: nat, now: nat) returns (resp: Response, frame: Option<map<string, Json>>)
      requires db.mode == cfg.mode && i < |db.rows|
      modifies db`rows
      ensures (db.rows, resp) == IssueAndStore(old(db.rows), RenewalOf(cfg, old(db.rows), i, now))
      ensures resp.Issued? && FrameFor(sign, style, frame, RenewalOf(cfg, old(db.rows), i, now))
      ensures Carries(frame.value, old(db.rows)[i].rec.metadata, false, "", "")
    {
      RenewalTimes(cfg, db.rows, i, now);
      var current := db.rows[i].rec;
      var serial := db.NextSerial();
      var rec := RenewedRecord(cfg, current, serial, TimesFor(cfg, current.entity, now));
      resp, frame := IssueAndInsert(rec, DaysFor(cfg, current.entity), false, now, now);
    }

    /** `renew`: which of the tied latest rows was renewed is reported in `pick`. */
    method Renew(authorized: bool, nid: string, nowCheck: nat, now: nat)
      returns (resp: Response, frame: Option<map<string, Json>>, pick: Option<nat>)
      requires db.mode == cfg.mode
      modifies db`rows
      ensures authorized ==> IsPick(old(db.rows), nid, pick)
      ensures (db.rows, resp) == ApplyRenew(cfg, old(db.rows), authorized, pick, nowCheck, now)
      ensures resp.Issued? <==> frame.Some?
      ensures resp.Issued? ==> pick.Some? && pick.value < |old(db.rows)|
                               && FrameFor(sign, style, frame, RenewalOf(cfg, old(db.rows), pick.value, now))
                               && Carries(frame.value, old(db.rows)[pick.value].rec.metadata, false, "", "")
    {
      if !authorized { return Unauthorized, None, None; }
      pick := db.GetActive(nid);
      var refusal := CheckRenewal(pick, nowCheck);
      RenewByRefusal(cfg, db.rows, pick, nowCheck, now, refusal);
      if refusal.Some? { return refusal.value, None, pick; }
      resp, frame := RenewFound(pick.value, now);
    }

    /** `revoke_handler`; the answer reads the clock once more. */
    method RevokeHandler(authorized: bool, nid: string, reason: Option<string>, now: nat, nowReply: nat)
      returns (resp: Response)
      modifies db`rows
      ensures (db.rows, resp) == ApplyRevoke(old(db.rows), authorized, nid, reason, now, nowReply)
    {
      if !authorized { return Unauthorized; }
      var why := ReasonOf(reason);
      if why !in VALID_REASONS { return BadRequest; }
      var before := db.rows;
      var changed := db.Revoke(nid, why, now);
      if !changed {
        assert db.rows == before;
        return NotFound;
      }
      resp := RevokedOk(nid, FmtIso(nowReply), why);
    }

    /** `verify_handler`: the answer names one active row of `nid`, as it is stored. */
    method VerifyHandler(nid: string, now: nat) returns (verdict: Verdict, pick: Option<nat>)
      ensures IsPick(db.rows, nid, pick) && verdict == Verify(db.rows, pick, now)
      ensures verdict.NidNotFound? <==> forall i :: 0 <= i < |db.rows| && db.rows[i].rec.nid == nid ==>
                                          db.rows[i].revokedAt.Some?
      ensures verdict.Verdict? ==> pick.Some? && pick.value < |db.rows|
                                   && db.rows[pick.value].rec.nid == nid && db.rows[pick.value].revokedAt.None?
                                   && verdict.rec == db.rows[pick.value].rec
                                   && (verdict.valid <==> now < IsoToEpoch(db.rows[pick.value].rec.expiresAt))
    {
      pick := db.GetActive(nid);
      if pick.None? {
        assert forall i :: 0 <= i < |db.rows| ==> !IsActive(db.rows[i], nid);
        return NidNotFound, pick;
      }
      assert IsActive(db.rows[pick.value], nid);
      var rec := db.rows[pick.value].rec;
      verdict := Verdict(IsoToEpoch(rec.expiresAt) > now, rec);
    }
  }
}
