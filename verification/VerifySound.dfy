/** What `verify` answers from one text-ordered row equals the obvious statement over all rows. */
module VerifySound {
  import opened Wrappers
  import opened Calendar
  import opened Text
  import opened Serial
  import opened Json
  import opened Timestamp
  import opened Database
  import opened Issue
  import opened Lifecycle

  // ---------- the latest row expires last ----------

  function ExpiryOf(rec: Record): nat {
    IsoToEpoch(rec.expiresAt)
  }

  lemma RowExpiry(cfg: Config, rec: Record, horizon: nat)
    requires WellStamped(cfg, rec, horizon) && PeriodFits(DaysFor(cfg, rec.entity), horizon)
    ensures ExpiryOf(rec) == IsoToEpoch(rec.issuedAt) + PeriodSecs(DaysFor(cfg, rec.entity))
  {
    var t := IsoToEpoch(rec.issuedAt);
    ExpiryFits(t, DaysFor(cfg, rec.entity), horizon);
    FmtIsoRoundTrip(ExpirySecs(t, DaysFor(cfg, rec.entity)));
  }

  lemma RecordExpiry(cfg: Config, rec: Record, now: nat)
    requires rec.expiresAt == TimesFor(cfg, rec.entity, now).expiresAt
    ensures ExpiryOf(rec) == ExpirySecs(now, DaysFor(cfg, rec.entity))
  {
    FmtIsoRoundTrip(ExpirySecs(now, DaysFor(cfg, rec.entity)));
  }

  lemma LaterStamp(a: string, b: string, horizon: nat)
    requires IsStamp(a, horizon) && IsStamp(b, horizon) && horizon < YEAR_10000 && !LexLess(a, b)
    ensures IsoToEpoch(b) <= IsoToEpoch(a)
  {
    FmtIsoOrder(IsoToEpoch(a), IsoToEpoch(b));
  }

  /** Among rows with the same validity period, the text-latest one expires last. */
  lemma LatestExpiresLast(cfg: Config, a: Record, b: Record, horizon: nat)
    requires horizon < YEAR_10000 && PeriodsFit(cfg, horizon)
    requires WellStamped(cfg, a, horizon) && WellStamped(cfg, b, horizon)
    requires PeriodSecs(DaysFor(cfg, a.entity)) == PeriodSecs(DaysFor(cfg, b.entity))
    requires !LexLess(a.issuedAt, b.issuedAt)
    ensures ExpiryOf(b) <= ExpiryOf(a)
  {
    RowExpiry(cfg, a, horizon);
    RowExpiry(cfg, b, horizon);
    LaterStamp(a.issuedAt, b.issuedAt, horizon);
  }

  /** The expiry of the picked row bounds the expiry of every active row. */
  ghost predicate PickExpiresLast(rows: Table, nid: string, i: nat) {
    i < |rows| &&
    forall j :: 0 <= j < |rows| && IsActive(rows[j], nid) ==> ExpiryOf(rows[j].rec) <= ExpiryOf(rows[i].rec)
  }

  /** The active rows of `nid` share one validity period. */
  predicate SamePeriod(cfg: Config, rows: Table, nid: string) {
    forall i, j :: 0 <= i < |rows| && 0 <= j < |rows| && IsActive(rows[i], nid) && IsActive(rows[j], nid) ==>
      PeriodSecs(DaysFor(cfg, rows[i].rec.entity)) == PeriodSecs(DaysFor(cfg, rows[j].rec.entity))
  }

  lemma PickIsLast(cfg: Config, rows: Table, nid: string, i: nat, horizon: nat)
    requires horizon < YEAR_10000 && PeriodsFit(cfg, horizon)
    requires Each(rows, RowOk(cfg, horizon)) && SamePeriod(cfg, rows, nid) && IsLatest(rows, nid, i)
    ensures PickExpiresLast(rows, nid, i)
  {
    forall j | 0 <= j < |rows| && IsActive(rows[j], nid)
      ensures ExpiryOf(rows[j].rec) <= ExpiryOf(rows[i].rec)
    {
      assert RowOk(cfg, horizon)(rows[i]) && RowOk(cfg, horizon)(rows[j]);
      LatestExpiresLast(cfg, rows[i].rec, rows[j].rec, horizon);
    }
  }

  // ---------- the answer over all rows ----------

  ghost predicate SomeActiveUnexpired(rows: Table, nid: string, now: nat) {
    exists j :: 0 <= j < |rows| && IsActive(rows[j], nid) && ExpiryOf(rows[j].rec) > now
  }

  /** `rec` is what some active row of `nid` stores, in every column. */
  ghost predicate IsActiveRecord(rows: Table, nid: string, rec: Record) {
    exists i :: 0 <= i < |rows| && IsActive(rows[i], nid) && rows[i].rec == rec
  }

  /** No active row of `nid` expires after `rec`. */
  ghost predicate NoneOutlives(rows: Table, nid: string, rec: Record) {
    forall j :: 0 <= j < |rows| && IsActive(rows[j], nid) ==>
      IsoToEpoch(rows[j].rec.expiresAt) <= IsoToEpoch(rec.expiresAt)
  }

  /** Not-found exactly when no row is active. Otherwise the answered record is an active row's, none of them
      expires later, and the answer is valid exactly when that record, or any active row, expires after `now`. */
  ghost predicate VerifyRight(rows: Table, nid: string, pick: Option<nat>, now: nat) {
    match Verify(rows, pick, now)
    case NidNotFound => !HasActive(rows, nid)
    case Verdict(valid, rec) =>
      && IsActiveRecord(rows, nid, rec)
      && NoneOutlives(rows, nid, rec)
      && (valid <==> now < IsoToEpoch(rec.expiresAt))
      && (valid <==> SomeActiveUnexpired(rows, nid, now))
  }

  /** Whatever the table, the answer speaks of one active row of the NID that was asked for. */
  lemma AnswerIsActiveRow(rows: Table, nid: string, pick: Option<nat>, now: nat)
    requires IsPick(rows, nid, pick)
    ensures var v := Verify(rows, pick, now);
            && (v.NidNotFound? <==> !HasActive(rows, nid))
            && (v.Verdict? ==> IsActiveRecord(rows, nid, v.rec) && v.rec.nid == nid
                               && (v.valid <==> now < IsoToEpoch(v.rec.expiresAt)))
  {
    if pick.Some? { assert IsActive(rows[pick.value], nid); }
  }

  lemma VerifyByPick(rows: Table, nid: string, pick: Option<nat>, now: nat)
    requires IsPick(rows, nid, pick)
    requires pick.Some? ==> PickExpiresLast(rows, nid, pick.value)
    ensures VerifyRight(rows, nid, pick, now)
  {
    AnswerIsActiveRow(rows, nid, pick, now);
    if pick.Some? {
      assert IsActive(rows[pick.value], nid);
    }
  }

  /** The expiry answered for table `b` is no earlier than that answered for table `a`. */
  ghost predicate ExpiryNotEarlier(a: Table, p: Option<nat>, s: nat, b: Table, q: Option<nat>, t: nat) {
    var before, after := Verify(a, p, s), Verify(b, q, t);
    before.Verdict? ==> after.Verdict? && IsoToEpoch(before.rec.expiresAt) <= IsoToEpoch(after.rec.expiresAt)
  }

  lemma AnsweredExpiryKept(a: Table, b: Table, nid: string, p: Option<nat>, s: nat, q: Option<nat>, t: nat)
    requires IsPick(a, nid, p) && IsPick(b, nid, q)
    requires p.Some? ==> p.value < |b| && IsActive(b[p.value], nid) && b[p.value].rec == a[p.value].rec
    requires q.Some? ==> PickExpiresLast(b, nid, q.value)
    ensures ExpiryNotEarlier(a, p, s, b, q, t)
  {
    AnswerIsActiveRow(a, nid, p, s);
    AnswerIsActiveRow(b, nid, q, t);
  }

  lemma OneIdentitySamePeriod(cfg: Config, rows: Table, nid: string)
    requires OneIdentity(rows)
    ensures SamePeriod(cfg, rows, nid)
  {
    forall i, j | 0 <= i < |rows| && 0 <= j < |rows| && IsActive(rows[i], nid) && IsActive(rows[j], nid)
      ensures PeriodSecs(DaysFor(cfg, rows[i].rec.entity)) == PeriodSecs(DaysFor(cfg, rows[j].rec.entity))
    {
      assert SameIdentity(rows[i].rec, rows[j].rec);
    }
  }

  // ---------- a window that never opens ----------

  /** At most one row of each NID is active. */
  predicate OneActive(rows: Table) {
    forall i, j :: 0 <= i < j < |rows| && rows[i].rec.nid == rows[j].rec.nid ==>
      rows[i].revokedAt.Some? || rows[j].revokedAt.Some?
  }

  lemma RenewRefused(cfg: Config, rows: Table, e: Event)
    requires cfg.renewalDays < 0 && e.Renew?
    ensures Apply(cfg, rows, e).0 == rows && !Apply(cfg, rows, e).1.Issued?
  {
    assert Apply(cfg, rows, e) == ApplyRenew(cfg, rows, e.authorized, e.pick, e.nowCheck, e.now);
  }

  lemma InsertKeepsOneActive(rows: Table, rec: Record)
    requires OneActive(rows) && !HasActive(rows, rec.nid)
    ensures OneActive(Inserted(rows, rec))
  {
    assert forall i :: 0 <= i < |rows| ==> !IsActive(rows[i], rec.nid);
  }

  lemma StepKeepsOneActive(cfg: Config, rows: Table, e: Event, next: Table, answer: Response)
    requires OneActive(rows) && StepCase(cfg, rows, e, next, answer)
    requires e.Renew? ==> !answer.Issued?
    ensures OneActive(next)
  {
    if e.Register? && answer.Issued? {
      var serial := NextSerial(cfg.mode, Serials(rows));
      InsertKeepsOneActive(rows, RegisterRecord(cfg, e.req, serial, TimesFor(cfg, e.req.entity, e.now)));
    }
  }

  lemma {:induction false} NeverRenewed(cfg: Config, es: seq<Event>)
    requires cfg.renewalDays < 0
    ensures OneActive(State(cfg, es))
  {
    if es != [] {
      var last := |es| - 1;
      NeverRenewed(cfg, es[..last]);
      PrefixState(cfg, es);
      StepCases(cfg, State(cfg, es[..last]), es[last]);
      if es[last].Renew? { RenewRefused(cfg, State(cfg, es[..last]), es[last]); }
      StepKeepsOneActive(cfg, State(cfg, es[..last]), es[last], State(cfg, es), Answer(cfg, es, last));
    }
  }

  // ---------- every reachable table ----------

  /** Renewals are never granted, or no expiry wraps around. */
  predicate VerifyGuard(cfg: Config, horizon: nat) {
    cfg.renewalDays < 0 || PeriodsFit(cfg, horizon)
  }

  lemma OnlyActiveIsLast(rows: Table, nid: string, i: nat)
    requires OneActive(rows) && IsLatest(rows, nid, i)
    ensures PickExpiresLast(rows, nid, i)
  {
    forall j | 0 <= j < |rows| && IsActive(rows[j], nid) ensures j == i {
      assert IsActive(rows[i], nid);
    }
  }

  /** In every reachable table the picked row expires last. No assumption on the clock's direction. */
  lemma ReachablePickIsLast(cfg: Config, es: seq<Event>, horizon: nat, nid: string, i: nat)
    requires VerifyGuard(cfg, horizon) && LegalRun(cfg, es, horizon) && horizon < YEAR_10000
    requires IsLatest(State(cfg, es), nid, i)
    ensures PickExpiresLast(State(cfg, es), nid, i)
  {
    if cfg.renewalDays < 0 {
      NeverRenewed(cfg, es);
      OnlyActiveIsLast(State(cfg, es), nid, i);
    } else {
      ReachableInvariants(cfg, es, horizon);
      OneIdentitySamePeriod(cfg, State(cfg, es), nid);
      PickIsLast(cfg, State(cfg, es), nid, i, horizon);
    }
  }

  /** Headline: after any run whose clock stays before the year 10000, `verify` is right. */
  lemma VerifyIsRight(cfg: Config, es: seq<Event>, horizon: nat, nid: string, pick: Option<nat>, now: nat)
    requires VerifyGuard(cfg, horizon) && LegalRun(cfg, es, horizon) && horizon < YEAR_10000
    requires IsPick(State(cfg, es), nid, pick)
    ensures VerifyRight(State(cfg, es), nid, pick, now)
  {
    if pick.Some? { ReachablePickIsLast(cfg, es, horizon, nid, pick.value); }
    VerifyByPick(State(cfg, es), nid, pick, now);
  }

  // ---------- the conditions are exact ----------

  /** `verify` is right after every run of this configuration with the clock up to `horizon`. */
  ghost predicate VerifySoundFor(cfg: Config, horizon: nat) {
    forall es: seq<Event>, nid: string, pick: Option<nat>, now: nat ::
      LegalRun(cfg, es, horizon) && IsPick(State(cfg, es), nid, pick) ==> VerifyRight(State(cfg, es), nid, pick, now)
  }

  function Subject(entity: Entity): Registration {
    Registration("n", true, entity, false, "ed25519:k", [], Null, None)
  }

  /** Registered at `s`, renewed at `t` when the clock of the window check read `check`. */
  function TwoRequests(entity: Entity, s: nat, t: nat, check: nat): (es: seq<Event>)
    ensures |es| == 2
  {
    [Register(true, Subject(entity), s), Renew(true, "n", Some(0), check, t)]
  }

  function NthRecord(cfg: Config, entity: Entity, k: nat, times: Times): Record {
    RegisterRecord(cfg, Subject(entity), PrintSerial(k), times)
  }

  function BothRows(a: Record, b: Record): Table {
    [Row(a, None, None), Row(b, None, None)]
  }

  lemma SubjectOk(entity: Entity)
    ensures KeyOk(Subject(entity).pubKey)
  {
    assert StartsWith("ed25519:k", "ed25519:");
  }

  lemma InsertedFirst(rec: Record)
    ensures Inserted([], rec) == [Row(rec, None, None)]
    ensures forall mode :: NextSerial(mode, Serials([])) == PrintSerial(1)
  {
    assert Serials([]) == [];
  }

  lemma FirstStored(cfg: Config, entity: Entity, now: nat, times: Times)
    requires times == TimesFor(cfg, entity, now)
    ensures Apply(cfg, [], Register(true, Subject(entity), now)).0 ==
            [Row(NthRecord(cfg, entity, 1, times), None, None)]
  {
    SubjectOk(entity);
    RegisterStores(cfg, [], Subject(entity), now, times);
    InsertedFirst(NthRecord(cfg, entity, 1, times));
  }

  lemma FirstRequest(cfg: Config, entity: Entity, s: nat, t: nat, check: nat, times: Times)
    requires times == TimesFor(cfg, entity, s)
    ensures State(cfg, TwoRequests(entity, s, t, check)[..1]) == [Row(NthRecord(cfg, entity, 1, times), None, None)]
  {
    var es := TwoRequests(entity, s, t, check)[..1];
    assert es[..0] == [] && es[0] == Register(true, Subject(entity), s);
    PrefixState(cfg, es);
    FirstStored(cfg, entity, s, times);
  }

  lemma OneNumbered(mode: SerialRead, rec: Record)
    requires rec.serial == PrintSerial(1)
    ensures NextSerial(mode, Serials([Row(rec, None, None)])) == PrintSerial(2)
    ensures PrintSerial(1) != PrintSerial(2)
  {
    NumberAfterOne(mode, Serials([Row(rec, None, None)]));
    PrintSerialInjective(1, 2);
  }

  lemma NumberAfterOne(mode: SerialRead, serials: seq<string>)
    requires serials == [PrintSerial(1)]
    ensures NextSerial(mode, serials) == PrintSerial(2)
  {
    if mode == AsWritten {
      MaxReadAsWritten(serials);
    } else {
      MaxReadBase16(serials);
    }
  }

  lemma RenewStores(cfg: Config, rows: Table, i: nat, check: nat, now: nat, times: Times)
    requires i < |rows| && DaysLeft(ExpiryOf(rows[i].rec), check) <= cfg.renewalDays
    requires times == TimesFor(cfg, rows[i].rec.entity, now)
    ensures ApplyRenew(cfg, rows, true, Some(i), check, now).0 ==
            Inserted(rows, RenewedRecord(cfg, rows[i].rec, NextSerial(cfg.mode, Serials(rows)), times))
  {
  }

  lemma InsertedSecond(a: Record, b: Record)
    requires a.serial != b.serial
    ensures Inserted([Row(a, None, None)], b) == BothRows(a, b)
  {
  }

  /** The second row of a table whose only row is `a`. */
  lemma SecondNumbered(cfg: Config, a: Record, times: Times)
    requires a.serial == PrintSerial(1)
    ensures var rows := [Row(a, None, None)];
            Inserted(rows, RenewedRecord(cfg, a, NextSerial(cfg.mode, Serials(rows)), times)) ==
            BothRows(a, RenewedRecord(cfg, a, PrintSerial(2), times))
  {
    OneNumbered(cfg.mode, a);
    InsertedSecond(a, RenewedRecord(cfg, a, PrintSerial(2), times));
  }

  lemma SecondRequest(cfg: Config, entity: Entity, a: Record, t: nat, check: nat, times: Times)
    requires DaysLeft(ExpiryOf(a), check) <= cfg.renewalDays
    requires a.serial == PrintSerial(1) && a.entity == entity && times == TimesFor(cfg, entity, t)
    ensures Apply(cfg, [Row(a, None, None)], Renew(true, "n", Some(0), check, t)).0 ==
            BothRows(a, RenewedRecord(cfg, a, PrintSerial(2), times))
  {
    RenewStores(cfg, [Row(a, None, None)], 0, check, t, times);
    SecondNumbered(cfg, a, times);
  }

  lemma BothRequests(cfg: Config, entity: Entity, s: nat, t: nat, check: nat, x: Times, y: Times)
    requires x == TimesFor(cfg, entity, s) && y == TimesFor(cfg, entity, t)
    requires DaysLeft(ExpiryOf(NthRecord(cfg, entity, 1, x)), check) <= cfg.renewalDays
    ensures State(cfg, TwoRequests(entity, s, t, check)) ==
            BothRows(NthRecord(cfg, entity, 1, x), NthRecord(cfg, entity, 2, y))
  {
    var es := TwoRequests(entity, s, t, check);
    FirstRequest(cfg, entity, s, t, check, x);
    SecondRequest(cfg, entity, NthRecord(cfg, entity, 1, x), t, check, y);
    PrefixState(cfg, es);
  }

  lemma FirstPicked(rows: Table)
    requires |rows| == 1 && IsActive(rows[0], "n")
    ensures IsPick(rows, "n", Some(0))
  {
    LexIrreflexive(rows[0].rec.issuedAt);
  }

  lemma RequestsLegal(cfg: Config, entity: Entity, s: nat, t: nat, check: nat, horizon: nat)
    requires entity != Operator && s <= horizon && t <= horizon
    ensures LegalRun(cfg, TwoRequests(entity, s, t, check), horizon)
  {
    var es := TwoRequests(entity, s, t, check);
    var times := TimesFor(cfg, entity, s);
    FirstRequest(cfg, entity, s, t, check, times);
    FirstPicked([Row(NthRecord(cfg, entity, 1, times), None, None)]);
    forall k | 0 <= k < |es| ensures LegalEvent(State(cfg, es[..k]), es[k], horizon) {
      if k == 1 { assert es[..1] == es[..k]; }
    }
  }

  lemma LaterRowPicked(rows: Table, nid: string, i: nat, j: nat)
    requires |rows| == 2 && i < 2 && j < 2 && i != j
    requires IsActive(rows[i], nid)
    requires !LexLess(rows[i].rec.issuedAt, rows[j].rec.issuedAt)
    ensures IsPick(rows, nid, Some(i))
  {
    LexIrreflexive(rows[i].rec.issuedAt);
    forall k | 0 <= k < |rows| ensures !LexLess(rows[i].rec.issuedAt, rows[k].rec.issuedAt) {
      assert k == i || k == j;
    }
  }

  /** Where another active row outlives the picked one, `verify` misjudges the time between. */
  lemma Misjudged(rows: Table, nid: string, i: nat, j: nat, now: nat)
    requires i < |rows| && j < |rows| && IsActive(rows[j], nid)
    requires ExpiryOf(rows[i].rec) <= now < ExpiryOf(rows[j].rec)
    ensures !VerifyRight(rows, nid, Some(i), now)
  {
    assert SomeActiveUnexpired(rows, nid, now);
  }

  lemma FirstMisjudged(a: Record, b: Record)
    requires a.nid == b.nid && !LexLess(a.issuedAt, b.issuedAt) && ExpiryOf(a) < ExpiryOf(b)
    ensures IsPick(BothRows(a, b), a.nid, Some(0)) && !VerifyRight(BothRows(a, b), a.nid, Some(0), ExpiryOf(a))
  {
    LaterRowPicked(BothRows(a, b), a.nid, 0, 1);
    Misjudged(BothRows(a, b), a.nid, 0, 1, ExpiryOf(a));
  }

  /** When the renewed row sorts no later but expires later, the old row may be the one looked at. */
  lemma RequestsMisjudged(cfg: Config, entity: Entity, s: nat, t: nat, check: nat, horizon: nat)
    requires entity != Operator && s <= horizon && t <= horizon
    requires !LexLess(FmtIso(s), FmtIso(t))
    requires ExpirySecs(s, DaysFor(cfg, entity)) < ExpirySecs(t, DaysFor(cfg, entity))
    requires DaysLeft(ExpirySecs(s, DaysFor(cfg, entity)), check) <= cfg.renewalDays
    ensures LegalRun(cfg, TwoRequests(entity, s, t, check), horizon)
    ensures IsPick(State(cfg, TwoRequests(entity, s, t, check)), "n", Some(0))
    ensures !VerifyRight(State(cfg, TwoRequests(entity, s, t, check)), "n", Some(0),
                         ExpirySecs(s, DaysFor(cfg, entity)))
  {
    var x, y := TimesFor(cfg, entity, s), TimesFor(cfg, entity, t);
    var a, b := NthRecord(cfg, entity, 1, x), NthRecord(cfg, entity, 2, y);
    RecordExpiry(cfg, a, s);
    RecordExpiry(cfg, b, t);
    RequestsLegal(cfg, entity, s, t, check, horizon);
    BothRequests(cfg, entity, s, t, check, x, y);
    FirstMisjudged(a, b);
  }

  lemma WrapsToZero(s: nat, days: int)
    requires s >= 1 && s + PeriodSecs(days) == TWO64
    ensures ExpirySecs(s, days) == 0 && ExpirySecs(s - 1, days) == TWO64 - 1
  {
    WrapIdentity(TWO64 - 1);
  }

  lemma WrapPoint(days: int, horizon: nat) returns (s: nat, t: nat)
    requires !PeriodFits(days, horizon)
    ensures t + 1 == s <= horizon && ExpirySecs(s, days) == 0 && ExpirySecs(t, days) == TWO64 - 1
  {
    s := TWO64 - PeriodSecs(days);
    t := s - 1;
    WrapsToZero(s, days);
  }

  /** The failing input of a period that does not fit: registered in the first second whose expiry wraps
      around to zero, renewed under a clock that has meanwhile stepped back by one second. */
  lemma WrappedMisjudged(cfg: Config, entity: Entity, s: nat, t: nat, horizon: nat)
    requires entity != Operator && t + 1 == s <= horizon < YEAR_10000 && cfg.renewalDays >= 0
    requires ExpirySecs(s, DaysFor(cfg, entity)) == 0 && ExpirySecs(t, DaysFor(cfg, entity)) == TWO64 - 1
    ensures var es := TwoRequests(entity, s, t, s);
            && LegalRun(cfg, es, horizon) && IsPick(State(cfg, es), "n", Some(0))
            && !VerifyRight(State(cfg, es), "n", Some(0), ExpirySecs(s, DaysFor(cfg, entity)))
  {
    LaterText(s, t);
    RequestsMisjudged(cfg, entity, s, t, s, horizon);
  }

  lemma LaterText(s: nat, t: nat)
    requires t < s < YEAR_10000
    ensures !LexLess(FmtIso(s), FmtIso(t))
  {
    FmtIsoOrder(s, t);
  }

  /** Through year 9999 `verify` is right in every run of a configuration exactly when renewals are never
      granted or no expiry wraps around. */
  lemma VerifyRightIff(cfg: Config, horizon: nat)
    requires horizon < YEAR_10000
    ensures VerifySoundFor(cfg, horizon) <==> cfg.renewalDays < 0 || PeriodsFit(cfg, horizon)
  {
    if VerifyGuard(cfg, horizon) {
      forall es: seq<Event>, nid: string, pick: Option<nat>, now: nat
        | LegalRun(cfg, es, horizon) && IsPick(State(cfg, es), nid, pick)
        ensures VerifyRight(State(cfg, es), nid, pick, now)
      {
        VerifyIsRight(cfg, es, horizon, nid, pick, now);
      }
    } else {
      var entity := if !PeriodFits(cfg.agentDays, horizon) then Agent else Node;
      var s, t := WrapPoint(DaysFor(cfg, entity), horizon);
      WrappedMisjudged(cfg, entity, s, t, horizon);
    }
  }

  /** A configuration whose periods are non-negative and fit 64 bits in seconds. */
  predicate Plain(cfg: Config) {
    && 0 <= cfg.agentDays && cfg.agentDays * SECONDS_PER_DAY < TWO64
    && 0 <= cfg.nodeDays && cfg.nodeDays * SECONDS_PER_DAY < TWO64
  }

  lemma PlainPeriodsFit(cfg: Config, horizon: nat)
    requires Plain(cfg)
    ensures PeriodsFit(cfg, horizon) <==>
            horizon + cfg.agentDays * SECONDS_PER_DAY < TWO64 && horizon + cfg.nodeDays * SECONDS_PER_DAY < TWO64
  {
    PlainPeriod(cfg.agentDays, horizon);
    PlainPeriod(cfg.nodeDays, horizon);
  }

  /** For such a configuration the condition speaks of the last true expiry. */
  lemma PlainVerifyRightIff(cfg: Config, horizon: nat)
    requires Plain(cfg) && horizon < YEAR_10000
    ensures VerifySoundFor(cfg, horizon) <==>
            || cfg.renewalDays < 0
            || (horizon + cfg.agentDays * SECONDS_PER_DAY < TWO64 && horizon + cfg.nodeDays * SECONDS_PER_DAY < TWO64)
  {
    PlainPeriodsFit(cfg, horizon);
    VerifyRightIff(cfg, horizon);
  }

  /** A reading of the window check at which a certificate issued at the epoch has expired. */
  function AfterExpiry(cfg: Config): nat {
    if PeriodSecs(cfg.agentDays) <= YEAR_10000 then YEAR_10000 else PeriodSecs(cfg.agentDays)
  }

  /** The failing input past year 9999: registered at the epoch, renewed in the first second of the year
      10000. The five-digit year sorts first, so the expired row is the one that is looked at. */
  lemma LateMisjudged(cfg: Config, horizon: nat)
    requires PeriodFits(cfg.agentDays, YEAR_10000) && cfg.renewalDays >= 0 && horizon >= YEAR_10000
    ensures var es := TwoRequests(Agent, 0, YEAR_10000, AfterExpiry(cfg));
            && LegalRun(cfg, es, horizon) && IsPick(State(cfg, es), "n", Some(0))
            && !VerifyRight(State(cfg, es), "n", Some(0), ExpirySecs(0, cfg.agentDays))
  {
    LateRequests(cfg, 0, YEAR_10000, AfterExpiry(cfg), horizon);
  }

  lemma LateExpiries(cfg: Config, s: nat, t: nat, check: nat)
    requires s < t && PeriodFits(cfg.agentDays, t) && s + PeriodSecs(cfg.agentDays) <= check
    ensures ExpirySecs(s, cfg.agentDays) == s + PeriodSecs(cfg.agentDays) < ExpirySecs(t, cfg.agentDays)
    ensures DaysLeft(ExpirySecs(s, cfg.agentDays), check) == 0
  {
    ExpiryFits(s, cfg.agentDays, t);
    ExpiryFits(t, cfg.agentDays, t);
  }

  lemma LateRequests(cfg: Config, s: nat, t: nat, check: nat, horizon: nat)
    requires s < t == YEAR_10000 <= horizon && PeriodFits(cfg.agentDays, t)
    requires s + PeriodSecs(cfg.agentDays) <= check && cfg.renewalDays >= 0
    ensures var es := TwoRequests(Agent, s, t, check);
            && LegalRun(cfg, es, horizon) && IsPick(State(cfg, es), "n", Some(0))
            && !VerifyRight(State(cfg, es), "n", Some(0), ExpirySecs(s, cfg.agentDays))
  {
    LateExpiries(cfg, s, t, check);
    FiveDigitsEarlierText(s, t);
    RequestsMisjudged(cfg, Agent, s, t, check, horizon);
  }

  lemma FiveDigitsEarlierText(s: nat, t: nat)
    requires s < t == YEAR_10000
    ensures !LexLess(FmtIso(s), FmtIso(t))
  {
    FiveDigitYearSortsFirst(s);
    LexAsymmetric(FmtIso(t), FmtIso(s));
  }

  /** Where no expiry wraps around, `verify` is right in every run of a configuration that grants renewals
      exactly while the clock stays before the year 10000. */
  lemma VerifyHorizon(cfg: Config, horizon: nat)
    requires PeriodsFit(cfg, YEAR_10000) && cfg.renewalDays >= 0
    ensures VerifySoundFor(cfg, horizon) <==> horizon < YEAR_10000
  {
    if horizon < YEAR_10000 {
      VerifyRightIff(cfg, horizon);
    } else {
      LateMisjudged(cfg, horizon);
    }
  }
}
