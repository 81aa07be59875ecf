/** Two registrations of one NID that both pass the check, and what they do to `verify`. */
module Race {
  import opened Wrappers
  import opened Calendar
  import opened Text
  import opened Serial
  import opened Timestamp
  import opened Database
  import opened Issue
  import opened Lifecycle
  import opened VerifySound
  import opened Interleaving

  // ---------- verify under interleaving ----------

  /** `verify` is right after every schedule of this configuration with the clock up to `horizon`. */
  ghost predicate InterleavedVerifySound(cfg: Config, horizon: nat) {
    forall acts: seq<Action>, nid: string, pick: Option<nat>, now: nat ::
      LegalSchedule(cfg, acts, horizon) && IsPick(After(cfg, acts).rows, nid, pick) ==>
        VerifyRight(After(cfg, acts).rows, nid, pick, now)
  }

  /** Both kinds of certificate last equally long, and no expiry wraps around. */
  predicate OnePeriod(cfg: Config, horizon: nat) {
    PeriodSecs(cfg.agentDays) == PeriodSecs(cfg.nodeDays) && PeriodFits(cfg.agentDays, horizon)
  }

  lemma PeriodOfAny(cfg: Config, entity: Entity, horizon: nat)
    requires OnePeriod(cfg, horizon)
    ensures PeriodSecs(DaysFor(cfg, entity)) == PeriodSecs(cfg.agentDays)
  {
  }

  lemma OnePeriodShared(cfg: Config, rows: Table, nid: string, horizon: nat)
    requires OnePeriod(cfg, horizon)
    ensures SamePeriod(cfg, rows, nid) && PeriodsFit(cfg, horizon)
  {
    forall i | 0 <= i < |rows| ensures PeriodSecs(DaysFor(cfg, rows[i].rec.entity)) == PeriodSecs(cfg.agentDays) {
      PeriodOfAny(cfg, rows[i].rec.entity, horizon);
    }
  }

  lemma OnePeriodRight(cfg: Config, rows: Table, nid: string, pick: Option<nat>, now: nat, horizon: nat)
    requires horizon < YEAR_10000 && OnePeriod(cfg, horizon)
    requires Each(rows, RowOk(cfg, horizon)) && IsPick(rows, nid, pick)
    ensures VerifyRight(rows, nid, pick, now)
  {
    OnePeriodShared(cfg, rows, nid, horizon);
    if pick.Some? { PickIsLast(cfg, rows, nid, pick.value, horizon); }
    VerifyByPick(rows, nid, pick, now);
  }

  // ---------- the race ----------

  function RaceReading(times: Times): Reading {
    Reading(None, 0, times, "", "")
  }

  /** Both requests arrive and pass the check; the first draws its serial and stores `x` at clock reading
      `s`, then the second draws its own and stores `y` at `t`. */
  function RaceAction(e: Entity, f: Entity, x: Times, y: Times, s: nat, t: nat, k: nat): Action
    requires k < 8
  {
    if k == 0 then Arrive(0, RegStart(Subject(e)))
    else if k == 1 then Arrive(1, RegStart(Subject(f)))
    else if k == 3 then Advance(1, RaceReading(x), s)
    else if k >= 6 then Advance(1, RaceReading(y), t)
    else Advance(0, RaceReading(x), s)
  }

  function RaceSchedule(e: Entity, f: Entity, x: Times, y: Times, s: nat, t: nat): (acts: seq<Action>)
    ensures |acts| == 8 && forall k :: 0 <= k < 8 ==> acts[k] == RaceAction(e, f, x, y, s, t, k)
  {
    seq(8, k requires 0 <= k < 8 => RaceAction(e, f, x, y, s, t, k))
  }

  function IssuedDone(rec: Record): Proc {
    Done(Issued(rec.nid, rec.serial, rec.issuedAt, rec.expiresAt))
  }

  /** The worlds that the race passes through; `a` and `b` are the two stored records. */
  function RaceWorld(e: Entity, f: Entity, a: Record, b: Record, k: nat): World
    requires k <= 8
  {
    var r1, r2 := Subject(e), Subject(f);
    if k == 0 then World([], map[])
    else if k == 1 then World([], map[0 := RegStart(r1)])
    else if k == 2 then World([], map[0 := RegStart(r1), 1 := RegStart(r2)])
    else if k == 3 then World([], map[0 := RegChecked(r1), 1 := RegStart(r2)])
    else if k == 4 then World([], map[0 := RegChecked(r1), 1 := RegChecked(r2)])
    else if k == 5 then World([], map[0 := RegNumbered(r1, a.serial), 1 := RegChecked(r2)])
    else if k == 6 then World([Row(a, None, None)], map[0 := IssuedDone(a), 1 := RegChecked(r2)])
    else if k == 7 then World([Row(a, None, None)], map[0 := IssuedDone(a), 1 := RegNumbered(r2, b.serial)])
    else World(BothRows(a, b), map[0 := IssuedDone(a), 1 := IssuedDone(b)])
  }

  function RaceWorlds(e: Entity, f: Entity, a: Record, b: Record): (ws: seq<World>)
    ensures |ws| == 9 && forall k :: 0 <= k < 9 ==> ws[k] == RaceWorld(e, f, a, b, k)
  {
    seq(9, k requires 0 <= k < 9 => RaceWorld(e, f, a, b, k))
  }

  lemma RaceChecks(cfg: Config, e: Entity, f: Entity, x: Times, y: Times, s: nat, t: nat, a: Record, b: Record, k: nat)
    requires k < 4
    ensures Act(cfg, RaceWorld(e, f, a, b, k), RaceAction(e, f, x, y, s, t, k)) == RaceWorld(e, f, a, b, k + 1)
  {
  }

  lemma NumberCall(cfg: Config, rows: Table, req: Registration, r: Reading, serial: string)
    requires serial == NextSerial(cfg.mode, Serials(rows))
    ensures Advanced(cfg, rows, RegChecked(req), r) == (rows, RegNumbered(req, serial))
  {
  }

  lemma RaceFirstNumber(cfg: Config, e: Entity, f: Entity, x: Times, s: nat, a: Record, b: Record)
    requires a.serial == PrintSerial(1)
    ensures Act(cfg, RaceWorld(e, f, a, b, 4), Advance(0, RaceReading(x), s)) == RaceWorld(e, f, a, b, 5)
  {
    InsertedFirst(a);
    NumberCall(cfg, [], Subject(e), RaceReading(x), a.serial);
  }

  lemma InsertAccepted(cfg: Config, rows: Table, req: Registration, rec: Record, times: Times)
    requires !req.x509 && rec == RegisterRecord(cfg, req, rec.serial, times) && !SerialTaken(rows, rec.serial)
    ensures Advanced(cfg, rows, RegNumbered(req, rec.serial), RaceReading(times)) ==
            (rows + [Row(rec, None, None)], IssuedDone(rec))
  {
  }

  lemma RaceFirstInsert(cfg: Config, e: Entity, f: Entity, x: Times, s: nat, a: Record, b: Record)
    requires a == NthRecord(cfg, e, 1, x)
    ensures Act(cfg, RaceWorld(e, f, a, b, 5), Advance(0, RaceReading(x), s)) == RaceWorld(e, f, a, b, 6)
  {
    InsertAccepted(cfg, [], Subject(e), a, x);
  }

  lemma RaceSecondNumber(cfg: Config, e: Entity, f: Entity, y: Times, t: nat, a: Record, b: Record)
    requires a.serial == PrintSerial(1) && b.serial == PrintSerial(2)
    ensures Act(cfg, RaceWorld(e, f, a, b, 6), Advance(1, RaceReading(y), t)) == RaceWorld(e, f, a, b, 7)
  {
    OneNumbered(cfg.mode, a);
    NumberCall(cfg, [Row(a, None, None)], Subject(f), RaceReading(y), b.serial);
  }

  lemma RaceSecondInsert(cfg: Config, e: Entity, f: Entity, y: Times, t: nat, a: Record, b: Record)
    requires a.serial == PrintSerial(1) && b == NthRecord(cfg, f, 2, y)
    ensures Act(cfg, RaceWorld(e, f, a, b, 7), Advance(1, RaceReading(y), t)) == RaceWorld(e, f, a, b, 8)
  {
    PrintSerialInjective(1, 2);
    InsertAccepted(cfg, [Row(a, None, None)], Subject(f), b, y);
  }

  lemma RaceStep(cfg: Config, e: Entity, f: Entity, x: Times, y: Times, s: nat, t: nat, a: Record, b: Record, k: nat)
    requires k < 8 && a == NthRecord(cfg, e, 1, x) && b == NthRecord(cfg, f, 2, y)
    ensures Act(cfg, RaceWorld(e, f, a, b, k), RaceAction(e, f, x, y, s, t, k)) == RaceWorld(e, f, a, b, k + 1)
  {
    if k < 4 {
      RaceChecks(cfg, e, f, x, y, s, t, a, b, k);
    } else if k == 4 {
      RaceFirstNumber(cfg, e, f, x, s, a, b);
    } else if k == 5 {
      RaceFirstInsert(cfg, e, f, x, s, a, b);
    } else if k == 6 {
      RaceSecondNumber(cfg, e, f, y, t, a, b);
    } else {
      RaceSecondInsert(cfg, e, f, y, t, a, b);
    }
  }

  lemma LegalInsert(cfg: Config, w: World, id: nat, req: Registration, serial: string, r: Reading, now: nat,
                    horizon: nat)
    requires id in w.procs && w.procs[id] == RegNumbered(req, serial)
    requires r.times == TimesFor(cfg, req.entity, now) && now <= horizon
    ensures LegalAction(cfg, w, Advance(id, r, now), horizon)
  {
  }

  lemma RaceFirstLegal(cfg: Config, e: Entity, f: Entity, x: Times, s: nat, a: Record, b: Record, horizon: nat)
    requires s <= horizon && x == TimesFor(cfg, e, s)
    ensures LegalAction(cfg, RaceWorld(e, f, a, b, 5), Advance(0, RaceReading(x), s), horizon)
  {
    LegalInsert(cfg, RaceWorld(e, f, a, b, 5), 0, Subject(e), a.serial, RaceReading(x), s, horizon);
  }

  lemma RaceSecondLegal(cfg: Config, e: Entity, f: Entity, y: Times, t: nat, a: Record, b: Record, horizon: nat)
    requires t <= horizon && y == TimesFor(cfg, f, t)
    ensures LegalAction(cfg, RaceWorld(e, f, a, b, 7), Advance(1, RaceReading(y), t), horizon)
  {
    LegalInsert(cfg, RaceWorld(e, f, a, b, 7), 1, Subject(f), b.serial, RaceReading(y), t, horizon);
  }

  lemma RaceLegalCheck(cfg: Config, e: Entity, f: Entity, x: Times, y: Times, s: nat, t: nat,
                       a: Record, b: Record, horizon: nat, k: nat)
    requires k < 7 && k != 5 && s <= horizon && t <= horizon && e != Operator && f != Operator
    ensures LegalAction(cfg, RaceWorld(e, f, a, b, k), RaceAction(e, f, x, y, s, t, k), horizon)
  {
    if k < 2 {
      SubjectOk(e);
      SubjectOk(f);
    } else {
      var w, call := RaceWorld(e, f, a, b, k), RaceAction(e, f, x, y, s, t, k);
      LegalUnstamped(cfg, w, call.id, call.r, call.now, horizon);
    }
  }

  /** A call that stores no text needs no particular reading. */
  lemma LegalUnstamped(cfg: Config, w: World, id: nat, r: Reading, now: nat, horizon: nat)
    requires id in w.procs && (w.procs[id].RegStart? || w.procs[id].RegChecked?) && now <= horizon
    ensures LegalAction(cfg, w, Advance(id, r, now), horizon)
  {
  }

  lemma RaceLegalStep(cfg: Config, e: Entity, f: Entity, x: Times, y: Times, s: nat, t: nat,
                      a: Record, b: Record, horizon: nat, k: nat)
    requires k < 8 && s <= horizon && t <= horizon && e != Operator && f != Operator
    requires x == TimesFor(cfg, e, s) && y == TimesFor(cfg, f, t)
    ensures LegalAction(cfg, RaceWorld(e, f, a, b, k), RaceAction(e, f, x, y, s, t, k), horizon)
  {
    if k == 5 {
      RaceFirstLegal(cfg, e, f, x, s, a, b, horizon);
    } else if k == 7 {
      RaceSecondLegal(cfg, e, f, y, t, a, b, horizon);
    } else {
      RaceLegalCheck(cfg, e, f, x, y, s, t, a, b, horizon, k);
    }
  }

  lemma RaceTrace(cfg: Config, e: Entity, f: Entity, x: Times, y: Times, s: nat, t: nat, a: Record, b: Record,
                  horizon: nat)
    requires a == NthRecord(cfg, e, 1, x) && b == NthRecord(cfg, f, 2, y)
    requires forall k :: 0 <= k < 8 ==>
               LegalAction(cfg, RaceWorld(e, f, a, b, k), RaceAction(e, f, x, y, s, t, k), horizon)
    ensures IsTrace(cfg, RaceSchedule(e, f, x, y, s, t), RaceWorlds(e, f, a, b), horizon)
  {
    forall k | 0 <= k < 8
      ensures Act(cfg, RaceWorld(e, f, a, b, k), RaceAction(e, f, x, y, s, t, k)) == RaceWorld(e, f, a, b, k + 1)
    {
      RaceStep(cfg, e, f, x, y, s, t, a, b, k);
    }
  }

  lemma RaceIsTrace(cfg: Config, e: Entity, f: Entity, x: Times, y: Times, s: nat, t: nat, horizon: nat)
    requires s <= horizon && t <= horizon && e != Operator && f != Operator
    requires x == TimesFor(cfg, e, s) && y == TimesFor(cfg, f, t)
    ensures IsTrace(cfg, RaceSchedule(e, f, x, y, s, t),
                    RaceWorlds(e, f, NthRecord(cfg, e, 1, x), NthRecord(cfg, f, 2, y)), horizon)
  {
    var a, b := NthRecord(cfg, e, 1, x), NthRecord(cfg, f, 2, y);
    forall k | 0 <= k < 8
      ensures LegalAction(cfg, RaceWorld(e, f, a, b, k), RaceAction(e, f, x, y, s, t, k), horizon)
    {
      RaceLegalStep(cfg, e, f, x, y, s, t, a, b, horizon, k);
    }
    RaceTrace(cfg, e, f, x, y, s, t, a, b, horizon);
  }

  /** The race can happen, and it stores both records. */
  lemma RaceRuns(cfg: Config, e: Entity, f: Entity, x: Times, y: Times, s: nat, t: nat, horizon: nat)
    requires s <= horizon && t <= horizon && e != Operator && f != Operator
    requires x == TimesFor(cfg, e, s) && y == TimesFor(cfg, f, t)
    ensures LegalSchedule(cfg, RaceSchedule(e, f, x, y, s, t), horizon)
    ensures After(cfg, RaceSchedule(e, f, x, y, s, t)).rows ==
            BothRows(NthRecord(cfg, e, 1, x), NthRecord(cfg, f, 2, y))
  {
    RaceIsTrace(cfg, e, f, x, y, s, t, horizon);
    RaceEnds(cfg, e, f, x, y, s, t, NthRecord(cfg, e, 1, x), NthRecord(cfg, f, 2, y), horizon);
  }

  lemma RaceEnds(cfg: Config, e: Entity, f: Entity, x: Times, y: Times, s: nat, t: nat, a: Record, b: Record,
                 horizon: nat)
    requires IsTrace(cfg, RaceSchedule(e, f, x, y, s, t), RaceWorlds(e, f, a, b), horizon)
    ensures LegalSchedule(cfg, RaceSchedule(e, f, x, y, s, t), horizon)
    ensures After(cfg, RaceSchedule(e, f, x, y, s, t)).rows == BothRows(a, b)
  {
    TraceIsLegal(cfg, RaceSchedule(e, f, x, y, s, t), RaceWorlds(e, f, a, b), horizon);
  }

  /** What does not survive interleaving, under any configuration: one NID can come to be active as an
      agent and as a node at once. */
  lemma RaceBreaksIdentity(cfg: Config, s: nat, t: nat, horizon: nat)
    requires s <= horizon && t <= horizon
    ensures var acts := RaceSchedule(Agent, Node, TimesFor(cfg, Agent, s), TimesFor(cfg, Node, t), s, t);
            LegalSchedule(cfg, acts, horizon) && !OneIdentity(After(cfg, acts).rows)
  {
    var x, y := TimesFor(cfg, Agent, s), TimesFor(cfg, Node, t);
    RaceRuns(cfg, Agent, Node, x, y, s, t, horizon);
    TwoKinds(NthRecord(cfg, Agent, 1, x), NthRecord(cfg, Node, 2, y));
  }

  lemma TwoKinds(a: Record, b: Record)
    requires a.nid == b.nid && a.entity != b.entity
    ensures !OneIdentity(BothRows(a, b))
  {
    assert !SameIdentity(BothRows(a, b)[0].rec, BothRows(a, b)[1].rec);
  }

  lemma SecondMisjudged(a: Record, b: Record)
    requires a.nid == b.nid && !LexLess(b.issuedAt, a.issuedAt) && ExpiryOf(b) < ExpiryOf(a)
    ensures IsPick(BothRows(a, b), a.nid, Some(1)) && !VerifyRight(BothRows(a, b), a.nid, Some(1), ExpiryOf(b))
  {
    LaterRowPicked(BothRows(a, b), a.nid, 1, 0);
    Misjudged(BothRows(a, b), a.nid, 1, 0, ExpiryOf(b));
  }

  /** When the row stored second sorts no earlier but expires earlier, `verify` misjudges the table. */
  lemma RaceMisjudged(cfg: Config, e: Entity, f: Entity, s: nat, t: nat, horizon: nat)
    requires s <= horizon && t <= horizon && e != Operator && f != Operator
    requires !LexLess(FmtIso(t), FmtIso(s))
    requires ExpirySecs(t, DaysFor(cfg, f)) < ExpirySecs(s, DaysFor(cfg, e))
    ensures var acts := RaceSchedule(e, f, TimesFor(cfg, e, s), TimesFor(cfg, f, t), s, t);
            && LegalSchedule(cfg, acts, horizon) && IsPick(After(cfg, acts).rows, "n", Some(1))
            && !VerifyRight(After(cfg, acts).rows, "n", Some(1), ExpirySecs(t, DaysFor(cfg, f)))
  {
    var x, y := TimesFor(cfg, e, s), TimesFor(cfg, f, t);
    var a, b := NthRecord(cfg, e, 1, x), NthRecord(cfg, f, 2, y);
    RaceRuns(cfg, e, f, x, y, s, t, horizon);
    RecordExpiry(cfg, a, s);
    RecordExpiry(cfg, b, t);
    SecondMisjudged(a, b);
  }

  lemma FirstExpiry(days: int)
    ensures ExpirySecs(0, days) == PeriodSecs(days)
  {
    WrapIdentity(PeriodSecs(days));
  }

  /** Where the condition fails, two kinds and two clock readings at which the row stored second sorts no
      earlier but expires earlier: a tie of different periods, or the second at which the sum wraps around. */
  lemma RaceInputs(cfg: Config, horizon: nat) returns (e: Entity, f: Entity, s: nat, t: nat)
    requires horizon < YEAR_10000 && !OnePeriod(cfg, horizon)
    ensures s <= horizon && t <= horizon && e != Operator && f != Operator
    ensures !LexLess(FmtIso(t), FmtIso(s))
    ensures ExpirySecs(t, DaysFor(cfg, f)) < ExpirySecs(s, DaysFor(cfg, e))
  {
    if PeriodSecs(cfg.agentDays) == PeriodSecs(cfg.nodeDays) {
      var later, earlier := WrapPoint(cfg.agentDays, horizon);
      e, f, s, t := Agent, Agent, earlier, later;
      LaterText(t, s);
    } else {
      FirstExpiry(cfg.agentDays);
      FirstExpiry(cfg.nodeDays);
      e := if PeriodSecs(cfg.agentDays) > PeriodSecs(cfg.nodeDays) then Agent else Node;
      f := if e == Agent then Node else Agent;
      s, t := 0, 0;
      LexIrreflexive(FmtIso(s));
    }
  }

  /** Under interleaving `verify` is right after every schedule of a configuration exactly when agents and
      nodes are certified for equally long and no expiry wraps around. */
  lemma InterleavedVerifyIff(cfg: Config, horizon: nat)
    requires horizon < YEAR_10000
    ensures InterleavedVerifySound(cfg, horizon) <==> OnePeriod(cfg, horizon)
  {
    if OnePeriod(cfg, horizon) {
      forall acts: seq<Action>, nid: string, pick: Option<nat>, now: nat
        | LegalSchedule(cfg, acts, horizon) && IsPick(After(cfg, acts).rows, nid, pick)
        ensures VerifyRight(After(cfg, acts).rows, nid, pick, now)
      {
        ScheduleInvariants(cfg, acts, horizon);
        OnePeriodRight(cfg, After(cfg, acts).rows, nid, pick, now, horizon);
      }
    } else {
      var e, f, s, t := RaceInputs(cfg, horizon);
      RaceMisjudged(cfg, e, f, s, t, horizon);
    }
  }
}
