/** One identity per NID under interleaving: exactly which schedules keep it. */
module Identity {
  import opened Wrappers
  import opened Calendar
  import opened Serial
  import opened Json
  import opened Timestamp
  import opened Database
  import opened Lifecycle
  import opened VerifySound
  import opened Ledger
  import opened Interleaving
  import opened InFlight
  import opened Race

  // ---------- accepted inserts ----------

  /** The record that the insert of a request stores. */
  function StoredBy(cfg: Config, p: Proc, r: Reading): Record
    requires HasNumber(p)
  {
    match p
    case RegNumbered(req, serial) => RegisterRecord(cfg, req, serial, r.times)
    case RenewNumbered(rec, serial) => RenewedRecord(cfg, rec, serial, r.times)
  }

  predicate Accepted(rows: Table, p: Proc) {
    HasNumber(p) && InsertTarget(p).Some? && !SerialTaken(rows, p.serial)
  }

  /** Row `i` is an active row of the NID of `rec` that describes another subject. */
  predicate OtherSubject(rows: Table, rec: Record, i: nat) {
    i < |rows| && IsActive(rows[i], rec.nid) && !SameIdentity(rows[i].rec, rec)
  }

  lemma AcceptedCall(cfg: Config, rows: Table, p: Proc, r: Reading)
    requires Accepted(rows, p)
    ensures Advanced(cfg, rows, p, r).0 == rows + [Row(StoredBy(cfg, p, r), None, None)]
  {
  }

  lemma OtherCall(cfg: Config, rows: Table, p: Proc, r: Reading)
    requires !Accepted(rows, p) && OneIdentity(rows)
    ensures OneIdentity(Advanced(cfg, rows, p, r).0)
  {
    CallCases(cfg, rows, p, r);
  }

  lemma AppendedIdentity(rows: Table, rec: Record)
    requires OneIdentity(rows)
    ensures OneIdentity(rows + [Row(rec, None, None)]) <==>
            forall i :: 0 <= i < |rows| ==> !OtherSubject(rows, rec, i)
  {
    var next := rows + [Row(rec, None, None)];
    if i :| 0 <= i < |rows| && OtherSubject(rows, rec, i) {
      assert !SameIdentity(next[i].rec, next[|rows|].rec);
    } else {
      forall i | 0 <= i < |rows| && IsActive(rows[i], rec.nid) ensures SameIdentity(rows[i].rec, rec) {
        assert !OtherSubject(rows, rec, i);
      }
    }
  }

  // ---------- identity and clashes ----------

  /** From `w`, action `a` is an accepted insert that finds an active row of its NID with another identity. */
  predicate Clashes(cfg: Config, w: World, a: Action) {
    && a.Advance? && a.id in w.procs && Accepted(w.rows, w.procs[a.id])
    && exists i :: 0 <= i < |w.rows| && OtherSubject(w.rows, StoredBy(cfg, w.procs[a.id], a.r), i)
  }

  lemma StepIdentity(cfg: Config, w: World, a: Action)
    requires OneIdentity(w.rows)
    ensures OneIdentity(Act(cfg, w, a).rows) <==> !Clashes(cfg, w, a)
  {
    if a.Advance? && a.id in w.procs {
      var p := w.procs[a.id];
      if Accepted(w.rows, p) {
        AcceptedCall(cfg, w.rows, p, a.r);
        AppendedIdentity(w.rows, StoredBy(cfg, p, a.r));
      } else {
        OtherCall(cfg, w.rows, p, a.r);
      }
    }
  }

  /** At every moment of the schedule each NID has one identity. */
  ghost predicate AlwaysOneIdentity(cfg: Config, acts: seq<Action>) {
    forall k :: 0 <= k <= |acts| ==> OneIdentity(After(cfg, acts[..k]).rows)
  }

  ghost predicate ClashAt(cfg: Config, acts: seq<Action>, k: nat) {
    k < |acts| && Clashes(cfg, After(cfg, acts[..k]), acts[k])
  }

  lemma IdentityAt(cfg: Config, acts: seq<Action>, horizon: nat, k: nat)
    requires LegalSchedule(cfg, acts, horizon) && k < |acts| && OneIdentity(After(cfg, acts[..k]).rows)
    ensures OneIdentity(After(cfg, acts[..k + 1]).rows) <==> !ClashAt(cfg, acts, k)
  {
    ScheduleStep(cfg, acts, k, horizon);
    StepIdentity(cfg, After(cfg, acts[..k]), acts[k]);
  }

  lemma {:induction false} NoClashKeeps(cfg: Config, acts: seq<Action>, horizon: nat, k: nat)
    requires LegalSchedule(cfg, acts, horizon) && k <= |acts|
    requires forall m :: 0 <= m < k ==> !ClashAt(cfg, acts, m)
    ensures OneIdentity(After(cfg, acts[..k]).rows)
  {
    if k > 0 {
      NoClashKeeps(cfg, acts, horizon, k - 1);
      IdentityAt(cfg, acts, horizon, k - 1);
    }
  }

  /** Each NID has one identity at every moment exactly when no accepted insert finds an active row of its
      NID with another identity. */
  lemma IdentityIffNoClash(cfg: Config, acts: seq<Action>, horizon: nat)
    requires LegalSchedule(cfg, acts, horizon)
    ensures AlwaysOneIdentity(cfg, acts) <==> forall k :: 0 <= k < |acts| ==> !ClashAt(cfg, acts, k)
  {
    if AlwaysOneIdentity(cfg, acts) {
      forall k | 0 <= k < |acts| ensures !ClashAt(cfg, acts, k) {
        IdentityAt(cfg, acts, horizon, k);
      }
    } else if forall k :: 0 <= k < |acts| ==> !ClashAt(cfg, acts, k) {
      forall k | 0 <= k <= |acts| ensures OneIdentity(After(cfg, acts[..k]).rows) {
        NoClashKeeps(cfg, acts, horizon, k);
      }
    }
  }

  // ---------- the check that a request made ----------

  /** What a request that made its check in `start`, reading `r`, can have become. */
  predicate Follows(start: Proc, rows: Table, r: Reading, p: Proc) {
    match p
    case RegChecked(req) => start == RegStart(req) && !HasActive(rows, req.nid)
    case RegNumbered(req, _) => start == RegStart(req) && !HasActive(rows, req.nid)
    case RenewFound(rec) => FoundIn(start, rows, r, rec)
    case RenewNumbered(rec, _) => FoundIn(start, rows, r, rec)
    case Done(_) => true
    case _ => false
  }

  predicate FoundIn(start: Proc, rows: Table, r: Reading, rec: Record) {
    start.RenewStart? && r.pick.Some? && r.pick.value < |rows| && rec == rows[r.pick.value].rec
  }

  lemma FollowsCheck(cfg: Config, rows: Table, start: Proc, r: Reading)
    requires IsStart(start)
    ensures Follows(start, rows, r, Advanced(cfg, rows, start, r).1)
  {
  }

  lemma FollowsCall(cfg: Config, start: Proc, checked: Table, r: Reading, rows: Table, p: Proc, q: Reading)
    requires Follows(start, checked, r, p)
    ensures Follows(start, checked, r, Advanced(cfg, rows, p, q).1)
  {
  }

  /** Call `c` is the first call of request `id`. */
  ghost predicate FirstCall(cfg: Config, acts: seq<Action>, id: nat, c: nat) {
    && c < |acts| && acts[c].Advance? && acts[c].id == id
    && id in After(cfg, acts[..c]).procs && IsStart(After(cfg, acts[..c]).procs[id])
  }

  lemma FollowsAct(cfg: Config, w: World, a: Action, horizon: nat, id: nat, start: Proc, checked: Table, r: Reading)
    requires LegalAction(cfg, w, a, horizon) && id in w.procs && Follows(start, checked, r, w.procs[id])
    ensures id in Act(cfg, w, a).procs && Follows(start, checked, r, Act(cfg, w, a).procs[id])
  {
    if a.Advance? && a.id == id { FollowsCall(cfg, start, checked, r, w.rows, w.procs[id], a.r); }
  }

  lemma FollowsFirst(cfg: Config, acts: seq<Action>, horizon: nat, id: nat, c: nat)
    requires LegalSchedule(cfg, acts, horizon) && FirstCall(cfg, acts, id, c)
    ensures var w, next := After(cfg, acts[..c]), After(cfg, acts[..c + 1]);
            id in next.procs && Follows(w.procs[id], w.rows, acts[c].r, next.procs[id])
  {
    var w := After(cfg, acts[..c]);
    ScheduleStep(cfg, acts, c, horizon);
    FollowsCheck(cfg, w.rows, w.procs[id], acts[c].r);
  }

  predicate FollowsIn(w: World, id: nat, start: Proc, checked: Table, r: Reading) {
    id in w.procs && Follows(start, checked, r, w.procs[id])
  }

  lemma {:induction false} FollowsOn(cfg: Config, acts: seq<Action>, horizon: nat, id: nat,
                                     start: Proc, checked: Table, r: Reading, i: nat, m: nat)
    requires LegalSchedule(cfg, acts, horizon) && i <= m <= |acts|
    requires FollowsIn(After(cfg, acts[..i]), id, start, checked, r)
    ensures FollowsIn(After(cfg, acts[..m]), id, start, checked, r)
    decreases m - i
  {
    if i < m {
      FollowsStep(cfg, acts, horizon, id, start, checked, r, i);
      FollowsOn(cfg, acts, horizon, id, start, checked, r, i + 1, m);
    }
  }

  lemma FollowsStep(cfg: Config, acts: seq<Action>, horizon: nat, id: nat, start: Proc, checked: Table, r: Reading,
                    i: nat)
    requires LegalSchedule(cfg, acts, horizon) && i < |acts|
    requires FollowsIn(After(cfg, acts[..i]), id, start, checked, r)
    ensures FollowsIn(After(cfg, acts[..i + 1]), id, start, checked, r)
  {
    ScheduleStep(cfg, acts, i, horizon);
    FollowsAct(cfg, After(cfg, acts[..i]), acts[i], horizon, id, start, checked, r);
  }

  /** Whatever a request has become since its check follows from that check. */
  lemma FollowsLater(cfg: Config, acts: seq<Action>, horizon: nat, id: nat, c: nat, m: nat)
    requires LegalSchedule(cfg, acts, horizon) && FirstCall(cfg, acts, id, c) && c < m <= |acts|
    ensures var w := After(cfg, acts[..c]); FollowsIn(After(cfg, acts[..m]), id, w.procs[id], w.rows, acts[c].r)
  {
    var w := After(cfg, acts[..c]);
    FollowsFirst(cfg, acts, horizon, id, c);
    FollowsOn(cfg, acts, horizon, id, w.procs[id], w.rows, acts[c].r, c + 1, m);
  }

  lemma {:induction false} FirstCallExists(cfg: Config, acts: seq<Action>, horizon: nat, id: nat, k: nat)
    requires LegalSchedule(cfg, acts, horizon) && k <= |acts| && id in After(cfg, acts[..k]).procs
    requires !IsStart(After(cfg, acts[..k]).procs[id])
    ensures exists c :: 0 <= c < k && FirstCall(cfg, acts, id, c)
  {
    if k > 0 {
      var w := After(cfg, acts[..k - 1]);
      ScheduleStep(cfg, acts, k - 1, horizon);
      if id in w.procs && !IsStart(w.procs[id]) {
        FirstCallExists(cfg, acts, horizon, id, k - 1);
      } else {
        assert FirstCall(cfg, acts, id, k - 1);
      }
    }
  }

  // ---------- clashes come from rows stored after the check ----------

  lemma FollowerAgrees(cfg: Config, start: Proc, checked: Table, r: Reading, rows: Table, p: Proc, q: Reading, i: nat)
    requires Follows(start, checked, r, p) && HasNumber(p) && Extends(checked, rows) && OneIdentity(checked)
    requires start.RenewStart? ==> IsPick(checked, start.nid, r.pick)
    requires forall k :: 0 <= k < |checked| ==> checked[k].rec.issuedBy == cfg.caNid
    requires i < |checked|
    ensures !OtherSubject(rows, StoredBy(cfg, p, q), i)
  {
    if IsActive(rows[i], StoredBy(cfg, p, q).nid) {
      assert IsActive(checked[i], StoredBy(cfg, p, q).nid);
      if p.RenewNumbered? {
        assert IsActive(checked[r.pick.value], start.nid);
        assert SameIdentity(checked[i].rec, checked[r.pick.value].rec);
      }
    }
  }

  /** The accepted insert at `j` of the request whose check is call `c` finds an active row of its NID, with
      another identity, that was stored after the check. */
  ghost predicate LateClash(cfg: Config, acts: seq<Action>, c: nat, j: nat) {
    && c < j < |acts| && acts[j].Advance? && FirstCall(cfg, acts, acts[j].id, c)
    && var before, w := |After(cfg, acts[..c]).rows|, After(cfg, acts[..j]);
    && acts[j].id in w.procs && Accepted(w.rows, w.procs[acts[j].id])
    && exists i :: before <= i < |w.rows| && OtherSubject(w.rows, StoredBy(cfg, w.procs[acts[j].id], acts[j].r), i)
  }

  lemma IssuedByAt(cfg: Config, acts: seq<Action>, horizon: nat, c: nat)
    requires LegalSchedule(cfg, acts, horizon) && c <= |acts| && horizon < TWO64
    ensures var rows := After(cfg, acts[..c]).rows; forall i :: 0 <= i < |rows| ==> rows[i].rec.issuedBy == cfg.caNid
  {
    PrefixSchedule(cfg, acts, c, horizon);
    ScheduleInvariants(cfg, acts[..c], horizon);
    IssuedByCa(cfg, After(cfg, acts[..c]).rows, horizon);
  }

  lemma ExtendsAt(cfg: Config, acts: seq<Action>, c: nat, j: nat)
    requires c <= j <= |acts|
    ensures Extends(After(cfg, acts[..c]).rows, After(cfg, acts[..j]).rows)
  {
    assert acts[..j][..c] == acts[..c];
    ScheduleExtends(cfg, acts[..j], c);
  }

  /** If identities were single when the request made its check, a clash is with a row stored since. */
  lemma ClashIsLate(cfg: Config, acts: seq<Action>, horizon: nat, c: nat, j: nat)
    requires LegalSchedule(cfg, acts, horizon) && horizon < TWO64
    requires c < j && ClashAt(cfg, acts, j) && FirstCall(cfg, acts, acts[j].id, c)
    requires OneIdentity(After(cfg, acts[..c]).rows)
    ensures LateClash(cfg, acts, c, j)
  {
    var id := acts[j].id;
    var start, w := After(cfg, acts[..c]), After(cfg, acts[..j]);
    FollowsLater(cfg, acts, horizon, id, c, j);
    ScheduleStep(cfg, acts, c, horizon);
    IssuedByAt(cfg, acts, horizon, c);
    ExtendsAt(cfg, acts, c, j);
    var i: nat :| i < |w.rows| && OtherSubject(w.rows, StoredBy(cfg, w.procs[id], acts[j].r), i);
    if i < |start.rows| {
      FollowerAgrees(cfg, start.procs[id], start.rows, acts[c].r, w.rows, w.procs[id], acts[j].r, i);
    }
  }

  lemma LateClashIsClash(cfg: Config, acts: seq<Action>, c: nat, j: nat)
    requires LateClash(cfg, acts, c, j)
    ensures ClashAt(cfg, acts, j)
  {
  }

  ghost predicate IdentityUpTo(cfg: Config, acts: seq<Action>, k: nat) {
    forall m :: 0 <= m <= k && m <= |acts| ==> OneIdentity(After(cfg, acts[..m]).rows)
  }

  lemma EarlierIdentity(cfg: Config, acts: seq<Action>, horizon: nat, k: nat)
    requires LegalSchedule(cfg, acts, horizon) && horizon < TWO64 && ClashAt(cfg, acts, k)
    requires IdentityUpTo(cfg, acts, k)
    ensures exists c :: 0 <= c < k && LateClash(cfg, acts, c, k)
  {
    FirstCallExists(cfg, acts, horizon, acts[k].id, k);
    var c :| 0 <= c < k && FirstCall(cfg, acts, acts[k].id, c);
    ClashIsLate(cfg, acts, horizon, c, k);
  }

  lemma NoLateClashStep(cfg: Config, acts: seq<Action>, horizon: nat, k: nat)
    requires LegalSchedule(cfg, acts, horizon) && horizon < TWO64 && k < |acts| && IdentityUpTo(cfg, acts, k)
    requires forall c :: 0 <= c < k ==> !LateClash(cfg, acts, c, k)
    ensures IdentityUpTo(cfg, acts, k + 1)
  {
    if ClashAt(cfg, acts, k) { EarlierIdentity(cfg, acts, horizon, k); }
    IdentityAt(cfg, acts, horizon, k);
  }

  lemma {:induction false} NoLateClashKeeps(cfg: Config, acts: seq<Action>, horizon: nat, k: nat)
    requires LegalSchedule(cfg, acts, horizon) && horizon < TWO64 && k <= |acts|
    requires forall c, j :: 0 <= c < j < k ==> !LateClash(cfg, acts, c, j)
    ensures IdentityUpTo(cfg, acts, k)
  {
    if k == 0 {
      assert acts[..0] == [];
    } else {
      NoLateClashKeeps(cfg, acts, horizon, k - 1);
      NoLateClashStep(cfg, acts, horizon, k - 1);
    }
  }

  /** The exact condition: each NID has one identity at every moment of a schedule exactly when no accepted
      insert finds an active row, stored after the request's own check, with another identity. */
  lemma IdentitySurvivesIff(cfg: Config, acts: seq<Action>, horizon: nat)
    requires LegalSchedule(cfg, acts, horizon) && horizon < TWO64
    ensures AlwaysOneIdentity(cfg, acts) <==> forall c, j :: 0 <= c < j < |acts| ==> !LateClash(cfg, acts, c, j)
  {
    if AlwaysOneIdentity(cfg, acts) {
      IdentityIffNoClash(cfg, acts, horizon);
      forall c, j | 0 <= c < j < |acts| ensures !LateClash(cfg, acts, c, j) {
        if LateClash(cfg, acts, c, j) { LateClashIsClash(cfg, acts, c, j); }
      }
    } else if forall c, j :: 0 <= c < j < |acts| ==> !LateClash(cfg, acts, c, j) {
      NoLateClashKeeps(cfg, acts, horizon, |acts|);
    }
  }

  /** Between the check and the accepted insert of a request no row of its NID is stored. */
  ghost predicate Undisturbed(cfg: Config, acts: seq<Action>) {
    forall c, j :: 0 <= c < j < |acts| && acts[j].Advance? && FirstCall(cfg, acts, acts[j].id, c) ==>
      UndisturbedAt(cfg, acts, c, j)
  }

  ghost predicate UndisturbedAt(cfg: Config, acts: seq<Action>, c: nat, j: nat)
    requires c < j < |acts| && acts[j].Advance?
  {
    var before, w := |After(cfg, acts[..c]).rows|, After(cfg, acts[..j]);
    acts[j].id in w.procs && Accepted(w.rows, w.procs[acts[j].id]) ==>
      forall i :: before <= i < |w.rows| ==> w.rows[i].rec.nid != StoredBy(cfg, w.procs[acts[j].id], acts[j].r).nid
  }

  lemma UndisturbedNoClash(cfg: Config, acts: seq<Action>, c: nat, j: nat)
    requires c < j < |acts|
    requires acts[j].Advance? && FirstCall(cfg, acts, acts[j].id, c) ==> UndisturbedAt(cfg, acts, c, j)
    ensures !LateClash(cfg, acts, c, j)
  {
  }

  lemma UndisturbedKeepsIdentity(cfg: Config, acts: seq<Action>, horizon: nat)
    requires LegalSchedule(cfg, acts, horizon) && horizon < TWO64 && Undisturbed(cfg, acts)
    ensures AlwaysOneIdentity(cfg, acts)
  {
    forall c, j | 0 <= c < j < |acts| ensures !LateClash(cfg, acts, c, j) {
      UndisturbedNoClash(cfg, acts, c, j);
    }
    IdentitySurvivesIff(cfg, acts, horizon);
  }

  // ---------- the failing inputs ----------

  /** The key that a request past its check certifies. */
  function KeyOf(p: Proc): string {
    match p
    case RegChecked(req) => req.pubKey
    case RegNumbered(req, _) => req.pubKey
    case RenewFound(rec) => rec.pubKey
    case RenewNumbered(rec, _) => rec.pubKey
    case _ => ""
  }

  /** `next` is `w` with one more active row, for `nid` under `key`; of the requests only `id` has moved on. */
  predicate Served(w: World, next: World, id: nat, nid: string, key: string) {
    && |next.rows| == |w.rows| + 1 && next.rows[..|w.rows|] == w.rows
    && IsActive(next.rows[|w.rows|], nid) && next.rows[|w.rows|].rec.pubKey == key
    && forall other :: other in w.procs && other != id ==> other in next.procs && next.procs[other] == w.procs[other]
  }

  lemma StoredKey(cfg: Config, rows: Table, p: Proc, r: Reading, nid: string)
    requires HasNumber(p) && Pending(cfg, rows, p, nid)
    ensures Accepted(rows, p) && StoredBy(cfg, p, r).nid == nid && StoredBy(cfg, p, r).pubKey == KeyOf(p)
  {
  }

  lemma DrawsKey(cfg: Config, rows: Table, p: Proc, r: Reading, nid: string)
    requires !HasNumber(p) && PastCheck(p, nid)
    ensures Advanced(cfg, rows, p, r).0 == rows && KeyOf(Advanced(cfg, rows, p, r).1) == KeyOf(p)
  {
  }

  lemma ServedAct(cfg: Config, w: World, id: nat, nid: string, r: Reading, now: nat)
    requires id in w.procs && HasNumber(w.procs[id]) && Pending(cfg, w.rows, w.procs[id], nid)
    ensures Served(w, Act(cfg, w, Advance(id, r, now)), id, nid, KeyOf(w.procs[id]))
  {
    StoredKey(cfg, w.rows, w.procs[id], r, nid);
    AcceptedCall(cfg, w.rows, w.procs[id], r);
  }

  lemma ServesNumbered(cfg: Config, acts: seq<Action>, id: nat, nid: string, now: nat, r: Reading, horizon: nat)
    requires LegalSchedule(cfg, acts, horizon) && now <= horizon && id in After(cfg, acts).procs
    requires HasNumber(After(cfg, acts).procs[id])
    requires Pending(cfg, After(cfg, acts).rows, After(cfg, acts).procs[id], nid)
    requires r == ReadingFor(cfg, After(cfg, acts).procs[id], now)
    ensures var w := After(cfg, acts);
            Served(w, After(cfg, acts + [Advance(id, r, now)]), id, nid, KeyOf(w.procs[id]))
  {
    var w := After(cfg, acts);
    PendingLegal(cfg, w, id, nid, KindOf(w.procs[id]), now, horizon);
    OneMoreStep(cfg, acts, Advance(id, r, now), horizon);
    ServedAct(cfg, w, id, nid, r, now);
  }

  /** From `w` to `next` the request `id` has drawn its serial, and nothing else has changed. */
  predicate OnlyDrew(w: World, next: World, id: nat) {
    && next.rows == w.rows
    && id in w.procs && id in next.procs && KeyOf(next.procs[id]) == KeyOf(w.procs[id])
    && forall other :: other in w.procs && other != id ==> other in next.procs && next.procs[other] == w.procs[other]
  }

  lemma DrawAct(cfg: Config, w: World, id: nat, nid: string, r: Reading, now: nat)
    requires id in w.procs && !HasNumber(w.procs[id]) && PastCheck(w.procs[id], nid)
    ensures OnlyDrew(w, Act(cfg, w, Advance(id, r, now)), id)
  {
    DrawsKey(cfg, w.rows, w.procs[id], r, nid);
  }

  lemma DrawKeepsWorld(cfg: Config, acts: seq<Action>, id: nat, nid: string, now: nat, r: Reading, horizon: nat)
    requires LegalSchedule(cfg, acts, horizon) && now <= horizon && id in After(cfg, acts).procs
    requires !HasNumber(After(cfg, acts).procs[id]) && PastCheck(After(cfg, acts).procs[id], nid)
    requires r == ReadingFor(cfg, After(cfg, acts).procs[id], now)
    ensures OnlyDrew(After(cfg, acts), After(cfg, acts + [Advance(id, r, now)]), id)
  {
    var w := After(cfg, acts);
    PendingLegal(cfg, w, id, nid, KindOf(w.procs[id]), now, horizon);
    OneMoreStep(cfg, acts, Advance(id, r, now), horizon);
    DrawAct(cfg, w, id, nid, r, now);
  }

  /** A request that has passed its check and has yet to draw a serial stores its row with its next two calls. */
  lemma ServesChecked(cfg: Config, acts: seq<Action>, id: nat, nid: string, now: nat, horizon: nat)
    requires LegalSchedule(cfg, acts, horizon) && now <= horizon && id in After(cfg, acts).procs
    requires !HasNumber(After(cfg, acts).procs[id])
    requires Pending(cfg, After(cfg, acts).rows, After(cfg, acts).procs[id], nid)
    ensures var more := Finish(cfg, id, After(cfg, acts).procs[id], now);
            && LegalSchedule(cfg, acts + more, horizon)
            && Served(After(cfg, acts), After(cfg, acts + more), id, nid, KeyOf(After(cfg, acts).procs[id]))
  {
    var r := ReadingFor(cfg, After(cfg, acts).procs[id], now);
    PendingFinishes(cfg, acts, id, nid, now, horizon);
    CheckedDraws(cfg, acts, id, nid, now, r, horizon);
    DrawKeepsWorld(cfg, acts, id, nid, now, r, horizon);
    ServesNumbered(cfg, acts + [Advance(id, r, now)], id, nid, now, r, horizon);
    Twice(acts, Advance(id, r, now));
  }

  lemma TwoKeys(w: World, mid: World, next: World, id: nat, other: nat, nid: string, key: string, otherKey: string)
    requires Served(w, mid, id, nid, key) && Served(mid, next, other, nid, otherKey) && key != otherKey
    ensures !OneIdentity(next.rows)
  {
    var a, b := |w.rows|, |mid.rows|;
    assert next.rows[a] == next.rows[..b][a] == mid.rows[a];
    assert !SameIdentity(next.rows[a].rec, next.rows[b].rec);
  }

  lemma SecondPending(cfg: Config, w: World, next: World, id: nat, nid: string, key: string, other: nat)
    requires Served(w, next, id, nid, key) && other in w.procs && other != id
    requires !HasNumber(w.procs[other]) && PastCheck(w.procs[other], nid) && (cfg.mode == Base16 || |w.rows| < 9)
    ensures other in next.procs && next.procs[other] == w.procs[other]
    ensures Pending(cfg, next.rows, next.procs[other], nid)
  {
  }

  /** Two requests past their checks for one NID, under different keys and with room for both: serving one
      after the other makes the NID active under both keys. */
  lemma PendingPairBreaks(cfg: Config, acts: seq<Action>, id: nat, other: nat, nid: string, now: nat, horizon: nat)
    requires LegalSchedule(cfg, acts, horizon) && now <= horizon && id != other
    requires id in After(cfg, acts).procs && other in After(cfg, acts).procs
    requires cfg.mode == Base16 || |After(cfg, acts).rows| < 9
    requires !HasNumber(After(cfg, acts).procs[id]) && PastCheck(After(cfg, acts).procs[id], nid)
    requires !HasNumber(After(cfg, acts).procs[other]) && PastCheck(After(cfg, acts).procs[other], nid)
    requires KeyOf(After(cfg, acts).procs[id]) != KeyOf(After(cfg, acts).procs[other])
    ensures var w := After(cfg, acts);
            var all := acts + Finish(cfg, id, w.procs[id], now) + Finish(cfg, other, w.procs[other], now);
            LegalSchedule(cfg, all, horizon) && !OneIdentity(After(cfg, all).rows)
  {
    var w := After(cfg, acts);
    var first := acts + Finish(cfg, id, w.procs[id], now);
    var all := first + Finish(cfg, other, w.procs[other], now);
    ServesChecked(cfg, acts, id, nid, now, horizon);
    SecondPending(cfg, w, After(cfg, first), id, nid, KeyOf(w.procs[id]), other);
    ServesChecked(cfg, first, other, nid, now, horizon);
    TwoKeys(w, After(cfg, first), After(cfg, all), id, other, nid, KeyOf(w.procs[id]), KeyOf(w.procs[other]));
  }

  /** A request for the same NID by the holder of another key. */
  function Rival(e: Entity): Registration {
    Subject(e).(pubKey := "ed25519:j")
  }

  lemma RivalOk(e: Entity)
    requires e != Operator
    ensures WellFormedRequest(Rival(e)) && Rival(e).pubKey != Subject(e).pubKey
  {
    assert StartsWith("ed25519:j", "ed25519:");
    assert "ed25519:j"[8] != "ed25519:k"[8];
  }

  /** The rival arrives after the revocation and passes its check. */
  function RivalChecks(e: Entity, r: Reading, t: nat): seq<Action> {
    [Arrive(3, RegStart(Rival(e))), Advance(3, r, t)]
  }

  lemma Arrives(cfg: Config, acts: seq<Action>, id: nat, req: Registration, horizon: nat)
    requires LegalSchedule(cfg, acts, horizon) && id !in After(cfg, acts).procs && WellFormedRequest(req)
    ensures LegalSchedule(cfg, acts + [Arrive(id, RegStart(req))], horizon)
    ensures var w := After(cfg, acts);
            After(cfg, acts + [Arrive(id, RegStart(req))]) == World(w.rows, w.procs[id := RegStart(req)])
  {
    OneMoreStep(cfg, acts, Arrive(id, RegStart(req)), horizon);
  }

  lemma Appended<T>(s: seq<T>, x: T, y: T)
    ensures s + [x] + [y] == s + [x, y]
  {
  }

  lemma Replaced(procs: map<nat, Proc>, id: nat, p: Proc, q: Proc)
    ensures procs[id := p][id := q] == procs[id := q]
  {
  }

  lemma RivalArrives(cfg: Config, e: Entity, acts: seq<Action>, r: Reading, t: nat, horizon: nat)
    requires LegalSchedule(cfg, acts, horizon) && 3 !in After(cfg, acts).procs && t <= horizon && e != Operator
    requires !HasActive(After(cfg, acts).rows, "n")
    ensures LegalSchedule(cfg, acts + RivalChecks(e, r, t), horizon)
    ensures var w := After(cfg, acts);
            After(cfg, acts + RivalChecks(e, r, t)) == World(w.rows, w.procs[3 := RegChecked(Rival(e))])
  {
    var start := RegStart(Rival(e));
    RivalOk(e);
    Arrives(cfg, acts, 3, Rival(e), horizon);
    UncheckedChecks(cfg, acts + [Arrive(3, start)], 3, Rival(e), r, t, horizon);
    Appended(acts, Arrive(3, start), Advance(3, r, t));
    Replaced(After(cfg, acts).procs, 3, start, RegChecked(Rival(e)));
  }

  /** The second failing shape, which no pair of racing registrations shows: a renewal finds its row, a
      revocation is answered as done, the holder of another key registers the NID, and the remaining two
      calls of the renewal make both keys active. */
  lemma OvertakenRenewalClashes(cfg: Config, e: Entity, x: Times, s: nat, check: nat, at: string, u: nat, t: nat,
                                horizon: nat)
    requires s <= horizon && u <= horizon && t <= horizon && e != Operator
    requires x == TimesFor(cfg, e, s) && at == FmtIso(u)
    requires DaysLeft(ExpiryOf(NthRecord(cfg, e, 1, x)), check) <= cfg.renewalDays
    ensures var a := NthRecord(cfg, e, 1, x);
            var revoked := Overtaken(e, x, x, s, check, at, u);
            var rival := RivalChecks(e, RaceReading(x), t) + Finish(cfg, 3, RegChecked(Rival(e)), t);
            var all := revoked + rival + Finish(cfg, 1, RenewFound(a), t);
            && RevokedLast(cfg, revoked, "n") && LegalSchedule(cfg, all, horizon)
            && !OneIdentity(After(cfg, all).rows)
  {
    var a := NthRecord(cfg, e, 1, x);
    OvertakenIsTrace(cfg, e, x, x, s, check, at, u, a, horizon);
    OvertakenEnds(cfg, e, x, x, s, check, at, u, a, horizon);
    RivalBreaks(cfg, e, Overtaken(e, x, x, s, check, at, u), a, at, RaceReading(x), t, horizon);
  }

  lemma RivalBreaks(cfg: Config, e: Entity, revoked: seq<Action>, a: Record, at: string, r: Reading, t: nat,
                    horizon: nat)
    requires LegalSchedule(cfg, revoked, horizon) && After(cfg, revoked) == OvertakenWorld(e, a, at, 8)
    requires t <= horizon && e != Operator && a.nid == "n" && a.pubKey == Subject(e).pubKey
    ensures var rival := RivalChecks(e, r, t) + Finish(cfg, 3, RegChecked(Rival(e)), t);
            var all := revoked + rival + Finish(cfg, 1, RenewFound(a), t);
            LegalSchedule(cfg, all, horizon) && !OneIdentity(After(cfg, all).rows)
  {
    var checked := revoked + RivalChecks(e, r, t);
    RivalArrives(cfg, e, revoked, r, t, horizon);
    RivalOk(e);
    PendingPairBreaks(cfg, checked, 3, 1, "n", t, horizon);
    Associative(revoked, RivalChecks(e, r, t), Finish(cfg, 3, RegChecked(Rival(e)), t));
  }
}
