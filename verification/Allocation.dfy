/** What the serial allocator does over whole runs, as the SQL is written and as it was meant. */
module Allocation {
  import opened Wrappers
  import opened Serial
  import opened Json
  import opened Timestamp
  import opened Database
  import opened Lifecycle

  /** How many answers of a run reported an issued certificate. */
  function IssuedCount(cfg: Config, es: seq<Event>): nat {
    if es == [] then 0
    else IssuedCount(cfg, es[..|es| - 1]) + (if Answer(cfg, es, |es| - 1).Issued? then 1 else 0)
  }

  /** The first ten numbers are all that the decimal read-back can reach. */
  predicate WithinReach(mode: SerialRead, rows: Table) {
    Numbered(Serials(rows)) && (mode == AsWritten ==> |rows| <= 10)
  }

  function StoredAfter(mode: SerialRead, issued: nat): nat {
    if mode == AsWritten && issued > 10 then 10 else issued
  }

  lemma NextNumber(mode: SerialRead, rows: Table)
    requires WithinReach(mode, rows)
    ensures NextSerial(mode, Serials(rows)) == PrintSerial(if mode == AsWritten && |rows| == 10 then 10 else |rows| + 1)
  {
    if mode == AsWritten {
      MaxReadAsWritten(Serials(rows));
    } else {
      MaxReadBase16(Serials(rows));
    }
  }

  lemma TakenIffReached(rows: Table, n: nat)
    requires Numbered(Serials(rows)) && n >= 1
    ensures SerialTaken(rows, PrintSerial(n)) <==> n <= |rows|
  {
    if n <= |rows| {
      assert rows[n - 1].rec.serial == Serials(rows)[n - 1] == PrintSerial(n);
    }
    forall i | 0 <= i < |rows| && rows[i].rec.serial == PrintSerial(n) ensures n == i + 1 {
      assert Serials(rows)[i] == PrintSerial(i + 1);
      PrintSerialInjective(n, i + 1);
    }
  }

  lemma FreshIffRoom(mode: SerialRead, rows: Table)
    requires WithinReach(mode, rows)
    ensures SerialTaken(rows, NextSerial(mode, Serials(rows))) <==> mode == AsWritten && |rows| == 10
  {
    NextNumber(mode, rows);
    TakenIffReached(rows, if mode == AsWritten && |rows| == 10 then 10 else |rows| + 1);
  }

  lemma AppendNumbered(rows: Table, rec: Record)
    requires Numbered(Serials(rows)) && rec.serial == PrintSerial(|rows| + 1)
    ensures Numbered(Serials(rows + [Row(rec, None, None)]))
  {
    var next := rows + [Row(rec, None, None)];
    forall i | 0 <= i < |next| ensures Serials(next)[i] == PrintSerial(i + 1) {
      if i < |rows| { assert Serials(next)[i] == Serials(rows)[i]; }
    }
  }

  lemma StoreKeepsNumbering(mode: SerialRead, rows: Table, rec: Record)
    requires WithinReach(mode, rows) && rec.serial == NextSerial(mode, Serials(rows))
    ensures WithinReach(mode, Inserted(rows, rec))
    ensures |Inserted(rows, rec)| == if mode == AsWritten && |rows| == 10 then 10 else |rows| + 1
  {
    FreshIffRoom(mode, rows);
    NextNumber(mode, rows);
    if !(mode == AsWritten && |rows| == 10) { AppendNumbered(rows, rec); }
  }

  lemma RevokeKeepsNumbering(mode: SerialRead, rows: Table, nid: string, at: string, reason: string)
    requires WithinReach(mode, rows)
    ensures WithinReach(mode, Revoked(rows, nid, at, reason))
  {
    assert Serials(Revoked(rows, nid, at, reason)) == Serials(rows);
  }

  /** Every answer that reports an issued certificate tried to store one. */
  lemma StepStores(cfg: Config, rows: Table, e: Event, next: Table, answer: Response)
    requires WithinReach(cfg.mode, rows) && StepCase(cfg, rows, e, next, answer)
    ensures WithinReach(cfg.mode, next)
    ensures |next| == if answer.Issued? && !(cfg.mode == AsWritten && |rows| == 10) then |rows| + 1 else |rows|
  {
    var serial := NextSerial(cfg.mode, Serials(rows));
    if answer.Issued? {
      if e.Register? {
        StoreKeepsNumbering(cfg.mode, rows, RegisterRecord(cfg, e.req, serial, TimesFor(cfg, e.req.entity, e.now)));
      } else {
        var rec := rows[e.pick.value].rec;
        StoreKeepsNumbering(cfg.mode, rows, RenewedRecord(cfg, rec, serial, TimesFor(cfg, rec.entity, e.now)));
      }
    } else if answer.RevokedOk? {
      RevokeKeepsNumbering(cfg.mode, rows, e.target, FmtIso(e.now), ReasonOf(e.reason));
    }
  }

  /** Over every run: row `i` carries number `i + 1`; with the base-16 read-back every certificate
      reported as issued is stored, with the SQL as written only the first ten ever are. */
  lemma {:induction false} StoredRows(cfg: Config, es: seq<Event>)
    ensures WithinReach(cfg.mode, State(cfg, es))
    ensures |State(cfg, es)| == StoredAfter(cfg.mode, IssuedCount(cfg, es))
  {
    if es != [] {
      var last := |es| - 1;
      StoredRows(cfg, es[..last]);
      PrefixState(cfg, es);
      StepCases(cfg, State(cfg, es[..last]), es[last]);
      StepStores(cfg, State(cfg, es[..last]), es[last], State(cfg, es), Answer(cfg, es, last));
    }
  }

  /** The next serial of a reachable table is fresh exactly while the read-back is in base 16 or the
      table has fewer than ten rows. */
  lemma SerialFreshIff(cfg: Config, es: seq<Event>)
    ensures !SerialTaken(State(cfg, es), NextSerial(cfg.mode, Serials(State(cfg, es))))
            <==> cfg.mode == Base16 || |State(cfg, es)| < 10
  {
    StoredRows(cfg, es);
    FreshIffRoom(cfg.mode, State(cfg, es));
  }

  /** With ten rows stored, every further answer of success names `0x00000A` and stores nothing. */
  lemma EleventhIsLost(cfg: Config, es: seq<Event>)
    requires es != [] && cfg.mode == AsWritten
    requires |State(cfg, es[..|es| - 1])| == 10 && Answer(cfg, es, |es| - 1).Issued?
    ensures Answer(cfg, es, |es| - 1).serial == PrintSerial(10) == "0x00000A"
    ensures State(cfg, es) == State(cfg, es[..|es| - 1])
  {
    var rows := State(cfg, es[..|es| - 1]);
    StoredRows(cfg, es[..|es| - 1]);
    NextNumber(AsWritten, rows);
    FreshIffRoom(AsWritten, rows);
    PrefixState(cfg, es);
    StepCases(cfg, rows, es[|es| - 1]);
    LostInsert(cfg, rows, es[|es| - 1], State(cfg, es), Answer(cfg, es, |es| - 1));
    PrintsTen();
  }

  lemma LostInsert(cfg: Config, rows: Table, e: Event, next: Table, answer: Response)
    requires StepCase(cfg, rows, e, next, answer) && answer.Issued?
    requires SerialTaken(rows, NextSerial(cfg.mode, Serials(rows)))
    ensures next == rows && answer.serial == NextSerial(cfg.mode, Serials(rows))
  {
  }

  // ---------- one registration after another ----------

  /** The `k`-th of a series of well-formed requests, each for a NID of its own. */
  function NthRequest(k: nat): Registration {
    Registration(PrintSerial(k), true, Agent, false, "ed25519:k", [], Null, None)
  }

  function Registrations(k: nat, now: nat): (es: seq<Event>)
    ensures |es| == k && forall i :: 0 <= i < k ==> es[i] == Register(true, NthRequest(i + 1), now)
  {
    seq(k, i requires 0 <= i < k => Register(true, NthRequest(i + 1), now))
  }

  ghost predicate NidsUpTo(rows: Table, k: nat) {
    forall i :: 0 <= i < |rows| ==> exists n :: 1 <= n <= k && rows[i].rec.nid == PrintSerial(n)
  }

  lemma NextNidFree(rows: Table, k: nat)
    requires NidsUpTo(rows, k)
    ensures !HasActive(rows, PrintSerial(k + 1))
  {
    forall i | 0 <= i < |rows| ensures !IsActive(rows[i], PrintSerial(k + 1)) {
      var n :| 1 <= n <= k && rows[i].rec.nid == PrintSerial(n);
      PrintSerialInjective(n, k + 1);
    }
  }

  lemma StoreKeepsNids(rows: Table, rec: Record, k: nat)
    requires NidsUpTo(rows, k) && rec.nid == PrintSerial(k + 1)
    ensures NidsUpTo(Inserted(rows, rec), k + 1)
  {
    forall i | 0 <= i < |rows| ensures exists n :: 1 <= n <= k + 1 && rows[i].rec.nid == PrintSerial(n) {
      var n :| 1 <= n <= k && rows[i].rec.nid == PrintSerial(n);
    }
  }

  lemma SeriesStep(cfg: Config, rows: Table, k: nat, now: nat)
    requires NidsUpTo(rows, k)
    ensures var r := Apply(cfg, rows, Register(true, NthRequest(k + 1), now)); NidsUpTo(r.0, k + 1) && r.1.Issued?
  {
    var times := TimesFor(cfg, Agent, now);
    NextNidFree(rows, k);
    assert StartsWith("ed25519:k", "ed25519:");
    RegisterStores(cfg, rows, NthRequest(k + 1), now, times);
    StoreKeepsNids(rows, RegisterRecord(cfg, NthRequest(k + 1), NextSerial(cfg.mode, Serials(rows)), times), k);
  }

  /** Every registration of the series is answered as issued. */
  lemma {:induction false} RegistrationsIssued(cfg: Config, k: nat, now: nat)
    ensures NidsUpTo(State(cfg, Registrations(k, now)), k)
    ensures IssuedCount(cfg, Registrations(k, now)) == k
    ensures k > 0 ==> Answer(cfg, Registrations(k, now), k - 1).Issued?
  {
    if k > 0 {
      var es := Registrations(k, now);
      assert es[..k - 1] == Registrations(k - 1, now);
      RegistrationsIssued(cfg, k - 1, now);
      SeriesStep(cfg, State(cfg, es[..k - 1]), k - 1, now);
      PrefixState(cfg, es);
    }
  }

  lemma RegistrationsLegal(cfg: Config, k: nat, now: nat)
    ensures LegalRun(cfg, Registrations(k, now), now)
  {
  }

  /** The failing input: from the eleventh registration on, each is answered as issued under the serial
      `0x00000A`, stores nothing, and verify does not find its NID. */
  lemma EleventhRegistrationLost(cfg: Config, k: nat, now: nat, pick: Option<nat>, later: nat)
    requires cfg.mode == AsWritten && k > 10
    requires IsPick(State(cfg, Registrations(k, now)), PrintSerial(k), pick)
    ensures LegalRun(cfg, Registrations(k, now), now)
    ensures Answer(cfg, Registrations(k, now), k - 1).Issued?
    ensures Answer(cfg, Registrations(k, now), k - 1).serial == "0x00000A"
    ensures |State(cfg, Registrations(k, now))| == 10
    ensures Verify(State(cfg, Registrations(k, now)), pick, later) == NidNotFound
  {
    var es := Registrations(k, now);
    assert es[..k - 1] == Registrations(k - 1, now);
    RegistrationsLegal(cfg, k, now);
    RegistrationsIssued(cfg, k, now);
    RegistrationsIssued(cfg, k - 1, now);
    StoredRows(cfg, es);
    StoredRows(cfg, es[..k - 1]);
    EleventhIsLost(cfg, es);
    NextNidFree(State(cfg, es[..k - 1]), k - 1);
  }

  lemma PrintsTen()
    ensures PrintSerial(10) == "0x00000A"
  {
    assert HexPadded(0, 1) == "0" && HexPadded(0, 2) == "00" && HexPadded(0, 3) == "000";
    assert HexPadded(0, 4) == "0000" && HexPadded(0, 5) == "00000" && HexPadded(10, 6) == "00000A";
  }
}
