/** The certificate table and the five queries that the server runs on it. */
module Database {
  import opened Wrappers
  import opened Text
  import opened Serial
  import opened Json
  import opened Timestamp

  datatype Entity = Agent | Node | Operator

  /** The columns an INSERT supplies. No statement changes them afterwards. */
  datatype Record = Record(
    nid: string,
    entity: Entity,
    serial: string,
    pubKey: string,
    capabilities: seq<string>,
    scope: Json,
    issuedBy: string,
    issuedAt: string,
    expiresAt: string,
    metadata: Option<Json>)

  /** A row; its position in the table stands for the AUTOINCREMENT id. */
  datatype Row = Row(rec: Record, revokedAt: Option<string>, revokeReason: Option<string>)

  type Table = seq<Row>

  // ---------- the queries as functions and relations on the table ----------

  function Serials(rows: Table): (s: seq<string>)
    ensures |s| == |rows| && forall i :: 0 <= i < |rows| ==> s[i] == rows[i].rec.serial
  {
    seq(|rows|, i requires 0 <= i < |rows| => rows[i].rec.serial)
  }

  /** `nid = ? AND revoked_at IS NULL`. */
  predicate IsActive(row: Row, nid: string) {
    row.rec.nid == nid && row.revokedAt.None?
  }

  predicate HasActive(rows: Table, nid: string) {
    exists i :: 0 <= i < |rows| && IsActive(rows[i], nid)
  }

  /** Row `i` is active and no active row of the same NID has a later `issued_at` text. */
  predicate IsLatest(rows: Table, nid: string, i: nat) {
    && i < |rows|
    && IsActive(rows[i], nid)
    && forall j :: 0 <= j < |rows| && IsActive(rows[j], nid) ==> !LexLess(rows[i].rec.issuedAt, rows[j].rec.issuedAt)
  }

  /** What `ORDER BY issued_at DESC LIMIT 1` may return: nothing, or any one of the rows tied for latest. */
  predicate IsPick(rows: Table, nid: string, pick: Option<nat>) {
    match pick
    case None => !HasActive(rows, nid)
    case Some(i) => IsLatest(rows, nid, i)
  }

  predicate SerialTaken(rows: Table, serial: string) {
    exists i :: 0 <= i < |rows| && rows[i].rec.serial == serial
  }

  /** The UNIQUE constraint refuses a second row with the same serial. */
  function Inserted(rows: Table, rec: Record): Table {
    if SerialTaken(rows, rec.serial) then rows else rows + [Row(rec, None, None)]
  }

  function Revoked(rows: Table, nid: string, at: string, reason: string): (r: Table)
    ensures |r| == |rows|
    ensures forall i :: 0 <= i < |rows| ==>
              r[i] == if IsActive(rows[i], nid) then rows[i].(revokedAt := Some(at), revokeReason := Some(reason))
                      else rows[i]
  {
    seq(|rows|, i requires 0 <= i < |rows| =>
      if IsActive(rows[i], nid) then rows[i].(revokedAt := Some(at), revokeReason := Some(reason)) else rows[i])
  }

  lemma {:induction false} LatestExists(rows: Table, nid: string)
    requires HasActive(rows, nid)
    ensures exists i: nat :: IsLatest(rows, nid, i)
  {
    var last := |rows| - 1;
    var rest := rows[..last];
    if !HasActive(rest, nid) {
      forall j | 0 <= j < last ensures !IsActive(rows[j], nid) {
        assert rows[j] == rest[j];
      }
      LexIrreflexive(rows[last].rec.issuedAt);
      assert IsLatest(rows, nid, last);
    } else {
      LatestExists(rest, nid);
      var i: nat :| IsLatest(rest, nid, i);
      if IsActive(rows[last], nid) && LexLess(rows[i].rec.issuedAt, rows[last].rec.issuedAt) {
        LexIrreflexive(rows[last].rec.issuedAt);
        forall j | 0 <= j < last && IsActive(rows[j], nid)
          ensures !LexLess(rows[last].rec.issuedAt, rows[j].rec.issuedAt)
        {
          assert IsActive(rest[j], nid);
          if LexLess(rows[last].rec.issuedAt, rows[j].rec.issuedAt) {
            LexTransitive(rows[i].rec.issuedAt, rows[last].rec.issuedAt, rows[j].rec.issuedAt);
          }
        }
        assert IsLatest(rows, nid, last);
      } else {
        forall j | 0 <= j < |rows| && IsActive(rows[j], nid)
          ensures !LexLess(rows[i].rec.issuedAt, rows[j].rec.issuedAt)
        {
          assert j < last ==> IsActive(rest[j], nid);
        }
        assert IsLatest(rows, nid, i);
      }
    }
  }

  // ---------- the revocation list ----------

  datatype CrlEntry = CrlEntry(serial: string, nid: string, revokedAt: string, reason: Option<string>)

  function EntryOf(row: Row): CrlEntry
    requires row.revokedAt.Some?
  {
    CrlEntry(row.rec.serial, row.rec.nid, row.revokedAt.value, row.revokeReason)
  }

  /** The revoked rows in table order. */
  function RevokedRows(rows: Table): (r: seq<Row>)
    ensures forall row :: row in r ==> row.revokedAt.Some?
  {
    if rows == [] then []
    else RevokedRows(rows[..|rows| - 1]) + (if rows[|rows| - 1].revokedAt.Some? then [rows[|rows| - 1]] else [])
  }

  predicate NewestFirst(rows: seq<Row>) {
    && (forall i :: 0 <= i < |rows| ==> rows[i].revokedAt.Some?)
    && forall i, j :: 0 <= i < j < |rows| ==> !LexLess(rows[i].revokedAt.value, rows[j].revokedAt.value)
  }

  function InsertByTime(row: Row, rows: seq<Row>): (r: seq<Row>)
    requires row.revokedAt.Some? && forall x :: x in rows ==> x.revokedAt.Some?
    ensures multiset(r) == multiset(rows) + multiset{row}
    ensures forall x :: x in r ==> x.revokedAt.Some?
  {
    if rows == [] || !LexLess(row.revokedAt.value, rows[0].revokedAt.value) then
      assert multiset([row] + rows) == multiset(rows) + multiset{row};
      [row] + rows
    else
      var rest := InsertByTime(row, rows[1..]);
      assert rows == [rows[0]] + rows[1..];
      [rows[0]] + rest
  }

  /** One result of `ORDER BY revoked_at DESC`. */
  function SortedByTime(rows: seq<Row>): (r: seq<Row>)
    requires forall x :: x in rows ==> x.revokedAt.Some?
    ensures multiset(r) == multiset(rows)
    ensures forall x :: x in r ==> x.revokedAt.Some?
  {
    if rows == [] then [] else
      assert rows == [rows[0]] + rows[1..];
      InsertByTime(rows[0], SortedByTime(rows[1..]))
  }

  lemma {:induction false} InsertByTimeSorts(row: Row, rows: seq<Row>)
    requires row.revokedAt.Some? && NewestFirst(rows)
    requires forall x :: x in rows ==> x.revokedAt.Some?
    ensures NewestFirst(InsertByTime(row, rows))
  {
    var r := InsertByTime(row, rows);
    if rows == [] {
    } else if !LexLess(row.revokedAt.value, rows[0].revokedAt.value) {
      forall j | 0 <= j < |rows| ensures !LexLess(row.revokedAt.value, rows[j].revokedAt.value) {
        if LexLess(row.revokedAt.value, rows[j].revokedAt.value) {
          LexTotal(rows[0].revokedAt.value, row.revokedAt.value);
          if LexLess(rows[0].revokedAt.value, row.revokedAt.value) {
            LexTransitive(rows[0].revokedAt.value, row.revokedAt.value, rows[j].revokedAt.value);
          }
        }
      }
    } else {
      var rest := InsertByTime(row, rows[1..]);
      InsertByTimeSorts(row, rows[1..]);
      LexAsymmetric(row.revokedAt.value, rows[0].revokedAt.value);
      forall j | 0 <= j < |rest| ensures !LexLess(rows[0].revokedAt.value, rest[j].revokedAt.value) {
        assert rest[j] in multiset(rest);
        assert rest[j] == row || rest[j] in rows[1..];
      }
    }
  }

  lemma {:induction false} SortedByTimeSorts(rows: seq<Row>)
    requires forall x :: x in rows ==> x.revokedAt.Some?
    ensures NewestFirst(SortedByTime(rows))
  {
    if rows != [] {
      SortedByTimeSorts(rows[1..]);
      InsertByTimeSorts(rows[0], SortedByTime(rows[1..]));
    }
  }

  function Entries(rows: seq<Row>): (r: seq<CrlEntry>)
    requires forall x :: x in rows ==> x.revokedAt.Some?
    ensures |r| == |rows|
    ensures forall i :: 0 <= i < |rows| ==> r[i] == EntryOf(rows[i])
  {
    seq(|rows|, i requires 0 <= i < |rows| => EntryOf(rows[i]))
  }

  /** `out` lists `sorted`, the revoked rows in some order that is newest first by text. */
  ghost predicate ListsSorted(rows: Table, sorted: seq<Row>, out: seq<CrlEntry>) {
    && multiset(sorted) == multiset(RevokedRows(rows))
    && NewestFirst(sorted)
    && |out| == |sorted|
    && forall i :: 0 <= i < |out| ==> out[i] == EntryOf(sorted[i])
  }

  ghost predicate IsCrl(rows: Table, out: seq<CrlEntry>) {
    exists sorted :: ListsSorted(rows, sorted, out)
  }

  // ---------- the database object ----------

  class CaDb {
    var rows: Table
    const mode: SerialRead

    constructor (mode: SerialRead)
      ensures rows == [] && this.mode == mode
    {
      rows := [];
      this.mode := mode;
    }

    /** One more than the greatest number that the read-back finds in the table, printed. */
    method NextSerial() returns (serial: string)
      ensures serial == Serial.NextSerial(mode, Serials(rows))
      ensures exists m: nat :: IsMaxRead(mode, Serials(rows), m) && serial == PrintSerial(m + 1)
    {
      MaxReadIsMax(mode, Serials(rows));
      serial := Serial.NextSerial(mode, Serials(rows));
    }

    /** False when the UNIQUE constraint refused the row. */
    method Insert(rec: Record) returns (ok: bool)
      modifies this`rows
      ensures rows == Inserted(old(rows), rec)
      ensures ok == !SerialTaken(old(rows), rec.serial)
    {
      ok := !SerialTaken(rows, rec.serial);
      if ok { rows := rows + [Row(rec, None, None)]; }
    }

    method GetActive(nid: string) returns (pick: Option<nat>)
      ensures IsPick(rows, nid, pick)
    {
      if HasActive(rows, nid) {
        LatestExists(rows, nid);
        var i: nat :| i < |rows| && IsLatest(rows, nid, i);
        pick := Some(i);
      } else {
        pick := None;
      }
    }

    /** True when some row changed. */
    method Revoke(nid: string, reason: string, now: nat) returns (changed: bool)
      modifies this`rows
      ensures rows == Revoked(old(rows), nid, FmtIso(now), reason)
      ensures changed == HasActive(old(rows), nid)
    {
      changed := HasActive(rows, nid);
      rows := Revoked(rows, nid, FmtIso(now), reason);
    }

    method Crl() returns (out: seq<CrlEntry>)
      ensures IsCrl(rows, out)
    {
      var sorted := SortedByTime(RevokedRows(rows));
      SortedByTimeSorts(RevokedRows(rows));
      out := [];
      for i := 0 to |sorted|
        invariant out == Entries(sorted)[..i]
      {
        assert sorted[i] in sorted;
        out := out + [EntryOf(sorted[i])];
      }
      assert ListsSorted(rows, sorted, out);
    }
  }
}
