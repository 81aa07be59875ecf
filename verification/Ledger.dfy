/** What runs never undo: rows, their columns, revocations and the revocation list. */
module Ledger {
  import opened Wrappers
  import opened Timestamp
  import opened Database
  import opened Lifecycle
  import opened VerifySound

  // ---------- history ----------

  /** `b` continues `a`: no row is dropped or rewritten, and a revocation is written once. */
  predicate Extends(a: Table, b: Table) {
    && |a| <= |b|
    && forall i :: 0 <= i < |a| ==> b[i].rec == a[i].rec && (a[i].revokedAt.Some? ==> b[i] == a[i])
  }

  lemma StepExtends(cfg: Config, rows: Table, e: Event, next: Table, answer: Response)
    requires StepCase(cfg, rows, e, next, answer)
    ensures Extends(rows, next)
  {
  }

  lemma ExtendsTransitive(a: Table, b: Table, c: Table)
    requires Extends(a, b) && Extends(b, c)
    ensures Extends(a, c)
  {
  }

  /** Every later table of a run continues every earlier one. */
  lemma {:induction false} HistoryExtends(cfg: Config, es: seq<Event>, k: nat)
    requires k <= |es|
    ensures Extends(State(cfg, es[..k]), State(cfg, es))
  {
    var last := |es| - 1;
    if k == |es| {
      assert es[..k] == es;
    } else {
      assert es[..last][..k] == es[..k];
      HistoryExtends(cfg, es[..last], k);
      PrefixState(cfg, es);
      StepCases(cfg, State(cfg, es[..last]), es[last]);
      StepExtends(cfg, State(cfg, es[..last]), es[last], State(cfg, es), Answer(cfg, es, last));
      ExtendsTransitive(State(cfg, es[..k]), State(cfg, es[..last]), State(cfg, es));
    }
  }

  // ---------- the revocation list ----------

  function UnrevokedCount(rows: Table): nat {
    if rows == [] then 0
    else UnrevokedCount(rows[..|rows| - 1]) + (if rows[|rows| - 1].revokedAt.None? then 1 else 0)
  }

  lemma {:induction false} RevokedOrNot(rows: Table)
    ensures |RevokedRows(rows)| + UnrevokedCount(rows) == |rows|
  {
    if rows != [] { RevokedOrNot(rows[..|rows| - 1]); }
  }

  lemma {:induction false} RevokedRowListed(rows: Table, i: nat)
    requires i < |rows|
    ensures rows[i].revokedAt.Some? ==> rows[i] in RevokedRows(rows)
  {
    var last := |rows| - 1;
    if i < last { RevokedRowListed(rows[..last], i); }
  }

  lemma {:induction false} ListedRowRevoked(rows: Table, row: Row)
    requires row in RevokedRows(rows)
    ensures exists i :: 0 <= i < |rows| && rows[i] == row && row.revokedAt.Some?
  {
    var last := |rows| - 1;
    if row in RevokedRows(rows[..last]) {
      ListedRowRevoked(rows[..last], row);
      var i :| 0 <= i < last && rows[..last][i] == row;
      assert rows[i] == row;
    } else {
      assert rows[last] == row;
    }
  }

  lemma EntriesOfCrl(rows: Table, out: seq<CrlEntry>)
    requires IsCrl(rows, out)
    ensures |out| + UnrevokedCount(rows) == |rows|
    ensures forall i :: 0 <= i < |rows| && rows[i].revokedAt.Some? ==> EntryOf(rows[i]) in out
    ensures forall e :: e in out ==> exists i :: 0 <= i < |rows| && rows[i].revokedAt.Some? && e == EntryOf(rows[i])
  {
    var sorted: seq<Row> :| ListsSorted(rows, sorted, out);
    RevokedOrNot(rows);
    assert |sorted| == |multiset(sorted)| == |RevokedRows(rows)|;
    forall i | 0 <= i < |rows| && rows[i].revokedAt.Some? ensures EntryOf(rows[i]) in out {
      RevokedRowListed(rows, i);
      assert rows[i] in multiset(RevokedRows(rows));
      assert rows[i] in multiset(sorted) && rows[i] in sorted;
      var k :| 0 <= k < |sorted| && sorted[k] == rows[i];
      assert out[k] == EntryOf(rows[i]);
    }
    forall e | e in out ensures exists i :: 0 <= i < |rows| && rows[i].revokedAt.Some? && e == EntryOf(rows[i]) {
      var k :| 0 <= k < |out| && out[k] == e;
      assert sorted[k] in multiset(sorted);
      assert sorted[k] in RevokedRows(rows);
      ListedRowRevoked(rows, sorted[k]);
    }
  }

  /** The entry of a row: its serial, its NID, and the time and reason of its revocation. */
  lemma EntryWritten(row: Row)
    requires row.revokedAt.Some?
    ensures EntryOf(row) == CrlEntry(row.rec.serial, row.rec.nid, row.revokedAt.value, row.revokeReason)
  {
  }

  lemma EntriesWritten(rows: Table, out: seq<CrlEntry>)
    requires forall i :: 0 <= i < |rows| && rows[i].revokedAt.Some? ==> EntryOf(rows[i]) in out
    requires forall e :: e in out ==> exists i :: 0 <= i < |rows| && rows[i].revokedAt.Some? && e == EntryOf(rows[i])
    ensures forall i :: 0 <= i < |rows| && rows[i].revokedAt.Some? ==>
              CrlEntry(rows[i].rec.serial, rows[i].rec.nid, rows[i].revokedAt.value, rows[i].revokeReason) in out
    ensures forall e :: e in out ==>
              exists i :: 0 <= i < |rows| && rows[i].revokedAt == Some(e.revokedAt) && rows[i].revokeReason == e.reason
                          && rows[i].rec.serial == e.serial && rows[i].rec.nid == e.nid
  {
    forall i | 0 <= i < |rows| && rows[i].revokedAt.Some?
      ensures CrlEntry(rows[i].rec.serial, rows[i].rec.nid, rows[i].revokedAt.value, rows[i].revokeReason) in out
    {
      EntryWritten(rows[i]);
    }
    forall e | e in out
      ensures exists i :: 0 <= i < |rows| && rows[i].revokedAt == Some(e.revokedAt) && rows[i].revokeReason == e.reason
                          && rows[i].rec.serial == e.serial && rows[i].rec.nid == e.nid
    {
      var i :| 0 <= i < |rows| && rows[i].revokedAt.Some? && e == EntryOf(rows[i]);
      EntryWritten(rows[i]);
    }
  }

  /** The list has as many entries as there are revoked rows; every revoked row is listed under its serial,
      its NID, and the time and reason of its revocation; and every entry is such a row's. */
  lemma CrlIsRevokedRows(rows: Table, out: seq<CrlEntry>)
    requires IsCrl(rows, out)
    ensures |out| + UnrevokedCount(rows) == |rows|
    ensures forall i :: 0 <= i < |rows| && rows[i].revokedAt.Some? ==>
              CrlEntry(rows[i].rec.serial, rows[i].rec.nid, rows[i].revokedAt.value, rows[i].revokeReason) in out
    ensures forall e :: e in out ==>
              exists i :: 0 <= i < |rows| && rows[i].revokedAt == Some(e.revokedAt) && rows[i].revokeReason == e.reason
                          && rows[i].rec.serial == e.serial && rows[i].rec.nid == e.nid
  {
    EntriesOfCrl(rows, out);
    EntriesWritten(rows, out);
  }

  /** The text sort of the list is chronological, newest first. */
  lemma CrlChronological(cfg: Config, rows: Table, out: seq<CrlEntry>, i: nat, j: nat, horizon: nat)
    requires horizon < YEAR_10000 && Each(rows, RowOk(cfg, horizon)) && IsCrl(rows, out) && i < j < |out|
    ensures IsoToEpoch(out[i].revokedAt) >= IsoToEpoch(out[j].revokedAt)
  {
    var sorted: seq<Row> :| ListsSorted(rows, sorted, out);
    ListedStamp(cfg, rows, sorted, i, horizon);
    ListedStamp(cfg, rows, sorted, j, horizon);
    LaterStamp(sorted[i].revokedAt.value, sorted[j].revokedAt.value, horizon);
  }

  lemma ListedStamp(cfg: Config, rows: Table, sorted: seq<Row>, i: nat, horizon: nat)
    requires Each(rows, RowOk(cfg, horizon)) && multiset(sorted) == multiset(RevokedRows(rows)) && i < |sorted|
    ensures sorted[i].revokedAt.Some? && IsStamp(sorted[i].revokedAt.value, horizon)
  {
    assert sorted[i] in multiset(sorted);
    assert sorted[i] in RevokedRows(rows);
    ListedRowRevoked(rows, sorted[i]);
    var k :| 0 <= k < |rows| && rows[k] == sorted[i] && sorted[i].revokedAt.Some?;
    assert RowOk(cfg, horizon)(rows[k]);
  }

  lemma RevokedRowsStep(rows: Table)
    requires rows != []
    ensures var last := rows[|rows| - 1];
            multiset(RevokedRows(rows)) ==
            multiset(RevokedRows(rows[..|rows| - 1])) + (if last.revokedAt.Some? then multiset{last} else multiset{})
  {
  }

  lemma ExtendsInit(a: Table, b: Table)
    requires Extends(a, b) && b != []
    ensures |a| < |b| ==> Extends(a, b[..|b| - 1])
    ensures |a| == |b| ==> Extends(a[..|a| - 1], b[..|b| - 1])
  {
  }

  lemma {:induction false} RevokedRowsKept(a: Table, b: Table)
    requires Extends(a, b)
    ensures multiset(RevokedRows(a)) <= multiset(RevokedRows(b))
    decreases |b|
  {
    if b != [] {
      ExtendsInit(a, b);
      RevokedRowsStep(b);
      if |a| == |b| {
        RevokedRowsKept(a[..|a| - 1], b[..|b| - 1]);
        RevokedRowsStep(a);
      } else {
        RevokedRowsKept(a, b[..|b| - 1]);
      }
    }
  }

  function Without<T>(s: seq<T>, k: nat): seq<T>
    requires k < |s|
  {
    s[..k] + s[k + 1..]
  }

  lemma WithoutOne<T>(s: seq<T>, k: nat)
    requires k < |s|
    ensures multiset(s) == multiset(Without(s, k)) + multiset{s[k]}
  {
    assert s == s[..k] + [s[k]] + s[k + 1..];
  }

  lemma OneMore<T>(m: multiset<T>, n: multiset<T>, x: T)
    ensures m + multiset{x} <= n + multiset{x} <==> m <= n
  {
    if m + multiset{x} <= n + multiset{x} {
      forall y ensures m[y] <= n[y] {
        assert (m + multiset{x})[y] <= (n + multiset{x})[y];
      }
    }
  }

  lemma WithoutInclusion<T>(a: seq<T>, b: seq<T>, k: nat)
    requires a != [] && k < |b| && b[k] == a[0]
    ensures multiset(a) <= multiset(b) <==> multiset(a[1..]) <= multiset(Without(b, k))
  {
    WithoutOne(a, 0);
    WithoutOne(b, k);
    assert Without(a, 0) == a[1..];
    OneMore(multiset(a[1..]), multiset(Without(b, k)), a[0]);
  }

  predicate AllRevoked(rows: seq<Row>) {
    forall row :: row in rows ==> row.revokedAt.Some?
  }

  lemma EntriesWithout(b: seq<Row>, k: nat)
    requires AllRevoked(b) && k < |b|
    ensures AllRevoked(Without(b, k)) && Without(Entries(b), k) == Entries(Without(b, k))
  {
  }

  /** Listing rows one by one keeps multiset inclusion. */
  lemma {:induction false} EntriesKept(a: seq<Row>, b: seq<Row>)
    requires AllRevoked(a) && AllRevoked(b) && multiset(a) <= multiset(b)
    ensures multiset(Entries(a)) <= multiset(Entries(b))
  {
    if a != [] {
      assert a[0] in multiset(a) && a[0] in multiset(b);
      var k :| 0 <= k < |b| && b[k] == a[0];
      EntriesWithout(a, 0);
      EntriesWithout(b, k);
      WithoutInclusion(a, b, k);
      assert Without(a, 0) == a[1..] && Entries(a)[1..] == Without(Entries(a), 0);
      EntriesKept(a[1..], Without(b, k));
      WithoutInclusion(Entries(a), Entries(b), k);
    }
  }

  /** The entries of a list, counted, are those of the revoked rows. */
  lemma CrlEntries(rows: Table, out: seq<CrlEntry>)
    requires IsCrl(rows, out)
    ensures multiset(out) == multiset(Entries(RevokedRows(rows)))
  {
    var sorted: seq<Row> :| ListsSorted(rows, sorted, out);
    assert AllRevoked(sorted) && out == Entries(sorted);
    EntriesKept(sorted, RevokedRows(rows));
    EntriesKept(RevokedRows(rows), sorted);
  }

  lemma ListsContained(a: Table, b: Table, before: seq<CrlEntry>, after: seq<CrlEntry>)
    requires Extends(a, b) && IsCrl(a, before) && IsCrl(b, after)
    ensures |after| + UnrevokedCount(b) == |b| && multiset(before) <= multiset(after)
  {
    RevokedRowsKept(a, b);
    EntriesOfCrl(b, after);
    CrlEntries(a, before);
    CrlEntries(b, after);
    EntriesKept(RevokedRows(a), RevokedRows(b));
  }

  /** In every run: the list and the unrevoked rows make up the table, and every entry of an earlier
      list stands unchanged, with its multiplicity, in every later one. */
  lemma CrlHistory(cfg: Config, es: seq<Event>, k: nat, before: seq<CrlEntry>, after: seq<CrlEntry>)
    requires k <= |es| && IsCrl(State(cfg, es[..k]), before) && IsCrl(State(cfg, es), after)
    ensures |after| + UnrevokedCount(State(cfg, es)) == |State(cfg, es)|
    ensures multiset(before) <= multiset(after)
  {
    HistoryExtends(cfg, es, k);
    ListsContained(State(cfg, es[..k]), State(cfg, es), before, after);
  }

  // ---------- revocation safety ----------

  lemma InactiveStays(cfg: Config, rows: Table, e: Event, next: Table, answer: Response, nid: string, horizon: nat)
    requires StepCase(cfg, rows, e, next, answer) && LegalEvent(rows, e, horizon) && !HasActive(rows, nid)
    requires e.Register? && e.req.nid == nid ==> !answer.Issued?
    ensures !HasActive(next, nid)
  {
    if e.Renew? && answer.Issued? {
      assert IsActive(rows[e.pick.value], e.target);
      assert e.target != nid;
    }
  }

  /** No certificate of `nid` is issued by a registration among events `k + 1 ..`. */
  predicate NotReregistered(cfg: Config, es: seq<Event>, k: nat, nid: string) {
    forall j :: k < j < |es| && es[j].Register? && es[j].req.nid == nid ==> !Answer(cfg, es, j).Issued?
  }

  predicate RevokedAt(cfg: Config, es: seq<Event>, k: nat, nid: string) {
    k < |es| && es[k].Revoke? && es[k].target == nid && Answer(cfg, es, k).RevokedOk?
  }

  lemma AnswerPrefix(cfg: Config, es: seq<Event>, n: nat, k: nat)
    requires k < n <= |es|
    ensures Answer(cfg, es[..n], k) == Answer(cfg, es, k)
  {
    assert es[..n][..k] == es[..k];
  }

  lemma RevokedOkClears(cfg: Config, rows: Table, e: Event, next: Table, answer: Response)
    requires e.Revoke? && answer.RevokedOk? && StepCase(cfg, rows, e, next, answer)
    ensures !HasActive(next, e.target)
  {
  }

  lemma RevokedAtPrefix(cfg: Config, es: seq<Event>, n: nat, k: nat, nid: string)
    requires k < n <= |es| && RevokedAt(cfg, es, k, nid)
    ensures RevokedAt(cfg, es[..n], k, nid)
  {
    AnswerPrefix(cfg, es, n, k);
  }

  lemma NotReregisteredPrefix(cfg: Config, es: seq<Event>, n: nat, k: nat, nid: string)
    requires n <= |es| && NotReregistered(cfg, es, k, nid)
    ensures NotReregistered(cfg, es[..n], k, nid)
  {
    forall j | k < j < n && es[..n][j].Register? && es[..n][j].req.nid == nid
      ensures !Answer(cfg, es[..n], j).Issued?
    {
      AnswerPrefix(cfg, es, n, j);
    }
  }

  lemma {:induction false} StaysRevoked(cfg: Config, es: seq<Event>, horizon: nat, k: nat, nid: string)
    requires LegalRun(cfg, es, horizon) && RevokedAt(cfg, es, k, nid) && NotReregistered(cfg, es, k, nid)
    ensures !HasActive(State(cfg, es), nid)
  {
    var last := |es| - 1;
    var rows := State(cfg, es[..last]);
    PrefixState(cfg, es);
    StepCases(cfg, rows, es[last]);
    if k == last {
      RevokedOkClears(cfg, rows, es[last], State(cfg, es), Answer(cfg, es, last));
    } else {
      PrefixLegal(cfg, es, last, horizon);
      RevokedAtPrefix(cfg, es, last, k, nid);
      NotReregisteredPrefix(cfg, es, last, k, nid);
      StaysRevoked(cfg, es[..last], horizon, k, nid);
      InactiveStays(cfg, rows, es[last], State(cfg, es), Answer(cfg, es, last), nid, horizon);
    }
  }

  lemma InactiveListed(rows: Table, nid: string, crl: seq<CrlEntry>)
    requires !HasActive(rows, nid) && IsCrl(rows, crl)
    ensures forall i :: 0 <= i < |rows| && rows[i].rec.nid == nid ==> rows[i].revokedAt.Some? && EntryOf(rows[i]) in crl
  {
    EntriesOfCrl(rows, crl);
    forall i | 0 <= i < |rows| && rows[i].rec.nid == nid ensures rows[i].revokedAt.Some? {
      assert !IsActive(rows[i], nid);
    }
  }

  lemma RevokeStep(cfg: Config, rows: Table, e: Event, next: Table, answer: Response, nid: string)
    requires e.Revoke? && e.target == nid && answer.RevokedOk?
    requires next == Apply(cfg, rows, e).0 && answer == Apply(cfg, rows, e).1
    ensures HasActive(rows, nid)
    ensures forall i :: 0 <= i < |rows| && rows[i].rec.nid != nid ==> i < |next| && next[i] == rows[i]
  {
    StepCases(cfg, rows, e);
  }

  /** Verify and renew find nothing where no row is active. */
  lemma InactiveNotFound(cfg: Config, rows: Table, nid: string, pick: Option<nat>, now: nat, nowIssue: nat)
    requires !HasActive(rows, nid) && IsPick(rows, nid, pick)
    ensures Verify(rows, pick, now) == NidNotFound
    ensures ApplyRenew(cfg, rows, true, pick, now, nowIssue) == (rows, NotFound)
  {
    assert pick.None?;
  }

  lemma RevocationStep(cfg: Config, es: seq<Event>, k: nat, nid: string)
    requires RevokedAt(cfg, es, k, nid)
    ensures HasActive(State(cfg, es[..k]), nid)
    ensures forall i :: 0 <= i < |State(cfg, es[..k])| && State(cfg, es[..k])[i].rec.nid != nid ==>
              i < |State(cfg, es[..k + 1])| && State(cfg, es[..k + 1])[i] == State(cfg, es[..k])[i]
  {
    PrefixState(cfg, es[..k + 1]);
    assert es[..k + 1][..k] == es[..k] && es[..k + 1][k] == es[k];
    RevokeStep(cfg, State(cfg, es[..k]), es[k], State(cfg, es[..k + 1]), Answer(cfg, es, k), nid);
  }

  /** After a successful revoke of `nid`, until a registration of it succeeds again: every row of `nid`
      is on the revocation list, verify and renew find nothing, and the revocation itself touched no
      row of another NID. */
  lemma RevocationSafety(cfg: Config, es: seq<Event>, horizon: nat, k: nat, nid: string,
                         pick: Option<nat>, now: nat, nowIssue: nat, crl: seq<CrlEntry>)
    requires LegalRun(cfg, es, horizon) && RevokedAt(cfg, es, k, nid) && NotReregistered(cfg, es, k, nid)
    requires IsPick(State(cfg, es), nid, pick) && IsCrl(State(cfg, es), crl)
    ensures forall i :: 0 <= i < |State(cfg, es)| && State(cfg, es)[i].rec.nid == nid ==>
              State(cfg, es)[i].revokedAt.Some? && EntryOf(State(cfg, es)[i]) in crl
    ensures Verify(State(cfg, es), pick, now) == NidNotFound
    ensures ApplyRenew(cfg, State(cfg, es), true, pick, now, nowIssue) == (State(cfg, es), NotFound)
    ensures HasActive(State(cfg, es[..k]), nid)
    ensures forall i :: 0 <= i < |State(cfg, es[..k])| && State(cfg, es[..k])[i].rec.nid != nid ==>
              i < |State(cfg, es[..k + 1])| && State(cfg, es[..k + 1])[i] == State(cfg, es[..k])[i]
  {
    StaysRevoked(cfg, es, horizon, k, nid);
    InactiveListed(State(cfg, es), nid, crl);
    InactiveNotFound(cfg, State(cfg, es), nid, pick, now, nowIssue);
    RevocationStep(cfg, es, k, nid);
  }

  // ---------- renewal monotonicity ----------

  predicate NotRevokedSince(cfg: Config, es: seq<Event>, k: nat, nid: string) {
    forall j :: k <= j < |es| && es[j].Revoke? && es[j].target == nid ==> !Answer(cfg, es, j).RevokedOk?
  }

  lemma ActiveKept(cfg: Config, rows: Table, e: Event, next: Table, answer: Response, nid: string, i: nat)
    requires StepCase(cfg, rows, e, next, answer)
    requires e.Revoke? && e.target == nid ==> !answer.RevokedOk?
    requires i < |rows| && IsActive(rows[i], nid)
    ensures i < |next| && next[i] == rows[i]
  {
  }

  lemma NotRevokedPrefix(cfg: Config, es: seq<Event>, k: nat, nid: string)
    requires k < |es| && NotRevokedSince(cfg, es, k, nid)
    ensures NotRevokedSince(cfg, es[..|es| - 1], k, nid)
  {
    var last := |es| - 1;
    forall j | k <= j < last && es[..last][j].Revoke? && es[..last][j].target == nid
      ensures !Answer(cfg, es[..last], j).RevokedOk?
    {
      AnswerPrefix(cfg, es, last, j);
      assert es[..last][j] == es[j];
    }
  }

  lemma {:induction false} ActiveStays(cfg: Config, es: seq<Event>, k: nat, nid: string, i: nat)
    requires k <= |es| && NotRevokedSince(cfg, es, k, nid)
    requires i < |State(cfg, es[..k])| && IsActive(State(cfg, es[..k])[i], nid)
    ensures i < |State(cfg, es)| && State(cfg, es)[i] == State(cfg, es[..k])[i]
  {
    if k == |es| {
      assert es[..k] == es;
    } else {
      var last := |es| - 1;
      assert es[..last][..k] == es[..k];
      NotRevokedPrefix(cfg, es, k, nid);
      ActiveStays(cfg, es[..last], k, nid, i);
      PrefixState(cfg, es);
      StepCases(cfg, State(cfg, es[..last]), es[last]);
      ActiveKept(cfg, State(cfg, es[..last]), es[last], State(cfg, es), Answer(cfg, es, last), nid, i);
    }
  }

  /** Without a revoke in between, verify goes on finding `nid`, and the expiry that it answers never
      decreases, whatever the clock does. */
  lemma ReportedExpiryGrows(cfg: Config, es: seq<Event>, horizon: nat, k: nat, nid: string,
                            p: Option<nat>, s: nat, q: Option<nat>, t: nat)
    requires VerifyGuard(cfg, horizon) && LegalRun(cfg, es, horizon) && horizon < YEAR_10000
    requires k <= |es| && NotRevokedSince(cfg, es, k, nid)
    requires IsPick(State(cfg, es[..k]), nid, p) && IsPick(State(cfg, es), nid, q)
    ensures ExpiryNotEarlier(State(cfg, es[..k]), p, s, State(cfg, es), q, t)
  {
    if p.Some? { ActiveStays(cfg, es, k, nid, p.value); }
    if q.Some? { ReachablePickIsLast(cfg, es, horizon, nid, q.value); }
    AnsweredExpiryKept(State(cfg, es[..k]), State(cfg, es), nid, p, s, q, t);
  }
}
