# NIP CA server: a verified model

The NIP certificate authority server registers agents and nodes under a network identifier (NID), signs a
certificate frame for each, renews and revokes certificates, answers whether a NID is valid, and publishes a
revocation list. All of its durable state is one SQL table whose timestamps and serial numbers are text, and several
of its decisions depend on how that text sorts and reads back. This project models the Rust server
(`example/rust/src`), together with the Go, Java and TypeScript code where those ports do the same step another way.

`dafny verify dfyconfig.toml` checks the whole project.

## What is proved, hardest first

1. **`verify` is right** (`VerifySound`). The handler looks at one row: an unrevoked row of the NID whose
   `issued_at` text is greatest. The obvious statement is over all rows: not found when no row of the NID is
   unrevoked, valid exactly when some unrevoked row expires after now. Through year 9999 the two agree after every
   sequence of register, renew and revoke requests of a configuration if and only if the configuration never grants a
   renewal (a negative window) or neither validity period makes an expiry wrap around 64 bits within the horizon. For
   configurations whose periods fit, the year 10000 is the exact limit. Both conditions come with the two-request
   history that fails. Nothing is assumed about the clock's direction or about which of several tied rows the query
   returns. The result composes the calendar, the printed timestamps, text order, the lifecycle and the identity
   invariant.
2. **Concurrency** (`Interleaving`, `InFlight`, `Identity`, `Race`, `Standing`). Each handler is split at every call on
   the mutex-guarded database, and the calls of any number of requests interleave in any order. Each property that
   atomic requests have is either kept in every schedule or given its exact condition and a failing schedule:
   * Rows are never removed or rewritten, row i carries serial number i+1, and the revocation list keeps its history.
   * An insert is lost if and only if another request stored a row after the loser drew its number (or the SQL as
     written has run out of numbers); the loser is answered as issued all the same.
   * A successful revocation lasts, in every continuation, until a registration that makes its check only afterwards,
     if and only if no request in flight is past its check for that NID with a serial still free. A renewal overtaken
     by the revocation is the failing schedule.
   * Each NID keeps one identity throughout a schedule if and only if no accepted insert finds an active row with
     another identity that was stored after the request's own check; in particular in every schedule in which no row
     of the NID is stored between a request's check and its insert. Two racing registrations fail, and so does a renewal
     overtaken by a revocation and another subject's registration.
   * `verify` is right after every schedule, and the expiry that it reports never decreases without a revocation,
     both if and only if agents and nodes are certified for equally long and no expiry wraps around.

   A handler whose calls are not interleaved is proved equal to the atomic step (`RegisterAlone`, `RenewAlone`,
   `RevokeAlone`).
3. **The serial allocator** (`Serial`, `Allocation`). Serials are printed in hexadecimal and read back by the SQL as a
   decimal prefix. The model carries both readings. In histories of atomic requests, with a base-16 read-back, every
   certificate that is answered as issued is stored and numbered consecutively; with the SQL as written exactly the
   first ten ever are. Under interleaving rows are numbered consecutively as well, and item 2 says which inserts are
   lost.
4. **Ledger properties over whole histories** (`Ledger`, `Assurance`): the table only grows, a revocation is written
   once, the revocation list is exactly the revoked rows and never loses or changes an entry, a revoked NID stays
   invalid until it is registered again, and the expiry that `verify` reports never goes down without a revocation.
   `Assurance` adds the holder's view: a certificate answered as issued is honoured until its answered expiry or a
   revocation. These are statements about atomic requests; item 2 says what becomes of them under interleaving.
5. **The renewal window** (`RenewalWindow`). A renewal is not-found, too early or granted exactly as the window says
   (`RenewDecision`), the announced wait is exact, and the three ways in which the ports count days decide alike.
6. **Calendar and timestamps** (`Calendar`, `Timestamp`). The era arithmetic refines a day-by-day calendar for every
   day number; its inverse, in wrapping 64-bit arithmetic, is exact; printing and reading a time is a round trip for
   every 64-bit second count; text order is time order if and only if no year has five digits.
7. **Encoders** (`Oid`, `Json`, `CanonicalJson`, `Issue`). Readers written from ITU-T X.690 and RFC 8259 undo the
   object-identifier encoder, the nested DER value and the canonical JSON text; the first two with the exact condition
   under which they do. Signed bytes determine the eight signed fields, and the v2 frame's signed part is the v1
   frame's, byte for byte.

## How the source is modelled

* `u64` arithmetic wraps (`Calendar.Wrap`), as in the release build of `example/rust/Dockerfile:17`. The forward
  calendar direction uses natural numbers throughout, so that no unsigned subtraction in it can go below zero.
* The table is a sequence of rows; the row's position stands for its AUTOINCREMENT id. `Database.CaDb` is the object
  that owns it, `Server.CaServer` holds the handlers. Their methods state the whole new table and the answer. In
  `Lifecycle` the same handlers are atomic steps on the table, as in the synchronous handlers of the TypeScript port,
  and the `Server` methods are proved to take exactly those steps. `Decisions` writes out, in terms of each request,
  what it is answered and what it does to the table.
* `ORDER BY issued_at DESC LIMIT 1` may return any of the rows tied for latest (`Database.IsPick`); which one it does
  is an input of a step. Clock readings and the NID of a request (given, or generated at random) are inputs too. The
  handlers read the clock several times, so the readings of one request are separate inputs. A horizon bounds the
  readings that are stored; the reading of the renewal check is unbounded.
* Text order is code-point order, which is the order of UTF-8 bytes.
* Signing is an arbitrary function from text to text, and so is the DER and base64 encoding of a leaf certificate.
* `Lifecycle.Config.mode` selects how serials are read back: `AsWritten` or `Base16`. Results that do not name a mode
  hold for both.
* The failure of the UNIQUE constraint is modelled; the handlers drop it and answer success
  (`example/rust/src/main.rs:180-191`).

## Where code and documentation differ

* `db/001_init.sql:4-5` describes serials as a monotonically increasing sequence, and so does the intent of
  `example/rust/src/db.rs:47-55`. The SQL in the latter stops at ten rows. The model follows the code;
  `Allocation.SerialFreshIff` gives the exact condition, and the `Base16` mode is what the documentation describes.
* `sys_to_offset` replaces a time that the date library cannot represent by the epoch, so a v2 leaf agrees with its
  frame about the start and end of validity only before the year 10000 (`Issue.LeafAgreesWithFrame`).

## Model

| member | source | states |
|---|---|---|
| VerifySound.VerifyIsRight | example/rust/src/main.rs:245-260 | if renewals are never granted or no expiry wraps around up to the horizon, then after every legal history with the clock before the year 10000, for every row the query may return: `verify` is not-found exactly when no row is unrevoked; otherwise the record it answers is in every column that of an unrevoked row of the NID, no unrevoked row expires later, and it is valid exactly when the answered expiry, or that of any unrevoked row, lies after now |
| VerifySound.AnswerIsActiveRow | example/rust/src/main.rs:251-258 | on every table: the answered record, serial and both stamps included, is that of an unrevoked row of the queried NID, and valid means that its answered expiry lies after now |
| VerifySound.VerifyRightIff | example/rust/src/ca.rs:101-106 | for each configuration and each clock horizon before the year 10000: that holds in all its histories if and only if renewals are never granted or no expiry wraps around up to the horizon |
| VerifySound.PlainVerifyRightIff | example/rust/src/main.rs:329-330 | for non-negative validity periods that fit 64 bits in seconds the same condition, in terms of the last true expiry |
| VerifySound.VerifyHorizon | example/rust/src/db.rs:73-85 | for each configuration that grants renewals and whose periods fit through the year 10000: it holds in all its histories up to a clock horizon if and only if the horizon is before 10000-01-01T00:00:00Z |
| VerifySound.LateMisjudged | example/rust/src/ca.rs:101-113 | the failing history past the horizon, for each such configuration: registered at the epoch, renewed in the first second of the year 10000, the expired row is picked and the renewed one overlooked |
| VerifySound.WrappedMisjudged | example/rust/src/ca.rs:104 | the failing history of a period that does not fit: registered in the first second whose expiry wraps to zero, renewed under a clock that has stepped back one second |
| VerifySound.LatestExpiresLast | example/rust/src/db.rs:75-78 | where no expiry wraps around and the horizon is before the year 10000: between rows of one validity period, the text-latest `issued_at` belongs to the row that expires last |
| VerifySound.ReachablePickIsLast | example/rust/src/db.rs:73-85 | if renewals are never granted or no expiry wraps around up to the horizon and the horizon is before the year 10000: in every reachable table the picked row's expiry bounds the expiry of every unrevoked row of its NID |
| VerifySound.PickIsLast | example/rust/src/db.rs:73-85 | the same for any well-formed table whose unrevoked rows of the NID share a validity period, where no expiry wraps around and the horizon is before the year 10000 |
| VerifySound.RowExpiry | example/rust/src/ca.rs:101-106 | where the period fits, the stored expiry text of a well-formed row reads as its issue time plus the period |
| VerifySound.NeverRenewed | example/rust/src/main.rs:204-210 | with a negative window every reachable table has at most one unrevoked row per NID |
| Assurance.IssuedIsHonoured | example/rust/src/main.rs:159-260 | if renewals are never granted or no expiry wraps around up to the horizon and the clock stays before the year 10000: whenever the server answers that a certificate was issued and the allocator has room (base-16 read-back, or fewer than ten rows), then until the NID is revoked verify finds it, describes the registered subject, and is valid at every time before the answered expiry, which is the wrapped sum of issue time and configured period |
| Assurance.IssuedAt | example/rust/src/main.rs:174-191 | with base-16 read-back or fewer than ten rows, such an answer appends exactly one unrevoked row that says what the answer says |
| Lifecycle.ReachableInvariants | example/rust/src/main.rs:159-243 | in every reachable table serials are distinct, both stamps of a row come from one clock reading, revocations are complete and have an allowed reason, and the unrevoked rows of a NID agree on type, key, capabilities, scope, issuer and metadata |
| Lifecycle.StepKeepsWellFormed | example/rust/src/main.rs:159-243 | every step keeps distinct serials, single-reading stamps and complete revocations |
| Lifecycle.StepKeepsOneIdentity | example/rust/src/main.rs:165-185 | every step keeps one identity per NID, because register needs a NID without unrevoked rows and renew copies the record |
| Ledger.HistoryExtends | example/rust/src/db.rs:57-95 | every later table keeps every row of every earlier one, with its record, and with its revocation if it had one |
| Ledger.CrlHistory | example/rust/src/db.rs:97-112 | list entries plus unrevoked rows make up the table at all times, and every earlier list is contained in every later one as a multiset of entries |
| Ledger.CrlIsRevokedRows | example/rust/src/db.rs:97-112 | as many entries as revoked rows; every revoked row is listed under its serial, its NID, and the time and reason of its revocation; and every entry is such a row's |
| Ledger.CrlChronological | example/rust/src/db.rs:99-102 | for stamps before the year 10000 the text sort of the list is newest first in seconds |
| Ledger.StaysRevoked | example/rust/src/main.rs:226-243 | in histories of atomic requests, after a successful revoke a NID has no unrevoked row until a registration of it succeeds |
| Ledger.RevocationSafety | example/rust/src/main.rs:194-260 | until then every row of it is on the list, verify and renew answer not-found, and the revocation left the rows of other NIDs untouched |
| Ledger.ReportedExpiryGrows | example/rust/src/main.rs:194-224 | if renewals are never granted or no expiry wraps around up to the horizon and the clock stays before the year 10000: without a revocation in between, verify goes on finding the NID and the expiry in its answer never decreases, whichever tied rows are picked and whatever the clock's direction |
| Allocation.StoredRows | example/rust/src/db.rs:47-71 | over every history row i carries number i+1, and the table holds as many rows as issued answers with the base-16 read-back, at most ten with the SQL as written |
| Allocation.SerialFreshIff | example/rust/src/db.rs:47-55 | in every reachable table the next serial is unused if and only if the read-back is in base 16 or fewer than ten rows are stored |
| Allocation.EleventhIsLost | example/rust/src/main.rs:180-191 | with ten rows stored, every further answer of success names 0x00000A and changes nothing |
| Allocation.RegistrationsIssued | example/rust/src/main.rs:159-192 | a series of registrations of distinct NIDs, of any length, is answered as issued throughout |
| Allocation.EleventhRegistrationLost | example/rust/src/db.rs:50 | the failing input: with the SQL as written, the eleventh and every later one of that series is answered as issued under 0x00000A while ten rows stay stored and verify does not find its NID |
| Race.InterleavedVerifyIff | example/rust/src/main.rs:165-185 | for each configuration and each clock horizon before the year 10000: under all interleavings verify stays right if and only if the agent and node periods add equally many seconds and no expiry wraps around |
| Race.RaceMisjudged | example/rust/src/main.rs:119-157 | the failing schedule: two registrations of one NID both pass the check, and the row stored second sorts no earlier but expires earlier |
| Identity.IdentitySurvivesIff | example/rust/src/main.rs:159-224 | over schedules: every NID has one identity at every moment if and only if no accepted insert finds an active row of its NID, stored after the request's own check, with another identity |
| Identity.IdentityIffNoClash | example/rust/src/db.rs:57-71 | over schedules: every NID has one identity at every moment if and only if no accepted insert finds any active row of its NID with another identity |
| Identity.ClashIsLate | example/rust/src/main.rs:165-185 | if identities were single when a request made its check, the row that its insert clashes with was stored after that check |
| Identity.UndisturbedKeepsIdentity | example/rust/src/main.rs:159-224 | identity survives every schedule in which no row of the NID is stored between a request's check and its accepted insert |
| Identity.OvertakenRenewalClashes | example/rust/src/main.rs:194-243 | the second failing schedule: a renewal finds its row, the revocation is answered as done, the holder of another key registers, and the renewal's remaining calls make both keys active |
| Identity.PendingPairBreaks | example/rust/src/main.rs:165-222 | any two requests past their checks for one NID under different keys, with room for both rows, break identity when served one after the other |
| Race.RaceBreaksIdentity | example/rust/src/main.rs:165-185 | under every configuration and at all clock readings that schedule makes one NID active as an agent and as a node at once |
| InFlight.RevocationLastsIff | example/rust/src/main.rs:226-243 | over schedules: after a successful revocation, every continuation keeps the NID inactive until the insert of a registration whose check comes after it, if and only if no request in flight for the NID is past its check with a serial still free |
| InFlight.StaysInactiveIff | example/rust/src/main.rs:194-222 | the same exact condition from any reachable moment at which the NID is inactive |
| InFlight.RevocationOvertakes | example/rust/src/main.rs:198-222 | the failing schedule: a renewal has found its row, the revocation is answered as done, no request arrives afterwards, and the renewal's remaining calls make the NID active again |
| InFlight.LastingRevocation | example/rust/src/main.rs:194-260 | where the condition holds, until such a registration every row of the NID is on the list and verify and renew answer not-found, in every continuation |
| InFlight.UncheckedRegisters | example/rust/src/main.rs:165-185 | a registration in flight that is still to check when the NID is inactive registers it if served next, so the bound of the revocation is the check, not the arrival |
| InFlight.PendingFinishes | example/rust/src/main.rs:212-222 | a request past its check with a free serial, served without interruption, makes its NID active |
| Standing.ScheduleCrlHistory | example/rust/src/db.rs:97-112 | over schedules: list entries plus unrevoked rows make up the table, and every earlier list is contained in every later one as a multiset |
| Standing.ActiveUntilRevoked | example/rust/src/db.rs:87-95 | over schedules: an active row is active later if and only if no revocation of its NID has been answered as done since |
| Standing.ReportedExpiryIff | example/rust/src/main.rs:245-260 | for each configuration and each clock horizon before the year 10000: over schedules, without a revocation, verify goes on finding a NID and the expiry in its answer never decreases, if and only if both kinds last equally long and no expiry wraps around |
| Standing.AcceptedIsHonoured | example/rust/src/main.rs:174-187 | under that condition, until a revocation of its NID is answered as done, verify says valid at every time before the expiry that an accepted insert stored |
| Interleaving.LostIffGrown | example/rust/src/main.rs:174-187 | over schedules: an insert is lost if and only if the table grew since its request drew the serial, or the SQL as written had already run out of numbers; it is answered as issued either way |
| Interleaving.ScheduleNumbered | example/rust/src/db.rs:47-55 | under every interleaving row i carries number i+1, every serial in flight is one of those or the one after the last, and with the SQL as written there are never more than ten rows |
| Interleaving.AcceptedIff | example/rust/db/001_init.sql:8 | of the serials drawn so far the UNIQUE constraint accepts exactly the one after the last row |
| Interleaving.ScheduleInvariants | example/rust/src/db.rs:28-95 | under every interleaving both stamps of a row come from one clock reading up to the horizon, and revocations are complete with an allowed reason |
| Interleaving.ScheduleExtends | example/rust/src/db.rs:57-95 | under every interleaving rows are never removed or rewritten and a revocation is written once |
| Interleaving.RegisterAlone | example/rust/src/main.rs:159-192 | the database calls of a registration, not interleaved, are the atomic registration step |
| Interleaving.RenewAlone | example/rust/src/main.rs:194-224 | the three database calls of a renewal in a row are the atomic renewal step |
| Interleaving.RevokeAlone | example/rust/src/main.rs:226-243 | the database call of a revocation is the atomic revocation step |
| Decisions.UnauthorizedRefused | example/rust/src/main.rs:92-113 | every request is answered as unauthorized exactly when it is, and then leaves the table alone |
| Decisions.UnauthorizedNoTrace | example/rust/src/main.rs:194-230 | deleting all unauthorized requests from a history leaves its final table unchanged |
| Decisions.RegisterDecision | example/rust/src/main.rs:119-143 | which of unauthorized, bad request, conflict, internal error and issued a registration is answered, by its authorization, its key and NID written out, the unrevoked rows, and for v2 the 64 hexadecimal digits and the ASCII NID; only an issue may change the table |
| Decisions.RegisterEffect | example/rust/src/main.rs:171-191 | an issued registration stores exactly the request's columns under the next serial, with this server as issuer and the answered times, which are now and now plus the period of its kind; a taken serial stores nothing |
| Decisions.RenewEffect | example/rust/src/main.rs:211-223 | an issued renewal stores the picked row's subject again, under the next serial, with this server as issuer and the answered times |
| Decisions.RevokeDecision | example/rust/src/main.rs:226-243 | unauthorized, bad request for a reason that is not one of the five, not-found without an unrevoked row, all without effect; otherwise exactly the unrevoked rows of the NID get the first clock reading and the given reason, or the default when none is given, and the answer has the second reading and the same reason |
| Server.CaServer.Register | example/rust/src/main.rs:119-192 | table and answer are those of the atomic step; the answered frame carries exactly the columns of the stored record, signed, and the metadata and chain that belong to it |
| Server.CaServer.Renew | example/rust/src/main.rs:194-224 | for a row that the query may return, table and answer are those of the atomic step, and the frame is for the renewed record with its metadata and without a chain |
| Server.CaServer.RevokeHandler | example/rust/src/main.rs:226-243 | table and answer are those of the atomic step, with two clock readings |
| Server.CaServer.VerifyHandler | example/rust/src/main.rs:245-260 | not-found exactly when every row of the NID is revoked; otherwise the record is, column by column, the picked unrevoked row of the NID, and valid means that its expiry lies after now |
| Server.CaServer.IssueFor | example/rust/src/main.rs:134-145 | a frame exists unless a v2 leaf cannot be built; it signs exactly the record's columns, carries the metadata and, for v2, format and chain, nothing else, and its time fields read back as the record's |
| Server.CaServer.IssueAndInsert | example/rust/src/main.rs:174-191 | one insert of the record whose times are read back from the frame, or an internal error that changes nothing |
| Server.FrameTimes | example/rust/src/main.rs:144-145 | in v1 and v2 frames, whatever the metadata, the two time fields read back as signed |
| Database.CaDb.constructor | example/rust/src/db.rs:31-45 | the table starts empty |
| Database.CaDb.NextSerial | example/rust/src/db.rs:47-55 | the printed successor of the greatest number that the read-back finds in the table, or of zero when there is none |
| Database.CaDb.Insert | example/rust/src/db.rs:57-71 | appends one unrevoked row, or reports the UNIQUE failure and changes nothing |
| Database.CaDb.GetActive | example/rust/src/db.rs:73-85 | nothing exactly when no unrevoked row exists, otherwise some unrevoked row that no other has a later text than |
| Database.CaDb.Revoke | example/rust/src/db.rs:87-95 | stamps exactly the unrevoked rows of the NID and reports whether there were any |
| Database.CaDb.Crl | example/java/src/main/java/com/labacacia/nipcaserver/DbService.java:99-115 | one entry per revoked row, newest text first |
| Database.LatestExists | example/rust/src/db.rs:75-84 | whenever a NID has an unrevoked row, the query has a row to return |
| Database.SortedByTimeSorts | example/rust/src/db.rs:99-102 | the sorted rows are newest first by text (their multiset is kept by contract) |
| RenewalWindow.WaitIsExact | example/rust/src/main.rs:208 | for a non-negative window the number of days in a too-early answer is the exact wait: open after that many days, not one day sooner |
| RenewalWindow.CountsAreQuotients | example/ts/src/index.ts:164 | the three counts are the whole days in the seconds left: rounded down, rounded toward zero, and zero once the time has passed |
| RenewalWindow.RenewDecision | example/rust/src/main.rs:197-210 | for a non-negative window: unauthorized, not-found, too early and issued are answered exactly on the missing authorization, the missing unrevoked row, the days left on the picked row, and otherwise; only a grant may change the table |
| RenewalWindow.CountsAgreeIff | example/go/api/api.go:238-246 | the three counts decide alike on all inputs if and only if the window is non-negative |
| Issue.IssueCert | example/rust/src/ca.rs:136-165 | the eight fields, the signature over their canonical text, and the metadata if given |
| Issue.SignDict | example/go/ca/ca.go:162-166 | the signature is over the canonical text of the map |
| Issue.IssueCertX509 | example/rust/src/ca.rs:325-384 | an error exactly for keys and NIDs that no leaf can carry, otherwise the v1 frame plus format and chain |
| Issue.DualTrustAgreement | example/rust/src/ca.rs:338-383 | whatever metadata and chain a v2 frame carries, its signed part is the v1 frame's and its signature covers that part's canonical text |
| Issue.SignedBytesDetermineFields | example/rust/src/ca.rs:88-97 | equal signed bytes mean equal certificates |
| Issue.LeafAgreesWithFrame | example/rust/src/ca.rs:344-368 | the leaf names the NID as common name and URI; it starts and ends when the frame says if that is before the year 10000, at the epoch otherwise; and its key usage decodes to 1.3.6.1.4.1.65715.1.2 for a node and 1.3.6.1.4.1.65715.1.1 otherwise |
| Issue.UsageTellsRole | example/rust/src/ca.rs:349 | two leaves carry the same key usage if and only if both certify nodes or neither does |
| Issue.FieldsOfMap | example/rust/src/ca.rs:148-156 | the signed map has exactly the eight keys, each with its own field |
| Issue.FrameContents | example/rust/src/ca.rs:376-383 | a v1 frame adds the signature and the metadata if any; a v2 frame adds to that `v2-x509` and the chain, leaf first, and changes nothing else |
| Issue.LeafSerialIsAllocatedNumber | example/java/src/main/java/com/labacacia/nipcaserver/CaService.java:219 | the leaf serial that Java parses is the number that the allocator printed |
| Issue.ExpirySecsExactIff | example/rust/src/ca.rs:101-106 | for every integer number of days, the wrapped expiry agrees with the true one modulo 2^64, and equals it if and only if the true one is a 64-bit second count |
| CanonicalJson.CanonicalJson | example/go/ca/ca.go:139-159 | the loop emits a text that depends on the map alone, for every order in which the map hands out its keys |
| CanonicalJson.CollectKeys | example/go/ca/ca.go:140-143 | each key of the map once, in any order |
| CanonicalJson.SortKeysSorts | example/go/ca/ca.go:144 | sorting distinct keys gives them in strictly ascending order, none lost |
| CanonicalJson.AscendingUnique | example/rust/src/ca.rs:88-91 | a key set has one ascending enumeration |
| CanonicalJson.CanonicalReads | example/rust/src/ca.rs:88-91 | a JSON reader applied to the signed text recovers the map |
| CanonicalJson.CanonicalKeysAscend | example/go/ca/ca.go:144-156 | the signed text carries each key exactly once, strictly ascending |
| CanonicalJson.CanonicalInjective | example/rust/src/ca.rs:93-97 | equal signed texts mean equal maps |
| Json.ValueReads | example/rust/src/ca.rs:90 | the parser undoes the printer on every value without floating-point numbers, nested to any depth, in both escaping styles, in front of any text that cannot continue a number |
| Json.EscapedForm | example/go/ca/ca.go:151-152 | exactly the quotation mark, the backslash, control characters and, in Go's style, five more are escaped, seven of them in two characters and the others as four lower-case hexadecimal digits |
| Json.PrintIntForm | example/rust/src/ca.rs:90 | a printed integer has no superfluous zero and no sign but a leading minus |
| Json.StringReads | example/go/ca/ca.go:151-152 | every string survives escaping and reading |
| Oid.ArcOctets | example/rust/src/ca.rs:255-270 | the push-and-reverse loop produces the base-128 subidentifier |
| Oid.EncodeOidContent | example/rust/src/ca.rs:251-272 | the loop over the arcs produces the concatenated subidentifiers after the first octet |
| Oid.BuildEkuExtensionValue | example/rust/src/ca.rs:274-285 | the pushes produce the nested value, each length truncated to one octet |
| Oid.OidRoundTrip | example/rust/src/ca.rs:251-272 | an independent reader undoes the encoder if and only if the first two arcs are allowed and fit one octet |
| Oid.SubidentifierReads | example/rust/src/ca.rs:255-270 | every subidentifier is minimal and self-delimiting |
| Oid.OidInjective | example/rust/src/ca.rs:251-272 | distinct encodable identifiers have distinct encodings |
| Oid.DecodedReencodes | example/rust/src/ca.rs:251-272 | the other inverse: octets that read as an identifier, with a one-octet head, are what the encoder writes |
| Oid.EncodingShortest | example/rust/src/ca.rs:251-272 | no octets that read as an identifier are shorter than the encoder's output for it |
| Oid.EkuRoundTrip | example/rust/src/ca.rs:274-285 | the nested value reads back, all octets consumed, if and only if the identifier is encodable and its content is at most 125 octets |
| Oid.EkuRolesDistinct | example/rust/src/ca.rs:182-183 | both role identifiers read back and their extension values differ |
| Serial.PrintSerialForm | example/rust/src/db.rs:54 | `0x` and upper-case hexadecimal digits that spell the number: six, or as many more as it needs |
| Serial.ReadDecimalPrefix | example/rust/src/db.rs:50 | the SQL read-back of a printed serial is the value of its digits up to the first letter |
| Serial.ParseSerialInverts | example/java/src/main/java/com/labacacia/nipcaserver/CaService.java:243-248 | in base 16 every printed serial reads back as its number |
| Serial.PrintSerialInjective | example/rust/src/db.rs:54 | distinct numbers print distinctly |
| Serial.ReadDecimalExact | example/rust/src/db.rs:50 | the SQL read-back is never too large, and exact if and only if the number is below ten |
| Serial.MaxReadAsWritten | example/rust/src/db.rs:50 | over the first k serials the SQL sees k below ten and nine at ten |
| Serial.MaxReadBase16 | db/001_init.sql:4-5 | over the first k serials the base-16 read-back sees k, for every k |
| Timestamp.FmtIsoTwenty | example/rust/src/ca.rs:112 | before the year 10000 a printed time is twenty characters: `-`, `-`, `T`, `:`, `:`, `Z` at 4, 7, 10, 13, 16, 19, and between them digits that spell the six parts |
| Timestamp.FmtIsoShape | example/rust/src/ca.rs:108-113 | for every second count the same form with a longer year, which has four digits exactly before the year 10000 and no superfluous zero afterwards |
| Timestamp.FmtIsoRoundTrip | example/rust/src/main.rs:301-307 | reading a printed time gives back every 64-bit second count, through both readers, whatever the fallback clock says |
| Timestamp.IsoFieldsOfFmt | example/rust/src/main.rs:302-305 | trimming, splitting and parsing a printed time yields exactly its six numbers |
| Timestamp.ShortTextReads | example/rust/src/ca.rs:227-230 | a text with fewer than six fields reads as the epoch in one reader and as the current clock in the other |
| Timestamp.FmtIsoOrder | example/rust/src/ca.rs:108-113 | through year 9999 text order is time order and equal texts are equal times |
| Timestamp.TextOrderHorizon | example/rust/src/db.rs:77 | text order is time order up to a horizon if and only if the horizon is before the year 10000 |
| Timestamp.FiveDigitYearSortsFirst | example/rust/src/ca.rs:112 | the first second of year 10000 sorts before every earlier one |
| Calendar.CivilFromDaysRefinesStepping | example/rust/src/ca.rs:115-134 | for every day number the era arithmetic names the date reached by stepping that many days from 1970-01-01 under the 4/100/400 rule |
| Calendar.YearDayBounds | example/rust/src/ca.rs:125-128 | for every day of an era the year of era is below 400 and the day of year lies in 0..365, so neither subtraction underflows |
| Calendar.DaysSinceEpochIsOrdinal | example/rust/src/main.rs:309-316 | the wrapping day-number arithmetic is exact for every valid date from 1970 whose number fits 64 bits |
| Calendar.DaysRoundTrip | example/rust/src/main.rs:309-316 | every day number survives conversion to a valid date and back |
| Calendar.DateRoundTrip | example/rust/src/ca.rs:236-243 | every valid date from 1970 survives conversion to a day number and back |
| Calendar.EpochToPartsSound | example/rust/src/ca.rs:115-134 | all six parts are in range and add back up to the second count |
| Calendar.EpochToPartsMonotone | example/rust/src/ca.rs:115-134 | later seconds have lexicographically later parts |
| Text.PaddedOrder | example/rust/src/ca.rs:112 | among numbers that fit the width, the order of zero-padded text is numeric order |
| Text.PaddedParses | example/rust/src/main.rs:303 | every printed 64-bit number parses back |

## Left out

- Serial.CastInteger: signs, leading white space and 64-bit clamping of an SQL cast are not modelled, because every stored serial is one that the allocator printed.
- Serial.ParseSerial: signs that a big-integer parser would accept, and the random fallback for blank text, are not modelled as values, because printed serials carry neither; both read as `None`.
- Serial.PrintSerial: the 64-bit width of the serial number is not modelled; it would take 2^63 rows to reach.
- Timestamp.IsoToSystime: the overflow of a system time beyond 2^63 seconds is not modelled.
- Issue.SysToOffset: the cast of a second count to a signed 64-bit integer is not modelled beyond the year 10000, where the result is the epoch for every representable system time.
- Calendar.DaysRoundTrip: day numbers are below 2^64 - 719468, where `days + 719_468` fits its type; a second count divided by 86400 is far below that.
- Oid.EncodeOid: arcs are unbounded; 64-bit overflow of `40 * a + b` does not change the one octet that is kept.
- Lifecycle.KeyOk: `validate_register`'s character check of the NID needs Unicode classes and is an input of a request (`nidOk`); the key check is modelled.
- Lifecycle.Event: the comparison of bearer tokens in `is_authorized` is an input of a request (`authorized`).
- Json.Print: floating-point numbers are not modelled; all other JSON values are. A nested object is the list of its members in the order in which the serializers print it.
- Json.ReadValue: accepts compact text without white space, which is all that the printers emit.
- CanonicalJson.SortKeys: the sorting algorithm of Go's library is not modelled, only that a distinct key list has one ascending order, which is what any sort returns.
- Database.SortedByTime: rows revoked in the same second may be listed in any order; `IsCrl` allows every such order, the model's method returns one.
- Lifecycle.Apply: database errors other than the UNIQUE failure are not modelled, nor are the JSON encoding of columns, the `created_at` column and connection settings. The TypeScript port raises an error where the Rust server drops a failed insert; the model follows Rust. Its `registerX509` awaits between drawing the serial and the insert, so it is not one atomic step; the interleaved model, which splits there, is the one that covers it.
- RenewalWindow.TruncatedDays: the floating-point division of Go and the sub-second clocks of Go and TypeScript are not modelled; times are whole seconds and the division is exact.
- Interleaving.Advanced: requests refused before their first database call (authorization, malformed input) do not touch the table and appear only in the atomic steps; two readings of one SQL call are not interleaved, because the mutex is held.
- Key generation, Ed25519, AES-GCM, PBKDF2, random NIDs, the root certificate and the key file: foreign code or plain input and output.
- X.509 encoding of the leaf: only the fields that the server passes are modelled. The leaf serials of the Rust and Go ports can fall back to random values, so equality with the allocated number is stated for Java.
- The unsigned `assurance_level` field that Java adds to a v2 frame, and the fixed assurance extension of the leaf.
- Java's signing path orders keys by UTF-16 units instead of code points; the eight signed keys are ASCII, where the two orders agree.
- HTTP routing, configuration, discovery documents, health, metrics, the orchestrator and registration-authority schemas, and the .NET host: the logic behind the schemas is in a library that is not part of this model.
