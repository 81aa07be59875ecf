/** Certificate issuance: the signed v1 frame (`issue_cert`) and the dual-trust v2 frame
    (`issue_cert_x509`). Signing is any function from the signed text to a base64 signature. */
module Issue {
  import opened Wrappers
  import opened Calendar
  import opened Serial
  import opened Json
  import opened CanonicalJson
  import opened Timestamp
  import opened Database
  import Oid

  // ---------- validity ----------

  /** The seconds that `(days as u64) * 86400` adds, in wrapping 64-bit arithmetic. */
  function PeriodSecs(days: int): nat {
    Wrap(Wrap(days) * 86_400)
  }

  /** `now_secs + (days as u64) * 86400`. */
  function ExpirySecs(now: nat, days: int): nat {
    Wrap(now + PeriodSecs(days))
  }

  /** No issue time up to `horizon` makes the sum wrap around. */
  predicate PeriodFits(days: int, horizon: nat) {
    PeriodSecs(days) + horizon < TWO64
  }

  lemma ExpiryFits(now: nat, days: int, horizon: nat)
    requires PeriodFits(days, horizon) && now <= horizon
    ensures ExpirySecs(now, days) == now + PeriodSecs(days) < TWO64
  {
    WrapIdentity(now + PeriodSecs(days));
  }

  lemma WrapTurns(x: int, turns: int)
    ensures Wrap(x + turns * TWO64) == Wrap(x)
  {
  }

  /** Casting a negative period to `u64` is harmless by itself: the expiry is exact exactly when the
      true expiry is a 64-bit second count, and it always agrees with it modulo 2^64. */
  lemma ExpirySecsExactIff(now: nat, days: int)
    ensures ExpirySecs(now, days) == now + days * SECONDS_PER_DAY <==> 0 <= now + days * SECONDS_PER_DAY < TWO64
    ensures ExpirySecs(now, days) < TWO64
    ensures exists turns: int :: now + days * SECONDS_PER_DAY == ExpirySecs(now, days) + turns * TWO64
  {
    var seconds := Wrap(days) * 86_400;
    assert days == Wrap(days) + days / TWO64 * TWO64;
    assert seconds == Wrap(seconds) + seconds / TWO64 * TWO64;
    var turns := seconds / TWO64 + days / TWO64 * 86_400;
    assert now + days * SECONDS_PER_DAY == now + Wrap(seconds) + turns * TWO64;
    WrapTurns(now + Wrap(seconds), turns);
    if 0 <= now + days * SECONDS_PER_DAY < TWO64 { WrapIdentity(now + days * SECONDS_PER_DAY); }
    var total := now + Wrap(seconds);
    assert total == Wrap(total) + total / TWO64 * TWO64;
    assert now + days * SECONDS_PER_DAY == ExpirySecs(now, days) + (turns + total / TWO64) * TWO64;
  }

  /** A non-negative number of days that fits 64 bits in seconds adds exactly those seconds. */
  lemma PlainPeriod(days: nat, horizon: nat)
    requires days * SECONDS_PER_DAY < TWO64
    ensures PeriodSecs(days) == days * SECONDS_PER_DAY
    ensures PeriodFits(days, horizon) <==> horizon + days * SECONDS_PER_DAY < TWO64
  {
    WrapIdentity(days);
    WrapIdentity(days * 86_400);
  }

  // ---------- the frame ----------

  /** The eight signed fields. */
  datatype Fields = Fields(
    capabilities: seq<string>,
    expiresAt: string,
    issuedAt: string,
    issuedBy: string,
    nid: string,
    pubKey: string,
    scope: Json,
    serial: string)

  function Strings(texts: seq<string>): Json {
    Arr(seq(|texts|, i requires 0 <= i < |texts| => Str(texts[i])))
  }

  function UnsignedMap(f: Fields): map<string, Json> {
    map["capabilities" := Strings(f.capabilities),
        "expires_at" := Str(f.expiresAt),
        "issued_at" := Str(f.issuedAt),
        "issued_by" := Str(f.issuedBy),
        "nid" := Str(f.nid),
        "pub_key" := Str(f.pubKey),
        "scope" := f.scope,
        "serial" := Str(f.serial)]
  }

  ghost function SignatureOver(sign: string -> string, style: Style, f: Fields): Json {
    Str("ed25519:" + sign(Canonical(style, UnsignedMap(f))))
  }

  ghost function Frame(sign: string -> string, style: Style, f: Fields, metadata: Option<Json>): map<string, Json> {
    var cert := UnsignedMap(f)["signature" := SignatureOver(sign, style, f)];
    if metadata.Some? then cert["metadata" := metadata.value] else cert
  }

  method SignDict(sign: string -> string, style: Style, obj: map<string, Json>) returns (signature: string)
    ensures signature == "ed25519:" + sign(Canonical(style, obj))
  {
    var bytes := CanonicalJson.CanonicalJson(style, obj);
    signature := "ed25519:" + sign(bytes);
  }

  /** `issue_cert`; `now` is its clock reading. */
  method IssueCert(sign: string -> string, style: Style, caNid: string, nid: string, pubKey: string,
                   capabilities: seq<string>, scope: Json, days: int, serial: string,
                   metadata: Option<Json>, now: nat)
    returns (cert: map<string, Json>, f: Fields)
    ensures f == Fields(capabilities, FmtIso(ExpirySecs(now, days)), FmtIso(now), caNid, nid, pubKey, scope, serial)
    ensures cert == Frame(sign, style, f, metadata)
  {
    f := Fields(capabilities, FmtIso(ExpirySecs(now, days)), FmtIso(now), caNid, nid, pubKey, scope, serial);
    var unsigned: map<string, Json> := map[];
    unsigned := unsigned["capabilities" := Strings(capabilities)];
    unsigned := unsigned["expires_at" := Str(f.expiresAt)];
    unsigned := unsigned["issued_at" := Str(f.issuedAt)];
    unsigned := unsigned["issued_by" := Str(caNid)];
    unsigned := unsigned["nid" := Str(nid)];
    unsigned := unsigned["pub_key" := Str(pubKey)];
    unsigned := unsigned["scope" := scope];
    unsigned := unsigned["serial" := Str(serial)];
    assert unsigned == UnsignedMap(f);
    var signature := SignDict(sign, style, unsigned);
    cert := unsigned["signature" := Str(signature)];
    if metadata.Some? { cert := cert["metadata" := metadata.value]; }
  }

  // ---------- the dual-trust frame ----------

  /** The fields of the X.509 leaf that depend on the frame. */
  datatype Leaf = Leaf(commonName: string, sanUri: string, notBefore: nat, notAfter: nat, eku: seq<Oid.byte>)

  /** `parse_pub_key_string`: the prefix and 32 octets in hexadecimal. */
  predicate IsEd25519Key(s: string) {
    StartsWith(s, "ed25519:") && |s| == 72 && AllHexDigits(s[8..])
  }

  /** A subject alternative name must be an ASCII string. */
  predicate IsAscii(s: string) {
    forall i :: 0 <= i < |s| ==> s[i] as nat < 128
  }

  predicate LeafBuildable(nid: string, pubKey: string) {
    IsEd25519Key(pubKey) && IsAscii(nid)
  }

  /** `sys_to_offset`: a time that the date library cannot represent becomes the epoch. */
  function SysToOffset(secs: nat): nat {
    if secs < YEAR_10000 then secs else 0
  }

  function EkuFor(entity: Entity): seq<nat> {
    if entity == Node then Oid.EKU_NODE else Oid.EKU_AGENT
  }

  function LeafOf(f: Fields, entity: Entity, clock: nat): Leaf {
    Leaf(f.nid, f.nid, SysToOffset(IsoToSystime(f.issuedAt, clock)), SysToOffset(IsoToSystime(f.expiresAt, clock)),
         Oid.BuildEku(EkuFor(entity)))
  }

  function V2Frame(v1: map<string, Json>, leafText: string, rootText: string): map<string, Json> {
    v1["cert_format" := Str("v2-x509")]["cert_chain" := Strings([leafText, rootText])]
  }

  /** `issue_cert_x509`; `encodeLeaf` is the foreign DER and base64 encoding of a leaf, `clock` the
      reading that `iso_to_systime` would fall back to. `None` is the error result. */
  method IssueCertX509(sign: string -> string, style: Style, caNid: string, nid: string, pubKey: string, entity: Entity,
                       capabilities: seq<string>, scope: Json, days: int, serial: string, metadata: Option<Json>,
                       now: nat, clock: nat, encodeLeaf: Leaf -> string, rootText: string)
    returns (cert: Option<map<string, Json>>, f: Fields)
    ensures f == Fields(capabilities, FmtIso(ExpirySecs(now, days)), FmtIso(now), caNid, nid, pubKey, scope, serial)
    ensures cert == if LeafBuildable(nid, pubKey)
                    then Some(V2Frame(Frame(sign, style, f, metadata), encodeLeaf(LeafOf(f, entity, clock)), rootText))
                    else None
  {
    var v1: map<string, Json>;
    v1, f := IssueCert(sign, style, caNid, nid, pubKey, capabilities, scope, days, serial, metadata, now);
    if !IsEd25519Key(pubKey) { return None, f; }
    var notBefore := SysToOffset(IsoToSystime(f.issuedAt, clock));
    var notAfter := SysToOffset(IsoToSystime(f.expiresAt, clock));
    var eku := Oid.BuildEkuExtensionValue(EkuFor(entity));
    if !IsAscii(nid) { return None, f; }
    var leaf := Leaf(nid, nid, notBefore, notAfter, eku);
    var out := v1;
    out := out["cert_format" := Str("v2-x509")];
    out := out["cert_chain" := Strings([encodeLeaf(leaf), rootText])];
    cert := Some(out);
  }

  // ---------- what the two trust paths agree on ----------

  const UNSIGNED_KEYS: set<string> := {"signature", "metadata", "cert_format", "cert_chain"}

  /** The part of a frame that a v1 verifier checks the signature over. */
  function SignedPart(frame: map<string, Json>): map<string, Json> {
    frame - UNSIGNED_KEYS
  }

  lemma SignedKeysDisjoint(f: Fields)
    ensures UnsignedMap(f).Keys !! UNSIGNED_KEYS
  {
    assert "signature"[0] == 's' && "serial"[1] == 'e' && "signature"[1] == 'i';
    assert |"signature"| == |"issued_at"| == |"issued_by"| == 9;
    assert "issued_at"[0] == "issued_by"[0] == 'i';
    assert |"metadata"| == 8 && |"cert_format"| == 11 && |"cert_chain"| == |"expires_at"| == 10;
    assert "cert_chain"[0] == 'c' && "expires_at"[0] == 'e';
  }

  /** Whatever metadata and certificate chain a frame carries, the signed part and the signature are
      those of its eight fields, so the v1 signature covers the v2 frame's fields byte for byte. */
  lemma DualTrustAgreement(sign: string -> string, style: Style, f: Fields, metadata: Option<Json>, leafText: string,
                           rootText: string)
    ensures var v1 := Frame(sign, style, f, metadata);
            var v2 := V2Frame(v1, leafText, rootText);
            && SignedPart(v1) == UnsignedMap(f) == SignedPart(v2)
            && "signature" in v2
            && v2["signature"] == Str("ed25519:" + sign(Canonical(style, SignedPart(v2))))
  {
    SignedKeysDisjoint(f);
    var v1 := Frame(sign, style, f, metadata);
    var v2 := V2Frame(v1, leafText, rootText);
    assert |"signature"| != |"metadata"| && |"signature"| != |"cert_format"| && |"signature"| != |"cert_chain"|;
    assert SignedPart(v1) == UnsignedMap(f);
    assert SignedPart(v2) == UnsignedMap(f);
  }

  lemma StringsInjective(a: seq<string>, b: seq<string>)
    requires Strings(a) == Strings(b)
    ensures a == b
  {
    var x, y := Strings(a).items, Strings(b).items;
    assert |a| == |x| == |y| == |b|;
    forall i | 0 <= i < |a| ensures a[i] == b[i] {
      assert x[i] == Str(a[i]) && y[i] == Str(b[i]);
    }
  }

  lemma UnsignedMapInjective(a: Fields, b: Fields)
    requires UnsignedMap(a) == UnsignedMap(b)
    ensures a == b
  {
    var m, n := UnsignedMap(a), UnsignedMap(b);
    FieldsOfMap(a);
    FieldsOfMap(b);
    StringsInjective(a.capabilities, b.capabilities);
  }

  /** The eight signed members, key by key. */
  lemma FieldsOfMap(f: Fields)
    ensures var m := UnsignedMap(f);
            && m.Keys == {"capabilities", "expires_at", "issued_at", "issued_by", "nid", "pub_key", "scope", "serial"}
            && m["capabilities"] == Strings(f.capabilities) && m["expires_at"] == Str(f.expiresAt)
            && m["issued_at"] == Str(f.issuedAt) && m["issued_by"] == Str(f.issuedBy) && m["nid"] == Str(f.nid)
            && m["pub_key"] == Str(f.pubKey) && m["scope"] == f.scope && m["serial"] == Str(f.serial)
  {
    assert "issued_at"[7] == 'a' && "issued_by"[7] == 'b';
    assert "serial"[0] == 's' && "scope"[0] == 's' && |"serial"| != |"scope"|;
  }

  /** Signed bytes determine the certificate: equal bytes mean equal fields. */
  lemma SignedBytesDetermineFields(style: Style, a: Fields, b: Fields)
    requires Canonical(style, UnsignedMap(a)) == Canonical(style, UnsignedMap(b))
    ensures a == b
  {
    CanonicalInjective(style, UnsignedMap(a), UnsignedMap(b));
    UnsignedMapInjective(a, b);
  }

  lemma LeafTime(secs: nat, clock: nat)
    requires secs < TWO64
    ensures IsoToEpoch(FmtIso(secs)) == secs
    ensures SysToOffset(IsoToSystime(FmtIso(secs), clock)) == if secs < YEAR_10000 then secs else 0
  {
    FmtIsoRoundTrip(secs);
  }

  /** Clause by clause with the arcs written out: the identifier of the node role is 1.3.6.1.4.1.65715.1.2,
      that of the agent role 1.3.6.1.4.1.65715.1.1. */
  lemma LeafRole(entity: Entity)
    ensures Oid.ParseEku(Oid.BuildEku(EkuFor(entity))) ==
            Some(if entity.Node? then [1, 3, 6, 1, 4, 1, 65715, 1, 2] else [1, 3, 6, 1, 4, 1, 65715, 1, 1])
  {
    Oid.EkuRolesDistinct();
  }

  /** The leaf names the NID twice; it starts and ends when the frame says if that is before the year 10000,
      at the epoch otherwise; and its key usage names the role. */
  lemma LeafAgreesWithFrame(f: Fields, entity: Entity, clock: nat, now: nat, days: int)
    requires f.issuedAt == FmtIso(now) && f.expiresAt == FmtIso(ExpirySecs(now, days))
    requires now < TWO64
    ensures var leaf, expiry := LeafOf(f, entity, clock), ExpirySecs(now, days);
            && IsoToEpoch(f.issuedAt) == now && IsoToEpoch(f.expiresAt) == expiry
            && leaf.notBefore == (if now < YEAR_10000 then now else 0)
            && leaf.notAfter == (if expiry < YEAR_10000 then expiry else 0)
            && Oid.ParseEku(leaf.eku) ==
               Some(if entity.Node? then [1, 3, 6, 1, 4, 1, 65715, 1, 2] else [1, 3, 6, 1, 4, 1, 65715, 1, 1])
            && leaf.commonName == leaf.sanUri == f.nid
  {
    LeafTime(now, clock);
    LeafTime(ExpirySecs(now, days), clock);
    LeafRole(entity);
  }

  /** Two leaves carry the same usage exactly when both certify nodes or neither does. */
  lemma UsageTellsRole(f: Fields, g: Fields, d: Entity, e: Entity, s: nat, t: nat)
    ensures LeafOf(f, d, s).eku == LeafOf(g, e, t).eku <==> (d.Node? <==> e.Node?)
  {
    LeafRole(d);
    LeafRole(e);
    assert [1, 3, 6, 1, 4, 1, 65715, 1, 2][8] != [1, 3, 6, 1, 4, 1, 65715, 1, 1][8];
  }

  // ---------- what a frame carries ----------

  /** The members of both frames, key by key. */
  lemma FrameContents(sign: string -> string, style: Style, f: Fields, metadata: Option<Json>, leafText: string,
                      rootText: string)
    ensures var v1 := Frame(sign, style, f, metadata);
            && v1.Keys == UnsignedMap(f).Keys + {"signature"} + (if metadata.Some? then {"metadata"} else {})
            && (metadata.Some? ==> v1["metadata"] == metadata.value)
    ensures var v1 := Frame(sign, style, f, metadata);
            var v2 := V2Frame(v1, leafText, rootText);
            && v2.Keys == v1.Keys + {"cert_format", "cert_chain"}
            && v2["cert_format"] == Str("v2-x509")
            && v2["cert_chain"] == Arr([Str(leafText), Str(rootText)])
            && forall k :: k in v1 ==> v2[k] == v1[k]
  {
    SignedKeysDisjoint(f);
    OtherKeysDiffer();
    ChainOrder(leafText, rootText);
  }

  lemma OtherKeysDiffer()
    ensures "signature" != "metadata" && "signature" != "cert_format" && "signature" != "cert_chain"
    ensures "metadata" != "cert_format" && "metadata" != "cert_chain" && "cert_format" != "cert_chain"
  {
    assert |"signature"| == 9 && |"metadata"| == 8 && |"cert_format"| == 11 && |"cert_chain"| == 10;
  }

  lemma ChainOrder(leafText: string, rootText: string)
    ensures Strings([leafText, rootText]) == Arr([Str(leafText), Str(rootText)])
  {
    assert Strings([leafText, rootText]).items == [Str(leafText), Str(rootText)];
  }

  /** The leaf serial that Java reads out of the allocated text is the number that was printed. */
  lemma LeafSerialIsAllocatedNumber(mode: SerialRead, serials: seq<string>)
    ensures ParseSerial(Serial.NextSerial(mode, serials)) == Some(MaxRead(mode, serials) + 1)
  {
    ParseSerialInverts(MaxRead(mode, serials) + 1);
  }
}
