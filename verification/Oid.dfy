/** Object identifiers and the extended-key-usage value of a leaf certificate: the encoder of the
    source, and a reader written from sections 8.1.3 and 8.19 of ITU-T X.690. */
module Oid {
  import opened Wrappers

  type byte = b: nat | b < 256

  // ---------- the encoder ----------

  /** Base-128 octets of `n`, each with its continuation bit set. */
  function Continued(n: nat): seq<byte> {
    if n < 128 then [n + 128] else Continued(n / 128) + [n % 128 + 128]
  }

  function Subidentifier(n: nat): seq<byte> {
    if n < 128 then [n] else Continued(n / 128) + [n % 128]
  }

  function EncodeArcs(arcs: seq<nat>): seq<byte> {
    if arcs == [] then [] else Subidentifier(arcs[0]) + EncodeArcs(arcs[1..])
  }

  /** What `encode_oid_content` returns; the first octet is truncated to eight bits. */
  function EncodeOid(oid: seq<nat>): seq<byte> {
    if |oid| < 2 then [] else [(oid[0] * 40 + oid[1]) % 256] + EncodeArcs(oid[2..])
  }

  function Reversed(s: seq<byte>): seq<byte> {
    if s == [] then [] else Reversed(s[1..]) + [s[0]]
  }

  function ContinuedOrNone(n: nat): seq<byte> {
    if n == 0 then [] else Continued(n)
  }

  lemma {:induction false} ReversedAppend(s: seq<byte>, b: byte)
    ensures Reversed(s + [b]) == [b] + Reversed(s)
  {
    if s == [] {
      assert s + [b] == [b] && [b][1..] == [];
    } else {
      assert (s + [b])[1..] == s[1..] + [b];
      ReversedAppend(s[1..], b);
    }
  }

  lemma EncodeArcsStep(first: seq<byte>, arcs: seq<nat>, i: nat)
    requires i < |arcs|
    ensures first + EncodeArcs(arcs[..i + 1]) == first + EncodeArcs(arcs[..i]) + Subidentifier(arcs[i])
  {
    EncodeArcsAppend(arcs[..i], arcs[i]);
    assert arcs[..i] + [arcs[i]] == arcs[..i + 1];
  }

  lemma {:induction false} EncodeArcsAppend(arcs: seq<nat>, n: nat)
    ensures EncodeArcs(arcs + [n]) == EncodeArcs(arcs) + Subidentifier(n)
  {
    if arcs == [] {
      assert arcs + [n] == [n] && [n][1..] == [];
      assert EncodeArcs([n]) == Subidentifier(n) + [];
    } else {
      assert (arcs + [n])[1..] == arcs[1..] + [n];
      EncodeArcsAppend(arcs[1..], n);
    }
  }

  lemma OctetStep(v: nat, bytes: seq<byte>)
    requires v > 0
    ensures ContinuedOrNone(v / 128) + Reversed(bytes + [v % 128 + 128]) == ContinuedOrNone(v) + Reversed(bytes)
  {
    ReversedAppend(bytes, v % 128 + 128);
    assert ContinuedOrNone(v) == ContinuedOrNone(v / 128) + [v % 128 + 128];
  }

  /** The digit loop of `encode_oid_content`: low-order octet first, then reversed. */
  method ArcOctets(n: nat) returns (octets: seq<byte>)
    ensures octets == Subidentifier(n)
  {
    if n < 128 {
      octets := [n];
    } else {
      var bytes: seq<byte> := [];
      var v := n;
      bytes := bytes + [v % 128];
      v := v / 128;
      assert Reversed(bytes) == [n % 128];
      while v > 0
        invariant ContinuedOrNone(v) + Reversed(bytes) == Subidentifier(n)
      {
        OctetStep(v, bytes);
        bytes := bytes + [v % 128 + 128];
        v := v / 128;
      }
      octets := Reversed(bytes);
    }
  }

  method EncodeOidContent(oid: seq<nat>) returns (out: seq<byte>)
    ensures out == EncodeOid(oid)
  {
    out := [];
    if |oid| < 2 { return; }
    out := out + [(oid[0] * 40 + oid[1]) % 256];
    ghost var first := out;
    var rest := oid[2..];
    for i := 0 to |rest|
      invariant out == first + EncodeArcs(rest[..i])
    {
      EncodeArcsStep(first, rest, i);
      var octets := ArcOctets(rest[i]);
      out := out + octets;
    }
    assert rest[..|rest|] == rest;
  }

  // ---------- the reader ----------

  function ReadArc(acc: nat, bs: seq<byte>): (r: Option<(nat, seq<byte>)>)
    ensures r.Some? ==> |r.value.1| < |bs|
    decreases |bs|
  {
    if bs == [] then None
    else if bs[0] < 128 then Some((acc * 128 + bs[0], bs[1..]))
    else ReadArc(acc * 128 + (bs[0] - 128), bs[1..])
  }

  /** One subidentifier; its leading octet must not be 0x80 (8.19.2). */
  function ReadSubidentifier(bs: seq<byte>): (r: Option<(nat, seq<byte>)>)
    ensures r.Some? ==> |r.value.1| < |bs|
  {
    if bs != [] && bs[0] == 0x80 then None else ReadArc(0, bs)
  }

  function ReadArcs(bs: seq<byte>): Option<seq<nat>>
    decreases |bs|
  {
    if bs == [] then Some([])
    else
      var head := ReadSubidentifier(bs);
      if head.None? then None
      else
        var tail := ReadArcs(head.value.1);
        if tail.None? then None else Some([head.value.0] + tail.value)
  }

  /** The first subidentifier holds the first two arcs as 40 * X + Y (8.19.4). */
  function DecodeOid(bs: seq<byte>): Option<seq<nat>> {
    var head := ReadSubidentifier(bs);
    if head.None? then None
    else
      var tail := ReadArcs(head.value.1);
      if tail.None? then None
      else
        var a := if head.value.0 < 80 then head.value.0 / 40 else 2;
        Some([a, head.value.0 - 40 * a] + tail.value)
  }

  // ---------- round trip ----------

  lemma {:induction false} ContinuedReads(n: nat, bs: seq<byte>)
    ensures ReadArc(0, Continued(n) + bs) == ReadArc(n, bs)
  {
    if n < 128 {
      assert ([n + 128] + bs)[1..] == bs;
    } else {
      var low: seq<byte> := [n % 128 + 128];
      assert Continued(n) + bs == Continued(n / 128) + (low + bs);
      ContinuedReads(n / 128, low + bs);
      assert (low + bs)[1..] == bs;
    }
  }

  lemma {:induction false} ContinuedLeads(n: nat)
    requires n > 0
    ensures Continued(n)[0] > 128
  {
    if n >= 128 { ContinuedLeads(n / 128); }
  }

  /** Every subidentifier is minimal and reads back. */
  lemma SubidentifierReads(n: nat, rest: seq<byte>)
    ensures Subidentifier(n) != [] && Subidentifier(n)[0] != 0x80
    ensures ReadSubidentifier(Subidentifier(n) + rest) == Some((n, rest))
  {
    if n < 128 {
      assert ([n] + rest)[1..] == rest;
    } else {
      var low: seq<byte> := [n % 128];
      assert Subidentifier(n) + rest == Continued(n / 128) + (low + rest);
      ContinuedReads(n / 128, low + rest);
      ContinuedLeads(n / 128);
      assert (low + rest)[1..] == rest;
    }
  }

  lemma {:induction false} ArcsRead(arcs: seq<nat>)
    ensures ReadArcs(EncodeArcs(arcs)) == Some(arcs)
  {
    if arcs != [] {
      SubidentifierReads(arcs[0], EncodeArcs(arcs[1..]));
      ArcsRead(arcs[1..]);
      assert arcs == [arcs[0]] + arcs[1..];
    }
  }

  /** The identifiers whose first two arcs fit the one octet that the encoder spends on them. */
  predicate Encodable(oid: seq<nat>) {
    && |oid| >= 2
    && oid[0] <= 2
    && (oid[0] < 2 ==> oid[1] < 40)
    && oid[0] * 40 + oid[1] < 128
  }

  /** Octets that end a subidentifier. */
  function Ends(bs: seq<byte>): nat {
    if bs == [] then 0 else (if bs[0] < 128 then 1 else 0) + Ends(bs[1..])
  }

  lemma {:induction false} ReadArcEnds(acc: nat, bs: seq<byte>)
    ensures ReadArc(acc, bs).Some? ==> Ends(bs) == 1 + Ends(ReadArc(acc, bs).value.1)
    decreases |bs|
  {
    if bs != [] && bs[0] >= 128 { ReadArcEnds(acc * 128 + (bs[0] - 128), bs[1..]); }
  }

  lemma {:induction false} ReadArcsEnds(bs: seq<byte>)
    ensures ReadArcs(bs).Some? ==> |ReadArcs(bs).value| == Ends(bs)
    decreases |bs|
  {
    if bs != [] {
      ReadArcEnds(0, bs);
      if ReadSubidentifier(bs).Some? { ReadArcsEnds(ReadSubidentifier(bs).value.1); }
    }
  }

  lemma {:induction false} EndsOfArcs(arcs: seq<nat>)
    ensures Ends(EncodeArcs(arcs)) == |arcs|
  {
    ArcsRead(arcs);
    ReadArcsEnds(EncodeArcs(arcs));
  }

  lemma OneOctetHead(v: byte, arcs: seq<nat>)
    requires v < 128
    ensures var a := if v < 80 then v / 40 else 2;
            DecodeOid([v] + EncodeArcs(arcs)) == Some([a, v - 40 * a] + arcs)
  {
    var tail := EncodeArcs(arcs);
    ArcsRead(arcs);
    assert ([v] + tail)[1..] == tail;
    assert ReadSubidentifier([v] + tail) == Some((v as nat, tail));
  }

  lemma TwoOctetHead(v: byte, arcs: seq<nat>)
    requires v >= 128
    ensures var r := DecodeOid([v] + EncodeArcs(arcs)); r.Some? ==> |r.value| == |arcs| + 1
  {
    EndsOfArcs(arcs);
    assert ([v] + EncodeArcs(arcs))[1..] == EncodeArcs(arcs);
    DecodeLength([v] + EncodeArcs(arcs));
  }

  lemma SameHead(oid: seq<nat>, a: nat, b: nat)
    requires |oid| >= 2
    ensures [a, b] + oid[2..] == oid <==> oid[0] == a && oid[1] == b
  {
    var other := [a, b] + oid[2..];
    assert other[0] == a && other[1] == b;
    assert oid == [oid[0], oid[1]] + oid[2..];
  }

  lemma ShortHeadRoundTrip(oid: seq<nat>, v: byte)
    requires |oid| >= 2 && v == (oid[0] * 40 + oid[1]) % 256 && v < 128
    ensures DecodeOid([v] + EncodeArcs(oid[2..])) == Some(oid) <==> Encodable(oid)
  {
    var a := if v < 80 then v / 40 else 2;
    OneOctetHead(v, oid[2..]);
    SameHead(oid, a, v - 40 * a);
    HeadArcs(oid[0], oid[1], v);
  }

  /** The two arcs that an octet below 128 stands for. */
  lemma HeadArcs(x: nat, y: nat, v: byte)
    requires v == (x * 40 + y) % 256 && v < 128
    ensures var a := if v < 80 then v / 40 else 2;
            (x == a && y == v - 40 * a) <==> (x <= 2 && (x < 2 ==> y < 40) && x * 40 + y < 128)
  {
  }

  /** The encoder is undone by the reader exactly for the encodable identifiers. */
  lemma OidRoundTrip(oid: seq<nat>)
    ensures DecodeOid(EncodeOid(oid)) == Some(oid) <==> Encodable(oid)
  {
    if |oid| >= 2 {
      var v: byte := (oid[0] * 40 + oid[1]) % 256;
      if v < 128 {
        ShortHeadRoundTrip(oid, v);
      } else {
        TwoOctetHead(v, oid[2..]);
      }
    }
  }

  lemma DecodeLength(bs: seq<byte>)
    ensures DecodeOid(bs).Some? ==> |DecodeOid(bs).value| == Ends(bs) + 1
  {
    ReadArcEnds(0, bs);
    if ReadSubidentifier(bs).Some? { ReadArcsEnds(ReadSubidentifier(bs).value.1); }
  }

  lemma OidInjective(a: seq<nat>, b: seq<nat>)
    requires Encodable(a) && Encodable(b) && EncodeOid(a) == EncodeOid(b)
    ensures a == b
  {
    OidRoundTrip(a);
    OidRoundTrip(b);
  }

  // ---------- octets determine the text of an identifier ----------

  lemma {:induction false} ReadArcInverts(acc: nat, bs: seq<byte>)
    requires ReadArc(acc, bs).Some? && (acc > 0 || bs[0] != 0x80)
    ensures var r := ReadArc(acc, bs).value;
            ContinuedOrNone(acc) + bs == Subidentifier(r.0) + r.1
    decreases |bs|
  {
    if bs[0] < 128 {
      assert bs == [bs[0]] + bs[1..];
      assert (acc * 128 + bs[0]) / 128 == acc && (acc * 128 + bs[0]) % 128 == bs[0];
    } else {
      var next := acc * 128 + (bs[0] - 128);
      ReadArcInverts(next, bs[1..]);
      assert next / 128 == acc && next % 128 == bs[0] - 128;
      assert ContinuedOrNone(next) == ContinuedOrNone(acc) + [bs[0]];
      assert ContinuedOrNone(acc) + bs == ContinuedOrNone(acc) + [bs[0]] + bs[1..];
    }
  }

  lemma {:induction false} ReadArcsInverts(bs: seq<byte>)
    requires ReadArcs(bs).Some?
    ensures EncodeArcs(ReadArcs(bs).value) == bs
    decreases |bs|
  {
    if bs != [] {
      ReadArcInverts(0, bs);
      var r := ReadSubidentifier(bs).value;
      ReadArcsInverts(r.1);
      var arcs := ReadArcs(bs).value;
      assert arcs[0] == r.0 && arcs[1..] == ReadArcs(r.1).value;
    }
  }

  /** No reading is shorter than the encoder's own output for the same identifier. */
  lemma EncodingShortest(bs: seq<byte>)
    requires DecodeOid(bs).Some?
    ensures |EncodeOid(DecodeOid(bs).value)| <= |bs|
  {
    var r := ReadSubidentifier(bs).value;
    ReadArcsInverts(r.1);
    var oid := DecodeOid(bs).value;
    assert oid[2..] == ReadArcs(r.1).value;
  }

  /** Octets whose first subidentifier is one octet long are what the encoder writes. */
  lemma DecodedReencodes(bs: seq<byte>)
    requires bs != [] && bs[0] < 128 && DecodeOid(bs).Some?
    ensures Encodable(DecodeOid(bs).value) && EncodeOid(DecodeOid(bs).value) == bs
  {
    var r := ReadSubidentifier(bs).value;
    ReadArcsInverts(r.1);
    var oid := DecodeOid(bs).value;
    assert oid[2..] == ReadArcs(r.1).value;
    assert bs == [bs[0]] + bs[1..];
  }

  // ---------- DER nesting ----------

  /** `build_eku_extension_value`: SEQUENCE { OBJECT IDENTIFIER }, each length in one octet. */
  function BuildEku(oid: seq<nat>): seq<byte> {
    var content := EncodeOid(oid);
    [0x30, (|content| + 2) % 256, 0x06, |content| % 256] + content
  }

  method BuildEkuExtensionValue(ekuOid: seq<nat>) returns (out: seq<byte>)
    ensures out == BuildEku(ekuOid)
  {
    var content := EncodeOidContent(ekuOid);
    var oidTlv: seq<byte> := [];
    oidTlv := oidTlv + [0x06];
    oidTlv := oidTlv + [|content| % 256];
    oidTlv := oidTlv + content;
    out := [];
    out := out + [0x30];
    out := out + [|oidTlv| % 256];
    out := out + oidTlv;
  }

  function BigEndian(bs: seq<byte>): nat {
    if bs == [] then 0 else 256 * BigEndian(bs[..|bs| - 1]) + bs[|bs| - 1]
  }

  /** A definite length, short or long form, in the fewest octets (8.1.3 and 10.1). */
  function ReadLength(bs: seq<byte>): (r: Option<(nat, seq<byte>)>)
    ensures r.Some? ==> |r.value.1| < |bs|
    ensures r.Some? && |r.value.1| == |bs| - 1 ==> r.value == (bs[0] as nat, bs[1..]) && bs[0] < 128
  {
    if bs == [] then None
    else if bs[0] < 128 then Some((bs[0] as nat, bs[1..]))
    else
      var k := bs[0] - 128;
      if k == 0 || k == 127 || |bs| < 1 + k || bs[1] == 0 || BigEndian(bs[1..1 + k]) < 128 then None
      else Some((BigEndian(bs[1..1 + k]), bs[1 + k..]))
  }

  /** The contents of one element that fills `bs` exactly. */
  function ReadWhole(tag: byte, bs: seq<byte>): (r: Option<seq<byte>>)
    ensures r.Some? ==> |r.value| + 2 <= |bs|
    ensures r.Some? && |r.value| + 2 == |bs| ==> bs[1] == |r.value| < 128 && r.value == bs[2..]
  {
    if bs == [] || bs[0] != tag then None
    else
      var length := ReadLength(bs[1..]);
      if length.None? || length.value.0 != |length.value.1| then None else Some(length.value.1)
  }

  function ParseEku(bs: seq<byte>): Option<seq<nat>> {
    var body := ReadWhole(0x30, bs);
    if body.None? then None
    else
      var content := ReadWhole(0x06, body.value);
      if content.None? then None else DecodeOid(content.value)
  }

  function InnerValue(content: seq<byte>): seq<byte> {
    [0x06, |content| % 256] + content
  }

  lemma EkuShape(oid: seq<nat>)
    ensures var content, bs := EncodeOid(oid), BuildEku(oid);
            && |bs| == |content| + 4 && bs[0] == 0x30 && bs[1] == (|content| + 2) % 256
            && bs[2..] == InnerValue(content) && InnerValue(content)[2..] == content
  {
  }

  /** An element whose length octet is its short-form length. */
  lemma ShortReads(tag: byte, bs: seq<byte>, content: seq<byte>)
    requires |bs| >= 2 && bs[0] == tag && bs[1] == |content| < 128 && bs[2..] == content
    ensures ReadWhole(tag, bs) == Some(content)
  {
    assert bs[1..][1..] == content;
  }

  lemma ShortEkuReads(oid: seq<nat>)
    requires |EncodeOid(oid)| <= 125
    ensures ParseEku(BuildEku(oid)) == DecodeOid(EncodeOid(oid))
  {
    var content := EncodeOid(oid);
    EkuShape(oid);
    ShortReads(0x30, BuildEku(oid), InnerValue(content));
    ShortReads(0x06, InnerValue(content), content);
  }

  /** A longer content does not leave room for the same identifier. */
  lemma LongEkuFails(oid: seq<nat>)
    requires |EncodeOid(oid)| > 125
    ensures ParseEku(BuildEku(oid)) != Some(oid)
  {
    if ParseEku(BuildEku(oid)) == Some(oid) {
      EkuShape(oid);
      var body := ReadWhole(0x30, BuildEku(oid)).value;
      var read := ReadWhole(0x06, body).value;
      EncodingShortest(read);
    }
  }

  /** The nested value reads back, every octet consumed, exactly while both lengths fit their octet. */
  lemma EkuRoundTrip(oid: seq<nat>)
    ensures ParseEku(BuildEku(oid)) == Some(oid) <==> Encodable(oid) && |EncodeOid(oid)| <= 125
  {
    OidRoundTrip(oid);
    if |EncodeOid(oid)| <= 125 {
      ShortEkuReads(oid);
    } else {
      LongEkuFails(oid);
    }
  }

  const EKU_AGENT: seq<nat> := [1, 3, 6, 1, 4, 1, 65715, 1, 1]
  const EKU_NODE: seq<nat> := [1, 3, 6, 1, 4, 1, 65715, 1, 2]

  lemma ThreeOctets(n: nat)
    requires n < 128 * 128 * 128
    ensures |Subidentifier(n)| <= 3
  {
    var high := n / 128;
    assert high / 128 < 128 && |Continued(high / 128)| == 1;
    assert high >= 128 ==> |Continued(high)| == 2;
  }

  lemma {:induction false} ArcsLength(arcs: seq<nat>)
    requires forall i :: 0 <= i < |arcs| ==> arcs[i] < 128 * 128 * 128
    ensures |EncodeArcs(arcs)| <= 3 * |arcs|
  {
    if arcs != [] {
      ThreeOctets(arcs[0]);
      ArcsLength(arcs[1..]);
    }
  }

  /** Both role identifiers survive, so a leaf's extended key usage tells an agent from a node. */
  lemma EkuRolesDistinct()
    ensures ParseEku(BuildEku(EKU_AGENT)) == Some(EKU_AGENT)
    ensures ParseEku(BuildEku(EKU_NODE)) == Some(EKU_NODE)
    ensures BuildEku(EKU_AGENT) != BuildEku(EKU_NODE)
  {
    ArcsLength(EKU_AGENT[2..]);
    ArcsLength(EKU_NODE[2..]);
    EkuRoundTrip(EKU_AGENT);
    EkuRoundTrip(EKU_NODE);
    assert EKU_AGENT[8] != EKU_NODE[8];
  }
}
