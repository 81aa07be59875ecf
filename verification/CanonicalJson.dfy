/** The bytes that are signed: an object printed with its keys in ascending order
    (`CanonicalJSON` in Go, `canonical_json` in Rust). */
module CanonicalJson {
  import opened Wrappers
  import opened Text
  import opened Json

  // ---------- ascending key lists ----------

  predicate Ascending(keys: seq<string>) {
    forall i, j :: 0 <= i < j < |keys| ==> LexLess(keys[i], keys[j])
  }

  function Elements(keys: seq<string>): set<string> {
    set k | k in keys
  }

  lemma InElements(keys: seq<string>)
    ensures forall k :: k in keys <==> k in Elements(keys)
    ensures keys == [] <==> Elements(keys) == {}
  {
    assert keys != [] ==> keys[0] in Elements(keys);
  }

  function InsertKey(k: string, keys: seq<string>): seq<string> {
    if keys == [] || LexLess(k, keys[0]) then [k] + keys else [keys[0]] + InsertKey(k, keys[1..])
  }

  /** `sort.Strings`. */
  function SortKeys(keys: seq<string>): seq<string> {
    if keys == [] then [] else InsertKey(keys[0], SortKeys(keys[1..]))
  }

  lemma {:induction false} InsertKeySorts(k: string, keys: seq<string>)
    requires Ascending(keys) && k !in keys
    ensures Ascending(InsertKey(k, keys))
    ensures forall x :: x in InsertKey(k, keys) <==> x == k || x in keys
  {
    if keys == [] {
    } else if LexLess(k, keys[0]) {
      forall j | 0 <= j < |keys| ensures LexLess(k, keys[j]) {
        if j > 0 { LexTransitive(k, keys[0], keys[j]); }
      }
    } else {
      LexTotal(k, keys[0]);
      InsertKeySorts(k, keys[1..]);
      var rest := InsertKey(k, keys[1..]);
      forall j | 0 <= j < |rest| ensures LexLess(keys[0], rest[j]) {
        assert rest[j] in rest;
      }
      assert forall x :: x in keys <==> x == keys[0] || x in keys[1..];
    }
  }

  predicate Distinct(keys: seq<string>) {
    forall i, j :: 0 <= i < j < |keys| ==> keys[i] != keys[j]
  }

  lemma {:induction false} SortKeysSorts(keys: seq<string>)
    requires Distinct(keys)
    ensures Ascending(SortKeys(keys)) && Elements(SortKeys(keys)) == Elements(keys)
  {
    if keys != [] {
      SortKeysSorts(keys[1..]);
      assert keys[0] !in keys[1..];
      assert keys[0] !in SortKeys(keys[1..]) by {
        assert keys[0] !in Elements(SortKeys(keys[1..]));
      }
      InsertKeySorts(keys[0], SortKeys(keys[1..]));
      forall x ensures x in Elements(SortKeys(keys)) <==> x in Elements(keys) {
        assert x in SortKeys(keys[1..]) <==> x in Elements(SortKeys(keys[1..]));
        assert x in keys <==> x == keys[0] || x in keys[1..];
      }
    }
  }

  /** A set of keys has one ascending enumeration. */
  lemma {:induction false} AscendingUnique(a: seq<string>, b: seq<string>)
    requires Ascending(a) && Ascending(b) && Elements(a) == Elements(b)
    ensures a == b
  {
    InElements(a);
    InElements(b);
    if a != [] {
      HeadIsLeast(a, b);
      HeadIsLeast(b, a);
      LexTotal(a[0], b[0]);
      if LexLess(a[0], b[0]) { LexAsymmetric(a[0], b[0]); }
      TailElements(a);
      TailElements(b);
      AscendingUnique(a[1..], b[1..]);
      assert a == [a[0]] + a[1..] && b == [b[0]] + b[1..];
    }
  }

  lemma HeadIsLeast(a: seq<string>, b: seq<string>)
    requires a != [] && b != [] && Ascending(a) && Elements(a) == Elements(b)
    ensures a[0] == b[0] || LexLess(a[0], b[0])
  {
    assert b[0] in Elements(b);
    var i :| 0 <= i < |a| && a[i] == b[0];
  }

  lemma TailElements(a: seq<string>)
    requires a != [] && Ascending(a)
    ensures Elements(a[1..]) == Elements(a) - {a[0]}
  {
    LexIrreflexive(a[0]);
    assert a == [a[0]] + a[1..];
  }

  // ---------- the canonical text ----------

  function MembersFor(obj: map<string, Json>, keys: seq<string>): (members: seq<Member>)
    requires forall k :: k in keys ==> k in obj
    ensures |members| == |keys|
    ensures forall i :: 0 <= i < |keys| ==> members[i] == Member(keys[i], obj[keys[i]])
  {
    seq(|keys|, i requires 0 <= i < |keys| => Member(keys[i], obj[keys[i]]))
  }

  ghost predicate Enumerates(keys: seq<string>, ks: set<string>) {
    Ascending(keys) && Elements(keys) == ks
  }

  lemma EnumerationExists(ks: set<string>)
    ensures exists keys :: Enumerates(keys, ks)
  {
    if ks == {} {
      assert Enumerates([], ks);
    } else {
      var k :| k in ks;
      EnumerationExists(ks - {k});
      var keys :| Enumerates(keys, ks - {k});
      InElements(keys);
      InsertKeySorts(k, keys);
      InElements(InsertKey(k, keys));
      assert Elements(InsertKey(k, keys)) == ks;
      assert Enumerates(InsertKey(k, keys), ks);
    }
  }

  ghost function SortedKeys(obj: map<string, Json>): (keys: seq<string>)
    ensures Enumerates(keys, obj.Keys)
    ensures forall k :: k in keys ==> k in obj
  {
    EnumerationExists(obj.Keys);
    var keys :| Enumerates(keys, obj.Keys);
    InElements(keys);
    keys
  }

  /** The signed text of an object: a function of the map alone. */
  ghost function Canonical(style: Style, obj: map<string, Json>): string {
    "{" + (PrintMembers(style, MembersFor(obj, SortedKeys(obj))) + "}")
  }

  /** The first `i` iterations of the printing loop. */
  function LoopText(style: Style, members: seq<Member>): string {
    if members == [] then ""
    else
      var last := |members| - 1;
      LoopText(style, members[..last]) + (if last > 0 then "," else "") + PrintMember(style, members[last])
  }

  lemma {:induction false} PrintMembersAppend(style: Style, members: seq<Member>, m: Member)
    ensures PrintMembers(style, members + [m]) ==
            (if members == [] then "" else PrintMembers(style, members) + ",") + PrintMember(style, m)
  {
    if members == [] {
      assert members + [m] == [m];
    } else {
      assert (members + [m])[1..] == members[1..] + [m];
      PrintMembersAppend(style, members[1..], m);
    }
  }

  lemma {:induction false} LoopTextPrints(style: Style, members: seq<Member>)
    ensures LoopText(style, members) == PrintMembers(style, members)
  {
    if members != [] {
      var last := |members| - 1;
      LoopTextPrints(style, members[..last]);
      PrintMembersAppend(style, members[..last], members[last]);
      assert members[..last] + [members[last]] == members;
    }
  }

  lemma DistinctAppend(keys: seq<string>, k: string)
    requires Distinct(keys) && k !in Elements(keys)
    ensures Distinct(keys + [k]) && Elements(keys + [k]) == Elements(keys) + {k}
  {
    InElements(keys);
  }

  /** `for k := range obj { keys = append(keys, k) }`: the keys in whatever order the map hands them out. */
  method CollectKeys(obj: map<string, Json>) returns (keys: seq<string>)
    ensures Distinct(keys) && Elements(keys) == obj.Keys
  {
    keys := [];
    var rest := obj.Keys;
    while rest != {}
      invariant Distinct(keys) && Elements(keys) !! rest && Elements(keys) + rest == obj.Keys
      decreases rest
    {
      var k :| k in rest;
      DistinctAppend(keys, k);
      keys := keys + [k];
      rest := rest - {k};
    }
  }

  lemma LoopStep(style: Style, members: seq<Member>, i: nat)
    requires i < |members|
    ensures LoopText(style, members[..i + 1]) ==
            LoopText(style, members[..i]) + (if i > 0 then "," else "") + PrintMember(style, members[i])
  {
    assert members[..i + 1][..i] == members[..i];
  }

  lemma LoopAppends(open: string, sofar: string, comma: string, key: string, value: string)
    ensures open + sofar + comma + key + ":" + value == open + (sofar + comma + (key + (":" + value)))
  {
  }

  lemma LoopEnds(style: Style, members: seq<Member>)
    ensures "{" + LoopText(style, members[..|members|]) + "}" == "{" + (PrintMembers(style, members) + "}")
  {
    assert members[..|members|] == members;
    LoopTextPrints(style, members);
  }

  /** `CanonicalJSON`: whatever order the keys come in, the result is the same. */
  method CanonicalJson(style: Style, obj: map<string, Json>) returns (buf: string)
    ensures buf == Canonical(style, obj)
  {
    var keys := CollectKeys(obj);
    SortKeysSorts(keys);
    keys := SortKeys(keys);
    AscendingUnique(keys, SortedKeys(obj));
    InElements(keys);
    ghost var members := MembersFor(obj, keys);
    buf := "{";
    for i := 0 to |keys|
      invariant buf == "{" + LoopText(style, members[..i])
    {
      LoopStep(style, members, i);
      LoopAppends("{", LoopText(style, members[..i]), if i > 0 then "," else "",
                  PrintString(style, keys[i]), Print(style, obj[keys[i]]));
      if i > 0 { buf := buf + ","; }
      buf := buf + PrintString(style, keys[i]);
      buf := buf + ":";
      buf := buf + Print(style, obj[keys[i]]);
    }
    buf := buf + "}";
    LoopEnds(style, members);
  }

  // ---------- the signed text determines the object ----------

  /** The map a JSON reader builds from the members it read. */
  function MapOf(members: seq<Member>): map<string, Json> {
    if members == [] then map[]
    else MapOf(members[..|members| - 1])[members[|members| - 1].key := members[|members| - 1].value]
  }

  function ReadObject(text: string): Option<map<string, Json>> {
    var v := ReadValue(text);
    if v.Some? && v.value.0.Obj? && v.value.1 == "" then Some(MapOf(v.value.0.members)) else None
  }

  lemma {:induction false} MapOfMembers(obj: map<string, Json>, keys: seq<string>)
    requires Ascending(keys) && forall k :: k in keys ==> k in obj
    ensures MapOf(MembersFor(obj, keys)).Keys == Elements(keys)
    ensures forall k :: k in keys ==> k in MapOf(MembersFor(obj, keys)) && MapOf(MembersFor(obj, keys))[k] == obj[k]
  {
    if keys != [] {
      var last := |keys| - 1;
      MapOfMembers(obj, keys[..last]);
      assert MembersFor(obj, keys)[..last] == MembersFor(obj, keys[..last]);
      assert keys == keys[..last] + [keys[last]];
    }
  }

  /** A JSON reader applied to the signed text recovers the object. */
  lemma CanonicalReads(style: Style, obj: map<string, Json>)
    ensures ReadObject(Canonical(style, obj)) == Some(obj)
  {
    var keys := SortedKeys(obj);
    var members := MembersFor(obj, keys);
    ValueReads(style, Obj(members), "");
    assert Print(style, Obj(members)) + "" == Canonical(style, obj);
    MapOfMembers(obj, keys);
    InElements(keys);
    assert MapOf(members) == obj;
  }

  function MemberKeys(members: seq<Member>): (keys: seq<string>) {
    seq(|members|, i requires 0 <= i < |members| => members[i].key)
  }

  /** The text carries each key exactly once, in strictly ascending order. */
  lemma CanonicalKeysAscend(style: Style, obj: map<string, Json>)
    ensures var r := ReadValue(Canonical(style, obj));
            && r.Some? && r.value.1 == "" && r.value.0.Obj?
            && Ascending(MemberKeys(r.value.0.members))
            && Elements(MemberKeys(r.value.0.members)) == obj.Keys
            && |r.value.0.members| == |obj.Keys|
  {
    var keys := SortedKeys(obj);
    var members := MembersFor(obj, keys);
    ValueReads(style, Obj(members), "");
    assert Print(style, Obj(members)) + "" == Canonical(style, obj);
    assert MemberKeys(members) == keys;
    AscendingSize(keys);
  }

  lemma {:induction false} AscendingSize(keys: seq<string>)
    requires Ascending(keys)
    ensures |Elements(keys)| == |keys|
  {
    if keys != [] {
      TailElements(keys);
      AscendingSize(keys[1..]);
      assert keys[0] in Elements(keys);
    }
  }

  /** Equal signed bytes mean equal objects. */
  lemma CanonicalInjective(style: Style, a: map<string, Json>, b: map<string, Json>)
    requires Canonical(style, a) == Canonical(style, b)
    ensures a == b
  {
    CanonicalReads(style, a);
    CanonicalReads(style, b);
  }
}
