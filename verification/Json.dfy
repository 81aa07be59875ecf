/** JSON values, their compact printed form, and a parser for it (RFC 8259).
    A nested object is kept as the list of its members in ascending key order, which is the order
    both `serde_json::Map` and Go's `json.Marshal` print; numbers are integers. */
module Json {
  import opened Wrappers
  import opened Text
  import opened Serial

  datatype Json =
    | Null
    | Bool(b: bool)
    | Num(n: int)
    | Str(s: string)
    | Arr(items: seq<Json>)
    | Obj(members: seq<Member>)

  datatype Member = Member(key: string, value: Json)

  // ---------- strings ----------

  /** Go escapes `<`, `>`, `&` and the two Unicode line separators on top of what serde_json escapes. */
  datatype Style = Serde | Go

  /** Both printers write the four hexadecimal digits of an escape in lower case. */
  function LowerHexDigit(k: nat): (c: char)
    requires k < 16
    ensures IsHexDigit(c) && HexDigitValue(c) == k
  {
    if k < 10 then Digit(k) else 'a' + (k - 10) as char
  }

  function UnicodeEscape(c: char): string
    requires c as nat < 0x1_0000
  {
    var n := c as nat;
    "\\u" + [LowerHexDigit(n / 4096), LowerHexDigit(n / 256 % 16), LowerHexDigit(n / 16 % 16), LowerHexDigit(n % 16)]
  }

  function Escaped(style: Style, c: char): string {
    if c == '"' then "\\\""
    else if c == '\\' then "\\\\"
    else if c == '\n' then "\\n"
    else if c == '\r' then "\\r"
    else if c == '\t' then "\\t"
    else if c as nat == 8 then "\\b"
    else if c as nat == 12 then "\\f"
    else if c as nat < 32 then UnicodeEscape(c)
    else if style == Go && (c == '<' || c == '>' || c == '&' || c as nat == 0x2028 || c as nat == 0x2029) then
      UnicodeEscape(c)
    else [c]
  }

  function EscapedAll(style: Style, s: string): string {
    if s == "" then "" else Escaped(style, s[0]) + EscapedAll(style, s[1..])
  }

  function PrintString(style: Style, s: string): string {
    "\"" + EscapedAll(style, s) + "\""
  }

  /** One character of a string body, and what follows it. */
  function ReadChar(s: string): (r: Option<(char, string)>)
    ensures r.Some? ==> |r.value.1| < |s|
  {
    if s == "" || s[0] == '"' || s[0] as nat < 32 then None
    else if s[0] != '\\' then Some((s[0], s[1..]))
    else if |s| < 2 then None
    else
      var c, rest := s[1], s[2..];
      if c == '"' || c == '\\' || c == '/' then Some((c, rest))
      else if c == 'n' then Some(('\n', rest))
      else if c == 'r' then Some(('\r', rest))
      else if c == 't' then Some(('\t', rest))
      else if c == 'b' then Some((8 as char, rest))
      else if c == 'f' then Some((12 as char, rest))
      else if c == 'u' && |s| >= 6 && AllHexDigits(s[2..6]) then
        HexValueBound(s[2..6]);
        var code := HexValue(s[2..6]);
        if 0xD800 <= code < 0xE000 then None else Some((code as char, s[6..]))
      else None
  }

  function Pow16(k: nat): nat {
    if k == 0 then 1 else 16 * Pow16(k - 1)
  }

  lemma {:induction false} HexValueBelow(s: string)
    requires AllHexDigits(s)
    ensures HexValue(s) < Pow16(|s|)
  {
    if s != "" { HexValueBelow(s[..|s| - 1]); }
  }

  lemma HexValueBound(s: string)
    requires AllHexDigits(s) && |s| == 4
    ensures HexValue(s) < 0x1_0000
  {
    HexValueBelow(s);
    assert Pow16(4) == 16 * (16 * (16 * (16 * Pow16(0))));
  }

  /** A string body up to and including its closing quote. */
  function ReadString(s: string): (r: Option<(string, string)>)
    ensures r.Some? ==> |r.value.1| < |s|
    decreases |s|
  {
    if s != "" && s[0] == '"' then Some(("", s[1..]))
    else
      var head := ReadChar(s);
      if head.None? then None
      else
        var tail := ReadString(head.value.1);
        if tail.None? then None else Some(([head.value.0] + tail.value.0, tail.value.1))
  }

  lemma FourHexDigits(a: char, b: char, c: char, d: char)
    requires IsHexDigit(a) && IsHexDigit(b) && IsHexDigit(c) && IsHexDigit(d)
    ensures HexValue([a, b, c, d]) ==
            4096 * HexDigitValue(a) + 256 * HexDigitValue(b) + 16 * HexDigitValue(c) + HexDigitValue(d)
  {
    assert [a, b, c, d][..3] == [a, b, c] && [a, b, c][..2] == [a, b] && [a, b][..1] == [a] && [a][..0] == "";
    assert HexValue([a]) == HexDigitValue(a);
    assert HexValue([a, b]) == 16 * HexDigitValue(a) + HexDigitValue(b);
    assert HexValue([a, b, c]) == 256 * HexDigitValue(a) + 16 * HexDigitValue(b) + HexDigitValue(c);
  }

  lemma UnicodeEscapeReads(c: char, rest: string)
    requires c as nat < 0xD800
    ensures ReadChar(UnicodeEscape(c) + rest) == Some((c, rest))
  {
    var n := c as nat;
    var s := UnicodeEscape(c) + rest;
    FourHexDigits(s[2], s[3], s[4], s[5]);
    assert s[2..6] == [s[2], s[3], s[4], s[5]] && s[6..] == rest;
    FourDigitSum(n);
  }

  lemma FourDigitSum(n: nat)
    requires n < 0x1_0000
    ensures 4096 * (n / 4096) + 256 * (n / 256 % 16) + 16 * (n / 16 % 16) + n % 16 == n
  {
    assert n / 16 / 16 == n / 256 && n / 256 / 16 == n / 4096;
  }

  /** Exactly the quotation mark, the backslash, the control characters, and in Go's style five more are
      escaped; seven of them in the two-character form, the others as four lower-case hexadecimal digits. */
  lemma EscapedForm(style: Style, c: char)
    ensures var e := Escaped(style, c);
            var named := c in {'"', '\\', '\n', '\r', '\t'} || c as nat == 8 || c as nat == 12;
            var extra := style == Go && (c in {'<', '>', '&'} || c as nat == 0x2028 || c as nat == 0x2029);
            if named then |e| == 2 && e[0] == '\\'
            else if c as nat < 32 || extra then
              |e| == 6 && e[..2] == "\\u" && forall i :: 2 <= i < 6 ==> '0' <= e[i] <= '9' || 'a' <= e[i] <= 'f'
            else e == [c]
  {
  }

  lemma EscapedReads(style: Style, c: char, rest: string)
    ensures ReadChar(Escaped(style, c) + rest) == Some((c, rest))
    ensures Escaped(style, c) != "" && Escaped(style, c)[0] != '"'
  {
    var e := Escaped(style, c);
    if e == [c] {
      assert ([c] + rest)[1..] == rest;
    } else if |e| == 2 {
      assert (e + rest)[2..] == rest;
    } else {
      UnicodeEscapeReads(c, rest);
    }
  }

  lemma {:induction false} StringReads(style: Style, s: string, rest: string)
    ensures ReadString(EscapedAll(style, s) + "\"" + rest) == Some((s, rest))
  {
    if s == "" {
      assert EscapedAll(style, s) + "\"" + rest == "\"" + rest;
      assert ("\"" + rest)[1..] == rest;
    } else {
      var e, more := Escaped(style, s[0]), EscapedAll(style, s[1..]) + "\"" + rest;
      assert EscapedAll(style, s) + "\"" + rest == e + more;
      EscapedReads(style, s[0], more);
      StringReads(style, s[1..], rest);
      assert s == [s[0]] + s[1..];
    }
  }

  // ---------- values ----------

  function PrintInt(n: int): string {
    if n < 0 then "-" + Padded(-n, 1) else Padded(n, 1)
  }

  function Print(style: Style, v: Json): string
    decreases v, 1
  {
    match v
    case Null => "null"
    case Bool(b) => if b then "true" else "false"
    case Num(n) => PrintInt(n)
    case Str(s) => PrintString(style, s)
    case Arr(items) => "[" + (PrintItems(style, items) + "]")
    case Obj(members) => "{" + (PrintMembers(style, members) + "}")
  }

  function PrintItems(style: Style, items: seq<Json>): string
    decreases items, 0
  {
    if items == [] then ""
    else Print(style, items[0]) + (if |items| == 1 then "" else "," + PrintItems(style, items[1..]))
  }

  /** `"key":value`. */
  function PrintMember(style: Style, m: Member): string
    decreases m, 2
  {
    PrintString(style, m.key) + (":" + Print(style, m.value))
  }

  function PrintMembers(style: Style, members: seq<Member>): string
    decreases members, 0
  {
    if members == [] then ""
    else PrintMember(style, members[0]) + (if |members| == 1 then "" else "," + PrintMembers(style, members[1..]))
  }

  type Parsed<T> = Option<(T, string)>

  predicate StartsWith(s: string, prefix: string) {
    |s| >= |prefix| && s[..|prefix|] == prefix
  }

  function ReadDigits(s: string): (r: Parsed<nat>)
    ensures r.Some? ==> |r.value.1| < |s|
  {
    var digits := LeadingDigits(s);
    LeadingDigitsWithin(s);
    if digits == "" then None else Some((DigitsValue(digits), s[|digits|..]))
  }

  function ReadNumber(s: string): (r: Parsed<Json>)
    ensures r.Some? ==> |r.value.1| < |s|
  {
    var negative := s != "" && s[0] == '-';
    var r := ReadDigits(if negative then s[1..] else s);
    if r.None? then None
    else
      var n: int := r.value.0;
      Some((Num(if negative then -n else n), r.value.1))
  }

  lemma {:induction false} LeadingDigitsWithin(s: string)
    ensures |LeadingDigits(s)| <= |s|
  {
    if s != "" { LeadingDigitsWithin(s[1..]); }
  }

  function ReadValue(s: string): (r: Parsed<Json>)
    ensures r.Some? ==> |r.value.1| < |s|
    decreases |s|, 0
  {
    if s == "" then None
    else if s[0] == '"' then
      var r := ReadString(s[1..]);
      if r.None? then None else Some((Str(r.value.0), r.value.1))
    else if s[0] == '[' then
      if |s| >= 2 && s[1] == ']' then Some((Arr([]), s[2..]))
      else
        var r := ReadItems(s[1..]);
        if r.None? then None else Some((Arr(r.value.0), r.value.1))
    else if s[0] == '{' then
      if |s| >= 2 && s[1] == '}' then Some((Obj([]), s[2..]))
      else
        var r := ReadMembers(s[1..]);
        if r.None? then None else Some((Obj(r.value.0), r.value.1))
    else if StartsWith(s, "null") then Some((Null, s[4..]))
    else if StartsWith(s, "true") then Some((Bool(true), s[4..]))
    else if StartsWith(s, "false") then Some((Bool(false), s[5..]))
    else ReadNumber(s)
  }

  /** One or more comma-separated values and the closing bracket. */
  function ReadItems(s: string): (r: Parsed<seq<Json>>)
    ensures r.Some? ==> |r.value.1| < |s|
    decreases |s|, 1
  {
    var head := ReadValue(s);
    if head.None? || head.value.1 == "" then None
    else
      var rest := head.value.1;
      if rest[0] == ']' then Some(([head.value.0], rest[1..]))
      else if rest[0] != ',' then None
      else
        var tail := ReadItems(rest[1..]);
        if tail.None? then None else Some(([head.value.0] + tail.value.0, tail.value.1))
  }

  function ReadMember(s: string): (r: Parsed<Member>)
    ensures r.Some? ==> |r.value.1| < |s|
    decreases |s|, 1
  {
    if s == "" || s[0] != '"' then None
    else
      var key := ReadString(s[1..]);
      if key.None? || key.value.1 == "" || key.value.1[0] != ':' then None
      else
        var value := ReadValue(key.value.1[1..]);
        if value.None? then None else Some((Member(key.value.0, value.value.0), value.value.1))
  }

  /** One or more comma-separated members and the closing brace. */
  function ReadMembers(s: string): (r: Parsed<seq<Member>>)
    ensures r.Some? ==> |r.value.1| < |s|
    decreases |s|, 2
  {
    var head := ReadMember(s);
    if head.None? || head.value.1 == "" then None
    else
      var rest := head.value.1;
      if rest[0] == '}' then Some(([head.value.0], rest[1..]))
      else if rest[0] != ',' then None
      else
        var tail := ReadMembers(rest[1..]);
        if tail.None? then None else Some(([head.value.0] + tail.value.0, tail.value.1))
  }

  // ---------- the parser undoes the printer ----------

  /** Text that cannot continue a number. */
  predicate EndsNumber(rest: string) {
    rest == "" || !IsDigit(rest[0])
  }

  lemma {:induction false} LeadingDigitsStop(digits: string, rest: string)
    requires AllDigits(digits) && EndsNumber(rest)
    ensures LeadingDigits(digits + rest) == digits
  {
    if digits == "" {
      assert digits + rest == rest;
    } else {
      assert (digits + rest)[1..] == digits[1..] + rest;
      LeadingDigitsStop(digits[1..], rest);
      assert digits == [digits[0]] + digits[1..];
    }
  }

  lemma DigitsRead(k: nat, rest: string)
    requires EndsNumber(rest)
    ensures Padded(k, 1) != "" && IsDigit(Padded(k, 1)[0])
    ensures ReadDigits(Padded(k, 1) + rest) == Some((k, rest))
  {
    PaddedReads(k, 1);
    LeadingDigitsStop(Padded(k, 1), rest);
  }

  lemma NumberReads(n: int, rest: string)
    requires EndsNumber(rest)
    ensures PrintInt(n) != "" && (PrintInt(n)[0] == '-' || IsDigit(PrintInt(n)[0]))
    ensures ReadNumber(PrintInt(n) + rest) == Some((Num(n), rest))
  {
    var k := if n < 0 then -n else n;
    var digits := Padded(k, 1);
    DigitsRead(k, rest);
    if n < 0 {
      SignedReads(digits, k, rest);
    } else {
      assert (digits + rest)[0] == digits[0];
    }
  }

  /** No superfluous zero, and no sign but a leading minus (RFC 8259, section 6). */
  lemma PrintIntForm(n: int)
    ensures var text := PrintInt(n);
            var digits := if n < 0 then text[1..] else text;
            && (n < 0 ==> text[0] == '-')
            && AllDigits(digits) && digits != "" && DigitsValue(digits) == (if n < 0 then -n else n)
            && (digits[0] == '0' ==> text == "0")
  {
    var k := if n < 0 then -n else n;
    PaddedForm(k, 1);
    PaddedReads(k, 1);
    if |Padded(k, 1)| == 1 {
      assert Padded(k, 1) == [Padded(k, 1)[0]];
      OneDigit(Padded(k, 1)[0]);
    }
  }

  lemma SignedReads(digits: string, k: nat, rest: string)
    requires ReadDigits(digits + rest) == Some((k, rest))
    ensures ReadNumber("-" + digits + rest) == Some((Num(0 - k), rest))
  {
    assert ("-" + digits + rest)[1..] == digits + rest;
  }

  lemma PrintStarts(style: Style, v: Json)
    ensures Print(style, v) != "" && Print(style, v)[0] != ']' && Print(style, v)[0] != '}'
    ensures !v.Str? ==> Print(style, v)[0] != '"'
  {
    if v.Num? { NumberReads(v.n, ""); }
  }

  lemma LiteralReads(word: string, rest: string)
    requires word in {"null", "true", "false"}
    ensures ReadValue(word + rest) == Some((if word == "null" then Null else Bool(word == "true"), rest))
  {
    var s := word + rest;
    assert s[0] == word[0] && s[..|word|] == word && s[|word|..] == rest;
    if word == "null" {
      assert StartsWith(s, "null");
    } else if word == "true" {
      assert !StartsWith(s, "null") && StartsWith(s, "true");
    } else {
      assert !StartsWith(s, "null") && !StartsWith(s, "true") && StartsWith(s, "false");
    }
  }

  lemma NumberValueReads(n: int, rest: string)
    requires EndsNumber(rest)
    ensures ReadValue(PrintInt(n) + rest) == Some((Num(n), rest))
  {
    NumberReads(n, rest);
    var s := PrintInt(n) + rest;
    assert s[0] == PrintInt(n)[0];
    HeadDiffers(s, "null");
    HeadDiffers(s, "true");
    HeadDiffers(s, "false");
  }

  lemma HeadDiffers(s: string, prefix: string)
    requires s != "" && prefix != "" && s[0] != prefix[0]
    ensures !StartsWith(s, prefix)
  {
  }

  lemma TextValueReads(style: Style, t: string, rest: string)
    ensures ReadValue(PrintString(style, t) + rest) == Some((Str(t), rest))
  {
    assert (PrintString(style, t) + rest)[1..] == EscapedAll(style, t) + "\"" + rest;
    StringReads(style, t, rest);
  }

  lemma ArrayReads(body: string, items: seq<Json>, rest: string)
    requires body != "" && body[0] != ']' && ReadItems(body) == Some((items, rest))
    ensures ReadValue("[" + body) == Some((Arr(items), rest))
  {
    assert ("[" + body)[1..] == body && ("[" + body)[1] == body[0];
  }

  lemma ObjectReads(body: string, members: seq<Member>, rest: string)
    requires body != "" && body[0] != '}' && ReadMembers(body) == Some((members, rest))
    ensures ReadValue("{" + body) == Some((Obj(members), rest))
  {
    assert ("{" + body)[1..] == body && ("{" + body)[1] == body[0];
  }

  lemma EmptyReads(rest: string)
    ensures ReadValue("[" + ("]" + rest)) == Some((Arr([]), rest))
    ensures ReadValue("{" + ("}" + rest)) == Some((Obj([]), rest))
  {
    assert ("[" + ("]" + rest))[2..] == rest && ("{" + ("}" + rest))[2..] == rest;
  }

  lemma {:induction false} ValueReads(style: Style, v: Json, rest: string)
    requires EndsNumber(rest)
    ensures ReadValue(Print(style, v) + rest) == Some((v, rest))
    decreases v, 1
  {
    match v {
      case Null => LiteralReads("null", rest);
      case Bool(b) => LiteralReads(if b then "true" else "false", rest);
      case Num(n) => NumberValueReads(n, rest);
      case Str(t) => TextValueReads(style, t, rest);
      case Arr(items) => ArrayValueReads(style, items, rest);
      case Obj(members) => ObjectValueReads(style, members, rest);
    }
  }

  lemma {:induction false} ArrayValueReads(style: Style, items: seq<Json>, rest: string)
    ensures ReadValue("[" + (PrintItems(style, items) + "]") + rest) == Some((Arr(items), rest))
    decreases items, 3
  {
    var body := PrintItems(style, items) + ("]" + rest);
    assert "[" + (PrintItems(style, items) + "]") + rest == "[" + body;
    if items == [] {
      EmptyReads(rest);
      assert body == "]" + rest;
    } else {
      ItemsRead(style, items, rest);
      PrintStarts(style, items[0]);
      ArrayReads(body, items, rest);
    }
  }

  lemma {:induction false} ObjectValueReads(style: Style, members: seq<Member>, rest: string)
    ensures ReadValue("{" + (PrintMembers(style, members) + "}") + rest) == Some((Obj(members), rest))
    decreases members, 3
  {
    var body := PrintMembers(style, members) + ("}" + rest);
    assert "{" + (PrintMembers(style, members) + "}") + rest == "{" + body;
    if members == [] {
      EmptyReads(rest);
      assert body == "}" + rest;
    } else {
      MembersRead(style, members, rest);
      ObjectReads(body, members, rest);
    }
  }

  lemma ItemsLast(text: string, v: Json, rest: string)
    requires ReadValue(text) == Some((v, "]" + rest))
    ensures ReadItems(text) == Some(([v], rest))
  {
    assert ("]" + rest)[1..] == rest;
  }

  lemma ItemsMore(text: string, v: Json, more: string, items: seq<Json>, rest: string)
    requires ReadValue(text) == Some((v, "," + more)) && ReadItems(more) == Some((items, rest))
    ensures ReadItems(text) == Some(([v] + items, rest))
  {
    assert ("," + more)[1..] == more;
  }

  lemma CommaAssociates(a: string, b: string, c: string)
    ensures a + ("," + b) + c == a + ("," + (b + c))
  {
  }

  lemma OneItemReads(style: Style, v: Json, rest: string)
    requires ReadValue(Print(style, v) + ("]" + rest)) == Some((v, "]" + rest))
    ensures ReadItems(PrintItems(style, [v]) + ("]" + rest)) == Some(([v], rest))
  {
    assert PrintItems(style, [v]) == Print(style, v);
    ItemsLast(Print(style, v) + ("]" + rest), v, rest);
  }

  lemma MoreItemsRead(style: Style, items: seq<Json>, more: string, rest: string)
    requires |items| > 1 && more == PrintItems(style, items[1..]) + ("]" + rest)
    requires ReadValue(Print(style, items[0]) + ("," + more)) == Some((items[0], "," + more))
    requires ReadItems(more) == Some((items[1..], rest))
    ensures ReadItems(PrintItems(style, items) + ("]" + rest)) == Some((items, rest))
  {
    CommaAssociates(Print(style, items[0]), PrintItems(style, items[1..]), "]" + rest);
    ItemsMore(Print(style, items[0]) + ("," + more), items[0], more, items[1..], rest);
    assert items == [items[0]] + items[1..];
  }

  lemma {:induction false} ItemsRead(style: Style, items: seq<Json>, rest: string)
    requires items != []
    ensures ReadItems(PrintItems(style, items) + ("]" + rest)) == Some((items, rest))
    decreases items, 2
  {
    if |items| == 1 {
      assert items == [items[0]];
      ValueReads(style, items[0], "]" + rest);
      OneItemReads(style, items[0], rest);
    } else {
      var more := PrintItems(style, items[1..]) + ("]" + rest);
      ItemsRead(style, items[1..], rest);
      ValueReads(style, items[0], "," + more);
      MoreItemsRead(style, items, more, rest);
    }
  }

  lemma Requoted(e: string, t: string, rest: string)
    ensures var s := ("\"" + e + "\"") + (":" + t) + rest;
            s[0] == '"' && s[1..] == e + "\"" + (":" + (t + rest))
  {
  }

  lemma ColonValue(s: string, key: string, text: string, v: Json, rest: string)
    requires s != "" && s[0] == '"' && ReadString(s[1..]) == Some((key, ":" + text))
    requires ReadValue(text) == Some((v, rest))
    ensures ReadMember(s) == Some((Member(key, v), rest))
  {
    assert (":" + text)[1..] == text;
  }

  lemma {:induction false} MemberReads(style: Style, m: Member, rest: string)
    requires EndsNumber(rest)
    ensures ReadMember(PrintMember(style, m) + rest) == Some((m, rest))
    decreases m, 2
  {
    Requoted(EscapedAll(style, m.key), Print(style, m.value), rest);
    var text := Print(style, m.value) + rest;
    StringReads(style, m.key, ":" + text);
    ValueReads(style, m.value, rest);
    ColonValue(PrintMember(style, m) + rest, m.key, text, m.value, rest);
  }

  lemma MembersLast(text: string, m: Member, rest: string)
    requires ReadMember(text) == Some((m, "}" + rest))
    ensures ReadMembers(text) == Some(([m], rest))
  {
    assert ("}" + rest)[1..] == rest;
  }

  lemma MembersMore(text: string, m: Member, more: string, members: seq<Member>, rest: string)
    requires ReadMember(text) == Some((m, "," + more)) && ReadMembers(more) == Some((members, rest))
    ensures ReadMembers(text) == Some(([m] + members, rest))
  {
    assert ("," + more)[1..] == more;
  }

  lemma OneMemberReads(style: Style, m: Member, rest: string)
    requires ReadMember(PrintMember(style, m) + ("}" + rest)) == Some((m, "}" + rest))
    ensures ReadMembers(PrintMembers(style, [m]) + ("}" + rest)) == Some(([m], rest))
  {
    assert PrintMembers(style, [m]) == PrintMember(style, m);
    MembersLast(PrintMember(style, m) + ("}" + rest), m, rest);
  }

  lemma MoreMembersRead(style: Style, members: seq<Member>, more: string, rest: string)
    requires |members| > 1 && more == PrintMembers(style, members[1..]) + ("}" + rest)
    requires ReadMember(PrintMember(style, members[0]) + ("," + more)) == Some((members[0], "," + more))
    requires ReadMembers(more) == Some((members[1..], rest))
    ensures ReadMembers(PrintMembers(style, members) + ("}" + rest)) == Some((members, rest))
  {
    CommaAssociates(PrintMember(style, members[0]), PrintMembers(style, members[1..]), "}" + rest);
    MembersMore(PrintMember(style, members[0]) + ("," + more), members[0], more, members[1..], rest);
    assert members == [members[0]] + members[1..];
  }

  lemma {:induction false} MembersRead(style: Style, members: seq<Member>, rest: string)
    requires members != []
    ensures ReadMembers(PrintMembers(style, members) + ("}" + rest)) == Some((members, rest))
    decreases members, 2
  {
    if |members| == 1 {
      assert members == [members[0]];
      MemberReads(style, members[0], "}" + rest);
      OneMemberReads(style, members[0], rest);
    } else {
      var more := PrintMembers(style, members[1..]) + ("}" + rest);
      MembersRead(style, members[1..], rest);
      MemberReads(style, members[0], "," + more);
      MoreMembersRead(style, members, more, rest);
    }
  }
}
