/** Text as the server handles it: byte order of strings, zero-padded decimal and hexadecimal
    numbers, integer parsing, and splitting at separators. */
module Text {
  import opened Wrappers

  // ---------- order ----------

  /** The order of SQLite's BINARY collation, of Go's `sort.Strings` and of `BTreeMap<String, _>`.
      All three compare UTF-8 bytes, which is the same as comparing code points. */
  predicate LexLess(a: string, b: string) {
    if b == "" then false
    else if a == "" then true
    else a[0] < b[0] || (a[0] == b[0] && LexLess(a[1..], b[1..]))
  }

  lemma {:induction false} LexIrreflexive(a: string)
    ensures !LexLess(a, a)
  {
    if a != "" { LexIrreflexive(a[1..]); }
  }

  lemma {:induction false} LexTransitive(a: string, b: string, c: string)
    requires LexLess(a, b) && LexLess(b, c)
    ensures LexLess(a, c)
  {
    if a != "" && a[0] == b[0] == c[0] {
      LexTransitive(a[1..], b[1..], c[1..]);
    }
  }

  lemma {:induction false} LexTotal(a: string, b: string)
    ensures LexLess(a, b) || LexLess(b, a) || a == b
  {
    if a != "" && b != "" && a[0] == b[0] {
      LexTotal(a[1..], b[1..]);
      assert a == [a[0]] + a[1..] && b == [b[0]] + b[1..];
    }
  }

  lemma LexAsymmetric(a: string, b: string)
    requires LexLess(a, b)
    ensures !LexLess(b, a) && a != b
  {
    LexIrreflexive(a);
    if LexLess(b, a) { LexTransitive(a, b, a); }
  }

  /** Texts that open with fields of equal width compare field by field. */
  lemma {:induction false} LexFieldwise(a: string, b: string, x: string, y: string)
    requires |a| == |b|
    ensures LexLess(a + x, b + y) <==> LexLess(a, b) || (a == b && LexLess(x, y))
  {
    if a == "" {
      assert a + x == x && b + y == y;
    } else {
      assert (a + x)[1..] == a[1..] + x && (b + y)[1..] == b[1..] + y;
      LexFieldwise(a[1..], b[1..], x, y);
      assert a == b <==> (a[0] == b[0] && a[1..] == b[1..]) by {
        assert a == [a[0]] + a[1..] && b == [b[0]] + b[1..];
      }
    }
  }

  // ---------- decimal ----------

  function Digit(k: nat): char
    requires k < 10
  {
    '0' + k as char
  }

  predicate IsDigit(c: char) {
    '0' <= c <= '9'
  }

  function DigitValue(c: char): nat
    requires IsDigit(c)
  {
    c as nat - '0' as nat
  }

  predicate AllDigits(s: string) {
    forall i :: 0 <= i < |s| ==> IsDigit(s[i])
  }

  /** `{:0w}` of an unsigned number: at least `w` digits, zero-padded. */
  function Padded(n: nat, w: nat): string
    decreases n + w
  {
    if n < 10 && w <= 1 then [Digit(n)]
    else Padded(n / 10, if w == 0 then 0 else w - 1) + [Digit(n % 10)]
  }

  function DigitsValue(s: string): nat
    requires AllDigits(s)
  {
    if s == "" then 0 else 10 * DigitsValue(s[..|s| - 1]) + DigitValue(s[|s| - 1])
  }

  lemma {:induction false} PaddedReads(n: nat, w: nat)
    ensures AllDigits(Padded(n, w)) && Padded(n, w) != "" && DigitsValue(Padded(n, w)) == n
    decreases n + w
  {
    if n >= 10 || w > 1 {
      var s := Padded(n / 10, if w == 0 then 0 else w - 1);
      PaddedReads(n / 10, if w == 0 then 0 else w - 1);
      assert (s + [Digit(n % 10)])[..|s|] == s;
    } else {
      assert [Digit(n)][..0] == "";
    }
  }

  function Pow10(w: nat): nat {
    if w == 0 then 1 else 10 * Pow10(w - 1)
  }

  lemma {:induction false} PaddedWidth(n: nat, w: nat)
    requires 1 <= w && n < Pow10(w)
    ensures |Padded(n, w)| == w
  {
    if w > 1 { PaddedWidth(n / 10, w - 1); }
  }

  lemma OneDigit(c: char)
    requires IsDigit(c)
    ensures AllDigits([c]) && DigitsValue([c]) == DigitValue(c)
  {
    assert [c][..0] == "";
  }

  /** No more digits than the width asks for, unless the number needs them all. */
  lemma {:induction false} PaddedForm(n: nat, w: nat)
    ensures |Padded(n, w)| >= 1 && |Padded(n, w)| >= w
    ensures |Padded(n, w)| > w && |Padded(n, w)| > 1 ==> Padded(n, w)[0] != '0'
    decreases n + w
  {
    if n >= 10 || w > 1 {
      var v := if w == 0 then 0 else w - 1;
      var high := Padded(n / 10, v);
      PaddedForm(n / 10, v);
      PaddedReads(n / 10, v);
      if |high| == 1 {
        assert high == [high[0]];
        OneDigit(high[0]);
      }
    }
  }

  lemma PaddedInjective(m: nat, n: nat, w: nat)
    ensures Padded(m, w) == Padded(n, w) <==> m == n
  {
    PaddedReads(m, w);
    PaddedReads(n, w);
  }

  /** Among numbers that fit the width, text order is numeric order. */
  lemma {:induction false} PaddedOrder(m: nat, n: nat, w: nat)
    requires 1 <= w && m < Pow10(w) && n < Pow10(w)
    ensures LexLess(Padded(m, w), Padded(n, w)) <==> m < n
  {
    if w == 1 {
      assert Padded(m, w) == [Digit(m)] && Padded(n, w) == [Digit(n)];
      DigitOrder(m, n);
    } else {
      PaddedOrder(m / 10, n / 10, w - 1);
      PaddedInjective(m / 10, n / 10, w - 1);
      PaddedWidth(m / 10, w - 1);
      PaddedWidth(n / 10, w - 1);
      LexFieldwise(Padded(m / 10, w - 1), Padded(n / 10, w - 1), [Digit(m % 10)], [Digit(n % 10)]);
      DigitOrder(m % 10, n % 10);
    }
  }

  lemma DigitOrder(j: nat, k: nat)
    requires j < 10 && k < 10
    ensures LexLess([Digit(j)], [Digit(k)]) <==> j < k
  {
    LexIrreflexive("");
  }

  /** Rust's `str::parse::<u64>`: an optional `+`, then digits only, and the value must fit. */
  function ParseU64(s: string): Option<nat> {
    var digits := if |s| > 0 && s[0] == '+' then s[1..] else s;
    if digits == "" || !AllDigits(digits) || DigitsValue(digits) >= 0x1_0000_0000_0000_0000 then None
    else Some(DigitsValue(digits))
  }

  lemma PaddedParses(n: nat, w: nat)
    requires n < 0x1_0000_0000_0000_0000
    ensures ParseU64(Padded(n, w)) == Some(n)
  {
    PaddedReads(n, w);
  }

  // ---------- splitting ----------

  predicate IsSeparator(c: char) {
    c == 'T' || c == '-' || c == ':'
  }

  predicate NoSeparator(s: string) {
    forall i :: 0 <= i < |s| ==> !IsSeparator(s[i])
  }

  /** `split(['T', '-', ':'])`. */
  function Split(s: string): (parts: seq<string>)
    ensures |parts| >= 1
  {
    if s == "" then [""]
    else if IsSeparator(s[0]) then [""] + Split(s[1..])
    else var rest := Split(s[1..]); [[s[0]] + rest[0]] + rest[1..]
  }

  lemma {:induction false} SplitField(a: string, c: char, rest: string)
    requires NoSeparator(a) && IsSeparator(c)
    ensures Split(a + [c] + rest) == [a] + Split(rest)
  {
    if a == "" {
      assert a + [c] + rest == [c] + rest;
    } else {
      assert (a + [c] + rest)[1..] == a[1..] + [c] + rest;
      SplitField(a[1..], c, rest);
      assert [a[0]] + a[1..] == a;
    }
  }

  lemma {:induction false} SplitLast(a: string)
    requires NoSeparator(a)
    ensures Split(a) == [a]
  {
    if a != "" {
      SplitLast(a[1..]);
      assert [a[0]] + a[1..] == a;
    }
  }

  /** `trim_end_matches('Z')`. */
  function TrimEndZ(s: string): string {
    if s != "" && s[|s| - 1] == 'Z' then TrimEndZ(s[..|s| - 1]) else s
  }

  /** `filter_map(|p| p.parse().ok()).collect()`. */
  function ParsedFields(parts: seq<string>): seq<nat> {
    if parts == [] then []
    else
      var head := ParseU64(parts[0]);
      (if head.Some? then [head.value] else []) + ParsedFields(parts[1..])
  }
}
