/** Serial numbers: printed in hexadecimal, read back by SQL as a decimal prefix, and read by the
    Java port's `parseSerial` in base 16. */
module Serial {
  import opened Wrappers
  import opened Text

  // ---------- printing ----------

  function HexDigit(k: nat): char
    requires k < 16
  {
    if k < 10 then Digit(k) else 'A' + (k - 10) as char
  }

  /** `{:0wX}` of an unsigned number. */
  function HexPadded(n: nat, w: nat): string
    decreases n + w
  {
    if n < 16 && w <= 1 then [HexDigit(n)]
    else HexPadded(n / 16, if w == 0 then 0 else w - 1) + [HexDigit(n % 16)]
  }

  function PrintSerial(n: nat): string {
    "0x" + HexPadded(n, 6)
  }

  // ---------- reading in base 16 (Java's parseSerial) ----------

  predicate IsHexDigit(c: char) {
    IsDigit(c) || 'A' <= c <= 'F' || 'a' <= c <= 'f'
  }

  function HexDigitValue(c: char): nat
    requires IsHexDigit(c)
  {
    if IsDigit(c) then DigitValue(c)
    else if c <= 'F' then c as nat - 'A' as nat + 10
    else c as nat - 'a' as nat + 10
  }

  predicate AllHexDigits(s: string) {
    forall i :: 0 <= i < |s| ==> IsHexDigit(s[i])
  }

  function HexValue(s: string): nat
    requires AllHexDigits(s)
  {
    if s == "" then 0 else 16 * HexValue(s[..|s| - 1]) + HexDigitValue(s[|s| - 1])
  }

  /** The number in a serial text, `None` where `parseSerial` throws or falls back to a random number. */
  function ParseSerial(s: string): Option<nat> {
    var hex := if |s| >= 2 && s[0] == '0' && (s[1] == 'x' || s[1] == 'X') then s[2..] else s;
    if hex == "" || !AllHexDigits(hex) then None else Some(HexValue(hex))
  }

  lemma HexDigitReads(k: nat)
    requires k < 16
    ensures IsHexDigit(HexDigit(k)) && HexDigitValue(HexDigit(k)) == k
  {
  }

  lemma HexAppend(s: string, k: nat)
    requires AllHexDigits(s) && k < 16
    ensures AllHexDigits(s + [HexDigit(k)]) && HexValue(s + [HexDigit(k)]) == 16 * HexValue(s) + k
  {
    HexDigitReads(k);
    assert (s + [HexDigit(k)])[..|s|] == s;
  }

  lemma {:induction false} HexPaddedReads(n: nat, w: nat)
    ensures AllHexDigits(HexPadded(n, w)) && HexPadded(n, w) != "" && HexValue(HexPadded(n, w)) == n
    decreases n + w
  {
    if n >= 16 || w > 1 {
      HexPaddedReads(n / 16, if w == 0 then 0 else w - 1);
      HexAppend(HexPadded(n / 16, if w == 0 then 0 else w - 1), n % 16);
    } else {
      HexAppend("", n);
      assert "" + [HexDigit(n)] == [HexDigit(n)];
    }
  }

  lemma {:induction false} HexForm(n: nat, w: nat)
    ensures |HexPadded(n, w)| >= 1 && |HexPadded(n, w)| >= w
    ensures |HexPadded(n, w)| > w && |HexPadded(n, w)| > 1 ==> HexPadded(n, w)[0] != '0'
    ensures forall i :: 0 <= i < |HexPadded(n, w)| ==>
              '0' <= HexPadded(n, w)[i] <= '9' || 'A' <= HexPadded(n, w)[i] <= 'F'
    decreases n + w
  {
    if n >= 16 || w > 1 {
      var v := if w == 0 then 0 else w - 1;
      var high := HexPadded(n / 16, v);
      HexForm(n / 16, v);
      HexPaddedReads(n / 16, v);
      if |high| == 1 {
        assert high == [high[0]] && [high[0]][..0] == "";
        assert HexValue(high) == HexDigitValue(high[0]);
      }
    }
  }

  /** `0x`, then upper-case hexadecimal digits of the number: six, or as many more as it needs. */
  lemma PrintSerialForm(n: nat)
    ensures var text := PrintSerial(n);
            && |text| >= 8 && text[..2] == "0x" && (|text| > 8 ==> text[2] != '0')
            && (forall i :: 2 <= i < |text| ==> '0' <= text[i] <= '9' || 'A' <= text[i] <= 'F')
            && AllHexDigits(text[2..]) && HexValue(text[2..]) == n
  {
    HexForm(n, 6);
    HexPaddedReads(n, 6);
    assert PrintSerial(n)[2..] == HexPadded(n, 6);
  }

  /** In base 16 every printed serial reads back as its number, so printing is injective. */
  lemma ParseSerialInverts(n: nat)
    ensures ParseSerial(PrintSerial(n)) == Some(n)
  {
    HexPaddedReads(n, 6);
    assert PrintSerial(n)[2..] == HexPadded(n, 6);
  }

  lemma PrintSerialInjective(m: nat, n: nat)
    ensures PrintSerial(m) == PrintSerial(n) <==> m == n
  {
    ParseSerialInverts(m);
    ParseSerialInverts(n);
  }

  // ---------- reading as the SQL does ----------

  /** `REPLACE(s, '0x', '')`. */
  function DropHexPrefixes(s: string): string {
    if |s| < 2 then s
    else if s[0] == '0' && s[1] == 'x' then DropHexPrefixes(s[2..])
    else [s[0]] + DropHexPrefixes(s[1..])
  }

  function LeadingDigits(s: string): (r: string)
    ensures AllDigits(r)
  {
    if s == "" || !IsDigit(s[0]) then "" else [s[0]] + LeadingDigits(s[1..])
  }

  /** `CAST(s AS INTEGER)` of an unsigned text: the value of its longest decimal prefix. */
  function CastInteger(s: string): nat {
    DigitsValue(LeadingDigits(s))
  }

  function ReadDecimal(serial: string): nat {
    CastInteger(DropHexPrefixes(serial))
  }

  lemma {:induction false} LeadingDigitsAppend(s: string, c: char)
    ensures LeadingDigits(s + [c]) == (if AllDigits(s) && IsDigit(c) then s + [c] else LeadingDigits(s))
    ensures AllDigits(s) ==> LeadingDigits(s) == s
  {
    if s == "" {
      assert s + [c] == [c] && [c][1..] == "";
    } else {
      assert (s + [c])[1..] == s[1..] + [c];
      LeadingDigitsAppend(s[1..], c);
      assert s == [s[0]] + s[1..];
      assert AllDigits(s) <==> IsDigit(s[0]) && AllDigits(s[1..]);
    }
  }

  lemma {:induction false} NoXUnchanged(s: string)
    requires forall i :: 0 <= i < |s| ==> s[i] != 'x'
    ensures DropHexPrefixes(s) == s
  {
    if |s| >= 2 {
      NoXUnchanged(s[1..]);
      assert s == [s[0]] + s[1..];
    }
  }

  lemma {:induction false} HexPaddedUpper(n: nat, w: nat)
    ensures forall i :: 0 <= i < |HexPadded(n, w)| ==> HexPadded(n, w)[i] != 'x'
    decreases n + w
  {
    if n >= 16 || w > 1 { HexPaddedUpper(n / 16, if w == 0 then 0 else w - 1); }
  }

  lemma CastOneDigit(c: char)
    ensures CastInteger([c]) == if IsDigit(c) then DigitValue(c) else 0
  {
    LeadingDigitsAppend("", c);
    assert "" + [c] == [c];
    assert IsDigit(c) ==> DigitsValue([c]) == 10 * DigitsValue([c][..0]) + DigitValue(c);
  }

  lemma CastAppend(s: string, c: char)
    ensures CastInteger(s + [c]) ==
            if AllDigits(s) && IsDigit(c) then 10 * CastInteger(s) + DigitValue(c) else CastInteger(s)
  {
    LeadingDigitsAppend(s, c);
    assert (s + [c])[..|s|] == s;
  }

  lemma {:induction false} HexPaddedAsDecimal(n: nat, w: nat)
    ensures CastInteger(HexPadded(n, w)) <= n
    ensures CastInteger(HexPadded(n, w)) == n <==> n < 10
    ensures n < 10 ==> AllDigits(HexPadded(n, w))
    decreases n + w
  {
    if n < 16 && w <= 1 {
      CastOneDigit(HexDigit(n));
    } else {
      var s, c := HexPadded(n / 16, if w == 0 then 0 else w - 1), HexDigit(n % 16);
      HexPaddedAsDecimal(n / 16, if w == 0 then 0 else w - 1);
      CastAppend(s, c);
      assert HexPadded(n, w) == s + [c];
    }
  }

  lemma {:induction false} LeadingDigitsPrefix(s: string)
    ensures var k := |LeadingDigits(s)|;
            k <= |s| && LeadingDigits(s) == s[..k] && (k < |s| ==> !IsDigit(s[k]))
  {
    if s != "" && IsDigit(s[0]) { LeadingDigitsPrefix(s[1..]); }
  }

  /** The SQL read-back of a printed serial is the value of its digits up to the first letter. */
  lemma ReadDecimalPrefix(n: nat)
    ensures var hex := PrintSerial(n)[2..];
            exists k :: 0 <= k <= |hex| && AllDigits(hex[..k]) && (k < |hex| ==> 'A' <= hex[k] <= 'F')
                        && ReadDecimal(PrintSerial(n)) == DigitsValue(hex[..k])
  {
    var hex := HexPadded(n, 6);
    HexPaddedUpper(n, 6);
    NoXUnchanged(hex);
    HexForm(n, 6);
    LeadingDigitsPrefix(hex);
    assert PrintSerial(n)[2..] == hex;
    assert AllDigits(hex[..|LeadingDigits(hex)|]);
  }

  /** The SQL read-back returns a printed serial's number exactly for the nine one-digit numbers and
      zero; from ten on it returns something smaller. */
  lemma ReadDecimalExact(n: nat)
    ensures ReadDecimal(PrintSerial(n)) <= n
    ensures ReadDecimal(PrintSerial(n)) == n <==> n < 10
  {
    HexPaddedUpper(n, 6);
    NoXUnchanged(HexPadded(n, 6));
    assert PrintSerial(n)[2..] == HexPadded(n, 6);
    HexPaddedAsDecimal(n, 6);
  }

  // ---------- the allocator ----------

  /** How `next_serial` reads stored serials: as the SQL is written, or in the base they are printed in. */
  datatype SerialRead = AsWritten | Base16

  function ReadSerial(mode: SerialRead, serial: string): nat {
    match mode
    case AsWritten => ReadDecimal(serial)
    case Base16 => var n := ParseSerial(serial); if n.Some? then n.value else 0
  }

  /** `COALESCE(MAX(...), 0)`. */
  function MaxRead(mode: SerialRead, serials: seq<string>): nat {
    if serials == [] then 0
    else
      var rest := MaxRead(mode, serials[..|serials| - 1]);
      var last := ReadSerial(mode, serials[|serials| - 1]);
      if last > rest then last else rest
  }

  /** `m` is the greatest number read from the texts, zero when there is none. */
  predicate IsMaxRead(mode: SerialRead, serials: seq<string>, m: nat) {
    && (forall i :: 0 <= i < |serials| ==> ReadSerial(mode, serials[i]) <= m)
    && (m == 0 || exists i :: 0 <= i < |serials| && ReadSerial(mode, serials[i]) == m)
  }

  lemma {:induction false} MaxReadIsMax(mode: SerialRead, serials: seq<string>)
    ensures IsMaxRead(mode, serials, MaxRead(mode, serials))
  {
    if serials != [] {
      var last := |serials| - 1;
      var m, rest := MaxRead(mode, serials), MaxRead(mode, serials[..last]);
      MaxReadIsMax(mode, serials[..last]);
      assert forall i :: 0 <= i < last ==> serials[..last][i] == serials[i];
      if m == rest && m != 0 {
        var i :| 0 <= i < last && ReadSerial(mode, serials[..last][i]) == m;
        assert ReadSerial(mode, serials[i]) == m;
      } else {
        assert m == rest || ReadSerial(mode, serials[last]) == m;
      }
    }
  }

  function NextSerial(mode: SerialRead, serials: seq<string>): string {
    PrintSerial(MaxRead(mode, serials) + 1)
  }

  /** The first `k` serials that an allocator ought to hand out. */
  predicate Numbered(serials: seq<string>) {
    forall i :: 0 <= i < |serials| ==> serials[i] == PrintSerial(i + 1)
  }

  /** A base-16 read-back continues the numbering from any length. */
  lemma {:induction false} MaxReadBase16(serials: seq<string>)
    requires Numbered(serials)
    ensures MaxRead(Base16, serials) == |serials|
  {
    if serials != [] {
      MaxReadBase16(serials[..|serials| - 1]);
      ParseSerialInverts(|serials|);
    }
  }

  /** The decimal read-back sees ten as nothing and stays at nine. */
  lemma {:induction false} MaxReadAsWritten(serials: seq<string>)
    requires Numbered(serials) && |serials| <= 10
    ensures MaxRead(AsWritten, serials) == if |serials| < 10 then |serials| else 9
  {
    if serials != [] {
      MaxReadAsWritten(serials[..|serials| - 1]);
      ReadDecimalExact(|serials|);
    }
  }
}
