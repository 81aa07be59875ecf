/** The stored timestamps: `fmt_iso` / `iso_now` write them, `iso_to_epoch` and `iso_to_systime`
    read them, and SQLite orders them as text. */
module Timestamp {
  import opened Wrappers
  import opened Calendar
  import opened Text

  /** 10000-01-01T00:00:00Z, the first second whose year has five digits. */
  const YEAR_10000: nat := 253_402_300_800

  /** `{separator}{:02}`, and what follows it. */
  function Field(separator: char, n: nat, rest: string): string {
    [separator] + (Padded(n, 2) + rest)
  }

  function PartsText(p: Parts, end: string): string {
    Padded(p.date.year, 4) +
    Field('-', p.date.month, Field('-', p.date.day,
    Field('T', p.hour, Field(':', p.minute, Field(':', p.second, end)))))
  }

  /** `{:04}-{:02}-{:02}T{:02}:{:02}:{:02}Z`. */
  function FmtIso(secs: nat): string {
    PartsText(EpochToParts(secs), "Z")
  }

  function FieldsToEpoch(parts: seq<nat>): nat
    requires |parts| >= 6
  {
    Wrap(DaysSinceEpoch(parts[0], parts[1], parts[2]) * 86_400 + parts[3] * 3600 + parts[4] * 60 + parts[5])
  }

  function FieldsOf(s: string): seq<nat> {
    ParsedFields(Split(s))
  }

  function IsoFields(s: string): seq<nat> {
    FieldsOf(TrimEndZ(s))
  }

  function IsoToEpoch(s: string): nat {
    var parts := IsoFields(s);
    if |parts| < 6 then 0 else FieldsToEpoch(parts)
  }

  /** `iso_to_systime`: text with too few fields becomes the current clock reading. */
  function IsoToSystime(s: string, clock: nat): nat {
    var parts := IsoFields(s);
    if |parts| < 6 then clock else FieldsToEpoch(parts)
  }

  // ---------- what a printed time looks like ----------

  /** `w` decimal digits of the text, from position `i`, spell `n`. */
  predicate NumberAt(text: string, i: nat, w: nat, n: nat) {
    i + w <= |text| && AllDigits(text[i..i + w]) && DigitsValue(text[i..i + w]) == n
  }

  /** A `date-time` of RFC 3339, section 5.6, in UTC, without a fraction, and with `w` digits of the year. */
  predicate IsDateTime(text: string, w: nat, p: Parts) {
    && |text| == w + 16
    && NumberAt(text, 0, w, p.date.year)
    && text[w] == '-' && NumberAt(text, w + 1, 2, p.date.month)
    && text[w + 3] == '-' && NumberAt(text, w + 4, 2, p.date.day)
    && text[w + 6] == 'T' && NumberAt(text, w + 7, 2, p.hour)
    && text[w + 9] == ':' && NumberAt(text, w + 10, 2, p.minute)
    && text[w + 12] == ':' && NumberAt(text, w + 13, 2, p.second)
    && text[w + 15] == 'Z'
  }

  lemma TwoDigits(n: nat)
    requires n < 100
    ensures |Padded(n, 2)| == 2 && AllDigits(Padded(n, 2)) && DigitsValue(Padded(n, 2)) == n
  {
    assert Pow10(2) == 100;
    PaddedWidth(n, 2);
    PaddedReads(n, 2);
  }

  lemma FieldAt(before: string, c: char, n: nat, rest: string)
    requires n < 100
    ensures var text := before + Field(c, n, rest);
            && |text| == |before| + 3 + |rest|
            && text[|before|] == c && NumberAt(text, |before| + 1, 2, n)
            && text == before + ([c] + Padded(n, 2)) + rest
  {
    TwoDigits(n);
    var text := before + Field(c, n, rest);
    assert text == before + ([c] + Padded(n, 2)) + rest;
    assert text[|before| + 1..|before| + 3] == Padded(n, 2);
  }

  lemma YearAt(y: nat, rest: string)
    ensures NumberAt(Padded(y, 4) + rest, 0, |Padded(y, 4)|, y)
  {
    PaddedReads(y, 4);
    assert (Padded(y, 4) + rest)[..|Padded(y, 4)|] == Padded(y, 4);
  }

  lemma PartsTextShape(p: Parts)
    requires ValidParts(p)
    ensures IsDateTime(PartsText(p, "Z"), |Padded(p.date.year, 4)|, p)
  {
    var s := Field(':', p.second, "Z");
    var ms := Field(':', p.minute, s);
    var hms := Field('T', p.hour, ms);
    var dhms := Field('-', p.date.day, hms);
    var y := Padded(p.date.year, 4);
    var mo := y + (['-'] + Padded(p.date.month, 2));
    var d := mo + (['-'] + Padded(p.date.day, 2));
    var h := d + (['T'] + Padded(p.hour, 2));
    var mi := h + ([':'] + Padded(p.minute, 2));
    TwoDigits(p.date.month);
    TwoDigits(p.date.day);
    TwoDigits(p.hour);
    TwoDigits(p.minute);
    YearAt(p.date.year, Field('-', p.date.month, dhms));
    FieldAt(y, '-', p.date.month, dhms);
    FieldAt(mo, '-', p.date.day, hms);
    FieldAt(d, 'T', p.hour, ms);
    FieldAt(h, ':', p.minute, s);
    FieldAt(mi, ':', p.second, "Z");
  }

  /** Every printed time is such a text of its six parts; the year has four digits exactly before the year
      10000, and no superfluous zero afterwards. */
  lemma FmtIsoShape(secs: nat)
    ensures var text, p := FmtIso(secs), EpochToParts(secs);
            exists w :: w >= 4 && IsDateTime(text, w, p) && (w == 4 <==> secs < YEAR_10000)
                        && (w > 4 ==> text[0] != '0')
  {
    var p := EpochToParts(secs);
    var w := |Padded(p.date.year, 4)|;
    EpochToPartsSound(secs);
    PartsTextShape(p);
    PaddedForm(p.date.year, 4);
    FourDigitYear(secs);
    YearWidth(p.date.year);
    assert FmtIso(secs)[0] == Padded(p.date.year, 4)[0];
    assert w >= 4 && IsDateTime(FmtIso(secs), w, p);
  }

  lemma {:induction false} WiderNumber(n: nat, w: nat)
    requires 1 <= w && n >= Pow10(w)
    ensures |Padded(n, w)| > w
  {
    if w > 1 {
      WiderNumber(n / 10, w - 1);
    } else {
      PaddedForm(n / 10, 0);
    }
  }

  lemma YearWidth(y: nat)
    ensures |Padded(y, 4)| == 4 <==> y < 10_000
  {
    assert Pow10(4) == 10_000;
    if y < 10_000 { PaddedWidth(y, 4); } else { WiderNumber(y, 4); }
  }

  /** Before the year 10000: twenty characters, six numbers, six fixed characters. */
  lemma FmtIsoTwenty(secs: nat)
    requires secs < YEAR_10000
    ensures var text, p := FmtIso(secs), EpochToParts(secs);
            && |text| == 20
            && text[4] == text[7] == '-' && text[10] == 'T' && text[13] == text[16] == ':' && text[19] == 'Z'
            && NumberAt(text, 0, 4, p.date.year) && NumberAt(text, 5, 2, p.date.month)
            && NumberAt(text, 8, 2, p.date.day) && NumberAt(text, 11, 2, p.hour)
            && NumberAt(text, 14, 2, p.minute) && NumberAt(text, 17, 2, p.second)
  {
    FmtIsoShape(secs);
    var w :| w >= 4 && IsDateTime(FmtIso(secs), w, EpochToParts(secs)) && (w == 4 <==> secs < YEAR_10000);
  }

  // ---------- round trip ----------

  /** Text that a reader takes for the number `n`. */
  predicate Prints(text: string, n: nat) {
    NoSeparator(text) && ParseU64(text) == Some(n)
  }

  lemma PaddedPrints(n: nat, w: nat)
    requires n < TWO64
    ensures Prints(Padded(n, w), n)
  {
    PaddedReads(n, w);
    PaddedParses(n, w);
  }

  /** A number in front of a separator comes back as one field. */
  lemma HeadReads(text: string, n: nat, c: char, tail: string)
    requires Prints(text, n) && IsSeparator(c)
    ensures FieldsOf(text + ([c] + tail)) == [n] + FieldsOf(tail)
  {
    SplitField(text, c, tail);
    assert text + ([c] + tail) == text + [c] + tail;
    assert ([text] + Split(tail))[1..] == Split(tail);
  }

  lemma LastReads(text: string, n: nat)
    requires Prints(text, n)
    ensures FieldsOf(text + "") == [n]
  {
    SplitLast(text);
    assert text + "" == text;
    assert [text][1..] == [] && ParsedFields([]) == [];
  }

  lemma TwoHeads(a: string, b: string, x: nat, y: nat, s: char, t: char, tail: string)
    requires Prints(a, x) && Prints(b, y) && IsSeparator(s) && IsSeparator(t)
    ensures FieldsOf(a + ([s] + (b + ([t] + tail)))) == [x, y] + FieldsOf(tail)
  {
    HeadReads(b, y, t, tail);
    HeadReads(a, x, s, b + ([t] + tail));
    Pair(x, y, FieldsOf(tail));
  }

  lemma Pair(x: nat, y: nat, rest: seq<nat>)
    ensures [x] + ([y] + rest) == [x, y] + rest
  {
  }

  lemma SixHeads(y: nat, mo: nat, d: nat, h: nat, mi: nat, s: nat)
    ensures [y, mo] + ([d, h] + ([mi] + [s])) == [y, mo, d, h, mi, s]
  {
  }

  lemma PartsTextReads(p: Parts)
    requires ValidParts(p) && p.date.year < TWO64
    ensures FieldsOf(PartsText(p, "")) == [p.date.year, p.date.month, p.date.day, p.hour, p.minute, p.second]
  {
    PaddedPrints(p.date.year, 4);
    PaddedPrints(p.date.month, 2);
    PaddedPrints(p.date.day, 2);
    PaddedPrints(p.hour, 2);
    PaddedPrints(p.minute, 2);
    PaddedPrints(p.second, 2);
    var hour, second := Padded(p.hour, 2), Padded(p.second, 2);
    var atMinute := Padded(p.minute, 2) + Field(':', p.second, "");
    LastReads(second, p.second);
    HeadReads(Padded(p.minute, 2), p.minute, ':', second + "");
    TwoHeads(Padded(p.date.day, 2), hour, p.date.day, p.hour, 'T', ':', atMinute);
    TwoHeads(Padded(p.date.year, 4), Padded(p.date.month, 2), p.date.year, p.date.month, '-', '-',
             Padded(p.date.day, 2) + Field('T', p.hour, Field(':', p.minute, Field(':', p.second, ""))));
    SixHeads(p.date.year, p.date.month, p.date.day, p.hour, p.minute, p.second);
  }

  lemma FieldAppend(c: char, n: nat, rest: string, z: string)
    ensures Field(c, n, rest) + z == Field(c, n, rest + z)
  {
  }

  lemma PartsTextTrims(p: Parts)
    ensures TrimEndZ(PartsText(p, "Z")) == PartsText(p, "")
  {
    var s := Field(':', p.second, "");
    var ms := Field(':', p.minute, s);
    var hms := Field('T', p.hour, ms);
    var dhms := Field('-', p.date.day, hms);
    FieldAppend(':', p.second, "", "Z");
    FieldAppend(':', p.minute, s, "Z");
    FieldAppend('T', p.hour, ms, "Z");
    FieldAppend('-', p.date.day, hms, "Z");
    FieldAppend('-', p.date.month, dhms, "Z");
    assert "" + "Z" == "Z";
    var body := PartsText(p, "");
    assert PartsText(p, "Z") == body + "Z";
    PaddedReads(p.second, 2);
    LastOfPartsText(p);
    assert (body + "Z")[..|body|] == body;
  }

  lemma LastOfPartsText(p: Parts)
    ensures var body := PartsText(p, ""); body != "" && body[|body| - 1] != 'Z'
  {
    PaddedReads(p.second, 2);
    var s := Field(':', p.second, "");
    assert s[|s| - 1] == Padded(p.second, 2)[|Padded(p.second, 2)| - 1];
    var ms := Field(':', p.minute, s);
    assert ms[|ms| - 1] == s[|s| - 1];
    var hms := Field('T', p.hour, ms);
    assert hms[|hms| - 1] == ms[|ms| - 1];
    var dhms := Field('-', p.date.day, hms);
    assert dhms[|dhms| - 1] == hms[|hms| - 1];
  }

  /** The six fields that a reader gets from a printed time. */
  lemma IsoFieldsOfFmt(secs: nat)
    requires secs < TWO64
    ensures var p := EpochToParts(secs);
            IsoFields(FmtIso(secs)) == [p.date.year, p.date.month, p.date.day, p.hour, p.minute, p.second]
  {
    EpochToPartsSound(secs);
    YearBelow(secs / SECONDS_PER_DAY);
    PartsTextTrims(EpochToParts(secs));
    PartsTextReads(EpochToParts(secs));
  }

  /** A year passes no faster than its days. */
  lemma {:induction false} YearBelow(n: nat)
    ensures DateOfDay(n).year <= 1970 + n
  {
    if n > 0 { YearBelow(n - 1); }
  }

  lemma FieldsSum(y: nat, mo: nat, d: nat, h: nat, mi: nat, s: nat, days: nat, secs: nat)
    requires DaysSinceEpoch(y, mo, d) == days && days * 86_400 + h * 3600 + mi * 60 + s == secs < TWO64
    ensures FieldsToEpoch([y, mo, d, h, mi, s]) == secs
  {
    WrapIdentity(secs);
  }

  lemma PartsReadBack(p: Parts, days: nat, secs: nat)
    requires secs < TWO64 && days == secs / SECONDS_PER_DAY && p.date == DateOfDay(days)
    requires PartsSeconds(p, days) == secs
    ensures FieldsToEpoch([p.date.year, p.date.month, p.date.day, p.hour, p.minute, p.second]) == secs
  {
    CivilFromDaysRefinesStepping(days);
    DaysRoundTrip(days);
    FieldsSum(p.date.year, p.date.month, p.date.day, p.hour, p.minute, p.second, days, secs);
  }

  /** Full text round trip, for every 64-bit second count. */
  lemma FmtIsoRoundTrip(secs: nat)
    requires secs < TWO64
    ensures IsoToEpoch(FmtIso(secs)) == secs
    ensures forall clock :: IsoToSystime(FmtIso(secs), clock) == secs
  {
    IsoFieldsOfFmt(secs);
    EpochToPartsSound(secs);
    PartsReadBack(EpochToParts(secs), secs / SECONDS_PER_DAY, secs);
  }

  lemma {:induction false} FewerFields(parts: seq<string>)
    ensures |ParsedFields(parts)| <= |parts|
  {
    if parts != [] { FewerFields(parts[1..]); }
  }

  /** A text with fewer than six fields reads as the epoch, or as the current clock where a leaf is built. */
  lemma ShortTextReads(s: string, clock: nat)
    requires |Split(TrimEndZ(s))| < 6
    ensures IsoToEpoch(s) == 0 && IsoToSystime(s, clock) == clock
  {
    FewerFields(Split(TrimEndZ(s)));
  }

  // ---------- order ----------

  lemma FirstFiveDigitYear()
    ensures EpochToParts(YEAR_10000) == Parts(Date(10_000, 1, 1), 0, 0, 0)
  {
    assert YEAR_10000 / 60 / 60 / 24 == 2_932_897;
    CivilFromEra(2_932_897, 24, 146_037, 399, 306);
  }

  lemma FourDigitYear(secs: nat)
    ensures EpochToParts(secs).date.year < 10_000 <==> secs < YEAR_10000
  {
    FirstFiveDigitYear();
    EpochToPartsSound(secs);
    if secs < YEAR_10000 {
      EpochToPartsMonotone(secs, YEAR_10000);
    } else if secs > YEAR_10000 {
      EpochToPartsMonotone(YEAR_10000, secs);
    }
  }

  /** A padded number in front decides first; the rest decides between equal numbers. */
  lemma NumberOrder(m: nat, n: nat, w: nat, x: string, y: string)
    requires 1 <= w && m < Pow10(w) && n < Pow10(w)
    ensures LexLess(Padded(m, w) + x, Padded(n, w) + y) <==> m < n || (m == n && LexLess(x, y))
  {
    PaddedWidth(m, w);
    PaddedWidth(n, w);
    PaddedOrder(m, n, w);
    PaddedInjective(m, n, w);
    LexFieldwise(Padded(m, w), Padded(n, w), x, y);
  }

  lemma FieldOrder(c: char, m: nat, n: nat, x: string, y: string)
    requires m < 100 && n < 100
    ensures LexLess(Field(c, m, x), Field(c, n, y)) <==> m < n || (m == n && LexLess(x, y))
  {
    assert Pow10(2) == 100;
    NumberOrder(m, n, 2, x, y);
    LexIrreflexive([c]);
    LexFieldwise([c], [c], Padded(m, 2) + x, Padded(n, 2) + y);
  }

  lemma PartsTextOrder(p: Parts, q: Parts)
    requires ValidParts(p) && ValidParts(q) && p.date.year < 10_000 && q.date.year < 10_000
    requires PartsLess(p, q)
    ensures LexLess(PartsText(p, "Z"), PartsText(q, "Z"))
  {
    var s, t := Field(':', p.second, "Z"), Field(':', q.second, "Z");
    var ms, mt := Field(':', p.minute, s), Field(':', q.minute, t);
    var hms, hmt := Field('T', p.hour, ms), Field('T', q.hour, mt);
    var dhms, dhmt := Field('-', p.date.day, hms), Field('-', q.date.day, hmt);
    FieldOrder(':', p.second, q.second, "Z", "Z");
    FieldOrder(':', p.minute, q.minute, s, t);
    FieldOrder('T', p.hour, q.hour, ms, mt);
    FieldOrder('-', p.date.day, q.date.day, hms, hmt);
    FieldOrder('-', p.date.month, q.date.month, dhms, dhmt);
    assert Pow10(4) == 10_000;
    NumberOrder(p.date.year, q.date.year, 4, Field('-', p.date.month, dhms), Field('-', q.date.month, dhmt));
  }

  lemma FmtIsoForward(s: nat, t: nat)
    requires s < t < YEAR_10000
    ensures LexLess(FmtIso(s), FmtIso(t))
  {
    EpochToPartsSound(s);
    EpochToPartsSound(t);
    FourDigitYear(s);
    FourDigitYear(t);
    EpochToPartsMonotone(s, t);
    PartsTextOrder(EpochToParts(s), EpochToParts(t));
  }

  /** Through year 9999, text order is time order. */
  lemma FmtIsoOrder(s: nat, t: nat)
    requires s < YEAR_10000 && t < YEAR_10000
    ensures LexLess(FmtIso(s), FmtIso(t)) <==> s < t
    ensures FmtIso(s) == FmtIso(t) <==> s == t
  {
    FmtIsoRoundTrip(s);
    FmtIsoRoundTrip(t);
    if s < t {
      FmtIsoForward(s, t);
    } else if t < s {
      FmtIsoForward(t, s);
      LexAsymmetric(FmtIso(t), FmtIso(s));
    } else {
      LexIrreflexive(FmtIso(s));
    }
  }

  lemma TenThousandPrints(rest: string)
    ensures Padded(10_000, 4) + rest == Padded(1000, 4) + ("0" + rest)
  {
    assert Padded(10_000, 4) == Padded(1000, 3) + "0";
    assert Padded(1000, 3) == Padded(100, 2) + "0" && Padded(1000, 4) == Padded(100, 3) + "0";
    assert Padded(100, 2) == Padded(10, 1) + "0" && Padded(100, 3) == Padded(10, 2) + "0";
    assert Padded(10, 1) == Padded(1, 0) + "0" && Padded(10, 2) == Padded(1, 1) + "0";
  }

  /** The first second of year 10000 sorts before every earlier one. */
  lemma FiveDigitYearSortsFirst(s: nat)
    requires s < YEAR_10000
    ensures LexLess(FmtIso(YEAR_10000), FmtIso(s))
  {
    FirstFiveDigitYear();
    FourDigitYear(s);
    EpochToPartsSound(s);
    var p, q := EpochToParts(YEAR_10000), EpochToParts(s);
    var x := FmtIso(YEAR_10000)[|Padded(10_000, 4)|..];
    var y := FmtIso(s)[|Padded(q.date.year, 4)|..];
    assert FmtIso(YEAR_10000) == Padded(10_000, 4) + x && FmtIso(s) == Padded(q.date.year, 4) + y;
    TenThousandPrints(x);
    assert Pow10(4) == 10_000;
    NumberOrder(1000, q.date.year, 4, "0" + x, y);
  }

  ghost predicate TextOrderIsTimeOrder(horizon: nat) {
    forall s: nat, t: nat :: s <= horizon && t <= horizon ==> (LexLess(FmtIso(s), FmtIso(t)) <==> s < t)
  }

  /** Sorting the TEXT column is chronological exactly up to the last second of year 9999. */
  lemma TextOrderHorizon(horizon: nat)
    ensures TextOrderIsTimeOrder(horizon) <==> horizon < YEAR_10000
  {
    if horizon < YEAR_10000 {
      forall s: nat, t: nat | s <= horizon && t <= horizon
        ensures LexLess(FmtIso(s), FmtIso(t)) <==> s < t
      {
        FmtIsoOrder(s, t);
      }
    } else {
      FiveDigitYearSortsFirst(0);
    }
  }
}
