/**
 * Year-month strings of the monthly ranking (utils/supabase/ranking.ts). Stored
 * months come in several spellings ("202401", "20240101", "2024-01-01",
 * "2024-1-01", ...); they are compared in a canonical eight-digit form
 * YYYYMMDD and shown in the ISO 8601 calendar-month form YYYY-MM.
 */
module YearMonth {
  import opened Wrappers
  import opened Collections

  predicate IsDigit(c: char) {
    '0' <= c <= '9'
  }

  predicate AllDigits(s: string) {
    forall i :: 0 <= i < |s| ==> IsDigit(s[i])
  }

  /** `replace(/\D/g, '')`: the decimal digits of `s`, in order. */
  function Digits(s: string): (d: string)
    ensures AllDigits(d) && |d| <= |s|
  {
    if s == [] then []
    else (if IsDigit(s[0]) then [s[0]] else []) + Digits(s[1..])
  }

  lemma {:induction false} DigitsAppend(a: string, b: string)
    ensures Digits(a + b) == Digits(a) + Digits(b)
  {
    if a == [] {
      assert a + b == b;
    } else {
      var head := if IsDigit(a[0]) then [a[0]] else [];
      assert (a + b)[0] == a[0] && (a + b)[1..] == a[1..] + b;
      assert Digits(a + b) == head + Digits(a[1..] + b);
      DigitsAppend(a[1..], b);
      assert Digits(a) == head + Digits(a[1..]);
    }
  }

  /** Removing non-digits from a string of digits changes nothing. */
  lemma {:induction false} DigitsOfDigits(s: string)
    requires AllDigits(s)
    ensures Digits(s) == s
  {
    if s != [] {
      DigitsOfDigits(s[1..]);
    }
  }

  lemma DigitsOfDash()
    ensures Digits("-") == ""
  {
    assert "-"[1..] == "";
  }

  function DigitChar(d: nat): (c: char)
    requires d < 10
    ensures IsDigit(c)
  {
    ('0' as int + d) as char
  }

  function DigitValue(c: char): (d: nat)
    requires IsDigit(c)
    ensures d < 10 && DigitChar(d) == c
  {
    c as int - '0' as int
  }

  /** `String(n)` for a natural number: its decimal digits, without leading zeros. */
  function ShowNat(n: nat): (s: string)
    ensures |s| >= 1 && AllDigits(s)
    decreases n
  {
    if n < 10 then [DigitChar(n)] else ShowNat(n / 10) + [DigitChar(n % 10)]
  }

  /** `Number(s)` for a string of decimal digits. */
  function DecimalValue(s: string): nat
    requires AllDigits(s)
  {
    if s == [] then 0 else DecimalValue(s[..|s| - 1]) * 10 + DigitValue(s[|s| - 1])
  }

  /** Reading back what `String` wrote gives the number. */
  lemma {:induction false} DecimalValueOfShowNat(n: nat)
    ensures DecimalValue(ShowNat(n)) == n
    decreases n
  {
    var s := ShowNat(n);
    if n >= 10 {
      DecimalValueOfShowNat(n / 10);
      assert s[..|s| - 1] == ShowNat(n / 10);
    }
  }

  /** Numbers below 10 are written with one digit, 10 to 99 with two, 1000 to 9999 with four. */
  lemma {:induction false} ShowNatWidth(n: nat)
    ensures n < 10 ==> ShowNat(n) == [DigitChar(n)]
    ensures 10 <= n < 100 ==> |ShowNat(n)| == 2
    ensures 100 <= n < 1000 ==> |ShowNat(n)| == 3
    ensures 1000 <= n < 10000 ==> |ShowNat(n)| == 4
    decreases n
  {
    if n >= 10 {
      var q := n / 10;
      assert n == q * 10 + n % 10;
      assert 10 <= n < 100 ==> q < 10;
      assert 100 <= n < 1000 ==> 10 <= q < 100;
      assert 1000 <= n < 10000 ==> 100 <= q < 1000;
      ShowNatWidth(q);
    }
  }

  /** The value of a two-digit string. */
  lemma TwoDigitValue(s: string)
    requires |s| == 2 && AllDigits(s)
    ensures DecimalValue(s) == DigitValue(s[0]) * 10 + DigitValue(s[1])
  {
    var init := s[..1];
    assert init[..0] == [] && init[0] == s[0];
    assert DecimalValue(init) == DigitValue(s[0]);
  }

  /** A two-digit string without a leading zero reads back to itself. */
  lemma TwoDigitRoundTrip(s: string)
    requires |s| == 2 && AllDigits(s) && s[0] != '0'
    ensures ShowNat(DecimalValue(s)) == s
  {
    var hi, lo := DigitValue(s[0]), DigitValue(s[1]);
    TwoDigitValue(s);
    var n := hi * 10 + lo;
    assert n / 10 == hi && n % 10 == lo;
    assert ShowNat(n) == ShowNat(hi) + [DigitChar(lo)];
  }

  /** A two-digit string with a leading zero reads back as its last digit. */
  lemma LeadingZeroRoundTrip(s: string)
    requires |s| == 2 && AllDigits(s) && s[0] == '0'
    ensures ShowNat(DecimalValue(s)) == [s[1]]
  {
    TwoDigitValue(s);
    assert DigitValue(s[0]) == 0;
  }

  /** `padStart(2, '0')`. */
  function PadStart2(s: string): (r: string)
    ensures |r| == if |s| >= 2 then |s| else 2
    ensures r[|r| - |s|..] == s
    ensures forall i :: 0 <= i < |r| - |s| ==> r[i] == '0'
  {
    if |s| >= 2 then s else if |s| == 1 then "0" + s else "00"
  }

  /** `String(month).padStart(2, '0')` for a calendar month: two digits that read back as the month. */
  lemma PaddedMonth(month: nat)
    requires 1 <= month <= 12
    ensures var padded := PadStart2(ShowNat(month));
      |padded| == 2 && AllDigits(padded) && DecimalValue(padded) == month
  {
    ShowNatWidth(month);
    DecimalValueOfShowNat(month);
    var shown := ShowNat(month);
    var padded := PadStart2(shown);
    assert padded == if |shown| == 1 then "0" + shown else shown;
    if |shown| == 1 {
      assert padded[..1] == "0" && padded[..1][..0] == [];
      assert padded[1] == shown[0];
    }
  }

  /** The local calendar year and 1-based month that `new Date()` would give. */
  datatype CalendarMonth = CalendarMonth(year: nat, month: nat)

  predicate ValidCalendar(today: CalendarMonth) {
    1 <= today.month <= 12
  }

  datatype YearAndMonth = YearAndMonth(year: string, month: string)

  /** `value ?? ''`. */
  function OrEmpty(value: Option<string>): string {
    match value
    case None => ""
    case Some(v) => v
  }

  /** With six digits or more the input's first digits give year and month; else today does. */
  predicate HasYearMonth(value: Option<string>) {
    |Digits(OrEmpty(value))| >= 6
  }

  /** `extractYearAndMonth`. */
  function ExtractYearAndMonth(value: Option<string>, today: CalendarMonth): (r: YearAndMonth)
    requires ValidCalendar(today)
    ensures AllDigits(r.year) && AllDigits(r.month) && |r.month| == 2
    ensures HasYearMonth(value) ==> r.year + r.month == Digits(OrEmpty(value))[..6] && |r.year| == 4
    ensures !HasYearMonth(value) ==>
      DecimalValue(r.year) == today.year && DecimalValue(r.month) == today.month
    ensures !HasYearMonth(value) && 1000 <= today.year < 10000 ==> |r.year| == 4
  {
    var digits := Digits(OrEmpty(value));
    if |digits| >= 6 then
      assert digits[..6] == digits[..4] + digits[4..6];
      YearAndMonth(digits[..4], digits[4..6])
    else
      ShowNatWidth(today.year);
      DecimalValueOfShowNat(today.year);
      PaddedMonth(today.month);
      var padded := PadStart2(ShowNat(today.month));
      YearAndMonth(ShowNat(today.year), padded)
  }

  /** `normalizeYearMonthValue`: YYYYMM from the first six digits, then DD from digits 7-8 or "01". */
  function Normalize(value: Option<string>): (r: Option<string>)
    ensures r.Some? <==> value.Some? && value.value != "" && |Digits(value.value)| >= 6
    ensures r.Some? ==> |r.value| == 8 && AllDigits(r.value)
    ensures r.Some? ==> r.value[..6] == Digits(value.value)[..6]
    ensures r.Some? ==> r.value[6..] == if |Digits(value.value)| >= 8 then Digits(value.value)[6..8] else "01"
  {
    if value.None? || value.value == "" then None
    else
      var digits := Digits(value.value);
      if |digits| < 6 then None
      else
        var year := digits[..4];
        var month := digits[4..6];
        var day := if |digits| >= 8 then digits[6..8] else "01";
        Some(year + month + PadStart2(day))
  }

  /** The canonical form is exactly the eight-digit strings: they and only they normalise to themselves. */
  lemma NormalizeFixpoints(s: string)
    ensures Normalize(Some(s)) == Some(s) <==> |s| == 8 && AllDigits(s)
  {
    if |s| == 8 && AllDigits(s) {
      DigitsOfDigits(s);
      assert s == s[..6] + s[6..8];
    }
  }

  /** Normalising a normalised value changes nothing. */
  lemma NormalizeIdempotent(value: Option<string>)
    requires Normalize(value).Some?
    ensures Normalize(Normalize(value)) == Normalize(value)
  {
    NormalizeFixpoints(Normalize(value).value);
  }

  /** `toDisplayYearMonth`: "YYYY-MM" from the normalised form, or the input unchanged. */
  function ToDisplay(value: string): (r: string)
    ensures Normalize(Some(value)).None? ==> r == value
    ensures Normalize(Some(value)).Some? ==>
      |r| == 7 && r[4] == '-' && r[..4] + r[5..] == Digits(value)[..6]
  {
    match Normalize(Some(value))
    case None => value
    case Some(normalized) => normalized[..4] + "-" + normalized[4..6]
  }

  lemma {:induction false} AllDigitsAppend(a: string, b: string)
    ensures AllDigits(a + b) <==> AllDigits(a) && AllDigits(b)
  {
    if AllDigits(a) && AllDigits(b) {
      forall i | 0 <= i < |a + b| ensures IsDigit((a + b)[i]) {
        if i < |a| {
          assert (a + b)[i] == a[i];
        } else {
          assert (a + b)[i] == b[i - |a|];
        }
      }
    }
    if AllDigits(a + b) {
      forall i | 0 <= i < |a| ensures IsDigit(a[i]) {
        assert (a + b)[i] == a[i];
      }
      forall i | 0 <= i < |b| ensures IsDigit(b[i]) {
        assert (a + b)[|a| + i] == b[i];
      }
    }
  }

  /**
   * Day 01 of a four-digit year and a two-digit month is an eight-digit
   * canonical form, shown as "YYYY-MM".
   */
  lemma MonthForm(y: string, mm: string)
    requires |y| == 4 && AllDigits(y) && |mm| == 2 && AllDigits(mm)
    ensures var n := y + mm + "01";
      && |n| == 8 && AllDigits(n) && n[..4] == y && n[4..6] == mm
      && Normalize(Some(n)) == Some(n) && ToDisplay(n) == y + "-" + mm
  {
    var n := y + mm + "01";
    AllDigitsAppend(y, mm);
    assert AllDigits("01");
    AllDigitsAppend(y + mm, "01");
    assert n[..4] == y && n[4..6] == mm;
    NormalizeFixpoints(n);
    ShowEightDigits(n);
  }

  /** Removing non-digits around a dash. */
  lemma DigitsAroundDash(a: string, b: string)
    ensures Digits(a + "-" + b) == Digits(a) + Digits(b)
  {
    DigitsAppend(a + "-", b);
    DigitsAppend(a, "-");
    DigitsOfDash();
  }

  /** Normalisation in terms of the digits of the value alone. */
  lemma NormalizeOfDigits(v: string, d: string)
    requires v != "" && Digits(v) == d
    ensures Normalize(Some(v)) ==
      if |d| < 6 then None else if |d| >= 8 then Some(d[..8]) else Some(d[..6] + "01")
  {
    if |d| >= 8 {
      var day := d[6..8];
      assert PadStart2(day) == day;
      assert d[..4] + d[4..6] + day == d[..8];
      assert Normalize(Some(v)) == Some(d[..4] + d[4..6] + day);
    } else if |d| >= 6 {
      assert PadStart2("01") == "01";
      assert d[..4] + d[4..6] == d[..6];
      assert Normalize(Some(v)) == Some(d[..4] + d[4..6] + "01");
    }
  }

  /** The display form of year `y` and two-digit month `mm`, as a string and in digits. */
  lemma DisplayPieces(y: string, mm: string)
    requires |y| == 4 && AllDigits(y) && |mm| == 2 && AllDigits(mm)
    ensures Digits(y + "-" + mm) == y + mm
    ensures Normalize(Some(y + "-" + mm)) == Some(y + mm + "01")
    ensures ToDisplay(y + "-" + mm) == y + "-" + mm
  {
    DigitsAroundDash(y, mm);
    DigitsOfDigits(y);
    DigitsOfDigits(mm);
    NormalizeOfDigits(y + "-" + mm, y + mm);
    assert (y + mm)[..6] == y + mm;
    var n := y + mm + "01";
    assert n[..4] == y && n[4..6] == mm;
  }

  /** Showing a shown month changes nothing. */
  lemma ToDisplayIdempotent(value: string)
    ensures ToDisplay(ToDisplay(value)) == ToDisplay(value)
  {
    var r := ToDisplay(value);
    if Normalize(Some(value)).Some? {
      var y, mm := r[..4], r[5..];
      assert r == y + "-" + mm;
      assert y + mm == Digits(value)[..6];
      DisplayPieces(y, mm);
    }
  }

  /**
   * The six spellings of a month, in the order `buildYearMonthVariants` lists
   * them. `Number(mm)` reads the padded month back as a number, so `m` has no
   * leading zero.
   */
  function Spellings(year: string, mm: string): (r: seq<string>)
    requires AllDigits(mm)
    ensures |r| == 6
  {
    var m := ShowNat(DecimalValue(mm));
    [year + mm + "01", year + mm, year + "-" + mm + "-01", year + "-" + m + "-01", year + "-" + mm, year + "-" + m]
  }

  /** `buildYearMonthVariants`: the spellings a stored month may have, each once. */
  function BuildVariants(year: string, month: string): (r: seq<string>)
    requires AllDigits(month)
    ensures |r| <= 6 && Distinct(r)
    ensures forall s :: s in r <==> s in Spellings(year, PadStart2(month))
    ensures |r| > 0 && r[0] == year + PadStart2(month) + "01"
  {
    Dedup(Spellings(year, PadStart2(month)))
  }

  /** `variants.map(normalizeYearMonthValue).filter(Boolean)`. */
  function NormalizedAll(variants: seq<string>): (r: seq<string>)
    ensures |r| <= |variants|
  {
    if variants == [] then []
    else
      (match Normalize(Some(variants[0])) case Some(n) => [n] case None => []) + NormalizedAll(variants[1..])
  }

  /** Every entry of the normalised list is the normal form of some variant. */
  lemma {:induction false} NormalizedAllFrom(variants: seq<string>)
    ensures forall x :: x in NormalizedAll(variants) ==>
      exists k :: 0 <= k < |variants| && Normalize(Some(variants[k])) == Some(x)
  {
    if variants != [] {
      var rest := variants[1..];
      NormalizedAllFrom(rest);
      var n := Normalize(Some(variants[0]));
      var head := if n.Some? then [n.value] else [];
      assert NormalizedAll(variants) == head + NormalizedAll(rest);
      forall x | x in NormalizedAll(variants)
        ensures exists k :: 0 <= k < |variants| && Normalize(Some(variants[k])) == Some(x)
      {
        if x in NormalizedAll(rest) {
          var k :| 0 <= k < |rest| && Normalize(Some(rest[k])) == Some(x);
          assert rest[k] == variants[k + 1];
        } else {
          assert x in head;
          assert Normalize(Some(variants[0])) == Some(x);
        }
      }
    }
  }

  /** What the normalised list holds: exactly the normal forms of the variants that have one. */
  lemma NormalizedAllHolds(variants: seq<string>)
    ensures forall x :: x in NormalizedAll(variants) ==>
      exists k :: 0 <= k < |variants| && Normalize(Some(variants[k])) == Some(x)
    ensures forall k :: 0 <= k < |variants| && Normalize(Some(variants[k])).Some? ==>
      Normalize(Some(variants[k])).value in NormalizedAll(variants)
    ensures |variants| > 0 && Normalize(Some(variants[0])).Some? ==>
      |NormalizedAll(variants)| > 0 && NormalizedAll(variants)[0] == Normalize(Some(variants[0])).value
  {
    NormalizedAllFrom(variants);
    forall k | 0 <= k < |variants| && Normalize(Some(variants[k])).Some?
      ensures Normalize(Some(variants[k])).value in NormalizedAll(variants)
    {
      NormalizedAllContains(variants, k);
    }
  }

  /** The canonical spellings to match stored months against. */
  function CanonicalVariants(year: string, mm: string): (r: seq<string>)
    requires AllDigits(mm)
    ensures Distinct(r) && year + mm + "01" in r
  {
    Dedup(NormalizedAll(BuildVariants(year, mm)) + [year + mm + "01"])
  }

  datatype MonthContext = MonthContext(display: string, canonical: string, variants: seq<string>, canonicalVariants: seq<string>)

  /** The context of an extracted year and month. */
  function ContextOf(ym: YearAndMonth): MonthContext
    requires AllDigits(ym.month)
  {
    var mm := PadStart2(ym.month);
    MonthContext(ym.year + "-" + mm, ym.year + mm + "01", BuildVariants(ym.year, mm), CanonicalVariants(ym.year, mm))
  }

  /** `getMonthContextFromInput`; `today` stands for `new Date()`. */
  function GetMonthContext(value: Option<string>, today: CalendarMonth): (r: MonthContext)
    requires ValidCalendar(today)
    ensures r.canonical in r.canonicalVariants && Distinct(r.canonicalVariants)
    ensures 0 < |r.variants| <= 6 && Distinct(r.variants) && r.variants[0] == r.canonical
    ensures |r.display| == |r.canonical| - 1
  {
    ContextOf(ExtractYearAndMonth(value, today))
  }

  /**
   * The eight-digit form the spelling "YYYY-M-01" of a single-digit month M
   * normalises to: it has seven digits only, so M and the day's first digit are
   * read as the month, and January 2024 also matches "20241001".
   */
  function SingleDigitVariant(year: string, mm: string): string
    requires |mm| == 2
  {
    year + [mm[1], '0'] + "01"
  }

  predicate SingleDigitMonth(mm: string)
    requires |mm| == 2
  {
    mm[0] == '0' && mm[1] != '0'
  }

  /** The eight-digit spellings are already canonical, and YYYYMM gains day 01. */
  lemma NormalizePlainSpellings(y: string, mm: string)
    requires |y| == 4 && AllDigits(y) && |mm| == 2 && AllDigits(mm)
    ensures Normalize(Some(y + mm + "01")) == Some(y + mm + "01")
    ensures Normalize(Some(y + mm)) == Some(y + mm + "01")
  {
    MonthForm(y, mm);
    AllDigitsAppend(y, mm);
    DigitsOfDigits(y + mm);
    NormalizeOfDigits(y + mm, y + mm);
    assert (y + mm)[..6] == y + mm;
  }

  /** The dashed spellings with a two-digit month all name day 01 of that month. */
  lemma NormalizeDashedSpellings(y: string, mm: string)
    requires |y| == 4 && AllDigits(y) && |mm| == 2 && AllDigits(mm)
    ensures Normalize(Some(y + "-" + mm + "-01")) == Some(y + mm + "01")
    ensures Normalize(Some(y + "-" + mm)) == Some(y + mm + "01")
  {
    DisplayPieces(y, mm);
    assert y + "-" + mm + "-01" == (y + "-" + mm) + "-" + "01";
    DigitsAroundDash(y + "-" + mm, "01");
    DigitsOfDigits("01");
    var c := y + mm + "01";
    NormalizeOfDigits(y + "-" + mm + "-01", c);
    assert c[..8] == c;
  }

  /** The digits of "YYYY-M" for a single digit M. */
  lemma SingleDigitDigits(y: string, m: string)
    requires |y| == 4 && AllDigits(y) && |m| == 1 && IsDigit(m[0])
    ensures Digits(y + "-" + m) == y + m
  {
    DigitsOfDigits(y);
    DigitsOfDigits(m);
    DigitsAroundDash(y, m);
  }

  /**
   * A single-digit month `m` spelled "YYYY-M-01" has seven digits, so its month
   * is read as M0; "YYYY-M" has five and no normal form.
   */
  lemma NormalizeSingleDigitSpellings(y: string, mm: string, m: string)
    requires |y| == 4 && AllDigits(y) && |mm| == 2 && |m| == 1 && IsDigit(m[0]) && m[0] == mm[1]
    ensures Normalize(Some(y + "-" + m + "-01")) == Some(SingleDigitVariant(y, mm))
    ensures Normalize(Some(y + "-" + m)) == None
  {
    SingleDigitDigits(y, m);
    NormalizeOfDigits(y + "-" + m, y + m);
    SingleDigitDayDigits(y, mm, m);
  }

  /** The digits of "YYYY-M-01" for a single digit M. */
  lemma SingleDigitDayDigitsOf(y: string, m: string)
    requires |y| == 4 && AllDigits(y) && |m| == 1 && IsDigit(m[0])
    ensures Digits(y + "-" + m + "-01") == y + m + "01"
  {
    var a := y + "-" + m;
    SingleDigitDigits(y, m);
    assert a + "-01" == a + "-" + "01";
    DigitsAroundDash(a, "01");
    DigitsOfDigits("01");
  }

  /** "YYYY-M-01" reads as the seven digits YYYYM01, so as month M0. */
  lemma SingleDigitDayDigits(y: string, mm: string, m: string)
    requires |y| == 4 && AllDigits(y) && |mm| == 2 && |m| == 1 && IsDigit(m[0]) && m[0] == mm[1]
    ensures Normalize(Some(y + "-" + m + "-01")) == Some(SingleDigitVariant(y, mm))
  {
    var d := y + m + "01";
    SingleDigitDayDigitsOf(y, m);
    NormalizeOfDigits(y + "-" + m + "-01", d);
    assert d[..6] == y + [mm[1], '0'];
  }

  /** The spellings that write the month as given normalise to the canonical month. */
  lemma MonthSpellingAt(y: string, mm: string, k: nat)
    requires |y| == 4 && AllDigits(y) && |mm| == 2 && AllDigits(mm) && k < 6 && k != 3 && k != 5
    ensures Normalize(Some(Spellings(y, mm)[k])) == Some(y + mm + "01")
  {
    var sp := Spellings(y, mm);
    if k == 0 {
      assert sp[0] == y + mm + "01";
      NormalizePlainSpellings(y, mm);
    } else if k == 1 {
      assert sp[1] == y + mm;
      NormalizePlainSpellings(y, mm);
    } else if k == 2 {
      assert sp[2] == y + "-" + mm + "-01";
      NormalizeDashedSpellings(y, mm);
    } else {
      assert sp[4] == y + "-" + mm;
      NormalizeDashedSpellings(y, mm);
    }
  }

  /** The spellings with a one-digit month of a month written with a leading zero. */
  lemma SingleDigitSpellingsAt(y: string, mm: string)
    requires |y| == 4 && AllDigits(y) && |mm| == 2 && AllDigits(mm) && mm[0] == '0'
    ensures Normalize(Some(Spellings(y, mm)[3])) == Some(SingleDigitVariant(y, mm))
    ensures Normalize(Some(Spellings(y, mm)[5])) == None
  {
    var m := [mm[1]];
    LeadingZeroRoundTrip(mm);
    assert Spellings(y, mm)[3] == y + "-" + m + "-01";
    assert Spellings(y, mm)[5] == y + "-" + m;
    NormalizeSingleDigitSpellings(y, mm, m);
  }

  /** The normal forms of the spellings of a month from 10 to 12 (or of a month beyond). */
  lemma TwoDigitMonthSpellings(y: string, mm: string)
    requires |y| == 4 && AllDigits(y) && |mm| == 2 && AllDigits(mm) && mm[0] != '0'
    ensures forall k :: 0 <= k < 6 ==> Normalize(Some(Spellings(y, mm)[k])) == Some(y + mm + "01")
  {
    forall k | 0 <= k < 6 ensures Normalize(Some(Spellings(y, mm)[k])) == Some(y + mm + "01") {
      if k == 3 || k == 5 {
        TwoDigitRoundTrip(mm);
        assert Spellings(y, mm)[k] == Spellings(y, mm)[k - 1];
        MonthSpellingAt(y, mm, k - 1);
      } else {
        MonthSpellingAt(y, mm, k);
      }
    }
  }

  /** The normal forms of the spellings of a month written with a leading zero. */
  lemma LeadingZeroMonthSpellings(y: string, mm: string)
    requires |y| == 4 && AllDigits(y) && |mm| == 2 && AllDigits(mm) && mm[0] == '0'
    ensures var c, sp := y + mm + "01", Spellings(y, mm);
      && (forall k :: 0 <= k < 6 && k != 3 && k != 5 ==> Normalize(Some(sp[k])) == Some(c))
      && Normalize(Some(sp[3])) == Some(SingleDigitVariant(y, mm))
      && Normalize(Some(sp[5])) == None
  {
    forall k | 0 <= k < 6 && k != 3 && k != 5 ensures Normalize(Some(Spellings(y, mm)[k])) == Some(y + mm + "01") {
      MonthSpellingAt(y, mm, k);
    }
    SingleDigitSpellingsAt(y, mm);
  }

  /**
   * Each of the six spellings normalises to the canonical month, to the
   * seven-digit reading of "YYYY-M-01", or to nothing; the fourth spelling
   * "YYYY-M-01" of a single-digit month gives that reading.
   */
  lemma SpellingNormalForms(y: string, mm: string)
    requires |y| == 4 && AllDigits(y) && |mm| == 2 && AllDigits(mm)
    ensures var c, sp := y + mm + "01", Spellings(y, mm);
      var x := if SingleDigitMonth(mm) then SingleDigitVariant(y, mm) else c;
      && (forall k :: 0 <= k < 6 ==> Normalize(Some(sp[k])) in {None, Some(c), Some(x)})
      && (SingleDigitMonth(mm) ==> Normalize(Some(sp[3])) == Some(x))
  {
    if mm[0] == '0' {
      LeadingZeroNormalForms(y, mm);
      if mm[1] == '0' {
        assert SingleDigitVariant(y, mm) == y + mm + "01";
      }
    } else {
      TwoDigitMonthSpellings(y, mm);
    }
  }

  /** The normal forms of the spellings of a month written with a leading zero, as a set. */
  lemma LeadingZeroNormalForms(y: string, mm: string)
    requires |y| == 4 && AllDigits(y) && |mm| == 2 && AllDigits(mm) && mm[0] == '0'
    ensures var c, x, sp := y + mm + "01", SingleDigitVariant(y, mm), Spellings(y, mm);
      && (forall k :: 0 <= k < 6 ==> Normalize(Some(sp[k])) in {None, Some(c), Some(x)})
      && Normalize(Some(sp[3])) == Some(x)
  {
    LeadingZeroMonthSpellings(y, mm);
  }

  /**
   * Every spelling `BuildVariants` lists normalises to the canonical month, to
   * the seven-digit reading of "YYYY-M-01", or to nothing; and for a
   * single-digit month the seven-digit reading does occur.
   */
  lemma VariantNormalForms(y: string, mm: string)
    requires |y| == 4 && AllDigits(y) && |mm| == 2 && AllDigits(mm)
    ensures var c, v := y + mm + "01", BuildVariants(y, mm);
      var x := if SingleDigitMonth(mm) then SingleDigitVariant(y, mm) else c;
      && (forall s :: s in v ==> Normalize(Some(s)) in {None, Some(c), Some(x)})
      && (SingleDigitMonth(mm) ==> exists s :: s in v && Normalize(Some(s)) == Some(x))
  {
    var c := y + mm + "01";
    var x := if SingleDigitMonth(mm) then SingleDigitVariant(y, mm) else c;
    assert PadStart2(mm) == mm;
    var sp := Spellings(y, mm);
    var v := BuildVariants(y, mm);
    SpellingNormalForms(y, mm);
    forall s | s in v ensures Normalize(Some(s)) in {None, Some(c), Some(x)} {
      var k :| 0 <= k < 6 && sp[k] == s;
    }
    if SingleDigitMonth(mm) {
      assert sp[3] in v;
    }
  }

  /** Normal forms drawn from `c` and `x` only, with `c` first, stay so after filtering. */
  lemma {:induction false} NormalFormsFromTwo(v: seq<string>, c: string, x: string)
    requires forall s :: s in v ==> Normalize(Some(s)) in {None, Some(c), Some(x)}
    ensures forall n :: n in NormalizedAll(v) ==> n == c || n == x
    ensures |v| > 0 && Normalize(Some(v[0])) == Some(c) ==> |NormalizedAll(v)| > 0 && NormalizedAll(v)[0] == c
  {
    if v != [] {
      NormalFormsFromTwo(v[1..], c, x);
    }
  }

  /** A spelling with a normal form contributes it to the filtered list. */
  lemma {:induction false} NormalizedAllContains(v: seq<string>, j: nat)
    requires j < |v| && Normalize(Some(v[j])).Some?
    ensures Normalize(Some(v[j])).value in NormalizedAll(v)
  {
    if j == 0 {
      assert NormalizedAll(v) == [Normalize(Some(v[0])).value] + NormalizedAll(v[1..]);
    } else {
      var t := v[1..];
      assert t[j - 1] == v[j];
      NormalizedAllContains(t, j - 1);
      var n := Normalize(Some(v[0]));
      assert NormalizedAll(v) == (if n.Some? then [n.value] else []) + NormalizedAll(t);
    }
  }

  /** The list `CanonicalVariants` deduplicates holds the canonical month first and otherwise only `x`. */
  lemma CanonicalCandidates(y: string, mm: string)
    requires |y| == 4 && AllDigits(y) && |mm| == 2 && AllDigits(mm)
    ensures var c, all := y + mm + "01", NormalizedAll(BuildVariants(y, mm)) + [y + mm + "01"];
      var x := if SingleDigitMonth(mm) then SingleDigitVariant(y, mm) else c;
      && all[0] == c
      && (forall n :: n in all ==> n == c || n == x)
      && (SingleDigitMonth(mm) ==> x in all)
  {
    var c := y + mm + "01";
    var x := if SingleDigitMonth(mm) then SingleDigitVariant(y, mm) else c;
    var nv := NormalizedAll(BuildVariants(y, mm));
    var all := nv + [c];
    NormalFormsOfVariants(y, mm);
    assert all[0] == nv[0];
    assert c in nv;
    if SingleDigitMonth(mm) {
      SingleDigitReadingOccurs(y, mm);
    }
  }

  /** The normal forms of a month's variants start with the canonical month and are otherwise `x`. */
  lemma NormalFormsOfVariants(y: string, mm: string)
    requires |y| == 4 && AllDigits(y) && |mm| == 2 && AllDigits(mm)
    ensures var c, nv := y + mm + "01", NormalizedAll(BuildVariants(y, mm));
      var x := if SingleDigitMonth(mm) then SingleDigitVariant(y, mm) else c;
      && |nv| > 0 && nv[0] == c
      && (forall n :: n in nv ==> n == c || n == x)
  {
    var c := y + mm + "01";
    var x := if SingleDigitMonth(mm) then SingleDigitVariant(y, mm) else c;
    var v := BuildVariants(y, mm);
    assert PadStart2(mm) == mm;
    assert |v| > 0 && v[0] == c;
    MonthForm(y, mm);
    VariantNormalForms(y, mm);
    NormalFormsFromTwo(v, c, x);
  }

  /** For a single-digit month the seven-digit reading is among the normal forms of its variants. */
  lemma SingleDigitReadingOccurs(y: string, mm: string)
    requires |y| == 4 && AllDigits(y) && |mm| == 2 && AllDigits(mm) && SingleDigitMonth(mm)
    ensures SingleDigitVariant(y, mm) in NormalizedAll(BuildVariants(y, mm))
  {
    var q := SingleDigitVariant(y, mm);
    var v := BuildVariants(y, mm);
    VariantNormalForms(y, mm);
    var s :| s in v && Normalize(Some(s)) == Some(q);
    var j :| 0 <= j < |v| && v[j] == s;
    NormalizedAllContains(v, j);
  }

  /**
   * The canonical spellings of a month: only "YYYYMM01" for months 10 to 12
   * (and for "00"), and in addition the seven-digit reading of "YYYY-M-01" for a
   * single-digit month.
   */
  lemma CanonicalVariantsShape(y: string, mm: string)
    requires |y| == 4 && AllDigits(y) && |mm| == 2 && AllDigits(mm)
    ensures CanonicalVariants(y, mm) ==
      if SingleDigitMonth(mm) then [y + mm + "01", SingleDigitVariant(y, mm)] else [y + mm + "01"]
  {
    if SingleDigitMonth(mm) {
      SingleDigitCanonicalVariants(y, mm);
    } else {
      OtherCanonicalVariants(y, mm);
    }
  }

  /** The canonical spellings of a single-digit month: its own and the seven-digit reading. */
  lemma SingleDigitCanonicalVariants(y: string, mm: string)
    requires |y| == 4 && AllDigits(y) && |mm| == 2 && AllDigits(mm) && SingleDigitMonth(mm)
    ensures CanonicalVariants(y, mm) == [y + mm + "01", SingleDigitVariant(y, mm)]
  {
    var c, q := y + mm + "01", SingleDigitVariant(y, mm);
    var all := NormalizedAll(BuildVariants(y, mm)) + [c];
    CanonicalCandidates(y, mm);
    assert q[4] != c[4];
    DedupOfTwo(all, c, q);
  }

  /** The canonical spellings of any other month: its own only. */
  lemma OtherCanonicalVariants(y: string, mm: string)
    requires |y| == 4 && AllDigits(y) && |mm| == 2 && AllDigits(mm) && !SingleDigitMonth(mm)
    ensures CanonicalVariants(y, mm) == [y + mm + "01"]
  {
    var c := y + mm + "01";
    var all := NormalizedAll(BuildVariants(y, mm)) + [c];
    CanonicalCandidates(y, mm);
    DedupOfOne(all, c);
  }

  /** Every canonical spelling is in canonical eight-digit form. */
  lemma CanonicalVariantsAreNormal(y: string, mm: string)
    requires |y| == 4 && AllDigits(y) && |mm| == 2 && AllDigits(mm)
    ensures forall x :: x in CanonicalVariants(y, mm) ==> Normalize(Some(x)) == Some(x)
  {
    CanonicalVariantsShape(y, mm);
    MonthForm(y, mm);
    if SingleDigitMonth(mm) {
      MonthForm(y, [mm[1], '0']);
    }
  }

  /** The context of a two-digit month is built from the month as it stands. */
  lemma ContextOfTwoDigits(y: string, mm: string)
    requires |mm| == 2 && AllDigits(mm)
    ensures ContextOf(YearAndMonth(y, mm)) ==
      MonthContext(y + "-" + mm, y + mm + "01", BuildVariants(y, mm), CanonicalVariants(y, mm))
  {
    assert PadStart2(mm) == mm;
  }

  /** The canonical spellings in the context of a two-digit month, as `CanonicalVariantsShape` lists them. */
  lemma ContextCanonicalVariants(y: string, mm: string)
    requires |y| == 4 && AllDigits(y) && |mm| == 2 && AllDigits(mm)
    ensures ContextOf(YearAndMonth(y, mm)).canonicalVariants ==
      if SingleDigitMonth(mm) then [y + mm + "01", SingleDigitVariant(y, mm)] else [y + mm + "01"]
  {
    ContextOfTwoDigits(y, mm);
    CanonicalVariantsShape(y, mm);
  }

  /** An eight-digit month is shown by its first four digits, a dash and the next two. */
  lemma ShowEightDigits(n: string)
    requires |n| == 8 && AllDigits(n)
    ensures ToDisplay(n) == n[..4] + "-" + n[4..6]
  {
    NormalizeFixpoints(n);
  }

  /**
   * The context of a four-digit year and two-digit month: `display` is
   * "YYYY-MM", `canonical` is its eight-digit form and shows as `display`, and
   * the canonical spellings are those of `CanonicalVariantsShape`.
   */
  lemma ContextShape(y: string, mm: string)
    requires |y| == 4 && AllDigits(y) && |mm| == 2 && AllDigits(mm)
    ensures var r := ContextOf(YearAndMonth(y, mm));
      && r.display == y + "-" + mm
      && r.canonical == y + mm + "01"
      && ToDisplay(r.canonical) == r.display
      && Normalize(Some(r.display)) == Some(r.canonical)
      && r.canonicalVariants == (if SingleDigitMonth(mm) then [r.canonical, SingleDigitVariant(y, mm)] else [r.canonical])
      && forall x :: x in r.canonicalVariants ==> Normalize(Some(x)) == Some(x)
  {
    ContextOfTwoDigits(y, mm);
    CanonicalVariantsShape(y, mm);
    CanonicalVariantsAreNormal(y, mm);
    DisplayPieces(y, mm);
    MonthForm(y, mm);
  }

  /**
   * The context of a request whose year has four digits (any year from 1000 to
   * 9999, or one read from the value) has the shape `ContextShape` gives.
   */
  lemma MonthContextShape(value: Option<string>, today: CalendarMonth)
    requires ValidCalendar(today)
    requires HasYearMonth(value) || 1000 <= today.year < 10000
    ensures var ym := ExtractYearAndMonth(value, today);
      && |ym.year| == 4 && AllDigits(ym.year) && |ym.month| == 2 && AllDigits(ym.month)
      && GetMonthContext(value, today) == ContextOf(ym)
  {
  }

  /** Without a value the context is today's month, its year and month read back as today's. */
  lemma CurrentMonthContext(today: CalendarMonth)
    requires ValidCalendar(today) && 1000 <= today.year < 10000
    ensures var d := GetMonthContext(None, today).display;
      && |d| == 7 && d[4] == '-' && AllDigits(d[..4]) && AllDigits(d[5..])
      && DecimalValue(d[..4]) == today.year && DecimalValue(d[5..]) == today.month
  {
    assert !HasYearMonth(None);
    var ym := ExtractYearAndMonth(None, today);
    ContextShape(ym.year, ym.month);
    var d := ym.year + "-" + ym.month;
    assert d[..4] == ym.year && d[5..] == ym.month;
  }

  /** A value of six digits or more names its own year and month. */
  lemma ExtractFromDigits(v: string, today: CalendarMonth)
    requires ValidCalendar(today) && |v| >= 6 && AllDigits(v)
    ensures ExtractYearAndMonth(Some(v), today) == YearAndMonth(v[..4], v[4..6])
  {
    DigitsOfDigits(v);
  }

  /**
   * In the context of a single-digit month `0M`, the canonical form of month
   * `M0` is among the canonical spellings, differs from the month's own, and is
   * shown as month `M0`.
   */
  lemma TenfoldInContext(y: string, mm: string)
    requires |y| == 4 && AllDigits(y) && |mm| == 2 && AllDigits(mm) && SingleDigitMonth(mm)
    ensures var ctx, t := ContextOf(YearAndMonth(y, mm)), y + [mm[1], '0'] + "01";
      && t in ctx.canonicalVariants && t != ctx.canonical && ToDisplay(t) == y + "-" + [mm[1], '0']
  {
    ContextOfTwoDigits(y, mm);
    TenfoldCanonical(y, mm);
    TenfoldShown(y, mm);
  }

  /** For a single-digit month `0M`, the canonical form of month `M0` is a second canonical spelling. */
  lemma TenfoldCanonical(y: string, mm: string)
    requires |y| == 4 && AllDigits(y) && |mm| == 2 && AllDigits(mm) && SingleDigitMonth(mm)
    ensures y + [mm[1], '0'] + "01" in CanonicalVariants(y, mm)
  {
    CanonicalVariantsShape(y, mm);
    assert CanonicalVariants(y, mm)[1] == SingleDigitVariant(y, mm);
  }

  /** The canonical form of month `M0` differs from that of `0M` and is shown as month `M0`. */
  lemma TenfoldShown(y: string, mm: string)
    requires |y| == 4 && AllDigits(y) && |mm| == 2 && AllDigits(mm) && SingleDigitMonth(mm)
    ensures var c, t := y + mm + "01", y + [mm[1], '0'] + "01";
      t != c && ToDisplay(t) == y + "-" + [mm[1], '0']
  {
    var c, t := y + mm + "01", y + [mm[1], '0'] + "01";
    assert t[4] != c[4];
    var m := [mm[1], '0'];
    assert AllDigits(m);
    MonthForm(y, m);
  }

  /**
   * A request for a single-digit month M (such as "202401") is also matched by
   * the stored spelling of month M0 ("20241001", October for January), and that
   * spelling is shown as month M0.
   */
  lemma SingleDigitMonthAlsoMatchesTenfold(v: string, today: CalendarMonth)
    requires ValidCalendar(today) && |v| == 6 && AllDigits(v) && v[4] == '0' && v[5] != '0'
    ensures var tenfold := v[..4] + [v[5], '0'] + "01";
      && tenfold in GetMonthContext(Some(v), today).canonicalVariants
      && tenfold != GetMonthContext(Some(v), today).canonical
      && ToDisplay(tenfold) == v[..4] + "-" + [v[5], '0']
  {
    ExtractFromDigits(v, today);
    var y, mm := v[..4], v[4..6];
    assert AllDigits(y) && AllDigits(mm) && mm[1] == v[5];
    assert GetMonthContext(Some(v), today) == ContextOf(YearAndMonth(y, mm));
    TenfoldInContext(y, mm);
  }
}
