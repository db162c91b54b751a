/**
 * The monthly ranking route (app/api/ranking/monthly/route.ts) after the rows
 * have been fetched: keep the rows stored under the requested month, order them
 * by wins and then by name, and show each row's month as "YYYY-MM".
 */
module MonthlyRanking {
  import opened Wrappers
  import opened Collections
  import opened YearMonth
  import opened SessionTypes

  /** A row of the rankings table; `id` stands for the columns the route passes through untouched. */
  datatype RankingRow = RankingRow(id: string, playerName: Option<string>, wins: Option<int>, yearMonth: Option<string>)

  datatype MonthlyBody = MonthlyBody(rankings: seq<RankingRow>, yearMonth: string)

  /**
   * `new Date().toISOString().slice(0, 7).replace('-', '')`: the UTC year and
   * month as six digits.
   */
  function IsoYearMonth(utcToday: CalendarMonth): (r: string)
    requires ValidCalendar(utcToday) && 1000 <= utcToday.year < 10000
    ensures |r| == 6 && AllDigits(r)
    ensures DecimalValue(r[..4]) == utcToday.year && DecimalValue(r[4..]) == utcToday.month
  {
    var y, m := ShowNat(utcToday.year), PadStart2(ShowNat(utcToday.month));
    YearThenMonth(utcToday.year, utcToday.month);
    assert (y + m)[..4] == y && (y + m)[4..] == m;
    y + m
  }

  /** A four-digit year followed by a padded month: six digits that read back as both. */
  lemma YearThenMonth(year: nat, month: nat)
    requires 1000 <= year < 10000 && 1 <= month <= 12
    ensures |ShowNat(year)| == 4 && |PadStart2(ShowNat(month))| == 2
    ensures AllDigits(ShowNat(year) + PadStart2(ShowNat(month)))
    ensures DecimalValue(ShowNat(year)) == year && DecimalValue(PadStart2(ShowNat(month))) == month
  {
    ShowNatWidth(year);
    DecimalValueOfShowNat(year);
    PaddedMonth(month);
    AllDigitsAppend(ShowNat(year), PadStart2(ShowNat(month)));
  }

  /**
   * The UTC clock is read only when the parameter is missing or empty, and
   * `toISOString` then gives six digits only for a four-digit year.
   */
  predicate ClockFits(param: Option<string>, utcToday: CalendarMonth) {
    Present(param) || (ValidCalendar(utcToday) && 1000 <= utcToday.year < 10000)
  }

  /** `searchParams.get('year_month') || ...`: the parameter when present, else the current UTC month. */
  function RequestedMonth(param: Option<string>, utcToday: CalendarMonth): (r: string)
    requires ClockFits(param, utcToday)
    ensures Present(param) ==> r == param.value
    ensures !Present(param) ==>
      |r| == 6 && AllDigits(r) && DecimalValue(r[..4]) == utcToday.year && DecimalValue(r[4..]) == utcToday.month
  {
    if Present(param) then param.value else IsoYearMonth(utcToday)
  }

  /** The filter of the route: the row's month normalises to one of the requested month's spellings. */
  predicate Keep(row: RankingRow, canonicalVariants: seq<string>) {
    match Normalize(row.yearMonth)
    case None => false
    case Some(normalized) => normalized in canonicalVariants
  }

  /** The rows the filter keeps, in input order. */
  function Kept(rows: seq<RankingRow>, canonicalVariants: seq<string>): (r: seq<RankingRow>)
    ensures |r| <= |rows|
  {
    if rows == [] then []
    else
      assert rows == [rows[0]] + rows[1..];
      (if Keep(rows[0], canonicalVariants) then [rows[0]] else []) + Kept(rows[1..], canonicalVariants)
  }

  /** The filter of a concatenation is the concatenation of the filtered parts, so `Kept` keeps input order. */
  lemma {:induction false} KeptAppend(a: seq<RankingRow>, b: seq<RankingRow>, canonicalVariants: seq<string>)
    ensures Kept(a + b, canonicalVariants) == Kept(a, canonicalVariants) + Kept(b, canonicalVariants)
  {
    if a == [] {
      assert a + b == b;
    } else {
      var head := if Keep(a[0], canonicalVariants) then [a[0]] else [];
      assert (a + b)[0] == a[0] && (a + b)[1..] == a[1..] + b;
      calc {
        Kept(a + b, canonicalVariants);
        head + Kept(a[1..] + b, canonicalVariants);
        { KeptAppend(a[1..], b, canonicalVariants); }
        head + (Kept(a[1..], canonicalVariants) + Kept(b, canonicalVariants));
        { AppendAssoc(head, Kept(a[1..], canonicalVariants), Kept(b, canonicalVariants)); }
        (head + Kept(a[1..], canonicalVariants)) + Kept(b, canonicalVariants);
        Kept(a, canonicalVariants) + Kept(b, canonicalVariants);
      }
    }
  }

  /** The filter keeps every copy of a row that passes it, and no other row. */
  lemma {:induction false} KeptCounts(rows: seq<RankingRow>, canonicalVariants: seq<string>)
    ensures forall row ::
      multiset(Kept(rows, canonicalVariants))[row] == if Keep(row, canonicalVariants) then multiset(rows)[row] else 0
  {
    if rows != [] {
      var head := if Keep(rows[0], canonicalVariants) then [rows[0]] else [];
      KeptCounts(rows[1..], canonicalVariants);
      assert rows == [rows[0]] + rows[1..];
      assert multiset(Kept(rows, canonicalVariants)) == multiset(head) + multiset(Kept(rows[1..], canonicalVariants));
    }
  }

  /** A single row is kept exactly when it passes the filter. */
  lemma KeptOne(row: RankingRow, canonicalVariants: seq<string>)
    ensures Kept([row], canonicalVariants) == if Keep(row, canonicalVariants) then [row] else []
  {
    assert [row][1..] == [];
  }

  /** `wins ?? 0`. */
  function WinsOrZero(row: RankingRow): int {
    match row.wins
    case None => 0
    case Some(w) => w
  }

  /**
   * The comparator of the route as an order: more wins first, then names in
   * ascending order (`player_name ?? ''`).
   */
  predicate RowBefore(a: RankingRow, b: RankingRow) {
    || WinsOrZero(b) < WinsOrZero(a)
    || (WinsOrZero(a) == WinsOrZero(b) && LexLe(OrEmpty(a.playerName), OrEmpty(b.playerName)))
  }

  /** The comparator is a total preorder, so the stable sort orders the rows by it. */
  lemma RowBeforeTotalPreorder()
    ensures TotalPreorder(RowBefore)
  {
    forall a, b ensures RowBefore(a, b) || RowBefore(b, a) {
      LexLeTotal(OrEmpty(a.playerName), OrEmpty(b.playerName));
    }
    forall a, b, c | RowBefore(a, b) && RowBefore(b, c) ensures RowBefore(a, c) {
      if WinsOrZero(a) == WinsOrZero(b) == WinsOrZero(c) {
        LexLeTransitive(OrEmpty(a.playerName), OrEmpty(b.playerName), OrEmpty(c.playerName));
      }
    }
  }

  /** `{ ...ranking, year_month: toDisplayYearMonth(ranking.year_month) }` for a kept row. */
  function Reformat(row: RankingRow): (r: RankingRow)
    requires row.yearMonth.Some?
    ensures r.id == row.id && r.playerName == row.playerName && r.wins == row.wins
    ensures r.yearMonth == Some(ToDisplay(row.yearMonth.value))
  {
    row.(yearMonth := Some(ToDisplay(row.yearMonth.value)))
  }

  /** A kept row is an input row that passes the filter, so it has a month. */
  lemma KeptRow(rows: seq<RankingRow>, canonicalVariants: seq<string>, row: RankingRow)
    requires row in Kept(rows, canonicalVariants)
    ensures row in rows && Keep(row, canonicalVariants) && row.yearMonth.Some?
  {
    KeptCounts(rows, canonicalVariants);
    assert multiset(Kept(rows, canonicalVariants))[row] > 0;
    assert multiset(rows)[row] > 0;
  }

  /** A kept row has a month. */
  lemma KeptHaveMonths(rows: seq<RankingRow>, canonicalVariants: seq<string>)
    ensures forall row :: row in Kept(rows, canonicalVariants) ==> Keep(row, canonicalVariants) && row.yearMonth.Some?
  {
    forall row | row in Kept(rows, canonicalVariants)
      ensures Keep(row, canonicalVariants) && row.yearMonth.Some?
    {
      KeptRow(rows, canonicalVariants, row);
    }
  }

  /** The rows of the response: the kept rows, sorted, with their month reformatted. */
  function Respond(rows: seq<RankingRow>, canonicalVariants: seq<string>): (r: seq<RankingRow>)
    ensures |r| == |Kept(rows, canonicalVariants)|
  {
    var sorted := SortBy(Kept(rows, canonicalVariants), RowBefore);
    KeptHaveMonths(rows, canonicalVariants);
    seq(|sorted|, i requires 0 <= i < |sorted| =>
      assert sorted[i] in multiset(sorted); Reformat(sorted[i]))
  }

  /**
   * `GET /api/ranking/monthly` after the fetch: 500 when the fetch failed,
   * otherwise the reformatted, sorted rows of the requested month and the month
   * in display form. `fetched` is the store's answer (rows, possibly null, or an
   * error message); `utcToday` and `localToday` stand for `new Date()`.
   */
  function MonthlyRanking(param: Option<string>, fetched: Result<Option<seq<RankingRow>>, string>,
                          utcToday: CalendarMonth, localToday: CalendarMonth): (r: Reply<MonthlyBody>)
    requires ClockFits(param, utcToday) && ValidCalendar(localToday)
    ensures fetched.Failure? <==> r == ServerError
    ensures fetched.Success? ==> r.Ok?
    ensures fetched.Success? ==>
      && r.body.rankings == Respond(if fetched.value.Some? then fetched.value.value else [], VariantsOf(param, utcToday, localToday))
      && r.body.yearMonth == GetMonthContext(Some(RequestedMonth(param, utcToday)), localToday).display
  {
    match fetched
    case Failure(_) => ServerError
    case Success(rows) =>
      var context := GetMonthContext(Some(RequestedMonth(param, utcToday)), localToday);
      var all := match rows case None => [] case Some(rs) => rs;
      Ok(MonthlyBody(Respond(all, context.canonicalVariants), context.display))
  }

  /** The rows of a successful response and its month. */
  function BodyOf(param: Option<string>, rows: Option<seq<RankingRow>>, utcToday: CalendarMonth, localToday: CalendarMonth): MonthlyBody
    requires ClockFits(param, utcToday) && ValidCalendar(localToday)
  {
    MonthlyRanking(param, Success(rows), utcToday, localToday).body
  }

  /** The requested month's canonical spellings. */
  function VariantsOf(param: Option<string>, utcToday: CalendarMonth, localToday: CalendarMonth): seq<string>
    requires ClockFits(param, utcToday) && ValidCalendar(localToday)
  {
    GetMonthContext(Some(RequestedMonth(param, utcToday)), localToday).canonicalVariants
  }

  /** Reformatting keeps what the comparator looks at. */
  lemma RespondSorted(rows: seq<RankingRow>, canonicalVariants: seq<string>)
    ensures SortedBy(Respond(rows, canonicalVariants), RowBefore)
  {
    var sorted := SortBy(Kept(rows, canonicalVariants), RowBefore);
    RowBeforeTotalPreorder();
    SortBySorted(Kept(rows, canonicalVariants), RowBefore);
    var r := Respond(rows, canonicalVariants);
    forall i, j | 0 <= i < j < |r| ensures RowBefore(r[i], r[j]) {
      assert RowBefore(sorted[i], sorted[j]);
    }
  }

  /** Each response row is a kept input row with its month shown as "YYYY-MM". */
  lemma RespondRowsAreKept(rows: seq<RankingRow>, canonicalVariants: seq<string>)
    ensures forall o :: o in Respond(rows, canonicalVariants) ==>
      exists row :: row in rows && Keep(row, canonicalVariants) && row.yearMonth.Some? && o == Reformat(row)
  {
    var kept := Kept(rows, canonicalVariants);
    var sorted := SortBy(kept, RowBefore);
    var r := Respond(rows, canonicalVariants);
    forall o | o in r
      ensures exists row :: row in rows && Keep(row, canonicalVariants) && row.yearMonth.Some? && o == Reformat(row)
    {
      var i :| 0 <= i < |r| && r[i] == o;
      RespondEntry(rows, canonicalVariants, i);
      KeptRow(rows, canonicalVariants, sorted[i]);
    }
  }

  /** Entry `i` of the response is entry `i` of the sorted kept rows, reformatted. */
  lemma RespondEntry(rows: seq<RankingRow>, canonicalVariants: seq<string>, i: nat)
    requires i < |Respond(rows, canonicalVariants)|
    ensures var row := SortBy(Kept(rows, canonicalVariants), RowBefore)[i];
      row in Kept(rows, canonicalVariants) && row.yearMonth.Some? && Respond(rows, canonicalVariants)[i] == Reformat(row)
  {
    var sorted := SortBy(Kept(rows, canonicalVariants), RowBefore);
    assert sorted[i] in multiset(sorted);
    KeptHaveMonths(rows, canonicalVariants);
  }

  /** Every kept input row appears in the response, reformatted. */
  lemma KeptRowsAreInRespond(rows: seq<RankingRow>, canonicalVariants: seq<string>)
    ensures forall row :: row in rows && Keep(row, canonicalVariants) ==>
      row.yearMonth.Some? && Reformat(row) in Respond(rows, canonicalVariants)
  {
    var kept := Kept(rows, canonicalVariants);
    var sorted := SortBy(kept, RowBefore);
    var r := Respond(rows, canonicalVariants);
    KeptCounts(rows, canonicalVariants);
    forall row | row in rows && Keep(row, canonicalVariants)
      ensures row.yearMonth.Some? && Reformat(row) in r
    {
      assert multiset(rows)[row] > 0;
      assert multiset(kept)[row] > 0;
      assert row in multiset(sorted);
      var i :| 0 <= i < |sorted| && sorted[i] == row;
      RespondEntry(rows, canonicalVariants, i);
    }
  }

  /** The response is the sorted kept rows, reformatted. */
  lemma RespondIsReformatted(rows: seq<RankingRow>, canonicalVariants: seq<string>)
    ensures forall row :: row in SortBy(Kept(rows, canonicalVariants), RowBefore) ==> row.yearMonth.Some?
    ensures Respond(rows, canonicalVariants) == MapSeq(Reformat, SortBy(Kept(rows, canonicalVariants), RowBefore))
  {
    var sorted := SortBy(Kept(rows, canonicalVariants), RowBefore);
    SortByMembers(Kept(rows, canonicalVariants), RowBefore);
    KeptHaveMonths(rows, canonicalVariants);
    forall i | 0 <= i < |sorted|
      ensures Respond(rows, canonicalVariants)[i] == MapSeq(Reformat, sorted)[i]
    {
      RespondEntry(rows, canonicalVariants, i);
      MapSeqEntry(Reformat, sorted, i);
    }
  }

  /**
   * The response holds each kept row, reformatted, exactly as many times as
   * the store returned it: sorting neither drops nor duplicates a row.
   */
  lemma RespondCounts(rows: seq<RankingRow>, canonicalVariants: seq<string>)
    ensures forall row :: row in Kept(rows, canonicalVariants) ==> row.yearMonth.Some?
    ensures multiset(Respond(rows, canonicalVariants)) == multiset(MapSeq(Reformat, Kept(rows, canonicalVariants)))
  {
    var kept := Kept(rows, canonicalVariants);
    KeptHaveMonths(rows, canonicalVariants);
    RespondIsReformatted(rows, canonicalVariants);
    MapSeqPermutes(Reformat, SortBy(kept, RowBefore), kept);
  }

  /** Without a parameter the response is for the current UTC month. */
  lemma DefaultMonthIsCurrent(rows: Option<seq<RankingRow>>, utcToday: CalendarMonth, localToday: CalendarMonth)
    requires ValidCalendar(utcToday) && 1000 <= utcToday.year < 10000 && ValidCalendar(localToday)
    ensures var display := BodyOf(None, rows, utcToday, localToday).yearMonth;
      && |display| == 7 && display[4] == '-' && AllDigits(display[..4]) && AllDigits(display[5..])
      && DecimalValue(display[..4]) == utcToday.year && DecimalValue(display[5..]) == utcToday.month
  {
    var v := RequestedMonth(None, utcToday);
    ExtractFromDigits(v, localToday);
    var y, mm := v[..4], v[4..6];
    assert v[4..] == mm;
    ContextShape(y, mm);
    var display := y + "-" + mm;
    assert display[..4] == y && display[5..] == mm;
  }

  /** A parameter naming a year and month is answered with that month in display form. */
  lemma ParamMonthIsShown(param: string, rows: Option<seq<RankingRow>>, utcToday: CalendarMonth, localToday: CalendarMonth)
    requires ValidCalendar(localToday)
    requires param != "" && |Digits(param)| >= 6
    ensures BodyOf(Some(param), rows, utcToday, localToday).yearMonth == ToDisplay(param)
  {
    var d := Digits(param);
    MonthContextShape(Some(param), localToday);
    var ym := ExtractYearAndMonth(Some(param), localToday);
    assert ym.year + ym.month == d[..6];
    var y, mm := ym.year, ym.month;
    assert y == d[..4] && mm == d[4..6];
    ContextShape(y, mm);
    ShownFromDigits(param, d);
  }

  /** The display form of a value with six digits or more is its year, a dash and its month. */
  lemma ShownFromDigits(v: string, d: string)
    requires v != "" && Digits(v) == d && |d| >= 6
    ensures ToDisplay(v) == d[..4] + "-" + d[4..6]
  {
    NormalizeOfDigits(v, d);
    var n := Normalize(Some(v)).value;
    assert n[..4] == d[..4] && n[4..6] == d[4..6];
  }

  /** Keeping a row for a list of one or two spellings. */
  lemma KeepInPair(row: RankingRow, cv: seq<string>, c: string, q: string, single: bool)
    requires cv == if single then [c, q] else [c]
    ensures Keep(row, cv) <==> Normalize(row.yearMonth) == Some(c) || (single && Normalize(row.yearMonth) == Some(q))
  {
    var n := Normalize(row.yearMonth);
    if n.Some? {
      assert Keep(row, cv) <==> n.value in cv;
      assert n.value in cv <==> n.value == c || (single && n.value == q);
    }
  }

  /** In the context of year `y` and month `mm` a row is kept for month `mm` or, when single-digit, its tenfold. */
  lemma KeepInContext(row: RankingRow, y: string, mm: string)
    requires |y| == 4 && AllDigits(y) && |mm| == 2 && AllDigits(mm)
    ensures Keep(row, ContextOf(YearAndMonth(y, mm)).canonicalVariants) <==>
      || Normalize(row.yearMonth) == Some(y + mm + "01")
      || (SingleDigitMonth(mm) && Normalize(row.yearMonth) == Some(SingleDigitVariant(y, mm)))
  {
    ContextCanonicalVariants(y, mm);
    KeepInPair(row, ContextOf(YearAndMonth(y, mm)).canonicalVariants, y + mm + "01", SingleDigitVariant(y, mm), SingleDigitMonth(mm));
  }

  /**
   * A row is kept exactly when its month normalises to the requested month's
   * canonical form, or, for a single-digit month M, to the canonical form of
   * month M0 (the seven-digit reading of "YYYY-M-01"). Holds whenever the
   * requested year has four digits.
   */
  lemma KeptRowsOfMonth(row: RankingRow, param: Option<string>, utcToday: CalendarMonth, localToday: CalendarMonth)
    requires ClockFits(param, utcToday) && ValidCalendar(localToday)
    requires 1000 <= localToday.year < 10000
    ensures var ym := ExtractYearAndMonth(Some(RequestedMonth(param, utcToday)), localToday);
      Keep(row, VariantsOf(param, utcToday, localToday)) <==>
        || Normalize(row.yearMonth) == Some(ym.year + ym.month + "01")
        || (SingleDigitMonth(ym.month) && Normalize(row.yearMonth) == Some(SingleDigitVariant(ym.year, ym.month)))
  {
    var v := Some(RequestedMonth(param, utcToday));
    MonthContextShape(v, localToday);
    var ym := ExtractYearAndMonth(v, localToday);
    KeepInContext(row, ym.year, ym.month);
  }
}
