/**
 * The available-months route (app/api/ranking/available-months/route.ts) after
 * the fetch: every month some ranking row is stored under, in display form
 * "YYYY-MM", together with the current month, each once, newest first.
 */
module AvailableMonths {
  import opened Wrappers
  import opened Collections
  import opened YearMonth
  import opened SessionTypes

  /** Some row among the first `n`, with a non-empty month, shows as `x`. */
  predicate ShownByRow(x: string, rows: seq<Option<string>>, n: nat)
    requires n <= |rows|
  {
    exists k :: 0 <= k < n && Present(rows[k]) && ToDisplay(rows[k].value) == x
  }

  /** One more row shows its own month and nothing else. */
  lemma ShownByRowStep(rows: seq<Option<string>>, n: nat)
    requires n < |rows|
    ensures forall x :: ShownByRow(x, rows, n + 1) <==>
      ShownByRow(x, rows, n) || (Present(rows[n]) && ToDisplay(rows[n].value) == x)
  {
    forall x | ShownByRow(x, rows, n + 1)
      ensures ShownByRow(x, rows, n) || (Present(rows[n]) && ToDisplay(rows[n].value) == x)
    {
      var k :| 0 <= k < n + 1 && Present(rows[k]) && ToDisplay(rows[k].value) == x;
      if k < n {
        assert ShownByRow(x, rows, n);
      }
    }
  }

  /** Strictly descending in code-point order, standing for what `sort().reverse()` leaves of distinct strings. */
  predicate Descending(s: seq<string>) {
    forall i, j :: 0 <= i < j < |s| ==> LexLe(s[j], s[i]) && s[i] != s[j]
  }

  /** `sort().reverse()` of distinct strings: the same strings, strictly descending. */
  lemma NewestFirst(months: seq<string>)
    requires Distinct(months)
    ensures var r := Reverse(SortBy(months, LexLe));
      Descending(r) && forall x :: x in r <==> x in months
  {
    LexLeTotalPreorder();
    SortedDescending(months, LexLe);
  }

  /** A non-empty stored month never shows as the empty string. */
  lemma ShownNonEmpty(v: string)
    requires v != ""
    ensures ToDisplay(v) != ""
  {
  }

  /** Appending a value not yet present keeps a sequence free of repeats. */
  lemma AppendFresh(s: seq<string>, x: string)
    requires Distinct(s) && x !in s
    ensures Distinct(s + [x]) && forall y :: y in s + [x] <==> y in s || y == x
  {
  }

  /** What one row offers to the `Set`: its month in display form, when it has a month that shows as non-empty. */
  function Offer(row: Option<string>): (r: seq<string>)
    ensures |r| <= 1
  {
    if Present(row) && ToDisplay(row.value) != "" then [ToDisplay(row.value)] else []
  }

  /** A row offers exactly the month it shows, if it has one. */
  lemma OfferMember(row: Option<string>, x: string)
    ensures x in Offer(row) <==> Present(row) && ToDisplay(row.value) == x
  {
    if Present(row) {
      ShownNonEmpty(row.value);
    }
  }

  /** The display months the rows offer to the `Set`, in row order, repeats included. */
  function ShownMonths(rows: seq<Option<string>>): (r: seq<string>)
    ensures |r| <= |rows|
  {
    if rows == [] then []
    else ShownMonths(rows[..|rows| - 1]) + Offer(rows[|rows| - 1])
  }

  /** One more row adds its offer. */
  lemma ShownMonthsStep(rows: seq<Option<string>>, i: nat)
    requires i < |rows|
    ensures ShownMonths(rows[..i + 1]) == ShownMonths(rows[..i]) + Offer(rows[i])
  {
    assert rows[..i + 1][..i] == rows[..i];
  }

  /** Membership in a sequence with something appended. */
  lemma MemberAppend(prev: seq<string>, extra: seq<string>, x: string)
    ensures x in prev + extra <==> x in prev || x in extra
  {
  }

  /** A month is offered by the first `n` rows exactly when one of them shows it. */
  lemma {:induction false} ShownMonthsMember(rows: seq<Option<string>>, n: nat, x: string)
    requires n <= |rows|
    ensures x in ShownMonths(rows[..n]) <==> ShownByRow(x, rows, n)
  {
    if n > 0 {
      var m := n - 1;
      calc {
        x in ShownMonths(rows[..n]);
        { ShownMonthsStep(rows, m); }
        x in ShownMonths(rows[..m]) + Offer(rows[m]);
        { MemberAppend(ShownMonths(rows[..m]), Offer(rows[m]), x); }
        x in ShownMonths(rows[..m]) || x in Offer(rows[m]);
        { ShownMonthsMember(rows, m, x); OfferMember(rows[m], x); }
        ShownByRow(x, rows, m) || (Present(rows[m]) && ToDisplay(rows[m].value) == x);
        { ShownByRowStep(rows, m); }
        ShownByRow(x, rows, n);
      }
    }
  }

  /** A row without a month leaves the `Set` as it is. */
  lemma CollectAbsent(rows: seq<Option<string>>, i: nat, months: seq<string>)
    requires i < |rows| && months == Dedup(ShownMonths(rows[..i]))
    requires !Present(rows[i])
    ensures Dedup(ShownMonths(rows[..i + 1])) == months
  {
    ShownMonthsStep(rows, i);
    assert ShownMonths(rows[..i]) + [] == ShownMonths(rows[..i]);
  }

  /** A row with a month adds its display month to the `Set` when that is non-empty and new. */
  lemma CollectPresent(rows: seq<Option<string>>, i: nat, months: seq<string>, formatted: string)
    requires i < |rows| && months == Dedup(ShownMonths(rows[..i]))
    requires Present(rows[i]) && formatted == ToDisplay(rows[i].value)
    ensures Dedup(ShownMonths(rows[..i + 1]))
      == if formatted != "" && formatted !in months then months + [formatted] else months
  {
    ShownMonthsStep(rows, i);
    if formatted != "" {
      DedupSnoc(ShownMonths(rows[..i]), formatted);
    } else {
      assert ShownMonths(rows[..i]) + [] == ShownMonths(rows[..i]);
    }
  }

  /** The `Set`'s contents are distinct and are exactly the months the rows show. */
  lemma CollectedMonths(rows: seq<Option<string>>)
    ensures Distinct(Dedup(ShownMonths(rows)))
    ensures forall x :: x in Dedup(ShownMonths(rows)) <==> ShownByRow(x, rows, |rows|)
  {
    assert rows[..|rows|] == rows;
    forall x ensures x in ShownMonths(rows) <==> ShownByRow(x, rows, |rows|) {
      ShownMonthsMember(rows, |rows|, x);
    }
  }

  /**
   * The `forEach` that fills the `Set`: each row's month in display form, once,
   * in order of first occurrence, which is the `Set`'s insertion order.
   */
  method CollectMonths(rows: seq<Option<string>>) returns (months: seq<string>)
    ensures Distinct(months)
    ensures forall x :: x in months <==> ShownByRow(x, rows, |rows|)
    ensures months == Dedup(ShownMonths(rows))
  {
    months := [];
    var i := 0;
    while i < |rows|
      invariant 0 <= i <= |rows|
      invariant months == Dedup(ShownMonths(rows[..i]))
    {
      ghost var next := Dedup(ShownMonths(rows[..i + 1]));
      if Present(rows[i]) {
        var formatted := ToDisplay(rows[i].value);
        CollectPresent(rows, i, months, formatted);
        if formatted != "" && formatted !in months {
          months := months + [formatted];
        }
      } else {
        CollectAbsent(rows, i, months);
      }
      assert months == next;
      i := i + 1;
    }
    assert rows[..i] == rows;
    CollectedMonths(rows);
  }

  /**
   * `GET /api/ranking/available-months` after the fetch. `fetched` is the
   * store's answer: the `year_month` column of every row (possibly null), or an
   * error message. `localToday` stands for `new Date()`.
   */
  method AvailableMonths(fetched: Result<Option<seq<Option<string>>>, string>, localToday: CalendarMonth)
    returns (reply: Reply<seq<string>>)
    requires ValidCalendar(localToday)
    ensures fetched.Failure? <==> reply == ServerError
    ensures fetched.Success? ==> reply.Ok?
    ensures reply.Ok? ==>
      var rows := if fetched.value.Some? then fetched.value.value else [];
      var current := GetMonthContext(None, localToday).display;
      && Descending(reply.body)
      && forall x :: x in reply.body <==> x == current || ShownByRow(x, rows, |rows|)
  {
    if fetched.Failure? {
      return ServerError;
    }
    var rows := if fetched.value.Some? then fetched.value.value else [];
    // the insertion-ordered contents of the JavaScript `Set`
    var months := CollectMonths(rows);
    var current := GetMonthContext(None, localToday).display;
    if current !in months {
      AppendFresh(months, current);
      months := months + [current];
    }
    var result := Reverse(SortBy(months, LexLe));
    NewestFirst(months);
    return Ok(result);
  }
}
