/** The upcoming-birthdays query of the address book as functions of "now" and of the
    records' names and birthdays, in the book's iteration order. */
module Birthdays {
  import opened Wrappers
  import opened Calendar

  /** What the query can raise: `ValueError` from `datetime.replace` (a day the target
      year does not have, or year 10000) and `OverflowError` from adding seven days. */
  datatype QueryError = DayOutOfRange | YearOutOfRange | DateOverflow

  /** A record as the query sees it: its name and its birthday, if any. */
  type Entry = (string, Option<CivilDate>)

  /** A reported birthday: the name and the stored (original) birthday. */
  type Hit = (string, CivilDate)

  /** `d.replace(year=y)`: the year is range-checked first, then the day. */
  function ReplaceYear(d: CivilDate, y: int): (r: Result<CivilDate, QueryError>)
    ensures r.Success? <==> MinYear <= y <= MaxYear && !(d.month == 2 && d.day == 29 && !IsLeapYear(y))
    ensures r == Failure(YearOutOfRange) <==> !(MinYear <= y <= MaxYear)
    ensures r.Success? ==> r.value.year == y && r.value.month == d.month && r.value.day == d.day
  {
    if !(MinYear <= y <= MaxYear) then Failure(YearOutOfRange)
    else
      var e := Date(y, d.month, d.day);
      if ValidDate(e) then Success(e) else Failure(DayOutOfRange)
  }

  /** The birthday's next occurrence: this year's date, moved to next year when it is
      already earlier than `now`. Birthdays fall at midnight, so one on today's date is
      earlier than `now` unless `now` is exactly midnight. */
  function NextOccurrence(b: CivilDate, now: Moment): (r: Result<CivilDate, QueryError>)
    requires ValidMoment(now)
    ensures r.Success? ==> r.value.month == b.month && r.value.day == b.day
    ensures r.Success? ==> r.value.year == now.date.year || r.value.year == now.date.year + 1
    ensures r.Success? ==> Instant(now) <= Instant(Midnight(r.value))
    ensures r.Success? && r.value.year == now.date.year + 1 ==>
      ValidDate(Date(now.date.year, b.month, b.day)) &&
      Instant(Midnight(Date(now.date.year, b.month, b.day))) < Instant(now)
  {
    match ReplaceYear(b, now.date.year)
    case Failure(e) => Failure(e)
    case Success(thisYear) =>
      if Instant(Midnight(thisYear)) < Instant(now) then
        var r := ReplaceYear(b, now.date.year + 1);
        if r.Success? then
          OrdinalOrder(now.date, r.value);
          r
        else r
      else Success(thisYear)
  }

  /** `today + timedelta(days=7)` stays within `datetime`'s range. */
  predicate WeekAheadFits(now: Moment)
  {
    Ordinal(now.date) + 7 <= Ordinal(LastDate)
  }

  /** `today <= d <= next_week` for a birthday `d` at midnight. */
  predicate InWindow(now: Moment, d: CivilDate)
  {
    Instant(now) <= Instant(Midnight(d)) <= Instant(now) + 7 * MicrosPerDay
  }

  /** The record is reported: it has a birthday whose next occurrence is in the window. */
  predicate Selected(now: Moment, e: Entry)
    requires ValidMoment(now)
  {
    e.1.Some? && NextOccurrence(e.1.value, now).Success? && InWindow(now, NextOccurrence(e.1.value, now).value)
  }

  /** The record makes the query raise. */
  predicate Fails(now: Moment, e: Entry)
    requires ValidMoment(now)
  {
    e.1.Some? && NextOccurrence(e.1.value, now).Failure?
  }

  /** The loop over the records, one record after another: the first error aborts it. */
  function Scan(now: Moment, es: seq<Entry>): (r: Result<seq<Hit>, QueryError>)
    requires ValidMoment(now)
    ensures r.Success? ==> |r.value| <= |es|
    ensures r.Failure? ==> r.error != DateOverflow
  {
    if es == [] then Success([])
    else
      var prior := Scan(now, es[..|es| - 1]);
      var e := es[|es| - 1];
      if prior.Failure? then prior
      else match e.1
        case None => prior
        case Some(b) =>
          match NextOccurrence(b, now)
          case Failure(err) => Failure(err)
          case Success(n) => if InWindow(now, n) then Success(prior.value + [(e.0, b)]) else prior
  }

  /** `get_upcoming_birthdays`: the seven-day bound is computed before the loop. */
  function Upcoming(now: Moment, es: seq<Entry>): (r: Result<seq<Hit>, QueryError>)
    requires ValidMoment(now)
    ensures r == Failure(DateOverflow) <==> !WeekAheadFits(now)
    ensures r.Success? ==> |r.value| <= |es|
  {
    if !WeekAheadFits(now) then Failure(DateOverflow) else Scan(now, es)
  }

  // ------------------------------------------------------ the birthday window

  /** In whole days: the window holds the next one to seven days, and today only when
      the query runs exactly at midnight. So a birthday on today's date is left out at
      any later time of day, and one seven days ahead is reported at any time of day. */
  lemma WindowInDays(now: Moment, b: CivilDate)
    requires ValidMoment(now) && NextOccurrence(b, now).Success?
    ensures var n := NextOccurrence(b, now).value; var k := Ordinal(n) - Ordinal(now.date);
      InWindow(now, n) <==> (1 <= k <= 7 || (k == 0 && now.micros == 0))
  {
    var n := NextOccurrence(b, now).value;
    var k := Ordinal(n) - Ordinal(now.date);
    assert Instant(Midnight(n)) - Instant(now) == k * MicrosPerDay - now.micros;
    if k >= 8 {
      assert k * MicrosPerDay >= 8 * MicrosPerDay;
    }
  }

  /** A birthday on today's date, queried after midnight, is moved a year ahead and is
      not reported. */
  lemma TodayAfterMidnight(now: Moment, b: CivilDate, name: string)
    requires ValidMoment(now) && now.micros > 0
    requires b.month == now.date.month && b.day == now.date.day
    ensures NextOccurrence(b, now).Success? ==> NextOccurrence(b, now).value.year == now.date.year + 1
    ensures !Selected(now, (name, Some(b)))
  {
    var r := NextOccurrence(b, now);
    if r.Success? {
      assert Date(now.date.year, b.month, b.day) == now.date;
      NextYearSameDay(now.date, r.value);
      WindowInDays(now, b);
    }
  }

  /** When the query raises for a birthday: a 29 February birthday succeeds only in a
      leap year up to 29 February at midnight; any other birthday fails only in year 9999
      once its date has passed. */
  lemma NextOccurrenceFails(now: Moment, b: CivilDate)
    requires ValidMoment(now)
    ensures b.month == 2 && b.day == 29 ==>
      (NextOccurrence(b, now).Success? <==>
        IsLeapYear(now.date.year) &&
        (now.date.month == 1 || (now.date.month == 2 && now.date.day < 29)
         || (now.date.month == 2 && now.date.day == 29 && now.micros == 0)))
    ensures !(b.month == 2 && b.day == 29) ==>
      (NextOccurrence(b, now).Failure? <==>
        now.date.year == MaxYear &&
        Instant(Midnight(Date(now.date.year, b.month, b.day))) < Instant(now))
  {
    var y := now.date.year;
    if ValidDate(Date(y, b.month, b.day)) {
      InstantOrder(Midnight(Date(y, b.month, b.day)), now);
    }
  }

  // ---------------------------------------------------------- the record loop

  /** Once the loop has raised on a prefix, it raises the same error for the whole. */
  lemma {:induction false} ScanPrefixFailure(now: Moment, es: seq<Entry>, i: nat)
    requires ValidMoment(now) && i <= |es| && Scan(now, es[..i]).Failure?
    ensures Scan(now, es) == Scan(now, es[..i])
    decreases |es| - i
  {
    if i < |es| {
      assert es[..i + 1][..i] == es[..i];
      ScanPrefixFailure(now, es, i + 1);
    } else {
      assert es[..i] == es;
    }
  }

  /** One record further: what the loop does with the record at position `i`. */
  lemma ScanStep(now: Moment, es: seq<Entry>, i: nat)
    requires ValidMoment(now) && i < |es| && Scan(now, es[..i]).Success?
    ensures es[i].1.None? ==> Scan(now, es[..i + 1]) == Scan(now, es[..i])
    ensures es[i].1.Some? && NextOccurrence(es[i].1.value, now).Failure? ==>
      Scan(now, es[..i + 1]) == Failure(NextOccurrence(es[i].1.value, now).error)
    ensures es[i].1.Some? && NextOccurrence(es[i].1.value, now).Success? ==>
      Scan(now, es[..i + 1]) ==
        if InWindow(now, NextOccurrence(es[i].1.value, now).value)
        then Success(Scan(now, es[..i]).value + [(es[i].0, es[i].1.value)])
        else Scan(now, es[..i])
  {
    assert es[..i + 1][..i] == es[..i];
  }

  /** The loop raises exactly when some record with a birthday makes it raise, and then
      it raises the error of the first such record. */
  lemma {:induction false} ScanFailure(now: Moment, es: seq<Entry>)
    requires ValidMoment(now)
    ensures Scan(now, es).Failure? <==> exists j :: 0 <= j < |es| && Fails(now, es[j])
    ensures Scan(now, es).Failure? ==>
      exists j :: 0 <= j < |es| && Fails(now, es[j])
        && NextOccurrence(es[j].1.value, now).error == Scan(now, es).error
        && forall i :: 0 <= i < j ==> !Fails(now, es[i])
  {
    if es != [] {
      var init := es[..|es| - 1];
      ScanFailure(now, init);
      assert forall j :: 0 <= j < |init| ==> init[j] == es[j];
      if Scan(now, init).Failure? {
        var j :| 0 <= j < |init| && Fails(now, init[j])
          && NextOccurrence(init[j].1.value, now).error == Scan(now, init).error
          && forall i :: 0 <= i < j ==> !Fails(now, init[i]);
        assert Fails(now, es[j]);
      } else if Fails(now, es[|es| - 1]) {
        assert forall i :: 0 <= i < |es| - 1 ==> !Fails(now, es[i]);
      } else {
        forall j | 0 <= j < |es| ensures !Fails(now, es[j]) {
          if j < |es| - 1 { assert es[j] == init[j]; }
        }
      }
    }
  }

  /** The positions of the reported records. */
  ghost function Chosen(now: Moment, es: seq<Entry>): seq<nat>
    requires ValidMoment(now)
  {
    if es == [] then []
    else Chosen(now, es[..|es| - 1]) + (if Selected(now, es[|es| - 1]) then [|es| - 1] else [])
  }

  /** `Chosen` lists only selected positions, in increasing order. */
  lemma {:induction false} ChosenSorted(now: Moment, es: seq<Entry>)
    requires ValidMoment(now)
    ensures forall k :: 0 <= k < |Chosen(now, es)| ==>
      Chosen(now, es)[k] < |es| && Selected(now, es[Chosen(now, es)[k]])
    ensures forall k1, k2 :: 0 <= k1 < k2 < |Chosen(now, es)| ==> Chosen(now, es)[k1] < Chosen(now, es)[k2]
  {
    if es != [] {
      var init := es[..|es| - 1];
      ChosenSorted(now, init);
      var c0, c := Chosen(now, init), Chosen(now, es);
      assert c == c0 + (if Selected(now, es[|es| - 1]) then [|es| - 1] else []);
      forall k | 0 <= k < |c| ensures c[k] < |es| && Selected(now, es[c[k]]) {
        if k < |c0| {
          assert c[k] == c0[k];
          assert c0[k] < |init| && Selected(now, init[c0[k]]);
          assert init[c0[k]] == es[c0[k]];
        }
      }
      forall k1, k2 | 0 <= k1 < k2 < |c| ensures c[k1] < c[k2] {
        if k2 < |c0| {
          assert c[k1] == c0[k1] && c[k2] == c0[k2];
        } else {
          assert c[k1] == c0[k1] && c0[k1] < |init|;
        }
      }
    }
  }

  /** `Chosen` lists every selected position. */
  lemma {:induction false} ChosenComplete(now: Moment, es: seq<Entry>)
    requires ValidMoment(now)
    ensures forall j :: 0 <= j < |es| && Selected(now, es[j]) ==> j in Chosen(now, es)
  {
    if es != [] {
      var init := es[..|es| - 1];
      ChosenComplete(now, init);
      var c0, c := Chosen(now, init), Chosen(now, es);
      forall j | 0 <= j < |es| && Selected(now, es[j]) ensures j in c {
        if j < |init| {
          assert init[j] == es[j];
          assert j in c0;
        } else {
          assert c[|c| - 1] == j;
        }
      }
    }
  }

  /** When the loop completes, it reports exactly the selected records, each with its
      name and stored birthday, in iteration order. */
  lemma {:induction false} ScanSuccess(now: Moment, es: seq<Entry>)
    requires ValidMoment(now) && Scan(now, es).Success?
    ensures var r, c := Scan(now, es).value, Chosen(now, es);
      |r| == |c| && forall k :: 0 <= k < |r| ==>
        c[k] < |es| && es[c[k]].1.Some? && r[k] == (es[c[k]].0, es[c[k]].1.value)
  {
    if es != [] {
      var init := es[..|es| - 1];
      assert Scan(now, init).Success?;
      ScanSuccess(now, init);
      assert forall j :: 0 <= j < |init| ==> init[j] == es[j];
    }
  }

  /** The query's answer, whole: it raises the overflow error when seven days ahead is
      past the last date; otherwise every reported pair is a selected record, every
      selected record is reported, in iteration order; or it raises as `ScanFailure` says. */
  lemma UpcomingCharacterised(now: Moment, es: seq<Entry>)
    requires ValidMoment(now)
    ensures !WeekAheadFits(now) ==> Upcoming(now, es) == Failure(DateOverflow)
    ensures WeekAheadFits(now) ==>
      (Upcoming(now, es).Failure? <==> exists j :: 0 <= j < |es| && Fails(now, es[j]))
    ensures Upcoming(now, es).Success? ==>
      var r, c := Upcoming(now, es).value, Chosen(now, es);
      |r| == |c| && forall k :: 0 <= k < |r| ==>
        c[k] < |es| && es[c[k]].1.Some? && r[k] == (es[c[k]].0, es[c[k]].1.value)
  {
    ScanFailure(now, es);
    if Upcoming(now, es).Success? {
      ScanSuccess(now, es);
    }
  }

  /** Every reported pair comes from a selected record with that name and birthday. */
  lemma HitsSelected(now: Moment, es: seq<Entry>)
    requires ValidMoment(now) && Upcoming(now, es).Success?
    ensures forall h :: h in Upcoming(now, es).value ==>
      exists j :: 0 <= j < |es| && es[j] == (h.0, Some(h.1)) && Selected(now, es[j])
  {
    UpcomingCharacterised(now, es);
    ChosenSorted(now, es);
    var r, c := Upcoming(now, es).value, Chosen(now, es);
    forall h | h in r
      ensures exists j :: 0 <= j < |es| && es[j] == (h.0, Some(h.1)) && Selected(now, es[j])
    {
      var k :| 0 <= k < |r| && r[k] == h;
      assert es[c[k]] == (h.0, Some(h.1));
    }
  }
}
