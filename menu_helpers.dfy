/** The planning helpers of the menu generator, as far as their behaviour is
    fixed by the unit tests: the meal slot table, the next day and weekday of
    an ISO date, reading an item id out of a model answer, the size of the
    candidate sample, and the allergen and opening-hours filters. */
module MenuHelpers {
  import opened Text
  import Oracle
  import PlanFormat
  import CalendarView

  // ------------------------------------------------------------ meal slots

  /** A meal's name and the time of day, as hhmm, its order is placed. */
  datatype MealSlot = MealSlot(name: string, orderTime: int)

  /** get_meal_and_order_time: None is the ValueError for any other meal
      number. */
  function MealAndOrderTime(meal: int): (r: Option<MealSlot>)
    ensures r.Some? <==> 1 <= meal <= 3
    ensures r.Some? ==> 1000 <= r.value.orderTime <= 2000
  {
    if meal == 1 then Some(MealSlot("breakfast", 1000))
    else if meal == 2 then Some(MealSlot("lunch", 1400))
    else if meal == 3 then Some(MealSlot("dinner", 2000))
    else None
  }

  /** Exactly the meal numbers 1..3 have a slot, later meals are ordered
      later in the day, and every meal a parsed plan can hold has a slot. */
  lemma MealSlots(meal: int, b: PlanFormat.Bracket)
    ensures MealAndOrderTime(meal).Some? <==> 1 <= meal <= 3
    ensures MealAndOrderTime(1) == Some(MealSlot("breakfast", 1000))
    ensures MealAndOrderTime(2) == Some(MealSlot("lunch", 1400))
    ensures MealAndOrderTime(3) == Some(MealSlot("dinner", 2000))
    ensures 1 <= meal < 3 ==> MealAndOrderTime(meal).value.orderTime < MealAndOrderTime(meal + 1).value.orderTime
    ensures PlanFormat.WellFormed(b) ==> MealAndOrderTime(b.meal).Some?
  {
  }

  // ----------------------------------------------------------------- dates

  predicate IsLeap(y: int)
  {
    y % 4 == 0 && (y % 100 != 0 || y % 400 == 0)
  }

  function DaysInMonth(y: int, m: int): (n: int)
    requires 1 <= m <= 12
    ensures 28 <= n <= 31
  {
    if m == 2 then (if IsLeap(y) then 29 else 28)
    else if m == 4 || m == 6 || m == 9 || m == 11 then 30
    else 31
  }

  /** Days of the year before the first of month m. */
  function DaysBeforeMonth(y: int, m: int): int
    requires 1 <= m <= 12
  {
    var base :=
      if m == 1 then 0 else if m == 2 then 31 else if m == 3 then 59 else if m == 4 then 90
      else if m == 5 then 120 else if m == 6 then 151 else if m == 7 then 181 else if m == 8 then 212
      else if m == 9 then 243 else if m == 10 then 273 else if m == 11 then 304 else 334;
    base + (if m > 2 && IsLeap(y) then 1 else 0)
  }

  /** The table of month starts agrees with the month lengths. */
  lemma DaysBeforeMonthStep(y: int, m: int)
    requires 1 <= m <= 12
    ensures m < 12 ==> DaysBeforeMonth(y, m + 1) == DaysBeforeMonth(y, m) + DaysInMonth(y, m)
    ensures m == 12 ==> DaysBeforeMonth(y, m) + DaysInMonth(y, m) == if IsLeap(y) then 366 else 365
  {
  }

  /** Days in the years before year y, counted from year 1. */
  function DaysBeforeYear(y: int): int
    requires y >= 1
  {
    var p := y - 1;
    365 * p + p / 4 - p / 100 + p / 400
  }

  lemma DaysBeforeYearStep(y: int)
    requires y >= 1
    ensures DaysBeforeYear(y + 1) == DaysBeforeYear(y) + if IsLeap(y) then 366 else 365
  {
    var p := y - 1;
    DivSteps(y);
    LeapDivisors(y);
    assert DaysBeforeYear(y + 1) - DaysBeforeYear(y) == 365 + (y / 4 - p / 4) - (y / 100 - p / 100) + (y / 400 - p / 400);
  }

  /** Going from y - 1 to y passes one more multiple of 4, 100 or 400
      exactly when it divides y. */
  lemma DivSteps(y: int)
    ensures y / 4 - (y - 1) / 4 == if y % 4 == 0 then 1 else 0
    ensures y / 100 - (y - 1) / 100 == if y % 100 == 0 then 1 else 0
    ensures y / 400 - (y - 1) / 400 == if y % 400 == 0 then 1 else 0
  {
  }

  /** A multiple of 400 is a multiple of 100, which is a multiple of 4. */
  lemma LeapDivisors(y: int)
    ensures y % 400 == 0 ==> y % 100 == 0
    ensures y % 100 == 0 ==> y % 4 == 0
  {
  }

  predicate ValidDate(y: int, m: int, d: int)
  {
    1 <= y <= 9999 && 1 <= m <= 12 && 1 <= d <= DaysInMonth(y, m)
  }

  /** date.toordinal(): 1 for 0001-01-01. */
  function Ordinal(y: int, m: int, d: int): int
    requires ValidDate(y, m, d)
  {
    DaysBeforeYear(y) + DaysBeforeMonth(y, m) + d
  }

  /** date.weekday(): 0 for Monday. */
  function Weekday(y: int, m: int, d: int): (w: int)
    requires ValidDate(y, m, d)
    ensures 0 <= w < 7
  {
    (Ordinal(y, m, d) + 6) % 7
  }

  const DayNames: seq<string> := ["Mon", "Tue", "Wed", "Thu", "Fri", "Sat", "Sun"]

  datatype Date = Date(year: int, month: int, day: int)

  /** The following calendar day; None past 9999-12-31, where Python's date
      arithmetic overflows. */
  function NextDay(y: int, m: int, d: int): (r: Option<Date>)
    requires ValidDate(y, m, d)
    ensures r.Some? ==> ValidDate(r.value.year, r.value.month, r.value.day)
  {
    if d < DaysInMonth(y, m) then Some(Date(y, m, d + 1))
    else if m < 12 then Some(Date(y, m + 1, 1))
    else if y < 9999 then Some(Date(y + 1, 1, 1))
    else None
  }

  lemma WeekdayStep(o: int)
    ensures (o + 1 + 6) % 7 == ((o + 6) % 7 + 1) % 7
  {
  }

  /** The next day's ordinal is one more. */
  lemma NextDayOrdinal(y: int, m: int, d: int)
    requires ValidDate(y, m, d) && NextDay(y, m, d).Some?
    ensures var n := NextDay(y, m, d).value;
      Ordinal(n.year, n.month, n.day) == Ordinal(y, m, d) + 1
  {
    if d == DaysInMonth(y, m) {
      DaysBeforeMonthStep(y, m);
      if m == 12 {
        DaysBeforeYearStep(y);
      }
    }
  }

  /** The next day is the one whose ordinal is one more, so weekdays advance
      by one, Sunday wrapping to Monday; only 9999-12-31 has none. */
  lemma NextDayIsNext(y: int, m: int, d: int)
    requires ValidDate(y, m, d)
    ensures NextDay(y, m, d).None? <==> y == 9999 && m == 12 && d == 31
    ensures NextDay(y, m, d).Some? ==>
      var n := NextDay(y, m, d).value;
      Ordinal(n.year, n.month, n.day) == Ordinal(y, m, d) + 1
      && Weekday(n.year, n.month, n.day) == (Weekday(y, m, d) + 1) % 7
  {
    if NextDay(y, m, d).Some? {
      NextDayOrdinal(y, m, d);
      WeekdayStep(Ordinal(y, m, d));
    }
  }

  // --------------------------------------------------------- date parsing

  /** The fields of a YYYY-MM-DD string; None for any other shape. */
  function ParseIsoDate(s: string): (r: Option<Date>)
    ensures r.Some? ==> |s| == 10 && s[4] == '-' && s[7] == '-'
  {
    if PlanFormat.IsDateShape(s) then
      Some(Date(DigitsValue(s[..4]), DigitsValue(s[5..7]), DigitsValue(s[8..10])))
    else None
  }

  /** get_weekday_and_increment: the next day as YYYY-MM-DD and the weekday
      abbreviation of the given day; None is the ValueError for a string of
      another shape or an impossible date (and the overflow past year 9999). */
  function WeekdayAndIncrement(s: string): (r: Option<(string, string)>)
    ensures r.Some? ==> ParseIsoDate(s).Some? && r.value.1 in DayNames
  {
    var p := ParseIsoDate(s);
    if p.None? || !ValidDate(p.value.year, p.value.month, p.value.day) then None
    else
      var t := p.value;
      var n := NextDay(t.year, t.month, t.day);
      if n.None? then None
      else Some((CalendarView.IsoDate(n.value.year, n.value.month, n.value.day),
                 DayNames[Weekday(t.year, t.month, t.day)]))
  }

  lemma {:induction false} ZerosValue(z: string)
    requires forall i :: 0 <= i < |z| ==> z[i] == '0'
    ensures AllDigits(z) && DigitsValue(z) == 0
  {
    if |z| > 0 {
      ZerosValue(z[..|z| - 1]);
    }
  }

  /** Leading zeros do not change a decimal value. */
  lemma {:induction false} LeadingZeros(z: string, s: string)
    requires forall i :: 0 <= i < |z| ==> z[i] == '0'
    requires AllDigits(s)
    ensures AllDigits(z + s) && DigitsValue(z + s) == DigitsValue(s)
  {
    assert forall i :: 0 <= i < |z + s| ==> IsDigit((z + s)[i]) by {
      forall i | 0 <= i < |z + s| ensures IsDigit((z + s)[i]) {
        if i < |z| { assert (z + s)[i] == z[i]; } else { assert (z + s)[i] == s[i - |z|]; }
      }
    }
    if |s| == 0 {
      assert z + s == z;
      ZerosValue(z);
    } else {
      assert (z + s)[..|z + s| - 1] == z + s[..|s| - 1];
      LeadingZeros(z, s[..|s| - 1]);
    }
  }

  lemma PadIntValue(n: nat, w: nat)
    requires w >= 1 && n < CalendarView.Pow10(w)
    ensures |CalendarView.PadInt(n, w)| == w && AllDigits(CalendarView.PadInt(n, w))
    ensures DigitsValue(CalendarView.PadInt(n, w)) == n
  {
    CalendarView.PadIntDigits(n, w);
    var s := NatToString(n);
    CalendarView.ZeroFillShape(s, w);
    NatToStringRoundTrip(n);
    var r := CalendarView.PadInt(n, w);
    var z := r[..|r| - |s|];
    assert r == z + s;
    LeadingZeros(z, s);
  }

  /** Reading back a date written as YYYY-MM-DD gives its fields. */
  lemma ParseIsoDateRoundTrip(y: nat, m: nat, d: nat)
    requires y < 10000 && m < 100 && d < 100
    ensures ParseIsoDate(CalendarView.IsoDate(y, m, d)) == Some(Date(y, m, d))
  {
    assert CalendarView.Pow10(4) == 10000 && CalendarView.Pow10(2) == 100;
    PadIntValue(y, 4);
    PadIntValue(m, 2);
    PadIntValue(d, 2);
    CalendarView.IsoDateShape(y, m, d);
    var ys, ms, ds := CalendarView.PadInt(y, 4), CalendarView.PadInt(m, 2), CalendarView.PadInt(d, 2);
    var s := CalendarView.IsoDate(y, m, d);
    assert s == ys + "-" + ms + "-" + ds;
    assert s[..4] == ys;
    assert s[5..7] == ms;
    assert s[8..10] == ds;
  }

  /** For every valid date but the last one, the helper answers the next
      date, written so that it can be fed back in, and the weekday name of
      the given date; a chain of calls walks the calendar one day at a
      time. */
  lemma WeekdayAndIncrementSpec(y: nat, m: nat, d: nat)
    requires ValidDate(y, m, d) && !(y == 9999 && m == 12 && d == 31)
    ensures var r := WeekdayAndIncrement(CalendarView.IsoDate(y, m, d));
      r.Some? && ParseIsoDate(r.value.0).Some?
      && var n := ParseIsoDate(r.value.0).value;
      ValidDate(n.year, n.month, n.day)
      && Ordinal(n.year, n.month, n.day) == Ordinal(y, m, d) + 1
      && r.value.1 == DayNames[Weekday(y, m, d)]
  {
    ParseIsoDateRoundTrip(y, m, d);
    NextDayIsNext(y, m, d);
    var n := NextDay(y, m, d).value;
    ParseIsoDateRoundTrip(n.year, n.month, n.day);
  }

  /** The dates the tests name: 2025-11-20 is a Thursday, 2025-11-17 a
      Monday, 2025-11-23 a Sunday. */
  lemma CalendarFacts()
    ensures DayNames[Weekday(2025, 11, 20)] == "Thu"
    ensures DayNames[Weekday(2025, 11, 17)] == "Mon"
    ensures DayNames[Weekday(2025, 11, 23)] == "Sun"
  {
  }

  /** The month, year and leap-day boundaries roll over; February 30 and
      month 13 do not exist. */
  lemma CalendarRollover()
    ensures NextDay(2025, 11, 23) == Some(Date(2025, 11, 24))
    ensures NextDay(2025, 12, 31) == Some(Date(2026, 1, 1))
    ensures NextDay(2024, 2, 29) == Some(Date(2024, 3, 1))
    ensures !ValidDate(2025, 2, 30) && !ValidDate(2025, 13, 1)
  {
  }

  /** Strings of another shape are refused. */
  lemma WrongFormatsRefused()
    ensures WeekdayAndIncrement("11-20-2025") == None
    ensures WeekdayAndIncrement("2025/11/20") == None
    ensures WeekdayAndIncrement("not-a-date") == None
  {
  }

  // ---------------------------------------------------- reading an answer

  /** The error value of format_llm_output. */
  const LlmAttributeError := -1

  /** The text between the first `open` and the first `close` after it. */
  function Payload(answer: string, open: string, close: string): (r: Option<string>)
    ensures r.Some? ==> |open| + |r.value| + |close| <= |answer|
  {
    match FindFrom(answer, open, 0)
    case None => None
    case Some(a) =>
      var from := a + |open|;
      match FindFrom(answer, close, from)
      case None => None
      case Some(b) => Some(answer[from..b])
  }

  /** format_llm_output: the text between the first start marker and the
      first end marker after it, read with int(); the error value when a
      marker is missing or the text is not an integer. */
  function FormatLlmOutput(answer: string): (id: int)
    ensures Payload(answer, Oracle.StartMarker, Oracle.EndMarker).None? ==> id == LlmAttributeError
    ensures id != LlmAttributeError ==> PyInt(Payload(answer, Oracle.StartMarker, Oracle.EndMarker).value) == Some(id)
  {
    var payload := Payload(answer, Oracle.StartMarker, Oracle.EndMarker);
    if payload.None? then LlmAttributeError
    else
      var id := PyInt(payload.value);
      if id.Some? then id.value else LlmAttributeError
  }

  /** A pattern cannot start where its first character is absent. */
  lemma NotOccursAt(s: string, pat: string, k: nat)
    requires k < |s| && |pat| > 0 && s[k] != pat[0]
    ensures !OccursAt(s, pat, k)
  {
    if k + |pat| <= |s| {
      assert s[k..k + |pat|][0] == s[k];
    }
  }

  lemma NoAngle(n: int)
    ensures '<' !in IntToString(n)
  {
    var s := IntToString(n);
    forall i | 0 <= i < |s| ensures s[i] != '<' {
      if n < 0 {
        assert s == "-" + NatToString(-n);
        if i > 0 { assert s[i] == NatToString(-n)[i - 1]; }
      }
    }
  }

  /** The search stops at the first place the pattern starts, when its
      first character occurs nowhere before. */
  lemma FirstOccurrence(s: string, pat: string, i: nat, k: nat)
    requires i <= k && k + |pat| <= |s| && |pat| > 0 && s[k..k + |pat|] == pat
    requires forall j :: i <= j < k ==> s[j] != pat[0]
    ensures FindFrom(s, pat, i) == Some(k)
  {
    forall j | i <= j < k ensures !OccursAt(s, pat, j) {
      NotOccursAt(s, pat, j);
    }
    assert OccursAt(s, pat, k);
    FindFromSpec(s, pat, i);
  }

  /** A pattern whose first character is absent from `pre` is first found
      right after `pre`. */
  lemma FindAfterPrefix(x: string, pre: string, pat: string, rest: string)
    requires |pat| > 0 && pat[0] !in pre
    ensures FindFrom(x + (pre + (pat + rest)), pat, |x|) == Some(|x| + |pre|)
  {
    var s := x + (pre + (pat + rest));
    var k := |x| + |pre|;
    assert s[k..k + |pat|] == pat;
    forall j | |x| <= j < k ensures s[j] != pat[0] {
      assert s[j] == pre[j - |x|];
    }
    FirstOccurrence(s, pat, |x|, k);
  }

  /** The payload of `pre + open + d + close + post` is `d`, when the
      opening mark cannot start in `pre` nor the closing one in `d`. */
  lemma PayloadOfWrapped(pre: string, open: string, d: string, close: string, post: string)
    requires |open| > 0 && |close| > 0 && open[0] !in pre && close[0] !in d
    ensures Payload(pre + (open + (d + (close + post))), open, close) == Some(d)
  {
    var s := pre + (open + (d + (close + post)));
    var from := |pre| + |open|;
    OpenOfWrapped(pre, open, d, close, post);
    CloseOfWrapped(pre, open, d, close, post);
    SliceOfWrapped(pre, open, d, close + post);
    PayloadBetween(s, open, close, |pre|, from + |d|);
  }

  lemma OpenOfWrapped(pre: string, open: string, d: string, close: string, post: string)
    requires |open| > 0 && open[0] !in pre
    ensures FindFrom(pre + (open + (d + (close + post))), open, 0) == Some(|pre|)
  {
    var s := pre + (open + (d + (close + post)));
    FindAfterPrefix("", pre, open, d + (close + post));
    assert "" + s == s;
  }

  lemma CloseOfWrapped(pre: string, open: string, d: string, close: string, post: string)
    requires |close| > 0 && close[0] !in d
    ensures FindFrom(pre + (open + (d + (close + post))), close, |pre| + |open|)
              == Some(|pre| + |open| + |d|)
  {
    var s := pre + (open + (d + (close + post)));
    var x := pre + open;
    assert s == x + (d + (close + post));
    FindAfterPrefix(x, d, close, post);
  }

  lemma SliceOfWrapped(pre: string, open: string, d: string, rest: string)
    ensures (pre + (open + (d + rest)))[|pre| + |open|..|pre| + |open| + |d|] == d
  {
    var s := pre + (open + (d + rest));
    var k := |pre| + |open|;
    forall i | 0 <= i < |d| ensures s[k + i] == d[i] {
    }
  }

  /** Where both marks are found, the payload is the text between them. */
  lemma PayloadBetween(s: string, open: string, close: string, a: nat, b: nat)
    requires a + |open| <= |s| && FindFrom(s, open, 0) == Some(a)
    requires FindFrom(s, close, a + |open|) == Some(b)
    ensures b <= |s| && Payload(s, open, close) == Some(s[a + |open|..b])
  {
  }

  /** Reading an id back from an answer that wraps it, whatever follows the
      answer and whatever precedes it as long as no marker can start there. */
  lemma FormatReadsWrapped(pre: string, n: int, post: string)
    requires '<' !in pre
    ensures FormatLlmOutput(pre + (Oracle.Wrap(n) + post)) == n
  {
    var sm, em, d := Oracle.StartMarker, Oracle.EndMarker, IntToString(n);
    assert pre + (Oracle.Wrap(n) + post) == pre + (sm + (d + (em + post)));
    assert sm[0] == '<' && em[0] == '<';
    NoAngle(n);
    PayloadOfWrapped(pre, sm, d, em, post);
    PyIntOfIntToString(n);
  }

  /** What the fallback answers is read back as the id it chose. */
  lemma FallbackReadsBack(context: string)
    ensures FormatLlmOutput(Oracle.Wrap(Oracle.FallbackId(context))) == Oracle.FallbackId(context)
  {
    FormatReadsWrapped("", Oracle.FallbackId(context), "");
    assert "" + (Oracle.Wrap(Oracle.FallbackId(context)) + "") == Oracle.Wrap(Oracle.FallbackId(context));
  }

  /** Answers without both markers give the error value. */
  lemma MalformedAnswers()
    ensures FormatLlmOutput("This is not the expected format") == LlmAttributeError
    ensures FormatLlmOutput(Oracle.StartMarker + "42") == LlmAttributeError
  {
  }

  /** An answer whose payload is empty gives the error value. */
  lemma EmptyPayloadRejected()
    ensures FormatLlmOutput(Oracle.StartMarker + Oracle.EndMarker) == LlmAttributeError
  {
    var sm, em := Oracle.StartMarker, Oracle.EndMarker;
    assert sm[0] == '<' && em[0] == '<';
    PayloadOfWrapped("", sm, "", em, "");
    assert "" + (sm + ("" + (em + ""))) == sm + em;
  }

  /** An answer whose payload is not an integer gives the error value. */
  lemma WordPayloadRejected()
    ensures FormatLlmOutput(Oracle.StartMarker + ("not_a_number" + Oracle.EndMarker)) == LlmAttributeError
  {
    var sm, em := Oracle.StartMarker, Oracle.EndMarker;
    assert sm[0] == '<' && em[0] == '<';
    PayloadOfWrapped("", sm, "not_a_number", em, "");
    assert "" + (sm + ("not_a_number" + (em + ""))) == sm + ("not_a_number" + em);
    PyIntRejectsForeignChar("not_a_number", 0);
  }

  // ------------------------------------------------------------- sampling

  /** limit_scope: all rows when there are at most `maxChoices`, otherwise
      the rows at `sample`, the positions the random sampler drew without
      replacement. */
  function LimitScope<T>(items: seq<T>, maxChoices: nat, sample: seq<nat>): (r: seq<T>)
    requires |items| > maxChoices ==> |sample| == maxChoices
    requires forall i :: 0 <= i < |sample| ==> sample[i] < |items|
    ensures |r| == if |items| <= maxChoices then |items| else maxChoices
    ensures |items| <= maxChoices ==> r == items
    ensures forall i :: 0 <= i < |r| ==> r[i] in items
  {
    if |items| <= maxChoices then items
    else seq(maxChoices, i requires 0 <= i < maxChoices => items[sample[i]])
  }

  // ------------------------------------------------------------ allergens

  /** A menu row's name and its allergen field, None when the field is
      empty. */
  datatype MenuRow = MenuRow(name: string, allergens: Option<string>)

  /** The non-blank, stripped names of a comma-separated allergen list. */
  function Tokens(s: string): (ts: seq<string>)
    ensures forall i :: 0 <= i < |ts| ==> ts[i] != ""
  {
    NonBlank(Split(s, ','))
  }

  function NonBlank(parts: seq<string>): (ts: seq<string>)
    ensures forall i :: 0 <= i < |ts| ==> ts[i] != ""
  {
    if |parts| == 0 then []
    else NonBlank(parts[..|parts| - 1])
         + (if Strip(parts[|parts| - 1]) != "" then [Strip(parts[|parts| - 1])] else [])
  }

  /** Whether a row names one of the excluded allergens. */
  predicate Hits(row: MenuRow, excluded: seq<string>)
  {
    row.allergens.Some? && exists t :: t in Tokens(row.allergens.value) && t in excluded
  }

  /** filter_allergens: the rows, in order, that name none of the excluded
      allergens. */
  function FilterAllergens(items: seq<MenuRow>, exclude: string): (r: seq<MenuRow>)
    ensures |r| <= |items|
  {
    if |items| == 0 then []
    else
      var last := items[|items| - 1];
      FilterAllergens(items[..|items| - 1], exclude)
        + (if Hits(last, Tokens(exclude)) then [] else [last])
  }

  /** The filter keeps exactly the rows that name no excluded allergen: no
      kept row names one, and every row that names none (in particular
      every row without allergen data) is kept. */
  lemma {:induction false} FilterAllergensExact(items: seq<MenuRow>, exclude: string)
    ensures forall i :: 0 <= i < |FilterAllergens(items, exclude)| ==>
              FilterAllergens(items, exclude)[i] in items
              && !Hits(FilterAllergens(items, exclude)[i], Tokens(exclude))
    ensures forall i :: 0 <= i < |items| && !Hits(items[i], Tokens(exclude)) ==>
              items[i] in FilterAllergens(items, exclude)
  {
    if |items| > 0 {
      var front := items[..|items| - 1];
      FilterAllergensExact(front, exclude);
      forall i | 0 <= i < |items| - 1 && !Hits(items[i], Tokens(exclude))
        ensures items[i] in FilterAllergens(items, exclude)
      {
        assert front[i] == items[i];
      }
    }
  }

  /** An empty exclusion list keeps every row. */
  lemma {:induction false} NothingExcluded(items: seq<MenuRow>)
    ensures FilterAllergens(items, "") == items
  {
    assert Split("", ',') == [""];
    assert Tokens("") == [];
    if |items| > 0 {
      NothingExcluded(items[..|items| - 1]);
    }
  }

  // --------------------------------------------------------- opening hours

  /** A restaurant's id and its opening hours: per weekday, a flat list of
      hhmm times read as [open, close] pairs. */
  datatype Restaurant = Restaurant(rtrId: int, hours: map<string, seq<int>>)

  function Opens(times: seq<int>, k: nat): int
    requires 2 * k + 1 < |times|
  {
    times[2 * k]
  }

  function Closes(times: seq<int>, k: nat): int
    requires 2 * k + 1 < |times|
  {
    times[2 * k + 1]
  }

  /** Whether a time falls inside one of the pairs, scanning two at a time. */
  predicate InSomePair(times: seq<int>, t: int)
    ensures InSomePair(times, t) ==> |times| >= 2
    decreases |times|
  {
    |times| >= 2 && ((times[0] <= t <= times[1]) || InSomePair(times[2..], t))
  }

  /** Open at `t`: the list has an even length and `t` lies within one of its
      pairs, both ends included. A malformed (odd) list means closed. */
  predicate OpenAt(times: seq<int>, t: int)
    ensures OpenAt(times, t) ==> |times| >= 2 && |times| % 2 == 0
  {
    |times| % 2 == 0 && InSomePair(times, t)
  }

  lemma {:induction false} InSomePairIff(times: seq<int>, t: int)
    ensures InSomePair(times, t) <==>
              exists k: nat :: 2 * k + 1 < |times| && Opens(times, k) <= t <= Closes(times, k)
    decreases |times|
  {
    if |times| >= 2 {
      var rest := times[2..];
      InSomePairIff(rest, t);
      assert Opens(times, 0) == times[0] && Closes(times, 0) == times[1];
      if InSomePair(rest, t) {
        var k: nat :| 2 * k + 1 < |rest| && Opens(rest, k) <= t <= Closes(rest, k);
        assert Opens(times, k + 1) == Opens(rest, k) && Closes(times, k + 1) == Closes(rest, k);
      }
      if exists k: nat :: 2 * k + 1 < |times| && Opens(times, k) <= t <= Closes(times, k) {
        var k: nat :| 2 * k + 1 < |times| && Opens(times, k) <= t <= Closes(times, k);
        if k > 0 {
          assert Opens(rest, k - 1) == Opens(times, k) && Closes(rest, k - 1) == Closes(times, k);
        }
      }
    }
  }

  /** The opening rule as a statement about pairs. */
  lemma OpenAtIff(times: seq<int>, t: int)
    ensures OpenAt(times, t) <==>
              |times| % 2 == 0 && exists k: nat :: 2 * k + 1 < |times| && Opens(times, k) <= t <= Closes(times, k)
  {
    InSomePairIff(times, t);
  }

  /** The hours of one weekday; a weekday without an entry has none. */
  function HoursOn(r: Restaurant, day: string): (h: seq<int>)
    ensures day !in r.hours ==> h == []
    ensures day in r.hours ==> h == r.hours[day]
  {
    if day in r.hours then r.hours[day] else []
  }

  /** filter_closed_restaurants: the restaurants, in order, open on `day` at
      `t`. */
  function FilterClosed(rs: seq<Restaurant>, day: string, t: int): (r: seq<Restaurant>)
    ensures |r| <= |rs|
  {
    if |rs| == 0 then []
    else
      var last := rs[|rs| - 1];
      FilterClosed(rs[..|rs| - 1], day, t) + (if OpenAt(HoursOn(last, day), t) then [last] else [])
  }

  /** The filter keeps exactly the restaurants open at that time. */
  lemma {:induction false} FilterClosedExact(rs: seq<Restaurant>, day: string, t: int)
    ensures forall i :: 0 <= i < |FilterClosed(rs, day, t)| ==>
              FilterClosed(rs, day, t)[i] in rs && OpenAt(HoursOn(FilterClosed(rs, day, t)[i], day), t)
    ensures forall i :: 0 <= i < |rs| && OpenAt(HoursOn(rs[i], day), t) ==> rs[i] in FilterClosed(rs, day, t)
  {
    if |rs| > 0 {
      var front := rs[..|rs| - 1];
      FilterClosedExact(front, day, t);
      forall i | 0 <= i < |rs| - 1 && OpenAt(HoursOn(rs[i], day), t)
        ensures rs[i] in FilterClosed(rs, day, t)
      {
        assert front[i] == rs[i];
      }
    }
  }

  /** The hours the tests use: both ends of a pair count, a time in the gap
      between two pairs is closed, and an odd list is closed. */
  lemma OpeningHoursFacts()
    ensures OpenAt([1000, 2000], 1200) && OpenAt([1000, 2000], 1000) && OpenAt([1000, 2000], 2000)
    ensures !OpenAt([1000, 1100], 1200)
    ensures OpenAt([1000, 1200, 1400, 2000], 1500)
    ensures !OpenAt([1000, 1100, 1400, 2000], 1200)
    ensures !OpenAt([1000, 1100, 1400], 1200)
  {
    assert [1000, 1200, 1400, 2000][2..] == [1400, 2000];
    assert [1000, 1100, 1400, 2000][2..] == [1400, 2000];
    assert [1400, 2000][2..] == [];
  }
}
