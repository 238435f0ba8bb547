/** The request the dashboard's `fetchData(option)` builds: the mode and the
    date it posts, chosen from the selected day and today's date. */
module FetchMode {

  import opened Wrappers
  import opened Decimal
  import Lookup

  /** A calendar day as the date picker yields it; `month` counts from 1. */
  datatype CalendarDate = CalendarDate(year: nat, month: nat, day: nat) {
    predicate Valid() {
      year <= 9999 && 1 <= month <= 12 && 1 <= day <= 31
    }
  }

  /** What `fetchData` is called with: the string 'currentDay' or a picked day. */
  datatype Choice = CurrentDay | OnDate(date: CalendarDate)

  /** The mode and the `date` body field of the POST. */
  datatype ApiRequest = ApiRequest(option: string, date: Option<string>)

  /** `moment(d).format("YYYY-MM-DD")`: each field zero-filled to its width. */
  function DateKey(d: CalendarDate): string {
    Pad(d.year, 4) + ['-'] + Pad(d.month, 2) + ['-'] + Pad(d.day, 2)
  }

  /** The two `let`s of `fetchData` after the `if`: 'currentDay' with a null date,
      unless a day other than today is selected. Today is an explicit input. */
  function SelectRequest(choice: Choice, today: CalendarDate): (req: ApiRequest)
    ensures req == ApiRequest(Lookup.CurrentDay, None)
      || (choice.OnDate? && req == ApiRequest(Lookup.PerDay, Some(DateKey(choice.date))))
  {
    if !choice.CurrentDay? && DateKey(choice.date) != DateKey(today) then
      ApiRequest(Lookup.PerDay, Some(DateKey(choice.date)))
    else
      ApiRequest(Lookup.CurrentDay, None)
  }

  /** Two digit strings each followed by a dash can only be split one way. */
  lemma DashSplit(a: string, b: string, c: string, d: string)
    requires AllDigits(a) && AllDigits(c)
    requires a + ['-'] + b == c + ['-'] + d
    ensures a == c && b == d
  {
    var t := a + ['-'] + b;
    assert t[|a|] == '-';
    assert t[|c|] == '-';
    assert a == t[..|a|] && c == t[..|c|];
    assert b == t[|a| + 1..] && d == t[|c| + 1..];
  }

  /** Different days have different keys: the formatted text determines the day. */
  lemma DateKeyInjective(x: CalendarDate, y: CalendarDate)
    ensures DateKey(x) == DateKey(y) ==> x == y
  {
    if DateKey(x) == DateKey(y) {
      var mdx := Pad(x.month, 2) + ['-'] + Pad(x.day, 2);
      var mdy := Pad(y.month, 2) + ['-'] + Pad(y.day, 2);
      assert Pad(x.year, 4) + ['-'] + mdx == Pad(y.year, 4) + ['-'] + mdy by {
        YearFirst(x);
        YearFirst(y);
      }
      DashSplit(Pad(x.year, 4), mdx, Pad(y.year, 4), mdy);
      DashSplit(Pad(x.month, 2), Pad(x.day, 2), Pad(y.month, 2), Pad(y.day, 2));
      PadInjective(x.year, y.year, 4);
      PadInjective(x.month, y.month, 2);
      PadInjective(x.day, y.day, 2);
    }
  }

  lemma YearFirst(d: CalendarDate)
    ensures DateKey(d) == Pad(d.year, 4) + ['-'] + (Pad(d.month, 2) + ['-'] + Pad(d.day, 2))
  {
  }

  lemma PadInjective(a: nat, b: nat, width: nat)
    requires Pad(a, width) == Pad(b, width)
    ensures a == b
  {
    PadValue(a, width);
    PadValue(b, width);
  }

  /** A real calendar day is written as exactly `YYYY-MM-DD`. */
  lemma DateKeyShape(d: CalendarDate)
    requires d.Valid()
    ensures var key := DateKey(d);
      |key| == 10 && key[4] == '-' && key[7] == '-'
      && forall i :: 0 <= i < 10 && i != 4 && i != 7 ==> IsDigit(key[i])
  {
    assert Pow10(4) == 10000 && Pow10(2) == 100;
    PadLength(d.year, 4);
    PadLength(d.month, 2);
    PadLength(d.day, 2);
    var y, m, dd := Pad(d.year, 4), Pad(d.month, 2), Pad(d.day, 2);
    var key := DateKey(d);
    forall i | 0 <= i < 10 && i != 4 && i != 7 ensures IsDigit(key[i]) {
      if i < 4 {
        assert key[i] == y[i];
      } else if i < 7 {
        assert key[i] == m[i - 5];
      } else {
        assert key[i] == dd[i - 8];
      }
    }
  }

  /** The request is 'currentDay' with a null date exactly when 'currentDay' or
      today is selected; any other day gives 'perDay' with that day's key. */
  lemma SelectsCurrentDayExactly(choice: Choice, today: CalendarDate)
    ensures SelectRequest(choice, today) == ApiRequest(Lookup.CurrentDay, None)
      <==> choice.CurrentDay? || choice.date == today
    ensures choice.OnDate? && choice.date != today ==>
      SelectRequest(choice, today) == ApiRequest(Lookup.PerDay, Some(DateKey(choice.date)))
  {
    if choice.OnDate? {
      DateKeyInjective(choice.date, today);
    }
  }

  // ---------------------------------------------------------------------------
  // The request as sent. The path is written '/data/${apiOption}' in single
  // quotes, so no interpolation happens: the route parameter is the literal text.

  const SentOption: string := "${apiOption}"

  /** The request as the code sends it: the literal option, the selected date. */
  function SentRequest(choice: Choice, today: CalendarDate): ApiRequest {
    ApiRequest(SentOption, SelectRequest(choice, today).date)
  }

  /** As written, every request the dashboard makes is answered 'Invalid option',
      whatever is selected and whatever the snapshot holds. */
  lemma SentRequestIsRejected(choice: Choice, today: CalendarDate, doc: Lookup.Snapshot)
    ensures var req := SentRequest(choice, today);
      Lookup.Emit(Lookup.Resolve(req.option, req.date, doc)) == Lookup.Reply(400, Lookup.Error("Invalid option"))
  {
  }

  /** With the selected mode in the path, the backend answers with the data
      the selection names: the current-day record for 'currentDay' or today, and
      for another day its entry, or 'Day not found' when the snapshot lacks it.
      The request never draws 'Missing day body param' or 'Invalid option'. */
  lemma SelectedRequestResolves(choice: Choice, today: CalendarDate, doc: Lookup.Snapshot)
    ensures var req := SelectRequest(choice, today);
      var r := Lookup.Resolve(req.option, req.date, doc);
      && !r.InvalidOption? && !r.MissingDayParam?
      && (choice.CurrentDay? || choice.date == today ==> r == Lookup.Found(doc.currentDayStats))
      && (choice.OnDate? && choice.date != today ==>
            var key := DateKey(choice.date);
            r == if Lookup.HasDay(doc, key) then Lookup.Found(doc.historicalData[key]) else Lookup.DayNotFound)
  {
    SelectsCurrentDayExactly(choice, today);
  }
}
