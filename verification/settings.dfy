/**
 The logic of the settings screen: the source preference it shows and changes, and the
 notification time it formats into and parses out of a time input.
 */
module Settings {

  import opened Optional
  import opened Text
  import opened Decimal
  import opened Storage
  import opened QuoteService

  // ---------------------------------------------------------------------------------------
  // Notification time

  /** `s.padStart(2, '0')`: zeros in front up to two characters; longer text is kept whole. */
  function PadStart2(s: string): (r: string)
    ensures |r| == if |s| >= 2 then |s| else 2
    ensures r[|r| - |s|..] == s
    ensures forall i :: 0 <= i < |r| - |s| ==> r[i] == '0'
  {
    if |s| >= 2 then s else if |s| == 1 then "0" + s else "00"
  }

  /** The notification time; `None` stands for `NaN`, which a cleared or partial input
      leaves behind. */
  datatype Time = Time(hour: Option<int>, minute: Option<int>)

  /** `n.toString()` for a number that is an integer or `NaN`. */
  function NumberText(n: Option<int>): (r: string)
    ensures |r| >= 1 && ':' !in r
    ensures n.None? ==> r == "NaN"
    ensures n.Some? ==> r == IntToString(n.value)
  {
    match n
    case None => "NaN"
    case Some(i) => NoColon(i); IntToString(i)
  }

  /** `formatTime(hour, minute)`: both numbers as text padded to two characters, joined by a
      colon. */
  function FormatTime(t: Time): (r: string)
    ensures |r| >= 5
    ensures exists h, m :: r == h + ":" + m && ':' !in h && ':' !in m
  {
    var h := PadStart2(NumberText(t.hour));
    var m := PadStart2(NumberText(t.minute));
    PadNoColon(NumberText(t.hour));
    PadNoColon(NumberText(t.minute));
    h + ":" + m
  }

  /** Single-digit fields get a leading zero: the text is five characters, `hh:mm`. */
  lemma FormatTimeOfDigits(hour: int, minute: int)
    requires 0 <= hour <= 9 && 0 <= minute <= 9
    ensures FormatTime(Time(Some(hour), Some(minute))) == ['0', DigitChar(hour), ':', '0', DigitChar(minute)]
  {
    assert IntToString(hour) == [DigitChar(hour)];
    assert IntToString(minute) == [DigitChar(minute)];
    assert PadStart2(IntToString(hour)) == ['0', DigitChar(hour)];
    assert PadStart2(IntToString(minute)) == ['0', DigitChar(minute)];
  }

  /** A number from 0 to 99 pads to two digits that read back as the number. */
  lemma TwoDigitField(n: int)
    requires 0 <= n <= 99
    ensures var p := PadStart2(IntToString(n));
            && |p| == 2 && IsDigit(p[0]) && IsDigit(p[1])
            && DigitValue(p[0]) * 10 + DigitValue(p[1]) == n
  {
    var t := NatToString(n);
    if n < 10 {
      assert t == [DigitChar(n)];
    } else {
      assert NatToString(n / 10) == [DigitChar(n / 10)];
      assert t == [DigitChar(n / 10), DigitChar(n % 10)];
    }
  }

  /** Hours and minutes from 0 to 99 show as five characters `hh:mm`, each pair of digits
      reading back as its field. */
  lemma FormatTimeOfTwoDigits(hour: int, minute: int)
    requires 0 <= hour <= 99 && 0 <= minute <= 99
    ensures var r := FormatTime(Time(Some(hour), Some(minute)));
            && |r| == 5 && r[2] == ':'
            && IsDigit(r[0]) && IsDigit(r[1]) && IsDigit(r[3]) && IsDigit(r[4])
            && DigitValue(r[0]) * 10 + DigitValue(r[1]) == hour
            && DigitValue(r[3]) * 10 + DigitValue(r[4]) == minute
  {
    TwoDigitField(hour);
    TwoDigitField(minute);
    FormatTimeJoin(Time(Some(hour), Some(minute)));
    JoinTwoByTwo(PadStart2(IntToString(hour)), PadStart2(IntToString(minute)));
  }

  /** The formatted time is the two padded fields around a colon. */
  lemma FormatTimeJoin(t: Time)
    ensures FormatTime(t) == PadStart2(NumberText(t.hour)) + ":" + PadStart2(NumberText(t.minute))
  {
  }

  /** Where the characters of two two-character fields land around the colon. */
  lemma JoinTwoByTwo(h: string, m: string)
    requires |h| == 2 && |m| == 2
    ensures var r := h + ":" + m;
            && |r| == 5 && r[0] == h[0] && r[1] == h[1] && r[2] == ':' && r[3] == m[0] && r[4] == m[1]
  {
  }

  /** A time whose fields are both `NaN`, as a cleared input leaves it, shows as `NaN:NaN`. */
  lemma FormatTimeOfNaN()
    ensures FormatTime(Time(None, None)) == "NaN:NaN"
  {
  }

  /** A digit in a piece of `value` is a digit of `value`. */
  lemma DigitCarries(piece: string, value: string)
    requires forall c :: c in piece ==> c in value
    ensures (exists k :: 0 <= k < |piece| && IsDigit(piece[k])) ==>
            exists k :: 0 <= k < |value| && IsDigit(value[k])
  {
    if k :| 0 <= k < |piece| && IsDigit(piece[k]) {
      assert piece[k] in value;
    }
  }

  /** The time input's `onChange` followed by `handleTimeChange`: split the value on `:`,
      read the first two pieces with `parseInt`; a missing piece is `undefined`, which
      reads as `NaN`. */
  function ParseTimeInput(value: string): (t: Time)
    ensures t.hour.Some? || t.minute.Some? ==> exists k :: 0 <= k < |value| && IsDigit(value[k])
  {
    var parts := Split(value, ':');
    DigitCarries(parts[0], value);
    if |parts| >= 2 then
      DigitCarries(parts[1], value);
      Time(ParseInt(parts[0]), ParseInt(parts[1]))
    else
      Time(ParseInt(parts[0]), None)
  }

  /** A value without a colon leaves the minute `NaN` and reads the hour from all of it. */
  lemma ParseTimeInputWithoutColon(value: string)
    requires ':' !in value
    ensures ParseTimeInput(value) == Time(ParseInt(value), None)
  {
    SplitWhole(value, ':');
  }

  /** The text of an integer has no colon. */
  lemma NoColon(i: int)
    ensures ':' !in IntToString(i)
  {
    var s := IntToString(i);
    assert forall k :: 0 <= k < |s| ==> s[k] != ':';
  }

  /** Padding with zeros adds no colon. */
  lemma PadNoColon(s: string)
    requires ':' !in s
    ensures ':' !in PadStart2(s)
  {
    var p := PadStart2(s);
    forall k | 0 <= k < |p| ensures p[k] != ':' {
      if k >= |p| - |s| {
        assert p[k] == p[|p| - |s|..][k - (|p| - |s|)];
      }
    }
  }

  /** An integer written as the input shows it reads back as itself. */
  lemma FieldRoundTrip(i: int)
    ensures ParseInt(PadStart2(IntToString(i))) == Some(i)
  {
    if 0 <= i <= 9 {
      assert PadStart2(IntToString(i)) == "0" + NatToString(i);
      ParseIntOfPadded(i);
    } else {
      if i < 0 {
        assert |IntToString(i)| == 1 + |NatToString(-i)|;
      } else {
        assert |NatToString(i)| == |NatToString(i / 10)| + 1;
      }
      ParseIntOfToString(i);
    }
  }

  /** `NaN` written as the input shows it reads back as `NaN`. */
  lemma NaNRoundTrip()
    ensures ParseInt(PadStart2(NumberText(None))) == None
  {
    var s := PadStart2(NumberText(None));
    assert s == "NaN";
    assert forall k :: 0 <= k < |s| ==> !IsDigit(s[k]);
  }

  /** Formatting a time and parsing the input's value gives the time back, for every time:
      any pair of integers, and `NaN` in either field. */
  lemma TimeRoundTrip(t: Time)
    ensures ParseTimeInput(FormatTime(t)) == t
  {
    var h, m := PadStart2(NumberText(t.hour)), PadStart2(NumberText(t.minute));
    PadNoColon(NumberText(t.hour));
    PadNoColon(NumberText(t.minute));
    SplitAt(h, ':', m);
    SplitWhole(m, ':');
    assert FormatTime(t) == h + [':'] + m;
    if t.hour.Some? { FieldRoundTrip(t.hour.value); } else { NaNRoundTrip(); }
    if t.minute.Some? { FieldRoundTrip(t.minute.value); } else { NaNRoundTrip(); }
  }

  // ---------------------------------------------------------------------------------------
  // Source preference

  /** The source the screen shows after `loadSettings`: `'bible'` unless a truthy value is
      saved. The permission check runs first in the same `try`, so when it throws the saved
      value is never read. The browser build's check returns `false` without throwing, so
      there `permissionCheckThrows` is always false. */
  function SettingsSource(store: Store, permissionCheckThrows: bool): (v: Value)
    ensures permissionCheckThrows || !HasTruthy(store, QuoteSourceKey) ==> v == TextValue(DefaultSource)
    ensures !permissionCheckThrows && HasTruthy(store, QuoteSourceKey) ==> v == store[QuoteSourceKey]
  {
    if !permissionCheckThrows && HasTruthy(store, QuoteSourceKey) then store[QuoteSourceKey]
    else TextValue(DefaultSource)
  }

  /** Without a failing permission check, the screen shows the source the service uses. */
  lemma SettingsSourceAgrees(store: Store)
    ensures SettingsSource(store, false) == QuoteSource(store)
  {
  }

  /** If the permission check threw, the screen could show `'bible'` while the service uses
      a different saved source. The browser build's check never throws, so this happens
      only with a check that can fail. */
  lemma SettingsSourceCanDisagree()
    ensures var store := map[QuoteSourceKey := TextValue("general")];
            SettingsSource(store, true) != QuoteSource(store)
  {
    var store := map[QuoteSourceKey := TextValue("general")];
    assert "general"[0] != "bible"[0];
  }

  /** `handleQuoteSourceChange(source)`: the preference is written (through the service, then
      directly, to the same key) and today's memo entry is removed, `date` being the day the
      handler runs. Returns the shown source and the store. */
  function SourceChange(store: Store, source: string, date: Date): (r: (string, Store))
    ensures r.0 == source
    ensures TodayKey(date) !in r.1
    ensures QuoteSourceKey in r.1 && r.1[QuoteSourceKey] == TextValue(source)
    ensures forall k :: k in store && k != QuoteSourceKey && k != TodayKey(date) ==>
              k in r.1 && r.1[k] == store[k]
    ensures r.1.Keys == (store.Keys + {QuoteSourceKey}) - {TodayKey(date)}
  {
    TodayKeyIsNotFixed(date);
    var written := SetQuoteSource(store, source)[QuoteSourceKey := TextValue(source)];
    (source, written - {TodayKey(date)})
  }

  /** After a change, the service reads the new source back, or the default for `''`. */
  lemma SourceChangeReadsBack(store: Store, source: string, date: Date)
    ensures QuoteSource(SourceChange(store, source, date).1)
            == TextValue(if source != "" then source else DefaultSource)
  {
  }

  /** After a change, the next daily lookup that day misses the memo and fetches from the new
      source: its first request goes to the Bible endpoint exactly when the source is
      `'bible'` (or `''`, which reads as the default). */
  lemma SourceChangeRefetches(store: Store, source: string, date: Date, a: Attempt)
    ensures var d := DailyQuote(SourceChange(store, source, date).1, date, a);
            && d.requests != []
            && (d.requests[0].url != GeneralRequest.url <==> source == "bible" || source == "")
  {
    var s := SourceChange(store, source, date).1;
    SourceChangeReadsBack(store, source, date);
    assert !HasTruthy(s, TodayKey(date));
    var d := DailyQuote(s, date, a);
    assert d.requests == FetchForSource(s, a).requests;
  }
}
