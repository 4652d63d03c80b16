/** The wall-clock side of the timers (`EvtTimeNet`): daily "At" triggers,
    hourly "AtMinute" triggers, the seconds-after-midnight arithmetic, the
    "HH:MM[:SS]" parser and the time-of-day comparisons.  The RTC/NTP clock
    is an input: each reading is a broken-down time plus a validity bit. */
module EvtTimeNet {

  import opened Words
  import opened Wrappers
  import opened Callbacks
  import opened CText
  import Lists

  const SECONDS_PER_DAY: int := 86400

  /** A time of day without a date. */
  datatype TimeOnly = TimeOnly(hour: U8, minute: U8, second: U8)

  /** The fields of a `struct tm` that the triggers read. */
  datatype Tm = Tm(mday: int, hour: int, min: int, sec: int)

  /** The clock state shared by the trigger handlers: whether the RTC holds
      a valid time, the last broken-down time read, and its seconds after
      midnight (refreshed only while the RTC is synced). */
  datatype Clock = Clock(rtcSynced: bool, curTime: Tm, curSecSinceMidnight: U32)

  /** A daily trigger. */
  datatype TriggerAt = TriggerAt(
    time: TimeOnly,
    cb: CbId,
    justAdded: bool,
    triggeredDay: U8,
    secAfterMidnight: U32,
    triggerCount: U32)

  /** An hourly trigger. */
  datatype TriggerAtMinute = TriggerAtMinute(
    minute: U8,
    cb: CbId,
    justAdded: bool,
    triggeredHour: U8,
    triggerCount: U32)

  /** The callback of an At-trigger invoked with its time and new count. */
  datatype AtFired = AtFired(cb: CbId, time: TimeOnly, triggerCount: U32)

  /** The callback of an AtMinute-trigger invoked with its minute and new count. */
  datatype AtMinuteFired = AtMinuteFired(cb: CbId, minute: U8, triggerCount: U32)

  /** The ranges `localtime` produces (a leap second may show as :60). */
  predicate ValidTm(tm: Tm)
  {
    1 <= tm.mday <= 31 && 0 <= tm.hour < 24 && 0 <= tm.min < 60 && 0 <= tm.sec <= 60
  }

  predicate ValidTime(t: TimeOnly)
  {
    t.hour < 24 && t.minute < 60 && t.second < 60
  }

  // ---------------------------------------------------------------------
  // Seconds after midnight

  /** `getSecAfterMidnight`: `second + minute * 60 + hour * 3600`; with 8-bit
      fields it never exceeds 32 bits. */
  function SecAfterMidnight(t: TimeOnly): (s: U32)
    ensures ValidTime(t) ==> s < SECONDS_PER_DAY
  {
    t.second + t.minute * 60 + t.hour * 3600
  }

  /** The time of day `s` seconds after midnight. */
  function TimeOfSec(s: nat): (t: TimeOnly)
    requires s < SECONDS_PER_DAY
    ensures ValidTime(t)
  {
    TimeOnly(s / 3600, (s / 60) % 60, s % 60)
  }

  /** Seconds after midnight is a faithful encoding of a valid time of day:
      decoding gives the time back. */
  lemma SecAfterMidnightRoundTrip(t: TimeOnly)
    requires ValidTime(t)
    ensures TimeOfSec(SecAfterMidnight(t)) == t
  {
    var s := SecAfterMidnight(t);
    var m := t.second + 60 * (t.minute + 60 * t.hour);
    assert s == m;
    assert s / 60 == t.minute + 60 * t.hour;
    assert s / 3600 == (s / 60) / 60;
  }

  /** ... so two different valid times never share a key, and the converse
      of `SecAfterMidnight` on the whole day is `TimeOfSec`. */
  lemma SecAfterMidnightInjective(a: TimeOnly, b: TimeOnly)
    requires ValidTime(a) && ValidTime(b)
    ensures SecAfterMidnight(a) == SecAfterMidnight(b) <==> a == b
  {
    SecAfterMidnightRoundTrip(a);
    SecAfterMidnightRoundTrip(b);
  }

  lemma TimeOfSecRoundTrip(s: nat)
    requires s < SECONDS_PER_DAY
    ensures SecAfterMidnight(TimeOfSec(s)) == s
  {
  }

  /** `updateTimeFromRtc`: the broken-down time is always stored; seconds
      after midnight are recomputed only when the read succeeded, so while
      the RTC is not synced the old value stays. */
  function UpdateTimeFromRtc(c: Clock, synced: bool, tm: Tm): (r: Clock)
    ensures r.rtcSynced == synced && r.curTime == tm
    ensures !synced ==> r.curSecSinceMidnight == c.curSecSinceMidnight
    ensures synced && ValidTm(tm) ==>
              r.curSecSinceMidnight == tm.hour * 3600 + tm.min * 60 + tm.sec
              && r.curSecSinceMidnight <= SECONDS_PER_DAY
  {
    var secs := if synced then SecAfterMidnight(TimeOnly(Wrap8(tm.hour), Wrap8(tm.min), Wrap8(tm.sec)))
                else c.curSecSinceMidnight;
    Clock(synced, tm, secs)
  }

  // ---------------------------------------------------------------------
  // Time-of-day comparisons (against the last clock reading)

  /** `isBefore`: the given time is still ahead today. */
  predicate IsBefore(c: Clock, t: TimeOnly)
  {
    SecAfterMidnight(t) > c.curSecSinceMidnight
  }

  /** `isAfter`: the given time has passed today. */
  predicate IsAfter(c: Clock, t: TimeOnly)
  {
    SecAfterMidnight(t) < c.curSecSinceMidnight
  }

  /** `isBetween`: after `start` and before `end`. */
  predicate IsBetween(c: Clock, start: TimeOnly, end: TimeOnly)
  {
    IsAfter(c, start) && IsBefore(c, end)
  }

  /** A time is never both ahead and passed, and at the exact second it is
      neither. */
  lemma BeforeAfterExclusive(c: Clock, t: TimeOnly)
    ensures !(IsBefore(c, t) && IsAfter(c, t))
    ensures SecAfterMidnight(t) == c.curSecSinceMidnight ==> !IsBefore(c, t) && !IsAfter(c, t)
    ensures SecAfterMidnight(t) != c.curSecSinceMidnight ==> IsBefore(c, t) || IsAfter(c, t)
  {
  }

  /** Intervals do not wrap past midnight: a window whose start is not
      before its end is never entered, and otherwise the window is the
      open interval between the two times. */
  lemma BetweenIsOpenInterval(c: Clock, start: TimeOnly, end: TimeOnly)
    ensures SecAfterMidnight(start) >= SecAfterMidnight(end) ==> !IsBetween(c, start, end)
    ensures IsBetween(c, start, end) <==>
              SecAfterMidnight(start) < c.curSecSinceMidnight < SecAfterMidnight(end)
  {
  }

  // ---------------------------------------------------------------------
  // "HH:MM" and "HH:MM:SS" text

  /** The 9-byte working copy `stringToTimeOnly` builds: the text copied
      with `strncpy`, NULs over the two colon positions and, for a 5-char
      "HH:MM", a "00" seconds field. */
  function TimeBuffer(text: seq<char>): (buf: seq<char>)
    ensures |buf| == 9 && buf[2] == NUL && buf[5] == NUL
  {
    var copy := StrNCpy(text, 9)[2 := NUL][5 := NUL];
    if |CStr(text)| == 5 then copy[6 := '0'][7 := '0'][8 := NUL] else copy
  }

  /** `stringToTimeOnly`: `atoi` of the three fields of the working copy,
      each stored into a `uint8_t`. */
  function StringToTimeOnly(text: seq<char>): TimeOnly
  {
    ParseBuffer(TimeBuffer(text))
  }

  /** The three `atoi` calls on the working copy, at offsets 0, 3 and 6. */
  function ParseBuffer(buf: seq<char>): TimeOnly
    requires |buf| == 9
  {
    TimeOnly(Wrap8(Atoi(buf)), Wrap8(Atoi(buf[3..])), Wrap8(Atoi(buf[6..])))
  }

  /** `atoi` of two digits followed by a non-digit (or nothing). */
  lemma AtoiTwoDigits(s: seq<char>)
    requires |s| >= 2 && IsDigit(s[0]) && IsDigit(s[1]) && (|s| == 2 || !IsDigit(s[2]))
    ensures Atoi(s) == 10 * DigitValue(s[0]) + DigitValue(s[1])
  {
    var d := s[..2];
    assert s == d + s[2..];
    AtoiDigitsThen(d, s[2..]);
    assert d[..1][..0] == [];
    assert DigitsValue(d[..1]) == DigitValue(s[0]);
  }

  predicate IsTwoDigits(s: seq<char>) { |s| == 2 && IsDigit(s[0]) && IsDigit(s[1]) }

  function TwoDigitsValue(s: seq<char>): (n: nat)
    requires IsTwoDigits(s)
    ensures n < 100
  {
    10 * DigitValue(s[0]) + DigitValue(s[1])
  }

  /** The time whose fields are the two-digit texts `hh`, `mm` and `ss`. */
  function FieldsTime(hh: seq<char>, mm: seq<char>, ss: seq<char>): TimeOnly
    requires IsTwoDigits(hh) && IsTwoDigits(mm) && IsTwoDigits(ss)
  {
    TimeOnly(TwoDigitsValue(hh), TwoDigitsValue(mm), TwoDigitsValue(ss))
  }

  /** A working copy holding digit pairs at 0, 3 and 6, each followed by
      a NUL, reads as those three two-digit numbers. */
  lemma ParseBufferDigits(buf: seq<char>)
    requires |buf| == 9 && buf[2] == NUL && buf[5] == NUL && buf[8] == NUL
    requires IsTwoDigits(buf[0..2]) && IsTwoDigits(buf[3..5]) && IsTwoDigits(buf[6..8])
    ensures ParseBuffer(buf) == FieldsTime(buf[0..2], buf[3..5], buf[6..8])
  {
    AtoiTwoDigits(buf);
    AtoiTwoDigits(buf[3..]);
    AtoiTwoDigits(buf[6..]);
  }

  /** The working copy of an 8-char text without NUL keeps the fields. */
  lemma TimeBufferOfLong(text: seq<char>)
    requires |text| == 8 && NUL !in text
    ensures TimeBuffer(text)[0..2] == text[0..2]
    ensures TimeBuffer(text)[3..5] == text[3..5]
    ensures TimeBuffer(text)[6..8] == text[6..8]
    ensures TimeBuffer(text)[8] == NUL
  {
    assert CStr(text) == text;
  }

  /** The working copy of a 5-char text without NUL keeps the two fields
      and gets "00" seconds. */
  lemma TimeBufferOfShort(text: seq<char>)
    requires |text| == 5 && NUL !in text
    ensures TimeBuffer(text)[0..2] == text[0..2]
    ensures TimeBuffer(text)[3..5] == text[3..5]
    ensures TimeBuffer(text)[6..8] == "00"
    ensures TimeBuffer(text)[8] == NUL
  {
    assert CStr(text) == text;
  }

  /** The fields of "HH:MM:SS" sit at offsets 0, 3 and 6. */
  lemma JoinLong(hh: seq<char>, mm: seq<char>, ss: seq<char>)
    requires IsTwoDigits(hh) && IsTwoDigits(mm) && IsTwoDigits(ss)
    ensures var text := hh + ":" + mm + ":" + ss;
            |text| == 8 && NUL !in text && text[0..2] == hh && text[3..5] == mm && text[6..8] == ss
  {
    var text := hh + ":" + mm + ":" + ss;
    assert text == [hh[0], hh[1], ':', mm[0], mm[1], ':', ss[0], ss[1]];
  }

  /** The fields of "HH:MM" sit at offsets 0 and 3. */
  lemma JoinShort(hh: seq<char>, mm: seq<char>)
    requires IsTwoDigits(hh) && IsTwoDigits(mm)
    ensures var text := hh + ":" + mm;
            |text| == 5 && NUL !in text && text[0..2] == hh && text[3..5] == mm
  {
    var text := hh + ":" + mm;
    assert text == [hh[0], hh[1], ':', mm[0], mm[1]];
  }

  /** "HH:MM:SS" with two-digit fields reads as (HH, MM, SS). */
  lemma ParseHHMMSS(hh: seq<char>, mm: seq<char>, ss: seq<char>)
    requires IsTwoDigits(hh) && IsTwoDigits(mm) && IsTwoDigits(ss)
    ensures StringToTimeOnly(hh + ":" + mm + ":" + ss) == FieldsTime(hh, mm, ss)
  {
    var text := hh + ":" + mm + ":" + ss;
    JoinLong(hh, mm, ss);
    TimeBufferOfLong(text);
    var buf := TimeBuffer(text);
    assert buf[0..2] == hh && buf[3..5] == mm && buf[6..8] == ss;
    ParseBufferDigits(buf);
  }

  /** "HH:MM" with two-digit fields reads as "HH:MM:00", that is (HH, MM, 0). */
  lemma ParseHHMM(hh: seq<char>, mm: seq<char>)
    requires IsTwoDigits(hh) && IsTwoDigits(mm)
    ensures StringToTimeOnly(hh + ":" + mm) == FieldsTime(hh, mm, "00")
    ensures FieldsTime(hh, mm, "00").second == 0
  {
    var text := hh + ":" + mm;
    JoinShort(hh, mm);
    TimeBufferOfShort(text);
    var buf := TimeBuffer(text);
    assert buf[0..2] == hh && buf[3..5] == mm && buf[6..8] == "00";
    ParseBufferDigits(buf);
  }

  /** Two-digit, zero-padded decimal text (`%02d`) of a number below 100. */
  function TwoDigits(n: nat): (s: seq<char>)
    requires n < 100
    ensures IsTwoDigits(s) && TwoDigitsValue(s) == n
  {
    [DigitChar(n / 10), DigitChar(n % 10)]
  }

  /** The "%02d:%02d:%02d" text the firmware prints for a time. */
  function FormatTime(t: TimeOnly): (s: seq<char>)
    requires ValidTime(t)
    ensures |s| == 8
  {
    TwoDigits(t.hour) + ":" + TwoDigits(t.minute) + ":" + TwoDigits(t.second)
  }

  /** Printing a valid time and parsing it back gives the same time, with
      or without the seconds field. */
  lemma FormatParseRoundTrip(t: TimeOnly)
    requires ValidTime(t)
    ensures StringToTimeOnly(FormatTime(t)) == t
    ensures StringToTimeOnly(TwoDigits(t.hour) + ":" + TwoDigits(t.minute)) == t.(second := 0)
  {
    ParseHHMMSS(TwoDigits(t.hour), TwoDigits(t.minute), TwoDigits(t.second));
    ParseHHMM(TwoDigits(t.hour), TwoDigits(t.minute));
  }

  // ---------------------------------------------------------------------
  // Registering and removing triggers

  /** `triggerAt`: a new daily trigger goes to the end of the list, marked
      as just added, with its key precomputed and its day and count zero. */
  function AddTriggerAt(l: seq<TriggerAt>, time: TimeOnly, cb: CbId): (r: seq<TriggerAt>)
    ensures |r| == |l| + 1 && r[..|l|] == l
    ensures r[|l|].time == time && r[|l|].cb == cb && r[|l|].justAdded
    ensures r[|l|].secAfterMidnight == SecAfterMidnight(time) && r[|l|].triggerCount == 0
  {
    l + [TriggerAt(time, cb, true, 0, SecAfterMidnight(time), 0)]
  }

  /** The removal key of `triggerAtRemove`: same seconds after midnight. */
  predicate SameAtKey(ta: TriggerAt, time: TimeOnly)
  {
    ta.secAfterMidnight == SecAfterMidnight(time)
  }

  /** `triggerAtRemove`: drops the first trigger with the same key and
      reports whether there was one. */
  function TriggerAtRemove(l: seq<TriggerAt>, time: TimeOnly): (r: (bool, seq<TriggerAt>))
    ensures r.0 <==> exists i :: 0 <= i < |l| && SameAtKey(l[i], time)
    ensures !r.0 ==> r.1 == l
    ensures r.0 ==> exists i :: Lists.IsFirstMatch(l, (ta: TriggerAt) => SameAtKey(ta, time), i)
                                && r.1 == l[..i] + l[i + 1..]
  {
    Lists.RemoveFirst(l, ta => SameAtKey(ta, time))
  }

  /** `triggerAtMinute`: a new hourly trigger goes to the end of the list. */
  function AddTriggerAtMinute(l: seq<TriggerAtMinute>, minute: U8, cb: CbId): (r: seq<TriggerAtMinute>)
    ensures |r| == |l| + 1 && r[..|l|] == l
    ensures r[|l|].minute == minute && r[|l|].cb == cb && r[|l|].justAdded && r[|l|].triggerCount == 0
  {
    l + [TriggerAtMinute(minute, cb, true, 0, 0)]
  }

  /** `triggerAtMinuteRemove`: drops the first trigger for that minute. */
  function TriggerAtMinuteRemove(l: seq<TriggerAtMinute>, minute: U8): (r: (bool, seq<TriggerAtMinute>))
    ensures r.0 <==> exists i :: 0 <= i < |l| && l[i].minute == minute
    ensures !r.0 ==> r.1 == l
    ensures r.0 ==> exists i :: Lists.IsFirstMatch(l, (tam: TriggerAtMinute) => tam.minute == minute, i)
                                && r.1 == l[..i] + l[i + 1..]
  {
    Lists.RemoveFirst(l, (tam: TriggerAtMinute) => tam.minute == minute)
  }

  // ---------------------------------------------------------------------
  // Daily triggers

  /** One evaluation of a daily trigger against a synced clock.  On its
      first evaluation the trigger takes a baseline day: today if its time
      has already passed, otherwise yesterday; that evaluation can fire
      only in the second case, and it does not, since the time has not
      come.  Afterwards it fires when its day differs from today and its
      time has come, remembering today. */
  function StepAt(ta: TriggerAt, c: Clock): (r: (TriggerAt, Option<AtFired>))
    ensures r.0.time == ta.time && r.0.cb == ta.cb && r.0.secAfterMidnight == ta.secAfterMidnight
    ensures !r.0.justAdded
    ensures ValidTm(c.curTime) ==>
              (r.1.Some? <==> !ta.justAdded && ta.triggeredDay != c.curTime.mday
                              && c.curSecSinceMidnight >= ta.secAfterMidnight)
    ensures r.1.Some? ==> c.curSecSinceMidnight >= ta.secAfterMidnight
    ensures r.1.Some? ==> r.0.triggerCount == Wrap32(ta.triggerCount + 1)
                          && r.1.value == AtFired(ta.cb, ta.time, r.0.triggerCount)
    ensures r.1.None? ==> r.0.triggerCount == ta.triggerCount
    ensures ValidTm(c.curTime) && (r.1.Some? || c.curSecSinceMidnight >= ta.secAfterMidnight) ==>
              r.0.triggeredDay == c.curTime.mday
    ensures ValidTm(c.curTime) && r.1.None? && !ta.justAdded ==> r.0.triggeredDay == ta.triggeredDay
  {
    var mday := c.curTime.mday;
    var due := c.curSecSinceMidnight >= ta.secAfterMidnight;
    var day := if ta.justAdded then (if due then Wrap8(mday) else Wrap8(mday - 1)) else ta.triggeredDay;
    var t := ta.(justAdded := false, triggeredDay := day);
    if t.triggeredDay != mday && due then
      var n := Wrap32(t.triggerCount + 1);
      (t.(triggeredDay := Wrap8(mday), triggerCount := n), Some(AtFired(t.cb, t.time, n)))
    else
      (t, None)
  }

  /** One tick of a daily trigger: no-op while the RTC is not synced. */
  function TickAt(ta: TriggerAt, c: Clock): (TriggerAt, Option<AtFired>)
  {
    if c.rtcSynced then StepAt(ta, c) else (ta, None)
  }

  /** What each trigger's own tick yields, in list order. */
  function AtTicks(l: seq<TriggerAt>, c: Clock): (r: seq<Option<AtFired>>)
    ensures |r| == |l|
    ensures forall i :: 0 <= i < |l| ==> r[i] == TickAt(l[i], c).1
    decreases |l|
  {
    if |l| == 0 then [] else [TickAt(l[0], c).1] + AtTicks(l[1..], c)
  }

  /** The loop of `handleTriggerAt`: each trigger ticked once, in list order,
      its callback (if any) made in the same order. */
  function PassAt(l: seq<TriggerAt>, c: Clock): (r: (seq<TriggerAt>, seq<AtFired>))
    ensures |r.0| == |l|
    decreases |l|
  {
    if |l| == 0 then ([], [])
    else
      var (t, e) := TickAt(l[0], c);
      var rest := PassAt(l[1..], c);
      ([t] + rest.0, (if e.Some? then [e.value] else []) + rest.1)
  }

  /** The loop leaves trigger `i` as its own tick does, and makes exactly
      the callbacks the ticks yield, in order. */
  lemma {:induction false} PassAtTicks(l: seq<TriggerAt>, c: Clock)
    ensures forall i :: 0 <= i < |l| ==> PassAt(l, c).0[i] == TickAt(l[i], c).0
    ensures PassAt(l, c).1 == Somes(AtTicks(l, c))
    decreases |l|
  {
    if |l| > 0 {
      PassAtTicks(l[1..], c);
      SomesCons(TickAt(l[0], c).1, AtTicks(l[1..], c));
      var r := PassAt(l, c);
      assert r.0 == [TickAt(l[0], c).0] + PassAt(l[1..], c).0;
      forall i | 1 <= i < |l|
        ensures r.0[i] == TickAt(l[i], c).0
      {
        assert l[1..][i - 1] == l[i];
      }
    }
  }

  /** Without a synced clock the loop changes nothing and calls nothing. */
  lemma {:induction false} PassAtUnsynced(l: seq<TriggerAt>, c: Clock)
    requires !c.rtcSynced
    ensures PassAt(l, c) == (l, [])
    decreases |l|
  {
    if |l| > 0 {
      PassAtUnsynced(l[1..], c);
      assert TickAt(l[0], c) == (l[0], None);
      assert l == [l[0]] + l[1..];
      var none: seq<AtFired> := [];
      assert none + none == none;
    }
  }

  /** `handleTriggerAt`: every trigger is evaluated once, in list order;
      nothing at all happens while the RTC is not synced. */
  function HandleTriggerAt(l: seq<TriggerAt>, c: Clock): (r: (seq<TriggerAt>, seq<AtFired>))
    ensures |r.0| == |l|
    ensures !c.rtcSynced ==> r == (l, [])
    ensures forall i :: 0 <= i < |l| ==> r.0[i] == TickAt(l[i], c).0
    ensures |r.1| <= |l|
    ensures forall k :: 0 <= k < |r.1| ==>
              exists i :: 0 <= i < |l| && TickAt(l[i], c).1 == Some(r.1[k])
    ensures forall i :: 0 <= i < |l| && TickAt(l[i], c).1.Some? ==> TickAt(l[i], c).1.value in r.1
    ensures r.1 == Somes(AtTicks(l, c))
  {
    PassAtTicks(l, c);
    if !c.rtcSynced then
      PassAtUnsynced(l, c);
      PassAt(l, c)
    else
      SomesMembers(AtTicks(l, c));
      PassAt(l, c)
  }

  /** A daily trigger driven by a sequence of clock readings: the trigger
      afterwards and how often it fired. */
  function RunAt(ta: TriggerAt, clocks: seq<Clock>): (r: (TriggerAt, nat))
    ensures r.0.time == ta.time && r.0.secAfterMidnight == ta.secAfterMidnight
    decreases |clocks|
  {
    if |clocks| == 0 then (ta, 0)
    else
      var (t, e) := TickAt(ta, clocks[0]);
      var rest := RunAt(t, clocks[1..]);
      (rest.0, rest.1 + (if e.Some? then 1 else 0))
  }

  /** A sequence of readings all taken on day `d` of the month while the
      RTC was synced. */
  predicate SyncedOnDay(clocks: seq<Clock>, d: int)
  {
    forall k :: 0 <= k < |clocks| ==>
      clocks[k].rtcSynced && ValidTm(clocks[k].curTime) && clocks[k].curTime.mday == d
  }

  /** Readings where the RTC was not synced do not matter; the synced ones
      all fall on day `d`. */
  predicate OnDayWhenSynced(clocks: seq<Clock>, d: int)
  {
    forall k :: 0 <= k < |clocks| ==>
      clocks[k].rtcSynced ==> ValidTm(clocks[k].curTime) && clocks[k].curTime.mday == d
  }

  /** Within one day of the month a daily trigger fires at most once, and
      not at all once it has fired (or taken its baseline after its time)
      that day. */
  lemma {:induction false} AtAtMostOncePerDay(ta: TriggerAt, clocks: seq<Clock>, d: int)
    requires OnDayWhenSynced(clocks, d)
    ensures RunAt(ta, clocks).1 <= 1
    ensures !ta.justAdded && ta.triggeredDay == d ==> RunAt(ta, clocks).1 == 0
    ensures !ta.justAdded && ta.triggeredDay == d ==>
              !RunAt(ta, clocks).0.justAdded && RunAt(ta, clocks).0.triggeredDay == d
    decreases |clocks|
  {
    if |clocks| > 0 {
      var (t, e) := TickAt(ta, clocks[0]);
      assert OnDayWhenSynced(clocks[1..], d) by {
        forall k | 0 <= k < |clocks[1..]|
          ensures clocks[1..][k].rtcSynced ==> ValidTm(clocks[1..][k].curTime) && clocks[1..][k].curTime.mday == d
        {
          assert clocks[1..][k] == clocks[k + 1];
        }
      }
      AtAtMostOncePerDay(t, clocks[1..], d);
      if e.Some? {
        assert clocks[0].rtcSynced && ValidTm(clocks[0].curTime);
        assert !t.justAdded && t.triggeredDay == d;
      } else if !ta.justAdded && ta.triggeredDay == d {
        assert t.triggeredDay == d && !t.justAdded;
      }
    }
  }

  /** A daily trigger that has not fired today fires during a synced day
      once some reading has reached its time. */
  lemma {:induction false} AtFiresWhenDue(ta: TriggerAt, clocks: seq<Clock>, d: int)
    requires SyncedOnDay(clocks, d)
    requires !ta.justAdded && ta.triggeredDay != d
    requires exists k :: 0 <= k < |clocks| && clocks[k].curSecSinceMidnight >= ta.secAfterMidnight
    ensures RunAt(ta, clocks).1 >= 1
    decreases |clocks|
  {
    var (t, e) := TickAt(ta, clocks[0]);
    if e.None? {
      assert clocks[0].curSecSinceMidnight < ta.secAfterMidnight;
      assert t == ta.(justAdded := false);
      var k :| 0 <= k < |clocks| && clocks[k].curSecSinceMidnight >= ta.secAfterMidnight;
      assert clocks[1..][k - 1] == clocks[k];
      assert SyncedOnDay(clocks[1..], d) by {
        forall j | 0 <= j < |clocks[1..]|
          ensures clocks[1..][j].rtcSynced && ValidTm(clocks[1..][j].curTime) && clocks[1..][j].curTime.mday == d
        {
          assert clocks[1..][j] == clocks[j + 1];
        }
      }
      AtFiresWhenDue(t, clocks[1..], d);
    }
  }

  /** Registered after its time on a given day, a daily trigger does not
      fire that day. */
  lemma AtRegisteredLateWaitsForTomorrow(ta: TriggerAt, clocks: seq<Clock>, d: int)
    requires ta.justAdded
    requires 0 < |clocks| && SyncedOnDay(clocks[..1], d) && OnDayWhenSynced(clocks, d)
    requires clocks[0].curSecSinceMidnight >= ta.secAfterMidnight
    ensures RunAt(ta, clocks).1 == 0
    ensures !RunAt(ta, clocks).0.justAdded && RunAt(ta, clocks).0.triggeredDay == d
  {
    assert clocks[..1][0] == clocks[0];
    var (t, e) := TickAt(ta, clocks[0]);
    assert e.None? && t.triggeredDay == d && !t.justAdded;
    assert OnDayWhenSynced(clocks[1..], d) by {
      forall k | 0 <= k < |clocks[1..]|
        ensures clocks[1..][k].rtcSynced ==> ValidTm(clocks[1..][k].curTime) && clocks[1..][k].curTime.mday == d
      {
        assert clocks[1..][k] == clocks[k + 1];
      }
    }
    AtAtMostOncePerDay(t, clocks[1..], d);
  }

  /** Registered before its time on a synced day, a daily trigger fires
      exactly once that day when its time comes. */
  lemma AtRegisteredEarlyFiresToday(ta: TriggerAt, clocks: seq<Clock>, d: int)
    requires ta.justAdded
    requires SyncedOnDay(clocks, d) && 0 < |clocks|
    requires clocks[0].curSecSinceMidnight < ta.secAfterMidnight
    requires exists k :: 0 <= k < |clocks| && clocks[k].curSecSinceMidnight >= ta.secAfterMidnight
    ensures RunAt(ta, clocks).1 == 1
  {
    var (t, e) := TickAt(ta, clocks[0]);
    assert e.None? && !t.justAdded && t.triggeredDay == Wrap8(d - 1);
    assert t.triggeredDay != d;
    assert RunAt(ta, clocks).1 == RunAt(t, clocks[1..]).1;
    var k :| 0 <= k < |clocks| && clocks[k].curSecSinceMidnight >= ta.secAfterMidnight;
    assert clocks[1..][k - 1] == clocks[k];
    assert SyncedOnDay(clocks[1..], d) by {
      forall j | 0 <= j < |clocks[1..]|
        ensures clocks[1..][j].rtcSynced && ValidTm(clocks[1..][j].curTime) && clocks[1..][j].curTime.mday == d
      {
        assert clocks[1..][j] == clocks[j + 1];
      }
    }
    AtFiresWhenDue(t, clocks[1..], d);
    AtAtMostOncePerDay(t, clocks[1..], d);
  }

  /** Running over two stretches of readings is running over the first
      and then over the second from where the first left off. */
  lemma {:induction false} RunAtAppend(ta: TriggerAt, a: seq<Clock>, b: seq<Clock>)
    ensures RunAt(ta, a + b).0 == RunAt(RunAt(ta, a).0, b).0
    ensures RunAt(ta, a + b).1 == RunAt(ta, a).1 + RunAt(RunAt(ta, a).0, b).1
    decreases |a|
  {
    if |a| == 0 {
      assert a + b == b;
    } else {
      assert (a + b)[0] == a[0];
      assert (a + b)[1..] == a[1..] + b;
      RunAtAppend(TickAt(ta, a[0]).0, a[1..], b);
    }
  }

  /** The scenario of a trigger registered shortly before midnight for a
      time just after it: registered after its time on day `d1`, it stays
      silent for the rest of that day and fires exactly once on the next
      day `d2` once its time is reached. */
  lemma AtAcrossMidnight(ta: TriggerAt, today: seq<Clock>, tomorrow: seq<Clock>, d1: int, d2: int)
    requires ta.justAdded && d1 != d2
    requires 0 < |today| && SyncedOnDay(today[..1], d1) && OnDayWhenSynced(today, d1)
    requires today[0].curSecSinceMidnight >= ta.secAfterMidnight
    requires SyncedOnDay(tomorrow, d2)
    requires exists k :: 0 <= k < |tomorrow| && tomorrow[k].curSecSinceMidnight >= ta.secAfterMidnight
    ensures RunAt(ta, today).1 == 0
    ensures RunAt(ta, today + tomorrow).1 == 1
  {
    AtRegisteredLateWaitsForTomorrow(ta, today, d1);
    var t := RunAt(ta, today).0;
    assert SyncedOnDay(tomorrow, d2) ==> OnDayWhenSynced(tomorrow, d2);
    AtFiresWhenDue(t, tomorrow, d2);
    AtAtMostOncePerDay(t, tomorrow, d2);
    RunAtAppend(ta, today, tomorrow);
  }

  /** `triggerAtRemove(char*)` as written: it parses the text and removes
      the matching trigger, but has no `return` statement, so the value the
      caller sees is unspecified; `unspecified` stands for it. */
  function TriggerAtRemoveTextAsWritten(l: seq<TriggerAt>, text: seq<char>, unspecified: bool): (r: (bool, seq<TriggerAt>))
    ensures r.1 == TriggerAtRemove(l, StringToTimeOnly(text)).1
    ensures r.0 == unspecified
  {
    (unspecified, TriggerAtRemove(l, StringToTimeOnly(text)).1)
  }

  /** The reported result can claim a removal that did not happen. */
  lemma RemoveTextAsWrittenMisreports()
    ensures TriggerAtRemoveTextAsWritten([], "12:00", true).0
    ensures !TriggerAtRemove([], StringToTimeOnly("12:00")).0
  {
  }

  /** `triggerAtRemove(char*)` as evidently intended: the result of the
      removal by parsed time is passed on. */
  function TriggerAtRemoveText(l: seq<TriggerAt>, text: seq<char>): (r: (bool, seq<TriggerAt>))
    ensures r.0 <==> exists i :: 0 <= i < |l| && SameAtKey(l[i], StringToTimeOnly(text))
    ensures !r.0 ==> r.1 == l
    ensures r.0 ==> |r.1| == |l| - 1
  {
    TriggerAtRemove(l, StringToTimeOnly(text))
  }

  /** Removing by text a daily trigger added by the same "HH:MM:SS" text
      succeeds. */
  lemma RemoveTextFindsAddedTrigger(l: seq<TriggerAt>, t: TimeOnly, cb: CbId)
    requires ValidTime(t)
    ensures TriggerAtRemoveText(AddTriggerAt(l, StringToTimeOnly(FormatTime(t)), cb), FormatTime(t)).0
  {
    var l2 := AddTriggerAt(l, StringToTimeOnly(FormatTime(t)), cb);
    assert SameAtKey(l2[|l|], StringToTimeOnly(FormatTime(t)));
  }

  // ---------------------------------------------------------------------
  // Hourly triggers

  /** One evaluation of an hourly trigger against a synced clock.  On its
      first evaluation it takes a baseline hour: the current one if the
      clock is in its minute right now, otherwise the previous one (255 at
      hour 0, as the field is 8 bits).  It fires when its hour differs from
      the current hour and the clock is in its minute. */
  function StepAtMinute(tam: TriggerAtMinute, c: Clock): (r: (TriggerAtMinute, Option<AtMinuteFired>))
    ensures r.0.minute == tam.minute && r.0.cb == tam.cb && !r.0.justAdded
    ensures ValidTm(c.curTime) ==>
              (r.1.Some? <==> !tam.justAdded && tam.triggeredHour != c.curTime.hour
                              && c.curTime.min == tam.minute)
    ensures r.1.Some? ==> r.0.triggerCount == Wrap32(tam.triggerCount + 1)
                          && r.1.value == AtMinuteFired(tam.cb, tam.minute, r.0.triggerCount)
    ensures r.1.None? ==> r.0.triggerCount == tam.triggerCount
    ensures ValidTm(c.curTime) && c.curTime.min == tam.minute ==> r.0.triggeredHour == c.curTime.hour
    ensures ValidTm(c.curTime) && r.1.None? && !tam.justAdded ==> r.0.triggeredHour == tam.triggeredHour
  {
    var hour := c.curTime.hour;
    var inMinute := c.curTime.min == tam.minute;
    var h := if tam.justAdded then (if inMinute then Wrap8(hour) else Wrap8(hour - 1)) else tam.triggeredHour;
    var t := tam.(justAdded := false, triggeredHour := h);
    if t.triggeredHour != hour && inMinute then
      var n := Wrap32(t.triggerCount + 1);
      (t.(triggeredHour := Wrap8(hour), triggerCount := n), Some(AtMinuteFired(t.cb, t.minute, n)))
    else
      (t, None)
  }

  /** One tick of an hourly trigger: no-op while the RTC is not synced. */
  function TickAtMinute(tam: TriggerAtMinute, c: Clock): (TriggerAtMinute, Option<AtMinuteFired>)
  {
    if c.rtcSynced then StepAtMinute(tam, c) else (tam, None)
  }

  /** What each trigger's own tick yields, in list order. */
  function AtMinuteTicks(l: seq<TriggerAtMinute>, c: Clock): (r: seq<Option<AtMinuteFired>>)
    ensures |r| == |l|
    ensures forall i :: 0 <= i < |l| ==> r[i] == TickAtMinute(l[i], c).1
    decreases |l|
  {
    if |l| == 0 then [] else [TickAtMinute(l[0], c).1] + AtMinuteTicks(l[1..], c)
  }

  /** The loop of `handleTriggerAtMinute`: each trigger ticked once, in list order,
      its callback (if any) made in the same order. */
  function PassAtMinute(l: seq<TriggerAtMinute>, c: Clock): (r: (seq<TriggerAtMinute>, seq<AtMinuteFired>))
    ensures |r.0| == |l|
    decreases |l|
  {
    if |l| == 0 then ([], [])
    else
      var (t, e) := TickAtMinute(l[0], c);
      var rest := PassAtMinute(l[1..], c);
      ([t] + rest.0, (if e.Some? then [e.value] else []) + rest.1)
  }

  /** The loop leaves trigger `i` as its own tick does, and makes exactly
      the callbacks the ticks yield, in order. */
  lemma {:induction false} PassAtMinuteTicks(l: seq<TriggerAtMinute>, c: Clock)
    ensures forall i :: 0 <= i < |l| ==> PassAtMinute(l, c).0[i] == TickAtMinute(l[i], c).0
    ensures PassAtMinute(l, c).1 == Somes(AtMinuteTicks(l, c))
    decreases |l|
  {
    if |l| > 0 {
      PassAtMinuteTicks(l[1..], c);
      SomesCons(TickAtMinute(l[0], c).1, AtMinuteTicks(l[1..], c));
      var r := PassAtMinute(l, c);
      assert r.0 == [TickAtMinute(l[0], c).0] + PassAtMinute(l[1..], c).0;
      forall i | 1 <= i < |l|
        ensures r.0[i] == TickAtMinute(l[i], c).0
      {
        assert l[1..][i - 1] == l[i];
      }
    }
  }

  /** Without a synced clock the loop changes nothing and calls nothing. */
  lemma {:induction false} PassAtMinuteUnsynced(l: seq<TriggerAtMinute>, c: Clock)
    requires !c.rtcSynced
    ensures PassAtMinute(l, c) == (l, [])
    decreases |l|
  {
    if |l| > 0 {
      PassAtMinuteUnsynced(l[1..], c);
      assert TickAtMinute(l[0], c) == (l[0], None);
      assert l == [l[0]] + l[1..];
      var none: seq<AtMinuteFired> := [];
      assert none + none == none;
    }
  }

  /** `handleTriggerAtMinute`: every trigger evaluated once, in list order;
      nothing happens while the RTC is not synced. */
  function HandleTriggerAtMinute(l: seq<TriggerAtMinute>, c: Clock): (r: (seq<TriggerAtMinute>, seq<AtMinuteFired>))
    ensures |r.0| == |l|
    ensures !c.rtcSynced ==> r == (l, [])
    ensures forall i :: 0 <= i < |l| ==> r.0[i] == TickAtMinute(l[i], c).0
    ensures |r.1| <= |l|
    ensures forall k :: 0 <= k < |r.1| ==>
              exists i :: 0 <= i < |l| && TickAtMinute(l[i], c).1 == Some(r.1[k])
    ensures forall i :: 0 <= i < |l| && TickAtMinute(l[i], c).1.Some? ==> TickAtMinute(l[i], c).1.value in r.1
    ensures r.1 == Somes(AtMinuteTicks(l, c))
  {
    PassAtMinuteTicks(l, c);
    if !c.rtcSynced then
      PassAtMinuteUnsynced(l, c);
      PassAtMinute(l, c)
    else
      SomesMembers(AtMinuteTicks(l, c));
      PassAtMinute(l, c)
  }

  /** An hourly trigger driven by a sequence of clock readings. */
  function RunAtMinute(tam: TriggerAtMinute, clocks: seq<Clock>): (r: (TriggerAtMinute, nat))
    ensures r.0.minute == tam.minute
    decreases |clocks|
  {
    if |clocks| == 0 then (tam, 0)
    else
      var (t, e) := TickAtMinute(tam, clocks[0]);
      var rest := RunAtMinute(t, clocks[1..]);
      (rest.0, rest.1 + (if e.Some? then 1 else 0))
  }

  /** The synced readings all fall within hour `h`. */
  predicate InHourWhenSynced(clocks: seq<Clock>, h: int)
  {
    forall k :: 0 <= k < |clocks| ==>
      clocks[k].rtcSynced ==> ValidTm(clocks[k].curTime) && clocks[k].curTime.hour == h
  }

  /** Within one hour an hourly trigger fires at most once, and not at all
      once it has fired (or taken its baseline in its minute) that hour. */
  lemma {:induction false} AtMinuteAtMostOncePerHour(tam: TriggerAtMinute, clocks: seq<Clock>, h: int)
    requires InHourWhenSynced(clocks, h)
    ensures RunAtMinute(tam, clocks).1 <= 1
    ensures !tam.justAdded && tam.triggeredHour == h ==> RunAtMinute(tam, clocks).1 == 0
    decreases |clocks|
  {
    if |clocks| > 0 {
      var (t, e) := TickAtMinute(tam, clocks[0]);
      assert InHourWhenSynced(clocks[1..], h) by {
        forall k | 0 <= k < |clocks[1..]|
          ensures clocks[1..][k].rtcSynced ==> ValidTm(clocks[1..][k].curTime) && clocks[1..][k].curTime.hour == h
        {
          assert clocks[1..][k] == clocks[k + 1];
        }
      }
      AtMinuteAtMostOncePerHour(t, clocks[1..], h);
      if e.Some? {
        assert clocks[0].rtcSynced && ValidTm(clocks[0].curTime);
        assert !t.justAdded && t.triggeredHour == h;
      } else if !tam.justAdded && tam.triggeredHour == h {
        assert t.triggeredHour == h && !t.justAdded;
      }
    }
  }

  /** Synced readings in hour `h` that reach the trigger's minute make an
      hourly trigger that has not fired this hour fire. */
  lemma {:induction false} AtMinuteFiresWhenDue(tam: TriggerAtMinute, clocks: seq<Clock>, h: int)
    requires forall k :: 0 <= k < |clocks| ==>
               clocks[k].rtcSynced && ValidTm(clocks[k].curTime) && clocks[k].curTime.hour == h
    requires !tam.justAdded && tam.triggeredHour != h
    requires exists k :: 0 <= k < |clocks| && clocks[k].curTime.min == tam.minute
    ensures RunAtMinute(tam, clocks).1 >= 1
    decreases |clocks|
  {
    var (t, e) := TickAtMinute(tam, clocks[0]);
    if e.None? {
      assert clocks[0].curTime.min != tam.minute;
      assert t == tam;
      var k :| 0 <= k < |clocks| && clocks[k].curTime.min == tam.minute;
      assert clocks[1..][k - 1] == clocks[k];
      forall j | 0 <= j < |clocks[1..]|
        ensures clocks[1..][j].rtcSynced && ValidTm(clocks[1..][j].curTime) && clocks[1..][j].curTime.hour == h
      {
        assert clocks[1..][j] == clocks[j + 1];
      }
      AtMinuteFiresWhenDue(t, clocks[1..], h);
    }
  }

  /** Registered while the clock is in its minute, an hourly trigger waits
      for the next hour. */
  lemma AtMinuteRegisteredInMinuteWaits(tam: TriggerAtMinute, clocks: seq<Clock>, h: int)
    requires tam.justAdded && 0 < |clocks| && InHourWhenSynced(clocks, h)
    requires clocks[0].rtcSynced && clocks[0].curTime.min == tam.minute
    ensures RunAtMinute(tam, clocks).1 == 0
  {
    var (t, e) := TickAtMinute(tam, clocks[0]);
    assert e.None? && t.triggeredHour == h && !t.justAdded;
    assert InHourWhenSynced(clocks[1..], h) by {
      forall k | 0 <= k < |clocks[1..]|
        ensures clocks[1..][k].rtcSynced ==> ValidTm(clocks[1..][k].curTime) && clocks[1..][k].curTime.hour == h
      {
        assert clocks[1..][k] == clocks[k + 1];
      }
    }
    AtMinuteAtMostOncePerHour(t, clocks[1..], h);
  }

  /** A minute outside 0..59 is never reached by a valid clock: such an
      hourly trigger never fires. */
  lemma {:induction false} AtMinuteOutOfRangeNeverFires(tam: TriggerAtMinute, clocks: seq<Clock>)
    requires tam.minute >= 60
    requires forall k :: 0 <= k < |clocks| ==> ValidTm(clocks[k].curTime)
    ensures RunAtMinute(tam, clocks).1 == 0
    decreases |clocks|
  {
    if |clocks| > 0 {
      var (t, e) := TickAtMinute(tam, clocks[0]);
      assert e.None?;
      assert forall k :: 0 <= k < |clocks[1..]| ==> clocks[1..][k] == clocks[k + 1];
      AtMinuteOutOfRangeNeverFires(t, clocks[1..]);
    }
  }
}
