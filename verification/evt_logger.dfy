/** The logger (`EvtLogger`): the admission filter and zero-wait enqueue
    of `send`, the level filter of the printing task and the split of the
    uptime in milliseconds into days, hours, minutes, seconds and
    milliseconds.  Formatting the text and writing to the serial port are
    not modelled; a printed line is the record of what would be printed. */
module EvtLogger {

  import opened Words
  import opened Wrappers
  import opened CText
  import BoundedQueue

  const QUEUE_LENGTH: nat := 50
  const SERVICE_LENGTH: nat := 5
  const MSG_LENGTH: nat := 100

  const MS_IN_DAY: nat := 86400000
  const MS_IN_HOUR: nat := 3600000
  const MS_IN_MINUTE: nat := 60000
  const MS_IN_SECOND: nat := 1000

  /** `LogLevels`: EMERG = 0 up to DEBUG = 7. */
  const EMERG: nat := 0
  const DEBUG: nat := 7

  /** A queued log entry. */
  datatype LogMessage = LogMessage(millis: U32, level: nat, service: seq<char>, msg: seq<char>)

  /** The uptime split into its fields. */
  datatype Uptime = Uptime(days: nat, hours: nat, minutes: nat, seconds: nat, ms: nat)

  /** The wall-clock fields printed when the true time is shown. */
  datatype WallTime = WallTime(year: int, mon: int, mday: int, hour: int, min: int, sec: int)

  /** How a printed line is stamped. */
  datatype Stamp = WallStamp(wall: WallTime) | UptimeStamp(uptime: Uptime)

  /** A line the printing task writes. */
  datatype LogLine = LogLine(stamp: Stamp, level: nat, service: seq<char>, msg: seq<char>)

  /** `send`'s admission test: a known level and a service name shorter
      than its 5-byte field. */
  predicate Admitted(level: nat, service: seq<char>)
  {
    level <= DEBUG && |CStr(service)| < SERVICE_LENGTH
  }

  /** The first `n` characters of a text (all of it when shorter). */
  function Truncate(s: seq<char>, n: nat): (t: seq<char>)
    ensures |t| <= n && t <= s
    ensures |s| <= n ==> t == s
  {
    if |s| <= n then s else s[..n]
  }

  /** `send`: an admitted entry is stamped with the current `millis()`,
      its message cut to what fits the 100-byte field with its NUL, and
      offered to the queue with zero wait, so a full queue drops it.  An
      entry that is not admitted has no effect. */
  function Send(q: seq<LogMessage>, level: nat, service: seq<char>, formatted: seq<char>, now: U32): (r: seq<LogMessage>)
    ensures !Admitted(level, service) ==> r == q
    ensures Admitted(level, service) && |q| < QUEUE_LENGTH ==>
              r == q + [LogMessage(now, level, CStr(service), Truncate(CStr(formatted), MSG_LENGTH - 1))]
    ensures |q| >= QUEUE_LENGTH ==> r == q
    ensures q <= r && |r| <= |q| + 1
  {
    if Admitted(level, service) then
      CStrOfStrNCpy(service, SERVICE_LENGTH);
      var m := LogMessage(now, level, CStr(StrNCpy(service, SERVICE_LENGTH)), Truncate(CStr(formatted), MSG_LENGTH - 1));
      BoundedQueue.TryEnqueue(q, QUEUE_LENGTH, m)
    else
      q
  }

  /** Entries offered to a queue that had room for them all are all kept,
      in order; the queue never holds more than its capacity. */
  lemma {:induction false} SendKeepsBound(q: seq<LogMessage>, level: nat, service: seq<char>, formatted: seq<char>, now: U32)
    requires |q| <= QUEUE_LENGTH
    ensures |Send(q, level, service, formatted, now)| <= QUEUE_LENGTH
    ensures |Send(q, level, service, formatted, now)| == |q| + 1 <==> Admitted(level, service) && |q| < QUEUE_LENGTH
  {
  }

  /** The uptime split exactly as the printing task computes it: each
      field from the remainder left by the larger units. */
  function Decompose(logTime: U32): (u: Uptime)
    ensures u.hours < 24 && u.minutes < 60 && u.seconds < 60 && u.ms < 1000
    ensures u.days < 50
  {
    var inDay := logTime % MS_IN_DAY;
    Uptime(logTime / MS_IN_DAY,
           inDay / MS_IN_HOUR,
           (inDay % MS_IN_HOUR) / MS_IN_MINUTE,
           ((inDay % MS_IN_HOUR) % MS_IN_MINUTE) / MS_IN_SECOND,
           ((inDay % MS_IN_HOUR) % MS_IN_MINUTE) % MS_IN_SECOND)
  }

  /** The milliseconds an uptime stands for. */
  function Recompose(u: Uptime): nat
  {
    u.days * MS_IN_DAY + u.hours * MS_IN_HOUR + u.minutes * MS_IN_MINUTE + u.seconds * MS_IN_SECOND + u.ms
  }

  /** The split loses nothing: recomposing the fields gives the uptime. */
  lemma DecomposeRecompose(logTime: U32)
    ensures Recompose(Decompose(logTime)) == logTime
  {
    var inDay := logTime % MS_IN_DAY;
    var inHour := inDay % MS_IN_HOUR;
    var inMinute := inHour % MS_IN_MINUTE;
    assert logTime == (logTime / MS_IN_DAY) * MS_IN_DAY + inDay;
    assert inDay == (inDay / MS_IN_HOUR) * MS_IN_HOUR + inHour;
    assert inHour == (inHour / MS_IN_MINUTE) * MS_IN_MINUTE + inMinute;
    assert inMinute == (inMinute / MS_IN_SECOND) * MS_IN_SECOND + inMinute % MS_IN_SECOND;
  }

  /** The remainder within the day, then within the hour, is the
      remainder within the hour. */
  lemma HourOfDay(x: nat)
    ensures (x % MS_IN_DAY) % MS_IN_HOUR == x % MS_IN_HOUR
    ensures (x % MS_IN_DAY) / MS_IN_HOUR == (x / MS_IN_HOUR) % 24
  {
    var d := x / MS_IN_DAY;
    assert x == d * MS_IN_DAY + x % MS_IN_DAY;
    assert x == (24 * d) * MS_IN_HOUR + x % MS_IN_DAY;
  }

  lemma MinuteOfHour(x: nat)
    ensures (x % MS_IN_HOUR) % MS_IN_MINUTE == x % MS_IN_MINUTE
    ensures (x % MS_IN_HOUR) / MS_IN_MINUTE == (x / MS_IN_MINUTE) % 60
  {
    var h := x / MS_IN_HOUR;
    assert x == h * MS_IN_HOUR + x % MS_IN_HOUR;
    assert x == (60 * h) * MS_IN_MINUTE + x % MS_IN_HOUR;
  }

  lemma SecondOfMinute(x: nat)
    ensures (x % MS_IN_MINUTE) % MS_IN_SECOND == x % MS_IN_SECOND
    ensures (x % MS_IN_MINUTE) / MS_IN_SECOND == (x / MS_IN_SECOND) % 60
  {
    var m := x / MS_IN_MINUTE;
    assert x == m * MS_IN_MINUTE + x % MS_IN_MINUTE;
    assert x == (60 * m) * MS_IN_SECOND + x % MS_IN_MINUTE;
  }

  /** The nested remainders agree with the direct forms. */
  lemma DecomposeDirect(logTime: U32)
    ensures Decompose(logTime).ms == logTime % MS_IN_SECOND
    ensures Decompose(logTime).seconds == (logTime / MS_IN_SECOND) % 60
    ensures Decompose(logTime).minutes == (logTime / MS_IN_MINUTE) % 60
    ensures Decompose(logTime).hours == (logTime / MS_IN_HOUR) % 24
  {
    var x: nat := logTime;
    HourOfDay(x);
    MinuteOfHour(x);
    SecondOfMinute(x);
  }

  /** One entry taken by the printing task: printed only when its level is
      within the configured one, stamped with the wall-clock time when
      that is asked for and the clock can be read, with the uptime
      otherwise. */
  function ShowLogStep(m: LogMessage, logLevel: nat, showTrueTime: bool, wall: Option<WallTime>): (r: Option<LogLine>)
    ensures r.Some? <==> m.level <= logLevel
    ensures r.Some? ==> r.value.level == m.level && r.value.service == m.service && r.value.msg == m.msg
    ensures r.Some? && showTrueTime && wall.Some? ==> r.value.stamp == WallStamp(wall.value)
    ensures r.Some? && !(showTrueTime && wall.Some?) ==> r.value.stamp == UptimeStamp(Decompose(m.millis))
  {
    if m.level <= logLevel then
      var stamp := if showTrueTime && wall.Some? then WallStamp(wall.value) else UptimeStamp(Decompose(m.millis));
      Some(LogLine(stamp, m.level, m.service, m.msg))
    else
      None
  }

  /** The printing task emptying the queue, one clock reading per entry. */
  function ShowAll(q: seq<LogMessage>, logLevel: nat, showTrueTime: bool, walls: seq<Option<WallTime>>): (r: seq<LogLine>)
    requires |walls| == |q|
    ensures |r| <= |q|
    decreases |q|
  {
    if |q| == 0 then []
    else
      var line := ShowLogStep(q[0], logLevel, showTrueTime, walls[0]);
      var rest := ShowAll(q[1..], logLevel, showTrueTime, walls[1..]);
      if line.Some? then [line.value] + rest else rest
  }

  /** The entries within a level, in queue order. */
  function WithinLevel(q: seq<LogMessage>, logLevel: nat): (r: seq<LogMessage>)
    ensures forall k :: 0 <= k < |r| ==> r[k].level <= logLevel
    decreases |q|
  {
    if |q| == 0 then []
    else if q[0].level <= logLevel then [q[0]] + WithinLevel(q[1..], logLevel)
    else WithinLevel(q[1..], logLevel)
  }

  /** The message of a printed line. */
  function Printed(lines: seq<LogLine>): (r: seq<(nat, seq<char>, seq<char>)>)
    ensures |r| == |lines|
  {
    seq(|lines|, k requires 0 <= k < |lines| => (lines[k].level, lines[k].service, lines[k].msg))
  }

  /** The queued entries as (level, service, message), the form Printed compares against. */
  function Entries(q: seq<LogMessage>): (r: seq<(nat, seq<char>, seq<char>)>)
    ensures |r| == |q|
  {
    seq(|q|, k requires 0 <= k < |q| => (q[k].level, q[k].service, q[k].msg))
  }

  /** What is printed is exactly the queued entries within the configured
      level, in queue order, whatever the stamps. */
  lemma {:induction false} ShowAllIsLevelFilter(q: seq<LogMessage>, logLevel: nat, showTrueTime: bool, walls: seq<Option<WallTime>>)
    requires |walls| == |q|
    ensures Printed(ShowAll(q, logLevel, showTrueTime, walls)) == Entries(WithinLevel(q, logLevel))
    decreases |q|
  {
    if |q| > 0 {
      ShowAllIsLevelFilter(q[1..], logLevel, showTrueTime, walls[1..]);
      var rest := ShowAll(q[1..], logLevel, showTrueTime, walls[1..]);
      var wrest := WithinLevel(q[1..], logLevel);
      if q[0].level <= logLevel {
        var line := ShowLogStep(q[0], logLevel, showTrueTime, walls[0]).value;
        assert Printed([line] + rest) == [(line.level, line.service, line.msg)] + Printed(rest);
        assert Entries([q[0]] + wrest) == [(q[0].level, q[0].service, q[0].msg)] + Entries(wrest);
      }
    }
  }

  /** An admitted entry sent to an empty queue is printed once, with its
      service name and its (truncated) message, exactly when its level is
      within the configured one. */
  lemma SendThenShow(level: nat, service: seq<char>, formatted: seq<char>, now: U32,
                     logLevel: nat, showTrueTime: bool, wall: Option<WallTime>)
    requires Admitted(level, service)
    ensures var q := Send([], level, service, formatted, now);
            ShowAll(q, logLevel, showTrueTime, [wall])
              == (if level <= logLevel
                  then [LogLine(if showTrueTime && wall.Some? then WallStamp(wall.value) else UptimeStamp(Decompose(now)),
                                level, CStr(service), Truncate(CStr(formatted), MSG_LENGTH - 1))]
                  else [])
  {
    var q := Send([], level, service, formatted, now);
    assert q[1..] == [];
    assert [wall][1..] == [];
  }
}
