# Evt32 event core in Dafny

A functional model of the Evt32 firmware's event core, with proofs:

- the millisecond timers (one-shot `triggerIn` and periodic `triggerEvery`);
- the wall-clock triggers (daily "At" and hourly "AtMinute"), with the time-of-day helpers and the `"HH:MM[:SS]"` parser;
- the interrupt latch and the output pins;
- the MQTT session: subscription replay, inbound dispatch and the publish queue;
- the logger's admission filter, level filter and uptime split.

Each part is a state record plus pure step functions:

- A step takes the clock reading ("now" in milliseconds, or a synced flag with broken-down time) as a parameter.
- A step returns the new state plus the callbacks it invokes, as event values.
- Callbacks are opaque identifiers (`Callbacks.CbId`).
- Transport calls are a trace of `EvtMqtt.Wire` values, and pin writes are a map from pin to level.

`unsigned long` arithmetic is modelled modulo 2^32 (`Words.Sub32`, `Words.Wrap32`), and `uint8_t` stores are modelled modulo 256 (`Words.Wrap8`).

## Modules

- `Wrappers` and `Callbacks`: the `Option` type and the callback identifier.
- `Words`: 8- and 32-bit wrap-around and 32-bit unsigned subtraction.
- `Lists`: the linked lists as sequences, including the "remove first match" walk that every `...Remove` method uses.
- `CText`: C strings and buffers (`strncpy`, `atoi`, `itoa`), plus the case folding of `String::equalsIgnoreCase`.
- `BoundedQueue`: the FreeRTOS queues as used with a zero wait (`xQueueSend(q, &x, 0)`). A full queue drops the new item.
- `EvtTime` (src/EvtTime.cpp): the millisecond timers.
  - `ScanIn` is the faithful index walk of `handleTriggerIn`. After removing a fired trigger at index `t`, the loop still advances to `t + 1`, so the trigger that moved into slot `t` is not looked at until the next pass.
  - `PassIn` is a reference definition of the same pass over the list's head.
  - `ScanInIsPassIn` proves the two equal.
- `EvtTimeNet` (src/EvtTimeNet.cpp): wall-clock triggers, seconds after midnight, comparisons and parsing.
- `EvtIO` (src/EvtIO.cpp): the ten-slot interrupt table, the interrupt handler, the poll pass, and the output pins.
- `EvtMqtt` (src/EvtMqtt.cpp): subscriptions, connect-and-replay, inbound dispatch and the publish queue.
- `EvtLogger` (src/EvtLogger.cpp): `send` admission, the printing task's level filter and the uptime split.

Two places where the model departs from a first reading of the firmware:

- In the firmware, replay of subscriptions and draining of the publish queue run in two concurrent tasks, so a queued item can be published before the replay finishes. The model makes the connect step atomic: connect, then replay.
- An AtMinute trigger fires only in its exact minute. The comment at src/EvtTimeNet.cpp:131 says "trigger minute is reached", but the test on that line is `curTime.tm_min == tam->minute`, and the model follows the test.

## Model

| member | source | states |
|---|---|---|
| Words.ElapsedAcrossWrap | src/EvtTime.cpp:42 | elapsed time computed as `now - start` on 32-bit unsigned values is the true advance, even when `millis()` wrapped in between |
| EvtTime.AddTriggerIn | src/EvtTime.cpp:76-84 | registration appends {ms, callback, start = now} at the end and leaves the existing entries unchanged |
| EvtTime.TriggerInRemove | src/EvtTime.cpp:92-104 | reports true iff some one-shot has that ms; then only the first such entry is deleted; otherwise the list is unchanged |
| EvtTime.HandleTriggerIn | src/EvtTime.cpp:38-49 | one pass: every fired one-shot was due, its callback gets the elapsed ms (at least its ms), it leaves the list, nothing is lost (kept + fired is the old list as a multiset), no not-yet-due trigger is dropped, and at most as many due triggers stay as fired |
| EvtTime.ScanInIsPassIn | src/EvtTime.cpp:39-48 | the index walk that skips the successor of a removed entry equals the reference pass in which a fired head carries its successor over unexamined |
| EvtTime.PassInKeepsAll | src/EvtTime.cpp:43-46 | the triggers kept and the triggers fired together are exactly the triggers before the pass |
| EvtTime.PassInLeavesFewDue | src/EvtTime.cpp:39-48 | due triggers before = due triggers kept + triggers fired, and no more due triggers are kept than fired |
| EvtTime.PassInKeepsNotDue | src/EvtTime.cpp:42 | a trigger whose time has not come stays in the list |
| EvtTime.SuccessorSkipped | src/EvtTime.cpp:44-46 | with two due triggers [A, B], one pass fires only A and keeps B for the next pass |
| EvtTime.DueHalvedEachPass | src/EvtTime.cpp:39-48 | each pass at least halves the number of due one-shots left waiting |
| EvtTime.AddTriggerEvery | src/EvtTime.cpp:112-121 | registration appends {ms, callback, count 0, baseline = now} and leaves the existing entries unchanged |
| EvtTime.TriggerEveryRemove | src/EvtTime.cpp:129-141 | first-match removal by ms, or false with the list unchanged |
| EvtTime.StepEvery | src/EvtTime.cpp:59-65 | a periodic trigger fires iff the elapsed time since its baseline is at least ms; firing sets the baseline to now and adds exactly one (mod 2^32) to the count; otherwise it is unchanged |
| EvtTime.HandleTriggerEvery | src/EvtTime.cpp:56-68 | the pass never removes or reorders periodic triggers and updates exactly the due ones; the callbacks are exactly the due triggers' steps, one each, in list order |
| EvtTime.EveryNeverEarly | src/EvtTime.cpp:60-62 | over any sequence of readings, the first fire comes at least ms after the baseline and consecutive fires are at least ms apart |
| EvtTimeNet.SecAfterMidnightInjective | src/EvtTimeNet.cpp:213-215 | for valid times of day, seconds after midnight is below 86400 and equal keys mean equal times |
| EvtTimeNet.SecAfterMidnightRoundTrip | src/EvtTimeNet.cpp:213-215 | splitting the seconds after midnight back into hour, minute and second gives the time back |
| EvtTimeNet.UpdateTimeFromRtc | src/EvtTimeNet.cpp:81-86 | the synced flag and broken-down time come from the reading; seconds after midnight are recomputed only when synced and are then h·3600 + m·60 + s |
| EvtTimeNet.BeforeAfterExclusive | src/EvtTimeNet.cpp:145-147 | isBefore and isAfter are never both true, both are false at the exact second, and one of them holds at any other second |
| EvtTimeNet.BetweenIsOpenInterval | src/EvtTimeNet.cpp:182-184 | isBetween is the open interval between start and end, and is never true when start is not before end (no wrap past midnight) |
| EvtTimeNet.ParseHHMMSS | src/EvtTimeNet.cpp:330-340 | "HH:MM:SS" with two-digit fields parses as (HH, MM, SS) |
| EvtTimeNet.ParseHHMM | src/EvtTimeNet.cpp:330-340 | "HH:MM" parses as (HH, MM, 0) |
| EvtTimeNet.FormatParseRoundTrip | src/EvtTimeNet.cpp:330-340 | the zero-padded text of a valid time parses back to that time, with or without seconds |
| EvtTimeNet.AddTriggerAt | src/EvtTimeNet.cpp:246-254 | a daily trigger is appended with justAdded set, count 0 and its precomputed seconds after midnight |
| EvtTimeNet.TriggerAtRemove | src/EvtTimeNet.cpp:272-284 | removes the first daily trigger with the same seconds after midnight and reports true, or false with the list unchanged |
| EvtTimeNet.AddTriggerAtMinute | src/EvtTimeNet.cpp:296-303 | an hourly trigger is appended with justAdded set and count 0 |
| EvtTimeNet.TriggerAtMinuteRemove | src/EvtTimeNet.cpp:311-323 | first-match removal by minute, or false with the list unchanged |
| EvtTimeNet.StepAt | src/EvtTimeNet.cpp:96-109 | baseline day is today if the time has passed, otherwise yesterday; the trigger fires iff its day is not today and the time has come, then records today and adds one to the count; the first evaluation never fires |
| EvtTimeNet.HandleTriggerAt | src/EvtTimeNet.cpp:92-112 | nothing changes and nothing fires while the RTC is not synced; otherwise every trigger is stepped once; the callbacks are exactly the triggers that fire, one each, in list order, and every trigger that fires is called back |
| EvtTimeNet.AtAtMostOncePerDay | src/EvtTimeNet.cpp:105-109 | within one day of the month a daily trigger fires at most once, and not at all after it has fired that day |
| EvtTimeNet.AtFiresWhenDue | src/EvtTimeNet.cpp:105-109 | on a synced day, a daily trigger that has not fired yet fires once a reading reaches its time |
| EvtTimeNet.AtRegisteredLateWaitsForTomorrow | src/EvtTimeNet.cpp:96-104 | registered after its time of day, a daily trigger does not fire that day |
| EvtTimeNet.AtRegisteredEarlyFiresToday | src/EvtTimeNet.cpp:96-109 | registered before its time of day, a daily trigger fires exactly once that day when its time comes |
| EvtTimeNet.AtAcrossMidnight | src/EvtTimeNet.cpp:96-109 | registered at 23:59:58 for 00:00:02, a daily trigger stays silent for the rest of the day and fires exactly once the next day |
| EvtTimeNet.StepAtMinute | src/EvtTimeNet.cpp:122-135 | baseline hour is the current hour if the clock is in the trigger's minute, otherwise the previous hour (255 at hour 0); the trigger fires iff its hour is not the current one and the minute is exactly its minute |
| EvtTimeNet.HandleTriggerAtMinute | src/EvtTimeNet.cpp:118-138 | a no-op while the RTC is not synced; otherwise every hourly trigger is stepped once; the callbacks are exactly the triggers that fire, one each, in list order |
| EvtTimeNet.AtMinuteAtMostOncePerHour | src/EvtTimeNet.cpp:131-135 | within one hour an hourly trigger fires at most once |
| EvtTimeNet.AtMinuteFiresWhenDue | src/EvtTimeNet.cpp:131-135 | in a synced hour, an hourly trigger that has not fired yet fires once a reading is in its minute |
| EvtTimeNet.AtMinuteRegisteredInMinuteWaits | src/EvtTimeNet.cpp:122-130 | registered during its own minute, an hourly trigger waits for the next hour |
| EvtTimeNet.AtMinuteOutOfRangeNeverFires | src/EvtTimeNet.cpp:131 | an hourly trigger for a minute of 60 or more never fires |
| EvtTimeNet.TriggerAtRemoveTextAsWritten | src/EvtTimeNet.cpp:286-288 | the text overload removes by parsed time, but its result is unspecified (no return statement) |
| EvtTimeNet.RemoveTextAsWrittenMisreports | src/EvtTimeNet.cpp:286-288 | that unspecified result can report a removal on an empty list |
| EvtTimeNet.TriggerAtRemoveText | src/EvtTimeNet.cpp:286-288 | corrected: reports true iff a daily trigger with the parsed time existed, and then removes one |
| EvtTimeNet.RemoveTextFindsAddedTrigger | src/EvtTimeNet.cpp:246-288 | removing by the text of a trigger added by that text succeeds |
| EvtIO.Trigger | src/EvtIO.cpp:57-84 | succeeds iff fewer than ten slots are in use; writes only the pin and callback of the next slot (its counters, level and count stay as they were, so a never-used slot is not pending), sets the pin mode and attaches that slot's handler on any change; at ten nothing changes |
| EvtIO.Isr | src/EvtIO.cpp:169-174 | the handler for slot i adds one to its interrupt count and records the level; the slot's pin, callback, handled count and callback count and every other slot are unchanged; it never calls a callback |
| EvtIO.PollFrom | src/EvtIO.cpp:30-44 | every in-use slot with unhandled interrupts fires once with its last level and the next count, and is marked handled; other slots are unchanged |
| EvtIO.Poll | src/EvtIO.cpp:28-47 | after a pass no in-use slot has unhandled interrupts; counts, levels, pins and callbacks are kept |
| EvtIO.PollIdempotent | src/EvtIO.cpp:30-44 | an immediate second pass fires nothing and changes nothing |
| EvtIO.CountersOrderedPreserved | src/EvtIO.cpp:36-38 | registration, interrupts and polling keep callback count ≤ handled count ≤ interrupt count in every slot |
| EvtIO.BurstCoalesces | src/EvtIO.cpp:32-38 | any N ≥ 1 interrupts on one slot between two polls produce exactly one callback, carrying the level of the last interrupt |
| EvtIO.OutputSetup | src/EvtIO.cpp:94-106 | fails, changes nothing and makes no hardware call for a pin already configured; otherwise switches the pin to output mode and appends {pin, reversed, callback, 0} |
| EvtIO.OutputSet | src/EvtIO.cpp:126-144 | false and no effect for an unconfigured pin; otherwise the pin's level becomes value XOR reversed, other pins are untouched, and the callback fires only if the level changed, with the pin's callback and its count plus one, which the configuration keeps; every other configuration is unchanged, and without a callback call no configuration changes |
| EvtIO.OutputSetIdempotent | src/EvtIO.cpp:131-141 | setting the same value again writes nothing and calls nothing |
| EvtIO.OutputToggle | src/EvtIO.cpp:152-161 | as written: false and no effect for an unconfigured pin (an empty list included); the level flips when the pin's reversed flag equals that of the first configured output, calling the pin's callback, if any, with its next count; when the flags differ nothing is written and no callback is made; other pins' levels and the other configurations never change |
| EvtIO.OutputToggleMissesMixedFlags | src/EvtIO.cpp:152-161 | with a plain output first and a reversed one second, toggling the reversed pin leaves its level unchanged |
| EvtIO.OutputToggleOwnFlag | src/EvtIO.cpp:152-161 | corrected: a configured pin always changes level, calling its callback, if any, with its next count, and no other pin or configuration changes; an unconfigured pin is refused |
| EvtIO.UniquePinsPreserved | src/EvtIO.cpp:94-161 | setup refuses a configured pin and setting or toggling never changes a pin number, so starting from no outputs no pin is ever configured twice |
| EvtIO.OnlyConfIndex | src/EvtIO.cpp:127-129 | with unique pins, the first configuration the loops find for a pin is its only one |
| EvtIO.ToggleTwiceRestores | src/EvtIO.cpp:152-161 | with the corrected toggle, toggling twice restores every pin's level |
| EvtMqtt.Subscribe | src/EvtMqtt.cpp:110-118 | appends (topic, callback, type), keeping duplicates, and makes exactly one transport subscribe |
| EvtMqtt.SubscribeAll | src/EvtMqtt.cpp:95-101 | one transport subscribe per table entry, in table order |
| EvtMqtt.KeepConnectedStep | src/EvtMqtt.cpp:51-73 | every step while disconnected makes one connect call; a successful one is followed by the replay of the whole table, a failed one by nothing; a lost link disconnects without a call; the table and queue are untouched |
| EvtMqtt.ReplayRepeatsRegistrations | src/EvtMqtt.cpp:59-64 | every reconnect resubscribes exactly the registered topics, once each and in registration order |
| EvtMqtt.DecodeBool | src/EvtMqtt.cpp:175-201 | a case-insensitive match with an on word gives true, with an off word gives false, and anything else gives no value |
| EvtMqtt.DecodeBoolOff | src/EvtMqtt.cpp:181-192 | no text matches both lists, so the scanning order does not matter: an off word always gives false |
| EvtMqtt.HandleCallBacks | src/EvtMqtt.cpp:166-202 | int subscriptions get `atoi` of the payload, bool subscriptions get the decoded word or no callback, float subscriptions get the text |
| EvtMqtt.DispatchAll | src/EvtMqtt.cpp:150-155 | the deliveries are exactly the table entries with that topic whose payload decodes, one each, in table order, duplicates included |
| EvtMqtt.MessageReceived | src/EvtMqtt.cpp:144-159 | a payload of 10 bytes or more produces no callback at all; a shorter one is read as a C string and dispatched by exact topic to every matching entry in table order |
| EvtMqtt.DuplicateSubscriptionDeliversTwice | src/EvtMqtt.cpp:150-155 | a topic registered twice is delivered twice, in registration order, because the loop walks the whole table |
| EvtMqtt.PublishBool | src/EvtMqtt.cpp:212-217 | queues the on word for true and the off word for false; a full queue is left unchanged |
| EvtMqtt.PublishInt | src/EvtMqtt.cpp:225-230 | takes a 32-bit signed value and queues its decimal text, which `atoi` reads back as the value; a full queue is left unchanged |
| EvtMqtt.PublishStep | src/EvtMqtt.cpp:78-90 | while connected, at most one item, the oldest, goes to the transport; while disconnected nothing happens |
| EvtMqtt.DrainSendsInOrder | src/EvtMqtt.cpp:82-88 | n connected steps send the oldest n items in queue order and keep the rest |
| EvtMqtt.PublishWhileDisconnected | src/EvtMqtt.cpp:225-230 | of the items published while disconnected, the first ten are kept and, after connecting, sent in order; the rest are lost |
| EvtMqtt.IntEndToEnd | src/EvtMqtt.cpp:144-170 | an int published on a topic reaches an int subscriber unchanged when its text is shorter than 10 characters, and is dropped otherwise |
| EvtMqtt.BoolEndToEnd | src/EvtMqtt.cpp:144-215 | a bool published with an on name and an off name that the receiver's on and off lists recognise, each shorter than 10 characters, reaches a bool subscriber of the topic as that same bool |
| EvtMqtt.BoolEndToEndOnOff | src/EvtMqtt.cpp:144-215 | published with the names "on" and "off", every bool reaches a bool subscriber unchanged |
| BoundedQueue.EnqueueAllKeepsOldest | src/EvtLogger.cpp:97 | offering items with zero wait keeps exactly the oldest that fit the capacity |
| EvtLogger.Send | src/EvtLogger.cpp:80-99 | an entry is queued only if its level is at most DEBUG and its service name is shorter than 5 characters, and only if the queue (50) has room; it keeps the service name and the message cut to 99 characters |
| EvtLogger.SendKeepsBound | src/EvtLogger.cpp:81-97 | the queue never exceeds 50 entries, and grows iff the entry is admitted and there is room |
| EvtLogger.Decompose | src/EvtLogger.cpp:59-65 | hours < 24, minutes < 60, seconds < 60, ms < 1000, and at most 49 days for a 32-bit uptime |
| EvtLogger.DecomposeRecompose | src/EvtLogger.cpp:59-65 | days·86400000 + hours·3600000 + minutes·60000 + seconds·1000 + ms is the uptime |
| EvtLogger.DecomposeDirect | src/EvtLogger.cpp:60-64 | the nested remainders agree with the direct forms, e.g. ms = t mod 1000 and seconds = (t div 1000) mod 60 |
| EvtLogger.ShowLogStep | src/EvtLogger.cpp:51-66 | an entry is printed iff its level is within the configured one; it is stamped with the wall time when that is asked for and readable, and with the uptime otherwise |
| EvtLogger.ShowAllIsLevelFilter | src/EvtLogger.cpp:48-68 | what is printed is exactly the queued entries within the level, in queue order |
| EvtLogger.SendThenShow | src/EvtLogger.cpp:80-99 | an admitted entry sent to an empty queue is printed once, with its service and truncated message, iff its level is within the configured one |

## Left out

- FreeRTOS tasks, `vTaskDelay` pacing, blocking `xQueueReceive` and the critical sections. Interrupt handlers and poll passes are atomic steps, and concurrency between them is not modelled.
- NTP and RTC plumbing (`configTime`, `getLocalTime`, `taskTimeSync`). The clock reading is a parameter.
- The PubSubClient and WiFiClient transport. Every connect, subscribe and publish call is recorded as a trace. The wait for Wi-Fi, during which no connect call is made, is not modelled as a separate step.
- Float publishing and parsing (`dtostrf`, `atof`), because they are floating point. Float subscriptions receive the payload text instead.
- The temperature sensor driver and the Wi-Fi manager: they are not part of this model.
- Log line formatting (`sprintf`, `vsnprintf`) and `Serial` output. The formatted message is an input, and a printed line is a record of its fields.
- The `char*` overloads of `isBefore`, `isAfter`, `isBetween` and `triggerAt`. They only parse the text with `stringToTimeOnly` and call the `TimeOnly` versions.
- The debug `logger.send` calls inside the handlers are not composed with the log queue model. They pass `send`'s admission test, so in the firmware they also take places in the 50-entry log queue.
- EvtTime.HandleTriggerEvery / EvtTime.HandleTriggerIn: one clock reading per pass. The firmware reads `millis()` once per trigger (src/EvtTime.cpp:41, 59), and a periodic trigger reads it again for its new baseline (src/EvtTime.cpp:61). That later reading is never earlier than the one checked, so the proved lower bounds on the period still hold.
- Callbacks that register or remove triggers during a pass, and lists of 256 or more entries (the loop indices are `uint8_t`).
- EvtIO.Slot: `interruptCount` is a 64-bit counter and is modelled as unbounded, because its wrap-around is out of practical reach.
- EvtIO.Read: a pin that was never written reads LOW.
- EvtMqtt.PublishInt: keeps the whole `itoa` text. In C, a value whose text needs 10 or more characters overruns the 10-byte value field.
- EvtMqtt.PublishBool: keeps the whole on/off word. In C, a word of 10 or more characters overruns the value field in the same way.
- EvtMqtt.TopicText: a topic of 50 or more characters is kept unterminated in C and then read past its field. The model compares its first 50 characters.
- EvtMqtt.PublishStep: does not model the publish task being blocked on an empty queue when the link drops and then handing the next item to a disconnected client, which loses it.
- EvtTimeNet.StringToTimeOnly: for a text of 9 or more characters, `atoi` of the seconds field reads past the 9-byte copy in C. The model stops at the copy's end.

## Findings

| source | as written | input that shows it | evidently intended | confidence | as-written member | corrected member |
|---|---|---|---|---|---|---|
| src/EvtIO.cpp:152-161 | `outputToggle` decides whether to request the current level or its negation from the reversed flag of the first configured output, whatever pin is toggled | outputs [pin 1 plain, pin 2 reversed], all LOW; `outputToggle(2)` leaves pin 2 LOW | toggling flips the addressed pin's level, using that pin's own flag | high; not executed | EvtIO.OutputToggleMissesMixedFlags | EvtIO.OutputToggleOwnFlag |
| src/EvtTimeNet.cpp:286-288 | `triggerAtRemove(char*)` calls the `TimeOnly` version but has no `return`, so the `bool` the caller sees is unspecified | `triggerAtRemove("12:00")` on an empty list may report true | return the result of the removal | high; not executed | EvtTimeNet.RemoveTextAsWrittenMisreports | EvtTimeNet.TriggerAtRemoveText |
