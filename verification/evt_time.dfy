/** The millisecond timers of `EvtTime`: one-shot "In" triggers and periodic
    "Every" triggers, each kept in a list that a polling task scans once per
    tick.  `millis()` is the parameter `now`, a 32-bit reading. */
module EvtTime {

  import opened Words
  import opened Wrappers
  import opened Callbacks
  import Lists

  /** A one-shot trigger: fires once `ms` milliseconds after `startedAtMs`. */
  datatype TriggerIn = TriggerIn(ms: U32, cb: CbId, startedAtMs: U32)

  /** A periodic trigger: fires each time `ms` milliseconds have passed since
      it last fired (or was registered). */
  datatype TriggerEvery = TriggerEvery(ms: U32, cb: CbId, triggerCount: U32, triggeredAtMs: U32)

  /** The callback of `trigger` invoked with the milliseconds that passed. */
  datatype InFired = InFired(trigger: TriggerIn, msPassed: U32)

  /** The callback of `trigger` invoked with the milliseconds that passed and
      the new trigger count. */
  datatype EveryFired = EveryFired(trigger: TriggerEvery, msPassed: U32, triggerCount: U32)

  // ---------------------------------------------------------------------
  // One-shot triggers

  /** `millis() - startedAtMs >= ms`, in `unsigned long` arithmetic. */
  predicate InDue(t: TriggerIn, now: U32)
  {
    Sub32(now, t.startedAtMs) >= t.ms
  }

  function CountInDue(l: seq<TriggerIn>, now: U32): (n: nat)
    ensures n <= |l|
  {
    if |l| == 0 then 0 else (if InDue(l[0], now) then 1 else 0) + CountInDue(l[1..], now)
  }

  /** The triggers whose callbacks the events invoked. */
  function Fired(evs: seq<InFired>): (l: seq<TriggerIn>)
    ensures |l| == |evs| && forall k :: 0 <= k < |evs| ==> l[k] == evs[k].trigger
  {
    if |evs| == 0 then [] else [evs[0].trigger] + Fired(evs[1..])
  }

  /** `triggerIn`: a new trigger started now, appended after the others. */
  function AddTriggerIn(l: seq<TriggerIn>, ms: U32, cb: CbId, now: U32): (r: seq<TriggerIn>)
    ensures |r| == |l| + 1 && r[..|l|] == l
    ensures r[|l|].ms == ms && r[|l|].cb == cb && r[|l|].startedAtMs == now
  {
    l + [TriggerIn(ms, cb, now)]
  }

  /** `triggerInRemove`: deletes the first trigger registered with `ms`. */
  function TriggerInRemove(l: seq<TriggerIn>, ms: U32): (r: (bool, seq<TriggerIn>))
    ensures r.0 <==> exists i :: 0 <= i < |l| && l[i].ms == ms
    ensures !r.0 ==> r.1 == l
    ensures r.0 ==> exists i :: 0 <= i < |l| && l[i].ms == ms
                           && (forall j :: 0 <= j < i ==> l[j].ms != ms)
                           && r.1 == l[..i] + l[i + 1..]
  {
    var p := (t: TriggerIn) => t.ms == ms;
    var r := Lists.RemoveFirst(l, p);
    if r.0 then
      var i :| Lists.IsFirstMatch(l, p, i) && r.1 == l[..i] + l[i + 1..];
      r
    else r
  }

  /** The scan of `handleTriggerIn` from index `t`, step by step as the
      source runs it: a due trigger's callback is invoked and the trigger is
      removed from index `t`, and then `t` still advances, so the trigger
      that moved into index `t` is not looked at in this pass. */
  function ScanIn(l: seq<TriggerIn>, t: nat, now: U32): (seq<TriggerIn>, seq<InFired>)
    decreases |l| - t
  {
    if t >= |l| then (l, [])
    else
      var passed := Sub32(now, l[t].startedAtMs);
      if passed >= l[t].ms then
        var rest := ScanIn(l[..t] + l[t + 1..], t + 1, now);
        (rest.0, [InFired(l[t], passed)] + rest.1)
      else
        ScanIn(l, t + 1, now)
  }

  /** What one pass does, stated on the original list: a due trigger fires
      and is removed, and the trigger right after it is carried over
      unexamined; a trigger that is not due stays. */
  function PassIn(l: seq<TriggerIn>, now: U32): (r: (seq<TriggerIn>, seq<InFired>))
    ensures |r.0| + |r.1| == |l|
    ensures forall k :: 0 <= k < |r.1| ==>
              r.1[k].msPassed == Sub32(now, r.1[k].trigger.startedAtMs) && InDue(r.1[k].trigger, now)
    ensures |l| > 0 && InDue(l[0], now) ==> |r.1| > 0 && r.1[0].trigger == l[0]
    decreases |l|
  {
    if |l| == 0 then ([], [])
    else if InDue(l[0], now) then
      var ev := InFired(l[0], Sub32(now, l[0].startedAtMs));
      if |l| == 1 then ([], [ev])
      else
        var rest := PassIn(l[2..], now);
        ([l[1]] + rest.0, [ev] + rest.1)
    else
      var rest := PassIn(l[1..], now);
      ([l[0]] + rest.0, rest.1)
  }

  /** A pass loses no trigger: what stays and what fired are, together,
      exactly the triggers there were. */
  lemma {:induction false} PassInKeepsAll(l: seq<TriggerIn>, now: U32)
    ensures multiset(l) == multiset(PassIn(l, now).0) + multiset(Fired(PassIn(l, now).1))
    decreases |l|
  {
    if |l| > 0 {
      if !InDue(l[0], now) {
        PassInKeepsAll(l[1..], now);
        KeepsAllAfterKept(l, now);
      } else if |l| > 1 {
        PassInKeepsAll(l[2..], now);
        KeepsAllAfterFired(l, now);
      } else {
        var ev := InFired(l[0], Sub32(now, l[0].startedAtMs));
        assert PassIn(l, now) == ([], [ev]);
        assert Fired([ev]) == [l[0]];
        assert l == [l[0]];
      }
    }
  }

  /** The step of `PassInKeepsAll` for a head that is not due. */
  lemma KeepsAllAfterKept(l: seq<TriggerIn>, now: U32)
    requires |l| > 0 && !InDue(l[0], now)
    requires multiset(l[1..]) == multiset(PassIn(l[1..], now).0) + multiset(Fired(PassIn(l[1..], now).1))
    ensures multiset(l) == multiset(PassIn(l, now).0) + multiset(Fired(PassIn(l, now).1))
  {
    var tail := l[1..];
    var rest := PassIn(tail, now);
    var a := l[0];
    assert l == [a] + tail;
    var fr := Fired(rest.1);
    Lists.MultisetCons(a, tail, rest.0, fr);
    assert multiset(l) == multiset([a] + rest.0) + multiset(fr);
    assert PassIn(l, now) == ([a] + rest.0, rest.1);
  }

  /** The step of `PassInKeepsAll` for a due head with a successor. */
  lemma KeepsAllAfterFired(l: seq<TriggerIn>, now: U32)
    requires |l| > 1 && InDue(l[0], now)
    requires multiset(l[2..]) == multiset(PassIn(l[2..], now).0) + multiset(Fired(PassIn(l[2..], now).1))
    ensures multiset(l) == multiset(PassIn(l, now).0) + multiset(Fired(PassIn(l, now).1))
  {
    var ev := InFired(l[0], Sub32(now, l[0].startedAtMs));
    var tail := l[2..];
    var rest := PassIn(tail, now);
    var a, b := l[0], l[1];
    assert l == [a] + ([b] + tail);
    var fr := Fired(rest.1);
    FiredCons(ev, rest.1);
    assert Fired([ev] + rest.1) == [a] + fr;
    Lists.MultisetRegroup(a, b, tail, rest.0, fr);
    assert multiset(l) == multiset([b] + rest.0) + multiset([a] + fr);
    assert PassIn(l, now) == ([b] + rest.0, [ev] + rest.1);
  }

  lemma FiredCons(ev: InFired, evs: seq<InFired>)
    ensures Fired([ev] + evs) == [ev.trigger] + Fired(evs)
  {
    assert ([ev] + evs)[1..] == evs;
  }

  /** Every due trigger either fires in the pass or is left behind as the
      successor of one that fired: the due triggers left are at most as many
      as those that fired. */
  lemma {:induction false} PassInLeavesFewDue(l: seq<TriggerIn>, now: U32)
    ensures CountInDue(l, now) == CountInDue(PassIn(l, now).0, now) + |PassIn(l, now).1|
    ensures CountInDue(PassIn(l, now).0, now) <= |PassIn(l, now).1|
    decreases |l|
  {
    if |l| > 0 {
      if InDue(l[0], now) {
        if |l| > 1 {
          var rest := PassIn(l[2..], now);
          PassInLeavesFewDue(l[2..], now);
          assert l[1..][1..] == l[2..];
          assert ([l[1]] + rest.0)[1..] == rest.0;
        }
      } else {
        var rest := PassIn(l[1..], now);
        PassInLeavesFewDue(l[1..], now);
        assert ([l[0]] + rest.0)[1..] == rest.0;
      }
    }
  }

  /** A trigger that is not due survives the pass. */
  lemma PassInKeepsNotDue(l: seq<TriggerIn>, now: U32, x: TriggerIn)
    requires x in l && !InDue(x, now)
    ensures x in PassIn(l, now).0
  {
    var r := PassIn(l, now);
    PassInKeepsAll(l, now);
    assert x in multiset(l);
    assert forall k :: 0 <= k < |r.1| ==> Fired(r.1)[k] != x;
    assert x !in multiset(Fired(r.1));
    assert x in multiset(r.0);
  }

  /** The source's index-based scan, from any index `t`, leaves the part
      already scanned alone and does to the rest exactly what `PassIn`
      describes. */
  lemma {:induction false} ScanInIsPassIn(l: seq<TriggerIn>, t: nat, now: U32)
    requires t <= |l|
    ensures ScanIn(l, t, now) == (l[..t] + PassIn(l[t..], now).0, PassIn(l[t..], now).1)
    decreases |l| - t
  {
    if t == |l| {
      assert l[..t] == l && l[t..] == [];
      assert PassIn([], now) == ([], []);
      assert l + [] == l;
    } else if !InDue(l[t], now) {
      ScanInIsPassIn(l, t + 1, now);
      ScanKeptStep(l, t, now);
    } else if t + 1 == |l| {
      ScanFiredLast(l, t, now);
    } else {
      var l' := l[..t] + l[t + 1..];
      ScanInIsPassIn(l', t + 1, now);
      ScanFiredStep(l, t, now);
    }
  }

  /** The step of `ScanInIsPassIn` for a trigger that is not due. */
  lemma ScanKeptStep(l: seq<TriggerIn>, t: nat, now: U32)
    requires t < |l| && !InDue(l[t], now)
    requires ScanIn(l, t + 1, now) == (l[..t + 1] + PassIn(l[t + 1..], now).0, PassIn(l[t + 1..], now).1)
    ensures ScanIn(l, t, now) == (l[..t] + PassIn(l[t..], now).0, PassIn(l[t..], now).1)
  {
    var rest := PassIn(l[t + 1..], now);
    assert l[t..][1..] == l[t + 1..];
    assert PassIn(l[t..], now) == ([l[t]] + rest.0, rest.1);
    assert l[..t + 1] + rest.0 == l[..t] + ([l[t]] + rest.0);
  }

  /** The step of `ScanInIsPassIn` for a due trigger that is the last one. */
  lemma ScanFiredLast(l: seq<TriggerIn>, t: nat, now: U32)
    requires t + 1 == |l| && InDue(l[t], now)
    ensures ScanIn(l, t, now) == (l[..t] + PassIn(l[t..], now).0, PassIn(l[t..], now).1)
  {
    var ev := InFired(l[t], Sub32(now, l[t].startedAtMs));
    assert l[..t] + l[t + 1..] == l[..t];
    assert ScanIn(l[..t], t + 1, now) == (l[..t], []);
    assert l[t..] == [l[t]];
    assert PassIn(l[t..], now) == ([], [ev]);
    assert l[..t] + [] == l[..t] && [ev] + [] == [ev];
  }

  /** The step of `ScanInIsPassIn` for a due trigger with a successor: the
      successor shifts into the index just scanned and is stepped over. */
  lemma ScanFiredStep(l: seq<TriggerIn>, t: nat, now: U32)
    requires t + 1 < |l| && InDue(l[t], now)
    requires var l' := l[..t] + l[t + 1..];
      ScanIn(l', t + 1, now) == (l'[..t + 1] + PassIn(l'[t + 1..], now).0, PassIn(l'[t + 1..], now).1)
    ensures ScanIn(l, t, now) == (l[..t] + PassIn(l[t..], now).0, PassIn(l[t..], now).1)
  {
    var l' := l[..t] + l[t + 1..];
    var ev := InFired(l[t], Sub32(now, l[t].startedAtMs));
    assert l'[t + 1..] == l[t + 2..];
    assert l'[..t + 1] == l[..t] + [l[t + 1]];
    var rest := PassIn(l[t + 2..], now);
    assert l[t..][2..] == l[t + 2..] && l[t..][1] == l[t + 1];
    assert PassIn(l[t..], now) == ([l[t + 1]] + rest.0, [ev] + rest.1);
    assert l[..t] + [l[t + 1]] + rest.0 == l[..t] + ([l[t + 1]] + rest.0);
  }

  /** `handleTriggerIn`: one pass over the one-shot triggers at time `now`.
      Every fired trigger was due and is gone afterwards, its callback gets
      the milliseconds that passed, no trigger is lost, a trigger that is not
      due stays, and the due triggers left over are at most as many as fired
      (each one is the successor of a fired trigger). */
  function HandleTriggerIn(l: seq<TriggerIn>, now: U32): (r: (seq<TriggerIn>, seq<InFired>))
    ensures r == PassIn(l, now)
    ensures |r.0| + |r.1| == |l|
    ensures forall k :: 0 <= k < |r.1| ==>
              r.1[k].msPassed == Sub32(now, r.1[k].trigger.startedAtMs) && r.1[k].msPassed >= r.1[k].trigger.ms
    ensures multiset(l) == multiset(r.0) + multiset(Fired(r.1))
    ensures forall x :: x in l && !InDue(x, now) ==> x in r.0
    ensures CountInDue(r.0, now) <= |r.1|
  {
    ScanInIsPassIn(l, 0, now);
    assert l[..0] + PassIn(l, now).0 == PassIn(l, now).0;
    assert l[0..] == l;
    PassInKeepsAll(l, now);
    PassInLeavesFewDue(l, now);
    forall x | x in l && !InDue(x, now) ensures x in PassIn(l, now).0 {
      PassInKeepsNotDue(l, now, x);
    }
    ScanIn(l, 0, now)
  }

  /** Two triggers that are both due: only the first fires in this pass, the
      second moves to the front and waits for the next pass. */
  lemma SuccessorSkipped(a: TriggerIn, b: TriggerIn, now: U32)
    requires InDue(a, now) && InDue(b, now)
    ensures HandleTriggerIn([a, b], now) == ([b], [InFired(a, Sub32(now, a.startedAtMs))])
  {
    var l := [a, b];
    var ev := InFired(a, Sub32(now, a.startedAtMs));
    assert l[2..] == [];
    assert PassIn([], now) == ([], []);
    assert PassIn(l, now) == ([l[1]] + PassIn(l[2..], now).0, [ev] + PassIn(l[2..], now).1);
    assert l[1] == b;
    assert [b] + [] == [b] && [ev] + [] == [ev];
  }

  /** Passes repeated at the same reading at least halve the number of due
      triggers, so every due trigger fires within a few passes. */
  lemma DueHalvedEachPass(l: seq<TriggerIn>, now: U32)
    ensures 2 * CountInDue(HandleTriggerIn(l, now).0, now) <= CountInDue(l, now)
  {
    PassInLeavesFewDue(l, now);
  }

  // ---------------------------------------------------------------------
  // Periodic triggers

  /** `millis() - triggeredAtMs >= ms`, in `unsigned long` arithmetic. */
  predicate EveryDue(t: TriggerEvery, now: U32)
  {
    Sub32(now, t.triggeredAtMs) >= t.ms
  }

  function CountEveryDue(l: seq<TriggerEvery>, now: U32): (n: nat)
    ensures n <= |l|
  {
    if |l| == 0 then 0 else (if EveryDue(l[0], now) then 1 else 0) + CountEveryDue(l[1..], now)
  }

  /** `triggerEvery`: a new periodic trigger with count 0 whose first period
      starts now, appended after the others. */
  function AddTriggerEvery(l: seq<TriggerEvery>, ms: U32, cb: CbId, now: U32): (r: seq<TriggerEvery>)
    ensures |r| == |l| + 1 && r[..|l|] == l
    ensures r[|l|].ms == ms && r[|l|].cb == cb && r[|l|].triggerCount == 0 && r[|l|].triggeredAtMs == now
  {
    l + [TriggerEvery(ms, cb, 0, now)]
  }

  /** `triggerEveryRemove`: deletes the first trigger registered with `ms`. */
  function TriggerEveryRemove(l: seq<TriggerEvery>, ms: U32): (r: (bool, seq<TriggerEvery>))
    ensures r.0 <==> exists i :: 0 <= i < |l| && l[i].ms == ms
    ensures !r.0 ==> r.1 == l
    ensures r.0 ==> exists i :: 0 <= i < |l| && l[i].ms == ms
                           && (forall j :: 0 <= j < i ==> l[j].ms != ms)
                           && r.1 == l[..i] + l[i + 1..]
  {
    var p := (t: TriggerEvery) => t.ms == ms;
    var r := Lists.RemoveFirst(l, p);
    if r.0 then
      var i :| Lists.IsFirstMatch(l, p, i) && r.1 == l[..i] + l[i + 1..];
      r
    else r
  }

  /** One periodic trigger at one tick. */
  function StepEvery(t: TriggerEvery, now: U32): (r: (TriggerEvery, Option<EveryFired>))
    ensures r.0.ms == t.ms && r.0.cb == t.cb
    ensures r.1.Some? <==> EveryDue(t, now)
    ensures r.1.Some? ==>
              r.0.triggeredAtMs == now && r.0.triggerCount == Wrap32(t.triggerCount + 1)
              && r.1.value == EveryFired(t, Sub32(now, t.triggeredAtMs), r.0.triggerCount)
    ensures r.1.None? ==> r.0 == t
  {
    var passed := Sub32(now, t.triggeredAtMs);
    if passed >= t.ms then
      var t' := t.(triggeredAtMs := now, triggerCount := Wrap32(t.triggerCount + 1));
      (t', Some(EveryFired(t, passed, t'.triggerCount)))
    else (t, None)
  }

  /** What each periodic trigger's own step yields, in list order. */
  function EveryTicks(l: seq<TriggerEvery>, now: U32): (r: seq<Option<EveryFired>>)
    ensures |r| == |l|
    decreases |l|
  {
    if |l| == 0 then [] else [StepEvery(l[0], now).1] + EveryTicks(l[1..], now)
  }

  /** Entry `i` is what trigger `i`'s own step yields. */
  lemma {:induction false} EveryTicksAt(l: seq<TriggerEvery>, now: U32)
    ensures forall i :: 0 <= i < |l| ==> EveryTicks(l, now)[i] == StepEvery(l[i], now).1
    decreases |l|
  {
    if |l| > 0 {
      EveryTicksAt(l[1..], now);
    }
  }

  /** The loop of `handleTriggerEvery`: each trigger stepped once, in list
      order, its callback (if any) made in the same order. */
  function PassEvery(l: seq<TriggerEvery>, now: U32): (r: (seq<TriggerEvery>, seq<EveryFired>))
    ensures |r.0| == |l|
    decreases |l|
  {
    if |l| == 0 then ([], [])
    else
      var s := StepEvery(l[0], now);
      var rest := PassEvery(l[1..], now);
      ([s.0] + rest.0, (if s.1.Some? then [s.1.value] else []) + rest.1)
  }

  /** The loop leaves trigger `i` as its own step does, and makes exactly
      the callbacks the steps yield, in order. */
  lemma {:induction false} PassEveryTicks(l: seq<TriggerEvery>, now: U32)
    ensures forall i :: 0 <= i < |l| ==> PassEvery(l, now).0[i] == StepEvery(l[i], now).0
    ensures PassEvery(l, now).1 == Somes(EveryTicks(l, now))
    decreases |l|
  {
    if |l| > 0 {
      PassEveryTicks(l[1..], now);
      SomesCons(StepEvery(l[0], now).1, EveryTicks(l[1..], now));
      var r := PassEvery(l, now);
      assert r.0 == [StepEvery(l[0], now).0] + PassEvery(l[1..], now).0;
      forall i | 1 <= i < |l|
        ensures r.0[i] == StepEvery(l[i], now).0
      {
        assert l[1..][i - 1] == l[i];
      }
    }
  }

  /** One callback per due trigger. */
  lemma {:induction false} EveryTicksCount(l: seq<TriggerEvery>, now: U32)
    ensures |Somes(EveryTicks(l, now))| == CountEveryDue(l, now)
    decreases |l|
  {
    if |l| > 0 {
      EveryTicksCount(l[1..], now);
      SomesCons(StepEvery(l[0], now).1, EveryTicks(l[1..], now));
    }
  }

  /** Every callback is the fire of a due trigger of the list. */
  lemma EveryTicksEvents(l: seq<TriggerEvery>, now: U32, r: seq<EveryFired>)
    requires r == Somes(EveryTicks(l, now))
    ensures forall k :: 0 <= k < |r| ==>
              r[k].trigger in l && EveryDue(r[k].trigger, now)
              && r[k].msPassed == Sub32(now, r[k].trigger.triggeredAtMs)
              && r[k].triggerCount == Wrap32(r[k].trigger.triggerCount + 1)
  {
    var t := EveryTicks(l, now);
    SomesMembers(t);
    EveryTicksAt(l, now);
    forall k | 0 <= k < |r|
      ensures r[k].trigger in l && EveryDue(r[k].trigger, now)
              && r[k].msPassed == Sub32(now, r[k].trigger.triggeredAtMs)
              && r[k].triggerCount == Wrap32(r[k].trigger.triggerCount + 1)
    {
      assert r[k] in r;
      var i :| 0 <= i < |t| && t[i] == Some(r[k]);
      assert StepEvery(l[i], now).1 == Some(r[k]);
    }
  }

  /** `handleTriggerEvery`: one pass over the periodic triggers at time `now`.
      No trigger is removed or reordered; each due one restarts its period
      at `now`, counts one more fire and has its callback invoked, in list
      order, exactly one callback per due trigger; the others are untouched. */
  function HandleTriggerEvery(l: seq<TriggerEvery>, now: U32): (r: (seq<TriggerEvery>, seq<EveryFired>))
    ensures |r.0| == |l|
    ensures forall i :: 0 <= i < |l| ==> r.0[i].ms == l[i].ms && r.0[i].cb == l[i].cb
    ensures forall i :: 0 <= i < |l| && EveryDue(l[i], now) ==>
              r.0[i].triggeredAtMs == now && r.0[i].triggerCount == Wrap32(l[i].triggerCount + 1)
    ensures forall i :: 0 <= i < |l| && !EveryDue(l[i], now) ==> r.0[i] == l[i]
    ensures |r.1| == CountEveryDue(l, now)
    ensures forall k :: 0 <= k < |r.1| ==>
              r.1[k].trigger in l && EveryDue(r.1[k].trigger, now)
              && r.1[k].msPassed == Sub32(now, r.1[k].trigger.triggeredAtMs)
              && r.1[k].triggerCount == Wrap32(r.1[k].trigger.triggerCount + 1)
    ensures r.1 == Somes(EveryTicks(l, now))
  {
    PassEveryTicks(l, now);
    EveryTicksCount(l, now);
    EveryTicksEvents(l, now, PassEvery(l, now).1);
    PassEvery(l, now)
  }

  /** The clock readings at which one periodic trigger fires over a run of
      ticks, and the trigger as left after the run. */
  function RunEvery(t: TriggerEvery, nows: seq<U32>): (r: (TriggerEvery, seq<U32>))
    decreases |nows|
  {
    if |nows| == 0 then (t, [])
    else
      var s := StepEvery(t, nows[0]);
      var rest := RunEvery(s.0, nows[1..]);
      (rest.0, (if s.1.Some? then [nows[0]] else []) + rest.1)
  }

  /** Fixed-delay periodicity, never early: the first fire comes at least
      `ms` after the period started, consecutive fires are at least `ms`
      apart, and the trigger count advances by exactly the number of fires. */
  lemma {:induction false} EveryNeverEarly(t: TriggerEvery, nows: seq<U32>)
    ensures var r := RunEvery(t, nows);
      && (|r.1| > 0 ==> Sub32(r.1[0], t.triggeredAtMs) >= t.ms)
      && (forall k :: 0 <= k < |r.1| - 1 ==> Sub32(r.1[k + 1], r.1[k]) >= t.ms)
      && r.0.ms == t.ms
      && r.0.triggerCount == Wrap32(t.triggerCount + |r.1|)
    decreases |nows|
  {
    if |nows| > 0 {
      var s := StepEvery(t, nows[0]);
      EveryNeverEarly(s.0, nows[1..]);
      var rest := RunEvery(s.0, nows[1..]);
      if s.1.Some? {
        assert s.0.triggeredAtMs == nows[0];
        Wrap32Add(t.triggerCount + 1, |rest.1|);
      }
    }
  }
}
