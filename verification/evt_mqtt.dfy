/** The MQTT session (`EvtMqtt`): the subscription table replayed after
    every connect, inbound dispatch by exact topic, boolean and integer
    payload decoding, and the zero-wait publish queue drained one item per
    step while connected.  The transport is a trace of wire calls. */
module EvtMqtt {

  import opened Words
  import opened Wrappers
  import opened Callbacks
  import opened CText
  import BoundedQueue

  const QUEUE_LENGTH: nat := 10
  const VALUE_LENGTH: nat := 10
  const TOPIC_LENGTH: nat := 50

  const BOOL_ON: seq<seq<char>> := ["on", "true", "1", "high"]
  const BOOL_OFF: seq<seq<char>> := ["off", "false", "0", "low"]

  /** The kind of callback a subscription was registered with. */
  datatype CbType = CbBool | CbInt | CbFloat

  /** A subscription: its topic (as kept in the 50-byte field), callback
      and kind. */
  datatype Subscription = Subscription(topic: seq<char>, cb: CbId, kind: CbType)

  /** An item waiting in the publish queue. */
  datatype PublishItem = PublishItem(topic: seq<char>, value: seq<char>)

  /** Calls made on the transport. */
  datatype Wire = WConnect | WSubscribe(topic: seq<char>) | WPublish(topic: seq<char>, value: seq<char>)

  /** Callbacks invoked for inbound messages.  Float payloads are passed on
      as their text: the conversion is floating point. */
  datatype Delivery =
    | BoolCb(cb: CbId, topic: seq<char>, flag: bool)
    | IntCb(cb: CbId, topic: seq<char>, number: int)
    | FloatCb(cb: CbId, topic: seq<char>, text: seq<char>)

  /** The session: subscription table, publish queue, link state. */
  datatype Session = Session(subs: seq<Subscription>, queue: seq<PublishItem>, connected: bool)

  /** The topic as stored in a 50-byte field with `strncpy` and read back
      as a C string. */
  function TopicText(topic: seq<char>): (t: seq<char>)
    ensures |t| <= TOPIC_LENGTH
    ensures |CStr(topic)| < TOPIC_LENGTH ==> t == CStr(topic)
  {
    CStrOfStrNCpy(topic, TOPIC_LENGTH);
    CStr(StrNCpy(topic, TOPIC_LENGTH))
  }

  // ---------------------------------------------------------------------
  // Subscriptions

  /** `subscribe`: appends to the table (duplicates kept) and subscribes
      the topic on the transport once. */
  function Subscribe(s: Session, topic: seq<char>, cb: CbId, kind: CbType): (r: (Session, seq<Wire>))
    ensures r.0.subs == s.subs + [Subscription(TopicText(topic), cb, kind)]
    ensures r.0.queue == s.queue && r.0.connected == s.connected
    ensures r.1 == [WSubscribe(CStr(topic))]
  {
    (s.(subs := s.subs + [Subscription(TopicText(topic), cb, kind)]), [WSubscribe(CStr(topic))])
  }

  /** `subscribeAll`: one transport subscribe per table entry, in table
      order. */
  function SubscribeAll(subs: seq<Subscription>): (r: seq<Wire>)
    ensures |r| == |subs|
    ensures forall i :: 0 <= i < |subs| ==> r[i] == WSubscribe(subs[i].topic)
  {
    seq(|subs|, i requires 0 <= i < |subs| => WSubscribe(subs[i].topic))
  }

  /** One step of `TaskKeepConnected`.  Disconnected: a connect attempt is
      made and `linkOk` is its result; on success the session is connected
      and every subscription is replayed, otherwise it retries later.
      Connected: `linkOk` is the transport's `connected()`; a lost link
      returns the session to disconnected.  Table and queue are never
      touched. */
  function KeepConnectedStep(s: Session, linkOk: bool): (r: (Session, seq<Wire>))
    ensures r.0.subs == s.subs && r.0.queue == s.queue
    ensures r.0.connected == linkOk
    ensures !s.connected && linkOk ==> r.1 == [WConnect] + SubscribeAll(s.subs)
    ensures !s.connected && !linkOk ==> r.1 == [WConnect]
    ensures s.connected ==> r.1 == []
  {
    if !s.connected then
      if linkOk then (s.(connected := true), [WConnect] + SubscribeAll(s.subs)) else (s, [WConnect])
    else
      (s.(connected := linkOk), [])
  }

  /** Subscribes the given topics one by one. */
  function SubscribeEach(s: Session, topics: seq<seq<char>>, cb: CbId, kind: CbType): (r: (Session, seq<Wire>))
    ensures r.0.queue == s.queue && r.0.connected == s.connected
    ensures |r.0.subs| == |s.subs| + |topics| && r.0.subs[..|s.subs|] == s.subs
    decreases |topics|
  {
    if |topics| == 0 then (s, [])
    else
      var (s1, w1) := Subscribe(s, topics[0], cb, kind);
      var (s2, w2) := SubscribeEach(s1, topics[1..], cb, kind);
      (s2, w1 + w2)
  }

  /** Replay completeness: after topics shorter than the topic field were
      subscribed on an empty table, every later (re)connect subscribes
      exactly the same topics, once each and in the same order, as the
      registrations did. */
  lemma {:induction false} ReplayRepeatsRegistrations(topics: seq<seq<char>>, cb: CbId, kind: CbType, queue: seq<PublishItem>)
    requires forall i :: 0 <= i < |topics| ==> |CStr(topics[i])| < TOPIC_LENGTH
    ensures var (s, w) := SubscribeEach(Session([], queue, false), topics, cb, kind);
            KeepConnectedStep(s, true).1 == [WConnect] + w
  {
    var r := SubscribeEach(Session([], queue, false), topics, cb, kind);
    ReplayFrom([], topics, cb, kind, queue);
    assert SubscribeAll(r.0.subs) == SubscribeAll([]) + r.1;
    assert SubscribeAll([]) == [];
    assert !r.0.connected;
  }

  lemma {:induction false} ReplayFrom(subs: seq<Subscription>, topics: seq<seq<char>>, cb: CbId, kind: CbType, queue: seq<PublishItem>)
    requires forall i :: 0 <= i < |topics| ==> |CStr(topics[i])| < TOPIC_LENGTH
    ensures var (s, w) := SubscribeEach(Session(subs, queue, false), topics, cb, kind);
            SubscribeAll(s.subs) == SubscribeAll(subs) + w
    decreases |topics|
  {
    if |topics| == 0 {
      assert SubscribeAll(subs) + [] == SubscribeAll(subs);
    } else {
      var t := topics[0];
      var sub := Subscription(TopicText(t), cb, kind);
      var subs1 := subs + [sub];
      var tail := topics[1..];
      assert forall i :: 0 <= i < |tail| ==> tail[i] == topics[i + 1];
      ReplayFrom(subs1, tail, cb, kind, queue);
      var (s2, w2) := SubscribeEach(Session(subs1, queue, false), tail, cb, kind);
      ReplayStep(subs, sub, t, w2);
    }
  }

  /** One registration step of the replay: the table grows by the entry
      whose topic the registration subscribed. */
  lemma ReplayStep(subs: seq<Subscription>, sub: Subscription, t: seq<char>, w2: seq<Wire>)
    requires |CStr(t)| < TOPIC_LENGTH && sub.topic == TopicText(t)
    ensures SubscribeAll(subs + [sub]) + w2 == SubscribeAll(subs) + ([WSubscribe(CStr(t))] + w2)
  {
    assert SubscribeAll(subs + [sub]) == SubscribeAll(subs) + [WSubscribe(CStr(t))];
  }

  // ---------------------------------------------------------------------
  // Inbound messages

  /** Whether some name matches the text ignoring case. */
  predicate AnyNameMatches(names: seq<seq<char>>, text: seq<char>)
  {
    exists i :: 0 <= i < |names| && EqualsIgnoreCase(names[i], text)
  }

  /** One pass over a name list: a match sets the decoded value. */
  function ScanNames(names: seq<seq<char>>, text: seq<char>, v: bool, acc: Option<bool>): (r: Option<bool>)
    ensures AnyNameMatches(names, text) ==> r == Some(v)
    ensures !AnyNameMatches(names, text) ==> r == acc
    decreases |names|
  {
    if |names| == 0 then acc
    else
      var acc1 := if EqualsIgnoreCase(names[0], text) then Some(v) else acc;
      var r := ScanNames(names[1..], text, v, acc1);
      assert AnyNameMatches(names, text) <==>
               EqualsIgnoreCase(names[0], text) || AnyNameMatches(names[1..], text) by {
        if AnyNameMatches(names[1..], text) {
          var i :| 0 <= i < |names[1..]| && EqualsIgnoreCase(names[1..][i], text);
          assert names[i + 1] == names[1..][i];
        }
        if AnyNameMatches(names, text) && !EqualsIgnoreCase(names[0], text) {
          var i :| 0 <= i < |names| && EqualsIgnoreCase(names[i], text);
          assert names[1..][i - 1] == names[i];
        }
      }
      r
  }

  /** The boolean branch of `handleCallBacks`: the off names are tried,
      then the on names, the last match winning; no match means the
      payload is not a boolean. */
  function DecodeBool(text: seq<char>): (r: Option<bool>)
    ensures r == Some(true) <==> AnyNameMatches(BOOL_ON, text)
    ensures r == Some(false) <==> AnyNameMatches(BOOL_OFF, text) && !AnyNameMatches(BOOL_ON, text)
    ensures r == None <==> !AnyNameMatches(BOOL_ON, text) && !AnyNameMatches(BOOL_OFF, text)
  {
    ScanNames(BOOL_ON, text, true, ScanNames(BOOL_OFF, text, false, None))
  }

  /** Two names that differ in length or in their folded first letter
      never both match one text. */
  lemma NotBothMatch(a: seq<char>, b: seq<char>, text: seq<char>)
    requires 0 < |a| && 0 < |b|
    requires |a| != |b| || ToLower(a[0]) != ToLower(b[0])
    ensures !(EqualsIgnoreCase(a, text) && EqualsIgnoreCase(b, text))
  {
    if |a| == |b| && |text| == |a| {
      assert EqualsIgnoreCase(a, text) ==> ToLower(a[0]) == ToLower(text[0]);
      assert EqualsIgnoreCase(b, text) ==> ToLower(b[0]) == ToLower(text[0]);
    }
  }

  /** No text matches both an on name and an off name, so the order of
      the two scans does not matter: an off name reads as false. */
  lemma DecodeBoolOff(text: seq<char>)
    ensures DecodeBool(text) == Some(false) <==> AnyNameMatches(BOOL_OFF, text)
  {
    forall i, j | 0 <= i < |BOOL_OFF| && 0 <= j < |BOOL_ON|
      ensures !(EqualsIgnoreCase(BOOL_OFF[i], text) && EqualsIgnoreCase(BOOL_ON[j], text))
    {
      NotBothMatch(BOOL_OFF[i], BOOL_ON[j], text);
    }
  }

  /** Every name in either list, written in any mix of cases, decodes to
      its list's value. */
  lemma DecodeBoolNames(i: nat, text: seq<char>)
    requires i < 4
    ensures EqualsIgnoreCase(BOOL_ON[i], text) ==> DecodeBool(text) == Some(true)
    ensures EqualsIgnoreCase(BOOL_OFF[i], text) ==> DecodeBool(text) == Some(false)
  {
    DecodeBoolOff(text);
  }

  /** `handleCallBacks` for one subscription: integer payloads are read
      with `atoi`, booleans decoded (an unknown word skips the callback),
      floats passed on as text. */
  function HandleCallBacks(sub: Subscription, text: seq<char>): (r: Option<Delivery>)
    ensures sub.kind == CbInt ==> r == Some(IntCb(sub.cb, sub.topic, Atoi(text)))
    ensures sub.kind == CbFloat ==> r == Some(FloatCb(sub.cb, sub.topic, text))
    ensures sub.kind == CbBool ==> (r.Some? <==> DecodeBool(text).Some?)
    ensures sub.kind == CbBool && r.Some? ==> r.value == BoolCb(sub.cb, sub.topic, DecodeBool(text).value)
  {
    match sub.kind
    case CbInt => Some(IntCb(sub.cb, sub.topic, Atoi(text)))
    case CbFloat => Some(FloatCb(sub.cb, sub.topic, text))
    case CbBool =>
      match DecodeBool(text)
      case None => None
      case Some(b) => Some(BoolCb(sub.cb, sub.topic, b))
  }

  /** What each table entry yields for a message on `topic`, in table
      order: nothing unless its topic is exactly that one. */
  function Offered(subs: seq<Subscription>, topic: seq<char>, text: seq<char>): (r: seq<Option<Delivery>>)
    ensures |r| == |subs|
    ensures forall i :: 0 <= i < |subs| ==>
              r[i] == (if subs[i].topic == topic then HandleCallBacks(subs[i], text) else None)
    decreases |subs|
  {
    if |subs| == 0 then []
    else [if subs[0].topic == topic then HandleCallBacks(subs[0], text) else None] + Offered(subs[1..], topic, text)
  }

  /** `d` is what some table entry with exactly that topic delivers. */
  predicate DeliveredBy(subs: seq<Subscription>, topic: seq<char>, text: seq<char>, d: Delivery)
  {
    exists i :: 0 <= i < |subs| && subs[i].topic == topic && HandleCallBacks(subs[i], text) == Some(d)
  }

  /** The values offered are the deliveries of entries with that topic,
      and every such delivery is among them. */
  lemma OfferedDeliveries(subs: seq<Subscription>, topic: seq<char>, text: seq<char>, r: seq<Delivery>)
    requires r == Somes(Offered(subs, topic, text))
    ensures forall k :: 0 <= k < |r| ==> DeliveredBy(subs, topic, text, r[k])
    ensures forall i :: 0 <= i < |subs| && subs[i].topic == topic && HandleCallBacks(subs[i], text).Some? ==>
              HandleCallBacks(subs[i], text).value in r
  {
    var t := Offered(subs, topic, text);
    SomesMembers(t);
    forall k | 0 <= k < |r|
      ensures DeliveredBy(subs, topic, text, r[k])
    {
      assert r[k] in r;
      var i :| 0 <= i < |t| && t[i] == Some(r[k]);
      assert subs[i].topic == topic && HandleCallBacks(subs[i], text) == Some(r[k]);
    }
    forall i | 0 <= i < |subs| && subs[i].topic == topic && HandleCallBacks(subs[i], text).Some?
      ensures HandleCallBacks(subs[i], text).value in r
    {
      assert t[i] == HandleCallBacks(subs[i], text);
    }
  }

  /** The subscriptions dispatched for a topic: every entry whose topic
      equals it, in table order, duplicates included, and no other. */
  function DispatchAll(subs: seq<Subscription>, topic: seq<char>, text: seq<char>): (r: seq<Delivery>)
    ensures |r| <= |subs|
    ensures (forall i :: 0 <= i < |subs| ==> subs[i].topic != topic) ==> r == []
    ensures forall k :: 0 <= k < |r| ==> DeliveredBy(subs, topic, text, r[k])
    ensures forall i :: 0 <= i < |subs| && subs[i].topic == topic && HandleCallBacks(subs[i], text).Some? ==>
              HandleCallBacks(subs[i], text).value in r
    ensures r == Somes(Offered(subs, topic, text))
    decreases |subs|
  {
    if |subs| == 0 then []
    else
      var rest := DispatchAll(subs[1..], topic, text);
      var d := if subs[0].topic == topic then HandleCallBacks(subs[0], text) else None;
      var r := if d.Some? then [d.value] + rest else rest;
      SomesCons(d, Offered(subs[1..], topic, text));
      assert r == Somes(Offered(subs, topic, text));
      OfferedDeliveries(subs, topic, text, r);
      r
  }

  /** A topic registered twice is delivered twice, in registration order:
      dispatch walks the whole table rather than stopping at the first
      match. */
  lemma DuplicateSubscriptionDeliversTwice(sub: Subscription, other: Subscription, text: seq<char>)
    requires HandleCallBacks(sub, text).Some?
    requires other.topic == sub.topic && HandleCallBacks(other, text).Some?
    ensures DispatchAll([sub, other], sub.topic, text)
              == [HandleCallBacks(sub, text).value, HandleCallBacks(other, text).value]
  {
    var subs := [sub, other];
    assert subs[1..] == [other];
    assert subs[1..][1..] == [];
  }

  /** `messageReceived`: a payload of `VALUE_LENGTH` bytes or more is
      dropped with a warning; otherwise it is read as a C string and
      dispatched to every subscription with exactly that topic. */
  function MessageReceived(subs: seq<Subscription>, topic: seq<char>, payload: seq<char>): (r: seq<Delivery>)
    ensures |payload| >= VALUE_LENGTH ==> r == []
    ensures |payload| < VALUE_LENGTH ==> r == DispatchAll(subs, CStr(topic), CStr(payload))
  {
    if |payload| < VALUE_LENGTH then DispatchAll(subs, CStr(topic), CStr(payload)) else []
  }

  // ---------------------------------------------------------------------
  // Publishing

  /** Zero-wait enqueue of an item: dropped when the queue is full. */
  function Enqueue(s: Session, item: PublishItem): (r: Session)
    ensures r.subs == s.subs && r.connected == s.connected
    ensures |s.queue| < QUEUE_LENGTH ==> r.queue == s.queue + [item]
    ensures |s.queue| >= QUEUE_LENGTH ==> r.queue == s.queue
  {
    s.(queue := BoundedQueue.TryEnqueue(s.queue, QUEUE_LENGTH, item))
  }

  /** `publish(bool)`: queues the on name or the off name. */
  function PublishBool(s: Session, topic: seq<char>, value: bool, onName: seq<char>, offName: seq<char>): (r: Session)
    ensures |s.queue| < QUEUE_LENGTH ==>
              r.queue == s.queue + [PublishItem(TopicText(topic), CStr(if value then onName else offName))]
    ensures |s.queue| >= QUEUE_LENGTH ==> r == s
  {
    Enqueue(s, PublishItem(TopicText(topic), CStr(if value then onName else offName)))
  }

  /** `publish(int)`: queues the decimal text of the value. */
  function PublishInt(s: Session, topic: seq<char>, value: I32): (r: Session)
    ensures |s.queue| < QUEUE_LENGTH ==> r.queue == s.queue + [PublishItem(TopicText(topic), Itoa(value))]
    ensures |s.queue| >= QUEUE_LENGTH ==> r == s
    ensures |s.queue| < QUEUE_LENGTH ==> Atoi(r.queue[|s.queue|].value) == value
  {
    AtoiItoa(value);
    Enqueue(s, PublishItem(TopicText(topic), Itoa(value)))
  }

  /** One step of `TaskPublishQueue`: while connected, the oldest queued
      item (if any) goes to the transport; otherwise nothing happens. */
  function PublishStep(s: Session): (r: (Session, seq<Wire>))
    ensures r.0.subs == s.subs && r.0.connected == s.connected
    ensures !s.connected || |s.queue| == 0 ==> r == (s, [])
    ensures s.connected && |s.queue| > 0 ==>
              r.0.queue == s.queue[1..] && r.1 == [WPublish(s.queue[0].topic, s.queue[0].value)]
  {
    if !s.connected then (s, [])
    else
      match BoundedQueue.TryDequeue(s.queue)
      case None => (s, [])
      case Some((item, rest)) => (s.(queue := rest), [WPublish(item.topic, item.value)])
  }

  /** The publish calls for a run of queued items. */
  function Sent(items: seq<PublishItem>): (w: seq<Wire>)
    ensures |w| == |items|
    ensures forall i :: 0 <= i < |items| ==> w[i] == WPublish(items[i].topic, items[i].value)
  {
    seq(|items|, i requires 0 <= i < |items| => WPublish(items[i].topic, items[i].value))
  }

  /** `n` steps of the publish task. */
  function Drain(s: Session, n: nat): (r: (Session, seq<Wire>))
    decreases n
  {
    if n == 0 then (s, [])
    else
      var (s1, w1) := PublishStep(s);
      var (s2, w2) := Drain(s1, n - 1);
      (s2, w1 + w2)
  }

  /** While connected, `n` steps send the oldest `n` queued items (or all
      of them), in queue order, and leave the rest queued. */
  lemma {:induction false} DrainSendsInOrder(s: Session, n: nat)
    requires s.connected
    ensures var m := BoundedQueue.Min(n, |s.queue|);
            Drain(s, n).1 == Sent(s.queue[..m]) && Drain(s, n).0.queue == s.queue[m..]
    decreases n
  {
    if n > 0 {
      if |s.queue| == 0 {
        DrainEmpty(s, n - 1);
        assert s.queue[..0] == [];
      } else {
        var q := s.queue;
        var s1 := PublishStep(s).0;
        assert s1.queue == q[1..] && s1.connected;
        DrainSendsInOrder(s1, n - 1);
        var m := BoundedQueue.Min(n, |q|);
        SentStep(q, m);
      }
    }
  }

  /** Sending the head then the next `m - 1` items is sending `m` items. */
  lemma SentStep(q: seq<PublishItem>, m: nat)
    requires 0 < m <= |q|
    ensures [WPublish(q[0].topic, q[0].value)] + Sent(q[1..][..m - 1]) == Sent(q[..m])
    ensures q[1..][m - 1..] == q[m..]
  {
    assert q[1..][..m - 1] == q[1..m];
  }

  lemma {:induction false} DrainEmpty(s: Session, n: nat)
    requires s.connected && |s.queue| == 0
    ensures Drain(s, n) == (s, [])
    decreases n
  {
    if n > 0 {
      DrainEmpty(s, n - 1);
      assert PublishStep(s) == (s, []);
      var none: seq<Wire> := [];
      assert none + none == none;
    }
  }

  /** Publishes every item, each with zero wait. */
  function EnqueueEach(s: Session, items: seq<PublishItem>): (r: Session)
    ensures r.subs == s.subs && r.connected == s.connected
    ensures r.queue == BoundedQueue.EnqueueAll(s.queue, QUEUE_LENGTH, items)
    decreases |items|
  {
    if |items| == 0 then s else EnqueueEach(Enqueue(s, items[0]), items[1..])
  }

  /** Items published while disconnected are kept up to the queue's
      capacity, the oldest first; after a successful connect, draining
      sends exactly those, in order, and the rest were lost. */
  lemma PublishWhileDisconnected(subs: seq<Subscription>, items: seq<PublishItem>, n: nat)
    requires n >= QUEUE_LENGTH
    ensures var s := EnqueueEach(Session(subs, [], false), items);
            var c := KeepConnectedStep(s, true).0;
            Drain(c, n).1 == Sent(items[..BoundedQueue.Min(QUEUE_LENGTH, |items|)])
  {
    var s := EnqueueEach(Session(subs, [], false), items);
    BoundedQueue.EnqueueAllKeepsOldest([], QUEUE_LENGTH, items);
    assert [] + items == items;
    var c := KeepConnectedStep(s, true).0;
    DrainSendsInOrder(c, n);
    var m := BoundedQueue.Min(QUEUE_LENGTH, |items|);
    assert c.queue == items[..m];
    assert c.queue[..BoundedQueue.Min(n, |c.queue|)] == items[..m];
  }

  /** The text of a number holds no NUL, so it is its own C string. */
  lemma ItoaIsCString(v: int)
    ensures CStr(Itoa(v)) == Itoa(v)
  {
    forall k | 0 <= k < |Itoa(v)| ensures Itoa(v)[k] != NUL {
      ItoaChars(v, k);
    }
    CStrOfNulFree(Itoa(v));
  }

  /** Dispatch over a one-entry table whose entry takes the message. */
  lemma DispatchOne(sub: Subscription, topic: seq<char>, text: seq<char>)
    requires sub.topic == topic && HandleCallBacks(sub, text).Some?
    ensures DispatchAll([sub], topic, text) == [HandleCallBacks(sub, text).value]
  {
    assert [sub][1..] == [];
  }

  /** An integer published on a topic reaches an integer subscriber of the
      same topic unchanged when its text fits the value field, and is
      dropped by the receiver otherwise. */
  lemma IntEndToEnd(topic: seq<char>, value: I32, cb: CbId)
    requires |CStr(topic)| < TOPIC_LENGTH
    ensures var item := PublishInt(Session([], [], false), topic, value).queue[0];
            var subs := [Subscription(CStr(topic), cb, CbInt)];
            MessageReceived(subs, item.topic, item.value)
              == (if |Itoa(value)| < VALUE_LENGTH then [IntCb(cb, CStr(topic), value)] else [])
  {
    var text := Itoa(value);
    var t := CStr(topic);
    var item := PublishInt(Session([], [], false), topic, value).queue[0];
    assert item == PublishItem(TopicText(topic), text);
    CStrOfNulFree(t);
    assert CStr(item.topic) == t;
    if |text| < VALUE_LENGTH {
      ItoaIsCString(value);
      AtoiItoa(value);
      var sub := Subscription(t, cb, CbInt);
      DispatchOne(sub, t, text);
    }
  }

  /** A boolean published with an on name and an off name the receiver
      recognises (as an on word and an off word), both shorter than the
      value field, reaches a boolean subscriber of the same topic as the
      value itself. */
  lemma BoolEndToEnd(topic: seq<char>, value: bool, onName: seq<char>, offName: seq<char>, cb: CbId)
    requires |CStr(topic)| < TOPIC_LENGTH
    requires |CStr(onName)| < VALUE_LENGTH && AnyNameMatches(BOOL_ON, CStr(onName))
    requires |CStr(offName)| < VALUE_LENGTH && AnyNameMatches(BOOL_OFF, CStr(offName))
    ensures var item := PublishBool(Session([], [], false), topic, value, onName, offName).queue[0];
            var subs := [Subscription(CStr(topic), cb, CbBool)];
            MessageReceived(subs, item.topic, item.value) == [BoolCb(cb, CStr(topic), value)]
  {
    var t := CStr(topic);
    var text := CStr(if value then onName else offName);
    var item := PublishBool(Session([], [], false), topic, value, onName, offName).queue[0];
    assert item == PublishItem(TopicText(topic), text);
    CStrOfNulFree(t);
    CStrOfNulFree(text);
    DecodeBoolOff(text);
    var sub := Subscription(t, cb, CbBool);
    assert HandleCallBacks(sub, text) == Some(BoolCb(cb, t, value));
    DispatchOne(sub, t, text);
  }

  /** Published with the names "on" and "off", every boolean goes through. */
  lemma BoolEndToEndOnOff(topic: seq<char>, value: bool, cb: CbId)
    requires |CStr(topic)| < TOPIC_LENGTH
    ensures var item := PublishBool(Session([], [], false), topic, value, "on", "off").queue[0];
            MessageReceived([Subscription(CStr(topic), cb, CbBool)], item.topic, item.value)
              == [BoolCb(cb, CStr(topic), value)]
  {
    OnOffNames();
    BoolEndToEnd(topic, value, "on", "off", cb);
  }

  /** "on" and "off" are C strings the decoder knows. */
  lemma OnOffNames()
    ensures CStr("on") == "on" && AnyNameMatches(BOOL_ON, "on")
    ensures CStr("off") == "off" && AnyNameMatches(BOOL_OFF, "off")
  {
    CStrOfNulFree("on");
    CStrOfNulFree("off");
    assert EqualsIgnoreCase(BOOL_ON[0], "on");
    assert EqualsIgnoreCase(BOOL_OFF[0], "off");
  }

  /** The text of a number holds digits and possibly a leading minus. */
  lemma ItoaChars(v: int, k: nat)
    requires k < |Itoa(v)|
    ensures Itoa(v)[k] == '-' || IsDigit(Itoa(v)[k])
  {
    if v < 0 {
      assert Itoa(v) == "-" + Digits(-v);
      if k > 0 {
        assert Itoa(v)[k] == Digits(-v)[k - 1];
      }
    }
  }
}
