/** The client of comm/src/mqtt.c: packet identifiers, the pending list, acknowledgement, retry, subscriptions. */
module Mqtt {
  import opened Bytes
  import opened Links
  import opened Wrappers
  import opened MqttPacket

  /** A QoS 1 publish that waits for its PUBACK; times are seconds. */
  datatype Pending = Pending(id: word, topic: seq<byte>, payload: seq<byte>, lastSent: int)

  /** The part of the client that the QoS 1 protocol uses; the newest entry comes first. */
  datatype State = State(nextId: word, pending: seq<Pending>)

  const RETRY_INTERVAL := 5

  // ----- steps -----

  function AfterId(id: word): word {
    var next := (id + 1) % 0x1_0000;
    if next == 0 then 1 else next
  }

  /** The place of the first entry with this identifier, or the length. */
  function IndexOfId(pending: seq<Pending>, id: word): (i: nat)
    ensures i <= |pending| && (i < |pending| ==> pending[i].id == id)
    ensures forall j :: 0 <= j < i ==> pending[j].id != id
  {
    if |pending| == 0 then 0 else if pending[0].id == id then 0 else 1 + IndexOfId(pending[1..], id)
  }

  function Retried(p: Pending, now: int): Pending {
    if now - p.lastSent >= RETRY_INTERVAL then p.(lastSent := now) else p
  }

  function RetryAll(pending: seq<Pending>, now: int): (r: seq<Pending>)
    ensures |r| == |pending| && forall i :: 0 <= i < |r| ==> r[i] == Retried(pending[i], now)
  {
    seq(|pending|, i requires 0 <= i < |pending| => Retried(pending[i], now))
  }

  /** A call or an incoming packet; whether the network took a packet is part of the event. */
  datatype Event =
    | Publish(topic: seq<byte>, payload: seq<byte>, qos: byte, sent: bool, now: int)
    | Puback(id: word)
    | Retry(now: int)

  function Step(s: State, e: Event): State {
    match e
    case Publish(topic, payload, qos, sent, now) =>
      if qos != 1 then s
      else State(AfterId(s.nextId), if sent then [Pending(s.nextId, topic, payload, now)] + s.pending else s.pending)
    case Puback(id) => s.(pending := Without(s.pending, IndexOfId(s.pending, id)))
    case Retry(now) => s.(pending := RetryAll(s.pending, now))
  }

  // ----- runs -----

  function Run(es: seq<Event>): State {
    if |es| == 0 then State(1, []) else Step(Run(es[..|es| - 1]), es[|es| - 1])
  }

  predicate Issues(e: Event) {
    e.Publish? && e.qos == 1
  }

  /** How many identifiers a run has handed out, failed sends included. */
  function Issued(es: seq<Event>): nat {
    if |es| == 0 then 0 else Issued(es[..|es| - 1]) + if Issues(es[|es| - 1]) then 1 else 0
  }

  /** The n-th identifier, counted from 0. */
  function IdOf(n: nat): word {
    1 + n % 0xFFFF
  }

  /** For every pending entry the number of the identifier that it got. */
  function Sources(es: seq<Event>): seq<nat> {
    if |es| == 0 then []
    else
      var before := es[..|es| - 1];
      match es[|es| - 1]
      case Publish(_, _, qos, sent, _) => if qos == 1 && sent then [Issued(before)] + Sources(before) else Sources(before)
      case Puback(id) => Without(Sources(before), IndexOfId(Run(before).pending, id))
      case Retry(_) => Sources(before)
  }

  lemma RunStep(es: seq<Event>, e: Event)
    ensures Run(es + [e]) == Step(Run(es), e)
    ensures Issued(es + [e]) == Issued(es) + if Issues(e) then 1 else 0
    ensures Sources(es + [e]) == match e
      case Publish(_, _, qos, sent, _) => if qos == 1 && sent then [Issued(es)] + Sources(es) else Sources(es)
      case Puback(id) => Without(Sources(es), IndexOfId(Run(es).pending, id))
      case Retry(_) => Sources(es)
  {
    assert (es + [e])[..|es|] == es;
  }

  // ----- what every run keeps -----

  /** The next identifier is that of the number of identifiers issued: it wraps from 65535 to 1 and is never 0. */
  lemma {:induction false} NextIdOfRun(es: seq<Event>)
    ensures Run(es).nextId == IdOf(Issued(es)) && 1 <= Run(es).nextId <= 0xFFFF
  {
    hide AfterId, IdOf, RetryAll, IndexOfId;
    IdBounds(Issued(es));
    if |es| > 0 {
      NextIdOfRun(es[..|es| - 1]);
      AfterIdOf(Issued(es[..|es| - 1]));
    } else {
      FirstId();
    }
  }

  lemma FirstId()
    ensures IdOf(0) == 1
  {
  }

  lemma IdBounds(n: nat)
    ensures 1 <= IdOf(n) <= 0xFFFF
  {
  }

  lemma AfterIdOf(n: nat)
    ensures AfterId(IdOf(n)) == IdOf(n + 1)
  {
    if n % 0xFFFF == 0xFFFE {
      assert n + 1 == 0xFFFF * (n / 0xFFFF + 1);
    } else {
      assert n + 1 == 0xFFFF * (n / 0xFFFF) + (n % 0xFFFF + 1);
    }
  }

  ghost predicate Decreasing(s: seq<nat>) {
    forall i, j :: 0 <= i < j < |s| ==> s[i] > s[j]
  }

  /** The numbers of the pending entries, newest first, and the identifiers that go with them. */
  ghost predicate InStep(numbers: seq<nat>, pending: seq<Pending>, issued: nat) {
    && |numbers| == |pending| && Decreasing(numbers)
    && forall i :: 0 <= i < |numbers| ==> numbers[i] < issued && pending[i].id == IdOf(numbers[i])
  }

  lemma InStepFirst(es: seq<Event>)
    requires |es| == 0
    ensures InStep(Sources(es), Run(es).pending, Issued(es))
  {
  }

  lemma InStepNewest(numbers: seq<nat>, pending: seq<Pending>, issued: nat, p: Pending)
    requires InStep(numbers, pending, issued) && p.id == IdOf(issued)
    ensures InStep([issued] + numbers, [p] + pending, issued + 1)
    ensures InStep(numbers, pending, issued + 1)
  {
    hide IdOf;
  }

  lemma InStepWithout(numbers: seq<nat>, pending: seq<Pending>, issued: nat, i: nat)
    requires InStep(numbers, pending, issued)
    ensures InStep(Without(numbers, i), Without(pending, i), issued)
  {
    hide IdOf;
    var ns, ps := Without(numbers, i), Without(pending, i);
    forall x | 0 <= x < |ns| ensures ns[x] < issued && ps[x].id == IdOf(ns[x]) {
      var y := if x < i then x else x + 1;
      assert numbers[y] < issued && pending[y].id == IdOf(numbers[y]);
    }
  }

  lemma InStepRetry(numbers: seq<nat>, pending: seq<Pending>, issued: nat, now: int)
    requires InStep(numbers, pending, issued)
    ensures InStep(numbers, RetryAll(pending, now), issued)
  {
    hide IdOf;
  }

  /** Every pending entry carries the identifier of its publish; the newest comes first. */
  lemma {:induction false} SourcesOfRun(es: seq<Event>)
    ensures InStep(Sources(es), Run(es).pending, Issued(es))
  {
    hide Run, Sources, Issued, IdOf, IndexOfId, InStep, Without, RetryAll;
    if |es| == 0 {
      InStepFirst(es);
    } else {
      var before, e := es[..|es| - 1], es[|es| - 1];
      assert es == before + [e];
      RunStep(before, e);
      SourcesOfRun(before);
      NextIdOfRun(before);
      var numbers, s, issued := Sources(before), Run(before), Issued(before);
      match e
      case Publish(topic, payload, qos, sent, now) =>
        InStepNewest(numbers, s.pending, issued, Pending(s.nextId, topic, payload, now));
      case Puback(id) => InStepWithout(numbers, s.pending, issued, IndexOfId(s.pending, id));
      case Retry(now) => InStepRetry(numbers, s.pending, issued, now);
    }
  }

  /** Two publishes share an identifier exactly when a multiple of 65535 lies between them. */
  lemma SameIdIff(m: nat, n: nat)
    requires m <= n
    ensures IdOf(m) == IdOf(n) <==> (n - m) % 0xFFFF == 0
  {
  }

  /** The pending publishes lie fewer than 65535 issues apart. */
  ghost predicate ShortSpan(es: seq<Event>) {
    var s := Sources(es);
    |s| > 0 ==> s[0] < s[|s| - 1] + 0xFFFF
  }

  /** Then no two pending entries have the same identifier. */
  lemma PendingIdsAreDistinct(es: seq<Event>)
    requires ShortSpan(es)
    ensures forall i, j :: 0 <= i < j < |Run(es).pending| ==> Run(es).pending[i].id != Run(es).pending[j].id
  {
    hide Run, Sources, IdOf;
    SourcesOfRun(es);
    var s := Sources(es);
    forall i, j | 0 <= i < j < |Run(es).pending| ensures Run(es).pending[i].id != Run(es).pending[j].id {
      SameIdIff(s[j], s[i]);
      assert s[0] >= s[i] > s[j] >= s[|s| - 1];
    }
  }

  /** An acknowledgement of publish n then removes that publish and nothing else. */
  lemma PubackRemovesExactly(es: seq<Event>, n: nat)
    requires ShortSpan(es) && n in Sources(es)
    ensures var after := es + [Puback(IdOf(n))];
      && n !in Sources(after)
      && exists i: nat :: i < |Sources(es)| && Sources(es)[i] == n
           && Sources(after) == Without(Sources(es), i) && Run(after) == Run(es).(pending := Without(Run(es).pending, i))
  {
    hide Run, Sources, IdOf, ShortSpan;
    var id := IdOf(n);
    SourcesOfRun(es);
    PendingIdsAreDistinct(es);
    RunStep(es, Puback(id));
    var i: nat :| i < |Sources(es)| && Sources(es)[i] == n;
    var k := IndexOfId(Run(es).pending, id);
    assert Run(es).pending[i].id == id;
    assert k == i;
    assert n !in Without(Sources(es), i);
  }

  /** An identifier that no pending entry has changes nothing. */
  lemma UnknownPuback(es: seq<Event>, id: word)
    requires forall i :: 0 <= i < |Run(es).pending| ==> Run(es).pending[i].id != id
    ensures Run(es + [Puback(id)]) == Run(es)
  {
    RunStep(es, Puback(id));
  }

  /** A QoS 1 publish that went out. */
  predicate SentAt(es: seq<Event>, j: nat) {
    j < |es| && Issues(es[j]) && es[j].sent
  }

  ghost predicate AckedBetween(es: seq<Event>, j: nat, id: word) {
    exists k :: j < k < |es| && es[k] == Puback(id)
  }

  /** The entry of publish j with its topic and payload. */
  ghost predicate StillPending(es: seq<Event>, j: nat)
    requires SentAt(es, j)
  {
    exists i :: 0 <= i < |Sources(es)| && i < |Run(es).pending| && Sources(es)[i] == Issued(es[..j])
      && Run(es).pending[i].topic == es[j].topic && Run(es).pending[i].payload == es[j].payload
  }

  /** No QoS 1 publish is lost: it stays in the list, as it was published, until a PUBACK with its identifier comes. */
  lemma {:induction false} NothingIsLost(es: seq<Event>, j: nat)
    requires SentAt(es, j)
    ensures StillPending(es, j) || AckedBetween(es, j, IdOf(Issued(es[..j])))
  {
    hide IdOf, IndexOfId, Issued;
    var n := |es| - 1;
    var before := es[..n];
    SourcesOfRun(es);
    SourcesOfRun(before);
    if j == n {
      assert Sources(es)[0] == Issued(es[..j]);
    } else {
      NothingIsLost(before, j);
      assert before[..j] == es[..j];
      var id := IdOf(Issued(es[..j]));
      if AckedBetween(before, j, id) {
        var k :| j < k < |before| && before[k] == Puback(id);
        assert es[k] == Puback(id);
      } else {
        var i :| 0 <= i < |Sources(before)| && i < |Run(before).pending| && Sources(before)[i] == Issued(before[..j])
          && Run(before).pending[i].topic == before[j].topic && Run(before).pending[i].payload == before[j].payload;
        StaysOrAcked(es, i);
        if es[n].Puback? && IndexOfId(Run(before).pending, es[n].id) == i {
          assert es[n] == Puback(id);
        }
      }
    }
  }

  /** Where an entry is after one more event. */
  lemma StaysOrAcked(es: seq<Event>, i: nat)
    requires |es| > 0
    requires var before := es[..|es| - 1]; i < |Sources(before)| == |Run(before).pending|
    ensures var n := |es| - 1; var before := es[..n]; var e := es[n]; var p := Run(before).pending[i];
      || (e.Puback? && IndexOfId(Run(before).pending, e.id) == i)
      || exists x :: 0 <= x < |Sources(es)| && x < |Run(es).pending| && Sources(es)[x] == Sources(before)[i]
           && Run(es).pending[x].topic == p.topic && Run(es).pending[x].payload == p.payload
  {
    hide IndexOfId, Issued, Run, Sources, RetryAll;
    var n := |es| - 1;
    var before := es[..n];
    assert es == before + [es[n]];
    RunStep(before, es[n]);
    match es[n]
    case Publish(_, _, qos, sent, _) =>
      var x := if qos == 1 && sent then i + 1 else i;
      assert Sources(es)[x] == Sources(before)[i] && Run(es).pending[x] == Run(before).pending[i];
    case Puback(id) =>
      var k := IndexOfId(Run(before).pending, id);
      if k != i {
        var x := if k < i then i - 1 else i;
        assert Sources(es)[x] == Sources(before)[i] && Run(es).pending[x] == Run(before).pending[i];
      }
    case Retry(now) =>
      assert Sources(es)[i] == Sources(before)[i] && Run(es).pending[i] == Retried(Run(before).pending[i], now);
  }

  /** How many QoS 1 publishes of a run went out. */
  function SentCount(es: seq<Event>): nat {
    if |es| == 0 then 0
    else SentCount(es[..|es| - 1]) + if SentAt(es, |es| - 1) then 1 else 0
  }

  /** Without an acknowledgement every publish that went out is pending, however long the run. */
  lemma {:induction false} OnlyAcknowledgementsShorten(es: seq<Event>)
    requires forall e :: e in es ==> !e.Puback?
    ensures |Run(es).pending| == SentCount(es)
  {
    if |es| > 0 {
      OnlyAcknowledgementsShorten(es[..|es| - 1]);
      assert es[|es| - 1] in es;
    }
  }

  /** Retry changes the time of the entries that are at least five seconds old, and nothing else. */
  lemma RetryChangesOnlyTimes(es: seq<Event>, now: int, i: nat)
    requires i < |Run(es).pending|
    ensures var after := Run(es + [Retry(now)]); var p := Run(es).pending[i];
      && after.nextId == Run(es).nextId && |after.pending| == |Run(es).pending|
      && after.pending[i].(lastSent := p.lastSent) == p
      && (now - p.lastSent >= RETRY_INTERVAL ==> after.pending[i].lastSent == now)
      && (now - p.lastSent < RETRY_INTERVAL ==> after.pending[i] == p)
  {
    RunStep(es, Retry(now));
  }

  /** When publish number n last went out, after one more event: a retry sends it again when five seconds have passed. */
  function NextTime(e: Event, issued: nat, n: nat, last: int): int {
    match e
    case Publish(_, _, qos, _, now) => if qos == 1 && issued == n then now else last
    case Puback(_) => last
    case Retry(now) => if now >= last + 5 then now else last
  }

  function SentTime(es: seq<Event>, n: nat): int {
    if |es| == 0 then 0
    else
      var before := es[..|es| - 1];
      NextTime(es[|es| - 1], Issued(before), n, SentTime(before, n))
  }

  ghost predicate Timed(es: seq<Event>, numbers: seq<nat>, pending: seq<Pending>) {
    |numbers| == |pending| && forall i :: 0 <= i < |numbers| ==> pending[i].lastSent == SentTime(es, numbers[i])
  }

  lemma SentTimeStep(es: seq<Event>, e: Event, n: nat)
    ensures SentTime(es + [e], n) == NextTime(e, Issued(es), n, SentTime(es, n))
  {
    assert (es + [e])[..|es|] == es;
  }

  /** The time of every pending entry is when its publish last went out. */
  lemma {:induction false} TimesOfRun(es: seq<Event>)
    ensures Timed(es, Sources(es), Run(es).pending)
  {
    hide Run, Sources, Issued, SentTime, IdOf, IndexOfId, RetryAll, InStep, Timed, AfterId;
    if |es| == 0 {
      NothingTimed(es);
    } else {
      var before, e := es[..|es| - 1], es[|es| - 1];
      assert es == before + [e];
      RunStep(before, e);
      TimesOfRun(before);
      SourcesOfRun(before);
      TimedStep(before, e, Sources(before), Run(before));
    }
  }

  lemma NothingTimed(es: seq<Event>)
    requires |es| == 0
    ensures Timed(es, Sources(es), Run(es).pending)
  {
  }

  lemma TimedStep(es: seq<Event>, e: Event, numbers: seq<nat>, s: State)
    requires Timed(es, numbers, s.pending) && InStep(numbers, s.pending, Issued(es))
    ensures match e
      case Publish(_, _, qos, sent, _) =>
        Timed(es + [e], if qos == 1 && sent then [Issued(es)] + numbers else numbers, Step(s, e).pending)
      case Puback(id) => Timed(es + [e], Without(numbers, IndexOfId(s.pending, id)), Step(s, e).pending)
      case Retry(_) => Timed(es + [e], numbers, Step(s, e).pending)
  {
    hide Issued, SentTime, IdOf, IndexOfId, AfterId, Timed, InStep, RetryAll, Without;
    match e
    case Publish(topic, payload, qos, sent, now) =>
      TimedPublish(es, e, numbers, s.pending, Pending(s.nextId, topic, payload, now));
    case Puback(id) => TimedPuback(es, e, numbers, s.pending, IndexOfId(s.pending, id));
    case Retry(now) => TimedRetry(es, e, numbers, s.pending);
  }

  lemma TimedPublish(es: seq<Event>, e: Event, numbers: seq<nat>, pending: seq<Pending>, p: Pending)
    requires Timed(es, numbers, pending) && InStep(numbers, pending, Issued(es))
    requires e.Publish? && p.lastSent == e.now
    ensures Timed(es + [e], numbers, pending)
    ensures e.qos == 1 ==> Timed(es + [e], [Issued(es)] + numbers, [p] + pending)
  {
    hide Issued, SentTime, IdOf;
    SentTimeStep(es, e, Issued(es));
    forall i | 0 <= i < |numbers| ensures pending[i].lastSent == SentTime(es + [e], numbers[i]) {
      SentTimeStep(es, e, numbers[i]);
      assert numbers[i] < Issued(es);
    }
  }

  lemma TimedPuback(es: seq<Event>, e: Event, numbers: seq<nat>, pending: seq<Pending>, k: nat)
    requires Timed(es, numbers, pending) && e.Puback?
    ensures Timed(es + [e], Without(numbers, k), Without(pending, k))
  {
    hide SentTime;
    var ns, ps := Without(numbers, k), Without(pending, k);
    forall i | 0 <= i < |ns| ensures ps[i].lastSent == SentTime(es + [e], ns[i]) {
      var y := if i < k then i else i + 1;
      assert pending[y].lastSent == SentTime(es, numbers[y]);
      SentTimeStep(es, e, ns[i]);
    }
  }

  lemma TimedRetry(es: seq<Event>, e: Event, numbers: seq<nat>, pending: seq<Pending>)
    requires Timed(es, numbers, pending) && e.Retry?
    ensures Timed(es + [e], numbers, RetryAll(pending, e.now))
  {
    hide SentTime;
    forall i | 0 <= i < |numbers| ensures Retried(pending[i], e.now).lastSent == SentTime(es + [e], numbers[i]) {
      SentTimeStep(es, e, numbers[i]);
    }
  }

  // ----- subscriptions -----

  /** A topic filter, and a number that stands for its callback and user data. */
  datatype Subscription = Subscription(topic: seq<byte>, callback: nat)
  datatype Delivery = Delivery(callback: nat, message: seq<byte>)

  /** The C string in a buffer of bytes. */
  function UpToNul(s: seq<byte>): seq<byte> {
    if |s| == 0 || s[0] == 0 then [] else [s[0]] + UpToNul(s[1..])
  }

  /** It is what stands before the first zero byte. */
  lemma {:induction false} UpToNulIs(s: seq<byte>, n: nat)
    requires n <= |s| && 0 !in s[..n] && (n < |s| ==> s[n] == 0)
    ensures UpToNul(s) == s[..n]
  {
    if n > 0 {
      assert s[..n][0] == s[0] && s[1..][..n - 1] == s[..n][1..];
      UpToNulIs(s[1..], n - 1);
      assert s[..n] == [s[0]] + s[1..][..n - 1];
    }
  }

  function Delivered(sub: Subscription, topic: seq<byte>, message: seq<byte>): seq<Delivery> {
    if sub.topic == topic then [Delivery(sub.callback, message)] else []
  }

  /** What the subscribers of a topic get, the newest subscription first. */
  function Deliveries(subs: seq<Subscription>, topic: seq<byte>, message: seq<byte>): seq<Delivery> {
    if |subs| == 0 then [] else Delivered(subs[0], topic, message) + Deliveries(subs[1..], topic, message)
  }

  function IndexOfTopic(subs: seq<Subscription>, topic: seq<byte>): (i: nat)
    ensures i <= |subs| && (i < |subs| ==> subs[i].topic == topic)
    ensures forall j :: 0 <= j < i ==> subs[j].topic != topic
  {
    if |subs| == 0 then 0 else if subs[0].topic == topic then 0 else 1 + IndexOfTopic(subs[1..], topic)
  }

  /** Unsubscribing takes back the last subscription to the topic. */
  lemma UnsubscribeUndoesSubscribe(subs: seq<Subscription>, topic: seq<byte>, callback: nat)
    ensures var more := [Subscription(topic, callback)] + subs;
      Without(more, IndexOfTopic(more, topic)) == subs
  {
  }

  /** A subscriber is called once for every subscription to exactly this topic. */
  lemma {:induction false} DeliveriesIff(subs: seq<Subscription>, topic: seq<byte>, message: seq<byte>, d: Delivery)
    ensures d in Deliveries(subs, topic, message) <==>
      d.message == message && Subscription(topic, d.callback) in subs
  {
    if |subs| > 0 {
      DeliveriesIff(subs[1..], topic, message, d);
    }
  }

  // ----- the client -----

  /** What a retry sends for one entry. */
  function Due(p: Pending, now: int): seq<seq<byte>> {
    if now - p.lastSent >= RETRY_INTERVAL then [PublishPacket(p.topic, p.payload, 1, p.id)] else []
  }

  /** The packets that a retry sends again, in list order. */
  function DuePackets(pending: seq<Pending>, now: int): seq<seq<byte>> {
    if |pending| == 0 then [] else Due(pending[0], now) + DuePackets(pending[1..], now)
  }

  /** The entries that have waited for five seconds. */
  function Waiting(pending: seq<Pending>, now: int): seq<Pending> {
    if |pending| == 0 then []
    else (if now >= pending[0].lastSent + 5 then [pending[0]] else []) + Waiting(pending[1..], now)
  }

  /** What a retry sends is read back as the topics, identifiers and payloads of those entries, in their order. */
  lemma {:induction false} DuePacketsParse(pending: seq<Pending>, now: int)
    ensures |DuePackets(pending, now)| == |Waiting(pending, now)|
    ensures forall i :: 0 <= i < |DuePackets(pending, now)| ==> var p := Waiting(pending, now)[i];
      ParsePublish(DuePackets(pending, now)[i]) == Some(Received(p.topic[..|p.topic| % 0x1_0000], Some(p.id), p.payload))
  {
    hide PublishPacket, ParsePublish;
    if |pending| > 0 {
      var p := pending[0];
      DuePacketsParse(pending[1..], now);
      PublishRoundTrip(p.topic, p.payload, 1, p.id);
    }
  }

  /** The packets of the first i entries. */
  ghost function DueUpTo(pending: seq<Pending>, i: nat, now: int): seq<seq<byte>>
    requires i <= |pending|
  {
    if i == 0 then [] else DueUpTo(pending, i - 1, now) + Due(pending[i - 1], now)
  }

  lemma {:induction false} DueUpToIs(pending: seq<Pending>, i: nat, now: int)
    requires i <= |pending|
    ensures DueUpTo(pending, i, now) + DuePackets(pending[i..], now) == DuePackets(pending, now)
  {
    hide Due;
    if i == 0 {
      assert pending[0..] == pending;
    } else {
      DueUpToIs(pending, i - 1, now);
      assert pending[i - 1..][1..] == pending[i..];
    }
  }

  lemma AllDue(pending: seq<Pending>, now: int)
    ensures DueUpTo(pending, 0, now) == [] && DueUpTo(pending, |pending|, now) == DuePackets(pending, now)
  {
    hide Due;
    DueUpToIs(pending, |pending|, now);
    assert pending[|pending|..] == [];
  }

  lemma OneMoreDue(pending: seq<Pending>, i: nat, now: int)
    requires i < |pending|
    ensures DueUpTo(pending, i + 1, now) == DueUpTo(pending, i, now) + Due(pending[i], now)
  {
  }

  function PubackPacket(id: word): seq<byte> {
    [0x40, 0x02] + Word(id)
  }

  /** The acknowledgement that a receiver sends carries the identifier that the publisher used. */
  lemma AckCarriesTheId(topic: seq<byte>, payload: seq<byte>, id: word)
    ensures var r := ParsePublish(PublishPacket(topic, payload, 1, id));
      && r.Some? && r.value.id == Some(id)
      && |PubackPacket(id)| == 4 && PubackPacket(id)[0] / 0x10 == 4 && DecodeLength(PubackPacket(id), 1) == (2, 2)
      && WordAt(PubackPacket(id), 2) == id
  {
    hide PublishPacket, ParsePublish;
    PublishRoundTrip(topic, payload, 1, id);
    WordRoundTrip(PubackPacket(id), 2, id);
  }

  /** The acknowledgement of a pending publish, sent again or not, takes that publish out and nothing else. */
  lemma ExchangeCompletes(es: seq<Event>, i: nat)
    requires ShortSpan(es) && i < |Run(es).pending|
    ensures var p := Run(es).pending[i]; var r := ParsePublish(PublishPacket(p.topic, p.payload, 1, p.id));
      && r.Some? && r.value.id.Some?
      && Run(es + [Puback(WordAt(PubackPacket(r.value.id.value), 2))]) == Run(es).(pending := Without(Run(es).pending, i))
  {
    hide Run, Sources, IdOf, ShortSpan, PublishPacket, ParsePublish, PubackPacket, WordAt;
    var p := Run(es).pending[i];
    AckCarriesTheId(p.topic, p.payload, p.id);
    PendingIdsAreDistinct(es);
    RunStep(es, Puback(p.id));
    var k := IndexOfId(Run(es).pending, p.id);
    assert k == i;
  }

  /** Every entry can be built into a packet again. */
  ghost predicate Sendable(pending: seq<Pending>) {
    forall i :: 0 <= i < |pending| ==>
      |PublishBody(pending[i].topic, pending[i].payload, 1, pending[i].id)| < LENGTH_LIMIT
  }

  lemma NothingOut<T>(s: seq<T>, i: nat)
    requires i >= |s|
    ensures Without(s, i) == s
  {
  }

  /** The list when the walk has come to i. */
  ghost function RetriedUpTo(before: seq<Pending>, i: nat, now: int): (r: seq<Pending>)
    requires i <= |before|
    ensures |r| == |before|
  {
    RetryAll(before[..i], now) + before[i..]
  }

  lemma NoneOrAllRetried(before: seq<Pending>, now: int)
    ensures RetriedUpTo(before, 0, now) == before && RetriedUpTo(before, |before|, now) == RetryAll(before, now)
  {
    assert before[..|before|] == before;
  }

  lemma OneMoreRetried(before: seq<Pending>, i: nat, now: int)
    requires i < |before|
    ensures |RetriedUpTo(before, i, now)| == |before| && RetriedUpTo(before, i, now)[i] == before[i]
    ensures RetriedUpTo(before, i, now)[i := Retried(before[i], now)] == RetriedUpTo(before, i + 1, now)
  {
    hide Retried;
  }

  lemma SendableWithout(pending: seq<Pending>, i: nat)
    requires Sendable(pending)
    ensures Sendable(Without(pending, i))
  {
    hide PublishBody;
  }

  lemma SendableRetried(pending: seq<Pending>, i: nat, now: int)
    requires Sendable(pending) && i < |pending|
    ensures Sendable(pending[i := Retried(pending[i], now)])
  {
    hide PublishBody;
  }

  lemma SameBodyLength(topic: seq<byte>, payload: seq<byte>, qos: byte, id: word)
    ensures |PublishBody(topic, payload, qos, id)| == |PublishBody(topic, payload, qos, 0)|
  {
  }

  lemma IndexFrom(pending: seq<Pending>, i: nat, id: word)
    requires i <= |pending|
    ensures pending[0..] == pending
    ensures IndexOfId(pending[i..], id) ==
      if i == |pending| || pending[i].id == id then 0 else 1 + IndexOfId(pending[i + 1..], id)
  {
    if i < |pending| {
      assert pending[i..][1..] == pending[i + 1..];
    }
  }

  lemma TopicFrom(subs: seq<Subscription>, i: nat, topic: seq<byte>)
    requires i <= |subs|
    ensures subs[0..] == subs
    ensures IndexOfTopic(subs[i..], topic) ==
      if i == |subs| || subs[i].topic == topic then 0 else 1 + IndexOfTopic(subs[i + 1..], topic)
  {
    if i < |subs| {
      assert subs[i..][1..] == subs[i + 1..];
    }
  }

  /** What the first i subscribers get. */
  ghost function DeliveredUpTo(subs: seq<Subscription>, i: nat, topic: seq<byte>, message: seq<byte>): seq<Delivery>
    requires i <= |subs|
  {
    if i == 0 then [] else DeliveredUpTo(subs, i - 1, topic, message) + Delivered(subs[i - 1], topic, message)
  }

  lemma {:induction false} DeliveredUpToIs(subs: seq<Subscription>, i: nat, topic: seq<byte>, message: seq<byte>)
    requires i <= |subs|
    ensures DeliveredUpTo(subs, i, topic, message) + Deliveries(subs[i..], topic, message) == Deliveries(subs, topic, message)
  {
    hide Delivered;
    if i == 0 {
      assert subs[0..] == subs;
    } else {
      DeliveredUpToIs(subs, i - 1, topic, message);
      assert subs[i - 1..][1..] == subs[i..];
    }
  }

  lemma AllDelivered(subs: seq<Subscription>, topic: seq<byte>, message: seq<byte>)
    ensures DeliveredUpTo(subs, 0, topic, message) == []
    ensures DeliveredUpTo(subs, |subs|, topic, message) == Deliveries(subs, topic, message)
  {
    hide Delivered;
    DeliveredUpToIs(subs, |subs|, topic, message);
    assert subs[|subs|..] == [];
  }

  lemma OneMoreDelivered(subs: seq<Subscription>, i: nat, topic: seq<byte>, message: seq<byte>)
    requires i < |subs|
    ensures DeliveredUpTo(subs, i + 1, topic, message) == DeliveredUpTo(subs, i, topic, message) + Delivered(subs[i], topic, message)
  {
  }

  class Client {
    var connected: bool
    var nextPacketId: word
    var pending: Link?<Pending>
    var subscriptions: Link?<Subscription>

    /** The links of both lists, in order. */
    ghost var pendingLinks: seq<Link<Pending>>
    ghost var subscriptionLinks: seq<Link<Subscription>>

    ghost predicate Valid()
      reads `nextPacketId, `pending, `pendingLinks, pendingLinks
    {
      nextPacketId != 0 && Chain(pending, pendingLinks) && Sendable(Values(pendingLinks))
    }

    ghost predicate Subscribed()
      reads `subscriptions, `subscriptionLinks, subscriptionLinks
    {
      Chain(subscriptions, subscriptionLinks)
    }

    ghost function Value(): State
      reads `nextPacketId, `pendingLinks, pendingLinks
    {
      State(nextPacketId, Values(pendingLinks))
    }

    ghost function Subscribers(): seq<Subscription>
      reads `subscriptionLinks, subscriptionLinks
    {
      Values(subscriptionLinks)
    }

    constructor ()
      ensures Valid() && !connected && Value() == Run([])
      ensures Subscribed() && Subscribers() == []
    {
      connected, nextPacketId, pending, subscriptions := false, 1, null, null;
      pendingLinks, subscriptionLinks := [], [];
    }

    /** sent is the answer of the network, now the clock; the packet is what was handed to the network. */
    method Publish(topic: seq<byte>, payload: seq<byte>, qos: byte, sent: bool, now: int)
      returns (ok: bool, packet: Option<seq<byte>>)
      requires Valid() && |PublishBody(topic, payload, qos, 0)| < LENGTH_LIMIT
      modifies `nextPacketId, `pending, `pendingLinks
      ensures Valid()
      ensures !connected ==> !ok && packet == None && Value() == old(Value())
      ensures connected ==>
        && ok == sent && Value() == Step(old(Value()), Event.Publish(topic, payload, qos, sent, now))
        && packet == Some(PublishPacket(topic, payload, qos, if qos == 1 then old(nextPacketId) else 0))
    {
      hide PublishPacket, PublishBody, Chain;
      if !connected {
        return false, None;
      }
      var pid: word := 0;
      if qos == 1 {
        pid := nextPacketId;
        nextPacketId := (nextPacketId + 1) % 0x1_0000;
        if nextPacketId == 0 {
          nextPacketId := 1;
        }
      }
      SameBodyLength(topic, payload, qos, pid);
      var built := BuildPublishPacket(topic, payload, qos, pid);
      packet := Some(built);
      if !sent {
        return false, packet;
      }
      if qos == 1 {
        AddPending(Pending(pid, topic, payload, now));
      }
      ok := true;
    }

    /** The new entry in front of the list. */
    method AddPending(p: Pending)
      requires Chain(pending, pendingLinks)
      modifies `pending, `pendingLinks
      ensures Chain(pending, pendingLinks) && Values(pendingLinks) == [p] + old(Values(pendingLinks))
    {
      var link := new Link(p, pending);
      ChainInFront(link, pendingLinks);
      pending := link;
      pendingLinks := [link] + pendingLinks;
    }

    /** A packet of type 4; one that is too short is dropped. */
    method HandlePuback(data: seq<byte>)
      requires Valid()
      modifies `pending, `pendingLinks, pendingLinks
      ensures Valid()
      ensures Value() == if |data| < 4 then old(Value()) else Step(old(Value()), Puback(WordAt(data, 2)))
    {
      hide Chain, Values, Without, WordAt, Sendable, IndexOfId;
      if |data| < 4 {
        return;
      }
      var ackId := WordAt(data, 2);
      var prev, curr: Link?<Pending> := null, pending;
      ghost var i := 0;
      ghost var before := Values(pendingLinks);
      FirstLink(pending, pendingLinks);
      ValuesLength(pendingLinks);
      IndexFrom(before, 0, ackId);
      while curr != null
        invariant Valid() && pendingLinks == old(pendingLinks) && Values(pendingLinks) == before
        invariant i <= |before| == |pendingLinks| && curr == if i < |before| then pendingLinks[i] else null
        invariant prev == if i > 0 then pendingLinks[i - 1] else null
        invariant IndexOfId(before, ackId) == i + IndexOfId(before[i..], ackId)
        decreases |before| - i
      {
        IndexFrom(before, i, ackId);
        LinkAt(pending, pendingLinks, i);
        ValueAt(pendingLinks, i);
        if curr.value.id == ackId {
          UnlinkPending(prev, curr, i);
          return;
        }
        prev := curr;
        curr := curr.next;
        i := i + 1;
      }
      IndexFrom(before, i, ackId);
      NothingOut(before, i);
    }

    method UnlinkPending(prev: Link?<Pending>, curr: Link<Pending>, ghost i: nat)
      requires Valid() && i < |pendingLinks| && curr == pendingLinks[i]
      requires prev == if i > 0 then pendingLinks[i - 1] else null
      modifies `pending, `pendingLinks, pendingLinks
      ensures Valid() && Values(pendingLinks) == Without(old(Values(pendingLinks)), i)
    {
      hide Without, Sendable;
      SendableWithout(Values(pendingLinks), i);
      if prev != null {
        prev.next := curr.next;
      } else {
        pending := curr.next;
      }
      ChainWithout(pendingLinks, i, pending);
      pendingLinks := Without(pendingLinks, i);
    }

    /** The walk over the list; whether the network takes the packets is not looked at. */
    method RetryPending(now: int) returns (packets: seq<seq<byte>>)
      requires Valid()
      modifies pendingLinks
      ensures Valid() && Value() == Step(old(Value()), Retry(now))
      ensures packets == DuePackets(old(Value().pending), now)
    {
      hide Chain, Due, PublishBody, DuePackets, DueUpTo, Retried, RetryAll, RetriedUpTo, Sendable;
      packets := [];
      var curr := pending;
      ghost var i := 0;
      ghost var before := Values(pendingLinks);
      FirstLink(pending, pendingLinks);
      AllDue(before, now);
      NoneOrAllRetried(before, now);
      while curr != null
        invariant i <= |before| && curr == if i < |before| then pendingLinks[i] else null
        invariant Valid() && Values(pendingLinks) == RetriedUpTo(before, i, now)
        invariant packets == DueUpTo(before, i, now)
        decreases |before| - i
      {
        OneMoreDue(before, i, now);
        LinkAt(pending, pendingLinks, i);
        OneMoreRetried(before, i, now);
        assert pendingLinks[i] in pendingLinks;
        var more := RetryEntry(curr, i, now);
        packets := packets + more;
        curr := curr.next;
        i := i + 1;
      }
    }

    /** One entry of the list: sent again when it has waited for five seconds. */
    method RetryEntry(curr: Link<Pending>, ghost i: nat, now: int) returns (packets: seq<seq<byte>>)
      requires Valid() && i < |pendingLinks| && curr == pendingLinks[i]
      modifies curr`value
      ensures Valid() && Values(pendingLinks) == old(Values(pendingLinks))[i := Retried(old(curr.value), now)]
      ensures packets == Due(old(curr.value), now)
    {
      hide PublishPacket;
      packets := [];
      SendableRetried(Values(pendingLinks), i, now);
      FirstLink(pending, pendingLinks);
      hide PublishBody, Chain;
      if now - curr.value.lastSent >= RETRY_INTERVAL {
        var packet := BuildPublishPacket(curr.value.topic, curr.value.payload, 1, curr.value.id);
        packets := [packet];
        curr.value := curr.value.(lastSent := now);
      }
      ChainWithValue(pendingLinks, i, pending);
      hide Sendable;
    }

    /** A complete packet of type 3: the acknowledgement that goes out, and the callbacks that are made. */
    method HandlePublish(packet: seq<byte>) returns (ack: Option<seq<byte>>, delivered: seq<Delivery>)
      requires IsPublish(packet) && Subscribed()
      ensures match ParsePublish(packet)
        case None => ack == None && delivered == []
        case Some(r) =>
          && ack == (if r.id.Some? then Some(PubackPacket(r.id.value)) else None)
          && delivered == Deliveries(Subscribers(), UpToNul(r.topic), r.payload)
    {
      hide DecodeLength, UpToNul;
      ack, delivered := None, [];
      var length, start := DecodeRemainingLength(packet, 1);
      if start + length != |packet| {
        return;
      }
      var body := packet[start..];
      if |body| < 2 {
        return;
      }
      var topicLength := WordAt(body, 0);
      if topicLength + 2 > |body| {
        return;
      }
      var topic := body[2..topicLength + 2];
      var offset := topicLength + 2;
      if packet[0] / 2 % 4 == 1 {
        if offset + 2 > |body| {
          return;
        }
        offset := offset + 2;
        WordOfBytes(body, offset - 2);
        ack := Some([0x40, 0x02, body[offset - 2], body[offset - 1]]);
        assert ack.value == [0x40, 0x02] + [body[offset - 2], body[offset - 1]];
      }
      delivered := Deliver(UpToNul(topic), body[offset..]);
    }

    method Deliver(topic: seq<byte>, message: seq<byte>) returns (delivered: seq<Delivery>)
      requires Subscribed()
      ensures delivered == Deliveries(Subscribers(), topic, message)
    {
      hide Chain, Deliveries, DeliveredUpTo;
      delivered := [];
      var sub := subscriptions;
      ghost var i := 0;
      ghost var all := Subscribers();
      FirstLink(subscriptions, subscriptionLinks);
      AllDelivered(all, topic, message);
      while sub != null
        invariant i <= |all| && sub == if i < |all| then subscriptionLinks[i] else null
        invariant delivered == DeliveredUpTo(all, i, topic, message)
        decreases |all| - i
      {
        OneMoreDelivered(all, i, topic, message);
        LinkAt(subscriptions, subscriptionLinks, i);
        if sub.value.topic == topic {
          delivered := delivered + [Delivery(sub.value.callback, message)];
        }
        sub := sub.next;
        i := i + 1;
      }
    }

    method AddSubscription(topic: seq<byte>, callback: nat)
      requires Subscribed()
      modifies `subscriptions, `subscriptionLinks
      ensures Subscribed() && Subscribers() == [Subscription(topic, callback)] + old(Subscribers())
    {
      var link := new Link(Subscription(topic, callback), subscriptions);
      ChainInFront(link, subscriptionLinks);
      subscriptions := link;
      subscriptionLinks := [link] + subscriptionLinks;
    }

    method RemoveSubscription(topic: seq<byte>)
      requires Subscribed()
      modifies `subscriptions, `subscriptionLinks, subscriptionLinks
      ensures Subscribed() && Subscribers() == Without(old(Subscribers()), IndexOfTopic(old(Subscribers()), topic))
    {
      hide Chain, Without, IndexOfTopic;
      var prev, curr: Link?<Subscription> := null, subscriptions;
      ghost var i := 0;
      ghost var all := Subscribers();
      FirstLink(subscriptions, subscriptionLinks);
      TopicFrom(all, 0, topic);
      while curr != null
        invariant Subscribed() && subscriptionLinks == old(subscriptionLinks) && Subscribers() == all
        invariant i <= |all| && curr == if i < |all| then subscriptionLinks[i] else null
        invariant prev == if i > 0 then subscriptionLinks[i - 1] else null
        invariant IndexOfTopic(all, topic) == i + IndexOfTopic(all[i..], topic)
        decreases |all| - i
      {
        TopicFrom(all, i, topic);
        LinkAt(subscriptions, subscriptionLinks, i);
        if curr.value.topic == topic {
          UnlinkSubscription(prev, curr, i);
          return;
        }
        prev := curr;
        curr := curr.next;
        i := i + 1;
      }
      TopicFrom(all, i, topic);
      NothingOut(all, i);
    }

    method UnlinkSubscription(prev: Link?<Subscription>, curr: Link<Subscription>, ghost i: nat)
      requires Subscribed() && i < |subscriptionLinks| && curr == subscriptionLinks[i]
      requires prev == if i > 0 then subscriptionLinks[i - 1] else null
      modifies `subscriptions, `subscriptionLinks, subscriptionLinks
      ensures Subscribed() && Subscribers() == Without(old(Subscribers()), i)
    {
      hide Without;
      if prev != null {
        prev.next := curr.next;
      } else {
        subscriptions := curr.next;
      }
      ChainWithout(subscriptionLinks, i, subscriptions);
      subscriptionLinks := Without(subscriptionLinks, i);
    }
  }

  lemma WordOfBytes(d: seq<byte>, i: nat)
    requires i + 2 <= |d|
    ensures Word(WordAt(d, i)) == [d[i], d[i + 1]]
  {
  }
}
