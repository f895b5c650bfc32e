/**
 The 1-wire driver's clean-up of stale controls, wb-homa-w1/main.cpp, against a
 broker that keeps retained messages. Devices are known by their names, which are
 directory entries and so contain no slash.
 */
module OnewireCleanup {
  import opened Common
  import opened Mqtt

  const PREFIX := "/devices/wb-w1/controls/"
  const META_NAME := "/devices/wb-w1/meta/name"
  const RETAINED_HACK := "/tmp/wb-w1/retained_hack"

  /** GetChannelTopic. */
  function Topic(name: string): string {
    PREFIX + name
  }

  function TypeTopic(name: string): string {
    Topic(name) + "/meta/type"
  }

  /** The elements of `first` that do not occur in `second`, in order. */
  function Difference(first: seq<string>, second: seq<string>): seq<string> {
    if first == [] then []
    else (if first[0] in second then [] else [first[0]]) + Difference(first[1..], second)
  }

  lemma {:induction false} DifferenceIff(first: seq<string>, second: seq<string>, x: string)
    ensures x in Difference(first, second) <==> x in first && x !in second
    decreases |first|
  {
    if first != [] {
      DifferenceIff(first[1..], second, x);
    }
  }

  lemma {:induction false} DifferenceSnoc(first: seq<string>, x: string, second: seq<string>)
    ensures Difference(first + [x], second) == Difference(first, second) + (if x in second then [] else [x])
    decreases |first|
  {
    if first == [] {
      assert first + [x] == [x];
    } else {
      assert (first + [x])[1..] == first[1..] + [x];
      DifferenceSnoc(first[1..], x, second);
    }
  }

  method UnorderedVectorDifference(first: seq<string>, second: seq<string>) returns (result: seq<string>)
    ensures result == Difference(first, second)
  {
    result := [];
    for i := 0 to |first|
      invariant result == Difference(first[..i], second)
    {
      var found := false;
      for j := 0 to |second|
        invariant !found && first[i] !in second[..j]
      {
        if first[i] == second[j] {
          found := true;
          break;
        }
      }
      DifferenceSnoc(first[..i], first[i], second);
      assert first[..i + 1] == first[..i] + [first[i]];
      if !found { result := result + [first[i]]; }
    }
    assert first[..|first|] == first;
  }

  /** The directory entries that are thermometers. */
  function OnBus(entries: seq<string>): seq<string> {
    if entries == [] then []
    else (if "28-" <= entries[0] || "10-" <= entries[0] then [entries[0]] else []) + OnBus(entries[1..])
  }

  /** The names of the two thermometer families. */
  predicate IsThermometer(name: string) {
    |name| >= 3 && (name[..3] == "28-" || name[..3] == "10-")
  }

  lemma {:induction false} ThermometerPrefix(name: string)
    ensures "28-" <= name || "10-" <= name <==> IsThermometer(name)
  {
  }

  /** Thermometers are listed as the directory shows them: none is left out, repeated or moved, and nothing else is. */
  lemma {:induction false} OnBusInOrder(entries: seq<string>, last: string)
    ensures OnBus([]) == []
    ensures OnBus(entries + [last]) == OnBus(entries) + (if IsThermometer(last) then [last] else [])
    decreases |entries|
  {
    if entries == [] {
      assert entries + [last] == [last] && [last][1..] == [];
      ThermometerPrefix(last);
    } else {
      var first := if "28-" <= entries[0] || "10-" <= entries[0] then [entries[0]] else [];
      assert (entries + [last])[1..] == entries[1..] + [last];
      OnBusInOrder(entries[1..], last);
      Assoc(first, OnBus(entries[1..]), if IsThermometer(last) then [last] else []);
    }
  }

  lemma {:induction false} OnBusIff(entries: seq<string>, name: string)
    ensures name in OnBus(entries) <==> name in entries && IsThermometer(name)
    decreases |entries|
  {
    if entries != [] { OnBusIff(entries[1..], name); }
  }

  // ----- The driver and the broker on values -----

  datatype State = State(channels: seq<string>, prepareInit: bool, retained: map<string, string>)

  function WithTypes(retained: map<string, string>, names: seq<string>): map<string, string>
    decreases |names|
  {
    if names == [] then retained
    else WithTypes(Publish(retained, TypeTopic(names[0]), "temperature"), names[1..])
  }

  function WithoutControls(retained: map<string, string>, names: seq<string>): map<string, string>
    decreases |names|
  {
    if names == [] then retained
    else WithoutControls(Publish(Publish(retained, TypeTopic(names[0]), ""), Topic(names[0]), ""), names[1..])
  }

  /** RescanBus, for the entries that the directory shows. */
  function Rescanned(s: State, entries: seq<string>): State {
    var current := OnBus(entries);
    State(current, s.prepareInit,
          WithoutControls(WithTypes(s.retained, Difference(current, s.channels)), Difference(s.channels, current)))
  }

  /** OnMessage for the topic of a control. */
  function Told(s: State, name: string): State {
    if name in s.channels then s else s.(channels := s.channels + [name])
  }

  /** OnMessage for the marker. */
  function Marked(s: State): State {
    s.(prepareInit := false, retained := Publish(s.retained, RETAINED_HACK, ""))
  }

  /** UpdateChannelValues: `text` is what each thermometer reads, None when it cannot be read. */
  function Updated(retained: map<string, string>, names: seq<string>,
          text: string -> Option<string>): map<string, string>
    decreases |names|
  {
    if names == [] then retained
    else
      var r := if text(names[0]).Some? then Publish(retained, Topic(names[0]), text(names[0]).value) else retained;
      Updated(r, names[1..], text)
  }

  function Connected(s: State, entries: seq<string>): State {
    var t := s.(retained := Publish(s.retained, META_NAME, "1-wire Thermometers"));
    if s.prepareInit then t else Rescanned(t, entries)
  }

  class TMQTTOnewireHandler {
    var channels: seq<string>
    var prepareInit: bool
    var retained: map<string, string>

    constructor (retained: map<string, string>)
      ensures View() == State([], true, retained)
    {
      channels, prepareInit, this.retained := [], true, retained;
    }

    function View(): State
      reads this
    {
      State(channels, prepareInit, retained)
    }

    method Put(topic: string, payload: string)
      modifies this`retained
      ensures retained == Publish(old(retained), topic, payload)
    {
      retained := if payload == "" then retained - {topic} else retained[topic := payload];
    }

    method RescanBus(entries: seq<string>)
      modifies this`channels, this`retained
      ensures View() == Rescanned(old(View()), entries)
    {
      var current := Thermometers(entries);
      var added := UnorderedVectorDifference(current, channels);
      var absent := UnorderedVectorDifference(channels, current);
      channels := current;
      ghost var goal := WithTypes(retained, added);
      assert added[0..] == added;
      for i := 0 to |added|
        invariant channels == current
        invariant WithTypes(retained, added[i..]) == goal
      {
        assert added[i..][1..] == added[i + 1..];
        Put(Topic(added[i]) + "/meta/type", "temperature");
      }
      assert absent[0..] == absent;
      for i := 0 to |absent|
        invariant channels == current
        invariant WithoutControls(retained, absent[i..]) == WithoutControls(goal, absent)
      {
        assert absent[i..][1..] == absent[i + 1..];
        Put(Topic(absent[i]) + "/meta/type", "");
        Put(Topic(absent[i]), "");
      }
    }

    method Thermometers(entries: seq<string>) returns (found: seq<string>)
      ensures found == OnBus(entries)
    {
      found := [];
      assert entries[0..] == entries;
      for i := 0 to |entries|
        invariant found + OnBus(entries[i..]) == OnBus(entries)
      {
        assert entries[i..][1..] == entries[i + 1..];
        if "28-" <= entries[i] || "10-" <= entries[i] { found := found + [entries[i]]; }
      }
    }

    /** The subscriptions deliver the marker and the controls only. */
    method OnMessage(topic: string)
      requires topic == RETAINED_HACK || PREFIX <= topic
      modifies this
      ensures View() == if topic == RETAINED_HACK then Marked(old(View())) else Told(old(View()), topic[|PREFIX|..])
      ensures topic == RETAINED_HACK ==>
                !prepareInit && channels == old(channels) && retained == old(retained) - {topic}
      ensures topic != RETAINED_HACK ==> prepareInit == old(prepareInit) && retained == old(retained)
      ensures topic != RETAINED_HACK ==>
                var device := topic[|PREFIX|..];
                channels == if device in old(channels) then old(channels) else old(channels) + [device]
    {
      if topic == RETAINED_HACK {
        Put(RETAINED_HACK, "");
        prepareInit := false;
      } else {
        var device := topic[|PREFIX|..];
        for i := 0 to |channels|
          invariant device !in channels[..i]
        {
          if device == channels[i] { return; }
        }
        assert channels[..|channels|] == channels;
        channels := channels + [device];
      }
    }

    method UpdateChannelValues(text: string -> Option<string>)
      modifies this`retained
      ensures View() == old(View()).(retained := Updated(old(retained), old(channels), text))
    {
      assert channels[0..] == channels;
      for i := 0 to |channels|
        invariant channels == old(channels)
        invariant Updated(retained, channels[i..], text) == Updated(old(retained), channels, text)
      {
        assert channels[i..][1..] == channels[i + 1..];
        var result := text(channels[i]);
        if result.Some? { Put(Topic(channels[i]), result.value); }
      }
    }

    method OnConnect(entries: seq<string>)
      modifies this
      ensures View() == Connected(old(View()), entries)
    {
      Put(META_NAME, "1-wire Thermometers");
      if !prepareInit { RescanBus(entries); }
    }
  }

  // ----- What stays true over a whole run -----

  predicate Plain(name: string) {
    '/' !in name
  }

  predicate AllPlain(names: seq<string>) {
    forall i | 0 <= i < |names| :: Plain(names[i])
  }

  /** Every control with a retained value is one of `names`. */
  ghost predicate Covered(names: seq<string>, retained: map<string, string>) {
    forall name | Plain(name) && Topic(name) in retained :: name in names
  }

  /** What the broker sends over the two subscriptions: a message of a control, or the marker. */
  datatype Packet = Control(name: string) | Mark

  /** The driver, and what the broker has queued for it, first in first out. */
  datatype World = World(driver: State, queue: seq<Packet>)

  /**
   Foreign: somebody else publishes a retained message while the driver is not subscribed.
   Live: somebody else publishes a message that is not retained. Arrive: the first queued
   packet arrives. Drop: the connection is lost, and with it the queue. Connect: the broker
   queues what it has stored, in the order `stored`, and the marker that the driver then publishes.
   */
  datatype Event =
    | Foreign(topic: string, payload: string)
    | Live(name: string)
    | Arrive
    | Drop
    | Rescan(entries: seq<string>)
    | Update(text: string -> Option<string>)
    | Connect(stored: seq<string>, entries: seq<string>)

  /** Once the marker is on its way nobody else publishes retained messages; the driver works only after the marker. */
  ghost predicate Enabled(w: World, e: Event) {
    match e
    case Foreign(_, _) => w.driver.prepareInit && Mark !in w.queue
    case Live(name) => Plain(name)
    case Arrive => w.queue != []
    case Drop => true
    case Rescan(entries) => !w.driver.prepareInit && AllPlain(entries)
    case Update(_) => !w.driver.prepareInit
    case Connect(stored, entries) => AllPlain(entries) && AllPlain(stored) && Covered(stored, w.driver.retained)
  }

  function Controls(names: seq<string>): seq<Packet> {
    if names == [] then [] else [Control(names[0])] + Controls(names[1..])
  }

  function Arrived(s: State, p: Packet): State {
    match p
    case Control(name) => Told(s, name)
    case Mark => Marked(s)
  }

  function Next(w: World, e: Event): World {
    match e
    case Foreign(topic, payload) => w.(driver := w.driver.(retained := Publish(w.driver.retained, topic, payload)))
    case Live(name) => w.(queue := w.queue + [Control(name)])
    case Arrive => if w.queue == [] then w else World(Arrived(w.driver, w.queue[0]), w.queue[1..])
    case Drop => w.(queue := [])
    case Rescan(entries) => w.(driver := Rescanned(w.driver, entries))
    case Update(text) => w.(driver := w.driver.(retained := Updated(w.driver.retained, w.driver.channels, text)))
    case Connect(stored, entries) =>
      World(Connected(w.driver, entries), if w.driver.prepareInit then Controls(stored) + [Mark] else [])
  }

  /** The controls that will arrive before the first marker. */
  function Announced(queue: seq<Packet>): seq<string> {
    if queue == [] || queue[0].Mark? then [] else [queue[0].name] + Announced(queue[1..])
  }

  predicate PlainPackets(queue: seq<Packet>) {
    forall i | 0 <= i < |queue| :: queue[i].Control? ==> Plain(queue[i].name)
  }

  /** Every retained control is known, or, as long as a marker is on its way, arrives before it. */
  ghost predicate Inv(w: World) {
    && AllPlain(w.driver.channels) && PlainPackets(w.queue)
    && (if !w.driver.prepareInit then Covered(w.driver.channels, w.driver.retained)
        else Mark in w.queue ==> Covered(w.driver.channels + Announced(w.queue), w.driver.retained))
  }

  lemma {:induction false} PlainPacketsCons(q: seq<Packet>)
    requires q != [] && PlainPackets(q[1..]) && (q[0].Control? ==> Plain(q[0].name))
    ensures PlainPackets(q)
  {
    assert forall i | 1 <= i < |q| :: q[i] == q[1..][i - 1];
  }

  lemma {:induction false} ControlsCons(names: seq<string>, rest: seq<Packet>)
    requires names != []
    ensures var q := Controls(names) + rest;
            q != [] && q[0] == Control(names[0]) && q[1..] == Controls(names[1..]) + rest
  {
    Assoc([Control(names[0])], Controls(names[1..]), rest);
    CutAtConcat([Control(names[0])], Controls(names[1..]) + rest);
  }

  lemma {:induction false} AnnouncedStored(names: seq<string>)
    requires AllPlain(names)
    ensures Announced(Controls(names) + [Mark]) == names && PlainPackets(Controls(names) + [Mark])
    decreases |names|
  {
    if names == [] {
      assert Controls(names) + [Mark] == [Mark];
    } else {
      assert forall i | 0 <= i < |names[1..]| :: names[1..][i] == names[i + 1];
      AnnouncedStored(names[1..]);
      ControlsCons(names, [Mark]);
      PlainPacketsCons(Controls(names) + [Mark]);
      assert Announced(Controls(names) + [Mark]) == [names[0]] + names[1..];
    }
  }

  lemma {:induction false} AnnouncedLive(queue: seq<Packet>, p: Packet)
    requires Mark in queue
    ensures Announced(queue + [p]) == Announced(queue)
    decreases |queue|
  {
    assert (queue + [p])[1..] == queue[1..] + [p];
    if queue[0].Control? {
      AnnouncedLive(queue[1..], p);
    }
  }

  // Topics of different kinds or devices are different.

  lemma {:induction false} TopicsDiffer(name: string, other: string)
    requires Plain(name)
    ensures Topic(name) == Topic(other) <==> name == other
    ensures Topic(name) != TypeTopic(other) && Topic(name) != META_NAME && Topic(name) != RETAINED_HACK
  {
    assert Topic(name)[|PREFIX|..] == name && Topic(other)[|PREFIX|..] == other;
    assert TypeTopic(other)[|PREFIX| + |other|] == '/';
    assert |other| < |name| ==> Topic(name)[|PREFIX| + |other|] == name[|other|];
    assert Topic(name)[15] == 'c' && META_NAME[15] == 'm';
    assert Topic(name)[1] == 'd' && RETAINED_HACK[1] == 't';
  }

  lemma {:induction false} WithTypesKeeps(retained: map<string, string>, names: seq<string>, name: string)
    requires Plain(name)
    ensures Topic(name) in WithTypes(retained, names) <==> Topic(name) in retained
    ensures Topic(name) in retained ==> WithTypes(retained, names)[Topic(name)] == retained[Topic(name)]
    decreases |names|
  {
    if names != [] {
      TopicsDiffer(name, names[0]);
      WithTypesKeeps(Publish(retained, TypeTopic(names[0]), "temperature"), names[1..], name);
    }
  }

  /** Exactly the controls of the given devices lose their values. */
  lemma {:induction false} WithoutControlsKeeps(retained: map<string, string>, names: seq<string>, name: string)
    requires Plain(name)
    ensures Topic(name) in WithoutControls(retained, names) <==> Topic(name) in retained && name !in names
    ensures Topic(name) in WithoutControls(retained, names) ==>
              WithoutControls(retained, names)[Topic(name)] == retained[Topic(name)]
    decreases |names|
  {
    if names != [] {
      TopicsDiffer(name, names[0]);
      var r := Publish(Publish(retained, TypeTopic(names[0]), ""), Topic(names[0]), "");
      WithoutControlsKeeps(r, names[1..], name);
      assert name in names <==> name == names[0] || name in names[1..];
    }
  }

  lemma {:induction false} UpdatedKeeps(retained: map<string, string>, names: seq<string>,
          text: string -> Option<string>,
                                        name: string)
    requires Plain(name) && AllPlain(names) && Topic(name) in Updated(retained, names, text)
    ensures Topic(name) in retained || name in names
    decreases |names|
  {
    if names != [] {
      TopicsDiffer(name, names[0]);
      var r := if text(names[0]).Some? then Publish(retained, Topic(names[0]), text(names[0]).value) else retained;
      UpdatedKeeps(r, names[1..], text, name);
      assert name in names[1..] ==> name in names;
    }
  }

  lemma {:induction false} OnBusPlain(entries: seq<string>)
    requires AllPlain(entries)
    ensures AllPlain(OnBus(entries))
    decreases |entries|
  {
    if entries != [] {
      assert forall i | 0 <= i < |entries[1..]| :: entries[1..][i] == entries[i + 1];
      OnBusPlain(entries[1..]);
    }
  }

  lemma {:induction false} TypeTopicsDiffer(name: string, other: string)
    requires Plain(other)
    ensures TypeTopic(name) == TypeTopic(other) <==> name == other
    ensures TypeTopic(name) != Topic(other)
  {
    TopicsDiffer(other, name);
    var n, m := |TypeTopic(name)| - 10, |TypeTopic(other)| - 10;
    assert TypeTopic(name)[..n] == Topic(name) && TypeTopic(other)[..m] == Topic(other);
  }

  lemma {:induction false} TypesAreSet(retained: map<string, string>, names: seq<string>, name: string)
    requires AllPlain(names)
    ensures TypeTopic(name) in WithTypes(retained, names) <==> TypeTopic(name) in retained || name in names
    ensures name in names ==> WithTypes(retained, names)[TypeTopic(name)] == "temperature"
    decreases |names|
  {
    if names != [] {
      TypeTopicsDiffer(name, names[0]);
      var r := Publish(retained, TypeTopic(names[0]), "temperature");
      TypesAreSet(r, names[1..], name);
      if name == names[0] && name !in names[1..] {
        TypeIsKept(r, names[1..], name);
      }
      assert name in names <==> name == names[0] || name in names[1..];
    }
  }

  lemma {:induction false} TypeIsKept(retained: map<string, string>, names: seq<string>, name: string)
    requires AllPlain(names) && name !in names && TypeTopic(name) in retained
    ensures TypeTopic(name) in WithTypes(retained, names)
    ensures WithTypes(retained, names)[TypeTopic(name)] == retained[TypeTopic(name)]
    decreases |names|
  {
    if names != [] {
      TypeTopicsDiffer(name, names[0]);
      assert name !in names[1..];
      TypeIsKept(Publish(retained, TypeTopic(names[0]), "temperature"), names[1..], name);
    }
  }

  lemma {:induction false} TypesAreCleared(retained: map<string, string>, names: seq<string>, name: string)
    requires AllPlain(names)
    ensures TypeTopic(name) in WithoutControls(retained, names) <==> TypeTopic(name) in retained && name !in names
    ensures TypeTopic(name) in WithoutControls(retained, names) ==>
              WithoutControls(retained, names)[TypeTopic(name)] == retained[TypeTopic(name)]
    decreases |names|
  {
    if names != [] {
      TypeTopicsDiffer(name, names[0]);
      var r := Publish(Publish(retained, TypeTopic(names[0]), ""), Topic(names[0]), "");
      TypesAreCleared(r, names[1..], name);
      assert name in names <==> name == names[0] || name in names[1..];
    }
  }

  lemma {:induction false} DifferencePlain(first: seq<string>, second: seq<string>)
    requires AllPlain(first)
    ensures AllPlain(Difference(first, second))
  {
    var d := Difference(first, second);
    forall i | 0 <= i < |d| ensures Plain(d[i]) {
      DifferenceIff(first, second, d[i]);
      var j :| 0 <= j < |first| && first[j] == d[i];
    }
  }

  /** A rescan announces the type of every thermometer that is new and withdraws that of every absent one. */
  lemma {:induction false} RescanSetsTypes(s: State, entries: seq<string>, name: string)
    requires AllPlain(s.channels) && AllPlain(entries)
    ensures var t := Rescanned(s, entries).retained;
            && (name in OnBus(entries) && name !in s.channels ==>
                  TypeTopic(name) in t && t[TypeTopic(name)] == "temperature")
            && (name in s.channels && name !in OnBus(entries) ==> TypeTopic(name) !in t)
            && ((name in s.channels <==> name in OnBus(entries)) ==>
                  (TypeTopic(name) in t <==> TypeTopic(name) in s.retained))
  {
    var current := OnBus(entries);
    var added, absent := Difference(current, s.channels), Difference(s.channels, current);
    OnBusPlain(entries);
    DifferencePlain(current, s.channels);
    DifferencePlain(s.channels, current);
    DifferenceIff(current, s.channels, name);
    DifferenceIff(s.channels, current, name);
    TypesAreSet(s.retained, added, name);
    TypesAreCleared(WithTypes(s.retained, added), absent, name);
  }

  /** After an update the control of every known thermometer that can be read holds its reading. */
  lemma {:induction false} UpdateShowsReadings(retained: map<string, string>, names: seq<string>,
                                               text: string -> Option<string>, name: string)
    requires AllPlain(names) && name in names && text(name).Some? && text(name).value != ""
    ensures Topic(name) in Updated(retained, names, text)
    ensures Updated(retained, names, text)[Topic(name)] == text(name).value
    decreases |names|
  {
    var r := if text(names[0]).Some? then Publish(retained, Topic(names[0]), text(names[0]).value) else retained;
    if name in names[1..] {
      UpdateShowsReadings(r, names[1..], text, name);
    } else {
      forall n | n in names[1..] ensures Topic(n) != Topic(name) { TopicsDiffer(name, n); }
      UpdateKeepsOthers(r, names[1..], text, Topic(name));
    }
  }

  /** An update changes no other topic: not that of a thermometer that cannot be read, nor any that is unknown. */
  lemma {:induction false} UpdateKeepsOthers(retained: map<string, string>, names: seq<string>,
                                             text: string -> Option<string>, topic: string)
    requires forall n | n in names && Topic(n) == topic :: text(n).None?
    ensures topic in Updated(retained, names, text) <==> topic in retained
    ensures topic in retained ==> Updated(retained, names, text)[topic] == retained[topic]
    decreases |names|
  {
    if names != [] {
      var r := if text(names[0]).Some? then Publish(retained, Topic(names[0]), text(names[0]).value) else retained;
      UpdateKeepsOthers(r, names[1..], text, topic);
    }
  }

  /** After a rescan, the controls with a retained value are those that had one and whose device is on the bus. */
  lemma {:induction false} RescanClearsExactly(s: State, entries: seq<string>, name: string)
    requires Plain(name) && Covered(s.channels, s.retained)
    ensures Topic(name) in Rescanned(s, entries).retained <==> Topic(name) in s.retained && name in OnBus(entries)
    ensures Topic(name) in Rescanned(s, entries).retained ==>
              Rescanned(s, entries).retained[Topic(name)] == s.retained[Topic(name)]
  {
    var current := OnBus(entries);
    WithTypesKeeps(s.retained, Difference(current, s.channels), name);
    WithoutControlsKeeps(WithTypes(s.retained, Difference(current, s.channels)), Difference(s.channels, current), name);
    DifferenceIff(s.channels, current, name);
  }

  lemma {:induction false} RescanCovers(s: State, entries: seq<string>)
    requires Covered(s.channels, s.retained)
    ensures Covered(OnBus(entries), Rescanned(s, entries).retained)
  {
    forall name | Plain(name) && Topic(name) in Rescanned(s, entries).retained ensures name in OnBus(entries) {
      RescanClearsExactly(s, entries, name);
    }
  }

  lemma {:induction false} WithTypesKeepsForeign(retained: map<string, string>, names: seq<string>, topic: string)
    requires !(PREFIX <= topic)
    ensures topic in WithTypes(retained, names) <==> topic in retained
    ensures topic in retained ==> WithTypes(retained, names)[topic] == retained[topic]
    decreases |names|
  {
    if names != [] {
      assert PREFIX <= TypeTopic(names[0]);
      WithTypesKeepsForeign(Publish(retained, TypeTopic(names[0]), "temperature"), names[1..], topic);
    }
  }

  lemma {:induction false} WithoutControlsKeepsForeign(retained: map<string, string>, names: seq<string>, topic: string)
    requires !(PREFIX <= topic)
    ensures topic in WithoutControls(retained, names) <==> topic in retained
    ensures topic in retained ==> WithoutControls(retained, names)[topic] == retained[topic]
    decreases |names|
  {
    if names != [] {
      assert PREFIX <= TypeTopic(names[0]) && PREFIX <= Topic(names[0]);
      var r := Publish(Publish(retained, TypeTopic(names[0]), ""), Topic(names[0]), "");
      WithoutControlsKeepsForeign(r, names[1..], topic);
    }
  }

  /** A rescan changes topics of controls only. */
  lemma {:induction false} RescanKeepsForeign(s: State, entries: seq<string>, topic: string)
    requires !(PREFIX <= topic)
    ensures topic in Rescanned(s, entries).retained <==> topic in s.retained
    ensures topic in s.retained ==> Rescanned(s, entries).retained[topic] == s.retained[topic]
  {
    var current := OnBus(entries);
    var added := Difference(current, s.channels);
    WithTypesKeepsForeign(s.retained, added, topic);
    WithoutControlsKeepsForeign(WithTypes(s.retained, added), Difference(s.channels, current), topic);
  }

  /**
   The first connection publishes the device's name and nothing else. A later one also lists the
   thermometers on the bus, announces the new ones and withdraws those that are gone.
   */
  lemma {:induction false} ConnectDoes(s: State, entries: seq<string>, name: string)
    requires AllPlain(s.channels) && AllPlain(entries) && Covered(s.channels, s.retained) && Plain(name)
    ensures var t := Connected(s, entries);
            && t.prepareInit == s.prepareInit
            && META_NAME in t.retained && t.retained[META_NAME] == "1-wire Thermometers"
            && (s.prepareInit ==> t.channels == s.channels && t.retained - {META_NAME} == s.retained - {META_NAME})
            && (!s.prepareInit ==>
                  && t.channels == OnBus(entries)
                  && (Topic(name) in t.retained <==> Topic(name) in s.retained && name in OnBus(entries))
                  && (name in OnBus(entries) && name !in s.channels ==>
                        TypeTopic(name) in t.retained && t.retained[TypeTopic(name)] == "temperature")
                  && (name in s.channels && name !in OnBus(entries) ==> TypeTopic(name) !in t.retained))
  {
    if !s.prepareInit {
      var t := s.(retained := Publish(s.retained, META_NAME, "1-wire Thermometers"));
      assert META_NAME[15] != PREFIX[15];
      RescanKeepsForeign(t, entries, META_NAME);
      PublishElsewhere(s.channels, s.retained, META_NAME, "1-wire Thermometers");
      RescanClearsExactly(t, entries, name);
      RescanSetsTypes(t, entries, name);
      TopicsDiffer(name, "");
    }
  }

  lemma {:induction false} PublishElsewhere(names: seq<string>, retained: map<string, string>, topic: string,
          payload: string)
    requires Covered(names, retained) && (topic == META_NAME || topic == RETAINED_HACK)
    ensures Covered(names, Publish(retained, topic, payload))
  {
    forall name | Plain(name) && Topic(name) in Publish(retained, topic, payload) ensures name in names {
      TopicsDiffer(name, "");
    }
  }

  lemma {:induction false} ArrivalKeepsInv(w: World)
    requires Inv(w) && w.queue != []
    ensures Inv(Next(w, Arrive))
  {
    var s, p, rest := w.driver, w.queue[0], w.queue[1..];
    assert forall q | q in rest :: q in w.queue;
    match p {
      case Control(name) =>
        if s.prepareInit && Mark in rest {
          var known := Told(s, name).channels + Announced(rest);
          assert forall n | n in s.channels + Announced(w.queue) :: n in known;
        }
      case Mark =>
        if s.prepareInit { assert s.channels + Announced(w.queue) == s.channels; }
        PublishElsewhere(s.channels, s.retained, RETAINED_HACK, "");
    }
  }

  lemma {:induction false} StepKeepsInv(w: World, e: Event)
    requires Inv(w) && Enabled(w, e)
    ensures Inv(Next(w, e))
  {
    var s := w.driver;
    match e {
      case Foreign(_, _) =>
      case Live(name) =>
        if Mark in w.queue { AnnouncedLive(w.queue, Control(name)); }
      case Arrive => ArrivalKeepsInv(w);
      case Drop =>
      case Rescan(entries) =>
        OnBusPlain(entries);
        RescanCovers(s, entries);
      case Update(text) =>
        forall name | Plain(name) && Topic(name) in Updated(s.retained, s.channels, text) ensures name in s.channels {
          UpdatedKeeps(s.retained, s.channels, text, name);
        }
      case Connect(stored, entries) =>
        AnnouncedStored(stored);
        var t := s.(retained := Publish(s.retained, META_NAME, "1-wire Thermometers"));
        PublishElsewhere(stored, s.retained, META_NAME, "1-wire Thermometers");
        if !s.prepareInit {
          PublishElsewhere(s.channels, s.retained, META_NAME, "1-wire Thermometers");
          OnBusPlain(entries);
          RescanCovers(t, entries);
        }
    }
  }

  ghost predicate Possible(w: World, run: seq<Event>)
    decreases |run|
  {
    run == [] || (Enabled(w, run[0]) && Possible(Next(w, run[0]), run[1..]))
  }

  function After(w: World, run: seq<Event>): World
    decreases |run|
  {
    if run == [] then w else After(Next(w, run[0]), run[1..])
  }

  lemma {:induction false} RunKeepsInv(w: World, run: seq<Event>)
    requires Inv(w) && Possible(w, run)
    ensures Inv(After(w, run))
    decreases |run|
  {
    if run != [] {
      StepKeepsInv(w, run[0]);
      RunKeepsInv(Next(w, run[0]), run[1..]);
    }
  }

  // ----- No thermometer is listed twice -----

  predicate Distinct(names: seq<string>) {
    forall i, j | 0 <= i < j < |names| :: names[i] != names[j]
  }

  /** A directory has no two entries of one name. */
  predicate DistinctEntries(e: Event) {
    (e.Rescan? ==> Distinct(e.entries)) && (e.Connect? ==> Distinct(e.entries))
  }

  lemma {:induction false} OnBusDistinct(entries: seq<string>)
    requires Distinct(entries)
    ensures Distinct(OnBus(entries))
    decreases |entries|
  {
    if entries != [] {
      OnBusDistinct(entries[1..]);
      OnBusIff(entries[1..], entries[0]);
    }
  }

  /** In every run Channels holds no name twice, however often a control is announced. */
  lemma {:induction false} ChannelsStayDistinct(w: World, run: seq<Event>)
    requires Distinct(w.driver.channels) && forall i | 0 <= i < |run| :: DistinctEntries(run[i])
    ensures Distinct(After(w, run).driver.channels)
    decreases |run|
  {
    if run != [] {
      var e := run[0];
      if e.Rescan? || e.Connect? { OnBusDistinct(e.entries); }
      assert forall i | 0 <= i < |run[1..]| :: run[1..][i] == run[i + 1];
      ChannelsStayDistinct(Next(w, e), run[1..]);
    }
  }

  function Start(retained: map<string, string>): World {
    World(State([], true, retained), [])
  }

  /** Whatever an earlier run left behind: from the marker on, every control with a retained value is in Channels. */
  lemma {:induction false} StaleControlsAreKnown(retained: map<string, string>, run: seq<Event>)
    requires Possible(Start(retained), run) && !After(Start(retained), run).driver.prepareInit
    ensures var s := After(Start(retained), run).driver; Covered(s.channels, s.retained)
  {
    RunKeepsInv(Start(retained), run);
  }

  /** After every rescan, exactly the devices on the bus among them still have one. */
  lemma {:induction false} RescanLeavesOnlyBusDevices(retained: map<string, string>, run: seq<Event>,
          entries: seq<string>, name: string)
    requires Possible(Start(retained), run) && !After(Start(retained), run).driver.prepareInit && Plain(name)
    ensures var s := After(Start(retained), run).driver;
            var t := Rescanned(s, entries);
            && t.channels == OnBus(entries)
            && (Topic(name) in t.retained <==> Topic(name) in s.retained && name in OnBus(entries))
  {
    StaleControlsAreKnown(retained, run);
    RescanClearsExactly(After(Start(retained), run).driver, entries, name);
  }
}
