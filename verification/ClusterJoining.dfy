/** What the links of a broker are and carry over any run, told from the events alone: the brokers heard of, and for
    each of them the broker's own publications and, at every connect, a subscription and an announcement. */
module ClusterJoining {
  import opened ClusterNode
  import opened ClusterRelay
  import opened Sequences

  /** All names a broker heard, in order. */
  function Heard(at: string, events: seq<Event>): seq<string> {
    if events == [] then []
    else
      var e := events[|events| - 1];
      Heard(at, events[..|events| - 1]) +
      if e.Hear? && e.at == at then [e.name] else if e.Join? && e.at == at then e.names else []
  }

  /** The names of other brokers, each where it comes first. */
  function Firsts(at: string, names: seq<string>): seq<string> {
    if names == [] then []
    else
      var before, last := names[..|names| - 1], names[|names| - 1];
      Firsts(at, before) + if last == at || last in before then [] else [last]
  }

  /** What an event means for the connection to the k-th peer. */
  function Due(at: string, joining: bool, k: nat, e: Event): seq<Command> {
    if e.Publish? && e.at == at && joining && !("mosqcluster" <= e.clientId) then [Relay(e.message)]
    else if e == Connect(at, k) then [Subscribe("/mosq/cluster/join"), Announce(at)]
    else []
  }

  /** What all events mean for it, once the peer is known. */
  function Owed(at: string, joining: bool, k: nat, events: seq<Event>): seq<Command> {
    if events == [] || |Firsts(at, Heard(at, events[..|events| - 1]))| <= k then []
    else
      Owed(at, joining, k, events[..|events| - 1]) + Due(at, joining, k, events[|events| - 1])
  }

  function Names(links: seq<Link>): (names: seq<string>)
    ensures |names| == |links|
  {
    seq(|links|, k requires 0 <= k < |links| => links[k].name)
  }

  lemma {:induction false} FirstsHas(at: string, names: seq<string>, name: string)
    ensures name in Firsts(at, names) <==> name != at && name in names
  {
    if names != [] {
      FirstsHas(at, names[..|names| - 1], name);
      assert names == names[..|names| - 1] + [names[|names| - 1]];
    }
  }

  lemma FirstsAppend(at: string, names: seq<string>, name: string)
    ensures Firsts(at, names + [name]) == Firsts(at, names) + if name == at || name in names then [] else [name]
  {
    assert (names + [name])[..|names|] == names;
  }

  lemma PeerIsName(links: seq<Link>, name: string)
    ensures HasPeer(links, name) <==> name in Names(links)
  {
    if name in Names(links) {
      var k :| 0 <= k < |links| && Names(links)[k] == name;
      assert links[k].name == name;
    }
    if HasPeer(links, name) {
      var k :| 0 <= k < |links| && links[k].name == name;
      assert Names(links)[k] == name;
    }
  }

  lemma NamesAppend(links: seq<Link>, link: Link)
    ensures Names(links + [link]) == Names(links) + [link.name]
  {
  }

  /** A name that is heard adds a link, or changes nothing. */
  lemma LearnNames(node: Node, heard: seq<string>, name: string)
    requires Names(node.links) == Firsts(node.name, heard)
    ensures Names(Learn(node, name).links) == Firsts(node.name, heard + [name])
  {
    hide Firsts, Names, HasPeer;
    FirstsHas(node.name, heard, name);
    FirstsAppend(node.name, heard, name);
    PeerIsName(node.links, name);
    NamesAppend(node.links, Link(name, [], [], [], |node.relayed|));
    Regroup(Firsts(node.name, heard), [], []);
  }

  lemma {:induction false} MaintainAllNames(node: Node, heard: seq<string>, names: seq<string>)
    requires Names(node.links) == Firsts(node.name, heard)
    ensures Names(MaintainAll(node, names).links) == Firsts(node.name, heard + names)
    decreases |names|
  {
    hide Firsts, Names, Learn;
    if names == [] {
      Regroup(heard, [], []);
    } else {
      LearnNames(node, heard, names[0]);
      LearnKeepsLinks(node, names[0]);
      MaintainAllNames(Learn(node, names[0]), heard + [names[0]], names[1..]);
      Regroup(heard, [names[0]], names[1..]);
      assert [names[0]] + names[1..] == names;
    }
  }

  /** The old links stay as they are, and the new ones have nothing queued. */
  ghost predicate OnlyAdds(before: Node, after: Node) {
    && after.name == before.name && before.links <= after.links
    && forall k | |before.links| <= k < |after.links| :: after.links[k].queued == after.links[k].sent == []
  }

  lemma LearnKeepsLinks(node: Node, name: string)
    ensures OnlyAdds(node, Learn(node, name))
  {
  }

  lemma {:induction false} MaintainAllKeepsLinks(node: Node, names: seq<string>)
    ensures OnlyAdds(node, MaintainAll(node, names))
    decreases |names|
  {
    if names != [] {
      LearnKeepsLinks(node, names[0]);
      MaintainAllKeepsLinks(Learn(node, names[0]), names[1..]);
    }
  }

  /** What of a link's queue an event takes. */
  function Taken(link: Link, at: string, k: nat, e: Event): seq<Command> {
    if e.Send? && e.at == at && e.k == k && link.queue != [] then [link.queue[0]] else []
  }

  /** One event keeps a broker's links and adds some without commands; it queues what is due on the old ones. */
  ghost predicate Follows(before: Node, after: Node, e: Event) {
    && after.name == before.name && |before.links| <= |after.links|
    && (forall k | 0 <= k < |before.links| :: LinkFollows(before, before.links[k], after.links[k], k, e))
    && (forall k | |before.links| <= k < |after.links| :: after.links[k].queued == after.links[k].sent == [])
  }

  ghost predicate LinkFollows(node: Node, link: Link, after: Link, k: nat, e: Event) {
    && after.name == link.name
    && after.queued == link.queued + Due(node.name, node.joins, k, e)
    && after.sent == link.sent + Taken(link, node.name, k, e)
  }

  lemma OnlyAddsFollows(before: Node, after: Node, e: Event)
    requires OnlyAdds(before, after) && (e.Hear? || e.Join?)
    ensures Follows(before, after, e)
  {
    forall k | 0 <= k < |before.links| ensures LinkFollows(before, before.links[k], after.links[k], k, e) {
      assert after.links[k] == before.links[k];
    }
  }

  lemma NothingFollows(node: Node, e: Event)
    requires e.Arrive? || e.at != node.name
    ensures Follows(node, node, e)
  {
  }

  lemma PublishFollows(node: Node, e: Event)
    requires e.Publish? && e.at == node.name
    ensures Follows(node, ProxyPass(node, e.clientId, e.message), e)
  {
  }

  lemma ConnectFollows(node: Node, e: Event)
    requires e.Connect? && e.at == node.name && e.k < |node.links|
    ensures Follows(node, Connected(node, e.k), e)
  {
  }

  lemma SendFollows(node: Node, e: Event)
    requires e.Send? && e.at == node.name && e.k < |node.links| && node.links[e.k].queue != []
    ensures Follows(node, Drain(node, e.k), e)
  {
  }

  lemma StepFollows(s: State, e: Event, at: string)
    requires Inv(s) && Step(s, e).Some? && at in s.nodes
    ensures at in Step(s, e).value.nodes && Follows(s.nodes[at], Step(s, e).value.nodes[at], e)
  {
    hide Follows, Due, ProxyPass, Learn, Connected, Drain, MaintainAll;
    var node := s.nodes[at];
    assert node.name == at;
    match e
    case Arrive(packet) =>
      ArrivalChangesNothing(s, packet);
      NothingFollows(node, e);
    case Publish(a, clientId, message) =>
      if a == at { PublishFollows(node, e); } else { NothingFollows(node, e); }
    case Hear(a, name) =>
      LearnKeepsLinks(node, name);
      if a == at { OnlyAddsFollows(node, Learn(node, name), e); } else { NothingFollows(node, e); }
    case Join(a, names) =>
      MaintainAllKeepsLinks(node, names);
      if a == at { OnlyAddsFollows(node, MaintainAll(node, names), e); } else { NothingFollows(node, e); }
    case Connect(a, k) =>
      if a == at { ConnectFollows(node, e); } else { NothingFollows(node, e); }
    case Send(a, k, digest) =>
      if a == at { SendFollows(node, e); } else { NothingFollows(node, e); }
  }

  // Runs

  lemma StepNames(s: State, e: Event, at: string, heard: seq<string>)
    requires Inv(s) && Step(s, e).Some? && at in s.nodes && Names(s.nodes[at].links) == Firsts(at, heard)
    ensures at in Step(s, e).value.nodes
    ensures Names(Step(s, e).value.nodes[at].links) ==
      Firsts(at, heard + if e.Hear? && e.at == at then [e.name] else if e.Join? && e.at == at then e.names else [])
  {
    StepFollows(s, e, at);
    assert s.nodes[at].name == at;
    if e.Hear? && e.at == at {
      LearnNames(s.nodes[at], heard, e.name);
    } else if e.Join? && e.at == at {
      MaintainAllNames(s.nodes[at], heard, e.names);
    } else {
      Regroup(heard, [], []);
      if e.Arrive? {
        ArrivalChangesNothing(s, e.packet);
      }
    }
  }

  /** The links of a broker lead to the brokers it has heard of, in the order in which it first did. */
  lemma {:induction false} LinksAreKnown(joins: map<string, bool>, events: seq<Event>, at: string)
    requires Run(Init(joins), events).Some? && at in joins
    ensures var s := Run(Init(joins), events).value;
      && at in s.nodes && s.nodes[at].name == at && s.nodes[at].joins == joins[at]
      && Names(s.nodes[at].links) == Firsts(at, Heard(at, events))
  {
    RunsKeepInv(joins, events);
    RelayedIsLocal(joins, events, at);
    if events != [] {
      var before, e := events[..|events| - 1], events[|events| - 1];
      LinksAreKnown(joins, before, at);
      RunsKeepInv(joins, before);
      StepNames(Run(Init(joins), before).value, e, at, Heard(at, before));
    }
  }

  /** What was ever queued on a link is what the events mean for it. */
  lemma {:induction false} QueuedIsOwed(joins: map<string, bool>, events: seq<Event>, at: string, k: nat)
    requires Run(Init(joins), events).Some? && at in joins
    ensures var s := Run(Init(joins), events).value;
      && at in s.nodes && |s.nodes[at].links| == |Firsts(at, Heard(at, events))|
      && (k < |s.nodes[at].links| ==> s.nodes[at].links[k].queued == Owed(at, joins[at], k, events))
  {
    LinksAreKnown(joins, events, at);
    if events != [] {
      var before, e := events[..|events| - 1], events[|events| - 1];
      var s := Run(Init(joins), before).value;
      LinksAreKnown(joins, before, at);
      RunsKeepInv(joins, before);
      QueuedIsOwed(joins, before, at, k);
      StepFollows(s, e, at);
      hide Firsts, Heard, Due, Inv, Step;
      assert k < |s.nodes[at].links| ==> LinkFollows(s.nodes[at], s.nodes[at].links[k],
        Run(Init(joins), events).value.nodes[at].links[k], k, e);
    }
  }

  /** The commands that are no relayed messages. */
  function Controls(commands: seq<Command>): seq<Command> {
    if commands == [] then []
    else
      var last := commands[|commands| - 1];
      Controls(commands[..|commands| - 1]) + if last.Relay? then [] else [last]
  }

  /** How often a link connected. */
  function Connects(at: string, k: nat, events: seq<Event>): nat {
    if events == [] then 0
    else Connects(at, k, events[..|events| - 1]) + if events[|events| - 1] == Connect(at, k) then 1 else 0
  }

  /** A subscription and an announcement, n times. */
  function Greetings(at: string, n: nat): (c: seq<Command>)
    ensures |c| == 2 * n
  {
    if n == 0 then [] else Greetings(at, n - 1) + [Subscribe("/mosq/cluster/join"), Announce(at)]
  }

  lemma {:induction false} ControlsOfSum(a: seq<Command>, b: seq<Command>)
    ensures Controls(a + b) == Controls(a) + Controls(b)
  {
    if b == [] {
      Regroup(a, [], []);
      Regroup(Controls(a), [], []);
    } else {
      var front, last := b[..|b| - 1], b[|b| - 1];
      ControlsOfSum(a, front);
      assert (a + b)[..|a + b| - 1] == a + front && (a + b)[|a + b| - 1] == last;
      Regroup(Controls(a), Controls(front), if last.Relay? then [] else [last]);
    }
  }

  lemma ControlsOfOne(c: Command)
    ensures Controls([c]) == if c.Relay? then [] else [c]
  {
    assert [c][..0] == [];
  }

  lemma ControlsOfDue(at: string, joining: bool, k: nat, e: Event)
    ensures Controls(Due(at, joining, k, e)) ==
      if e == Connect(at, k) then [Subscribe("/mosq/cluster/join"), Announce(at)] else []
  {
    var subscribe, announce := Subscribe("/mosq/cluster/join"), Announce(at);
    if e == Connect(at, k) {
      ControlsOfSum([subscribe], [announce]);
      ControlsOfOne(subscribe);
      ControlsOfOne(announce);
      assert Due(at, joining, k, e) == [subscribe] + [announce];
    } else if e.Publish? {
      ControlsOfOne(Relay(e.message));
    }
  }

  lemma {:induction false} ControlsHas(commands: seq<Command>, c: Command)
    requires c in Controls(commands)
    ensures c in commands
  {
    if c in Controls(commands[..|commands| - 1]) {
      ControlsHas(commands[..|commands| - 1], c);
    }
  }

  lemma {:induction false} GreetingStart(at: string, n: nat)
    requires n > 0
    ensures Greetings(at, n)[0] == Subscribe("/mosq/cluster/join") && Greetings(at, n)[1] == Announce(at)
  {
    if n > 1 {
      GreetingStart(at, n - 1);
    }
  }

  /** The names heard do not shrink, and a link connects only when it is there. */
  lemma KnownBefore(joins: map<string, bool>, events: seq<Event>, at: string, k: nat)
    requires Run(Init(joins), events).Some? && at in joins && events != []
    requires |Firsts(at, Heard(at, events[..|events| - 1]))| <= k
    ensures Owed(at, joins[at], k, events[..|events| - 1]) == [] && events[|events| - 1] != Connect(at, k)
  {
    var before := events[..|events| - 1];
    LinksAreKnown(joins, before, at);
    if before != [] {
      LinksAreKnown(joins, before[..|before| - 1], at);
      RunsKeepInv(joins, before[..|before| - 1]);
      StepFollows(Run(Init(joins), before[..|before| - 1]).value, before[|before| - 1], at);
      hide Inv, Firsts, Heard;
    }
  }

  /** What is due beside the relayed messages: one greeting for every connect. */
  lemma {:induction false} ControlsOfOwed(joins: map<string, bool>, events: seq<Event>, at: string, k: nat)
    requires Run(Init(joins), events).Some? && at in joins
    ensures Controls(Owed(at, joins[at], k, events)) == Greetings(at, Connects(at, k, events))
  {
    hide Run, Firsts, Heard, Due, Controls;
    if events == [] {
      ControlsOfNone();
    } else {
      var before, e := events[..|events| - 1], events[|events| - 1];
      RunBefore(joins, events);
      ControlsOfOwed(joins, before, at, k);
      if |Firsts(at, Heard(at, before))| <= k {
        KnownBefore(joins, events, at, k);
      } else {
        ControlsOfSum(Owed(at, joins[at], k, before), Due(at, joins[at], k, e));
        ControlsOfDue(at, joins[at], k, e);
        Regroup(Controls(Owed(at, joins[at], k, before)), [], []);
      }
    }
  }

  lemma ControlsOfNone()
    ensures Controls([]) == []
  {
  }

  lemma RunBefore(joins: map<string, bool>, events: seq<Event>)
    requires Run(Init(joins), events).Some? && events != []
    ensures Run(Init(joins), events[..|events| - 1]).Some?
  {
  }

  /** A command is on its way, or has arrived, under a client id of the brokers' connections. */
  ghost predicate Travels(s: State, from: string, to: string, command: Command) {
    exists p | p in s.network ::
      p.from == from && p.to == to && p.command == command && "mosqcluster/" <= p.clientId
  }

  lemma {:induction false} SentTravels(joins: map<string, bool>, events: seq<Event>, at: string, k: nat, i: nat)
    requires Run(Init(joins), events).Some? && at in joins
    requires var s := Run(Init(joins), events).value;
      at in s.nodes && k < |s.nodes[at].links| && i < |s.nodes[at].links[k].sent|
    ensures var s := Run(Init(joins), events).value;
      Travels(s, at, s.nodes[at].links[k].name, s.nodes[at].links[k].sent[i])
  {
    if events != [] {
      var before, e := events[..|events| - 1], events[|events| - 1];
      var s, t := Run(Init(joins), before).value, Run(Init(joins), events).value;
      LinksAreKnown(joins, before, at);
      RunsKeepInv(joins, before);
      StepFollows(s, e, at);
      var node, link := s.nodes[at], t.nodes[at].links[k];
      hide Inv, Firsts, Heard, Run;
      assert k < |node.links| ==> LinkFollows(node, node.links[k], link, k, e);
      if i < |node.links[k].sent| {
        SentTravels(joins, before, at, k, i);
        NetworkGrows(s, e);
      } else {
        SendTravels(s, e, at, k);
      }
    }
  }

  lemma NetworkGrows(s: State, e: Event)
    requires Step(s, e).Some?
    ensures s.network <= Step(s, e).value.network
  {
  }

  lemma SendTravels(s: State, e: Event, at: string, k: nat)
    requires Step(s, e).Some? && at in s.nodes && k < |s.nodes[at].links|
    requires Taken(s.nodes[at].links[k], at, k, e) != []
    ensures Travels(Step(s, e).value, at, s.nodes[at].links[k].name, s.nodes[at].links[k].queue[0])
  {
    var link := s.nodes[at].links[k];
    var p := Packet(at, link.name, PREFIX + "/" + e.digest, link.queue[0]);
    assert p.clientId == "mosqcluster/" + e.digest;
    assert p in Step(s, e).value.network;
  }

  /** Beside relayed messages, a link carries a subscription to the topic of the cluster and an announcement of the
      broker for every time it connected, in this order. What was taken from its queue is on the network: so is a
      subscription as soon as the first of these commands was taken, and an announcement with the second. */
  lemma GreetsPeers(joins: map<string, bool>, events: seq<Event>, at: string, k: nat)
    requires Run(Init(joins), events).Some? && at in joins
    requires var s := Run(Init(joins), events).value; at in s.nodes && k < |s.nodes[at].links|
    ensures var s := Run(Init(joins), events).value;
      var link := s.nodes[at].links[k];
      && link.queued == link.sent + link.queue
      && Controls(link.queued) == Greetings(at, Connects(at, k, events))
      && (forall i | 0 <= i < |link.sent| :: Travels(s, at, link.name, link.sent[i]))
      && (|Controls(link.sent)| > 0 ==> Travels(s, at, link.name, Subscribe("/mosq/cluster/join")))
      && (|Controls(link.sent)| > 1 ==> Travels(s, at, link.name, Announce(at)))
  {
    QueuedIsOwed(joins, events, at, k);
    ControlsOfOwed(joins, events, at, k);
    RunsKeepInv(joins, events);
    var s := Run(Init(joins), events).value;
    var link, n := s.nodes[at].links[k], Connects(at, k, events);
    assert LinkInv(link, s.nodes[at].relayed);
    forall i | 0 <= i < |link.sent| ensures Travels(s, at, link.name, link.sent[i]) {
      SentTravels(joins, events, at, k, i);
    }
    ControlsOfSum(link.sent, link.queue);
    hide *;
    if |Controls(link.sent)| > 0 {
      GreetingStart(at, n);
      assert Controls(link.sent)[0] == Greetings(at, n)[0];
      ControlsHas(link.sent, Subscribe("/mosq/cluster/join"));
    }
    if |Controls(link.sent)| > 1 {
      assert Controls(link.sent)[1] == Greetings(at, n)[1];
      ControlsHas(link.sent, Announce(at));
    }
  }
}
