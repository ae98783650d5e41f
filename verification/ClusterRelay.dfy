/** A cluster of brokers: every broker relays what its own clients publish to all its peers, over one queue and one
    connection per peer. The network may delay, repeat or lose what is sent. */
module ClusterRelay {
  import opened Wrappers
  import opened ClusterNode

  /** A command on its way from one broker to another, under the client id of the sender's connection. */
  datatype Packet = Packet(from: string, to: string, clientId: string, command: Command)

  datatype State = State(nodes: map<string, Node>, network: set<Packet>)

  /** What can happen: a client publishes at a broker; a broker hears of a name, or gets a list of names from the
      registry; link k of a broker connects, or takes a command from its queue and sends it; a packet arrives. */
  datatype Event =
    | Publish(at: string, clientId: string, message: Message)
    | Hear(at: string, name: string)
    | Join(at: string, names: seq<string>)
    | Connect(at: string, k: nat)
    | Send(at: string, k: nat, digest: string)
    | Arrive(packet: Packet)

  function Step(s: State, e: Event): Option<State> {
    match e
    case Publish(at, clientId, message) =>
      if at in s.nodes then Some(s.(nodes := s.nodes[at := ProxyPass(s.nodes[at], clientId, message)])) else None
    case Hear(at, name) =>
      if at in s.nodes then Some(s.(nodes := s.nodes[at := Learn(s.nodes[at], name)])) else None
    case Join(at, names) =>
      if at in s.nodes then Some(s.(nodes := s.nodes[at := MaintainAll(s.nodes[at], names)])) else None
    case Connect(at, k) =>
      if at in s.nodes && k < |s.nodes[at].links| then Some(s.(nodes := s.nodes[at := Connected(s.nodes[at], k)]))
      else None
    case Send(at, k, digest) =>
      if at in s.nodes && k < |s.nodes[at].links| && s.nodes[at].links[k].queue != [] then
        var link := s.nodes[at].links[k];
        Some(State(s.nodes[at := Drain(s.nodes[at], k)],
                   s.network + {Packet(at, link.name, PREFIX + "/" + digest, link.queue[0])}))
      else None
    case Arrive(packet) =>
      if packet in s.network && packet.to in s.nodes then
        Some(s.(nodes := s.nodes[packet.to := Received(s.nodes[packet.to], packet)]))
      else None
  }

  /** What a broker does with a packet: a relayed message and an announcement are published there, so both pass the
      access check that leads to ProxyPass. */
  function Received(node: Node, packet: Packet): Node {
    match packet.command
    case Relay(message) => ProxyPass(node, packet.clientId, message)
    case Announce(name) => ProxyPass(node, packet.clientId, Message(MONITOR_TOPIC, name, 1, false))
    case Subscribe(topic) => node
  }

  function Init(joins: map<string, bool>): State {
    State(map name | name in joins :: Node(name, joins[name], [], []), {})
  }

  function Run(s: State, events: seq<Event>): Option<State> {
    if events == [] then Some(s)
    else
      match Run(s, events[..|events| - 1])
      case None => None
      case Some(before) => Step(before, events[|events| - 1])
  }

  /** A packet was taken from the queue of a link from its sender to its receiver, and travels under the prefix. */
  ghost predicate WasSent(nodes: map<string, Node>, p: Packet) {
    && PREFIX <= p.clientId && p.from in nodes
    && exists k | 0 <= k < |nodes[p.from].links| ::
         nodes[p.from].links[k].name == p.to && p.command in nodes[p.from].links[k].sent
  }

  ghost predicate Inv(s: State) {
    && (forall at | at in s.nodes :: s.nodes[at].name == at && NodeInv(s.nodes[at]))
    && (forall p | p in s.network :: WasSent(s.nodes, p))
  }

  /** A broker changes only in ways that keep its links and what was sent over them. */
  ghost predicate Grows(before: Node, after: Node) {
    && |before.links| <= |after.links|
    && forall k | 0 <= k < |before.links| ::
         before.links[k].name == after.links[k].name && before.links[k].sent <= after.links[k].sent
  }

  lemma {:induction false} MaintainAllGrows(node: Node, names: seq<string>)
    ensures Grows(node, MaintainAll(node, names))
    decreases |names|
  {
    if names != [] {
      MaintainAllGrows(Learn(node, names[0]), names[1..]);
    }
  }

  lemma GrowingKeepsSent(s: State, at: string, after: Node)
    requires Inv(s) && at in s.nodes && Grows(s.nodes[at], after)
    ensures forall p | p in s.network :: WasSent(s.nodes[at := after], p)
  {
    forall p | p in s.network ensures WasSent(s.nodes[at := after], p) {
      var k :| 0 <= k < |s.nodes[p.from].links|
               && s.nodes[p.from].links[k].name == p.to && p.command in s.nodes[p.from].links[k].sent;
      assert s.nodes[at := after][p.from].links[k].name == p.to;
    }
  }

  /** A broker does not relay a packet: its arrival changes nothing. */
  lemma ArrivalChangesNothing(s: State, p: Packet)
    requires Inv(s) && Step(s, Arrive(p)).Some?
    ensures Step(s, Arrive(p)) == Some(s)
  {
    assert WasSent(s.nodes, p);
    assert s.nodes[p.to := s.nodes[p.to]] == s.nodes;
  }

  lemma ReplaceKeeps(s: State, at: string, after: Node)
    requires Inv(s) && at in s.nodes && after.name == at && NodeInv(after) && Grows(s.nodes[at], after)
    ensures Inv(s.(nodes := s.nodes[at := after]))
  {
    hide NodeInv, WasSent, Grows;
    GrowingKeepsSent(s, at, after);
  }

  lemma SendKeeps(s: State, at: string, k: nat, digest: string)
    requires Inv(s) && Step(s, Send(at, k, digest)).Some?
    ensures Inv(Step(s, Send(at, k, digest)).value)
  {
    var node := s.nodes[at];
    var link := node.links[k];
    DrainKeeps(node, k);
    assert Grows(node, Drain(node, k));
    ReplaceKeeps(s, at, Drain(node, k));
    hide NodeInv, Grows;
    var p := Packet(at, link.name, PREFIX + "/" + digest, link.queue[0]);
    assert PREFIX <= PREFIX + "/" + digest;
    assert WasSent(s.nodes[at := Drain(node, k)], p) by {
      assert Drain(node, k).links[k].sent == link.sent + [link.queue[0]];
    }
  }

  lemma StepKeepsInv(s: State, e: Event)
    requires Inv(s) && Step(s, e).Some?
    ensures Inv(Step(s, e).value)
  {
    match e
    case Publish(at, clientId, message) =>
      ProxyPassKeeps(s.nodes[at], clientId, message);
      hide NodeInv, WasSent;
      ReplaceKeeps(s, at, ProxyPass(s.nodes[at], clientId, message));
    case Hear(at, name) =>
      LearnKeeps(s.nodes[at], name);
      hide NodeInv, WasSent;
      ReplaceKeeps(s, at, Learn(s.nodes[at], name));
    case Join(at, names) =>
      MaintainAllKeeps(s.nodes[at], names);
      MaintainAllGrows(s.nodes[at], names);
      hide NodeInv, WasSent, Grows;
      ReplaceKeeps(s, at, MaintainAll(s.nodes[at], names));
    case Connect(at, k) =>
      ConnectedKeeps(s.nodes[at], k);
      hide NodeInv, WasSent;
      ReplaceKeeps(s, at, Connected(s.nodes[at], k));
    case Send(at, k, digest) =>
      hide NodeInv, WasSent;
      SendKeeps(s, at, k, digest);
    case Arrive(packet) =>
      hide NodeInv, WasSent;
      ArrivalChangesNothing(s, packet);
  }

  /** The messages that a broker's own clients published there, in order: those whose ids do not start with the prefix
      of the brokers' connections. */
  function Local(at: string, events: seq<Event>): seq<Message> {
    if events == [] then []
    else
      var e := events[|events| - 1];
      Local(at, events[..|events| - 1]) +
      if e.Publish? && e.at == at && !(PREFIX <= e.clientId) then [e.message] else []
  }

  /** The messages that any client published at a broker, in order. */
  function Published(at: string, events: seq<Event>): seq<Message> {
    if events == [] then []
    else
      var e := events[|events| - 1];
      Published(at, events[..|events| - 1]) + if e.Publish? && e.at == at then [e.message] else []
  }

  /** No client at a broker has an id that starts with the prefix. */
  predicate NoneTakenForBroker(at: string, events: seq<Event>) {
    forall i | 0 <= i < |events| && events[i].Publish? && events[i].at == at :: !(PREFIX <= events[i].clientId)
  }

  lemma {:induction false} LocalIsPublished(at: string, events: seq<Event>)
    ensures |Local(at, events)| <= |Published(at, events)|
    ensures |Local(at, events)| == |Published(at, events)| <==> NoneTakenForBroker(at, events)
    ensures NoneTakenForBroker(at, events) ==> Local(at, events) == Published(at, events)
  {
    if events != [] {
      var before, e := events[..|events| - 1], events[|events| - 1];
      LocalIsPublished(at, before);
      assert events == before + [e];
    }
  }

  lemma {:induction false} RunsKeepInv(joins: map<string, bool>, events: seq<Event>)
    requires Run(Init(joins), events).Some?
    ensures Inv(Run(Init(joins), events).value)
  {
    if events != [] {
      RunsKeepInv(joins, events[..|events| - 1]);
      StepKeepsInv(Run(Init(joins), events[..|events| - 1]).value, events[|events| - 1]);
    }
  }

  /** A broker that joins a cluster relays exactly what its own clients publish; one that does not relays nothing. */
  lemma {:induction false} RelayedIsLocal(joins: map<string, bool>, events: seq<Event>, at: string)
    requires Run(Init(joins), events).Some? && at in joins
    ensures var s := Run(Init(joins), events).value;
      at in s.nodes && s.nodes[at].joins == joins[at]
      && s.nodes[at].relayed == if joins[at] then Local(at, events) else []
  {
    if events != [] {
      var before, e := Run(Init(joins), events[..|events| - 1]).value, events[|events| - 1];
      RelayedIsLocal(joins, events[..|events| - 1], at);
      RunsKeepInv(joins, events[..|events| - 1]);
      hide Run, Inv;
      if e.Join? && e.at == at {
        MaintainAllKeepsRelayed(before.nodes[at], e.names);
      } else if e.Arrive? {
        ArrivalChangesNothing(before, e.packet);
      }
    }
  }

  /** So it relays everything that is published there exactly when no client's id starts with the prefix. */
  lemma RelaysAllPublished(joins: map<string, bool>, events: seq<Event>, at: string)
    requires Run(Init(joins), events).Some? && at in joins && joins[at]
    ensures var s := Run(Init(joins), events).value;
      at in s.nodes && (s.nodes[at].relayed == Published(at, events) <==> NoneTakenForBroker(at, events))
  {
    hide Run, NoneTakenForBroker, Local, Published;
    RelayedIsLocal(joins, events, at);
    LocalIsPublished(at, events);
  }

  /** A message of a client called mosqclusterX is not relayed. */
  lemma TakenForBroker(message: Message)
    ensures var run := Run(Init(map["a" := true]), [Publish("a", PREFIX + "X", message)]);
      run.Some? && "a" in run.value.nodes && run.value.nodes["a"].relayed == []
  {
    var events := [Publish("a", PREFIX + "X", message)];
    assert events[..0] == [] && PREFIX <= PREFIX + "X";
    assert Run(Init(map["a" := true]), events[..0]) == Some(Init(map["a" := true]));
  }

  lemma {:induction false} MaintainAllKeepsRelayed(node: Node, names: seq<string>)
    ensures MaintainAll(node, names).relayed == node.relayed && MaintainAll(node, names).joins == node.joins
    decreases |names|
  {
    if names != [] {
      MaintainAllKeepsRelayed(Learn(node, names[0]), names[1..]);
    }
  }

  /** In every state of every run, for every link of every broker: the links lead to different other brokers, what was
      taken from the queue is a prefix of what was put in, and what was put in are exactly the messages the broker's
      own clients published since the link was made, once each and in order. */
  lemma RelayIsSafe(joins: map<string, bool>, events: seq<Event>, at: string, k: nat)
    requires Run(Init(joins), events).Some? && at in joins && joins[at]
    requires var s := Run(Init(joins), events).value; at in s.nodes && k < |s.nodes[at].links|
    ensures var node := Run(Init(joins), events).value.nodes[at];
      && (forall j | 0 <= j < |node.links| ::
          node.links[j].name != at && (j != k ==> node.links[j].name != node.links[k].name))
      && node.links[k].sent <= node.links[k].queued
      && node.links[k].since <= |Local(at, events)|
      && Messages(node.links[k].queued) == Local(at, events)[node.links[k].since..]
  {
    RunsKeepInv(joins, events);
    RelayedIsLocal(joins, events, at);
    hide Run;
    var node := Run(Init(joins), events).value.nodes[at];
    assert LinkInv(node.links[k], node.relayed);
  }

  lemma {:induction false} MessagesHas(commands: seq<Command>, m: Message)
    requires Relay(m) in commands
    ensures m in Messages(commands)
  {
    var last := commands[|commands| - 1];
    if Relay(m) in commands[..|commands| - 1] {
      MessagesHas(commands[..|commands| - 1], m);
    }
  }

  /** A relayed message on the network was published at its sender, by one of that broker's own clients: it has made
      one hop and will make no other. */
  lemma OneHop(joins: map<string, bool>, events: seq<Event>, p: Packet)
    requires Run(Init(joins), events).Some? && p in Run(Init(joins), events).value.network && p.command.Relay?
    requires p.from in joins
    ensures joins[p.from] && p.command.message in Local(p.from, events)
    ensures PREFIX <= p.clientId && p.from != p.to
  {
    RunsKeepInv(joins, events);
    RelayedIsLocal(joins, events, p.from);
    var s := Run(Init(joins), events).value;
    hide Run;
    assert WasSent(s.nodes, p);
    var node := s.nodes[p.from];
    var k :| 0 <= k < |node.links| && node.links[k].name == p.to && p.command in node.links[k].sent;
    assert LinkInv(node.links[k], node.relayed);
    assert p.command in node.links[k].queued;
    MessagesHas(node.links[k].queued, p.command.message);
    assert p.command.message in node.relayed;
  }
}
