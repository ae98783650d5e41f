/** One broker of a cluster: its links to its peers, and what publishing, joining and draining do to them. */
module ClusterNode {

  datatype Message = Message(topic: string, payload: string, qos: int, retain: bool)

  /** What a link's thread sends to the peer's broker. */
  datatype Command = Relay(message: Message) | Subscribe(topic: string) | Announce(name: string)

  /** The connection to a peer: the commands waiting, all commands ever queued, all ever taken from the queue, and how
      many messages this broker had relayed before the link was made. */
  datatype Link = Link(name: string, queue: seq<Command>, queued: seq<Command>, sent: seq<Command>, since: nat)

  /** A broker: its name, whether it joins a cluster at all, its links, and the messages it has relayed. */
  datatype Node = Node(name: string, joins: bool, links: seq<Link>, relayed: seq<Message>)

  const PREFIX := "mosqcluster"
  const MONITOR_TOPIC := "/mosq/cluster/join"

  function Queue(link: Link, command: Command): Link {
    link.(queue := link.queue + [command], queued := link.queued + [command])
  }

  function QueueAll(links: seq<Link>, command: Command): (q: seq<Link>)
    ensures |q| == |links| && forall k | 0 <= k < |links| :: q[k] == Queue(links[k], command)
  {
    seq(|links|, k requires 0 <= k < |links| => Queue(links[k], command))
  }

  /** A command queued for the first n peers. */
  function QueuedTo(links: seq<Link>, command: Command, n: nat): (q: seq<Link>)
    ensures |q| == |links|
  {
    seq(|links|, k requires 0 <= k < |links| => if k < n then Queue(links[k], command) else links[k])
  }

  lemma NoneQueued(links: seq<Link>, command: Command)
    ensures QueuedTo(links, command, 0) == links
  {
  }

  lemma QueueNext(links: seq<Link>, command: Command, n: nat)
    requires n < |links|
    ensures QueuedTo(links, command, n)[n] == links[n]
    ensures QueuedTo(links, command, n)[n := Queue(links[n], command)] == QueuedTo(links, command, n + 1)
  {
    hide Queue;
  }

  lemma QueuedToAll(links: seq<Link>, command: Command)
    ensures QueuedTo(links, command, |links|) == QueueAll(links, command)
  {
    hide Queue;
  }

  /** Whether a broker relays what a client publishes. */
  predicate Relays(node: Node, clientId: string) {
    node.joins && !(PREFIX <= clientId)
  }

  /** ClusterPluginContext::MosqProxyPass. */
  function ProxyPass(node: Node, clientId: string, message: Message): Node {
    if Relays(node, clientId) then
      node.(links := QueueAll(node.links, Relay(message)), relayed := node.relayed + [message])
    else node
  }

  predicate HasPeer(links: seq<Link>, name: string) {
    exists k | 0 <= k < |links| :: links[k].name == name
  }

  /** ClusterPluginContext::MaintainProxyInstances for one name. */
  function Maintain(node: Node, name: string): Node {
    if HasPeer(node.links, name) then node
    else node.(links := node.links + [Link(name, [], [], [], |node.relayed|)])
  }

  /** The same for the nodes the cluster's registry answers with, and for one name heard from a broker: both leave
      out the broker itself. */
  function MaintainAll(node: Node, names: seq<string>): Node
    decreases |names|
  {
    if names == [] then node
    else MaintainAll(Learn(node, names[0]), names[1..])
  }

  function Learn(node: Node, name: string): Node {
    if name == node.name then node else Maintain(node, name)
  }

  /** MosqClusterMonitor::on_connect on link k. */
  function Connected(node: Node, k: nat): Node
    requires k < |node.links|
  {
    var link := Queue(Queue(node.links[k], Subscribe(MONITOR_TOPIC)), Announce(node.name));
    node.(links := node.links[k := link])
  }

  /** One round of MosqClient::PublishLoop on link k that finds a command. */
  function Drain(node: Node, k: nat): Node
    requires k < |node.links| && node.links[k].queue != []
  {
    var link := node.links[k];
    node.(links := node.links[k := link.(queue := link.queue[1..], sent := link.sent + [link.queue[0]])])
  }

  // What every operation keeps

  /** The messages among the commands. */
  function Messages(commands: seq<Command>): seq<Message> {
    if commands == [] then []
    else
      var last := commands[|commands| - 1];
      Messages(commands[..|commands| - 1]) + if last.Relay? then [last.message] else []
  }

  lemma MessagesAppend(commands: seq<Command>, c: Command)
    ensures Messages(commands + [c]) == Messages(commands) + if c.Relay? then [c.message] else []
  {
    assert (commands + [c])[..|commands|] == commands;
  }

  /** What was taken from a link's queue is a prefix of what was put in, and every message relayed since the link was
      made was put in once, in order. */
  ghost predicate LinkInv(link: Link, relayed: seq<Message>) {
    && link.queued == link.sent + link.queue
    && link.since <= |relayed| && Messages(link.queued) == relayed[link.since..]
  }

  /** Links lead to different brokers, and none to the broker itself. */
  ghost predicate NodeInv(node: Node) {
    && (forall j, k | 0 <= j < k < |node.links| :: node.links[j].name != node.links[k].name)
    && (forall k | 0 <= k < |node.links| :: node.links[k].name != node.name)
    && (forall k | 0 <= k < |node.links| :: LinkInv(node.links[k], node.relayed))
  }

  lemma QueueKeeps(link: Link, c: Command, relayed: seq<Message>)
    requires LinkInv(link, relayed)
    ensures c.Relay? ==> LinkInv(Queue(link, c), relayed + [c.message])
    ensures !c.Relay? ==> LinkInv(Queue(link, c), relayed)
  {
    MessagesAppend(link.queued, c);
  }

  lemma ProxyPassKeeps(node: Node, clientId: string, message: Message)
    requires NodeInv(node)
    ensures NodeInv(ProxyPass(node, clientId, message))
  {
    forall k | 0 <= k < |node.links| && Relays(node, clientId)
      ensures LinkInv(ProxyPass(node, clientId, message).links[k], node.relayed + [message])
    {
      QueueKeeps(node.links[k], Relay(message), node.relayed);
    }
  }

  lemma LearnKeeps(node: Node, name: string)
    requires NodeInv(node)
    ensures NodeInv(Learn(node, name))
  {
    assert LinkInv(Link(name, [], [], [], |node.relayed|), node.relayed);
  }

  lemma {:induction false} MaintainAllKeeps(node: Node, names: seq<string>)
    requires NodeInv(node)
    ensures NodeInv(MaintainAll(node, names))
    ensures MaintainAll(node, names).name == node.name && MaintainAll(node, names).relayed == node.relayed
    decreases |names|
  {
    if names != [] {
      LearnKeeps(node, names[0]);
      MaintainAllKeeps(Learn(node, names[0]), names[1..]);
    }
  }

  lemma ConnectedKeeps(node: Node, k: nat)
    requires NodeInv(node) && k < |node.links|
    ensures NodeInv(Connected(node, k))
  {
    QueueKeeps(node.links[k], Subscribe(MONITOR_TOPIC), node.relayed);
    QueueKeeps(Queue(node.links[k], Subscribe(MONITOR_TOPIC)), Announce(node.name), node.relayed);
  }

  lemma DrainKeeps(node: Node, k: nat)
    requires NodeInv(node) && k < |node.links| && node.links[k].queue != []
    ensures NodeInv(Drain(node, k))
  {
    var link := node.links[k];
    assert link.queue == [link.queue[0]] + link.queue[1..];
    assert link.sent + link.queue == (link.sent + [link.queue[0]]) + link.queue[1..];
  }
}
