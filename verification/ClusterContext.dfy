/** The plugin's own data: a linked list of peers, walked to relay a message and extended when a peer is heard of. */
module ClusterContext {
  import opened Wrappers
  import opened ClusterNode

  const ACL_WRITE := 2

  /** A connection to a peer's broker, with its queue of commands. */
  class MosqClient {
    const clientId: string
    var commands: seq<Command>
    ghost var queued: seq<Command>
    ghost var sent: seq<Command>

    constructor (clientId: string)
      ensures this.clientId == clientId && commands == queued == sent == []
    {
      this.clientId, commands, queued, sent := clientId, [], [], [];
    }

    /** MosqClient::Publish and Subscribe. */
    method Push(command: Command)
      modifies this
      ensures commands == old(commands) + [command] && queued == old(queued) + [command] && sent == old(sent)
    {
      commands, queued := commands + [command], queued + [command];
    }

    /** One round of MosqClient::PublishLoop: a connected client takes the first command, if there is one. */
    method PublishOnce(running: bool) returns (command: Option<Command>)
      modifies this
      ensures queued == old(queued)
      ensures if running && old(commands) != []
        then command == Some(old(commands)[0]) && commands == old(commands)[1..]
          && sent == old(sent) + [old(commands)[0]]
        else command == None && commands == old(commands) && sent == old(sent)
    {
      command := None;
      if running && commands != [] {
        command := Some(commands[0]);
        sent := sent + [commands[0]];
        commands := commands[1..];
      }
    }
  }

  class MosqClusterNode {
    const name: string
    const client: MosqClient
    ghost const since: nat
    var next: MosqClusterNode?

    constructor (name: string, client: MosqClient, ghost since: nat)
      ensures this.name == name && this.client == client && this.since == since && next == null
    {
      this.name, this.client, this.since, next := name, client, since, null;
    }

    ghost function Link(): Link
      reads client
    {
      ClusterNode.Link(name, client.commands, client.queued, client.sent, since)
    }
  }

  class ClusterPluginContext {
    const nodeName: string
    const apiJoin: string
    const md5: string -> string
    var clusterNodes: MosqClusterNode?
    ghost var list: seq<MosqClusterNode>
    ghost var relayed: seq<Message>

    constructor (nodeName: string, apiJoin: string, md5: string -> string)
      ensures Valid() && View() == Node(nodeName, apiJoin != "", [], []) && this.md5 == md5
    {
      this.nodeName, this.apiJoin, this.md5 := nodeName, apiJoin, md5;
      clusterNodes, list, relayed := null, [], [];
    }

    ghost function Clients(): set<MosqClient>
      reads this`list
    {
      set k | 0 <= k < |list| :: list[k].client
    }

    /** The list is chained, and no two peers share a connection. */
    ghost predicate Valid()
      reads this, list
    {
      && clusterNodes == (if list == [] then null else list[0])
      && (forall k {:trigger list[k].next} | 0 <= k < |list| ::
          list[k].next == if k == |list| - 1 then null else list[k + 1])
      && (forall j, k | 0 <= j < k < |list| :: list[j] != list[k] && list[j].client != list[k].client)
      && (forall k | 0 <= k < |list| :: list[k].client.clientId == PREFIX + "/" + md5(list[k].name))
    }

    /** The broker as the relay sees it. */
    ghost function View(): (n: Node)
      reads this, Clients()
      ensures |n.links| == |list|
    {
      Node(nodeName, apiJoin != "",
        seq(|list|, k requires 0 <= k < |list| reads this, Clients() => list[k].Link()), relayed)
    }

    /** mosquitto_auth_acl_check: only writing is relayed. */
    method AclCheck(clientId: string, access: int, message: Message)
      requires Valid()
      modifies this`relayed, Clients()
      ensures Valid() && View() ==
        if access == ACL_WRITE then ProxyPass(old(View()), clientId, message) else old(View())
    {
      if access == ACL_WRITE {
        MosqProxyPass(clientId, message);
      }
    }

    method MosqProxyPass(clientId: string, message: Message)
      requires Valid()
      modifies this`relayed, Clients()
      ensures Valid() && View() == ProxyPass(old(View()), clientId, message)
    {
      if apiJoin == "" {
        return;
      }
      if PREFIX <= clientId {
        return;
      }
      ghost var was := View();
      RelayToAll(message);
      relayed := relayed + [message];
    }

    /** The loop of MosqProxyPass. */
    method RelayToAll(message: Message)
      requires Valid()
      modifies Clients()
      ensures View() == old(View()).(links := QueueAll(old(View()).links, Relay(message)))
    {
      hide View, Queue, QueueAll, QueuedTo;
      ghost var i, was := 0, View();
      NoneQueued(was.links, Relay(message));
      var nodeIter := clusterNodes;
      while nodeIter != null
        invariant i <= |list| && nodeIter == if i == |list| then null else list[i]
        invariant View() == was.(links := QueuedTo(was.links, Relay(message), i))
        decreases |list| - i
      {
        PushTo(nodeIter, Relay(message), i);
        QueueNext(was.links, Relay(message), i);
        nodeIter := nodeIter.next;
        i := i + 1;
      }
      QueuedToAll(was.links, Relay(message));
    }

    /** A command for the k-th peer. */
    method PushTo(node: MosqClusterNode, command: Command, ghost k: nat)
      requires Valid() && k < |list| && node == list[k]
      modifies node.client
      ensures View() == old(View()).(links := old(View()).links[k := Queue(old(View()).links[k], command)])
    {
      ghost var was := View();
      node.client.Push(command);
      assert View().links[k] == Queue(was.links[k], command);
      assert forall j | 0 <= j < |list| && j != k :: View().links[j] == was.links[j];
    }

    /** MaintainProxyInstances for one name. */
    method MaintainProxyInstances(name: string)
      requires Valid()
      modifies this`clusterNodes, this`list, list
      ensures Valid() && View() == Maintain(old(View()), name)
      ensures fresh(Clients() - old(Clients())) && forall k | |old(list)| <= k < |list| :: fresh(list[k])
      ensures old(list) <= list
    {
      var found := false;
      ghost var i := 0;
      var nodeIter := clusterNodes;
      while nodeIter != null
        invariant i <= |list| && nodeIter == if i == |list| then null else list[i]
        invariant !found && forall k | 0 <= k < i :: list[k].name != name
        decreases |list| - i
      {
        if nodeIter.name == name {
          found := true;
          break;
        }
        nodeIter := nodeIter.next;
        i := i + 1;
      }
      ghost var was := View();
      assert found ==> was.links[i].name == name;
      if !found {
        assert !HasPeer(was.links, name);
        var client := new MosqClient(PREFIX + "/" + md5(name));
        var node := new MosqClusterNode(name, client, |relayed|);
        Append(node);
        assert View().links == was.links + [Link(name, [], [], [], |relayed|)];
      }
    }

    /** The end of MaintainProxyInstances: the new peer goes to the end of the list. */
    method Append(node: MosqClusterNode)
      requires Valid() && node !in list && node.next == null && node.client !in Clients()
      requires node.client.clientId == PREFIX + "/" + md5(node.name)
      modifies this`clusterNodes, this`list, list
      ensures Valid() && list == old(list) + [node]
    {
      if clusterNodes == null {
        clusterNodes := node;
      } else {
        ghost var i := 0;
        var nodeIter: MosqClusterNode := clusterNodes;
        while nodeIter.next != null
          invariant i < |list| && nodeIter == list[i]
          decreases |list| - i
        {
          nodeIter := nodeIter.next;
          i := i + 1;
        }
        nodeIter.next := node;
      }
      list := list + [node];
    }

    /** MaintainProxyInstances for the names the registry answers with. */
    method MaintainAllInstances(names: seq<string>)
      requires Valid()
      modifies this`clusterNodes, this`list, list
      ensures Valid() && View() == MaintainAll(old(View()), names)
    {
      for i := 0 to |names|
        invariant Valid() && MaintainAll(old(View()), names) == MaintainAll(View(), names[i..])
        invariant forall k | |old(list)| <= k < |list| :: fresh(list[k])
        invariant old(list) <= list
      {
        if nodeName != names[i] {
          MaintainProxyInstances(names[i]);
        }
      }
    }

    /** MosqClusterMonitor::on_message: another broker announces itself. */
    method OnMessage(topic: string, payload: string)
      requires Valid()
      modifies this`clusterNodes, this`list, list
      ensures Valid() && View() == if topic == MONITOR_TOPIC then Learn(old(View()), payload) else old(View())
    {
      if topic == MONITOR_TOPIC {
        if payload != nodeName {
          MaintainProxyInstances(payload);
        }
      }
    }

    /** MosqClusterMonitor::on_connect of the connection to peer k. */
    method OnConnect(ghost k: nat, client: MosqClient, rc: int)
      requires Valid() && k < |list| && list[k].client == client
      modifies client
      ensures Valid() && View() == if rc == 0 then Connected(old(View()), k) else old(View())
    {
      if rc == 0 {
        client.Push(Subscribe(MONITOR_TOPIC));
        client.Push(Announce(nodeName));
      }
    }

    /** A round of PublishLoop on the connection to peer k. */
    method PublishRound(ghost k: nat, client: MosqClient, running: bool) returns (command: Option<Command>)
      requires Valid() && k < |list| && list[k].client == client
      modifies client
      ensures Valid() && match command {
          case None => View() == old(View()) && (running ==> old(View()).links[k].queue == [])
          case Some(c) =>
            && running && old(View()).links[k].queue != [] && c == old(View()).links[k].queue[0]
            && View() == Drain(old(View()), k)
        }
    {
      ghost var was := View();
      command := client.PublishOnce(running);
      assert command.Some? ==> View().links == Drain(was, k).links;
      assert command.None? ==> View().links == was.links;
    }
  }
}
