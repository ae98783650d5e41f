/** The server's table of connections: a sparse array of clients with a counter of those in it. */
module ConnectionTable {

  /** A connection: its socket, which the handler knows as well, the loop's hold on it, its slot, and when it last read
      and started to close. */
  class Client {
    const socket: int
    var fd: int
    var index: nat
    var readTimestamp: int
    var readTimeout: int
    var writeTimestamp: int
    var writeTimeout: int

    constructor (fd: int, now: int, readLimit: int)
      ensures socket == this.fd == fd && readTimestamp == now && readTimeout == now + readLimit
      ensures writeTimestamp == writeTimeout == -1
    {
      socket, this.fd, index := fd, fd, 0;
      readTimestamp, readTimeout, writeTimestamp, writeTimeout := now, now + readLimit, -1, -1;
    }

    predicate Expired(now: int)
      reads this
    {
      (readTimestamp > 0 && now > readTimeout) || (writeTimestamp > 0 && now > writeTimeout)
    }
  }

  /** The number of slots in use. */
  function Count(slots: seq<Client?>): (n: nat)
    ensures n <= |slots|
  {
    if slots == [] then 0 else Count(slots[..|slots| - 1]) + if slots[|slots| - 1] == null then 0 else 1
  }

  lemma {:induction false} CountUpdate(slots: seq<Client?>, i: nat, c: Client?)
    requires i < |slots|
    ensures Count(slots[i := c]) == Count(slots) - (if slots[i] == null then 0 else 1) + (if c == null then 0 else 1)
  {
    var n := |slots| - 1;
    if i < n {
      CountUpdate(slots[..n], i, c);
      assert slots[i := c][..n] == slots[..n][i := c];
    } else {
      assert slots[i := c][..n] == slots[..n];
    }
  }

  /** With its first n slots in use, a table counts n at least. */
  lemma {:induction false} FullBelow(slots: seq<Client?>, n: nat)
    requires n <= |slots| && forall i | 0 <= i < n :: slots[i] != null
    ensures Count(slots) >= n
  {
    if slots != [] {
      var last := |slots| - 1;
      FullBelow(slots[..last], if n <= last then n else last);
    }
  }

  lemma {:induction false} NoneCounted(slots: seq<Client?>)
    requires forall i | 0 <= i < |slots| :: slots[i] == null
    ensures Count(slots) == 0
  {
    if slots != [] {
      NoneCounted(slots[..|slots| - 1]);
    }
  }

  /** The sockets of the clients in some slots. */
  ghost function Sockets(slots: seq<Client?>): multiset<int> {
    if slots == [] then multiset{} else Sockets(slots[..|slots| - 1]) + SocketOf(slots[|slots| - 1])
  }

  ghost function SocketOf(client: Client?): multiset<int> {
    if client == null then multiset{} else multiset{client.socket}
  }

  lemma {:induction false} SocketsUpdate(slots: seq<Client?>, i: nat, c: Client?)
    requires i < |slots|
    ensures Sockets(slots[i := c]) + SocketOf(slots[i]) == Sockets(slots) + SocketOf(c)
  {
    hide SocketOf;
    var n := |slots| - 1;
    if i < n {
      SocketsUpdate(slots[..n], i, c);
      assert slots[i := c][..n] == slots[..n][i := c];
      AddSame(Sockets(slots[..n][i := c]), SocketOf(slots[i]), Sockets(slots[..n]), SocketOf(c), SocketOf(slots[n]));
    } else {
      assert slots[i := c][..n] == slots[..n];
      Swap(Sockets(slots[..n]), SocketOf(c), SocketOf(slots[n]));
    }
  }

  /** The same for a slot that becomes free, or was. */
  lemma SocketTakenOut(slots: seq<Client?>, i: nat)
    requires i < |slots| && slots[i] != null
    ensures Sockets(slots[i := null]) + multiset{slots[i].socket} == Sockets(slots)
  {
    SocketsUpdate(slots, i, null);
    assert Sockets(slots) + multiset{} == Sockets(slots);
  }

  lemma SocketPutIn(slots: seq<Client?>, i: nat, c: Client)
    requires i < |slots| && slots[i] == null
    ensures Sockets(slots[i := c]) == Sockets(slots) + multiset{c.socket}
  {
    SocketsUpdate(slots, i, c);
    assert Sockets(slots[i := c]) + multiset{} == Sockets(slots[i := c]);
  }

  lemma AddSame(a: multiset<int>, b: multiset<int>, c: multiset<int>, d: multiset<int>, e: multiset<int>)
    requires a + b == c + d
    ensures (a + e) + b == (c + e) + d
  {
    assert forall x :: ((a + e) + b)[x] == (a + b)[x] + e[x] == (c + d)[x] + e[x] == ((c + e) + d)[x];
  }

  lemma Swap(a: multiset<int>, b: multiset<int>, c: multiset<int>)
    ensures (a + b) + c == (a + c) + b
  {
  }

  /** Every socket accepted is in the table, closed or handed over, once for each time it was accepted. */
  ghost predicate Balance(accepted: seq<int>, table: multiset<int>, closed: seq<int>, handedOver: seq<int>) {
    multiset(accepted) == table + multiset(closed) + multiset(handedOver)
  }

  lemma NothingYet(table: multiset<int>)
    requires table == multiset{}
    ensures Balance([], table, [], [])
  {
  }

  lemma ComesIn(accepted: seq<int>, table: multiset<int>, closed: seq<int>, handedOver: seq<int>, x: int)
    requires Balance(accepted, table, closed, handedOver)
    ensures Balance(accepted + [x], table + multiset{x}, closed, handedOver)
    ensures Balance(accepted + [x], table, closed + [x], handedOver)
  {
  }

  lemma GoesOut(accepted: seq<int>, table: multiset<int>, rest: multiset<int>, closed: seq<int>,
    handedOver: seq<int>, x: int)
    requires Balance(accepted, table, closed, handedOver) && rest + multiset{x} == table
    ensures Balance(accepted, rest, closed + [x], handedOver)
    ensures Balance(accepted, rest, closed, handedOver + [x])
  {
  }

  lemma {:induction false} NoSockets(slots: seq<Client?>)
    requires forall i | 0 <= i < |slots| :: slots[i] == null
    ensures Sockets(slots) == multiset{}
  {
    if slots != [] {
      NoSockets(slots[..|slots| - 1]);
    }
  }

  /** The sockets of the clients in some slots that were accepted or read last at a positive time more than the limit
      ago, in the order of the slots. */
  function LateSockets(slots: seq<Client?>, now: int, limit: int): seq<int>
    reads slots
  {
    if slots == [] then []
    else
      var last := slots[|slots| - 1];
      LateSockets(slots[..|slots| - 1], now, limit) +
      if last != null && last.readTimestamp > 0 && now > last.readTimestamp + limit then [last.socket] else []
  }

  lemma NoSlots(now: int, limit: int)
    ensures LateSockets([], now, limit) == []
  {
  }

  lemma OneSlotMore(slots: seq<Client?>, i: nat, now: int, limit: int)
    requires i < |slots|
    ensures LateSockets(slots[..i + 1], now, limit) == LateSockets(slots[..i], now, limit) +
      if slots[i] != null && slots[i].readTimestamp > 0 && now > slots[i].readTimestamp + limit
      then [slots[i].socket] else []
  {
    assert slots[..i + 1][..i] == slots[..i];
  }

  /** The blocks of an event with which the handler takes the socket. */
  function HandOvers(kept: seq<bool>): nat {
    if kept == [] then 0 else HandOvers(kept[..|kept| - 1]) + if kept[|kept| - 1] then 0 else 1
  }

  lemma {:induction false} HandOversAre(kept: seq<bool>)
    ensures HandOvers(kept) == 0 <==> false !in kept
  {
    if kept != [] {
      HandOversAre(kept[..|kept| - 1]);
      assert kept == kept[..|kept| - 1] + [kept[|kept| - 1]];
    }
  }

  lemma NoHandOver()
    ensures HandOvers([]) == 0
  {
  }

  lemma OneMore(kept: seq<bool>, last: bool)
    ensures HandOvers(kept + [last]) == HandOvers(kept) + if last then 0 else 1
  {
    assert (kept + [last])[..|kept|] == kept;
  }

  function Copies(socket: int, n: nat): seq<int> {
    seq(n, _ => socket)
  }

  lemma CopiesOf(socket: int)
    ensures Copies(socket, 0) == [] && Copies(socket, 1) == [socket]
  {
  }

  lemma OneCopyMore(a: seq<int>, socket: int, n: nat)
    ensures a + Copies(socket, n) + [socket] == a + Copies(socket, n + 1)
  {
    assert Copies(socket, n) + [socket] == Copies(socket, n + 1);
  }

  class Table {
    const queue: array<Client?>
    const readLimit: int
    const writeLimit: int
    var acceptSize: nat
    /** The sockets accepted so far, those the loop closed, those the handler took for a worker, and those it took once
        more after that. */
    ghost var accepted: seq<int>
    ghost var closed: seq<int>
    ghost var handedOver: seq<int>
    ghost var handedAgain: seq<int>

    constructor (maxAcceptSize: nat, readLimit: int, writeLimit: int)
      ensures Valid() && acceptSize == 0 && accepted == closed == handedOver == handedAgain == []
      ensures queue.Length == maxAcceptSize && fresh(queue)
      ensures this.readLimit == readLimit && this.writeLimit == writeLimit
    {
      this.readLimit, this.writeLimit, acceptSize := readLimit, writeLimit, 0;
      accepted, closed, handedOver, handedAgain := [], [], [], [];
      queue := new Client?[maxAcceptSize](_ => null);
      new;
      NoneCounted(queue[..]);
      NoSockets(queue[..]);
      NothingYet(Sockets(queue[..]));
    }

    /** Every client knows its slot. */
    ghost predicate Indexed()
      reads queue, queue[..]
    {
      forall i | 0 <= i < queue.Length && queue[i] != null :: queue[i].index == i
    }

    /** The counter counts the clients. */
    ghost predicate Counted()
      reads this, queue, queue[..]
    {
      Indexed() && acceptSize == Count(queue[..])
    }

    /** Every client in the table has its socket, its read limit, and no write limit. */
    ghost predicate Connected()
      reads queue, queue[..]
    {
      forall i | 0 <= i < queue.Length && queue[i] != null ::
        && queue[i].fd == queue[i].socket > 0 && queue[i].writeTimestamp == -1
        && queue[i].readTimeout == queue[i].readTimestamp + readLimit
    }

    ghost predicate Balanced()
      reads this, queue
    {
      Balance(accepted, Sockets(queue[..]), closed, handedOver)
    }

    ghost predicate Valid()
      reads this, queue, queue[..]
    {
      Counted() && Connected() && Balanced()
    }

    /** So a socket that was accepted once is in exactly one place: the loop drops none, closes none twice, and closes
        none that it handed over. */
    lemma OnePlace(socket: int)
      requires Balanced() && multiset(accepted)[socket] == 1
      ensures Sockets(queue[..])[socket] + multiset(closed)[socket] + multiset(handedOver)[socket] == 1
    {
    }

    /** Accepting a connection: refused and closed when the table is full, otherwise put into the first free slot,
        which is among the first acceptSize + 1. */
    method Accept(fd: int, now: int) returns (client: Client?)
      requires Valid() && fd > 0
      modifies this, queue
      ensures Valid() && accepted == old(accepted) + [fd]
      ensures handedOver == old(handedOver) && handedAgain == old(handedAgain)
      ensures client == null <==> old(acceptSize) == queue.Length
      ensures client == null ==>
        queue[..] == old(queue[..]) && acceptSize == old(acceptSize) && closed == old(closed) + [fd]
      ensures client != null ==>
        && closed == old(closed)
        && fresh(client) && client.fd == fd && client.readTimestamp == now && client.readTimeout == now + readLimit
        && acceptSize == old(acceptSize) + 1 && client.index <= old(acceptSize)
        && old(queue[..])[..client.index] == queue[..client.index] && null !in queue[..client.index]
        && old(queue[..])[client.index] == null && queue[..] == old(queue[..])[client.index := client]
    {
      hide Count, Sockets, SocketOf, Balance;
      ghost var was := queue[..];
      ComesIn(accepted, Sockets(was), closed, handedOver, fd);
      accepted := accepted + [fd];
      acceptSize := acceptSize + 1;
      if acceptSize > queue.Length {
        closed := closed + [fd];
        acceptSize := acceptSize - 1;
        return null;
      }
      client := new Client(fd, now, readLimit);
      var placed := false;
      var i := 0;
      while i < acceptSize
        invariant !placed && i <= acceptSize <= queue.Length && queue[..] == was && Indexed() && Connected()
        invariant forall j | 0 <= j < i :: queue[j] != null
      {
        if queue[i] == null {
          client.index := i;
          queue[i] := client;
          placed := true;
          break;
        }
        i := i + 1;
      }
      assert placed by {
        if !placed {
          FullBelow(was, acceptSize);
        }
      }
      CountUpdate(was, i, client);
      SocketPutIn(was, i, client);
      assert queue[..] == was[i := client];
    }

    /** Taking a client out: its socket is closed if the client still has it. */
    method Remove(client: Client)
      requires Counted() && client.index < queue.Length && queue[client.index] == client
      modifies this`acceptSize, this`closed, queue
      ensures Counted() && queue[..] == old(queue[..])[client.index := null] && acceptSize == old(acceptSize) - 1
      ensures closed == old(closed) + if client.fd > 0 then [client.fd] else []
    {
      CountUpdate(queue[..], client.index, null);
      queue[client.index] := null;
      acceptSize := acceptSize - 1;
      if client.fd > 0 {
        closed := closed + [client.fd];
      }
      assert queue[..] == old(queue[..])[client.index := null];
    }

    /** An event of a client. If it is readable, it renews the read limit; a block with which the handler takes the
        socket, the end of the stream and a hang-up take the client out. The socket is handed over with the first such
        block, once more with every other one, and closed exactly when there is none. The write limit that a hand-over
        starts never counts: no client in the table has one. */
    method OnEvent(client: Client, now: int, readable: bool, kept: seq<bool>, ended: bool, hangUp: bool)
      requires Valid() && client.index < queue.Length && queue[client.index] == client
      modifies this, queue, client
      ensures Valid() && client.index == old(client.index)
      ensures var gone := (readable && (false in kept || ended)) || hangUp;
        && queue[..] == (if gone then old(queue[..])[client.index := null] else old(queue[..]))
        && acceptSize == old(acceptSize) - (if gone then 1 else 0)
      ensures accepted == old(accepted)
      ensures var n := if readable then HandOvers(kept) else 0;
        && handedOver == old(handedOver) + Copies(client.socket, if n > 0 then 1 else 0)
        && handedAgain == old(handedAgain) + Copies(client.socket, if n > 0 then n - 1 else 0)
        && closed == old(closed) + Copies(client.socket, if n == 0 && (hangUp || (readable && ended)) then 1 else 0)
      ensures readable && false !in kept ==> client.readTimestamp == now && client.readTimeout == now + readLimit
      ensures !readable ==> client.fd == old(client.fd) && client.readTimestamp == old(client.readTimestamp)
    {
      hide Count, Sockets, SocketOf, HandOvers, Copies, Balance;
      ghost var was := queue[..];
      SocketTakenOut(was, client.index);
      GoesOut(accepted, Sockets(was), Sockets(was[client.index := null]), closed, handedOver, client.socket);
      CopiesOf(client.socket);
      HandOversAre(kept);
      assert closed + [] == closed && handedOver + [] == handedOver && handedAgain + [] == handedAgain;
      var remove := false;
      if readable {
        remove := Receive(client, now, kept, ended);
      }
      if hangUp || remove {
        Remove(client);
      }
    }

    /** The loop of an event that receives until there is nothing more. It goes on receiving after a hand-over. */
    method Receive(client: Client, now: int, kept: seq<bool>, ended: bool) returns (remove: bool)
      requires client.fd == client.socket > 0
      modifies client, this`handedOver, this`handedAgain
      ensures client.index == old(client.index) && remove == (false in kept || ended)
      ensures false !in kept ==> client.fd == old(client.fd) && client.writeTimestamp == old(client.writeTimestamp)
      ensures if false in kept
        then client.fd == -1 && client.readTimestamp == client.readTimeout == -1
          && client.writeTimestamp == now && client.writeTimeout == now + writeLimit
        else client.readTimestamp == now && client.readTimeout == now + readLimit
      ensures var n := HandOvers(kept);
        && handedOver == old(handedOver) + Copies(client.socket, if n > 0 then 1 else 0)
        && handedAgain == old(handedAgain) + Copies(client.socket, if n > 0 then n - 1 else 0)
    {
      hide HandOvers, Copies;
      ghost var first, again := handedOver, handedAgain;
      CopiesOf(client.socket);
      remove := false;
      client.readTimestamp := now;
      client.readTimeout := client.readTimestamp + readLimit;
      NoHandOver();
      for i := 0 to |kept|
        invariant client.index == old(client.index) && remove == (false in kept[..i])
        invariant remove || (client.fd == old(client.fd) && client.writeTimestamp == old(client.writeTimestamp))
        invariant if remove
          then client.fd == -1 && client.readTimestamp == client.readTimeout == -1
            && client.writeTimestamp == now && client.writeTimeout == now + writeLimit
          else client.readTimestamp == now && client.readTimeout == now + readLimit
        invariant var n := HandOvers(kept[..i]);
          && (n > 0 <==> remove)
          && handedOver == first + Copies(client.socket, if n > 0 then 1 else 0)
          && handedAgain == again + Copies(client.socket, if n > 0 then n - 1 else 0)
      {
        ghost var n := HandOvers(kept[..i]);
        assert kept[..i + 1] == kept[..i] + [kept[i]];
        OneMore(kept[..i], kept[i]);
        if !kept[i] {
          if client.fd > 0 {
            handedOver := handedOver + [client.socket];
          } else {
            OneCopyMore(again, client.socket, n - 1);
            handedAgain := handedAgain + [client.socket];
          }
          client.fd := -1;
          client.readTimestamp := -1;
          client.readTimeout := -1;
          client.writeTimestamp := now;
          client.writeTimeout := client.writeTimestamp + writeLimit;
          remove := true;
        }
      }
      assert kept[..|kept|] == kept;
      if ended {
        remove := true;
      }
    }

    /** The sweep at one slot: an expired client is taken out and its socket closed. */
    method SweepSlot(i: nat, now: int) returns (gone: bool)
      requires i < queue.Length && Indexed() && Connected() && Balanced()
      modifies this`closed, queue
      ensures gone == (old(queue[i]) != null
        && old(queue[i].readTimestamp) > 0 && now > old(queue[i].readTimestamp) + readLimit)
      ensures queue[..] == if gone then old(queue[..])[i := null] else old(queue[..])
      ensures Indexed() && Connected() && Balanced()
        && Count(queue[..]) == old(Count(queue[..])) - if gone then 1 else 0
      ensures closed == old(closed) + if gone then [old(queue[i]).socket] else []
    {
      hide Count, Sockets, SocketOf, Balance;
      var iter := queue[i];
      gone := false;
      if iter != null && iter.Expired(now) {
        gone := true;
        ghost var was := queue[..];
        CountUpdate(was, i, null);
        SocketTakenOut(was, i);
        GoesOut(accepted, Sockets(was), Sockets(was[i := null]), closed, handedOver, iter.socket);
        queue[i] := null;
        assert queue[..] == was[i := null];
        if iter.fd > 0 {
          closed := closed + [iter.fd];
        }
      }
    }

    /** The sweep: it scans as many slots as there are clients and takes out exactly those among them that were accepted
        or read last at a positive time more than the read limit ago. So no such client stays exactly when none is in a
        slot behind those. */
    method Sweep(now: int)
      requires Valid()
      modifies this, queue
      ensures Valid()
      ensures forall i | 0 <= i < queue.Length ::
        queue[i] == if i < old(acceptSize) && old(queue[i]) != null
                       && old(queue[i].readTimestamp) > 0 && now > old(queue[i].readTimestamp) + readLimit
                    then null else old(queue[i])
      ensures accepted == old(accepted) && handedOver == old(handedOver) && handedAgain == old(handedAgain)
      ensures closed == old(closed) + old(LateSockets(queue[..acceptSize], now, readLimit))
      ensures
        (forall i | 0 <= i < queue.Length && queue[i] != null ::
          !(queue[i].readTimestamp > 0 && now > queue[i].readTimestamp + readLimit)) <==>
        (forall i | old(acceptSize) <= i < queue.Length && old(queue[i]) != null ::
          !(old(queue[i].readTimestamp) > 0 && now > old(queue[i].readTimestamp) + readLimit))
    {
      hide Count, Sockets, Balance, LateSockets;
      var activeSize := acceptSize;
      ghost var slots := queue[..];
      assert slots[..0] == [] && closed + LateSockets([], now, readLimit) == closed by {
        NoSlots(now, readLimit);
      }
      for i := 0 to acceptSize
        invariant acceptSize == old(acceptSize) <= queue.Length && activeSize == Count(queue[..]) && Indexed()
        invariant Connected() && Balanced()
        invariant accepted == old(accepted) && handedOver == old(handedOver) && handedAgain == old(handedAgain)
        invariant closed == old(closed) + LateSockets(slots[..i], now, readLimit)
        invariant forall j | 0 <= j < queue.Length ::
          queue[j] == if j < i && old(queue[j]) != null
                         && old(queue[j].readTimestamp) > 0 && now > old(queue[j].readTimestamp) + readLimit
                      then null else old(queue[j])
      {
        OneSlotMore(slots, i, now, readLimit);
        var gone := SweepSlot(i, now);
        if gone {
          activeSize := activeSize - 1;
        }
      }
      acceptSize := activeSize;
    }
  }

  /** A client in the second slot of a table that the first client has left: it stays, nine seconds after its time. */
  method LateClientStays() returns (table: Table, client: Client)
    ensures table.queue.Length == 2 && table.queue[1] == client && table.readLimit == 0 && client.readTimestamp == 1
  {
    hide Count, Sockets, HandOvers, Copies, Balance, LateSockets;
    table := new Table(2, 0, 0);
    var first := table.Accept(5, 1);
    var second := table.Accept(6, 1);
    client := second;
    table.OnEvent(first, 2, false, [], false, true);
    table.Sweep(10);
  }

  /** A client accepted at 1000 with a limit of 15 seconds: the sweep at 1015 leaves it, that at 1016 takes it out. */
  method KeptForLimit() returns (table: Table, client: Client, kept: bool)
    ensures kept && table.queue[..] == [null] && table.closed == [5] && client.readTimestamp == 1000
  {
    hide Count, Sockets, HandOvers, Copies, Balance, LateSockets;
    table := new Table(1, 15, 5);
    client := table.Accept(5, 1000);
    OneSlot(client, 1015, 15);
    table.Sweep(1015);
    kept := table.queue[0] == client;
    assert table.acceptSize == 1 && table.queue[..1] == [client] by { OneCounted(table.queue[..], client); }
    OneSlot(client, 1016, 15);
    table.Sweep(1016);
    assert table.queue[..] == [table.queue[0]];
  }

  lemma OneCounted(slots: seq<Client?>, client: Client)
    requires |slots| == 1 && slots[0] == client
    ensures Count(slots) == 1 && slots == [client]
  {
    assert Count(slots[..0]) == 0;
  }

  lemma OneSlot(client: Client, now: int, limit: int)
    ensures LateSockets([client], now, limit) ==
      if client.readTimestamp > 0 && now > client.readTimestamp + limit then [client.socket] else []
  {
    assert [client][..0] == [];
    NoSlots(now, limit);
  }

  /** A client whose request is finished with the first of two blocks: its socket is handed over twice. */
  method HandedOverTwice() returns (table: Table)
    ensures table.handedOver == table.handedAgain == [5] && table.closed == []
  {
    hide Count, Sockets, HandOvers, Copies, Balance, SocketOf;
    table := new Table(2, 0, 0);
    var client := table.Accept(5, 1);
    TwoHandOvers();
    CopiesOf(5);
    assert table.closed + Copies(5, 0) == table.closed
      && table.handedOver + [5] == [5] && table.handedAgain + [5] == [5];
    table.OnEvent(client, 2, true, [false, false], false, false);
  }

  lemma TwoHandOvers()
    ensures HandOvers([false, false]) == 2
  {
    assert [false, false][..1] == [false] && [false][..0] == [];
    assert HandOvers([false]) == 1;
  }
}
