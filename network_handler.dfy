/**
 * The connection pool of DefaultNetworkHandler: the tracked connection list,
 * `startConnection` with its duplicate check, one pass of the
 * connection-manager loop (prune, count, top up from the registry), the
 * gossip fan-out of `offer`, the per-stream counts of `getNetworkStatus` and
 * the listener check of `start`.
 *
 * A Connection is a record of its remote node, its mode, its state and the
 * inventory vectors it knows of; two connections are the same when their
 * remote addresses (ip and port) are. Threads, sockets and the registry's
 * query are parameters or left out.
 */
module NetworkHandler {
  import opened Wrappers
  import Bytes
  import opened NodeRegistry

  /** The number of active connections the manager keeps, and the fan-out bound of offer. */
  const NetworkMagicNumber := 8

  /** A 32-byte object hash. */
  type InventoryVector = seq<Bytes.Byte>

  datatype Mode = Client | Server

  datatype State = Connecting | Active | Disconnected

  datatype Connection = Connection(node: NetworkAddress, mode: Mode, state: State, known: set<InventoryVector>)

  /** What identifies a peer: its ip and port. */
  function RemoteOf(c: Connection): (seq<Bytes.Byte>, int)
  {
    (c.node.ip, c.node.port)
  }

  /** Some tracked connection goes to c's remote address: the list's `contains`. */
  predicate Tracked(cs: seq<Connection>, c: Connection)
  {
    exists i :: 0 <= i < |cs| && RemoteOf(cs[i]) == RemoteOf(c)
  }

  /** No two tracked connections go to the same remote address. */
  ghost predicate NoDuplicates(cs: seq<Connection>)
  {
    forall i, j :: 0 <= i < j < |cs| ==> RemoteOf(cs[i]) != RemoteOf(cs[j])
  }

  /** The list after startConnection(c): c is appended unless its peer is tracked already. */
  function AddConnection(cs: seq<Connection>, c: Connection): seq<Connection>
  {
    if Tracked(cs, c) then cs else cs + [c]
  }

  /** startConnection keeps the list free of duplicates, and afterwards c's peer is tracked. */
  lemma AddConnectionKeepsUnique(cs: seq<Connection>, c: Connection)
    requires NoDuplicates(cs)
    ensures NoDuplicates(AddConnection(cs, c))
    ensures Tracked(AddConnection(cs, c), c)
  {
    if !Tracked(cs, c) {
      var r := cs + [c];
      assert r[|cs|] == c;
      forall i, j | 0 <= i < j < |r| ensures RemoteOf(r[i]) != RemoteOf(r[j]) {
        if j == |cs| {
          assert r[i] == cs[i];
        }
      }
    }
  }

  /** A connection to address a in the given mode, as a new Connection starts out. */
  function NewConnection(a: NetworkAddress, mode: Mode): Connection
  {
    Connection(a, mode, Connecting, {})
  }

  /** The list after startConnection for a new client connection to each address in turn. */
  function AddClients(cs: seq<Connection>, addrs: seq<NetworkAddress>): seq<Connection>
  {
    if |addrs| == 0 then cs
    else AddConnection(AddClients(cs, addrs[..|addrs| - 1]), NewConnection(addrs[|addrs| - 1], Client))
  }

  lemma {:induction false} AddClientsKeepsUnique(cs: seq<Connection>, addrs: seq<NetworkAddress>)
    requires NoDuplicates(cs)
    ensures NoDuplicates(AddClients(cs, addrs))
  {
    if |addrs| != 0 {
      AddClientsKeepsUnique(cs, addrs[..|addrs| - 1]);
      AddConnectionKeepsUnique(AddClients(cs, addrs[..|addrs| - 1]), NewConnection(addrs[|addrs| - 1], Client));
    }
  }

  /** The list without its DISCONNECTED connections, the others in their order. */
  function Prune(cs: seq<Connection>): (r: seq<Connection>)
  {
    if |cs| == 0 then []
    else
      var rest := Prune(cs[..|cs| - 1]);
      if cs[|cs| - 1].state == Disconnected then rest else rest + [cs[|cs| - 1]]
  }

  /** The number of ACTIVE connections. */
  function CountActive(cs: seq<Connection>): (n: nat)
    ensures n <= |cs|
  {
    if |cs| == 0 then 0
    else CountActive(cs[..|cs| - 1]) + (if cs[|cs| - 1].state == Active then 1 else 0)
  }

  /** Pruning removes exactly the DISCONNECTED connections. */
  lemma {:induction false} PruneRemovesDisconnected(cs: seq<Connection>)
    ensures forall c :: c in Prune(cs) <==> c in cs && c.state != Disconnected
  {
    if |cs| != 0 {
      PruneRemovesDisconnected(cs[..|cs| - 1]);
      assert cs == cs[..|cs| - 1] + [cs[|cs| - 1]];
    }
  }

  /** Pruning removes no ACTIVE connection. */
  lemma {:induction false} PruneKeepsActive(cs: seq<Connection>)
    ensures CountActive(Prune(cs)) == CountActive(cs)
  {
    if |cs| != 0 {
      var init := cs[..|cs| - 1];
      PruneKeepsActive(init);
      var last := cs[|cs| - 1];
      if last.state != Disconnected {
        var p := Prune(init);
        assert (p + [last])[..|p + [last]| - 1] == p;
      }
    }
  }

  /** A list without DISCONNECTED connections is left as it is. */
  lemma {:induction false} PruneKeepsConnected(cs: seq<Connection>)
    requires forall i :: 0 <= i < |cs| ==> cs[i].state != Disconnected
    ensures Prune(cs) == cs
  {
    if |cs| != 0 {
      var init := cs[..|cs| - 1];
      assert forall i :: 0 <= i < |init| ==> init[i] == cs[i];
      PruneKeepsConnected(init);
      assert cs == init + [cs[|cs| - 1]];
    }
  }

  /** Pruning works connection by connection: the kept ones stay in their original order. */
  lemma {:induction false} PruneAppend(a: seq<Connection>, b: seq<Connection>)
    ensures Prune(a + b) == Prune(a) + Prune(b)
  {
    if |b| == 0 {
      assert a + b == a;
    } else {
      var init := b[..|b| - 1];
      PruneAppend(a, init);
      assert (a + b)[..|a + b| - 1] == a + init;
      assert (a + b)[|a + b| - 1] == b[|b| - 1];
    }
  }

  /** Pruning keeps the list free of duplicates: what it keeps is a subsequence. */
  lemma {:induction false} PruneKeepsUnique(cs: seq<Connection>)
    requires NoDuplicates(cs)
    ensures NoDuplicates(Prune(cs))
  {
    if |cs| != 0 {
      var init := cs[..|cs| - 1];
      var last := cs[|cs| - 1];
      assert NoDuplicates(init) by {
        forall i, j | 0 <= i < j < |init| ensures RemoteOf(init[i]) != RemoteOf(init[j]) {
          assert init[i] == cs[i] && init[j] == cs[j];
        }
      }
      PruneKeepsUnique(init);
      if last.state != Disconnected {
        var p := Prune(init);
        PruneRemovesDisconnected(init);
        forall i | 0 <= i < |p| ensures RemoteOf(p[i]) != RemoteOf(last) {
          assert p[i] in init;
          var k :| 0 <= k < |init| && init[k] == p[i];
          assert cs[k] == init[k];
        }
        var r := p + [last];
        forall i, j | 0 <= i < j < |r| ensures RemoteOf(r[i]) != RemoteOf(r[j]) {
          if j == |p| {
            assert r[i] == p[i];
          }
        }
      }
    }
  }

  /** The number of addresses one manager pass asks the registry for, given the ACTIVE count. */
  function Deficit(active: nat): (n: nat)
    ensures n <= NetworkMagicNumber
    ensures n > 0 <==> active < NetworkMagicNumber
    ensures n > 0 ==> active + n == NetworkMagicNumber
  {
    if active < NetworkMagicNumber then NetworkMagicNumber - active else 0
  }

  /** The connections that may be offered iv: ACTIVE ones that do not know of it yet. */
  function Eligible(cs: seq<Connection>, iv: InventoryVector): seq<Connection>
  {
    if |cs| == 0 then []
    else
      var rest := Eligible(cs[..|cs| - 1], iv);
      var c := cs[|cs| - 1];
      if c.state == Active && iv !in c.known then rest + [c] else rest
  }

  /** A connection is eligible exactly when it is tracked, ACTIVE, and does not know of iv. */
  lemma {:induction false} EligibleIsActiveAndUnaware(cs: seq<Connection>, iv: InventoryVector)
    ensures forall c :: c in Eligible(cs, iv) <==> c in cs && c.state == Active && iv !in c.known
  {
    if |cs| != 0 {
      EligibleIsActiveAndUnaware(cs[..|cs| - 1], iv);
      assert cs == cs[..|cs| - 1] + [cs[|cs| - 1]];
    }
  }

  /**
   * The random subset the offer goes to: the candidates whose flag the random
   * source set, in order, at most count of them.
   */
  function SelectRandom(count: nat, items: seq<Connection>, chosen: seq<bool>): (r: seq<Connection>)
    ensures |r| <= count
    ensures forall c :: c in r ==> c in items
  {
    if |items| == 0 || count == 0 then []
    else if 0 < |chosen| && chosen[0] then [items[0]] + SelectRandom(count - 1, items[1..], chosen[1..])
    else SelectRandom(count, items[1..], if |chosen| == 0 then [] else chosen[1..])
  }

  /** When the random source picks every candidate and there are at most count of them, all are picked. */
  lemma {:induction false} SelectRandomAll(count: nat, items: seq<Connection>, chosen: seq<bool>)
    requires |items| <= count && |chosen| >= |items|
    requires forall i :: 0 <= i < |items| ==> chosen[i]
    ensures SelectRandom(count, items, chosen) == items
  {
    if |items| != 0 {
      SelectRandomAll(count - 1, items[1..], chosen[1..]);
      assert [items[0]] + items[1..] == items;
    }
  }

  /** Active connections of the given stream in the given mode. */
  function CountMode(cs: seq<Connection>, stream: int, mode: Mode): (n: nat)
    ensures n <= |cs|
  {
    if |cs| == 0 then 0
    else
      var c := cs[|cs| - 1];
      CountMode(cs[..|cs| - 1], stream, mode) + (if c.state == Active && c.node.stream == stream && c.mode == mode then 1 else 0)
  }

  /** Active connections of the given stream. */
  function CountStream(cs: seq<Connection>, stream: int): (n: nat)
  {
    if |cs| == 0 then 0
    else
      var c := cs[|cs| - 1];
      CountStream(cs[..|cs| - 1], stream) + (if c.state == Active && c.node.stream == stream then 1 else 0)
  }

  /** Some tracked connection of the stream is ACTIVE. */
  ghost predicate HasActive(cs: seq<Connection>, stream: int)
  {
    exists i :: 0 <= i < |cs| && cs[i].state == Active && cs[i].node.stream == stream
  }

  /** Incoming plus outgoing is the stream's ACTIVE count, which is positive exactly when the stream has an ACTIVE connection. */
  lemma {:induction false} ModesPartitionStream(cs: seq<Connection>, stream: int)
    ensures CountMode(cs, stream, Server) + CountMode(cs, stream, Client) == CountStream(cs, stream)
    ensures CountStream(cs, stream) > 0 <==> HasActive(cs, stream)
  {
    if |cs| != 0 {
      var init := cs[..|cs| - 1];
      ModesPartitionStream(init, stream);
      if HasActive(init, stream) {
        var i :| 0 <= i < |init| && init[i].state == Active && init[i].node.stream == stream;
        assert cs[i] == init[i];
      }
      if HasActive(cs, stream) {
        var i :| 0 <= i < |cs| && cs[i].state == Active && cs[i].node.stream == stream;
        if i < |init| {
          assert init[i] == cs[i];
        }
      }
    }
  }

  /** The counts getNetworkStatus reports for one stream. */
  datatype StreamCounts = StreamCounts(incoming: nat, outgoing: nat, nodes: nat)

  /** getNetworkStatus without its formatting: whether the manager runs, and the counts of each stream with an ACTIVE connection. */
  datatype NetworkStatus = NetworkStatus(running: bool, streams: map<int, StreamCounts>)

  datatype HandlerError = IllegalState | NullPointer

  /** The connection-manager thread: not created before start, then running. */
  datatype Manager = NotStarted | Running

  /** The value of a TreeMap counter, 0 when absent. */
  function CountOf(m: map<int, nat>, k: int): nat
  {
    if k in m then m[k] else 0
  }

  /** DebugUtils.inc: add one to the counter of k. */
  function Inc(m: map<int, nat>, k: int): (r: map<int, nat>)
  {
    m[k := CountOf(m, k) + 1]
  }

  /** m holds, for each stream where it is positive, the count of ACTIVE connections of that stream in that mode. */
  ghost predicate CountsMode(m: map<int, nat>, cs: seq<Connection>, mode: Mode)
  {
    forall s :: CountOf(m, s) == CountMode(cs, s, mode)
  }

  class DefaultNetworkHandler {
    /** The tracked connections, in the order they were added. */
    var connections: seq<Connection>
    var manager: Manager

    ghost predicate Valid()
      reads this
    {
      NoDuplicates(connections)
    }

    constructor()
      ensures Valid() && connections == [] && manager == NotStarted
    {
      connections := [];
      manager := NotStarted;
    }

    /** start(listener): a missing listener is refused before anything starts. */
    method Start<L>(listener: Option<L>) returns (r: Result<(), HandlerError>)
      modifies this
      ensures listener.None? ==> r == Err(IllegalState) && manager == old(manager)
      ensures listener.Some? ==> r == Ok(()) && manager == Running
      ensures connections == old(connections)
    {
      if listener.None? {
        return Err(IllegalState);
      }
      manager := Running;
      return Ok(());
    }

    /** startConnection(c): track c unless a connection to its peer is tracked already. */
    method StartConnection(c: Connection)
      requires Valid()
      modifies this
      ensures Valid()
      ensures connections == AddConnection(old(connections), c)
      ensures manager == old(manager)
    {
      AddConnectionKeepsUnique(connections, c);
      if Tracked(connections, c) {
        return;
      }
      connections := connections + [c];
    }

    /**
     * One pass of the connection-manager loop: drop the DISCONNECTED
     * connections while counting the ACTIVE ones, then, below the target,
     * ask the registry for the deficit and start a client connection to each
     * address it returns. A registry failure is logged and ends the pass.
     */
    method ManagerPass<E>(streams: seq<int>, registry: (nat, seq<int>) -> Result<seq<NetworkAddress>, E>)
      returns (active: nat, requested: nat)
      requires Valid()
      modifies this
      ensures Valid()
      ensures active == CountActive(old(connections))
      ensures requested == Deficit(active)
      ensures requested == 0 || registry(requested, streams).Err? ==> connections == Prune(old(connections))
      ensures requested != 0 && registry(requested, streams).Ok? ==>
        connections == AddClients(Prune(old(connections)), registry(requested, streams).value)
      ensures manager == old(manager)
    {
      active := PruneDisconnected();
      requested := Deficit(active);
      if requested == 0 {
        return;
      }
      var found := registry(requested, streams);
      if found.Err? {
        return;
      }
      StartClients(found.value);
    }

    /** The iteration of the manager pass: remove each DISCONNECTED connection, count the ACTIVE ones. */
    method PruneDisconnected() returns (active: nat)
      requires Valid()
      modifies this
      ensures Valid()
      ensures connections == Prune(old(connections))
      ensures active == CountActive(old(connections))
      ensures manager == old(manager)
    {
      PruneKeepsUnique(connections);
      var all := connections;
      var kept: seq<Connection> := [];
      active := 0;
      var i := 0;
      while i < |all|
        invariant 0 <= i <= |all|
        invariant kept == Prune(all[..i])
        invariant active == CountActive(all[..i])
      {
        var c := all[i];
        assert all[..i + 1][..i] == all[..i];
        if c.state != Disconnected {
          kept := kept + [c];
        }
        if c.state == Active {
          active := active + 1;
        }
        i := i + 1;
      }
      assert all[..i] == all;
      connections := kept;
    }

    /** startConnection for a new client connection to each address the registry returned. */
    method StartClients(addresses: seq<NetworkAddress>)
      requires Valid()
      modifies this
      ensures Valid()
      ensures connections == AddClients(old(connections), addresses)
      ensures manager == old(manager)
    {
      var j := 0;
      while j < |addresses|
        invariant 0 <= j <= |addresses|
        invariant Valid() && manager == old(manager)
        invariant connections == AddClients(old(connections), addresses[..j])
      {
        assert addresses[..j + 1][..j] == addresses[..j];
        StartConnection(NewConnection(addresses[j], Client));
        j := j + 1;
      }
      assert addresses[..j] == addresses;
    }

    /**
     * offer(iv): the ACTIVE connections that do not know of iv, of which the
     * random subset of at most NetworkMagicNumber is offered iv. Returns the
     * connections the offer goes to.
     */
    method Offer(iv: InventoryVector, chosen: seq<bool>) returns (targets: seq<Connection>)
      ensures targets == SelectRandom(NetworkMagicNumber, Eligible(connections, iv), chosen)
      ensures |targets| <= NetworkMagicNumber
      ensures forall c :: c in targets ==> c in connections && c.state == Active && iv !in c.known
    {
      var eligible: seq<Connection> := [];
      var i := 0;
      while i < |connections|
        invariant 0 <= i <= |connections|
        invariant eligible == Eligible(connections[..i], iv)
      {
        var c := connections[i];
        assert connections[..i + 1][..i] == connections[..i];
        if c.state == Active && iv !in c.known {
          eligible := eligible + [c];
        }
        i := i + 1;
      }
      assert connections[..i] == connections;
      EligibleIsActiveAndUnaware(connections, iv);
      targets := SelectRandom(NetworkMagicNumber, eligible, chosen);
    }

    /**
     * getNetworkStatus: per stream with an ACTIVE connection, its SERVER-mode
     * (incoming) and CLIENT-mode (outgoing) ACTIVE connections and their sum.
     * Before start there is no manager thread to ask, and the call fails.
     */
    method GetNetworkStatus() returns (r: Result<NetworkStatus, HandlerError>)
      ensures manager == NotStarted <==> r.Err?
      ensures r.Err? ==> r.error == NullPointer
      ensures r.Ok? ==> r.value.running == (manager == Running)
      ensures r.Ok? ==> forall s :: s in r.value.streams <==> HasActive(connections, s)
      ensures r.Ok? ==> forall s :: s in r.value.streams ==>
        r.value.streams[s] == StreamCounts(CountMode(connections, s, Server), CountMode(connections, s, Client),
                                           CountStream(connections, s))
    {
      var streams: set<int> := {};
      var incoming: map<int, nat> := map[];
      var outgoing: map<int, nat> := map[];
      var i := 0;
      while i < |connections|
        invariant 0 <= i <= |connections|
        invariant forall s :: s in streams <==> HasActive(connections[..i], s)
        invariant CountsMode(incoming, connections[..i], Server)
        invariant CountsMode(outgoing, connections[..i], Client)
      {
        var c := connections[i];
        StatusStep(connections, i);
        if c.state == Active {
          var stream := c.node.stream;
          streams := streams + {stream};
          if c.mode == Server {
            incoming := Inc(incoming, stream);
          } else {
            outgoing := Inc(outgoing, stream);
          }
        }
        i := i + 1;
      }
      assert connections[..i] == connections;
      if manager == NotStarted {
        return Err(NullPointer);
      }
      var counts := map s | s in streams :: StreamCounts(CountOf(incoming, s), CountOf(outgoing, s),
                                                         CountOf(incoming, s) + CountOf(outgoing, s));
      forall s | s in streams ensures CountOf(incoming, s) + CountOf(outgoing, s) == CountStream(connections, s) {
        ModesPartitionStream(connections, s);
      }
      return Ok(NetworkStatus(manager == Running, counts));
    }
  }

  /** How one more connection changes the stream set and the counters getNetworkStatus keeps. */
  lemma StatusStep(cs: seq<Connection>, i: nat)
    requires i < |cs|
    ensures var c := cs[i]; var p := cs[..i + 1];
      p[..i] == cs[..i] && p[i] == c
      && (forall s :: HasActive(p, s) <==> HasActive(cs[..i], s) || (c.state == Active && c.node.stream == s))
  {
    var p := cs[..i + 1];
    assert p[..i] == cs[..i];
    forall s ensures HasActive(p, s) <==> HasActive(cs[..i], s) || (cs[i].state == Active && cs[i].node.stream == s) {
      if HasActive(cs[..i], s) {
        var k :| 0 <= k < i && cs[..i][k].state == Active && cs[..i][k].node.stream == s;
        assert p[k] == cs[..i][k];
      }
      if HasActive(p, s) {
        var k :| 0 <= k < i + 1 && p[k].state == Active && p[k].node.stream == s;
        if k < i {
          assert cs[..i][k] == p[k];
        }
      }
      if cs[i].state == Active && cs[i].node.stream == s {
        assert p[i] == cs[i];
      }
    }
  }
}
