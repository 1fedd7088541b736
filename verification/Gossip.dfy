/**
 How servers find each other: a CONNECT from an unknown server is answered with the whole table and a CONNECT
 back, a SHARE_SERVER naming an unknown server makes the receiver connect to it.
 */
module Gossip {
  import opened PeerTable

  datatype Message =
    | Connect(dest: Peer, from: Peer)
    | Share(dest: Peer, server: Peer)

  // ---------- one server on values ----------

  /** What share_all_servers sends to dest, in table order. */
  function ShareAll(table: seq<Peer>, dest: Peer): (sent: seq<Message>)
    ensures |sent| == |table| && forall i {:trigger sent[i]} :: 0 <= i < |sent| ==> sent[i] == Share(dest, table[i])
  {
    if table == [] then [] else ShareAll(table[..|table| - 1], dest) + [Share(dest, table[|table| - 1])]
  }

  datatype Outcome = Outcome(table: seq<Peer>, sent: seq<Message>)

  function OnConnect(me: Peer, table: seq<Peer>, from: Peer): Outcome {
    if from == me || from in table then Outcome(table, [])
    else Outcome([from] + table, ShareAll(table, from) + [Connect(from, me)])
  }

  function OnShare(me: Peer, table: seq<Peer>, server: Peer): Outcome {
    if server in table then Outcome(table, [])
    else Outcome([server] + table, if server == me then [] else [Connect(server, me)])
  }

  function Received(me: Peer, table: seq<Peer>, m: Message): Outcome {
    match m
    case Connect(_, from) => OnConnect(me, table, from)
    case Share(_, server) => OnShare(me, table, server)
  }

  // ---------- one server as the program has it ----------

  ghost function PeersOf(entries: seq<Entry>): (peers: seq<Peer>)
    ensures |peers| == |entries| && forall i {:trigger peers[i]} :: 0 <= i < |peers| ==> peers[i] == entries[i].peer
  {
    if entries == [] then [] else [entries[0].peer] + PeersOf(entries[1..])
  }

  lemma {:induction false} KnownIsMember(entries: seq<Entry>, peer: Peer)
    ensures Known(entries, peer) <==> peer in PeersOf(entries)
  {
    var peers := PeersOf(entries);
    if Known(entries, peer) {
      var i :| 0 <= i < |entries| && entries[i].peer == peer;
      assert peers[i] == peer;
    }
    if peer in peers {
      var i :| 0 <= i < |peers| && peers[i] == peer;
      assert entries[i].peer == peer;
    }
  }

  class Server {
    const me: Peer
    var serverTable: ConnectedServer?
    var outbox: seq<Message>
    ghost var nodes: seq<ConnectedServer>

    ghost predicate Valid()
      reads this, nodes
    {
      Listed(serverTable, nodes)
    }

    ghost function Table(): seq<Peer>
      reads this, nodes
    {
      PeersOf(Entries(nodes))
    }

    constructor (me: Peer)
      ensures Valid() && this.me == me && Table() == [] && outbox == []
    {
      this.me := me;
      this.serverTable := null;
      this.outbox := [];
      this.nodes := [];
    }

    /** A message to this server itself is not sent. */
    method SendToServer(dest: Peer, m: Message)
      modifies this`outbox
      ensures outbox == old(outbox) + if dest == me then [] else [m]
    {
      if dest == me {
        return;
      }
      outbox := outbox + [m];
    }

    method ShareAllServers(dest: Peer)
      requires Valid()
      modifies this`outbox
      ensures outbox == old(outbox) + if dest == me then [] else ShareAll(Table(), dest)
    {
      hide Listed, Entries;
      if dest == me {
        return;
      }
      var tmp := serverTable;
      ghost var i, table, before := 0, Table(), outbox;
      HeadOf(serverTable, nodes);
      assert table[..0] == [] && before + ShareAll([], dest) == before;
      while tmp != null
        invariant i <= |nodes| && tmp == if i < |nodes| then nodes[i] else null
        invariant outbox == before + ShareAll(table[..i], dest)
        decreases |nodes| - i
      {
        ListedFrom(serverTable, nodes, i);
        SendToServer(dest, Share(dest, tmp.peer));
        OneMoreShared(before, table, i, dest);
        tmp := tmp.next;
        i := i + 1;
      }
      assert table[..|table|] == table;
    }

    method Insert(peer: Peer, now: int)
      requires Valid()
      modifies this`serverTable, this`nodes
      ensures Valid() && Table() == [peer] + old(Table())
      ensures |nodes| == old(|nodes|) + 1 && fresh(nodes[0]) && nodes[1..] == old(nodes)
    {
      ghost var listed := nodes;
      var newServer := InsertServer(serverTable, peer, now, nodes);
      serverTable := newServer;
      nodes := [newServer] + nodes;
      assert Entries(nodes)[1..] == Entries(listed);
    }

    /** The CONNECT branch of the main loop. */
    method HandleConnect(from: Peer, now: int)
      requires Valid()
      modifies this`serverTable, this`nodes, this`outbox
      ensures Valid()
      ensures var outcome := OnConnect(me, old(Table()), from);
              Table() == outcome.table && outbox == old(outbox) + outcome.sent
    {
      hide Listed, Entries, PeersOf;
      if from == me {
        return;
      }
      KnownIsMember(Entries(nodes), from);
      var connue := IsKnown(from, serverTable, nodes);
      if !connue {
        ShareAllServers(from);
        Insert(from, now);
        outbox := outbox + [Connect(from, me)];
      }
    }

    /** The SHARE_SERVER branch of the main loop. */
    method HandleShare(server: Peer, now: int)
      requires Valid()
      modifies this`serverTable, this`nodes, this`outbox
      ensures Valid()
      ensures var outcome := OnShare(me, old(Table()), server);
              Table() == outcome.table && outbox == old(outbox) + outcome.sent
    {
      hide Listed, Entries, PeersOf;
      KnownIsMember(Entries(nodes), server);
      var connue := IsKnown(server, serverTable, nodes);
      if !connue {
        Insert(server, now);
        SendToServer(server, Connect(server, me));
      }
    }

    /** Start-up with the address of another server. */
    method Bootstrap(target: Peer, now: int)
      requires Valid()
      modifies this`serverTable, this`nodes, this`outbox
      ensures Valid() && Table() == [target] + old(Table())
      ensures outbox == old(outbox) + if target == me then [] else [Connect(target, me)]
    {
      hide Listed, Entries, PeersOf;
      SendToServer(target, Connect(target, me));
      Insert(target, now);
    }
  }

  lemma {:induction false} OneMoreShared(before: seq<Message>, table: seq<Peer>, i: nat, dest: Peer)
    requires i < |table|
    ensures before + ShareAll(table[..i + 1], dest) == (before + ShareAll(table[..i], dest)) + [Share(dest, table[i])]
  {
    assert table[..i + 1][..i] == table[..i];
  }

  // ---------- the network ----------

  /** All servers' tables, and the messages under way. */
  datatype Net = Net(tables: map<Peer, seq<Peer>>, inFlight: multiset<Message>)

  predicate Distinct(table: seq<Peer>) {
    forall i, j :: 0 <= i < j < |table| ==> table[i] != table[j]
  }

  /** Only servers of the network are named. */
  ghost predicate Closed(net: Net) {
    && (forall a, b :: a in net.tables && b in net.tables[a] ==> b in net.tables)
    && (forall m :: m in net.inFlight ==>
          m.dest in net.tables && (if m.Connect? then m.from in net.tables else m.server in net.tables))
  }

  ghost predicate DistinctTables(net: Net) {
    forall a {:trigger net.tables[a]} :: a in net.tables ==> Distinct(net.tables[a])
  }

  /** Whoever knows a server is known to it, or its CONNECT is under way. */
  ghost predicate Answered(net: Net) {
    forall a, b :: a in net.tables && b in net.tables && a != b && b in net.tables[a] ==>
      a in net.tables[b] || Connect(b, a) in net.inFlight
  }

  /** No server is told about itself, and only the servers in `selfish` list themselves. */
  ghost predicate NotItself(net: Net, selfish: set<Peer>) {
    && (forall a :: a in net.tables && a in net.tables[a] ==> a in selfish)
    && (forall a :: Share(a, a) !in net.inFlight)
  }

  ghost predicate Sound(net: Net, selfish: set<Peer>) {
    Closed(net) && DistinctTables(net) && Answered(net) && NotItself(net, selfish)
  }

  /** At start, every server knows nobody or the one server it was given, to which it has sent a CONNECT. */
  ghost predicate Initial(net: Net, selfish: set<Peer>) {
    && Closed(net)
    && (forall a {:trigger net.tables[a]} :: a in net.tables ==> |net.tables[a]| <= 1)
    && (forall a, b :: a in net.tables && b in net.tables[a] ==>
          if a == b then a in selfish else Connect(b, a) in net.inFlight)
    && (forall m :: m in net.inFlight ==> m.Connect?)
  }

  function Deliver(net: Net, m: Message): Net
    requires m.dest in net.tables
  {
    var outcome := Received(m.dest, net.tables[m.dest], m);
    Net(net.tables[m.dest := outcome.table], net.inFlight - multiset{m} + multiset(outcome.sent))
  }

  lemma {:induction false} InitialIsSound(net: Net, selfish: set<Peer>)
    requires Initial(net, selfish)
    ensures Sound(net, selfish)
  {
  }

  lemma {:induction false} SentOnConnect(me: Peer, table: seq<Peer>, from: Peer, m: Message)
    requires from != me && from !in table
    ensures m in OnConnect(me, table, from).sent
       <==> m == Connect(from, me) || (m.Share? && m.dest == from && m.server in table)
  {
    var shared := ShareAll(table, from);
    if m.Share? && m.dest == from && m.server in table {
      var i :| 0 <= i < |table| && table[i] == m.server;
      assert shared[i] == m;
    }
  }

  lemma {:induction false} ClosedKept(net: Net, m: Message)
    requires Closed(net) && m in net.inFlight
    ensures Closed(Deliver(net, m)) && Deliver(net, m).tables.Keys == net.tables.Keys
  {
    hide OnConnect;
    var next := Deliver(net, m);
    assert m.dest in net.tables;
    forall x | x in next.inFlight
      ensures x.dest in net.tables && (if x.Connect? then x.from in net.tables else x.server in net.tables)
    {
      if x !in net.inFlight {
        SentByReceiver(m.dest, net.tables[m.dest], m, x);
      }
    }
    TableAfter(m.dest, net.tables[m.dest], m);
  }

  /** What a handler may send: only with an entry for a new server. */
  lemma {:induction false} SentByReceiver(me: Peer, table: seq<Peer>, m: Message, x: Message)
    requires x in Received(me, table, m).sent
    ensures var peer := if m.Connect? then m.from else m.server;
            && peer !in table && peer != me && x.dest == peer
            && (if x.Connect? then x.from == me else x.server in table && m.Connect?)
  {
    if m.Connect? && m.from != me && m.from !in table {
      SentOnConnect(me, table, m.from, x);
    }
  }

  lemma {:induction false} TableAfter(me: Peer, table: seq<Peer>, m: Message)
    ensures var peer := if m.Connect? then m.from else m.server;
            var after := Received(me, table, m).table;
            after == if peer in table || (m.Connect? && peer == me) then table else [peer] + table
  {
  }

  lemma {:induction false} DistinctKept(net: Net, m: Message)
    requires DistinctTables(net) && m.dest in net.tables
    ensures DistinctTables(Deliver(net, m))
  {
    TableAfter(m.dest, net.tables[m.dest], m);
    assert Distinct(net.tables[m.dest]);
  }

  /** A new entry is always answered for: by the CONNECT the same handler sends. */
  lemma {:induction false} NewEntryAnswered(me: Peer, table: seq<Peer>, m: Message, peer: Peer)
    requires peer in Received(me, table, m).table && peer !in table && peer != me
    ensures Connect(peer, me) in Received(me, table, m).sent
  {
    if m.Connect? {
      SentOnConnect(me, table, m.from, Connect(peer, me));
    }
  }

  lemma {:induction false} AnsweredKept(net: Net, m: Message)
    requires Closed(net) && Answered(net) && m in net.inFlight
    ensures Answered(Deliver(net, m))
  {
    hide Received;
    var next, me := Deliver(net, m), m.dest;
    TableAfter(me, net.tables[me], m);
    forall a, b | a in next.tables && b in next.tables && a != b && b in next.tables[a]
      ensures a in next.tables[b] || Connect(b, a) in next.inFlight
    {
      if b !in net.tables[a] {
        NewEntryAnswered(me, net.tables[me], m, b);
      } else if Connect(b, a) == m {
        assert a in next.tables[b];
      }
    }
  }

  lemma {:induction false} NotItselfKept(net: Net, m: Message, selfish: set<Peer>)
    requires Closed(net) && NotItself(net, selfish) && m in net.inFlight
    ensures NotItself(Deliver(net, m), selfish)
  {
    hide Received;
    var next, me := Deliver(net, m), m.dest;
    TableAfter(me, net.tables[me], m);
    forall a ensures Share(a, a) !in next.inFlight {
      if Share(a, a) in Received(me, net.tables[me], m).sent {
        SentByReceiver(me, net.tables[me], m, Share(a, a));
      }
    }
  }

  lemma {:induction false} SoundKept(net: Net, m: Message, selfish: set<Peer>)
    requires Sound(net, selfish) && m in net.inFlight
    ensures m.dest in net.tables && Sound(Deliver(net, m), selfish)
  {
    hide Deliver, Answered, DistinctTables, NotItself;
    ClosedKept(net, m);
    DistinctKept(net, m);
    AnsweredKept(net, m);
    NotItselfKept(net, m, selfish);
  }

  // ---------- runs ----------

  ghost predicate Mutual(net: Net) {
    forall a, b :: a in net.tables && b in net.tables && b in net.tables[a] ==> a in net.tables[b]
  }

  lemma {:induction false} QuietIsMutual(net: Net)
    requires Answered(net) && net.inFlight == multiset{}
    ensures Mutual(net)
  {
  }

  /** A further server starts with the address of one that is there. */
  function Join(net: Net, x: Peer, target: Peer): Net {
    Net(net.tables[x := [target]], net.inFlight + multiset{Connect(target, x)})
  }

  lemma {:induction false} JoinIsSound(net: Net, x: Peer, target: Peer, selfish: set<Peer>)
    requires Sound(net, selfish) && x !in net.tables && target in net.tables
    ensures Sound(Join(net, x, target), selfish)
  {
    var next := Join(net, x, target);
    assert forall a :: a in net.tables ==> next.tables[a] == net.tables[a];
  }

  /** A run delivers the messages in any order, each once. */
  ghost predicate Run(nets: seq<Net>, delivered: seq<Message>) {
    && |nets| == |delivered| + 1
    && forall i {:trigger delivered[i]} :: 0 <= i < |delivered| ==>
         && delivered[i] in nets[i].inFlight && delivered[i].dest in nets[i].tables
         && nets[i + 1] == Deliver(nets[i], delivered[i])
  }

  /**
   In every run from a sound network the tables hold no server twice, nobody but a server started with its own
   address lists itself, and knowing is mutual up to a CONNECT under way; with nothing under way it is mutual.
   */
  lemma {:induction false} EveryRunIsSound(nets: seq<Net>, delivered: seq<Message>, i: nat, selfish: set<Peer>)
    requires Run(nets, delivered) && Sound(nets[0], selfish) && i < |nets|
    ensures Sound(nets[i], selfish) && nets[i].tables.Keys == nets[0].tables.Keys
    ensures nets[i].inFlight == multiset{} ==> Mutual(nets[i])
  {
    hide Deliver, Closed, DistinctTables, NotItself, Answered, Mutual;
    if i > 0 {
      EveryRunIsSound(nets, delivered, i - 1, selfish);
      SoundKept(nets[i - 1], delivered[i - 1], selfish);
      ClosedKept(nets[i - 1], delivered[i - 1]);
    }
    if nets[i].inFlight == multiset{} {
      QuietIsMutual(nets[i]);
    }
  }

  // ---------- termination ----------

  /** The table entries that could still be made. */
  ghost function Missing(tables: map<Peer, seq<Peer>>): set<(Peer, Peer)> {
    set a, b | a in tables && b in tables && b !in tables[a] :: (a, b)
  }

  ghost function Measure(net: Net): nat {
    |Missing(net.tables)| * (|net.tables| + 2) + |net.inFlight|
  }

  lemma {:induction false} DistinctFits(table: seq<Peer>, all: set<Peer>)
    requires Distinct(table) && forall i :: 0 <= i < |table| ==> table[i] in all
    ensures |table| <= |all|
    decreases |table|
  {
    if table != [] {
      DistinctFits(table[..|table| - 1], all - {table[|table| - 1]});
    }
  }

  lemma {:induction false} SentCount(me: Peer, table: seq<Peer>, m: Message)
    ensures |Received(me, table, m).sent| <= |table| + 1
    ensures Received(me, table, m).table == table ==> Received(me, table, m).sent == []
  {
    TableAfter(me, table, m);
    if |Received(me, table, m).table| == |table| + 1 {
      assert Received(me, table, m).table != table;
    }
  }

  lemma {:induction false} InFlightAfter(net: Net, m: Message)
    requires m in net.inFlight && m.dest in net.tables
    ensures |Deliver(net, m).inFlight| == |net.inFlight| - 1 + |Received(m.dest, net.tables[m.dest], m).sent|
  {
  }

  /** One entry fewer is missing when a server was inserted. */
  lemma {:induction false} MissingAfter(net: Net, m: Message)
    requires Closed(net) && m in net.inFlight
    ensures var me := m.dest;
            var after := Received(me, net.tables[me], m).table;
            |Missing(Deliver(net, m).tables)| == |Missing(net.tables)| - (if after == net.tables[me] then 0 else 1)
  {
    var me, next := m.dest, Deliver(net, m);
    var table, peer := net.tables[me], if m.Connect? then m.from else m.server;
    TableAfter(me, table, m);
    if next.tables[me] == table {
      assert next.tables == net.tables;
    } else {
      assert next.tables[me] == [peer] + table;
      assert peer in net.tables;
      OneFewerMissing(net.tables, me, peer);
    }
  }

  lemma {:induction false} OneFewerMissing(tables: map<Peer, seq<Peer>>, me: Peer, peer: Peer)
    requires me in tables && peer in tables && peer !in tables[me]
    ensures |Missing(tables[me := [peer] + tables[me]])| == |Missing(tables)| - 1
  {
    var after := tables[me := [peer] + tables[me]];
    assert (me, peer) in Missing(tables);
    assert Missing(after) == Missing(tables) - {(me, peer)};
  }

  /** Every delivery lowers the measure: an insertion outweighs the messages it sends. */
  lemma {:induction false} DeliveryLowersMeasure(net: Net, m: Message)
    requires Closed(net) && DistinctTables(net) && m in net.inFlight
    ensures Measure(Deliver(net, m)) < Measure(net)
  {
    hide Missing, Deliver;
    var me, next := m.dest, Deliver(net, m);
    var table := net.tables[me];
    ClosedKept(net, m);
    SameCount(net, m);
    InFlightAfter(net, m);
    MissingAfter(net, m);
    SentCount(me, table, m);
    DistinctFits(table, net.tables.Keys);
    var n := |net.tables|;
    if Received(me, table, m).table != table {
      InsertionOutweighs(|Missing(net.tables)|, n, |net.inFlight|, |next.inFlight|);
    }
  }

  lemma {:induction false} SameCount(net: Net, m: Message)
    requires m.dest in net.tables
    ensures |Deliver(net, m).tables| == |net.tables|
  {
    assert Deliver(net, m).tables.Keys == net.tables.Keys;
  }

  lemma {:induction false} InsertionOutweighs(missing: nat, n: nat, before: nat, after: nat)
    requires missing >= 1 && after <= before - 1 + n + 1
    ensures (missing - 1) * (n + 2) + after < missing * (n + 2) + before
  {
    assert missing * (n + 2) == (missing - 1) * (n + 2) + (n + 2);
  }

  /** No run is longer than the measure of the network it starts from. */
  lemma {:induction false} DiscoveryEnds(nets: seq<Net>, delivered: seq<Message>, i: nat, selfish: set<Peer>)
    requires Run(nets, delivered) && Sound(nets[0], selfish) && i < |nets|
    ensures i + Measure(nets[i]) <= Measure(nets[0])
  {
    hide Run, Measure, Deliver, Sound;
    if i > 0 {
      DiscoveryEnds(nets, delivered, i - 1, selfish);
      EveryRunIsSound(nets, delivered, i - 1, selfish);
      RunStep(nets, delivered, i - 1);
      SoundHasDistinctTables(nets[i - 1], selfish);
      DeliveryLowersMeasure(nets[i - 1], delivered[i - 1]);
    }
  }

  lemma {:induction false} RunStep(nets: seq<Net>, delivered: seq<Message>, i: nat)
    requires Run(nets, delivered) && i + 1 < |nets|
    ensures i < |delivered| && delivered[i] in nets[i].inFlight && delivered[i].dest in nets[i].tables
    ensures nets[i + 1] == Deliver(nets[i], delivered[i])
  {
    hide Deliver;
    assert delivered[i] == delivered[i];
  }

  lemma {:induction false} SoundHasDistinctTables(net: Net, selfish: set<Peer>)
    requires Sound(net, selfish)
    ensures Closed(net) && DistinctTables(net)
  {
  }

  // ---------- servers that join through one member ----------

  ghost predicate FullMesh(net: Net) {
    forall a, b :: a in net.tables && b in net.tables && a != b ==> b in net.tables[a]
  }

  /** One of two servers knows the other or is being told of it. */
  ghost predicate Paired(net: Net, a: Peer, b: Peer)
    requires a in net.tables && b in net.tables
  {
    b in net.tables[a] || a in net.tables[b] || Share(a, b) in net.inFlight || Share(b, a) in net.inFlight
  }

  /**
   Everybody knows the hub, so nobody tells it of others; it inserts a server only on that server's own CONNECT, and
   the later of two is then told of the earlier.
   */
  ghost predicate ThroughHub(net: Net, hub: Peer) {
    && hub in net.tables
    && (forall a :: a in net.tables && a != hub ==> hub in net.tables[a])
    && (forall q :: Share(hub, q) !in net.inFlight)
    && (forall a, b :: a in net.tables && b in net.tables && a != b && a in net.tables[hub] && b in net.tables[hub] ==>
          Paired(net, a, b))
  }

  /** Tables only grow, and a told server is inserted or still under way. */
  lemma {:induction false} PairedKept(net: Net, m: Message, a: Peer, b: Peer)
    requires Closed(net) && m in net.inFlight && a in net.tables && b in net.tables && Paired(net, a, b)
    ensures Deliver(net, m).tables.Keys == net.tables.Keys && Paired(Deliver(net, m), a, b)
  {
    hide Received;
    ClosedKept(net, m);
    TableAfter(m.dest, net.tables[m.dest], m);
    assert forall c :: c in net.tables[m.dest] ==> c in Deliver(net, m).tables[m.dest];
    if m == Share(a, b) || m == Share(b, a) {
      assert Paired(Deliver(net, m), a, b);
    }
  }

  /** Whom the hub inserts it tells of its whole table. */
  lemma {:induction false} ToldOfEverybody(me: Peer, table: seq<Peer>, m: Message, x: Peer, p: Peer)
    requires x !in table && x in Received(me, table, m).table && p in table && m != Share(me, x) && m.dest == me
    ensures Share(x, p) in Received(me, table, m).sent
  {
    SentOnConnect(me, table, x, Share(x, p));
  }

  lemma {:induction false} HubKept(net: Net, m: Message, hub: Peer)
    requires Closed(net) && ThroughHub(net, hub) && m in net.inFlight
    ensures ThroughHub(Deliver(net, m), hub)
  {
    hide Received, Paired;
    var next, me := Deliver(net, m), m.dest;
    ClosedKept(net, m);
    TableAfter(me, net.tables[me], m);
    assert forall c :: c in net.tables[me] ==> c in next.tables[me];
    forall q ensures Share(hub, q) !in next.inFlight {
      if Share(hub, q) in Received(me, net.tables[me], m).sent {
        SentByReceiver(me, net.tables[me], m, Share(hub, q));
      }
    }
    forall a, b | a in next.tables && b in next.tables && a != b && a in next.tables[hub] && b in next.tables[hub]
      ensures Paired(next, a, b)
    {
      if a in net.tables[hub] && b in net.tables[hub] {
        PairedKept(net, m, a, b);
      } else {
        NewPair(net, m, hub, a, b);
      }
    }
  }

  lemma {:induction false} NewPair(net: Net, m: Message, hub: Peer, a: Peer, b: Peer)
    requires Closed(net) && ThroughHub(net, hub) && m in net.inFlight && a != b && a in net.tables && b in net.tables
    requires a in Deliver(net, m).tables[hub] && b in Deliver(net, m).tables[hub]
    requires a !in net.tables[hub] || b !in net.tables[hub]
    ensures Deliver(net, m).tables.Keys == net.tables.Keys && Paired(Deliver(net, m), a, b)
  {
    hide Received;
    ClosedKept(net, m);
    TableAfter(m.dest, net.tables[m.dest], m);
    if a !in net.tables[hub] {
      ToldOfEverybody(hub, net.tables[hub], m, a, b);
    } else {
      ToldOfEverybody(hub, net.tables[hub], m, b, a);
    }
  }

  lemma {:induction false} HubKeptByJoin(net: Net, x: Peer, hub: Peer)
    requires Closed(net) && ThroughHub(net, hub) && x !in net.tables
    ensures ThroughHub(Join(net, x, hub), hub)
  {
    var next := Join(net, x, hub);
    assert forall a :: a in net.tables ==> next.tables[a] == net.tables[a];
    assert x !in net.tables[hub];
    forall a, b | a in next.tables && b in next.tables && a != b && a in next.tables[hub] && b in next.tables[hub]
      ensures Paired(next, a, b)
    {
      assert Paired(net, a, b);
    }
  }

  /** In a full mesh with nothing under way any member can be the hub. */
  lemma {:induction false} MeshHasHub(net: Net, hub: Peer)
    requires FullMesh(net) && net.inFlight == multiset{} && hub in net.tables
    ensures ThroughHub(net, hub)
  {
  }

  lemma {:induction false} QuietHubIsMesh(net: Net, hub: Peer)
    requires Mutual(net) && ThroughHub(net, hub) && net.inFlight == multiset{}
    ensures FullMesh(net)
  {
    forall a, b | a in net.tables && b in net.tables && a != b ensures b in net.tables[a] {
      if a != hub && b != hub {
        assert a in net.tables[hub] && b in net.tables[hub];
        assert Paired(net, a, b);
      }
    }
  }

  /** What can happen: a message arrives, or a further server starts with the address of the hub. */
  datatype Event = Arrives(m: Message) | Starts(x: Peer)

  ghost predicate Happens(net: Net, event: Event, next: Net, hub: Peer) {
    match event
    case Arrives(m) => m in net.inFlight && m.dest in net.tables && next == Deliver(net, m)
    case Starts(x) => x !in net.tables && next == Join(net, x, hub)
  }

  ghost predicate History(nets: seq<Net>, events: seq<Event>, hub: Peer) {
    && |nets| == |events| + 1
    && forall i {:trigger events[i]} :: 0 <= i < |events| ==> Happens(nets[i], events[i], nets[i + 1], hub)
  }

  lemma {:induction false} HistoryKeepsHub(nets: seq<Net>, events: seq<Event>, i: nat, hub: Peer, selfish: set<Peer>)
    requires History(nets, events, hub) && Sound(nets[0], selfish) && ThroughHub(nets[0], hub) && i < |nets|
    ensures Sound(nets[i], selfish) && ThroughHub(nets[i], hub)
  {
    hide Deliver, Join, ThroughHub, Sound;
    if i > 0 {
      HistoryKeepsHub(nets, events, i - 1, hub, selfish);
      EventKeepsHub(nets[i - 1], events[i - 1], nets[i], hub, selfish);
    }
  }

  lemma {:induction false} EventKeepsHub(net: Net, event: Event, next: Net, hub: Peer, selfish: set<Peer>)
    requires Sound(net, selfish) && ThroughHub(net, hub) && Happens(net, event, next, hub)
    ensures Sound(next, selfish) && ThroughHub(next, hub)
  {
    hide Deliver, Join, DistinctTables, Answered, NotItself;
    match event
    case Arrives(m) =>
      SoundKept(net, m, selfish);
      HubKept(net, m, hub);
    case Starts(x) =>
      HubInNet(net, hub);
      JoinIsSound(net, x, hub, selfish);
      HubKeptByJoin(net, x, hub);
  }

  lemma {:induction false} HubInNet(net: Net, hub: Peer)
    requires ThroughHub(net, hub)
    ensures hub in net.tables
  {
  }

  /**
   From one server alone, or any full mesh, any number of servers may start with the address of the same member, at
   any time and at once, in between any deliveries: whenever nothing is under way, all servers know each other.
   */
  lemma {:induction false} ManyJoinersFullMesh(nets: seq<Net>, events: seq<Event>, i: nat, hub: Peer,
                                               selfish: set<Peer>)
    requires History(nets, events, hub) && i < |nets|
    requires Sound(nets[0], selfish) && FullMesh(nets[0]) && nets[0].inFlight == multiset{} && hub in nets[0].tables
    ensures Sound(nets[i], selfish) && (nets[i].inFlight == multiset{} ==> FullMesh(nets[i]))
  {
    hide Deliver, Join, ThroughHub, FullMesh, Mutual, Happens;
    MeshHasHub(nets[0], hub);
    HistoryKeepsHub(nets, events, i, hub, selfish);
    if nets[i].inFlight == multiset{} {
      QuietIsMutual(nets[i]);
      QuietHubIsMesh(nets[i], hub);
    }
  }

  /**
   The same where all servers start before anything is delivered, each but one with the address of that one, which may
   have been given an address itself or not.
   */
  lemma {:induction false} StartedTogetherFullMesh(nets: seq<Net>, delivered: seq<Message>, hub: Peer,
                                                   selfish: set<Peer>)
    requires Run(nets, delivered) && Initial(nets[0], selfish) && nets[|delivered|].inFlight == multiset{}
    requires hub in nets[0].tables && forall a :: a in nets[0].tables && a != hub ==> hub in nets[0].tables[a]
    ensures nets[|delivered|].tables.Keys == nets[0].tables.Keys && FullMesh(nets[|delivered|])
  {
    hide Deliver, ThroughHub, FullMesh, Mutual, Initial, Answered, DistinctTables;
    StartHasHub(nets[0], hub, selfish);
    InitialIsSound(nets[0], selfish);
    EveryRunIsSound(nets, delivered, |delivered|, selfish);
    var events := seq(|delivered|, i requires 0 <= i < |delivered| => Arrives(delivered[i]));
    assert History(nets, events, hub);
    HistoryKeepsHub(nets, events, |delivered|, hub, selfish);
    QuietIsMutual(nets[|delivered|]);
    QuietHubIsMesh(nets[|delivered|], hub);
  }

  lemma {:induction false} StartHasHub(net: Net, hub: Peer, selfish: set<Peer>)
    requires Initial(net, selfish) && hub in net.tables
    requires forall a :: a in net.tables && a != hub ==> hub in net.tables[a]
    ensures ThroughHub(net, hub)
  {
  }

  /**
   In particular, where all servers know each other and nothing is under way, one more may start from any of them:
   however the messages are delivered, once nothing is under way all servers know each other again.
   */
  lemma {:induction false} JoiningKeepsFullMesh(net: Net, x: Peer, target: Peer, nets: seq<Net>,
                                                delivered: seq<Message>, selfish: set<Peer>)
    requires Sound(net, selfish) && FullMesh(net) && net.inFlight == multiset{}
    requires x !in net.tables && target in net.tables
    requires Run(nets, delivered) && nets[0] == Join(net, x, target) && nets[|delivered|].inFlight == multiset{}
    ensures Sound(nets[|delivered|], selfish) && FullMesh(nets[|delivered|])
    ensures nets[|delivered|].tables.Keys == net.tables.Keys + {x}
  {
    hide Deliver, Join, FullMesh, Sound;
    var events := seq(|delivered|, i requires 0 <= i < |delivered| => Arrives(delivered[i]));
    assert History(nets, events, target);
    var longer := [net] + nets;
    assert History(longer, [Starts(x)] + events, target);
    ManyJoinersFullMesh(longer, [Starts(x)] + events, |nets|, target, selfish);
    JoinIsSound(net, x, target, selfish);
    EveryRunIsSound(nets, delivered, |delivered|, selfish);
    JoinKeys(net, x, target);
  }

  lemma {:induction false} JoinKeys(net: Net, x: Peer, target: Peer)
    ensures Join(net, x, target).tables.Keys == net.tables.Keys + {x}
  {
  }
}
