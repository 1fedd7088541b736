/**
 The table of connected servers: a linked list whose nodes are allocated, relinked and freed by hand.
 */
module PeerTable {

  /** Address and port, which together identify a server. */
  datatype Peer = Peer(addr: nat, port: nat)

  datatype Entry = Entry(peer: Peer, lastKeepAlive: int)

  /** A list node; `freed` remembers that its memory was given back. */
  class ConnectedServer {
    var peer: Peer
    var lastKeepAlive: int
    var next: ConnectedServer?
    ghost var freed: bool

    constructor (peer: Peer, lastKeepAlive: int, next: ConnectedServer?)
      ensures this.peer == peer && this.lastKeepAlive == lastKeepAlive && this.next == next && !freed
    {
      this.peer := peer;
      this.lastKeepAlive := lastKeepAlive;
      this.next := next;
      this.freed := false;
    }
  }

  // ---------- the list ----------

  /** The nodes of the list at `head`, in order: all different, none freed. */
  ghost predicate Listed(head: ConnectedServer?, nodes: seq<ConnectedServer>)
    reads nodes
  {
    if nodes == [] then head == null
    else head == nodes[0] && !head.freed && nodes[0] !in nodes[1..] && Listed(head.next, nodes[1..])
  }

  ghost function Entries(nodes: seq<ConnectedServer>): (s: seq<Entry>)
    reads nodes
    ensures |s| == |nodes|
    ensures forall i {:trigger s[i]} :: 0 <= i < |nodes| ==> s[i] == Entry(nodes[i].peer, nodes[i].lastKeepAlive)
  {
    if nodes == [] then [] else [Entry(nodes[0].peer, nodes[0].lastKeepAlive)] + Entries(nodes[1..])
  }

  /** From any node on, the list is a list. */
  lemma {:induction false} ListedFrom(head: ConnectedServer?, nodes: seq<ConnectedServer>, i: nat)
    requires Listed(head, nodes) && i < |nodes|
    ensures Listed(nodes[i], nodes[i..]) && !nodes[i].freed
    ensures nodes[i].next == if i + 1 < |nodes| then nodes[i + 1] else null
    decreases i
  {
    if i > 0 {
      ListedFrom(head.next, nodes[1..], i - 1);
      assert nodes[1..][i - 1..] == nodes[i..];
    } else {
      assert nodes[0..] == nodes;
    }
  }

  // ---------- entries without the heap ----------

  /** Where the first entry of a peer is; the length when there is none. */
  function First(entries: seq<Entry>, peer: Peer): (i: nat)
    ensures i <= |entries|
    ensures forall j {:trigger entries[j]} :: 0 <= j < i ==> entries[j].peer != peer
    ensures i < |entries| ==> entries[i].peer == peer
  {
    if entries == [] || entries[0].peer == peer then 0 else 1 + First(entries[1..], peer)
  }

  predicate Known(entries: seq<Entry>, peer: Peer) {
    exists i :: 0 <= i < |entries| && entries[i].peer == peer
  }

  predicate DistinctPeers(entries: seq<Entry>) {
    forall i, j :: 0 <= i < j < |entries| ==> entries[i].peer != entries[j].peer
  }

  function Without<T>(s: seq<T>, i: nat): (r: seq<T>)
    requires i <= |s|
    ensures i < |s| ==> |r| == |s| - 1
    ensures i == |s| ==> r == s
  {
    if i < |s| then s[..i] + s[i + 1..] else s
  }

  lemma {:induction false} WithoutBehindHead<T>(s: seq<T>, i: nat)
    requires s != [] && i < |s|
    ensures Without(s, i + 1) == [s[0]] + Without(s[1..], i)
  {
    if i + 1 < |s| {
      assert s[..i + 1] == [s[0]] + s[1..][..i];
      assert s[1..][i + 1..] == s[i + 2..];
    } else {
      assert s == [s[0]] + s[1..];
    }
  }

  function Touched(entries: seq<Entry>, peer: Peer, now: int): seq<Entry> {
    var i := First(entries, peer);
    if i < |entries| then entries[i := Entry(peer, now)] else entries
  }

  // ---------- the operations ----------

  method InsertServer(listHead: ConnectedServer?, peer: Peer, now: int, ghost nodes: seq<ConnectedServer>)
    returns (newServer: ConnectedServer)
    requires Listed(listHead, nodes)
    ensures fresh(newServer) && Listed(newServer, [newServer] + nodes)
    ensures Entries([newServer] + nodes) == [Entry(peer, now)] + Entries(nodes)
  {
    newServer := new ConnectedServer(peer, now, listHead);
    assert ([newServer] + nodes)[1..] == nodes;
  }

  method CountServer(list: ConnectedServer?, ghost nodes: seq<ConnectedServer>) returns (count: nat)
    requires Listed(list, nodes)
    ensures count == |nodes|
    decreases |nodes|
  {
    if list == null {
      return 0;
    }
    var rest := CountServer(list.next, nodes[1..]);
    count := 1 + rest;
  }

  method IsKnown(peer: Peer, serverTable: ConnectedServer?, ghost nodes: seq<ConnectedServer>) returns (known: bool)
    requires Listed(serverTable, nodes)
    ensures known <==> Known(Entries(nodes), peer)
    decreases |nodes|
  {
    ghost var entries := Entries(nodes);
    if serverTable == null {
      return false;
    } else if serverTable.peer == peer {
      assert entries[0].peer == peer;
      return true;
    }
    known := IsKnown(peer, serverTable.next, nodes[1..]);
    assert entries[1..] == Entries(nodes[1..]);
    KnownBehindHead(entries, peer);
  }

  lemma {:induction false} KnownBehindHead(entries: seq<Entry>, peer: Peer)
    requires entries != [] && entries[0].peer != peer
    ensures Known(entries, peer) <==> Known(entries[1..], peer)
  {
    if Known(entries[1..], peer) {
      var i :| 0 <= i < |entries[1..]| && entries[1..][i].peer == peer;
      assert entries[i + 1].peer == peer;
    }
    if Known(entries, peer) {
      var i :| 0 <= i < |entries| && entries[i].peer == peer;
      assert entries[1..][i - 1].peer == peer;
    }
  }

  method GetServer(peer: Peer, serverTable: ConnectedServer?,
                   ghost nodes: seq<ConnectedServer>) returns (server: ConnectedServer?)
    requires Listed(serverTable, nodes)
    ensures var i := First(Entries(nodes), peer);
            server == if i < |nodes| then nodes[i] else null
    decreases |nodes|
  {
    hide First, Entries;
    if serverTable == null {
      return null;
    }
    EntriesBehindHead(nodes);
    FirstBehindHead(Entries(nodes), peer);
    if serverTable.peer == peer {
      return serverTable;
    }
    server := GetServer(peer, serverTable.next, nodes[1..]);
  }

  method KeepAliveServer(server: ConnectedServer?, peer: Peer, now: int, ghost nodes: seq<ConnectedServer>)
    requires Listed(server, nodes)
    modifies nodes
    ensures Listed(server, nodes) && Entries(nodes) == Touched(old(Entries(nodes)), peer, now)
    ensures forall n {:trigger n.next} {:trigger n.freed} :: n in nodes ==>
              n.next == old(n.next) && n.freed == old(n.freed)
    decreases |nodes|
  {
    hide Touched;
    ghost var before := Entries(nodes);
    if server == null {
      TouchedNone(before, peer, now);
      return;
    }
    ghost var rest := nodes[1..];
    assert before[1..] == Entries(rest);
    TouchedHead(before, peer, now);
    if server.peer == peer {
      server.lastKeepAlive := now;
    } else {
      KeepAliveServer(server.next, peer, now, rest);
    }
  }

  lemma {:induction false} TouchedNone(entries: seq<Entry>, peer: Peer, now: int)
    requires entries == []
    ensures Touched(entries, peer, now) == []
  {
  }

  lemma {:induction false} TouchedHead(entries: seq<Entry>, peer: Peer, now: int)
    requires entries != []
    ensures Touched(entries, peer, now) == if entries[0].peer == peer then [Entry(peer, now)] + entries[1..]
                                           else [entries[0]] + Touched(entries[1..], peer, now)
  {
  }

  lemma {:induction false} NothingWithout<T, U>(nodes: seq<T>, entries: seq<U>)
    requires nodes == [] && entries == []
    ensures Without(nodes, 0) == [] && Without(entries, 0) == []
  {
  }

  lemma {:induction false} WithoutHead<T>(s: seq<T>)
    requires s != []
    ensures Without(s, 0) == s[1..]
  {
  }

  lemma {:induction false} OnlyFrom<T>(s: seq<T>, i: nat)
    requires i <= |s|
    ensures forall x {:trigger x in Without(s, i)} :: x in Without(s, i) ==> x in s
  {
  }

  lemma {:induction false} Behind(head: ConnectedServer, rest: seq<ConnectedServer>)
    requires !head.freed && head !in rest && Listed(head.next, rest)
    ensures Listed(head, [head] + rest)
    ensures Entries([head] + rest) == [Entry(head.peer, head.lastKeepAlive)] + Entries(rest)
  {
    assert ([head] + rest)[1..] == rest;
  }

  lemma {:induction false} EntriesBehindHead(nodes: seq<ConnectedServer>)
    requires nodes != []
    ensures Entries(nodes)[1..] == Entries(nodes[1..])
  {
  }

  lemma {:induction false} FirstBehindHead(entries: seq<Entry>, peer: Peer)
    requires entries != []
    ensures First(entries, peer) == if entries[0].peer == peer then 0 else First(entries[1..], peer) + 1
  {
  }

  /** Unlinks and frees the first node of a peer; the others keep their order and their entries. */
  method SuppressionServer(listHead: ConnectedServer?, peer: Peer, ghost nodes: seq<ConnectedServer>)
    returns (newHead: ConnectedServer?)
    requires Listed(listHead, nodes)
    modifies nodes
    ensures var i := First(old(Entries(nodes)), peer);
            && Listed(newHead, Without(nodes, i))
            && Entries(Without(nodes, i)) == Without(old(Entries(nodes)), i)
            && forall n {:trigger n.freed} :: n in nodes ==> (n.freed <==> n !in Without(nodes, i))
    ensures forall n {:trigger n.peer} {:trigger n.lastKeepAlive} :: n in nodes ==>
              n.peer == old(n.peer) && n.lastKeepAlive == old(n.lastKeepAlive)
    decreases |nodes|
  {
    hide Without, First, Entries;
    ghost var before := Entries(nodes);
    if listHead == null {
      NothingWithout(nodes, before);
      return null;
    }
    assert !listHead.freed;
    ghost var rest := nodes[1..];
    EntriesBehindHead(nodes);
    FirstBehindHead(before, peer);
    if listHead.peer == peer {
      var tmp := listHead.next;
      listHead.freed := true;
      NoneFreed(tmp, rest);
      HeadFreed(listHead, nodes, rest);
      WithoutHead(nodes);
      WithoutHead(before);
      return tmp;
    }
    ghost var i := First(Entries(rest), peer);
    ghost var kept := Without(rest, i);
    WithoutBehindHead(nodes, i);
    WithoutBehindHead(before, i);
    OnlyFrom(rest, i);
    var newNext := SuppressionServer(listHead.next, peer, rest);
    listHead.next := newNext;
    newHead := listHead;
    Behind(listHead, kept);
    FreedBehindHead(listHead, nodes, rest, kept);
  }

  lemma {:induction false} FreedBehindHead(head: ConnectedServer, nodes: seq<ConnectedServer>,
                                           rest: seq<ConnectedServer>, kept: seq<ConnectedServer>)
    requires nodes == [head] + rest && head !in rest && !head.freed
    requires forall n {:trigger n.freed} :: n in rest ==> (n.freed <==> n !in kept)
    ensures forall n {:trigger n.freed} :: n in nodes ==> (n.freed <==> n !in [head] + kept)
  {
  }

  lemma {:induction false} HeadFreed(head: ConnectedServer, nodes: seq<ConnectedServer>, rest: seq<ConnectedServer>)
    requires nodes == [head] + rest && head !in rest && head.freed
    requires forall n {:trigger n.freed} :: n in rest ==> !n.freed
    ensures forall n {:trigger n.freed} :: n in nodes ==> (n.freed <==> n !in rest)
  {
  }

  lemma {:induction false} NoneFreed(head: ConnectedServer?, nodes: seq<ConnectedServer>)
    requires Listed(head, nodes)
    ensures forall n {:trigger n.freed} :: n in nodes ==> !n.freed
  {
    if nodes != [] {
      NoneFreed(nodes[0].next, nodes[1..]);
    }
  }

  // ---------- the sweep ----------

  predicate Dead(entry: Entry, me: Peer, sysdate: int) {
    entry.peer == me || sysdate - entry.lastKeepAlive > 2
  }

  /** What the sweep leaves of a table, when its first i entries were looked at. */
  function Swept(entries: seq<Entry>, i: nat, me: Peer, sysdate: int): seq<Entry>
    requires i <= |entries|
    decreases |entries| - i
  {
    if i == |entries| then entries
    else if Dead(entries[i], me, sysdate) then Swept(Without(entries, First(entries, entries[i].peer)), i, me, sysdate)
    else Swept(entries, i + 1, me, sysdate)
  }

  function Alive(entries: seq<Entry>, me: Peer, sysdate: int): seq<Entry> {
    if entries == [] then []
    else
      var init, last := entries[..|entries| - 1], entries[|entries| - 1];
      if Dead(last, me, sysdate) then Alive(init, me, sysdate) else Alive(init, me, sysdate) + [last]
  }

  /** Two entries of one server, the one in front live and the other dead. */
  predicate Disorder(entries: seq<Entry>, j: nat, d: nat, me: Peer, sysdate: int) {
    && j < d < |entries| && entries[j].peer == entries[d].peer
    && Dead(entries[d], me, sysdate) && !Dead(entries[j], me, sysdate)
  }

  /** No live entry of a server stands in front of a dead one; so it is where every server has one entry. */
  ghost predicate Orderly(entries: seq<Entry>, me: Peer, sysdate: int) {
    forall j, d :: !Disorder(entries, j, d, me, sysdate)
  }

  /** The sweep keeps exactly the live entries, in order, if and only if the table is orderly. */
  lemma {:induction false} SweepKeepsTheLiving(entries: seq<Entry>, me: Peer, sysdate: int)
    ensures Swept(entries, 0, me, sysdate) == Alive(entries, me, sysdate) <==> Orderly(entries, me, sysdate)
    ensures DistinctPeers(entries) ==> Swept(entries, 0, me, sysdate) == Alive(entries, me, sysdate)
  {
    if Orderly(entries, me, sysdate) {
      OrderlySweep(entries, 0, me, sysdate);
    } else {
      var j, d :| Disorder(entries, j, d, me, sysdate);
      var e := DisorderlySweep(entries, 0, j, d, me, sysdate);
      AliveAreAlive(entries, me, sysdate);
    }
  }

  lemma {:induction false} OrderlySweep(entries: seq<Entry>, i: nat, me: Peer, sysdate: int)
    requires Orderly(entries, me, sysdate) && i <= |entries|
    requires forall j {:trigger entries[j]} :: 0 <= j < i ==> !Dead(entries[j], me, sysdate)
    ensures Swept(entries, i, me, sysdate) == Alive(entries, me, sysdate)
    decreases |entries| - i
  {
    hide Without, First, Dead, Orderly;
    if i == |entries| {
      AllAlive(entries, me, sysdate);
    } else if Dead(entries[i], me, sysdate) {
      DeadIsFirst(entries, i, me, sysdate);
      WithoutAt(entries, i);
      StillOrderly(entries, i, me, sysdate);
      OrderlySweep(Without(entries, i), i, me, sysdate);
      AliveWithout(entries, i, me, sysdate);
    } else {
      OrderlySweep(entries, i + 1, me, sysdate);
    }
  }

  lemma {:induction false} DeadIsFirst(entries: seq<Entry>, i: nat, me: Peer, sysdate: int)
    requires Orderly(entries, me, sysdate) && i < |entries| && Dead(entries[i], me, sysdate)
    requires forall j {:trigger entries[j]} :: 0 <= j < i ==> !Dead(entries[j], me, sysdate)
    ensures First(entries, entries[i].peer) == i
  {
    hide Dead;
    assert !Disorder(entries, First(entries, entries[i].peer), i, me, sysdate);
  }

  lemma {:induction false} StillOrderly(entries: seq<Entry>, i: nat, me: Peer, sysdate: int)
    requires Orderly(entries, me, sysdate) && i < |entries|
    ensures Orderly(Without(entries, i), me, sysdate)
  {
    hide Dead, Without;
    WithoutAt(entries, i);
    forall j: nat, d: nat ensures !Disorder(Without(entries, i), j, d, me, sysdate) {
      assert !Disorder(entries, if j < i then j else j + 1, if d < i then d else d + 1, me, sysdate);
    }
  }

  /** An entry that was passed although it is dead, or another of its server, is there in the end. */
  lemma {:induction false} DeadEntryStays(entries: seq<Entry>, i: nat, j: nat, me: Peer,
                                          sysdate: int) returns (e: Entry)
    requires j < i <= |entries| && Dead(entries[j], me, sysdate)
    ensures e in Swept(entries, i, me, sysdate) && Dead(e, me, sysdate)
    decreases |entries| - i
  {
    hide Dead, First, Without;
    if i == |entries| {
      e := entries[j];
    } else if Dead(entries[i], me, sysdate) {
      var k := First(entries, entries[i].peer);
      var left := Without(entries, k);
      WithoutAt(entries, k);
      if k < i {
        assert left[i - 1] == entries[i];
        e := DeadEntryStays(left, i, i - 1, me, sysdate);
      } else {
        assert left[j] == entries[j];
        e := DeadEntryStays(left, i, j, me, sysdate);
      }
    } else {
      e := DeadEntryStays(entries, i + 1, j, me, sysdate);
    }
  }

  lemma {:induction false} DisorderlySweep(entries: seq<Entry>, i: nat, j: nat, d: nat, me: Peer, sysdate: int)
    returns (e: Entry)
    requires i <= |entries| && Disorder(entries, j, d, me, sysdate)
    requires forall k {:trigger entries[k]} :: 0 <= k < i ==> !Dead(entries[k], me, sysdate)
    ensures e in Swept(entries, i, me, sysdate) && Dead(e, me, sysdate)
    decreases |entries| - i
  {
    hide Without, First, Dead;
    assert d >= i;
    if Dead(entries[i], me, sysdate) {
      var k := First(entries, entries[i].peer);
      WithoutAt(entries, k);
      if k < i {
        e := DeadEntryStays(Without(entries, k), i, i - 1, me, sysdate);
      } else {
        var j', d' := StillDisorderly(entries, i, j, d, me, sysdate);
        e := DisorderlySweep(Without(entries, k), i, j', d', me, sysdate);
      }
    } else {
      e := DisorderlySweep(entries, i + 1, j, d, me, sysdate);
    }
  }

  lemma {:induction false} WithoutAt<T>(s: seq<T>, k: nat)
    requires k < |s|
    ensures forall i {:trigger s[i]} {:trigger Without(s, k)[i]} :: 0 <= i < k ==> Without(s, k)[i] == s[i]
    ensures forall i {:trigger s[i]} :: k < i < |s| ==> Without(s, k)[i - 1] == s[i]
    ensures forall i {:trigger Without(s, k)[i]} :: k <= i < |s| - 1 ==> Without(s, k)[i] == s[i + 1]
  {
  }

  lemma {:induction false} StillDisorderly(entries: seq<Entry>, i: nat, j: nat, d: nat, me: Peer, sysdate: int)
    returns (j': nat, d': nat)
    requires i < |entries| && Dead(entries[i], me, sysdate) && First(entries, entries[i].peer) == i
    requires Disorder(entries, j, d, me, sysdate)
    ensures Disorder(Without(entries, i), j', d', me, sysdate)
  {
    hide Dead;
    assert d != i && j != i;
    j', d' := if j < i then j else j - 1, if d < i then d else d - 1;
    WithoutAt(entries, i);
  }

  lemma {:induction false} AliveAreAlive(entries: seq<Entry>, me: Peer, sysdate: int)
    ensures forall e :: e in Alive(entries, me, sysdate) ==> !Dead(e, me, sysdate)
  {
    if entries != [] {
      AliveAreAlive(entries[..|entries| - 1], me, sysdate);
    }
  }

  lemma {:induction false} AllAlive(entries: seq<Entry>, me: Peer, sysdate: int)
    requires forall j {:trigger entries[j]} :: 0 <= j < |entries| ==> !Dead(entries[j], me, sysdate)
    ensures Alive(entries, me, sysdate) == entries
  {
    if entries != [] {
      AllAlive(entries[..|entries| - 1], me, sysdate);
      assert entries == entries[..|entries| - 1] + [entries[|entries| - 1]];
    }
  }

  lemma {:induction false} AliveWithout(entries: seq<Entry>, i: nat, me: Peer, sysdate: int)
    requires i < |entries| && Dead(entries[i], me, sysdate)
    ensures Alive(Without(entries, i), me, sysdate) == Alive(entries, me, sysdate)
    decreases |entries|
  {
    hide Alive, Dead, Without;
    var init, last := entries[..|entries| - 1], entries[|entries| - 1];
    SplitLast(entries);
    AliveOneMore(init, last, me, sysdate);
    if i == |entries| - 1 {
      WithoutLast(entries);
    } else {
      AliveWithout(init, i, me, sysdate);
      WithoutInFront(entries, i);
      AliveOneMore(Without(init, i), last, me, sysdate);
    }
  }

  lemma {:induction false} SplitLast<T>(s: seq<T>)
    requires s != []
    ensures s == s[..|s| - 1] + [s[|s| - 1]]
  {
  }

  lemma {:induction false} WithoutLast<T>(s: seq<T>)
    requires s != []
    ensures Without(s, |s| - 1) == s[..|s| - 1]
  {
  }

  lemma {:induction false} WithoutInFront<T>(s: seq<T>, i: nat)
    requires i < |s| - 1
    ensures Without(s, i) == Without(s[..|s| - 1], i) + [s[|s| - 1]]
  {
  }

  lemma {:induction false} AliveOneMore(entries: seq<Entry>, e: Entry, me: Peer, sysdate: int)
    ensures Alive(entries + [e], me, sysdate) == Alive(entries, me, sysdate) + if Dead(e, me, sysdate) then [] else [e]
  {
    assert (entries + [e])[..|entries|] == entries;
  }

  /**
   Removes this server and all that have been silent for more than two seconds. The node to go on with is
   fetched before the current one may be freed, and no node is read after it was.
   */
  method SuppressionDeadServer(serverTableParam: ConnectedServer?, me: Peer, sysdate: int,
                               ghost nodesParam: seq<ConnectedServer>)
    returns (serverTable: ConnectedServer?, ghost nodes: seq<ConnectedServer>)
    requires Listed(serverTableParam, nodesParam)
    modifies nodesParam
    ensures Listed(serverTable, nodes) && Entries(nodes) == Swept(old(Entries(nodesParam)), 0, me, sysdate)
    ensures forall n :: n in nodes ==> n in nodesParam
    ensures forall n {:trigger n.freed} :: n in nodesParam ==> (n.freed <==> n !in nodes)
  {
    hide Listed, Entries, First;
    NoneFreed(serverTableParam, nodesParam);
    serverTable, nodes := serverTableParam, nodesParam;
    var server := serverTable;
    ghost var i := 0;
    HeadOf(serverTable, nodes);
    while server != null
      invariant Listed(serverTable, nodes) && (forall n :: n in nodes ==> n in nodesParam)
      invariant forall n {:trigger n.freed} :: n in nodesParam ==> (n.freed <==> n !in nodes)
      invariant i <= |nodes| && server == if i < |nodes| then nodes[i] else null
      invariant Swept(Entries(nodes), i, me, sysdate) == Swept(old(Entries(nodesParam)), 0, me, sysdate)
      decreases |nodes| - i
    {
      ListedFrom(serverTable, nodes, i);
      assert !server.freed;
      var tmp := server.next;
      ghost var entries := Entries(nodes);
      if server.peer == me || sysdate - server.lastKeepAlive > 2 {
        ghost var k := First(entries, server.peer);
        assert k <= i;
        ghost var left := Without(nodes, k);
        OnlyFrom(nodes, k);
        assert forall j :: 0 <= j < |nodes| ==> nodes[j] in nodesParam;
        serverTable := SuppressionServer(serverTable, server.peer, nodes);
        nodes := left;
      } else {
        i := i + 1;
      }
      server := tmp;
    }
  }

  lemma {:induction false} HeadOf(head: ConnectedServer?, nodes: seq<ConnectedServer>)
    requires Listed(head, nodes)
    ensures head == if nodes == [] then null else nodes[0]
  {
  }

  // ---------- keeping alive, then sweeping ----------

  lemma {:induction false} InAlive(entries: seq<Entry>, e: Entry, me: Peer, sysdate: int)
    ensures e in Alive(entries, me, sysdate) <==> e in entries && !Dead(e, me, sysdate)
  {
    hide Dead;
    if entries != [] {
      SplitLast(entries);
      InAlive(entries[..|entries| - 1], e, me, sysdate);
    }
  }

  lemma {:induction false} AliveStaysDistinct(entries: seq<Entry>, me: Peer, sysdate: int)
    requires DistinctPeers(entries)
    ensures DistinctPeers(Alive(entries, me, sysdate))
  {
    hide Dead;
    if entries != [] {
      var init, last := entries[..|entries| - 1], entries[|entries| - 1];
      AliveStaysDistinct(init, me, sysdate);
      forall i | 0 <= i < |Alive(init, me, sysdate)| ensures Alive(init, me, sysdate)[i].peer != last.peer {
        InAlive(init, Alive(init, me, sysdate)[i], me, sysdate);
      }
    }
  }

  lemma {:induction false} TouchedStaysDistinct(entries: seq<Entry>, peer: Peer, now: int)
    requires DistinctPeers(entries)
    ensures DistinctPeers(Touched(entries, peer, now))
    ensures forall i {:trigger Touched(entries, peer, now)[i]} :: 0 <= i < |entries| ==>
              Touched(entries, peer, now)[i] == if entries[i].peer == peer then Entry(peer, now) else entries[i]
  {
    var i := First(entries, peer);
    forall j {:trigger entries[j]} | 0 <= j < |entries| && j != i ensures entries[j].peer != peer {
      assert i < |entries| ==> entries[i].peer == peer;
    }
  }

  /**
   On a table with distinct servers, a known server that was heard of at `now` is still known after a sweep if and
   only if it is not this server itself and the sweep comes within two seconds.
   */
  lemma {:induction false} KeepAliveLasts(entries: seq<Entry>, peer: Peer, now: int, me: Peer, sysdate: int)
    requires DistinctPeers(entries) && Known(entries, peer)
    ensures Known(Swept(Touched(entries, peer, now), 0, me, sysdate), peer) <==> peer != me && sysdate <= now + 2
  {
    hide Swept, Touched, Alive;
    var touched := Touched(entries, peer, now);
    TouchedStaysDistinct(entries, peer, now);
    SweepKeepsTheLiving(touched, me, sysdate);
    var alive := Alive(touched, me, sysdate);
    var k :| 0 <= k < |entries| && entries[k].peer == peer;
    TouchedLength(entries, peer, now);
    assert touched[k] == Entry(peer, now);
    InAlive(touched, Entry(peer, now), me, sysdate);
    if Known(alive, peer) {
      var i :| 0 <= i < |alive| && alive[i].peer == peer;
      InAlive(touched, alive[i], me, sysdate);
      var j :| 0 <= j < |touched| && touched[j] == alive[i];
      assert touched[j] == Entry(peer, now);
    }
    if Entry(peer, now) in alive {
      var i :| 0 <= i < |alive| && alive[i] == Entry(peer, now);
      assert alive[i].peer == peer;
    }
  }

  lemma {:induction false} TouchedLength(entries: seq<Entry>, peer: Peer, now: int)
    ensures |Touched(entries, peer, now)| == |entries|
  {
  }

  /** The table after sweeps at these times. */
  function SweptAt(entries: seq<Entry>, me: Peer, times: seq<int>): seq<Entry> {
    if times == [] then entries
    else Swept(SweptAt(entries, me, times[..|times| - 1]), 0, me, times[|times| - 1])
  }

  /** Any number of sweeps within two seconds leave it in the table, with its time. */
  lemma {:induction false} SweepsInTimeSpareIt(entries: seq<Entry>, e: Entry, me: Peer, times: seq<int>)
    requires DistinctPeers(entries) && e in entries && e.peer != me
    requires forall i {:trigger times[i]} :: 0 <= i < |times| ==> times[i] <= e.lastKeepAlive + 2
    ensures DistinctPeers(SweptAt(entries, me, times)) && e in SweptAt(entries, me, times)
    decreases |times|
  {
    hide Swept, Alive, DistinctPeers;
    if times != [] {
      var before, sysdate := SweptAt(entries, me, times[..|times| - 1]), times[|times| - 1];
      SweepsInTimeSpareIt(entries, e, me, times[..|times| - 1]);
      SweepKeepsTheLiving(before, me, sysdate);
      AliveStaysDistinct(before, me, sysdate);
      InAlive(before, e, me, sysdate);
    }
  }
}
