/**
 Servers that start at the same time with the addresses of different servers need not all find each other: a run of
 five servers after which nothing is under way and two of them do not know each other.
 */
module DiscoveryGap {
  import opened PeerTable
  import opened Gossip

  const P0: Peer := Peer(0, 1)
  const P1: Peer := Peer(1, 1)
  const P2: Peer := Peer(2, 1)
  const P3: Peer := Peer(3, 1)
  const P4: Peer := Peer(4, 1)

  /** The tables of the five servers, and the messages under way in a list. */
  datatype Board = Board(tables: seq<seq<Peer>>, listed: seq<Message>)

  predicate FiveTables(b: Board) {
    |b.tables| == 5
  }

  function ByServer(t: seq<seq<Peer>>): map<Peer, seq<Peer>>
    requires |t| == 5
  {
    map[P0 := t[0], P1 := t[1], P2 := t[2], P3 := t[3], P4 := t[4]]
  }

  function NetOf(b: Board): Net
    requires FiveTables(b)
  {
    Net(ByServer(b.tables), multiset(b.listed))
  }

  /** The i-th listed message can arrive, and leads from one board to the next. */
  ghost predicate Leads(b: Board, i: nat, next: Board) {
    && FiveTables(b) && FiveTables(next) && i < |b.listed| && b.listed[i].dest in {P0, P1, P2, P3, P4}
    && (var m := b.listed[i];
        var outcome := Received(m.dest, b.tables[m.dest.addr], m);
        && next.tables[m.dest.addr] == outcome.table
        && (forall j {:trigger next.tables[j]} :: 0 <= j < 5 && j != m.dest.addr ==> next.tables[j] == b.tables[j])
        && next.listed == b.listed[..i] + b.listed[i + 1..] + outcome.sent)
  }

  lemma {:induction false} LeadsIsDelivery(b: Board, i: nat, next: Board)
    requires Leads(b, i, next)
    ensures b.listed[i] in NetOf(b).inFlight && b.listed[i].dest in NetOf(b).tables
    ensures Deliver(NetOf(b), b.listed[i]) == NetOf(next)
  {
    hide Received;
    var m := b.listed[i];
    Removed(b.listed, i, Received(m.dest, b.tables[m.dest.addr], m).sent);
    OneTable(b.tables, next.tables, m.dest);
  }

  lemma {:induction false} OneTable(t: seq<seq<Peer>>, u: seq<seq<Peer>>, p: Peer)
    requires |t| == |u| == 5 && p in {P0, P1, P2, P3, P4}
    requires forall j {:trigger u[j]} :: 0 <= j < 5 && j != p.addr ==> u[j] == t[j]
    ensures p in ByServer(t) && ByServer(t)[p] == t[p.addr] && ByServer(u) == ByServer(t)[p := u[p.addr]]
  {
  }

  lemma {:induction false} Removed(s: seq<Message>, i: nat, sent: seq<Message>)
    requires i < |s|
    ensures s[i] in multiset(s)
    ensures multiset(s[..i] + s[i + 1..] + sent) == multiset(s) - multiset{s[i]} + multiset(sent)
  {
    assert s == s[..i] + ([s[i]] + s[i + 1..]);
    assert multiset(s) == multiset(s[..i]) + (multiset{s[i]} + multiset(s[i + 1..]));
  }

  /** Which of the listed messages arrives at each step. */
  const ARRIVALS: seq<nat> := [3, 4, 3, 3, 4, 3, 3, 3, 1, 3, 2, 2, 2, 4, 3, 0, 4, 4, 3, 3, 1, 3, 3, 3, 2, 0, 1, 0, 0,
    0, 0]

  /** The tables after each change. */
  function Tables(j: nat): (t: seq<seq<Peer>>)
    ensures |t| == 5
  {
    match j
    case 0 => [[], [P0], [P0], [P1], [P3]]
    case 1 => [[], [P0], [P0], [P4, P1], [P3]]
    case 2 => [[], [P0], [P0], [P4, P1], [P1, P3]]
    case 3 => [[], [P4, P0], [P0], [P4, P1], [P1, P3]]
    case 4 => [[], [P4, P0], [P0], [P4, P1], [P0, P1, P3]]
    case 5 => [[P4], [P4, P0], [P0], [P4, P1], [P0, P1, P3]]
    case 6 => [[P2, P4], [P4, P0], [P0], [P4, P1], [P0, P1, P3]]
    case 7 => [[P2, P4], [P4, P0], [P4, P0], [P4, P1], [P0, P1, P3]]
    case 8 => [[P2, P4], [P4, P0], [P4, P0], [P4, P1], [P2, P0, P1, P3]]
    case 9 => [[P2, P4], [P4, P0], [P3, P4, P0], [P4, P1], [P2, P0, P1, P3]]
    case 10 => [[P1, P2, P4], [P4, P0], [P3, P4, P0], [P4, P1], [P2, P0, P1, P3]]
    case 11 => [[P1, P2, P4], [P2, P4, P0], [P3, P4, P0], [P4, P1], [P2, P0, P1, P3]]
    case 12 => [[P1, P2, P4], [P2, P4, P0], [P1, P3, P4, P0], [P4, P1], [P2, P0, P1, P3]]
    case 13 => [[P1, P2, P4], [P3, P2, P4, P0], [P1, P3, P4, P0], [P4, P1], [P2, P0, P1, P3]]
    case _ => [[P1, P2, P4], [P3, P2, P4, P0], [P1, P3, P4, P0], [P2, P4, P1], [P2, P0, P1, P3]]
  }

  /** The network before the k-th step. */
  function Stage(k: nat): (b: Board)
    ensures FiveTables(b)
  {
    match k
    case 0 => Board(Tables(0), [Connect(P0, P1), Connect(P0, P2), Connect(P1, P3), Connect(P3, P4)])
    case 1 => Board(Tables(1), [Connect(P0, P1), Connect(P0, P2), Connect(P1, P3), Share(P4, P1), Connect(P4, P3)])
    case 2 => Board(Tables(1), [Connect(P0, P1), Connect(P0, P2), Connect(P1, P3), Share(P4, P1)])
    case 3 => Board(Tables(2), [Connect(P0, P1), Connect(P0, P2), Connect(P1, P3), Connect(P1, P4)])
    case 4 => Board(Tables(3), [Connect(P0, P1), Connect(P0, P2), Connect(P1, P3), Share(P4, P0), Connect(P4, P1)])
    case 5 => Board(Tables(3), [Connect(P0, P1), Connect(P0, P2), Connect(P1, P3), Share(P4, P0)])
    case 6 => Board(Tables(4), [Connect(P0, P1), Connect(P0, P2), Connect(P1, P3), Connect(P0, P4)])
    case 7 => Board(Tables(5), [Connect(P0, P1), Connect(P0, P2), Connect(P1, P3), Connect(P4, P0)])
    case 8 => Board(Tables(5), [Connect(P0, P1), Connect(P0, P2), Connect(P1, P3)])
    case 9 => Board(Tables(6), [Connect(P0, P1), Connect(P1, P3), Share(P2, P4), Connect(P2, P0)])
    case 10 => Board(Tables(6), [Connect(P0, P1), Connect(P1, P3), Share(P2, P4)])
    case 11 => Board(Tables(7), [Connect(P0, P1), Connect(P1, P3), Connect(P4, P2)])
    case 12 => Board(Tables(8), [Connect(P0, P1), Connect(P1, P3), Share(P2, P0), Share(P2, P1), Share(P2, P3),
      Connect(P2, P4)])
    case 13 => Board(Tables(8), [Connect(P0, P1), Connect(P1, P3), Share(P2, P1), Share(P2, P3), Connect(P2, P4)])
    case 14 => Board(Tables(8), [Connect(P0, P1), Connect(P1, P3), Share(P2, P1), Share(P2, P3)])
    case 15 => Board(Tables(9), [Connect(P0, P1), Connect(P1, P3), Share(P2, P1), Connect(P3, P2)])
    case 16 => Board(Tables(10), [Connect(P1, P3), Share(P2, P1), Connect(P3, P2), Share(P1, P2), Share(P1, P4),
      Connect(P1, P0)])
    case 17 => Board(Tables(10), [Connect(P1, P3), Share(P2, P1), Connect(P3, P2), Share(P1, P2), Connect(P1, P0)])
    case 18 => Board(Tables(10), [Connect(P1, P3), Share(P2, P1), Connect(P3, P2), Share(P1, P2)])
    case 19 => Board(Tables(11), [Connect(P1, P3), Share(P2, P1), Connect(P3, P2), Connect(P2, P1)])
    case 20 => Board(Tables(12), [Connect(P1, P3), Share(P2, P1), Connect(P3, P2), Share(P1, P3), Share(P1, P4),
      Share(P1, P0), Connect(P1, P2)])
    case 21 => Board(Tables(12), [Connect(P1, P3), Connect(P3, P2), Share(P1, P3), Share(P1, P4), Share(P1, P0),
      Connect(P1, P2)])
    case 22 => Board(Tables(12), [Connect(P1, P3), Connect(P3, P2), Share(P1, P3), Share(P1, P0), Connect(P1, P2)])
    case 23 => Board(Tables(12), [Connect(P1, P3), Connect(P3, P2), Share(P1, P3), Connect(P1, P2)])
    case 24 => Board(Tables(12), [Connect(P1, P3), Connect(P3, P2), Share(P1, P3)])
    case 25 => Board(Tables(13), [Connect(P1, P3), Connect(P3, P2), Connect(P3, P1)])
    case 26 => Board(Tables(13), [Connect(P3, P2), Connect(P3, P1)])
    case 27 => Board(Tables(13), [Connect(P3, P2)])
    case 28 => Board(Tables(14), [Share(P2, P4), Share(P2, P1), Connect(P2, P3)])
    case 29 => Board(Tables(14), [Share(P2, P1), Connect(P2, P3)])
    case 30 => Board(Tables(14), [Connect(P2, P3)])
    case _ => Board(Tables(14), [])
  }

  /** The message that arrives at step k. */
  function Arriving(k: nat): Message
    requires k < |ARRIVALS|
  {
    var b := Stage(k);
    if ARRIVALS[k] < |b.listed| then b.listed[ARRIVALS[k]] else Connect(P0, P0)
  }

  ghost predicate Follows(k: nat)
    requires k < |ARRIVALS|
  {
    Leads(Stage(k), ARRIVALS[k], Stage(k + 1))
  }

  lemma {:induction false} Step0()
    ensures Follows(0)
  {}

  lemma {:induction false} Step1()
    ensures Follows(1)
  {}

  lemma {:induction false} Step2()
    ensures Follows(2)
  {}

  lemma {:induction false} Step3()
    ensures Follows(3)
  {}

  lemma {:induction false} Step4()
    ensures Follows(4)
  {}

  lemma {:induction false} Step5()
    ensures Follows(5)
  {}

  lemma {:induction false} Step6()
    ensures Follows(6)
  {}

  lemma {:induction false} Step7()
    ensures Follows(7)
  {}

  lemma {:induction false} Step8()
    ensures Follows(8)
  {}

  lemma {:induction false} Step9()
    ensures Follows(9)
  {}

  lemma {:induction false} Step10()
    ensures Follows(10)
  {}

  lemma {:induction false} Step11()
    ensures Follows(11)
  {}

  lemma {:induction false} Step12()
    ensures Follows(12)
  {}

  lemma {:induction false} Step13()
    ensures Follows(13)
  {}

  lemma {:induction false} Step14()
    ensures Follows(14)
  {}

  lemma {:induction false} Step15()
    ensures Follows(15)
  {}

  lemma {:induction false} Step16()
    ensures Follows(16)
  {}

  lemma {:induction false} Step17()
    ensures Follows(17)
  {}

  lemma {:induction false} Step18()
    ensures Follows(18)
  {}

  lemma {:induction false} Step19()
    ensures Follows(19)
  {}

  lemma {:induction false} Step20()
    ensures Follows(20)
  {}

  lemma {:induction false} Step21()
    ensures Follows(21)
  {}

  lemma {:induction false} Step22()
    ensures Follows(22)
  {}

  lemma {:induction false} Step23()
    ensures Follows(23)
  {}

  lemma {:induction false} Step24()
    ensures Follows(24)
  {}

  lemma {:induction false} Step25()
    ensures Follows(25)
  {}

  lemma {:induction false} Step26()
    ensures Follows(26)
  {}

  lemma {:induction false} Step27()
    ensures Follows(27)
  {}

  lemma {:induction false} Step28()
    ensures Follows(28)
  {}

  lemma {:induction false} Step29()
    ensures Follows(29)
  {}

  lemma {:induction false} Step30()
    ensures Follows(30)
  {}

  /**
   All five have started, each but the first with the address of another, and every message was delivered once; the
   first and the fourth do not know each other, though three others know both.
   */
  lemma {:induction false} TwoNeverMeet()
    ensures exists nets: seq<Net>, delivered: seq<Message> ::
              Run(nets, delivered) && Initial(nets[0], {}) && nets[|delivered|].inFlight == multiset{}
              && P0 in nets[|delivered|].tables && P3 in nets[|delivered|].tables
              && P3 !in nets[|delivered|].tables[P0] && P0 !in nets[|delivered|].tables[P3]
  {
    hide Stage, Deliver, Leads, NetOf, Arriving, Follows, Initial;
    Step0(); Step1(); Step2(); Step3(); Step4(); Step5(); Step6(); Step7();
    Step8(); Step9(); Step10(); Step11(); Step12(); Step13(); Step14(); Step15();
    Step16(); Step17(); Step18(); Step19(); Step20(); Step21(); Step22(); Step23();
    Step24(); Step25(); Step26(); Step27(); Step28(); Step29(); Step30();
    forall k | 0 <= k < |ARRIVALS| ensures Follows(k) {
    }
    var nets := seq(|ARRIVALS| + 1, k requires 0 <= k => NetOf(Stage(k)));
    var delivered := seq(|ARRIVALS|, k requires 0 <= k < |ARRIVALS| => Arriving(k));
    forall k {:trigger delivered[k]} | 0 <= k < |ARRIVALS|
      ensures delivered[k] in nets[k].inFlight && delivered[k].dest in nets[k].tables
      ensures nets[k + 1] == Deliver(nets[k], delivered[k])
    {
      assert Follows(k);
      StepDelivers(k);
    }
    First();
    Last();
    assert Run(nets, delivered);
  }

  lemma {:induction false} StepDelivers(k: nat)
    requires k < |ARRIVALS| && Follows(k)
    ensures Arriving(k) in NetOf(Stage(k)).inFlight && Arriving(k).dest in NetOf(Stage(k)).tables
    ensures NetOf(Stage(k + 1)) == Deliver(NetOf(Stage(k)), Arriving(k))
  {
    hide Stage, Deliver, NetOf;
    LeadsIsDelivery(Stage(k), ARRIVALS[k], Stage(k + 1));
  }

  lemma {:induction false} First()
    ensures Initial(NetOf(Stage(0)), {})
  {
    hide Stage, Closed;
    var net := NetOf(Stage(0));
    StartingBoard();
    FirstIsClosed();
    forall a, b | a in net.tables && b in net.tables[a] ensures a != b && Connect(b, a) in net.inFlight {
      assert a == P0 || a == P1 || a == P2 || a == P3 || a == P4;
    }
  }

  lemma {:induction false} FirstIsClosed()
    ensures Closed(NetOf(Stage(0)))
  {
    hide Stage;
    StartingBoard();
    assert NetOf(Stage(0)).tables.Keys == {P0, P1, P2, P3, P4};
  }

  lemma {:induction false} StartingBoard()
    ensures Stage(0).tables == [[], [P0], [P0], [P1], [P3]]
    ensures Stage(0).listed == [Connect(P0, P1), Connect(P0, P2), Connect(P1, P3), Connect(P3, P4)]
  {
  }

  lemma {:induction false} Last()
    ensures NetOf(Stage(|ARRIVALS|)).inFlight == multiset{}
    ensures var tables := NetOf(Stage(|ARRIVALS|)).tables;
            P0 in tables && P3 in tables && P3 !in tables[P0] && P0 !in tables[P3]
  {
  }
}
