/**
 Any number of nodes, any order of steps: what every node's chain keeps. A message is a value; what a node
 receives may have been sent long ago, by anyone, or never, so nothing is asked of it.
 */
module ChainNetwork {
  import opened Blocks
  import opened Blockchains
  import opened Nodes

  /** One atomic step of one node. */
  datatype Step =
    | ReceiveChain(node: nat, received: ChainValue)
    | ReceiveBlock(node: nat, block: BlockValue)
    | Mine(node: nat, t: Transaction, account: string, now: int, nonce: int)

  ghost predicate GoodChain(c: ChainValue, e: Formats) {
    c.chain != [] && ChainValid(c.chain, e)
  }

  ghost predicate GoodNetwork(nodes: seq<ChainValue>, e: Formats) {
    forall n {:trigger nodes[n]} :: 0 <= n < |nodes| ==> GoodChain(nodes[n], e)
  }

  /** A step can happen: the node exists, and a mined block has the first nonce that solves the difficulty. */
  ghost predicate Enabled(nodes: seq<ChainValue>, s: Step, e: Formats)
    requires GoodNetwork(nodes, e)
  {
    && s.node < |nodes|
    && (s.Mine? && |nodes[s.node].pending| + 1 >= BLOCK_SIZE ==>
          var queued := nodes[s.node].(pending := nodes[s.node].pending + [s.t]);
          FirstSolution(NewBlock(queued, s.now, e), queued.difficulty, 0, s.nonce, e))
  }

  function NodeAfter(c: ChainValue, s: Step, e: Formats): ChainValue
    requires c.chain != []
  {
    match s
    case ReceiveChain(_, received) => AfterSendBlockchain(c, Serialized(received), e)
    case ReceiveBlock(_, block) => AfterSendBlock(c, block, e)
    case Mine(_, t, account, now, nonce) => AfterThreadMine(c, t, account, now, nonce, e)
  }

  ghost function After(nodes: seq<ChainValue>, s: Step, e: Formats): seq<ChainValue>
    requires GoodNetwork(nodes, e) && Enabled(nodes, s, e)
  {
    nodes[s.node := NodeAfter(nodes[s.node], s, e)]
  }

  /** A node keeps a chain that is valid and not empty, and never goes back to a shorter one. */
  lemma {:induction false} StepKeepsChain(c: ChainValue, s: Step, e: Formats)
    requires GoodChain(c, e)
    ensures GoodChain(NodeAfter(c, s, e), e) && |NodeAfter(c, s, e).chain| >= |c.chain|
  {
    match s
    case ReceiveChain(_, received) =>
    case ReceiveBlock(_, block) =>
    case Mine(_, t, account, now, nonce) =>
      MiningStepConserves(c, t, account, now, nonce, e);
      MinedIsValid(c.(pending := c.pending + [t]), account, now, nonce, e);
  }

  /** The states of a run: each follows from the one before by one enabled step. */
  ghost predicate Run(states: seq<seq<ChainValue>>, steps: seq<Step>, e: Formats) {
    && |states| == |steps| + 1
    && GoodNetwork(states[0], e)
    && forall i {:trigger steps[i]} :: 0 <= i < |steps| ==>
         GoodNetwork(states[i], e) ==> Enabled(states[i], steps[i], e) && states[i + 1] == After(states[i], steps[i], e)
  }

  lemma {:induction false} RunStaysGood(states: seq<seq<ChainValue>>, steps: seq<Step>, i: nat, e: Formats)
    requires Run(states, steps, e) && i < |states|
    ensures GoodNetwork(states[i], e) && |states[i]| == |states[0]|
  {
    if i > 0 {
      RunStaysGood(states, steps, i - 1, e);
      var s := steps[i - 1];
      StepKeepsChain(states[i - 1][s.node], s, e);
    }
  }

  /** In every run every node's chain is valid and not empty at all times, and its length never goes down. */
  lemma {:induction false} ChainsOnlyGrow(states: seq<seq<ChainValue>>, steps: seq<Step>, i: nat, j: nat, n: nat,
                                          e: Formats)
    requires Run(states, steps, e) && i <= j < |states| && n < |states[0]|
    ensures n < |states[i]| == |states[j]| && GoodChain(states[i][n], e) && GoodChain(states[j][n], e)
    ensures |states[i][n].chain| <= |states[j][n].chain|
    decreases j - i
  {
    hide GoodChain, NodeAfter;
    RunStaysGood(states, steps, i, e);
    RunStaysGood(states, steps, j, e);
    if i < j {
      RunStaysGood(states, steps, j - 1, e);
      ChainsOnlyGrow(states, steps, i, j - 1, n, e);
      var s := steps[j - 1];
      StepKeepsChain(states[j - 1][s.node], s, e);
    }
  }

  /** The receiving node does not take what it is sent. */
  predicate Refused(nodes: seq<ChainValue>, s: Step, e: Formats) {
    && s.node < |nodes|
    && match s
       case ReceiveChain(n, received) => !ChainValid(received.chain, e) || |received.chain| < |nodes[n].chain|
       case ReceiveBlock(n, block) => !ChainValid(nodes[n].chain + [block], e)
       case Mine(_, _, _, _, _) => false
  }

  /** The steps of a run that were not refused, and the states they lead through. */
  function Taken(states: seq<seq<ChainValue>>, steps: seq<Step>, e: Formats): (r: (seq<seq<ChainValue>>, seq<Step>))
    requires |states| == |steps| + 1
    ensures |r.0| == |r.1| + 1 && r.0[0] == states[0]
  {
    if steps == [] then (states, steps)
    else
      var n := |steps| - 1;
      var (shorter, kept) := Taken(states[..n + 1], steps[..n], e);
      if Refused(states[n], steps[n], e) then (shorter, kept)
      else (shorter + [states[n + 1]], kept + [steps[n]])
  }

  /**
   Refused messages leave no trace: a run without them is a run again, from the same start to the same end, and
   no step of it is refused.
   */
  lemma {:induction false} RefusalChangesNothing(states: seq<seq<ChainValue>>, steps: seq<Step>, e: Formats)
    requires Run(states, steps, e)
    ensures var (fewer, kept) := Taken(states, steps, e);
            && Run(fewer, kept, e) && fewer[|kept|] == states[|steps|]
            && forall i {:trigger kept[i]} :: 0 <= i < |kept| ==> !Refused(fewer[i], kept[i], e)
    decreases |steps|
  {
    if steps != [] {
      hide ChainValid, GoodNetwork;
      var n := |steps| - 1;
      RunStaysGood(states, steps, n, e);
      ShorterRun(states, steps, e);
      RefusalChangesNothing(states[..n + 1], steps[..n], e);
      var (shorter, kept) := Taken(states[..n + 1], steps[..n], e);
      if Refused(states[n], steps[n], e) {
        RefusedStep(states[n], steps[n], e);
      } else {
        LongerRun(shorter, kept, steps[n], states[n + 1], e);
      }
    }
  }

  lemma {:induction false} RefusedStep(nodes: seq<ChainValue>, s: Step, e: Formats)
    requires GoodNetwork(nodes, e) && Enabled(nodes, s, e) && Refused(nodes, s, e)
    ensures After(nodes, s, e) == nodes
  {
  }

  lemma {:induction false} ShorterRun(states: seq<seq<ChainValue>>, steps: seq<Step>, e: Formats)
    requires Run(states, steps, e) && steps != []
    ensures Run(states[..|steps|], steps[..|steps| - 1], e)
  {
    hide GoodNetwork, Enabled, After;
  }

  lemma {:induction false} LongerRun(states: seq<seq<ChainValue>>, steps: seq<Step>, s: Step, next: seq<ChainValue>,
                                     e: Formats)
    requires Run(states, steps, e)
    requires GoodNetwork(states[|steps|], e) && Enabled(states[|steps|], s, e) && next == After(states[|steps|], s, e)
    ensures Run(states + [next], steps + [s], e)
  {
    hide GoodNetwork, Enabled, After;
  }

  /** New nodes start from their own genesis block, which is a good chain. */
  lemma {:induction false} GenesisIsGood(difficulty: int, reward: real, now: int, e: Formats)
    ensures GoodChain(ChainValue([Genesis(now, e)], difficulty, [], reward), e)
  {
  }

  // ---------- transactions over a run of one node's own steps ----------

  /** The transactions submitted to node n in the steps before the i-th. */
  function Submitted(steps: seq<Step>, n: nat): multiset<Transaction> {
    if steps == [] then multiset{}
    else
      var s := steps[|steps| - 1];
      Submitted(steps[..|steps| - 1], n) + if s.Mine? && s.node == n then multiset{s.t} else multiset{}
  }

  /** The step makes its node take over a whole chain. */
  predicate TakesOver(nodes: seq<ChainValue>, s: Step, e: Formats) {
    && s.ReceiveChain? && s.node < |nodes|
    && ChainValid(s.received.chain, e) && |nodes[s.node].chain| <= |s.received.chain|
  }

  /** Until it takes over another chain, a node holds all it held and all that was submitted to it. */
  lemma {:induction false} NothingSubmittedIsLost(states: seq<seq<ChainValue>>, steps: seq<Step>, i: nat, n: nat,
                                                  e: Formats)
    requires Run(states, steps, e) && i < |states| && n < |states[0]|
    requires forall k {:trigger steps[k]} :: 0 <= k < i && steps[k].node == n ==> !TakesOver(states[k], steps[k], e)
    ensures |states[i]| == |states[0]| && Holdings(states[0][n]) + Submitted(steps[..i], n) <= Holdings(states[i][n])
  {
    hide ChainValid;
    RunStaysGood(states, steps, i, e);
    if i == 0 {
      assert steps[..0] == [];
    } else {
      RunStaysGood(states, steps, i - 1, e);
      NothingSubmittedIsLost(states, steps, i - 1, n, e);
      var s := steps[i - 1];
      assert steps[..i][..i - 1] == steps[..i - 1];
      if s.node == n {
        HoldingsGrow(states[i - 1], s, e);
      }
    }
  }

  lemma {:induction false} HoldingsGrow(nodes: seq<ChainValue>, s: Step, e: Formats)
    requires s.node < |nodes| && GoodChain(nodes[s.node], e) && !TakesOver(nodes, s, e)
    ensures Holdings(nodes[s.node]) + (if s.Mine? then multiset{s.t} else multiset{})
            <= Holdings(NodeAfter(nodes[s.node], s, e))
  {
    hide ChainValid;
    var c := nodes[s.node];
    match s
    case ReceiveChain(_, received) =>
    case ReceiveBlock(_, block) =>
      AllTransactionsOneMore(c.chain, block);
    case Mine(_, t, account, now, nonce) =>
      MiningStepConserves(c, t, account, now, nonce, e);
  }

  // ---------- a loss that happens ----------

  /**
   Two nodes start, one is given a transaction, and the other sends its own chain, which is no longer: the
   transaction is gone from the whole network.
   */
  lemma {:induction false} SubmittedTransactionLost(t: Transaction, difficulty: int, reward: real, time0: int,
                                                    time1: int, account: string, e: Formats)
    ensures exists states: seq<seq<ChainValue>>, steps: seq<Step> ::
              Run(states, steps, e) && |steps| == 2 && |states[0]| == |states[2]| == 2
              && steps[0] == Mine(0, t, account, time0, 0) && steps[1] == ReceiveChain(0, states[0][1])
              && forall n {:trigger states[2][n]} :: 0 <= n < 2 ==> t !in Holdings(states[2][n])
  {
    var c0 := ChainValue([Genesis(time0, e)], difficulty, [], reward);
    var c1 := ChainValue([Genesis(time1, e)], difficulty, [], reward);
    GenesisIsGood(difficulty, reward, time0, e);
    GenesisIsGood(difficulty, reward, time1, e);
    var queued := c0.(pending := [t]);
    var lost := AfterSendBlockchain(queued, Serialized(c1), e);
    GenesisHasNone(c0, time0, e);
    GenesisHasNone(c1, time1, e);
    var k := ForkPoint(c0.chain, c1.chain, 0);
    assert AllTransactions(c0.chain[k..]) == [] by {
      if k == 0 {
        assert c0.chain[0..] == c0.chain;
      } else {
        assert c0.chain[k..] == [];
      }
    }
    assert [] + [t] == [t];
    var states, steps := [[c0, c1], [queued, c1], [lost, c1]], [Mine(0, t, account, time0, 0), ReceiveChain(0, c1)];
    assert [c0, c1][0 := queued] == [queued, c1] && [queued, c1][0 := lost] == [lost, c1];
    assert After(states[0], steps[0], e) == states[1];
    assert After(states[1], steps[1], e) == states[2];
    assert Run(states, steps, e);
  }

  lemma {:induction false} GenesisHasNone(c: ChainValue, now: int, e: Formats)
    requires c.chain == [Genesis(now, e)]
    ensures AllTransactions(c.chain) == []
  {
    assert c.chain[..0] == [];
  }
}
