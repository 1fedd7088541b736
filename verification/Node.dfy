/**
 What a node does with its chain: taking over a chain or a block it receives, and mining.
 */
module Nodes {
  import opened Blocks
  import opened Blockchains
  import S = Sha256Stream
  import Sha256Spec

  // ---------- where two chains part ----------

  /** The scan of sendBlockchain: the first index where the hashes differ, or the end of the local chain. */
  function ForkPoint(local: seq<BlockValue>, received: seq<BlockValue>, from: nat): (k: nat)
    requires from <= |local| <= |received|
    ensures from <= k <= |local|
    ensures forall i {:trigger local[i]} {:trigger received[i]} :: from <= i < k ==> local[i].hash == received[i].hash
    ensures k < |local| ==> local[k].hash != received[k].hash
    decreases |local| - from
  {
    if from < |local| && local[from].hash == received[from].hash then ForkPoint(local, received, from + 1) else from
  }

  /** No two blocks of the chains share a hash without sharing their text. */
  predicate NoCollision(a: seq<BlockValue>, b: seq<BlockValue>, e: Formats) {
    forall i, j {:trigger HashOf(a[i], e), HashOf(b[j], e)} :: 0 <= i < |a| && 0 <= j < |b| ==>
      HashOf(a[i], e) == HashOf(b[j], e) ==> BlockText(a[i], e) == BlockText(b[j], e)
  }

  predicate PlainHashes(chain: seq<BlockValue>) {
    forall i {:trigger chain[i]} :: 0 <= i < |chain| ==> NoLineEnd(chain[i].hash)
  }

  predicate Comparable(a: seq<BlockValue>, b: seq<BlockValue>, e: Formats) {
    ChainValid(a, e) && ChainValid(b, e) && NoCollision(a, b, e) && PlainHashes(a) && PlainHashes(b)
  }

  /** Every hash is the text of some SHA-256 digest. */
  ghost predicate HashesBySha256(e: Formats) {
    forall s: string {:trigger e.sha256(s)} ::
      exists bytes: Sha256Spec.Bytes :: e.sha256(s) == S.HexText(Sha256Spec.Digest(bytes))
  }

  /** With SHA-256 only the first block, whose hash is never checked, could carry a hash with a line end. */
  lemma {:induction false} ValidHashesArePlain(chain: seq<BlockValue>, e: Formats)
    requires HashesBySha256(e) && ChainValid(chain, e) && chain != [] && NoLineEnd(chain[0].hash)
    ensures PlainHashes(chain)
  {
    hide BlockText, S.HexText, Sha256Spec.Digest;
    forall i {:trigger chain[i]} | 0 <= i < |chain| ensures NoLineEnd(chain[i].hash) {
      if i > 0 {
        assert Linked(chain, i, e);
        var bytes: Sha256Spec.Bytes :| chain[i].hash == S.HexText(Sha256Spec.Digest(bytes));
        S.HexHasNoLineEnd(Sha256Spec.Digest(bytes));
      }
    }
  }

  /** Where two valid chains agree in a block's hash they agree in the block and in the hash before it. */
  lemma {:induction false} AgreementGoesBack(a: seq<BlockValue>, b: seq<BlockValue>, i: nat, e: Formats)
    requires Comparable(a, b, e) && 1 <= i < |a| && i < |b| && a[i].hash == b[i].hash
    ensures a[i - 1].hash == b[i - 1].hash
    ensures a[i].previousHash == b[i].previousHash && a[i].timestamp == b[i].timestamp && a[i].nonce == b[i].nonce
    ensures TransactionsText(a[i].transactions, e) == TransactionsText(b[i].transactions, e)
  {
    hide HashOf, BlockText, TransactionsText;
    assert Linked(a, i, e) && Linked(b, i, e);
    SameTextSameBlock(a[i], b[i], e);
  }

  predicate NoSpacesIn(chain: seq<BlockValue>, e: Formats) {
    forall i {:trigger chain[i]} :: 1 <= i < |chain| ==> AllNoSpaces(chain[i].transactions, e)
  }

  /**
   A block's hash fixes the payments of that block and of all blocks before it but the first: two valid chains that
   share it, without collisions and with no spaces in addresses and amounts, hold the same payments up to there.
   */
  lemma {:induction false} HashFixesPayments(a: seq<BlockValue>, b: seq<BlockValue>, i: nat, j: nat, e: Formats)
    requires Comparable(a, b, e) && NoSpacesIn(a, e) && NoSpacesIn(b, e)
    requires 1 <= i <= j < |a| && j < |b| && a[j].hash == b[j].hash
    ensures SamePayments(a[i].transactions, b[i].transactions, e)
  {
    hide Comparable, TransactionsText, AllNoSpaces, SamePayments;
    AgreementIsPrefix(a, b, i, j, e);
    AgreementGoesBack(a, b, i, e);
    SameTextSamePayments(a[i].transactions, b[i].transactions, e);
  }

  /** Changing a payer, a payee or a printed amount in a block that keeps its hash makes the chain invalid. */
  lemma {:induction false} ForgeryIsRefused(chain: seq<BlockValue>, forged: seq<BlockValue>, i: nat, e: Formats)
    requires ChainValid(chain, e) && 1 <= i < |chain| && i < |forged| && forged[i].hash == chain[i].hash
    requires HashOf(chain[i], e) == HashOf(forged[i], e) ==> BlockText(chain[i], e) == BlockText(forged[i], e)
    requires NoLineEnd(chain[i].previousHash) && NoLineEnd(forged[i].previousHash)
    requires AllNoSpaces(chain[i].transactions, e) && AllNoSpaces(forged[i].transactions, e)
    requires !SamePayments(chain[i].transactions, forged[i].transactions, e)
    ensures !ChainValid(forged, e)
  {
    hide HashOf, BlockText, SamePayments, NoLineEnd, AllNoSpaces;
    assert Linked(chain, i, e);
    if ChainValid(forged, e) {
      assert Linked(forged, i, e);
      SameTextSameContents(chain[i], forged[i], e);
    }
  }

  /** The indices with equal hashes form a prefix. */
  lemma {:induction false} AgreementIsPrefix(a: seq<BlockValue>, b: seq<BlockValue>, i: nat, j: nat, e: Formats)
    requires Comparable(a, b, e) && i <= j < |a| && j < |b| && a[j].hash == b[j].hash
    ensures a[i].hash == b[i].hash
    decreases j - i
  {
    hide Comparable;
    if i < j {
      AgreementGoesBack(a, b, j, e);
      AgreementIsPrefix(a, b, i, j - 1, e);
    }
  }

  /** The scan finds the one point where the chains part: equal before it, different at every later shared index. */
  lemma {:induction false} ForkPointIsTheFork(local: seq<BlockValue>, received: seq<BlockValue>, i: nat, e: Formats)
    requires Comparable(local, received, e) && i < |local| <= |received|
    ensures local[i].hash == received[i].hash <==> i < ForkPoint(local, received, 0)
  {
    var k := ForkPoint(local, received, 0);
    if k <= i && local[i].hash == received[i].hash {
      AgreementIsPrefix(local, received, k, i, e);
    }
  }

  /** Blocks in front of the fork are the same block in both chains, up to how amounts print. */
  lemma {:induction false} SharedBlocksAgree(local: seq<BlockValue>, received: seq<BlockValue>, i: nat, e: Formats)
    requires Comparable(local, received, e) && |local| <= |received| && 1 <= i < ForkPoint(local, received, 0)
    ensures local[i].previousHash == received[i].previousHash && local[i].timestamp == received[i].timestamp
    ensures local[i].nonce == received[i].nonce && local[i].hash == received[i].hash
    ensures TransactionsText(local[i].transactions, e) == TransactionsText(received[i].transactions, e)
    ensures NoSpacesIn(local, e) && NoSpacesIn(received, e) ==>
              SamePayments(local[i].transactions, received[i].transactions, e)
  {
    hide HashOf, BlockText, TransactionsText, Comparable, SamePayments, AllNoSpaces;
    AgreementGoesBack(local, received, i, e);
    if NoSpacesIn(local, e) && NoSpacesIn(received, e) {
      HashFixesPayments(local, received, i, i, e);
    }
  }

  // ---------- the handlers on values ----------

  /** What arrives when a chain is sent: the pending transactions are not serialized. */
  function Serialized(c: ChainValue): ChainValue {
    c.(pending := [])
  }

  /** The received chain with the transactions of the local blocks from the fork on queued behind its own. */
  function Adopted(local: ChainValue, received: ChainValue): ChainValue
    requires |local.chain| <= |received.chain|
  {
    received.(pending := received.pending + AllTransactions(local.chain[ForkPoint(local.chain, received.chain, 0)..]))
  }

  function AfterSendBlockchain(local: ChainValue, received: ChainValue, e: Formats): ChainValue {
    if ChainValid(received.chain, e) && |local.chain| <= |received.chain| then Adopted(local, received) else local
  }

  function AfterSendBlock(local: ChainValue, block: BlockValue, e: Formats): ChainValue {
    if ChainValid(local.chain + [block], e) then local.(chain := local.chain + [block]) else local
  }

  const BLOCK_SIZE := 5

  /** threadMine: the transaction is queued; with enough of them waiting, a block is mined. */
  function AfterThreadMine(local: ChainValue, t: Transaction, account: string, now: int, nonce: int,
                           e: Formats): ChainValue
    requires local.chain != []
  {
    var queued := local.(pending := local.pending + [t]);
    if |queued.pending| >= BLOCK_SIZE && ChainValid(Mined(queued, account, now, nonce, e).chain, e)
    then Mined(queued, account, now, nonce, e)
    else queued
  }

  // ---------- what the handlers keep ----------

  /** Nothing that was in an orphaned block is lost: it waits again, behind what the received chain had waiting. */
  lemma {:induction false} OrphansAreQueuedAgain(local: ChainValue, received: ChainValue, e: Formats)
    requires Comparable(local.chain, received.chain, e) && |local.chain| <= |received.chain|
    ensures var k := ForkPoint(local.chain, received.chain, 0);
            var after := AfterSendBlockchain(local, received, e);
            && after.chain == received.chain
            && after.pending == received.pending + AllTransactions(local.chain[k..])
            && Holdings(after) + multiset(AllTransactions(local.chain[..k]))
               == Holdings(received) + multiset(AllTransactions(local.chain))
  {
    var k := ForkPoint(local.chain, received.chain, 0);
    assert local.chain == local.chain[..k] + local.chain[k..];
    AllTransactionsConcat(local.chain[..k], local.chain[k..]);
  }

  /** A transaction stands in a block of the chain from the k-th on. */
  ghost predicate InBlocksFrom(chain: seq<BlockValue>, k: nat, t: Transaction) {
    exists i :: k <= i < |chain| && t in chain[i].transactions
  }

  lemma {:induction false} AllTransactionsFrom(chain: seq<BlockValue>, k: nat, t: Transaction)
    requires k <= |chain|
    ensures t in AllTransactions(chain[k..]) <==> InBlocksFrom(chain, k, t)
    decreases |chain|
  {
    hide AllTransactions;
    if k == |chain| {
      NoTransactions(chain, k);
    } else {
      var init, last := chain[..|chain| - 1], chain[|chain| - 1];
      assert chain[k..] == init[k..] + [last] && chain == init + [last];
      AllTransactionsOneMore(init[k..], last);
      AllTransactionsFrom(init, k, t);
      InBlocksOneMore(init, last, k, t);
    }
  }

  lemma {:induction false} NoTransactions(chain: seq<BlockValue>, k: nat)
    requires k == |chain|
    ensures AllTransactions(chain[k..]) == []
  {
  }

  lemma {:induction false} InBlocksOneMore(init: seq<BlockValue>, last: BlockValue, k: nat, t: Transaction)
    requires k <= |init|
    ensures InBlocksFrom(init + [last], k, t) <==> InBlocksFrom(init, k, t) || t in last.transactions
  {
    var chain := init + [last];
    if InBlocksFrom(init, k, t) {
      var i :| k <= i < |init| && t in init[i].transactions;
      assert t in chain[i].transactions;
    }
    if t in last.transactions {
      assert t in chain[|init|].transactions;
    }
  }

  predicate MinedAndWaiting(c: ChainValue, t: Transaction) {
    t in AllTransactions(c.chain) && t in c.pending
  }

  /**
   When a sent chain is taken over, a transaction is both mined and waiting if and only if the chain holds it and
   it stood in an orphaned block as well.
   */
  lemma {:induction false} MinedTwice(local: ChainValue, received: ChainValue, t: Transaction, e: Formats)
    requires ChainValid(received.chain, e) && |local.chain| <= |received.chain|
    ensures MinedAndWaiting(AfterSendBlockchain(local, Serialized(received), e), t)
       <==> t in AllTransactions(received.chain)
            && InBlocksFrom(local.chain, ForkPoint(local.chain, received.chain, 0), t)
  {
    AllTransactionsFrom(local.chain, ForkPoint(local.chain, received.chain, 0), t);
  }

  function SharedBlocks(local: ChainValue, received: ChainValue): seq<BlockValue>
    requires |local.chain| <= |received.chain|
  {
    local.chain[..ForkPoint(local.chain, received.chain, 0)]
  }

  /**
   Taking over a chain loses nothing if and only if the received chain and pool hold, as often, what was waiting and
   what stood in the shared blocks; the orphaned blocks are queued again, the node's own pool is not.
   */
  lemma {:induction false} NothingLostIff(local: ChainValue, received: ChainValue, e: Formats)
    requires ChainValid(received.chain, e) && |local.chain| <= |received.chain|
    ensures Holdings(local) <= Holdings(AfterSendBlockchain(local, received, e))
       <==> multiset(local.pending) + multiset(AllTransactions(SharedBlocks(local, received))) <= Holdings(received)
  {
    hide AllTransactions, ForkPoint, ChainValid;
    var k := ForkPoint(local.chain, received.chain, 0);
    var shared, orphaned := AllTransactions(local.chain[..k]), AllTransactions(local.chain[k..]);
    assert local.chain == local.chain[..k] + local.chain[k..];
    AllTransactionsConcat(local.chain[..k], local.chain[k..]);
    var waiting, has, o := multiset(local.pending), Holdings(received), multiset(orphaned);
    assert Holdings(local) == (waiting + multiset(shared)) + o;
    assert Holdings(AfterSendBlockchain(local, received, e)) == has + o;
    SameSummand(waiting + multiset(shared), has, o);
  }

  lemma {:induction false} SameSummand<T>(a: multiset<T>, b: multiset<T>, c: multiset<T>)
    ensures a + c <= b + c <==> a <= b
  {
    if a + c <= b + c {
      forall x ensures a[x] <= b[x] {
        assert (a + c)[x] <= (b + c)[x];
      }
    }
  }

  /** The orphans, once queued, are lost again when the same chain arrives before they are mined. */
  lemma {:induction false} SecondArrivalLosesOrphans(local: ChainValue, received: ChainValue, e: Formats)
    requires ChainValid(received.chain, e) && |local.chain| <= |received.chain|
    ensures var once := AfterSendBlockchain(local, received, e);
            var twice := AfterSendBlockchain(once, received, e);
            twice == received && (Holdings(once) <= Holdings(twice) <==>
              AllTransactions(local.chain[ForkPoint(local.chain, received.chain, 0)..]) == [])
  {
    var orphaned := AllTransactions(local.chain[ForkPoint(local.chain, received.chain, 0)..]);
    var once := AfterSendBlockchain(local, received, e);
    assert received.chain[ForkPoint(received.chain, received.chain, 0)..] == [];
    assert received.pending + [] == received.pending;
    assert Holdings(once) == Holdings(received) + multiset(orphaned);
    if Holdings(once) <= Holdings(received) {
      SameSummand(multiset(orphaned), multiset{}, Holdings(received));
      assert multiset{} + Holdings(received) == Holdings(received);
      assert |multiset(orphaned)| == 0;
    }
  }

  /** A received block is taken exactly when it is linked to the local chain's last block. */
  lemma {:induction false} BlockTakenIffLinked(local: ChainValue, block: BlockValue, e: Formats)
    requires local.chain != [] && ChainValid(local.chain, e)
    ensures AfterSendBlock(local, block, e) != local
       <==> block.hash == HashOf(block, e) && block.previousHash == local.chain[|local.chain| - 1].hash
    ensures AfterSendBlock(local, block, e).pending == local.pending
  {
    ValidOneMore(local.chain, block, e);
    assert |local.chain + [block]| == |local.chain| + 1;
  }

  /** A freshly mined block is taken by every node with the same chain, which then has the miner's new chain. */
  lemma {:induction false} MinedBlockSpreads(miner: ChainValue, other: ChainValue, account: string, now: int,
                                             nonce: int, e: Formats)
    requires miner.chain != [] && ChainValid(miner.chain, e) && other.chain == miner.chain
    ensures var mined := Mined(miner, account, now, nonce, e);
            AfterSendBlock(other, mined.chain[|mined.chain| - 1], e).chain == mined.chain
  {
    MinedIsValid(miner, account, now, nonce, e);
  }

  /** A mining step on a valid chain adds the submitted transaction, and a reward if a block was mined. */
  lemma {:induction false} MiningStepConserves(local: ChainValue, t: Transaction, account: string, now: int,
                                               nonce: int, e: Formats)
    requires local.chain != [] && ChainValid(local.chain, e)
    ensures var after := AfterThreadMine(local, t, account, now, nonce, e);
            var mines := |local.pending| + 1 >= BLOCK_SIZE;
            && Holdings(after)
               == Holdings(local) + multiset{t} + (if mines then multiset{Reward(local, account)} else multiset{})
            && |after.chain| == |local.chain| + (if mines then 1 else 0)
            && (mines ==> after.pending == [Reward(local, account)])
  {
    var queued := local.(pending := local.pending + [t]);
    MinedIsValid(queued, account, now, nonce, e);
    MiningConserves(queued, account, now, nonce, e);
    assert Holdings(queued) == Holdings(local) + multiset{t};
  }

  /** A block is mined, on a valid chain, exactly when the submitted transaction is the fifth one waiting or a later. */
  lemma {:induction false} FifthTransactionIsMined(local: ChainValue, t: Transaction, account: string, now: int,
                                                   nonce: int, e: Formats)
    requires local.chain != [] && ChainValid(local.chain, e)
    ensures var after := AfterThreadMine(local, t, account, now, nonce, e);
            if |local.pending| < 4 then after == local.(pending := local.pending + [t])
            else
              && |after.chain| == |local.chain| + 1 && after.chain[..|local.chain|] == local.chain
              && after.chain[|local.chain|].transactions == local.pending + [t]
              && after.chain[|local.chain|].timestamp == now && after.chain[|local.chain|].nonce == nonce
  {
    MinedIsValid(local.(pending := local.pending + [t]), account, now, nonce, e);
  }

  // ---------- the class ----------

  class NoeudBloc {
    var blockchain: Blockchain
    var myAccount: string

    constructor (blockchain: Blockchain, myAccount: string)
      ensures this.blockchain == blockchain && this.myAccount == myAccount
    {
      this.blockchain := blockchain;
      this.myAccount := myAccount;
    }

    /** Takes over a valid chain that is at least as long; otherwise nothing changes. */
    method SendBlockchain(received: Blockchain, now: int, e: Formats)
      modifies this`blockchain
      ensures blockchain.View() == AfterSendBlockchain(old(blockchain.View()), received.View(), e)
      ensures received.View() == old(received.View())
      ensures blockchain == old(blockchain) || (fresh(blockchain) && forall b :: b in blockchain.chain ==> fresh(b))
    {
      hide ChainValid, HashOf, Views, Adopted;
      ghost var local := blockchain.View();
      var newChain := received.CopyConstructor(now, e);
      var valid := newChain.IsChainValid(e);
      assert blockchain.View() == local;
      if valid && |blockchain.chain| <= |newChain.chain| {
        QueueOrphans(newChain);
        blockchain := newChain;
      }
    }

    method QueueOrphans(newChain: Blockchain)
      requires |blockchain.chain| <= |newChain.chain| && newChain != blockchain
      modifies newChain`pendingTransactions
      ensures newChain.View() == Adopted(old(blockchain.View()), old(newChain.View()))
    {
      hide AllTransactions, Views, ForkPoint;
      var i := FirstDifference(newChain);
      Requeue(newChain, i);
    }

    method FirstDifference(newChain: Blockchain) returns (i: nat)
      requires |blockchain.chain| <= |newChain.chain|
      ensures i == ForkPoint(blockchain.View().chain, newChain.View().chain, 0)
    {
      hide Views;
      ghost var local, other := blockchain.View().chain, newChain.View().chain;
      i := 0;
      while i < |blockchain.chain| && blockchain.chain[i].hash == newChain.chain[i].hash
        invariant i <= |blockchain.chain|
        invariant ForkPoint(local, other, 0) == ForkPoint(local, other, i)
      {
        assert local[i].hash == other[i].hash;
        i := i + 1;
      }
      assert i < |blockchain.chain| ==> local[i].hash != other[i].hash;
    }

    /** Queues the transactions of the local blocks from i on. */
    method Requeue(newChain: Blockchain, start: nat)
      requires start <= |blockchain.chain| && newChain != blockchain
      modifies newChain`pendingTransactions
      ensures newChain.pendingTransactions
           == old(newChain.pendingTransactions) + AllTransactions(blockchain.View().chain[start..])
    {
      hide AllTransactions, Views;
      ghost var blocks, before := blockchain.View().chain, newChain.pendingTransactions;
      NothingQueued(blocks, start, before);
      for i := start to |blockchain.chain|
        invariant newChain.pendingTransactions == before + AllTransactions(blocks[start..i])
      {
        var transactions := blockchain.chain[i].transactions;
        ghost var queued := newChain.pendingTransactions;
        for j := 0 to |transactions|
          invariant newChain.pendingTransactions == queued + transactions[..j]
        {
          var trans := transactions[j];
          newChain.CreateTransaction(Transaction(trans.fromAddress, trans.toAddress, trans.amount));
        }
        OneMoreBlock(blocks, start, i, before);
        assert transactions[..|transactions|] == transactions;
      }
      assert blocks[start..|blocks|] == blocks[start..];
    }

    /** Appends a block that fits; otherwise nothing changes. */
    method SendBlock(block: Block, now: int, e: Formats)
      modifies this`blockchain
      ensures blockchain.View() == AfterSendBlock(old(blockchain.View()), block.View(), e)
      ensures blockchain == old(blockchain) || (fresh(blockchain) && forall b :: b in blockchain.chain ==> fresh(b))
    {
      hide ChainValid, HashOf, Views;
      var newBlock := block.CopyConstructor();
      var newChain := blockchain.CopyConstructor(now, e);
      ViewsOneMore(newChain.chain, newBlock);
      newChain.chain := newChain.chain + [newBlock];
      var valid := newChain.IsChainValid(e);
      if valid && |blockchain.chain| <= |newChain.chain| {
        blockchain := newChain;
      }
    }

    /**
     One submitted transaction. A block is mined in a copy, with the first nonce that solves the difficulty. Mining
     always adds a block, so the source's second test, for chains of equal length, is never reached.
     */
    method ThreadMine(fromAddr: string, toAddr: string, amount: real, now: int, e: Formats, ghost solution: int)
      returns (ghost nonce: int)
      requires blockchain.chain != []
      requires |blockchain.pendingTransactions| + 1 >= BLOCK_SIZE ==>
        var t := Transaction(fromAddr, toAddr, amount);
        var queued := blockchain.View().(pending := blockchain.pendingTransactions + [t]);
        solution >= 0 && Solves(Sealed(NewBlock(queued, now, e), solution, e).hash, queued.difficulty)
      modifies this`blockchain, blockchain`pendingTransactions
      ensures var t := Transaction(fromAddr, toAddr, amount);
              var local := old(blockchain.View());
              && blockchain.View() == AfterThreadMine(local, t, myAccount, now, nonce, e)
              && (|local.pending| + 1 >= BLOCK_SIZE ==>
                    var queued := local.(pending := local.pending + [t]);
                    FirstSolution(NewBlock(queued, now, e), local.difficulty, 0, nonce, e))
    {
      hide ChainValid, HashOf, NewBlock, Solves, FirstSolution, Views;
      nonce := 0;
      ghost var local := blockchain.View();
      blockchain.CreateTransaction(Transaction(fromAddr, toAddr, amount));
      ghost var queued := blockchain.View();
      if |blockchain.pendingTransactions| >= BLOCK_SIZE {
        var newBlockchain := blockchain.CopyConstructor(now, e);
        nonce := newBlockchain.MinePendingTransactions(myAccount, now, e, solution);
        var valid := newBlockchain.IsChainValid(e);
        if valid && |blockchain.chain| < |newBlockchain.chain| {
          blockchain := newBlockchain;
        }
      }
    }
  }

  lemma {:induction false} NothingQueued(blocks: seq<BlockValue>, start: nat, before: seq<Transaction>)
    requires start <= |blocks|
    ensures before + AllTransactions(blocks[start..start]) == before
  {
    assert blocks[start..start] == [];
  }

  lemma {:induction false} OneMoreBlock(blocks: seq<BlockValue>, start: nat, i: nat, before: seq<Transaction>)
    requires start <= i < |blocks|
    ensures before + AllTransactions(blocks[start..i + 1])
         == (before + AllTransactions(blocks[start..i])) + blocks[i].transactions
  {
    assert blocks[start..i + 1] == blocks[start..i] + [blocks[i]];
    AllTransactionsOneMore(blocks[start..i], blocks[i]);
  }
}
