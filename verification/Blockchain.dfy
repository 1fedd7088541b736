/**
 Chains of blocks: validity, mining the pending transactions, balances, and deep copies.
 */
module Blockchains {
  import opened Blocks

  /** The contents of a Blockchain object. */
  datatype ChainValue = ChainValue(chain: seq<BlockValue>, difficulty: int, pending: seq<Transaction>,
                                   miningReward: real)

  // ---------- validity ----------

  /** Block i carries its own hash and names the hash of the block before it; block 0 is not looked at. */
  predicate Linked(chain: seq<BlockValue>, i: nat, e: Formats)
    requires 1 <= i < |chain|
  {
    chain[i].hash == HashOf(chain[i], e) && chain[i].previousHash == chain[i - 1].hash
  }

  predicate ChainValid(chain: seq<BlockValue>, e: Formats) {
    forall i {:trigger Linked(chain, i, e)} :: 1 <= i < |chain| ==> Linked(chain, i, e)
  }

  /** A valid chain takes one more block exactly when that block is linked to its last. */
  lemma {:induction false} ValidOneMore(chain: seq<BlockValue>, b: BlockValue, e: Formats)
    requires chain != []
    ensures ChainValid(chain + [b], e)
       <==> ChainValid(chain, e) && b.hash == HashOf(b, e) && b.previousHash == chain[|chain| - 1].hash
  {
    var longer := chain + [b];
    if ChainValid(longer, e) {
      forall i | 1 <= i < |chain| ensures Linked(chain, i, e) {
        assert Linked(longer, i, e);
      }
      assert Linked(longer, |chain|, e);
    }
    if ChainValid(chain, e) && b.hash == HashOf(b, e) && b.previousHash == chain[|chain| - 1].hash {
      forall i | 1 <= i < |longer| ensures Linked(longer, i, e) {
        if i < |chain| {
          assert Linked(chain, i, e);
        }
      }
    }
  }

  // ---------- mining ----------

  function Genesis(now: int, e: Formats): BlockValue {
    Sealed(BlockValue("0", now, [], 0, ""), 0, e)
  }

  /** The block that is about to be mined. */
  function NewBlock(c: ChainValue, now: int, e: Formats): BlockValue
    requires c.chain != []
  {
    Sealed(BlockValue(c.chain[|c.chain| - 1].hash, now, c.pending, 0, ""), 0, e)
  }

  function Reward(c: ChainValue, account: string): Transaction {
    Transaction("", account, c.miningReward)
  }

  /** The chain after mining with a given nonce: only the reward is pending. */
  function Mined(c: ChainValue, account: string, now: int, nonce: int, e: Formats): ChainValue
    requires c.chain != []
  {
    c.(chain := c.chain + [Sealed(NewBlock(c, now, e), nonce, e)], pending := [Reward(c, account)])
  }

  lemma {:induction false} SealedCarriesItsHash(b: BlockValue, e: Formats)
    ensures Sealed(b, b.nonce, e).hash == HashOf(Sealed(b, b.nonce, e), e)
  {
    TextIgnoresHash(b, Sealed(b, b.nonce, e).hash, e);
  }

  lemma {:induction false} MinedIsValid(c: ChainValue, account: string, now: int, nonce: int, e: Formats)
    requires c.chain != [] && ChainValid(c.chain, e)
    ensures ChainValid(Mined(c, account, now, nonce, e).chain, e)
  {
    var b := Sealed(NewBlock(c, now, e), nonce, e);
    ValidOneMore(c.chain, b, e);
  }

  /** A new chain is valid, its only block follows no other and holds nothing. */
  lemma {:induction false} GenesisHoldsNothing(now: int, e: Formats)
    ensures ChainValid([Genesis(now, e)], e) && Genesis(now, e).hash == HashOf(Genesis(now, e), e)
    ensures Genesis(now, e).previousHash == "0" && Genesis(now, e).transactions == []
    ensures Genesis(now, e).timestamp == now && Genesis(now, e).nonce == 0
  {
    TextIgnoresHash(BlockValue("0", now, [], 0, ""), Genesis(now, e).hash, e);
  }

  // ---------- transactions ----------

  function AllTransactions(chain: seq<BlockValue>): seq<Transaction> {
    if chain == [] then [] else AllTransactions(chain[..|chain| - 1]) + chain[|chain| - 1].transactions
  }

  lemma {:induction false} AllTransactionsOneMore(chain: seq<BlockValue>, b: BlockValue)
    ensures AllTransactions(chain + [b]) == AllTransactions(chain) + b.transactions
  {
    assert (chain + [b])[..|chain|] == chain;
  }

  lemma {:induction false} AllTransactionsConcat(a: seq<BlockValue>, b: seq<BlockValue>)
    ensures AllTransactions(a + b) == AllTransactions(a) + AllTransactions(b)
    decreases |b|
  {
    if b == [] {
      assert a + b == a;
      NoTransactions();
    } else {
      hide AllTransactions;
      var init, last := b[..|b| - 1], b[|b| - 1];
      assert b == init + [last] && a + b == (a + init) + [last];
      AllTransactionsConcat(a, init);
      AllTransactionsOneMore(a + init, last);
      AllTransactionsOneMore(init, last);
    }
  }

  lemma {:induction false} NoTransactions()
    ensures AllTransactions([]) == []
  {
  }

  /** Everything a chain holds, mined or waiting. */
  function Holdings(c: ChainValue): multiset<Transaction> {
    multiset(AllTransactions(c.chain)) + multiset(c.pending)
  }

  /** Mining moves the pending transactions into the chain and adds the reward, nothing else. */
  lemma {:induction false} MiningConserves(c: ChainValue, account: string, now: int, nonce: int, e: Formats)
    requires c.chain != []
    ensures Holdings(Mined(c, account, now, nonce, e)) == Holdings(c) + multiset{Reward(c, account)}
  {
    AllTransactionsOneMore(c.chain, Sealed(NewBlock(c, now, e), nonce, e));
  }

  // ---------- balances ----------

  /** Conversion of a double to an int. */
  function Truncated(r: real): int {
    if r >= 0.0 then r.Floor else -((-r).Floor)
  }

  /** One transaction in the balance loop; both comparisons hold where the addresses differ. */
  function Counted(balance: int, t: Transaction, address: string): int {
    var b := if address != t.fromAddress then Truncated(balance as real + t.amount) else balance;
    if address != t.toAddress then Truncated(b as real - t.amount) else b
  }

  function Balance(ts: seq<Transaction>, address: string): int {
    if ts == [] then 0 else Counted(Balance(ts[..|ts| - 1], address), ts[|ts| - 1], address)
  }

  predicate WholeAmounts(ts: seq<Transaction>) {
    forall i :: 0 <= i < |ts| ==> ts[i].amount == ts[i].amount.Floor as real
  }

  function Received(ts: seq<Transaction>, address: string): real {
    if ts == [] then 0.0
    else Received(ts[..|ts| - 1], address) + if ts[|ts| - 1].toAddress == address then ts[|ts| - 1].amount else 0.0
  }

  function Sent(ts: seq<Transaction>, address: string): real {
    if ts == [] then 0.0
    else Sent(ts[..|ts| - 1], address) + if ts[|ts| - 1].fromAddress == address then ts[|ts| - 1].amount else 0.0
  }

  lemma {:induction false} TruncatedWhole(k: int)
    ensures Truncated(k as real) == k
  {
  }

  lemma {:induction false} CountedWhole(balance: int, t: Transaction, address: string)
    requires t.amount == t.amount.Floor as real
    ensures Counted(balance, t, address) == balance + (if t.toAddress == address then t.amount.Floor else 0)
                                          - (if t.fromAddress == address then t.amount.Floor else 0)
  {
    hide Truncated;
    var a := t.amount.Floor;
    assert balance as real + t.amount == (balance + a) as real;
    TruncatedWhole(balance + a);
    var b := if address != t.fromAddress then balance + a else balance;
    assert b as real - t.amount == (b - a) as real;
    TruncatedWhole(b - a);
  }

  /** The two negated comparisons cancel out: a balance is what came in minus what went out. */
  lemma {:induction false} BalanceIsReceivedMinusSent(ts: seq<Transaction>, address: string)
    requires WholeAmounts(ts)
    ensures Balance(ts, address) as real == Received(ts, address) - Sent(ts, address)
    decreases |ts|
  {
    if ts != [] {
      BalanceIsReceivedMinusSent(ts[..|ts| - 1], address);
      CountedWhole(Balance(ts[..|ts| - 1], address), ts[|ts| - 1], address);
    }
  }

  function TotalBalance(ts: seq<Transaction>, addresses: seq<string>): int {
    if addresses == [] then 0
    else TotalBalance(ts, addresses[..|addresses| - 1]) + Balance(ts, addresses[|addresses| - 1])
  }

  predicate AllDifferent(addresses: seq<string>) {
    forall i, j :: 0 <= i < j < |addresses| ==> addresses[i] != addresses[j]
  }

  lemma {:induction false} TotalOfNothing(addresses: seq<string>)
    ensures TotalBalance([], addresses) == 0
    decreases |addresses|
  {
    if addresses != [] {
      TotalOfNothing(addresses[..|addresses| - 1]);
    }
  }

  /** One more transaction changes the total only through the two addresses it names. */
  lemma {:induction false} TotalOneMore(ts: seq<Transaction>, t: Transaction, addresses: seq<string>)
    requires WholeAmounts(ts + [t]) && AllDifferent(addresses)
    ensures TotalBalance(ts + [t], addresses) == TotalBalance(ts, addresses)
              + (if t.toAddress in addresses then t.amount.Floor else 0)
              - (if t.fromAddress in addresses then t.amount.Floor else 0)
    decreases |addresses|
  {
    if addresses != [] {
      var init, last := addresses[..|addresses| - 1], addresses[|addresses| - 1];
      assert addresses == init + [last];
      TotalOneMore(ts, t, init);
      assert (ts + [t])[..|ts|] == ts && (ts + [t])[|ts|] == t;
      CountedWhole(Balance(ts, last), t, last);
    }
  }

  /** Over all addresses the balances cancel: what is not minted is only moved. */
  lemma {:induction false} BalancesSumToZero(ts: seq<Transaction>, addresses: seq<string>)
    requires WholeAmounts(ts) && AllDifferent(addresses)
    requires forall i :: 0 <= i < |ts| ==> ts[i].fromAddress in addresses && ts[i].toAddress in addresses
    ensures TotalBalance(ts, addresses) == 0
    decreases |ts|
  {
    if ts == [] {
      TotalOfNothing(addresses);
    } else {
      var init, last := ts[..|ts| - 1], ts[|ts| - 1];
      assert ts == init + [last];
      BalancesSumToZero(init, addresses);
      TotalOneMore(init, last, addresses);
    }
  }

  /** The amounts of the transactions that come from the empty address, which only rewards do. */
  function Minted(ts: seq<Transaction>): int {
    if ts == [] then 0
    else Minted(ts[..|ts| - 1]) + if ts[|ts| - 1].fromAddress == "" then ts[|ts| - 1].amount.Floor else 0
  }

  /** The empty address owes all that was minted, as long as nobody pays to it. */
  lemma {:induction false} MintBalance(ts: seq<Transaction>)
    requires WholeAmounts(ts) && forall i :: 0 <= i < |ts| ==> ts[i].toAddress != ""
    ensures Balance(ts, "") == -Minted(ts)
    decreases |ts|
  {
    if ts != [] {
      MintBalance(ts[..|ts| - 1]);
      CountedWhole(Balance(ts[..|ts| - 1], ""), ts[|ts| - 1], "");
    }
  }

  // ---------- the class ----------

  function Views(blocks: seq<Block>): (views: seq<BlockValue>)
    reads blocks
    ensures |views| == |blocks| && forall i {:trigger views[i]} :: 0 <= i < |blocks| ==> views[i] == blocks[i].View()
  {
    if blocks == [] then [] else Views(blocks[..|blocks| - 1]) + [blocks[|blocks| - 1].View()]
  }

  class Blockchain {
    var chain: seq<Block>
    var difficulty: int
    var pendingTransactions: seq<Transaction>
    var miningReward: real

    function View(): ChainValue
      reads this, chain
    {
      ChainValue(Views(chain), difficulty, pendingTransactions, miningReward)
    }

    constructor (difficulty: int, miningReward: real, now: int, e: Formats)
      ensures View() == ChainValue([Genesis(now, e)], difficulty, [], miningReward)
      ensures forall b :: b in chain ==> fresh(b)
    {
      this.difficulty := difficulty;
      this.miningReward := miningReward;
      this.pendingTransactions := [];
      var genesis := new Block.New(now, [], "0", e);
      this.chain := [genesis];
      new;
      assert Views(chain) == [Genesis(now, e)];
    }

    method GetLatestBlock() returns (b: Block)
      requires chain != []
      ensures b == chain[|chain| - 1]
    {
      b := chain[|chain| - 1];
    }

    method CreateTransaction(t: Transaction)
      modifies this`pendingTransactions
      ensures pendingTransactions == old(pendingTransactions) + [t]
    {
      pendingTransactions := pendingTransactions + [t];
    }

    /** Mines all pending transactions into one block; a nonce that solves the difficulty must exist. */
    method MinePendingTransactions(account: string, now: int, e: Formats,
                                   ghost solution: int) returns (ghost nonce: int)
      requires chain != [] && solution >= 0
      requires Solves(Sealed(NewBlock(View(), now, e), solution, e).hash, difficulty)
      modifies this`chain, this`pendingTransactions
      ensures View() == Mined(old(View()), account, now, nonce, e)
      ensures FirstSolution(NewBlock(old(View()), now, e), difficulty, 0, nonce, e)
      ensures |chain| == old(|chain|) + 1 && chain[..old(|chain|)] == old(chain) && fresh(chain[old(|chain|)])
    {
      hide HashOf, Solves, FirstSolution;
      var latest := GetLatestBlock();
      var block := new Block.New(now, pendingTransactions, latest.hash, e);
      assert block.View() == NewBlock(View(), now, e);
      SealedCarriesItsHash(BlockValue(latest.hash, now, pendingTransactions, 0, ""), e);
      block.MineBlock(difficulty, e, solution);
      nonce := block.nonce;
      chain := chain + [block];
      pendingTransactions := [Transaction("", account, miningReward)];
      assert chain[..|chain| - 1] == old(chain);
    }

    method GetBalanceOfAddress(address: string) returns (balance: int)
      ensures balance == Balance(AllTransactions(View().chain), address)
    {
      hide Counted, AllTransactions;
      balance := 0;
      ghost var blocks := Views(chain);
      NoTransactions();
      assert blocks[..0] == [];
      for i := 0 to |chain|
        invariant balance == Balance(AllTransactions(blocks[..i]), address)
      {
        var transactions := chain[i].transactions;
        ghost var before := AllTransactions(blocks[..i]);
        assert before + transactions[..0] == before;
        for j := 0 to |transactions|
          invariant balance == Balance(before + transactions[..j], address)
        {
          BalanceOneMore(before, transactions, j, address);
          balance := Counted(balance, transactions[j], address);
        }
        assert transactions[..|transactions|] == transactions;
        assert blocks[..i + 1] == blocks[..i] + [blocks[i]];
        AllTransactionsOneMore(blocks[..i], blocks[i]);
      }
      assert blocks[..|chain|] == blocks;
    }

    method IsChainValid(e: Formats) returns (valid: bool)
      ensures valid <==> ChainValid(View().chain, e)
    {
      hide HashOf;
      ghost var blocks := Views(chain);
      var i := 1;
      while i < |chain|
        invariant 1 <= i
        invariant forall k {:trigger Linked(blocks, k, e)} :: 1 <= k < i && k < |chain| ==> Linked(blocks, k, e)
        decreases |chain| - i
      {
        var currentBlock, previousBlock := chain[i], chain[i - 1];
        var calculated := currentBlock.CalculateHash(e);
        if currentBlock.hash != calculated {
          assert !Linked(blocks, i, e);
          return false;
        }
        if currentBlock.previousHash != previousBlock.hash {
          assert !Linked(blocks, i, e);
          return false;
        }
        i := i + 1;
      }
      valid := true;
    }

    method CopyBlocks() returns (blocks: seq<Block>)
      ensures Views(blocks) == Views(chain) && forall b :: b in blocks ==> fresh(b)
    {
      hide Views;
      NoViews();
      blocks := [];
      assert chain[..0] == [];
      for i := 0 to |chain|
        invariant Views(blocks) == Views(chain[..i]) && forall b :: b in blocks ==> fresh(b)
      {
        var copy := chain[i].CopyConstructor();
        ViewsOneMore(blocks, copy);
        ViewsOneMore(chain[..i], chain[i]);
        assert chain[..i + 1] == chain[..i] + [chain[i]];
        blocks := blocks + [copy];
      }
      assert chain[..|chain|] == chain;
    }

    /** A deep copy: equal contents, no block shared. */
    method CopyConstructor(now: int, e: Formats) returns (newBlockchain: Blockchain)
      ensures fresh(newBlockchain) && newBlockchain.View() == View()
      ensures forall b :: b in newBlockchain.chain ==> fresh(b)
    {
      hide Views, Genesis;
      newBlockchain := new Blockchain(difficulty, miningReward, now, e);
      newBlockchain.chain := CopyBlocks();
      newBlockchain.pendingTransactions := [];
      for i := 0 to |pendingTransactions|
        invariant fresh(newBlockchain) && newBlockchain.View() == View().(pending := pendingTransactions[..i])
        invariant forall b :: b in newBlockchain.chain ==> fresh(b)
      {
        newBlockchain.pendingTransactions := newBlockchain.pendingTransactions + [pendingTransactions[i]];
      }
    }
  }

  lemma {:induction false} NoViews()
    ensures Views([]) == []
  {
  }

  lemma {:induction false} ViewsOneMore(blocks: seq<Block>, b: Block)
    ensures Views(blocks + [b]) == Views(blocks) + [b.View()]
  {
    assert (blocks + [b])[..|blocks|] == blocks;
  }

  lemma {:induction false} BalanceOneMore(before: seq<Transaction>, ts: seq<Transaction>, j: nat, address: string)
    requires j < |ts|
    ensures Balance(before + ts[..j + 1], address) == Counted(Balance(before + ts[..j], address), ts[j], address)
  {
    var longer := before + ts[..j + 1];
    assert longer[..|longer| - 1] == before + ts[..j];
  }
}
