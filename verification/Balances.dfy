/**
 When the truncating balance loop is exact: for every amount, whole or not, and every address.
 */
module Balances {
  import opened Blocks
  import opened Blockchains

  /** What the balance of an address ought to be. */
  function Due(ts: seq<Transaction>, address: string): real {
    Received(ts, address) - Sent(ts, address)
  }

  /** What one transaction ought to add to it. */
  function Effect(t: Transaction, address: string): real {
    (if t.toAddress == address then t.amount else 0.0) - (if t.fromAddress == address then t.amount else 0.0)
  }

  predicate Whole(amount: real) {
    amount == amount.Floor as real
  }

  /**
   The loop counts a transaction exactly at this balance: a transfer to itself always, to or from another address
   if the amount is whole, and between two others also if the balance is zero or the amount outweighs it on the
   other side of zero.
   */
  predicate ExactAt(balance: real, t: Transaction, address: string) {
    if t.fromAddress == address && t.toAddress == address then true
    else if t.fromAddress == address || t.toAddress == address then Whole(t.amount)
    else || Whole(t.amount) || balance == 0.0
         || (balance < 0.0 && balance + t.amount >= 0.0) || (balance > 0.0 && balance + t.amount <= 0.0)
  }

  lemma {:induction false} FloorIsNear(r: real)
    ensures r.Floor as real <= r < r.Floor as real + 1.0
  {
  }

  lemma {:induction false} WholeIsInt(r: real, k: int)
    requires r == k as real
    ensures r.Floor == k && Whole(r)
  {
  }

  lemma {:induction false} Negated(k: int)
    ensures (-k) as real == -(k as real)
  {
  }

  lemma {:induction false} TruncatedIsNear(r: real)
    ensures r >= 0.0 ==> Truncated(r) as real <= r < Truncated(r) as real + 1.0
    ensures r <= 0.0 ==> Truncated(r) as real - 1.0 < r <= Truncated(r) as real
    ensures Truncated(r) as real == r <==> Whole(r)
  {
    hide Whole;
    if r >= 0.0 {
      FloorIsNear(r);
      TruncatedWhole(0);
    } else {
      FloorIsNear(-r);
      Negated((-r).Floor);
    }
    if Truncated(r) as real == r {
      WholeIsInt(r, Truncated(r));
    }
    if Whole(r) {
      WholeTruncates(r);
    }
  }

  lemma {:induction false} WholeTruncates(r: real)
    requires Whole(r)
    ensures Truncated(r) as real == r
  {
    hide Truncated;
    TruncatedWhole(r.Floor);
  }

  /** Adding an amount to a whole balance and truncating is exact for whole amounts only. */
  lemma {:induction false} WholeSum(balance: int, amount: real)
    ensures Whole(balance as real + amount) <==> Whole(amount)
    ensures Whole(balance as real - amount) <==> Whole(amount)
  {
    if Whole(amount) {
      assert balance as real + amount == (balance + amount.Floor) as real;
      assert balance as real - amount == (balance - amount.Floor) as real;
    }
    if Whole(balance as real + amount) {
      assert amount == ((balance as real + amount).Floor - balance) as real;
    }
    if Whole(balance as real - amount) {
      assert amount == (balance - (balance as real - amount).Floor) as real;
    }
  }

  /** A bystander: the amount is added, truncated, taken away again and truncated. */
  function PassedBy(balance: int, amount: real): int {
    Truncated(Truncated(balance as real + amount) as real - amount)
  }

  /** A fraction that passes by takes one unit away from a balance, towards zero. */
  lemma {:induction false} BystanderPays(balance: int, amount: real)
    requires !Whole(amount)
    ensures PassedBy(balance, amount) ==
      if balance > 0 && balance as real + amount > 0.0 then balance - 1
      else if balance < 0 && balance as real + amount < 0.0 then balance + 1
      else balance
  {
    hide Truncated;
    var sum := balance as real + amount;
    var kept := Truncated(sum);
    TruncatedIsNear(sum);
    TruncatedIsNear(kept as real - amount);
    WholeSum(balance, amount);
    WholeSum(kept, amount);
  }

  lemma {:induction false} WholePassesBy(balance: int, amount: real)
    requires Whole(amount)
    ensures PassedBy(balance, amount) == balance
  {
    hide Truncated;
    TruncatedWhole(balance + amount.Floor);
    assert balance as real + amount == (balance + amount.Floor) as real;
    TruncatedWhole(balance);
  }

  /** One transaction is counted exactly if and only if that condition holds. */
  lemma {:induction false} CountedExactlyIff(balance: int, t: Transaction, address: string)
    ensures Counted(balance, t, address) as real == balance as real + Effect(t, address)
       <==> ExactAt(balance as real, t, address)
  {
    hide Truncated;
    if t.fromAddress != address && t.toAddress != address {
      assert Counted(balance, t, address) == PassedBy(balance, t.amount);
      if Whole(t.amount) {
        WholePassesBy(balance, t.amount);
      } else {
        BystanderPays(balance, t.amount);
      }
    } else {
      TruncatedIsNear(balance as real + t.amount);
      TruncatedIsNear(balance as real - t.amount);
      WholeSum(balance, t.amount);
    }
  }

  lemma {:induction false} DueOneMore(ts: seq<Transaction>, k: nat, address: string)
    requires k < |ts|
    ensures Due(ts[..k + 1], address) == Due(ts[..k], address) + Effect(ts[k], address)
    ensures Balance(ts[..k + 1], address) == Counted(Balance(ts[..k], address), ts[k], address)
  {
    hide Counted;
    assert ts[..k + 1][..k] == ts[..k];
  }

  ghost predicate ExactUpTo(ts: seq<Transaction>, n: nat, address: string)
    requires n <= |ts|
  {
    forall k {:trigger ts[..k]} :: 0 <= k <= n ==> Balance(ts[..k], address) as real == Due(ts[..k], address)
  }

  ghost predicate EachExact(ts: seq<Transaction>, n: nat, address: string)
    requires n <= |ts|
  {
    forall k {:trigger ts[k]} :: 0 <= k < n ==> ExactAt(Due(ts[..k], address), ts[k], address)
  }

  /**
   The balance is received minus sent after every transaction if and only if every transaction meets the condition
   at what the balance ought to be then.
   */
  lemma {:induction false} ExactThroughoutIff(ts: seq<Transaction>, n: nat, address: string)
    requires n <= |ts|
    ensures ExactUpTo(ts, n, address) <==> EachExact(ts, n, address)
  {
    hide Due, Balance, ExactAt, Counted, Effect;
    if n == 0 {
      NothingDue(ts, address);
    } else {
      ExactThroughoutIff(ts, n - 1, address);
      DueOneMore(ts, n - 1, address);
      CountedExactlyIff(Balance(ts[..n - 1], address), ts[n - 1], address);
      UpToOneMore(ts, n, address);
      assert EachExact(ts, n, address) <==>
        EachExact(ts, n - 1, address) && ExactAt(Due(ts[..n - 1], address), ts[n - 1], address);
      if ExactUpTo(ts, n - 1, address) {
        assert Balance(ts[..n - 1], address) as real == Due(ts[..n - 1], address);
      }
    }
  }

  lemma {:induction false} NothingDue(ts: seq<Transaction>, address: string)
    ensures Balance(ts[..0], address) as real == Due(ts[..0], address)
  {
  }

  lemma {:induction false} UpToOneMore(ts: seq<Transaction>, n: nat, address: string)
    requires 1 <= n <= |ts|
    ensures ExactUpTo(ts, n, address) <==>
              ExactUpTo(ts, n - 1, address) && Balance(ts[..n], address) as real == Due(ts[..n], address)
  {
    hide Due, Balance;
    if ExactUpTo(ts, n, address) {
      assert ts[..n] == ts[..n];
      assert Balance(ts[..n], address) as real == Due(ts[..n], address);
    }
  }

  /** Where nobody pays himself, all balances are exact throughout if and only if all amounts are whole. */
  lemma {:induction false} AllExactIffWhole(ts: seq<Transaction>)
    requires forall i :: 0 <= i < |ts| ==> ts[i].fromAddress != ts[i].toAddress
    ensures (forall address {:trigger ExactUpTo(ts, |ts|, address)} :: ExactUpTo(ts, |ts|, address))
       <==> WholeAmounts(ts)
  {
    hide Due, ExactUpTo;
    forall address ensures ExactUpTo(ts, |ts|, address) <==> EachExact(ts, |ts|, address) {
      ExactThroughoutIff(ts, |ts|, address);
    }
    if !WholeAmounts(ts) {
      var k :| 0 <= k < |ts| && !Whole(ts[k].amount);
      assert !ExactAt(Due(ts[..k], ts[k].toAddress), ts[k], ts[k].toAddress);
      assert !ExactUpTo(ts, |ts|, ts[k].toAddress);
    }
  }

  // ---------- the final balance ----------

  /** The rounding error of one step at a given balance. */
  function StepError(balance: int, t: Transaction, address: string): real {
    Counted(balance, t, address) as real - balance as real - Effect(t, address)
  }

  function ErrorSum(ts: seq<Transaction>, address: string): real {
    if ts == [] then 0.0
    else
      var init, t := ts[..|ts| - 1], ts[|ts| - 1];
      ErrorSum(init, address) + StepError(Balance(init, address), t, address)
  }

  /** No step is off by more than one, and none where the condition holds. */
  lemma {:induction false} StepErrorIsSmall(balance: int, t: Transaction, address: string)
    ensures -1.0 <= StepError(balance, t, address) <= 1.0
    ensures StepError(balance, t, address) == 0.0 <==> ExactAt(balance as real, t, address)
  {
    hide Truncated;
    CountedExactlyIff(balance, t, address);
    if t.fromAddress != address && t.toAddress != address {
      if Whole(t.amount) {
        WholePassesBy(balance, t.amount);
      } else {
        BystanderPays(balance, t.amount);
      }
    } else {
      TruncatedIsNear(balance as real + t.amount);
      TruncatedIsNear(balance as real - t.amount);
    }
  }

  /** The last balance is exact if and only if the errors cancel, and it is never off by more than one a transaction. */
  lemma {:induction false} FinalBalance(ts: seq<Transaction>, address: string)
    ensures Balance(ts, address) as real == Due(ts, address) + ErrorSum(ts, address)
    ensures -(|ts| as real) <= ErrorSum(ts, address) <= |ts| as real
    decreases |ts|
  {
    hide Counted, Effect, StepError;
    if ts != [] {
      var init, t := ts[..|ts| - 1], ts[|ts| - 1];
      FinalBalance(init, address);
      StepErrorIsSmall(Balance(init, address), t, address);
      LastStep(ts, address);
    }
  }

  lemma {:induction false} LastStep(ts: seq<Transaction>, address: string)
    requires ts != []
    ensures var init, t := ts[..|ts| - 1], ts[|ts| - 1];
            Balance(ts, address) as real - Due(ts, address)
            == Balance(init, address) as real - Due(init, address) + StepError(Balance(init, address), t, address)
  {
    hide Counted;
  }

  /** Half a unit that passes between two others costs a third its last unit. */
  lemma {:induction false} FractionsAreLost()
    ensures var ts := [Transaction("", "c", 1.0), Transaction("a", "b", 0.5)];
            Due(ts, "c") == 1.0 && Balance(ts, "c") == 0
  {
    hide Truncated;
    var mint, half := Transaction("", "c", 1.0), Transaction("a", "b", 0.5);
    assert [mint, half][..1] == [mint] && [mint][..0] == [];
    assert "c"[0] != "a"[0] && "c"[0] != "b"[0] && "c" != "";
    assert Due([], "c") == 0.0 && Due([mint], "c") == 1.0;
    assert Due([mint, half], "c") == 1.0;
    TruncatedWhole(1);
    assert Balance([mint], "c") == 1;
    BystanderPays(1, 0.5);
  }

  // ---------- mining ----------

  /** All transactions of a chain, the mined ones and then the waiting ones. */
  function Known(c: ChainValue): seq<Transaction> {
    AllTransactions(c.chain) + c.pending
  }

  /**
   Mining pays the miner exactly the reward, at the cost of the empty address, and nobody else anything: for whole
   amounts, counting what is mined and what waits.
   */
  lemma {:induction false} MinerIsPaid(c: ChainValue, account: string, now: int, nonce: int, e: Formats,
                                       address: string)
    requires c.chain != [] && WholeAmounts(Known(c)) && Whole(c.miningReward)
    ensures Balance(Known(Mined(c, account, now, nonce, e)), address) as real
         == Balance(Known(c), address) as real + (if address == account then c.miningReward else 0.0)
                                               - (if address == "" then c.miningReward else 0.0)
  {
    hide AllTransactions, Counted, Balance;
    var mined := Mined(c, account, now, nonce, e);
    AllTransactionsOneMore(c.chain, mined.chain[|c.chain|]);
    var reward := mined.pending[0];
    assert Known(mined) == Known(c) + [reward];
    BalanceOneMore(Known(c), reward, address);
    CountedWhole(Balance(Known(c), address), reward, address);
  }

  lemma {:induction false} BalanceOneMore(ts: seq<Transaction>, t: Transaction, address: string)
    ensures Balance(ts + [t], address) == Counted(Balance(ts, address), t, address)
  {
    hide Counted;
    assert (ts + [t])[..|ts|] == ts;
  }
}
