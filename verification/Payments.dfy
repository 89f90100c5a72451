/** What the candidate loop does to the accounts and the pool, in terms of the transactions' own
    fields. */
module Payments {
  import opened Base
  import opened Transactions
  import opened StateStore
  import opened PoolState
  import opened PoolLaws
  import opened Mempool
  import opened Money
  import opened CandidateLaws

  // ---------- one candidate ----------

  // A candidate is valid exactly when it is for this chain, its sender is recovered and can pay the
  // value and the full gas limit, and its nonce is the sender's.
  lemma IncludableIff(v: View, e: Entries, chainId: U64, tx: SignedTransaction)
    requires Supply(e.balances) < TWO256 - 1
    ensures Includable(v, e, chainId, tx)
       <==> (&& tx.transaction.chainId == chainId && v.sender(tx).Some?
             && var t, a := tx.transaction, v.sender(tx).value;
                && t.value + t.gasPrice * t.gasLimit <= Balance(e.balances, a)
                && t.nonce == Nonce(e.nonces, a))
  {
    if v.sender(tx).Some? {
      BalanceWithinSupply(e.balances, v.sender(tx).value);
    }
  }

  // Who receives the value: the address the transaction names, or the created contract.
  predicate Pays(tx: SignedTransaction, created: Address, a: Address) {
    match tx.transaction.to
    case Some(b) => a == b
    case None => a == created
  }

  // The gas a transaction is charged for.
  predicate Charged(tx: SignedTransaction, gas: nat, used: nat) {
    if gas < tx.transaction.gasLimit then used == gas else used == tx.transaction.gasLimit
  }

  // How `u` follows from `w` when `tx` runs with this gas: the sender pays value and gas, the named
  // recipient gets the value and the proposer the gas fee, and the sender's nonce goes up by one.
  ghost predicate Settles(v: View, w: Work, tx: SignedTransaction, gas: nat, created: Address,
                          proposer: Address, u: Work)
    requires v.sender(tx).Some?
  {
    var t, s := tx.transaction, v.sender(tx).value;
    && |u.done| == |w.done| + 1 && u.done[..|w.done|] == w.done && u.pool == w.pool
    && var x := u.done[|w.done|];
       && x.tx == tx && x.sender == s && Charged(tx, gas, x.gasUsed)
       && (t.to.None? ==> x.recipient == created)
       && Moved(w.entries, tx, s, t.gasPrice * x.gasUsed, created, proposer, u.entries)
  }

  // The accounts after `s` has paid the value to the recipient and `fee` to the proposer.
  ghost predicate Moved(e: Entries, tx: SignedTransaction, s: Address, fee: nat, created: Address,
                        proposer: Address, f: Entries)
  {
    && (forall a: Address ::
          Balance(f.balances, a) ==
          Balance(e.balances, a)
          - (if a == s then tx.transaction.value + fee else 0)
          + (if Pays(tx, created, a) then tx.transaction.value else 0)
          + (if a == proposer then fee else 0))
    && (forall a: Address ::
          Nonce(f.nonces, a) ==
          if a == s then (Nonce(e.nonces, a) + 1) % TWO64 else Nonce(e.nonces, a))
  }

  // One round of the loop: an invalid or skipped candidate changes nothing, a rejected one leaves
  // the pool, and one that runs is settled.
  lemma RoundIs(v: View, chainId: U64, proposer: Address, w: Work, tx: SignedTransaction, d: Decision)
    requires Supply(w.entries.balances) < TWO256 - 1
    ensures var u := Consider(v, chainId, proposer, w, tx, d);
            if !Includable(v, w.entries, chainId, tx) || d.Skip? then u == w
            else if d.Reject? then u == w.(pool := PoolState.Remove(w.pool, v.hash(tx)))
            else Settles(v, w, tx, d.gas, d.created, proposer, u)
    ensures Supply(Consider(v, chainId, proposer, w, tx, d).entries.balances) ==
            Supply(w.entries.balances)
  {
    if Includable(v, w.entries, chainId, tx) && d.Run? {
      RunSettles(v, chainId, proposer, w, tx, d);
    }
  }

  lemma RunSettles(v: View, chainId: U64, proposer: Address, w: Work, tx: SignedTransaction, d: Decision)
    requires Supply(w.entries.balances) < TWO256 - 1
    requires Includable(v, w.entries, chainId, tx) && d.Run?
    ensures var u := Consider(v, chainId, proposer, w, tx, d);
            && Settles(v, w, tx, d.gas, d.created, proposer, u)
            && Supply(u.entries.balances) == Supply(w.entries.balances)
  {
    var x := Ran(v, tx, d.gas, d.created);
    ExecuteMoves(v, chainId, proposer, w.entries, x, d.created);
    assert (w.done + [x])[..|w.done|] == w.done && (w.done + [x])[|w.done|] == x;
  }

  lemma ExecuteMoves(v: View, chainId: U64, proposer: Address, e: Entries, x: Executed, created: Address)
    requires Supply(e.balances) < TWO256 - 1 && Includable(v, e, chainId, x.tx)
    requires v.sender(x.tx) == Some(x.sender) && x.gasUsed <= x.tx.transaction.gasLimit
    requires forall a: Address :: Pays(x.tx, created, a) <==> a == x.recipient
    ensures Moved(e, x.tx, x.sender, x.tx.transaction.gasPrice * x.gasUsed, created, proposer,
                  Execute(e, x, proposer))
    ensures Supply(Execute(e, x, proposer).balances) == Supply(e.balances)
  {
    ExecuteIsExact(v, e, chainId, x, proposer);
  }

  // ---------- the whole loop ----------

  // What `a` paid: value and gas of every transaction it sent.
  function PaidBy(done: seq<Executed>, a: Address): nat {
    if done == [] then 0
    else
      var x := done[|done| - 1];
      PaidBy(done[..|done| - 1], a) +
      if x.sender == a then x.tx.transaction.value + x.tx.transaction.gasPrice * x.gasUsed else 0
  }

  // What `a` was paid: the value of every transaction that names it, or that created it.
  function PaidTo(done: seq<Executed>, a: Address): nat {
    if done == [] then 0
    else
      var x := done[|done| - 1];
      PaidTo(done[..|done| - 1], a) + if Pays(x.tx, x.recipient, a) then x.tx.transaction.value else 0
  }

  // The gas fees, at the price of each transaction.
  function FeesPaid(done: seq<Executed>): nat {
    if done == [] then 0
    else
      var x := done[|done| - 1];
      FeesPaid(done[..|done| - 1]) + x.tx.transaction.gasPrice * x.gasUsed
  }

  // The books balance for every account.
  ghost predicate Balanced(e: Entries, proposer: Address, w: Work) {
    forall a: Address ::
      Balance(w.entries.balances, a) + PaidBy(w.done, a) ==
      Balance(e.balances, a) + PaidTo(w.done, a) + if a == proposer then FeesPaid(w.done) else 0
  }

  lemma SettlingBalances(v: View, e: Entries, w: Work, tx: SignedTransaction, gas: nat,
                         created: Address, proposer: Address, u: Work)
    requires v.sender(tx).Some? && Settles(v, w, tx, gas, created, proposer, u)
    requires Balanced(e, proposer, w)
    ensures Balanced(e, proposer, u)
  {
    var x := u.done[|w.done|];
    assert u.done[..|u.done| - 1] == w.done;
    forall a: Address
      ensures Balance(u.entries.balances, a) + PaidBy(u.done, a) ==
              Balance(e.balances, a) + PaidTo(u.done, a)
              + if a == proposer then FeesPaid(u.done) else 0
    {
      assert Pays(tx, created, a) == Pays(tx, x.recipient, a);
      assert Balance(w.entries.balances, a) + PaidBy(w.done, a) ==
             Balance(e.balances, a) + PaidTo(w.done, a)
             + if a == proposer then FeesPaid(w.done) else 0;
    }
  }

  // After the loop every account holds what it held, less what it sent and paid for gas, and what
  // was sent to it; the proposer also holds the gas fees.  Recipients are those the transactions
  // name.
  lemma {:induction false} LoopBalances(v: View, chainId: U64, proposer: Address, e: Entries, pool: Pool,
                                        txs: seq<SignedTransaction>, ds: seq<Decision>)
    requires |txs| <= |ds| && Supply(e.balances) < TWO256 - 1
    ensures var w := ConsiderAll(v, chainId, proposer, Work(e, [], pool), txs, ds);
            Balanced(e, proposer, w) && Supply(w.entries.balances) == Supply(e.balances)
  {
    if txs != [] {
      var n := |txs| - 1;
      LoopBalances(v, chainId, proposer, e, pool, txs[..n], ds);
      var w := ConsiderAll(v, chainId, proposer, Work(e, [], pool), txs[..n], ds);
      RoundIs(v, chainId, proposer, w, txs[n], ds[n]);
      RoundBalances(v, chainId, proposer, e, w, txs[n], ds[n]);
    }
  }

  lemma RoundBalances(v: View, chainId: U64, proposer: Address, e: Entries, w: Work,
                      tx: SignedTransaction, d: Decision)
    requires Supply(w.entries.balances) < TWO256 - 1 && Balanced(e, proposer, w)
    ensures Balanced(e, proposer, Consider(v, chainId, proposer, w, tx, d))
  {
    RoundIs(v, chainId, proposer, w, tx, d);
    if Includable(v, w.entries, chainId, tx) && d.Run? {
      SettlingBalances(v, e, w, tx, d.gas, d.created, proposer,
                       Consider(v, chainId, proposer, w, tx, d));
    }
  }

  lemma {:induction false} FeesAreExact(done: seq<Executed>)
    ensures FeesPaid(done) == ExactFees(done)
  {
    if done != [] {
      FeesAreExact(done[..|done| - 1]);
    }
  }

  // ---------- the pool ----------

  // The valid candidates the fraud check rejects when their turn comes.
  function Rejects(v: View, chainId: U64, proposer: Address, w: Work,
                   txs: seq<SignedTransaction>, ds: seq<Decision>): seq<SignedTransaction>
    requires |txs| <= |ds|
  {
    if txs == [] then []
    else
      var n := |txs| - 1;
      Rejects(v, chainId, proposer, w, txs[..n], ds) +
      if ds[n].Reject?
         && Includable(v, ConsiderAll(v, chainId, proposer, w, txs[..n], ds).entries, chainId, txs[n])
      then [txs[n]] else []
  }

  lemma {:induction false} RejectsAreCandidates(
    v: View, chainId: U64, proposer: Address, w: Work, txs: seq<SignedTransaction>, ds: seq<Decision>)
    requires |txs| <= |ds|
    ensures forall tx :: tx in Rejects(v, chainId, proposer, w, txs, ds) ==> tx in txs
  {
    if txs != [] {
      RejectsAreCandidates(v, chainId, proposer, w, txs[..|txs| - 1], ds);
      assert txs == txs[..|txs| - 1] + [txs[|txs| - 1]];
    }
  }

  lemma {:induction false} LoopPool(v: View, chainId: U64, proposer: Address, w: Work,
                                    txs: seq<SignedTransaction>, ds: seq<Decision>)
    requires |txs| <= |ds|
    ensures ConsiderAll(v, chainId, proposer, w, txs, ds).pool ==
            Without(v, w.pool, Rejects(v, chainId, proposer, w, txs, ds))
  {
    if txs != [] {
      var n := |txs| - 1;
      LoopPool(v, chainId, proposer, w, txs[..n], ds);
      var gone := Rejects(v, chainId, proposer, w, txs[..n], ds);
      assert (gone + [txs[n]])[..|gone|] == gone && gone + [] == gone;
    }
  }

  lemma {:induction false} WithoutMore(v: View, p: Pool, a: seq<SignedTransaction>,
                                       b: seq<SignedTransaction>)
    ensures Without(v, Without(v, p, a), b) == Without(v, p, a + b)
  {
    if b == [] {
      assert a + b == a;
    } else {
      var n := |b| - 1;
      WithoutMore(v, p, a, b[..n]);
      assert (a + b)[..|a + b| - 1] == a + b[..n];
    }
  }

  // The pool after these transactions were removed by hash, first to last.
  function Without(v: View, p: Pool, gone: seq<SignedTransaction>): Pool {
    if gone == [] then p
    else PoolState.Remove(Without(v, p, gone[..|gone| - 1]), v.hash(gone[|gone| - 1]))
  }

  // What is pooled in `q` is what is pooled in `p`, less `gone`; and hashes of what is gone are
  // unknown.
  ghost predicate Lacks(v: View, p: Pool, gone: seq<SignedTransaction>, q: Pool) {
    && Inv(v, q)
    && (forall a: Address, n: U64 ::
          (Pooled(q, a, n) <==> Pooled(p, a, n) && At(p, a, n) !in gone)
          && (Pooled(q, a, n) ==> At(q, a, n) == At(p, a, n)))
    && (forall tx :: tx in gone ==> v.hash(tx) !in q.byHash)
  }

  lemma {:induction false} WithoutLacks(v: View, p: Pool, gone: seq<SignedTransaction>)
    requires Inv(v, p) && forall tx :: tx in gone ==> InPool(p, tx)
    ensures Lacks(v, p, gone, Without(v, p, gone))
  {
    if gone != [] {
      var n := |gone| - 1;
      assert gone == gone[..n] + [gone[n]];
      WithoutLacks(v, p, gone[..n]);
      RemoveLacks(v, p, gone[..n], Without(v, p, gone[..n]), gone[n]);
    }
  }

  lemma RemoveLacks(v: View, p: Pool, gone: seq<SignedTransaction>, q: Pool, tx: SignedTransaction)
    requires Inv(v, p) && Lacks(v, p, gone, q) && InPool(p, tx)
    ensures Lacks(v, p, gone + [tx], PoolState.Remove(q, v.hash(tx)))
  {
    var h := v.hash(tx);
    var a, n := v.sender(tx).value, tx.transaction.nonce;
    PlaceOf(v, p, tx);
    RemoveKeeps(v, q, h);
    if tx in gone {
      assert h !in q.byHash;
    } else {
      assert Pooled(q, a, n) && q.byHash[h] == (a, n);
      forall b: Address, m: U64
        ensures Pooled(PoolState.Remove(q, h), b, m) <==> Pooled(q, b, m) && (b, m) != (a, n)
        ensures Pooled(PoolState.Remove(q, h), b, m) ==>
                  At(PoolState.Remove(q, h), b, m) == At(q, b, m)
      {
        RemoveMembers(q, h, b, m);
      }
      forall b: Address, m: U64 | Pooled(p, b, m) && At(p, b, m) == tx ensures (b, m) == (a, n) {
        assert v.sender(At(p, b, m)) == Some(b);
      }
    }
  }
}
