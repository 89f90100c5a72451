/** What one call of `produce_block` leaves behind, in terms of what it found. */
module Settlement {
  import opened Base
  import opened Transactions
  import opened Blocks
  import opened Ancestry
  import opened BlockStore
  import opened ChainRuns
  import opened StateStore
  import opened PoolState
  import opened PoolLaws
  import opened Mempool
  import opened Money
  import opened CandidateLaws
  import opened Payments
  import opened Production

  // ---------- the accounts ----------

  lemma LoopOfCall(c: Crypto, x: Inputs)
    requires |x.txs| <= |x.ds| && Supply(x.entries.balances) < TWO256 - 1
    ensures Balanced(x.entries, x.validator, Loop(c, x))
    ensures Supply(Loop(c, x).entries.balances) == Supply(x.entries.balances)
  {
    LoopBalances(CryptoView(c), x.chainId, x.validator, x.entries, x.pool, x.txs, x.ds);
  }

  // Everybody but the proposer holds what it held, less what it sent and paid for gas, and what was
  // sent to it.
  lemma OthersAreSettled(c: Crypto, x: Inputs, a: Address)
    requires |x.txs| <= |x.ds| && Supply(x.entries.balances) < TWO256 - 1 && a != x.validator
    ensures Balance(Settled(c, x).balances, a) + PaidBy(Loop(c, x).done, a) ==
            Balance(x.entries.balances, a) + PaidTo(Loop(c, x).done, a)
  {
    LoopOfCall(c, x);
  }

  lemma {:induction false} SendsNothing(done: seq<Executed>, a: Address)
    requires forall x :: x in done ==> x.sender != a
    ensures PaidBy(done, a) == 0
  {
    if done != [] {
      SendsNothing(done[..|done| - 1], a);
    }
  }

  // A proposer that sends nothing gains what is sent to it and the gas fees, less half of them
  // rounded down; and that half leaves the supply.
  lemma ProposerIsSettled(c: Crypto, x: Inputs)
    requires |x.txs| <= |x.ds| && Supply(x.entries.balances) < TWO256 - 1
    requires forall y :: y in Loop(c, x).done ==> y.sender != x.validator
    ensures var fees := FeesPaid(Loop(c, x).done);
            && Balance(Settled(c, x).balances, x.validator) ==
               Balance(x.entries.balances, x.validator) + PaidTo(Loop(c, x).done, x.validator)
               + (fees - fees / 2)
            && Supply(Settled(c, x).balances) == Supply(x.entries.balances) - fees / 2
  {
    var w := Loop(c, x);
    LoopOfCall(c, x);
    SendsNothing(w.done, x.validator);
    FeesAreExact(w.done);
    BlockBurnsHalfTheFees(CryptoView(c), x.chainId, x.validator, x.entries, x.pool, x.txs, x.ds);
    assert Balance(w.entries.balances, x.validator) + PaidBy(w.done, x.validator) ==
           Balance(x.entries.balances, x.validator) + PaidTo(w.done, x.validator) + FeesPaid(w.done);
    BalanceWithinSupply(w.entries.balances, x.validator);
    FeesUnsaturated(w.done);
  }

  // If a double sign is found, the validator loses all it has, short of a wrap-around, and nobody
  // else is touched.
  lemma PenaltyTakesAll(e: Entries, a: Address)
    requires Balance(e.balances, a) * 10_000 < TWO256
    ensures Balance(Penalised(e, a).balances, a) == 0 && Penalised(e, a).nonces == e.nonces
    ensures forall b: Address :: b != a ==> Balance(Penalised(e, a).balances, b) == Balance(e.balances, b)
  {
    DivModIs(Balance(e.balances, a) * 10_000, 10_000, Balance(e.balances, a), 0);
  }

  lemma DoubleSignIsPunished(c: Crypto, x: Inputs)
    requires Ready(c, x) && Offered(c, x).1.Fail? && Offered(c, x).1.error.DoubleSign?
    requires Balance(Settled(c, x).balances, x.validator) * 10_000 < TWO256
    ensures Balance(AccountsAfter(c, x).balances, x.validator) == 0
    ensures forall b: Address :: b != x.validator ==>
              Balance(AccountsAfter(c, x).balances, b) == Balance(Settled(c, x).balances, b)
  {
    PenaltyTakesAll(Settled(c, x), x.validator);
  }

  // ---------- the block ----------

  // The header of the produced block, field by field.
  lemma ProducedHeader(c: Crypto, x: Inputs)
    requires Ready(c, x)
    ensures var h := Produced(c, x).header;
            && h.parentHash == x.store.head.value
            && h.number as nat == Number(x.store.head.value) + 1
            && h.stateRoot == c.sha256(Preimage(Settled(c, x)))
            && h.transactionsRoot == TransactionsRoot(c, Produced(c, x).transactions)
            && h.receiptsRoot == 0 && h.timestamp == x.time && h.validator == x.validator
            && h.signature == [] && h.gasLimit == 30_000_000 && h.baseFeePerGas == 0
    ensures |Produced(c, x).transactions| == |Loop(c, x).done|
    ensures forall i :: 0 <= i < |Loop(c, x).done| ==>
              Produced(c, x).transactions[i] == Loop(c, x).done[i].tx
  {}

  // At most 100 candidates are looked at, all of them pooled, and all there are if there are fewer.
  lemma HundredCandidates(c: Crypto, x: Inputs)
    requires Ready(c, x)
    ensures |x.txs| <= 100 && forall tx :: tx in x.txs ==> InPool(x.pool, tx)
    ensures |x.txs| < 100 ==> forall tx :: InPool(x.pool, tx) ==> tx in x.txs
  {}

  // ---------- the pool ----------

  // The candidates the fraud check rejects, and those that run.
  function Rejected(c: Crypto, x: Inputs): seq<SignedTransaction>
    requires |x.txs| <= |x.ds|
  {
    Rejects(CryptoView(c), x.chainId, x.validator, Work(x.entries, [], x.pool), x.txs, x.ds)
  }

  lemma {:induction false} TakenIsWithout(v: View, p: Pool, done: seq<Executed>)
    ensures TakenOut(v, p, done) == Without(v, p, Txs(done))
  {
    if done != [] {
      TakenIsWithout(v, p, done[..|done| - 1]);
      assert Txs(done)[..|done| - 1] == Txs(done[..|done| - 1]);
    }
  }

  // A call leaves the pool without the rejected candidates and, if the block is accepted, without
  // those that ran; everything else stays in its place.
  lemma PoolAfterCall(c: Crypto, x: Inputs)
    requires Ready(c, x) && Inv(CryptoView(c), x.pool)
    ensures Lacks(CryptoView(c), x.pool, Rejected(c, x), Loop(c, x).pool)
    ensures Lacks(CryptoView(c), x.pool, Rejected(c, x) + Txs(Loop(c, x).done),
                  TakenOut(CryptoView(c), Loop(c, x).pool, Loop(c, x).done))
  {
    var v, w := CryptoView(c), Loop(c, x);
    var start := Work(x.entries, [], x.pool);
    HundredCandidates(c, x);
    LoopPool(v, x.chainId, x.validator, start, x.txs, x.ds);
    RejectsAreCandidates(v, x.chainId, x.validator, start, x.txs, x.ds);
    WithoutLacks(v, x.pool, Rejected(c, x));
    RanAreCandidates(c, x);
    TakenIsWithout(v, w.pool, w.done);
    WithoutMore(v, x.pool, Rejected(c, x), Txs(w.done));
    WithoutLacks(v, x.pool, Rejected(c, x) + Txs(w.done));
  }

  lemma RanAreCandidates(c: Crypto, x: Inputs)
    requires |x.txs| <= |x.ds|
    ensures forall tx :: tx in Txs(Loop(c, x).done) ==> tx in x.txs
  {
    var done := Loop(c, x).done;
    LoopIncludes(CryptoView(c), x.chainId, x.validator, Work(x.entries, [], x.pool), x.txs, x.ds);
    forall tx | tx in Txs(done) ensures tx in x.txs {
      var i :| 0 <= i < |done| && Txs(done)[i] == tx;
      assert done[i] in done;
    }
  }

  // ---------- a slow call ----------

  // A block is rejected when its own time, read after the candidates have run, is more than three
  // seconds past the time read at the start; what ran stays done and cannot be included again.
  lemma SlowCallIsStuck(c: Crypto, x: Inputs)
    requires Ready(c, x) && x.now + 3 < x.time && x.now + 3 < TWO64
    ensures Offered(c, x).1.Fail? && Offered(c, x).0 == x.store
    ensures forall m :: 0 <= m < |Loop(c, x).done| ==>
              !Includable(CryptoView(c), Settled(c, x), x.chainId, Loop(c, x).done[m].tx)
  {
    LatestIs(x.now);
    ProducedOnHead(c, x);
    ProducedIff(c, x.store, Produced(c, x), x.now);
    AcceptedPasses(c, x.store, Produced(c, x), x.now);
    ExecutedIsGone(c, x);
  }

  // On the head the bound is three seconds, to the second.
  lemma OnHeadIff(c: Crypto, s: Store, b: Block, now: U64)
    requires WellFormed(s) && OnHead(c, s, b) && now + 3 < TWO64
    ensures Accept(c, s, b, now).1.Pass?
       <==> (&& Distinct(Senders(c, b.transactions))
             && b.header.parentHash.header.timestamp < b.header.timestamp <= now + 3
             && MaySign(s, b))
  {
    LatestIs(now);
    ProducedIff(c, s, b, now);
    AcceptedPasses(c, s, b, now);
  }
}
