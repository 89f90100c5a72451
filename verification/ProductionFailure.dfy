/** When two transactions of one sender get into one block, and a call in which they do. */
module ProductionFailure {
  import opened Base
  import opened Sums
  import opened Transactions
  import opened Blocks
  import opened BlockStore
  import opened ChainRuns
  import opened StateStore
  import opened PoolState
  import opened PoolLaws
  import opened Mempool
  import opened Money
  import opened CandidateLaws
  import opened Production

  // The call in which the world lets the candidates `i` and `j` run and no others.
  function Allowing(x: Inputs, i: nat, j: nat, d: Decision, f: Decision): Inputs {
    x.(ds := Only(|x.txs|, i, j, d, f))
  }

  // In the call `y` exactly the two run, the first of them first, and both are `a`'s.
  ghost predicate RunsBoth(c: Crypto, y: Inputs, a: Address,
                           first: SignedTransaction, last: SignedTransaction) {
    && Ready(c, y) && |Loop(c, y).done| == 2
    && Loop(c, y).done[0].tx == first && Loop(c, y).done[1].tx == last
    && Loop(c, y).done[0].sender == a == Loop(c, y).done[1].sender
  }

  // The block is rejected and the chain unchanged, the sender's nonce is two further, and neither
  // transaction can be included again.
  ghost predicate Stuck(c: Crypto, y: Inputs, a: Address,
                        first: SignedTransaction, last: SignedTransaction)
    requires Ready(c, y)
  {
    && Offered(c, y).0 == y.store && Offered(c, y).1.Fail?
    && Nonce(Settled(c, y).nonces, a) == (Nonce(y.entries.nonces, a) + 2) % TWO64
    && !Includable(CryptoView(c), Settled(c, y), y.chainId, first)
    && !Includable(CryptoView(c), Settled(c, y), y.chainId, last)
  }

  lemma BothRun(c: Crypto, x: Inputs, a: Address, i: nat, j: nat, d: Decision, f: Decision)
    requires Ready(c, x) && NextPair(CryptoView(c), x.entries, x.chainId, x.txs, a, i, j)
    requires Paid(x.entries, x.txs, a, i, j) && Supply(x.entries.balances) < TWO256 - 1
    requires d.Run? && f.Run?
    ensures RunsBoth(c, Allowing(x, i, j, d, f), a, x.txs[i], x.txs[j])
  {
    PairRuns(CryptoView(c), x.chainId, x.validator, x.entries, x.pool, x.txs, a, i, j, d, f);
  }

  // Whatever the chain, the pool and the accounts: neighbours that can pay are executed together if
  // the world lets them, whatever gas they use, and then they are stuck.
  lemma PairIsIncluded(c: Crypto, x: Inputs, a: Address, i: nat, j: nat, d: Decision, f: Decision)
    requires Ready(c, x) && NextPair(CryptoView(c), x.entries, x.chainId, x.txs, a, i, j)
    requires Paid(x.entries, x.txs, a, i, j) && Supply(x.entries.balances) < TWO256 - 1
    requires d.Run? && f.Run?
    ensures RunsBoth(c, Allowing(x, i, j, d, f), a, x.txs[i], x.txs[j])
    ensures Stuck(c, Allowing(x, i, j, d, f), a, x.txs[i], x.txs[j])
  {
    BothRun(c, x, a, i, j, d, f);
    TwoAreStuck(c, Allowing(x, i, j, d, f), a, x.txs[i], x.txs[j]);
  }

  lemma CountOfTwo(done: seq<Executed>, a: Address)
    requires |done| == 2 && done[0].sender == a == done[1].sender
    ensures Count(done, a) == 2
  {
    assert done[..1] == [done[0]] && [done[0]][..0] == [];
    assert Count([done[0]], a) == 1;
  }

  lemma TwoAreStuck(c: Crypto, y: Inputs, a: Address,
                    first: SignedTransaction, last: SignedTransaction)
    requires RunsBoth(c, y, a, first, last)
    ensures Stuck(c, y, a, first, last)
  {
    PairIsRejectedAndStuck(c, y, 0, 1);
    NonceAfterTwo(c, y, a);
  }

  lemma NonceAfterTwo(c: Crypto, y: Inputs, a: Address)
    requires |y.txs| <= |y.ds| && |y.txs| < TWO64 && |Loop(c, y).done| == 2
    requires Loop(c, y).done[0].sender == a == Loop(c, y).done[1].sender
    ensures Nonce(Settled(c, y).nonces, a) == (Nonce(y.entries.nonces, a) + 2) % TWO64
  {
    var done := Loop(c, y).done;
    ExecutedIsGone(c, y);
    CountOfTwo(done, a);
  }

  // ---------- an instance ----------

  lemma PairIsBest(v: View, a: Address, first: SignedTransaction, last: SignedTransaction)
    requires OneSender(v, a, first, last) && first.transaction.gasPrice >= last.transaction.gasPrice
    ensures Filed(v, Pair(v, a, first, last))
    ensures IsBest(v, Pair(v, a, first, last), MAX_CANDIDATES, [first, last])
  {
    var p, r := Pair(v, a, first, last), [first, last];
    var m, n := first.transaction.nonce, last.transaction.nonce;
    TwoSlots(p, a, m, n);
    assert Pooled(p, a, m) && At(p, a, m) == first && Pooled(p, a, n) && At(p, a, n) == last;
    assert r[0] == first && r[1] == last;
    forall tx | InPool(p, tx) ensures tx in r {
      var b: Address, k: U64 :| Pooled(p, b, k) && At(p, b, k) == tx;
    }
  }

  // Two empty payments of a sender without money, at price zero.
  function Payment(nonce: U64): SignedTransaction {
    var zeros: Bytes32 := seq(32, _ => 0);
    SignedTransaction(Transaction(nonce, 0, 21000, Some(9), 0, [], 7779), zeros, zeros, 27, Some(nonce))
  }

  function FreeGenesis(): Block {
    Block(Header(Zero, 0, 0, 0, 0, 0, 1, [], 30_000_000, 0), [])
  }

  // They are all the pool holds right after the genesis, and both are run.
  function FreePair(c: Crypto, a: Address): Inputs {
    var run := Decision.Run(21000, 0);
    var x := Inputs(Genesis(FreeGenesis()), Entries(map[], map[]),
                    Pair(CryptoView(c), a, Payment(0), Payment(1)), 1, 7779, 10, 10,
                    [Payment(0), Payment(1)], [run, run]);
    Allowing(x, 0, 1, run, run)
  }

  lemma FreePairIsReady(c: Crypto, a: Address)
    requires Sender(c, Payment(0)) == Some(a) && Sender(c, Payment(1)) == Some(a)
    ensures var x, v := FreePair(c, a), CryptoView(c);
            && Ready(c, x) && NextPair(v, x.entries, x.chainId, x.txs, a, 0, 1)
            && Paid(x.entries, x.txs, a, 0, 1) && Supply(x.entries.balances) < TWO256 - 1
  {
    var v := CryptoView(c);
    GenesisWellFormed(FreeGenesis());
    FreeSupply();
    PaymentsArePair(c, a);
    PairIsBest(v, a, Payment(0), Payment(1));
  }

  lemma PaymentsArePair(c: Crypto, a: Address)
    requires Sender(c, Payment(0)) == Some(a) && Sender(c, Payment(1)) == Some(a)
    ensures OneSender(CryptoView(c), a, Payment(0), Payment(1))
    ensures NextPair(CryptoView(c), Entries(map[], map[]), 7779, [Payment(0), Payment(1)], a, 0, 1)
    ensures Paid(Entries(map[], map[]), [Payment(0), Payment(1)], a, 0, 1)
  {
    assert TxHash(c, Payment(0)) == 0 && TxHash(c, Payment(1)) == 1;
    var txs := [Payment(0), Payment(1)];
    assert txs[0] == Payment(0) && txs[1] == Payment(1);
  }

  lemma FreeSupply()
    ensures Supply(map[]) == 0
  {
    SumEmpty(Holdings(map[]));
    var none: Balances := map[];
    assert none.Keys == {};
  }

  // It takes no money at all, and it does happen: there is a signature scheme under which the two
  // payments have one sender; they meet in a block, the block is rejected, and neither can be
  // included again.
  lemma FreePairIsStuck() returns (c: Crypto, a: Address)
    ensures var x := FreePair(c, a);
            && RunsBoth(c, x, a, Payment(0), Payment(1)) && Nonce(x.entries.nonces, a) == 0
            && Stuck(c, x, a, Payment(0), Payment(1))
  {
    a := 7;
    c := Crypto((_, _, _, _) => Some(7), _ => 0, _ => 0);
    FreePairRuns(c, a);
    TwoAreStuck(c, FreePair(c, a), a, Payment(0), Payment(1));
  }

  lemma FreePairRuns(c: Crypto, a: Address)
    requires Sender(c, Payment(0)) == Some(a) && Sender(c, Payment(1)) == Some(a)
    ensures RunsBoth(c, FreePair(c, a), a, Payment(0), Payment(1))
  {
    FreePairIsReady(c, a);
    var x, run := FreePair(c, a), Decision.Run(21000, 0);
    BothRun(c, x, a, 0, 1, run, run);
    assert Allowing(x, 0, 1, run, run) == x;
  }
}
