/** Block production: from the pool's best transactions to an accepted block. */
module Production {
  import opened Base
  import opened Transactions
  import opened Blocks
  import opened Ancestry
  import opened BlockStore
  import opened ChainRuns
  import opened Chain
  import opened StateStore
  import opened PoolState
  import opened PoolLaws
  import opened Mempool
  import opened Money
  import opened CandidateLaws
  import Finality

  const BLOCK_GAS_LIMIT: U64 := 30_000_000
  const MAX_CANDIDATES: nat := 100

  function Txs(done: seq<Executed>): (txs: seq<SignedTransaction>)
    ensures |txs| == |done|
    ensures forall i :: 0 <= i < |done| ==> txs[i] == done[i].tx
  {
    seq(|done|, i requires 0 <= i < |done| => done[i].tx)
  }

  // `Block::new` with the time read at that point.
  function NewBlock(c: Crypto, parent: Hash, number: U64, stateRoot: U256,
                    txs: seq<SignedTransaction>, validator: Address, time: U64): Block
  {
    Block(Header(parent, stateRoot, TransactionsRoot(c, txs), 0, time, number, validator, [],
                 BLOCK_GAS_LIMIT, 0), txs)
  }

  // ---------- when the produced block is accepted ----------

  // The validator has not signed another block at this height.
  predicate MaySign(s: Store, b: Block) {
    SignKey(b.Hash()) in s.signed ==> s.signed[SignKey(b.Hash())] == b.Hash()
  }

  // The block names the head as its parent, has the next number, and carries its own root.
  ghost predicate OnHead(c: Crypto, s: Store, b: Block) {
    && s.head == Some(b.header.parentHash) && b.header.parentHash.Of?
    && b.header.number as nat == Number(b.header.parentHash) + 1
    && b.header.transactionsRoot == TransactionsRoot(c, b.transactions)
  }

  // A block built on the head is accepted exactly when its transactions have distinct senders,
  // its time lies after the parent's and not more than a block time ahead, and its validator has
  // not signed another block at that height.
  lemma ProducedIff(c: Crypto, s: Store, b: Block, now: U64)
    requires WellFormed(s) && OnHead(c, s, b)
    ensures AcceptFault(c, s, b, now).Pass?
       <==> (&& Distinct(Senders(c, b.transactions))
             && b.header.parentHash.header.timestamp < b.header.timestamp <= Latest(now)
             && MaySign(s, b))
  {
    BlockFaultIff(c, b);
    HeadParentIff(s, b, now);
    assert ReorgFault(s, b).Pass?;
    assert SignFault(s, b).Pass? <==> MaySign(s, b);
  }

  // The parent lookup by number finds the head.
  lemma HeadParentIff(s: Store, b: Block, now: U64)
    requires WellFormed(s) && s.head == Some(b.header.parentHash) && b.header.parentHash.Of?
    requires b.header.number as nat == Number(b.header.parentHash) + 1
    ensures ParentFault(s, b, now).Pass?
       <==> b.header.parentHash.header.timestamp < b.header.timestamp <= Latest(now)
  {
    var parent := b.header.parentHash;
    assert BlockByNumber(s, Number(parent)).value.header == parent.header;
  }

  // While the head is the highest block, nobody has signed at the next height.
  lemma NextHeightIsUnsigned(s: Store, b: Block)
    requires WellFormed(s) && s.head.Some?
    requires b.header.number as nat == Number(s.head.value) + 1
    requires b.header.number as nat !in s.byNumber
    ensures MaySign(s, b)
  {
    if SignKey(b.Hash()) in s.signed {
      SignedHeightIsUsed(s, SignKey(b.Hash()));
    }
  }

  lemma SignedHeightIsUsed(s: Store, key: (Address, nat))
    requires WellFormed(s) && key in s.signed
    ensures key.1 in s.byNumber
  {
    assert Number(s.signed[key]) in s.byNumber;
  }

  // A block of distinct senders put on the head, in time and at a free height, is accepted.
  lemma HeadBlockIsAccepted(c: Crypto, s: Store, b: Block, now: U64)
    requires WellFormed(s) && OnHead(c, s, b) && b.header.number as nat !in s.byNumber
    requires Distinct(Senders(c, b.transactions))
    requires b.header.parentHash.header.timestamp < b.header.timestamp <= Latest(now)
    ensures AcceptFault(c, s, b, now).Pass?
    ensures Accept(c, s, b, now) == (Appended(s, b), Pass)
  {
    NextHeightIsUnsigned(s, b);
    ProducedIff(c, s, b, now);
    AcceptedFits(c, s, b, now);
    AppendIsAppended(s, b);
  }

  // In a history whose head never falls the height above the head is free.
  lemma NextHeightIsFree(g: Block, bs: seq<Block>, s: Store)
    requires ValidHistory(g, bs) && Finality.HeadNeverFalls(g, bs) && s == History(g, bs)
    ensures WellFormed(s) && s.head.Some? && Number(s.head.value) + 1 !in s.byNumber
  {
    HistoryRooted(g, bs);
    var top := Finality.HeadIsTop(g, bs, |bs|);
    assert bs[..|bs|] == bs;
    assert s == Finality.At(g, bs, |bs|);
  }

  // ---------- senders of the included transactions ----------

  // The senders of a block are recovered and distinct exactly when no sender ran twice.
  lemma DistinctIff(c: Crypto, done: seq<Executed>)
    requires forall x :: x in done ==> Sender(c, x.tx) == Some(x.sender)
    ensures Distinct(Senders(c, Txs(done))) <==> SendersDiffer(done)
  {
    var senders := Senders(c, Txs(done));
    forall i | 0 <= i < |done| ensures senders[i] == Some(done[i].sender) {
      assert done[i] in done;
    }
    if SendersDiffer(done) {
      forall i, j | 0 <= i < j < |done| ensures senders[i] != senders[j] {
        assert done[i].sender != done[j].sender;
      }
    }
    if Distinct(senders) {
      forall i, j | 0 <= i < j < |done| ensures done[i].sender != done[j].sender {
        assert senders[i] != senders[j];
      }
    }
  }

  // ---------- the production step ----------

  // What one call of `produce_block` starts from, and what the world answers during it.
  datatype Inputs = Inputs(
    store: Store, entries: Entries, pool: Pool, validator: Address, chainId: U64, now: U64, time: U64,
    txs: seq<SignedTransaction>, ds: seq<Decision>)

  ghost predicate Ready(c: Crypto, x: Inputs) {
    && WellFormed(x.store) && x.store.head.Some?
    && Number(x.store.head.value) + 1 < TWO64
    && Filed(CryptoView(c), x.pool) && IsBest(CryptoView(c), x.pool, MAX_CANDIDATES, x.txs) && |x.txs| <= |x.ds|
  }

  ghost function Loop(c: Crypto, x: Inputs): Work
    requires |x.txs| <= |x.ds|
  {
    ConsiderAll(CryptoView(c), x.chainId, x.validator, Work(x.entries, [], x.pool), x.txs, x.ds)
  }

  // The accounts after the burn.
  ghost function Settled(c: Crypto, x: Inputs): Entries
    requires |x.txs| <= |x.ds|
  {
    var w := Loop(c, x);
    w.entries.(balances := Burnt(w.entries.balances, x.validator, SplitFees(GasFees(w.done)).0))
  }

  ghost function Produced(c: Crypto, x: Inputs): Block
    requires Ready(c, x)
  {
    var head := x.store.head.value;
    NewBlock(c, head, Number(head) + 1, c.sha256(Preimage(Settled(c, x))),
             Txs(Loop(c, x).done), x.validator, x.time)
  }

  // The whole penalty of a double sign, 10000 basis points, in wrapping 256-bit arithmetic.
  function Penalty(balance: U256): U256 {
    (balance * 10_000) % TWO256 / 10_000
  }

  function Penalised(e: Entries, a: Address): Entries {
    e.(balances := e.balances[a := SatSub(Balance(e.balances, a), Penalty(Balance(e.balances, a)))])
  }

  // The pool after the transactions of an accepted block were taken out, first to last.
  function TakenOut(v: View, p: Pool, done: seq<Executed>): Pool {
    if done == [] then p
    else PoolState.Remove(TakenOut(v, p, done[..|done| - 1]), v.hash(done[|done| - 1].tx))
  }

  // What the chain says about the produced block, and how it is left.
  ghost function Offered(c: Crypto, x: Inputs): (Store, Verdict)
    requires Ready(c, x)
  {
    Accept(c, x.store, Produced(c, x), x.now)
  }

  ghost function AccountsAfter(c: Crypto, x: Inputs): Entries
    requires Ready(c, x)
  {
    var v := Offered(c, x).1;
    if v.Fail? && v.error.DoubleSign? then Penalised(Settled(c, x), x.validator) else Settled(c, x)
  }

  // How one call of `produce_block` that attempts a block leaves store, accounts and pool.
  ghost predicate Concluded(c: Crypto, x: Inputs, s: Store, e: Entries, p: Pool, v: Verdict)
    requires Ready(c, x)
  {
    && (s, v) == Offered(c, x) && e == AccountsAfter(c, x)
    && p == (if v.Pass? then TakenOut(CryptoView(c), Loop(c, x).pool, Loop(c, x).done)
             else Loop(c, x).pool)
  }

  lemma ConcludedFrom(c: Crypto, x: Inputs, b: Block, e0: Entries, p0: Pool,
                      s: Store, e: Entries, p: Pool, v: Verdict)
    requires Ready(c, x) && b == Produced(c, x) && e0 == Settled(c, x) && p0 == Loop(c, x).pool
    requires (s, v) == Accept(c, x.store, b, x.now)
    requires e == if v.Fail? && v.error.DoubleSign? then Penalised(e0, x.validator) else e0
    requires p == if v.Pass? then TakenOut(CryptoView(c), p0, Loop(c, x).done) else p0
    ensures Concluded(c, x, s, e, p, v) && WellFormed(s)
  {
    AllOrNothing(c, x.store, b, x.now);
  }

  lemma ExecutedAreSigned(c: Crypto, x: Inputs)
    requires Ready(c, x)
    ensures forall y :: y in Loop(c, x).done ==> Sender(c, y.tx) == Some(y.sender)
  {
    LoopIncludes(CryptoView(c), x.chainId, x.validator, Work(x.entries, [], x.pool), x.txs, x.ds);
    forall y | y in Loop(c, x).done ensures Sender(c, y.tx) == Some(y.sender) {
      assert CryptoView(c).sender(y.tx) == Sender(c, y.tx);
    }
  }

  // Two candidates that could run one after the other.
  ghost predicate HasPair(c: Crypto, x: Inputs) {
    HasNextPair(CryptoView(c), x.entries, x.chainId, x.txs)
  }

  // Every produced block is accepted: without neighbours among the candidates, in any history whose
  // head never falls, as long as the clock has moved past the parent's time.
  lemma ProducedIsAccepted(c: Crypto, g: Block, bs: seq<Block>, x: Inputs)
    requires ValidHistory(g, bs) && Finality.HeadNeverFalls(g, bs) && x.store == History(g, bs)
    requires Ready(c, x) && !HasPair(c, x)
    requires x.store.head.value.header.timestamp < x.time <= Latest(x.now)
    ensures AcceptFault(c, x.store, Produced(c, x), x.now).Pass?
    ensures Accept(c, x.store, Produced(c, x), x.now) == (Appended(x.store, Produced(c, x)), Pass)
  {
    NextHeightIsFree(g, bs, x.store);
    NoPairDiffers(CryptoView(c), x.chainId, x.validator, x.entries, x.pool, x.txs, x.ds);
    ExecutedAreSigned(c, x);
    DistinctIff(c, Loop(c, x).done);
    ProducedOnHead(c, x);
    HeadBlockIsAccepted(c, x.store, Produced(c, x), x.now);
  }

  lemma ProducedFrom(c: Crypto, x: Inputs, stateRoot: U256, done: seq<Executed>, head: Hash, number: U64)
    requires Ready(c, x) && stateRoot == c.sha256(Preimage(Settled(c, x))) && done == Loop(c, x).done
    requires head == x.store.head.value && number as nat == Number(head) + 1
    ensures NewBlock(c, head, number, stateRoot, Txs(done), x.validator, x.time) == Produced(c, x)
  {}

  lemma ProducedOnHead(c: Crypto, x: Inputs)
    requires Ready(c, x)
    ensures OnHead(c, x.store, Produced(c, x))
    ensures Produced(c, x).transactions == Txs(Loop(c, x).done)
    ensures Produced(c, x).header.timestamp == x.time
  {}

  // For one, a block can always be produced right after the genesis, from an empty pool.
  lemma FirstBlockIsAccepted(c: Crypto, g: Block, x: Inputs)
    requires IsGenesis(g) && x.store == Genesis(g) && x.pool == PoolState.EMPTY && x.txs == []
    requires g.header.timestamp < x.time <= Latest(x.now)
    ensures Ready(c, x) && Accept(c, x.store, Produced(c, x), x.now) == (Appended(x.store, Produced(c, x)), Pass)
    ensures Produced(c, x).transactions == [] && Settled(c, x).nonces == x.entries.nonces
  {
    EmptyPoolReady(c, g, x);
    assert ValidHistory(g, []);
    ProducedIsAccepted(c, g, [], x);
    ProducedOnHead(c, x);
  }

  lemma EmptyPoolReady(c: Crypto, g: Block, x: Inputs)
    requires IsGenesis(g) && x.store == Genesis(g) && x.pool == PoolState.EMPTY && x.txs == []
    ensures Ready(c, x)
  {
    GenesisWellFormed(g);
    NoSendersNoSize(x.pool);
  }

  // And its acceptance keeps the head rising by one, so that finality holds of the longer history.
  lemma ProducedExtendsHistory(c: Crypto, g: Block, bs: seq<Block>, x: Inputs)
    requires ValidHistory(g, bs) && Finality.HeadNeverFalls(g, bs) && x.store == History(g, bs)
    requires Ready(c, x) && AcceptFault(c, x.store, Produced(c, x), x.now).Pass?
    ensures ValidHistory(g, bs + [Produced(c, x)])
    ensures Finality.HeadNeverFalls(g, bs + [Produced(c, x)])
  {
    ProducedOnHead(c, x);
    AcceptedFits(c, x.store, Produced(c, x), x.now);
    HeadRises(g, bs, Produced(c, x));
  }

  lemma HeadRises(g: Block, bs: seq<Block>, b: Block)
    requires ValidHistory(g, bs) && Finality.HeadNeverFalls(g, bs)
    requires b.header.number > 0 && Fits(History(g, bs), b)
    requires Finality.NotBelowHead(History(g, bs), b)
    ensures ValidHistory(g, bs + [b]) && Finality.HeadNeverFalls(g, bs + [b])
  {
    HistoryGrows(g, bs, b);
    var more := bs + [b];
    forall i | 0 <= i < |more| ensures Finality.NotBelowHead(Finality.At(g, more, i), more[i]) {
      if i < |bs| {
        assert more[..i] == bs[..i];
        assert Finality.NotBelowHead(Finality.At(g, bs, i), bs[i]);
      } else {
        assert more[..i] == bs;
      }
    }
  }

  // ---------- two transactions of one sender ----------

  // A block with two transactions of one sender is rejected.
  lemma TwiceIsRejected(c: Crypto, s: Store, b: Block, now: U64)
    requires WellFormed(s) && OnHead(c, s, b)
    requires exists i, j :: 0 <= i < j < |b.transactions| && SameSender(CryptoView(c), b, i, j)
    ensures AcceptFault(c, s, b, now).Fail? && Accept(c, s, b, now).0 == s
  {
    var i, j :| 0 <= i < j < |b.transactions| && SameSender(CryptoView(c), b, i, j);
    NotDistinct(c, b.transactions, i, j);
    ProducedIff(c, s, b, now);
  }

  lemma NotDistinct(c: Crypto, txs: seq<SignedTransaction>, i: nat, j: nat)
    requires i < j < |txs| && Sender(c, txs[i]) == Sender(c, txs[j])
    ensures !Distinct(Senders(c, txs))
  {
    var senders := Senders(c, txs);
    assert senders[i] == senders[j];
  }

  ghost predicate SameSender(v: View, b: Block, i: nat, j: nat)
    requires i < |b.transactions| && j < |b.transactions|
  {
    v.sender(b.transactions[i]) == v.sender(b.transactions[j])
  }

  // If a sender ran twice, the block is always rejected and the chain unchanged; the accounts stay
  // changed, and nothing that ran can be included again from there.
  lemma PairIsRejectedAndStuck(c: Crypto, x: Inputs, k: nat, l: nat)
    requires Ready(c, x) && k < l < |Loop(c, x).done|
    requires Loop(c, x).done[k].sender == Loop(c, x).done[l].sender
    ensures AcceptFault(c, x.store, Produced(c, x), x.now).Fail?
    ensures Accept(c, x.store, Produced(c, x), x.now).0 == x.store
    ensures forall m :: 0 <= m < |Loop(c, x).done| ==>
              !Includable(CryptoView(c), Settled(c, x), x.chainId, Loop(c, x).done[m].tx)
  {
    ExecutedIsGone(c, x);
    ExecutedAreSigned(c, x);
    ProducedOnHead(c, x);
    var b, done := Produced(c, x), Loop(c, x).done;
    assert done[k] in done && done[l] in done;
    assert b.transactions[k] == done[k].tx && b.transactions[l] == done[l].tx;
    assert SameSender(CryptoView(c), b, k, l);
    TwiceIsRejected(c, x.store, b, x.now);
  }

  // Nothing that ran can be included again, whether the block is accepted or not, and each nonce
  // has moved on by the number of the sender's executed transactions.
  lemma ExecutedIsGone(c: Crypto, x: Inputs)
    requires |x.txs| <= |x.ds| && |x.txs| < TWO64
    ensures forall m :: 0 <= m < |Loop(c, x).done| ==>
              !Includable(CryptoView(c), Settled(c, x), x.chainId, Loop(c, x).done[m].tx)
    ensures forall a: Address :: Nonce(Settled(c, x).nonces, a) ==
              (Nonce(x.entries.nonces, a) + Count(Loop(c, x).done, a)) % TWO64
  {
    LoopIsGone(CryptoView(c), x.chainId, x.validator, x.entries, x.pool, x.txs, x.ds, Loop(c, x),
               Settled(c, x));
  }
}
