/** `produce_block`: the loop over candidates, the burn, the new block, and its acceptance. */
module Node {
  import opened Base
  import opened Transactions
  import opened Blocks
  import opened Ancestry
  import opened BlockStore
  import opened ChainRuns
  import opened Chain
  import opened StateStore
  import opened PoolState
  import opened PoolLaws
  import opened Mempool
  import opened ValidatorSet
  import opened Money
  import opened Production

  // ---------- account updates, write by write ----------

  method Transfer(state: StateDB, from: Address, to: Address, x: nat)
    modifies state`balances
    ensures state.balances == Move(old(state.balances), from, to, x)
  {
    var have := state.GetBalance(from);
    state.SetBalance(from, SatSub(have, x));
    have := state.GetBalance(to);
    state.SetBalance(to, SatAdd(TWO256, have, x));
  }

  method ApplyExecuted(state: StateDB, x: Executed, proposer: Address)
    modifies state`balances, state`nonces
    ensures state.Contents() == Execute(old(state.Contents()), x, proposer)
  {
    Transfer(state, x.sender, x.recipient, x.tx.transaction.value);
    Transfer(state, x.sender, proposer, GasFee(x.tx, x.gasUsed));
    var nonce := state.GetNonce(x.sender);
    state.SetNonce(x.sender, (nonce + 1) % TWO64);
  }

  method CheckIncludable(v: View, state: StateDB, chainId: U64, tx: SignedTransaction)
    returns (ok: bool)
    ensures ok == Includable(v, state.Contents(), chainId, tx)
  {
    var sender := v.sender(tx);
    if tx.transaction.chainId != chainId || sender.None? {
      return false;
    }
    var balance := state.GetBalance(sender.value);
    var nonce := state.GetNonce(sender.value);
    ok := balance >= Cost(tx) && tx.transaction.nonce == nonce;
  }

  // ---------- the candidate loop ----------

  method RunCandidates(state: StateDB, pool: Mempool, chainId: U64, validator: Address,
                       txs: seq<SignedTransaction>, ds: seq<Decision>)
    returns (done: seq<Executed>)
    requires Inv(pool.view, pool.Contents()) && |txs| <= |ds|
    modifies state`balances, state`nonces, pool
    ensures Inv(pool.view, pool.Contents())
    ensures Work(state.Contents(), done, pool.Contents()) ==
            ConsiderAll(pool.view, chainId, validator,
                        Work(old(state.Contents()), [], old(pool.Contents())), txs, ds)
  {
    done := [];
    ghost var w := Work(state.Contents(), [], pool.Contents());
    for i := 0 to |txs|
      invariant Inv(pool.view, pool.Contents())
      invariant Work(state.Contents(), done, pool.Contents()) ==
                ConsiderAll(pool.view, chainId, validator, w, txs[..i], ds)
    {
      assert txs[..i + 1][..i] == txs[..i];
      var tx := txs[i];
      var ok := CheckIncludable(pool.view, state, chainId, tx);
      if ok {
        match ds[i]
        case Skip =>
        case Reject =>
          var _ := pool.Remove(pool.view.hash(tx));
        case Run(gas, created) =>
          var x := Ran(pool.view, tx, gas, created);
          ApplyExecuted(state, x, validator);
          done := done + [x];
      }
    }
    assert txs[..|txs|] == txs;
  }

  method ComputeGasFees(done: seq<Executed>) returns (total: U256)
    ensures total == GasFees(done)
  {
    total := 0;
    for i := 0 to |done|
      invariant total == GasFees(done[..i])
    {
      assert done[..i + 1][..i] == done[..i];
      total := SatAdd(TWO256, total, GasFee(done[i].tx, done[i].gasUsed));
    }
    assert done[..|done|] == done;
  }

  method BurnFees(state: StateDB, validator: Address, done: seq<Executed>)
    modifies state`balances
    ensures state.balances == Burnt(old(state.balances), validator, SplitFees(GasFees(done)).0)
  {
    var total := ComputeGasFees(done);
    var (burn, _) := SplitFees(total);
    if burn != 0 {
      var balance := state.GetBalance(validator);
      state.SetBalance(validator, SatSub(balance, burn));
    }
  }

  method TakeOut(pool: Mempool, done: seq<Executed>)
    requires Inv(pool.view, pool.Contents())
    modifies pool
    ensures Inv(pool.view, pool.Contents())
    ensures pool.Contents() == TakenOut(pool.view, old(pool.Contents()), done)
  {
    for i := 0 to |done|
      invariant Inv(pool.view, pool.Contents())
      invariant pool.Contents() == TakenOut(pool.view, old(pool.Contents()), done[..i])
    {
      assert done[..i + 1][..i] == done[..i];
      var _ := pool.Remove(pool.view.hash(done[i].tx));
    }
    assert done[..|done|] == done;
  }

  // ---------- the whole call ----------

  // Runs the candidates, burns, and takes the state root.
  method Settle(c: Crypto, state: StateDB, pool: Mempool, validator: Address, chainId: U64,
                txs: seq<SignedTransaction>, ds: seq<Decision>, ghost x: Inputs)
    returns (stateRoot: U256, done: seq<Executed>)
    requires pool.view == CryptoView(c) && Inv(pool.view, pool.Contents()) && |txs| <= |ds|
    requires x.entries == state.Contents() && x.pool == pool.Contents()
    requires x.validator == validator && x.chainId == chainId && x.txs == txs && x.ds == ds
    modifies state`balances, state`nonces, pool
    ensures Inv(pool.view, pool.Contents())
    ensures stateRoot == c.sha256(Preimage(Settled(c, x))) && done == Loop(c, x).done
    ensures state.Contents() == Settled(c, x) && pool.Contents() == Loop(c, x).pool
  {
    done := RunCandidates(state, pool, chainId, validator, txs, ds);
    BurnFees(state, validator, done);
    stateRoot := state.ComputeStateRoot(c);
  }

  // The block on top of `parent`.
  method Build(c: Crypto, state: StateDB, pool: Mempool, parent: Block, validator: Address,
               chainId: U64, time: U64, txs: seq<SignedTransaction>, ds: seq<Decision>,
               ghost x: Inputs)
    returns (b: Block, done: seq<Executed>)
    requires Ready(c, x) && pool.view == CryptoView(c) && Inv(pool.view, pool.Contents())
    requires x.entries == state.Contents() && x.pool == pool.Contents() && x.time == time
    requires x.validator == validator && x.chainId == chainId && x.txs == txs && x.ds == ds
    requires parent.Hash() == x.store.head.value
    modifies state`balances, state`nonces, pool
    ensures Inv(pool.view, pool.Contents())
    ensures b == Produced(c, x) && done == Loop(c, x).done
    ensures state.Contents() == Settled(c, x) && pool.Contents() == Loop(c, x).pool
  {
    var stateRoot;
    stateRoot, done := Settle(c, state, pool, validator, chainId, txs, ds, x);
    var number := parent.header.number + 1;
    b := NewBlock(c, parent.Hash(), number, stateRoot, Txs(done), validator, time);
    ProducedFrom(c, x, stateRoot, done, parent.Hash(), number);
  }

  // Offers the block to the chain; takes its transactions out of the pool if it is accepted, and
  // the penalty from the validator if it signed another block at that height.
  method Conclude(c: Crypto, chain: ChainDB, state: StateDB, pool: Mempool, validator: Address,
                  b: Block, now: U64, done: seq<Executed>)
    returns (v: Verdict)
    requires chain.Valid() && Inv(pool.view, pool.Contents())
    modifies chain, state, pool
    ensures chain.Valid() && Inv(pool.view, pool.Contents())
    ensures (chain.Contents(), v) == Accept(c, old(chain.Contents()), b, now)
    ensures state.Contents() ==
            if v.Fail? && v.error.DoubleSign? then Penalised(old(state.Contents()), validator)
            else old(state.Contents())
    ensures pool.Contents() ==
            if v.Pass? then TakenOut(pool.view, old(pool.Contents()), done) else old(pool.Contents())
  {
    v := AcceptBlock(c, chain, state, b, now);
    if v.Pass? {
      TakeOut(pool, done);
    } else if v.error.DoubleSign? {
      Penalise(state, validator);
    }
  }

  method Penalise(state: StateDB, validator: Address)
    modifies state`balances
    ensures state.Contents() == Penalised(old(state.Contents()), validator)
  {
    var balance := state.GetBalance(validator);
    state.SetBalance(validator, SatSub(balance, Penalty(balance)));
  }

  // Builds the block and offers it.
  method Attempt(c: Crypto, chain: ChainDB, state: StateDB, pool: Mempool, parent: Block,
                 validator: Address, chainId: U64, now: U64, time: U64,
                 txs: seq<SignedTransaction>, ds: seq<Decision>, ghost x: Inputs)
    returns (v: Verdict)
    requires chain.Valid() && Ready(c, x)
    requires pool.view == CryptoView(c) && Inv(pool.view, pool.Contents())
    requires x == Inputs(chain.Contents(), state.Contents(), pool.Contents(), validator, chainId,
                         now, time, txs, ds)
    requires parent.Hash() == x.store.head.value
    modifies chain, state, pool
    ensures chain.Valid() && WellFormed(chain.Contents()) && Inv(pool.view, pool.Contents())
    ensures Concluded(c, x, chain.Contents(), state.Contents(), pool.Contents(), v)
  {
    var b, done := Build(c, state, pool, parent, validator, chainId, time, txs, ds, x);
    ghost var e, p := state.Contents(), pool.Contents();
    v := Conclude(c, chain, state, pool, validator, b, now, done);
    ConcludedFrom(c, x, b, e, p, chain.Contents(), state.Contents(), pool.Contents(), v);
  }

  // `validators` is the stored validator set, if there is one, and `bytes` how a hash is written in bytes;
  // `now` and `time` are the two clock readings, and `ds` what the fraud check and the virtual
  // machine say about each candidate.  No verdict means that no block was attempted.
  method ProduceBlock(
    c: Crypto, chain: ChainDB, state: StateDB, pool: Mempool, validator: Address, chainId: U64,
    validators: ValidatorSet?, bytes: Hash -> Bytes32, now: U64, time: U64, ds: seq<Decision>)
    returns (verdict: Option<Verdict>, ghost x: Inputs)
    requires validators != null ==> Consistent(validators.Contents()) && StakesFit(validators.Contents())
    requires chain.Valid() && WellFormed(chain.Contents())
    requires pool.view == CryptoView(c) && Inv(pool.view, pool.Contents())
    requires |ds| >= MAX_CANDIDATES
    requires chain.head.Some? && chain.head.value.Of? ==> Number(chain.head.value) + 1 < TWO64
    modifies chain, state, pool
    ensures chain.Valid() && WellFormed(chain.Contents()) && Inv(pool.view, pool.Contents())
    ensures verdict.None? <==>
              old(chain.head).None? || (validators != null && !MayPropose(old(validators.Contents()), validator))
    ensures verdict.None? ==>
              chain.Contents() == old(chain.Contents()) && state.Contents() == old(state.Contents())
              && pool.Contents() == old(pool.Contents())
    ensures verdict.Some? ==>
              && x == Inputs(old(chain.Contents()), old(state.Contents()), old(pool.Contents()),
                             validator, chainId, now, time, x.txs, ds)
              && Ready(c, x)
              && Concluded(c, x, chain.Contents(), state.Contents(), pool.Contents(), verdict.value)
  {
    verdict := None;
    x := Inputs(chain.Contents(), state.Contents(), pool.Contents(), validator, chainId, now, time, [], ds);
    if chain.head.None? {
      return;
    }
    var parent := chain.GetBlock(chain.head.value);
    if parent.None? {
      return;
    }
    var head := parent.value.Hash();
    var turn := ItsTurn(c, validators, parent.value.header.number + 1, bytes(head), validator);
    if !turn {
      return;
    }
    var txs := pool.GetBest(MAX_CANDIDATES);
    x := x.(txs := txs);
    assert Ready(c, x);
    var v := Attempt(c, chain, state, pool, parent.value, validator, chainId, now, time, txs, ds, x);
    verdict := Some(v);
  }
}
