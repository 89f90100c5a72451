/** What holds over all runs of `produce_block`, the only caller of `accept_block` in the node. */
module ProductionRuns {
  import opened Base
  import opened Blocks
  import opened Ancestry
  import opened BlockStore
  import opened ChainRuns
  import opened StateStore
  import opened PoolState
  import opened Money
  import opened CandidateLaws
  import opened Production
  import Finality

  // `xs` are the calls of `produce_block` that attempt a block, one after another; the other calls
  // change nothing.  Store and accounts pass from call to call.  The pool may change in between,
  // and so may the validator, the clocks and everything the world answers.
  ghost predicate IsProduction(c: Crypto, g: Block, xs: seq<Inputs>) {
    && IsGenesis(g)
    && AllReady(c, xs)
    && (xs != [] ==> xs[0].store == Genesis(g) && Supply(xs[0].entries.balances) < TWO256 - 1)
    && (forall i: nat {:trigger HandsOver(c, xs, i)} :: i < |xs| - 1 ==> HandsOver(c, xs, i))
  }

  ghost predicate AllReady(c: Crypto, xs: seq<Inputs>) {
    forall i: nat {:trigger ReadyAt(c, xs, i)} :: i < |xs| ==> ReadyAt(c, xs, i)
  }

  ghost predicate ReadyAt(c: Crypto, xs: seq<Inputs>, i: nat)
    requires i < |xs|
  {
    Ready(c, xs[i])
  }

  // The next call finds store and accounts as this one leaves them.
  ghost predicate HandsOver(c: Crypto, xs: seq<Inputs>, i: nat)
    requires i < |xs| - 1
  {
    var x, y := xs[i], xs[i + 1];
    Ready(c, x) && y.store == Offered(c, x).0 && y.entries == AccountsAfter(c, x)
  }

  // ---------- one call ----------

  // The store holds a history whose head never fell.
  ghost predicate OnHistory(g: Block, bs: seq<Block>, s: Store) {
    ValidHistory(g, bs) && Finality.HeadNeverFalls(g, bs) && s == History(g, bs)
  }

  // At a free height there is no double sign to find.
  lemma NoDoubleSign(c: Crypto, s: Store, b: Block, now: U64)
    requires WellFormed(s) && s.head.Some? && b.header.number as nat == Number(s.head.value) + 1
    requires b.header.number as nat !in s.byNumber
    ensures AcceptFault(c, s, b, now).Fail? ==> !AcceptFault(c, s, b, now).error.DoubleSign?
  {
    NextHeightIsUnsigned(s, b);
    SenderFaultKind(Senders(c, b.transactions), {});
    assert SignFault(s, b).Pass?;
  }

  // On a history whose head never fell, a call succeeds exactly when the included transactions
  // have distinct senders and the clock has moved past the parent's time, and it never ends in a
  // double sign.
  lemma AttemptSucceedsIff(c: Crypto, g: Block, bs: seq<Block>, x: Inputs)
    requires OnHistory(g, bs, x.store) && Ready(c, x)
    ensures Offered(c, x).1.Pass?
       <==> (&& Distinct(Senders(c, Txs(Loop(c, x).done)))
             && x.store.head.value.header.timestamp < x.time <= Latest(x.now))
    ensures Offered(c, x).1.Pass? <==> AcceptFault(c, x.store, Produced(c, x), x.now).Pass?
    ensures Offered(c, x).1.Fail? ==> !Offered(c, x).1.error.DoubleSign?
    ensures AccountsAfter(c, x) == Settled(c, x)
  {
    var s, b := x.store, Produced(c, x);
    NextHeightIsFree(g, bs, s);
    ProducedOnHead(c, x);
    NextHeightIsUnsigned(s, b);
    ProducedIff(c, s, b, x.now);
    NoDoubleSign(c, s, b, x.now);
    AllOrNothing(c, s, b, x.now);
    AcceptedPasses(c, s, b, x.now);
  }

  // The same call with other answers of the world.
  function Answered(x: Inputs, ds: seq<Decision>): Inputs {
    x.(ds := ds)
  }

  ghost predicate InTime(x: Inputs) {
    x.store.head.Some? && x.store.head.value.Of?
    && x.store.head.value.header.timestamp < x.time <= Latest(x.now)
  }

  lemma InTimeIs(x: Inputs)
    requires x.now + 3 < TWO64
    ensures InTime(x) <==> x.store.head.Some? && x.store.head.value.Of?
                           && x.store.head.value.header.timestamp < x.time <= x.now + 3
  {
    LatestIs(x.now);
  }

  ghost predicate Succeeds(c: Crypto, x: Inputs) {
    Ready(c, x) && Offered(c, x).1.Pass?
  }

  // Whatever the world answers, the block is accepted.
  ghost predicate AlwaysSucceeds(c: Crypto, x: Inputs) {
    forall ds: seq<Decision> :: |x.txs| <= |ds| ==> Succeeds(c, Answered(x, ds))
  }

  lemma AnsweredSucceedsIff(c: Crypto, g: Block, bs: seq<Block>, x: Inputs, ds: seq<Decision>)
    requires OnHistory(g, bs, x.store) && Ready(c, x) && |x.txs| <= |ds|
    ensures Succeeds(c, Answered(x, ds)) <==> SendersDiffer(Loop(c, Answered(x, ds)).done) && InTime(x)
  {
    var y := Answered(x, ds);
    AttemptSucceedsIff(c, g, bs, y);
    ExecutedAreSigned(c, y);
    DistinctIff(c, Loop(c, y).done);
  }

  // What decides about a call before it: if all neighbours among the candidates can pay, it succeeds
  // whatever the world answers exactly when there are none and the clock has moved on.
  lemma AttemptAlwaysSucceedsIff(c: Crypto, g: Block, bs: seq<Block>, x: Inputs)
    requires OnHistory(g, bs, x.store) && Ready(c, x) && Supply(x.entries.balances) < TWO256 - 1
    requires PairsPaid(CryptoView(c), x.entries, x.chainId, x.txs)
    ensures AlwaysSucceeds(c, x) <==> !HasPair(c, x) && InTime(x)
  {
    var v := CryptoView(c);
    AlwaysDifferIff(v, x.chainId, x.validator, x.entries, x.pool, x.txs);
    if AlwaysSucceeds(c, x) {
      assert Succeeds(c, Answered(x, x.ds));
      AnsweredSucceedsIff(c, g, bs, x, x.ds);
      forall ds: seq<Decision> | |x.txs| <= |ds|
        ensures SendersDiffer(
                  ConsiderAll(v, x.chainId, x.validator, Work(x.entries, [], x.pool), x.txs, ds).done)
      {
        assert Succeeds(c, Answered(x, ds));
        AnsweredSucceedsIff(c, g, bs, x, ds);
      }
    }
    if !HasPair(c, x) && InTime(x) {
      forall ds: seq<Decision> | |x.txs| <= |ds| ensures Succeeds(c, Answered(x, ds)) {
        NoPairDiffers(v, x.chainId, x.validator, x.entries, x.pool, x.txs, ds);
        AnsweredSucceedsIff(c, g, bs, x, ds);
      }
    }
  }

  // The history after a call.
  ghost function Longer(c: Crypto, bs: seq<Block>, x: Inputs): seq<Block>
    requires Ready(c, x)
  {
    if Offered(c, x).1.Pass? then bs + [Produced(c, x)] else bs
  }

  lemma CallKeepsHistory(c: Crypto, g: Block, bs: seq<Block>, x: Inputs)
    requires OnHistory(g, bs, x.store) && Ready(c, x)
    ensures OnHistory(g, Longer(c, bs, x), Offered(c, x).0)
  {
    AttemptSucceedsIff(c, g, bs, x);
    AllOrNothing(c, x.store, Produced(c, x), x.now);
    if Offered(c, x).1.Pass? {
      ProducedOnHead(c, x);
      AcceptedFits(c, x.store, Produced(c, x), x.now);
      HistoryGrows(g, bs, Produced(c, x));
      ProducedExtendsHistory(c, g, bs, x);
    }
  }

  // A call raises the head by one or leaves it, and never adds to the supply.
  lemma CallMovesOn(c: Crypto, g: Block, bs: seq<Block>, x: Inputs)
    requires OnHistory(g, bs, x.store) && Ready(c, x) && Supply(x.entries.balances) < TWO256 - 1
    ensures Height(Offered(c, x).0) == Height(x.store) + if Offered(c, x).1.Pass? then 1 else 0
    ensures Supply(AccountsAfter(c, x).balances) <= Supply(x.entries.balances)
  {
    AttemptSucceedsIff(c, g, bs, x);
    OfferMovesHead(c, x);
    SettlingLowersSupply(c, x);
  }

  // The number of the head.
  ghost function Height(s: Store): nat {
    if s.head.Some? && s.head.value.Of? then Number(s.head.value) else 0
  }

  lemma OfferMovesHead(c: Crypto, x: Inputs)
    requires Ready(c, x)
    requires Offered(c, x).1.Pass? <==> AcceptFault(c, x.store, Produced(c, x), x.now).Pass?
    ensures Height(Offered(c, x).0) == Height(x.store) + if Offered(c, x).1.Pass? then 1 else 0
  {
    ProducedOnHead(c, x);
    HeadAfter(c, x.store, Produced(c, x), x.now);
  }

  lemma HeadAfter(c: Crypto, s: Store, b: Block, now: U64)
    requires WellFormed(s)
    ensures Accept(c, s, b, now).0.head ==
            if AcceptFault(c, s, b, now).Pass? then Some(b.Hash()) else s.head
  {
    AllOrNothing(c, s, b, now);
    AcceptedPasses(c, s, b, now);
  }

  lemma SettlingLowersSupply(c: Crypto, x: Inputs)
    requires Ready(c, x) && Supply(x.entries.balances) < TWO256 - 1
    ensures Supply(Settled(c, x).balances) <= Supply(x.entries.balances)
  {
    BlockSupplyFalls(CryptoView(c), x.chainId, x.validator, x.entries, x.pool, x.txs, x.ds);
  }

  // ---------- all calls ----------

  // What a call finds and leaves.
  datatype World = World(store: Store, entries: Entries)

  ghost predicate Founded(g: Block, bs: seq<Block>, w: World) {
    OnHistory(g, bs, w.store) && Supply(w.entries.balances) < TWO256 - 1
  }

  // From `w` to `u` the history grows by a block at most, the head does not fall and the supply
  // does not rise.
  ghost predicate MovesOn(g: Block, bs: seq<Block>, w: World, u: World) {
    && (Founded(g, bs, u) || exists b :: Founded(g, bs + [b], u))
    && Height(w.store) <= Height(u.store)
    && Supply(u.entries.balances) <= Supply(w.entries.balances)
  }

  ghost predicate Sound(g: Block, w: World, u: World) {
    forall bs {:trigger Founded(g, bs, w)} :: Founded(g, bs, w) ==> MovesOn(g, bs, w, u)
  }

  function Found(x: Inputs): World {
    World(x.store, x.entries)
  }

  lemma CallIsSound(c: Crypto, g: Block, x: Inputs)
    requires Ready(c, x)
    ensures Sound(g, Found(x), World(Offered(c, x).0, AccountsAfter(c, x)))
  {
    forall bs | Founded(g, bs, Found(x))
      ensures MovesOn(g, bs, Found(x), World(Offered(c, x).0, AccountsAfter(c, x)))
    {
      CallKeepsHistory(c, g, bs, x);
      CallMovesOn(c, g, bs, x);
    }
  }

  lemma RunIsSound(c: Crypto, g: Block, xs: seq<Inputs>, i: nat)
    requires IsProduction(c, g, xs) && i < |xs| - 1
    ensures Sound(g, Found(xs[i]), Found(xs[i + 1]))
  {
    assert HandsOver(c, xs, i);
    CallIsSound(c, g, xs[i]);
  }

  ghost predicate AllSound(g: Block, ws: seq<World>) {
    forall i: nat {:trigger SoundAt(g, ws, i)} :: i < |ws| - 1 ==> SoundAt(g, ws, i)
  }

  ghost predicate SoundAt(g: Block, ws: seq<World>, i: nat)
    requires i < |ws| - 1
  {
    Sound(g, ws[i], ws[i + 1])
  }

  // Between two points of a sound run the history only grows.
  lemma {:induction false} SoundRun(g: Block, ws: seq<World>, bs: seq<Block>, i: nat, j: nat)
    returns (more: seq<Block>)
    requires AllSound(g, ws) && i <= j < |ws| && Founded(g, bs, ws[i])
    ensures bs <= more && Founded(g, more, ws[j])
    ensures Height(ws[i].store) <= Height(ws[j].store)
    ensures Supply(ws[j].entries.balances) <= Supply(ws[i].entries.balances)
    decreases j
  {
    if i == j {
      more := bs;
    } else {
      var before := SoundRun(g, ws, bs, i, j - 1);
      assert SoundAt(g, ws, j - 1);
      assert MovesOn(g, before, ws[j - 1], ws[j]);
      if Founded(g, before, ws[j]) {
        more := before;
      } else {
        var b :| Founded(g, before + [b], ws[j]);
        more := before + [b];
      }
    }
  }

  function Worlds(xs: seq<Inputs>): (ws: seq<World>)
    ensures |ws| == |xs| && forall i :: 0 <= i < |xs| ==> ws[i] == Found(xs[i])
  {
    seq(|xs|, i requires 0 <= i < |xs| => Found(xs[i]))
  }

  lemma RunOfWorlds(c: Crypto, g: Block, xs: seq<Inputs>)
    requires IsProduction(c, g, xs)
    ensures AllSound(g, Worlds(xs))
    ensures xs != [] ==> Founded(g, [], Worlds(xs)[0])
  {
    forall i: nat | i < |xs| - 1 ensures SoundAt(g, Worlds(xs), i) {
      RunIsSound(c, g, xs, i);
    }
  }

  // Over any run of `produce_block` from the genesis, whatever the pool, the clocks and the world
  // do: the head never falls, the supply never rises, checkpoints only move forward on one line,
  // and every block ever finalized is an ancestor of every later head.
  lemma ProductionIsSafe(c: Crypto, g: Block, xs: seq<Inputs>, i: nat, j: nat)
    requires IsProduction(c, g, xs) && i <= j < |xs|
    ensures Height(xs[i].store) <= Height(xs[j].store)
    ensures Supply(xs[j].entries.balances) <= Supply(xs[i].entries.balances)
    ensures Finality.Extends(xs[i].store, xs[j].store)
    ensures Finality.Agree(xs[i].store.finalized, xs[j].store.finalized)
    ensures xs[j].store.head.Some?
    ensures xs[i].store.finalized.Some? ==>
              IsAncestor(xs[i].store.finalized.value.hash, xs[j].store.head.value)
  {
    RunOfWorlds(c, g, xs);
    WorldsAreSafe(g, Worlds(xs), i, j);
  }

  lemma WorldsAreSafe(g: Block, ws: seq<World>, i: nat, j: nat)
    requires AllSound(g, ws) && i <= j < |ws| && Founded(g, [], ws[0])
    ensures Height(ws[i].store) <= Height(ws[j].store)
    ensures Supply(ws[j].entries.balances) <= Supply(ws[i].entries.balances)
    ensures Finality.Extends(ws[i].store, ws[j].store)
    ensures Finality.Agree(ws[i].store.finalized, ws[j].store.finalized)
    ensures ws[j].store.head.Some?
    ensures ws[i].store.finalized.Some? ==>
              IsAncestor(ws[i].store.finalized.value.hash, ws[j].store.head.value)
  {
    var p := SoundRun(g, ws, [], 0, i);
    var q := SoundRun(g, ws, p, i, j);
    HistoryIsFinal(g, p, q);
  }

  lemma HistoryIsFinal(g: Block, p: seq<Block>, q: seq<Block>)
    requires p <= q && ValidHistory(g, q) && Finality.HeadNeverFalls(g, q)
    ensures Finality.Extends(History(g, p), History(g, q))
    ensures Finality.Agree(History(g, p).finalized, History(g, q).finalized)
    ensures History(g, q).head.Some?
    ensures History(g, p).finalized.Some? ==>
              IsAncestor(History(g, p).finalized.value.hash, History(g, q).head.value)
  {
    assert q[..|p|] == p && q[..|q|] == q;
    assert Finality.At(g, q, |p|) == History(g, p) && Finality.At(g, q, |q|) == History(g, q);
    var _ := Finality.HeadIsTop(g, q, |q|);
    Finality.GuardedExtends(g, q, |p|, |q|);
    Finality.GuardedAgrees(g, q, |p|, |q|);
    if History(g, p).finalized.Some? {
      Finality.FinalizedUnderHead(g, q, |p|, |q|);
    }
  }

  // And no call of the run ends in a double sign, so the proposer never pays a penalty; and if all
  // neighbours among a call's candidates can pay, it succeeds whatever the world answers exactly
  // when there are none and the clock has moved on.
  lemma CallOfRunIff(c: Crypto, g: Block, xs: seq<Inputs>, i: nat)
    requires IsProduction(c, g, xs) && i < |xs|
    ensures Ready(c, xs[i])
    ensures PairsPaid(CryptoView(c), xs[i].entries, xs[i].chainId, xs[i].txs) ==>
              (AlwaysSucceeds(c, xs[i]) <==> !HasPair(c, xs[i]) && InTime(xs[i]))
    ensures Offered(c, xs[i]).1.Fail? ==> !Offered(c, xs[i]).1.error.DoubleSign?
    ensures AccountsAfter(c, xs[i]) == Settled(c, xs[i])
  {
    RunOfWorlds(c, g, xs);
    var bs := SoundRun(g, Worlds(xs), [], 0, i);
    assert ReadyAt(c, xs, i);
    AttemptSucceedsIff(c, g, bs, xs[i]);
    if PairsPaid(CryptoView(c), xs[i].entries, xs[i].chainId, xs[i].txs) {
      AttemptAlwaysSucceedsIff(c, g, bs, xs[i]);
    }
  }
}
