/** A run of `accept_block` that finalizes two different blocks at one height. */
module FinalityFailure {
  import opened Base
  import opened Blocks
  import opened Ancestry
  import opened BlockStore
  import opened ChainRuns

  // Height `k` of the empty blocks that validator `v` builds on a common genesis.
  function Line(v: Address, k: U64): Block
    decreases k
  {
    if k == 0 then
      Block(Header(Zero, 0, 0, 0, 0, 0, 0, [], 30_000_000, 0), [])
    else
      Block(Header(Line(v, k - 1).Hash(), 0, 0, 0, k, k, v, [], 30_000_000, 0), [])
  }

  // The clock at the offer of height `k`, if it stood at `t` before the first offer.
  function Clock(k: U64, t: U64): U64 {
    if k < t then t else k
  }

  // Validator `v` offers heights 1 to `k`, none before its time.
  function Offers(v: Address, k: U64, t: U64): (steps: seq<Step>)
    ensures |steps| == k
    decreases k
  {
    if k == 0 then [] else Offers(v, k - 1, t) + [Step(Line(v, k), Clock(k, t))]
  }

  ghost predicate ClockRises(steps: seq<Step>) {
    forall i, j :: 0 <= i < j < |steps| ==> steps[i].now <= steps[j].now
  }

  lemma {:induction false} OfferTimes(v: Address, k: U64, t: U64)
    ensures forall i :: 0 <= i < k ==> Offers(v, k, t)[i].now == Clock(i + 1, t)
    decreases k
  {
    if k > 0 {
      OfferTimes(v, k - 1, t);
    }
  }

  // The index leads to `v`'s block at height `k`, and `v` has signed nothing above it.
  ghost predicate Ready(s: Store, v: Address, k: U64) {
    && WellFormed(s) && k as nat in s.byNumber && s.byNumber[k as nat] == Line(v, k).Hash()
    && forall j: nat :: j > k ==> (v, j) !in s.signed
  }

  lemma LineHeader(v: Address, k: U64)
    ensures Line(v, k).header.number == k && Line(v, k).header.timestamp == k
    ensures Line(v, k).transactions == [] && Line(v, k).header.transactionsRoot == 0
    ensures k > 0 ==> Line(v, k).header.validator == v
  {}

  // The next block of the line is accepted, whatever the head and the checkpoint are.
  lemma NextIsAccepted(c: Crypto, s: Store, v: Address, k: U64, now: U64)
    requires k + 1 <= now < TWO64 - 3 && Ready(s, v, k)
    ensures AcceptFault(c, s, Line(v, k + 1), now).Pass?
  {
    var b := Line(v, k + 1);
    LineHeader(v, k);
    LineHeader(v, k + 1);
    assert SignKey(b.Hash()) == (v, k as nat + 1);
    assert b.header.parentHash == Line(v, k).Hash();
    assert BlockFault(c, b).Pass?;
    assert b.Hash() !in s.blocks;
    NewBlockAcceptedIff(c, s, b, now);
  }

  lemma AppendReady(s: Store, v: Address, k: U64, w: Address)
    requires k + 1 < TWO64 && Ready(s, v, k) && Ready(s, w, 0) && v != w
    requires Fits(s, Line(v, k + 1))
    ensures Ready(Appended(s, Line(v, k + 1)), v, k + 1)
    ensures Ready(Appended(s, Line(v, k + 1)), w, 0)
  {
    LineHeader(v, k + 1);
    AppendedWellFormed(s, Line(v, k + 1));
  }

  // Where `v`'s line has got to after `k` offers; `w` has not begun.
  ghost predicate Grown(s: Store, v: Address, k: U64, w: Address) {
    && Ready(s, v, k) && Ready(s, w, 0)
    && (k as nat >= FINALITY_DEPTH ==> s.finalized == CheckpointFor(s, Line(v, k).Hash()))
  }

  // One offer made in a store that is ready for it.
  lemma OfferTaken(c: Crypto, s: Store, v: Address, k: U64, w: Address, now: U64)
    requires k + 1 <= now < TWO64 - 3 && Ready(s, v, k) && Ready(s, w, 0) && v != w
    ensures Grown(Accept(c, s, Line(v, k + 1), now).0, v, k + 1, w)
  {
    NextIsAccepted(c, s, v, k, now);
    AllOrNothing(c, s, Line(v, k + 1), now);
    AppendIsAppended(s, Line(v, k + 1));
    AppendReady(s, v, k, w);
  }

  lemma RunSnoc(c: Crypto, s: Store, steps: seq<Step>, last: Step)
    ensures Run(c, s, steps + [last]) == Accept(c, Run(c, s, steps), last.block, last.now).0
  {
    assert (steps + [last])[..|steps|] == steps;
  }

  lemma OneMoreOffer(c: Crypto, s: Store, v: Address, k: U64, t: U64)
    requires k + 1 < TWO64
    ensures Run(c, s, Offers(v, k + 1, t)) ==
            Accept(c, Run(c, s, Offers(v, k, t)), Line(v, k + 1), Clock(k + 1, t)).0
  {
    RunSnoc(c, s, Offers(v, k, t), Step(Line(v, k + 1), Clock(k + 1, t)));
  }

  lemma GrownOnce(c: Crypto, s: Store, v: Address, k: U64, w: Address, t: U64)
    requires k + 1 < TWO64 - 3 && t < TWO64 - 3
    requires v != w && Grown(Run(c, s, Offers(v, k, t)), v, k, w)
    ensures Grown(Run(c, s, Offers(v, k + 1, t)), v, k + 1, w)
  {
    OneMoreOffer(c, s, v, k, t);
    OfferTaken(c, Run(c, s, Offers(v, k, t)), v, k, w, Clock(k + 1, t));
  }

  // After all its offers the line's block is indexed, and another validator's line can begin.
  lemma {:induction false} LineGrows(c: Crypto, s: Store, v: Address, k: U64, w: Address, t: U64)
    requires k < TWO64 - 3 && t < TWO64 - 3 && Ready(s, v, 0) && Ready(s, w, 0) && v != w
    ensures Grown(Run(c, s, Offers(v, k, t)), v, k, w)
    decreases k
  {
    if k == 0 {
      NothingOffered(c, s, v, w, t);
    } else {
      var j: U64 := k - 1;
      LineGrows(c, s, v, j, w, t);
      GrownOnce(c, s, v, j, w, t);
    }
  }

  lemma NothingOffered(c: Crypto, s: Store, v: Address, w: Address, t: U64)
    requires Ready(s, v, 0) && Ready(s, w, 0)
    ensures Grown(Run(c, s, Offers(v, 0, t)), v, 0, w)
  {
    assert Offers(v, 0, t) == [];
  }

  lemma {:induction false} LineAncestor(v: Address, k: U64, n: U64)
    requires n <= k
    ensures AncestorAt(Line(v, k).Hash(), n) == Line(v, n).Hash()
    decreases k
  {
    LineHeader(v, k);
    if n < k {
      LineAncestor(v, k - 1, n);
    }
  }

  lemma {:induction false} OffersAboveGenesis(v: Address, k: U64, t: U64)
    ensures AboveGenesis(Offers(v, k, t))
    decreases k
  {
    if k > 0 {
      OffersAboveGenesis(v, k - 1, t);
    }
  }

  lemma GrownFinalizes(s: Store, v: Address, k: U64, m: U64, w: Address)
    requires k == m + 100 && Grown(s, v, k, w)
    ensures s.finalized == Some(Checkpoint(m, Line(v, m).Hash()))
  {
    LineHeader(v, k);
    LineAncestor(v, k, m);
  }

  // For every height `m` above 0 there is a run in which two different blocks are finalized at
  // `m`: validator 1 builds up to height `m + 100`, then validator 2 does the same from the
  // genesis, and every one of its blocks is accepted.
  lemma TwoBlocksFinalized(c: Crypto, m: U64)
    requires 0 < m < TWO64 - 200
    ensures var g, one, two := Line(1, 0), Offers(1, m + 100, 0), Offers(2, m + 100, m + 100);
            && IsGenesis(g) && AboveGenesis(one) && AboveGenesis(two) && ClockRises(one + two)
            && Run(c, Genesis(g), one).finalized == Some(Checkpoint(m, Line(1, m).Hash()))
            && Run(c, Run(c, Genesis(g), one), two).finalized ==
               Some(Checkpoint(m, Line(2, m).Hash()))
            && Line(1, m).Hash() != Line(2, m).Hash()
  {
    var g, k := Line(1, 0), m + 100;
    GenesisReady(2);
    GenesisReady(3);
    LineGrows(c, Genesis(g), 1, k, 2, 0);
    LineGrows(c, Genesis(g), 1, k, 3, 0);
    var s := Run(c, Genesis(g), Offers(1, k, 0));
    GrownFinalizes(s, 1, k, m, 2);
    LineGrows(c, s, 2, k, 3, k);
    GrownFinalizes(Run(c, s, Offers(2, k, k)), 2, k, m, 3);
    LineHeader(1, m);
    LineHeader(2, m);
    OffersAboveGenesis(1, k, 0);
    OffersAboveGenesis(2, k, k);
    OffersRise(k);
  }

  lemma OffersRise(k: U64)
    ensures ClockRises(Offers(1, k, 0) + Offers(2, k, k))
  {
    OfferTimes(1, k, 0);
    OfferTimes(2, k, k);
  }

  lemma GenesisReady(v: Address)
    ensures Ready(Genesis(Line(1, 0)), v, 0)
  {
    GenesisWellFormed(Line(1, 0));
    assert Line(v, 0) == Line(1, 0);
  }

  lemma FirstIsNotBelow(m: U64)
    requires m > 0
    ensures !IsAncestor(Line(1, m).Hash(), Line(2, 1).Hash())
  {
    var x, y := Line(1, m).Hash(), Line(2, 1).Hash();
    LineHeader(1, m);
    LineHeader(2, 1);
    LineHeader(2, 0);
    var z := Line(2, 0).Hash();
    assert y.header.parentHash == z && z.header.parentHash == Zero;
    assert x != y && x != z;
    assert IsAncestor(x, y) <==> IsAncestor(x, z);
    assert IsAncestor(x, z) <==> IsAncestor(x, Zero);
  }

  // A single block can leave the checkpoint behind, at any height: after validator 1 has built up
  // to `m + 100`, a block of number 1 by validator 2 is accepted and becomes the head, and the
  // finalized block is not among its ancestors.
  lemma CheckpointEscaped(c: Crypto, m: U64)
    requires 0 < m < TWO64 - 200
    ensures var s := Run(c, Genesis(Line(1, 0)), Offers(1, m + 100, 0));
            var (t, v) := Accept(c, s, Line(2, 1), m + 100);
            && s.finalized == Some(Checkpoint(m, Line(1, m).Hash()))
            && v.Pass? && t.head == Some(Line(2, 1).Hash()) && t.finalized == s.finalized
            && !IsAncestor(t.finalized.value.hash, t.head.value)
  {
    GenesisReady(2);
    LineGrows(c, Genesis(Line(1, 0)), 1, m + 100, 2, 0);
    EscapeFrom(c, Run(c, Genesis(Line(1, 0)), Offers(1, m + 100, 0)), m);
  }

  lemma EscapeFrom(c: Crypto, s: Store, m: U64)
    requires 0 < m < TWO64 - 200 && Grown(s, 1, m + 100, 2)
    ensures var (t, v) := Accept(c, s, Line(2, 1), m + 100);
            && s.finalized == Some(Checkpoint(m, Line(1, m).Hash()))
            && v.Pass? && t.head == Some(Line(2, 1).Hash()) && t.finalized == s.finalized
            && !IsAncestor(t.finalized.value.hash, t.head.value)
  {
    GrownFinalizes(s, 1, m + 100, m, 2);
    BranchAtGenesis(c, s, 2, m + 100);
    FirstIsNotBelow(m);
  }

  lemma BranchAtGenesis(c: Crypto, s: Store, v: Address, now: U64)
    requires 1 <= now < TWO64 - 3 && Ready(s, v, 0)
    ensures AcceptFault(c, s, Line(v, 1), now).Pass?
    ensures Accept(c, s, Line(v, 1), now) == (Appended(s, Line(v, 1)), Pass)
    ensures Appended(s, Line(v, 1)).finalized == s.finalized
  {
    NextIsAccepted(c, s, v, 0, now);
    AllOrNothing(c, s, Line(v, 1), now);
    AppendIsAppended(s, Line(v, 1));
    LineHeader(v, 1);
  }
}
