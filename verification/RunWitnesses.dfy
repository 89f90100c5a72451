/** Short runs of `accept_block`: one that takes a block twice, one that begins a second tree, and
    one whose index leaves the line of the head. */
module RunWitnesses {
  import opened Base
  import opened Blocks
  import opened Ancestry
  import opened BlockStore
  import opened ChainRuns
  import opened FinalityFailure
  import opened IndexLaws
  import opened ForkChoice
  import opened Ghost
  import opened GhostLaws
  import opened StateStore

  // ---------- a block taken twice ----------

  // A stored block on the indexed block below it is taken again while nothing is finalized.
  lemma TakenAgain(c: Crypto, s: Store, v: Address)
    requires WellFormed(s) && Line(v, 1).Hash() in s.blocks && s.finalized.None?
    requires 0 in s.byNumber && s.byNumber[0] == Line(v, 0).Hash()
    ensures AcceptFault(c, s, Line(v, 1), 1).Pass?
    ensures Accept(c, s, Line(v, 1), 1) == (Appended(s, Line(v, 1)), Pass)
  {
    var b := Line(v, 1);
    LineHeader(v, 0);
    LineHeader(v, 1);
    assert b.header.parentHash == Line(v, 0).Hash();
    assert BlockFault(c, b).Pass?;
    assert SignKey(b.Hash()) == (v, 1);
    assert BlockByNumber(s, 0).value.header == Line(v, 0).header;
    AllOrNothing(c, s, b, 1);
    AppendIsAppended(s, b);
  }

  // After the genesis, validator 1 offers its block of number 1 and offers it once more.  Both
  // offers are accepted, and the genesis gains the weight of the block twice.
  lemma RepeatIsAccepted(c: Crypto, bal: Balances)
    ensures var g, b := Line(1, 0), Line(1, 1);
            var (s, v) := Accept(c, Genesis(g), b, 1);
            var (t, w) := Accept(c, s, b, 1);
            && IsGenesis(g) && v.Pass? && w.Pass? && b.Hash() in s.blocks
            && ChildIndex(s) && ChildIndex(t) && !PutOnce(t)
            && SubtreeStake(t, bal, g.Hash()) ==
               SatAdd(TWO128, SubtreeStake(s, bal, g.Hash()), SubtreeStake(s, bal, b.Hash()))
  {
    var g, b := Line(1, 0), Line(1, 1);
    GenesisReady(1);
    BranchAtGenesis(c, Genesis(g), 1, 1);
    OneBlock(g, b);
    var s := Appended(Genesis(g), b);
    TakenAgain(c, s, 1);
    RepeatIsTwice(s, b);
    RepeatCountsTwice(s, g.Hash(), bal, b);
  }

  // The store after the first offer.
  lemma OneBlock(g: Block, b: Block)
    requires g == Line(1, 0) && b == Line(1, 1)
    ensures var s := Appended(Genesis(g), b);
            && WellFormed(s) && Tree(s, g.Hash()) && b.Hash() in s.blocks && s.finalized.None?
            && 0 in s.byNumber && s.byNumber[0] == g.Hash()
            && b.header.number > 0 && b.header.parentHash == g.Hash()
  {
    LineHeader(1, 0);
    LineHeader(1, 1);
    GenesisWellFormed(g);
    GenesisIsTree(g);
    assert b.Hash() !in Genesis(g).blocks;
    AppendedWellFormed(Genesis(g), b);
    NewKeepsTree(Genesis(g), g.Hash(), b);
  }

  // ---------- a second tree ----------

  function SecondGenesis(v: Address): Block {
    Block(Header(Zero, 0, 0, 0, 0, 0, v, [], 30_000_000, 0), [])
  }

  // Right after the genesis another validator's block of number 0 is accepted and becomes the head.
  // The two stored blocks have no common ancestor, and there is no way to reorganise between them.
  lemma SecondTreeBegins(c: Crypto, v: Address)
    requires v != Line(1, 0).header.validator
    ensures var g, z := Line(1, 0), SecondGenesis(v);
            var (t, w) := Accept(c, Genesis(g), z, 0);
            && w.Pass? && t.head == Some(z.Hash()) && g.Hash() in t.blocks && z.Hash() in t.blocks
            && !Rooted(t.blocks.Keys, g.Hash())
            && BlockStore.CommonAncestor(t, g.Hash(), z.Hash()) == None
            && Reorganisation(t, g.Hash(), z.Hash()).Err?
  {
    var g, z := Line(1, 0), SecondGenesis(v);
    LineHeader(1, 0);
    GenesisWellFormed(g);
    SecondGenesisIff(c, Genesis(g), z, 0);
    assert BlockFault(c, z).Pass?;
    AllOrNothing(c, Genesis(g), z, 0);
    var t := Appended(Genesis(g), z);
    assert t.blocks.Keys == {g.Hash(), z.Hash()};
    assert LineOf(t, Zero) == {} && LineOf(t, g.Hash()) == {g.Hash()};
    assert FirstIn(t, z.Hash(), {g.Hash()}) == FirstIn(t, Zero, {g.Hash()}) == None;
  }

  // ---------- an index off the line of the head ----------

  // A block of another validator on the genesis does not stop the line of `v`.
  lemma BranchKeepsReady(s: Store, v: Address, k: U64, w: Address)
    requires k >= 2 && Ready(s, v, k) && v != w && Fits(s, Line(w, 1))
    ensures Ready(Appended(s, Line(w, 1)), v, k)
  {
    LineHeader(w, 1);
    AppendedWellFormed(s, Line(w, 1));
  }

  lemma GapFrom(c: Crypto, s: Store)
    requires Ready(s, 1, 2) && Ready(s, 2, 0)
    ensures var t, u := Appended(s, Line(2, 1)), Appended(Appended(s, Line(2, 1)), Line(1, 3));
            && Accept(c, s, Line(2, 1), 2) == (t, Pass) && Accept(c, t, Line(1, 3), 3) == (u, Pass)
  {
    BranchAtGenesis(c, s, 2, 2);
    AcceptedFits(c, s, Line(2, 1), 2);
    BranchKeepsReady(s, 1, 2, 2);
    var t := Appended(s, Line(2, 1));
    NextIsAccepted(c, t, 1, 2, 3);
    AllOrNothing(c, t, Line(1, 3), 3);
    AppendIsAppended(t, Line(1, 3));
  }

  lemma BranchAgrees(s: Store)
    requires 0 in s.byNumber && s.byNumber[0] == Line(2, 0).Hash()
    ensures IndexAgrees(Appended(s, Line(2, 1)))
  {
    LineHeader(2, 0);
    LineHeader(2, 1);
    var x := Line(2, 1).Hash();
    assert x.header.parentHash == Line(2, 0).Hash();
    assert Number(x) == 1 && AncestorAt(x, 1) == x && AncestorAt(x, 0) == x.header.parentHash;
  }

  lemma GapLosesLine(t: Store)
    requires 1 in t.byNumber && t.byNumber[1] == Line(2, 1).Hash()
    ensures var u := Appended(t, Line(1, 3));
            && u.head == Some(Line(1, 3).Hash()) && 1 in u.byNumber
            && u.byNumber[1] == Line(2, 1).Hash()
            && AncestorAt(u.head.value, 1) == Line(1, 1).Hash() != Line(2, 1).Hash()
            && !IndexAgrees(u)
  {
    LineHeader(1, 3);
    LineHeader(1, 1);
    LineHeader(2, 1);
    LineAncestor(1, 3, 1);
  }

  // Validator 1 builds heights 1 and 2, validator 2 a block on the genesis, and validator 1 goes on
  // with height 3, two above the head.  All four blocks are accepted; then height 1 leads to
  // validator 2's block, which is no ancestor of the head.
  lemma GapBreaksIndex(c: Crypto)
    ensures var s := Run(c, Genesis(Line(1, 0)), Offers(1, 2, 0));
            var (t, v) := Accept(c, s, Line(2, 1), 2);
            var (u, w) := Accept(c, t, Line(1, 3), 3);
            && v.Pass? && IndexAgrees(t) && !NoGap(t, Line(1, 3))
            && w.Pass? && !IndexAgrees(u)
            && u.head == Some(Line(1, 3).Hash()) && 1 in u.byNumber
            && u.byNumber[1] == Line(2, 1).Hash()
            && AncestorAt(u.head.value, 1) == Line(1, 1).Hash() != Line(2, 1).Hash()
  {
    GenesisReady(1);
    GenesisReady(2);
    LineGrows(c, Genesis(Line(1, 0)), 1, 2, 2, 0);
    var s := Run(c, Genesis(Line(1, 0)), Offers(1, 2, 0));
    GapFrom(c, s);
    BranchAgrees(s);
    LineHeader(1, 3);
    LineHeader(2, 1);
    GapLosesLine(Appended(s, Line(2, 1)));
  }
}
