/** How GHOST reacts to a new block. */
module GhostLaws {
  import opened Base
  import opened Sums
  import opened Blocks
  import opened Ancestry
  import opened BlockStore
  import opened ChainRuns
  import opened Ghost
  import opened StateStore

  // `b` is a block the store does not hold yet, and its parent is stored.
  ghost predicate Fresh(s: Store, b: Block) {
    && b.Hash() !in s.blocks && b.header.number > 0
    && b.header.parentHash in s.blocks && b.header.parentHash.Of?
    && Number(b.header.parentHash) + 1 == b.header.number as nat
    && b.header.parentHash.header.timestamp < b.header.timestamp
  }

  lemma FreshFromFits(s: Store, b: Block)
    requires WellFormed(s) && Fits(s, b) && b.header.number > 0 && b.Hash() !in s.blocks
    ensures Fresh(s, b)
  {}

  // ---------- the tree with one more leaf ----------

  // `t` holds `s`'s blocks and `b`, and `b` is the last child of its parent.
  ghost predicate AddsLeaf(s: Store, t: Store, b: Block) {
    && Fresh(s, b)
    && t.blocks.Keys == s.blocks.Keys + {b.Hash()}
    && forall p :: GainsChild(s, t, b, p)
  }

  // `b` comes after the other children of its parent.
  ghost predicate GainsChild(s: Store, t: Store, b: Block, p: Hash) {
    Children(t, p) == Children(s, p) + if p == b.header.parentHash then [b.Hash()] else []
  }

  lemma ChildrenAfter(s: Store, b: Block, p: Hash)
    ensures GainsChild(s, Appended(s, b), b, p)
  {
    assert Children(s, p) + [] == Children(s, p);
  }

  lemma AppendedAddsLeaf(s: Store, b: Block)
    requires ChildIndex(s) && Fresh(s, b)
    ensures AddsLeaf(s, Appended(s, b), b) && ChildIndex(Appended(s, b))
  {
    forall p ensures GainsChild(s, Appended(s, b), b, p) {
      ChildrenAfter(s, b, p);
    }
    PutChildren(s, b);
    SameChildren(Put(s, b), Appended(s, b));
  }

  lemma FreshKeepsTree(s: Store, t: Store, g: Hash, b: Block)
    requires Tree(s, g) && AddsLeaf(s, t, b) && ChildIndex(t)
    ensures Tree(t, g)
    ensures Children(t, b.Hash()) == []
  {
    LeafKeepsRoot(s, t.blocks.Keys, g, b);
    LeafPutOnce(s, t, b);
    LeafHasNoChildren(s, g, b);
    assert GainsChild(s, t, b, b.Hash());
    assert Length(b.Hash()) == 1 + Length(b.header.parentHash);
  }

  lemma LeafKeepsRoot(s: Store, keys: set<Hash>, g: Hash, b: Block)
    requires Rooted(s.blocks.Keys, g) && Fresh(s, b) && keys == s.blocks.Keys + {b.Hash()}
    ensures Rooted(keys, g)
  {
    forall x | x in keys ensures Linked(keys, x) {
      if x in s.blocks {
        assert Linked(s.blocks.Keys, x);
      }
    }
  }

  lemma LeafPutOnce(s: Store, t: Store, b: Block)
    requires ChildIndex(s) && PutOnce(s) && AddsLeaf(s, t, b)
    ensures PutOnce(t)
  {
    forall p ensures Once(Children(t, p)) {
      assert Once(Children(s, p)) && GainsChild(s, t, b, p);
      assert b.Hash() !in Children(s, p);
    }
  }

  lemma ParentIsStored(s: Store, g: Hash, c: Hash)
    requires Rooted(s.blocks.Keys, g) && c in s.blocks
    ensures Parent(c) in s.blocks || Parent(c) == Zero
  {
    assert Linked(s.blocks.Keys, c);
  }

  lemma LeafHasNoChildren(s: Store, g: Hash, b: Block)
    requires ChildIndex(s) && Rooted(s.blocks.Keys, g) && b.Hash() !in s.blocks
    ensures Children(s, b.Hash()) == []
  {
    var cs := Children(s, b.Hash());
    if cs != [] {
      assert cs[0] in cs;
      ParentIsStored(s, g, cs[0]);
    }
  }

  // The weights in the larger tree, ancestor by ancestor.
  lemma LeafWeights(s: Store, t: Store, g: Hash, bal: Balances, b: Block, h: Hash)
    requires Tree(s, g) && Tree(t, g) && AddsLeaf(s, t, b) && h in s.blocks && Fits128(bal)
    ensures SubtreeStake(t, bal, h) ==
            if IsAncestor(h, b.Hash())
            then SatAdd(TWO128, SubtreeStake(s, bal, h), Weight(bal)(b.Hash()))
            else SubtreeStake(s, bal, h)
  {
    var w := Weight(bal);
    StakeIsCappedTotal(s, g, bal, h);
    StakeIsCappedTotal(t, g, bal, h);
    assert Subtree(t, h) == Subtree(s, h) + if IsAncestor(h, b.Hash()) then {b.Hash()} else {};
    if IsAncestor(h, b.Hash()) {
      SumUnion(Subtree(s, h), {b.Hash()}, w);
      SumSingle(b.Hash(), w);
      CapOnce(Total(s, bal, h), w(b.Hash()));
    } else {
      assert Subtree(s, h) + {} == Subtree(s, h);
    }
  }

  lemma CapOnce(a: nat, b: nat)
    ensures SatAdd(TWO128, Cap(TWO128, a), b) == Cap(TWO128, a + b)
  {}

  // A new leaf adds its validator's balance to the weight of exactly its own ancestors.
  lemma LeafChangesAncestors(s: Store, g: Hash, bal: Balances, b: Block, h: Hash)
    requires Tree(s, g) && Fresh(s, b) && h in s.blocks && Fits128(bal)
    ensures Tree(Appended(s, b), g)
    ensures SubtreeStake(Appended(s, b), bal, h) ==
            if IsAncestor(h, b.Hash())
            then SatAdd(TWO128, SubtreeStake(s, bal, h), Balance(bal, b.header.validator))
            else SubtreeStake(s, bal, h)
  {
    AppendedAddsLeaf(s, b);
    FreshKeepsTree(s, Appended(s, b), g, b);
    LeafWeights(s, Appended(s, b), g, bal, b, h);
  }

  // ---------- the head ----------

  // The winner stays the winner when its own weight grows and the others' do not change.
  lemma WinnerStays(ws: seq<nat>, vs: seq<nat>)
    requires ws != [] && |vs| == |ws|
    requires vs[LastMax(ws)] >= ws[LastMax(ws)]
    requires forall j :: 0 <= j < |ws| && j != LastMax(ws) ==> vs[j] == ws[j]
    ensures LastMax(vs) == LastMax(ws)
  {
    var m, k := LastMax(ws), LastMax(vs);
    assert vs[m] <= vs[k] && ws[k] <= ws[m];
  }

  // The walk ends at a stored leaf below its start.
  lemma {:induction false} GhostEnds(s: Store, bal: Balances, h: Hash)
    requires ChildIndex(s) && h in s.blocks
    ensures var r := GhostFrom(s, bal, h);
            r in s.blocks && IsAncestor(h, r) && Children(s, r) == []
    decreases Below(s, h)
  {
    if Children(s, h) != [] {
      var best := Heaviest(s, bal, Children(s, h));
      assert best in Children(s, h);
      BelowShrinks(s, h, best);
      GhostEnds(s, bal, best);
      AncestorTrans(h, best, GhostFrom(s, bal, best));
    }
  }

  // The last maximum among `h`'s children is still the last maximum after a leaf is put below it.
  lemma SameWinner(s: Store, t: Store, g: Hash, bal: Balances, b: Block, h: Hash)
    requires Tree(s, g) && Tree(t, g) && AddsLeaf(s, t, b) && Fits128(bal)
    requires Children(s, h) != []
    requires IsAncestor(Heaviest(s, bal, Children(s, h)), b.header.parentHash)
    ensures Heaviest(t, bal, Children(s, h)) == Heaviest(s, bal, Children(s, h))
  {
    var cs := Children(s, h);
    var m := LastMax(Weights(s, bal, cs));
    HeaviestIsStored(s, bal, h);
    WinnerGains(s, t, g, bal, b, cs[m]);
    forall j | 0 <= j < |cs| && j != m
      ensures SubtreeStake(t, bal, cs[j]) == SubtreeStake(s, bal, cs[j])
    {
      OtherKeeps(s, t, g, bal, b, h, m, j);
    }
    WinnerStays(Weights(s, bal, cs), Weights(t, bal, cs));
  }

  lemma HeaviestIsStored(s: Store, bal: Balances, h: Hash)
    requires ChildIndex(s) && Children(s, h) != []
    ensures Heaviest(s, bal, Children(s, h)) in s.blocks
  {
    assert Heaviest(s, bal, Children(s, h)) in Children(s, h);
  }

  lemma OtherKeeps(s: Store, t: Store, g: Hash, bal: Balances, b: Block, h: Hash, m: nat, j: nat)
    requires Tree(s, g) && Tree(t, g) && AddsLeaf(s, t, b) && Fits128(bal)
    requires m < |Children(s, h)| && j < |Children(s, h)| && j != m
    requires IsAncestor(Children(s, h)[m], b.header.parentHash)
    ensures SubtreeStake(t, bal, Children(s, h)[j]) == SubtreeStake(s, bal, Children(s, h)[j])
  {
    var cs := Children(s, h);
    Siblings(s, h, m, j);
    SiblingKeeps(s, t, g, bal, b, cs[m], cs[j]);
  }

  lemma Siblings(s: Store, h: Hash, m: nat, j: nat)
    requires ChildIndex(s) && PutOnce(s)
    requires m < |Children(s, h)| && j < |Children(s, h)| && j != m
    ensures var x, y := Children(s, h)[m], Children(s, h)[j];
            x in s.blocks && x.Of? && y in s.blocks && y.Of? && Parent(x) == h == Parent(y) && x != y
  {
    var cs := Children(s, h);
    assert cs[j] in cs && cs[m] in cs;
    assert Once(cs);
  }

  lemma WinnerGains(s: Store, t: Store, g: Hash, bal: Balances, b: Block, c: Hash)
    requires Tree(s, g) && Tree(t, g) && AddsLeaf(s, t, b) && Fits128(bal) && c in s.blocks
    ensures SubtreeStake(t, bal, c) >= SubtreeStake(s, bal, c)
  {
    LeafWeights(s, t, g, bal, b, c);
    StakeIsCappedTotal(s, g, bal, c);
  }

  // A sibling of a block on the leaf's line is not on that line.
  lemma SiblingKeeps(s: Store, t: Store, g: Hash, bal: Balances, b: Block, c: Hash, x: Hash)
    requires Tree(s, g) && Tree(t, g) && AddsLeaf(s, t, b) && Fits128(bal)
    requires IsAncestor(c, b.header.parentHash)
    requires c in s.blocks && x in s.blocks && x.Of? && c.Of? && Parent(x) == Parent(c) && x != c
    ensures SubtreeStake(t, bal, x) == SubtreeStake(s, bal, x)
  {
    LeafWeights(s, t, g, bal, b, x);
    if IsAncestor(x, b.Hash()) {
      AncestorsComparable(x, c, b.Hash());
      AncestorLengths(x, c);
    }
  }

  lemma WalkEndsAtLeaf(s: Store, t: Store, g: Hash, bal: Balances, b: Block)
    requires Tree(s, g) && AddsLeaf(s, t, b) && ChildIndex(t)
    requires Children(s, b.header.parentHash) == []
    ensures GhostFrom(t, bal, b.header.parentHash) == b.Hash()
  {
    FreshKeepsTree(s, t, g, b);
    assert GainsChild(s, t, b, b.header.parentHash);
  }

  // On the way to the GHOST head, a leaf put under that head changes no choice.
  lemma {:induction false} WalkReachesLeaf(
    s: Store, t: Store, g: Hash, bal: Balances, b: Block, h: Hash)
    requires Tree(s, g) && Tree(t, g) && AddsLeaf(s, t, b) && h in s.blocks && Fits128(bal)
    requires GhostFrom(s, bal, h) == b.header.parentHash
    ensures GhostFrom(t, bal, h) == b.Hash()
    decreases Below(s, h)
  {
    GhostEnds(s, bal, h);
    var cs := Children(s, h);
    if cs == [] {
      WalkEndsAtLeaf(s, t, g, bal, b);
    } else {
      var c := Heaviest(s, bal, cs);
      assert c in cs;
      BelowShrinks(s, h, c);
      WalkReachesLeaf(s, t, g, bal, b, c);
      SameStep(s, t, g, bal, b, h, c);
    }
  }

  // The walk takes the same step from `h` in both trees.
  lemma SameStep(s: Store, t: Store, g: Hash, bal: Balances, b: Block, h: Hash, c: Hash)
    requires Tree(s, g) && Tree(t, g) && AddsLeaf(s, t, b) && h in s.blocks && Fits128(bal)
    requires Children(s, h) != [] && c == Heaviest(s, bal, Children(s, h))
    requires GhostFrom(s, bal, c) == b.header.parentHash
    ensures GhostFrom(t, bal, h) == GhostFrom(t, bal, c)
  {
    var cs := Children(s, h);
    assert c in cs;
    GhostEnds(s, bal, c);
    LeafElsewhere(s, t, b, h);
    SameWinner(s, t, g, bal, b, h);
  }

  lemma LeafElsewhere(s: Store, t: Store, b: Block, h: Hash)
    requires AddsLeaf(s, t, b) && Children(s, h) != []
    requires Children(s, b.header.parentHash) == []
    ensures Children(t, h) == Children(s, h)
  {
    assert GainsChild(s, t, b, h);
  }

  // A block put under the GHOST head becomes the GHOST head, ties included.
  lemma GhostHeadFollows(s: Store, g: Hash, bal: Balances, b: Block)
    requires WellFormed(s) && Tree(s, g) && Fresh(s, b) && Fits128(bal)
    requires GhostHead(s, bal) == Some(b.header.parentHash)
    ensures Tree(Appended(s, b), g)
    ensures GhostHead(Appended(s, b), bal) == Some(b.Hash())
  {
    var t := Appended(s, b);
    AppendedAddsLeaf(s, b);
    FreshKeepsTree(s, t, g, b);
    assert s.byNumber[0] == g && t.byNumber[0] == g;
    assert s.blocks[g].Hash() == g && t.blocks[g] == s.blocks[g];
    WalkReachesLeaf(s, t, g, bal, b, g);
  }

  // ---------- histories ----------

  // No block of the history was stored when it was accepted.
  ghost predicate AllNew(g: Block, bs: seq<Block>) {
    forall i :: 0 <= i < |bs| ==> bs[i].Hash() !in History(g, bs[..i]).blocks
  }

  // Then every weight in the store is a capped total.
  lemma {:induction false} HistoryIsTree(g: Block, bs: seq<Block>)
    requires ValidHistory(g, bs) && AllNew(g, bs)
    ensures Tree(History(g, bs), g.Hash())
  {
    if bs == [] {
      GenesisIsTree(g);
    } else {
      var n := |bs| - 1;
      ValidPrefix(g, bs, n);
      NewPrefix(g, bs, n);
      HistoryIsTree(g, bs[..n]);
      HistoryRooted(g, bs[..n]);
      assert FitsAt(g, bs, n);
      NewKeepsTree(History(g, bs[..n]), g.Hash(), bs[n]);
    }
  }

  lemma NewPrefix(g: Block, bs: seq<Block>, n: nat)
    requires AllNew(g, bs) && n <= |bs|
    ensures AllNew(g, bs[..n])
  {
    forall i | 0 <= i < n ensures bs[..n][i].Hash() !in History(g, bs[..n][..i]).blocks {
      assert bs[..n][..i] == bs[..i];
    }
  }

  lemma NewKeepsTree(s: Store, g: Hash, b: Block)
    requires WellFormed(s) && Tree(s, g) && Fits(s, b) && b.header.number > 0
    requires b.Hash() !in s.blocks
    ensures Tree(Appended(s, b), g)
  {
    FreshFromFits(s, b);
    AppendedAddsLeaf(s, b);
    FreshKeepsTree(s, Appended(s, b), g, b);
  }

  lemma GenesisIsTree(g: Block)
    requires IsGenesis(g)
    ensures Tree(Genesis(g), g.Hash())
  {
    GenesisWellFormed(g);
    forall p ensures Once(Children(Genesis(g), p)) {
      assert Children(Genesis(g), p) == if p == Zero then [g.Hash()] else [];
    }
  }

  // ---------- when a history puts every block once ----------

  lemma {:induction false} ListsGrow(g: Block, bs: seq<Block>, i: nat, p: Hash)
    requires i <= |bs|
    ensures Children(History(g, bs[..i]), p) <= Children(History(g, bs), p)
    decreases |bs| - i
  {
    if i == |bs| {
      assert bs[..i] == bs;
    } else {
      HistoryStep(g, bs, i);
      ChildrenAfter(History(g, bs[..i]), bs[i], p);
      ListsGrow(g, bs, i + 1, p);
    }
  }

  lemma RepeatIsTwice(s: Store, b: Block)
    requires ChildIndex(s) && b.Hash() in s.blocks
    ensures !Once(Children(Appended(s, b), b.header.parentHash))
  {
    var p, h := b.header.parentHash, b.Hash();
    ChildrenAfter(s, b, p);
    assert h in Children(s, p);
    var i :| 0 <= i < |Children(s, p)| && Children(s, p)[i] == h;
    var more := Children(Appended(s, b), p);
    assert more[i] == more[|more| - 1];
  }

  lemma PrefixOnce<T>(xs: seq<T>, ys: seq<T>)
    requires xs <= ys && Once(ys)
    ensures Once(xs)
  {}

  // A history leaves a tree with every block put once exactly when it repeats no block.
  lemma HistoryIsTreeIff(g: Block, bs: seq<Block>)
    requires ValidHistory(g, bs)
    ensures Tree(History(g, bs), g.Hash()) <==> AllNew(g, bs)
  {
    if AllNew(g, bs) {
      HistoryIsTree(g, bs);
    } else {
      var i :| 0 <= i < |bs| && bs[i].Hash() in History(g, bs[..i]).blocks;
      ValidPrefix(g, bs, i);
      HistoryWellFormed(g, bs[..i]);
      RepeatBreaks(g, bs, i);
    }
  }

  lemma RepeatBreaks(g: Block, bs: seq<Block>, i: nat)
    requires i < |bs| && ChildIndex(History(g, bs[..i]))
    requires bs[i].Hash() in History(g, bs[..i]).blocks
    ensures !PutOnce(History(g, bs))
  {
    var p := bs[i].header.parentHash;
    RepeatIsTwice(History(g, bs[..i]), bs[i]);
    HistoryStep(g, bs, i);
    ListsGrow(g, bs, i + 1, p);
    if PutOnce(History(g, bs)) {
      assert Once(Children(History(g, bs), p));
      PrefixOnce(Children(History(g, bs[..i + 1]), p), Children(History(g, bs), p));
    }
  }

  // The GHOST head is greedy: at each of its ancestors from the start of the walk on, the child
  // on its line is the last of the heaviest children.
  lemma {:induction false} GhostIsGreedy(s: Store, bal: Balances, h: Hash, y: Hash, c: Hash)
    requires ChildIndex(s) && h in s.blocks && y in s.blocks
    requires IsAncestor(h, y) && c in Children(s, y) && IsAncestor(c, GhostFrom(s, bal, h))
    ensures c == Heaviest(s, bal, Children(s, y))
    decreases Below(s, h)
  {
    if y == h {
      ChosenChild(s, bal, h, c);
    } else {
      var best := WalkMovesOn(s, bal, h, y, c);
      GhostIsGreedy(s, bal, best, y, c);
    }
  }

  // The child of `h` on the line of the GHOST head is the one the walk chose.
  lemma ChosenChild(s: Store, bal: Balances, h: Hash, c: Hash)
    requires ChildIndex(s) && h in s.blocks
    requires c in Children(s, h) && IsAncestor(c, GhostFrom(s, bal, h))
    ensures c == Heaviest(s, bal, Children(s, h))
  {
    var best := Heaviest(s, bal, Children(s, h));
    assert best in Children(s, h);
    BelowShrinks(s, h, best);
    GhostEnds(s, bal, best);
    AncestorsComparable(c, best, GhostFrom(s, bal, h));
    AncestorLengths(c, best);
  }

  // What the GHOST head is: without a block of number 0 the stored head, and otherwise a stored block
  // without children that descends from it, through the last of the heaviest children everywhere.
  lemma GhostHeadIs(s: Store, bal: Balances)
    requires WellFormed(s)
    ensures 0 !in s.byNumber ==> GhostHead(s, bal) == s.head
    ensures 0 in s.byNumber ==>
              && GhostHead(s, bal).Some?
              && var r := GhostHead(s, bal).value;
                 && r in s.blocks && IsAncestor(s.byNumber[0], r) && Children(s, r) == []
                 && forall y, c ::
                      (y in s.blocks && IsAncestor(s.byNumber[0], y)
                       && c in Children(s, y) && IsAncestor(c, r)) ==>
                        c == Heaviest(s, bal, Children(s, y))
  {
    if 0 in s.byNumber {
      var g := s.byNumber[0];
      assert g in s.blocks && s.blocks[g].header == g.header;
      assert BlockByNumber(s, 0).value.Hash() == g;
      GhostEnds(s, bal, g);
      forall y, c | y in s.blocks && IsAncestor(g, y) && c in Children(s, y)
                    && IsAncestor(c, GhostFrom(s, bal, g))
        ensures c == Heaviest(s, bal, Children(s, y))
      {
        GhostIsGreedy(s, bal, g, y, c);
      }
    }
  }

  // If the walk goes on to a proper descendant `y` of `h`, it passes from `h` to a block at or
  // above `y`.
  lemma WalkMovesOn(s: Store, bal: Balances, h: Hash, y: Hash, c: Hash) returns (best: Hash)
    requires ChildIndex(s) && h in s.blocks && y in s.blocks && y != h
    requires IsAncestor(h, y) && c in Children(s, y) && IsAncestor(c, GhostFrom(s, bal, h))
    ensures best in s.blocks && Below(s, best) < Below(s, h)
    ensures IsAncestor(best, y) && GhostFrom(s, bal, best) == GhostFrom(s, bal, h)
  {
    var r := GhostFrom(s, bal, h);
    assert IsAncestor(y, c);
    AncestorTrans(y, c, r);
    if Children(s, h) == [] {
      AncestorAntisym(y, h);
    }
    best := Heaviest(s, bal, Children(s, h));
    assert best in Children(s, h);
    BelowShrinks(s, h, best);
    GhostEnds(s, bal, best);
    AncestorsComparable(best, y, r);
    if IsAncestor(y, best) && y != best {
      assert IsAncestor(y, h);
      AncestorAntisym(y, h);
    }
  }

  lemma AncestorLengths(a: Hash, b: Hash)
    requires a.Of? && b.Of? && Parent(a) == Parent(b)
    requires IsAncestor(a, b) || IsAncestor(b, a)
    ensures a == b
  {
    if IsAncestor(a, b) {
      AncestorLength(a, b);
    } else {
      AncestorLength(b, a);
    }
  }

  // ---------- a block accepted again ----------

  // Weights depend on the children lists at and below a block only.
  lemma {:induction false} SameBelow(s: Store, t: Store, bal: Balances, x: Hash)
    requires ChildIndex(s) && ChildIndex(t) && t.blocks.Keys == s.blocks.Keys
    requires forall y :: y in Subtree(s, x) ==> Children(t, y) == Children(s, y)
    ensures SubtreeStake(t, bal, x) == SubtreeStake(s, bal, x)
    decreases Below(s, x), |Children(s, x)| + 1
  {
    if x.Of? && x in s.blocks {
      assert x in Subtree(s, x);
      SameChildStake(s, t, bal, x, Children(s, x));
    }
  }

  lemma {:induction false} SameChildStake(s: Store, t: Store, bal: Balances, x: Hash, cs: seq<Hash>)
    requires ChildIndex(s) && ChildIndex(t) && t.blocks.Keys == s.blocks.Keys
    requires AreChildren(s, x, cs)
    requires forall y :: y in Subtree(s, x) && y != x ==> Children(t, y) == Children(s, y)
    ensures AreChildren(t, x, cs)
    ensures ChildStake(t, bal, x, cs) == ChildStake(s, bal, x, cs)
    decreases Below(s, x), |cs|
  {
    if cs != [] {
      var n := |cs| - 1;
      assert cs[n] in cs;
      SameChildStake(s, t, bal, x, cs[..n]);
      BelowShrinks(s, x, cs[n]);
      ChildIsBelow(s, x, cs[n]);
      forall y | y in Subtree(s, cs[n]) ensures y in Subtree(s, x) && y != x {
        assert y == cs[n] || y in Below(s, cs[n]);
        assert y in Below(s, x);
      }
      SameBelow(s, t, bal, cs[n]);
    }
  }

  lemma RepeatChildren(s: Store, b: Block)
    requires ChildIndex(s) && b.Hash() in s.blocks
    ensures ChildIndex(Appended(s, b)) && Appended(s, b).blocks.Keys == s.blocks.Keys
    ensures forall p :: GainsChild(s, Appended(s, b), b, p)
  {
    forall p ensures GainsChild(s, Appended(s, b), b, p) {
      ChildrenAfter(s, b, p);
    }
    PutChildren(s, b);
    SameChildren(Put(s, b), Appended(s, b));
  }

  // A stored block accepted again is counted again: its parent gains its whole weight once more.
  lemma RepeatCountsTwice(s: Store, g: Hash, bal: Balances, b: Block)
    requires Tree(s, g) && b.Hash() in s.blocks && b.header.number > 0
    ensures ChildIndex(Appended(s, b))
    ensures var p := b.header.parentHash;
            SubtreeStake(Appended(s, b), bal, p) ==
            SatAdd(TWO128, SubtreeStake(s, bal, p), SubtreeStake(s, bal, b.Hash()))
  {
    RepeatChildren(s, b);
    assert Linked(s.blocks.Keys, b.Hash());
    var t := Appended(s, b);
    forall y ensures Children(t, y) ==
                     Children(s, y) + if y == b.header.parentHash then [b.Hash()] else []
    {
      assert GainsChild(s, t, b, y);
    }
    DoubledChild(s, t, bal, b.header.parentHash, b.Hash());
  }

  lemma DoubledChild(s: Store, t: Store, bal: Balances, p: Hash, h: Hash)
    requires ChildIndex(s) && ChildIndex(t) && t.blocks.Keys == s.blocks.Keys
    requires p in s.blocks && p.Of? && h in s.blocks && h.Of? && Parent(h) == p
    requires forall y :: Children(t, y) == Children(s, y) + if y == p then [h] else []
    ensures SubtreeStake(t, bal, p) ==
            SatAdd(TWO128, SubtreeStake(s, bal, p), SubtreeStake(s, bal, h))
  {
    var cs := Children(s, p);
    assert AreChildren(s, p, cs);
    SameChildStake(s, t, bal, p, cs);
    BelowShrinks(s, p, h);
    NotBelowItself(s, p, h);
    SameBelow(s, t, bal, h);
    var more := cs + [h];
    assert Children(t, p) == more && more[..|cs|] == cs && more[|cs|] == h;
    assert AreChildren(t, p, more);
    SatAddAssoc(Balance(bal, p.header.validator), ChildStake(s, bal, p, cs),
                SubtreeStake(s, bal, h));
  }

  lemma NotBelowItself(s: Store, p: Hash, h: Hash)
    requires h.Of? && Parent(h) == p
    ensures p !in Subtree(s, h)
  {
    assert Length(h) == 1 + Length(p);
    if IsAncestor(h, p) {
      AncestorLength(h, p);
    }
  }

  lemma SatAddAssoc(a: nat, b: nat, c: nat)
    ensures SatAdd(TWO128, a, SatAdd(TWO128, b, c)) == SatAdd(TWO128, SatAdd(TWO128, a, b), c)
  {}
}
