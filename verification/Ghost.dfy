/** GHOST fork choice: subtree weights and the walk to the heaviest leaf. */
module Ghost {
  import opened Base
  import opened Sums
  import opened Blocks
  import opened Ancestry
  import opened BlockStore
  import opened ChainRuns
  import opened Chain
  import opened StateStore

  // Every balance fits the 128 bits it is converted to.
  ghost predicate Fits128(bal: Balances) {
    forall a :: a in bal ==> bal[a] < TWO128
  }

  // ---------- the weight of a subtree ----------

  // The stored blocks strictly below `h`.
  ghost function Below(s: Store, h: Hash): set<Hash> {
    set x | x in s.blocks && x != h && IsAncestor(h, x)
  }

  ghost predicate AreChildren(s: Store, h: Hash, cs: seq<Hash>) {
    forall c :: c in cs ==> c in s.blocks && c.Of? && Parent(c) == h
  }

  lemma BelowShrinks(s: Store, h: Hash, c: Hash)
    requires c in s.blocks && c.Of? && Parent(c) == h
    ensures Below(s, c) < Below(s, h)
  {
    assert IsAncestor(h, c);
    AncestorLength(h, c);
    assert Length(c) == 1 + Length(h);
    forall x | x in Below(s, c) ensures x in Below(s, h) {
      AncestorTrans(h, c, x);
      if x == h {
        AncestorAntisym(h, c);
      }
    }
    assert c in Below(s, h) && c !in Below(s, c);
  }

  lemma ChildIsBelow(s: Store, h: Hash, c: Hash)
    requires c in s.blocks && c.Of? && Parent(c) == h
    ensures c in Below(s, h)
  {
    assert IsAncestor(h, h);
    assert Length(c) == 1 + Length(h);
  }

  // `subtree_stake`, with the saturating additions of the code.
  function SubtreeStake(s: Store, bal: Balances, h: Hash): nat
    requires ChildIndex(s)
    decreases Below(s, h), |Children(s, h)| + 1
  {
    if h.Zero? || h !in s.blocks then 0
    else
      assert AreChildren(s, h, Children(s, h));
      SatAdd(TWO128, Balance(bal, h.header.validator), ChildStake(s, bal, h, Children(s, h)))
  }

  function ChildStake(s: Store, bal: Balances, h: Hash, cs: seq<Hash>): nat
    requires ChildIndex(s) && AreChildren(s, h, cs)
    decreases Below(s, h), |cs|
  {
    if cs == [] then 0
    else
      var n := |cs| - 1;
      assert cs[n] in cs;
      BelowShrinks(s, h, cs[n]);
      SatAdd(TWO128, ChildStake(s, bal, h, cs[..n]), SubtreeStake(s, bal, cs[n]))
  }

  // ---------- the walk ----------

  // `max_by_key`: the place of the last of the largest.
  function LastMax(ws: seq<nat>): (m: nat)
    requires ws != []
    ensures m < |ws|
    ensures forall j :: 0 <= j < |ws| ==> ws[j] <= ws[m]
    ensures forall j :: m < j < |ws| ==> ws[j] < ws[m]
  {
    var n := |ws| - 1;
    if n == 0 then 0
    else
      var m := LastMax(ws[..n]);
      assert forall j :: 0 <= j < n ==> ws[..n][j] == ws[j];
      if ws[n] >= ws[m] then n else m
  }

  function Weights(s: Store, bal: Balances, cs: seq<Hash>): (ws: seq<nat>)
    requires ChildIndex(s)
    ensures |ws| == |cs|
    ensures forall i :: 0 <= i < |cs| ==> ws[i] == SubtreeStake(s, bal, cs[i])
  {
    seq(|cs|, i requires 0 <= i < |cs| => SubtreeStake(s, bal, cs[i]))
  }

  function Heaviest(s: Store, bal: Balances, cs: seq<Hash>): (best: Hash)
    requires ChildIndex(s) && cs != []
    ensures best in cs
  {
    cs[LastMax(Weights(s, bal, cs))]
  }

  function GhostFrom(s: Store, bal: Balances, h: Hash): Hash
    requires ChildIndex(s)
    decreases Below(s, h)
  {
    if Children(s, h) == [] then h
    else
      var best := Heaviest(s, bal, Children(s, h));
      assert best in Children(s, h);
      BelowShrinks(s, h, best);
      GhostFrom(s, bal, best)
  }

  function GhostHead(s: Store, bal: Balances): Option<Hash>
    requires ChildIndex(s)
  {
    match BlockByNumber(s, 0)
    case None => s.head
    case Some(b) => Some(GhostFrom(s, bal, b.Hash()))
  }

  lemma GhostStep(s: Store, bal: Balances, h: Hash)
    requires ChildIndex(s) && Children(s, h) != []
    ensures var best := Heaviest(s, bal, Children(s, h));
            GhostFrom(s, bal, h) == GhostFrom(s, bal, best) && Below(s, best) < Below(s, h)
  {
    var best := Heaviest(s, bal, Children(s, h));
    assert best in Children(s, h);
    BelowShrinks(s, h, best);
  }

  // `canonical_head`.
  method CanonicalHead(chain: ChainDB, state: StateDB) returns (r: Option<Hash>)
    requires chain.Valid() && ChildIndex(chain.Contents())
    ensures r == GhostHead(chain.Contents(), state.balances)
  {
    ghost var s := chain.Contents();
    var genesis := chain.GetBlockByNumber(0);
    if genesis.None? {
      return chain.head;
    }
    var current := genesis.value.Hash();
    ghost var end := GhostFrom(s, state.balances, current);
    while true
      invariant GhostFrom(s, state.balances, current) == end
      decreases Below(s, current)
    {
      var children := chain.GetChildren(current);
      if children == [] {
        return Some(current);
      }
      var best := FindHeaviest(chain, state, children);
      GhostStep(s, state.balances, current);
      current := best;
    }
  }

  method FindHeaviest(chain: ChainDB, state: StateDB, cs: seq<Hash>) returns (best: Hash)
    requires ChildIndex(chain.Contents()) && cs != []
    ensures best == Heaviest(chain.Contents(), state.balances, cs)
  {
    ghost var ws := Weights(chain.Contents(), state.balances, cs);
    var m, most := 0, SubtreeStake(chain.Contents(), state.balances, cs[0]);
    assert ws[..1] == [ws[0]];
    for i := 1 to |cs|
      invariant 0 <= m < i && m == LastMax(ws[..i]) && most == ws[m]
    {
      assert ws[..i + 1][..i] == ws[..i];
      var weight := SubtreeStake(chain.Contents(), state.balances, cs[i]);
      if weight >= most {
        m, most := i, weight;
      }
    }
    assert ws[..|cs|] == ws;
    best := cs[m];
  }

  // ---------- weights are capped totals ----------

  // A one-genesis tree in which every block was put once.
  ghost predicate PutOnce(s: Store) {
    forall p :: Once(Children(s, p))
  }

  ghost predicate Tree(s: Store, g: Hash) {
    ChildIndex(s) && Rooted(s.blocks.Keys, g) && PutOnce(s)
  }

  ghost function Weight(bal: Balances): Hash -> nat {
    (x: Hash) => if x.Zero? then 0 else Balance(bal, x.header.validator)
  }

  // The stored blocks at or below `h`.
  ghost function Subtree(s: Store, h: Hash): set<Hash> {
    set x | x in s.blocks && IsAncestor(h, x)
  }

  ghost function Total(s: Store, bal: Balances, h: Hash): nat {
    Sum(Subtree(s, h), Weight(bal))
  }

  ghost function Subtrees(s: Store, cs: seq<Hash>): set<Hash> {
    if cs == [] then {} else Subtrees(s, cs[..|cs| - 1]) + Subtree(s, cs[|cs| - 1])
  }

  lemma {:induction false} SubtreesMembers(s: Store, cs: seq<Hash>)
    ensures forall x :: x in Subtrees(s, cs) <==> exists c :: c in cs && x in Subtree(s, c)
  {
    if cs != [] {
      var n := |cs| - 1;
      SubtreesMembers(s, cs[..n]);
      assert cs == cs[..n] + [cs[n]];
    }
  }

  // Two blocks with the same parent share no descendant.
  lemma SiblingsApart(s: Store, a: Hash, b: Hash)
    requires a.Of? && b.Of? && Parent(a) == Parent(b) && a != b
    ensures Subtree(s, a) !! Subtree(s, b)
  {
    forall x | x in Subtree(s, a) && x in Subtree(s, b) ensures false {
      AncestorsComparable(a, b, x);
      if IsAncestor(a, b) {
        AncestorLength(a, b);
      } else {
        AncestorLength(b, a);
      }
    }
  }

  // The child of `h` through which the line of `x` passes.
  lemma {:induction false} ChildTowards(s: Store, g: Hash, h: Hash, x: Hash) returns (c: Hash)
    requires ChildIndex(s) && Rooted(s.blocks.Keys, g) && h in s.blocks && x in s.blocks
    requires IsAncestor(h, x) && x != h
    ensures c in Children(s, h) && c in s.blocks && c.Of? && Parent(c) == h && IsAncestor(c, x)
    decreases x
  {
    assert Linked(s.blocks.Keys, x);
    if Parent(x) == h {
      c := x;
    } else {
      AncestorStored(s.blocks.Keys, g, h, x);
      c := ChildTowards(s, g, h, Parent(x));
    }
  }

  lemma SubtreeSplits(s: Store, g: Hash, h: Hash)
    requires ChildIndex(s) && Rooted(s.blocks.Keys, g) && h in s.blocks
    ensures Subtree(s, h) == {h} + Subtrees(s, Children(s, h))
    ensures h !in Subtrees(s, Children(s, h))
  {
    var cs := Children(s, h);
    SubtreesMembers(s, cs);
    forall x | x in Subtree(s, h) ensures x in {h} + Subtrees(s, cs) {
      if x != h {
        var c := ChildTowards(s, g, h, x);
        assert x in Subtree(s, c);
      }
    }
    forall x | x in Subtrees(s, cs) ensures x in Subtree(s, h) && x != h {
      var c :| c in cs && x in Subtree(s, c);
      BelowShrinks(s, h, c);
      AncestorTrans(h, c, x);
      if x == h {
        AncestorAntisym(h, c);
      }
    }
  }

  lemma LastApart(s: Store, h: Hash, cs: seq<Hash>)
    requires cs != [] && AreChildren(s, h, cs) && Once(cs)
    ensures Subtrees(s, cs[..|cs| - 1]) !! Subtree(s, cs[|cs| - 1])
  {
    var n := |cs| - 1;
    SubtreesMembers(s, cs[..n]);
    assert cs[n] in cs;
    forall x | x in Subtrees(s, cs[..n]) && x in Subtree(s, cs[n]) ensures false {
      var d :| d in cs[..n] && x in Subtree(s, d);
      SiblingsApart(s, d, cs[n]);
    }
  }

  lemma CapAdds(a: nat, b: nat)
    ensures SatAdd(TWO128, Cap(TWO128, a), Cap(TWO128, b)) == Cap(TWO128, a + b)
  {}

  lemma {:induction false} ChildStakeIsCapped(s: Store, g: Hash, bal: Balances, h: Hash, cs: seq<Hash>)
    requires Tree(s, g) && AreChildren(s, h, cs) && Once(cs) && Fits128(bal)
    ensures ChildStake(s, bal, h, cs) == Cap(TWO128, Sum(Subtrees(s, cs), Weight(bal)))
    decreases Below(s, h), |cs|
  {
    if cs == [] {
    } else {
      var n := |cs| - 1;
      var c := cs[n];
      assert c in cs;
      BelowShrinks(s, h, c);
      ChildStakeIsCapped(s, g, bal, h, cs[..n]);
      StakeIsCappedTotal(s, g, bal, c);
      LastApart(s, h, cs);
      SumUnion(Subtrees(s, cs[..n]), Subtree(s, c), Weight(bal));
      CapAdds(Sum(Subtrees(s, cs[..n]), Weight(bal)), Total(s, bal, c));
    }
  }

  // The nested saturating sums come to the total balance of the subtree's validators, counted
  // block by block and capped at 2^128 - 1.
  lemma {:induction false} StakeIsCappedTotal(s: Store, g: Hash, bal: Balances, h: Hash)
    requires Tree(s, g) && h in s.blocks && Fits128(bal)
    ensures SubtreeStake(s, bal, h) == Cap(TWO128, Total(s, bal, h))
    decreases Below(s, h), |Children(s, h)| + 1
  {
    var cs := Children(s, h);
    assert AreChildren(s, h, cs);
    assert Once(cs);
    ChildStakeIsCapped(s, g, bal, h, cs);
    SubtreeSplits(s, g, h);
    SumUnion({h}, Subtrees(s, cs), Weight(bal));
    SumSingle(h, Weight(bal));
    CapAdds(Weight(bal)(h), Sum(Subtrees(s, cs), Weight(bal)));
  }
}
