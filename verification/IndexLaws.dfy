/** When the by-number index is the line of ancestors of the head. */
module IndexLaws {
  import opened Base
  import opened Blocks
  import opened Ancestry
  import opened BlockStore
  import opened ChainRuns
  import opened Finality

  // Every height up to `x`'s leads to `x`'s ancestor at that height.
  ghost predicate Follows(s: Store, x: Hash) {
    x.Of? && forall n: nat :: n <= Number(x) ==>
                n in s.byNumber && s.byNumber[n] == AncestorAt(x, n)
  }

  ghost predicate IndexAgrees(s: Store) {
    s.head.Some? && Follows(s, s.head.value)
  }

  // The index entry at `k` is the child of the entry below.
  predicate LinkAt(s: Store, k: nat) {
    k > 0 && k in s.byNumber && k - 1 in s.byNumber && s.byNumber[k].Of?
    && Parent(s.byNumber[k]) == s.byNumber[k - 1]
  }

  lemma AncestorBelow(x: Hash, n: nat)
    requires x.Of? && n < Number(x)
    ensures AncestorAt(x, n) == AncestorAt(Parent(x), n)
  {}

  // One link further up, the index still follows.
  lemma FollowsUp(s: Store, x: Hash, y: Hash)
    requires Follows(s, x) && y.Of? && Parent(y) == x && Number(y) == Number(x) + 1
    requires Number(y) in s.byNumber && s.byNumber[Number(y)] == y
    ensures Follows(s, y)
  {
    forall n: nat | n <= Number(y) ensures n in s.byNumber && s.byNumber[n] == AncestorAt(y, n) {
      if n < Number(y) {
        AncestorBelow(y, n);
      }
    }
  }

  lemma {:induction false} FollowsFrom(s: Store, m: nat, n: nat)
    requires m <= n && n in s.byNumber && m in s.byNumber
    requires forall k: nat :: k in s.byNumber ==> s.byNumber[k].Of? && Number(s.byNumber[k]) == k
    requires Follows(s, s.byNumber[m])
    requires forall k: nat :: m < k <= n ==> LinkAt(s, k)
    ensures n in s.byNumber && Follows(s, s.byNumber[n])
    decreases n - m
  {
    if m < n {
      assert LinkAt(s, n);
      FollowsFrom(s, m, n - 1);
      FollowsUp(s, s.byNumber[n - 1], s.byNumber[n]);
    }
  }

  lemma IndexHeights(s: Store)
    requires WellFormed(s)
    ensures forall k: nat :: k in s.byNumber ==> s.byNumber[k].Of? && Number(s.byNumber[k]) == k
  {}

  // Every index entry below `b` is the child of the one below it.
  ghost predicate LinkedBelow(s: Store, b: Block) {
    forall k: nat :: 0 < k < b.header.number as nat ==> LinkAt(s, k)
  }

  // If all index entries below the new block are linked, the index follows its line.
  lemma LinkedAgrees(s: Store, b: Block)
    requires WellFormed(s) && Fits(s, b) && b.header.number > 0 && 0 in s.byNumber
    requires LinkedBelow(s, b)
    ensures IndexAgrees(Appended(s, b))
  {
    IndexHeights(s);
    assert Follows(s, s.byNumber[0]);
    FollowsFrom(s, 0, b.header.number - 1);
    PutFollows(s, b);
  }

  // If the entries between the head and the new block are linked, the index follows the new
  // block's line.
  lemma LinkedKeepsAgreement(s: Store, b: Block)
    requires WellFormed(s) && IndexAgrees(s) && Fits(s, b) && b.header.number > 0
    requires forall k: nat :: Number(s.head.value) < k < b.header.number as nat ==> LinkAt(s, k)
    ensures IndexAgrees(Appended(s, b))
  {
    forall k: nat | 0 < k < b.header.number as nat ensures LinkAt(s, k) {
      if k <= Number(s.head.value) {
        FollowsLinks(s, s.head.value, k);
      }
    }
    LinkedAgrees(s, b);
  }

  lemma PutFollows(s: Store, b: Block)
    requires Fits(s, b) && b.header.number > 0
    requires b.header.parentHash.Of? && Number(b.header.parentHash) + 1 == b.header.number as nat
    requires Follows(s, b.header.parentHash)
    ensures Follows(Appended(s, b), b.Hash())
  {
    var t := Appended(s, b);
    assert t.byNumber == s.byNumber[b.header.number as nat := b.Hash()];
    assert Follows(t, b.header.parentHash);
    FollowsUp(t, b.header.parentHash, b.Hash());
  }

  // Along a followed line, neighbouring entries are linked.
  lemma FollowsLinks(s: Store, x: Hash, k: nat)
    requires WellFormed(s) && x in s.blocks && Follows(s, x) && 0 < k <= Number(x)
    ensures LinkAt(s, k)
  {
    AncestorAtStored(s.blocks.Keys, x, k);
    var y := AncestorAt(x, k);
    AncestorAtCompose(s.blocks.Keys, x, k, k - 1);
    assert Linked(s.blocks.Keys, y);
    assert AncestorAt(y, k - 1) == AncestorAt(Parent(y), k - 1) == Parent(y);
  }

  lemma AgreementNeedsLinks(s: Store, b: Block, k: nat)
    requires WellFormed(s) && Fits(s, b) && IndexAgrees(Appended(s, b))
    requires 0 < k < b.header.number as nat
    ensures LinkAt(s, k)
  {
    var t := Appended(s, b);
    AppendedWellFormed(s, b);
    assert t.head.value == b.Hash();
    FollowsLinks(t, b.Hash(), k);
    assert t.byNumber == s.byNumber[b.header.number as nat := b.Hash()];
  }

  // After a block the index is the line of the new head exactly when all index entries below the
  // block are linked, whatever the index was before.
  lemma AgreementIff(s: Store, b: Block)
    requires WellFormed(s) && Fits(s, b) && b.header.number > 0 && 0 in s.byNumber
    ensures IndexAgrees(Appended(s, b)) <==> LinkedBelow(s, b)
  {
    if IndexAgrees(Appended(s, b)) {
      forall k: nat | 0 < k < b.header.number as nat ensures LinkAt(s, k) {
        AgreementNeedsLinks(s, b, k);
      }
    }
    if LinkedBelow(s, b) {
      LinkedAgrees(s, b);
    }
  }

  lemma {:induction false} GenesisIsIndexed(g: Block, bs: seq<Block>, n: nat)
    requires IsGenesis(g) && n <= |bs|
    ensures 0 in At(g, bs, n).byNumber
  {
    if n > 0 {
      GenesisIsIndexed(g, bs, n - 1);
      HistoryStep(g, bs, n - 1);
    }
  }

  lemma AgreesAfterIff(g: Block, bs: seq<Block>, n: nat)
    requires ValidHistory(g, bs) && n < |bs|
    ensures IndexAgrees(At(g, bs, n + 1)) <==> LinkedBelow(At(g, bs, n), bs[n])
  {
    ValidPrefix(g, bs, n);
    HistoryRooted(g, bs[..n]);
    HistoryStep(g, bs, n);
    assert FitsAt(g, bs, n);
    GenesisIsIndexed(g, bs, n);
    AgreementIff(At(g, bs, n), bs[n]);
  }

  ghost predicate AgreesAt(g: Block, bs: seq<Block>, n: nat)
    requires n <= |bs|
  {
    IndexAgrees(At(g, bs, n))
  }

  // The `n`-th accepted block finds all index entries below it linked.
  ghost predicate LinkedAt(g: Block, bs: seq<Block>, n: nat)
    requires n < |bs|
  {
    LinkedBelow(At(g, bs, n), bs[n])
  }

  ghost predicate AlwaysAgrees(g: Block, bs: seq<Block>) {
    forall n: nat {:trigger AgreesAt(g, bs, n)} :: n <= |bs| ==> AgreesAt(g, bs, n)
  }

  ghost predicate AlwaysLinked(g: Block, bs: seq<Block>) {
    forall n: nat {:trigger LinkedAt(g, bs, n)} :: n < |bs| ==> LinkedAt(g, bs, n)
  }

  // Over a whole history, the index is the line of the head at every point exactly when each
  // accepted block finds all index entries below it linked.
  lemma AlwaysAgreesIff(g: Block, bs: seq<Block>)
    requires ValidHistory(g, bs)
    ensures AlwaysAgrees(g, bs) <==> AlwaysLinked(g, bs)
  {
    if AlwaysAgrees(g, bs) {
      forall n: nat | n < |bs| ensures LinkedAt(g, bs, n) {
        assert AgreesAt(g, bs, n + 1);
        AgreesAfterIff(g, bs, n);
      }
    }
    if AlwaysLinked(g, bs) {
      forall n: nat | n <= |bs| ensures AgreesAt(g, bs, n) {
        LinkedAgreesAt(g, bs, n);
      }
    }
  }

  lemma LinkedAgreesAt(g: Block, bs: seq<Block>, n: nat)
    requires ValidHistory(g, bs) && AlwaysLinked(g, bs) && n <= |bs|
    ensures AgreesAt(g, bs, n)
  {
    if n == 0 {
      GenesisAgrees(g);
    } else {
      var k: nat := n - 1;
      assert LinkedAt(g, bs, k);
      AgreesAfterIff(g, bs, k);
    }
  }

  // In every history whose blocks are numbered at most one above the head, `byNumber` is the
  // line of ancestors of the head, at every point.
  lemma {:induction false} IndexIsAncestorLine(g: Block, bs: seq<Block>, n: nat)
    requires ValidHistory(g, bs) && n <= |bs|
    requires forall i :: 0 <= i < n ==> NoGap(At(g, bs, i), bs[i])
    ensures IndexAgrees(At(g, bs, n))
  {
    if n > 0 {
      IndexIsAncestorLine(g, bs, n - 1);
      assert NoGap(At(g, bs, n - 1), bs[n - 1]);
      OneMoreBlock(g, bs, n - 1);
    } else {
      GenesisAgrees(g);
    }
  }

  lemma OneMoreBlock(g: Block, bs: seq<Block>, n: nat)
    requires ValidHistory(g, bs) && n < |bs|
    requires IndexAgrees(At(g, bs, n)) && NoGap(At(g, bs, n), bs[n])
    ensures IndexAgrees(At(g, bs, n + 1))
  {
    ValidPrefix(g, bs, n);
    HistoryRooted(g, bs[..n]);
    HistoryStep(g, bs, n);
    assert FitsAt(g, bs, n);
    NoGapAgrees(At(g, bs, n), bs[n]);
  }

  lemma GenesisAgrees(g: Block)
    requires IsGenesis(g)
    ensures IndexAgrees(Genesis(g))
  {}

  lemma NoGapAgrees(s: Store, b: Block)
    requires WellFormed(s) && IndexAgrees(s) && Fits(s, b) && b.header.number > 0 && NoGap(s, b)
    ensures IndexAgrees(Appended(s, b))
  {
    LinkedKeepsAgreement(s, b);
  }

  ghost predicate NoGap(s: Store, b: Block) {
    s.head.Some? && s.head.value.Of? ==> b.header.number as nat <= Number(s.head.value) + 1
  }
}
