/** Exactly when a run respects its checkpoints: no accepted block leaves one behind, and no two
    different blocks are finalized at one height. */
module Checkpoints {
  import opened Base
  import opened Blocks
  import opened Ancestry
  import opened BlockStore
  import opened ChainRuns
  import opened Finality
  import opened ForkChoice

  // ---------- leaving a checkpoint behind ----------

  // `y` stays below the ancestor `f` of `x` exactly when the lines of `x` and `y` meet no lower.
  lemma StaysBelowIff(s: Store, g: Hash, f: Hash, x: Hash, y: Hash)
    requires Rooted(s.blocks.Keys, g) && f in s.blocks && x in s.blocks && y in s.blocks
    requires IsAncestor(f, x)
    ensures BlockStore.CommonAncestor(s, x, y).Some? && BlockStore.CommonAncestor(s, x, y).value.Of?
    ensures IsAncestor(f, y) <==> Number(BlockStore.CommonAncestor(s, x, y).value) >= Number(f)
  {
    CommonAncestorIsDeepest(s, g, x, y);
    var ca := BlockStore.CommonAncestor(s, x, y).value;
    var stored := s.blocks.Keys;
    if IsAncestor(f, y) {
      AncestorStored(stored, g, f, ca);
    }
    if Number(ca) >= Number(f) {
      AncestorsComparable(f, ca, x);
      if IsAncestor(ca, f) {
        AncestorStored(stored, g, ca, f);
      }
      AncestorTrans(f, ca, y);
    }
  }

  // The reorganisation guard asked of the parent, against the checkpoint `f`: the block is `f`'s
  // own, or the lines of the head and of the parent meet at `f`'s height or above.
  predicate Respects(s: Store, f: Checkpoint, b: Block) {
    b.Hash() == f.hash ||
    (s.head.Some? &&
     var ca := BlockStore.CommonAncestor(s, s.head.value, b.header.parentHash);
     ca.Some? && ca.value.Of? && Number(ca.value) >= f.height)
  }

  // An accepted block stays below a checkpoint exactly when the guard, asked of its parent, lets it
  // pass.
  lemma StepStaysIff(s: Store, g: Hash, f: Checkpoint, b: Block)
    requires WellFormed(s) && Rooted(s.blocks.Keys, g) && Fits(s, b) && b.header.number > 0
    requires f.hash in s.blocks && f.hash.Of? && Number(f.hash) == f.height
    requires s.head.Some? && IsAncestor(f.hash, s.head.value)
    ensures IsAncestor(f.hash, b.Hash()) <==> Respects(s, f, b)
  {
    StaysBelowIff(s, g, f.hash, s.head.value, b.header.parentHash);
  }

  // ---------- whole histories ----------

  // The store after `n` blocks of a valid history.
  lemma AtHistory(g: Block, bs: seq<Block>, n: nat)
    requires ValidHistory(g, bs) && n <= |bs|
    ensures WellFormed(At(g, bs, n)) && Rooted(At(g, bs, n).blocks.Keys, g.Hash())
    ensures At(g, bs, n).head.Some?
    ensures n < |bs| ==> Fits(At(g, bs, n), bs[n]) && At(g, bs, n + 1) == Appended(At(g, bs, n), bs[n])
  {
    ValidPrefix(g, bs, n);
    HistoryRooted(g, bs[..n]);
    if n < |bs| {
      HistoryStep(g, bs, n);
      assert FitsAt(g, bs, n);
    }
    if n > 0 {
      HistoryStep(g, bs, n - 1);
    }
  }

  // Blocks are never removed.
  lemma {:induction false} BlocksStay(g: Block, bs: seq<Block>, i: nat, j: nat, h: Hash)
    requires i <= j <= |bs| && h in At(g, bs, i).blocks
    ensures h in At(g, bs, j).blocks
    decreases j
  {
    if i < j {
      var k: nat := j - 1;
      BlocksStay(g, bs, i, k, h);
      BlockStays(g, bs, k, h);
    }
  }

  lemma BlockStays(g: Block, bs: seq<Block>, n: nat, h: Hash)
    requires n < |bs| && h in At(g, bs, n).blocks
    ensures h in At(g, bs, n + 1).blocks
  {
    HistoryStep(g, bs, n);
  }

  // The checkpoint set by the `i`-th block is a stored block when the `j`-th is accepted.
  lemma CheckpointStays(g: Block, bs: seq<Block>, i: nat, j: nat)
    requires ValidHistory(g, bs) && i <= j <= |bs| && At(g, bs, i).finalized.Some?
    ensures var f := At(g, bs, i).finalized.value;
            f.hash in At(g, bs, j).blocks && f.hash.Of? && Number(f.hash) == f.height
  {
    AtHistory(g, bs, i);
    BlocksStay(g, bs, i, j, At(g, bs, i).finalized.value.hash);
  }

  ghost predicate Under(f: Option<Checkpoint>, head: Option<Hash>) {
    f.Some? ==> head.Some? && IsAncestor(f.value.hash, head.value)
  }

  // If a block stays below the checkpoint it finds, it is also below the one it leaves.
  lemma NewHeadUnder(s: Store, b: Block)
    requires Closed(Put(s, b).blocks.Keys) && Under(s.finalized, Some(b.Hash()))
    ensures Under(Appended(s, b).finalized, Some(b.Hash()))
  {
    var stored, h := Put(s, b).blocks.Keys, b.Hash();
    if Number(h) >= FINALITY_DEPTH {
      AncestorAtStored(stored, h, Number(h) - FINALITY_DEPTH);
    }
  }

  // The checkpoint after `i` blocks and the head after `j`.
  ghost predicate Kept(g: Block, bs: seq<Block>, i: nat, j: nat)
    requires i <= |bs| && j <= |bs|
  {
    Under(At(g, bs, i).finalized, At(g, bs, j).head)
  }

  // The `j`-th accepted block passes the guard against the checkpoint after `i` blocks.
  predicate Passes(g: Block, bs: seq<Block>, i: nat, j: nat)
    requires i <= |bs| && j < |bs|
  {
    At(g, bs, i).finalized.Some? ==> Respects(At(g, bs, j), At(g, bs, i).finalized.value, bs[j])
  }

  lemma KeptIff(g: Block, bs: seq<Block>, i: nat, j: nat)
    requires ValidHistory(g, bs) && i <= j < |bs| && Kept(g, bs, i, j)
    ensures Kept(g, bs, i, j + 1) <==> Passes(g, bs, i, j)
  {
    AtHistory(g, bs, j);
    if At(g, bs, i).finalized.Some? {
      CheckpointStays(g, bs, i, j);
      StepStaysIff(At(g, bs, j), g.Hash(), At(g, bs, i).finalized.value, bs[j]);
    }
  }

  lemma OwnIsKept(g: Block, bs: seq<Block>, j: nat)
    requires ValidHistory(g, bs) && j < |bs| && Kept(g, bs, j, j + 1)
    ensures Kept(g, bs, j + 1, j + 1)
  {
    HistoryStep(g, bs, j);
    AtHistory(g, bs, j + 1);
    NewHeadUnder(At(g, bs, j), bs[j]);
  }

  lemma {:induction false} PassingKeepsOwn(g: Block, bs: seq<Block>, j: nat)
    requires ValidHistory(g, bs) && j <= |bs|
    requires forall k :: 0 <= k < j ==> Passes(g, bs, k, k)
    ensures Kept(g, bs, j, j)
  {
    if j > 0 {
      PassingKeepsOwn(g, bs, j - 1);
      KeptIff(g, bs, j - 1, j - 1);
      OwnIsKept(g, bs, j - 1);
    }
  }

  ghost predicate AllPass(g: Block, bs: seq<Block>) {
    forall i, j :: 0 <= i <= j < |bs| ==> Passes(g, bs, i, j)
  }

  lemma {:induction false} PassingKeeps(g: Block, bs: seq<Block>, i: nat, j: nat)
    requires ValidHistory(g, bs) && i <= j <= |bs|
    requires AllPass(g, bs)
    ensures Kept(g, bs, i, j)
    decreases j
  {
    if i == j {
      AllPassOwn(g, bs, i);
    } else {
      var k: nat := j - 1;
      PassingKeeps(g, bs, i, k);
      PassingKeepsOnce(g, bs, i, k);
    }
  }

  lemma AllPassOwn(g: Block, bs: seq<Block>, j: nat)
    requires ValidHistory(g, bs) && AllPass(g, bs) && j <= |bs|
    ensures Kept(g, bs, j, j)
  {
    PassingKeepsOwn(g, bs, j);
  }

  lemma PassingKeepsOnce(g: Block, bs: seq<Block>, i: nat, j: nat)
    requires ValidHistory(g, bs) && AllPass(g, bs) && i <= j < |bs| && Kept(g, bs, i, j)
    ensures Kept(g, bs, i, j + 1)
  {
    assert Passes(g, bs, i, j);
    KeptIff(g, bs, i, j);
  }

  // Every block ever finalized is an ancestor of every later head exactly when each accepted block
  // passes the guard, asked of its parent, against every checkpoint set so far.
  lemma EveryCheckpointKeptIff(g: Block, bs: seq<Block>)
    requires ValidHistory(g, bs)
    ensures (forall i, j :: 0 <= i <= j <= |bs| ==> Kept(g, bs, i, j))
       <==> AllPass(g, bs)
  {
    if AllPass(g, bs) {
      forall i, j | 0 <= i <= j <= |bs| ensures Kept(g, bs, i, j) {
        PassingKeeps(g, bs, i, j);
      }
    }
    if forall i, j :: 0 <= i <= j <= |bs| ==> Kept(g, bs, i, j) {
      forall i, j | 0 <= i <= j < |bs| ensures Passes(g, bs, i, j) {
        assert Kept(g, bs, i, j) && Kept(g, bs, i, j + 1);
        KeptIff(g, bs, i, j);
      }
    }
  }

  // The `j`-th accepted block stays below the checkpoint it finds.
  ghost predicate Stays(g: Block, bs: seq<Block>, j: nat)
    requires j < |bs|
  {
    Kept(g, bs, j, j + 1)
  }

  lemma {:induction false} KeepingKeepsOwn(g: Block, bs: seq<Block>, j: nat)
    requires ValidHistory(g, bs) && j <= |bs|
    requires forall k :: 0 <= k < j ==> Stays(g, bs, k)
    ensures Kept(g, bs, j, j)
  {
    if j > 0 {
      assert Stays(g, bs, j - 1);
      OwnIsKept(g, bs, j - 1);
    } else {
      assert At(g, bs, 0) == Genesis(g);
    }
  }

  // No accepted block leaves the checkpoint it finds behind exactly when each one passes the guard,
  // asked of its parent, against that checkpoint.
  lemma NoneEscapesIff(g: Block, bs: seq<Block>)
    requires ValidHistory(g, bs)
    ensures (forall j :: 0 <= j < |bs| ==> Stays(g, bs, j))
       <==> (forall j :: 0 <= j < |bs| ==> Passes(g, bs, j, j))
  {
    if forall j :: 0 <= j < |bs| ==> Passes(g, bs, j, j) {
      forall j | 0 <= j < |bs| ensures Stays(g, bs, j) {
        PassingKeepsOwn(g, bs, j);
        KeptIff(g, bs, j, j);
      }
    }
    if forall j :: 0 <= j < |bs| ==> Stays(g, bs, j) {
      forall j | 0 <= j < |bs| ensures Passes(g, bs, j, j) {
        KeepingKeepsOwn(g, bs, j);
        assert Stays(g, bs, j);
        KeptIff(g, bs, j, j);
      }
    }
  }

  // ---------- two blocks at one height ----------

  // If the height is in use, the block indexed there has the same ancestor 100 below.
  predicate SameDeepLine(s: Store, b: Block) {
    var n: nat := b.header.number;
    n >= FINALITY_DEPTH && n in s.byNumber ==>
      AncestorAt(s.byNumber[n], n - FINALITY_DEPTH) == AncestorAt(b.Hash(), n - FINALITY_DEPTH)
  }

  // The index entry 100 above the checkpoint leads down to it.
  ghost predicate Covers(s: Store, f: Option<Checkpoint>) {
    f.Some? ==>
      && f.value.height + FINALITY_DEPTH in s.byNumber
      && AncestorAt(s.byNumber[f.value.height + FINALITY_DEPTH], f.value.height) == f.value.hash
  }

  lemma StepCovers(s: Store, b: Block, f: Option<Checkpoint>)
    requires Covers(s, f) && SameDeepLine(s, b)
    ensures Covers(Appended(s, b), f)
  {}

  lemma StepCoversOwn(s: Store, b: Block)
    requires Covers(s, s.finalized) && SameDeepLine(s, b)
    ensures Covers(Appended(s, b), Appended(s, b).finalized)
  {
    if b.header.number as nat < FINALITY_DEPTH {
      StepCovers(s, b, s.finalized);
    }
  }

  lemma {:induction false} AllCovered(g: Block, bs: seq<Block>, i: nat, n: nat)
    requires ValidHistory(g, bs) && i <= n <= |bs|
    requires forall j :: 0 <= j < n ==> SameDeepLine(At(g, bs, j), bs[j])
    ensures Covers(At(g, bs, n), At(g, bs, i).finalized)
    decreases n
  {
    if n > 0 {
      AtHistory(g, bs, n - 1);
      assert SameDeepLine(At(g, bs, n - 1), bs[n - 1]);
      if i == n {
        AllCovered(g, bs, n - 1, n - 1);
        StepCoversOwn(At(g, bs, n - 1), bs[n - 1]);
      } else {
        AllCovered(g, bs, i, n - 1);
        StepCovers(At(g, bs, n - 1), bs[n - 1], At(g, bs, i).finalized);
      }
    }
  }

  // The block indexed at `n` is one that was accepted.
  lemma {:induction false} IndexedWasAccepted(g: Block, bs: seq<Block>, j: nat, n: nat) returns (k: nat)
    requires IsGenesis(g) && j <= |bs| && n > 0 && n in At(g, bs, j).byNumber
    ensures k < j && bs[k].Hash() == At(g, bs, j).byNumber[n] && bs[k].header.number as nat == n
    decreases j
  {
    assert j > 0;
    HistoryStep(g, bs, j - 1);
    if bs[j - 1].header.number as nat == n {
      k := j - 1;
    } else {
      k := IndexedWasAccepted(g, bs, j - 1, n);
    }
  }

  ghost predicate NeverTwo(g: Block, bs: seq<Block>) {
    forall i, j :: 0 <= i <= |bs| && 0 <= j <= |bs| ==>
      Agree(At(g, bs, i).finalized, At(g, bs, j).finalized)
  }

  lemma CoveredAgree(s: Store, f: Option<Checkpoint>, h: Option<Checkpoint>)
    requires Covers(s, f) && Covers(s, h)
    ensures Agree(f, h)
  {}

  // The checkpoint a block of number 100 or more sets.
  lemma SetsCheckpoint(g: Block, bs: seq<Block>, k: nat)
    requires k < |bs| && bs[k].header.number as nat >= FINALITY_DEPTH
    ensures var n := bs[k].header.number as nat - FINALITY_DEPTH;
            At(g, bs, k + 1).finalized == Some(Checkpoint(n, AncestorAt(bs[k].Hash(), n)))
  {
    HistoryStep(g, bs, k);
  }

  lemma SameCheckpoints(g: Block, bs: seq<Block>, k: nat, j: nat)
    requires NeverTwo(g, bs) && k < |bs| && j < |bs|
    requires bs[k].header.number == bs[j].header.number && bs[j].header.number as nat >= FINALITY_DEPTH
    ensures var n := bs[j].header.number as nat - FINALITY_DEPTH;
            AncestorAt(bs[k].Hash(), n) == AncestorAt(bs[j].Hash(), n)
  {
    SetsCheckpoint(g, bs, k);
    SetsCheckpoint(g, bs, j);
    assert Agree(At(g, bs, k + 1).finalized, At(g, bs, j + 1).finalized);
  }

  lemma AgreeingIsSame(g: Block, bs: seq<Block>, j: nat)
    requires IsGenesis(g) && NeverTwo(g, bs) && j < |bs|
    ensures SameDeepLine(At(g, bs, j), bs[j])
  {
    var n: nat := bs[j].header.number;
    if n >= FINALITY_DEPTH && n in At(g, bs, j).byNumber {
      var k := IndexedWasAccepted(g, bs, j, n);
      SameCheckpoints(g, bs, k, j);
    }
  }

  // No two different blocks are ever finalized at one height exactly when each accepted block of
  // number 100 or more finds its height unused, or used by a block with the same ancestor 100 below.
  lemma NeverTwoIff(g: Block, bs: seq<Block>)
    requires ValidHistory(g, bs)
    ensures NeverTwo(g, bs) <==> forall j :: 0 <= j < |bs| ==> SameDeepLine(At(g, bs, j), bs[j])
  {
    if forall j :: 0 <= j < |bs| ==> SameDeepLine(At(g, bs, j), bs[j]) {
      forall i, j | 0 <= i <= |bs| && 0 <= j <= |bs|
        ensures Agree(At(g, bs, i).finalized, At(g, bs, j).finalized)
      {
        AllCovered(g, bs, i, |bs|);
        AllCovered(g, bs, j, |bs|);
        CoveredAgree(At(g, bs, |bs|), At(g, bs, i).finalized, At(g, bs, j).finalized);
      }
    }
    if NeverTwo(g, bs) {
      forall j | 0 <= j < |bs| ensures SameDeepLine(At(g, bs, j), bs[j]) {
        AgreeingIsSame(g, bs, j);
      }
    }
  }
}
