/** Finality over whole runs: when the checkpoint only moves forward, and when it does not. */
module Finality {
  import opened Base
  import opened Blocks
  import opened Ancestry
  import opened BlockStore
  import opened ChainRuns

  // The check under which the checkpoint only moves forward: no block of number 100 or more may be
  // lower than a stored one, that is, the next height must still be free.  It lets blocks below 100
  // pass, which may leave the checkpoint behind.
  predicate Guard(s: Store, b: Block) {
    b.header.number as nat < FINALITY_DEPTH || b.header.number as nat + 1 !in s.byNumber
  }

  // The later checkpoint is no lower and descends from the earlier one.
  ghost predicate Extends(early: Store, late: Store) {
    early.finalized.Some? ==>
      && late.finalized.Some?
      && early.finalized.value.height <= late.finalized.value.height
      && IsAncestor(early.finalized.value.hash, late.finalized.value.hash)
  }

  ghost predicate NotLower(early: Store, late: Store) {
    early.finalized.Some? ==>
      late.finalized.Some? && early.finalized.value.height <= late.finalized.value.height
  }

  // Two checkpoints at one height are one and the same.
  ghost predicate Agree(f: Option<Checkpoint>, h: Option<Checkpoint>) {
    f.Some? && h.Some? && f.value.height == h.value.height ==> f == h
  }

  // ---------- the used heights form an interval ----------

  ghost predicate IsTop(s: Store, top: nat) {
    forall n: nat :: n in s.byNumber <==> n <= top
  }

  // The new top after a block is appended.
  function NewTop(top: nat, b: Block): nat {
    if b.header.number as nat > top then b.header.number else top
  }

  lemma TopAfter(s: Store, b: Block, top: nat)
    requires IsTop(s, top) && Fits(s, b)
    ensures IsTop(Appended(s, b), NewTop(top, b))
    ensures b.header.number as nat <= top + 1
  {}

  // ---------- checkpoints of neighbouring blocks ----------

  // Moving up one block moves the ancestor `d` below it up one block, on the same line.
  lemma NextCheckpoint(stored: set<Hash>, prev: Hash, h: Hash, d: nat)
    requires Closed(stored) && prev in stored && h in stored
    requires Number(h) == Number(prev) + 1 && Parent(h) == prev && Number(prev) >= d > 0
    ensures IsAncestor(AncestorAt(prev, Number(prev) - d), AncestorAt(h, Number(h) - d))
  {
    var n := Number(prev) - d;
    AncestorAtCompose(stored, h, n + 1, n);
    AncestorAtStored(stored, h, n + 1);
    AncestorAtStored(stored, AncestorAt(h, n + 1), n);
    assert AncestorAt(h, n) == AncestorAt(prev, n);
  }

  // Siblings have the same ancestor `d` below; at height `d` itself that is the root.
  lemma SiblingCheckpoint(stored: set<Hash>, g: Hash, prev: Hash, h: Hash, d: nat)
    requires Rooted(stored, g) && prev in stored && h in stored
    requires Number(h) == Number(prev) >= d > 0
    requires Number(h) > d ==> Parent(h) == Parent(prev)
    ensures AncestorAt(prev, Number(prev) - d) == AncestorAt(h, Number(h) - d)
  {
    if Number(h) == d {
      RootIsAncestor(stored, g, prev);
      RootIsAncestor(stored, g, h);
    }
  }

  // ---------- the invariant of guarded histories ----------

  // The checkpoint lies 100 below the top, on the line of the block last accepted there; and
  // the top two index entries are linked.
  ghost predicate Settled(s: Store, top: nat) {
    && IsTop(s, top)
    && s.byNumber[top] in s.blocks && s.byNumber[top].Of? && Number(s.byNumber[top]) == top
    && (if top < FINALITY_DEPTH then s.finalized.None?
        else s.finalized == CheckpointFor(s, s.byNumber[top]))
    && (top > FINALITY_DEPTH ==> Parent(s.byNumber[top]) == s.byNumber[top - 1])
  }

  // The checkpoints of the last block at the top and of one accepted at or just above it.
  lemma NeighbourCheckpoints(stored: set<Hash>, g: Hash, prev: Hash, h: Hash)
    requires Rooted(stored, g) && prev in stored && h in stored
    requires Number(prev) >= FINALITY_DEPTH
    requires || (Number(h) == Number(prev) + 1 && Parent(h) == prev)
             || (Number(h) == Number(prev)
                 && (Number(h) > FINALITY_DEPTH ==> Parent(h) == Parent(prev)))
    ensures IsAncestor(AncestorAt(prev, Number(prev) - FINALITY_DEPTH),
                       AncestorAt(h, Number(h) - FINALITY_DEPTH))
  {
    if Number(h) == Number(prev) {
      SiblingCheckpoint(stored, g, prev, h, FINALITY_DEPTH);
    } else {
      NextCheckpoint(stored, prev, h, FINALITY_DEPTH);
    }
  }

  // A block accepted under the guard is a child or a sibling of the block last accepted at the top.
  lemma GuardedIsNeighbour(s: Store, top: nat, b: Block)
    requires Settled(s, top) && Fits(s, b) && Guard(s, b)
    requires b.header.number as nat >= FINALITY_DEPTH && top >= FINALITY_DEPTH
    ensures var h, prev := b.Hash(), s.byNumber[top];
            || (Number(h) == top + 1 && Parent(h) == prev)
            || (Number(h) == top && (top > FINALITY_DEPTH ==> Parent(h) == Parent(prev)))
  {
    TopAfter(s, b, top);
    assert b.header.number as nat == top || b.header.number as nat == top + 1;
  }

  // A guarded step moves the checkpoint forward along one line.
  lemma GuardedStepExtends(s: Store, g: Hash, top: nat, b: Block)
    requires Settled(s, top) && Fits(s, b) && b.header.number > 0 && Guard(s, b)
    requires Rooted(Appended(s, b).blocks.Keys, g)
    ensures Extends(s, Appended(s, b))
  {
    if b.header.number as nat >= FINALITY_DEPTH && top >= FINALITY_DEPTH {
      GuardedIsNeighbour(s, top, b);
      var stored := Appended(s, b).blocks.Keys;
      assert s.byNumber[top] in stored && b.Hash() in stored;
      NeighbourCheckpoints(stored, g, s.byNumber[top], b.Hash());
    }
  }

  lemma GuardedStepSettles(s: Store, top: nat, b: Block)
    requires Settled(s, top) && Fits(s, b) && b.header.number > 0 && Guard(s, b)
    ensures Settled(Appended(s, b), NewTop(top, b))
  {
    TopAfter(s, b, top);
  }

  // An accepted block that fails the guard lowers the finalized height at once.
  lemma UnguardedStepFalls(s: Store, top: nat, b: Block)
    requires Settled(s, top) && !Guard(s, b)
    ensures !NotLower(s, Appended(s, b))
  {}

  // ---------- whole histories ----------

  function At(g: Block, bs: seq<Block>, i: nat): Store
    requires i <= |bs|
  {
    History(g, bs[..i])
  }

  // The first `n` accepted blocks passed the guard.
  ghost predicate Guarded(g: Block, bs: seq<Block>, n: nat)
    requires n <= |bs|
  {
    forall i :: 0 <= i < n ==> Guard(At(g, bs, i), bs[i])
  }

  ghost predicate HeightNeverFalls(g: Block, bs: seq<Block>) {
    forall i, j :: 0 <= i <= j <= |bs| ==> NotLower(At(g, bs, i), At(g, bs, j))
  }

  lemma GuardedSnoc(g: Block, bs: seq<Block>, n: nat)
    requires n < |bs| && Guarded(g, bs, n) && Guard(At(g, bs, n), bs[n])
    ensures Guarded(g, bs, n + 1)
  {}

  // Where a guarded history has got to after `n` blocks.
  lemma {:induction false} GuardedSettles(g: Block, bs: seq<Block>, n: nat) returns (top: nat)
    requires ValidHistory(g, bs) && n <= |bs| && Guarded(g, bs, n)
    ensures Settled(At(g, bs, n), top)
  {
    if n == 0 {
      top := 0;
    } else {
      var t := GuardedSettles(g, bs, n - 1);
      HistoryStep(g, bs, n - 1);
      assert FitsAt(g, bs, n - 1);
      GuardedStepSettles(At(g, bs, n - 1), t, bs[n - 1]);
      top := NewTop(t, bs[n - 1]);
    }
  }

  // Finality of guarded histories: every earlier checkpoint is an ancestor of every later one.
  lemma {:induction false} GuardedExtends(g: Block, bs: seq<Block>, i: nat, j: nat)
    requires ValidHistory(g, bs) && i <= j <= |bs| && Guarded(g, bs, |bs|)
    ensures Extends(At(g, bs, i), At(g, bs, j))
    decreases j - i
  {
    if i < j {
      GuardedExtends(g, bs, i, j - 1);
      var top := GuardedSettles(g, bs, j - 1);
      HistoryStep(g, bs, j - 1);
      assert FitsAt(g, bs, j - 1);
      ValidPrefix(g, bs, j);
      HistoryRooted(g, bs[..j]);
      var a, b, d := At(g, bs, i), At(g, bs, j - 1), At(g, bs, j);
      GuardedStepExtends(b, g.Hash(), top, bs[j - 1]);
      if a.finalized.Some? {
        AncestorTrans(a.finalized.value.hash, b.finalized.value.hash, d.finalized.value.hash);
      }
    }
  }

  // In a guarded history no two different blocks are ever finalized at one height.
  lemma GuardedAgrees(g: Block, bs: seq<Block>, i: nat, j: nat)
    requires ValidHistory(g, bs) && i <= j <= |bs| && Guarded(g, bs, |bs|)
    ensures Agree(At(g, bs, i).finalized, At(g, bs, j).finalized)
  {
    GuardedExtends(g, bs, i, j);
    var a, b := At(g, bs, i).finalized, At(g, bs, j).finalized;
    if a.Some? && b.Some? && a.value.height == b.value.height {
      StoredCheckpoint(g, bs, i);
      StoredCheckpoint(g, bs, j);
      AncestorStored(At(g, bs, j).blocks.Keys, g.Hash(), a.value.hash, b.value.hash);
    }
  }

  lemma StoredCheckpoint(g: Block, bs: seq<Block>, i: nat)
    requires ValidHistory(g, bs) && i <= |bs|
    ensures Rooted(At(g, bs, i).blocks.Keys, g.Hash())
    ensures FinalizedStored(At(g, bs, i))
  {
    ValidPrefix(g, bs, i);
    HistoryRooted(g, bs[..i]);
  }

  // The finalized height never falls exactly when every accepted block passes the guard.
  lemma HeightNeverFallsIff(g: Block, bs: seq<Block>)
    requires ValidHistory(g, bs)
    ensures HeightNeverFalls(g, bs) <==> Guarded(g, bs, |bs|)
  {
    if Guarded(g, bs, |bs|) {
      forall i, j | 0 <= i <= j <= |bs| ensures NotLower(At(g, bs, i), At(g, bs, j)) {
        GuardedExtends(g, bs, i, j);
      }
    }
    if HeightNeverFalls(g, bs) {
      MonotoneIsGuarded(g, bs, |bs|);
    }
  }

  lemma {:induction false} MonotoneIsGuarded(g: Block, bs: seq<Block>, n: nat)
    requires ValidHistory(g, bs) && n <= |bs| && HeightNeverFalls(g, bs)
    ensures Guarded(g, bs, n)
  {
    if n > 0 {
      MonotoneIsGuarded(g, bs, n - 1);
      var top := GuardedSettles(g, bs, n - 1);
      HistoryStep(g, bs, n - 1);
      assert NotLower(At(g, bs, n - 1), At(g, bs, n));
      if !Guard(At(g, bs, n - 1), bs[n - 1]) {
        UnguardedStepFalls(At(g, bs, n - 1), top, bs[n - 1]);
      }
      GuardedSnoc(g, bs, n - 1);
    }
  }

  // ---------- histories whose head never falls ----------

  // No accepted block is numbered below the head it is offered to.
  ghost predicate HeadNeverFalls(g: Block, bs: seq<Block>) {
    forall i :: 0 <= i < |bs| ==> NotBelowHead(At(g, bs, i), bs[i])
  }

  ghost predicate NotBelowHead(s: Store, b: Block) {
    s.head.Some? && s.head.value.Of? && Number(s.head.value) <= b.header.number as nat
  }

  lemma HeadStep(s: Store, top: nat, b: Block)
    requires Settled(s, top) && Fits(s, b) && NotBelowHead(s, b)
    requires s.head == Some(s.byNumber[top])
    ensures Guard(s, b)
    ensures Appended(s, b).head == Some(b.Hash()) && NewTop(top, b) == b.header.number
  {
    TopAfter(s, b, top);
  }

  // Such a history passes the guard, and its head is the top of the index.
  lemma {:induction false} HeadIsTop(g: Block, bs: seq<Block>, n: nat) returns (top: nat)
    requires ValidHistory(g, bs) && n <= |bs| && HeadNeverFalls(g, bs)
    ensures Guarded(g, bs, n)
    ensures Settled(At(g, bs, n), top)
    ensures At(g, bs, n).head == Some(At(g, bs, n).byNumber[top])
  {
    if n == 0 {
      top := 0;
    } else {
      var t := HeadIsTop(g, bs, n - 1);
      var s, b := At(g, bs, n - 1), bs[n - 1];
      HistoryStep(g, bs, n - 1);
      assert FitsAt(g, bs, n - 1);
      assert NotBelowHead(s, b);
      HeadStep(s, t, b);
      GuardedSnoc(g, bs, n - 1);
      GuardedStepSettles(s, t, b);
      top := b.header.number;
    }
  }

  lemma CheckpointUnderTop(s: Store, top: nat)
    requires Settled(s, top) && s.finalized.Some? && Closed(s.blocks.Keys)
    ensures IsAncestor(s.finalized.value.hash, s.byNumber[top])
  {
    AncestorAtStored(s.blocks.Keys, s.byNumber[top], top - FINALITY_DEPTH);
  }

  // Then every block ever finalized is an ancestor of every later head.
  lemma FinalizedUnderHead(g: Block, bs: seq<Block>, i: nat, j: nat)
    requires ValidHistory(g, bs) && i <= j <= |bs| && HeadNeverFalls(g, bs)
    requires At(g, bs, i).finalized.Some?
    ensures At(g, bs, j).head.Some?
    ensures IsAncestor(At(g, bs, i).finalized.value.hash, At(g, bs, j).head.value)
  {
    var a, s := At(g, bs, i), At(g, bs, j);
    var _ := HeadIsTop(g, bs, |bs|);
    GuardedExtends(g, bs, i, j);
    var top := HeadIsTop(g, bs, j);
    StoredCheckpoint(g, bs, j);
    CheckpointUnderTop(s, top);
    AncestorTrans(a.finalized.value.hash, s.finalized.value.hash, s.byNumber[top]);
  }
}
