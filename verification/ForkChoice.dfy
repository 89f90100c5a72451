/** Common ancestors and reorganisations in the stored tree. */
module ForkChoice {
  import opened Base
  import opened Blocks
  import opened Ancestry
  import opened BlockStore
  import opened ChainRuns
  import opened Chain

  // ---------- common ancestor ----------

  lemma {:induction false} LineIsAncestors(s: Store, g: Hash, x: Hash)
    requires Rooted(s.blocks.Keys, g) && x in s.blocks
    ensures forall y :: y in LineOf(s, x) <==> y in s.blocks && IsAncestor(y, x)
    decreases x
  {
    assert Linked(s.blocks.Keys, x);
    if Number(x) > 0 {
      LineIsAncestors(s, g, Parent(x));
    }
  }

  // The first stored hash on the way up that was seen is the deepest one.
  lemma {:induction false} FirstInIsDeepest(s: Store, g: Hash, x: Hash, seen: set<Hash>)
    requires Rooted(s.blocks.Keys, g) && x in s.blocks && g in seen
    ensures FirstIn(s, x, seen).Some?
    ensures var r := FirstIn(s, x, seen).value;
            && r in s.blocks && r in seen && IsAncestor(r, x)
            && forall y :: y in seen && IsAncestor(y, x) ==> IsAncestor(y, r)
    decreases x
  {
    if x !in seen {
      assert Linked(s.blocks.Keys, x);
      FirstInIsDeepest(s, g, Parent(x), seen);
    }
  }

  // `r` is a stored ancestor of both, and every common ancestor is an ancestor of `r`.
  ghost predicate DeepestCommon(s: Store, r: Hash, a: Hash, b: Hash) {
    && r in s.blocks && IsAncestor(r, a) && IsAncestor(r, b)
    && forall y :: y != Zero && IsAncestor(y, a) && IsAncestor(y, b) ==> IsAncestor(y, r)
  }

  // Any two stored blocks of a one-genesis tree have a common ancestor, and it is the deepest.
  lemma CommonAncestorIsDeepest(s: Store, g: Hash, a: Hash, b: Hash)
    requires Rooted(s.blocks.Keys, g) && a in s.blocks && b in s.blocks
    ensures BlockStore.CommonAncestor(s, a, b).Some?
    ensures DeepestCommon(s, BlockStore.CommonAncestor(s, a, b).value, a, b)
  {
    LineIsAncestors(s, g, a);
    RootIsAncestor(s.blocks.Keys, g, a);
    FirstInIsDeepest(s, g, b, LineOf(s, a));
    var r := BlockStore.CommonAncestor(s, a, b).value;
    forall y | y != Zero && IsAncestor(y, a) && IsAncestor(y, b) ensures IsAncestor(y, r) {
      AncestorStored(s.blocks.Keys, g, y, a);
    }
  }

  lemma DeepestIsUnique(s: Store, p: Hash, q: Hash, a: Hash, b: Hash)
    requires DeepestCommon(s, p, a, b) && DeepestCommon(s, q, b, a)
    requires p.Of? && q.Of?
    ensures p == q
  {
    AncestorAntisym(p, q);
  }

  lemma CommonAncestorSymmetric(s: Store, g: Hash, a: Hash, b: Hash)
    requires Rooted(s.blocks.Keys, g) && a in s.blocks && b in s.blocks
    ensures BlockStore.CommonAncestor(s, a, b) == BlockStore.CommonAncestor(s, b, a)
  {
    CommonAncestorIsDeepest(s, g, a, b);
    CommonAncestorIsDeepest(s, g, b, a);
    DeepestIsUnique(s, BlockStore.CommonAncestor(s, a, b).value,
                    BlockStore.CommonAncestor(s, b, a).value, a, b);
  }

  // There is one exactly when both blocks are stored.
  lemma CommonAncestorIff(s: Store, g: Hash, a: Hash, b: Hash)
    requires Rooted(s.blocks.Keys, g)
    ensures BlockStore.CommonAncestor(s, a, b).Some? <==> a in s.blocks && b in s.blocks
  {
    if a in s.blocks && b in s.blocks {
      CommonAncestorIsDeepest(s, g, a, b);
    } else if a !in s.blocks {
      NothingSeen(s, b);
    }
  }

  lemma {:induction false} NothingSeen(s: Store, x: Hash)
    ensures FirstIn(s, x, {}) == None
    decreases x
  {
    if x.Of? && x in s.blocks {
      NothingSeen(s, x.header.parentHash);
    }
  }

  // What the reorg guard rejects: stored blocks only, and of those the ones whose common
  // ancestor with the head lies below the checkpoint.
  lemma ReorgGuardIff(s: Store, g: Hash, b: Block)
    requires WellFormed(s) && Rooted(s.blocks.Keys, g) && s.head.Some? && s.finalized.Some?
    requires b.header.parentHash != s.head.value
    ensures ReorgFault(s, b).Fail?
       <==> (&& b.Hash() in s.blocks
             && var ca := BlockStore.CommonAncestor(s, s.head.value, b.Hash());
                ca.Some? && ca.value.Of? && Number(ca.value) < s.finalized.value.height)
  {
    var head := s.head.value;
    CommonAncestorIff(s, g, head, b.Hash());
    if b.Hash() in s.blocks {
      CommonAncestorIsDeepest(s, g, head, b.Hash());
    }
  }

  // What decides about a block that is stored already: its signer is no hindrance, the guard may be.
  lemma StoredBlockAcceptedIff(c: Crypto, s: Store, g: Hash, b: Block, now: U64)
    requires WellFormed(s) && Rooted(s.blocks.Keys, g) && b.Hash() in s.blocks
    ensures AcceptFault(c, s, b, now).Pass?
       <==> (&& BlockFault(c, b).Pass?
             && (b.header.number > 0 ==> ExtendsIndex(s, b, now))
             && (s.head.Some? && s.finalized.Some? && b.header.parentHash != s.head.value ==>
                   var ca := BlockStore.CommonAncestor(s, s.head.value, b.Hash());
                   ca.Some? && ca.value.Of? && Number(ca.value) >= s.finalized.value.height))
  {
    if s.head.Some? && s.finalized.Some? && b.header.parentHash != s.head.value {
      CommonAncestorIsDeepest(s, g, s.head.value, b.Hash());
      ReorgGuardIff(s, g, b);
    }
  }

  // A stored block stamped more than three seconds ahead is refused, whatever else holds of it.
  lemma StoredInTime(c: Crypto, s: Store, g: Hash, b: Block, now: U64)
    requires WellFormed(s) && Rooted(s.blocks.Keys, g) && b.Hash() in s.blocks
    requires b.header.number > 0 && now + 3 < TWO64 && AcceptFault(c, s, b, now).Pass?
    ensures b.header.parentHash.Of?
    ensures b.header.parentHash.header.timestamp < b.header.timestamp <= now + 3
  {
    StoredBlockAcceptedIff(c, s, g, b, now);
    ExtendsIndexIs(s, b, now);
  }

  // ---------- reorganisation ----------

  // The hashes from `x` upwards, short of `stop`.
  function Path(x: Hash, stop: Hash): seq<Hash> {
    if x == stop || x.Zero? then [] else [x] + Path(x.header.parentHash, stop)
  }

  function Reverse<T>(xs: seq<T>): (r: seq<T>)
    ensures |r| == |xs|
    ensures forall i :: 0 <= i < |xs| ==> r[i] == xs[|xs| - 1 - i]
  {
    seq(|xs|, i requires 0 <= i < |xs| => xs[|xs| - 1 - i])
  }

  type Reorg = (seq<Hash>, seq<Hash>)

  function Reorganisation(s: Store, oldHead: Hash, newHead: Hash): Result<Reorg, CoreError> {
    match BlockStore.CommonAncestor(s, oldHead, newHead)
    case None => Err(ChainValidation("no common ancestor"))
    case Some(ca) => Ok((Path(oldHead, ca), Reverse(Path(newHead, ca))))
  }

  lemma {:induction false} FirstInIsSeen(s: Store, x: Hash, seen: set<Hash>)
    requires FirstIn(s, x, seen).Some?
    ensures FirstIn(s, x, seen).value in seen && FirstIn(s, x, seen).value in s.blocks
    decreases x
  {
    if x !in seen {
      FirstInIsSeen(s, x.header.parentHash, seen);
    }
  }

  // `fork::reorg_blocks`.  Every block on either path is found, in any store.
  method ReorgBlocks(chain: ChainDB, oldHead: Hash, newHead: Hash)
    returns (r: Result<Reorg, CoreError>)
    requires chain.Valid()
    ensures r == Reorganisation(chain.Contents(), oldHead, newHead)
  {
    ghost var s := chain.Contents();
    var common := Chain.CommonAncestor(chain, oldHead, newHead);
    if common.None? {
      return Err(ChainValidation("no common ancestor"));
    }
    var ca := common.value;
    FirstInIsSeen(s, newHead, LineOf(s, oldHead));
    var toRevert: seq<Hash> := [];
    var current := oldHead;
    while current != ca
      invariant ca in LineOf(s, current)
      invariant toRevert + Path(current, ca) == Path(oldHead, ca)
      decreases current
    {
      toRevert := toRevert + [current];
      var block := chain.GetBlock(current);
      if block.None? {
        return Err(ChainValidation("block not found"));
      }
      current := block.value.header.parentHash;
    }
    var stack: seq<Hash> := [];
    current := newHead;
    while current != ca
      invariant FirstIn(s, current, LineOf(s, oldHead)) == Some(ca)
      invariant stack + Path(current, ca) == Path(newHead, ca)
      decreases current
    {
      stack := stack + [current];
      var block := chain.GetBlock(current);
      if block.None? {
        return Err(ChainValidation("block not found"));
      }
      current := block.value.header.parentHash;
    }
    assert toRevert == Path(oldHead, ca) && stack == Path(newHead, ca);
    r := Ok((toRevert, Reverse(stack)));
  }

  // Takes the listed blocks off the head one by one; nothing if one is not the head.
  function Undo(head: Hash, revert: seq<Hash>): Option<Hash> {
    if revert == [] then Some(head)
    else if head.Zero? || revert[0] != head then None
    else Undo(head.header.parentHash, revert[1..])
  }

  // Puts the listed blocks on the head one by one; nothing if one does not extend it.
  function Redo(head: Hash, apply: seq<Hash>): Option<Hash>
    decreases |apply|
  {
    if apply == [] then Some(head)
    else if apply[0].Zero? || apply[0].header.parentHash != head then None
    else Redo(apply[0], apply[1..])
  }

  lemma {:induction false} UndoPath(x: Hash, stop: Hash)
    requires stop != Zero && IsAncestor(stop, x)
    ensures Undo(x, Path(x, stop)) == Some(stop)
    decreases x
  {
    if x != stop {
      UndoPath(x.header.parentHash, stop);
      assert Path(x, stop)[1..] == Path(x.header.parentHash, stop);
    }
  }

  lemma {:induction false} RedoSnoc(head: Hash, apply: seq<Hash>, x: Hash)
    requires x.Of? && Redo(head, apply) == Some(x.header.parentHash)
    ensures Redo(head, apply + [x]) == Some(x)
    decreases |apply|
  {
    if apply == [] {
      assert apply + [x] == [x];
    } else {
      assert (apply + [x])[1..] == apply[1..] + [x];
      RedoSnoc(apply[0], apply[1..], x);
    }
  }

  lemma {:induction false} RedoPath(x: Hash, stop: Hash)
    requires stop != Zero && IsAncestor(stop, x)
    ensures Redo(stop, Reverse(Path(x, stop))) == Some(x)
    decreases x
  {
    if x == stop {
      assert Reverse(Path(x, stop)) == [];
    } else {
      var up := Path(x.header.parentHash, stop);
      RedoPath(x.header.parentHash, stop);
      RedoSnoc(stop, Reverse(up), x);
      assert Reverse([x] + up) == Reverse(up) + [x];
    }
  }

  lemma {:induction false} PathMembers(x: Hash, stop: Hash)
    requires stop != Zero && IsAncestor(stop, x)
    ensures forall y :: y in Path(x, stop) <==> IsAncestor(stop, y) && IsAncestor(y, x) && y != stop
    decreases x
  {
    if x == stop {
      forall y | IsAncestor(stop, y) && IsAncestor(y, x) ensures y == stop {
        AncestorAntisym(stop, y);
      }
    } else {
      PathMembers(x.header.parentHash, stop);
      forall y | IsAncestor(y, x) && y == x ensures IsAncestor(stop, y) {}
    }
  }

  lemma {:induction false} PathLength(stored: set<Hash>, g: Hash, x: Hash, stop: Hash)
    requires Rooted(stored, g) && x in stored && stop in stored && IsAncestor(stop, x)
    ensures Number(stop) <= Number(x) && |Path(x, stop)| == Number(x) - Number(stop)
    decreases x
  {
    if x != stop {
      assert Linked(stored, x);
      AncestorStored(stored, g, stop, x);
      if Number(x) > 0 {
        PathLength(stored, g, x.header.parentHash, stop);
      }
    }
  }

  // The two paths lead from the old head to the new one and meet only at the common ancestor.
  lemma ReorgLeadsAcross(s: Store, g: Hash, oldHead: Hash, newHead: Hash)
    requires Rooted(s.blocks.Keys, g) && oldHead in s.blocks && newHead in s.blocks
    ensures BlockStore.CommonAncestor(s, oldHead, newHead).Some?
    ensures Reorganisation(s, oldHead, newHead).Ok?
    ensures var ca := BlockStore.CommonAncestor(s, oldHead, newHead).value;
            var (revert, apply) := Reorganisation(s, oldHead, newHead).value;
            && ca.Of? && Undo(oldHead, revert) == Some(ca) && Redo(ca, apply) == Some(newHead)
            && |revert| == Number(oldHead) - Number(ca) && |apply| == Number(newHead) - Number(ca)
            && ca !in revert && ca !in apply
            && (forall y :: y in revert ==> y !in apply)
  {
    CommonAncestorIsDeepest(s, g, oldHead, newHead);
    var ca := BlockStore.CommonAncestor(s, oldHead, newHead).value;
    var (revert, apply) := Reorganisation(s, oldHead, newHead).value;
    UndoPath(oldHead, ca);
    RedoPath(newHead, ca);
    PathLength(s.blocks.Keys, g, oldHead, ca);
    PathLength(s.blocks.Keys, g, newHead, ca);
    PathMembers(oldHead, ca);
    PathMembers(newHead, ca);
    ReverseMembers(Path(newHead, ca));
    forall y | y in revert && y in apply ensures false {
      AncestorAntisym(y, ca);
    }
  }

  lemma ReverseMembers<T>(xs: seq<T>)
    ensures forall x :: x in Reverse(xs) <==> x in xs
  {
    forall x | x in xs ensures x in Reverse(xs) {
      var i :| 0 <= i < |xs| && xs[i] == x;
      assert Reverse(xs)[|xs| - 1 - i] == x;
    }
  }

  // Swapping the heads swaps the two lists and turns each around.
  lemma ReorgSwapped(s: Store, g: Hash, oldHead: Hash, newHead: Hash)
    requires Rooted(s.blocks.Keys, g) && oldHead in s.blocks && newHead in s.blocks
    ensures Reorganisation(s, oldHead, newHead).Ok? && Reorganisation(s, newHead, oldHead).Ok?
    ensures var (revert, apply) := Reorganisation(s, oldHead, newHead).value;
            Reorganisation(s, newHead, oldHead).value == (Reverse(apply), Reverse(revert))
  {
    CommonAncestorIsDeepest(s, g, oldHead, newHead);
    CommonAncestorSymmetric(s, g, oldHead, newHead);
    var ca := BlockStore.CommonAncestor(s, oldHead, newHead).value;
    assert Reverse(Reverse(Path(newHead, ca))) == Path(newHead, ca);
  }
}
