/** What every accepted block keeps, and what holds in every run of the block store. */
module ChainRuns {
  import opened Base
  import opened Blocks
  import opened Ancestry
  import opened BlockStore

  // ---------- the invariant ----------

  ghost predicate Keyed(s: Store) {
    forall h :: h in s.blocks ==> h.Of? && s.blocks[h].header == h.header
  }

  // Each used height names a stored block of that height, and no stored height is missing.
  ghost predicate NumberIndex(s: Store) {
    && (forall n :: n in s.byNumber ==>
          s.byNumber[n] in s.blocks && s.byNumber[n].Of? && Number(s.byNumber[n]) == n)
    && (forall h :: h in s.blocks && h.Of? ==> Number(h) in s.byNumber)
  }

  // The signed-block index holds exactly the stored blocks.
  ghost predicate SignedIndex(s: Store) {
    && (forall h :: h in s.blocks && h.Of? ==> SignKey(h) in s.signed && s.signed[SignKey(h)] == h)
    && (forall k :: k in s.signed ==>
          s.signed[k] in s.blocks && s.signed[k].Of? && SignKey(s.signed[k]) == k)
  }

  function SignKey(h: Hash): (Address, nat)
    requires h.Of?
  {
    (h.header.validator, h.header.number as nat)
  }

  // As a set, the children of a hash are exactly the stored blocks that name it as parent.
  ghost predicate ChildIndex(s: Store) {
    forall p, h :: h in Children(s, p) <==> h in s.blocks && h.Of? && Parent(h) == p
  }

  ghost predicate HeadStored(s: Store) {
    s.head.Some? ==>
      var h := s.head.value;
      h in s.blocks && h.Of? && Number(h) in s.byNumber && s.byNumber[Number(h)] == h
  }

  ghost predicate FinalizedStored(s: Store) {
    s.finalized.Some? ==>
      var f := s.finalized.value;
      f.hash in s.blocks && f.hash.Of? && Number(f.hash) == f.height
  }

  ghost predicate WellFormed(s: Store) {
    Keyed(s) && Closed(s.blocks.Keys) && NumberIndex(s) && SignedIndex(s) && ChildIndex(s)
    && HeadStored(s) && FinalizedStored(s)
  }

  // ---------- one step ----------

  // The store after a block is appended, in closed form.
  function Appended(s: Store, b: Block): Store {
    Put(s, b).(head := Some(b.Hash()), finalized := CheckpointFor(s, b.Hash()))
  }

  // The checks an accepted block has passed, as far as the indexes are concerned.
  ghost predicate Fits(s: Store, b: Block) {
    var n: nat, h := b.header.number, b.Hash();
    && (n > 0 ==> && n - 1 in s.byNumber && b.header.parentHash == s.byNumber[n - 1]
                  && b.header.parentHash.Of?
                  && b.header.parentHash.header.timestamp < b.header.timestamp)
    && (SignKey(h) in s.signed ==> s.signed[SignKey(h)] == h)
  }

  lemma AcceptedFits(c: Crypto, s: Store, b: Block, now: U64)
    requires WellFormed(s) && AcceptFault(c, s, b, now).Pass?
    ensures Fits(s, b)
  {}

  lemma {:induction false} WalkFinds(s: Store, x: Hash, target: nat, fuel: nat)
    requires Closed(s.blocks.Keys) && x in s.blocks
    requires target <= Number(x) < target + fuel
    ensures WalkTo(s, x, target, fuel) == Found(AncestorAt(x, target))
    decreases fuel
  {
    if Number(x) != target {
      assert Linked(s.blocks.Keys, x);
      WalkFinds(s, x.header.parentHash, target, fuel - 1);
    }
  }

  lemma PutClosed(s: Store, b: Block)
    requires WellFormed(s) && Fits(s, b)
    ensures Closed(Put(s, b).blocks.Keys) && Keyed(Put(s, b))
  {
    var keys := Put(s, b).blocks.Keys;
    forall x | x in keys ensures Linked(keys, x) {
      if x in s.blocks {
        assert Linked(s.blocks.Keys, x);
      }
    }
  }

  function CheckpointFor(s: Store, h: Hash): Option<Checkpoint>
    requires h.Of?
  {
    if Number(h) < FINALITY_DEPTH then s.finalized
    else Some(Checkpoint(Number(h) - FINALITY_DEPTH, AncestorAt(h, Number(h) - FINALITY_DEPTH)))
  }

  // `update_finalized` always finds its ancestor within its 101 iterations.
  lemma UpdateFinalizedFinds(s: Store, h: Hash)
    requires Closed(s.blocks.Keys) && h in s.blocks
    ensures UpdateFinalized(s, h) == (s.(finalized := CheckpointFor(s, h)), Pass)
  {
    if Number(h) >= FINALITY_DEPTH {
      WalkFinds(s, h, Number(h) - FINALITY_DEPTH, FINALITY_DEPTH + 1);
    }
  }

  lemma AppendIsAppended(s: Store, b: Block)
    requires WellFormed(s) && Fits(s, b)
    ensures Append(s, b) == (Appended(s, b), Pass)
  {
    PutClosed(s, b);
    UpdateFinalizedFinds(Put(s, b).(head := Some(b.Hash())), b.Hash());
  }

  lemma PutChildren(s: Store, b: Block)
    requires ChildIndex(s)
    ensures ChildIndex(Put(s, b))
  {
    var t := Put(s, b);
    forall p, h ensures h in Children(t, p) <==> h in t.blocks && h.Of? && Parent(h) == p {
      if p != b.header.parentHash {
        assert Children(t, p) == Children(s, p);
      }
    }
  }

  lemma PutNumbers(s: Store, b: Block)
    requires WellFormed(s) && Fits(s, b)
    ensures NumberIndex(Put(s, b))
  {}

  lemma PutSigned(s: Store, b: Block)
    requires WellFormed(s) && Fits(s, b)
    ensures SignedIndex(Put(s, b))
  {
    var t := Put(s, b);
    assert SignKey(b.Hash()) == (b.header.validator, b.header.number as nat);
    forall h | h in t.blocks && h.Of? ensures SignKey(h) in t.signed && t.signed[SignKey(h)] == h {
      if h != b.Hash() {
        assert h in s.blocks;
      }
    }
  }

  lemma CheckpointStored(s: Store, h: Hash)
    requires Closed(s.blocks.Keys) && h in s.blocks && FinalizedStored(s)
    ensures FinalizedStored(s.(finalized := CheckpointFor(s, h)))
  {
    if Number(h) >= FINALITY_DEPTH {
      AncestorAtStored(s.blocks.Keys, h, Number(h) - FINALITY_DEPTH);
    }
  }

  lemma AppendedWellFormed(s: Store, b: Block)
    requires WellFormed(s) && Fits(s, b)
    ensures WellFormed(Appended(s, b))
  {
    var t, p := Appended(s, b), Put(s, b);
    PutClosed(s, b);
    PutNumbers(s, b);
    PutSigned(s, b);
    PutChildren(s, b);
    assert HeadStored(p.(head := t.head));
    assert FinalizedStored(p.(head := t.head));
    CheckpointStored(p.(head := t.head), b.Hash());
    PointersMoved(p, t);
  }

  // The indexes do not look at the head and the checkpoint.
  lemma PointersMoved(s: Store, t: Store)
    requires t.(head := s.head, finalized := s.finalized) == s
    requires Keyed(s) && Closed(s.blocks.Keys) && NumberIndex(s) && SignedIndex(s) && ChildIndex(s)
    requires HeadStored(t) && FinalizedStored(t)
    ensures WellFormed(t)
  {
    SameChildren(s, t);
  }

  lemma SameChildren(s: Store, t: Store)
    requires ChildIndex(s) && t.children == s.children && t.blocks == s.blocks
    ensures ChildIndex(t)
  {
    forall p, h ensures h in Children(t, p) <==> h in t.blocks && h.Of? && Parent(h) == p {
      assert Children(t, p) == Children(s, p);
    }
  }

  // `accept_block` is all or nothing: an error leaves every index as it was, and success writes
  // the whole closed form.
  lemma AllOrNothing(c: Crypto, s: Store, b: Block, now: U64)
    requires WellFormed(s)
    ensures var (t, v) := Accept(c, s, b, now);
            && (v.Fail? ==> t == s)
            && (v.Pass? ==> t == Appended(s, b) && Fits(s, b))
            && WellFormed(t)
  {
    if AcceptFault(c, s, b, now).Pass? {
      AcceptedFits(c, s, b, now);
      AppendIsAppended(s, b);
      AppendedWellFormed(s, b);
    }
  }

  // ---------- runs ----------

  datatype Step = Step(block: Block, now: U64)

  // `put_block` and `set_head` on an empty store, as the node starts.
  function Genesis(g: Block): Store {
    Put(EMPTY, g).(head := Some(g.Hash()))
  }

  ghost predicate IsGenesis(g: Block) {
    g.header.number == 0 && g.header.parentHash == Zero
  }

  function Run(c: Crypto, s: Store, steps: seq<Step>): Store {
    if steps == [] then s
    else
      var last := steps[|steps| - 1];
      Accept(c, Run(c, s, steps[..|steps| - 1]), last.block, last.now).0
  }

  lemma EmptyWellFormed()
    ensures WellFormed(EMPTY)
  {}

  lemma GenesisWellFormed(g: Block)
    requires IsGenesis(g)
    ensures WellFormed(Genesis(g))
    ensures Rooted(Genesis(g).blocks.Keys, g.Hash())
  {
    EmptyWellFormed();
    AppendedWellFormed(EMPTY, g);
  }

  // The invariant holds in every run, whatever blocks are offered.
  lemma {:induction false} RunWellFormed(c: Crypto, s: Store, steps: seq<Step>)
    requires WellFormed(s)
    ensures WellFormed(Run(c, s, steps))
  {
    if steps != [] {
      var last := steps[|steps| - 1];
      RunWellFormed(c, s, steps[..|steps| - 1]);
      AllOrNothing(c, Run(c, s, steps[..|steps| - 1]), last.block, last.now);
    }
  }

  // No validator ever has two stored blocks at one height, on any fork.
  lemma NoEquivocation(c: Crypto, g: Block, steps: seq<Step>, x: Hash, y: Hash)
    requires IsGenesis(g)
    requires x in Run(c, Genesis(g), steps).blocks && y in Run(c, Genesis(g), steps).blocks
    ensures x.Of? && y.Of?
    ensures SignKey(x) == SignKey(y) ==> x == y
  {
    GenesisWellFormed(g);
    RunWellFormed(c, Genesis(g), steps);
  }

  // ---------- histories ----------

  // The store after the blocks `bs` were appended, in this order, to a genesis.
  function History(g: Block, bs: seq<Block>): Store {
    if bs == [] then Genesis(g)
    else Appended(History(g, bs[..|bs| - 1]), bs[|bs| - 1])
  }

  // Each block of the history passed the checks.
  ghost predicate Fitting(g: Block, bs: seq<Block>) {
    IsGenesis(g) && forall i: nat {:trigger FitsAt(g, bs, i)} :: i < |bs| ==> FitsAt(g, bs, i)
  }

  ghost predicate FitsAt(g: Block, bs: seq<Block>, i: nat)
    requires i < |bs|
  {
    Fits(History(g, bs[..i]), bs[i])
  }

  // No second block of number 0.
  ghost predicate OneGenesis(bs: seq<Block>) {
    forall i :: 0 <= i < |bs| ==> bs[i].header.number > 0
  }

  ghost predicate ValidHistory(g: Block, bs: seq<Block>) {
    Fitting(g, bs) && OneGenesis(bs)
  }

  lemma HistoryStep(g: Block, bs: seq<Block>, i: nat)
    requires i < |bs|
    ensures History(g, bs[..i + 1]) == Appended(History(g, bs[..i]), bs[i])
  {
    assert bs[..i + 1][..i] == bs[..i];
  }

  lemma ValidPrefix(g: Block, bs: seq<Block>, n: nat)
    requires Fitting(g, bs) && n <= |bs|
    ensures Fitting(g, bs[..n]) && (OneGenesis(bs) ==> OneGenesis(bs[..n]))
  {
    forall i: nat | i < n ensures FitsAt(g, bs[..n], i) {
      assert FitsAt(g, bs, i) && bs[..n][..i] == bs[..i];
    }
  }

  lemma {:induction false} HistoryWellFormed(g: Block, bs: seq<Block>)
    requires Fitting(g, bs)
    ensures WellFormed(History(g, bs))
  {
    if bs == [] {
      GenesisWellFormed(g);
    } else {
      var n := |bs| - 1;
      ValidPrefix(g, bs, n);
      HistoryWellFormed(g, bs[..n]);
      assert FitsAt(g, bs, n);
      AppendedWellFormed(History(g, bs[..n]), bs[n]);
    }
  }

  lemma {:induction false} StoredIff(g: Block, bs: seq<Block>, h: Hash)
    ensures h in History(g, bs).blocks
       <==> h == g.Hash() || exists i :: 0 <= i < |bs| && bs[i].Hash() == h
  {
    if bs != [] {
      var n := |bs| - 1;
      StoredIff(g, bs[..n], h);
      assert forall i :: 0 <= i < n ==> bs[..n][i] == bs[i];
    }
  }

  // No block of number 0 but the genesis was accepted.
  ghost predicate NoSecondGenesis(g: Block, bs: seq<Block>) {
    forall i :: 0 <= i < |bs| && bs[i].header.number == 0 ==> bs[i].Hash() == g.Hash()
  }

  // The stored blocks are one tree over the genesis exactly when no other block of number 0 was
  // accepted.
  lemma HistoryRootedIff(g: Block, bs: seq<Block>)
    requires Fitting(g, bs)
    ensures Rooted(History(g, bs).blocks.Keys, g.Hash()) <==> NoSecondGenesis(g, bs)
  {
    var stored := History(g, bs).blocks.Keys;
    HistoryWellFormed(g, bs);
    StoredIff(g, bs, g.Hash());
    if Rooted(stored, g.Hash()) {
      forall i | 0 <= i < |bs| && bs[i].header.number == 0 ensures bs[i].Hash() == g.Hash() {
        StoredIff(g, bs, bs[i].Hash());
      }
    }
    if NoSecondGenesis(g, bs) {
      forall x | x in stored && Number(x) == 0 ensures x == g.Hash() {
        StoredIff(g, bs, x);
      }
    }
  }

  lemma HistoryRooted(g: Block, bs: seq<Block>)
    requires ValidHistory(g, bs)
    ensures WellFormed(History(g, bs))
    ensures Rooted(History(g, bs).blocks.Keys, g.Hash())
  {
    HistoryWellFormed(g, bs);
    HistoryRootedIff(g, bs);
  }

  // The blocks a run accepts.
  function AcceptedBlocks(c: Crypto, g: Block, steps: seq<Step>): seq<Block> {
    if steps == [] then []
    else
      var n := |steps| - 1;
      AcceptedBlocks(c, g, steps[..n]) +
      if AcceptFault(c, Run(c, Genesis(g), steps[..n]), steps[n].block, steps[n].now).Pass?
      then [steps[n].block] else []
  }

  ghost predicate AboveGenesis(steps: seq<Step>) {
    forall i :: 0 <= i < |steps| ==> steps[i].block.header.number > 0
  }

  lemma HistoryGrows(g: Block, bs: seq<Block>, b: Block)
    requires Fitting(g, bs) && Fits(History(g, bs), b)
    ensures Fitting(g, bs + [b])
    ensures OneGenesis(bs) && b.header.number > 0 ==> OneGenesis(bs + [b])
    ensures History(g, bs + [b]) == Appended(History(g, bs), b)
  {
    var more := bs + [b];
    assert more[..|bs|] == bs;
    forall i: nat | i < |more| ensures FitsAt(g, more, i) {
      if i < |bs| {
        assert FitsAt(g, bs, i) && more[..i] == bs[..i];
      }
    }
  }

  lemma OfferedBlock(c: Crypto, g: Block, bs: seq<Block>, b: Block, now: U64)
    requires Fitting(g, bs)
    ensures var s := History(g, bs);
            var more := bs + if AcceptFault(c, s, b, now).Pass? then [b] else [];
            && Fitting(g, more) && Accept(c, s, b, now).0 == History(g, more)
            && (OneGenesis(bs) && b.header.number > 0 ==> OneGenesis(more))
  {
    var s := History(g, bs);
    HistoryWellFormed(g, bs);
    AllOrNothing(c, s, b, now);
    if AcceptFault(c, s, b, now).Pass? {
      AcceptedFits(c, s, b, now);
      HistoryGrows(g, bs, b);
      AppendIsAppended(s, b);
    } else {
      assert bs + [] == bs;
    }
  }

  // Every run of `accept_block` leaves exactly the history of the blocks it accepted; so what
  // holds of all valid histories holds of all runs above the genesis, at every point.
  lemma {:induction false} RunIsHistory(c: Crypto, g: Block, steps: seq<Step>)
    requires IsGenesis(g)
    ensures Fitting(g, AcceptedBlocks(c, g, steps))
    ensures AboveGenesis(steps) ==> ValidHistory(g, AcceptedBlocks(c, g, steps))
    ensures Run(c, Genesis(g), steps) == History(g, AcceptedBlocks(c, g, steps))
  {
    if steps != [] {
      var n := |steps| - 1;
      RunIsHistory(c, g, steps[..n]);
      OfferedBlock(c, g, AcceptedBlocks(c, g, steps[..n]), steps[n].block, steps[n].now);
    }
  }

  // What decides about a block that is not stored yet.  The reorg guard has no say: it follows
  // the line of a hash that the store does not hold.
  lemma NewBlockAcceptedIff(c: Crypto, s: Store, b: Block, now: U64)
    requires WellFormed(s) && b.Hash() !in s.blocks
    ensures AcceptFault(c, s, b, now).Pass?
       <==> (&& BlockFault(c, b).Pass?
             && SignKey(b.Hash()) !in s.signed
             && (b.header.number > 0 ==> ExtendsIndex(s, b, now)))
  {
    assert ReorgFault(s, b).Pass?;
    if SignKey(b.Hash()) in s.signed {
      assert s.signed[SignKey(b.Hash())] != b.Hash();
    }
  }

  // The parent is the indexed block one below, and the timestamp lies between the two bounds.
  ghost predicate ExtendsIndex(s: Store, b: Block, now: U64)
    requires b.header.number > 0
  {
    var n := b.header.number as nat - 1;
    && n in s.byNumber && s.byNumber[n] == b.header.parentHash && b.header.parentHash.Of?
    && b.header.parentHash.header.timestamp < b.header.timestamp <= Latest(now)
  }

  // The same with the bound written out.
  lemma ExtendsIndexIs(s: Store, b: Block, now: U64)
    requires b.header.number > 0 && now + 3 < TWO64
    ensures ExtendsIndex(s, b, now)
       <==> (&& b.header.number as nat - 1 in s.byNumber
             && s.byNumber[b.header.number as nat - 1] == b.header.parentHash && b.header.parentHash.Of?
             && b.header.parentHash.header.timestamp < b.header.timestamp <= now + 3)
  {
    LatestIs(now);
  }

  // Three seconds, to the second: a new block above number 0 is accepted exactly when it is sound,
  // extends the indexed block below it, and is stamped after that and at most three seconds ahead.
  lemma TimeBoundIff(c: Crypto, s: Store, b: Block, now: U64)
    requires WellFormed(s) && b.Hash() !in s.blocks && b.header.number > 0 && now + 3 < TWO64
    ensures Accept(c, s, b, now).1.Pass?
       <==> (&& BlockFault(c, b).Pass? && SignKey(b.Hash()) !in s.signed
             && var n := b.header.number as nat - 1;
                n in s.byNumber && s.byNumber[n] == b.header.parentHash && b.header.parentHash.Of?
                && b.header.parentHash.header.timestamp < b.header.timestamp <= now + 3)
  {
    NewBlockAcceptedIff(c, s, b, now);
    ExtendsIndexIs(s, b, now);
    AcceptedPasses(c, s, b, now);
  }

  // `accept_block` succeeds when its checks do, and reports the first that fails.
  lemma AcceptedPasses(c: Crypto, s: Store, b: Block, now: U64)
    requires WellFormed(s)
    ensures Accept(c, s, b, now).1.Pass? <==> AcceptFault(c, s, b, now).Pass?
    ensures AcceptFault(c, s, b, now).Fail? ==> Accept(c, s, b, now).1 == AcceptFault(c, s, b, now)
  {
    if AcceptFault(c, s, b, now).Pass? {
      AcceptedFits(c, s, b, now);
      AppendIsAppended(s, b);
    }
  }

  // A double sign is reported exactly for a sound block in time whose validator has signed another
  // one at that height, and it names both.
  lemma DoubleSignIff(c: Crypto, s: Store, b: Block, now: U64)
    requires WellFormed(s)
    ensures var v := Accept(c, s, b, now).1;
            (v.Fail? && v.error.DoubleSign?)
            <==> (&& BlockFault(c, b).Pass? && (b.header.number > 0 ==> ExtendsIndex(s, b, now))
                  && ReorgFault(s, b).Pass?
                  && (exists h :: h in s.blocks && h.Of? && h != b.Hash()
                        && h.header.validator == b.header.validator
                        && h.header.number == b.header.number))
    ensures var v := Accept(c, s, b, now).1;
            v.Fail? && v.error.DoubleSign? ==>
              && v.error.validator == b.header.validator && v.error.height == b.header.number
              && v.error.secondBlock == b.Hash() && v.error.firstBlock in s.blocks
              && v.error.firstBlock != b.Hash()
  {
    AcceptedPasses(c, s, b, now);
    BlockFaultKind(c, b);
    ParentFaultKind(s, b, now);
    SignedElsewhereIff(s, b);
  }

  // A fault of the parent is no double sign, and there is none exactly when the block extends the
  // index in time.
  lemma ParentFaultKind(s: Store, b: Block, now: U64)
    requires WellFormed(s)
    ensures ParentFault(s, b, now).Fail? ==> !ParentFault(s, b, now).error.DoubleSign?
    ensures ParentFault(s, b, now).Pass? <==> (b.header.number > 0 ==> ExtendsIndex(s, b, now))
    ensures ReorgFault(s, b).Fail? ==> !ReorgFault(s, b).error.DoubleSign?
  {}

  lemma SignedElsewhereIff(s: Store, b: Block)
    requires SignedIndex(s)
    ensures SignFault(s, b).Fail?
       <==> exists h :: h in s.blocks && h.Of? && h != b.Hash()
              && h.header.validator == b.header.validator && h.header.number == b.header.number
    ensures SignFault(s, b).Fail? ==> SignFault(s, b).error.DoubleSign?
  {
    var key := SignKey(b.Hash());
    assert key == (b.header.validator, b.header.number as nat);
    if key in s.signed && s.signed[key] != b.Hash() {
      var h := s.signed[key];
      assert h in s.blocks && SignKey(h) == key;
    }
    if h :| h in s.blocks && h.Of? && h != b.Hash() && h.header.validator == b.header.validator
            && h.header.number == b.header.number
    {
      assert SignKey(h) == key && s.signed[SignKey(h)] == h;
    }
  }

  lemma BlockFaultKind(c: Crypto, b: Block)
    ensures BlockFault(c, b).Fail? ==> !BlockFault(c, b).error.DoubleSign?
  {
    SenderFaultKind(Senders(c, b.transactions), {});
  }

  lemma {:induction false} SenderFaultKind(senders: seq<Option<Address>>, seen: set<Address>)
    ensures SenderFault(senders, seen).Fail? ==> !SenderFault(senders, seen).error.DoubleSign?
  {
    if senders != [] && senders[0].Some? {
      SenderFaultKind(senders[1..], seen + {senders[0].value});
    }
  }

  // What acceptance does to the checkpoint: from number 100 on it becomes the accepted block's
  // ancestor 100 below, and under that it stays.
  lemma FinalizesHundredBelow(c: Crypto, s: Store, b: Block, now: U64)
    requires WellFormed(s) && Accept(c, s, b, now).1.Pass?
    ensures var t := Accept(c, s, b, now).0;
            && (b.header.number < 100 ==> t.finalized == s.finalized)
            && (b.header.number >= 100 ==>
                  && t.finalized.Some? && t.finalized.value.height == b.header.number as nat - 100
                  && t.finalized.value.hash in t.blocks && t.finalized.value.hash.Of?
                  && Number(t.finalized.value.hash) == b.header.number as nat - 100
                  && IsAncestor(t.finalized.value.hash, b.Hash()))
  {
    AllOrNothing(c, s, b, now);
    AcceptedPasses(c, s, b, now);
    PutClosed(s, b);
    if b.header.number >= 100 {
      CheckpointIs(Appended(s, b), b);
    }
  }

  lemma CheckpointIs(t: Store, b: Block)
    requires Closed(t.blocks.Keys) && b.Hash() in t.blocks && b.header.number >= 100
    ensures var f := CheckpointFor(t, b.Hash()).value;
            && f.height == b.header.number as nat - 100 && f.hash in t.blocks && f.hash.Of?
            && Number(f.hash) == f.height && IsAncestor(f.hash, b.Hash())
  {
    AncestorAtStored(t.blocks.Keys, b.Hash(), b.header.number as nat - 100);
  }

  // A second block of number 0 is accepted too, whatever parent it names: it is judged by its
  // transactions and by the signed-block index alone.
  lemma SecondGenesisIff(c: Crypto, s: Store, b: Block, now: U64)
    requires WellFormed(s) && b.header.number == 0 && b.Hash() !in s.blocks
    ensures Accept(c, s, b, now).1.Pass?
       <==> BlockFault(c, b).Pass? && (b.header.validator, 0) !in s.signed
  {
    NewBlockAcceptedIff(c, s, b, now);
    AllOrNothing(c, s, b, now);
  }
}
