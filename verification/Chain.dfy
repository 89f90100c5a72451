/** `ChainDB` and the functions that work on it. */
module Chain {
  import opened Base
  import opened Transactions
  import opened Blocks
  import opened Ancestry
  import opened BlockStore
  import opened StateStore

  class ChainDB {
    var blocks: map<Hash, Block>
    var byNumber: map<nat, Hash>
    var signed: map<(Address, nat), Hash>
    var children: map<Hash, seq<Hash>>
    var head: Option<Hash>
    var finalized: Option<Checkpoint>

    function Contents(): Store
      reads this
    {
      Store(blocks, byNumber, signed, children, head, finalized)
    }

    // Every block is stored under its own hash.
    ghost predicate Valid()
      reads this
    {
      forall h :: h in blocks ==> h.Of? && h.header == blocks[h].header
    }

    constructor ()
      ensures Valid() && Contents() == EMPTY
    {
      blocks, byNumber, signed, children, head, finalized := map[], map[], map[], map[], None, None;
    }

    method PutBlock(b: Block)
      requires Valid()
      modifies this
      ensures Valid() && Contents() == Put(old(Contents()), b)
    {
      var hash := b.Hash();
      blocks := blocks[hash := b];
      byNumber := byNumber[b.header.number as nat := hash];
      signed := signed[(b.header.validator, b.header.number as nat) := hash];
      var existing := GetChildren(b.header.parentHash);
      children := children[b.header.parentHash := existing + [hash]];
    }

    method GetChildren(parent: Hash) returns (hashes: seq<Hash>)
      ensures hashes == Children(Contents(), parent)
    {
      hashes := if parent in children then children[parent] else [];
    }

    method GetBlock(hash: Hash) returns (b: Option<Block>)
      ensures b == if hash in blocks then Some(blocks[hash]) else None
    {
      b := if hash in blocks then Some(blocks[hash]) else None;
    }

    method GetBlockByNumber(n: nat) returns (b: Option<Block>)
      ensures b == BlockByNumber(Contents(), n)
    {
      if n !in byNumber {
        return None;
      }
      b := GetBlock(byNumber[n]);
    }

    method SetHead(hash: Hash)
      modifies `head
      ensures Contents() == old(Contents()).(head := Some(hash))
    {
      head := Some(hash);
    }

    method UpdateFinalized(headHash: Hash) returns (v: Verdict)
      requires Valid()
      modifies `finalized
      ensures Valid() && (Contents(), v) == BlockStore.UpdateFinalized(old(Contents()), headHash)
    {
      var block := GetBlock(headHash);
      if block.None? {
        return Pass;
      }
      var number: nat := block.value.header.number;
      if number < FINALITY_DEPTH {
        return Pass;
      }
      var target := number - FINALITY_DEPTH;
      var current := headHash;
      ghost var s := Contents();
      for i := 0 to FINALITY_DEPTH + 1
        invariant Contents() == s
        invariant WalkTo(s, headHash, target, FINALITY_DEPTH + 1) ==
                  WalkTo(s, current, target, FINALITY_DEPTH + 1 - i)
      {
        var b := GetBlock(current);
        if b.None? {
          return Fail(ChainValidation("block not found"));
        }
        if b.value.header.number == target {
          finalized := Some(Checkpoint(target, current));
          return Pass;
        }
        current := b.value.header.parentHash;
      }
      v := Pass;
    }
  }

  // `fork::common_ancestor`.
  method CommonAncestor(chain: ChainDB, a: Hash, b: Hash) returns (r: Option<Hash>)
    requires chain.Valid()
    ensures r == BlockStore.CommonAncestor(chain.Contents(), a, b)
  {
    ghost var s := chain.Contents();
    var seen: set<Hash> := {};
    var current := a;
    while current in chain.blocks
      invariant seen + LineOf(s, current) == LineOf(s, a)
      decreases current
    {
      seen := seen + {current};
      current := chain.blocks[current].header.parentHash;
      if current == Zero {
        break;
      }
    }
    assert seen == LineOf(s, a);
    current := b;
    while current in chain.blocks
      invariant FirstIn(s, current, seen) == FirstIn(s, b, seen)
      decreases current
    {
      if current in seen {
        return Some(current);
      }
      current := chain.blocks[current].header.parentHash;
      if current == Zero {
        break;
      }
    }
    r := None;
  }

  // The reorg guard of `accept_block`.
  method CheckReorg(chain: ChainDB, b: Block) returns (v: Verdict)
    requires chain.Valid()
    ensures v == ReorgFault(chain.Contents(), b)
  {
    if chain.head.Some? && b.header.parentHash != chain.head.value && chain.finalized.Some? {
      var common := CommonAncestor(chain, chain.head.value, b.Hash());
      if common.Some? {
        var block := chain.GetBlock(common.value);
        if block.None? {
          return Fail(ChainValidation("common ancestor not found"));
        }
        if block.value.header.number < chain.finalized.value.height {
          return Fail(ChainValidation("reorg would exceed finality"));
        }
      }
    }
    v := Pass;
  }

  // `accept_block`.
  method AcceptBlock(c: Crypto, chain: ChainDB, state: StateDB, b: Block, now: U64)
    returns (v: Verdict)
    requires chain.Valid()
    modifies chain, state`roots
    ensures chain.Valid()
    ensures (chain.Contents(), v) == Accept(c, old(chain.Contents()), b, now)
    ensures state.roots ==
            if v.Pass? then old(state.roots)[b.Hash() := b.header.stateRoot] else old(state.roots)
  {
    v := ValidateBlock(c, b);
    if v.Fail? {
      return;
    }
    if b.header.number > 0 {
      var parent := chain.GetBlockByNumber(b.header.number - 1);
      if parent.None? {
        return Fail(ChainValidation("missing parent"));
      }
      v := HeaderFault(b.header, parent.value.header, now);
      if v.Fail? {
        return;
      }
    }
    v := CheckReorg(chain, b);
    if v.Fail? {
      return;
    }
    var key := (b.header.validator, b.header.number as nat);
    if key in chain.signed && chain.signed[key] != b.Hash() {
      return Fail(DoubleSign(b.header.validator, b.header.number, chain.signed[key], b.Hash()));
    }
    assert AcceptFault(c, chain.Contents(), b, now).Pass?;
    chain.PutBlock(b);
    chain.SetHead(b.Hash());
    v := chain.UpdateFinalized(b.Hash());
    if v.Pass? {
      state.SaveStateRoot(b.Hash(), b.header.stateRoot);
    }
  }
}
