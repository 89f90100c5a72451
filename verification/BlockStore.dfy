/** The block store as a value: what each operation does to it. */
module BlockStore {
  import opened Base
  import opened Transactions
  import opened Blocks
  import opened Ancestry

  const FINALITY_DEPTH: nat := 100

  datatype Checkpoint = Checkpoint(height: nat, hash: Hash)

  // One map per database column; the finalized height and hash are written together.
  datatype Store = Store(
    blocks: map<Hash, Block>,
    byNumber: map<nat, Hash>,
    signed: map<(Address, nat), Hash>,
    children: map<Hash, seq<Hash>>,
    head: Option<Hash>,
    finalized: Option<Checkpoint>)

  const EMPTY: Store := Store(map[], map[], map[], map[], None, None)

  function Children(s: Store, parent: Hash): seq<Hash> {
    if parent in s.children then s.children[parent] else []
  }

  function BlockByNumber(s: Store, n: nat): Option<Block> {
    if n in s.byNumber && s.byNumber[n] in s.blocks then Some(s.blocks[s.byNumber[n]]) else None
  }

  // `put_block`.
  function Put(s: Store, b: Block): Store {
    var h, header := b.Hash(), b.header;
    s.(blocks := s.blocks[h := b],
       byNumber := s.byNumber[header.number as nat := h],
       signed := s.signed[(header.validator, header.number as nat) := h],
       children := s.children[header.parentHash := Children(s, header.parentHash) + [h]])
  }

  // ---------- common ancestor ----------

  // The stored hashes met on the way up from `x`.
  function LineOf(s: Store, x: Hash): set<Hash> {
    if x.Zero? || x !in s.blocks then {} else {x} + LineOf(s, x.header.parentHash)
  }

  function FirstIn(s: Store, x: Hash, seen: set<Hash>): Option<Hash> {
    if x.Zero? || x !in s.blocks then None
    else if x in seen then Some(x)
    else FirstIn(s, x.header.parentHash, seen)
  }

  function CommonAncestor(s: Store, a: Hash, b: Hash): Option<Hash> {
    FirstIn(s, b, LineOf(s, a))
  }

  // ---------- finality ----------

  datatype Walk = Found(hash: Hash) | RanOut | Missing

  // Up to `fuel` steps from `x` towards height `target`.
  function WalkTo(s: Store, x: Hash, target: nat, fuel: nat): Walk
    decreases x
  {
    if fuel == 0 then RanOut
    else if x.Zero? || x !in s.blocks then Missing
    else if Number(x) == target then Found(x)
    else WalkTo(s, x.header.parentHash, target, fuel - 1)
  }

  // `update_finalized`.
  function UpdateFinalized(s: Store, head: Hash): (Store, Verdict) {
    if head.Zero? || head !in s.blocks || Number(head) < FINALITY_DEPTH then (s, Pass)
    else
      var target := Number(head) - FINALITY_DEPTH;
      match WalkTo(s, head, target, FINALITY_DEPTH + 1)
      case Found(h) => (s.(finalized := Some(Checkpoint(target, h))), Pass)
      case RanOut => (s, Pass)
      case Missing => (s, Fail(ChainValidation("block not found")))
  }

  // ---------- acceptance ----------

  function ParentFault(s: Store, b: Block, now: U64): Verdict {
    if b.header.number == 0 then Pass
    else
      match BlockByNumber(s, b.header.number - 1)
      case None => Fail(ChainValidation("missing parent"))
      case Some(p) => HeaderFault(b.header, p.header, now)
  }

  // The reorg guard.  The block is not stored yet when its line is followed.
  function ReorgFault(s: Store, b: Block): Verdict {
    if s.head.None? || b.header.parentHash == s.head.value || s.finalized.None? then Pass
    else
      match CommonAncestor(s, s.head.value, b.Hash())
      case None => Pass
      case Some(ca) =>
        if ca.Zero? || ca !in s.blocks then Fail(ChainValidation("common ancestor not found"))
        else if Number(ca) < s.finalized.value.height then
          Fail(ChainValidation("reorg would exceed finality"))
        else Pass
  }

  function SignFault(s: Store, b: Block): Verdict {
    var key := (b.header.validator, b.header.number as nat);
    if key in s.signed && s.signed[key] != b.Hash() then
      Fail(DoubleSign(b.header.validator, b.header.number, s.signed[key], b.Hash()))
    else Pass
  }

  // The checks of `accept_block`, in order.
  function AcceptFault(c: Crypto, s: Store, b: Block, now: U64): Verdict {
    if BlockFault(c, b).Fail? then BlockFault(c, b)
    else if ParentFault(s, b, now).Fail? then ParentFault(s, b, now)
    else if ReorgFault(s, b).Fail? then ReorgFault(s, b)
    else SignFault(s, b)
  }

  // The writes of `accept_block`.
  function Append(s: Store, b: Block): (Store, Verdict) {
    UpdateFinalized(Put(s, b).(head := Some(b.Hash())), b.Hash())
  }

  function Accept(c: Crypto, s: Store, b: Block, now: U64): (Store, Verdict) {
    var fault := AcceptFault(c, s, b, now);
    if fault.Fail? then (s, fault) else Append(s, b)
  }
}
