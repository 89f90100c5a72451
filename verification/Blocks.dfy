/** Blocks, block hashes and the checks on a block that need no chain. */
module Blocks {
  import opened Base
  import opened Transactions
  import Rlp

  /** A block hash, idealised as the header it was computed from: two headers share a hash only
      if they are equal, and no header hashes to zero. */
  datatype Hash = Zero | Of(header: Header)

  // A header without extra data; every header the node builds has none.
  datatype Header = Header(
    parentHash: Hash, stateRoot: U256, transactionsRoot: U256, receiptsRoot: U256,
    timestamp: U64, number: U64, validator: Address, signature: seq<Byte>,
    gasLimit: U64, baseFeePerGas: U256)

  datatype Block = Block(header: Header, transactions: seq<SignedTransaction>) {
    function Hash(): Hash {
      Of(header)
    }
  }

  datatype CoreError =
    | InvalidBlock(reason: string)
    | InvalidTransaction(reason: string)
    | ChainValidation(reason: string)
    | DoubleSign(validator: Address, height: U64, firstBlock: Hash, secondBlock: Hash)

  datatype Verdict = Pass | Fail(error: CoreError)

  // ---------- the transactions root ----------

  function HashBytes(c: Crypto, txs: seq<SignedTransaction>): seq<Byte> {
    if txs == [] then [] else HashBytes(c, txs[..|txs| - 1]) + Rlp.ToBE(TxHash(c, txs[|txs| - 1]), 32)
  }

  function TransactionsRoot(c: Crypto, txs: seq<SignedTransaction>): U256 {
    if txs == [] then 0 else c.sha256(HashBytes(c, txs))
  }

  method ComputeTransactionsRoot(c: Crypto, txs: seq<SignedTransaction>) returns (root: U256)
    ensures root == TransactionsRoot(c, txs)
  {
    if txs == [] {
      return 0;
    }
    var hasher: seq<Byte> := [];
    for i := 0 to |txs|
      invariant hasher == HashBytes(c, txs[..i])
    {
      var hash := Transactions.Hash(c, txs[i]);
      hasher := hasher + Rlp.ToBE(hash, 32);
      assert txs[..i + 1][..i] == txs[..i];
    }
    assert txs[..|txs|] == txs;
    root := c.sha256(hasher);
  }

  function Hashes(c: Crypto, txs: seq<SignedTransaction>): (hashes: seq<U256>)
    ensures |hashes| == |txs|
    ensures forall i :: 0 <= i < |txs| ==> hashes[i] == TxHash(c, txs[i])
  {
    seq(|txs|, i requires 0 <= i < |txs| => TxHash(c, txs[i]))
  }

  lemma {:induction false} HashBytesSize(c: Crypto, txs: seq<SignedTransaction>)
    ensures |HashBytes(c, txs)| == 32 * |txs|
  {
    if txs != [] {
      HashBytesSize(c, txs[..|txs| - 1]);
    }
  }

  lemma WordInjective(m: U256, n: U256)
    requires Rlp.ToBE(m, 32) == Rlp.ToBE(n, 32)
    ensures m == n
  {
    Rlp.Powers();
    Rlp.FromToBE(m, 32);
    Rlp.FromToBE(n, 32);
  }

  // The bytes behind a transactions root fix the transaction hashes, their number and their order,
  // and nothing else.
  lemma {:induction false} RootPreimageIff(c: Crypto, xs: seq<SignedTransaction>, ys: seq<SignedTransaction>)
    ensures HashBytes(c, xs) == HashBytes(c, ys) <==> Hashes(c, xs) == Hashes(c, ys)
  {
    HashBytesSize(c, xs);
    HashBytesSize(c, ys);
    if |xs| == |ys| && xs != [] {
      var n := |xs| - 1;
      var p, q := xs[..n], ys[..n];
      HashBytesSize(c, p);
      HashBytesSize(c, q);
      RootPreimageIff(c, p, q);
      assert Hashes(c, xs) == Hashes(c, p) + [TxHash(c, xs[n])];
      assert Hashes(c, ys) == Hashes(c, q) + [TxHash(c, ys[n])];
      SplitEqual(HashBytes(c, p), Rlp.ToBE(TxHash(c, xs[n]), 32),
                 HashBytes(c, q), Rlp.ToBE(TxHash(c, ys[n]), 32));
      SplitEqual(Hashes(c, p), [TxHash(c, xs[n])], Hashes(c, q), [TxHash(c, ys[n])]);
      if Rlp.ToBE(TxHash(c, xs[n]), 32) == Rlp.ToBE(TxHash(c, ys[n]), 32) {
        WordInjective(TxHash(c, xs[n]), TxHash(c, ys[n]));
      }
    }
  }

  // Where each transaction hash stands among the bytes.
  lemma {:induction false} HashBytesAt(c: Crypto, txs: seq<SignedTransaction>, i: nat)
    requires i < |txs|
    ensures |HashBytes(c, txs)| == 32 * |txs|
    ensures HashBytes(c, txs)[32 * i..32 * i + 32] == Rlp.ToBE(TxHash(c, txs[i]), 32)
  {
    HashBytesSize(c, txs);
    var n := |txs| - 1;
    HashBytesSize(c, txs[..n]);
    if i < n {
      HashBytesAt(c, txs[..n], i);
      assert HashBytes(c, txs)[32 * i..32 * i + 32] == HashBytes(c, txs[..n])[32 * i..32 * i + 32];
    }
  }

  // The root is zero without transactions, and otherwise the digest of their hashes, one after
  // another in block order.
  lemma RootIs(c: Crypto, txs: seq<SignedTransaction>) returns (bytes: seq<Byte>)
    ensures TransactionsRoot(c, txs) == if txs == [] then 0 else c.sha256(bytes)
    ensures |bytes| == 32 * |txs|
    ensures forall i :: 0 <= i < |txs| ==> bytes[32 * i..32 * i + 32] == Rlp.ToBE(TxHash(c, txs[i]), 32)
  {
    bytes := HashBytes(c, txs);
    HashBytesSize(c, txs);
    forall i | 0 <= i < |txs|
      ensures bytes[32 * i..32 * i + 32] == Rlp.ToBE(TxHash(c, txs[i]), 32)
    {
      HashBytesAt(c, txs, i);
    }
  }

  // The root commits to every transaction hash: two bodies have one root under all hash functions
  // exactly when their transaction hashes are the same, in number and order.
  lemma RootCommitsIff(c: Crypto, xs: seq<SignedTransaction>, ys: seq<SignedTransaction>)
    ensures (forall h: seq<Byte> -> U256 ::
               TransactionsRoot(c.(sha256 := h), xs) == TransactionsRoot(c.(sha256 := h), ys))
       <==> Hashes(c, xs) == Hashes(c, ys)
  {
    RootPreimageIff(c, xs, ys);
    if Hashes(c, xs) == Hashes(c, ys) {
      assert |Hashes(c, xs)| == |xs| && |Hashes(c, ys)| == |ys|;
      forall h: seq<Byte> -> U256
        ensures TransactionsRoot(c.(sha256 := h), xs) == TransactionsRoot(c.(sha256 := h), ys)
      {
        SameBytes(c, h, xs);
        SameBytes(c, h, ys);
      }
    } else {
      var h := TellApart(c, xs, ys);
    }
  }

  // The bytes do not depend on the hash function of the root.
  lemma {:induction false} SameBytes(c: Crypto, h: seq<Byte> -> U256, xs: seq<SignedTransaction>)
    ensures HashBytes(c.(sha256 := h), xs) == HashBytes(c, xs)
  {
    if xs != [] {
      SameBytes(c, h, xs[..|xs| - 1]);
    }
  }

  lemma TellApart(c: Crypto, xs: seq<SignedTransaction>, ys: seq<SignedTransaction>)
    returns (h: seq<Byte> -> U256)
    requires Hashes(c, xs) != Hashes(c, ys)
    ensures TransactionsRoot(c.(sha256 := h), xs) != TransactionsRoot(c.(sha256 := h), ys)
  {
    RootPreimageIff(c, xs, ys);
    var bytes := HashBytes(c, xs);
    h := (b: seq<Byte>) => if b == bytes then 1 else 2;
    SameBytes(c, h, xs);
    SameBytes(c, h, ys);
  }

  // Under some hash function a header made for one body is refused with any body of other
  // transaction hashes.
  lemma ExchangedBodyIsRefused(c: Crypto, header: Header, xs: seq<SignedTransaction>,
                               ys: seq<SignedTransaction>)
    returns (h: seq<Byte> -> U256)
    requires Hashes(c, xs) != Hashes(c, ys)
    ensures var k := c.(sha256 := h);
            BlockFault(k, Block(header.(transactionsRoot := TransactionsRoot(k, xs)), ys)).Fail?
  {
    h := TellApart(c, xs, ys);
  }

  lemma SplitEqual<T>(a: seq<T>, b: seq<T>, x: seq<T>, y: seq<T>)
    requires |a| == |x|
    ensures a + b == x + y <==> a == x && b == y
  {
    assert (a + b)[..|a|] == a && (a + b)[|a|..] == b;
    assert (x + y)[..|x|] == x && (x + y)[|x|..] == y;
  }

  // ---------- validate_block ----------

  function Senders(c: Crypto, txs: seq<SignedTransaction>): (senders: seq<Option<Address>>)
    ensures |senders| == |txs|
    ensures forall i :: 0 <= i < |txs| ==> senders[i] == Sender(c, txs[i])
  {
    seq(|txs|, i requires 0 <= i < |txs| => Sender(c, txs[i]))
  }

  // Every sender is recovered and no sender occurs twice.
  ghost predicate Distinct(senders: seq<Option<Address>>) {
    && (forall i :: 0 <= i < |senders| ==> senders[i].Some?)
    && (forall i, j :: 0 <= i < j < |senders| ==> senders[i] != senders[j])
  }

  // The first fault among the senders, in block order.
  function SenderFault(senders: seq<Option<Address>>, seen: set<Address>): Verdict {
    if senders == [] then Pass
    else
      match senders[0]
      case None => Fail(InvalidTransaction("invalid signature"))
      case Some(a) =>
        if a in seen then Fail(InvalidBlock("duplicate sender in block"))
        else SenderFault(senders[1..], seen + {a})
  }

  function BlockFault(c: Crypto, b: Block): Verdict {
    if TransactionsRoot(c, b.transactions) != b.header.transactionsRoot then
      Fail(InvalidBlock("transactions_root mismatch"))
    else SenderFault(Senders(c, b.transactions), {})
  }

  method ValidateBlock(c: Crypto, b: Block) returns (v: Verdict)
    ensures v == BlockFault(c, b)
  {
    var root := ComputeTransactionsRoot(c, b.transactions);
    if root != b.header.transactionsRoot {
      return Fail(InvalidBlock("transactions_root mismatch"));
    }
    ghost var senders := Senders(c, b.transactions);
    var seen: set<Address> := {};
    for i := 0 to |b.transactions|
      invariant SenderFault(senders, {}) == SenderFault(senders[i..], seen)
    {
      assert senders[i..][1..] == senders[i + 1..];
      var sender := Sender(c, b.transactions[i]);
      assert senders[i..][0] == sender;
      if sender.None? {
        return Fail(InvalidTransaction("invalid signature"));
      }
      if sender.value in seen {
        return Fail(InvalidBlock("duplicate sender in block"));
      }
      seen := seen + {sender.value};
    }
    v := Pass;
  }

  lemma {:induction false} SenderFaultIff(senders: seq<Option<Address>>, seen: set<Address>)
    ensures SenderFault(senders, seen).Pass?
       <==> (&& Distinct(senders)
             && forall i :: 0 <= i < |senders| ==> senders[i].value !in seen)
  {
    if senders != [] && senders[0].Some? && senders[0].value !in seen {
      var rest := senders[1..];
      SenderFaultIff(rest, seen + {senders[0].value});
      assert forall i :: 0 <= i < |rest| ==> rest[i] == senders[i + 1];
      assert senders == [senders[0]] + rest;
    }
  }

  // A block passes exactly when its root matches and its senders are recovered and distinct.
  lemma BlockFaultIff(c: Crypto, b: Block)
    ensures BlockFault(c, b).Pass?
       <==> (&& TransactionsRoot(c, b.transactions) == b.header.transactionsRoot
             && Distinct(Senders(c, b.transactions)))
  {
    SenderFaultIff(Senders(c, b.transactions), {});
  }

  // ---------- validate_block_header ----------

  const BLOCK_TIME_SECS: int := 3

  // `current_timestamp + BLOCK_TIME_SECS`, in wrapping 64-bit arithmetic.
  function Latest(now: U64): U64 {
    (now + BLOCK_TIME_SECS) % TWO64
  }

  // Three seconds, short of the end of time.
  lemma LatestIs(now: U64)
    requires now + 3 < TWO64
    ensures Latest(now) == now + 3
  {}

  function HeaderFault(h: Header, parent: Header, now: U64): Verdict {
    if h.parentHash != Of(parent) then Fail(InvalidBlock("parent_hash mismatch"))
    else if h.number != parent.number + 1 then Fail(InvalidBlock("block number not parent+1"))
    else if h.timestamp <= parent.timestamp then
      Fail(InvalidBlock("timestamp not strictly after parent"))
    else if h.timestamp > Latest(now) then Fail(InvalidBlock("timestamp too far in future"))
    else Pass
  }
}

/** Ancestry of block hashes.  A hash determines its header and so its whole line of ancestors. */
module Ancestry {
  import opened Base
  import opened Blocks

  function Parent(x: Hash): Hash
    requires x.Of?
  {
    x.header.parentHash
  }

  function Number(x: Hash): nat
    requires x.Of?
  {
    x.header.number
  }

  // `a` is `x` or lies on `x`'s line of parents.
  predicate IsAncestor(a: Hash, x: Hash) {
    a == x || (x.Of? && IsAncestor(a, x.header.parentHash))
  }

  // The first hash on `x`'s line whose number is at most `n`.
  function AncestorAt(x: Hash, n: nat): Hash {
    if x.Zero? || x.header.number <= n then x else AncestorAt(x.header.parentHash, n)
  }

  function Length(x: Hash): nat {
    if x.Zero? then 0 else 1 + Length(x.header.parentHash)
  }

  // Every stored block above number 0 has a stored, earlier parent one number below.
  ghost predicate Closed(stored: set<Hash>) {
    && (forall x :: x in stored ==> x.Of?)
    && (forall x {:trigger Linked(stored, x)} :: x in stored ==> Linked(stored, x))
  }

  ghost predicate Linked(stored: set<Hash>, x: Hash) {
    x.Of? && Number(x) > 0 ==>
      && Parent(x) in stored && Parent(x).Of?
      && Number(Parent(x)) + 1 == Number(x)
      && Parent(x).header.timestamp < x.header.timestamp
  }

  // One stored block has number 0, and its parent hash is zero.
  ghost predicate Rooted(stored: set<Hash>, g: Hash) {
    && Closed(stored) && g in stored
    && Number(g) == 0 && Parent(g) == Zero
    && forall x :: x in stored && Number(x) == 0 ==> x == g
  }

  lemma {:induction false} AncestorLength(a: Hash, x: Hash)
    requires IsAncestor(a, x)
    ensures Length(a) <= Length(x)
    ensures Length(a) == Length(x) ==> a == x
  {
    if a != x {
      AncestorLength(a, x.header.parentHash);
    }
  }

  lemma {:induction false} AncestorTrans(a: Hash, b: Hash, x: Hash)
    requires IsAncestor(a, b) && IsAncestor(b, x)
    ensures IsAncestor(a, x)
    decreases x
  {
    if b != x {
      AncestorTrans(a, b, x.header.parentHash);
    }
  }

  lemma AncestorAntisym(a: Hash, b: Hash)
    requires IsAncestor(a, b) && IsAncestor(b, a)
    ensures a == b
  {
    AncestorLength(a, b);
    AncestorLength(b, a);
  }

  // Two ancestors of one hash lie on one line.
  lemma {:induction false} AncestorsComparable(a: Hash, b: Hash, x: Hash)
    requires IsAncestor(a, x) && IsAncestor(b, x)
    ensures IsAncestor(a, b) || IsAncestor(b, a)
    decreases x
  {
    if a != x && b != x {
      AncestorsComparable(a, b, x.header.parentHash);
    }
  }

  lemma {:induction false} AncestorStored(stored: set<Hash>, g: Hash, a: Hash, x: Hash)
    requires Rooted(stored, g) && x in stored && IsAncestor(a, x) && a != Zero
    ensures a in stored && Number(a) <= Number(x)
    ensures Number(a) == Number(x) ==> a == x
    decreases x
  {
    if a != x {
      assert Linked(stored, x);
      if Number(x) == 0 {
        assert false;
      } else {
        AncestorStored(stored, g, a, x.header.parentHash);
      }
    }
  }

  // In a closed store the ancestor at height `n` exists and has that height.
  lemma {:induction false} AncestorAtStored(stored: set<Hash>, x: Hash, n: nat)
    requires Closed(stored) && x in stored && n <= Number(x)
    ensures AncestorAt(x, n) in stored
    ensures Number(AncestorAt(x, n)) == n
    ensures IsAncestor(AncestorAt(x, n), x)
    decreases x
  {
    if Number(x) > n {
      assert Linked(stored, x);
      AncestorAtStored(stored, x.header.parentHash, n);
    }
  }

  // It is the only ancestor at that height.
  lemma {:induction false} AncestorAtUnique(stored: set<Hash>, g: Hash, a: Hash, x: Hash)
    requires Rooted(stored, g) && x in stored && a.Of? && IsAncestor(a, x)
    ensures a == AncestorAt(x, Number(a))
    decreases x
  {
    AncestorStored(stored, g, a, x);
    if a != x {
      assert Linked(stored, x);
      AncestorAtUnique(stored, g, a, x.header.parentHash);
    }
  }

  lemma {:induction false} AncestorAtCompose(stored: set<Hash>, x: Hash, m: nat, n: nat)
    requires Closed(stored) && x in stored && n <= m <= Number(x)
    ensures AncestorAt(AncestorAt(x, m), n) == AncestorAt(x, n)
    decreases x
  {
    if Number(x) > m {
      assert Linked(stored, x);
      AncestorAtCompose(stored, x.header.parentHash, m, n);
    }
  }

  // Every stored block descends from the root.
  lemma RootIsAncestor(stored: set<Hash>, g: Hash, x: Hash)
    requires Rooted(stored, g) && x in stored
    ensures IsAncestor(g, x) && AncestorAt(x, 0) == g
  {
    AncestorAtStored(stored, x, 0);
  }
}
