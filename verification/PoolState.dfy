/** The mempool as a value: two maps over one set of transactions. */
module PoolState {
  import opened Base
  import opened Sums
  import opened Transactions

  const MAX_NONCE_GAP: nat := 10

  // The sender and hash of a transaction, for any signature scheme and hash function.
  datatype View = View(sender: SignedTransaction -> Option<Address>, hash: SignedTransaction -> U256)

  function CryptoView(c: Crypto): View {
    View(tx => Sender(c, tx), tx => TxHash(c, tx))
  }

  // The pool identifies transactions by recovered sender and transaction hash.
  lemma CryptoViewIs(c: Crypto, tx: SignedTransaction)
    ensures CryptoView(c).sender(tx) == Sender(c, tx) && CryptoView(c).hash(tx) == TxHash(c, tx)
  {}

  // One sender's transactions by nonce.
  type Slots = map<U64, SignedTransaction>

  datatype Pool = Pool(bySender: map<Address, Slots>, byHash: map<U256, (Address, U64)>)

  const EMPTY: Pool := Pool(map[], map[])

  predicate Pooled(p: Pool, a: Address, n: U64) {
    a in p.bySender && n in p.bySender[a]
  }

  function At(p: Pool, a: Address, n: U64): SignedTransaction
    requires Pooled(p, a, n)
  {
    p.bySender[a][n]
  }

  function SlotsOf(p: Pool, a: Address): Slots {
    if a in p.bySender then p.bySender[a] else map[]
  }

  ghost function Counts(m: map<Address, Slots>): Address -> nat {
    (a: Address) => if a in m then |m[a]| else 0
  }

  // How many transactions the pool holds.
  ghost function Size(p: Pool): nat {
    Sum(p.bySender.Keys, Counts(p.bySender))
  }

  // ---------- fees ----------

  ghost function FeeAt(slots: Slots): U64 -> nat {
    (n: U64) => if n in slots then GasFee(slots[n], slots[n].transaction.gasLimit) else 0
  }

  // A sender's total fees, added with saturation.
  ghost function TotalFees(slots: Slots): nat {
    Cap(TWO256, Sum(slots.Keys, FeeAt(slots)))
  }

  // ---------- insertion ----------

  predicate TooFar(slots: Slots, nonce: U64) {
    slots != map[] && forall n :: n in slots ==> n + MAX_NONCE_GAP < nonce
  }

  datatype Admission = Rejected(reason: string) | Duplicate | Added(pool: Pool)

  // `insert` up to the point where the size is looked at.
  function Admit(v: View, p: Pool, tx: SignedTransaction): Admission {
    var nonce := tx.transaction.nonce;
    match v.sender(tx)
    case None => Rejected("Invalid signature")
    case Some(a) =>
      var slots := SlotsOf(p, a);
      if v.hash(tx) in p.byHash then Duplicate
      else if TooFar(slots, nonce) then Rejected("nonce gap too large")
      else
        var kept := if nonce in slots then p.byHash - {v.hash(slots[nonce])} else p.byHash;
        Added(Pool(p.bySender[a := slots[nonce := tx]], kept[v.hash(tx) := (a, nonce)]))
  }

  // ---------- eviction ----------

  // `a`'s total fees are least; among equals any sender may be met first.
  ghost predicate Cheapest(p: Pool, a: Address) {
    && a in p.bySender
    && forall b {:trigger TotalFees(p.bySender[b])} :: b in p.bySender ==>
         TotalFees(p.bySender[a]) <= TotalFees(p.bySender[b])
  }

  // The hashes at the `need` lowest nonces.
  ghost function FirstHashes(v: View, slots: Slots, keys: set<U64>, need: nat): set<U256>
    requires keys <= slots.Keys
    decreases keys
  {
    if need == 0 || keys == {} then {}
    else
      var n := Least(keys);
      {v.hash(slots[n])} + FirstHashes(v, slots, keys - {n}, need - 1)
  }

  // All of `a`'s transactions leave `bySender`, but only the first `need` leave `byHash`.
  ghost function Drop(v: View, p: Pool, a: Address, need: nat): Pool
    requires a in p.bySender
  {
    Pool(p.bySender - {a},
         p.byHash - FirstHashes(v, p.bySender[a], p.bySender[a].Keys, need))
  }

  // `order` is a possible choice of senders for `evict_by_sender`: each one is cheapest when it
  // is met, and the loop stops when enough has gone or nobody is left.
  ghost predicate Evictable(v: View, p: Pool, need: nat, order: seq<Address>)
    decreases |order|
  {
    if order == [] then need == 0 || p.bySender == map[]
    else
      && need > 0 && Cheapest(p, order[0])
      && Evictable(v, Drop(v, p, order[0], need), StillNeeded(p, need, order[0]), order[1..])
  }

  // `need_evict` after `a` has gone.
  function StillNeeded(p: Pool, need: nat, a: Address): nat
    requires a in p.bySender
  {
    need - Min(need, |p.bySender[a]|)
  }

  ghost function AfterEviction(v: View, p: Pool, need: nat, order: seq<Address>): Pool
    decreases |order|
  {
    if order == [] || order[0] !in p.bySender then p
    else AfterEviction(v, Drop(v, p, order[0], need), StillNeeded(p, need, order[0]), order[1..])
  }

  // The number `evict_by_sender` returns.
  ghost function Reported(v: View, p: Pool, need: nat, order: seq<Address>): nat
    decreases |order|
  {
    if order == [] || order[0] !in p.bySender then 0
    else
      Min(need, |p.bySender[order[0]]|) +
      Reported(v, Drop(v, p, order[0], need), StillNeeded(p, need, order[0]), order[1..])
  }

  ghost predicate EvictsTo(v: View, p: Pool, need: nat, order: seq<Address>, q: Pool) {
    Evictable(v, p, need, order) && q == AfterEviction(v, p, need, order)
  }

  ghost predicate SomeEviction(v: View, p: Pool, need: nat, q: Pool) {
    exists order :: EvictsTo(v, p, need, order, q)
  }

  // `q` is `p` cut down to capacity.
  ghost predicate TrimsTo(v: View, max: nat, p: Pool, q: Pool) {
    if Size(p) <= max then q == p else SomeEviction(v, p, Size(p) - max, q)
  }

  // `q` is a possible outcome of an insertion.
  ghost predicate InsertsTo(v: View, max: nat, p: Pool, tx: SignedTransaction, q: Pool) {
    Outcome(v, max, p, Admit(v, p, tx), q)
  }

  ghost predicate Outcome(v: View, max: nat, p: Pool, admission: Admission, q: Pool) {
    match admission
    case Rejected(_) => q == p
    case Duplicate => q == p
    case Added(r) => TrimsTo(v, max, r, q)
  }

  // ---------- removal and lookup ----------

  function Remove(p: Pool, h: U256): Pool {
    if h !in p.byHash then p
    else
      var (a, n) := p.byHash[h];
      var left := SlotsOf(p, a) - {n};
      Pool(if a !in p.bySender then p.bySender
           else if left == map[] then p.bySender - {a}
           else p.bySender[a := left],
           p.byHash - {h})
  }

  function GetByHash(p: Pool, h: U256): Option<SignedTransaction> {
    if h !in p.byHash then None
    else
      var (a, n) := p.byHash[h];
      if Pooled(p, a, n) then Some(At(p, a, n)) else None
  }
}
