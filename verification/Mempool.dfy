/** The mempool object. */
module Mempool {
  import opened Base
  import opened Sums
  import opened Transactions
  import opened PoolState
  import opened PoolLaws

  // ---------- the rounds of an eviction ----------

  // One round: the cheapest sender `a` goes.
  ghost predicate Round(v: View, p: Pool, need: nat, a: Address, q: Pool, left: nat) {
    need > 0 && Cheapest(p, a) && q == Drop(v, p, a, need) && left == StillNeeded(p, need, a)
  }

  // The pools and the numbers still needed before, between and after the rounds.
  datatype Trace = Trace(pools: seq<Pool>, needs: seq<nat>, order: seq<Address>)

  ghost predicate Rounds(v: View, t: Trace) {
    && |t.pools| == |t.needs| == |t.order| + 1
    && forall i :: 0 <= i < |t.order| ==>
         Round(v, t.pools[i], t.needs[i], t.order[i], t.pools[i + 1], t.needs[i + 1])
  }

  // The rounds so far lead from `p` and `need` to `q` and `left`.
  ghost predicate Progress(v: View, p: Pool, need: nat, t: Trace, q: Pool, left: nat) {
    && Rounds(v, t) && t.pools[0] == p && t.needs[0] == need
    && t.pools[|t.order|] == q && t.needs[|t.order|] == left
  }

  ghost function NextTrace(t: Trace, a: Address, q: Pool, left: nat): Trace {
    Trace(t.pools + [q], t.needs + [left], t.order + [a])
  }

  lemma ProgressGrows(v: View, p: Pool, need: nat, t: Trace, q: Pool, left: nat,
                      a: Address, r: Pool, rest: nat)
    requires Progress(v, p, need, t, q, left) && Round(v, q, left, a, r, rest)
    ensures Progress(v, p, need, NextTrace(t, a, r, rest), r, rest)
  {
    var u := NextTrace(t, a, r, rest);
    forall i | 0 <= i < |u.order|
      ensures Round(v, u.pools[i], u.needs[i], u.order[i], u.pools[i + 1], u.needs[i + 1])
    {
      if i < |t.order| {
        assert Round(v, t.pools[i], t.needs[i], t.order[i], t.pools[i + 1], t.needs[i + 1]);
      }
    }
  }

  lemma {:induction false} RoundsEvict(v: View, t: Trace, i: nat)
    requires Rounds(v, t) && i <= |t.order|
    requires t.needs[|t.order|] == 0 || t.pools[|t.order|].bySender == map[]
    ensures EvictsTo(v, t.pools[i], t.needs[i], t.order[i..], t.pools[|t.order|])
    decreases |t.order| - i
  {
    if i < |t.order| {
      RoundsEvict(v, t, i + 1);
      assert t.order[i..][1..] == t.order[i + 1..];
      assert Round(v, t.pools[i], t.needs[i], t.order[i], t.pools[i + 1], t.needs[i + 1]);
    }
  }

  // Finished rounds are an eviction.
  lemma ProgressEvicts(v: View, p: Pool, need: nat, t: Trace, q: Pool, left: nat)
    requires Progress(v, p, need, t, q, left) && (left == 0 || q.bySender == map[])
    ensures SomeEviction(v, p, need, q)
  {
    RoundsEvict(v, t, 0);
    assert t.order[0..] == t.order;
  }

  lemma FewerSendersAll(p: Pool)
    ensures forall a :: a in p.bySender ==> |p.bySender - {a}| < |p.bySender|
  {
    forall a | a in p.bySender ensures |p.bySender - {a}| < |p.bySender| {
      FewerSenders(p, a);
    }
  }

  // ---------- ordering by gas price ----------

  ghost predicate PriceDescending(xs: seq<SignedTransaction>) {
    forall i, j :: 0 <= i < j < |xs| ==> xs[i].transaction.gasPrice >= xs[j].transaction.gasPrice
  }

  // Stable insertion behind everything priced at least as high.
  function InsertByPrice(xs: seq<SignedTransaction>, tx: SignedTransaction): seq<SignedTransaction> {
    if xs == [] || xs[|xs| - 1].transaction.gasPrice >= tx.transaction.gasPrice then xs + [tx]
    else InsertByPrice(xs[..|xs| - 1], tx) + [xs[|xs| - 1]]
  }

  function SortByPrice(xs: seq<SignedTransaction>): seq<SignedTransaction> {
    if xs == [] then [] else InsertByPrice(SortByPrice(xs[..|xs| - 1]), xs[|xs| - 1])
  }

  ghost predicate AtLeast(xs: seq<SignedTransaction>, price: U256) {
    forall i :: 0 <= i < |xs| ==> xs[i].transaction.gasPrice >= price
  }

  lemma {:induction false} InsertSorts(xs: seq<SignedTransaction>, tx: SignedTransaction)
    requires PriceDescending(xs)
    ensures PriceDescending(InsertByPrice(xs, tx))
    ensures forall p :: AtLeast(xs, p) && tx.transaction.gasPrice >= p ==>
              AtLeast(InsertByPrice(xs, tx), p)
  {
    if xs != [] && xs[|xs| - 1].transaction.gasPrice < tx.transaction.gasPrice {
      var front, last := xs[..|xs| - 1], xs[|xs| - 1];
      InsertSorts(front, tx);
      assert AtLeast(front, last.transaction.gasPrice);
      assert AtLeast(InsertByPrice(front, tx), last.transaction.gasPrice);
      forall p | AtLeast(xs, p) && tx.transaction.gasPrice >= p
        ensures AtLeast(InsertByPrice(xs, tx), p)
      {
        assert AtLeast(front, p);
        assert AtLeast(InsertByPrice(front, tx), p);
        assert last.transaction.gasPrice >= p;
      }
    }
  }

  lemma {:induction false} InsertRearranges(xs: seq<SignedTransaction>, tx: SignedTransaction)
    ensures multiset(InsertByPrice(xs, tx)) == multiset(xs) + multiset{tx}
  {
    if xs != [] && xs[|xs| - 1].transaction.gasPrice < tx.transaction.gasPrice {
      InsertRearranges(xs[..|xs| - 1], tx);
      assert xs == xs[..|xs| - 1] + [xs[|xs| - 1]];
    }
  }

  // The transactions of one price, in order.
  function AtPrice(xs: seq<SignedTransaction>, price: U256): seq<SignedTransaction> {
    if xs == [] then []
    else
      var last := xs[|xs| - 1];
      AtPrice(xs[..|xs| - 1], price) + if last.transaction.gasPrice == price then [last] else []
  }

  lemma {:induction false} InsertIsStable(xs: seq<SignedTransaction>, tx: SignedTransaction, price: U256)
    ensures AtPrice(InsertByPrice(xs, tx), price) == AtPrice(xs + [tx], price)
  {
    assert (xs + [tx])[..|xs|] == xs;
    if xs != [] && xs[|xs| - 1].transaction.gasPrice < tx.transaction.gasPrice {
      var front, last := xs[..|xs| - 1], xs[|xs| - 1];
      InsertIsStable(front, tx, price);
      assert (front + [tx])[..|front|] == front;
      var r := InsertByPrice(front, tx);
      assert (r + [last])[..|r|] == r;
    }
  }

  // The sort keeps the order among transactions of one price.
  lemma {:induction false} SortIsStable(xs: seq<SignedTransaction>, price: U256)
    ensures AtPrice(SortByPrice(xs), price) == AtPrice(xs, price)
  {
    if xs != [] {
      var front, last := xs[..|xs| - 1], xs[|xs| - 1];
      SortIsStable(front, price);
      InsertIsStable(SortByPrice(front), last, price);
      var r := SortByPrice(front);
      assert (r + [last])[..|r|] == r;
    }
  }

  // Of two equally priced transactions of one sender the one with the lower nonce comes first.
  ghost predicate Earlier(v: View, x: SignedTransaction, y: SignedTransaction) {
    v.sender(x) == v.sender(y) && x.transaction.gasPrice == y.transaction.gasPrice ==>
      x.transaction.nonce < y.transaction.nonce
  }

  ghost predicate ByNonce(v: View, xs: seq<SignedTransaction>) {
    forall i, j :: 0 <= i < j < |xs| ==> Earlier(v, xs[i], xs[j])
  }

  lemma ByNonceSnoc(v: View, xs: seq<SignedTransaction>, last: SignedTransaction)
    ensures ByNonce(v, xs + [last]) <==> ByNonce(v, xs) && forall x :: x in xs ==> Earlier(v, x, last)
  {
    var more := xs + [last];
    if ByNonce(v, more) {
      forall i, j | 0 <= i < j < |xs| ensures Earlier(v, xs[i], xs[j]) {
        assert Earlier(v, more[i], more[j]);
      }
      forall x | x in xs ensures Earlier(v, x, last) {
        var i :| 0 <= i < |xs| && xs[i] == x;
        assert Earlier(v, more[i], more[|xs|]);
      }
    }
  }

  lemma {:induction false} AtPriceMembers(xs: seq<SignedTransaction>, price: U256)
    ensures forall x :: x in AtPrice(xs, price) <==> x in xs && x.transaction.gasPrice == price
  {
    if xs != [] {
      AtPriceMembers(xs[..|xs| - 1], price);
      assert xs == xs[..|xs| - 1] + [xs[|xs| - 1]];
    }
  }

  // The order by nonce can be judged price by price.
  lemma {:induction false} ByNonceAtPrice(v: View, xs: seq<SignedTransaction>, price: U256)
    requires ByNonce(v, xs)
    ensures ByNonce(v, AtPrice(xs, price))
  {
    if xs != [] {
      var front, last := xs[..|xs| - 1], xs[|xs| - 1];
      assert xs == front + [last];
      ByNonceSnoc(v, front, last);
      ByNonceAtPrice(v, front, price);
      ByNonceSnoc(v, AtPrice(front, price), last);
      AtPriceMembers(front, price);
      assert AtPrice(front, price) + [] == AtPrice(front, price);
    }
  }

  lemma {:induction false} ByNonceByPrice(v: View, xs: seq<SignedTransaction>)
    requires forall p: U256 :: ByNonce(v, AtPrice(xs, p))
    ensures ByNonce(v, xs)
  {
    if xs != [] {
      var front, last := xs[..|xs| - 1], xs[|xs| - 1];
      assert xs == front + [last];
      forall p: U256 ensures ByNonce(v, AtPrice(front, p)) {
        assert ByNonce(v, AtPrice(xs, p));
        ByNonceSnoc(v, AtPrice(front, p), last);
        assert AtPrice(front, p) + [] == AtPrice(front, p);
      }
      ByNonceByPrice(v, front);
      var price := last.transaction.gasPrice;
      assert ByNonce(v, AtPrice(xs, price));
      ByNonceSnoc(v, AtPrice(front, price), last);
      AtPriceMembers(front, price);
      ByNonceSnoc(v, front, last);
    }
  }

  lemma SortByNonce(v: View, xs: seq<SignedTransaction>)
    requires ByNonce(v, xs)
    ensures ByNonce(v, SortByPrice(xs))
  {
    forall p: U256 ensures ByNonce(v, AtPrice(SortByPrice(xs), p)) {
      SortIsStable(xs, p);
      ByNonceAtPrice(v, xs, p);
    }
    ByNonceByPrice(v, SortByPrice(xs));
  }

  // The sort puts dearer transactions first and only rearranges.
  lemma {:induction false} SortSorts(xs: seq<SignedTransaction>)
    ensures PriceDescending(SortByPrice(xs))
    ensures multiset(SortByPrice(xs)) == multiset(xs)
  {
    if xs != [] {
      SortSorts(xs[..|xs| - 1]);
      InsertSorts(SortByPrice(xs[..|xs| - 1]), xs[|xs| - 1]);
      InsertRearranges(SortByPrice(xs[..|xs| - 1]), xs[|xs| - 1]);
      assert xs == xs[..|xs| - 1] + [xs[|xs| - 1]];
    }
  }

  ghost predicate InPool(p: Pool, tx: SignedTransaction) {
    exists a: Address, n: U64 :: Pooled(p, a, n) && At(p, a, n) == tx
  }

  // `r` holds the dearest pooled transactions, dearest first, and by nonce where one sender's
  // prices are equal.
  ghost predicate IsBest(v: View, p: Pool, limit: nat, r: seq<SignedTransaction>) {
    && |r| == Min(limit, Size(p)) && PriceDescending(r) && ByNonce(v, r)
    && (forall tx :: tx in r ==> InPool(p, tx))
    && (forall i, j :: 0 <= i < j < |r| ==> r[i] != r[j])
    && (forall tx, i :: InPool(p, tx) && tx !in r && 0 <= i < |r| ==>
          tx.transaction.gasPrice <= r[i].transaction.gasPrice)
    && (|r| < limit ==> forall tx :: InPool(p, tx) ==> tx in r)
  }

  // `all` lists every pooled transaction once, and each sender's by nonce.
  ghost predicate Lists(v: View, p: Pool, all: seq<SignedTransaction>) {
    && ByNonce(v, all)
    && |all| == Size(p) && (forall tx :: tx in all <==> InPool(p, tx)) && Once(all)
  }

  lemma {:induction false} OnceByCount<T>(xs: seq<T>)
    ensures Once(xs) <==> forall x :: multiset(xs)[x] <= 1
  {
    if xs != [] {
      var front, last := xs[..|xs| - 1], xs[|xs| - 1];
      assert xs == front + [last];
      OnceByCount(front);
      assert last in front <==> multiset(front)[last] > 0;
      if Once(xs) {
        assert last !in front;
        forall x ensures multiset(xs)[x] <= 1 {
          assert multiset(xs)[x] == multiset(front)[x] + multiset([last])[x];
        }
      }
      if forall x :: multiset(xs)[x] <= 1 {
        forall x ensures multiset(front)[x] <= 1 {
          assert multiset(xs)[x] == multiset(front)[x] + multiset([last])[x];
        }
        assert multiset(xs)[last] == multiset(front)[last] + 1;
      }
    }
  }

  lemma SameMembers<T>(xs: seq<T>, ys: seq<T>)
    requires multiset(xs) == multiset(ys)
    ensures |xs| == |ys| && forall x :: x in xs <==> x in ys
    ensures Once(xs) <==> Once(ys)
  {
    assert |multiset(xs)| == |xs| && |multiset(ys)| == |ys|;
    forall x ensures x in xs <==> x in ys {
      assert x in xs <==> x in multiset(xs);
      assert x in ys <==> x in multiset(ys);
    }
    OnceByCount(xs);
    OnceByCount(ys);
  }

  // `tx` is still to be listed: its sender is in `senders`, or it is `a`'s with a nonce in `nonces`.
  ghost predicate Waiting(
    v: View, tx: SignedTransaction, senders: set<Address>, a: Address, nonces: set<U64>)
  {
    v.sender(tx).Some?
    && (v.sender(tx).value in senders
        || (v.sender(tx).value == a && tx.transaction.nonce in nonces))
  }

  ghost predicate Listed(v: View, p: Pool, all: seq<SignedTransaction>, senders: set<Address>,
                         a: Address, nonces: set<U64>)
  {
    && Once(all) && ByNonce(v, all)
    && forall tx :: tx in all <==> InPool(p, tx) && !Waiting(v, tx, senders, a, nonces)
  }

  lemma PlaceOf(v: View, p: Pool, tx: SignedTransaction)
    requires Filed(v, p) && InPool(p, tx)
    ensures v.sender(tx).Some? && Pooled(p, v.sender(tx).value, tx.transaction.nonce)
    ensures At(p, v.sender(tx).value, tx.transaction.nonce) == tx
  {
    var a: Address, n: U64 :| Pooled(p, a, n) && At(p, a, n) == tx;
  }

  lemma NothingListed(v: View, p: Pool)
    requires Filed(v, p)
    ensures Listed(v, p, [], p.bySender.Keys, 0, {})
  {
    forall tx | InPool(p, tx) ensures Waiting(v, tx, p.bySender.Keys, 0, {}) {
      PlaceOf(v, p, tx);
    }
  }

  lemma SenderBegins(v: View, p: Pool, all: seq<SignedTransaction>, senders: set<Address>, a: Address)
    requires Filed(v, p) && Listed(v, p, all, senders, 0, {}) && a in senders && a in p.bySender
    ensures Listed(v, p, all, senders - {a}, a, p.bySender[a].Keys)
  {
    forall tx | InPool(p, tx)
      ensures Waiting(v, tx, senders, 0, {}) <==>
              Waiting(v, tx, senders - {a}, a, p.bySender[a].Keys)
    {
      PlaceOf(v, p, tx);
    }
  }

  lemma ListNext(v: View, p: Pool, all: seq<SignedTransaction>, senders: set<Address>,
                 a: Address, nonces: set<U64>, n: U64)
    requires Filed(v, p) && Listed(v, p, all, senders, a, nonces)
    requires a !in senders && n in nonces && Pooled(p, a, n)
    requires forall m :: m in p.bySender[a].Keys - nonces ==> m < n
    ensures Listed(v, p, all + [At(p, a, n)], senders, a, nonces - {n})
  {
    var x := At(p, a, n);
    var more := all + [x];
    assert InPool(p, x);
    ByNonceSnoc(v, all, x);
    forall y | y in all ensures Earlier(v, y, x) {
      PlaceOf(v, p, y);
      if v.sender(y) == v.sender(x) {
        assert y.transaction.nonce in p.bySender[a].Keys - nonces;
      }
    }
    forall tx ensures tx in more <==> InPool(p, tx) && !Waiting(v, tx, senders, a, nonces - {n}) {
      assert tx in more <==> tx in all || tx == x;
      if InPool(p, tx) {
        PlaceOf(v, p, tx);
      }
    }
    assert x !in all;
  }

  lemma SenderListed(v: View, p: Pool, all: seq<SignedTransaction>, senders: set<Address>, a: Address)
    requires Listed(v, p, all, senders, a, {})
    ensures Listed(v, p, all, senders, 0, {})
  {
    forall tx ensures Waiting(v, tx, senders, a, {}) <==> Waiting(v, tx, senders, 0, {}) {}
  }

  lemma EverythingListed(v: View, p: Pool, all: seq<SignedTransaction>)
    requires Filed(v, p) && Listed(v, p, all, {}, 0, {})
    ensures Once(all) && ByNonce(v, all) && forall tx :: tx in all <==> InPool(p, tx)
  {
    forall tx ensures !Waiting(v, tx, {}, 0, {}) {}
  }

  // The front of the sorted list of all pooled transactions is the best of the pool.
  lemma FrontIsBest(v: View, p: Pool, all: seq<SignedTransaction>, limit: nat)
    requires Lists(v, p, all)
    ensures |SortByPrice(all)| == Size(p)
    ensures IsBest(v, p, limit, SortByPrice(all)[..Min(limit, Size(p))])
  {
    SortSorts(all);
    SortByNonce(v, all);
    SameMembers(SortByPrice(all), all);
    var sorted := SortByPrice(all);
    var r := sorted[..Min(limit, Size(p))];
    forall tx, i | InPool(p, tx) && tx !in r && 0 <= i < |r|
      ensures tx.transaction.gasPrice <= r[i].transaction.gasPrice
    {
      assert tx in all;
      BehindIsCheaper(sorted, |r|, tx, i);
    }
  }

  lemma BehindIsCheaper(sorted: seq<SignedTransaction>, n: nat, tx: SignedTransaction, i: nat)
    requires PriceDescending(sorted) && i < n <= |sorted| && tx in sorted && tx !in sorted[..n]
    ensures tx.transaction.gasPrice <= sorted[i].transaction.gasPrice
  {
    var k :| 0 <= k < |sorted| && sorted[k] == tx;
    assert forall j :: 0 <= j < n ==> sorted[..n][j] == sorted[j];
    assert k >= n;
  }

  // What `insert` returns: nothing, an error, or the number evicted.
  ghost function Report(max: nat, admission: Admission): Result<Option<nat>, string> {
    match admission
    case Rejected(e) => Err(e)
    case Duplicate => Ok(None)
    case Added(p) => Ok(if Size(p) <= max then None else Some(Size(p) - max))
  }

  // What a caller learns from a pool within capacity: an error exactly when no sender is recovered
  // or the nonce is too far ahead, and a number, which is then 1, exactly when a sender was evicted.
  lemma ReportTells(v: View, max: nat, p: Pool, tx: SignedTransaction, q: Pool)
    requires Inv(v, p) && Size(p) <= max && InsertsTo(v, max, p, tx, q)
    ensures var r := Report(max, Admit(v, p, tx));
            && (r.Err? <==> v.sender(tx).None?
                            || (v.hash(tx) !in p.byHash && !Admit(v, p, tx).Added?))
            && (r.Ok? && r.value.Some? ==> r.value == Some(1))
            && (r.Ok? && r.value.Some? <==>
                  Admit(v, p, tx).Added?
                  && exists a :: a in Admit(v, p, tx).pool.bySender && a !in q.bySender)
  {
    if Admit(v, p, tx).Added? {
      var r := Admit(v, p, tx).pool;
      AdmitKeeps(v, p, tx);
      AdmitSizeIs(v, p, tx, r);
      if Size(r) > max {
        OverflowByOne(v, max, p, tx, r, q);
        SomebodyGoes(v, r, q);
      }
    }
  }

  lemma SomebodyGoes(v: View, r: Pool, q: Pool)
    requires Inv(v, r) && Size(r) >= 1 && SomeEviction(v, r, 1, q)
    ensures exists a :: a in r.bySender && a !in q.bySender
  {
    var order :| EvictsTo(v, r, 1, order, q);
    OneEviction(v, r, order);
    assert order[0] in r.bySender && order[0] !in q.bySender;
  }

  // What trimming `p` reports.
  ghost predicate Trimmed(v: View, max: nat, p: Pool, q: Pool, evicted: Option<nat>) {
    && TrimsTo(v, max, p, q)
    && evicted == if Size(p) <= max then None else Some(Size(p) - max)
  }

  lemma Evicted(v: View, max: nat, p: Pool, q: Pool, n: nat)
    requires Size(p) > max && n == Size(p) - max && SomeEviction(v, p, Size(p) - max, q)
    ensures Trimmed(v, max, p, q, Some(n))
  {}

  lemma Inserted(v: View, max: nat, p: Pool, admission: Admission, placed: Pool, q: Pool,
                 evicted: Option<nat>)
    requires admission == Added(placed) && Trimmed(v, max, placed, q, evicted)
    ensures Outcome(v, max, p, admission, q) && Report(max, admission) == Ok(evicted)
  {}

  class Mempool {
    const view: View
    const maxSize: nat
    var bySender: map<Address, Slots>
    var byHash: map<U256, (Address, U64)>

    ghost function Contents(): Pool
      reads this
    {
      Pool(bySender, byHash)
    }

    constructor WithCapacity(c: Crypto, maxSize: nat)
      ensures view == CryptoView(c) && this.maxSize == maxSize && Contents() == EMPTY
    {
      this.view, this.maxSize := CryptoView(c), maxSize;
      bySender, byHash := map[], map[];
    }

    method Len() returns (n: nat)
      ensures n == Size(Contents())
    {
      n := 0;
      var rest := bySender.Keys;
      SumEmpty(Counts(bySender));
      while rest != {}
        invariant rest <= bySender.Keys
        invariant n + Sum(rest, Counts(bySender)) == Size(Contents())
      {
        var a: Address :| a in rest;
        SumPick(rest, Counts(bySender), a);
        n := n + |bySender[a]|;
        rest := rest - {a};
      }
    }

    // The outcome of an insertion, and what is reported about it.
    method Insert(tx: SignedTransaction) returns (r: Result<Option<nat>, string>)
      requires Inv(view, Contents())
      modifies this
      ensures Inv(view, Contents())
      ensures InsertsTo(view, maxSize, old(Contents()), tx, Contents())
      ensures r == Report(maxSize, Admit(view, old(Contents()), tx))
    {
      ghost var before, admission := Contents(), Admit(view, Contents(), tx);
      var sender := view.sender(tx);
      if sender.None? {
        return Err("Invalid signature");
      }
      var a, hash := sender.value, view.hash(tx);
      var nonce: U64 := tx.transaction.nonce;
      if hash in byHash {
        assert admission == Duplicate;
        return Ok(None);
      }
      var entry: Slots := if a in bySender then bySender[a] else map[];
      if entry != map[] {
        var max := MaxNonce(entry);
        assert TooFar(entry, nonce) <==> nonce > max && nonce - max > MAX_NONCE_GAP;
        if nonce > max && nonce - max > MAX_NONCE_GAP {
          assert admission == Rejected("nonce gap too large");
          return Err("nonce gap too large");
        }
      }
      assert admission.Added?;
      AdmitKeeps(view, before, tx);
      Place(tx, a, hash, entry);
      assert Contents() == admission.pool;
      ghost var placed := Contents();
      var evicted := Trim();
      Inserted(view, maxSize, before, admission, placed, Contents(), evicted);
      r := Ok(evicted);
    }

    // Evicts what is over capacity.
    method Trim() returns (evicted: Option<nat>)
      requires Inv(view, Contents())
      modifies this
      ensures Inv(view, Contents())
      ensures Trimmed(view, maxSize, old(Contents()), Contents(), evicted)
    {
      var total := Len();
      if total <= maxSize {
        return None;
      }
      ghost var before := Contents();
      var n := EvictBySender(total - maxSize);
      evicted := Some(n);
      Evicted(view, maxSize, before, Contents(), n);
    }

    // Files `tx` and its hash, in place of a transaction with the same nonce.
    method Place(tx: SignedTransaction, a: Address, hash: U256, entry: Slots)
      requires entry == SlotsOf(Contents(), a)
      modifies this
      ensures bySender == old(bySender)[a := entry[tx.transaction.nonce := tx]]
      ensures byHash == (if tx.transaction.nonce in entry
                         then old(byHash) - {view.hash(entry[tx.transaction.nonce])}
                         else old(byHash))[hash := (a, tx.transaction.nonce)]
    {
      var nonce: U64 := tx.transaction.nonce;
      if nonce in entry {
        byHash := byHash - {view.hash(entry[nonce])};
      }
      var updated: Slots := entry[nonce := tx];
      bySender := bySender[a := updated];
      byHash := byHash[hash := (a, nonce)];
    }

    method EvictBySender(need: nat) returns (evicted: nat)
      requires Inv(view, Contents()) && need <= Size(Contents())
      modifies this
      ensures Inv(view, Contents()) && evicted == need
      ensures SomeEviction(view, old(Contents()), need, Contents())
    {
      evicted := 0;
      var left: nat := need;
      ghost var p, t := Contents(), Trace([Contents()], [need], []);
      while left > 0 && bySender != map[]
        invariant Inv(view, Contents())
        invariant evicted + left == need && left <= Size(Contents())
        invariant Progress(view, p, need, t, Contents(), left)
        decreases |bySender|
      {
        ghost var q, still := Contents(), left;
        FewerSendersAll(q);
        var a, gone := EvictCheapest(left);
        evicted, left := evicted + gone, left - gone;
        ProgressGrows(view, p, need, t, q, still, a, Contents(), left);
        t := NextTrace(t, a, Contents(), left);
      }
      if left > 0 {
        NoSendersNoSize(Contents());
      }
      ProgressEvicts(view, p, need, t, Contents(), left);
    }

    // One round: a cheapest sender goes, and the hashes of its first `need` transactions.
    method EvictCheapest(need: nat) returns (a: Address, gone: nat)
      requires Inv(view, Contents()) && need > 0 && bySender != map[]
      modifies this
      ensures gone <= need && Round(view, old(Contents()), need, a, Contents(), need - gone)
      ensures Inv(view, Contents())
      ensures a in old(bySender) && bySender == old(bySender) - {a}
      ensures Size(Contents()) + gone <= old(Size(Contents()))
      ensures need - gone > 0 ==> Size(Contents()) + gone == old(Size(Contents()))
    {
      a := CheapestSender();
      DropKeeps(view, Contents(), a, need);
      var txs := bySender[a];
      bySender := bySender - {a};
      gone := DropHashes(txs, need);
    }

    // Takes the hashes of the lowest `need` nonces out of `byHash`.
    method DropHashes(txs: Slots, need: nat) returns (gone: nat)
      requires need > 0
      modifies `byHash
      ensures byHash == old(byHash) - FirstHashes(view, txs, txs.Keys, need)
      ensures gone == Min(need, |txs|)
    {
      gone := 0;
      var rest := txs.Keys;
      assert |rest| == |txs|;
      while rest != {} && gone < need
        invariant rest <= txs.Keys && gone + |rest| == |txs| && gone <= need
        invariant byHash - FirstHashes(view, txs, rest, need - gone) ==
                  old(byHash) - FirstHashes(view, txs, txs.Keys, need)
      {
        LeastExists(rest);
        var n: U64 :| n in rest && forall m :: m in rest ==> n <= m;
        assert IsLeast(rest, n) && n == Least(rest);
        MinusTwice(byHash, view.hash(txs[n]),
                   FirstHashes(view, txs, rest - {n}, need - (gone + 1)));
        byHash := byHash - {view.hash(txs[n])};
        gone := gone + 1;
        rest := rest - {n};
      }
    }

    method CheapestSender() returns (a: Address)
      requires bySender != map[]
      ensures Cheapest(Contents(), a)
    {
      a :| a in bySender;
      var least := ComputeFees(bySender[a]);
      var rest := bySender.Keys - {a};
      while rest != {}
        invariant rest <= bySender.Keys && a in bySender && least == TotalFees(bySender[a])
        invariant forall b :: b in bySender && b !in rest ==> least <= TotalFees(bySender[b])
      {
        var b: Address :| b in rest;
        var fees := ComputeFees(bySender[b]);
        if fees < least {
          a, least := b, fees;
        }
        rest := rest - {b};
      }
    }

    // Every pooled transaction, sender by sender and by nonce.
    method All() returns (all: seq<SignedTransaction>)
      requires Inv(view, Contents())
      ensures Lists(view, Contents(), all)
    {
      all := [];
      ghost var p := Contents();
      var senders := bySender.Keys;
      NothingListed(view, p);
      while senders != {}
        invariant senders <= bySender.Keys
        invariant Listed(view, p, all, senders, 0, {})
        invariant |all| + Sum(senders, Counts(bySender)) == Size(p)
      {
        var a: Address :| a in senders;
        var nonces := bySender[a].Keys;
        SenderBegins(view, p, all, senders, a);
        SumPick(senders, Counts(bySender), a);
        ghost var before := |all|;
        senders := senders - {a};
        assert |nonces| == |bySender[a]|;
        while nonces != {}
          invariant nonces <= bySender[a].Keys
          invariant Listed(view, p, all, senders, a, nonces)
          invariant Before(bySender[a].Keys - nonces, nonces)
          invariant |all| + |nonces| == before + |bySender[a]|
        {
          LeastExists(nonces);
          var n: U64 :| n in nonces && forall m :: m in nonces ==> n <= m;
          assert IsLeast(nonces, n);
          MoveLeast(bySender[a].Keys - nonces, nonces, n);
          assert bySender[a].Keys - (nonces - {n}) == (bySender[a].Keys - nonces) + {n};
          ListNext(view, p, all, senders, a, nonces, n);
          all := all + [bySender[a][n]];
          nonces := nonces - {n};
        }
        SenderListed(view, p, all, senders, a);
      }
      EverythingListed(view, p, all);
    }

    method GetBest(limit: nat) returns (best: seq<SignedTransaction>)
      requires Inv(view, Contents())
      ensures IsBest(view, Contents(), limit, best)
    {
      var all := All();
      FrontIsBest(view, Contents(), all, limit);
      var sorted := SortByPrice(all);
      best := sorted[..Min(limit, |sorted|)];
    }

    method Remove(hash: U256) returns (found: bool)
      requires Inv(view, Contents())
      modifies this
      ensures Inv(view, Contents())
      ensures Contents() == PoolState.Remove(old(Contents()), hash) && found == (hash in old(byHash))
    {
      RemoveKeeps(view, Contents(), hash);
      found := hash in byHash;
      if found {
        var (a, n) := byHash[hash];
        byHash := byHash - {hash};
        if a in bySender {
          var m := bySender[a] - {n};
          bySender := if m == map[] then bySender - {a} else bySender[a := m];
        }
      }
    }

    method GetByHash(hash: U256) returns (tx: Option<SignedTransaction>)
      ensures tx == PoolState.GetByHash(Contents(), hash)
    {
      if hash !in byHash {
        return None;
      }
      var (a, n) := byHash[hash];
      tx := if a in bySender && n in bySender[a] then Some(bySender[a][n]) else None;
    }
  }

  lemma MinusTwice<K, T>(m: map<K, T>, k: K, ks: set<K>)
    ensures m - {k} - ks == m - ({k} + ks)
  {}

  method MaxNonce(slots: Slots) returns (max: U64)
    requires slots != map[]
    ensures max in slots && forall n :: n in slots ==> n <= max
  {
    max :| max in slots;
    var rest := slots.Keys - {max};
    while rest != {}
      invariant rest <= slots.Keys && max in slots
      invariant forall n :: n in slots && n !in rest ==> n <= max
    {
      var n: U64 :| n in rest;
      if n > max {
        max := n;
      }
      rest := rest - {n};
    }
  }

  method ComputeFees(slots: Slots) returns (fees: U256)
    ensures fees == TotalFees(slots)
  {
    fees := 0;
    var rest := slots.Keys;
    ghost var done: set<U64> := {};
    SumEmpty(FeeAt(slots));
    while rest != {}
      invariant done !! rest && done + rest == slots.Keys
      invariant fees == Cap(TWO256, Sum(done, FeeAt(slots)))
    {
      var n: U64 :| n in rest;
      SumUnion(done, {n}, FeeAt(slots));
      SumSingle(n, FeeAt(slots));
      fees := SatAdd(TWO256, fees, GasFee(slots[n], slots[n].transaction.gasLimit));
      done, rest := done + {n}, rest - {n};
    }
    assert done == slots.Keys;
  }
}
