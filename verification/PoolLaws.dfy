/** What every pool operation keeps, and what eviction does. */
module PoolLaws {
  import opened Base
  import opened Sums
  import opened Transactions
  import opened PoolState

  // ---------- the invariant ----------

  ghost predicate NoEmptySender(p: Pool) {
    forall a :: a in p.bySender ==> p.bySender[a] != map[]
  }

  // A transaction sits under its own sender and nonce.
  ghost predicate Filed(v: View, p: Pool) {
    forall a: Address, n: U64 :: Pooled(p, a, n) ==>
      At(p, a, n).transaction.nonce == n && v.sender(At(p, a, n)) == Some(a)
  }

  // Every pooled transaction is found under its hash.
  ghost predicate Indexed(v: View, p: Pool) {
    forall a: Address, n: U64 :: Pooled(p, a, n) ==>
      v.hash(At(p, a, n)) in p.byHash && p.byHash[v.hash(At(p, a, n))] == (a, n)
  }

  // And every hash leads to a pooled transaction with that hash.
  ghost predicate NoStale(v: View, p: Pool) {
    forall h :: h in p.byHash ==>
      Pooled(p, p.byHash[h].0, p.byHash[h].1)
      && v.hash(At(p, p.byHash[h].0, p.byHash[h].1)) == h
  }

  ghost predicate Inv(v: View, p: Pool) {
    NoEmptySender(p) && Filed(v, p) && Indexed(v, p)
  }

  // ---------- insertion ----------

  lemma AdmitKeeps(v: View, p: Pool, tx: SignedTransaction)
    requires Inv(v, p) && Admit(v, p, tx).Added?
    ensures Inv(v, Admit(v, p, tx).pool)
    ensures NoStale(v, p) ==> NoStale(v, Admit(v, p, tx).pool)
  {
    var q := Admit(v, p, tx).pool;
    var s, nonce := v.sender(tx).value, tx.transaction.nonce;
    forall a: Address, n: U64 | Pooled(q, a, n)
      ensures v.hash(At(q, a, n)) in q.byHash && q.byHash[v.hash(At(q, a, n))] == (a, n)
    {
      if (a, n) != (s, nonce) {
        assert Pooled(p, a, n) && At(q, a, n) == At(p, a, n);
      }
    }
    forall a: Address, n: U64 | Pooled(q, a, n)
      ensures At(q, a, n).transaction.nonce == n && v.sender(At(q, a, n)) == Some(a)
    {
      if (a, n) != (s, nonce) {
        assert Pooled(p, a, n) && At(q, a, n) == At(p, a, n);
      }
    }
    if NoStale(v, p) {
      forall h | h in q.byHash
        ensures Pooled(q, q.byHash[h].0, q.byHash[h].1)
                && v.hash(At(q, q.byHash[h].0, q.byHash[h].1)) == h
      {
        if h != v.hash(tx) {
          assert h in p.byHash && q.byHash[h] == p.byHash[h];
        }
      }
    }
  }

  lemma SizeAfterUpdate(m: map<Address, Slots>, a: Address, slots: Slots)
    ensures Sum(m[a := slots].Keys, Counts(m[a := slots])) + (if a in m then |m[a]| else 0)
            == Sum(m.Keys, Counts(m)) + |slots|
  {
    var n, others := m[a := slots], m.Keys - {a};
    assert n.Keys - {a} == others;
    SumPick(n.Keys, Counts(n), a);
    SumAgree(others, Counts(m), Counts(n));
    if a in m {
      SumPick(m.Keys, Counts(m), a);
    } else {
      assert m.Keys == others;
    }
  }

  lemma UpdateSize(m: Slots, n: U64, tx: SignedTransaction)
    ensures |m[n := tx]| == |m| + if n in m then 0 else 1
  {
    assert m[n := tx].Keys == m.Keys + {n};
    assert |m[n := tx]| == |m[n := tx].Keys| && |m| == |m.Keys|;
    if n in m {
      assert m.Keys + {n} == m.Keys;
    }
  }

  // When a transaction is admitted, and how it is refused otherwise: a sender must be recovered, the
  // hash must be new, and the sender must have nothing pooled or a nonce at most 10 below.
  lemma AdmitIff(v: View, p: Pool, tx: SignedTransaction)
    ensures Admit(v, p, tx).Added?
       <==> (&& v.sender(tx).Some? && v.hash(tx) !in p.byHash
             && var a := v.sender(tx).value;
                (forall n: U64 :: !Pooled(p, a, n))
                || exists n: U64 :: Pooled(p, a, n) && tx.transaction.nonce <= n + 10)
    ensures Admit(v, p, tx).Duplicate? <==> v.sender(tx).Some? && v.hash(tx) in p.byHash
  {
    if v.sender(tx).Some? {
      var a := v.sender(tx).value;
      var slots := SlotsOf(p, a);
      assert forall n: U64 :: n in slots <==> Pooled(p, a, n);
      if slots != map[] {
        var n: U64 :| n in slots;
        assert Pooled(p, a, n);
      }
    }
  }

  // What an admitted transaction does to the pool: it takes its place, it is found under its hash,
  // the one it replaces is found no more, and every other place and hash is as before.
  lemma AdmitEffect(v: View, p: Pool, tx: SignedTransaction, q: Pool)
    requires Inv(v, p) && Admit(v, p, tx) == Added(q)
    ensures v.sender(tx).Some?
    ensures var a, n := v.sender(tx).value, tx.transaction.nonce;
            && Pooled(q, a, n) && At(q, a, n) == tx && GetByHash(q, v.hash(tx)) == Some(tx)
            && (Pooled(p, a, n) ==> GetByHash(q, v.hash(At(p, a, n))) == None)
            && (forall b: Address, m: U64 :: (b, m) != (a, n) ==>
                  (Pooled(q, b, m) <==> Pooled(p, b, m))
                  && (Pooled(p, b, m) ==> At(q, b, m) == At(p, b, m)))
            && (forall h :: h != v.hash(tx) && (Pooled(p, a, n) ==> h != v.hash(At(p, a, n))) ==>
                  (h in q.byHash <==> h in p.byHash) && (h in p.byHash ==> q.byHash[h] == p.byHash[h]))
  {
    var a, n: U64 := v.sender(tx).value, tx.transaction.nonce;
    assert Pooled(p, a, n) <==> n in SlotsOf(p, a);
    if Pooled(p, a, n) {
      assert v.hash(At(p, a, n)) in p.byHash;
    }
  }

  // An admitted transaction adds one to the size, a replacing one nothing.
  lemma AdmitSizeIs(v: View, p: Pool, tx: SignedTransaction, q: Pool)
    requires Admit(v, p, tx) == Added(q)
    ensures v.sender(tx).Some?
    ensures Size(q) == Size(p) + if Pooled(p, v.sender(tx).value, tx.transaction.nonce) then 0 else 1
  {
    var a, n := v.sender(tx).value, tx.transaction.nonce;
    var slots := SlotsOf(p, a);
    SizeAfterUpdate(p.bySender, a, slots[n := tx]);
    UpdateSize(slots, n, tx);
    assert n in slots <==> Pooled(p, a, n);
  }

  // ---------- dropping one sender ----------

  lemma {:induction false} FirstHashesMembers(v: View, slots: Slots, keys: set<U64>, need: nat)
    requires keys <= slots.Keys
    ensures forall h :: h in FirstHashes(v, slots, keys, need) ==>
              exists n :: n in keys && v.hash(slots[n]) == h
    ensures |keys| <= need ==>
              forall n :: n in keys ==> v.hash(slots[n]) in FirstHashes(v, slots, keys, need)
    decreases keys
  {
    if need > 0 && keys != {} {
      var n := Least(keys);
      FirstHashesMembers(v, slots, keys - {n}, need - 1);
    }
  }

  lemma HashesDiffer(v: View, p: Pool, a: Address, m: U64, n: U64)
    requires Indexed(v, p) && Pooled(p, a, m) && Pooled(p, a, n)
    requires v.hash(At(p, a, m)) == v.hash(At(p, a, n))
    ensures m == n
  {}

  // When more transactions leave than are asked for, the last hash stays behind.
  lemma {:induction false} FirstHashesMisses(v: View, slots: Slots, keys: set<U64>, need: nat)
    returns (left: U64)
    requires keys <= slots.Keys && need < |keys|
    requires forall m, n :: m in keys && n in keys && v.hash(slots[m]) == v.hash(slots[n]) ==> m == n
    ensures left in keys && v.hash(slots[left]) !in FirstHashes(v, slots, keys, need)
    decreases keys
  {
    var n := Least(keys);
    if need == 0 {
      left := n;
    } else {
      left := FirstHashesMisses(v, slots, keys - {n}, need - 1);
    }
  }

  lemma DropKeeps(v: View, p: Pool, a: Address, need: nat)
    requires Inv(v, p) && a in p.bySender
    ensures Inv(v, Drop(v, p, a, need))
    ensures Size(p) == Size(Drop(v, p, a, need)) + |p.bySender[a]|
  {
    var q, slots := Drop(v, p, a, need), p.bySender[a];
    FirstHashesMembers(v, slots, slots.Keys, need);
    forall b: Address, n: U64 | Pooled(q, b, n)
      ensures v.hash(At(q, b, n)) in q.byHash && q.byHash[v.hash(At(q, b, n))] == (b, n)
    {
      assert Pooled(p, b, n) && At(q, b, n) == At(p, b, n);
      if v.hash(At(p, b, n)) in FirstHashes(v, slots, slots.Keys, need) {
        var m :| m in slots && v.hash(slots[m]) == v.hash(At(p, b, n));
        assert Pooled(p, a, m);
      }
    }
    forall b: Address, n: U64 | Pooled(q, b, n)
      ensures At(q, b, n).transaction.nonce == n && v.sender(At(q, b, n)) == Some(b)
    {
      assert Pooled(p, b, n) && At(q, b, n) == At(p, b, n);
    }
    DropSize(v, p, a, need);
  }

  lemma DropSize(v: View, p: Pool, a: Address, need: nat)
    requires a in p.bySender
    ensures Size(p) == Size(Drop(v, p, a, need)) + |p.bySender[a]|
  {
    var q := Drop(v, p, a, need);
    assert q.bySender.Keys == p.bySender.Keys - {a};
    SumPick(p.bySender.Keys, Counts(p.bySender), a);
    SumAgree(q.bySender.Keys, Counts(p.bySender), Counts(q.bySender));
  }

  // Dropping a sender leaves no stale hash exactly when it held no more than was still needed.
  lemma DropStaleIff(v: View, p: Pool, a: Address, need: nat)
    requires Inv(v, p) && NoStale(v, p) && a in p.bySender
    ensures NoStale(v, Drop(v, p, a, need)) <==> |p.bySender[a]| <= need
  {
    var q, slots := Drop(v, p, a, need), p.bySender[a];
    assert |slots| == |slots.Keys|;
    FirstHashesMembers(v, slots, slots.Keys, need);
    if |slots| <= need {
      forall h | h in q.byHash
        ensures Pooled(q, q.byHash[h].0, q.byHash[h].1)
                && v.hash(At(q, q.byHash[h].0, q.byHash[h].1)) == h
      {
        var (b, n) := p.byHash[h];
        assert Pooled(p, b, n) && v.hash(At(p, b, n)) == h;
        assert b != a;
        assert At(q, b, n) == At(p, b, n);
      }
    } else {
      forall m, n | m in slots && n in slots && v.hash(slots[m]) == v.hash(slots[n])
        ensures m == n
      {
        HashesDiffer(v, p, a, m, n);
      }
      var left := FirstHashesMisses(v, slots, slots.Keys, need);
      assert Pooled(p, a, left) && At(p, a, left) == slots[left];
      assert v.hash(slots[left]) in q.byHash && q.byHash[v.hash(slots[left])].0 == a;
    }
  }

  // A stale hash stays stale when further senders are dropped.
  lemma DropKeepsStale(v: View, p: Pool, a: Address, need: nat)
    requires Inv(v, p) && a in p.bySender && !NoStale(v, p)
    ensures !NoStale(v, Drop(v, p, a, need))
  {
    var q, slots := Drop(v, p, a, need), p.bySender[a];
    var h :| h in p.byHash
             && !(Pooled(p, p.byHash[h].0, p.byHash[h].1)
                  && v.hash(At(p, p.byHash[h].0, p.byHash[h].1)) == h);
    forall n | n in slots ensures v.hash(slots[n]) != h {
      assert Pooled(p, a, n) && At(p, a, n) == slots[n];
    }
    FirstHashesMembers(v, slots, slots.Keys, need);
    assert h in q.byHash && q.byHash[h] == p.byHash[h];
    var (b, n) := p.byHash[h];
    if Pooled(q, b, n) {
      assert Pooled(p, b, n) && At(q, b, n) == At(p, b, n);
    }
  }

  // ---------- fees ----------

  // The most a sender's transactions can cost in gas, without saturation.
  ghost function ExactFeeAt(slots: Slots): U64 -> nat {
    (n: U64) => if n in slots then slots[n].transaction.gasPrice * slots[n].transaction.gasLimit else 0
  }

  lemma {:induction false} CapOfCaps(slots: Slots, keys: set<U64>)
    ensures Cap(TWO256, Sum(keys, FeeAt(slots))) == Cap(TWO256, Sum(keys, ExactFeeAt(slots)))
    decreases keys
  {
    if keys == {} {
      SumEmpty(FeeAt(slots));
      SumEmpty(ExactFeeAt(slots));
    } else {
      var n: U64 :| n in keys;
      SumPick(keys, FeeAt(slots), n);
      SumPick(keys, ExactFeeAt(slots), n);
      CapOfCaps(slots, keys - {n});
    }
  }

  // The fees senders are compared by are the sum of gas price times gas limit, capped once.
  lemma TotalFeesIsCapped(slots: Slots)
    ensures TotalFees(slots) == Cap(TWO256, Sum(slots.Keys, ExactFeeAt(slots)))
  {
    CapOfCaps(slots, slots.Keys);
  }

  lemma FewerSenders(p: Pool, a: Address)
    requires a in p.bySender
    ensures |p.bySender - {a}| < |p.bySender|
  {
    assert (p.bySender - {a}).Keys == p.bySender.Keys - {a};
    assert |p.bySender| == |p.bySender.Keys| && |p.bySender - {a}| == |(p.bySender - {a}).Keys|;
  }

  // ---------- eviction ----------

  // `q` keeps some senders of `p` whole and none in part.
  ghost predicate WholeSenders(p: Pool, q: Pool) {
    forall a :: a in q.bySender ==> a in p.bySender && q.bySender[a] == p.bySender[a]
  }

  lemma NoSendersNoSize(p: Pool)
    requires p.bySender == map[]
    ensures Size(p) == 0
  {
    assert p.bySender.Keys == {};
  }

  // What eviction does, whichever of several cheapest senders it meets first: the asked-for
  // number is reported, every sender stays whole or goes whole, and the pool shrinks by at least
  // that number.
  lemma {:induction false} EvictionEffect(v: View, p: Pool, need: nat, order: seq<Address>)
    requires Inv(v, p) && need <= Size(p) && Evictable(v, p, need, order)
    ensures var q := AfterEviction(v, p, need, order);
            Inv(v, q) && WholeSenders(p, q) && Size(q) + need <= Size(p)
    ensures Reported(v, p, need, order) == need
    decreases |order|
  {
    if order == [] {
      if p.bySender == map[] {
        NoSendersNoSize(p);
      }
    } else {
      DropKeeps(v, p, order[0], need);
      EvictionEffect(v, Drop(v, p, order[0], need), StillNeeded(p, need, order[0]), order[1..]);
    }
  }

  // No hash goes stale in an eviction exactly when the pool shrinks by no more than asked for.
  lemma {:induction false} EvictionStaleIff(v: View, p: Pool, need: nat, order: seq<Address>)
    requires Inv(v, p) && need <= Size(p) && Evictable(v, p, need, order)
    ensures var q := AfterEviction(v, p, need, order);
            NoStale(v, q) <==> NoStale(v, p) && Size(q) + need == Size(p)
    decreases |order|
  {
    if order == [] {
      if p.bySender == map[] {
        NoSendersNoSize(p);
      }
    } else {
      var r, left := Drop(v, p, order[0], need), StillNeeded(p, need, order[0]);
      DropKeeps(v, p, order[0], need);
      EvictionEffect(v, r, left, order[1..]);
      EvictionStaleIff(v, r, left, order[1..]);
      if NoStale(v, p) {
        DropStaleIff(v, p, order[0], need);
      } else {
        DropKeepsStale(v, p, order[0], need);
      }
    }
  }

  // Nobody who stays is cheaper than anybody who goes.
  lemma {:induction false} EvictedAreCheapest(
    v: View, p: Pool, need: nat, order: seq<Address>, out: Address, kept: Address)
    requires Evictable(v, p, need, order)
    requires out in p.bySender && out !in AfterEviction(v, p, need, order).bySender
    requires kept in AfterEviction(v, p, need, order).bySender
    ensures kept in p.bySender
    ensures TotalFees(p.bySender[out]) <= TotalFees(p.bySender[kept])
    decreases |order|
  {
    var a := order[0];
    var r, left := Drop(v, p, a, need), StillNeeded(p, need, a);
    if out != a {
      EvictedAreCheapest(v, r, left, order[1..], out, kept);
    } else {
      KeptWasThere(v, r, left, order[1..], kept);
    }
  }

  lemma {:induction false} KeptWasThere(
    v: View, p: Pool, need: nat, order: seq<Address>, kept: Address)
    requires kept in AfterEviction(v, p, need, order).bySender
    ensures kept in p.bySender
    decreases |order|
  {
    if order != [] && order[0] in p.bySender {
      KeptWasThere(v, Drop(v, p, order[0], need), StillNeeded(p, need, order[0]), order[1..], kept);
    }
  }

  // Evicting for a single place drops a single sender.
  lemma OneEviction(v: View, p: Pool, order: seq<Address>)
    requires NoEmptySender(p) && Size(p) >= 1 && Evictable(v, p, 1, order)
    ensures order != [] && Cheapest(p, order[0])
    ensures AfterEviction(v, p, 1, order) == Drop(v, p, order[0], 1)
  {
    if order == [] {
      NoSendersNoSize(p);
    }
    var a := order[0];
    NonEmptySize(p.bySender[a]);
    assert StillNeeded(p, 1, a) == 0;
    assert Evictable(v, Drop(v, p, a, 1), 0, order[1..]);
  }

  // ---------- whole insertions ----------

  // After every insert the pool is within its capacity, if it was before; the invariant holds.
  lemma InsertKeeps(v: View, max: nat, p: Pool, tx: SignedTransaction, q: Pool)
    requires Inv(v, p) && Size(p) <= max && InsertsTo(v, max, p, tx, q)
    ensures Inv(v, q) && Size(q) <= max
  {
    if Admit(v, p, tx).Added? {
      AdmitKeeps(v, p, tx);
      TrimKeeps(v, max, Admit(v, p, tx).pool, q);
    }
  }

  // Everything pooled after an insertion was pooled before, or is the new transaction.
  lemma InsertAddsNothingElse(v: View, max: nat, p: Pool, tx: SignedTransaction, q: Pool,
                              b: Address, m: U64)
    requires Inv(v, p) && InsertsTo(v, max, p, tx, q) && Pooled(q, b, m)
    ensures At(q, b, m) == tx || (Pooled(p, b, m) && At(q, b, m) == At(p, b, m))
  {
    if Admit(v, p, tx).Added? {
      var r := Admit(v, p, tx).pool;
      AdmitKeeps(v, p, tx);
      AdmitEffect(v, p, tx, r);
      TrimKeeps(v, max, r, q);
    }
  }

  // An admitted transaction that fits stays; one that replaces another always fits.
  lemma AdmittedStays(v: View, max: nat, p: Pool, tx: SignedTransaction, r: Pool, q: Pool)
    requires Inv(v, p) && Size(p) <= max && InsertsTo(v, max, p, tx, q) && Admit(v, p, tx) == Added(r)
    requires v.sender(tx).Some?
    requires Pooled(p, v.sender(tx).value, tx.transaction.nonce) || Size(p) < max
    ensures q == r
  {
    AdmitSizeIs(v, p, tx, r);
  }

  // A new transaction for a pooled nonce is always admitted and takes the old one's place.
  lemma ReplacementIsTaken(v: View, max: nat, p: Pool, tx: SignedTransaction, a: Address, q: Pool)
    requires Inv(v, p) && Size(p) <= max && InsertsTo(v, max, p, tx, q)
    requires v.sender(tx) == Some(a) && v.hash(tx) !in p.byHash && Pooled(p, a, tx.transaction.nonce)
    ensures Pooled(q, a, tx.transaction.nonce) && At(q, a, tx.transaction.nonce) == tx
    ensures GetByHash(q, v.hash(tx)) == Some(tx) && Size(q) == Size(p)
    ensures GetByHash(q, v.hash(At(p, a, tx.transaction.nonce))) == None
  {
    AdmitIff(v, p, tx);
    var r := Admit(v, p, tx).pool;
    AdmitEffect(v, p, tx, r);
    AdmitSizeIs(v, p, tx, r);
    AdmittedStays(v, max, p, tx, r, q);
  }

  lemma TrimKeeps(v: View, max: nat, r: Pool, q: Pool)
    requires Inv(v, r) && TrimsTo(v, max, r, q)
    ensures Inv(v, q) && Size(q) <= max && WholeSenders(r, q)
  {
    if Size(r) > max {
      EvictKeeps(v, r, Size(r) - max, q);
    }
  }

  lemma EvictKeeps(v: View, r: Pool, need: nat, q: Pool)
    requires Inv(v, r) && need <= Size(r) && SomeEviction(v, r, need, q)
    ensures Inv(v, q) && Size(q) + need <= Size(r) && WholeSenders(r, q)
  {
    var order :| EvictsTo(v, r, need, order, q);
    EvictionEffect(v, r, need, order);
  }

  // An overflowing insert into a pool within capacity drops exactly one sender, one with least
  // total fees; the two maps are still inverse to each other exactly when that sender held a
  // single transaction.
  lemma OverflowDropsOneSender(
    v: View, max: nat, p: Pool, tx: SignedTransaction, r: Pool, q: Pool)
    returns (a: Address)
    requires Inv(v, p) && NoStale(v, p) && Size(p) <= max && InsertsTo(v, max, p, tx, q)
    requires Admit(v, p, tx) == Added(r) && Size(r) > max
    ensures Cheapest(r, a) && q.bySender == r.bySender - {a}
    ensures NoStale(v, q) <==> |r.bySender[a]| == 1
  {
    AdmitKeeps(v, p, tx);
    OverflowByOne(v, max, p, tx, r, q);
    a := OverflowOfOne(v, r, q);
  }

  lemma OverflowByOne(v: View, max: nat, p: Pool, tx: SignedTransaction, r: Pool, q: Pool)
    requires Size(p) <= max && InsertsTo(v, max, p, tx, q)
    requires Admit(v, p, tx) == Added(r) && Size(r) > max
    ensures Size(r) == max + 1 && SomeEviction(v, r, 1, q)
  {
    AdmitSizeIs(v, p, tx, Admit(v, p, tx).pool);
    assert Size(r) - max == 1;
  }

  lemma OverflowOfOne(v: View, r: Pool, q: Pool) returns (a: Address)
    requires Inv(v, r) && NoStale(v, r) && Size(r) >= 1 && SomeEviction(v, r, 1, q)
    ensures Cheapest(r, a) && q.bySender == r.bySender - {a}
    ensures NoStale(v, q) <==> |r.bySender[a]| == 1
  {
    var order :| EvictsTo(v, r, 1, order, q);
    OneEviction(v, r, order);
    a := order[0];
    DropStaleIff(v, r, a, 1);
  }

  lemma NonEmptySize(m: Slots)
    requires m != map[]
    ensures |m| >= 1
  {
    var n :| n in m;
    assert |m| == |m.Keys| && {n} <= m.Keys;
    SubsetSize({n}, m.Keys);
  }

  // ---------- removal and lookup ----------

  lemma RemoveMembers(p: Pool, h: U256, a: Address, n: U64)
    requires h in p.byHash
    ensures Pooled(Remove(p, h), a, n) <==> Pooled(p, a, n) && (a, n) != p.byHash[h]
    ensures Pooled(Remove(p, h), a, n) ==> At(Remove(p, h), a, n) == At(p, a, n)
  {
    var (s, m) := p.byHash[h];
    var left := SlotsOf(p, s) - {m};
    if a == s && left == map[] {
      assert forall k :: k in SlotsOf(p, s) && k != m ==> k in left;
    }
  }

  lemma RemoveKeeps(v: View, p: Pool, h: U256)
    requires Inv(v, p)
    ensures Inv(v, Remove(p, h))
    ensures NoStale(v, p) ==> NoStale(v, Remove(p, h))
  {
    if h in p.byHash {
      var q := Remove(p, h);
      var (s, m) := p.byHash[h];
      forall a: Address, n: U64 ensures Pooled(q, a, n) <==> Pooled(p, a, n) && (a, n) != (s, m) {
        RemoveMembers(p, h, a, n);
      }
      forall a: Address, n: U64 | Pooled(q, a, n)
        ensures At(q, a, n) == At(p, a, n)
        ensures v.hash(At(q, a, n)) in q.byHash && q.byHash[v.hash(At(q, a, n))] == (a, n)
      {
        RemoveMembers(p, h, a, n);
      }
      if NoStale(v, p) {
        forall k | k in q.byHash
          ensures Pooled(q, q.byHash[k].0, q.byHash[k].1)
                  && v.hash(At(q, q.byHash[k].0, q.byHash[k].1)) == k
        {
          assert k in p.byHash && q.byHash[k] == p.byHash[k];
          RemoveMembers(p, h, p.byHash[k].0, p.byHash[k].1);
        }
      }
    }
  }

  lemma RemoveSize(p: Pool, h: U256)
    ensures Size(Remove(p, h)) <= Size(p)
  {
    if h in p.byHash && p.byHash[h].0 in p.bySender {
      var q, a := Remove(p, h), p.byHash[h].0;
      var others := p.bySender.Keys - {a};
      var left := p.bySender[a] - {p.byHash[h].1};
      SumPick(p.bySender.Keys, Counts(p.bySender), a);
      SumAgree(others, Counts(p.bySender), Counts(q.bySender));
      assert left.Keys <= p.bySender[a].Keys;
      SubsetSize(left.Keys, p.bySender[a].Keys);
      if left == map[] {
        assert q.bySender.Keys == others;
      } else {
        assert q.bySender.Keys == others + {a};
        SumUnion(others, {a}, Counts(q.bySender));
        SumSingle(a, Counts(q.bySender));
        assert |left| == |left.Keys| && |p.bySender[a]| == |p.bySender[a].Keys|;
      }
    }
  }

  lemma SubsetSize<T>(x: set<T>, y: set<T>)
    requires x <= y
    ensures |x| <= |y|
  {
    assert y == x + (y - x);
  }

  // A pooled transaction is returned for its own hash, always.
  lemma PooledIsFound(v: View, p: Pool, a: Address, n: U64)
    requires Indexed(v, p) && Pooled(p, a, n)
    ensures GetByHash(p, v.hash(At(p, a, n))) == Some(At(p, a, n))
  {}

  // Without stale hashes, lookup returns exactly the pooled transaction of that hash.
  lemma FoundIff(v: View, p: Pool, h: U256, tx: SignedTransaction)
    requires Inv(v, p) && NoStale(v, p)
    ensures GetByHash(p, h) == Some(tx)
       <==> exists a: Address, n: U64 :: Pooled(p, a, n) && At(p, a, n) == tx && v.hash(tx) == h
  {
    if GetByHash(p, h) == Some(tx) {
      assert Pooled(p, p.byHash[h].0, p.byHash[h].1);
    }
  }

  // ---------- runs ----------

  datatype Op = Insert(tx: SignedTransaction) | Discard(hash: U256)

  ghost predicate Next(v: View, max: nat, p: Pool, op: Op, q: Pool) {
    match op
    case Insert(tx) => InsertsTo(v, max, p, tx, q)
    case Discard(h) => q == Remove(p, h)
  }

  // `ps` are the pools a run over `ops` passes through, up to any point.
  ghost predicate IsRun(v: View, max: nat, ps: seq<Pool>, ops: seq<Op>) {
    && 1 <= |ps| <= |ops| + 1 && ps[0] == EMPTY
    && forall i :: 0 <= i < |ps| - 1 ==> Next(v, max, ps[i], ops[i], ps[i + 1])
  }

  // In every run the invariant and the capacity bound hold at every point.
  lemma {:induction false} RunKeeps(v: View, max: nat, ps: seq<Pool>, ops: seq<Op>, i: nat)
    requires IsRun(v, max, ps, ops) && i < |ps|
    ensures Inv(v, ps[i]) && Size(ps[i]) <= max
  {
    if i == 0 {
      SumEmpty(Counts(map[]));
      assert EMPTY.bySender.Keys == {};
    } else {
      RunKeeps(v, max, ps, ops, i - 1);
      assert Next(v, max, ps[i - 1], ops[i - 1], ps[i]);
      match ops[i - 1]
      case Insert(tx) =>
        InsertKeeps(v, max, ps[i - 1], tx, ps[i]);
      case Discard(h) =>
        RemoveKeeps(v, ps[i - 1], h);
        RemoveSize(ps[i - 1], h);
    }
  }

  // At any point of any run, a new transaction for a pooled nonce replaces the old one.
  lemma RunReplaces(v: View, max: nat, ps: seq<Pool>, ops: seq<Op>, i: nat, tx: SignedTransaction,
                    a: Address)
    requires IsRun(v, max, ps, ops) && i + 1 < |ps| && ops[i] == Insert(tx)
    requires v.sender(tx) == Some(a) && v.hash(tx) !in ps[i].byHash
    requires Pooled(ps[i], a, tx.transaction.nonce)
    ensures Pooled(ps[i + 1], a, tx.transaction.nonce) && At(ps[i + 1], a, tx.transaction.nonce) == tx
    ensures GetByHash(ps[i + 1], v.hash(tx)) == Some(tx)
    ensures GetByHash(ps[i + 1], v.hash(At(ps[i], a, tx.transaction.nonce))) == None
  {
    RunKeeps(v, max, ps, ops, i);
    assert Next(v, max, ps[i], ops[i], ps[i + 1]);
    ReplacementIsTaken(v, max, ps[i], tx, a, ps[i + 1]);
  }

  // Whichever of the cheapest senders eviction meets, it holds a single transaction.
  ghost predicate CheapestAreLone(p: Pool) {
    forall a {:trigger Cheapest(p, a)} :: Cheapest(p, a) ==> |p.bySender[a]| == 1
  }

  lemma EvictsCheapest(v: View, r: Pool, a: Address)
    requires NoEmptySender(r) && Cheapest(r, a)
    ensures SomeEviction(v, r, 1, Drop(v, r, a, 1))
  {
    NonEmptySize(r.bySender[a]);
    var q := Drop(v, r, a, 1);
    assert Evictable(v, q, 0, []) && AfterEviction(v, q, 0, []) == q;
    assert StillNeeded(r, 1, a) == 0 && [a][1..] == [];
    assert EvictsTo(v, r, 1, [a], q);
  }

  // Making one place leaves no stale hash, however ties are broken, exactly when every cheapest
  // sender holds a single transaction.
  lemma OverflowExactIff(v: View, r: Pool)
    requires Inv(v, r) && NoStale(v, r) && Size(r) >= 1
    ensures (forall q :: SomeEviction(v, r, 1, q) ==> NoStale(v, q)) <==> CheapestAreLone(r)
  {
    if CheapestAreLone(r) {
      forall q | SomeEviction(v, r, 1, q) ensures NoStale(v, q) {
        var a := OverflowOfOne(v, r, q);
      }
    }
    if forall q :: SomeEviction(v, r, 1, q) ==> NoStale(v, q) {
      forall a | Cheapest(r, a) ensures |r.bySender[a]| == 1 {
        EvictsCheapest(v, r, a);
        DropStaleIff(v, r, a, 1);
        NonEmptySize(r.bySender[a]);
      }
    }
  }

  // What can be checked before a call: an insertion that overflows finds only lone cheapest senders.
  ghost predicate Harmless(v: View, max: nat, p: Pool, op: Op) {
    op.Insert? && Admit(v, p, op.tx).Added? && Size(Admit(v, p, op.tx).pool) > max ==>
      CheapestAreLone(Admit(v, p, op.tx).pool)
  }

  lemma TrimExactIff(v: View, max: nat, r: Pool)
    requires Inv(v, r) && NoStale(v, r) && Size(r) <= max + 1
    ensures (forall q :: TrimsTo(v, max, r, q) ==> NoStale(v, q))
       <==> (Size(r) > max ==> CheapestAreLone(r))
  {
    if Size(r) > max {
      OverflowExactIff(v, r);
      assert forall q :: TrimsTo(v, max, r, q) <==> SomeEviction(v, r, 1, q);
    } else {
      assert TrimsTo(v, max, r, r);
    }
  }

  lemma StepExactIff(v: View, max: nat, p: Pool, op: Op)
    requires Inv(v, p) && NoStale(v, p) && Size(p) <= max
    ensures (forall q :: Next(v, max, p, op, q) ==> NoStale(v, q)) <==> Harmless(v, max, p, op)
  {
    match op
    case Discard(h) =>
      RemoveKeeps(v, p, h);
    case Insert(tx) =>
      if Admit(v, p, tx).Added? {
        AdmitKeeps(v, p, tx);
        AdmitSizeIs(v, p, tx, Admit(v, p, tx).pool);
        InsertExactIff(v, max, p, tx, Admit(v, p, tx).pool);
      }
  }

  lemma InsertExactIff(v: View, max: nat, p: Pool, tx: SignedTransaction, r: Pool)
    requires Admit(v, p, tx) == Added(r) && Inv(v, r) && NoStale(v, r) && Size(r) <= max + 1
    ensures (forall q :: Next(v, max, p, Insert(tx), q) ==> NoStale(v, q))
       <==> (Size(r) > max ==> CheapestAreLone(r))
  {
    TrimExactIff(v, max, r);
    forall q ensures Next(v, max, p, Insert(tx), q) <==> TrimsTo(v, max, r, q) {
      NextIsTrim(v, max, p, tx, r, q);
    }
  }

  lemma NextIsTrim(v: View, max: nat, p: Pool, tx: SignedTransaction, r: Pool, q: Pool)
    requires Admit(v, p, tx) == Added(r)
    ensures Next(v, max, p, Insert(tx), q) <==> TrimsTo(v, max, r, q)
  {}

  lemma {:induction false} HarmlessStaysExact(v: View, max: nat, ps: seq<Pool>, ops: seq<Op>, i: nat)
    requires IsRun(v, max, ps, ops) && i < |ps|
    requires forall k :: 0 <= k < i ==> Harmless(v, max, ps[k], ops[k])
    ensures NoStale(v, ps[i])
  {
    if i > 0 {
      HarmlessStaysExact(v, max, ps, ops, i - 1);
      RunKeeps(v, max, ps, ops, i - 1);
      assert Next(v, max, ps[i - 1], ops[i - 1], ps[i]);
      StepExactIff(v, max, ps[i - 1], ops[i - 1]);
    }
  }

  // A run can take any possible outcome of its next operation.
  lemma RunContinues(v: View, max: nat, ps: seq<Pool>, ops: seq<Op>, k: nat, q: Pool)
    requires IsRun(v, max, ps, ops) && k < |ps| && k < |ops| && Next(v, max, ps[k], ops[k], q)
    ensures IsRun(v, max, ps[..k + 1] + [q], ops)
  {
    var other := ps[..k + 1] + [q];
    forall i | 0 <= i < |other| - 1 ensures Next(v, max, other[i], ops[i], other[i + 1]) {
      if i < k {
        assert Next(v, max, ps[i], ops[i], ps[i + 1]);
      }
    }
  }

  // The two maps are inverse to each other at every point of every run, however ties are broken.
  ghost predicate AlwaysExact(v: View, max: nat, ops: seq<Op>) {
    forall ps, i :: IsRun(v, max, ps, ops) && 0 <= i < |ps| ==> NoStale(v, ps[i])
  }

  ghost predicate AlwaysHarmless(v: View, max: nat, ops: seq<Op>) {
    forall ps, i :: IsRun(v, max, ps, ops) && 0 <= i < |ps| && i < |ops| ==>
      Harmless(v, max, ps[i], ops[i])
  }

  lemma ExactIsHarmless(v: View, max: nat, ps: seq<Pool>, ops: seq<Op>, k: nat)
    requires AlwaysExact(v, max, ops) && IsRun(v, max, ps, ops) && k < |ps| && k < |ops|
    ensures Harmless(v, max, ps[k], ops[k])
  {
    RunKeeps(v, max, ps, ops, k);
    forall q | Next(v, max, ps[k], ops[k], q) ensures NoStale(v, q) {
      var other := ps[..k + 1] + [q];
      RunContinues(v, max, ps, ops, k, q);
      assert other[k + 1] == q;
    }
    StepExactIff(v, max, ps[k], ops[k]);
  }

  // For any operations: all runs keep the two maps inverse to each other exactly when all runs are
  // harmless at every point.
  lemma RunExactIff(v: View, max: nat, ops: seq<Op>)
    ensures AlwaysExact(v, max, ops) <==> AlwaysHarmless(v, max, ops)
  {
    if AlwaysHarmless(v, max, ops) {
      forall ps, i | IsRun(v, max, ps, ops) && 0 <= i < |ps| ensures NoStale(v, ps[i]) {
        HarmlessStaysExact(v, max, ps, ops, i);
      }
    }
    if AlwaysExact(v, max, ops) {
      forall ps, i | IsRun(v, max, ps, ops) && 0 <= i < |ps| && i < |ops|
        ensures Harmless(v, max, ps[i], ops[i])
      {
        ExactIsHarmless(v, max, ps, ops, i);
      }
    }
  }

  // ---------- a transaction that can no longer be pooled ----------

  // A pool that holds `first` and `last` of one sender.
  function Pair(v: View, a: Address, first: SignedTransaction, last: SignedTransaction): Pool {
    var m, n := first.transaction.nonce, last.transaction.nonce;
    Pool(map[a := map[m := first, n := last]],
         map[v.hash(first) := (a, m), v.hash(last) := (a, n)])
  }

  // The state left behind: an empty pool that still knows `last`'s hash.
  function Remnant(v: View, a: Address, last: SignedTransaction): Pool {
    Pool(map[], map[v.hash(last) := (a, last.transaction.nonce)])
  }

  ghost predicate OneSender(v: View, a: Address, first: SignedTransaction, last: SignedTransaction) {
    && v.sender(first) == Some(a) && v.sender(last) == Some(a)
    && first.transaction.nonce < last.transaction.nonce <= first.transaction.nonce + MAX_NONCE_GAP
    && v.hash(first) != v.hash(last)
  }

  lemma PairIsAdmitted(v: View, a: Address, first: SignedTransaction, last: SignedTransaction)
    requires OneSender(v, a, first, last)
    ensures Admit(v, EMPTY, first) == Added(Alone(v, a, first))
    ensures Admit(v, Alone(v, a, first), last) == Added(Pair(v, a, first, last))
  {
    var p, n: U64 := Alone(v, a, first), last.transaction.nonce;
    assert p.bySender[a][n := last] == Pair(v, a, first, last).bySender[a];
  }

  lemma PairIsDropped(v: View, a: Address, first: SignedTransaction, last: SignedTransaction)
    requires OneSender(v, a, first, last)
    ensures Drop(v, Pair(v, a, first, last), a, 1) == Remnant(v, a, last)
  {
    var p := Pair(v, a, first, last);
    var slots, m: U64 := p.bySender[a], first.transaction.nonce;
    assert slots.Keys == {m, last.transaction.nonce};
    assert Least(slots.Keys) == m;
    assert FirstHashes(v, slots, slots.Keys - {m}, 0) == {};
    assert FirstHashes(v, slots, slots.Keys, 1) == {v.hash(first)};
  }

  lemma OnlySenderGoes(v: View, p: Pool, a: Address, q: Pool)
    requires p.bySender.Keys == {a} && NoEmptySender(p) && Size(p) >= 1
    requires SomeEviction(v, p, 1, q)
    ensures q == Drop(v, p, a, 1)
  {
    var order :| EvictsTo(v, p, 1, order, q);
    OneEviction(v, p, order);
    assert order[0] in p.bySender.Keys;
  }

  lemma OnlySenderOverflows(v: View, p: Pool, a: Address, tx: SignedTransaction, r: Pool, q: Pool)
    requires Size(p) <= 1 && Admit(v, p, tx) == Added(r) && Size(r) == 2
    requires r.bySender.Keys == {a} && NoEmptySender(r) && InsertsTo(v, 1, p, tx, q)
    ensures q == Drop(v, r, a, 1)
  {
    OverflowByOne(v, 1, p, tx, r, q);
    OnlySenderGoes(v, r, a, q);
  }

  // Two transactions of one sender meet in a pool for one: the second insertion evicts both, but
  // only the first one's hash goes.  The second is then refused as a duplicate, and not found.
  lemma EvictionLosesTheLast(v: View, a: Address, first: SignedTransaction, last: SignedTransaction,
                             p: Pool, q: Pool)
    requires OneSender(v, a, first, last) && p == Alone(v, a, first)
    requires InsertsTo(v, 1, p, last, q)
    ensures InsertsTo(v, 1, EMPTY, first, p)
    ensures q == Remnant(v, a, last)
    ensures Admit(v, q, last) == Duplicate && GetByHash(q, v.hash(last)) == None
  {
    FirstFits(v, a, first, last, p);
    LastOverflows(v, a, first, last, p, q);
    RemnantRefuses(v, a, last);
  }

  // Worse, when the sender pools another transaction with that nonce, the evicted one's hash leads
  // to it: it is returned for that hash, and removing that hash takes it out and leaves its own
  // hash behind.
  lemma StaleHashLeadsElsewhere(v: View, a: Address, last: SignedTransaction, other: SignedTransaction)
    requires v.sender(last) == Some(a) && v.sender(other) == Some(a)
    requires other.transaction.nonce == last.transaction.nonce && v.hash(other) != v.hash(last)
    ensures var r := Admit(v, Remnant(v, a, last), other);
            && r.Added? && Inv(v, r.pool) && Pooled(r.pool, a, other.transaction.nonce)
            && GetByHash(r.pool, v.hash(last)) == Some(other)
            && Remove(r.pool, v.hash(last)) == Remnant(v, a, other)
            && Admit(v, Remnant(v, a, other), other) == Duplicate
  {
    var p, n: U64 := Remnant(v, a, last), other.transaction.nonce;
    AdmitKeeps(v, p, other);
    var q := Admit(v, p, other).pool;
    assert q.bySender == map[a := map[n := other]];
    assert q.byHash == map[v.hash(last) := (a, n), v.hash(other) := (a, n)];
    assert SlotsOf(q, a) - {n} == map[];
    assert q.bySender - {a} == map[];
    assert q.byHash - {v.hash(last)} == map[v.hash(other) := (a, n)];
  }

  lemma FirstFits(v: View, a: Address, first: SignedTransaction, last: SignedTransaction, p: Pool)
    requires OneSender(v, a, first, last) && p == Alone(v, a, first)
    ensures InsertsTo(v, 1, EMPTY, first, p)
  {
    PairIsAdmitted(v, a, first, last);
    OneSlot(p, a);
    InsertFits(v, 1, EMPTY, first, p);
  }

  lemma LastOverflows(v: View, a: Address, first: SignedTransaction, last: SignedTransaction,
                      p: Pool, q: Pool)
    requires OneSender(v, a, first, last) && p == Alone(v, a, first)
    requires InsertsTo(v, 1, p, last, q)
    ensures q == Remnant(v, a, last)
  {
    var r := Pair(v, a, first, last);
    PairIsAdmitted(v, a, first, last);
    OneSlot(p, a);
    TwoSlots(r, a, first.transaction.nonce, last.transaction.nonce);
    OnlySenderOverflows(v, p, a, last, r, q);
    PairIsDropped(v, a, first, last);
  }

  lemma InsertFits(v: View, max: nat, p: Pool, tx: SignedTransaction, q: Pool)
    requires Admit(v, p, tx) == Added(q) && Size(q) <= max
    ensures InsertsTo(v, max, p, tx, q)
  {}

  lemma RemnantRefuses(v: View, a: Address, last: SignedTransaction)
    requires v.sender(last) == Some(a)
    ensures Admit(v, Remnant(v, a, last), last) == Duplicate
    ensures GetByHash(Remnant(v, a, last), v.hash(last)) == None
  {}

  // A pool that holds `tx` and nothing else.
  function Alone(v: View, a: Address, tx: SignedTransaction): Pool {
    Pool(map[a := map[tx.transaction.nonce := tx]], map[v.hash(tx) := (a, tx.transaction.nonce)])
  }

  lemma OneSlot(p: Pool, a: Address)
    requires p.bySender.Keys == {a} && |p.bySender[a]| == 1
    ensures Size(p) == 1
  {
    SumSingle(a, Counts(p.bySender));
  }

  lemma TwoSlots(p: Pool, a: Address, m: U64, n: U64)
    requires p.bySender.Keys == {a} && p.bySender[a].Keys == {m, n} && m != n
    ensures Size(p) == 2
  {
    assert |p.bySender[a]| == |p.bySender[a].Keys|;
    SumSingle(a, Counts(p.bySender));
  }
}
