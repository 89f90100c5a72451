/** Which candidates the production loop can run together. */
module CandidateLaws {
  import opened Base
  import opened Transactions
  import opened StateStore
  import opened PoolState
  import opened PoolLaws
  import opened Mempool
  import opened Money

  // ---------- what has run ----------

  // How many of `a`'s transactions have run.
  function Count(done: seq<Executed>, a: Address): nat {
    if done == [] then 0
    else Count(done[..|done| - 1], a) + if done[|done| - 1].sender == a then 1 else 0
  }

  // The `k`-th executed transaction was a valid one of its sender, with the next nonce in turn.
  ghost predicate InTurn(v: View, e: Entries, chainId: U64, done: seq<Executed>, k: nat)
    requires k < |done|
  {
    var a := done[k].sender;
    && v.sender(done[k].tx) == Some(a) && done[k].tx.transaction.chainId == chainId
    && done[k].tx.transaction.nonce == (Nonce(e.nonces, a) + Count(done[..k], a)) % TWO64
  }

  // Every account's nonce has moved on by the number of its executed transactions.
  ghost predicate Tracked(v: View, e: Entries, chainId: U64, w: Work) {
    && (forall a: Address :: Nonce(w.entries.nonces, a) ==
                             (Nonce(e.nonces, a) + Count(w.done, a)) % TWO64)
    && (forall k: nat :: k < |w.done| ==> InTurn(v, e, chainId, w.done, k))
  }

  lemma WrapOnce(n: nat, k: nat)
    ensures ((n + k) % TWO64 + 1) % TWO64 == (n + k + 1) % TWO64
  {}

  lemma NonceAfterRun(e: Entries, d: Entries, done: seq<Executed>, x: Executed, proposer: Address,
                      a: Address)
    requires Nonce(d.nonces, a) == (Nonce(e.nonces, a) + Count(done, a)) % TWO64
    ensures Nonce(Execute(d, x, proposer).nonces, a) ==
            (Nonce(e.nonces, a) + Count(done + [x], a)) % TWO64
  {
    CountOneMore(done, x, a);
    WrapOnce(Nonce(e.nonces, a), Count(done, a));
  }

  lemma CountOneMore(done: seq<Executed>, x: Executed, a: Address)
    ensures Count(done + [x], a) == Count(done, a) + if x.sender == a then 1 else 0
  {
    assert (done + [x])[..|done|] == done;
  }

  lemma RunTracks(v: View, chainId: U64, proposer: Address, e: Entries, w: Work, x: Executed)
    requires Tracked(v, e, chainId, w) && Includable(v, w.entries, chainId, x.tx)
    requires v.sender(x.tx) == Some(x.sender)
    ensures Tracked(v, e, chainId, w.(entries := Execute(w.entries, x, proposer), done := w.done + [x]))
  {
    var done := w.done + [x];
    assert done[..|w.done|] == w.done;
    forall a: Address
      ensures Nonce(Execute(w.entries, x, proposer).nonces, a) ==
              (Nonce(e.nonces, a) + Count(done, a)) % TWO64
    {
      NonceAfterRun(e, w.entries, w.done, x, proposer, a);
    }
    forall k: nat | k < |done| ensures InTurn(v, e, chainId, done, k) {
      if k < |w.done| {
        assert InTurn(v, e, chainId, w.done, k);
        TurnStays(v, e, chainId, w.done, x, k);
      } else {
        assert Nonce(w.entries.nonces, x.sender) ==
               (Nonce(e.nonces, x.sender) + Count(w.done, x.sender)) % TWO64;
      }
    }
  }

  lemma TurnStays(v: View, e: Entries, chainId: U64, done: seq<Executed>, x: Executed, k: nat)
    requires k < |done| && InTurn(v, e, chainId, done, k)
    ensures InTurn(v, e, chainId, done + [x], k)
  {
    assert (done + [x])[..k] == done[..k];
  }

  lemma {:induction false} LoopTracks(v: View, chainId: U64, proposer: Address, e: Entries, pool: Pool,
                                      txs: seq<SignedTransaction>, ds: seq<Decision>)
    requires |txs| <= |ds|
    ensures var w := ConsiderAll(v, chainId, proposer, Work(e, [], pool), txs, ds);
            Tracked(v, e, chainId, w) && |w.done| <= |txs|
  {
    if txs != [] {
      var n := |txs| - 1;
      LoopTracks(v, chainId, proposer, e, pool, txs[..n], ds);
      var w := ConsiderAll(v, chainId, proposer, Work(e, [], pool), txs[..n], ds);
      if Includable(v, w.entries, chainId, txs[n]) && ds[n].Run? {
        RunTracks(v, chainId, proposer, e, w, Ran(v, txs[n], ds[n].gas, ds[n].created));
      }
    }
  }

  lemma {:induction false} CountGrows(done: seq<Executed>, k: nat, l: nat, a: Address)
    requires k <= l <= |done|
    ensures Count(done[..k], a) <= Count(done[..l], a) <= Count(done[..k], a) + (l - k)
    decreases l
  {
    if k < l {
      CountGrows(done, k, l - 1, a);
      assert done[..l][..l - 1] == done[..l - 1];
    }
  }

  // What has run cannot run again: the sender's nonce has moved past it.
  lemma ExecutedIsStuck(v: View, e: Entries, chainId: U64, w: Work, k: nat)
    requires Tracked(v, e, chainId, w) && k < |w.done| < TWO64
    ensures !Includable(v, w.entries, chainId, w.done[k].tx)
  {
    var a := w.done[k].sender;
    assert InTurn(v, e, chainId, w.done, k);
    CountGrows(w.done, k + 1, |w.done|, a);
    assert w.done[..k + 1][..k] == w.done[..k] && w.done[..|w.done|] == w.done;
    CountGrows(w.done, 0, k, a);
    ResiduesDiffer(Nonce(e.nonces, a) + Count(w.done[..k], a), Nonce(e.nonces, a) + Count(w.done, a));
  }

  // In any state with the nonces the loop leaves, nothing that ran can be included again.
  lemma LoopIsGone(v: View, chainId: U64, proposer: Address, e: Entries, pool: Pool,
                   txs: seq<SignedTransaction>, ds: seq<Decision>, w: Work, f: Entries)
    requires |txs| <= |ds| && |txs| < TWO64
    requires w == ConsiderAll(v, chainId, proposer, Work(e, [], pool), txs, ds)
    requires f.nonces == w.entries.nonces
    ensures forall a: Address :: Nonce(f.nonces, a) == (Nonce(e.nonces, a) + Count(w.done, a)) % TWO64
    ensures forall m :: 0 <= m < |w.done| ==> !Includable(v, f, chainId, w.done[m].tx)
  {
    LoopTracks(v, chainId, proposer, e, pool, txs, ds);
    NoneAgain(v, e, chainId, w.(entries := f));
  }

  lemma NoneAgain(v: View, e: Entries, chainId: U64, w: Work)
    requires Tracked(v, e, chainId, w) && |w.done| < TWO64
    ensures forall m :: 0 <= m < |w.done| ==> !Includable(v, w.entries, chainId, w.done[m].tx)
  {
    forall m | 0 <= m < |w.done| ensures !Includable(v, w.entries, chainId, w.done[m].tx) {
      ExecutedIsStuck(v, e, chainId, w, m);
    }
  }

  lemma ResiduesDiffer(m: nat, n: nat)
    requires m < n < m + TWO64
    ensures m % TWO64 != n % TWO64
  {}

  // If a sender has two executed transactions, then one was its first and one its second.
  lemma FirstAndSecond(done: seq<Executed>, k: nat, l: nat) returns (p: nat, q: nat)
    requires k < l < |done| && done[k].sender == done[l].sender
    ensures p < q < |done| && done[p].sender == done[k].sender == done[q].sender
    ensures Count(done[..p], done[k].sender) == 0 && Count(done[..q], done[k].sender) == 1
  {
    var a := done[k].sender;
    p, q := 0, 0;
    while done[p].sender != a
      invariant p <= k && Count(done[..p], a) == 0
      decreases k - p
    {
      assert done[..p + 1][..p] == done[..p];
      p := p + 1;
    }
    assert done[..p + 1][..p] == done[..p];
    q := p + 1;
    while done[q].sender != a
      invariant p < q <= l && Count(done[..q], a) == 1
      decreases l - q
    {
      assert done[..q + 1][..q] == done[..q];
      q := q + 1;
    }
  }

  // ---------- candidates and what has run ----------

  // Executed transactions are candidates, with the candidates' senders, in the same order.
  ghost predicate Included(v: View, txs: seq<SignedTransaction>, done: seq<Executed>) {
    && (forall x :: x in done ==> v.sender(x.tx) == Some(x.sender) && x.tx in txs)
    && (forall i, j :: 0 <= i < j < |done| && done[i].sender == done[j].sender ==>
          exists k, l :: 0 <= k < l < |txs| && txs[k] == done[i].tx && txs[l] == done[j].tx)
  }

  lemma {:induction false} LoopIncludes(
    v: View, chainId: U64, proposer: Address, w: Work,
    txs: seq<SignedTransaction>, ds: seq<Decision>)
    requires |txs| <= |ds| && w.done == []
    ensures Included(v, txs, ConsiderAll(v, chainId, proposer, w, txs, ds).done)
  {
    if txs != [] {
      var n := |txs| - 1;
      LoopIncludes(v, chainId, proposer, w, txs[..n], ds);
      ConsiderIncludes(v, chainId, proposer,
                       ConsiderAll(v, chainId, proposer, w, txs[..n], ds), txs, ds[n]);
    }
  }

  lemma ConsiderIncludes(v: View, chainId: U64, proposer: Address, w: Work,
                         txs: seq<SignedTransaction>, d: Decision)
    requires txs != [] && Included(v, txs[..|txs| - 1], w.done)
    ensures Included(v, txs, Consider(v, chainId, proposer, w, txs[|txs| - 1], d).done)
  {
    var n := |txs| - 1;
    var front, done := txs[..n], Consider(v, chainId, proposer, w, txs[n], d).done;
    assert forall tx :: tx in front ==> tx in txs;
    forall i, j | 0 <= i < j < |done| && done[i].sender == done[j].sender
      ensures exists k, l :: 0 <= k < l < |txs| && txs[k] == done[i].tx && txs[l] == done[j].tx
    {
      if j < |w.done| {
        var k, l :| 0 <= k < l < |front| && front[k] == w.done[i].tx && front[l] == w.done[j].tx;
        assert txs[k] == done[i].tx && txs[l] == done[j].tx;
      } else {
        assert w.done[i] in w.done;
        var k :| 0 <= k < |front| && front[k] == w.done[i].tx;
        assert txs[k] == done[i].tx && txs[n] == done[j].tx;
      }
    }
  }

  // ---------- neighbours ----------

  // Two candidates of `a`, the earlier with the account's nonce and the later with the next one.
  ghost predicate NextPair(v: View, e: Entries, chainId: U64, txs: seq<SignedTransaction>,
                           a: Address, i: nat, j: nat)
  {
    && i < j < |txs| && v.sender(txs[i]) == Some(a) && v.sender(txs[j]) == Some(a)
    && txs[i].transaction.chainId == chainId && txs[j].transaction.chainId == chainId
    && txs[i].transaction.nonce == Nonce(e.nonces, a)
    && txs[j].transaction.nonce == (Nonce(e.nonces, a) + 1) % TWO64
  }

  ghost predicate HasNextPair(v: View, e: Entries, chainId: U64, txs: seq<SignedTransaction>) {
    exists a: Address, i: nat, j: nat :: NextPair(v, e, chainId, txs, a, i, j)
  }

  ghost predicate SendersDiffer(done: seq<Executed>) {
    forall k, l :: 0 <= k < l < |done| ==> done[k].sender != done[l].sender
  }

  // Without neighbours no sender runs twice, whatever the world answers.
  lemma NoPairDiffers(v: View, chainId: U64, proposer: Address, e: Entries, pool: Pool,
                      txs: seq<SignedTransaction>, ds: seq<Decision>)
    requires |txs| <= |ds| && !HasNextPair(v, e, chainId, txs)
    ensures SendersDiffer(ConsiderAll(v, chainId, proposer, Work(e, [], pool), txs, ds).done)
  {
    var w := ConsiderAll(v, chainId, proposer, Work(e, [], pool), txs, ds);
    LoopTracks(v, chainId, proposer, e, pool, txs, ds);
    LoopIncludes(v, chainId, proposer, Work(e, [], pool), txs, ds);
    forall k, l | 0 <= k < l < |w.done| ensures w.done[k].sender != w.done[l].sender {
      if w.done[k].sender == w.done[l].sender {
        PairWasThere(v, e, chainId, txs, w, k, l);
      }
    }
  }

  lemma PairWasThere(v: View, e: Entries, chainId: U64, txs: seq<SignedTransaction>, w: Work,
                     k: nat, l: nat)
    requires Tracked(v, e, chainId, w) && Included(v, txs, w.done)
    requires k < l < |w.done| && w.done[k].sender == w.done[l].sender
    ensures HasNextPair(v, e, chainId, txs)
  {
    var p, q := FirstAndSecond(w.done, k, l);
    assert InTurn(v, e, chainId, w.done, p) && InTurn(v, e, chainId, w.done, q);
    var i, j := Places(v, txs, w.done, p, q);
    TurnsArePair(v, e, chainId, txs, w.done, p, q, i, j);
  }

  // Where two executed transactions of one sender stand among the candidates.
  lemma Places(v: View, txs: seq<SignedTransaction>, done: seq<Executed>, p: nat, q: nat)
    returns (i: nat, j: nat)
    requires Included(v, txs, done) && p < q < |done| && done[p].sender == done[q].sender
    ensures i < j < |txs| && txs[i] == done[p].tx && txs[j] == done[q].tx
  {
    i, j :| 0 <= i < j < |txs| && txs[i] == done[p].tx && txs[j] == done[q].tx;
  }

  lemma TurnsArePair(v: View, e: Entries, chainId: U64, txs: seq<SignedTransaction>,
                     done: seq<Executed>, p: nat, q: nat, i: nat, j: nat)
    requires p < q < |done| && InTurn(v, e, chainId, done, p) && InTurn(v, e, chainId, done, q)
    requires done[p].sender == done[q].sender
    requires Count(done[..p], done[p].sender) == 0 && Count(done[..q], done[p].sender) == 1
    requires i < j < |txs| && txs[i] == done[p].tx && txs[j] == done[q].tx
    ensures HasNextPair(v, e, chainId, txs)
  {
    assert NextPair(v, e, chainId, txs, done[p].sender, i, j);
  }

  // ---------- neighbours that can pay ----------

  // The world lets the candidates `i` and `j` run and skips all others.
  function Only(n: nat, i: nat, j: nat, d: Decision, f: Decision): (ds: seq<Decision>)
    ensures |ds| == n
    ensures forall k :: 0 <= k < n ==> ds[k] == if k == i then d else if k == j then f else Skip
  {
    seq(n, k => if k == i then d else if k == j then f else Skip)
  }

  // The account can pay for both.
  ghost predicate Paid(e: Entries, txs: seq<SignedTransaction>, a: Address, i: nat, j: nat)
    requires i < |txs| && j < |txs|
  {
    Cost(txs[i]) + Cost(txs[j]) <= Balance(e.balances, a)
  }

  // Whoever can pay for two transactions can pay for the second once the first has run.
  lemma SecondIsPaid(v: View, chainId: U64, proposer: Address, e: Entries,
                     txs: seq<SignedTransaction>, a: Address, i: nat, j: nat, x: Executed)
    requires NextPair(v, e, chainId, txs, a, i, j) && Paid(e, txs, a, i, j)
    requires Supply(e.balances) < TWO256 - 1
    requires x.tx == txs[i] && x.sender == a && x.gasUsed <= txs[i].transaction.gasLimit
    ensures Includable(v, e, chainId, txs[i])
    ensures Includable(v, Execute(e, x, proposer), chainId, txs[j])
  {
    ExecuteIsExact(v, e, chainId, x, proposer);
    var t := txs[i].transaction;
    TimesMonotone(t.gasPrice, x.gasUsed, t.gasLimit);
    BalanceWithinSupply(e.balances, a);
    CostCovers(txs[i], Cost(txs[i]), x.gasUsed);
  }

  lemma {:induction false} OnlyRuns(v: View, chainId: U64, proposer: Address, e: Entries, pool: Pool,
                                    txs: seq<SignedTransaction>, ds: seq<Decision>, i: nat, j: nat,
                                    x: Executed, y: Executed, n: nat)
    requires i < j < |txs| && |ds| == |txs| && ds[i].Run? && ds[j].Run?
    requires forall k :: 0 <= k < |txs| && k != i && k != j ==> ds[k] == Skip
    requires Includable(v, e, chainId, txs[i]) && x == Ran(v, txs[i], ds[i].gas, ds[i].created)
    requires Includable(v, Execute(e, x, proposer), chainId, txs[j])
    requires y == Ran(v, txs[j], ds[j].gas, ds[j].created)
    requires n <= |txs|
    ensures var d := Execute(e, x, proposer);
            ConsiderAll(v, chainId, proposer, Work(e, [], pool), txs[..n], ds) ==
            if n <= i then Work(e, [], pool)
            else if n <= j then Work(d, [x], pool)
            else Work(Execute(d, y, proposer), [x, y], pool)
  {
    if n > 0 {
      OnlyRuns(v, chainId, proposer, e, pool, txs, ds, i, j, x, y, n - 1);
      assert txs[..n][..n - 1] == txs[..n - 1];
    }
  }

  // Neighbours that can pay run together when the world lets them, whatever gas they use.
  lemma PairRuns(v: View, chainId: U64, proposer: Address, e: Entries, pool: Pool,
                 txs: seq<SignedTransaction>, a: Address, i: nat, j: nat, d: Decision, f: Decision)
    requires NextPair(v, e, chainId, txs, a, i, j) && Paid(e, txs, a, i, j) && d.Run? && f.Run?
    requires Supply(e.balances) < TWO256 - 1
    ensures var ds := Only(|txs|, i, j, d, f);
            ConsiderAll(v, chainId, proposer, Work(e, [], pool), txs, ds).done ==
            [Ran(v, txs[i], d.gas, d.created), Ran(v, txs[j], f.gas, f.created)]
  {
    var x, y := Ran(v, txs[i], d.gas, d.created), Ran(v, txs[j], f.gas, f.created);
    SecondIsPaid(v, chainId, proposer, e, txs, a, i, j, x);
    OnlyRuns(v, chainId, proposer, e, pool, txs, Only(|txs|, i, j, d, f), i, j, x, y, |txs|);
    assert txs[..|txs|] == txs;
  }

  // Every pair of neighbours can pay for both.
  ghost predicate PairsPaid(v: View, e: Entries, chainId: U64, txs: seq<SignedTransaction>) {
    forall a: Address, i: nat, j: nat :: NextPair(v, e, chainId, txs, a, i, j) ==> Paid(e, txs, a, i, j)
  }

  // Whatever the world answers, no sender runs twice.
  ghost predicate AlwaysDiffer(v: View, chainId: U64, proposer: Address, e: Entries, pool: Pool,
                               txs: seq<SignedTransaction>)
  {
    forall ds: seq<Decision> :: |txs| <= |ds| ==>
      SendersDiffer(ConsiderAll(v, chainId, proposer, Work(e, [], pool), txs, ds).done)
  }

  // That is so exactly when there are no neighbours, if all of them could pay.
  lemma AlwaysDifferIff(v: View, chainId: U64, proposer: Address, e: Entries, pool: Pool,
                        txs: seq<SignedTransaction>)
    requires PairsPaid(v, e, chainId, txs) && Supply(e.balances) < TWO256 - 1
    ensures AlwaysDiffer(v, chainId, proposer, e, pool, txs) <==> !HasNextPair(v, e, chainId, txs)
  {
    if !HasNextPair(v, e, chainId, txs) {
      forall ds: seq<Decision> | |txs| <= |ds|
        ensures SendersDiffer(ConsiderAll(v, chainId, proposer, Work(e, [], pool), txs, ds).done)
      {
        NoPairDiffers(v, chainId, proposer, e, pool, txs, ds);
      }
    } else {
      var a: Address, i: nat, j: nat :| NextPair(v, e, chainId, txs, a, i, j);
      var d := Run(0, 0);
      PairRuns(v, chainId, proposer, e, pool, txs, a, i, j, d, d);
      var done := ConsiderAll(v, chainId, proposer, Work(e, [], pool), txs, Only(|txs|, i, j, d, d)).done;
      assert done[0].sender == a == done[1].sender;
    }
  }

  // ---------- one transaction per sender ----------

  // No sender has two transactions in the pool.
  ghost predicate OnePerSender(p: Pool) {
    forall a :: a in p.bySender ==> |p.bySender[a]| <= 1
  }

  lemma OneNonce(m: Slots, x: U64, y: U64)
    requires |m| <= 1 && x in m && y in m
    ensures x == y
  {
    if x != y {
      assert {x, y} <= m.Keys && |{x, y}| == 2 && |m| == |m.Keys|;
      SubsetSize({x, y}, m.Keys);
    }
  }

  lemma CandidatesApart(v: View, p: Pool, limit: nat, txs: seq<SignedTransaction>)
    requires Filed(v, p) && OnePerSender(p) && IsBest(v, p, limit, txs)
    ensures forall i :: 0 <= i < |txs| ==> v.sender(txs[i]).Some?
    ensures forall i, j :: 0 <= i < j < |txs| ==> v.sender(txs[i]) != v.sender(txs[j])
  {
    forall i | 0 <= i < |txs| ensures v.sender(txs[i]).Some? {
      assert txs[i] in txs;
      PlaceOf(v, p, txs[i]);
    }
    forall i, j | 0 <= i < j < |txs| ensures v.sender(txs[i]) != v.sender(txs[j]) {
      assert txs[i] in txs && txs[j] in txs;
      PlaceOf(v, p, txs[i]);
      PlaceOf(v, p, txs[j]);
      if v.sender(txs[i]) == v.sender(txs[j]) {
        OneNonce(p.bySender[v.sender(txs[i]).value], txs[i].transaction.nonce,
                 txs[j].transaction.nonce);
      }
    }
  }

  // Then there are no neighbours.
  lemma OnePerSenderHasNoPair(v: View, p: Pool, limit: nat, e: Entries, chainId: U64,
                              txs: seq<SignedTransaction>)
    requires Filed(v, p) && OnePerSender(p) && IsBest(v, p, limit, txs)
    ensures !HasNextPair(v, e, chainId, txs)
  {
    CandidatesApart(v, p, limit, txs);
  }
}
