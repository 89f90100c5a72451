/** The account changes of one block: transfers, fees, and the burn. */
module Money {
  import opened Base
  import opened Sums
  import opened Transactions
  import opened StateStore
  import opened PoolState

  // ---------- supply ----------

  ghost function Holdings(m: Balances): Address -> nat {
    (a: Address) => Balance(m, a)
  }

  ghost function Supply(m: Balances): nat {
    Sum(m.Keys, Holdings(m))
  }

  lemma SupplyAfterUpdate(m: Balances, a: Address, v: U256)
    ensures Supply(m[a := v]) + Balance(m, a) == Supply(m) + v
  {
    var n, others := m[a := v], m.Keys - {a};
    assert n.Keys - {a} == others;
    SumPick(n.Keys, Holdings(n), a);
    SumAgree(others, Holdings(m), Holdings(n));
    if a in m {
      SumPick(m.Keys, Holdings(m), a);
    } else {
      assert m.Keys == others;
    }
  }

  lemma BalanceWithinSupply(m: Balances, a: Address)
    ensures Balance(m, a) <= Supply(m)
  {
    if a in m {
      SumPick(m.Keys, Holdings(m), a);
    }
  }

  // ---------- moving value ----------

  function Debit(m: Balances, a: Address, x: nat): Balances {
    m[a := SatSub(Balance(m, a), x)]
  }

  function Credit(m: Balances, a: Address, x: nat): Balances {
    m[a := SatAdd(TWO256, Balance(m, a), x)]
  }

  function Move(m: Balances, from: Address, to: Address, x: nat): Balances {
    Credit(Debit(m, from, x), to, x)
  }

  // A covered transfer under a representable supply is exact: nothing saturates.
  lemma MoveIsExact(m: Balances, from: Address, to: Address, x: nat)
    requires x <= Balance(m, from) && Supply(m) < TWO256
    ensures Supply(Move(m, from, to, x)) == Supply(m)
    ensures forall a: Address :: Balance(Move(m, from, to, x), a) ==
              Balance(m, a) - (if a == from then x else 0) + (if a == to then x else 0)
  {
    var d := Debit(m, from, x);
    SupplyAfterUpdate(m, from, SatSub(Balance(m, from), x));
    BalanceWithinSupply(d, to);
    SupplyAfterUpdate(d, to, SatAdd(TWO256, Balance(d, to), x));
  }

  // ---------- one transaction ----------

  // `value + gas_price * gas_limit`, saturating.
  function Cost(tx: SignedTransaction): U256 {
    SatAdd(TWO256, tx.transaction.value, GasFee(tx, tx.transaction.gasLimit))
  }

  // `validate_tx_basic` and `validate_tx_against_state`.
  predicate Includable(v: View, e: Entries, chainId: U64, tx: SignedTransaction) {
    && tx.transaction.chainId == chainId
    && v.sender(tx).Some?
    && Balance(e.balances, v.sender(tx).value) >= Cost(tx)
    && tx.transaction.nonce == Nonce(e.nonces, v.sender(tx).value)
  }

  // An executed transaction: who paid whom, and the gas used.
  datatype Executed = Executed(
    tx: SignedTransaction, sender: Address, recipient: Address, gasUsed: nat)

  function Fee(x: Executed): nat {
    x.tx.transaction.gasPrice * x.gasUsed
  }

  // The step taken for the virtual machine: value to the recipient, the gas fee to the proposer,
  // and the sender's nonce up by one.
  function Execute(e: Entries, x: Executed, proposer: Address): Entries {
    var paid := Move(e.balances, x.sender, x.recipient, x.tx.transaction.value);
    Entries(Move(paid, x.sender, proposer, GasFee(x.tx, x.gasUsed)),
            e.nonces[x.sender := (Nonce(e.nonces, x.sender) + 1) % TWO64])
  }

  lemma TimesMonotone(p: nat, a: nat, b: nat)
    requires a <= b
    ensures p * a <= p * b
  {
    assert p * b == p * a + p * (b - a);
  }

  // A validated transaction is paid for in full: supply is kept, and every account changes by
  // exactly what it sent, received, paid and earned.
  lemma ExecuteIsExact(v: View, e: Entries, chainId: U64, x: Executed, proposer: Address)
    requires Includable(v, e, chainId, x.tx) && v.sender(x.tx) == Some(x.sender)
    requires x.gasUsed <= x.tx.transaction.gasLimit && Supply(e.balances) < TWO256 - 1
    ensures Fee(x) < TWO256
    ensures Supply(Execute(e, x, proposer).balances) == Supply(e.balances)
    ensures forall a: Address :: Balance(Execute(e, x, proposer).balances, a) ==
              Balance(e.balances, a)
              - (if a == x.sender then x.tx.transaction.value + Fee(x) else 0)
              + (if a == x.recipient then x.tx.transaction.value else 0)
              + (if a == proposer then Fee(x) else 0)
  {
    var t := x.tx.transaction;
    TimesMonotone(t.gasPrice, x.gasUsed, t.gasLimit);
    BalanceWithinSupply(e.balances, x.sender);
    CostCovers(x.tx, Balance(e.balances, x.sender), x.gasUsed);
    MoveIsExact(e.balances, x.sender, x.recipient, t.value);
    MoveIsExact(Move(e.balances, x.sender, x.recipient, t.value), x.sender, proposer,
                GasFee(x.tx, x.gasUsed));
  }

  lemma CostCovers(tx: SignedTransaction, balance: nat, gas: nat)
    requires Cost(tx) <= balance < TWO256 - 1
    requires tx.transaction.gasPrice * gas <= tx.transaction.gasPrice * tx.transaction.gasLimit
    ensures GasFee(tx, gas) == tx.transaction.gasPrice * gas
    ensures tx.transaction.value + tx.transaction.gasPrice * gas <= balance
  {}

  // ---------- the candidates of a block ----------

  // What the fraud check and the virtual machine say about a candidate.  `created` is the
  // recipient of a contract creation.
  datatype Decision = Skip | Reject | Run(gas: nat, created: Address)

  datatype Work = Work(entries: Entries, done: seq<Executed>, pool: Pool)

  function Recipient(tx: SignedTransaction, created: Address): Address {
    match tx.transaction.to
    case Some(a) => a
    case None => created
  }

  function Ran(v: View, tx: SignedTransaction, gas: nat, created: Address): Executed
    requires v.sender(tx).Some?
  {
    Executed(tx, v.sender(tx).value, Recipient(tx, created), Min(gas, tx.transaction.gasLimit))
  }

  // One round of the candidate loop.
  function Consider(
    v: View, chainId: U64, proposer: Address, w: Work, tx: SignedTransaction, d: Decision): Work
  {
    if !Includable(v, w.entries, chainId, tx) then w
    else
      match d
      case Skip => w
      case Reject => w.(pool := PoolState.Remove(w.pool, v.hash(tx)))
      case Run(gas, created) =>
        var x := Ran(v, tx, gas, created);
        w.(entries := Execute(w.entries, x, proposer), done := w.done + [x])
  }

  function ConsiderAll(v: View, chainId: U64, proposer: Address, w: Work,
                       txs: seq<SignedTransaction>, ds: seq<Decision>): Work
    requires |txs| <= |ds|
  {
    if txs == [] then w
    else
      var n := |txs| - 1;
      Consider(v, chainId, proposer, ConsiderAll(v, chainId, proposer, w, txs[..n], ds), txs[n], ds[n])
  }

  // ---------- fees and burn ----------

  // The fold of `total_gas_fees`.
  function GasFees(done: seq<Executed>): U256 {
    if done == [] then 0
    else
      var n := |done| - 1;
      SatAdd(TWO256, GasFees(done[..n]), GasFee(done[n].tx, done[n].gasUsed))
  }

  // The same without saturation.
  function ExactFees(done: seq<Executed>): nat {
    if done == [] then 0 else ExactFees(done[..|done| - 1]) + Fee(done[|done| - 1])
  }

  // `split_fees`.
  function SplitFees(total: U256): (r: (U256, U256))
    ensures r.0 + r.1 == total && r.0 <= r.1 <= r.0 + 1
  {
    (total / 2, total - total / 2)
  }

  function Burnt(m: Balances, proposer: Address, burn: U256): Balances {
    if burn == 0 then m else m[proposer := SatSub(Balance(m, proposer), burn)]
  }

  // The value the proposer received as an ordinary recipient.
  function Received(done: seq<Executed>, a: Address): nat {
    if done == [] then 0
    else
      var x := done[|done| - 1];
      Received(done[..|done| - 1], a) + if x.recipient == a then x.tx.transaction.value else 0
  }

  // The loop keeps the supply; if the proposer sends nothing, it gains what was sent to it and
  // all the fees.
  ghost predicate Accounted(e: Entries, proposer: Address, w: Work) {
    && Supply(w.entries.balances) == Supply(e.balances)
    && ((forall x :: x in w.done ==> x.sender != proposer) ==>
          Balance(w.entries.balances, proposer) ==
          Balance(e.balances, proposer) + Received(w.done, proposer) + ExactFees(w.done))
  }

  lemma ConsiderAccounts(v: View, chainId: U64, proposer: Address, e: Entries, w: Work,
                         tx: SignedTransaction, d: Decision)
    requires Supply(e.balances) < TWO256 - 1 && Accounted(e, proposer, w)
    ensures Accounted(e, proposer, Consider(v, chainId, proposer, w, tx, d))
  {
    if Includable(v, w.entries, chainId, tx) && d.Run? {
      var x := Ran(v, tx, d.gas, d.created);
      var done := w.done + [x];
      ExecuteIsExact(v, w.entries, chainId, x, proposer);
      assert done[..|w.done|] == w.done && done[|w.done|] == x;
      assert forall y :: y in w.done ==> y in done;
      assert x in done;
    }
  }

  lemma {:induction false} LoopAccounts(
    v: View, chainId: U64, proposer: Address, e: Entries, pool: Pool,
    txs: seq<SignedTransaction>, ds: seq<Decision>)
    requires |txs| <= |ds| && Supply(e.balances) < TWO256 - 1
    ensures Accounted(e, proposer, ConsiderAll(v, chainId, proposer, Work(e, [], pool), txs, ds))
  {
    if txs != [] {
      var n := |txs| - 1;
      LoopAccounts(v, chainId, proposer, e, pool, txs[..n], ds);
      ConsiderAccounts(v, chainId, proposer, e,
                       ConsiderAll(v, chainId, proposer, Work(e, [], pool), txs[..n], ds),
                       txs[n], ds[n]);
    }
  }

  lemma {:induction false} FeesUnsaturated(done: seq<Executed>)
    requires ExactFees(done) < TWO256
    ensures GasFees(done) == ExactFees(done)
  {
    if done != [] {
      FeesUnsaturated(done[..|done| - 1]);
    }
  }

  // The supply falls by the burn, as far as the proposer's balance covers it.
  lemma BurnLowersSupply(m: Balances, proposer: Address, burn: U256)
    ensures Supply(Burnt(m, proposer, burn)) == Supply(m) - Min(burn, Balance(m, proposer))
  {
    if burn > 0 {
      SupplyAfterUpdate(m, proposer, SatSub(Balance(m, proposer), burn));
    }
  }

  // Supply accounting for a block whose proposer sends nothing in it: the supply falls by exactly
  // half the fees, rounded down, and the proposer keeps the other half.
  lemma BlockBurnsHalfTheFees(
    v: View, chainId: U64, proposer: Address, e: Entries, pool: Pool,
    txs: seq<SignedTransaction>, ds: seq<Decision>)
    requires |txs| <= |ds| && Supply(e.balances) < TWO256 - 1
    requires var w := ConsiderAll(v, chainId, proposer, Work(e, [], pool), txs, ds);
             forall x :: x in w.done ==> x.sender != proposer
    ensures var w := ConsiderAll(v, chainId, proposer, Work(e, [], pool), txs, ds);
            var fees := ExactFees(w.done);
            var after := Burnt(w.entries.balances, proposer, SplitFees(GasFees(w.done)).0);
            && GasFees(w.done) == fees
            && Supply(after) == Supply(e.balances) - fees / 2
            && Balance(after, proposer) ==
               Balance(e.balances, proposer) + Received(w.done, proposer) + (fees - fees / 2)
  {
    var w := ConsiderAll(v, chainId, proposer, Work(e, [], pool), txs, ds);
    LoopAccounts(v, chainId, proposer, e, pool, txs, ds);
    BalanceWithinSupply(w.entries.balances, proposer);
    FeesUnsaturated(w.done);
    BurnLowersSupply(w.entries.balances, proposer, SplitFees(GasFees(w.done)).0);
  }

  // Whoever sends: the supply falls by the burn, or by all the proposer has left if that is less.
  lemma BlockSupplyFalls(
    v: View, chainId: U64, proposer: Address, e: Entries, pool: Pool,
    txs: seq<SignedTransaction>, ds: seq<Decision>)
    requires |txs| <= |ds| && Supply(e.balances) < TWO256 - 1
    ensures var w := ConsiderAll(v, chainId, proposer, Work(e, [], pool), txs, ds);
            var burn := SplitFees(GasFees(w.done)).0;
            Supply(Burnt(w.entries.balances, proposer, burn)) ==
            Supply(e.balances) - Min(burn, Balance(w.entries.balances, proposer))
  {
    var w := ConsiderAll(v, chainId, proposer, Work(e, [], pool), txs, ds);
    LoopAccounts(v, chainId, proposer, e, pool, txs, ds);
    BurnLowersSupply(w.entries.balances, proposer, SplitFees(GasFees(w.done)).0);
  }
}
