/** Registration, delegation, slashing, and the list of active validators. */
module ValidatorSet {
  import opened Base
  import opened Proposer

  const MAX_VALIDATORS: nat := 1000

  datatype Delegation = Delegation(delegator: Address, validator: Address, amount: U256)

  datatype Registry = Registry(
    validators: map<Address, ValidatorInfo>, delegations: seq<Delegation>)

  // The saturating sum of what was delegated to `a`, oldest first.
  function DelegatedTo(ds: seq<Delegation>, a: Address): U256 {
    if ds == [] then 0
    else
      var n := |ds| - 1;
      if ds[n].validator == a then SatAdd(TWO256, DelegatedTo(ds[..n], a), ds[n].amount)
      else DelegatedTo(ds[..n], a)
  }

  function RegisterFault(r: Registry, a: Address, stake: U256): Option<string> {
    if stake < MIN_STAKE then Some("stake below minimum")
    else if |r.validators| >= MAX_VALIDATORS && a !in r.validators then Some("validator set full")
    else None
  }

  function Registered(r: Registry, a: Address, stake: U256, bps: nat): Registry {
    r.(validators := r.validators[a := ValidatorInfo(a, stake, DelegatedTo(r.delegations, a), bps, true)])
  }

  function DelegateFault(r: Registry, a: Address): Option<string> {
    if a !in r.validators then Some("validator not found")
    else if !r.validators[a].active then Some("validator inactive")
    else None
  }

  function Delegated(r: Registry, d: Delegation): Registry
    requires d.validator in r.validators
  {
    var v := r.validators[d.validator];
    Registry(r.validators[d.validator := v.(delegated := SatAdd(TWO256, v.delegated, d.amount))],
             r.delegations + [d])
  }

  function Slashed(r: Registry, a: Address, amount: U256, deactivate: bool): Registry {
    if a !in r.validators then r
    else
      var v := r.validators[a];
      r.(validators := r.validators[a := v.(stake := SatSub(v.stake, amount),
                                             active := v.active && !deactivate)])
  }

  // Every validator is filed under its address, its delegated total is what the list of
  // delegations says, and the set is not overfull.
  ghost predicate Consistent(r: Registry) {
    && |r.validators| <= MAX_VALIDATORS
    && forall a :: a in r.validators ==>
         r.validators[a].address == a
         && r.validators[a].delegated == DelegatedTo(r.delegations, a)
  }

  lemma RegisterKeeps(r: Registry, a: Address, stake: U256, bps: nat)
    requires Consistent(r) && RegisterFault(r, a, stake).None?
    ensures Consistent(Registered(r, a, stake, bps))
  {
    var m := Registered(r, a, stake, bps).validators;
    assert m.Keys == r.validators.Keys + {a};
    assert |m| == |m.Keys| && |r.validators| == |r.validators.Keys|;
    if a in r.validators {
      assert m.Keys == r.validators.Keys;
    }
  }

  lemma DelegateKeeps(r: Registry, d: Delegation)
    requires Consistent(r) && d.validator in r.validators
    ensures Consistent(Delegated(r, d))
  {
    var q := Delegated(r, d);
    assert q.delegations[..|r.delegations|] == r.delegations;
    assert q.validators.Keys == r.validators.Keys;
    assert |q.validators| == |q.validators.Keys| && |r.validators| == |r.validators.Keys|;
  }

  lemma SlashKeeps(r: Registry, a: Address, amount: U256, deactivate: bool)
    requires Consistent(r)
    ensures Consistent(Slashed(r, a, amount, deactivate))
  {
    if a in r.validators {
      var q := Slashed(r, a, amount, deactivate);
      assert q.validators.Keys == r.validators.Keys;
      assert |q.validators| == |q.validators.Keys| && |r.validators| == |r.validators.Keys|;
    }
  }

  predicate IsActive(v: ValidatorInfo) {
    v.active && v.TotalStake() >= MIN_STAKE
  }

  // `vs` lists the active validators among `keys`, lowest address first.
  ghost predicate ListsActive(m: map<Address, ValidatorInfo>, keys: set<Address>, vs: seq<ValidatorInfo>) {
    && (forall i, j :: 0 <= i < j < |vs| ==> vs[i].address < vs[j].address)
    && (forall v :: v in vs <==> exists a :: a in keys && a in m && m[a] == v && IsActive(v))
  }

  class ValidatorSet {
    var validators: map<Address, ValidatorInfo>
    var delegations: seq<Delegation>

    ghost function Contents(): Registry
      reads this
    {
      Registry(validators, delegations)
    }

    constructor ()
      ensures Contents() == Registry(map[], []) && Consistent(Contents())
    {
      validators, delegations := map[], [];
    }

    // The stake is converted to 128 bits.
    method Register(a: Address, stake: U256, bps: nat) returns (fault: Option<string>)
      requires Consistent(Contents()) && stake < TWO128
      modifies this
      ensures Consistent(Contents()) && fault == RegisterFault(old(Contents()), a, stake)
      ensures Contents() == if fault.None? then Registered(old(Contents()), a, stake, bps)
                            else old(Contents())
    {
      if stake < MIN_STAKE {
        return Some("stake below minimum");
      }
      if |validators| >= MAX_VALIDATORS && a !in validators {
        return Some("validator set full");
      }
      var delegated: U256 := 0;
      for i := 0 to |delegations|
        invariant delegated == DelegatedTo(delegations[..i], a)
        invariant Contents() == old(Contents())
      {
        assert delegations[..i + 1][..i] == delegations[..i];
        if delegations[i].validator == a {
          delegated := SatAdd(TWO256, delegated, delegations[i].amount);
        }
      }
      assert delegations[..|delegations|] == delegations;
      RegisterKeeps(Contents(), a, stake, bps);
      validators := validators[a := ValidatorInfo(a, stake, delegated, bps, true)];
      fault := None;
    }

    method Delegate(delegator: Address, a: Address, amount: U256) returns (fault: Option<string>)
      requires Consistent(Contents())
      modifies this
      ensures Consistent(Contents())
      ensures fault == if amount == 0 then None else DelegateFault(old(Contents()), a)
      ensures Contents() == if amount == 0 || fault.Some? then old(Contents())
                            else Delegated(old(Contents()), Delegation(delegator, a, amount))
    {
      if amount == 0 {
        return None;
      }
      if a !in validators {
        return Some("validator not found");
      }
      var v := validators[a];
      if !v.active {
        return Some("validator inactive");
      }
      DelegateKeeps(Contents(), Delegation(delegator, a, amount));
      validators := validators[a := v.(delegated := SatAdd(TWO256, v.delegated, amount))];
      delegations := delegations + [Delegation(delegator, a, amount)];
      fault := None;
    }

    method Slash(a: Address, amount: U256, deactivate: bool)
      requires Consistent(Contents())
      modifies this
      ensures Consistent(Contents())
      ensures Contents() == Slashed(old(Contents()), a, amount, deactivate)
    {
      SlashKeeps(Contents(), a, amount, deactivate);
      if a in validators {
        var v := validators[a];
        validators := validators[a := v.(stake := SatSub(v.stake, amount),
                                         active := v.active && !deactivate)];
      }
    }

    method ActiveValidators() returns (vs: seq<ValidatorInfo>)
      requires Consistent(Contents())
      ensures ListsActive(validators, validators.Keys, vs) && AllStaked(vs)
    {
      vs := [];
      ghost var done: set<Address> := {};
      var rest := validators.Keys;
      while rest != {}
        invariant Scanned(validators, done, rest, vs)
      {
        ghost var least := Least(rest);
        assert least in rest && forall b :: b in rest ==> least <= b;
        var a: Address :| a in rest && forall b :: b in rest ==> a <= b;
        ScanNext(validators, done, rest, vs, a);
        if IsActive(validators[a]) {
          vs := vs + [validators[a]];
        }
        done, rest := done + {a}, rest - {a};
      }
      assert done == validators.Keys;
    }
  }

  // The walk over the map has dealt with `done`, and `rest` is to come.
  ghost predicate Scanned(m: map<Address, ValidatorInfo>, done: set<Address>, rest: set<Address>,
                          vs: seq<ValidatorInfo>) {
    && done + rest == m.Keys && done !! rest && Before(done, rest)
    && ListsActive(m, done, vs) && AllStaked(vs)
  }

  lemma ScanNext(m: map<Address, ValidatorInfo>, done: set<Address>, rest: set<Address>,
                 vs: seq<ValidatorInfo>, a: Address)
    requires Scanned(m, done, rest, vs) && a in rest && forall b :: b in rest ==> a <= b
    requires forall b :: b in m ==> m[b].address == b
    ensures Scanned(m, done + {a}, rest - {a}, if IsActive(m[a]) then vs + [m[a]] else vs)
  {
    MoveLeast(done, rest, a);
    ActiveNext(m, done, vs, a);
  }

  lemma ActiveNext(m: map<Address, ValidatorInfo>, done: set<Address>, vs: seq<ValidatorInfo>, a: Address)
    requires a in m && m[a].address == a && done <= m.Keys && a !in done
    requires forall b :: b in done ==> b < a && m[b].address == b
    requires ListsActive(m, done, vs) && AllStaked(vs)
    ensures var more := if IsActive(m[a]) then vs + [m[a]] else vs;
            ListsActive(m, done + {a}, more) && AllStaked(more)
  {
    var more := if IsActive(m[a]) then vs + [m[a]] else vs;
    forall i | 0 <= i < |vs| ensures vs[i].address < a {
      assert vs[i] in vs;
    }
    forall v ensures v in more <==> exists b :: b in done + {a} && b in m && m[b] == v && IsActive(v) {
      if v in more && v !in vs {
        assert v == m[a] && a in done + {a};
      }
      if v in vs {
        var b :| b in done && b in m && m[b] == v;
        assert b in done + {a};
      }
    }
  }

  lemma LowestIsFirst(m: map<Address, ValidatorInfo>, vs: seq<ValidatorInfo>)
    requires ListsActive(m, m.Keys, vs) && vs != []
    requires forall a :: a in m ==> m[a].address == a
    ensures vs[0].address in m && IsActive(m[vs[0].address])
    ensures forall a :: a in m && IsActive(m[a]) ==> vs[0].address <= a
  {
    assert vs[0] in vs;
    forall a | a in m && IsActive(m[a]) ensures vs[0].address <= a {
      assert m[a] in vs;
      var i :| 0 <= i < |vs| && vs[i] == m[a];
    }
  }

  // The proposer the node computes is the active validator of lowest address, whatever the
  // stakes, and there is none only if nobody is active.
  lemma ProposerIsLowest(c: Crypto, r: Registry, vs: seq<ValidatorInfo>, number: U64, parent: Bytes32)
    requires Consistent(r) && ListsActive(r.validators, r.validators.Keys, vs) && AllStaked(vs)
    ensures match Chosen(c, vs, number, parent)
            case None => forall a :: a in r.validators ==> !IsActive(r.validators[a])
            case Some(p) =>
              && p in r.validators && IsActive(r.validators[p])
              && forall a :: a in r.validators && IsActive(r.validators[a]) ==> p <= a
  {
    if vs != [] {
      FirstIsAlwaysChosen(c, vs, number, parent);
      LowestIsFirst(r.validators, vs);
    } else {
      forall a | a in r.validators ensures !IsActive(r.validators[a]) {
        assert r.validators[a] !in vs;
      }
    }
  }

  // ---------- what the operations do ----------

  // A validator counts with at least ten thousand coins of 10^18 units, its own and delegated ones.
  lemma ActiveIff(v: ValidatorInfo)
    ensures IsActive(v) <==> v.active && v.stake + v.delegated >= 10_000 * 1_000_000_000_000_000_000
  {}

  ghost predicate ActiveIn(r: Registry, a: Address) {
    a in r.validators && IsActive(r.validators[a])
  }

  // The total delegated is the plain sum of the amounts, capped once.
  function ExactDelegatedTo(ds: seq<Delegation>, a: Address): nat {
    if ds == [] then 0
    else
      var n := |ds| - 1;
      ExactDelegatedTo(ds[..n], a) + if ds[n].validator == a then ds[n].amount else 0
  }

  lemma {:induction false} DelegatedIsCapped(ds: seq<Delegation>, a: Address)
    ensures DelegatedTo(ds, a) == Cap(TWO256, ExactDelegatedTo(ds, a))
  {
    if ds != [] {
      DelegatedIsCapped(ds[..|ds| - 1], a);
    }
  }

  // Registration succeeds with the minimum stake and room among the thousand, or for a validator
  // that is registered already; then the validator is active, with this stake and all that was ever
  // delegated to it, and nobody else is touched.
  lemma RegistrationIs(r: Registry, a: Address, stake: U256, bps: nat)
    requires Consistent(r)
    ensures RegisterFault(r, a, stake).None?
       <==> stake >= 10_000 * 1_000_000_000_000_000_000 && (|r.validators| < 1000 || a in r.validators)
    ensures var q := Registered(r, a, stake, bps);
            && a in q.validators && q.validators[a].stake == stake && q.validators[a].active
            && q.validators[a].delegated == Cap(TWO256, ExactDelegatedTo(r.delegations, a))
            && (RegisterFault(r, a, stake).None? ==> ActiveIn(q, a))
            && q.delegations == r.delegations
            && forall b :: b != a ==> (ActiveIn(q, b) <==> ActiveIn(r, b))
  {
    DelegatedIsCapped(r.delegations, a);
  }

  // A delegation to a registered, active validator raises its total by the amount, up to the cap; it
  // is refused exactly for the others.
  lemma DelegationIs(r: Registry, d: Delegation)
    requires Consistent(r) && d.validator in r.validators
    ensures DelegateFault(r, d.validator).None? <==> r.validators[d.validator].active
    ensures var q := Delegated(r, d);
            && q.validators[d.validator].delegated ==
               Cap(TWO256, ExactDelegatedTo(r.delegations, d.validator) + d.amount)
            && q.validators[d.validator].stake == r.validators[d.validator].stake
            && (ActiveIn(r, d.validator) ==> ActiveIn(q, d.validator))
            && forall b :: b != d.validator ==> (ActiveIn(q, b) <==> ActiveIn(r, b))
  {
    DelegatedIsCapped(r.delegations, d.validator);
  }

  // A slash takes the amount from the own stake, or all of it.  A deactivated validator is not
  // active, whatever it still holds, and has no turn while anybody else is; the others are not
  // touched.
  lemma SlashIs(r: Registry, a: Address, amount: U256, deactivate: bool)
    requires a in r.validators
    ensures var q := Slashed(r, a, amount, deactivate);
            && a in q.validators
            && q.validators[a].stake ==
               (if amount <= r.validators[a].stake then r.validators[a].stake - amount else 0)
            && q.validators[a].delegated == r.validators[a].delegated
            && (deactivate ==> !ActiveIn(q, a))
            && (deactivate && (exists b :: ActiveIn(q, b)) ==> !MayPropose(q, a))
            && forall b :: b != a ==> (ActiveIn(q, b) <==> ActiveIn(r, b))
  {
    var q := Slashed(r, a, amount, deactivate);
    if deactivate {
      if b :| ActiveIn(q, b) {
        assert b in q.validators && IsActive(q.validators[b]);
      }
    }
  }

  // Deactivation lasts until the validator registers again: delegations and slashes do not lift it.
  lemma DeactivationLasts(r: Registry, a: Address, d: Delegation, b: Address, amount: U256, off: bool)
    requires Consistent(r) && a in r.validators && !r.validators[a].active
    ensures d.validator in r.validators && DelegateFault(r, d.validator).None? ==>
              !ActiveIn(Delegated(r, d), a)
    ensures !ActiveIn(Slashed(r, b, amount, off), a)
    ensures b != a ==> !ActiveIn(Registered(r, b, amount, 0), a)
  {}

  // No conversion of an active validator's stake to 128 bits fails.
  ghost predicate StakesFit(r: Registry) {
    forall a :: a in r.validators && IsActive(r.validators[a]) ==> r.validators[a].TotalStake() < TWO128
  }

  // `a` is the active validator of lowest address, or nobody is active.
  ghost predicate MayPropose(r: Registry, a: Address) {
    && ((exists b :: b in r.validators && IsActive(r.validators[b])) ==>
          a in r.validators && IsActive(r.validators[a]))
    && forall b :: b in r.validators && IsActive(r.validators[b]) ==> a <= b
  }

  // Whether it is `a`'s turn at block `number`; without a validator set anybody may propose.
  method ItsTurn(c: Crypto, validators: ValidatorSet?, number: U64, parent: Bytes32, a: Address)
    returns (turn: bool)
    requires validators != null ==> Consistent(validators.Contents()) && StakesFit(validators.Contents())
    ensures turn <==> validators == null || MayPropose(validators.Contents(), a)
  {
    if validators == null {
      return true;
    }
    var active := validators.ActiveValidators();
    forall v | v in active ensures v.TotalStake() < TWO128 {
      var b :| b in validators.validators && validators.validators[b] == v && IsActive(v);
    }
    var proposer := SelectProposer(c, active, number, parent);
    ProposerIsLowest(c, validators.Contents(), active, number, parent);
    turn := proposer.None? || proposer.value == a;
  }
}
