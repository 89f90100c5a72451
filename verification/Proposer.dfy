/** The stake-weighted choice of a proposer, and who it can choose. */
module Proposer {
  import opened Base
  import Rlp

  const MIN_STAKE: int := 10_000_000_000_000_000_000_000
  const EPOCH_LENGTH: int := 32

  datatype ValidatorInfo = ValidatorInfo(
    address: Address, stake: U256, delegated: U256, commissionBps: nat, active: bool)
  {
    function TotalStake(): nat {
      SatAdd(TWO256, stake, delegated)
    }
  }

  function Stakes(vs: seq<ValidatorInfo>): (ws: seq<nat>)
    ensures |ws| == |vs|
    ensures forall i :: 0 <= i < |vs| ==> ws[i] == vs[i].TotalStake()
  {
    seq(|vs|, i requires 0 <= i < |vs| => vs[i].TotalStake())
  }

  // The sum of the first `n` weights.
  function Prefix(ws: seq<nat>, n: nat): nat
    requires n <= |ws|
  {
    if n == 0 then 0 else Prefix(ws, n - 1) + ws[n - 1]
  }

  function Total(ws: seq<nat>): nat {
    Prefix(ws, |ws|)
  }

  // The sum as the code takes it, in wrapping 128-bit arithmetic.
  function Wrapped(ws: seq<nat>): (w: nat)
    ensures w <= Total(ws)
    ensures Total(ws) < TWO128 ==> w == Total(ws)
  {
    ModAtMost(Total(ws), TWO128);
    Total(ws) % TWO128
  }

  // The walk from place `i` on: the first place whose weight exceeds what is left of `idx`, and
  // the last place if none does.
  function WalkFrom(ws: seq<nat>, i: nat, idx: nat): (k: nat)
    requires i < |ws|
    ensures i <= k < |ws|
    decreases |ws| - i
  {
    if idx < ws[i] then i
    else if i + 1 == |ws| then |ws| - 1
    else WalkFrom(ws, i + 1, idx - ws[i])
  }

  // The place chosen for a seed.
  function Pick(ws: seq<nat>, seed: nat): nat
    requires ws != []
  {
    if Wrapped(ws) == 0 then 0 else WalkFrom(ws, 0, seed % Wrapped(ws))
  }

  // The first eight bytes of the hash of epoch, parent hash and block number.
  function Seed(c: Crypto, number: U64, parent: Bytes32): U64 {
    var digest := c.sha256(Rlp.ToBE(number / EPOCH_LENGTH, 8) + parent + Rlp.ToBE(number, 8));
    Rlp.FromBEBound(Rlp.ToBE(digest, 32)[..8]);
    Rlp.Powers();
    Rlp.FromBE(Rlp.ToBE(digest, 32)[..8])
  }

  // The seed is the digest's top 64 bits, and the digest is of the number of the 32-block epoch, the
  // parent and the block number.
  lemma SeedIsTop(c: Crypto, number: U64, parent: Bytes32)
    ensures var digest := c.sha256(Rlp.ToBE(number / 32, 8) + parent + Rlp.ToBE(number, 8));
            Seed(c, number, parent) == digest / 0x1_0000_0000_0000_0000_0000_0000_0000_0000_0000_0000_0000_0000
  {
    var digest := c.sha256(Rlp.ToBE(number / 32, 8) + parent + Rlp.ToBE(number, 8));
    var b := Rlp.ToBE(digest, 32);
    Rlp.Powers();
    Rlp.FromToBE(digest, 32);
    assert b == b[..8] + b[8..];
    Rlp.FromBEConcat(b[..8], b[8..]);
    Rlp.FromBEBound(b[8..]);
    Rlp.Power24();
    DivModIs(digest, 0x1_0000_0000_0000_0000_0000_0000_0000_0000_0000_0000_0000_0000,
             Rlp.FromBE(b[..8]), Rlp.FromBE(b[8..]));
  }

  function Chosen(c: Crypto, vs: seq<ValidatorInfo>, number: U64, parent: Bytes32): Option<Address> {
    if vs == [] then None else Some(vs[Pick(Stakes(vs), Seed(c, number, parent))].address)
  }

  lemma WrapStep(a: nat, b: nat)
    ensures (a % TWO128 + b) % TWO128 == (a + b) % TWO128
  {
    var q := a / TWO128;
    DivModIs(a + b, TWO128, q + (a % TWO128 + b) / TWO128, (a % TWO128 + b) % TWO128);
  }

  // `select_proposer`.  Every stake is converted to 128 bits.
  method SelectProposer(c: Crypto, vs: seq<ValidatorInfo>, number: U64, parent: Bytes32)
    returns (r: Option<Address>)
    requires forall v :: v in vs ==> v.TotalStake() < TWO128
    ensures r == Chosen(c, vs, number, parent)
  {
    if vs == [] {
      return None;
    }
    ghost var ws := Stakes(vs);
    var total := 0;
    for i := 0 to |vs|
      invariant total == Prefix(ws, i) % TWO128
    {
      WrapStep(Prefix(ws, i), ws[i]);
      total := (total + vs[i].TotalStake()) % TWO128;
    }
    if total == 0 {
      return Some(vs[0].address);
    }
    var idx := Seed(c, number, parent) % total;
    ghost var chosen := WalkFrom(ws, 0, idx);
    var i := 0;
    while i < |vs|
      invariant 0 <= i <= |vs|
      invariant i < |vs| ==> 0 <= idx && WalkFrom(ws, i, idx) == chosen
      invariant i == |vs| ==> chosen == |vs| - 1
    {
      var s := vs[i].TotalStake();
      if idx < s {
        return Some(vs[i].address);
      }
      idx := idx - s;
      i := i + 1;
    }
    r := Some(vs[|vs| - 1].address);
  }

  // ---------- exact counts ----------

  lemma {:induction false} PrefixMonotone(ws: seq<nat>, m: nat, n: nat)
    requires m <= n <= |ws|
    ensures Prefix(ws, m) <= Prefix(ws, n)
  {
    if m < n {
      PrefixMonotone(ws, m, n - 1);
    }
  }

  // Below the total the walk stops at the place whose interval holds `idx`; so its last resort is
  // never used.
  lemma {:induction false} WalkIff(ws: seq<nat>, i: nat, idx: nat, k: nat)
    requires i < |ws| && i <= k < |ws| && idx < Total(ws) - Prefix(ws, i)
    ensures WalkFrom(ws, i, idx) == k
       <==> Prefix(ws, k) <= Prefix(ws, i) + idx < Prefix(ws, k + 1)
    decreases |ws| - i
  {
    PrefixMonotone(ws, i + 1, k + 1);
    if idx < ws[i] {
      if k > i {
        PrefixMonotone(ws, i + 1, k);
      }
    } else {
      PrefixMonotone(ws, i + 1, |ws|);
      if k > i {
        WalkIff(ws, i + 1, idx - ws[i], k);
      } else if i + 1 < |ws| {
        assert WalkFrom(ws, i, idx) >= i + 1;
      }
    }
  }

  lemma PickIff(ws: seq<nat>, seed: nat, k: nat)
    requires k < |ws| && Wrapped(ws) > 0
    ensures Pick(ws, seed) == k
       <==> Prefix(ws, k) <= seed % Wrapped(ws) < Prefix(ws, k) + ws[k]
  {
    WalkIff(ws, 0, seed % Wrapped(ws), k);
  }

  // Who is chosen: nobody of nobody, the first if the stakes sum to nothing, and otherwise the
  // validator in whose interval of stake the seed falls, modulo the sum.
  lemma ChosenIs(c: Crypto, vs: seq<ValidatorInfo>, number: U64, parent: Bytes32) returns (k: nat)
    ensures vs == [] ==> Chosen(c, vs, number, parent) == None
    ensures vs != [] ==> k < |vs| && Chosen(c, vs, number, parent) == Some(vs[k].address)
    ensures vs != [] ==>
              var ws := Stakes(vs);
              if Total(ws) % TWO128 == 0 then k == 0
              else Prefix(ws, k) <= Seed(c, number, parent) % (Total(ws) % TWO128)
                                 < Prefix(ws, k) + vs[k].TotalStake()
  {
    k := 0;
    if vs != [] {
      k := Pick(Stakes(vs), Seed(c, number, parent));
      if Wrapped(Stakes(vs)) > 0 {
        PickIff(Stakes(vs), Seed(c, number, parent), k);
      }
    }
  }

  // The part of `k`'s interval that indices reach: all of it unless the sum wraps.
  function Reach(ws: seq<nat>, k: nat): nat
    requires k < |ws|
  {
    Clamp(Wrapped(ws) - Prefix(ws, k), ws[k])
  }

  lemma ReachIsStake(ws: seq<nat>, k: nat)
    requires k < |ws| && Total(ws) < TWO128
    ensures Reach(ws, k) == ws[k]
  {
    PrefixMonotone(ws, k + 1, |ws|);
  }

  // The seeds below `n` that choose place `k`.
  ghost function Winners(ws: seq<nat>, n: nat, k: nat): set<nat>
    requires ws != []
  {
    set x: nat | x < n && Pick(ws, x) == k
  }

  function Clamp(x: int, hi: nat): nat {
    if x < 0 then 0 else if x > hi then hi else x
  }

  // How many of the numbers below `n` lie in `[c, c + w)` modulo `total`.
  function Share(total: nat, c: nat, w: nat, n: nat): int
    requires total > 0
  {
    (n / total) * w + Clamp(n % total - c, w)
  }

  // One more seed moves the count as the closed form says.
  lemma CountStep(total: nat, c: nat, w: nat, n: nat)
    requires total > 0 && (c + w <= total || w == 0)
    ensures Share(total, c, w, n + 1) ==
            Share(total, c, w, n) + (if c <= n % total < c + w then 1 else 0)
  {
    var q, r := n / total, n % total;
    assert n == q * total + r;
    if r + 1 < total {
      DivModIs(n + 1, total, q, r + 1);
    } else {
      assert (q + 1) * total == q * total + total;
      DivModIs(n + 1, total, q + 1, 0);
      assert (q + 1) * w == q * w + w;
    }
  }

  lemma OneMoreSeed(ws: seq<nat>, n: nat, k: nat)
    requires ws != []
    ensures |Winners(ws, n + 1, k)| == |Winners(ws, n, k)| + if Pick(ws, n) == k then 1 else 0
  {
    var before := Winners(ws, n, k);
    assert Winners(ws, n + 1, k) == before + if Pick(ws, n) == k then {n} else {};
    assert n !in before;
  }

  lemma {:induction false} CountIsShare(ws: seq<nat>, n: nat, k: nat)
    requires k < |ws| && Wrapped(ws) > 0
    ensures |Winners(ws, n, k)| == Share(Wrapped(ws), Prefix(ws, k), Reach(ws, k), n)
  {
    if n == 0 {
      assert Winners(ws, 0, k) == {};
      DivModIs(0, Wrapped(ws), 0, 0);
    } else {
      CountIsShare(ws, n - 1, k);
      CountStep(Wrapped(ws), Prefix(ws, k), Reach(ws, k), n - 1);
      PickIff(ws, n - 1, k);
      OneMoreSeed(ws, n - 1, k);
    }
  }

  // Of the first `n` seeds exactly this many choose place `k`.
  lemma WinnerCount(ws: seq<nat>, n: nat, k: nat)
    requires k < |ws| && Wrapped(ws) > 0
    ensures |Winners(ws, n, k)| ==
            (n / Wrapped(ws)) * Reach(ws, k) + Clamp(n % Wrapped(ws) - Prefix(ws, k), Reach(ws, k))
  {
    CountIsShare(ws, n, k);
  }

  // Over one full round of indices each place is chosen once per unit of stake, as far as the sum
  // does not wrap.
  lemma RoundIsProportional(ws: seq<nat>, k: nat)
    requires k < |ws| && Wrapped(ws) > 0
    ensures |Winners(ws, Wrapped(ws), k)| == Reach(ws, k)
    ensures Total(ws) < TWO128 ==> |Winners(ws, Total(ws), k)| == ws[k]
  {
    CountIsShare(ws, Wrapped(ws), k);
    DivModIs(Wrapped(ws), Wrapped(ws), 1, 0);
    if Total(ws) < TWO128 {
      ReachIsStake(ws, k);
    }
  }

  // Over any number of seeds, all 2^64 of them included, the count is within one round of the
  // proportional share.
  lemma CountBounds(ws: seq<nat>, n: nat, k: nat)
    requires k < |ws| && Wrapped(ws) > 0
    ensures var q := n / Wrapped(ws);
            q * Reach(ws, k) <= |Winners(ws, n, k)| <= (q + 1) * Reach(ws, k)
    ensures Total(ws) < TWO128 ==> Reach(ws, k) == ws[k] && Wrapped(ws) == Total(ws)
  {
    CountIsShare(ws, n, k);
    var q, w := n / Wrapped(ws), Reach(ws, k);
    assert (q + 1) * w == q * w + w;
    if Total(ws) < TWO128 {
      ReachIsStake(ws, k);
    }
  }

  // ---------- who can be chosen at all ----------

  // Some 64-bit seed chooses place `k` exactly when indices reach its interval and the stakes
  // before it leave room below 2^64.
  lemma ReachableIff(ws: seq<nat>, k: nat)
    requires k < |ws| && Wrapped(ws) > 0
    ensures (exists seed: U64 :: Pick(ws, seed) == k) <==> Reach(ws, k) > 0 && Prefix(ws, k) < TWO64
  {
    if Reach(ws, k) > 0 && Prefix(ws, k) < TWO64 {
      var seed: U64 := Prefix(ws, k);
      DivModIs(seed, Wrapped(ws), 0, seed);
      PickIff(ws, seed, k);
      assert Pick(ws, seed) == k;
    }
    forall seed: U64 | Pick(ws, seed) == k ensures Reach(ws, k) > 0 && Prefix(ws, k) < TWO64 {
      PickIff(ws, seed, k);
      ModAtMost(seed, Wrapped(ws));
    }
  }

  lemma ModAtMost(n: nat, d: nat)
    requires d > 0
    ensures n % d <= n
  {
    if n < d {
      DivModIs(n, d, 0, n);
    }
  }

  // A list as `active_validators` returns it: everybody holds at least the minimum stake.
  ghost predicate AllStaked(vs: seq<ValidatorInfo>) {
    forall i :: 0 <= i < |vs| ==> vs[i].TotalStake() >= MIN_STAKE
  }

  // The minimum stake exceeds every 64-bit seed: among active validators the first one is always
  // chosen, whatever the stakes, the block number, the parent and the hash function.
  lemma FirstIsAlwaysChosen(c: Crypto, vs: seq<ValidatorInfo>, number: U64, parent: Bytes32)
    requires vs != [] && AllStaked(vs)
    ensures Chosen(c, vs, number, parent) == Some(vs[0].address)
  {
    var ws, seed := Stakes(vs), Seed(c, number, parent);
    assert ws[0] >= MIN_STAKE > seed;
    PrefixMonotone(ws, 1, |ws|);
    assert Prefix(ws, 1) == ws[0];
    if Wrapped(ws) > 0 {
      ModAtMost(seed, Wrapped(ws));
    }
  }
}
