/** Account balances and nonces, and the bytes the state root is a hash of. */
module StateStore {
  import opened Base
  import opened Blocks
  import Rlp

  type Balances = map<Address, U256>

  // The stored balance and nonce entries.
  datatype Entries = Entries(balances: Balances, nonces: map<Address, U64>)

  function Balance(balances: Balances, a: Address): U256 {
    if a in balances then balances[a] else 0
  }

  function Nonce(nonces: map<Address, U64>, a: Address): U64 {
    if a in nonces then nonces[a] else 0
  }

  // ---------- keys ----------

  function HexDigit(d: int): Byte
    requires 0 <= d < 16
  {
    if d < 10 then 48 + d else 87 + d
  }

  // `n` in `k` lower-case hexadecimal digits.
  function Hex(n: nat, k: nat): (h: seq<Byte>)
    ensures |h| == k
  {
    if k == 0 then [] else Hex(n / 16, k - 1) + [HexDigit(n % 16)]
  }

  const BALANCE_COLUMN: seq<Byte> := [98, 97, 108, 97, 110, 99, 101, 58]
  const NONCE_COLUMN: seq<Byte> := [110, 111, 110, 99, 101, 58]

  function BalanceKey(a: Address): (k: seq<Byte>)
    ensures |k| == 48
  {
    BALANCE_COLUMN + Hex(a, 40)
  }

  function NonceKey(a: Address): (k: seq<Byte>)
    ensures |k| == 46
  {
    NONCE_COLUMN + Hex(a, 40)
  }

  // How keys are spelled: the column's name and the address in lower-case hexadecimal.
  lemma KeySpelling(a: Address, d: int)
    requires 0 <= d < 16
    ensures forall i :: 0 <= i < 8 ==> BalanceKey(a)[i] == "balance:"[i] as int
    ensures forall i :: 0 <= i < 6 ==> NonceKey(a)[i] == "nonce:"[i] as int
    ensures HexDigit(d) == "0123456789abcdef"[d] as int
  {}

  ghost predicate LexLess(x: seq<Byte>, y: seq<Byte>) {
    exists i :: 0 <= i < |x| && i < |y| && x[..i] == y[..i] && x[i] < y[i]
  }

  lemma {:induction false} HexOrder(m: nat, n: nat, k: nat)
    requires m < n < Pow16(k)
    ensures LexLess(Hex(m, k), Hex(n, k))
  {
    assert k > 0;
    var x, y := Hex(m, k), Hex(n, k);
    if m / 16 < n / 16 {
      HexOrder(m / 16, n / 16, k - 1);
      var p, q := Hex(m / 16, k - 1), Hex(n / 16, k - 1);
      var i :| 0 <= i < |p| && i < |q| && p[..i] == q[..i] && p[i] < q[i];
      assert x[..i] == p[..i] && y[..i] == q[..i];
    } else {
      assert x[..k - 1] == y[..k - 1];
      assert x[k - 1] < y[k - 1];
    }
  }

  function Pow16(k: nat): nat {
    if k == 0 then 1 else 16 * Pow16(k - 1)
  }

  lemma AddressDigits()
    ensures Pow16(40) == TWO160
  {
    assert Pow16(8) == 0x1_0000_0000;
    assert Pow16(16) == TWO64;
    assert Pow16(24) == 0x1_0000_0000 * TWO64;
    assert Pow16(32) == TWO128;
    assert Pow16(40) == TWO160;
  }

  // The database's byte order on keys is the numeric order on addresses.
  lemma KeyOrder(a: Address, b: Address)
    requires a < b
    ensures LexLess(BalanceKey(a), BalanceKey(b))
    ensures LexLess(NonceKey(a), NonceKey(b))
  {
    AddressDigits();
    HexOrder(a, b, 40);
    PrefixOrder(BALANCE_COLUMN, Hex(a, 40), Hex(b, 40));
    PrefixOrder(NONCE_COLUMN, Hex(a, 40), Hex(b, 40));
  }

  lemma PrefixOrder(column: seq<Byte>, x: seq<Byte>, y: seq<Byte>)
    requires LexLess(x, y)
    ensures LexLess(column + x, column + y)
  {
    var n := |column|;
    var i :| 0 <= i < |x| && i < |y| && x[..i] == y[..i] && x[i] < y[i];
    assert (column + x)[..n + i] == column + x[..i];
    assert (column + y)[..n + i] == column + y[..i];
    assert (column + x)[n + i] < (column + y)[n + i];
  }

  lemma {:induction false} HexInjective(m: nat, n: nat, k: nat)
    requires m < Pow16(k) && n < Pow16(k) && Hex(m, k) == Hex(n, k)
    ensures m == n
  {
    if k > 0 {
      assert Hex(m, k)[..k - 1] == Hex(m / 16, k - 1);
      assert Hex(n, k)[..k - 1] == Hex(n / 16, k - 1);
      assert HexDigit(m % 16) == Hex(m, k)[k - 1] == HexDigit(n % 16);
      HexInjective(m / 16, n / 16, k - 1);
    }
  }

  // ---------- iteration in key order ----------

  function BalanceRecord(a: Address, v: U256): (r: seq<Byte>)
    ensures |r| == 80
  {
    BalanceKey(a) + Rlp.ToBE(v, 32)
  }

  function NonceRecord(a: Address, v: U64): (r: seq<Byte>)
    ensures |r| == 54
  {
    NonceKey(a) + Rlp.ToBE(v, 8)
  }

  ghost function BalanceBytes(m: map<Address, U256>, keys: set<Address>): seq<Byte>
    requires keys <= m.Keys
  {
    if keys == {} then []
    else var a := Least(keys); BalanceRecord(a, m[a]) + BalanceBytes(m, keys - {a})
  }

  ghost function NonceBytes(m: map<Address, U64>, keys: set<Address>): seq<Byte>
    requires keys <= m.Keys
  {
    if keys == {} then []
    else var a := Least(keys); NonceRecord(a, m[a]) + NonceBytes(m, keys - {a})
  }

  lemma NextBalance(m: map<Address, U256>, keys: set<Address>, a: Address, fed: seq<Byte>)
    requires keys <= m.Keys && IsLeast(keys, a)
    ensures fed + BalanceBytes(m, keys) == fed + BalanceRecord(a, m[a]) + BalanceBytes(m, keys - {a})
  {
    assert Least(keys) == a;
  }

  lemma NextNonce(m: map<Address, U64>, keys: set<Address>, a: Address, fed: seq<Byte>)
    requires keys <= m.Keys && IsLeast(keys, a)
    ensures fed + NonceBytes(m, keys) == fed + NonceRecord(a, m[a]) + NonceBytes(m, keys - {a})
  {
    assert Least(keys) == a;
  }

  // What `compute_state_root` feeds to the hash.
  ghost function Preimage(e: Entries): seq<Byte> {
    BalanceBytes(e.balances, e.balances.Keys) + NonceBytes(e.nonces, e.nonces.Keys)
  }

  // ---------- the preimage determines the entries ----------

  lemma BalanceRecordInjective(a: Address, v: U256, b: Address, w: U256)
    requires BalanceRecord(a, v) == BalanceRecord(b, w)
    ensures a == b && v == w
  {
    AddressDigits();
    Rlp.Powers();
    assert Hex(a, 40) == BalanceRecord(a, v)[8..48] == Hex(b, 40);
    HexInjective(a, b, 40);
    assert Rlp.ToBE(v, 32) == BalanceRecord(a, v)[48..] == Rlp.ToBE(w, 32);
    Rlp.FromToBE(v, 32);
    Rlp.FromToBE(w, 32);
  }

  lemma NonceRecordInjective(a: Address, v: U64, b: Address, w: U64)
    requires NonceRecord(a, v) == NonceRecord(b, w)
    ensures a == b && v == w
  {
    AddressDigits();
    Rlp.Powers();
    assert Hex(a, 40) == NonceRecord(a, v)[6..46] == Hex(b, 40);
    HexInjective(a, b, 40);
    assert Rlp.ToBE(v, 8) == NonceRecord(a, v)[46..] == Rlp.ToBE(w, 8);
    Rlp.FromToBE(v, 8);
    Rlp.FromToBE(w, 8);
  }

  lemma {:induction false} NonceBytesInjective(
    m: map<Address, U64>, s: set<Address>, n: map<Address, U64>, t: set<Address>)
    requires s <= m.Keys && t <= n.Keys
    requires NonceBytes(m, s) == NonceBytes(n, t)
    ensures s == t && forall a :: a in s ==> m[a] == n[a]
    decreases s
  {
    if s != {} && t != {} {
      var a, b := Least(s), Least(t);
      var x, y := NonceBytes(m, s), NonceBytes(n, t);
      assert x[..54] == NonceRecord(a, m[a]) && y[..54] == NonceRecord(b, n[b]);
      assert x[54..] == NonceBytes(m, s - {a}) && y[54..] == NonceBytes(n, t - {b});
      NonceRecordInjective(a, m[a], b, n[b]);
      NonceBytesInjective(m, s - {a}, n, t - {b});
      assert s == (s - {a}) + {a} && t == (t - {b}) + {b};
    }
  }

  lemma Cancel(r: seq<Byte>, x: seq<Byte>, q: seq<Byte>, y: seq<Byte>)
    requires |r| == |q| && r + x == q + y
    ensures r == q && x == y
  {
    assert r == (r + x)[..|r|] && q == (q + y)[..|q|];
    assert x == (r + x)[|r|..] && y == (q + y)[|q|..];
  }

  ghost function From(e: Entries, keys: set<Address>): seq<Byte>
    requires keys <= e.balances.Keys
  {
    BalanceBytes(e.balances, keys) + NonceBytes(e.nonces, e.nonces.Keys)
  }

  lemma Peel(e: Entries, keys: set<Address>)
    requires keys <= e.balances.Keys && keys != {}
    ensures var a := Least(keys);
            From(e, keys) == BalanceRecord(a, e.balances[a]) + From(e, keys - {a})
  {}

  lemma BothOrNeither(x: Entries, s: set<Address>, y: Entries, t: set<Address>)
    requires s <= x.balances.Keys && t <= y.balances.Keys
    requires From(x, s) == From(y, t)
    ensures s == {} <==> t == {}
  {
    FirstByte(x, s);
    FirstByte(y, t);
  }

  lemma NoBalances(x: Entries, y: Entries)
    requires From(x, {}) == From(y, {})
    ensures x.nonces == y.nonces
  {
    var u, v := NonceBytes(x.nonces, x.nonces.Keys), NonceBytes(y.nonces, y.nonces.Keys);
    assert From(x, {}) == [] + u == u && From(y, {}) == [] + v == v;
    NonceBytesInjective(x.nonces, x.nonces.Keys, y.nonces, y.nonces.Keys);
  }

  // The balance records end where the first nonce record, or nothing, begins.
  lemma {:induction false} PreimageInjectiveFrom(x: Entries, s: set<Address>, y: Entries, t: set<Address>)
    requires s <= x.balances.Keys && t <= y.balances.Keys
    requires From(x, s) == From(y, t)
    ensures s == t && forall a :: a in s ==> x.balances[a] == y.balances[a]
    ensures x.nonces == y.nonces
    decreases s
  {
    BothOrNeither(x, s, y, t);
    if s == {} {
      NoBalances(x, y);
    } else {
      var a, b := Least(s), Least(t);
      Peel(x, s);
      Peel(y, t);
      var r, q := BalanceRecord(a, x.balances[a]), BalanceRecord(b, y.balances[b]);
      Cancel(r, From(x, s - {a}), q, From(y, t - {b}));
      BalanceRecordInjective(a, x.balances[a], b, y.balances[b]);
      PreimageInjectiveFrom(x, s - {a}, y, t - {b});
      assert s == (s - {a}) + {a} && t == (t - {b}) + {b};
    }
  }

  lemma FirstByte(e: Entries, keys: set<Address>)
    requires keys <= e.balances.Keys
    ensures var bytes := From(e, keys);
            && (keys != {} ==> bytes != [] && bytes[0] == 98)
            && (keys == {} && bytes != [] ==> bytes[0] == 110)
  {
    if keys != {} {
      var a := Least(keys);
      assert BalanceRecord(a, e.balances[a])[0] == 98;
    } else if e.nonces.Keys != {} {
      var a := Least(e.nonces.Keys);
      assert NonceRecord(a, e.nonces[a])[0] == 110;
    }
  }

  ghost predicate Ascending(xs: seq<Address>) {
    forall i, j :: 0 <= i < j < |xs| ==> xs[i] < xs[j]
  }

  // The records of these accounts, one after another.
  function BalanceRecords(m: Balances, xs: seq<Address>): seq<Byte>
    requires forall a :: a in xs ==> a in m
  {
    if xs == [] then [] else BalanceRecord(xs[0], m[xs[0]]) + BalanceRecords(m, xs[1..])
  }

  function NonceRecords(m: map<Address, U64>, xs: seq<Address>): seq<Byte>
    requires forall a :: a in xs ==> a in m
  {
    if xs == [] then [] else NonceRecord(xs[0], m[xs[0]]) + NonceRecords(m, xs[1..])
  }

  ghost function InOrder(keys: set<Address>): (xs: seq<Address>)
    ensures forall a :: a in xs <==> a in keys
    decreases keys
  {
    if keys == {} then []
    else
      var a := Least(keys);
      [a] + InOrder(keys - {a})
  }

  lemma {:induction false} InOrderAscends(keys: set<Address>)
    ensures Ascending(InOrder(keys))
    decreases keys
  {
    if keys != {} {
      var a := Least(keys);
      var rest := InOrder(keys - {a});
      InOrderAscends(keys - {a});
      forall i | 0 <= i < |rest| ensures a < rest[i] {
        assert rest[i] in rest;
      }
    }
  }

  lemma {:induction false} BalancesInOrder(m: Balances, keys: set<Address>)
    requires keys <= m.Keys
    ensures BalanceBytes(m, keys) == BalanceRecords(m, InOrder(keys))
    decreases keys
  {
    if keys != {} {
      var a := Least(keys);
      BalancesInOrder(m, keys - {a});
      assert InOrder(keys)[1..] == InOrder(keys - {a});
    }
  }

  lemma {:induction false} NoncesInOrder(m: map<Address, U64>, keys: set<Address>)
    requires keys <= m.Keys
    ensures NonceBytes(m, keys) == NonceRecords(m, InOrder(keys))
    decreases keys
  {
    if keys != {} {
      var a := Least(keys);
      NoncesInOrder(m, keys - {a});
      assert InOrder(keys)[1..] == InOrder(keys - {a});
    }
  }

  // The preimage is the balance records and then the nonce records, of all stored entries, each in
  // ascending order of addresses.
  lemma PreimageIs(e: Entries) returns (xs: seq<Address>, ys: seq<Address>)
    ensures Ascending(xs) && forall a :: a in xs <==> a in e.balances
    ensures Ascending(ys) && forall a :: a in ys <==> a in e.nonces
    ensures Preimage(e) == BalanceRecords(e.balances, xs) + NonceRecords(e.nonces, ys)
  {
    xs, ys := InOrder(e.balances.Keys), InOrder(e.nonces.Keys);
    InOrderAscends(e.balances.Keys);
    InOrderAscends(e.nonces.Keys);
    BalancesInOrder(e.balances, e.balances.Keys);
    NoncesInOrder(e.nonces, e.nonces.Keys);
  }

  // Two states have the same preimage exactly when they store the same entries.
  lemma PreimageIff(x: Entries, y: Entries)
    ensures Preimage(x) == Preimage(y) <==> x == y
  {
    if Preimage(x) == Preimage(y) {
      PreimageInjectiveFrom(x, x.balances.Keys, y, y.balances.Keys);
      assert x.balances == y.balances;
    }
  }

  // A stored zero and a missing entry read the same, yet the preimage tells them apart.
  lemma StoredZeroChangesPreimage(e: Entries, a: Address)
    requires a !in e.balances
    ensures var zero := e.(balances := e.balances[a := 0]);
            && (forall b :: Balance(zero.balances, b) == Balance(e.balances, b))
            && Preimage(zero) != Preimage(e)
  {
    var zero := e.(balances := e.balances[a := 0]);
    PreimageIff(zero, e);
    assert a in zero.balances;
  }

  /** `StateDB`, one map per column the model reads. */
  class StateDB {
    var balances: map<Address, U256>
    var nonces: map<Address, U64>
    var roots: map<Hash, U256>

    ghost function Contents(): Entries
      reads this
    {
      Entries(balances, nonces)
    }

    constructor ()
      ensures Contents() == Entries(map[], map[]) && roots == map[]
    {
      balances, nonces, roots := map[], map[], map[];
    }

    method GetBalance(a: Address) returns (v: U256)
      ensures v == Balance(balances, a)
    {
      v := if a in balances then balances[a] else 0;
    }

    method SetBalance(a: Address, v: U256)
      modifies `balances
      ensures Contents() == old(Contents()).(balances := old(balances)[a := v])
    {
      balances := balances[a := v];
    }

    method GetNonce(a: Address) returns (v: U64)
      ensures v == Nonce(nonces, a)
    {
      v := if a in nonces then nonces[a] else 0;
    }

    method SetNonce(a: Address, v: U64)
      modifies `nonces
      ensures Contents() == old(Contents()).(nonces := old(nonces)[a := v])
    {
      nonces := nonces[a := v];
    }

    method SaveStateRoot(block: Hash, root: U256)
      modifies `roots
      ensures roots == old(roots)[block := root]
    {
      roots := roots[block := root];
    }

    method ComputeStateRoot(c: Crypto) returns (root: U256)
      ensures root == c.sha256(Preimage(Contents()))
    {
      var hasher: seq<Byte> := [];
      var rest := balances.Keys;
      while rest != {}
        invariant rest <= balances.Keys
        invariant hasher + BalanceBytes(balances, rest) == BalanceBytes(balances, balances.Keys)
      {
        LeastExists(rest);
        var a: Address :| a in rest && forall b :: b in rest ==> a <= b;
        NextBalance(balances, rest, a, hasher);
        hasher := hasher + BalanceRecord(a, balances[a]);
        rest := rest - {a};
      }
      assert BalanceBytes(balances, rest) == [] && hasher + [] == hasher;
      ghost var first := hasher;
      rest := nonces.Keys;
      while rest != {}
        invariant rest <= nonces.Keys
        invariant hasher + NonceBytes(nonces, rest) == first + NonceBytes(nonces, nonces.Keys)
      {
        LeastExists(rest);
        var a: Address :| a in rest && forall b :: b in rest ==> a <= b;
        NextNonce(nonces, rest, a, hasher);
        hasher := hasher + NonceRecord(a, nonces[a]);
        rest := rest - {a};
      }
      assert NonceBytes(nonces, rest) == [] && hasher + [] == hasher;
      root := c.sha256(hasher);
    }
  }
}
