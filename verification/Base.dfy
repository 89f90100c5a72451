/** Machine integers, option and result values, and the outside world's functions. */
module Base {
  const TWO64: int := 0x1_0000_0000_0000_0000
  const TWO128: int := 0x1_0000_0000_0000_0000_0000_0000_0000_0000
  const TWO160: int := 0x1_0000_0000_0000_0000_0000_0000_0000_0000_0000_0000
  const TWO256: int :=
    0x1_0000_0000_0000_0000_0000_0000_0000_0000_0000_0000_0000_0000_0000_0000_0000_0000

  type Byte = x: int | 0 <= x < 256
  type U64 = x: int | 0 <= x < TWO64
  type U256 = x: int | 0 <= x < TWO256
  type Address = x: int | 0 <= x < TWO160
  // No byte vector is longer than 2^63 - 1.
  const MAX_VEC: int := 0x8000_0000_0000_0000
  type Vec = b: seq<Byte> | |b| < MAX_VEC
  type Bytes32 = b: seq<Byte> | |b| == 32 witness seq(32, _ => 0)

  datatype Option<+T> = None | Some(value: T)
  datatype Result<+T, +E> = Ok(value: T) | Err(error: E)

  function Min(a: int, b: int): int {
    if a <= b then a else b
  }

  // Addition that sticks at the largest value below `bound`.
  function SatAdd(bound: nat, a: nat, b: nat): nat
    requires bound > 0
  {
    Cap(bound, a + b)
  }

  // Subtraction that stops at zero.
  function SatSub(a: nat, b: nat): nat {
    if b < a then a - b else 0
  }

  function Cap(bound: nat, n: nat): nat
    requires bound > 0
  {
    if n < bound then n else bound - 1
  }

  lemma DivModIs(n: nat, d: nat, q: nat, r: nat)
    requires d > 0 && n == q * d + r && r < d
    ensures n / d == q && n % d == r
  {
    var a, b := n / d, n % d;
    assert n == a * d + b;
    if a < q {
      LessTimes(a, q, d);
    } else if a > q {
      LessTimes(q, a, d);
    }
  }

  lemma LessTimes(a: nat, b: nat, d: nat)
    requires a < b
    ensures a * d + d <= b * d
  {
    assert b * d == a * d + d + (b - a - 1) * d;
  }

  ghost predicate Once<T>(xs: seq<T>) {
    forall i, j :: 0 <= i < j < |xs| ==> xs[i] != xs[j]
  }

  ghost predicate IsLeast(s: set<U256>, n: U256) {
    n in s && forall m :: m in s ==> n <= m
  }

  lemma {:induction false} LeastExists(s: set<U256>)
    requires s != {}
    ensures exists n: U256 :: IsLeast(s, n)
    decreases s
  {
    var x :| x in s;
    var rest := s - {x};
    assert forall m :: m in s ==> m == x || m in rest;
    if rest == {} {
      assert IsLeast(s, x);
    } else {
      LeastExists(rest);
      var y: U256 :| IsLeast(rest, y);
      assert IsLeast(s, if x <= y then x else y);
    }
  }

  ghost function Least(s: set<U256>): (n: U256)
    requires s != {}
    ensures IsLeast(s, n)
  {
    LeastExists(s);
    var n: U256 :| IsLeast(s, n);
    n
  }

  ghost predicate Before(done: set<U256>, rest: set<U256>) {
    forall a, b :: a in done && b in rest ==> a < b
  }

  lemma MoveLeast(done: set<U256>, rest: set<U256>, a: U256)
    requires Before(done, rest) && IsLeast(rest, a)
    ensures Before(done + {a}, rest - {a})
    ensures forall b :: b in done ==> b < a
  {}

  /** The cryptography the node calls into.  Nothing is assumed of these three functions: every
      theorem below holds for any choice of them. */
  datatype Crypto = Crypto(
    recover: (U256, seq<Byte>, seq<Byte>, int) -> Option<Address>,
    keccak: seq<Byte> -> U256,
    sha256: seq<Byte> -> U256)
}

/** Sums of a weight over a finite set. */
module Sums {
  ghost function Sum<T>(s: set<T>, f: T -> nat): nat {
    if s == {} then 0 else
      var x :| x in s;
      f(x) + Sum(s - {x}, f)
  }

  lemma {:induction false} SumPick<T>(s: set<T>, f: T -> nat, x: T)
    requires x in s
    ensures Sum(s, f) == f(x) + Sum(s - {x}, f)
    decreases s
  {
    var y :| y in s && Sum(s, f) == f(y) + Sum(s - {y}, f);
    if y != x {
      SumPick(s - {y}, f, x);
      SumPick(s - {x}, f, y);
      assert s - {x} - {y} == s - {y} - {x};
    }
  }

  lemma {:induction false} SumUnion<T>(a: set<T>, b: set<T>, f: T -> nat)
    requires a !! b
    ensures Sum(a + b, f) == Sum(a, f) + Sum(b, f)
    decreases a
  {
    if a == {} {
      assert a + b == b;
    } else {
      var x :| x in a;
      SumPick(a, f, x);
      SumPick(a + b, f, x);
      assert a + b - {x} == (a - {x}) + b;
      SumUnion(a - {x}, b, f);
    }
  }

  lemma {:induction false} SumAgree<T>(s: set<T>, f: T -> nat, g: T -> nat)
    requires forall x :: x in s ==> f(x) == g(x)
    ensures Sum(s, f) == Sum(s, g)
    decreases s
  {
    if s != {} {
      var x :| x in s;
      SumPick(s, f, x);
      SumPick(s, g, x);
      SumAgree(s - {x}, f, g);
    }
  }

  lemma SumEmpty<T>(f: T -> nat)
    ensures Sum({}, f) == 0
  {}

  lemma SumSingle<T>(x: T, f: T -> nat)
    ensures Sum({x}, f) == f(x)
  {
    SumPick({x}, f, x);
    assert {x} - {x} == {};
  }
}
