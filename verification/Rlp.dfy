/** Big-endian numbers and the recursive length prefix encoding (Yellow Paper, Appendix B). */
module Rlp {
  import opened Base

  // ---------- big-endian numbers ----------

  function Pow256(k: nat): nat {
    if k == 0 then 1 else 256 * Pow256(k - 1)
  }

  // The low `k` bytes of `n`, most significant first (`to_be_bytes`).
  function ToBE(n: nat, k: nat): (b: seq<Byte>)
    ensures |b| == k
  {
    if k == 0 then [] else ToBE(n / 256, k - 1) + [n % 256]
  }

  function FromBE(b: seq<Byte>): nat {
    if b == [] then 0 else 256 * FromBE(b[..|b| - 1]) + b[|b| - 1]
  }

  // A byte string without its leading zeros.
  function Strip(b: seq<Byte>): seq<Byte> {
    if b != [] && b[0] == 0 then Strip(b[1..]) else b
  }

  lemma {:induction false} FromToBE(n: nat, k: nat)
    requires n < Pow256(k)
    ensures FromBE(ToBE(n, k)) == n
  {
    if k > 0 {
      FromToBE(n / 256, k - 1);
      assert ToBE(n, k)[..k - 1] == ToBE(n / 256, k - 1);
    }
  }

  lemma {:induction false} ToFromBE(b: seq<Byte>)
    ensures ToBE(FromBE(b), |b|) == b
  {
    if b != [] {
      ToFromBE(b[..|b| - 1]);
      assert b == b[..|b| - 1] + [b[|b| - 1]];
    }
  }

  lemma {:induction false} FromBEBound(b: seq<Byte>)
    ensures FromBE(b) < Pow256(|b|)
  {
    if b != [] {
      FromBEBound(b[..|b| - 1]);
    }
  }

  lemma {:induction false} FromBEConcat(a: seq<Byte>, b: seq<Byte>)
    ensures FromBE(a + b) == FromBE(a) * Pow256(|b|) + FromBE(b)
  {
    if b == [] {
      assert a + b == a;
    } else {
      var front := b[..|b| - 1];
      assert (a + b)[..|a + b| - 1] == a + front;
      FromBEConcat(a, front);
      assert 256 * (FromBE(a) * Pow256(|front|)) == FromBE(a) * Pow256(|b|);
    }
  }

  lemma {:induction false} LeadingZero(b: seq<Byte>)
    ensures FromBE([0] + b) == FromBE(b)
  {
    if b != [] {
      LeadingZero(b[..|b| - 1]);
      assert ([0] + b)[..|b|] == [0] + b[..|b| - 1];
    } else {
      assert [0] + b == [0];
      assert ([0] + b)[..0] == [];
    }
  }

  lemma {:induction false} StripKeepsValue(b: seq<Byte>)
    ensures FromBE(Strip(b)) == FromBE(b)
    ensures |Strip(b)| <= |b|
    ensures Strip(b) != [] ==> Strip(b)[0] != 0
  {
    if b != [] && b[0] == 0 {
      StripKeepsValue(b[1..]);
      LeadingZero(b[1..]);
      assert b == [0] + b[1..];
    }
  }

  lemma Powers()
    ensures Pow256(8) == TWO64 && Pow256(20) == TWO160 && Pow256(32) == TWO256
  {
    assert Pow256(4) == 0x1_0000_0000;
    assert Pow256(8) == TWO64;
    assert Pow256(12) == 0x1_0000_0000 * TWO64;
    assert Pow256(16) == TWO128;
    assert Pow256(20) == TWO160;
    assert Pow256(24) == 0x1_0000_0000 * TWO160;
    assert Pow256(28) == 0x1_0000_0000_0000_0000 * TWO160;
    assert Pow256(32) == TWO256;
  }

  lemma Power24()
    ensures Pow256(24) == 0x1_0000_0000_0000_0000_0000_0000_0000_0000_0000_0000_0000_0000
  {
    Powers();
    assert Pow256(21) == 256 * Pow256(20) && Pow256(22) == 256 * Pow256(21);
    assert Pow256(23) == 256 * Pow256(22) && Pow256(24) == 256 * Pow256(23);
  }

  // A scalar of at most `k` bytes without leading zeros.
  function Scalar(n: nat, k: nat): (b: seq<Byte>)
    ensures |b| <= k
    ensures b != [] ==> b[0] != 0
  {
    StripKeepsValue(ToBE(n, k));
    Strip(ToBE(n, k))
  }

  lemma ScalarValue(n: nat, k: nat)
    requires n < Pow256(k)
    ensures FromBE(Scalar(n, k)) == n
  {
    FromToBE(n, k);
    StripKeepsValue(ToBE(n, k));
  }

  // ---------- encoder ----------

  function LengthPrefix(base: int, length: nat): (p: seq<Byte>)
    requires base == 0x80 || base == 0xc0
    requires length < TWO64
    ensures |p| <= 9
  {
    if length < 56 then [base + length]
    else
      var digits := Scalar(length, 8);
      [base + 55 + |digits|] + digits
  }

  function EncodeString(b: seq<Byte>): seq<Byte>
    requires |b| < TWO64
  {
    if |b| == 1 && b[0] < 0x80 then b else LengthPrefix(0x80, |b|) + b
  }

  function EncodeList(payload: seq<Byte>): seq<Byte>
    requires |payload| < TWO64
  {
    LengthPrefix(0xc0, |payload|) + payload
  }

  // The concatenated encodings of a list of strings.
  function EncodeStrings(fields: seq<seq<Byte>>): seq<Byte>
    requires forall f :: f in fields ==> |f| < TWO64
  {
    if fields == [] then [] else EncodeString(fields[0]) + EncodeStrings(fields[1..])
  }

  // ---------- decoder ----------

  datatype Item = Str(bytes: seq<Byte>) | Lst(payload: seq<Byte>)

  // Splits a length-prefixed body off `b`; only the shortest form of a length is accepted.
  function DecodeBody(base: int, b: seq<Byte>): (r: Option<(seq<Byte>, seq<Byte>)>)
    requires base == 0x80 || base == 0xc0
    requires b != [] && base <= b[0] < base + 64
    ensures r.Some? ==> |r.value.1| < |b|
  {
    var short := b[0] - base;
    if short < 56 then
      if |b| < 1 + short then None else Some((b[1..1 + short], b[1 + short..]))
    else
      var digits := short - 55;
      if |b| < 1 + digits || b[1] == 0 then None
      else
        var length := FromBE(b[1..1 + digits]);
        if length < 56 || |b| < 1 + digits + length then None
        else Some((b[1 + digits..1 + digits + length], b[1 + digits + length..]))
  }

  // The first item of `b` and the bytes after it.
  function DecodeItem(b: seq<Byte>): (r: Option<(Item, seq<Byte>)>)
    ensures r.Some? ==> |r.value.1| < |b|
  {
    if b == [] then None
    else if b[0] < 0x80 then Some((Str([b[0]]), b[1..]))
    else if b[0] < 0xc0 then
      match DecodeBody(0x80, b)
      case None => None
      case Some((body, rest)) =>
        if |body| == 1 && body[0] < 0x80 then None else Some((Str(body), rest))
    else
      match DecodeBody(0xc0, b)
      case None => None
      case Some((body, rest)) => Some((Lst(body), rest))
  }

  lemma DecodedItemSize(b: seq<Byte>)
    requires DecodeItem(b).Some?
    ensures var (item, rest) := DecodeItem(b).value;
            (match item case Str(body) => |body| case Lst(body) => |body|) + |rest| <= |b|
  {}

  // The items of a list payload, up to the first malformed one.
  function Items(b: seq<Byte>): seq<Item>
    decreases |b|
  {
    match DecodeItem(b)
    case None => []
    case Some((item, rest)) => [item] + Items(rest)
  }

  lemma {:induction false} ItemsSize(b: seq<Byte>)
    ensures forall item :: item in Items(b) && item.Str? ==> |item.bytes| <= |b|
    decreases |b|
  {
    if DecodeItem(b).Some? {
      DecodedItemSize(b);
      ItemsSize(DecodeItem(b).value.1);
    }
  }

  lemma DecodeLengthPrefix(base: int, body: seq<Byte>, rest: seq<Byte>)
    requires base == 0x80 || base == 0xc0
    requires |body| < TWO64
    ensures var b := LengthPrefix(base, |body|) + body + rest;
            base <= b[0] < base + 64 && DecodeBody(base, b) == Some((body, rest))
  {
    var b := LengthPrefix(base, |body|) + body + rest;
    if |body| < 56 {
      assert b[1..1 + |body|] == body;
      assert b[1 + |body|..] == rest;
    } else {
      var digits := Scalar(|body|, 8);
      Powers();
      ScalarValue(|body|, 8);
      assert digits != [] by { assert FromBE([]) == 0; }
      var d := |digits|;
      assert b[0] == base + 55 + d;
      assert b[1] == digits[0];
      assert b[1..1 + d] == digits;
      assert b[1 + d..1 + d + |body|] == body;
      assert b[1 + d + |body|..] == rest;
    }
  }

  // A printed string is read back, whatever follows it.
  lemma DecodeEncodedString(b: seq<Byte>, rest: seq<Byte>)
    requires |b| < TWO64
    ensures DecodeItem(EncodeString(b) + rest) == Some((Str(b), rest))
  {
    if |b| == 1 && b[0] < 0x80 {
      assert (b + rest)[1..] == rest;
      assert [b[0]] == b;
    } else {
      DecodeLengthPrefix(0x80, b, rest);
    }
  }

  lemma DecodeEncodedList(payload: seq<Byte>, rest: seq<Byte>)
    requires |payload| < TWO64
    ensures DecodeItem(EncodeList(payload) + rest) == Some((Lst(payload), rest))
  {
    DecodeLengthPrefix(0xc0, payload, rest);
  }

  function Strs(fields: seq<seq<Byte>>): (items: seq<Item>)
    ensures |items| == |fields|
    ensures forall i :: 0 <= i < |fields| ==> items[i] == Str(fields[i])
  {
    seq(|fields|, i requires 0 <= i < |fields| => Str(fields[i]))
  }

  // A printed list of strings is read back field by field.
  lemma {:induction false} ItemsOfEncodedStrings(fields: seq<seq<Byte>>)
    requires forall f :: f in fields ==> |f| < TWO64
    ensures Items(EncodeStrings(fields)) == Strs(fields)
  {
    if fields == [] {
    } else {
      DecodeEncodedString(fields[0], EncodeStrings(fields[1..]));
      ItemsOfEncodedStrings(fields[1..]);
    }
  }

  lemma {:induction false} EncodedStringsInjective(a: seq<seq<Byte>>, b: seq<seq<Byte>>)
    requires forall f :: f in a ==> |f| < TWO64
    requires forall f :: f in b ==> |f| < TWO64
    requires EncodeStrings(a) == EncodeStrings(b)
    ensures a == b
  {
    ItemsOfEncodedStrings(a);
    ItemsOfEncodedStrings(b);
    assert |a| == |Strs(a)| == |Strs(b)| == |b|;
    forall i | 0 <= i < |a| ensures a[i] == b[i] {
      assert Strs(a)[i] == Strs(b)[i];
    }
  }

  lemma {:induction false} EncodeStringsConcat(a: seq<seq<Byte>>, b: seq<seq<Byte>>)
    requires forall f :: f in a ==> |f| < TWO64
    requires forall f :: f in b ==> |f| < TWO64
    ensures EncodeStrings(a + b) == EncodeStrings(a) + EncodeStrings(b)
  {
    if a == [] {
      assert a + b == b;
    } else {
      assert (a + b)[1..] == a[1..] + b;
      EncodeStringsConcat(a[1..], b);
    }
  }

  // Short fields (32 bytes at most) take at most 41 bytes each.
  lemma {:induction false} ShortFieldsBound(fields: seq<seq<Byte>>)
    requires forall f :: f in fields ==> |f| <= 32
    ensures |EncodeStrings(fields)| <= 41 * |fields|
  {
    if fields != [] {
      ShortFieldsBound(fields[1..]);
    }
  }

  // ---------- the decoder accepts nothing but the encoder's output ----------

  lemma {:induction false} PaddedValue(d: seq<Byte>, zeros: nat)
    ensures FromBE(seq(zeros, _ => 0) + d) == FromBE(d)
  {
    var pad: seq<Byte> := seq(zeros, _ => 0);
    if zeros == 0 {
      assert pad + d == d;
    } else {
      var fewer: seq<Byte> := seq(zeros - 1, _ => 0);
      assert pad + d == [0] + (fewer + d);
      LeadingZero(fewer + d);
      PaddedValue(d, zeros - 1);
    }
  }

  lemma {:induction false} StripPadding(d: seq<Byte>, zeros: nat)
    requires d != [] ==> d[0] != 0
    ensures Strip(seq(zeros, _ => 0) + d) == d
  {
    var pad: seq<Byte> := seq(zeros, _ => 0);
    if zeros == 0 {
      assert pad + d == d;
    } else {
      var fewer: seq<Byte> := seq(zeros - 1, _ => 0);
      assert (pad + d)[1..] == fewer + d;
      StripPadding(d, zeros - 1);
    }
  }

  // A byte string without leading zeros is the scalar form of its own value.
  lemma ScalarOfDigits(d: seq<Byte>, k: nat)
    requires |d| <= k
    requires d != [] ==> d[0] != 0
    ensures Scalar(FromBE(d), k) == d
  {
    var padded: seq<Byte> := seq(k - |d|, _ => 0) + d;
    PaddedValue(d, k - |d|);
    ToFromBE(padded);
    StripPadding(d, k - |d|);
    assert |padded| == k && ToBE(FromBE(d), k) == padded;
  }

  lemma DecodedBodyWasEncoded(base: int, b: seq<Byte>)
    requires base == 0x80 || base == 0xc0
    requires b != [] && base <= b[0] < base + 64
    requires DecodeBody(base, b).Some?
    ensures var (body, rest) := DecodeBody(base, b).value;
            |body| < TWO64 && b == LengthPrefix(base, |body|) + body + rest
  {
    var short := b[0] - base;
    var (body, rest) := DecodeBody(base, b).value;
    if short < 56 {
      assert b == [b[0]] + body + rest;
    } else {
      var d := b[1..short - 54];
      LengthDigits(d);
      assert b == [b[0]] + d + body + rest;
    }
  }

  // The digits of a length are the scalar form of it.
  lemma LengthDigits(d: seq<Byte>)
    requires d != [] && |d| <= 8 && d[0] != 0
    ensures FromBE(d) < TWO64 && Scalar(FromBE(d), 8) == d
  {
    FromBEBound(d);
    Powers();
    PowMonotone(|d|, 8);
    ScalarOfDigits(d, 8);
  }

  lemma {:induction false} PowMonotone(a: nat, b: nat)
    requires a <= b
    ensures Pow256(a) <= Pow256(b)
  {
    if a < b {
      PowMonotone(a, b - 1);
    }
  }

  // The encoding is one-to-one and onto: what decodes is exactly what was printed.
  lemma DecodedItemWasEncoded(b: seq<Byte>)
    requires DecodeItem(b).Some?
    ensures var (item, rest) := DecodeItem(b).value;
            match item
            case Str(body) => |body| < TWO64 && b == EncodeString(body) + rest
            case Lst(payload) => |payload| < TWO64 && b == EncodeList(payload) + rest
  {
    if b[0] < 0x80 {
    } else if b[0] < 0xc0 {
      DecodedBodyWasEncoded(0x80, b);
    } else {
      DecodedBodyWasEncoded(0xc0, b);
    }
  }

  // What is left of a list payload after its well-formed items.
  function Leftover(b: seq<Byte>): seq<Byte>
    decreases |b|
  {
    match DecodeItem(b)
    case None => b
    case Some((_, rest)) => Leftover(rest)
  }

  function Bodies(items: seq<Item>): (fields: seq<seq<Byte>>)
    requires forall item :: item in items ==> item.Str?
    ensures |fields| == |items|
    ensures forall i :: 0 <= i < |items| ==> fields[i] == items[i].bytes
  {
    seq(|items|, i requires 0 <= i < |items| => items[i].bytes)
  }

  lemma {:induction false} ItemsWereEncoded(b: seq<Byte>)
    requires forall item :: item in Items(b) ==> item.Str?
    ensures forall f :: f in Bodies(Items(b)) ==> |f| < TWO64
    ensures b == EncodeStrings(Bodies(Items(b))) + Leftover(b)
    decreases |b|
  {
    if DecodeItem(b).Some? {
      var (item, rest) := DecodeItem(b).value;
      DecodedItemWasEncoded(b);
      assert Items(b) == [item] + Items(rest);
      assert item in Items(b) && forall i :: i in Items(rest) ==> i in Items(b);
      ItemsWereEncoded(rest);
      BodiesCons(item, Items(rest));
      EncodeStringsCons(item.bytes, Bodies(Items(rest)));
      Regroup(EncodeString(item.bytes), EncodeStrings(Bodies(Items(rest))), Leftover(rest));
    }
  }

  lemma BodiesCons(item: Item, items: seq<Item>)
    requires item.Str? && forall i :: i in items ==> i.Str?
    ensures Bodies([item] + items) == [item.bytes] + Bodies(items)
  {}

  lemma EncodeStringsCons(f: seq<Byte>, fields: seq<seq<Byte>>)
    requires |f| < TWO64 && forall g :: g in fields ==> |g| < TWO64
    ensures EncodeStrings([f] + fields) == EncodeString(f) + EncodeStrings(fields)
  {
    assert ([f] + fields)[1..] == fields;
  }

  lemma Regroup(a: seq<Byte>, b: seq<Byte>, c: seq<Byte>)
    ensures a + (b + c) == a + b + c
  {}
}
