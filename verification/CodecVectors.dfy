/** The printers against published encodings: the examples of EIP-155 and of the RLP format. */
module CodecVectors {
  import opened Base
  import opened Rlp
  import opened Transactions

  // ---------- RLP ----------

  lemma PrefixOf(base: int, length: nat, digits: seq<Byte>)
    requires base == 0x80 || base == 0xc0
    requires 56 <= length < TWO64 && |digits| <= 8 && FromBE(digits) == length
    requires digits != [] && digits[0] != 0
    ensures LengthPrefix(base, length) == [base + 55 + |digits|] + digits
  {
    ScalarOfDigits(digits, 8);
  }

  lemma {:induction false} FromBESnoc(b: seq<Byte>, d: Byte)
    ensures FromBE(b + [d]) == 256 * FromBE(b) + d
  {
    assert (b + [d])[..|b|] == b;
  }

  lemma OneDigit(a: Byte)
    ensures FromBE([a]) == a
  {
    FromBESnoc([], a);
    assert [] + [a] == [a];
  }

  lemma TwoDigits(a: Byte, b: Byte)
    ensures FromBE([a, b]) == 256 * a + b
  {
    OneDigit(a);
    FromBESnoc([a], b);
    assert [a] + [b] == [a, b];
  }

  lemma FourDigits(a: Byte, b: Byte, c: Byte, d: Byte)
    ensures FromBE([a, b, c, d]) == 0x1000000 * a + 0x10000 * b + 256 * c + d
  {
    TwoDigits(a, b);
    FromBESnoc([a, b], c);
    assert [a, b] + [c] == [a, b, c];
    FromBESnoc([a, b, c], d);
    assert [a, b, c] + [d] == [a, b, c, d];
  }

  // The empty string, single bytes on both sides of 0x80, and a short string.
  lemma ShortStrings()
    ensures EncodeString([]) == [0x80]
    ensures EncodeString([0]) == [0] && EncodeString([0x7f]) == [0x7f]
    ensures EncodeString([0x80]) == [0x81, 0x80]
    ensures EncodeString([0x64, 0x6f, 0x67]) == [0x83, 0x64, 0x6f, 0x67]
  {}

  // The longest short string, the first one whose length needs a byte of its own, and one whose
  // length needs two.
  lemma LongStrings(b55: seq<Byte>, b56: seq<Byte>, b1024: seq<Byte>)
    requires |b55| == 55 && |b56| == 56 && |b1024| == 1024
    ensures EncodeString(b55) == [0xb7] + b55
    ensures EncodeString(b56) == [0xb8, 0x38] + b56
    ensures EncodeString(b1024) == [0xb9, 0x04, 0x00] + b1024
  {
    OneDigit(0x38);
    PrefixOf(0x80, 56, [0x38]);
    TwoDigits(0x04, 0x00);
    PrefixOf(0x80, 1024, [0x04, 0x00]);
  }

  // The empty list, a list of two strings, and the first long list.
  lemma Lists(b56: seq<Byte>)
    requires |b56| == 56
    ensures EncodeList([]) == [0xc0] && EncodeList(b56) == [0xf8, 0x38] + b56
    ensures EncodeList(EncodeStrings([[0x63, 0x61, 0x74], [0x64, 0x6f, 0x67]])) ==
            [0xc8, 0x83, 0x63, 0x61, 0x74, 0x83, 0x64, 0x6f, 0x67]
  {
    OneDigit(0x38);
    PrefixOf(0xc0, 56, [0x38]);
    var cat: seq<Byte>, dog: seq<Byte> := [0x63, 0x61, 0x74], [0x64, 0x6f, 0x67];
    EncodeTwo(cat, dog);
    assert EncodeString(cat) == [0x83, 0x63, 0x61, 0x74] && EncodeString(dog) == [0x83, 0x64, 0x6f, 0x67];
  }

  lemma EncodeTwo(a: seq<Byte>, b: seq<Byte>)
    requires |a| < TWO64 && |b| < TWO64
    ensures EncodeStrings([a, b]) == EncodeString(a) + EncodeString(b)
  {
    assert [a, b][1..] == [b] && [b][1..] == [];
    assert EncodeStrings([b]) == EncodeString(b) + EncodeStrings([]);
  }

  // ---------- EIP-155 ----------

  // The transaction of the example: nonce 9, 20 gwei, 21000 gas, one ether to 0x3535…35, chain 1.
  predicate IsExample(t: Transaction) {
    && t.nonce == 9 && t.gasPrice == 20_000_000_000 && t.gasLimit == 21000
    && t.to == Some(0x3535353535353535353535353535353535353535)
    && t.value == 1_000_000_000_000_000_000 && t.data == [] && t.chainId == 1
  }

  function Recipient20(): seq<Byte> {
    [0x35, 0x35, 0x35, 0x35, 0x35, 0x35, 0x35, 0x35, 0x35, 0x35,
     0x35, 0x35, 0x35, 0x35, 0x35, 0x35, 0x35, 0x35, 0x35, 0x35]
  }

  // The printed form of the first six fields, three and three.
  function FrontBytes(): seq<Byte> {
    [0x09, 0x85, 0x04, 0xa8, 0x17, 0xc8, 0x00, 0x82, 0x52, 0x08]
  }

  function BackBytes(): seq<Byte> {
    [0x94] + Recipient20() + [0x88, 0x0d, 0xe0, 0xb6, 0xb3, 0xa7, 0x64, 0x00, 0x00, 0x80]
  }

  lemma NumberIs(d: seq<Byte>, n: nat, k: nat)
    requires |d| <= k && d != [] && d[0] != 0 && FromBE(d) == n
    ensures Scalar(n, k) == d
  {
    ScalarOfDigits(d, k);
  }

  lemma TwentyGwei(n: U256)
    requires n == 20_000_000_000
    ensures Number256(n) == [0x04, 0xa8, 0x17, 0xc8, 0x00]
  {
    FourDigits(0x04, 0xa8, 0x17, 0xc8);
    FromBESnoc([0x04, 0xa8, 0x17, 0xc8], 0x00);
    assert [0x04, 0xa8, 0x17, 0xc8] + [0x00] == [0x04, 0xa8, 0x17, 0xc8, 0x00];
    NumberIs([0x04, 0xa8, 0x17, 0xc8, 0x00], n, 32);
  }

  lemma EightDigits(high: seq<Byte>, low: seq<Byte>)
    requires |high| == |low| == 4
    ensures FromBE(high + low) == 0x1_0000_0000 * FromBE(high) + FromBE(low)
  {
    FromBEConcat(high, low);
    assert Pow256(4) == 0x1_0000_0000;
  }

  lemma OneEther(n: U256)
    requires n == 1_000_000_000_000_000_000
    ensures Number256(n) == [0x0d, 0xe0, 0xb6, 0xb3, 0xa7, 0x64, 0x00, 0x00]
  {
    var high: seq<Byte>, low: seq<Byte> := [0x0d, 0xe0, 0xb6, 0xb3], [0xa7, 0x64, 0x00, 0x00];
    FourDigits(0x0d, 0xe0, 0xb6, 0xb3);
    FourDigits(0xa7, 0x64, 0x00, 0x00);
    EightDigits(high, low);
    NumberIs(high + low, n, 32);
  }

  lemma OneByte(n: U64)
    requires 0 < n < 256
    ensures Number64(n) == [n]
  {
    OneDigit(n);
    NumberIs([n], n, 8);
  }

  lemma GasOfPayment(n: U64)
    requires n == 21000
    ensures Number64(n) == [0x52, 0x08]
  {
    TwoDigits(0x52, 0x08);
    NumberIs([0x52, 0x08], n, 8);
  }

  lemma RecipientBytes(a: Address)
    requires a == 0x3535353535353535353535353535353535353535
    ensures ToBE(a, 20) == Recipient20()
  {
    var four: seq<Byte> := [0x35, 0x35, 0x35, 0x35];
    FourDigits(0x35, 0x35, 0x35, 0x35);
    assert Pow256(4) == 0x1_0000_0000;
    var b8, b12, b16 := four + four, four + four + four, four + four + four + four;
    FromBEConcat(four, four);
    FromBEConcat(b8, four);
    FromBEConcat(b12, four);
    FromBEConcat(b16, four);
    assert b16 + four == Recipient20();
    ToFromBE(Recipient20());
  }

  lemma EncodeThree(a: seq<Byte>, b: seq<Byte>, c: seq<Byte>)
    requires |a| < TWO64 && |b| < TWO64 && |c| < TWO64
    ensures EncodeStrings([a, b, c]) == EncodeString(a) + (EncodeString(b) + EncodeString(c))
  {
    EncodeTwo(b, c);
    assert [a, b, c][1..] == [b, c];
  }

  lemma EncodeSix(f: seq<seq<Byte>>)
    requires |f| == 6 && forall b :: b in f ==> |b| < TWO64
    ensures EncodeStrings(f) ==
            EncodeString(f[0]) + (EncodeString(f[1]) + EncodeString(f[2])) +
            (EncodeString(f[3]) + (EncodeString(f[4]) + EncodeString(f[5])))
  {
    EncodeThree(f[0], f[1], f[2]);
    EncodeThree(f[3], f[4], f[5]);
    EncodeStringsConcat([f[0], f[1], f[2]], [f[3], f[4], f[5]]);
    assert f == [f[0], f[1], f[2]] + [f[3], f[4], f[5]];
  }

  lemma ShortString(b: seq<Byte>)
    requires 1 < |b| < 56
    ensures EncodeString(b) == [0x80 + |b|] + b
  {}

  lemma FrontFields(f: seq<seq<Byte>>)
    requires |f| == 6 && f[0] == [0x09] && f[1] == [0x04, 0xa8, 0x17, 0xc8, 0x00]
    requires f[2] == [0x52, 0x08]
    ensures EncodeString(f[0]) + (EncodeString(f[1]) + EncodeString(f[2])) ==
            FrontBytes()
  {
    ShortString(f[1]);
    ShortString(f[2]);
  }

  lemma BackFields(f: seq<seq<Byte>>)
    requires |f| == 6 && f[3] == Recipient20() && f[5] == []
    requires f[4] == [0x0d, 0xe0, 0xb6, 0xb3, 0xa7, 0x64, 0x00, 0x00]
    ensures EncodeString(f[3]) + (EncodeString(f[4]) + EncodeString(f[5])) ==
            BackBytes()
  {
    ShortString(f[3]);
    ShortString(f[4]);
    assert EncodeString(f[5]) == [0x80];
  }

  lemma ExampleFields(t: Transaction)
    requires IsExample(t)
    ensures var f := Common(t);
            && f[0] == [0x09] && f[1] == [0x04, 0xa8, 0x17, 0xc8, 0x00] && f[2] == [0x52, 0x08]
            && f[3] == Recipient20() && f[5] == []
            && f[4] == [0x0d, 0xe0, 0xb6, 0xb3, 0xa7, 0x64, 0x00, 0x00]
  {
    CommonAt(t);
    ExampleNumbers(t);
    RecipientBytes(t.to.value);
  }

  lemma CommonAt(t: Transaction)
    ensures var f := Common(t);
            && f[0] == Number64(t.nonce) && f[1] == Number256(t.gasPrice) && f[2] == Number64(t.gasLimit)
            && f[3] == ToBytes(t.to) && f[4] == Number256(t.value) && f[5] == t.data
  {}

  lemma ExampleNumbers(t: Transaction)
    requires IsExample(t)
    ensures Number64(t.nonce) == [0x09] && Number64(t.gasLimit) == [0x52, 0x08]
    ensures Number256(t.gasPrice) == [0x04, 0xa8, 0x17, 0xc8, 0x00]
    ensures Number256(t.value) == [0x0d, 0xe0, 0xb6, 0xb3, 0xa7, 0x64, 0x00, 0x00]
  {
    OneByte(t.nonce);
    TwentyGwei(t.gasPrice);
    GasOfPayment(t.gasLimit);
    OneEther(t.value);
  }

  lemma PrintedCommon(t: Transaction)
    requires IsExample(t)
    ensures EncodeStrings(Common(t)) == FrontBytes() + BackBytes()
  {
    ExampleFields(t);
    EncodeSix(Common(t));
    FrontFields(Common(t));
    BackFields(Common(t));
  }

  // `fields` are two lists of fields with these printed forms.
  ghost predicate Parts(fields: seq<seq<Byte>>, common: seq<seq<Byte>>, tail: seq<seq<Byte>>,
                        x: seq<Byte>, y: seq<Byte>)
  {
    && Printable(fields) && fields == common + tail
    && (forall f :: f in common ==> |f| < TWO64) && EncodeStrings(common) == x
    && (forall f :: f in tail ==> |f| < TWO64) && EncodeStrings(tail) == y
  }

  // A printed list is the prefix of its payload's length, and the payload.
  lemma ListIs(fields: seq<seq<Byte>>, common: seq<seq<Byte>>, tail: seq<seq<Byte>>,
               x: seq<Byte>, y: seq<Byte>)
    requires Parts(fields, common, tail, x, y)
    ensures |x + y| < TWO64 && PrintList(fields) == LengthPrefix(0xc0, |x + y|) + (x + y)
  {
    PrintableFits(fields);
    EncodeStringsConcat(common, tail);
  }

  lemma SigningTail(n: seq<Byte>)
    requires n == [0x01]
    ensures EncodeStrings([n, [], []]) == [0x01, 0x80, 0x80]
  {
    EncodeThree(n, [], []);
  }

  lemma Sizes()
    ensures |FrontBytes()| == 10 && |BackBytes()| == 31
  {}

  lemma FieldsFit(fields: seq<seq<Byte>>, common: seq<seq<Byte>>, tail: seq<seq<Byte>>)
    requires Printable(fields) && fields == common + tail
    ensures forall f :: f in common + tail ==> |f| < TWO64
    ensures (forall f :: f in common ==> |f| < TWO64) && (forall f :: f in tail ==> |f| < TWO64)
  {
    PrintableFits(fields);
    forall f | f in common || f in tail ensures |f| < TWO64 {
      assert f in common + tail;
    }
  }

  lemma SigningParts(t: Transaction) returns (common: seq<seq<Byte>>, tail: seq<seq<Byte>>)
    requires IsExample(t)
    ensures Parts(SigningFields(t), common, tail, FrontBytes() + BackBytes(), [0x01, 0x80, 0x80])
  {
    common, tail := Common(t), [Number64(t.chainId), [], []];
    FieldsFit(SigningFields(t), common, tail);
    PrintedCommon(t);
    OneByte(t.chainId);
    SigningTail(tail[0]);
  }

  // The signing data of the example, byte for byte.
  lemma SigningExample(t: Transaction)
    requires IsExample(t)
    ensures SigningPayload(t) == [0xec] + (FrontBytes() + BackBytes() + [0x01, 0x80, 0x80])
  {
    var common, tail := SigningParts(t);
    ListIs(SigningFields(t), common, tail, FrontBytes() + BackBytes(), [0x01, 0x80, 0x80]);
    Sizes();
  }

  lemma SignedTail(n: seq<Byte>, r: Bytes32, s: Bytes32)
    requires n == [0x25]
    ensures EncodeStrings([n, r, s]) == [0x25, 0xa0] + r + [0xa0] + s
  {
    EncodeThree(n, r, s);
    ShortString(r);
    ShortString(s);
    assert [0x25] + ([0xa0] + r + ([0xa0] + s)) == [0x25, 0xa0] + r + [0xa0] + s;
  }

  // The signed example: v is 37 for an even parity, whether the signature carries it as 0 or 27.
  lemma SignedExample(tx: SignedTransaction)
    requires IsExample(tx.transaction) && (tx.v == 0 || tx.v == 27)
    ensures LegacyRlp(tx) ==
            [0xf8, 0x6c] + (FrontBytes() + BackBytes() + ([0x25, 0xa0] + tx.r + [0xa0] + tx.s))
  {
    var v := Eip155V(tx.transaction.chainId, tx.v);
    SignedExampleWith(tx, v);
  }

  lemma SignedParts(tx: SignedTransaction, v: U64)
    returns (common: seq<seq<Byte>>, tail: seq<seq<Byte>>)
    requires IsExample(tx.transaction) && v == 37
    ensures Parts(SignedFields(tx, v), common, tail, FrontBytes() + BackBytes(),
                  [0x25, 0xa0] + tx.r + [0xa0] + tx.s)
  {
    common, tail := Common(tx.transaction), [Number64(v), tx.r, tx.s];
    FieldsFit(SignedFields(tx, v), common, tail);
    PrintedCommon(tx.transaction);
    OneByte(v);
    SignedTail(tail[0], tx.r, tx.s);
  }

  lemma SignedExampleWith(tx: SignedTransaction, v: U64)
    requires IsExample(tx.transaction) && v == 37
    ensures PrintList(SignedFields(tx, v)) ==
            [0xf8, 0x6c] + (FrontBytes() + BackBytes() + ([0x25, 0xa0] + tx.r + [0xa0] + tx.s))
  {
    var common, tail := SignedParts(tx, v);
    ListIs(SignedFields(tx, v), common, tail, FrontBytes() + BackBytes(),
           [0x25, 0xa0] + tx.r + [0xa0] + tx.s);
    Sizes();
    LongPrefix(108);
  }

  lemma LongPrefix(n: nat)
    requires n == 108
    ensures LengthPrefix(0xc0, n) == [0xf8, 0x6c]
  {
    OneDigit(0x6c);
    PrefixOf(0xc0, n, [0x6c]);
  }
}
