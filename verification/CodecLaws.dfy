/** What the transaction printers and the parser guarantee together. */
module CodecLaws {
  import opened Base
  import opened Rlp
  import opened Transactions

  lemma DecodePrinted(fields: seq<seq<Byte>>)
    requires Printable(fields)
    ensures forall f :: f in fields ==> |f| < TWO64
    ensures |EncodeStrings(fields)| < TWO64
    ensures DecodeItem(PrintList(fields)) == Some((Lst(EncodeStrings(fields)), []))
    ensures Items(EncodeStrings(fields)) == Strs(fields)
  {
    PrintableFits(fields);
    DecodeEncodedList(EncodeStrings(fields), []);
    assert PrintList(fields) + [] == PrintList(fields);
    ItemsOfEncodedStrings(fields);
  }

  lemma PrintListInjective(a: seq<seq<Byte>>, b: seq<seq<Byte>>)
    requires Printable(a) && Printable(b)
    requires PrintList(a) == PrintList(b)
    ensures a == b
  {
    DecodePrinted(a);
    DecodePrinted(b);
    EncodedStringsInjective(a, b);
  }

  lemma PrintListIff(a: seq<seq<Byte>>, b: seq<seq<Byte>>)
    requires Printable(a) && Printable(b)
    ensures PrintList(a) == PrintList(b) <==> a == b
  {
    if PrintList(a) == PrintList(b) {
      PrintListInjective(a, b);
    }
  }

  lemma Number64Parses(n: U64)
    ensures DecodeU64(Str(Number64(n))) == Some(n)
  {
    Powers();
    ScalarValue(n, 8);
  }

  lemma Number256Parses(n: U256)
    ensures Value256(Number256(n)) == n
  {
    Powers();
    ScalarValue(n, 32);
  }

  lemma ToParses(to: Option<Address>)
    ensures DecodeTo(ToBytes(to)) == Ok(to)
  {
    if to.Some? {
      Powers();
      FromToBE(to.value, 20);
    }
  }

  // What the common fields say, read back.
  lemma CommonParses(t: Transaction)
    ensures DecodeU64(Str(Common(t)[0])) == Some(t.nonce)
    ensures Value256(Common(t)[1]) == t.gasPrice
    ensures DecodeU64(Str(Common(t)[2])) == Some(t.gasLimit)
    ensures DecodeTo(Common(t)[3]) == Ok(t.to)
    ensures Value256(Common(t)[4]) == t.value
    ensures Common(t)[5] == t.data
  {
    var f := Common(t);
    assert f[0] == Number64(t.nonce) && f[1] == Number256(t.gasPrice);
    assert f[2] == Number64(t.gasLimit) && f[3] == ToBytes(t.to) && f[4] == Number256(t.value);
    Number64Parses(t.nonce);
    Number64Parses(t.gasLimit);
    Number256Parses(t.gasPrice);
    Number256Parses(t.value);
    ToParses(t.to);
  }

  lemma CommonInjective(a: Transaction, b: Transaction)
    requires Common(a) == Common(b)
    ensures a.(chainId := b.chainId) == b
  {
    CommonParses(a);
    CommonParses(b);
  }

  // ---------- print, then parse ----------

  lemma Right32OfFull(b: Bytes32)
    ensures Right32(b) == b
  {
    assert seq<Byte>(0, _ => 0) + b == b;
  }

  lemma AssemblePrinted(tx: SignedTransaction, v: U64, hash: U256)
    ensures Assemble(Strs(SignedFields(tx, v)), hash) ==
            Ok(SignedTransaction(tx.transaction.(chainId := ChainIdOf(v)), tx.r, tx.s,
                                 RecoveryByteOf(v), Some(hash)))
  {
    CommonParses(tx.transaction);
    Number64Parses(v);
    Right32OfFull(tx.r);
    Right32OfFull(tx.s);
    var items, fields := Strs(SignedFields(tx, v)), SignedFields(tx, v);
    var common := Common(tx.transaction);
    assert forall i :: 0 <= i < 6 ==> fields[i] == common[i];
    assert fields[6] == Number64(v) && fields[7] == tx.r && fields[8] == tx.s;
    assert forall i :: 0 <= i < 9 ==> items[i] == Str(fields[i]);
  }

  // Parsing what was printed gives every field back, with the chain id and recovery byte that
  // the printed `v` stands for.
  lemma ParsePrinted(c: Crypto, tx: SignedTransaction)
    requires |LegacyRlp(tx)| < MAX_VEC
    ensures var v := Eip155V(tx.transaction.chainId, tx.v);
            ParseLegacy(c, LegacyRlp(tx)) ==
            Ok(SignedTransaction(tx.transaction.(chainId := ChainIdOf(v)), tx.r, tx.s,
                                 RecoveryByteOf(v), Some(c.keccak(LegacyRlp(tx)))))
  {
    DecodePrinted(LegacyFields(tx));
    AssemblePrinted(tx, Eip155V(tx.transaction.chainId, tx.v), c.keccak(LegacyRlp(tx)));
  }

  // When the printed `v` still tells the chain id and the recovery id.
  lemma PrintedVIff(chainId: U64, v: Byte)
    ensures var w, id := Eip155V(chainId, v), RecoveryId(v);
            (ChainIdOf(w) == chainId && RecoveryByteOf(w) == 27 + id)
            <==> (id <= 1 && 35 + 2 * chainId + id < TWO64)
  {}

  // Two forms of one recovery id: plain, or with 27 added.
  ghost predicate SameId(v: Byte, w: Byte) {
    v == w || (v < 27 && w == v + 27) || (w < 27 && v == w + 27)
  }

  lemma SameIdIff(v: Byte, w: Byte)
    ensures RecoveryId(v) == RecoveryId(w) <==> SameId(v, w)
  {}

  // The parity a signature carries: odd for 1 and 28, even for 0 and 27, and no parity otherwise.
  ghost predicate HasParity(v: Byte, odd: nat) {
    (odd == 0 && (v == 0 || v == 27)) || (odd == 1 && (v == 1 || v == 28))
  }

  // A signature with parity `odd` is printed with `35 + 2 * chain id + odd` and comes back as
  // `27 + odd`, with the other fields as they were, as long as the printed number fits.
  lemma ParitySurvives(c: Crypto, tx: SignedTransaction, odd: nat)
    requires HasParity(tx.v, odd) && 35 + 2 * tx.transaction.chainId + odd < TWO64
    requires |LegacyRlp(tx)| < MAX_VEC
    ensures ParseLegacy(c, LegacyRlp(tx)) ==
            Ok(SignedTransaction(tx.transaction, tx.r, tx.s, 27 + odd,
                                 Some(c.keccak(LegacyRlp(tx)))))
  {
    ParsePrinted(c, tx);
    ParityPrints(tx.transaction.chainId, tx.v, odd);
  }

  lemma ParityPrints(chainId: U64, v: Byte, odd: nat)
    requires HasParity(v, odd) && 35 + 2 * chainId + odd < TWO64
    ensures var w := Eip155V(chainId, v);
            w == 35 + 2 * chainId + odd && ChainIdOf(w) == chainId && RecoveryByteOf(w) == 27 + odd
  {}

  lemma ParityIsPrinted(tx: SignedTransaction, odd: nat)
    requires HasParity(tx.v, odd) && 35 + 2 * tx.transaction.chainId + odd < TWO64
    ensures LegacyFields(tx)[6] == Number64(35 + 2 * tx.transaction.chainId + odd)
  {
    ParityPrints(tx.transaction.chainId, tx.v, odd);
  }


  // The exact set of transactions that survive: v in {0, 1, 27, 28} and a printed `v` that needs no
  // wrap-around.
  lemma RoundTripIff(c: Crypto, tx: SignedTransaction)
    requires |LegacyRlp(tx)| < MAX_VEC
    ensures ParseLegacy(c, LegacyRlp(tx)).Ok?
    ensures var p := ParseLegacy(c, LegacyRlp(tx)).value;
            (p.transaction == tx.transaction && p.r == tx.r && p.s == tx.s
             && p.v >= 27 && SameId(p.v, tx.v))
            <==> exists odd :: HasParity(tx.v, odd) && 35 + 2 * tx.transaction.chainId + odd < TWO64
  {
    ParsePrinted(c, tx);
    PrintedVIff(tx.transaction.chainId, tx.v);
    var v := Eip155V(tx.transaction.chainId, tx.v);
    var p := ParseLegacy(c, LegacyRlp(tx)).value;
    assert p.transaction.chainId == ChainIdOf(v) && p.v == RecoveryByteOf(v);
    assert p.transaction == tx.transaction <==> ChainIdOf(v) == tx.transaction.chainId;
    SameIdIff(p.v, tx.v);
    assert RecoveryId(tx.v) <= 1 <==> HasParity(tx.v, RecoveryId(tx.v));
  }

  lemma SameInputsSameSender(c: Crypto, a: SignedTransaction, b: SignedTransaction)
    requires a.transaction == b.transaction && a.r == b.r && a.s == b.s && SameId(a.v, b.v)
    ensures Sender(c, a) == Sender(c, b)
  {
    SameIdIff(a.v, b.v);
  }

  // The recovered sender is the same, whatever signature scheme and hash are in use.
  lemma SenderSurvives(c: Crypto, tx: SignedTransaction, odd: nat)
    requires |LegacyRlp(tx)| < MAX_VEC
    requires HasParity(tx.v, odd) && 35 + 2 * tx.transaction.chainId + odd < TWO64
    ensures ParseLegacy(c, LegacyRlp(tx)).Ok?
    ensures Sender(c, ParseLegacy(c, LegacyRlp(tx)).value) == Sender(c, tx)
  {
    ParitySurvives(c, tx, odd);
    SameInputsSameSender(c, ParseLegacy(c, LegacyRlp(tx)).value, tx);
  }

  // Recovery is asked for the parity of the signature over the hash of the signing payload.
  lemma RecoveredWithParity(c: Crypto, tx: SignedTransaction, odd: nat)
    requires HasParity(tx.v, odd)
    ensures Sender(c, tx) == c.recover(c.keccak(SigningPayload(tx.transaction)), tx.r, tx.s, odd)
  {}

  // What the sender depends on: two signed transactions have the same sender under all hash
  // functions and signature schemes exactly when the transactions, r and s are the same and the
  // recovery ids are two forms of one.
  lemma SenderCommitsIff(c: Crypto, a: SignedTransaction, b: SignedTransaction)
    ensures (forall k: seq<Byte> -> U256, rec: (U256, seq<Byte>, seq<Byte>, int) -> Option<Address> ::
               Sender(Crypto(rec, k, c.sha256), a) == Sender(Crypto(rec, k, c.sha256), b))
       <==> a.transaction == b.transaction && a.r == b.r && a.s == b.s && SameId(a.v, b.v)
  {
    SameIdIff(a.v, b.v);
    var payload, id := SigningPayload(a.transaction), RecoveryId(a.v);
    var k: seq<Byte> -> U256 := (m: seq<Byte>) => if m == payload then 1 else 2;
    var rec: (U256, seq<Byte>, seq<Byte>, int) -> Option<Address> :=
      (h, r, s, i) => if h == 1 && r == a.r && s == a.s && i == id then Some(1) else None;
    var d := Crypto(rec, k, c.sha256);
    assert Sender(d, a) == Some(1);
    if Sender(d, b) == Some(1) {
      assert SigningPayload(b.transaction) == payload;
      SigningPayloadInjective(a.transaction, b.transaction);
    }
  }

  // ---------- parse, then print ----------

  // Nine strings: scalars in shortest form, full-width signature halves, and an EIP-155 `v`.
  ghost predicate CanonicalItems(items: seq<Item>) {
    && |items| == 9 && (forall i :: 0 <= i < 9 ==> items[i].Str?)
    && Shortest(items[1].bytes) && Shortest(items[4].bytes)
    && |items[7].bytes| == 32 && |items[8].bytes| == 32
    && DecodeU64(items[6]).Some? && DecodeU64(items[6]).value >= 35
  }

  // One list of exactly such items and nothing else.
  ghost predicate Canonical(raw: Vec)
    requires LegacyItems(raw).Ok?
  {
    var (list, rest) := DecodeItem(raw).value;
    rest == [] && Leftover(list.payload) == [] && CanonicalItems(LegacyItems(raw).value)
  }

  ghost predicate Shortest(b: seq<Byte>) {
    |b| <= 32 && (b != [] ==> b[0] != 0)
  }

  lemma ShortestIff(b: seq<Byte>)
    ensures Shortest(b) <==> b == Number256(Value256(b))
  {
    if Shortest(b) {
      ScalarOfDigits(b, 32);
    }
  }

  lemma U64Reprints(b: seq<Byte>)
    requires DecodeU64(Str(b)).Some?
    ensures Number64(DecodeU64(Str(b)).value) == b
  {
    ScalarOfDigits(b, 8);
  }

  lemma ToReprints(b: seq<Byte>)
    requires DecodeTo(b).Ok?
    ensures ToBytes(DecodeTo(b).value) == b
  {
    if b != [] {
      ToFromBE(b);
    }
  }

  // `fields` are the printed forms of what the nine items are read as.
  ghost predicate Reprints(items: seq<Item>, fields: seq<seq<Byte>>) {
    && |items| >= 9 && |fields| == 9 && (forall i :: 0 <= i < 9 ==> items[i].Str?)
    && fields[0] == items[0].bytes && fields[2] == items[2].bytes
    && fields[3] == items[3].bytes && fields[5] == items[5].bytes
    && fields[1] == Number256(Value256(items[1].bytes))
    && fields[4] == Number256(Value256(items[4].bytes))
    && fields[7] == Right32(items[7].bytes) && fields[8] == Right32(items[8].bytes)
    && DecodeU64(items[6]).Some?
    && (DecodeU64(items[6]).value >= 35 <==> fields[6] == items[6].bytes)
  }

  // The fields an assembled transaction prints, one by one.
  lemma ReprintedFields(items: seq<Item>, hash: U256)
    requires |items| >= 9
    requires forall item :: item in items && item.Str? ==> |item.bytes| < MAX_VEC
    requires Assemble(items, hash).Ok?
    ensures Reprints(items, LegacyFields(Assemble(items, hash).value))
  {
    U64Reprints(items[0].bytes);
    U64Reprints(items[2].bytes);
    ToReprints(items[3].bytes);
    VReprints(items[6].bytes);
  }

  lemma VReprints(b: seq<Byte>)
    requires DecodeU64(Str(b)).Some?
    ensures var v := DecodeU64(Str(b)).value;
            Number64(Eip155V(ChainIdOf(v), RecoveryByteOf(v))) == b <==> v >= 35
  {
    var v := DecodeU64(Str(b)).value;
    var w := Eip155V(ChainIdOf(v), RecoveryByteOf(v));
    U64Reprints(b);
    ReprintedV(v);
    if Number64(w) == b {
      Number64Injective(v, w);
    }
  }

  lemma ReprintedV(v: U64)
    ensures Eip155V(ChainIdOf(v), RecoveryByteOf(v)) == v <==> v >= 35
  {}

  lemma Number64Injective(m: U64, n: U64)
    requires Number64(m) == Number64(n)
    ensures m == n
  {
    Number64Parses(m);
    Number64Parses(n);
  }

  // A raw transaction is reproduced byte for byte exactly when it is canonical.
  lemma PrintParsedIff(c: Crypto, raw: Vec)
    requires ParseLegacy(c, raw).Ok?
    ensures LegacyItems(raw).Ok?
    ensures LegacyRlp(ParseLegacy(c, raw).value) == raw <==> Canonical(raw)
  {
    if LegacyRlp(ParseLegacy(c, raw).value) == raw {
      ReprintedIsCanonical(c, raw);
    }
    if Canonical(raw) {
      CanonicalReprints(c, raw);
    }
  }

  lemma ReprintedIsCanonical(c: Crypto, raw: Vec)
    requires ParseLegacy(c, raw).Ok? && LegacyItems(raw).Ok?
    requires LegacyRlp(ParseLegacy(c, raw).value) == raw
    ensures Canonical(raw)
  {
    var items := LegacyItems(raw).value;
    var fields := LegacyFields(ParseLegacy(c, raw).value);
    ReprintedFields(items, c.keccak(raw));
    PrintedItems(raw, fields);
    SameItems(items, fields);
  }

  lemma SameItems(items: seq<Item>, fields: seq<seq<Byte>>)
    requires Reprints(items, fields) && items == Strs(fields)
    requires |fields[7]| == 32 && |fields[8]| == 32
    ensures CanonicalItems(items)
  {
    ShortestIff(items[1].bytes);
    ShortestIff(items[4].bytes);
  }

  lemma PrintedItems(raw: seq<Byte>, fields: seq<seq<Byte>>)
    requires Printable(fields) && PrintList(fields) == raw
    ensures DecodeItem(raw).Some? && DecodeItem(raw).value.0.Lst? && DecodeItem(raw).value.1 == []
    ensures var payload := DecodeItem(raw).value.0.payload;
            Items(payload) == Strs(fields) && Leftover(payload) == []
  {
    DecodePrinted(fields);
    NoLeftover(fields);
  }

  lemma {:induction false} NoLeftover(fields: seq<seq<Byte>>)
    requires forall f :: f in fields ==> |f| < TWO64
    ensures Leftover(EncodeStrings(fields)) == []
  {
    if fields != [] {
      DecodeEncodedString(fields[0], EncodeStrings(fields[1..]));
      NoLeftover(fields[1..]);
    }
  }

  lemma CanonicalReprints(c: Crypto, raw: Vec)
    requires ParseLegacy(c, raw).Ok? && LegacyItems(raw).Ok? && Canonical(raw)
    ensures LegacyRlp(ParseLegacy(c, raw).value) == raw
  {
    var items := LegacyItems(raw).value;
    var (list, _) := DecodeItem(raw).value;
    var fields := LegacyFields(ParseLegacy(c, raw).value);
    ReprintedFields(items, c.keccak(raw));
    SameFields(items, fields);
    ListReprints(raw, list.payload, fields);
  }

  // One list of strings, with nothing after it or after its items, is the print of those strings.
  lemma ListReprints(raw: seq<Byte>, payload: seq<Byte>, fields: seq<seq<Byte>>)
    requires DecodeItem(raw) == Some((Lst(payload), [])) && Leftover(payload) == []
    requires forall item :: item in Items(payload) ==> item.Str?
    requires Printable(fields) && Bodies(Items(payload)) == fields
    ensures PrintList(fields) == raw
  {
    PrintableFits(fields);
    ItemsWereEncoded(payload);
    assert payload == EncodeStrings(fields);
    DecodedItemWasEncoded(raw);
    assert raw == EncodeList(payload);
  }

  lemma SameFields(items: seq<Item>, fields: seq<seq<Byte>>)
    requires CanonicalItems(items) && Reprints(items, fields)
    ensures forall item :: item in items ==> item.Str?
    ensures Bodies(items) == fields
  {
    ShortestIff(items[1].bytes);
    ShortestIff(items[4].bytes);
    Right32OfFull(items[7].bytes);
    Right32OfFull(items[8].bytes);
    BodiesAre(items, fields);
  }

  lemma BodiesAre(items: seq<Item>, fields: seq<seq<Byte>>)
    requires |items| == |fields|
    requires forall i :: 0 <= i < |items| ==> items[i].Str? && items[i].bytes == fields[i]
    ensures forall item :: item in items ==> item.Str?
    ensures Bodies(items) == fields
  {}

  // ---------- what the parser reads ----------

  // A number of at most 64 bits in shortest form.
  ghost predicate ReadableNumber(b: seq<Byte>) {
    |b| <= 8 && (b != [] ==> b[0] != 0)
  }

  // At least nine items, the first nine of them strings, with numbers and a recipient that can be
  // read; the other strings may have any length.
  ghost predicate Readable(items: seq<Item>) {
    && |items| >= 9 && (forall i :: 0 <= i < 9 ==> items[i].Str?)
    && ReadableNumber(items[0].bytes) && ReadableNumber(items[2].bytes)
    && ReadableNumber(items[6].bytes)
    && (|items[3].bytes| == 0 || |items[3].bytes| == 20)
  }

  // The parser takes exactly the lists of readable items, whatever follows the nine items or the
  // list.
  lemma ParsesIff(c: Crypto, raw: Vec)
    ensures ParseLegacy(c, raw).Ok?
       <==> (&& DecodeItem(raw).Some? && DecodeItem(raw).value.0.Lst?
             && Readable(Items(DecodeItem(raw).value.0.payload)))
  {
    if LegacyItems(raw).Ok? {
      AssemblesIff(LegacyItems(raw).value, c.keccak(raw));
    }
  }

  lemma AssemblesIff(items: seq<Item>, hash: U256)
    requires |items| >= 9
    requires forall item :: item in items && item.Str? ==> |item.bytes| < MAX_VEC
    ensures Assemble(items, hash).Ok? <==> Readable(items)
  {}

  // What is read: numbers big-endian, the three long ones modulo 2^256, and chain id and recovery
  // byte out of `v` as EIP-155 says.
  ghost predicate ReadsAs(items: seq<Item>, tx: SignedTransaction)
    requires Readable(items)
  {
    var t, v := tx.transaction, FromBE(items[6].bytes);
    && t.nonce == FromBE(items[0].bytes) && t.gasLimit == FromBE(items[2].bytes)
    && t.gasPrice == FromBE(items[1].bytes) % TWO256 && t.value == FromBE(items[4].bytes) % TWO256
    && t.to == (if items[3].bytes == [] then None else Some(FromBE(items[3].bytes)))
    && t.data == items[5].bytes
    && FromBE(tx.r) == FromBE(items[7].bytes) % TWO256
    && FromBE(tx.s) == FromBE(items[8].bytes) % TWO256
    && (v < 35 ==> t.chainId == 0 && tx.v == v)
    && (v >= 35 ==> tx.v >= 27 && v == 35 + 2 * t.chainId + (tx.v - 27) && tx.v <= 28)
  }

  lemma ParsedReadsAs(c: Crypto, raw: Vec)
    requires ParseLegacy(c, raw).Ok?
    ensures DecodeItem(raw).Some? && DecodeItem(raw).value.0.Lst?
    ensures var items, tx := Items(DecodeItem(raw).value.0.payload), ParseLegacy(c, raw).value;
            Readable(items) && ReadsAs(items, tx) && tx.hashOverride == Some(c.keccak(raw))
  {
    ParsesIff(c, raw);
    AssembledReadsAs(LegacyItems(raw).value, c.keccak(raw));
  }

  lemma AssembledReadsAs(items: seq<Item>, hash: U256)
    requires |items| >= 9 && Readable(items)
    requires forall item :: item in items && item.Str? ==> |item.bytes| < MAX_VEC
    requires Assemble(items, hash).Ok?
    ensures ReadsAs(items, Assemble(items, hash).value)
    ensures Assemble(items, hash).value.hashOverride == Some(hash)
  {
    Last32Value(items[1].bytes);
    Last32Value(items[4].bytes);
    Last32Value(items[7].bytes);
    Last32Value(items[8].bytes);
    SmallValue(items[6].bytes);
    VReadsAs(FromBE(items[6].bytes));
  }

  lemma VReadsAs(v: U64)
    ensures v < 35 ==> ChainIdOf(v) == 0 && RecoveryByteOf(v) == v
    ensures v >= 35 ==> 27 <= RecoveryByteOf(v) <= 28
                        && v == 35 + 2 * ChainIdOf(v) + (RecoveryByteOf(v) - 27)
  {}

  lemma SmallValue(b: seq<Byte>)
    requires ReadableNumber(b)
    ensures FromBE(b) < TWO64
  {
    FromBEBound(b);
    Powers();
    PowMonotone(|b|, 8);
  }

  // The last 32 bytes of a number are the number modulo 2^256.
  lemma Last32Value(b: seq<Byte>)
    ensures Value256(b) == FromBE(b) % TWO256
    ensures FromBE(Right32(b)) == FromBE(b) % TWO256
  {
    Powers();
    if |b| <= 32 {
      FromBEBound(b);
      PowMonotone(|b|, 32);
      PaddedValue(b, 32 - |b|);
    } else {
      var front, tail := b[..|b| - 32], b[|b| - 32..];
      assert b == front + tail;
      FromBEConcat(front, tail);
      FromBEBound(tail);
      DivModIs(FromBE(b), TWO256, FromBE(front), FromBE(tail));
    }
  }

  // ---------- what the signed and hashed bytes commit to ----------

  // Equal signing payloads mean equal transactions, chain id and contract creation included.
  lemma SigningPayloadInjective(a: Transaction, b: Transaction)
    requires SigningPayload(a) == SigningPayload(b)
    ensures a == b
  {
    PrintListInjective(SigningFields(a), SigningFields(b));
    assert Common(a) == SigningFields(a)[..6] && Common(b) == SigningFields(b)[..6];
    CommonInjective(a, b);
    assert Number64(a.chainId) == SigningFields(a)[6] == Number64(b.chainId);
    Number64Parses(a.chainId);
    Number64Parses(b.chainId);
  }

  lemma SeventhFields(t: Transaction, tx: SignedTransaction, v: U64)
    ensures SigningFields(t)[7] == [] && SignedFields(tx, v)[7] == tx.r
  {}

  // A signing payload is never the printed form of a signed transaction.
  lemma PayloadIsNotATransaction(t: Transaction, tx: SignedTransaction)
    ensures SigningPayload(t) != LegacyRlp(tx)
  {
    SeventhFields(t, tx, Eip155V(tx.transaction.chainId, tx.v));
    if SigningPayload(t) == LegacyRlp(tx) {
      PrintListInjective(SigningFields(t), LegacyFields(tx));
    }
  }

  lemma SignedFieldsIff(a: SignedTransaction, v: U64, b: SignedTransaction, w: U64)
    ensures SignedFields(a, v) == SignedFields(b, w)
       <==> (&& a.transaction.(chainId := b.transaction.chainId) == b.transaction
             && a.r == b.r && a.s == b.s && v == w)
  {
    var x, y := SignedFields(a, v), SignedFields(b, w);
    assert x[..6] == Common(a.transaction) && y[..6] == Common(b.transaction);
    assert x[6..] == [Number64(v), a.r, a.s] && y[6..] == [Number64(w), b.r, b.s];
    if x == y {
      CommonInjective(a.transaction, b.transaction);
      assert x[6] == Number64(v) && y[6] == Number64(w);
      Number64Injective(v, w);
      assert a.r == x[7] && a.s == x[8] && b.r == y[7] && b.s == y[8];
    }
    if a.transaction.(chainId := b.transaction.chainId) == b.transaction {
      assert Common(a.transaction) == Common(b.transaction);
    }
  }

  // The bytes behind a transaction hash fix every field but the chain id, and `v` up to 27.
  lemma HashBytesIff(a: SignedTransaction, b: SignedTransaction)
    ensures PrintList(HashFields(a)) == PrintList(HashFields(b))
       <==> (&& a.transaction.(chainId := b.transaction.chainId) == b.transaction
             && a.r == b.r && a.s == b.s && SameId(a.v, b.v))
  {
    SameIdIff(a.v, b.v);
    HashFieldsIff(a, b);
    PrintListIff(HashFields(a), HashFields(b));
  }

  lemma HashFieldsIff(a: SignedTransaction, b: SignedTransaction)
    ensures HashFields(a) == HashFields(b)
       <==> (&& a.transaction.(chainId := b.transaction.chainId) == b.transaction
             && a.r == b.r && a.s == b.s && RecoveryId(a.v) == RecoveryId(b.v))
  {
    var x: U64, y: U64 := 27 + RecoveryId(a.v), 27 + RecoveryId(b.v);
    var f, g := SignedFields(a, x), SignedFields(b, y);
    assert HashFields(a) == f && HashFields(b) == g;
    SignedFieldsIff(a, x, b, y);
  }

  // What is hashed: the printed fields with 27 or 28 for the parity in place of the EIP-155 number, and
  // any other `v` raised to 27 or more.
  lemma HashIs(c: Crypto, tx: SignedTransaction) returns (fields: seq<seq<Byte>>)
    requires tx.hashOverride.None?
    ensures Printable(fields) && TxHash(c, tx) == c.keccak(PrintList(fields))
    ensures fields[..6] == LegacyFields(tx)[..6] && fields[7] == tx.r && fields[8] == tx.s
    ensures fields[6] == Number64(if tx.v >= 27 then tx.v else tx.v + 27)
  {
    fields := HashFields(tx);
    assert fields[..6] == Common(tx.transaction) == LegacyFields(tx)[..6];
  }

  // What the hash itself commits to: with an override nothing but that; without one, two
  // transactions have the same hash under all hash functions exactly when they agree in all fields
  // but the chain id, in r and s, and in the recovery id.
  lemma HashCommitsIff(c: Crypto, a: SignedTransaction, b: SignedTransaction)
    requires a.hashOverride.None? && b.hashOverride.None?
    ensures (forall k: seq<Byte> -> U256 :: TxHash(c.(keccak := k), a) == TxHash(c.(keccak := k), b))
       <==> (&& a.transaction.(chainId := b.transaction.chainId) == b.transaction
             && a.r == b.r && a.s == b.s && SameId(a.v, b.v))
    ensures forall h :: TxHash(c, a.(hashOverride := Some(h))) == h
  {
    HashBytesIff(a, b);
    var bytes := PrintList(HashFields(a));
    var k: seq<Byte> -> U256 := (m: seq<Byte>) => if m == bytes then 1 else 2;
    assert TxHash(c.(keccak := k), a) == 1;
    assert PrintList(HashFields(b)) != bytes ==> TxHash(c.(keccak := k), b) == 2;
  }
}
