/** Transactions, the two RLP printers and the parser of raw legacy transactions. */
module Transactions {
  import opened Base
  import opened Rlp

  datatype Transaction = Transaction(
    nonce: U64, gasPrice: U256, gasLimit: U64, to: Option<Address>, value: U256,
    data: Vec, chainId: U64)

  datatype SignedTransaction = SignedTransaction(
    transaction: Transaction, r: Bytes32, s: Bytes32, v: Byte, hashOverride: Option<U256>)

  // `u256_to_rlp_bytes`, and the crate's form of a `u64`.
  function Number256(n: U256): seq<Byte> {
    Scalar(n, 32)
  }

  function Number64(n: U64): seq<Byte> {
    Scalar(n, 8)
  }

  function ToBytes(to: Option<Address>): (b: seq<Byte>)
    ensures |b| == 0 || |b| == 20
  {
    match to
    case None => []
    case Some(a) => ToBE(a, 20)
  }

  // The six leading fields, common to every list.
  function Common(t: Transaction): seq<seq<Byte>> {
    [Number64(t.nonce), Number256(t.gasPrice), Number64(t.gasLimit), ToBytes(t.to),
     Number256(t.value), t.data]
  }

  // Nine fields, all short but the data.
  ghost predicate Printable(fields: seq<seq<Byte>>) {
    |fields| == 9 && |fields[5]| < MAX_VEC
    && forall i :: 0 <= i < 9 && i != 5 ==> |fields[i]| <= 32
  }

  lemma PrintableTail(common: seq<seq<Byte>>, tail: seq<seq<Byte>>)
    requires |common| == 6 && |common[5]| < MAX_VEC
    requires forall i :: 0 <= i < 5 ==> |common[i]| <= 32
    requires |tail| == 3 && forall f :: f in tail ==> |f| <= 32
    ensures Printable(common + tail)
  {
    forall i | 6 <= i < 9 ensures |(common + tail)[i]| <= 32 {
      assert (common + tail)[i] == tail[i - 6];
    }
  }

  // The fields of the EIP-155 signing list.
  function SigningFields(t: Transaction): (fields: seq<seq<Byte>>)
    ensures Printable(fields)
  {
    PrintableTail(Common(t), [Number64(t.chainId), [], []]);
    Common(t) + [Number64(t.chainId), [], []]
  }

  function RecoveryId(v: Byte): Byte {
    if v >= 27 then v - 27 else v
  }

  // `35 + 2 * chain_id + recovery id`, in wrapping 64-bit arithmetic.
  function Eip155V(chainId: U64, v: Byte): U64 {
    (35 + 2 * chainId + RecoveryId(v)) % TWO64
  }

  // The nine fields of a signed transaction, with `v` as given.
  function SignedFields(tx: SignedTransaction, v: U64): (fields: seq<seq<Byte>>)
    ensures Printable(fields)
  {
    PrintableTail(Common(tx.transaction), [Number64(v), tx.r, tx.s]);
    Common(tx.transaction) + [Number64(v), tx.r, tx.s]
  }

  function LegacyFields(tx: SignedTransaction): (fields: seq<seq<Byte>>)
    ensures Printable(fields)
  {
    SignedFields(tx, Eip155V(tx.transaction.chainId, tx.v))
  }

  // The fields hashed for a transaction that carries no hash of its own.
  function HashFields(tx: SignedTransaction): (fields: seq<seq<Byte>>)
    ensures Printable(fields)
  {
    SignedFields(tx, 27 + RecoveryId(tx.v))
  }

  lemma PrintableFits(fields: seq<seq<Byte>>)
    requires Printable(fields)
    ensures forall f :: f in fields ==> |f| < TWO64
    ensures |EncodeStrings(fields)| < TWO64
  {
    var a, d, b := fields[..5], fields[5..6], fields[6..];
    assert fields == a + (d + b);
    ShortFieldsBound(a);
    ShortFieldsBound(b);
    EncodeStringsConcat(d, b);
    EncodeStringsConcat(a, d + b);
    assert EncodeStrings(d) == EncodeString(d[0]) + EncodeStrings(d[1..]);
  }

  function PrintList(fields: seq<seq<Byte>>): seq<Byte>
    requires Printable(fields)
  {
    PrintableFits(fields);
    EncodeList(EncodeStrings(fields))
  }

  function SigningPayload(t: Transaction): seq<Byte>
  {
    PrintList(SigningFields(t))
  }

  function LegacyRlp(tx: SignedTransaction): seq<Byte>
  {
    PrintList(LegacyFields(tx))
  }

  // `SignedTransaction::hash`.
  function TxHash(c: Crypto, tx: SignedTransaction): U256
  {
    match tx.hashOverride
    case Some(h) => h
    case None => c.keccak(PrintList(HashFields(tx)))
  }

  // `gas_price * gas`, saturating.
  function GasFee(tx: SignedTransaction, gas: nat): U256 {
    Cap(TWO256, tx.transaction.gasPrice * gas)
  }

  // `SignedTransaction::sender`.
  function Sender(c: Crypto, tx: SignedTransaction): Option<Address>
  {
    c.recover(c.keccak(SigningPayload(tx.transaction)), tx.r, tx.s, RecoveryId(tx.v))
  }

  // ---------- the parser ----------

  // The value of the last 32 bytes (`rlp_bytes_to_u256`).
  function Value256(b: seq<Byte>): U256 {
    var kept := if |b| <= 32 then b else b[|b| - 32..];
    FromBEBound(kept);
    Powers();
    PowMonotone(|kept|, 32);
    FromBE(kept)
  }

  // The last 32 bytes, padded with zeros on the left.
  function Right32(b: seq<Byte>): Bytes32 {
    if |b| <= 32 then seq(32 - |b|, _ => 0) + b else b[|b| - 32..]
  }

  function DecodeU64(item: Item): Option<U64> {
    match item
    case Lst(_) => None
    case Str(b) =>
      if |b| > 8 || (b != [] && b[0] == 0) then None
      else
        FromBEBound(b);
        Powers();
        PowMonotone(|b|, 8);
        Some(FromBE(b))
  }

  function DecodeTo(b: seq<Byte>): Result<Option<Address>, string> {
    if b == [] then Ok(None)
    else if |b| == 20 then
      FromBEBound(b);
      Powers();
      Ok(Some(FromBE(b)))
    else Err("invalid 'to' address length")
  }

  // The nine leading items of a raw legacy transaction, whatever follows them.
  function LegacyItems(raw: Vec): (r: Result<seq<Item>, string>)
    ensures r.Ok? ==> |r.value| >= 9
    ensures r.Ok? ==> forall item :: item in r.value && item.Str? ==> |item.bytes| < MAX_VEC
  {
    match DecodeItem(raw)
    case None => Err("expected RLP list")
    case Some((Str(_), _)) => Err("expected RLP list")
    case Some((Lst(payload), _)) =>
      DecodedItemSize(raw);
      ItemsSize(payload);
      if |Items(payload)| < 9 then Err("legacy tx expects 9 fields") else Ok(Items(payload))
  }

  function ChainIdOf(v: U64): U64 {
    if v >= 35 then (v - 35) / 2 else 0
  }

  function RecoveryByteOf(v: U64): Byte {
    if v >= 35 then (v - 35) % 2 + 27 else v
  }

  // The transaction that nine items spell, or what is wrong with them.
  function Assemble(items: seq<Item>, hash: U256): Result<SignedTransaction, string>
    requires |items| >= 9
    requires forall item :: item in items && item.Str? ==> |item.bytes| < MAX_VEC
  {
    if exists i :: 0 <= i < 9 && items[i].Lst? then Err("expected data")
    else if DecodeTo(items[3].bytes).Err? then Err(DecodeTo(items[3].bytes).error)
    else
      var nonce, gasLimit, v := DecodeU64(items[0]), DecodeU64(items[2]), DecodeU64(items[6]);
      if nonce.None? || gasLimit.None? || v.None? then Err("malformed number")
      else
        Ok(SignedTransaction(
             Transaction(nonce.value, Value256(items[1].bytes), gasLimit.value,
                         DecodeTo(items[3].bytes).value, Value256(items[4].bytes),
                         items[5].bytes, ChainIdOf(v.value)),
             Right32(items[7].bytes), Right32(items[8].bytes), RecoveryByteOf(v.value),
             Some(hash)))
  }

  // `parse_legacy_tx`.
  function ParseLegacy(c: Crypto, raw: Vec): Result<SignedTransaction, string> {
    match LegacyItems(raw)
    case Err(e) => Err(e)
    case Ok(items) => Assemble(items, c.keccak(raw))
  }

  // ---------- the same printers and parser, as they write into buffers ----------

  // `RlpStream`: a list under construction.
  class RlpStream {
    const size: nat
    var buffer: seq<Byte>
    ghost var fields: seq<seq<Byte>>

    ghost predicate Valid()
      reads this
    {
      && (forall f :: f in fields ==> |f| < TWO64)
      && buffer == EncodeStrings(fields)
    }

    constructor NewList(size: nat)
      ensures Valid() && this.size == size && fields == []
    {
      this.size, buffer, fields := size, [], [];
    }

    method Append(b: seq<Byte>)
      requires Valid() && |b| < TWO64
      modifies this
      ensures Valid() && fields == old(fields) + [b]
    {
      buffer := buffer + EncodeString(b);
      EncodeStringsConcat(fields, [b]);
      assert EncodeStrings([b]) == EncodeString(b) + EncodeStrings([]);
      fields := fields + [b];
    }

    method Out() returns (out: seq<Byte>)
      requires Valid() && |fields| == size && Printable(fields)
      ensures out == PrintList(fields)
    {
      PrintableFits(fields);
      out := EncodeList(buffer);
    }
  }

  method U256ToRlpBytes(u: U256) returns (bytes: seq<Byte>)
    ensures bytes == Number256(u)
  {
    var b := ToBE(u, 32);
    var start := 0;
    while start < 32 && b[start] == 0
      invariant 0 <= start <= 32
      invariant Strip(b[start..]) == Strip(b)
    {
      assert b[start..][1..] == b[start + 1..];
      start := start + 1;
    }
    bytes := b[start..];
  }

  method AppendCommon(stream: RlpStream, t: Transaction)
    requires stream.Valid() && stream.fields == []
    modifies stream
    ensures stream.Valid() && stream.fields == Common(t)
  {
    stream.Append(Number64(t.nonce));
    var gasPrice := U256ToRlpBytes(t.gasPrice);
    stream.Append(gasPrice);
    stream.Append(Number64(t.gasLimit));
    stream.Append(ToBytes(t.to));
    var value := U256ToRlpBytes(t.value);
    stream.Append(value);
    stream.Append(t.data);
  }

  method SigningHash(c: Crypto, t: Transaction) returns (hash: U256)
    ensures hash == c.keccak(SigningPayload(t))
  {
    var stream := new RlpStream.NewList(9);
    AppendCommon(stream, t);
    stream.Append(Number64(t.chainId));
    stream.Append([]);
    stream.Append([]);
    assert stream.fields == SigningFields(t);
    var out := stream.Out();
    hash := c.keccak(out);
  }

  method PrintSigned(tx: SignedTransaction, v: U64) returns (out: seq<Byte>)
    ensures out == PrintList(SignedFields(tx, v))
  {
    var stream := new RlpStream.NewList(9);
    AppendCommon(stream, tx.transaction);
    stream.Append(Number64(v));
    stream.Append(tx.r);
    stream.Append(tx.s);
    assert stream.fields == SignedFields(tx, v);
    out := stream.Out();
  }

  method ToLegacyRlp(tx: SignedTransaction) returns (out: seq<Byte>)
    ensures out == LegacyRlp(tx)
  {
    out := PrintSigned(tx, Eip155V(tx.transaction.chainId, tx.v));
  }

  method Hash(c: Crypto, tx: SignedTransaction) returns (hash: U256)
    ensures hash == TxHash(c, tx)
  {
    if tx.hashOverride.Some? {
      return tx.hashOverride.value;
    }
    var out := PrintSigned(tx, if tx.v >= 27 then tx.v else 27 + tx.v);
    hash := c.keccak(out);
  }

  // Copies the last bytes of `b` into the right end of a zeroed 32-byte array.
  method CopyRight32(b: seq<Byte>) returns (arr: array<Byte>)
    ensures fresh(arr) && arr[..] == Right32(b)
  {
    arr := new Byte[32](_ => 0);
    var len := Min(|b|, 32);
    var i := 0;
    while i < len
      invariant 0 <= i <= len
      invariant forall k :: 0 <= k < 32 - len ==> arr[k] == 0
      invariant forall k :: 32 - len <= k < 32 - len + i ==> arr[k] == b[|b| - 32 + k]
    {
      arr[32 - len + i] := b[|b| - len + i];
      i := i + 1;
    }
  }

  method RlpBytesToU256(b: seq<Byte>) returns (u: U256)
    ensures u == Value256(b)
  {
    var arr := CopyRight32(b);
    if |b| <= 32 {
      PaddedValue(b, 32 - |b|);
    }
    assert FromBE(arr[..]) == Value256(b);
    u := FromBE(arr[..]);
  }
}
