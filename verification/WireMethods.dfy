/** Serialization and deserialization as the program does them: fields appended in
    turn, item loops, size checks first. */
module WireMethods {
  import opened Types
  import opened WireFormat
  import opened Readers
  import opened Codecs
  import opened BlockCodec

  // ---- Shared shapes ----

  method ReadRecordOf<T>(layout: seq<Field>, make: seq<nat> -> Result<T>, data: Bytes) returns (r: Result<(T, Bytes)>)
    ensures r == ReadRecord(layout, make, data)
  {
    if |data| < Size(layout) {
      return Err;
    }
    var values := ReadFields(data, layout);
    var x := make(values);
    if x.Err? {
      return Err;
    }
    return Ok((x.value, data[Size(layout)..]));
  }

  /** Fixed fields, the loop over the counted items, and the fields after them. */
  method ReadListOf<T, S>(layout: seq<Field>, at: nat, one: Reader<T>, tail: seq<Field>,
                          make: (seq<nat>, seq<T>, seq<nat>) -> Result<S>, data: Bytes) returns (r: Result<(S, Bytes)>)
    requires at < |layout|
    ensures r == ReadListed(layout, at, one, tail, make, data)
  {
    if |data| < Size(layout) {
      return Err;
    }
    var values := ReadFields(data, layout);
    var items := ReadMany(one, values[at], data[Size(layout)..]);
    if items.Err? || |items.value.1| < Size(tail) {
      return Err;
    }
    var end := ReadFields(items.value.1, tail);
    var x := make(values, items.value.0, end);
    if x.Err? {
      return Err;
    }
    return Ok((x.value, items.value.1[Size(tail)..]));
  }

  // ---- Records ----

  method SerializeHeader(h: BlockHeader) returns (data: Bytes)
    ensures data == EncodeHeader(h)
  {
    data := WriteFields(HeaderLayout(), HeaderValues(h));
  }

  method DeserializeHeader(data: Bytes) returns (r: Result<(BlockHeader, Bytes)>)
    ensures r == ReadHeader(data)
  {
    r := ReadRecordOf(HeaderLayout(), MakeHeader, data);
  }

  method SerializeTransaction(tx: Transaction) returns (data: Bytes)
    ensures data == EncodeTx(tx)
  {
    data := WriteFields(TxLayout(), TxValues(tx));
  }

  method DeserializeTransaction(data: Bytes) returns (r: Result<Transaction>)
    ensures r == DecodeTx(data)
  {
    if |data| != 164 {
      return Err;
    }
    var whole := ReadRecordOf(TxLayout(), MakeTx, data);
    return Only(whole);
  }

  method SerializeValidator(v: Validator) returns (data: Bytes)
    ensures data == EncodeValidator(v)
  {
    data := WriteFields(ValidatorLayout(), ValidatorValues(v));
  }

  method DeserializeValidator(data: Bytes) returns (r: Result<(Validator, Bytes)>)
    ensures r == ReadValidator(data)
  {
    r := ReadRecordOf(ValidatorLayout(), MakeValidator, data);
  }

  // ---- Validator sets ----

  method SerializeSet(s: ValidatorSet) returns (data: Bytes)
    ensures data == EncodeSet(s)
  {
    var head := WriteFields(SetLayout(), SetValues(s));
    var members := WriteMany(EncodeValidator, s.validators);
    return head + members;
  }

  method DeserializeSet(data: Bytes) returns (r: Result<ValidatorSet>)
    ensures r == DecodeSet(data)
  {
    var s := ReadListOf(SetLayout(), 3, ReadValidator, [], MakeSet, data);
    return Only(s);
  }

  // ---- Certificates ----

  method SerializeQc(q: QuorumCertificate) returns (data: Bytes)
    ensures data == EncodeQc(q)
  {
    var head := WriteFields(QcLayout(), QcValues(q));
    var signers := WriteMany(EncodeId, q.signers);
    var stake := WriteFields([U64()], [q.stakeSigned]);
    return head + (signers + stake);
  }

  /** The minimum size checked first refuses nothing the reading would accept. */
  lemma ShortCertificate(data: Bytes)
    requires |data| < 160
    ensures DecodeQc(data) == Err
  {
    if DecodeQc(data).Ok? {
      CertificateExact(data, DecodeQc(data).value);
      Sizes();
    }
  }

  method DeserializeQc(data: Bytes) returns (r: Result<QuorumCertificate>)
    ensures r == DecodeQc(data)
  {
    if |data| < 160 {
      ShortCertificate(data);
      return Err;
    }
    var q := ReadListOf(QcLayout(), 4, ReadId, [U64()], MakeQc, data);
    return Only(q);
  }

  // ---- Blocks ----

  method SerializeBlock(b: Block) returns (data: Bytes)
    ensures data == EncodeBlock(b)
  {
    var header := SerializeHeader(b.header);
    var count := WriteFields([U64()], [|b.transactions|]);
    var txs := WriteMany(EncodeFrame, b.transactions);
    var justify := SerializeQc(b.justify);
    return header + ((count + txs) + justify);
  }

  lemma ShortBlock(data: Bytes)
    requires |data| < 192
    ensures DecodeBlock(data) == Err
  {
    if DecodeBlock(data).Ok? {
      BlockExact(data, DecodeBlock(data).value);
      Sizes();
    }
  }

  /** Undefined: the program's check lets a transaction size through whose sum with the
      offset wraps around, and it then forms a range that ends before it begins. */
  datatype Reading<+T> = Read(result: Result<T>) | Undefined

  /** The 64-bit check of a size against the data is right exactly when the sum fits. */
  lemma SizeCheckExact(at: u64, size: u64, length: u64)
    requires at <= length
    ensures (Wrap(at + size) <= length <==> at + size <= length) <==> at + size < TWO_64
  {
  }

  /** A reader of items that each state their size first. */
  ghost predicate Framing<T(!new)>(one: Reader<T>) {
    && (forall d :: one(d).Ok? ==>
          |d| >= 8 && 8 + FromLittle(d[..8]) <= |d| && one(d).value.1 == d[8 + FromLittle(d[..8])..])
  }

  /** Reading n frames from here meets a size whose sum with the offset wraps. `data` is
      what lies behind the offset. */
  predicate FramesWrap<T>(one: Reader<T>, n: nat, offset: nat, data: Bytes)
    decreases n
  {
    n > 0 && |data| >= 8 &&
    var size := FromLittle(data[..8]);
    || offset + 8 + size >= TWO_64
    || (one(data).Ok? && FramesWrap(one, n - 1, offset + 8 + size, one(data).value.1))
  }

  predicate BlockUndefined(data: Bytes) {
    |data| >= 192 && FramesWrap(ReadFrame, FromLittle(data[184..192]), 192, data[192..])
  }

  lemma {:induction false} WrappingIsRefused<T(!new)>(one: Reader<T>, n: nat, offset: nat, data: Bytes)
    requires Framing(one) && offset + |data| < TWO_64 && FramesWrap(one, n, offset, data)
    ensures DecodeMany(one, n, data) == Err
    decreases n
  {
    var size := FromLittle(data[..8]);
    if offset + 8 + size < TWO_64 {
      WrappingIsRefused(one, n - 1, offset + 8 + size, one(data).value.1);
    }
  }

  lemma AfterTwice<T>(a: seq<T>, x: T, r: Result<(seq<T>, Bytes)>)
    ensures After(a, After([x], r)) == After(a + [x], r)
  {
    if r.Ok? {
      Associate(a, [x], r.value.0);
    }
  }

  lemma FrameTaken<T>(one: Reader<T>, n: nat, data: Bytes, xs: seq<T>)
    requires n > 0 && one(data).Ok?
    ensures After(xs, DecodeMany(one, n, data))
         == After(xs + [one(data).value.0], DecodeMany(one, n - 1, one(data).value.1))
  {
    AfterTwice(xs, one(data).value.0, DecodeMany(one, n - 1, one(data).value.1));
  }

  /** Reads a size and checks it against the length, in 64-bit arithmetic. */
  method CheckSize(d: Bytes, at: nat, length: nat) returns (r: Reading<nat>)
    requires at + |d| == length < TWO_64
    ensures r == if |d| < 8 then Read(Err)
                 else if at + 8 + FromLittle(d[..8]) >= TWO_64 then Undefined
                 else if 8 + FromLittle(d[..8]) > |d| then Read(Err)
                 else Read(Ok(FromLittle(d[..8])))
  {
    if at + 8 > length {
      return Read(Err);
    }
    var size := ReadLittle(d, 0, 8);
    LittleExact(size, d[..8]);
    if Wrap(at + 8 + size) > length {
      return Read(Err);
    }
    return if at + 8 + size >= TWO_64 then Undefined else Read(Ok(size));
  }

  /** The program's loop over n frames at an offset, its 64-bit size check included. */
  method ReadFramesAt<T(!new)>(one: Reader<T>, data: Bytes, offset: nat, n: nat) returns (r: Reading<(seq<T>, Bytes)>)
    requires Framing(one) && offset + |data| < TWO_64
    ensures r.Undefined? <==> FramesWrap(one, n, offset, data)
    ensures r.Read? ==> r.result == DecodeMany(one, n, data)
  {
    var xs: seq<T> := [];
    var d, at: nat, i: nat := data, offset, 0;
    var length := offset + |data|;
    AfterNothing(DecodeMany(one, n, data));
    while i < n
      invariant i <= n && at + |d| == length
      invariant FramesWrap(one, n - i, at, d) == FramesWrap(one, n, offset, data)
      invariant After(xs, DecodeMany(one, n - i, d)) == DecodeMany(one, n, data)
    {
      var size := CheckSize(d, at, length);
      if size.Undefined? {
        return Undefined;
      }
      var item := one(d);
      if size.result.Err? || item.Err? {
        return Read(Err);
      }
      FrameTaken(one, n - i, d, xs);
      xs, d, at, i := xs + [item.value.0], item.value.1, at + 8 + size.result.value, i + 1;
    }
    assert xs + [] == xs;
    return Read(Ok((xs, d)));
  }

  lemma FramesAreFraming()
    ensures Framing(ReadFrame)
  {
  }

  lemma TxsAfterCount(data: Bytes)
    requires |data| >= 8
    ensures ReadTxs(data) == DecodeMany(ReadFrame, FromLittle(data[..8]), data[8..])
  {
    assert DecodeAll([U64()], data) == [FromLittle(data[..8])];
    var r := DecodeMany(ReadFrame, FromLittle(data[..8]), data[8..]);
    if r.Ok? {
      assert r.value.1[0..] == r.value.1;
    }
  }

  /** On every byte string the program's reading is the specified one, or undefined. */
  method DeserializeBlock(data: Bytes) returns (r: Reading<Block>)
    requires |data| < TWO_64
    ensures r.Undefined? <==> BlockUndefined(data)
    ensures r.Read? ==> r.result == DecodeBlock(data)
  {
    if |data| < 192 {
      ShortBlock(data);
      return Read(Err);
    }
    BlockInParts(data);
    var header := DeserializeHeader(data);
    var count := ReadLittle(data, 184, 8);
    FramesAreFraming();
    var txs := ReadFramesAt(ReadFrame, data[192..], 192, count);
    if txs.Undefined? {
      return Undefined;
    }
    if txs.result.Err? {
      return Read(Err);
    }
    var justify := DeserializeQc(txs.result.value.1);
    if justify.Err? {
      return Read(Err);
    }
    return Read(Ok(Block(header.value.0, txs.result.value.0, justify.value)));
  }

  lemma BlockInParts(data: Bytes)
    requires |data| >= 192
    ensures ReadHeader(data).Ok?
    ensures var txs := DecodeMany(ReadFrame, FromLittle(data[184..192]), data[192..]);
            DecodeBlock(data) ==
              if txs.Err? || DecodeQc(txs.value.1).Err? then Err
              else Ok(Block(ReadHeader(data).value.0, txs.value.0, DecodeQc(txs.value.1).value))
  {
    HeaderAlwaysRead(data);
    assert data[184..][..8] == data[184..192] && data[184..][8..] == data[192..];
    TxsAfterCount(data[184..]);
  }

  lemma HeaderAlwaysRead(data: Bytes)
    requires |data| >= 184
    ensures ReadHeader(data).Ok? && ReadHeader(data).value.1 == data[184..]
  {
    Sizes();
    MadeIsRead(HeaderLayout(), MakeHeader, data, 184);
    HeaderAlwaysMade(data);
  }

  lemma HeaderAlwaysMade(data: Bytes)
    requires |data| >= Size(HeaderLayout())
    ensures MakeHeader(DecodeAll(HeaderLayout(), data)).Ok?
  {
    FieldsExact(HeaderLayout(), DecodeAll(HeaderLayout(), data), data);
    HeaderFitsTyped(DecodeAll(HeaderLayout(), data));
  }

  lemma MadeIsRead<T>(layout: seq<Field>, make: seq<nat> -> Result<T>, data: Bytes, n: nat)
    requires |data| >= n == Size(layout)
    ensures make(DecodeAll(layout, data)).Ok? ==>
              ReadRecord(layout, make, data) == Ok((make(DecodeAll(layout, data)).value, data[n..]))
  {
  }

  /** A block that is accepted is accepted by the program: reading it is defined. And
      where it is undefined the specification refuses. */
  lemma AcceptedIsDefined(data: Bytes)
    requires |data| < TWO_64 && BlockUndefined(data)
    ensures DecodeBlock(data) == Err
  {
    FramesAreFraming();
    WrappingIsRefused(ReadFrame, FromLittle(data[184..192]), 192, data[192..]);
    BlockInParts(data);
  }
}
