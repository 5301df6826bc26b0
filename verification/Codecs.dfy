/** The wire codecs of headers, transactions, validators and validator sets, and the
    field tables of all records. Reading past the end, a bad length or a bad status is
    Err where the program throws. */
module Codecs {
  import opened Types
  import opened WireFormat
  import opened Readers

  // ---- Field tables ----

  function U64(): Field { Field(true, 8) }
  function U32(): Field { Field(true, 4) }
  function U8(): Field { Field(true, 1) }
  function Raw(width: nat): Field { Field(false, width) }

  lemma Wide(layout: seq<Field>, vs: seq<nat>, k: nat)
    requires Fits(layout, vs) && k < |layout|
    ensures layout[k].width == 8 ==> vs[k] < TWO_64
    ensures layout[k].width == 4 ==> vs[k] < 0x1_0000_0000
  {
  }

  function HeaderLayout(): seq<Field> {
    [U64(), U64(), Raw(32), Raw(32), Raw(32), Raw(32), Raw(32), U64()]
  }

  function HeaderValues(h: BlockHeader): (r: seq<nat>)
    ensures |r| == |HeaderLayout()|
  {
    [h.height, h.timestamp, h.previousHash, h.stateRoot, h.transactionsRoot, h.validatorSetRoot, h.proposer, h.epoch]
  }

  function TxLayout(): seq<Field> {
    [Raw(32), Raw(32), U64(), U64(), U64(), U64(), U32(), Raw(64)]
  }

  function TxValues(tx: Transaction): (r: seq<nat>)
    ensures |r| == |TxLayout()|
  {
    [tx.from, tx.to, tx.amount, tx.nonce, tx.fee, tx.gasLimit, tx.chainId, tx.signature]
  }

  function ValidatorLayout(): seq<Field> {
    [Raw(32), Raw(48), Raw(32), U64(), U8(), U64(), U64(), U64(), U64()]
  }

  function StatusCode(s: ValidatorStatus): nat {
    match s
    case Active => 0
    case Standby => 1
    case Jailed => 2
    case Tombstoned => 3
  }

  function StatusOf(code: nat): ValidatorStatus {
    if code == 0 then Active else if code == 1 then Standby else if code == 2 then Jailed else Tombstoned
  }

  function ValidatorValues(v: Validator): (r: seq<nat>)
    ensures |r| == |ValidatorLayout()|
  {
    [v.id, v.consensusKey, v.withdrawalKey, v.stake, StatusCode(v.status),
     v.jailedUntil, v.downtimeEpochs, v.signed, v.missed]
  }

  /** Height, block hash, view, signature and signer count of a certificate. */
  function QcLayout(): seq<Field> {
    [U64(), Raw(32), U64(), Raw(96), U64()]
  }

  function QcValues(q: QuorumCertificate): (r: seq<nat>)
    ensures |r| == |QcLayout()|
  {
    [q.height, q.hash, q.view, q.signature, |q.signers|]
  }

  /** Epoch, total stake, root and validator count of a set. */
  function SetLayout(): seq<Field> {
    [U64(), U64(), Raw(32), U32()]
  }

  function SetValues(s: ValidatorSet): (r: seq<nat>)
    ensures |r| == |SetLayout()|
  {
    [s.epoch, s.totalStake, s.merkleRoot, |s.validators|]
  }

  lemma Sizes()
    ensures Size(HeaderLayout()) == 184 && Size(TxLayout()) == 164 && Size(ValidatorLayout()) == 153
    ensures Size(QcLayout()) == 152 && Size(SetLayout()) == 52
  {
  }

  // ---- Headers, transactions, validators ----

  predicate HeaderTyped(vs: seq<nat>) {
    |vs| == 8 && vs[0] < TWO_64 && vs[1] < TWO_64 && vs[7] < TWO_64
  }

  lemma HeaderFitsTyped(vs: seq<nat>)
    requires Fits(HeaderLayout(), vs)
    ensures HeaderTyped(vs)
  {
    Wide(HeaderLayout(), vs, 0);
    Wide(HeaderLayout(), vs, 1);
    Wide(HeaderLayout(), vs, 7);
  }

  function MakeHeader(vs: seq<nat>): Result<BlockHeader> {
    if HeaderTyped(vs)
    then Ok(BlockHeader(vs[0], vs[1], vs[2], vs[3], vs[4], vs[5], vs[6], vs[7]))
    else Err
  }

  function EncodeHeader(h: BlockHeader): Bytes {
    EncodeAll(HeaderLayout(), HeaderValues(h))
  }

  function ReadHeader(data: Bytes): Result<(BlockHeader, Bytes)> {
    ReadRecord(HeaderLayout(), MakeHeader, data)
  }

  /** The digests and the proposer are 32-byte strings. */
  predicate FitsHeader(h: BlockHeader) {
    Fits(HeaderLayout(), HeaderValues(h))
  }

  lemma HeaderMade(vs: seq<nat>, h: BlockHeader)
    requires HeaderTyped(vs)
    ensures MakeHeader(vs) == Ok(h) <==> vs == HeaderValues(h)
  {
  }

  lemma HeaderMakes(h: BlockHeader)
    ensures Makes(HeaderLayout(), MakeHeader, h, HeaderValues(h))
  {
    forall vs | Fits(HeaderLayout(), vs) ensures MakeHeader(vs) == Ok(h) <==> vs == HeaderValues(h) {
      HeaderFitsTyped(vs);
      HeaderMade(vs, h);
    }
  }

  lemma HeaderExact(data: Bytes, h: BlockHeader, rest: Bytes)
    ensures ExactAt(EncodeHeader, ReadHeader, FitsHeader, data, h, rest)
  {
    HeaderMakes(h);
    RecordExact(HeaderLayout(), MakeHeader, h, HeaderValues(h), data, rest);
  }

  predicate TxTyped(vs: seq<nat>) {
    |vs| == 8 && vs[2] < TWO_64 && vs[3] < TWO_64 && vs[4] < TWO_64 && vs[5] < TWO_64 && vs[6] < 0x1_0000_0000
  }

  lemma TxFitsTyped(vs: seq<nat>)
    requires Fits(TxLayout(), vs)
    ensures TxTyped(vs)
  {
    Wide(TxLayout(), vs, 2);
    Wide(TxLayout(), vs, 3);
    Wide(TxLayout(), vs, 4);
    Wide(TxLayout(), vs, 5);
    Wide(TxLayout(), vs, 6);
  }

  function MakeTx(vs: seq<nat>): Result<Transaction> {
    if TxTyped(vs)
    then Ok(Transaction(vs[0], vs[1], vs[2], vs[3], vs[4], vs[5], vs[6], vs[7]))
    else Err
  }

  function EncodeTx(tx: Transaction): (r: Bytes)
    ensures |r| == 164
  {
    Sizes();
    EncodeAll(TxLayout(), TxValues(tx))
  }

  function DecodeTx(data: Bytes): Result<Transaction> {
    DecodeWhole(TxLayout(), MakeTx, 164, data)
  }

  predicate FitsTx(tx: Transaction) {
    Fits(TxLayout(), TxValues(tx))
  }

  lemma TxMade(vs: seq<nat>, tx: Transaction)
    requires TxTyped(vs)
    ensures MakeTx(vs) == Ok(tx) <==> vs == TxValues(tx)
  {
  }

  lemma TxMakes(tx: Transaction)
    ensures Makes(TxLayout(), MakeTx, tx, TxValues(tx))
  {
    forall vs | Fits(TxLayout(), vs) ensures MakeTx(vs) == Ok(tx) <==> vs == TxValues(tx) {
      TxFitsTyped(vs);
      TxMade(vs, tx);
    }
  }

  /** A byte string is read as a transaction exactly when it is that transaction's
      encoding. */
  lemma TransactionExact(data: Bytes, tx: Transaction)
    ensures DecodeTx(data) == Ok(tx) <==> FitsTx(tx) && data == EncodeTx(tx)
  {
    TxMakes(tx);
    Sizes();
    WholeExact(TxLayout(), MakeTx, tx, TxValues(tx), 164, data);
  }

  predicate ValidatorTyped(vs: seq<nat>) {
    |vs| == 9 && vs[3] < TWO_64 && vs[5] < TWO_64 && vs[6] < TWO_64 && vs[7] < TWO_64 && vs[8] < TWO_64
  }

  lemma ValidatorFitsTyped(vs: seq<nat>)
    requires Fits(ValidatorLayout(), vs)
    ensures ValidatorTyped(vs)
  {
    Wide(ValidatorLayout(), vs, 3);
    Wide(ValidatorLayout(), vs, 5);
    Wide(ValidatorLayout(), vs, 6);
    Wide(ValidatorLayout(), vs, 7);
    Wide(ValidatorLayout(), vs, 8);
  }

  function MakeValidator(vs: seq<nat>): Result<Validator> {
    if ValidatorTyped(vs) && vs[4] <= 3
    then Ok(Validator(vs[0], vs[1], vs[2], vs[3], StatusOf(vs[4]), vs[5], vs[6], vs[7], vs[8]))
    else Err
  }

  function EncodeValidator(v: Validator): Bytes {
    EncodeAll(ValidatorLayout(), ValidatorValues(v))
  }

  function ReadValidator(data: Bytes): Result<(Validator, Bytes)> {
    ReadRecord(ValidatorLayout(), MakeValidator, data)
  }

  predicate FitsValidator(v: Validator) {
    Fits(ValidatorLayout(), ValidatorValues(v))
  }

  lemma ValidatorMakes(v: Validator)
    ensures Makes(ValidatorLayout(), MakeValidator, v, ValidatorValues(v))
  {
    forall vs | Fits(ValidatorLayout(), vs) ensures MakeValidator(vs) == Ok(v) <==> vs == ValidatorValues(v) {
      ValidatorFitsTyped(vs);
      ValidatorMade(vs, v);
    }
  }

  lemma ValidatorMade(vs: seq<nat>, v: Validator)
    requires ValidatorTyped(vs)
    ensures MakeValidator(vs) == Ok(v) <==> vs == ValidatorValues(v)
  {
  }

  lemma ValidatorExact(data: Bytes, v: Validator, rest: Bytes)
    ensures ExactAt(EncodeValidator, ReadValidator, FitsValidator, data, v, rest)
  {
    ValidatorMakes(v);
    RecordExact(ValidatorLayout(), MakeValidator, v, ValidatorValues(v), data, rest);
  }

  lemma ValidatorsExact()
    ensures Exact(EncodeValidator, ReadValidator, FitsValidator)
  {
    forall data: Bytes, v: Validator, rest: Bytes
      ensures ExactAt(EncodeValidator, ReadValidator, FitsValidator, data, v, rest)
    {
      ValidatorExact(data, v, rest);
    }
  }

  // ---- Validator sets ----

  function EncodeSet(s: ValidatorSet): Bytes {
    EncodeAll(SetLayout(), SetValues(s)) + EncodeMany(EncodeValidator, s.validators)
  }

  predicate SetTyped(vs: seq<nat>) {
    |vs| == 4 && vs[0] < TWO_64 && vs[1] < TWO_64
  }

  lemma SetFitsTyped(vs: seq<nat>)
    requires Fits(SetLayout(), vs)
    ensures SetTyped(vs)
  {
    Wide(SetLayout(), vs, 0);
    Wide(SetLayout(), vs, 1);
  }

  function MakeSet(vs: seq<nat>, validators: seq<Validator>, end: seq<nat>): Result<ValidatorSet> {
    if SetTyped(vs) then Ok(ValidatorSet(vs[0], validators, vs[1], vs[2])) else Err
  }

  function ReadSet(data: Bytes): Result<(ValidatorSet, Bytes)> {
    ReadListed(SetLayout(), 3, ReadValidator, [], MakeSet, data)
  }

  function DecodeSet(data: Bytes): Result<ValidatorSet> {
    Only(ReadSet(data))
  }

  /** The root is a 32-byte string and the members can be counted in 32 bits. */
  predicate FitsSet(s: ValidatorSet) {
    Fits(SetLayout(), SetValues(s)) && forall v :: v in s.validators ==> FitsValidator(v)
  }

  lemma SetMade(vs: seq<nat>, validators: seq<Validator>, end: seq<nat>, s: ValidatorSet)
    requires SetTyped(vs) && vs[3] == |validators| && end == []
    ensures MakeSet(vs, validators, end) == Ok(s) <==> vs == SetValues(s) && validators == s.validators
  {
  }

  lemma SetMakes(s: ValidatorSet)
    ensures MakesListed(SetLayout(), 3, [], MakeSet, s, SetValues(s), s.validators, [])
  {
    forall vs: seq<nat>, validators: seq<Validator>, end: seq<nat>
      | Fits(SetLayout(), vs) && vs[3] == |validators| && Fits([], end)
      ensures MakeSet(vs, validators, end) == Ok(s) <==> vs == SetValues(s) && validators == s.validators && end == []
    {
      SetFitsTyped(vs);
      SetMade(vs, validators, end, s);
    }
  }

  lemma SetsExact()
    ensures Exact(EncodeSet, ReadSet, FitsSet)
  {
    forall data: Bytes, s: ValidatorSet, rest: Bytes
      ensures ExactAt(EncodeSet, ReadSet, FitsSet, data, s, rest)
    {
      SetExact(data, s, rest);
    }
  }

  lemma SetExact(data: Bytes, s: ValidatorSet, rest: Bytes)
    ensures ExactAt(EncodeSet, ReadSet, FitsSet, data, s, rest)
  {
    SetMakes(s);
    ValidatorsExact();
    ListedExact(SetLayout(), 3, EncodeValidator, ReadValidator, FitsValidator, [], MakeSet,
                s, SetValues(s), s.validators, [], data, rest);
    assert EncodeAll([], []) + rest == rest;
    Associate(EncodeAll(SetLayout(), SetValues(s)), EncodeMany(EncodeValidator, s.validators), rest);
  }

  /** A byte string is read as this set exactly when it starts with the set's
      encoding; what follows is ignored. */
  lemma ValidatorSetExact(data: Bytes, s: ValidatorSet)
    ensures DecodeSet(data) == Ok(s) <==> FitsSet(s) && EncodeSet(s) <= data
  {
    SetsExact();
    OnlyExact(EncodeSet, ReadSet, FitsSet, data, s);
  }

  // ---- Round trips and positions ----

  /** A set's round trip needs a member count that fits the 32-bit field, and
      nothing else. */
  lemma SetRoundTripExactly(s: ValidatorSet)
    requires s.merkleRoot < Pow256(32) && forall v :: v in s.validators ==> FitsValidator(v)
    ensures DecodeSet(EncodeSet(s)) == Ok(s) <==> |s.validators| < 0x1_0000_0000
  {
    ValidatorSetExact(EncodeSet(s), s);
    HeadFits(s);
  }

  lemma HeadFits(s: ValidatorSet)
    requires s.merkleRoot < Pow256(32)
    ensures Fits(SetLayout(), SetValues(s)) <==> |s.validators| < 0x1_0000_0000
  {
    var layout, vs := SetLayout(), SetValues(s);
    assert vs[3] == |s.validators| && layout[3].width == 4;
    if |s.validators| < 0x1_0000_0000 {
      forall k | 0 <= k < 4 ensures vs[k] < Pow256(layout[k].width) {
        assert k == 0 || k == 1 || k == 2 || k == 3;
      }
    }
  }

  lemma {:induction false} OffsetNext(layout: seq<Field>, k: nat)
    requires k < |layout|
    ensures Offset(layout, k + 1) == Offset(layout, k) + layout[k].width
  {
    if k > 0 {
      OffsetNext(layout[1..], k - 1);
    }
  }

  lemma {:induction false} HeaderOffsets(k: nat)
    requires k < 8
    ensures Offset(HeaderLayout(), k) == [0, 8, 16, 48, 80, 112, 144, 176][k]
  {
    if k > 0 {
      HeaderOffsets(k - 1);
      OffsetNext(HeaderLayout(), k - 1);
    }
  }

  lemma {:induction false} TxOffsets(k: nat)
    requires k < 8
    ensures Offset(TxLayout(), k) == [0, 32, 64, 72, 80, 88, 96, 100][k]
  {
    if k > 0 {
      TxOffsets(k - 1);
      OffsetNext(TxLayout(), k - 1);
    }
  }

  lemma HeaderPosition(h: BlockHeader, k: nat)
    requires k < 8
    ensures Holds(EncodeHeader(h), [0, 8, 16, 48, 80, 112, 144, 176][k], Encode(HeaderLayout()[k], HeaderValues(h)[k]))
  {
    HeaderOffsets(k);
    FieldAt(HeaderLayout(), HeaderValues(h), k);
  }

  /** The bytes of a header: each field at its place, integers little-endian. */
  lemma HeaderBytes(h: BlockHeader)
    ensures var data := EncodeHeader(h);
            && Holds(data, 0, Little(h.height, 8)) && Holds(data, 8, Little(h.timestamp, 8))
            && Holds(data, 16, Big(h.previousHash, 32)) && Holds(data, 48, Big(h.stateRoot, 32))
            && Holds(data, 80, Big(h.transactionsRoot, 32)) && Holds(data, 112, Big(h.validatorSetRoot, 32))
            && Holds(data, 144, Big(h.proposer, 32)) && Holds(data, 176, Little(h.epoch, 8))
  {
    HeaderPosition(h, 0);
    HeaderPosition(h, 1);
    HeaderPosition(h, 2);
    HeaderPosition(h, 3);
    HeaderPosition(h, 4);
    HeaderPosition(h, 5);
    HeaderPosition(h, 6);
    HeaderPosition(h, 7);
  }

  lemma TxPosition(tx: Transaction, k: nat)
    requires k < 8
    ensures Holds(EncodeTx(tx), [0, 32, 64, 72, 80, 88, 96, 100][k], Encode(TxLayout()[k], TxValues(tx)[k]))
  {
    TxOffsets(k);
    FieldAt(TxLayout(), TxValues(tx), k);
  }

  lemma TransactionBytes(tx: Transaction)
    ensures var data := EncodeTx(tx);
            && Holds(data, 0, Big(tx.from, 32)) && Holds(data, 32, Big(tx.to, 32))
            && Holds(data, 64, Little(tx.amount, 8)) && Holds(data, 72, Little(tx.nonce, 8))
            && Holds(data, 80, Little(tx.fee, 8)) && Holds(data, 88, Little(tx.gasLimit, 8))
            && Holds(data, 96, Little(tx.chainId, 4)) && Holds(data, 100, Big(tx.signature, 64))
  {
    TxPosition(tx, 0);
    TxPosition(tx, 1);
    TxPosition(tx, 2);
    TxPosition(tx, 3);
    TxPosition(tx, 4);
    TxPosition(tx, 5);
    TxPosition(tx, 6);
    TxPosition(tx, 7);
  }
}
