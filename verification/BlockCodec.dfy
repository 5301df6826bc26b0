/** The wire codecs of certificates and blocks, composed from the record codecs. */
module BlockCodec {
  import opened Types
  import opened WireFormat
  import opened Readers
  import opened Codecs

  // ---- Certificates ----

  function EncodeId(id: ValidatorId): Bytes {
    Big(id, 32)
  }

  function ReadId(data: Bytes): Result<(ValidatorId, Bytes)> {
    if |data| < 32 then Err else Ok((FromBig(data[..32]), data[32..]))
  }

  predicate FitsId(id: ValidatorId) {
    id < Pow256(32)
  }

  lemma IdsExact()
    ensures Exact(EncodeId, ReadId, FitsId)
  {
    forall data: Bytes, id: ValidatorId, rest: Bytes
      ensures ExactAt(EncodeId, ReadId, FitsId, data, id, rest)
    {
      IdExact(data, id, rest);
    }
  }

  lemma IdExact(data: Bytes, id: ValidatorId, rest: Bytes)
    ensures ExactAt(EncodeId, ReadId, FitsId, data, id, rest)
  {
    if |data| >= 32 {
      BigExact(id, data[..32]);
      assert data == data[..32] + data[32..];
      SameParts(EncodeId(id), rest, data[..32], data[32..]);
    }
  }

  function EncodeQc(q: QuorumCertificate): Bytes {
    EncodeAll(QcLayout(), QcValues(q)) + (EncodeMany(EncodeId, q.signers) + EncodeAll([U64()], [q.stakeSigned]))
  }

  predicate QcTyped(vs: seq<nat>, end: seq<nat>) {
    |vs| == 5 && vs[0] < TWO_64 && vs[2] < TWO_64 && |end| == 1 && end[0] < TWO_64
  }

  lemma QcFitsTyped(vs: seq<nat>, end: seq<nat>)
    requires Fits(QcLayout(), vs) && Fits([U64()], end)
    ensures QcTyped(vs, end)
  {
    Wide(QcLayout(), vs, 0);
    Wide(QcLayout(), vs, 2);
    Wide([U64()], end, 0);
  }

  function MakeQc(vs: seq<nat>, signers: seq<ValidatorId>, end: seq<nat>): Result<QuorumCertificate> {
    if QcTyped(vs, end)
    then Ok(QuorumCertificate(vs[0], vs[1], vs[2], vs[3], signers, end[0]))
    else Err
  }

  function ReadQc(data: Bytes): Result<(QuorumCertificate, Bytes)> {
    ReadListed(QcLayout(), 4, ReadId, [U64()], MakeQc, data)
  }

  function DecodeQc(data: Bytes): Result<QuorumCertificate> {
    Only(ReadQc(data))
  }

  predicate FitsQc(q: QuorumCertificate) {
    Fits(QcLayout(), QcValues(q)) && forall id :: id in q.signers ==> FitsId(id)
  }

  lemma QcMade(vs: seq<nat>, signers: seq<ValidatorId>, end: seq<nat>, q: QuorumCertificate)
    requires QcTyped(vs, end) && vs[4] == |signers|
    ensures MakeQc(vs, signers, end) == Ok(q) <==> vs == QcValues(q) && signers == q.signers && end == [q.stakeSigned]
  {
  }

  lemma QcMakes(q: QuorumCertificate)
    ensures MakesListed(QcLayout(), 4, [U64()], MakeQc, q, QcValues(q), q.signers, [q.stakeSigned])
  {
    forall vs: seq<nat>, signers: seq<ValidatorId>, end: seq<nat>
      | Fits(QcLayout(), vs) && vs[4] == |signers| && Fits([U64()], end)
      ensures MakeQc(vs, signers, end) == Ok(q) <==> vs == QcValues(q) && signers == q.signers && end == [q.stakeSigned]
    {
      QcFitsTyped(vs, end);
      QcMade(vs, signers, end, q);
    }
  }

  lemma QcExact(data: Bytes, q: QuorumCertificate, rest: Bytes)
    ensures ExactAt(EncodeQc, ReadQc, FitsQc, data, q, rest)
  {
    QcMakes(q);
    IdsExact();
    ListedExact(QcLayout(), 4, EncodeId, ReadId, FitsId, [U64()], MakeQc,
                q, QcValues(q), q.signers, [q.stakeSigned], data, rest);
    var a, b := EncodeAll(QcLayout(), QcValues(q)), EncodeMany(EncodeId, q.signers);
    var c := EncodeAll([U64()], [q.stakeSigned]);
    Associate(b, c, rest);
    Associate(a, b + c, rest);
  }

  lemma QcsExact()
    ensures Exact(EncodeQc, ReadQc, FitsQc)
  {
    forall data: Bytes, q: QuorumCertificate, rest: Bytes
      ensures ExactAt(EncodeQc, ReadQc, FitsQc, data, q, rest)
    {
      QcExact(data, q, rest);
    }
  }

  /** A byte string is read as this certificate exactly when it starts with the
      certificate's encoding; what follows is ignored. */
  lemma CertificateExact(data: Bytes, q: QuorumCertificate)
    ensures DecodeQc(data) == Ok(q) <==> FitsQc(q) && EncodeQc(q) <= data
  {
    QcsExact();
    OnlyExact(EncodeQc, ReadQc, FitsQc, data, q);
  }

  // ---- Blocks ----

  function EncodeFrame(tx: Transaction): Bytes {
    Framed(EncodeTx, tx)
  }

  function ReadFrame(data: Bytes): Result<(Transaction, Bytes)> {
    ReadFramed(DecodeTx, data)
  }

  lemma FramesExact()
    ensures Exact(EncodeFrame, ReadFrame, FitsTx)
  {
    forall data: Bytes, tx: Transaction, rest: Bytes
      ensures ExactAt(EncodeFrame, ReadFrame, FitsTx, data, tx, rest)
    {
      FrameExact(data, tx, rest);
    }
  }

  lemma FrameExact(data: Bytes, tx: Transaction, rest: Bytes)
    ensures ExactAt(EncodeFrame, ReadFrame, FitsTx, data, tx, rest)
  {
    forall d ensures DecodeTx(d) == Ok(tx) <==> FitsTx(tx) && d == EncodeTx(tx) {
      TransactionExact(d, tx);
    }
    FramedExact(EncodeTx, DecodeTx, FitsTx, tx, data, rest);
  }

  function EncodeTxs(txs: seq<Transaction>): Bytes {
    EncodeAll([U64()], [|txs|]) + EncodeMany(EncodeFrame, txs)
  }

  function MakeTxs(vs: seq<nat>, txs: seq<Transaction>, end: seq<nat>): Result<seq<Transaction>> {
    Ok(txs)
  }

  function ReadTxs(data: Bytes): Result<(seq<Transaction>, Bytes)> {
    ReadListed([U64()], 0, ReadFrame, [], MakeTxs, data)
  }

  predicate FitsTxs(txs: seq<Transaction>) {
    |txs| < TWO_64 && forall tx :: tx in txs ==> FitsTx(tx)
  }

  lemma TxListExact(data: Bytes, txs: seq<Transaction>, rest: Bytes)
    ensures ExactAt(EncodeTxs, ReadTxs, FitsTxs, data, txs, rest)
  {
    FramesExact();
    assert MakesListed([U64()], 0, [], MakeTxs, txs, [|txs|], txs, []);
    ListedExact([U64()], 0, EncodeFrame, ReadFrame, FitsTx, [], MakeTxs, txs, [|txs|], txs, [], data, rest);
    assert EncodeAll([], []) + rest == rest;
    Associate(EncodeAll([U64()], [|txs|]), EncodeMany(EncodeFrame, txs), rest);
  }

  lemma TxListsExact()
    ensures Exact(EncodeTxs, ReadTxs, FitsTxs)
  {
    forall data: Bytes, txs: seq<Transaction>, rest: Bytes
      ensures ExactAt(EncodeTxs, ReadTxs, FitsTxs, data, txs, rest)
    {
      TxListExact(data, txs, rest);
    }
  }

  /** Transactions and certificate, the part of a block after its header. */
  type Body = (seq<Transaction>, QuorumCertificate)

  function EncodeBody(b: Body): Bytes {
    EncodeTxs(b.0) + EncodeQc(b.1)
  }

  function ReadBody(data: Bytes): Result<(Body, Bytes)> {
    ReadThen(ReadTxs, ReadQc, data)
  }

  predicate FitsBody(b: Body) {
    FitsTxs(b.0) && FitsQc(b.1)
  }

  lemma BodiesExact()
    ensures Exact(EncodeBody, ReadBody, FitsBody)
  {
    forall data: Bytes, b: Body, rest: Bytes
      ensures ExactAt(EncodeBody, ReadBody, FitsBody, data, b, rest)
    {
      BodyExact(data, b, rest);
    }
  }

  lemma BodyExact(data: Bytes, b: Body, rest: Bytes)
    ensures ExactAt(EncodeBody, ReadBody, FitsBody, data, b, rest)
  {
    TxListsExact();
    QcsExact();
    ThenExact(EncodeTxs, ReadTxs, FitsTxs, EncodeQc, ReadQc, FitsQc, data, b.0, b.1, rest);
  }

  lemma HeadersExact()
    ensures Exact(EncodeHeader, ReadHeader, FitsHeader)
  {
    forall data: Bytes, h: BlockHeader, rest: Bytes
      ensures ExactAt(EncodeHeader, ReadHeader, FitsHeader, data, h, rest)
    {
      HeaderExact(data, h, rest);
    }
  }

  function EncodeBlock(b: Block): Bytes {
    EncodeHeader(b.header) + EncodeBody((b.transactions, b.justify))
  }

  function ReadBlock(data: Bytes): Result<(Block, Bytes)> {
    var r := ReadThen(ReadHeader, ReadBody, data);
    if r.Err? then Err else Ok((Block(r.value.0.0, r.value.0.1.0, r.value.0.1.1), r.value.1))
  }

  function DecodeBlock(data: Bytes): Result<Block> {
    Only(ReadBlock(data))
  }

  predicate FitsBlock(b: Block) {
    FitsHeader(b.header) && FitsBody((b.transactions, b.justify))
  }

  lemma BlocksExact()
    ensures Exact(EncodeBlock, ReadBlock, FitsBlock)
  {
    forall data: Bytes, b: Block, rest: Bytes
      ensures ExactAt(EncodeBlock, ReadBlock, FitsBlock, data, b, rest)
    {
      WholeBlockExact(data, b, rest);
    }
  }

  lemma WholeBlockExact(data: Bytes, b: Block, rest: Bytes)
    ensures ExactAt(EncodeBlock, ReadBlock, FitsBlock, data, b, rest)
  {
    HeadersExact();
    BodiesExact();
    ThenExact(EncodeHeader, ReadHeader, FitsHeader, EncodeBody, ReadBody, FitsBody,
              data, b.header, (b.transactions, b.justify), rest);
  }

  /** A byte string is read as this block exactly when it starts with the block's
      encoding: the round trip of every block, its injectivity, and the rejection of
      everything else in one statement. */
  lemma BlockExact(data: Bytes, b: Block)
    ensures DecodeBlock(data) == Ok(b) <==> FitsBlock(b) && EncodeBlock(b) <= data
  {
    BlocksExact();
    OnlyExact(EncodeBlock, ReadBlock, FitsBlock, data, b);
  }

  lemma BlockRoundTrip(b: Block)
    requires FitsBlock(b)
    ensures DecodeBlock(EncodeBlock(b)) == Ok(b)
  {
    BlockExact(EncodeBlock(b), b);
  }
}
