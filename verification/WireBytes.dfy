/** Every byte of every record on the wire: which field it belongs to, and which digit
    of that field it is. */
module WireBytes {
  import opened Types
  import opened Shares
  import opened WireFormat
  import opened Readers
  import opened Codecs
  import opened BlockCodec

  // ---- Digits ----

  ghost function Power(n: nat): (r: nat)
    ensures r > 0
  {
    if n == 0 then 1 else 256 * Power(n - 1)
  }

  lemma DivideTwice(x: nat, p: nat)
    requires p > 0
    ensures x / 256 / p == x / (256 * p)
  {
    var q, r := x / 256 / p, x / 256 % p;
    assert x / 256 == q * p + r;
    assert x == 256 * (q * p + r) + x % 256;
    assert x == q * (256 * p) + (256 * r + x % 256);
    QuotientIs(x, 256 * p, q, 256 * r + x % 256);
  }

  lemma QuotientIs(x: nat, d: nat, q: nat, r: nat)
    requires 0 <= r < d && x == q * d + r
    ensures x / d == q
  {
    QuotientBounds(x, d);
    var k := x / d;
    if k > q {
      MulMonotone(q + 1, k, d);
    } else if k < q {
      MulMonotone(k + 1, q, d);
    }
  }

  /** A little-endian number: byte i is digit i to the base 256. */
  lemma {:induction false} LittleDigits(x: nat, n: nat, i: nat)
    requires i < n
    ensures Little(x, n)[i] == x / Power(i) % 256
  {
    if i > 0 {
      LittleDigits(x / 256, n - 1, i - 1);
      DivideTwice(x, Power(i - 1));
    }
  }

  /** A big-endian one: byte i from the end is. */
  lemma {:induction false} BigDigits(x: nat, n: nat, i: nat)
    requires i < n
    ensures Big(x, n)[n - 1 - i] == x / Power(i) % 256
  {
    if i > 0 {
      BigDigits(x / 256, n - 1, i - 1);
      DivideTwice(x, Power(i - 1));
    }
  }

  // ---- Positions ----

  lemma {:induction false} ManyAt<T>(enc: T -> Bytes, xs: seq<T>, width: nat, i: nat)
    requires forall x :: x in xs ==> |enc(x)| == width
    requires i < |xs|
    ensures Holds(EncodeMany(enc, xs), width * i, enc(xs[i]))
  {
    if i == 0 {
      HoldsFirst(enc(xs[0]), EncodeMany(enc, xs[1..]));
    } else {
      ManyAt(enc, xs[1..], width, i - 1);
      HoldsAfter(enc(xs[0]), EncodeMany(enc, xs[1..]), width * (i - 1), enc(xs[i]));
      assert width + width * (i - 1) == width * i;
    }
  }

  lemma {:induction false} ManyLength<T>(enc: T -> Bytes, xs: seq<T>, width: nat)
    requires forall x :: x in xs ==> |enc(x)| == width
    ensures |EncodeMany(enc, xs)| == width * |xs|
  {
    if xs != [] {
      ManyLength(enc, xs[1..], width);
      assert width + width * (|xs| - 1) == width * |xs|;
    }
  }

  lemma HoldsBefore(first: Bytes, rest: Bytes, at: nat, part: Bytes)
    requires Holds(first, at, part)
    ensures Holds(first + rest, at, part)
  {
    assert (first + rest)[at..at + |part|] == first[at..at + |part|];
  }

  lemma {:induction false} ValidatorOffsets(k: nat)
    requires k < 9
    ensures Offset(ValidatorLayout(), k) == [0, 32, 80, 112, 120, 121, 129, 137, 145][k]
  {
    if k > 0 {
      ValidatorOffsets(k - 1);
      OffsetNext(ValidatorLayout(), k - 1);
    }
  }

  lemma ValidatorPosition(v: Validator, k: nat)
    requires k < 9
    ensures Holds(EncodeValidator(v), [0, 32, 80, 112, 120, 121, 129, 137, 145][k],
                  Encode(ValidatorLayout()[k], ValidatorValues(v)[k]))
  {
    ValidatorOffsets(k);
    FieldAt(ValidatorLayout(), ValidatorValues(v), k);
  }

  lemma ValidatorFront(v: Validator)
    ensures var data := EncodeValidator(v);
            && Holds(data, 0, Big(v.id, 32)) && Holds(data, 32, Big(v.consensusKey, 48))
            && Holds(data, 80, Big(v.withdrawalKey, 32)) && Holds(data, 112, Little(v.stake, 8))
  {
    ValidatorPosition(v, 0);
    ValidatorPosition(v, 1);
    ValidatorPosition(v, 2);
    ValidatorPosition(v, 3);
  }

  lemma ValidatorBack(v: Validator)
    ensures var data := EncodeValidator(v);
            && Holds(data, 121, Little(v.jailedUntil, 8)) && Holds(data, 129, Little(v.downtimeEpochs, 8))
            && Holds(data, 137, Little(v.signed, 8)) && Holds(data, 145, Little(v.missed, 8))
  {
    ValidatorPosition(v, 5);
    ValidatorPosition(v, 6);
    ValidatorPosition(v, 7);
    ValidatorPosition(v, 8);
  }

  /** The bytes of a validator: its status is one byte, 0 to 3. */
  lemma ValidatorBytes(v: Validator)
    ensures var data := EncodeValidator(v);
            var code := match v.status case Active => 0 case Standby => 1 case Jailed => 2 case Tombstoned => 3;
            && |data| == 153
            && Holds(data, 0, Big(v.id, 32)) && Holds(data, 32, Big(v.consensusKey, 48))
            && Holds(data, 80, Big(v.withdrawalKey, 32)) && Holds(data, 112, Little(v.stake, 8))
            && Holds(data, 120, Little(code, 1)) && Holds(data, 121, Little(v.jailedUntil, 8))
            && Holds(data, 129, Little(v.downtimeEpochs, 8)) && Holds(data, 137, Little(v.signed, 8))
            && Holds(data, 145, Little(v.missed, 8))
  {
    Sizes();
    ValidatorFront(v);
    ValidatorPosition(v, 4);
    ValidatorBack(v);
  }

  lemma {:induction false} SetOffsets(k: nat)
    requires k < 4
    ensures Offset(SetLayout(), k) == [0, 8, 16, 48][k]
  {
    if k > 0 {
      SetOffsets(k - 1);
      OffsetNext(SetLayout(), k - 1);
    }
  }

  lemma SetPosition(s: ValidatorSet, k: nat)
    requires k < 4
    ensures Holds(EncodeSet(s), [0, 8, 16, 48][k], Encode(SetLayout()[k], SetValues(s)[k]))
  {
    SetOffsets(k);
    FieldAt(SetLayout(), SetValues(s), k);
    HoldsBefore(EncodeAll(SetLayout(), SetValues(s)), EncodeMany(EncodeValidator, s.validators),
                [0, 8, 16, 48][k], Encode(SetLayout()[k], SetValues(s)[k]));
  }

  /** A list of records of one width between a head and an end. */
  ghost predicate ListAt<T(!new)>(data: Bytes, at: nat, enc: T -> Bytes, xs: seq<T>, width: nat, end: Bytes) {
    && |data| == at + width * |xs| + |end|
    && (forall i :: 0 <= i < |xs| ==> Holds(data, at + width * i, enc(xs[i])))
    && Holds(data, at + width * |xs|, end)
  }

  lemma InMiddle(head: Bytes, many: Bytes, end: Bytes, at: nat, part: Bytes)
    requires Holds(many, at, part)
    ensures Holds(head + (many + end), |head| + at, part)
  {
    HoldsBefore(many, end, at, part);
    HoldsAfter(head, many + end, at, part);
  }

  lemma EndAt(head: Bytes, many: Bytes, end: Bytes)
    ensures Holds(head + (many + end), |head| + |many|, end)
  {
    HoldsFirst(end, []);
    assert end + [] == end;
    HoldsAfter(many, end, 0, end);
    HoldsAfter(head, many + end, |many|, end);
  }

  lemma ListOf<T(!new)>(head: Bytes, many: Bytes, enc: T -> Bytes, xs: seq<T>, width: nat, end: Bytes)
    requires |many| == width * |xs|
    requires forall i :: 0 <= i < |xs| ==> Holds(many, width * i, enc(xs[i]))
    ensures ListAt(head + (many + end), |head|, enc, xs, width, end)
  {
    forall i | 0 <= i < |xs| ensures Holds(head + (many + end), |head| + width * i, enc(xs[i])) {
      InMiddle(head, many, end, width * i, enc(xs[i]));
    }
    EndAt(head, many, end);
  }

  lemma ListBytes<T(!new)>(head: Bytes, enc: T -> Bytes, xs: seq<T>, width: nat, end: Bytes)
    requires forall x :: x in xs ==> |enc(x)| == width
    ensures ListAt(head + (EncodeMany(enc, xs) + end), |head|, enc, xs, width, end)
  {
    ManyLength(enc, xs, width);
    forall i | 0 <= i < |xs| ensures Holds(EncodeMany(enc, xs), width * i, enc(xs[i])) {
      ManyAt(enc, xs, width, i);
    }
    ListOf(head, EncodeMany(enc, xs), enc, xs, width, end);
  }

  lemma SetMembers(s: ValidatorSet)
    ensures ListAt(EncodeSet(s), 52, EncodeValidator, s.validators, 153, [])
  {
    Sizes();
    ListBytes(EncodeAll(SetLayout(), SetValues(s)), EncodeValidator, s.validators, 153, []);
    assert EncodeMany(EncodeValidator, s.validators) + [] == EncodeMany(EncodeValidator, s.validators);
  }

  lemma SetFront(s: ValidatorSet)
    ensures var data := EncodeSet(s);
            && Holds(data, 0, Little(s.epoch, 8)) && Holds(data, 8, Little(s.totalStake, 8))
            && Holds(data, 16, Big(s.merkleRoot, 32)) && Holds(data, 48, Little(|s.validators|, 4))
  {
    SetPosition(s, 0);
    SetPosition(s, 1);
    SetPosition(s, 2);
    SetPosition(s, 3);
  }

  /** The bytes of a set: the members follow the count, 153 bytes each. */
  lemma SetBytes(s: ValidatorSet)
    ensures var data := EncodeSet(s);
            && Holds(data, 0, Little(s.epoch, 8)) && Holds(data, 8, Little(s.totalStake, 8))
            && Holds(data, 16, Big(s.merkleRoot, 32)) && Holds(data, 48, Little(|s.validators|, 4))
            && ListAt(data, 52, EncodeValidator, s.validators, 153, [])
  {
    SetFront(s);
    SetMembers(s);
  }

  lemma {:induction false} QcOffsets(k: nat)
    requires k < 5
    ensures Offset(QcLayout(), k) == [0, 8, 40, 48, 144][k]
  {
    if k > 0 {
      QcOffsets(k - 1);
      OffsetNext(QcLayout(), k - 1);
    }
  }

  lemma QcPosition(q: QuorumCertificate, k: nat)
    requires k < 5
    ensures Holds(EncodeQc(q), [0, 8, 40, 48, 144][k], Encode(QcLayout()[k], QcValues(q)[k]))
  {
    QcOffsets(k);
    FieldAt(QcLayout(), QcValues(q), k);
    HoldsBefore(EncodeAll(QcLayout(), QcValues(q)),
                EncodeMany(EncodeId, q.signers) + EncodeAll([U64()], [q.stakeSigned]),
                [0, 8, 40, 48, 144][k], Encode(QcLayout()[k], QcValues(q)[k]));
  }

  lemma OneNumber(x: nat)
    ensures EncodeAll([U64()], [x]) == Little(x, 8)
  {
    assert EncodeAll([U64()], [x]) == Encode(U64(), x) + EncodeAll([], []);
  }

  /** The bytes of a certificate: the signers follow their count, 32 bytes each, and the
      claimed stake ends it. */
  lemma CertificateBytes(q: QuorumCertificate)
    ensures var data := EncodeQc(q);
            var n := |q.signers|;
            && |data| == 160 + 32 * n
            && Holds(data, 0, Little(q.height, 8)) && Holds(data, 8, Big(q.hash, 32))
            && Holds(data, 40, Little(q.view, 8)) && Holds(data, 48, Big(q.signature, 96))
            && Holds(data, 144, Little(n, 8))
            && (forall i :: 0 <= i < n ==> Holds(data, 152 + 32 * i, Big(q.signers[i], 32)))
            && Holds(data, 152 + 32 * n, Little(q.stakeSigned, 8))
  {
    QcPosition(q, 0);
    QcPosition(q, 1);
    QcPosition(q, 2);
    QcPosition(q, 3);
    QcPosition(q, 4);
    QcSigners(q);
  }

  lemma QcSigners(q: QuorumCertificate)
    ensures ListAt(EncodeQc(q), 152, EncodeId, q.signers, 32, Little(q.stakeSigned, 8))
  {
    Sizes();
    OneNumber(q.stakeSigned);
    ListBytes(EncodeAll(QcLayout(), QcValues(q)), EncodeId, q.signers, 32, Little(q.stakeSigned, 8));
  }

  lemma Concatenated(b: Block)
    ensures EncodeBlock(b) == (EncodeHeader(b.header) + Little(|b.transactions|, 8))
                              + (EncodeMany(EncodeFrame, b.transactions) + EncodeQc(b.justify))
  {
    OneNumber(|b.transactions|);
    Associate(Little(|b.transactions|, 8), EncodeMany(EncodeFrame, b.transactions), EncodeQc(b.justify));
    Associate(EncodeHeader(b.header), Little(|b.transactions|, 8),
              EncodeMany(EncodeFrame, b.transactions) + EncodeQc(b.justify));
  }

  /** A block's parts in order: a header of 184 bytes, the transaction count, one frame of
      172 bytes for each transaction, and the certificate. */
  ghost predicate BlockLaidOut(data: Bytes, header: Bytes, txs: seq<Transaction>, end: Bytes) {
    Holds(data, 0, header) && Holds(data, 184, Little(|txs|, 8)) && ListAt(data, 192, EncodeFrame, txs, 172, end)
  }

  /** A frame is a transaction behind its length. */
  lemma FrameBytes(tx: Transaction)
    ensures EncodeFrame(tx) == Little(164, 8) + EncodeTx(tx)
  {
  }

  lemma BlockHead(header: Bytes, count: Bytes, rest: Bytes)
    ensures Holds((header + count) + rest, 0, header) && Holds((header + count) + rest, |header|, count)
  {
    HoldsFirst(header, count);
    HoldsFirst(count, []);
    assert count + [] == count;
    HoldsAfter(header, count, 0, count);
    HoldsBefore(header + count, rest, 0, header);
    HoldsBefore(header + count, rest, |header|, count);
  }

  lemma BlockParts(header: Bytes, txs: seq<Transaction>, end: Bytes)
    requires |header| == 184
    ensures BlockLaidOut((header + Little(|txs|, 8)) + (EncodeMany(EncodeFrame, txs) + end), header, txs, end)
  {
    BlockHead(header, Little(|txs|, 8), EncodeMany(EncodeFrame, txs) + end);
    forall tx | tx in txs ensures |EncodeFrame(tx)| == 172 {
      FrameBytes(tx);
    }
    ListBytes(header + Little(|txs|, 8), EncodeFrame, txs, 172, end);
  }

  lemma HeaderLength(h: BlockHeader)
    ensures |EncodeHeader(h)| == 184
  {
    Sizes();
  }

  /** The bytes of a block. */
  lemma BlockBytes(b: Block)
    ensures BlockLaidOut(EncodeBlock(b), EncodeHeader(b.header), b.transactions, EncodeQc(b.justify))
  {
    Concatenated(b);
    HeaderLength(b.header);
    BlockParts(EncodeHeader(b.header), b.transactions, EncodeQc(b.justify));
  }
}
