/** Readers that take a value off the front of a byte string, and how their
    exactness composes: lists, records, frames, counted lists, pairs. */
module Readers {
  import opened Types
  import opened WireFormat

  // ---- Lists ----

  /** Reads one item and returns it with the bytes after it. */
  type Reader<!T> = Bytes -> Result<(T, Bytes)>

  function EncodeMany<T>(enc: T -> Bytes, xs: seq<T>): Bytes {
    if xs == [] then [] else enc(xs[0]) + EncodeMany(enc, xs[1..])
  }

  function DecodeMany<T>(one: Reader<T>, n: nat, data: Bytes): (r: Result<(seq<T>, Bytes)>)
    ensures r.Ok? ==> |r.value.0| == n
  {
    if n == 0 then Ok(([], data))
    else
      var head := one(data);
      if head.Err? then Err
      else
        var tail := DecodeMany(one, n - 1, head.value.1);
        if tail.Err? then Err else Ok(([head.value.0] + tail.value.0, tail.value.1))
  }

  /** A reader succeeds exactly on what the writer gives for values that fit. */
  ghost predicate Exact<T(!new)>(enc: T -> Bytes, one: Reader<T>, fits: T -> bool) {
    forall data, x, rest :: ExactAt(enc, one, fits, data, x, rest)
  }

  ghost predicate ExactAt<T>(enc: T -> Bytes, one: Reader<T>, fits: T -> bool, data: Bytes, x: T, rest: Bytes) {
    one(data) == Ok((x, rest)) <==> fits(x) && data == enc(x) + rest
  }

  lemma {:induction false} ManyExact<T(!new)>(enc: T -> Bytes, one: Reader<T>, fits: T -> bool,
                                             n: nat, data: Bytes, xs: seq<T>, rest: Bytes)
    requires Exact(enc, one, fits)
    ensures DecodeMany(one, n, data) == Ok((xs, rest))
       <==> |xs| == n && (forall x :: x in xs ==> fits(x)) && data == EncodeMany(enc, xs) + rest
    decreases n
  {
    if n == 0 {
      assert [] + rest == rest;
    } else if |xs| == n {
      var x, after := xs[0], EncodeMany(enc, xs[1..]) + rest;
      Associate(enc(x), EncodeMany(enc, xs[1..]), rest);
      assert xs == [x] + xs[1..];
      if one(data).Ok? {
        var head := one(data).value;
        ManyExact(enc, one, fits, n - 1, head.1, xs[1..], rest);
        assert ExactAt(enc, one, fits, data, x, after);
        if DecodeMany(one, n, data) == Ok((xs, rest)) {
          var tail := DecodeMany(one, n - 1, head.1).value;
          assert ([head.0] + tail.0)[0] == x && ([head.0] + tail.0)[1..] == tail.0;
        }
      } else {
        assert ExactAt(enc, one, fits, data, x, after);
      }
    }
  }

  method WriteMany<T>(enc: T -> Bytes, xs: seq<T>) returns (r: Bytes)
    ensures r == EncodeMany(enc, xs)
  {
    r := [];
    var k := 0;
    while k < |xs|
      invariant 0 <= k <= |xs| && r + EncodeMany(enc, xs[k..]) == EncodeMany(enc, xs)
    {
      assert xs[k..][1..] == xs[k + 1..];
      Associate(r, enc(xs[k]), EncodeMany(enc, xs[k + 1..]));
      r := r + enc(xs[k]);
      k := k + 1;
    }
  }

  function After<T>(read: seq<T>, r: Result<(seq<T>, Bytes)>): Result<(seq<T>, Bytes)> {
    if r.Err? then Err else Ok((read + r.value.0, r.value.1))
  }

  lemma AfterNothing<T>(r: Result<(seq<T>, Bytes)>)
    ensures After([], r) == r
  {
    if r.Ok? {
      assert [] + r.value.0 == r.value.0;
    }
  }

  method ReadMany<T>(one: Reader<T>, n: nat, data: Bytes) returns (r: Result<(seq<T>, Bytes)>)
    ensures r == DecodeMany(one, n, data)
  {
    var read: seq<T> := [];
    var rest := data;
    var k := 0;
    AfterNothing(DecodeMany(one, n, data));
    while k < n
      invariant 0 <= k <= n && After(read, DecodeMany(one, n - k, rest)) == DecodeMany(one, n, data)
    {
      var head := one(rest);
      if head.Err? {
        return Err;
      }
      ghost var tail := DecodeMany(one, n - k - 1, head.value.1);
      if tail.Ok? {
        Associate(read, [head.value.0], tail.value.0);
      }
      read := read + [head.value.0];
      rest := head.value.1;
      k := k + 1;
    }
    assert read + [] == read;
    return Ok((read, rest));
  }

  // ---- Records, frames and counted lists ----

  function ReadValues(layout: seq<Field>, data: Bytes): Result<(seq<nat>, Bytes)> {
    if |data| < Size(layout) then Err else Ok((DecodeAll(layout, data), data[Size(layout)..]))
  }

  lemma ValuesExact(layout: seq<Field>, data: Bytes, vs: seq<nat>, rest: Bytes)
    ensures ReadValues(layout, data) == Ok((vs, rest)) <==> Fits(layout, vs) && data == EncodeAll(layout, vs) + rest
  {
    if |data| >= Size(layout) && |vs| == |layout| {
      FieldsExact(layout, vs, data);
      assert data == data[..Size(layout)] + data[Size(layout)..];
      SameParts(EncodeAll(layout, vs), rest, data[..Size(layout)], data[Size(layout)..]);
    }
  }

  /** A record is its field values, which `make` turns back into the record. */
  function ReadRecord<T>(layout: seq<Field>, make: seq<nat> -> Result<T>, data: Bytes): Result<(T, Bytes)> {
    var r := ReadValues(layout, data);
    if r.Err? then Err
    else
      var x := make(r.value.0);
      if x.Err? then Err else Ok((x.value, r.value.1))
  }

  ghost predicate Makes<T(!new)>(layout: seq<Field>, make: seq<nat> -> Result<T>, x: T, values: seq<nat>) {
    forall vs :: Fits(layout, vs) ==> (make(vs) == Ok(x) <==> vs == values)
  }

  lemma RecordExact<T(!new)>(layout: seq<Field>, make: seq<nat> -> Result<T>, x: T, values: seq<nat>,
                             data: Bytes, rest: Bytes)
    requires Makes(layout, make, x, values)
    ensures ReadRecord(layout, make, data) == Ok((x, rest))
       <==> Fits(layout, values) && data == EncodeAll(layout, values) + rest
  {
    var r := ReadValues(layout, data);
    if r.Ok? {
      ValuesExact(layout, data, r.value.0, r.value.1);
      assert make(r.value.0) == Ok(x) <==> r.value.0 == values;
    }
    ValuesExact(layout, data, values, rest);
  }

  /** A record that must fill the byte string. */
  function DecodeWhole<T>(layout: seq<Field>, make: seq<nat> -> Result<T>, n: nat, data: Bytes): Result<T> {
    if |data| != n then Err
    else
      var r := ReadRecord(layout, make, data);
      if r.Err? then Err else Ok(r.value.0)
  }

  lemma WholeExact<T(!new)>(layout: seq<Field>, make: seq<nat> -> Result<T>, x: T, values: seq<nat>,
                            n: nat, data: Bytes)
    requires Makes(layout, make, x, values) && n == Size(layout) && |values| == |layout|
    ensures DecodeWhole(layout, make, n, data) == Ok(x) <==> Fits(layout, values) && data == EncodeAll(layout, values)
  {
    RecordExact(layout, make, x, values, data, []);
    assert EncodeAll(layout, values) + [] == EncodeAll(layout, values);
    if |data| == n && ReadRecord(layout, make, data).Ok? {
      assert ReadRecord(layout, make, data).value.1 == [];
    }
  }

  /** An item preceded by its size. */
  function Framed<T>(enc: T -> Bytes, x: T): Bytes {
    Little(|enc(x)|, 8) + enc(x)
  }

  function ReadFramed<T>(dec: Bytes -> Result<T>, data: Bytes): Result<(T, Bytes)> {
    if |data| < 8 then Err
    else
      var size := FromLittle(data[..8]);
      if 8 + size > |data| then Err
      else
        var x := dec(data[8..8 + size]);
        if x.Err? then Err else Ok((x.value, data[8 + size..]))
  }

  lemma FramedExact<T(!new)>(enc: T -> Bytes, dec: Bytes -> Result<T>, fits: T -> bool, x: T, data: Bytes, rest: Bytes)
    requires |enc(x)| < Pow256(8) && forall d :: dec(d) == Ok(x) <==> fits(x) && d == enc(x)
    ensures ReadFramed(dec, data) == Ok((x, rest)) <==> fits(x) && data == Framed(enc, x) + rest
  {
    var n := |enc(x)|;
    if |data| >= 8 {
      LittleExact(n, data[..8]);
      var size := FromLittle(data[..8]);
      if 8 + size <= |data| {
        ThreeParts(Little(n, 8), enc(x), rest, data, 8, 8 + size);
      }
    }
    if data == Framed(enc, x) + rest {
      ThreeParts(Little(n, 8), enc(x), rest, data, 8, 8 + n);
    }
  }

  lemma ThreeParts(a: Bytes, b: Bytes, c: Bytes, data: Bytes, i: nat, j: nat)
    requires |a| == i <= j <= |data|
    ensures data[..i] == a && data[i..j] == b && data[j..] == c ==> data == (a + b) + c
    ensures data == (a + b) + c && |b| == j - i ==> data[..i] == a && data[i..j] == b && data[j..] == c
  {
    assert data == data[..i] + data[i..j] + data[j..];
  }

  /** Fixed fields, one of which counts the items that follow. */
  function ReadCounted<T>(layout: seq<Field>, at: nat, one: Reader<T>, data: Bytes): Result<((seq<nat>, seq<T>), Bytes)>
    requires at < |layout|
  {
    var head := ReadValues(layout, data);
    if head.Err? then Err
    else
      var items := DecodeMany(one, head.value.0[at], head.value.1);
      if items.Err? then Err else Ok(((head.value.0, items.value.0), items.value.1))
  }

  lemma CountedExact<T(!new)>(layout: seq<Field>, at: nat, enc: T -> Bytes, one: Reader<T>, fits: T -> bool,
                              data: Bytes, vs: seq<nat>, xs: seq<T>, rest: Bytes)
    requires at < |layout| && Exact(enc, one, fits)
    ensures ReadCounted(layout, at, one, data) == Ok(((vs, xs), rest))
       <==> Fits(layout, vs) && vs[at] == |xs| && (forall x :: x in xs ==> fits(x))
            && data == EncodeAll(layout, vs) + (EncodeMany(enc, xs) + rest)
  {
    var head := ReadValues(layout, data);
    if head.Ok? {
      ValuesExact(layout, data, head.value.0, head.value.1);
      ManyExact(enc, one, fits, head.value.0[at], head.value.1, xs, rest);
    }
    ValuesExact(layout, data, vs, EncodeMany(enc, xs) + rest);
  }

  /** A counted list between fixed fields, from which `make` builds the value. */
  function ReadListed<T, S>(layout: seq<Field>, at: nat, one: Reader<T>, tail: seq<Field>,
                            make: (seq<nat>, seq<T>, seq<nat>) -> Result<S>, data: Bytes): Result<(S, Bytes)>
    requires at < |layout|
  {
    var r := ReadCounted(layout, at, one, data);
    if r.Err? then Err
    else
      var end := ReadValues(tail, r.value.1);
      if end.Err? then Err
      else
        var x := make(r.value.0.0, r.value.0.1, end.value.0);
        if x.Err? then Err else Ok((x.value, end.value.1))
  }

  ghost predicate MakesListed<T(!new), S(!new)>(layout: seq<Field>, at: nat, tail: seq<Field>,
                                               make: (seq<nat>, seq<T>, seq<nat>) -> Result<S>,
                                               x: S, vs: seq<nat>, xs: seq<T>, ws: seq<nat>)
    requires at < |layout|
  {
    forall vs', xs', ws' :: Fits(layout, vs') && vs'[at] == |xs'| && Fits(tail, ws') ==>
      (make(vs', xs', ws') == Ok(x) <==> vs' == vs && xs' == xs && ws' == ws)
  }

  lemma ListedExact<T(!new), S(!new)>(layout: seq<Field>, at: nat, enc: T -> Bytes, one: Reader<T>, fits: T -> bool,
                                     tail: seq<Field>, make: (seq<nat>, seq<T>, seq<nat>) -> Result<S>,
                                     x: S, vs: seq<nat>, xs: seq<T>, ws: seq<nat>, data: Bytes, rest: Bytes)
    requires at < |layout| == |vs| && vs[at] == |xs| && |ws| == |tail| && Exact(enc, one, fits)
    requires MakesListed(layout, at, tail, make, x, vs, xs, ws)
    ensures ReadListed(layout, at, one, tail, make, data) == Ok((x, rest))
       <==> Fits(layout, vs) && (forall y :: y in xs ==> fits(y)) && Fits(tail, ws)
            && data == EncodeAll(layout, vs) + (EncodeMany(enc, xs) + (EncodeAll(tail, ws) + rest))
  {
    var r := ReadCounted(layout, at, one, data);
    if r.Ok? {
      CountedExact(layout, at, enc, one, fits, data, r.value.0.0, r.value.0.1, r.value.1);
      var end := ReadValues(tail, r.value.1);
      if end.Ok? {
        ValuesExact(tail, r.value.1, end.value.0, end.value.1);
      }
      ValuesExact(tail, r.value.1, ws, rest);
    }
    CountedExact(layout, at, enc, one, fits, data, vs, xs, EncodeAll(tail, ws) + rest);
    ValuesExact(tail, EncodeAll(tail, ws) + rest, ws, rest);
  }

  /** One value after another. */
  function ReadThen<A, B>(first: Reader<A>, second: Reader<B>, data: Bytes): Result<((A, B), Bytes)> {
    var a := first(data);
    if a.Err? then Err
    else
      var b := second(a.value.1);
      if b.Err? then Err else Ok(((a.value.0, b.value.0), b.value.1))
  }

  lemma ThenExact<A(!new), B(!new)>(encA: A -> Bytes, first: Reader<A>, fitsA: A -> bool,
                                   encB: B -> Bytes, second: Reader<B>, fitsB: B -> bool,
                                   data: Bytes, a: A, b: B, rest: Bytes)
    requires Exact(encA, first, fitsA) && Exact(encB, second, fitsB)
    ensures ReadThen(first, second, data) == Ok(((a, b), rest))
       <==> fitsA(a) && fitsB(b) && data == (encA(a) + encB(b)) + rest
  {
    Associate(encA(a), encB(b), rest);
    var r := first(data);
    if r.Ok? {
      assert ExactAt(encA, first, fitsA, data, r.value.0, r.value.1);
      assert ExactAt(encB, second, fitsB, r.value.1, b, rest);
    }
    assert ExactAt(encA, first, fitsA, data, a, encB(b) + rest);
    assert ExactAt(encB, second, fitsB, encB(b) + rest, b, rest);
  }

  /** A top-level reader that ignores what follows. */
  function Only<T>(r: Result<(T, Bytes)>): Result<T> {
    if r.Err? then Err else Ok(r.value.0)
  }

  lemma OnlyExact<T(!new)>(enc: T -> Bytes, one: Reader<T>, fits: T -> bool, data: Bytes, x: T)
    requires Exact(enc, one, fits)
    ensures Only(one(data)) == Ok(x) <==> fits(x) && enc(x) <= data
  {
    if one(data).Ok? {
      var r := one(data).value;
      assert ExactAt(enc, one, fits, data, r.0, r.1);
    }
    if enc(x) <= data {
      var rest := data[|enc(x)|..];
      assert data == enc(x) + rest;
      assert ExactAt(enc, one, fits, data, x, rest);
    }
  }
}
