/** Byte strings and tables of fixed-width fields. Integers are little-endian;
    digests, addresses, keys and signatures are byte strings, read as big-endian
    numbers. */
module WireFormat {
  type byte = x: int | 0 <= x < 256
  type Bytes = seq<byte>

  function Pow256(n: nat): (r: nat)
    ensures r > 0
    ensures n == 1 ==> r == 256
    ensures n == 4 ==> r == 0x1_0000_0000
    ensures n == 8 ==> r == 0x1_0000_0000_0000_0000
  {
    if n == 0 then 1
    else if n == 4 then 0x1_0000_0000
    else if n == 8 then 0x1_0000_0000_0000_0000
    else 256 * Pow256(n - 1)
  }

  lemma PowStep(n: nat)
    requires n > 0
    ensures Pow256(n) == 256 * Pow256(n - 1)
  {
    assert Pow256(0) == 1 && Pow256(1) == 256 && Pow256(2) == 0x1_0000 && Pow256(3) == 0x100_0000;
    assert Pow256(5) == 0x100_0000_0000 && Pow256(6) == 0x1_0000_0000_0000;
    assert Pow256(7) == 0x100_0000_0000_0000;
  }

  // ---- One number ----

  function Little(x: nat, n: nat): (r: Bytes)
    ensures |r| == n
  {
    if n == 0 then [] else [x % 256] + Little(x / 256, n - 1)
  }

  function FromLittle(s: Bytes): nat {
    if s == [] then 0 else s[0] + 256 * FromLittle(s[1..])
  }

  function Big(x: nat, n: nat): (r: Bytes)
    ensures |r| == n
  {
    if n == 0 then [] else Big(x / 256, n - 1) + [x % 256]
  }

  function FromBig(s: Bytes): nat {
    if s == [] then 0 else 256 * FromBig(s[..|s| - 1]) + s[|s| - 1]
  }

  lemma {:induction false} LittleExact(x: nat, s: Bytes)
    ensures FromLittle(s) == x <==> x < Pow256(|s|) && Little(x, |s|) == s
  {
    if s != [] {
      PowStep(|s|);
      LittleExact(x / 256, s[1..]);
      assert s == [s[0]] + s[1..];
    }
  }

  lemma {:induction false} BigExact(x: nat, s: Bytes)
    ensures FromBig(s) == x <==> x < Pow256(|s|) && Big(x, |s|) == s
  {
    if s != [] {
      PowStep(|s|);
      BigExact(x / 256, s[..|s| - 1]);
      assert s == s[..|s| - 1] + [s[|s| - 1]];
    }
  }

  // ---- A table of fields ----

  datatype Field = Field(little: bool, width: nat)

  function Encode(f: Field, x: nat): (r: Bytes)
    ensures |r| == f.width
  {
    if f.little then Little(x, f.width) else Big(x, f.width)
  }

  function Decode(f: Field, s: Bytes): nat {
    if f.little then FromLittle(s) else FromBig(s)
  }

  lemma FieldExact(f: Field, x: nat, s: Bytes)
    requires |s| == f.width
    ensures Decode(f, s) == x <==> x < Pow256(f.width) && Encode(f, x) == s
  {
    LittleExact(x, s);
    BigExact(x, s);
  }

  function Size(layout: seq<Field>): nat {
    if layout == [] then 0 else layout[0].width + Size(layout[1..])
  }

  predicate Fits(layout: seq<Field>, values: seq<nat>) {
    |values| == |layout| && forall k :: 0 <= k < |layout| ==> values[k] < Pow256(layout[k].width)
  }

  function EncodeAll(layout: seq<Field>, values: seq<nat>): (r: Bytes)
    requires |values| == |layout|
    ensures |r| == Size(layout)
  {
    if layout == [] then [] else Encode(layout[0], values[0]) + EncodeAll(layout[1..], values[1..])
  }

  function DecodeAll(layout: seq<Field>, data: Bytes): (r: seq<nat>)
    requires |data| >= Size(layout)
    ensures |r| == |layout|
  {
    if layout == [] then []
    else
      var w := layout[0].width;
      [Decode(layout[0], data[..w])] + DecodeAll(layout[1..], data[w..])
  }

  /** Reading returns these values exactly when they fit their fields and the bytes
      read are what writing them gives. */
  lemma {:induction false} FieldsExact(layout: seq<Field>, values: seq<nat>, data: Bytes)
    requires |data| >= Size(layout) && |values| == |layout|
    ensures DecodeAll(layout, data) == values
       <==> Fits(layout, values) && EncodeAll(layout, values) == data[..Size(layout)]
  {
    if layout != [] {
      var w := layout[0].width;
      FieldExact(layout[0], values[0], data[..w]);
      FieldsExact(layout[1..], values[1..], data[w..]);
      SplitBytes(data, w, Size(layout));
      SameParts(Encode(layout[0], values[0]), EncodeAll(layout[1..], values[1..]),
                data[..w], data[w..][..Size(layout[1..])]);
      FitsSplit(layout, values);
      assert values == [values[0]] + values[1..];
    }
  }

  lemma FitsSplit(layout: seq<Field>, values: seq<nat>)
    requires |values| == |layout| > 0
    ensures Fits(layout, values) <==> values[0] < Pow256(layout[0].width) && Fits(layout[1..], values[1..])
  {
    if Fits(layout[1..], values[1..]) && values[0] < Pow256(layout[0].width) {
      forall k | 0 < k < |layout| ensures values[k] < Pow256(layout[k].width) {
        assert values[1..][k - 1] == values[k] && layout[1..][k - 1] == layout[k];
      }
    }
  }

  lemma SplitBytes(data: Bytes, w: nat, n: nat)
    requires w <= n <= |data|
    ensures data[..n] == data[..w] + data[w..][..n - w]
  {
  }

  lemma SameParts(a: Bytes, b: Bytes, c: Bytes, d: Bytes)
    requires |a| == |c|
    ensures a + b == c + d <==> a == c && b == d
  {
    if a + b == c + d {
      assert (a + b)[..|a|] == a && (c + d)[..|c|] == c;
      assert (a + b)[|a|..] == b && (c + d)[|c|..] == d;
    }
  }

  lemma Associate<T>(a: seq<T>, b: seq<T>, c: seq<T>)
    ensures a + (b + c) == (a + b) + c
  {
  }

  /** Where field k starts. */
  function Offset(layout: seq<Field>, k: nat): nat
    requires k <= |layout|
  {
    if k == 0 then 0 else layout[0].width + Offset(layout[1..], k - 1)
  }

  predicate Holds(data: Bytes, at: nat, part: Bytes) {
    at + |part| <= |data| && data[at..at + |part|] == part
  }

  lemma {:induction false} FieldAt(layout: seq<Field>, values: seq<nat>, k: nat)
    requires |values| == |layout| && k < |layout|
    ensures Holds(EncodeAll(layout, values), Offset(layout, k), Encode(layout[k], values[k]))
  {
    var first := Encode(layout[0], values[0]);
    var rest := EncodeAll(layout[1..], values[1..]);
    if k > 0 {
      FieldAt(layout[1..], values[1..], k - 1);
      HoldsAfter(first, rest, Offset(layout[1..], k - 1), Encode(layout[k], values[k]));
    } else {
      HoldsFirst(first, rest);
    }
  }

  lemma HoldsFirst(first: Bytes, rest: Bytes)
    ensures Holds(first + rest, 0, first)
  {
  }

  lemma HoldsAfter(first: Bytes, rest: Bytes, at: nat, part: Bytes)
    requires Holds(rest, at, part)
    ensures Holds(first + rest, |first| + at, part)
  {
    assert (first + rest)[|first| + at..|first| + at + |part|] == rest[at..at + |part|];
  }

  // ---- Writing and reading ----

  /** The loop that shifts a number out byte by byte. */
  method WriteLittle(x: nat, n: nat) returns (r: Bytes)
    ensures r == Little(x, n)
  {
    r := [];
    var rest := x;
    var i := 0;
    while i < n
      invariant 0 <= i <= n && r + Little(rest, n - i) == Little(x, n)
    {
      r := r + [rest % 256];
      rest := rest / 256;
      i := i + 1;
    }
  }

  /** The loop that shifts bytes in, lowest first. */
  method ReadLittle(data: Bytes, offset: nat, n: nat) returns (value: nat)
    requires offset + n <= |data|
    ensures value == FromLittle(data[offset..offset + n])
  {
    value := 0;
    var i: nat, scale: nat := 0, 1;
    while i < n
      invariant i <= n
      invariant value + scale * FromLittle(data[offset + i..offset + n]) == FromLittle(data[offset..offset + n])
    {
      LowestByte(data, offset + i, offset + n);
      ScaleStep(value, scale, data[offset + i], FromLittle(data[offset + i + 1..offset + n]));
      value := value + scale * data[offset + i];
      scale := 256 * scale;
      i := i + 1;
    }
    assert data[offset + n..offset + n] == [];
  }

  lemma LowestByte(data: Bytes, from: nat, end: nat)
    requires from < end <= |data|
    ensures FromLittle(data[from..end]) == data[from] + 256 * FromLittle(data[from + 1..end])
  {
    assert data[from..end][1..] == data[from + 1..end];
  }

  lemma ScaleStep(value: nat, scale: nat, b: nat, rest: nat)
    ensures scale * b >= 0
    ensures value + scale * (b + 256 * rest) == (value + scale * b) + (256 * scale) * rest
  {
  }

  method WriteField(f: Field, x: nat) returns (r: Bytes)
    ensures r == Encode(f, x)
  {
    if f.little {
      r := WriteLittle(x, f.width);
    } else {
      r := Big(x, f.width);
    }
  }

  method WriteFields(layout: seq<Field>, values: seq<nat>) returns (r: Bytes)
    requires |values| == |layout|
    ensures r == EncodeAll(layout, values)
  {
    r := [];
    var k := 0;
    while k < |layout|
      invariant 0 <= k <= |layout|
      invariant r + EncodeAll(layout[k..], values[k..]) == EncodeAll(layout, values)
    {
      assert layout[k..][1..] == layout[k + 1..] && values[k..][1..] == values[k + 1..];
      var field := WriteField(layout[k], values[k]);
      Associate(r, field, EncodeAll(layout[k + 1..], values[k + 1..]));
      r := r + field;
      k := k + 1;
    }
  }

  lemma DecodeStep(layout: seq<Field>, data: Bytes, k: nat, offset: nat)
    requires k < |layout| && offset + Size(layout[k..]) <= |data|
    ensures var w := layout[k].width;
            && offset + w + Size(layout[k + 1..]) == offset + Size(layout[k..])
            && DecodeAll(layout[k..], data[offset..])
               == [Decode(layout[k], data[offset..offset + w])] + DecodeAll(layout[k + 1..], data[offset + w..])
  {
    var w := layout[k].width;
    assert layout[k..][1..] == layout[k + 1..];
    assert data[offset..][..w] == data[offset..offset + w] && data[offset..][w..] == data[offset + w..];
  }

  method ReadFields(data: Bytes, layout: seq<Field>) returns (values: seq<nat>)
    requires |data| >= Size(layout)
    ensures values == DecodeAll(layout, data)
  {
    values := [];
    var offset: nat, k: nat := 0, 0;
    while k < |layout|
      invariant k <= |layout| && offset + Size(layout[k..]) <= |data|
      invariant values + DecodeAll(layout[k..], data[offset..]) == DecodeAll(layout, data)
    {
      DecodeStep(layout, data, k, offset);
      var value := ReadField(data, offset, layout[k]);
      Associate(values, [value], DecodeAll(layout[k + 1..], data[offset + layout[k].width..]));
      values := values + [value];
      offset := offset + layout[k].width;
      k := k + 1;
    }
  }

  method ReadField(data: Bytes, offset: nat, f: Field) returns (value: nat)
    requires offset + f.width <= |data|
    ensures value == Decode(f, data[offset..offset + f.width])
  {
    if f.little {
      value := ReadLittle(data, offset, f.width);
    } else {
      value := FromBig(data[offset..offset + f.width]);
    }
  }
}
