/** The binary payload of a burst: a flat, row-major array of unsigned
    little-endian elements with a shape (numpy's frombuffer, reshape and
    C-order write), and the sub-burst/sample selection applied on output
    (Python ranges used as slices). */
module Payload {
  import opened Base
  import opened ShapeResolver

  /** np.prod of a shape; the empty shape holds one element. */
  function Product(dims: seq<int>): int {
    if dims == [] then 1 else dims[0] * Product(dims[1..])
  }

  predicate NonNegative(dims: seq<int>) {
    forall i :: 0 <= i < |dims| ==> dims[i] >= 0
  }

  lemma {:induction false} ProductNonNegative(dims: seq<int>)
    requires NonNegative(dims)
    ensures Product(dims) >= 0
  {
    if dims != [] {
      assert NonNegative(dims[1..]) by {
        forall k | 0 <= k < |dims| - 1 ensures dims[1..][k] >= 0 {
          assert dims[1..][k] == dims[k + 1];
        }
      }
      ProductNonNegative(dims[1..]);
      assert dims[0] >= 0;
    }
  }

  lemma ProductNonNegativeIf(dims: seq<int>)
    ensures NonNegative(dims) ==> Product(dims) >= 0
  {
    if NonNegative(dims) {
      ProductNonNegative(dims);
    }
  }

  /** The element count of a two- or three-axis shape. */
  lemma ProductOfTwo(d: seq<int>)
    requires |d| == 2
    ensures Product(d) == d[0] * d[1]
  {
    var t := d[1..];
    assert t[0] == d[1] && t[1..] == [];
    assert Product(t) == d[1];
  }

  lemma ProductOfThree(d: seq<int>)
    requires |d| == 3
    ensures Product(d) == d[0] * (d[1] * d[2])
  {
    var t := d[1..];
    assert t[0] == d[1] && t[1] == d[2];
    ProductOfTwo(t);
  }

  /** An n-dimensional array: element type, shape and the elements in
      row-major (C) order. */
  datatype NdArray = NdArray(etype: ElementType, dims: seq<int>, items: seq<int>)

  /** reshape_data: the elements fit the shape exactly, are too few (always
      an error), or are too many (truncated to the shape in forgive mode, an
      error otherwise). */
  function Reshape(a: NdArray, shape: seq<int>, forgive: bool): Result<NdArray> {
    if !NonNegative(shape) then Failure(NegativeDimension)
    else
      ProductNonNegative(shape);
      var p := Product(shape);
      if |a.items| == p then Success(NdArray(a.etype, shape, a.items))
      else if |a.items| < p then Failure(ShorterThanShape(|a.items|, p))
      else if forgive then Success(NdArray(a.etype, shape, a.items[..p]))
      else Failure(LongerThanShape(|a.items|, p))
  }

  /** What reshape_data promises: a negative dimension is refused; otherwise
      it succeeds exactly when the elements fill the shape, or overfill it in
      forgive mode, and then keeps the first product-of-shape elements; too
      few elements are always an error, too many an error unless forgiven. */
  lemma ReshapeSpec(a: NdArray, shape: seq<int>, forgive: bool)
    ensures var r := Reshape(a, shape, forgive);
            && (!NonNegative(shape) ==> r == Failure(NegativeDimension))
            && (NonNegative(shape) ==>
                  var p := Product(shape);
                  && p >= 0
                  && (r.Success? <==> |a.items| == p || (forgive && |a.items| > p))
                  && (r.Success? ==> p <= |a.items| && r.value == NdArray(a.etype, shape, a.items[..p]))
                  && (|a.items| < p ==> r == Failure(ShorterThanShape(|a.items|, p)))
                  && (!forgive && |a.items| > p ==> r == Failure(LongerThanShape(|a.items|, p))))
  {
    ProductNonNegativeIf(shape);
  }

  /** A reshaped array holds exactly as many elements as its shape. */
  lemma ReshapeFits(a: NdArray, shape: seq<int>, forgive: bool)
    requires Reshape(a, shape, forgive).Success?
    ensures NonNegative(shape) && |Reshape(a, shape, forgive).value.items| == Product(shape)
  {
    ReshapeSpec(a, shape, forgive);
  }

  /** Reshaping a reshaped array to the same shape, even strictly, gives it
      back unchanged. */
  lemma ReshapeAgain(a: NdArray, shape: seq<int>, forgive: bool)
    requires Reshape(a, shape, forgive).Success?
    ensures Reshape(Reshape(a, shape, forgive).value, shape, false) == Reshape(a, shape, forgive)
  {
    ReshapeFits(a, shape, forgive);
  }

  // ---- little-endian codec ----

  function Pow256(k: nat): (r: nat)
    ensures r >= 1
  {
    if k == 0 then 1 else 256 * Pow256(k - 1)
  }

  /** The unsigned value of bytes stored least significant first. */
  function DecodeElem(bs: seq<byte>): (r: nat)
    ensures r < Pow256(|bs|)
  {
    if bs == [] then 0 else bs[0] + 256 * DecodeElem(bs[1..])
  }

  /** The k bytes, least significant first, of v taken modulo 256^k. */
  function EncodeElem(v: nat, k: nat): (r: seq<byte>)
    ensures |r| == k
  {
    if k == 0 then [] else [v % 256] + EncodeElem(v / 256, k - 1)
  }

  lemma {:induction false} DecodeEncodeElem(v: nat, k: nat)
    requires v < Pow256(k)
    ensures DecodeElem(EncodeElem(v, k)) == v
  {
    if k > 0 {
      DecodeEncodeElem(v / 256, k - 1);
      var e := EncodeElem(v, k);
      assert e[1..] == EncodeElem(v / 256, k - 1);
    }
  }

  lemma {:induction false} EncodeDecodeElem(bs: seq<byte>)
    ensures EncodeElem(DecodeElem(bs), |bs|) == bs
  {
    if bs != [] {
      var v := DecodeElem(bs);
      var t := DecodeElem(bs[1..]);
      assert v % 256 == bs[0] && v / 256 == t;
      EncodeDecodeElem(bs[1..]);
    }
  }

  /** np.frombuffer: consecutive groups of `size` bytes, each one element
      (a trailing partial group is not an element). */
  function Decode(bs: seq<byte>, size: nat): seq<int>
    decreases |bs|
  {
    if size == 0 || |bs| < size then []
    else [DecodeElem(bs[..size])] + Decode(bs[size..], size)
  }

  /** count groups of bytes decode to count elements, each of them an
      unsigned value of `size` bytes. */
  lemma {:induction false} DecodeLength(bs: seq<byte>, size: nat, count: nat)
    requires size > 0 && |bs| == count * size
    ensures |Decode(bs, size)| == count
    ensures InRange(Decode(bs, size), size)
  {
    if count > 0 {
      assert |bs| == size + (count - 1) * size;
      DecodeLength(bs[size..], size, count - 1);
      var d := Decode(bs, size);
      assert d == [DecodeElem(bs[..size])] + Decode(bs[size..], size);
      assert forall i :: 1 <= i < |d| ==> d[i] == Decode(bs[size..], size)[i - 1];
    } else {
      assert bs == [];
    }
  }

  /** The raw buffer of an array: each element as `size` little-endian bytes. */
  function Encode(items: seq<int>, size: nat): seq<byte> {
    if items == [] then []
    else EncodeElem(items[0] % Pow256(size), size) + Encode(items[1..], size)
  }

  lemma {:induction false} EncodeLength(items: seq<int>, size: nat)
    ensures |Encode(items, size)| == |items| * size
  {
    if items != [] {
      EncodeLength(items[1..], size);
      assert |items| * size == size + (|items| - 1) * size;
    }
  }

  predicate InRange(items: seq<int>, size: nat) {
    forall i :: 0 <= i < |items| ==> 0 <= items[i] < Pow256(size)
  }

  /** Writing elements and reading them back gives the elements. */
  lemma {:induction false} DecodeEncode(items: seq<int>, size: nat)
    requires size > 0 && InRange(items, size)
    ensures Decode(Encode(items, size), size) == items
  {
    if items != [] {
      var e := Encode(items, size);
      var rest := Encode(items[1..], size);
      assert InRange(items[1..], size) by {
        forall k | 0 <= k < |items| - 1 ensures 0 <= items[1..][k] < Pow256(size) {
          assert items[1..][k] == items[k + 1];
        }
      }
      DecodeEncode(items[1..], size);
      var head := EncodeElem(items[0] % Pow256(size), size);
      assert e == head + rest;
      assert e[..size] == head && e[size..] == rest;
      ModSmall(items[0], Pow256(size));
      DecodeEncodeElem(items[0], size);
    }
  }

  lemma ModSmall(x: int, m: int)
    requires 0 <= x < m
    ensures x % m == x
  {
  }

  /** Reading whole elements and writing them back gives the bytes. */
  lemma {:induction false} EncodeDecode(bs: seq<byte>, size: nat, count: nat)
    requires size > 0 && |bs| == count * size
    ensures Encode(Decode(bs, size), size) == bs
  {
    if count > 0 {
      assert |bs| == size + (count - 1) * size;
      EncodeDecode(bs[size..], size, count - 1);
      var v := DecodeElem(bs[..size]);
      var d := Decode(bs, size);
      assert d == [v] + Decode(bs[size..], size);
      assert d[1..] == Decode(bs[size..], size);
      ModSmall(v, Pow256(size));
      EncodeDecodeElem(bs[..size]);
      assert bs == bs[..size] + bs[size..];
    } else {
      assert bs == [];
    }
  }

  // ---- ranges and slices ----

  /** A Python range object (step is never zero). */
  datatype Range = Range(start: int, stop: int, step: int)

  predicate ValidRange(r: Range) {
    r.step != 0
  }

  /** Integer division rounding up, for positive divisors. */
  function CeilDiv(a: int, b: int): int
    requires b > 0
  {
    -((-a) / b)
  }

  /** len(range): the number of values start, start+step, ... before stop. */
  function RangeLen(r: Range): (n: nat)
    requires ValidRange(r)
  {
    if r.step > 0 then (if r.stop > r.start then CeilDiv(r.stop - r.start, r.step) else 0)
    else (if r.start > r.stop then CeilDiv(r.start - r.stop, -r.step) else 0)
  }

  /** The values of a range, in order. */
  function RangeElems(r: Range): (s: seq<int>)
    requires ValidRange(r)
    ensures |s| == RangeLen(r)
  {
    seq(RangeLen(r), i => r.start + i * r.step)
  }

  /** Every value of a range lies strictly before its stop, the next one
      would not: RangeLen counts exactly the values Python yields. */
  lemma RangeLenExact(r: Range)
    requires ValidRange(r)
    ensures forall i :: 0 <= i < RangeLen(r) ==>
              if r.step > 0 then r.start + i * r.step < r.stop else r.start + i * r.step > r.stop
    ensures var v := r.start + RangeLen(r) * r.step;
            if r.step > 0 then v >= r.stop else v <= r.stop
  {
    if r.step > 0 {
      RangeUp(r);
    } else {
      RangeDown(r);
    }
  }

  lemma RangeUp(r: Range)
    requires r.step > 0
    ensures forall i :: 0 <= i < RangeLen(r) ==> r.start + i * r.step < r.stop
    ensures r.start + RangeLen(r) * r.step >= r.stop
  {
    if r.stop > r.start {
      CountBelow(r.stop - r.start, r.step);
    }
  }

  lemma RangeDown(r: Range)
    requires r.step < 0
    ensures forall i :: 0 <= i < RangeLen(r) ==> r.start + i * r.step > r.stop
    ensures r.start + RangeLen(r) * r.step <= r.stop
  {
    var n := RangeLen(r);
    var b := -r.step;
    if r.start > r.stop {
      CountBelow(r.start - r.stop, b);
    }
    forall i | 0 <= i < n
      ensures r.start + i * r.step > r.stop
    {
      assert i * r.step == -(i * b);
    }
    assert n * r.step == -(n * b);
  }

  /** ceil(d / b) steps of b reach d, and every earlier step stays below it. */
  lemma CountBelow(d: int, b: int)
    requires d > 0 && b > 0
    ensures CeilDiv(d, b) * b >= d
    ensures forall i :: 0 <= i < CeilDiv(d, b) ==> i * b < d
  {
    DivBounds(d, b);
    var n := CeilDiv(d, b);
    forall i | 0 <= i < n
      ensures i * b < d
    {
      MulMono(i, n - 1, b);
    }
  }

  lemma DivBounds(d: int, b: int)
    requires d > 0 && b > 0
    ensures CeilDiv(d, b) * b >= d && (CeilDiv(d, b) - 1) * b < d
  {
    var q := (-d) / b;
    var m := (-d) % b;
    assert -d == q * b + m && 0 <= m < b;
  }

  lemma MulMono(i: int, j: int, b: int)
    requires 0 <= i <= j && b >= 0
    ensures i * b <= j * b
  {
  }

  /** slice.indices(n) applied to one bound: negative values count from the
      end, then clamped to [lower, upper]. */
  function ClampIndex(x: int, n: nat, lower: int, upper: int): (r: int)
    ensures lower <= upper ==> lower <= r <= upper
    ensures var y := if x < 0 then x + n else x; lower <= y <= upper ==> r == y
  {
    var y := if x < 0 then x + n else x;
    if y < lower then lower else if y > upper then upper else y
  }

  /** The positions a[start:stop:step] selects on an axis of length n. */
  function SliceIndices(r: Range, n: nat): (s: seq<int>)
    requires ValidRange(r)
  {
    var lower := if r.step > 0 then 0 else -1;
    var upper := if r.step > 0 then n as int else n as int - 1;
    RangeElems(Range(ClampIndex(r.start, n, lower, upper), ClampIndex(r.stop, n, lower, upper), r.step))
  }

  /** Slicing never reaches outside the axis. */
  lemma SliceInBounds(r: Range, n: nat)
    requires ValidRange(r)
    ensures forall i :: 0 <= i < |SliceIndices(r, n)| ==> 0 <= SliceIndices(r, n)[i] < n
  {
    if r.step > 0 {
      SliceUpInBounds(r, n);
    } else {
      SliceDownInBounds(r, n);
    }
  }

  lemma SliceUpInBounds(r: Range, n: nat)
    requires r.step > 0
    ensures forall i :: 0 <= i < |SliceIndices(r, n)| ==> 0 <= SliceIndices(r, n)[i] < n
  {
    var c := Range(ClampIndex(r.start, n, 0, n), ClampIndex(r.stop, n, 0, n), r.step);
    RangeUp(c);
    var s := SliceIndices(r, n);
    assert s == RangeElems(c);
    forall i | 0 <= i < |s|
      ensures 0 <= s[i] < n
    {
      assert s[i] == c.start + i * c.step;
      assert i * c.step >= 0;
    }
  }

  lemma SliceDownInBounds(r: Range, n: nat)
    requires r.step < 0
    ensures forall i :: 0 <= i < |SliceIndices(r, n)| ==> 0 <= SliceIndices(r, n)[i] < n
  {
    var c := Range(ClampIndex(r.start, n, -1, n - 1), ClampIndex(r.stop, n, -1, n - 1), r.step);
    RangeDown(c);
    var s := SliceIndices(r, n);
    assert s == RangeElems(c);
    forall i | 0 <= i < |s|
      ensures 0 <= s[i] < n
    {
      assert s[i] == c.start + i * c.step;
      assert i * c.step <= 0;
    }
  }

  /** A range that lies inside the axis selects exactly its own values:
      then, and only then in general, len(range) is the count written. */
  lemma SliceOfInnerRange(r: Range, n: nat)
    requires ValidRange(r) && r.step > 0 && 0 <= r.start && 0 <= r.stop <= n
    ensures SliceIndices(r, n) == RangeElems(r)
  {
  }

  /** range(n) used as a slice selects the whole axis in order. */
  lemma SliceFullAxis(n: nat)
    ensures SliceIndices(Range(0, n, 1), n) == Iota(n)
  {
    var s := SliceIndices(Range(0, n, 1), n);
    assert |s| == n;
  }

  /** 0, 1, ..., n-1 */
  function Iota(n: nat): (s: seq<int>)
    ensures |s| == n && forall i :: 0 <= i < n ==> s[i] == i
  {
    seq(n, i => i)
  }

  /** For a forward range from a non-negative start, a[start:stop:step] on
      an axis of length n keeps at most len(range) positions, and keeps
      every value of the range, in order, exactly when the last value lies
      on the axis; a range reaching past the axis loses its tail. */
  lemma SliceKeepsRange(r: Range, n: nat)
    requires ValidRange(r) && r.step > 0 && 0 <= r.start && 0 <= r.stop
    ensures |SliceIndices(r, n)| <= RangeLen(r)
    ensures |SliceIndices(r, n)| == RangeLen(r) <==>
            (RangeLen(r) == 0 || r.start + (RangeLen(r) - 1) * r.step < n)
    ensures |SliceIndices(r, n)| == RangeLen(r) ==> SliceIndices(r, n) == RangeElems(r)
  {
    var len := RangeLen(r);
    var c := Range(ClampIndex(r.start, n, 0, n), ClampIndex(r.stop, n, 0, n), r.step);
    assert SliceIndices(r, n) == RangeElems(c);
    RangeUp(r);
    RangeUp(c);
    if len == 0 {
      assert c.stop <= c.start;
    } else if r.start + (len - 1) * r.step < n {
      assert c.start == r.start;
      if r.stop > n {
        RangeLenUnique(c, len);
      }
      assert RangeElems(c) == RangeElems(r);
    } else if r.start >= n {
      assert RangeLen(c) == 0;
    } else {
      assert c.start == r.start && c.stop == n;
      var k := RangeLen(c);
      assert r.start + (k - 1) * r.step < n;
      MulLess(k - 1, len - 1, r.step);
    }
  }

  /** A forward range whose k-th value is the first to reach the stop has
      exactly k values. */
  lemma RangeLenUnique(r: Range, k: nat)
    requires r.step > 0 && r.start < r.stop
    requires 0 < k && r.start + (k - 1) * r.step < r.stop <= r.start + k * r.step
    ensures RangeLen(r) == k
  {
    var len := RangeLen(r);
    RangeUp(r);
    if len < k {
      MulMono(len, k - 1, r.step);
    } else if len > k {
      MulMono(k, len - 1, r.step);
    }
  }

  lemma MulLess(i: int, j: int, b: int)
    requires b > 0 && i * b < j * b
    ensures i < j
  {
    assert i * b - j * b == (i - j) * b;
  }

  // ---- row-major selection ----

  /** Every position lies on an axis of length n. */
  predicate Within(idx: seq<int>, n: int) {
    forall j :: 0 <= j < |idx| ==> 0 <= idx[j] < n
  }

  /** The elements of a row at the chosen positions, in order. */
  function Pick(row: seq<int>, idx: seq<int>): (r: seq<int>)
    requires Within(idx, |row|)
    ensures |r| == |idx| && forall j :: 0 <= j < |idx| ==> r[j] == row[idx[j]]
  {
    seq(|idx|, j requires 0 <= j < |idx| => row[idx[j]])
  }

  /** Block i of a flat array cut into rows of `stride` elements. */
  lemma BlockInside(n: int, stride: int, i: int)
    requires 0 <= i < n && stride >= 0
    ensures 0 <= i * stride <= (i + 1) * stride <= n * stride
  {
    MulMono(i + 1, n, stride);
    MulMono(i, i + 1, stride);
  }

  /** a[rows, cols] of a two-dimensional array n x stride held flat in C
      order: for each chosen row in turn, the chosen columns of that row. */
  function Select2(items: seq<int>, n: int, stride: int, rows: seq<int>, cols: seq<int>): (r: seq<int>)
    requires stride >= 0 && |items| == n * stride
    requires Within(rows, n) && Within(cols, stride)
    ensures |r| == |rows| * |cols|
  {
    if rows == [] then []
    else
      var m := |rows| - 1;
      var i := rows[m];
      BlockInside(n, stride, i);
      Select2(items, n, stride, rows[..m], cols) + Pick(items[i * stride .. (i + 1) * stride], cols)
  }

  /** Element (a, b) of the selection is the element at row rows[a] and
      column cols[b] of the array. */
  lemma {:induction false} Select2At(items: seq<int>, n: int, stride: int, rows: seq<int>, cols: seq<int>, a: int, b: int)
    requires stride >= 0 && |items| == n * stride
    requires Within(rows, n) && Within(cols, stride)
    requires 0 <= a < |rows| && 0 <= b < |cols|
    ensures 0 <= a * |cols| + b < |rows| * |cols|
    ensures 0 <= rows[a] * stride + cols[b] < |items|
    ensures Select2(items, n, stride, rows, cols)[a * |cols| + b] == items[rows[a] * stride + cols[b]]
  {
    var m := |rows| - 1;
    var c := |cols|;
    BlockInside(n, stride, rows[a]);
    MulSucc(a, c);
    MulMono(a + 1, |rows|, c);
    MulSucc(m, c);
    if a < m {
      MulMono(a + 1, m, c);
      Select2At(items, n, stride, rows[..m], cols, a, b);
      assert rows[..m][a] == rows[a];
    }
  }

  /** a[rows, :, cols] of a three-dimensional array n x mid x stride held
      flat in C order: for each chosen index of the first axis, every index
      of the middle axis with the chosen positions of the last. */
  function Select3(items: seq<int>, n: int, mid: int, stride: int, rows: seq<int>, cols: seq<int>): (r: seq<int>)
    requires mid >= 0 && stride >= 0 && |items| == n * (mid * stride)
    requires Within(rows, n) && Within(cols, stride)
    ensures |r| == |rows| * (mid * |cols|)
  {
    if rows == [] then []
    else
      var m := |rows| - 1;
      var i := rows[m];
      var block := mid * stride;
      BlockInside(n, block, i);
      MulSucc(m, mid * |cols|);
      Select3(items, n, mid, stride, rows[..m], cols)
        + Select2(items[i * block .. (i + 1) * block], mid, stride, Iota(mid), cols)
  }

  lemma MulSucc(a: int, b: int)
    ensures (a + 1) * b == a * b + b
  {
  }

  /** Element (a, k, b) of the selection is the element at rows[a], k,
      cols[b] of the array. */
  lemma {:induction false} Select3At(items: seq<int>, n: int, mid: int, stride: int, rows: seq<int>, cols: seq<int>, a: int, k: int, b: int)
    requires mid >= 0 && stride >= 0 && |items| == n * (mid * stride)
    requires Within(rows, n) && Within(cols, stride)
    requires 0 <= a < |rows| && 0 <= k < mid && 0 <= b < |cols|
    ensures 0 <= a * (mid * |cols|) + (k * |cols| + b) < |rows| * (mid * |cols|)
    ensures 0 <= rows[a] * (mid * stride) + (k * stride + cols[b]) < |items|
    ensures Select3(items, n, mid, stride, rows, cols)[a * (mid * |cols|) + (k * |cols| + b)]
            == items[rows[a] * (mid * stride) + (k * stride + cols[b])]
  {
    var m := |rows| - 1;
    var c := |cols|;
    var w := mid * c;
    var block := mid * stride;
    var p := k * c + b;
    var q := k * stride + cols[b];
    InnerBound(k, mid, b, c);
    InnerBound(k, mid, cols[b], stride);
    OuterBound(a, |rows|, p, w);
    var i := rows[a];
    OuterBound(i, n, q, block);
    if a < m {
      OuterBound(a, m, p, w);
      Select3At(items, n, mid, stride, rows[..m], cols, a, k, b);
      assert rows[..m][a] == rows[a];
    } else {
      BlockInside(n, block, i);
      var blk := items[i * block .. (i + 1) * block];
      Select2At(blk, mid, stride, Iota(mid), cols, k, b);
      assert Select3(items, n, mid, stride, rows, cols)
             == Select3(items, n, mid, stride, rows[..m], cols) + Select2(blk, mid, stride, Iota(mid), cols);
    }
  }

  /** Position (k, b) of a k-major block of rows of length c lies inside it. */
  lemma InnerBound(k: int, mid: int, b: int, c: int)
    requires 0 <= k < mid && 0 <= b < c
    ensures 0 <= k * c + b < mid * c
  {
    MulSucc(k, c);
    MulMono(k + 1, mid, c);
  }

  /** Offset p of block a of width w lies inside the first n blocks. */
  lemma OuterBound(a: int, n: int, p: int, w: int)
    requires 0 <= a < n && 0 <= p < w
    ensures 0 <= a * w + p < n * w
  {
    MulSucc(a, w);
    MulMono(a + 1, n, w);
  }

  /** Choosing every row and every column gives the array back. */
  lemma {:induction false} Select2Whole(items: seq<int>, n: nat, stride: nat, m: nat)
    requires |items| == n * stride && m <= n
    ensures 0 <= m * stride <= |items|
    ensures Select2(items, n, stride, Iota(m), Iota(stride)) == items[..m * stride]
  {
    MulMono(m, n, stride);
    if m > 0 {
      BlockInside(n, stride, m - 1);
      IotaPrefix(m);
      Select2Whole(items, n, stride, m - 1);
      var row := items[(m - 1) * stride .. m * stride];
      PickAll(row, stride);
      TakeSplit(items, (m - 1) * stride, m * stride);
    }
  }

  /** Choosing every index of every axis gives the array back. */
  lemma {:induction false} Select3Whole(items: seq<int>, n: nat, mid: nat, stride: nat, m: nat)
    requires |items| == n * (mid * stride) && m <= n
    ensures 0 <= m * (mid * stride) <= |items|
    ensures Select3(items, n, mid, stride, Iota(m), Iota(stride)) == items[..m * (mid * stride)]
  {
    var block := mid * stride;
    MulMono(m, n, block);
    if m > 0 {
      BlockInside(n, block, m - 1);
      IotaPrefix(m);
      Select3Whole(items, n, mid, stride, m - 1);
      var b := items[(m - 1) * block .. m * block];
      MulSucc(m - 1, block);
      Select2Whole(b, mid, stride, mid);
      TakeAll(b);
      TakeSplit(items, (m - 1) * block, m * block);
    }
  }

  lemma IotaPrefix(m: nat)
    requires m > 0
    ensures Iota(m)[..m - 1] == Iota(m - 1) && Iota(m)[m - 1] == m - 1
  {
  }

  lemma PickAll(row: seq<int>, n: nat)
    requires |row| == n
    ensures Pick(row, Iota(n)) == row
  {
  }
}
