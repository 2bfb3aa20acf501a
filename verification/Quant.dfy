/**
 INT8 and INT4 quantisation and the quantised matrix product. Floats are modelled as reals, so what is
 bounded here is the error of quantising, not of floating-point rounding.
 */
module Quant {
  newtype int8 = x: int | -128 <= x < 128
  newtype int32 = x: int | -0x8000_0000 <= x < 0x8000_0000

  function Abs(x: real): real {
    if x < 0.0 then -x else x
  }

  /** The C conversion from a floating-point number to an integer: towards zero. */
  function Trunc(x: real): int {
    if x >= 0.0 then x.Floor else -((-x).Floor)
  }

  function Clamp(v: int, lo: int, hi: int): int {
    if v > hi then hi else if v < lo then lo else v
  }

  function FloatToInt8(f: real, scale: real, zeroPoint: int): int8
    requires scale != 0.0
  {
    Clamp(Trunc(f / scale) + zeroPoint, -128, 127) as int8
  }

  function Int8ToFloat(v: int8, scale: real, zeroPoint: int): real {
    (v as int - zeroPoint) as real * scale
  }

  /** The low four bits of a two's complement value. */
  function FloatToInt4(f: real, scale: real): int
    requires scale != 0.0
  {
    Clamp(Trunc(f / scale), -8, 7) % 16
  }

  /** Sign extension by OR with 0xF0 when bit 3 is set, then a signed byte. */
  function Int4ToFloat(v: int, scale: real): real
    requires 0 <= v < 256
  {
    (if v / 8 % 2 == 1 then v % 16 - 16 else if v >= 128 then v - 256 else v) as real * scale
  }

  // ----- single values

  lemma TruncError(x: real)
    ensures Abs(x - Trunc(x) as real) < 1.0
    ensures Abs(Trunc(x) as real) <= Abs(x)
    ensures x >= 0.0 ==> Trunc(x) >= 0
    ensures x <= 0.0 ==> Trunc(x) <= 0
  {
  }

  lemma Quotient(f: real, scale: real)
    requires scale != 0.0
    ensures f == (f / scale) * scale
  {
  }

  /** Scaling keeps the order; the scaled values are passed by name. */
  lemma Monotone(x: real, y: real, scale: real, xs: real, ys: real)
    requires scale > 0.0 && xs == x * scale && ys == y * scale
    ensures x <= y ==> xs <= ys
    ensures x < y ==> xs < ys
  {
    if x < y {
      assert (y - x) * scale > 0.0;
    }
  }

  lemma ScaledUnit(d: real, scale: real, p: real)
    requires scale > 0.0 && p == d * scale
    ensures Abs(p) < scale <==> Abs(d) < 1.0
  {
    Monotone(d, 1.0, scale, p, scale);
    Monotone(1.0, d, scale, scale, p);
    Monotone(d, -1.0, scale, p, -scale);
    Monotone(-1.0, d, scale, -scale, p);
  }

  lemma ScaledOrder(x: real, y: real, scale: real, xs: real, ys: real)
    requires scale > 0.0 && Abs(x) <= Abs(y) && xs == x * scale && ys == y * scale
    ensures Abs(xs) <= Abs(ys)
  {
    Monotone(x, y, scale, xs, ys);
    Monotone(x, -y, scale, xs, -ys);
    Monotone(-x, y, scale, -xs, ys);
    Monotone(-x, -y, scale, -xs, -ys);
  }

  lemma Distribute(q: real, x: real, f: real, scale: real, back: real)
    requires f == x * scale && back == q * scale
    ensures back - f == (q - x) * scale
  {
  }

  /** f is x scales and `back` is q scales: the error of q, scaled. */
  lemma ScaledError(x: real, f: real, scale: real, q: real, back: real)
    requires scale != 0.0 && f == x * scale && back == q * scale
    ensures Abs(back - f) < Abs(scale) <==> Abs(q - x) < 1.0
  {
    Distribute(q, x, f, scale, back);
    if scale > 0.0 {
      ScaledUnit(q - x, scale, back - f);
    } else {
      ScaledUnit(q - x, -scale, f - back);
    }
  }

  /** How far a value quantised with saturation is off, in units of the scale. */
  lemma ClampError(x: real, zeroPoint: int, lo: int, hi: int)
    requires lo <= hi
    ensures Abs((Clamp(Trunc(x) + zeroPoint, lo, hi) - zeroPoint) as real - x) < 1.0
            <==> lo as real - 1.0 < x + zeroPoint as real < hi as real + 1.0
  {
    TruncError(x);
  }

  lemma QuantiseError(f: real, scale: real, zeroPoint: int, lo: int, hi: int, x: real, q: int, back: real)
    requires scale != 0.0 && lo <= hi && f == x * scale
    requires q == Clamp(Trunc(x) + zeroPoint, lo, hi) - zeroPoint && back == q as real * scale
    ensures Abs(back - f) < Abs(scale) <==> lo as real - 1.0 < x + zeroPoint as real < hi as real + 1.0
  {
    ScaledError(x, f, scale, q as real, back);
    ClampError(x, zeroPoint, lo, hi);
  }

  /** Quantising and dequantising is off by less than one scale exactly if this holds of the value. */
  lemma Int8RoundTrip(f: real, scale: real, zeroPoint: int)
    requires scale != 0.0
    ensures Abs(Int8ToFloat(FloatToInt8(f, scale, zeroPoint), scale, zeroPoint) - f) < Abs(scale)
            <==> -129.0 < f / scale + zeroPoint as real < 128.0
  {
    var v := FloatToInt8(f, scale, zeroPoint);
    Quotient(f, scale);
    QuantiseError(f, scale, zeroPoint, -128, 127, f / scale, v as int - zeroPoint, Int8ToFloat(v, scale, zeroPoint));
  }

  /** If the zero point is itself in range, this says that the value does not saturate. */
  lemma AccurateUnlessSaturated(x: real, zeroPoint: int, lo: int, hi: int)
    requires lo <= zeroPoint <= hi
    ensures lo as real - 1.0 < x + zeroPoint as real < hi as real + 1.0 <==> lo <= Trunc(x) + zeroPoint <= hi
  {
    TruncError(x);
  }

  lemma NibbleSign(v: int)
    requires -8 <= v <= 7
    ensures var n := v % 16;
            0 <= n < 16 && (if n / 8 % 2 == 1 then n % 16 - 16 else n) == v
  {
    if v < 0 {
      assert v % 16 == v + 16;
      assert (v + 16) / 8 == 1;
    } else {
      assert v / 8 == 0;
    }
  }

  /** Packing to four bits and sign extending gives the quantised value back. */
  lemma Int4Unpacks(f: real, scale: real)
    requires scale != 0.0
    ensures 0 <= FloatToInt4(f, scale) < 16
    ensures Int4ToFloat(FloatToInt4(f, scale), scale) == Clamp(Trunc(f / scale), -8, 7) as real * scale
  {
    NibbleSign(Clamp(Trunc(f / scale), -8, 7));
  }

  /** So INT4, too, is off by less than one scale exactly if the value does not saturate. */
  lemma Int4RoundTrip(f: real, scale: real)
    requires scale != 0.0
    ensures Abs(Int4ToFloat(FloatToInt4(f, scale), scale) - f) < Abs(scale) <==> -8 <= Trunc(f / scale) <= 7
  {
    Int4Unpacks(f, scale);
    Quotient(f, scale);
    QuantiseError(f, scale, 0, -8, 7, f / scale, Clamp(Trunc(f / scale), -8, 7),
                  Int4ToFloat(FloatToInt4(f, scale), scale));
    AccurateUnlessSaturated(f / scale, 0, -8, 7);
  }

  /** v is x rounded towards zero, moved by the zero point and kept between lo and hi. */
  ghost predicate Saturates(v: int, x: real, zeroPoint: int, lo: int, hi: int) {
    && lo <= v <= hi
    && (x >= 0.0 ==> (v > lo ==> (v - zeroPoint) as real <= x) && (v < hi ==> x < (v - zeroPoint + 1) as real))
    && (x <= 0.0 ==> (v > lo ==> (v - zeroPoint - 1) as real < x) && (v < hi ==> x <= (v - zeroPoint) as real))
  }

  /** There is only one such v. */
  lemma SaturatesOnce(u: int, v: int, x: real, zeroPoint: int, lo: int, hi: int)
    requires Saturates(u, x, zeroPoint, lo, hi) && Saturates(v, x, zeroPoint, lo, hi)
    ensures u == v
  {
  }

  /** The quantised value itself, for every number: saturated at the end at which the quotient is out of range. */
  lemma Int8Exactly(f: real, scale: real, zeroPoint: int, v: int)
    requires scale != 0.0
    ensures FloatToInt8(f, scale, zeroPoint) as int == v <==> Saturates(v, f / scale, zeroPoint, -128, 127)
  {
    var u := FloatToInt8(f, scale, zeroPoint) as int;
    assert Saturates(u, f / scale, zeroPoint, -128, 127);
    if Saturates(v, f / scale, zeroPoint, -128, 127) {
      SaturatesOnce(u, v, f / scale, zeroPoint, -128, 127);
    }
  }

  lemma Int4Exactly(f: real, scale: real) returns (v: int)
    requires scale != 0.0
    ensures Saturates(v, f / scale, 0, -8, 7) && FloatToInt4(f, scale) == (if v < 0 then v + 16 else v)
    ensures Int4ToFloat(FloatToInt4(f, scale), scale) == v as real * scale
  {
    v := Clamp(Trunc(f / scale), -8, 7);
    Int4Unpacks(f, scale);
  }

  /** Unpacking any byte: bit 3 decides the sign, and without it the byte itself is taken, as a signed one. */
  lemma Int4OfByte(high: nat, low: nat, scale: real)
    requires high < 16 && low < 16
    ensures Int4ToFloat(16 * high + low, scale)
            == (if low >= 8 then low - 16 else if high >= 8 then 16 * (high - 16) + low else 16 * high + low) as real
               * scale
  {
    assert (16 * high + low) / 8 == 2 * high + low / 8;
    assert (16 * high + low) % 16 == low;
  }

  // ----- the matrix product

  lemma MulNonNegative(x: int, y: int)
    requires x >= 0 && y >= 0
    ensures x * y >= 0
  {
  }

  lemma SplitProduct(x: int, y: int, z: int)
    ensures (x + y) * z == x * z + y * z
  {
  }

  lemma RowMajor(rows: nat, cols: nat, i: nat, j: nat)
    requires i < rows && j < cols
    ensures 0 <= i * cols + j < rows * cols
  {
    MulNonNegative(i, cols);
    MulNonNegative(rows - 1 - i, cols);
    SplitProduct(rows - 1 - i, i + 1, cols);
    SplitProduct(i, 1, cols);
  }

  /** Row-major element. */
  function At(rows: nat, cols: nat, i: nat, j: nat): (x: nat)
    requires i < rows && j < cols
    ensures x == i * cols + j && x < rows * cols
  {
    RowMajor(rows, cols, i, j);
    i * cols + j
  }

  lemma RowColumn(cols: nat, i: nat, j: nat)
    requires j < cols
    ensures (i * cols + j) / cols == i && (i * cols + j) % cols == j
  {
    var x := i * cols + j;
    var d := i - x / cols;
    assert d * cols == x % cols - j by {
      assert x == (x / cols) * cols + x % cols;
      SplitProduct(i, -(x / cols), cols);
    }
    if d != 0 {
      MulNonNegative((if d > 0 then d else -d) - 1, cols);
      SplitProduct((if d > 0 then d else -d) - 1, 1, cols);
      SplitProduct(d, -d, cols);
    }
  }

  /** Row i of a matrix with m rows of length k. */
  function Row<T>(a: seq<T>, m: nat, k: nat, i: nat): (r: seq<T>)
    requires |a| == m * k && i < m
    ensures |r| == k && forall t :: 0 <= t < k ==> r[t] == a[At(m, k, i, t)]
  {
    seq(k, t requires 0 <= t < k => a[At(m, k, i, t)])
  }

  /** Column j of a matrix with k rows of length n. */
  function Column<T>(b: seq<T>, k: nat, n: nat, j: nat): (r: seq<T>)
    requires |b| == k * n && j < n
    ensures |r| == k && forall t :: 0 <= t < k ==> r[t] == b[At(k, n, t, j)]
  {
    seq(k, t requires 0 <= t < k => b[At(k, n, t, j)])
  }

  /** The first t terms of an inner product. */
  function Dot(x: seq<int8>, y: seq<int8>, t: nat): int
    requires t <= |x| == |y|
  {
    if t == 0 then 0 else Dot(x, y, t - 1) + x[t - 1] as int * y[t - 1] as int
  }

  function Rescale(sum: int, scaleA: real, scaleB: real, scaleOut: real): int
    requires scaleOut != 0.0
  {
    Trunc(sum as real * scaleA * scaleB / scaleOut)
  }

  lemma ScaledTowardsZero(x: real, q: real, scale: real, y: real, o: real)
    requires scale > 0.0 && y == x * scale && o == q * scale
    requires Abs(q) <= Abs(x) && Abs(q - x) < 1.0 && (x >= 0.0 ==> q >= 0.0) && (x <= 0.0 ==> q <= 0.0)
    ensures Abs(o) <= Abs(y) && Abs(o - y) < scale && (y >= 0.0 ==> o >= 0.0) && (y <= 0.0 ==> o <= 0.0)
  {
    ScaledOrder(q, x, scale, o, y);
    ScaledError(x, y, scale, q, o);
    Monotone(0.0, x, scale, 0.0, y);
    Monotone(x, 0.0, scale, y, 0.0);
    Monotone(0.0, q, scale, 0.0, o);
    Monotone(q, 0.0, scale, o, 0.0);
  }

  lemma Negated(x: real, scale: real, y: real)
    requires y == x * scale
    ensures y == (-x) * (-scale)
  {
  }

  /** What a cell stands for: never larger than the exact value, of the same sign, and less than one step off. */
  lemma RescaleExactly(sum: int, scaleA: real, scaleB: real, so: real, y: real, o: real)
    requires so != 0.0 && y == sum as real * scaleA * scaleB && o == Rescale(sum, scaleA, scaleB, so) as real * so
    ensures Abs(o) <= Abs(y) && Abs(o - y) < Abs(so) && (y >= 0.0 ==> o >= 0.0) && (y <= 0.0 ==> o <= 0.0)
  {
    var x, q := y / so, Rescale(sum, scaleA, scaleB, so) as real;
    Quotient(y, so);
    TruncError(x);
    if so > 0.0 {
      ScaledTowardsZero(x, q, so, y, o);
    } else {
      Negated(x, so, y);
      Negated(q, so, o);
      ScaledTowardsZero(-x, -q, -so, y, o);
    }
  }

  lemma ProductBound(x: int8, y: int8)
    ensures -16384 <= x as int * y as int <= 16384
  {
    var p, q := x as int, y as int;
    MulNonNegative(128 - p, 128 + q);
    MulNonNegative(128 + p, 128 - q);
    MulNonNegative(128 - p, 128 - q);
    MulNonNegative(128 + p, 128 + q);
  }

  /** No partial sum leaves 16384 times the number of its terms. */
  lemma {:induction false} DotBound(x: seq<int8>, y: seq<int8>, t: nat)
    requires t <= |x| == |y|
    ensures -16384 * t <= Dot(x, y, t) <= 16384 * t
  {
    if t > 0 {
      DotBound(x, y, t - 1);
      ProductBound(x[t - 1], y[t - 1]);
    }
  }

  lemma {:induction false} DotOfExtremes(k: nat, t: nat)
    requires t <= k
    ensures Dot(seq(k, _ => -128 as int8), seq(k, _ => -128 as int8), t) == 16384 * t
  {
    if t > 0 {
      DotOfExtremes(k, t - 1);
    }
  }

  /** No running sum overflows 32 bits. */
  ghost predicate SumsFit(x: seq<int8>, y: seq<int8>)
    requires |x| == |y|
  {
    forall t: nat :: t <= |x| ==> -0x8000_0000 <= Dot(x, y, t) < 0x8000_0000
  }

  /** This holds of all rows of length k exactly when k is at most 131071. */
  lemma SumsFit32BitsExactly(k: nat)
    ensures (forall x: seq<int8>, y: seq<int8> :: |x| == |y| == k ==> SumsFit(x, y)) <==> k <= 131071
  {
    if k <= 131071 {
      forall x: seq<int8>, y: seq<int8>, t: nat | t <= |x| == |y| == k
        ensures -0x8000_0000 <= Dot(x, y, t) < 0x8000_0000
      {
        DotBound(x, y, t);
      }
    } else {
      var v := seq(k, _ => -128 as int8);
      DotOfExtremes(k, 131072);
      assert Dot(v, v, 131072) == 0x8000_0000;
      assert !SumsFit(v, v);
    }
  }

  ghost predicate ProductFits(a: seq<int8>, b: seq<int8>, m: nat, n: nat, k: nat)
    requires |a| == m * k && |b| == k * n
  {
    forall i: nat, j: nat :: i < m && j < n ==> SumsFit(Row(a, m, k, i), Column(b, k, n, j))
  }

  /** So matrices with rows that short need no look at their entries. */
  lemma ShortRowsFit(a: seq<int8>, b: seq<int8>, m: nat, n: nat, k: nat)
    requires |a| == m * k && |b| == k * n && k <= 131071
    ensures ProductFits(a, b, m, n, k)
  {
    SumsFit32BitsExactly(k);
  }

  /** The inner loop; the running sum is a 32-bit integer and does not overflow. */
  method InnerProduct(a: array<int8>, b: array<int8>, m: nat, n: nat, k: nat, i: nat, j: nat) returns (sum: int32)
    requires a.Length == m * k && b.Length == k * n && i < m && j < n
    requires SumsFit(Row(a[..], m, k, i), Column(b[..], k, n, j))
    ensures sum as int == Dot(Row(a[..], m, k, i), Column(b[..], k, n, j), k)
  {
    sum := 0;
    ghost var x, y := Row(a[..], m, k, i), Column(b[..], k, n, j);
    for kk := 0 to k
      invariant sum as int == Dot(x, y, kk)
    {
      ProductBound(x[kk], y[kk]);
      assert -0x8000_0000 <= Dot(x, y, kk + 1) < 0x8000_0000;
      sum := sum + a[At(m, k, i, kk)] as int32 * b[At(k, n, kk, j)] as int32;
    }
  }

  predicate FitsInt32(v: int) {
    -0x8000_0000 <= v < 0x8000_0000
  }

  /** What cell x of the row-major product must hold. */
  function Cell(a: seq<int8>, b: seq<int8>, m: nat, n: nat, k: nat,
                scaleA: real, scaleB: real, scaleOut: real, x: nat): int
    requires |a| == m * k && |b| == k * n && scaleOut != 0.0 && n > 0 && x / n < m
  {
    Rescale(Dot(Row(a, m, k, x / n), Column(b, k, n, x % n), k), scaleA, scaleB, scaleOut)
  }

  lemma CellAt(a: seq<int8>, b: seq<int8>, m: nat, n: nat, k: nat,
               scaleA: real, scaleB: real, scaleOut: real, i: nat, j: nat)
    requires |a| == m * k && |b| == k * n && scaleOut != 0.0 && i < m && j < n
    ensures At(m, n, i, j) / n == i
    ensures Cell(a, b, m, n, k, scaleA, scaleB, scaleOut, At(m, n, i, j))
            == Rescale(Dot(Row(a, m, k, i), Column(b, k, n, j), k), scaleA, scaleB, scaleOut)
  {
    RowColumn(n, i, j);
  }

  /** A value that does not fit its 32-bit cell may be stored as anything. */
  ghost predicate Stores(c: int32, v: int) {
    FitsInt32(v) ==> c as int == v
  }

  ghost predicate CellsDone(a: seq<int8>, b: seq<int8>, c: seq<int32>, m: nat, n: nat, k: nat,
                            scaleA: real, scaleB: real, scaleOut: real, upTo: nat)
    requires |a| == m * k && |b| == k * n && scaleOut != 0.0
  {
    upTo <= |c| && forall x: nat :: x < upTo ==>
      n > 0 && x / n < m && Stores(c[x], Cell(a, b, m, n, k, scaleA, scaleB, scaleOut, x))
  }

  method StoreCell(a: array<int8>, b: array<int8>, c: array<int32>, m: nat, n: nat, k: nat,
                   scaleA: real, scaleB: real, scaleOut: real, i: nat, j: nat)
    requires a.Length == m * k && b.Length == k * n && c.Length == m * n && scaleOut != 0.0 && i < m && j < n
    requires SumsFit(Row(a[..], m, k, i), Column(b[..], k, n, j))
    requires CellsDone(a[..], b[..], c[..], m, n, k, scaleA, scaleB, scaleOut, At(m, n, i, j))
    modifies c
    ensures CellsDone(a[..], b[..], c[..], m, n, k, scaleA, scaleB, scaleOut, At(m, n, i, j) + 1)
  {
    var sum := InnerProduct(a, b, m, n, k, i, j);
    CellAt(a[..], b[..], m, n, k, scaleA, scaleB, scaleOut, i, j);
    var v := Rescale(sum as int, scaleA, scaleB, scaleOut);
    var cell: int32 := *;
    if FitsInt32(v) {
      cell := v as int32;
    }
    c[At(m, n, i, j)] := cell;
  }

  /** c becomes the rescaled product, cell by cell in row-major order. */
  method MatMulInt8(a: array<int8>, b: array<int8>, c: array<int32>, m: nat, n: nat, k: nat,
                    scaleA: real, scaleB: real, scaleOut: real)
    requires a.Length == m * k && b.Length == k * n && c.Length == m * n && scaleOut != 0.0
    requires ProductFits(a[..], b[..], m, n, k)
    modifies c
    ensures CellsDone(a[..], b[..], c[..], m, n, k, scaleA, scaleB, scaleOut, m * n)
  {
    for i := 0 to m
      invariant CellsDone(a[..], b[..], c[..], m, n, k, scaleA, scaleB, scaleOut, i * n)
    {
      for j := 0 to n
        invariant CellsDone(a[..], b[..], c[..], m, n, k, scaleA, scaleB, scaleOut, i * n + j)
      {
        StoreCell(a, b, c, m, n, k, scaleA, scaleB, scaleOut, i, j);
      }
      SplitProduct(i, 1, n);
    }
  }

  // ----- the error of the quantised product

  function Sum(x: seq<real>, t: nat): real
    requires t <= |x|
  {
    if t == 0 then 0.0 else Sum(x, t - 1) + x[t - 1]
  }

  function Products(x: seq<real>, y: seq<real>): (p: seq<real>)
    requires |x| == |y|
    ensures |p| == |x|
  {
    seq(|x|, t requires 0 <= t < |x| => x[t] * y[t])
  }

  function RealDot(x: seq<real>, y: seq<real>): real
    requires |x| == |y|
  {
    Sum(Products(x, y), |x|)
  }

  /** q holds the quantised elements of r, none of them saturated, and none above `bound` in size. */
  ghost predicate Quantised(r: seq<real>, q: seq<int8>, scale: real, bound: real) {
    && scale > 0.0 && |q| == |r|
    && forall x :: 0 <= x < |r| ==>
                     q[x] == FloatToInt8(r[x], scale, 0) && -128 <= Trunc(r[x] / scale) <= 127 && Abs(r[x]) <= bound
  }

  lemma AbsProduct(x: real, y: real, mx: real, my: real, xy: real, bound: real)
    requires Abs(x) <= mx && Abs(y) <= my && xy == x * y && bound == mx * my
    ensures Abs(xy) <= bound
  {
    assert (mx - x) * (my + y) >= 0.0 && (mx + x) * (my - y) >= 0.0;
    assert (mx - x) * (my - y) >= 0.0 && (mx + x) * (my + y) >= 0.0;
  }

  /** An approximation q of x that is no larger and less than one off, scaled back. */
  lemma ScaledElement(x: real, f: real, scale: real, q: real, back: real)
    requires scale > 0.0 && f == x * scale && back == q * scale && Abs(q - x) < 1.0 && Abs(q) <= Abs(x)
    ensures Abs(back - f) <= scale && Abs(back) <= Abs(f)
  {
    ScaledError(x, f, scale, q, back);
    ScaledOrder(q, x, scale, back, f);
  }

  lemma ElementError(f: real, q: int8, scale: real, back: real)
    requires scale > 0.0 && q == FloatToInt8(f, scale, 0) && -128 <= Trunc(f / scale) <= 127
    requires back == q as int as real * scale
    ensures Abs(back - f) <= scale && Abs(back) <= Abs(f)
  {
    Quotient(f, scale);
    TruncError(f / scale);
    ScaledElement(f / scale, f, scale, q as int as real, back);
  }

  function Dequantised(q: seq<int8>, scale: real): (d: seq<real>)
    ensures |d| == |q|
  {
    seq(|q|, x requires 0 <= x < |q| => q[x] as int as real * scale)
  }

  ghost predicate Near(d: seq<real>, r: seq<real>, e: real) {
    |d| == |r| && forall x :: 0 <= x < |r| ==> Abs(d[x] - r[x]) <= e
  }

  ghost predicate Within(r: seq<real>, bound: real) {
    forall x :: 0 <= x < |r| ==> Abs(r[x]) <= bound
  }

  lemma DequantisedIsNear(r: seq<real>, q: seq<int8>, scale: real, bound: real)
    requires Quantised(r, q, scale, bound)
    ensures Near(Dequantised(q, scale), r, scale) && Within(Dequantised(q, scale), bound) && Within(r, bound)
  {
    forall x | 0 <= x < |r|
      ensures Abs(Dequantised(q, scale)[x] - r[x]) <= scale && Abs(Dequantised(q, scale)[x]) <= bound
    {
      ElementError(r[x], q[x], scale, Dequantised(q, scale)[x]);
    }
  }

  function Times(t: nat, e: real): real {
    if t == 0 then 0.0 else Times(t - 1, e) + e
  }

  lemma AddOne(x: real, e: real)
    ensures (x + 1.0) * e == x * e + e
  {
  }

  lemma {:induction false} TimesIsProduct(t: nat, e: real)
    ensures Times(t, e) == t as real * e
  {
    if t > 0 {
      TimesIsProduct(t - 1, e);
      AddOne((t - 1) as real, e);
    }
  }

  lemma SplitDifference(x: real, y: real, a: real, b: real, xy: real, ab: real, p: real, q: real)
    requires xy == x * y && ab == a * b && p == x * (y - b) && q == b * (x - a)
    ensures xy - ab == p + q
  {
  }

  lemma TermError(x: real, y: real, a: real, b: real, ea: real, eb: real, ma: real, mb: real,
                  xy: real, ab: real, e: real)
    requires Abs(x - a) <= ea && Abs(y - b) <= eb && Abs(x) <= ma && Abs(b) <= mb
    requires xy == x * y && ab == a * b && e == ma * eb + mb * ea
    ensures Abs(xy - ab) <= e
  {
    var p, q := x * (y - b), b * (x - a);
    SplitDifference(x, y, a, b, xy, ab, p, q);
    AbsProduct(x, y - b, ma, eb, p, ma * eb);
    AbsProduct(b, x - a, mb, ea, q, mb * ea);
  }

  lemma {:induction false} SumError(x: seq<real>, y: seq<real>, e: real, t: nat)
    requires Near(x, y, e) && t <= |x|
    ensures Abs(Sum(x, t) - Sum(y, t)) <= Times(t, e)
  {
    if t > 0 {
      SumError(x, y, e, t - 1);
    }
  }

  lemma ProductsNear(da: seq<real>, db: seq<real>, ra: seq<real>, rb: seq<real>,
                     ea: real, eb: real, ma: real, mb: real, e: real)
    requires Near(da, ra, ea) && Near(db, rb, eb) && Within(da, ma) && Within(rb, mb) && |ra| == |rb|
    requires e == ma * eb + mb * ea
    ensures Near(Products(da, db), Products(ra, rb), e)
  {
    forall t | 0 <= t < |ra|
      ensures Abs(Products(da, db)[t] - Products(ra, rb)[t]) <= e
    {
      TermError(da[t], db[t], ra[t], rb[t], ea, eb, ma, mb, Products(da, db)[t], Products(ra, rb)[t], e);
    }
  }

  lemma {:induction false} IntProduct(u: int, v: int)
    ensures (u * v) as real == (u as real) * (v as real)
    decreases if u < 0 then -u else u
  {
    if u > 0 {
      IntProduct(u - 1, v);
      assert u * v == (u - 1) * v + v;
      assert (u as real) * (v as real) == (u - 1) as real * (v as real) + v as real;
    } else if u < 0 {
      IntProduct(u + 1, v);
      assert u * v == (u + 1) * v - v;
      assert (u as real) * (v as real) == (u + 1) as real * (v as real) - v as real;
    }
  }

  lemma Rearrange(s: real, u: real, v: real, sa: real, sb: real)
    ensures (s + u * v) * (sa * sb) == s * (sa * sb) + (u * sa) * (v * sb)
  {
  }

  lemma ScaledTerm(d: real, d': real, u: int, v: int, sa: real, sb: real, term: real)
    requires d' == d + (u * v) as real && term == (u as real * sa) * (v as real * sb)
    ensures d' * (sa * sb) == d * (sa * sb) + term
  {
    IntProduct(u, v);
    Rearrange(d, u as real, v as real, sa, sb);
  }

  /** Scaling the integer inner product is the inner product of the dequantised vectors. */
  lemma {:induction false} ScaledDot(x: seq<int8>, y: seq<int8>, sa: real, sb: real, p: seq<real>, t: nat,
                                     d: real, scaled: real)
    requires t <= |x| == |y| && p == Products(Dequantised(x, sa), Dequantised(y, sb))
    requires d == Dot(x, y, t) as real && scaled == d * (sa * sb)
    ensures scaled == Sum(p, t)
  {
    if t > 0 {
      var d1 := Dot(x, y, t - 1) as real;
      ScaledDot(x, y, sa, sb, p, t - 1, d1, d1 * (sa * sb));
      ScaledTerm(d1, d, x[t - 1] as int, y[t - 1] as int, sa, sb, p[t - 1]);
    }
  }

  lemma RescaleError(y: real, so: real, out: int, o: real)
    requires so > 0.0 && out == Trunc(y / so) && o == out as real * so
    ensures Abs(o - y) <= so
  {
    Quotient(y, so);
    TruncError(y / so);
    ScaledError(y / so, y, so, out as real, o);
  }

  lemma Associate(x: real, y: real, z: real)
    ensures x * y * z == x * (y * z)
  {
  }

  lemma OutputError(sum: int, scaleA: real, scaleB: real, so: real, out: int, o: real, scaled: real)
    requires so > 0.0 && out == Rescale(sum, scaleA, scaleB, so)
    requires o == out as real * so && scaled == sum as real * (scaleA * scaleB)
    ensures Abs(o - scaled) <= so
  {
    RescaleError(sum as real * scaleA * scaleB, so, out, o);
    Associate(sum as real, scaleA, scaleB);
  }

  lemma QuantisedProductsNear(rx: seq<real>, ry: seq<real>, x: seq<int8>, y: seq<int8>,
                              sa: real, sb: real, ma: real, mb: real, e: real)
    requires Quantised(rx, x, sa, ma) && Quantised(ry, y, sb, mb) && |x| == |y| && e == ma * sb + mb * sa
    ensures Near(Products(Dequantised(x, sa), Dequantised(y, sb)), Products(rx, ry), e)
  {
    DequantisedIsNear(rx, x, sa, ma);
    DequantisedIsNear(ry, y, sb, mb);
    ProductsNear(Dequantised(x, sa), Dequantised(y, sb), rx, ry, sa, sb, ma, mb, e);
  }

  lemma CloseSums(o: real, p: seq<real>, r: seq<real>, so: real, e: real, n: nat)
    requires n <= |p| && Abs(o - Sum(p, n)) <= so && Near(p, r, e)
    ensures Abs(o - Sum(r, n)) <= so + Times(n, e)
  {
    SumError(p, r, e, n);
  }

  lemma RowQuantised(r: seq<real>, q: seq<int8>, scale: real, bound: real, m: nat, k: nat, i: nat)
    requires Quantised(r, q, scale, bound) && |r| == m * k && i < m
    ensures Quantised(Row(r, m, k, i), Row(q, m, k, i), scale, bound)
  {
  }

  lemma ColumnQuantised(r: seq<real>, q: seq<int8>, scale: real, bound: real, k: nat, n: nat, j: nat)
    requires Quantised(r, q, scale, bound) && |r| == k * n && j < n
    ensures Quantised(Column(r, k, n, j), Column(q, k, n, j), scale, bound)
  {
  }

  lemma CellProductsNear(ra: seq<real>, rb: seq<real>, a: seq<int8>, b: seq<int8>,
                         sa: real, sb: real, ma: real, mb: real, e: real, m: nat, n: nat, k: nat, i: nat, j: nat)
    requires Quantised(ra, a, sa, ma) && Quantised(rb, b, sb, mb) && e == ma * sb + mb * sa
    requires |a| == m * k && |b| == k * n && i < m && j < n
    ensures Near(Products(Dequantised(Row(a, m, k, i), sa), Dequantised(Column(b, k, n, j), sb)),
                 Products(Row(ra, m, k, i), Column(rb, k, n, j)), e)
  {
    RowQuantised(ra, a, sa, ma, m, k, i);
    ColumnQuantised(rb, b, sb, mb, k, n, j);
    QuantisedProductsNear(Row(ra, m, k, i), Column(rb, k, n, j), Row(a, m, k, i), Column(b, k, n, j),
                          sa, sb, ma, mb, e);
  }

  lemma CellError(a: seq<int8>, b: seq<int8>, c: seq<int32>, sa: real, sb: real, so: real,
                  m: nat, n: nat, k: nat, i: nat, j: nat, sum: int, out: int, o: real, scaled: real)
    requires so > 0.0 && |a| == m * k && |b| == k * n && i < m && j < n
    requires CellsDone(a, b, c, m, n, k, sa, sb, so, m * n)
    requires sum == Dot(Row(a, m, k, i), Column(b, k, n, j), k) && out == c[At(m, n, i, j)] as int
    requires FitsInt32(Rescale(sum, sa, sb, so)) && o == out as real * so && scaled == sum as real * (sa * sb)
    ensures Abs(o - scaled) <= so
  {
    assert out == Rescale(sum, sa, sb, so) by {
      CellAt(a, b, m, n, k, sa, sb, so, i, j);
    }
    OutputError(sum, sa, sb, so, out, o, scaled);
  }

  lemma CellNearSum(a: seq<int8>, b: seq<int8>, c: seq<int32>, sa: real, sb: real, so: real,
                    m: nat, n: nat, k: nat, i: nat, j: nat, sum: int, out: int, o: real, p: seq<real>)
    requires so > 0.0 && |a| == m * k && |b| == k * n && i < m && j < n
    requires CellsDone(a, b, c, m, n, k, sa, sb, so, m * n)
    requires sum == Dot(Row(a, m, k, i), Column(b, k, n, j), k) && FitsInt32(Rescale(sum, sa, sb, so))
    requires out == c[At(m, n, i, j)] as int && o == out as real * so
    requires p == Products(Dequantised(Row(a, m, k, i), sa), Dequantised(Column(b, k, n, j), sb))
    ensures Abs(o - Sum(p, k)) <= so
  {
    var d := sum as real;
    var scaled := d * (sa * sb);
    assert Abs(o - scaled) <= so by {
      CellError(a, b, c, sa, sb, so, m, n, k, i, j, sum, out, o, scaled);
    }
    assert scaled == Sum(p, k) by {
      ScaledDot(Row(a, m, k, i), Column(b, k, n, j), sa, sb, p, k, d, scaled);
    }
  }

  /**
   Every cell of the quantised product whose value fits 32 bits, scaled back, is within one output step plus k times
   e = MA * scale_b + MB * scale_a of the exact real product.
   */
  lemma MatMulError(ra: seq<real>, rb: seq<real>, a: seq<int8>, b: seq<int8>, c: seq<int32>,
                    sa: real, sb: real, so: real, ma: real, mb: real, e: real,
                    m: nat, n: nat, k: nat, i: nat, j: nat, cell: int, o: real)
    requires Quantised(ra, a, sa, ma) && Quantised(rb, b, sb, mb) && so > 0.0 && e == ma * sb + mb * sa
    requires |a| == m * k && |b| == k * n && i < m && j < n
    requires CellsDone(a, b, c, m, n, k, sa, sb, so, m * n)
    requires FitsInt32(Rescale(Dot(Row(a, m, k, i), Column(b, k, n, j), k), sa, sb, so))
    requires cell == c[At(m, n, i, j)] as int && o == cell as real * so
    ensures Abs(o - RealDot(Row(ra, m, k, i), Column(rb, k, n, j))) <= so + k as real * e
  {
    var x, y, rx, ry := Row(a, m, k, i), Column(b, k, n, j), Row(ra, m, k, i), Column(rb, k, n, j);
    var p := Products(Dequantised(x, sa), Dequantised(y, sb));
    CellNearSum(a, b, c, sa, sb, so, m, n, k, i, j, Dot(x, y, k), cell, o, p);
    CellProductsNear(ra, rb, a, b, sa, sb, ma, mb, e, m, n, k, i, j);
    CloseSums(o, p, Products(rx, ry), so, e, k);
    TimesIsProduct(k, e);
  }
}
