/** The hash of the gateway and of the key-value cache: h * 33 + c for each character, in machine arithmetic. */
module Djb2 {
  const SEED := 5381

  function HashFrom(h: nat, values: seq<int>, m: nat): nat
    requires m > 0
    decreases |values|
  {
    if values == [] then h else HashFrom((h * 33 + values[0]) % m, values[1..], m)
  }

  /** The same in unbounded arithmetic: 5381 times the n-th power of 33, and each character times its own power. */
  function Polynomial(values: seq<int>): int {
    if values == [] then 5381 else 33 * Polynomial(values[..|values| - 1]) + values[|values| - 1]
  }

  lemma {:induction false} HashFromAppend(h: nat, values: seq<int>, v: int, m: nat)
    requires m > 0
    ensures HashFrom(h, values + [v], m) == (HashFrom(h, values, m) * 33 + v) % m
    decreases |values|
  {
    if values == [] {
      assert (values + [v])[1..] == [];
    } else {
      assert (values + [v])[1..] == values[1..] + [v];
      HashFromAppend((h * 33 + values[0]) % m, values[1..], v, m);
    }
  }

  lemma Distribute(a: int, b: int, c: int, m: int)
    ensures (a + b + c) * m == a * m + b * m + c * m
  {
  }

  lemma AtLeastOne(k: int, m: int)
    requires k > 0 && m > 0
    ensures k * m >= m
  {
  }

  /** A multiple of m that is less than m in size is 0. */
  lemma SmallMultiple(d: int, k: int, m: int)
    requires m > 0 && d == k * m && -m < d < m
    ensures d == 0
  {
    if k > 0 {
      AtLeastOne(k, m);
    } else if k < 0 {
      AtLeastOne(-k, m);
    }
  }

  lemma WholeTurn(x: int, y: int, k: int, m: nat)
    requires m > 0 && x == y + k * m
    ensures x % m == y % m
  {
    var qx, qy := x / m, y / m;
    assert x % m - y % m == (qy - qx + k) * m by {
      assert x == qx * m + x % m && y == qy * m + y % m;
      Distribute(qy, -qx, k, m);
    }
    SmallMultiple(x % m - y % m, qy - qx + k, m);
  }

  lemma ReduceFirst(x: int, v: int, m: nat)
    requires m > 0
    ensures ((x % m) * 33 + v) % m == (33 * x + v) % m
  {
    assert x == (x / m) * m + x % m;
    assert (x % m) * 33 + v == 33 * x + v + (-33 * (x / m)) * m;
    WholeTurn((x % m) * 33 + v, 33 * x + v, -33 * (x / m), m);
  }

  /** The hash is that polynomial, reduced once. */
  lemma {:induction false} HashIsPolynomial(values: seq<int>, m: nat)
    requires m > SEED
    ensures HashFrom(SEED, values, m) == Polynomial(values) % m
  {
    if values != [] {
      var before, v := values[..|values| - 1], values[|values| - 1];
      HashIsPolynomial(before, m);
      assert values == before + [v];
      HashFromAppend(SEED, before, v, m);
      ReduceFirst(Polynomial(before), v, m);
    }
  }

  lemma Bezout(d: int, k: int, m: int, a: int, b: int)
    requires d * 33 == k * m && a * 33 + b * m == 1
    ensures d == (a * k + d * b) * m
  {
    assert d == d * (a * 33 + b * m);
    assert d * (a * 33 + b * m) == a * (d * 33) + d * b * m;
    assert a * (k * m) + d * b * m == (a * k + d * b) * m;
  }

  /** 33 has an inverse a modulo m, so that one step loses nothing. */
  lemma StepLosesNothing(g: nat, h: nat, v: int, m: nat, a: int, b: int)
    requires m > 0 && g < m && h < m && a * 33 + b * m == 1
    requires (g * 33 + v) % m == (h * 33 + v) % m
    ensures g == h
  {
    var d := g - h;
    var k := (g * 33 + v) / m - (h * 33 + v) / m;
    assert d * 33 == k * m by {
      assert g * 33 + v == ((g * 33 + v) / m) * m + (g * 33 + v) % m;
      assert h * 33 + v == ((h * 33 + v) / m) * m + (h * 33 + v) % m;
      Distribute((g * 33 + v) / m, -((h * 33 + v) / m), 0, m);
    }
    Bezout(d, k, m, a, b);
    SmallMultiple(d, a * k + d * b, m);
  }

  lemma {:induction false} HashFromDiffers(g: nat, h: nat, values: seq<int>, m: nat, a: int, b: int)
    requires m > 0 && g < m && h < m && g != h && a * 33 + b * m == 1
    ensures HashFrom(g, values, m) != HashFrom(h, values, m)
    decreases |values|
  {
    if values != [] {
      var g', h' := (g * 33 + values[0]) % m, (h * 33 + values[0]) % m;
      if g' == h' {
        StepLosesNothing(g, h, values[0], m, a, b);
      }
      HashFromDiffers(g', h', values[1..], m, a, b);
    }
  }

  lemma ValuesDiffer(h: nat, v: int, w: int, m: int)
    requires m > 0 && v != w && -m < v - w < m
    ensures (h * 33 + v) % m != (h * 33 + w) % m
  {
    if (h * 33 + v) % m == (h * 33 + w) % m {
      var p, q := (h * 33 + v) / m, (h * 33 + w) / m;
      assert v - w == (p - q) * m by {
        assert h * 33 + v == p * m + (h * 33 + v) % m;
        assert h * 33 + w == q * m + (h * 33 + w) % m;
        Distribute(p, -q, 0, m);
      }
      SmallMultiple(v - w, p - q, m);
      assert false;
    }
  }

  /** Two texts of one length that differ in one character only have different hashes. */
  lemma {:induction false} OneDiffers(h: nat, x: seq<int>, y: seq<int>, i: nat, m: int, a: int, b: int)
    requires m > 0 && h < m && a * 33 + b * m == 1
    requires i < |x| == |y| && x[i] != y[i] && -m < x[i] - y[i] < m
    requires forall j :: 0 <= j < |x| && j != i ==> x[j] == y[j]
    ensures HashFrom(h, x, m) != HashFrom(h, y, m)
    decreases |x|
  {
    if i == 0 {
      ValuesDiffer(h, x[0], y[0], m);
      assert x[1..] == y[1..];
      HashFromDiffers((h * 33 + x[0]) % m, (h * 33 + y[0]) % m, x[1..], m, a, b);
    } else {
      OneDiffers((h * 33 + x[0]) % m, x[1..], y[1..], i - 1, m, a, b);
    }
  }
}
