// sc_muladd of curve25519/boringssl/curve25519.c: (a * b + c) mod L for 256-bit a, b and c.
// The columns of the product are formed on int64, carried once, and then reduced exactly as
// x25519_sc_reduce does.
module ScMulAdd {
  import opened Words
  import opened Bits
  import opened Bytes
  import opened ScReduce

  // Twelve limbs of a 256-bit number; the last one keeps 25 bits.
  ghost predicate IsScalar(t: seq<int64>) {
    |t| == 12 && (forall i :: 0 <= i < 11 ==> 0 <= t[i] < 0x200000) && 0 <= t[11] < 0x2000000
  }

  function LoadScalar(a: array<uint8>): (t: seq<int64>)
    requires a.Length == 32
    reads a
    ensures IsScalar(t) && Value(t) == Le(a[..])
  {
    hide Value, Le, LoadBlock, Digit, Load3, Load4;
    var t := LoadBlock(a, 0) + [Digit(Load3(a, 21), 0), Digit(Load4(a, 23), 5), Digit(Load3(a, 26), 2),
                                (Load4(a, 28) / 128) as int64];
    LoadedScalar(a, t);
    t
  }

  lemma LoadedScalar(a: array<uint8>, t: seq<int64>)
    requires a.Length == 32
    requires t == LoadBlock(a, 0) + [Digit(Load3(a, 21), 0), Digit(Load4(a, 23), 5), Digit(Load3(a, 26), 2),
                                     (Load4(a, 28) / 128) as int64]
    ensures IsScalar(t) && Value(t) == Le(a[..])
  {
    hide Value, Le, DigitOf, Digit, Load3, LoadBlock, W;
    WeightZero();
    LoadBlockDigits(a, 0);
    Digit3(a, 21, 0, 8);
    Digit4(a, 23, 5, 9);
    Digit3(a, 26, 2, 10);
    assert a[28..] == a[28..32] && a[..][28..] == a[28..];
    TopDigit(a[..], 28, 7, 11);
    SmallPow2();
    ValueOfDigits(t, Le(a[..]), 0);
    assert t[0..] == t;
  }

  // a_i b_k-i + a_i+1 b_k-i-1 + ..., over the indices that exist. With i = 0 this is column k of
  // the product; no partial sum of it can overflow.
  function Column(a: seq<int64>, b: seq<int64>, k: nat, i: nat): (r: int64)
    requires IsScalar(a) && IsScalar(b) && i <= 12
    ensures 0 <= r as int <= (if k < 22 then (12 - i) * 0x4000_0000_0000 else if k == 22
      && i < 12 then 0x4_0000_0000_0000 else 0)
    decreases 12 - i
  {
    if i == 12 then 0
    else if i <= k < i + 12 then
      TermBound(a, b, k, i);
      a[i] * b[k - i] + Column(a, b, k, i + 1)
    else Column(a, b, k, i + 1)
  }

  lemma TermBound(a: seq<int64>, b: seq<int64>, k: nat, i: nat)
    requires IsScalar(a) && IsScalar(b) && i < 12 && i <= k < i + 12
    ensures 0 <= a[i] as int * b[k - i] as int <= (if k < 22 then 0x4000_0000_0000 else 0x4_0000_0000_0000)
  {
    var x, y := a[i] as int, b[k - i] as int;
    if k == 22 {
      ProductBound(x, y, 0x2000000, 0x2000000);
    } else if i < 11 {
      ProductBound(x, y, 0x200000, 0x2000000);
    } else {
      ProductBound(x, y, 0x2000000, 0x200000);
    }
  }

  // Columns k to 23 of the product of the limbs of a from i on with b, as a number.
  ghost function Columns(a: seq<int64>, b: seq<int64>, i: nat, k: nat): int
    requires IsScalar(a) && IsScalar(b) && i <= 12 && k <= 24
    decreases 24 - k
  {
    if k == 24 then 0 else Column(a, b, k, i) as int + 0x200000 * Columns(a, b, i, k + 1)
  }

  // The same for the single row x * b placed at limb i.
  ghost function Row(b: seq<int64>, x: int, i: nat, k: nat): int
    requires |b| == 12 && k <= 24
    decreases 24 - k
  {
    if k == 24 then 0 else (if i <= k < i + 12 then x * b[k - i] as int else 0) + 0x200000 * Row(b, x, i, k + 1)
  }

  lemma {:induction false} TopRow(a: seq<int64>, b: seq<int64>, i: nat, k: nat)
    requires IsScalar(a) && IsScalar(b) && i < 12 && k <= 24
    ensures Columns(a, b, i, k) == Row(b, a[i] as int, i, k) + Columns(a, b, i + 1, k)
    decreases 24 - k
  {
    if k < 24 {
      TopRow(a, b, i, k + 1);
    }
  }

  lemma {:induction false} RowFrom(b: seq<int64>, x: int, i: nat, m: nat)
    requires |b| == 12 && m <= 12 && i < 12
    ensures Row(b, x, i, i + m) == x * Value(b[m..])
    decreases 12 - m
  {
    if m == 12 {
      EmptyRow(b, x, i, i + 12);
    } else {
      RowFrom(b, x, i, m + 1);
      PeelLimb(b, m);
      var r := Value(b[m + 1..]);
      assert x * (b[m] as int + 0x200000 * r) == x * b[m] as int + 0x200000 * (x * r);
    }
  }

  lemma {:induction false} EmptyRow(b: seq<int64>, x: int, i: nat, k: nat)
    requires |b| == 12 && i + 12 <= k <= 24
    ensures Row(b, x, i, k) == 0
    decreases 24 - k
  {
    if k < 24 {
      EmptyRow(b, x, i, k + 1);
    }
  }

  lemma {:induction false} RowValue(b: seq<int64>, x: int, i: nat, k: nat)
    requires |b| == 12 && i < 12 && k <= i
    ensures Row(b, x, i, k) == Times(W(i - k), x * Value(b))
    decreases i - k
  {
    if k == i {
      RowFrom(b, x, i, 0);
      assert b[0..] == b;
    } else {
      RowValue(b, x, i, k + 1);
      var w, v := W(i - k - 1), x * Value(b);
      assert (0x200000 * w) * v == 0x200000 * (w * v);
    }
  }

  // The columns add up to the product.
  lemma {:induction false} ColumnsValue(a: seq<int64>, b: seq<int64>, i: nat)
    requires IsScalar(a) && IsScalar(b) && i <= 12
    ensures Columns(a, b, i, 0) == Times(W(i), Value(a[i..]) * Value(b))
    decreases 12 - i
  {
    if i == 12 {
      hide *;
      NoColumns(a, b, 0);
      NoLimbs(a, Value(b), W(12));
    } else {
      hide Column, Columns, Row, Value, Times, W;
      NextWeight(i);
      ColumnsValue(a, b, i + 1);
      TopRow(a, b, i, 0);
      RowValue(b, a[i] as int, i, 0);
      PeelLimb(a, i);
      Gather(W(i), a[i] as int, Value(a[i + 1..]), Value(b));
    }
  }

  lemma NoLimbs(a: seq<int64>, v: int, w: int)
    requires |a| == 12
    ensures Times(w, Value(a[12..]) * v) == 0
  {
    assert Value(a[12..]) == 0;
  }

  lemma NextWeight(i: nat)
    ensures W(i + 1) == 0x200000 * W(i)
  {
  }

  lemma Gather(w: int, x: int, y: int, v: int)
    ensures Times(w, x * v) + Times(0x200000 * w, y * v) == Times(w, (x + 0x200000 * y) * v)
  {
    assert (x + 0x200000 * y) * v == x * v + 0x200000 * (y * v);
    assert w * (x * v + 0x200000 * (y * v)) == w * (x * v) + (0x200000 * w) * (y * v);
  }

  lemma {:induction false} NoColumns(a: seq<int64>, b: seq<int64>, k: nat)
    requires IsScalar(a) && IsScalar(b) && k <= 24
    ensures Columns(a, b, 12, k) == 0
    decreases 24 - k
  {
    if k < 24 {
      NoColumns(a, b, k + 1);
    }
  }

  // s_k = c_k + column k, for 24 limbs.
  lemma {:induction false} SumOfColumns(s: seq<int64>, a: seq<int64>, b: seq<int64>, c: seq<int64>, k: nat)
    requires |s| == 24 && IsScalar(a) && IsScalar(b) && |c| == 12 && k <= 24
    requires forall j :: 0 <= j < 24 ==> s[j] as int == (if j < 12 then c[j] as int else 0) + Column(a, b, j, 0) as int
    ensures Value(s[k..]) == (if k < 12 then Value(c[k..]) else 0) + Columns(a, b, 0, k)
    decreases 24 - k
  {
    if k < 24 {
      SumOfColumns(s, a, b, c, k + 1);
      PeelLimb(s, k);
      if k < 12 {
        PeelLimb(c, k);
      }
    }
  }

  // carry0, carry2, ..., carry22, then carry1, carry3, ..., carry21
  method CarryAll(s: array<int64>)
    requires s.Length == 24 && s[23] == 0 && Within(s, 0, 24, 0x4_0000_0000_0000)
    modifies s
    ensures Value(s[..]) == old(Value(s[..])) && Within(s, 0, 24, 0x4000_0000)
  {
    hide Value, W;
    SixCarries(s, 0, 0x4_0000_0000_0000, 0x4_0000_0000_0000);
    FiveCarries(s, 12, 0x4_0000_0000_0000, 0x4_0000_0000_0000);
    RoundCarry(s, 22, 0x4_0000_0000_0000, 0);
    SixCarries(s, 1, 0x4_0000_2000_0001, 0x100000);
    FiveCarries(s, 13, 0x4_0000_2000_0001, 0x100000);
  }

  // s_k = c_k + a_0 b_k + a_1 b_k-1 + ...
  method ProductColumns(x: seq<int64>, y: seq<int64>, z: seq<int64>) returns (t: array<int64>)
    requires IsScalar(x) && IsScalar(y) && IsScalar(z)
    ensures fresh(t) && t.Length == 24 && t[23] == 0 && Within(t, 0, 24, 0x4_0000_0000_0000)
    ensures Value(t[..]) == Value(x) * Value(y) + Value(z)
  {
    hide Value, W, Column;
    t := new int64[24](k requires 0 <= k < 24 => if k == 23 then 0 else (if k < 12 then z[k] else 0) + Column(x, y,
      k, 0));
    ProductPlus(t[..], x, y, z);
  }

  method ScMulAdd(s: array<uint8>, a: array<uint8>, b: array<uint8>, c: array<uint8>)
    requires s.Length >= 32 && a.Length == b.Length == c.Length == 32
    modifies s
    ensures Le(s[..32]) == (old(Le(a[..])) * old(Le(b[..])) + old(Le(c[..]))) % L && s[32..] == old(s[32..])
  {
    hide *;
    var x, y, z := LoadScalar(a), LoadScalar(b), LoadScalar(c);
    var t := ProductColumns(x, y, z);
    CarryAll(t);
    ReduceLimbs(t);
    Store(s, t[..]);
  }

  lemma ProductPlus(t: seq<int64>, x: seq<int64>, y: seq<int64>, z: seq<int64>)
    requires |t| == 24 && IsScalar(x) && IsScalar(y) && |z| == 12
    requires forall j :: 0 <= j < 24 ==> t[j] as int == (if j < 12 then z[j] as int else 0) + Column(x, y, j, 0) as int
    ensures Value(t) == Value(x) * Value(y) + Value(z)
  {
    hide Value, Column, Columns, W;
    SumOfColumns(t, x, y, z, 0);
    ColumnsValue(x, y, 0);
    assert t[0..] == t && x[0..] == x && z[0..] == z;
    WeightZero();
    assert 1 * (Value(x) * Value(y)) == Value(x) * Value(y);
  }
}
