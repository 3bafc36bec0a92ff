// Numbers on ten signed limbs of alternately 26 and 25 bits, and the product of two of them on
// nineteen: the representation of curve25519/agl/curve25519-donna.c.
module Limbs26 {
  import opened Words
  import opened Field25519

  // The weight of limb i, 2^ceil(25.5 i).
  function W(i: nat): (w: int)
    ensures w > 0
  {
    if i == 0 then 1 else if i % 2 == 1 then 0x4000000 * W(i - 1) else 0x2000000 * W(i - 1)
  }

  // Limbs lo to hi - 1 with their weights.
  function Sum(s: seq<int64>, lo: nat, hi: nat): int
    requires hi <= |s|
    decreases hi - lo
  {
    if lo >= hi then 0 else Times(s[lo] as int, W(lo)) + Sum(s, lo + 1, hi)
  }

  lemma {:induction false} SumUpdate(s: seq<int64>, lo: nat, hi: nat, i: nat, x: int64)
    requires lo <= i < hi <= |s|
    ensures Sum(s[i := x], lo, hi) == Sum(s, lo, hi) + Times(x as int - s[i] as int, W(i))
    decreases hi - lo
  {
    if lo == i {
      SumFrame(s, s[i := x], lo + 1, hi);
      TimesDifference(x as int, s[i] as int, W(i));
    } else {
      SumUpdate(s, lo + 1, hi, i, x);
    }
  }

  lemma TimesDifference(x: int, y: int, w: int)
    ensures Times(x, w) == Times(y, w) + Times(x - y, w)
  {
  }

  lemma {:induction false} SumFrame(s: seq<int64>, t: seq<int64>, lo: nat, hi: nat)
    requires hi <= |s| && hi <= |t| && forall j :: lo <= j < hi ==> s[j] == t[j]
    ensures Sum(s, lo, hi) == Sum(t, lo, hi)
    decreases hi - lo
  {
    if lo < hi {
      SumFrame(s, t, lo + 1, hi);
    }
  }

  lemma {:induction false} SumSplit(s: seq<int64>, lo: nat, mid: nat, hi: nat)
    requires lo <= mid <= hi <= |s|
    ensures Sum(s, lo, hi) == Sum(s, lo, mid) + Sum(s, mid, hi)
    decreases mid - lo
  {
    if lo < mid {
      SumSplit(s, lo + 1, mid, hi);
    }
  }

  lemma Weight10()
    ensures W(10) == P + 19
  {
    assert W(5) == 0x2000000 * W(4) * 2;
    assert W(4) == 0x40000000000000000000000000;
  }

  // Ten places up is 2^255.
  lemma {:induction false} HighWeight(i: nat)
    ensures W(i + 10) == (P + 19) * W(i)
  {
    if i == 0 {
      Weight10();
    } else {
      HighWeight(i - 1);
      assert (i + 10) % 2 == i % 2;
    }
  }

  // Products of two odd limbs stand one bit higher than their column.
  function Coefficient(i: nat, j: nat): int {
    if i % 2 == 1 && j % 2 == 1 then 2 else 1
  }

  lemma {:induction false} WeightOfProduct(i: nat, j: nat)
    ensures Times(W(i), W(j)) == Coefficient(i, j) * W(i + j)
  {
    if i > 0 {
      WeightOfProduct(i - 1, j);
      NextWeight(i);
      NextWeight(i + j);
      ScaleLeft(0x4000000, W(i - 1), W(j));
      ScaleLeft(0x2000000, W(i - 1), W(j));
      hide W, Times;
      assert (i + j) % 2 == (if i % 2 == j % 2 then 0 else 1);
    }
  }

  lemma NextWeight(i: nat)
    requires i > 0
    ensures W(i) == (if i % 2 == 1 then 0x4000000 else 0x2000000) * W(i - 1)
  {
  }

  lemma ScaleLeft(k: int, a: int, b: int)
    ensures Times(k * a, b) == k * Times(a, b)
  {
  }

  // a_i b_k-i + a_i+1 b_k-i-1 + ... with its coefficients; from i = 0 on, column k of the product.
  function Column(a: seq<int64>, b: seq<int64>, k: nat, i: nat): int
    requires |a| == |b| == 10 && i <= 10
    decreases 10 - i
  {
    if i == 10 then 0 else Entry(a[i] as int, b, k, i) + Column(a, b, k, i + 1)
  }

  function Entry(x: int, b: seq<int64>, k: nat, i: nat): int
    requires |b| == 10
  {
    if i <= k < i + 10 then Coefficient(i, k - i) * Times(x, b[k - i] as int) else 0
  }

  lemma ColumnTerms(a: seq<int64>, b: seq<int64>, k: nat)
    requires |a| == |b| == 10
    ensures Column(a, b, k, 0) == Entry(a[0] as int, b, k, 0) + Entry(a[1] as int, b, k, 1) + Entry(a[2] as int, b,
      k, 2)
      + Entry(a[3] as int, b, k, 3) + Entry(a[4] as int, b, k, 4) + Entry(a[5] as int, b, k, 5)
      + Entry(a[6] as int, b, k, 6) + Entry(a[7] as int, b, k, 7) + Entry(a[8] as int, b, k, 8) + Entry(a[9] as int,
        b, k, 9)
  {
    hide Entry;
    assert Column(a, b, k, 8) == Entry(a[8] as int, b, k, 8) + Column(a, b, k, 9);
    assert Column(a, b, k, 6) == Entry(a[6] as int, b, k, 6) + Column(a, b, k, 7);
    assert Column(a, b, k, 4) == Entry(a[4] as int, b, k, 4) + Column(a, b, k, 5);
    assert Column(a, b, k, 2) == Entry(a[2] as int, b, k, 2) + Column(a, b, k, 3);
  }

  ghost function Columns(a: seq<int64>, b: seq<int64>, i: nat, k: nat): int
    requires |a| == |b| == 10 && i <= 10 && k <= 19
    decreases 19 - k
  {
    if k == 19 then 0 else Times(Column(a, b, k, i), W(k)) + Columns(a, b, i, k + 1)
  }

  ghost function Row(x: int, b: seq<int64>, i: nat, k: nat): int
    requires |b| == 10 && k <= 19
    decreases 19 - k
  {
    if k == 19 then 0 else Times(Entry(x, b, k, i), W(k)) + Row(x, b, i, k + 1)
  }

  lemma {:induction false} TopRow(a: seq<int64>, b: seq<int64>, i: nat, k: nat)
    requires |a| == |b| == 10 && i < 10 && k <= 19
    ensures Columns(a, b, i, k) == Row(a[i] as int, b, i, k) + Columns(a, b, i + 1, k)
    decreases 19 - k
  {
    hide W, Entry;
    if k < 19 {
      TopRow(a, b, i, k + 1);
      TimesSum(Entry(a[i] as int, b, k, i), Column(a, b, k, i + 1), W(k));
    }
  }

  lemma TimesSum(x: int, y: int, w: int)
    ensures Times(x + y, w) == Times(x, w) + Times(y, w)
  {
  }

  lemma {:induction false} RowFrom(x: int, b: seq<int64>, i: nat, m: nat)
    requires |b| == 10 && m <= 10 && i < 10
    ensures i + m <= 19 && Row(x, b, i, i + m) == Times(Times(x, W(i)), Sum(b, m, 10))
    decreases 10 - m
  {
    hide W, Times, Coefficient;
    if m == 10 {
      EmptyRow(x, b, i, i + 10);
      TimesZero(Times(x, W(i)));
    } else {
      RowFrom(x, b, i, m + 1);
      EntryWeight(x, b[m] as int, i, m);
      TimesSumRight(Times(x, W(i)), Times(b[m] as int, W(m)), Sum(b, m + 1, 10));
    }
  }

  lemma TimesZero(x: int)
    ensures Times(x, 0) == 0 && Times(0, x) == 0
  {
  }

  lemma TimesSumRight(x: int, y: int, z: int)
    ensures Times(x, y + z) == Times(x, y) + Times(x, z)
  {
  }

  lemma EntryWeight(x: int, y: int, i: nat, m: nat)
    ensures Times(Coefficient(i, m) * Times(x, y), W(i + m)) == Times(Times(x, W(i)), Times(y, W(m)))
  {
    WeightOfProduct(i, m);
    Rearrange(Coefficient(i, m), x, y, W(i + m), W(i), W(m));
  }

  lemma Rearrange(c: int, x: int, y: int, w: int, v: int, u: int)
    requires Times(v, u) == c * w
    ensures Times(c * Times(x, y), w) == Times(Times(x, v), Times(y, u))
  {
    assert (c * (x * y)) * w == (x * y) * (c * w);
    assert (x * v) * (y * u) == (x * y) * (v * u);
  }

  lemma {:induction false} EmptyRow(x: int, b: seq<int64>, i: nat, k: nat)
    requires |b| == 10 && i + 10 <= k <= 19
    ensures Row(x, b, i, k) == 0
    decreases 19 - k
  {
    if k < 19 {
      EmptyRow(x, b, i, k + 1);
    }
  }

  lemma {:induction false} RowStart(x: int, b: seq<int64>, i: nat, k: nat)
    requires |b| == 10 && k <= i < 10
    ensures Row(x, b, i, k) == Row(x, b, i, i)
    decreases i - k
  {
    if k < i {
      RowStart(x, b, i, k + 1);
    }
  }

  // The columns with their weights add up to the product.
  lemma {:induction false} ColumnsProduct(a: seq<int64>, b: seq<int64>, i: nat)
    requires |a| == |b| == 10 && i <= 10
    ensures Columns(a, b, i, 0) == Times(Sum(a, i, 10), Sum(b, 0, 10))
    decreases 10 - i
  {
    hide W, Column, Columns, Row, Times;
    if i == 10 {
      NoColumns(a, b, 0);
      TimesZero(Sum(b, 0, 10));
    } else {
      ColumnsProduct(a, b, i + 1);
      TopRow(a, b, i, 0);
      RowStart(a[i] as int, b, i, 0);
      RowFrom(a[i] as int, b, i, 0);
      TimesSum(Times(a[i] as int, W(i)), Sum(a, i + 1, 10), Sum(b, 0, 10));
    }
  }

  lemma {:induction false} NoColumns(a: seq<int64>, b: seq<int64>, k: nat)
    requires |a| == |b| == 10 && k <= 19
    ensures Columns(a, b, 10, k) == 0
    decreases 19 - k
  {
    if k < 19 {
      NoColumns(a, b, k + 1);
    }
  }

  lemma {:induction false} SumOfColumns(t: seq<int64>, a: seq<int64>, b: seq<int64>, k: nat)
    requires |t| == 19 && |a| == |b| == 10 && k <= 19
    requires forall j :: 0 <= j < 19 ==> t[j] as int == Column(a, b, j, 0)
    ensures Sum(t, k, 19) == Columns(a, b, 0, k)
    decreases 19 - k
  {
    hide Column, W;
    if k < 19 {
      SumOfColumns(t, a, b, k + 1);
    }
  }

  // Limbs 10 to 18 with the weights of limbs 0 to 8.
  function High(s: seq<int64>): int
    requires |s| == 19
  {
    Times(s[10] as int, W(0)) + Times(s[11] as int, W(1)) + Times(s[12] as int, W(2)) + Times(s[13] as int, W(3))
    + Times(s[14] as int, W(4)) + Times(s[15] as int, W(5)) + Times(s[16] as int, W(6)) + Times(s[17] as int, W(7))
    + Times(s[18] as int, W(8))
  }

  lemma HighSum(s: seq<int64>)
    requires |s| == 19
    ensures Sum(s, 10, 19) == (P + 19) * High(s)
  {
    hide W, Times;
    assert Sum(s, 17, 19) == Times(s[17] as int, W(17)) + Sum(s, 18, 19);
    assert Sum(s, 15, 19) == Times(s[15] as int, W(15)) + Sum(s, 16, 19);
    assert Sum(s, 13, 19) == Times(s[13] as int, W(13)) + Sum(s, 14, 19);
    assert Sum(s, 11, 19) == Times(s[11] as int, W(11)) + Sum(s, 12, 19);
    HighTerm(s[10] as int, 0);
    HighTerm(s[11] as int, 1);
    HighTerm(s[12] as int, 2);
    HighTerm(s[13] as int, 3);
    HighTerm(s[14] as int, 4);
    HighTerm(s[15] as int, 5);
    HighTerm(s[16] as int, 6);
    HighTerm(s[17] as int, 7);
    HighTerm(s[18] as int, 8);
  }

  lemma HighTerm(x: int, i: nat)
    ensures Times(x, W(i + 10)) == (P + 19) * Times(x, W(i))
  {
    HighWeight(i);
    assert x * ((P + 19) * W(i)) == (P + 19) * (x * W(i));
  }

  lemma {:induction false} SumPlus(u: seq<int64>, s: seq<int64>, t: seq<int64>, lo: nat)
    requires |u| >= 10 && |s| >= 10 && |t| >= 10 && lo <= 10
    requires forall j :: lo <= j < 10 ==> u[j] as int == s[j] as int + t[j] as int
    ensures Sum(u, lo, 10) == Sum(s, lo, 10) + Sum(t, lo, 10)
    decreases 10 - lo
  {
    if lo < 10 {
      SumPlus(u, s, t, lo + 1);
      TimesSum(s[lo] as int, t[lo] as int, W(lo));
    }
  }

  lemma {:induction false} SumScaled(u: seq<int64>, s: seq<int64>, c: int, lo: nat)
    requires |u| >= 10 && |s| >= 10 && lo <= 10
    requires forall j :: lo <= j < 10 ==> u[j] as int == Times(c, s[j] as int)
    ensures Sum(u, lo, 10) == Times(c, Sum(s, lo, 10))
    decreases 10 - lo
  {
    hide W, Times;
    if lo < 10 {
      SumScaled(u, s, c, lo + 1);
      TimesGroup(c, s[lo] as int, W(lo));
      TimesSumRight(c, Times(s[lo] as int, W(lo)), Sum(s, lo + 1, 10));
    } else {
      TimesZero(c);
    }
  }

  lemma TimesGroup(c: int, x: int, w: int)
    ensures Times(Times(c, x), w) == Times(c, Times(x, w))
  {
    assert (c * x) * w == c * (x * w);
  }
}
