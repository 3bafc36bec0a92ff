// curve25519/agl/curve25519-donna.c: Curve25519 on ten signed limbs of 26 and 25 bits, in arrays
// that are updated in place with carries that may be negative. Sums and products are on int64.
module Donna32 {
  import opened Words
  import opened Bits
  import opened Field25519
  import opened Limbs26

  // Limbs of a field element in reduced form are at most this.
  const REDUCED: int64 := 0x3ffffff
  // Sums and differences of two of them.
  const SUM: int64 := 0x8000000
  // No column of a product exceeds fourteen products of limbs up to 2^27.
  const COLUMN: int64 := 14 * 0x40000000000000

  ghost predicate Below(s: seq<int64>, lo: nat, hi: nat, b: int64) {
    forall i :: lo <= i < hi && i < |s| ==> -(b as int) <= s[i] as int <= b as int
  }

  // ((limb) ((s32) x)) * ((s32) y): both casts keep the value.
  function M(x: int64, y: int64): (r: int64)
    requires -SUM <= x <= SUM && -SUM <= y <= SUM
    ensures r as int == Times(x as int, y as int) && -0x40000000000000 <= r <= 0x40000000000000
  {
    SignedBound(x as int, y as int);
    x * y
  }

  lemma SignedBound(x: int, y: int)
    requires -SUM as int <= x <= SUM as int && -SUM as int <= y <= SUM as int
    ensures -0x40000000000000 <= x * y <= 0x40000000000000
  {
    MulMonotone(SUM as int, y, SUM as int);
    MulMonotone(SUM as int, -y, SUM as int);
    if y >= 0 {
      MulMonotone(y, x, SUM as int);
      MulMonotone(y, -x, SUM as int);
    } else {
      MulMonotone(-y, x, SUM as int);
      MulMonotone(-y, -x, SUM as int);
    }
  }

  function ProductLow(a: seq<int64>, b: seq<int64>): (t: seq<int64>)
    requires |a| == |b| == 10 && Below(a, 0, 10, SUM) && Below(b, 0, 10, SUM)
    ensures |t| == 10 && Below(t, 0, 10, COLUMN)
  {
    hide M, Times;
    [M(a[0], b[0]),
     M(a[0], b[1]) + M(a[1], b[0]),
     2 * M(a[1], b[1]) + M(a[0], b[2]) + M(a[2], b[0]),
     M(a[1], b[2]) + M(a[2], b[1]) + M(a[0], b[3]) + M(a[3], b[0]),
     M(a[2], b[2]) + 2 * (M(a[1], b[3]) + M(a[3], b[1])) + M(a[0], b[4]) + M(a[4], b[0]),
     M(a[2], b[3]) + M(a[3], b[2]) + M(a[1], b[4]) + M(a[4], b[1]) + M(a[0], b[5]) + M(a[5], b[0]),
     2 * (M(a[3], b[3]) + M(a[1], b[5]) + M(a[5], b[1])) + M(a[2], b[4]) + M(a[4], b[2]) + M(a[0], b[6])
      + M(a[6], b[0]),
     M(a[3], b[4]) + M(a[4], b[3]) + M(a[2], b[5]) + M(a[5], b[2]) + M(a[1], b[6]) + M(a[6], b[1])
      + M(a[0], b[7]) + M(a[7], b[0]),
     M(a[4], b[4]) + 2 * (M(a[3], b[5]) + M(a[5], b[3]) + M(a[1], b[7]) + M(a[7], b[1])) + M(a[2], b[6])
      + M(a[6], b[2]) + M(a[0], b[8]) + M(a[8], b[0]),
     M(a[4], b[5]) + M(a[5], b[4]) + M(a[3], b[6]) + M(a[6], b[3]) + M(a[2], b[7]) + M(a[7], b[2])
      + M(a[1], b[8]) + M(a[8], b[1]) + M(a[0], b[9]) + M(a[9], b[0])]
  }

  function ProductHigh(a: seq<int64>, b: seq<int64>): (t: seq<int64>)
    requires |a| == |b| == 10 && Below(a, 0, 10, SUM) && Below(b, 0, 10, SUM)
    ensures |t| == 9 && Below(t, 0, 9, COLUMN)
  {
    hide M, Times;
    [2 * (M(a[5], b[5]) + M(a[3], b[7]) + M(a[7], b[3]) + M(a[1], b[9]) + M(a[9], b[1])) + M(a[4], b[6])
      + M(a[6], b[4]) + M(a[2], b[8]) + M(a[8], b[2]),
     M(a[5], b[6]) + M(a[6], b[5]) + M(a[4], b[7]) + M(a[7], b[4]) + M(a[3], b[8]) + M(a[8], b[3])
      + M(a[2], b[9]) + M(a[9], b[2]),
     M(a[6], b[6]) + 2 * (M(a[5], b[7]) + M(a[7], b[5]) + M(a[3], b[9]) + M(a[9], b[3])) + M(a[4], b[8])
      + M(a[8], b[4]),
     M(a[6], b[7]) + M(a[7], b[6]) + M(a[5], b[8]) + M(a[8], b[5]) + M(a[4], b[9]) + M(a[9], b[4]),
     2 * (M(a[7], b[7]) + M(a[5], b[9]) + M(a[9], b[5])) + M(a[6], b[8]) + M(a[8], b[6]),
     M(a[7], b[8]) + M(a[8], b[7]) + M(a[6], b[9]) + M(a[9], b[6]),
     M(a[8], b[8]) + 2 * (M(a[7], b[9]) + M(a[9], b[7])),
     M(a[8], b[9]) + M(a[9], b[8]),
     2 * M(a[9], b[9])]
  }

  lemma Columns0To3(a: seq<int64>, b: seq<int64>)
    requires |a| == |b| == 10 && Below(a, 0, 10, SUM) && Below(b, 0, 10, SUM)
    ensures ProductLow(a, b)[0] as int == Column(a, b, 0, 0)
    ensures ProductLow(a, b)[1] as int == Column(a, b, 1, 0)
    ensures ProductLow(a, b)[2] as int == Column(a, b, 2, 0)
    ensures ProductLow(a, b)[3] as int == Column(a, b, 3, 0)
  {
    hide M, Times, Column, Below;
    ColumnTerms(a, b, 0);
    ColumnTerms(a, b, 1);
    ColumnTerms(a, b, 2);
    ColumnTerms(a, b, 3);
  }

  lemma Columns4To6(a: seq<int64>, b: seq<int64>)
    requires |a| == |b| == 10 && Below(a, 0, 10, SUM) && Below(b, 0, 10, SUM)
    ensures ProductLow(a, b)[4] as int == Column(a, b, 4, 0)
    ensures ProductLow(a, b)[5] as int == Column(a, b, 5, 0)
    ensures ProductLow(a, b)[6] as int == Column(a, b, 6, 0)
  {
    hide M, Times, Column, Below;
    ColumnTerms(a, b, 4);
    ColumnTerms(a, b, 5);
    ColumnTerms(a, b, 6);
  }

  lemma Columns7To9(a: seq<int64>, b: seq<int64>)
    requires |a| == |b| == 10 && Below(a, 0, 10, SUM) && Below(b, 0, 10, SUM)
    ensures ProductLow(a, b)[7] as int == Column(a, b, 7, 0)
    ensures ProductLow(a, b)[8] as int == Column(a, b, 8, 0)
    ensures ProductLow(a, b)[9] as int == Column(a, b, 9, 0)
  {
    hide M, Times, Column, Below;
    ColumnTerms(a, b, 7);
    ColumnTerms(a, b, 8);
    ColumnTerms(a, b, 9);
  }

  lemma Columns10To13(a: seq<int64>, b: seq<int64>)
    requires |a| == |b| == 10 && Below(a, 0, 10, SUM) && Below(b, 0, 10, SUM)
    ensures ProductHigh(a, b)[0] as int == Column(a, b, 10, 0)
    ensures ProductHigh(a, b)[1] as int == Column(a, b, 11, 0)
    ensures ProductHigh(a, b)[2] as int == Column(a, b, 12, 0)
    ensures ProductHigh(a, b)[3] as int == Column(a, b, 13, 0)
  {
    hide M, Times, Column, Below;
    ColumnTerms(a, b, 10);
    ColumnTerms(a, b, 11);
    ColumnTerms(a, b, 12);
    ColumnTerms(a, b, 13);
  }

  lemma Columns14To18(a: seq<int64>, b: seq<int64>)
    requires |a| == |b| == 10 && Below(a, 0, 10, SUM) && Below(b, 0, 10, SUM)
    ensures ProductHigh(a, b)[4] as int == Column(a, b, 14, 0)
    ensures ProductHigh(a, b)[5] as int == Column(a, b, 15, 0)
    ensures ProductHigh(a, b)[6] as int == Column(a, b, 16, 0)
    ensures ProductHigh(a, b)[7] as int == Column(a, b, 17, 0)
    ensures ProductHigh(a, b)[8] as int == Column(a, b, 18, 0)
  {
    hide M, Times, Column, Below;
    ColumnTerms(a, b, 14);
    ColumnTerms(a, b, 15);
    ColumnTerms(a, b, 16);
    ColumnTerms(a, b, 17);
    ColumnTerms(a, b, 18);
  }

  function SquareLow(a: seq<int64>): (t: seq<int64>)
    requires |a| == 10 && Below(a, 0, 10, SUM)
    ensures t == ProductLow(a, a)
  {
    hide M, Times;
    Commute(a);
    [M(a[0], a[0]),
     2 * M(a[0], a[1]),
     2 * (M(a[1], a[1]) + M(a[0], a[2])),
     2 * (M(a[1], a[2]) + M(a[0], a[3])),
     M(a[2], a[2]) + 4 * M(a[1], a[3]) + 2 * M(a[0], a[4]),
     2 * (M(a[2], a[3]) + M(a[1], a[4]) + M(a[0], a[5])),
     2 * (M(a[3], a[3]) + M(a[2], a[4]) + M(a[0], a[6]) + 2 * M(a[1], a[5])),
     2 * (M(a[3], a[4]) + M(a[2], a[5]) + M(a[1], a[6]) + M(a[0], a[7])),
     M(a[4], a[4]) + 2 * (M(a[2], a[6]) + M(a[0], a[8]) + 2 * (M(a[1], a[7]) + M(a[3], a[5]))),
     2 * (M(a[4], a[5]) + M(a[3], a[6]) + M(a[2], a[7]) + M(a[1], a[8]) + M(a[0], a[9]))]
  }

  function SquareHigh(a: seq<int64>): (t: seq<int64>)
    requires |a| == 10 && Below(a, 0, 10, SUM)
    ensures t == ProductHigh(a, a)
  {
    hide M, Times;
    Commute(a);
    [2 * (M(a[5], a[5]) + M(a[4], a[6]) + M(a[2], a[8]) + 2 * (M(a[3], a[7]) + M(a[1], a[9]))),
     2 * (M(a[5], a[6]) + M(a[4], a[7]) + M(a[3], a[8]) + M(a[2], a[9])),
     M(a[6], a[6]) + 2 * (M(a[4], a[8]) + 2 * (M(a[5], a[7]) + M(a[3], a[9]))),
     2 * (M(a[6], a[7]) + M(a[5], a[8]) + M(a[4], a[9])),
     2 * (M(a[7], a[7]) + M(a[6], a[8]) + 2 * M(a[5], a[9])),
     2 * (M(a[7], a[8]) + M(a[6], a[9])),
     M(a[8], a[8]) + 4 * M(a[7], a[9]),
     2 * M(a[8], a[9]),
     2 * M(a[9], a[9])]
  }

  lemma Commute(a: seq<int64>)
    requires |a| == 10 && Below(a, 0, 10, SUM)
    ensures forall i, j :: 0 <= i < j < 10 ==> M(a[i], a[j]) == M(a[j], a[i])
  {
    forall i, j | 0 <= i < j < 10 ensures M(a[i], a[j]) == M(a[j], a[i]) {
      assert a[i] as int * a[j] as int == a[j] as int * a[i] as int;
    }
  }

  // ----- Limb arrays -----

  ghost function Value(a: array<int64>): int
    requires a.Length >= 10
    reads a
  {
    Sum(a[..], 0, 10)
  }

  // The field element that the first ten limbs stand for.
  ghost function Fe(a: array<int64>): int
    requires a.Length >= 10
    reads a
  {
    Value(a) % P
  }

  ghost predicate Bounded(a: array<int64>, b: int64)
    reads a
  {
    a.Length >= 10 && Below(a[..], 0, 10, b)
  }

  method CopyLimbs(output: array<int64>, at: nat, limbs: seq<int64>)
    requires at + |limbs| <= output.Length
    modifies output
    ensures forall i :: 0 <= i < output.Length ==>
      output[i] == if at <= i < at + |limbs| then limbs[i - at] else old(output[i])
  {
    var j := 0;
    while j < |limbs|
      invariant 0 <= j <= |limbs|
      invariant forall i :: 0 <= i < output.Length ==>
        output[i] == if at <= i < at + j then limbs[i - at] else old(output[i])
    {
      output[at + j] := limbs[j];
      j := j + 1;
    }
  }

  method Put(s: array<int64>, i: nat, x: int64, ghost hi: nat)
    requires i < hi <= s.Length
    modifies s
    ensures s[..] == old(s[..])[i := x]
    ensures Sum(s[..], 0, hi) == old(Sum(s[..], 0, hi)) + Times(x as int - old(s[i]) as int, W(i))
  {
    ghost var t := s[..];
    s[i] := x;
    assert s[..] == t[i := x];
    SumUpdate(t, 0, hi, i, x);
  }

  method FProduct(output: array<int64>, in2: array<int64>, input: array<int64>)
    requires output.Length == 19 && output != in2 && output != input && Bounded(in2, SUM) && Bounded(input, SUM)
    modifies output
    ensures Below(output[..], 0, 19, COLUMN)
    ensures Sum(output[..], 0, 19) == Times(Value(in2), Value(input))
  {
    hide Sum, Times, Column, ProductLow, ProductHigh;
    var a, b := in2[..10], input[..10];
    CopyLimbs(output, 0, ProductLow(a, b));
    CopyLimbs(output, 10, ProductHigh(a, b));
    ProductOf(output[..], a, b);
    SumFrame(a, in2[..], 0, 10);
    SumFrame(b, input[..], 0, 10);
  }

  lemma ProductOf(t: seq<int64>, a: seq<int64>, b: seq<int64>)
    requires |a| == |b| == 10 && Below(a, 0, 10, SUM) && Below(b, 0, 10, SUM) && |t| == 19
    requires forall k :: 0 <= k < 10 ==> t[k] == ProductLow(a, b)[k]
    requires forall k :: 10 <= k < 19 ==> t[k] == ProductHigh(a, b)[k - 10]
    ensures Sum(t, 0, 19) == Times(Sum(a, 0, 10), Sum(b, 0, 10))
  {
    hide Sum, Times, Column, ProductLow, ProductHigh, Below;
    Columns0To3(a, b);
    Columns4To6(a, b);
    Columns7To9(a, b);
    Columns10To13(a, b);
    Columns14To18(a, b);
    SumOfColumns(t, a, b, 0);
    ColumnsProduct(a, b, 0);
  }

  method FSquareInner(output: array<int64>, input: array<int64>)
    requires output.Length == 19 && output != input && Bounded(input, SUM)
    modifies output
    ensures Below(output[..], 0, 19, COLUMN)
    ensures Sum(output[..], 0, 19) == Times(Value(input), Value(input))
  {
    hide Sum, Times, Column, SquareLow, SquareHigh, ProductLow, ProductHigh;
    var a := input[..10];
    CopyLimbs(output, 0, SquareLow(a));
    CopyLimbs(output, 10, SquareHigh(a));
    ProductOf(output[..], a, a);
    SumFrame(a, input[..], 0, 10);
  }

  // The limbs of u from k on have taken in 19 times the limb ten places up; the rest are those of t.
  ghost predicate Folded(u: seq<int64>, t: seq<int64>, k: nat) {
    && |u| == |t| == 19
    && (forall j :: k <= j < 9 ==> u[j] as int == t[j] as int + 19 * t[j + 10] as int)
    && (forall j :: 0 <= j < 19 && !(k <= j < 9) ==> u[j] == t[j])
  }

  // output[k] += output[k + 10] << 4; += << 1; += output[k + 10]
  method AddNineteen(output: array<int64>, k: nat, ghost t: seq<int64>)
    requires k < 9 && Below(t, 0, 19, COLUMN) && Folded(output[..], t, k + 1)
    modifies output
    ensures Folded(output[..], t, k)
    ensures Sum(output[..], 0, 10) == old(Sum(output[..], 0, 10)) + 19 * Times(t[k + 10] as int, W(k))
  {
    hide Sum, Times, W;
    ghost var s := output[..];
    assert s[k] == t[k] && s[k + 10] == t[k + 10];
    output[k] := output[k] + output[k + 10] * 16;
    output[k] := output[k] + output[k + 10] * 2;
    output[k] := output[k] + output[k + 10];
    assert output[..] == s[k := output[k]];
    SumUpdate(s, 0, 10, k, output[k]);
    ScaleTimes(19, t[k + 10] as int, W(k));
  }

  lemma FoldedStart(t: seq<int64>)
    requires |t| == 19
    ensures Folded(t, t, 9)
  {
  }

  lemma FoldedBounds(u: seq<int64>, t: seq<int64>)
    requires Folded(u, t, 0) && Below(t, 0, 19, COLUMN)
    ensures Below(u, 0, 10, 280 * 0x40000000000000)
  {
    forall j | 0 <= j < 9
      ensures -280 * 0x40000000000000 <= u[j] as int <= 280 * 0x40000000000000
    {
      assert u[j] as int == t[j] as int + 19 * t[j + 10] as int;
    }
  }

  lemma ScaleTimes(c: int, x: int, w: int)
    ensures Times(c * x, w) == c * Times(x, w)
  {
  }

  // Each limb from 10 on is worth 19 times itself ten places down.
  method FReduceDegree(output: array<int64>)
    requires output.Length == 19 && Below(output[..], 0, 19, COLUMN)
    modifies output
    ensures Bounded(output, 280 * 0x40000000000000) && Fe(output) == old(Sum(output[..], 0, 19)) % P
  {
    hide Sum, Times, W, Folded, Below;
    ghost var t := output[..];
    HighSum(t);
    SumSplit(t, 0, 10, 19);
    FoldedStart(t);
    AddNineteen(output, 8, t);
    AddNineteen(output, 7, t);
    AddNineteen(output, 6, t);
    AddNineteen(output, 5, t);
    AddNineteen(output, 4, t);
    AddNineteen(output, 3, t);
    AddNineteen(output, 2, t);
    AddNineteen(output, 1, t);
    AddNineteen(output, 0, t);
    FoldedBounds(output[..], t);
    Shift(Sum(t, 0, 19), Sum(output[..], 0, 10), High(t));
  }

  // The top bit of the high word of v, spread over 32 bits.
  function SignWord(v: int64): (sign: uint32)
    ensures sign == if v < 0 then 0xffff_ffff else 0
  {
    var highword := (v as int % 0x1_0000_0000_0000_0000 / 0x1_0000_0000) as uint32;
    if highword / 0x8000_0000 == 1 then 0xffff_ffff else 0
  }

  // div_by_2_26 and div_by_2_25, for any v: adding 2^k - 1 to a negative number makes the shift round to zero.
  function DivBy26(v: int64): (over: int64)
    ensures -0x4000000 < v as int - 0x4000000 * over as int < 0x4000000
    ensures v >= 0 ==> 0 <= over && over as int * 0x4000000 <= v as int
    ensures v < 0 ==> over <= 0 && over as int * 0x4000000 >= v as int
  {
    var roundoff := (SignWord(v) / 64) as int64;
    (v + roundoff) / 0x4000000
  }

  function DivBy25(v: int64): (over: int64)
    ensures -0x2000000 < v as int - 0x2000000 * over as int < 0x2000000
    ensures v >= 0 ==> 0 <= over && over as int * 0x2000000 <= v as int
    ensures v < 0 ==> over <= 0 && over as int * 0x2000000 >= v as int
  {
    var roundoff := (SignWord(v) / 128) as int64;
    (v + roundoff) / 0x2000000
  }

  // over = div_by_2_26(output[i]); output[i] -= over << 26; output[i + 1] += over
  method Carry26(output: array<int64>, i: nat, ghost b: int, ghost c: int)
    requires i % 2 == 0 && i < 10 && output.Length == 19
    requires 0 <= b <= 281 * 0x40000000000000 && -b <= output[i] as int <= b
    requires 0 <= c <= 280 * 0x40000000000000 && -c <= output[i + 1] as int <= c
    modifies output
    ensures output[..] == old(output[..])[i := output[i]][i + 1 := output[i + 1]]
    ensures -0x4000000 < output[i] < 0x4000000
    ensures -c - b / 0x4000000 - 1 <= output[i + 1] as int <= c + b / 0x4000000 + 1
    ensures Sum(output[..], 0, 11) == old(Sum(output[..], 0, 11))
  {
    hide Sum, Times, W;
    var over := DivBy26(output[i]);
    Put(output, i, output[i] - over * 0x4000000, 11);
    Put(output, i + 1, output[i + 1] + over, 11);
    NextWeight(i + 1);
    CarryCancels(over as int, 0x4000000, W(i));
  }

  // over = div_by_2_25(output[i]); output[i] -= over << 25; output[i + 1] += over
  method Carry25(output: array<int64>, i: nat, ghost b: int, ghost c: int)
    requires i % 2 == 1 && i < 10 && output.Length == 19
    requires 0 <= b <= 281 * 0x40000000000000 && -b <= output[i] as int <= b
    requires 0 <= c <= 280 * 0x40000000000000 && -c <= output[i + 1] as int <= c
    modifies output
    ensures output[..] == old(output[..])[i := output[i]][i + 1 := output[i + 1]]
    ensures -0x2000000 < output[i] < 0x2000000
    ensures -c - b / 0x2000000 - 1 <= output[i + 1] as int <= c + b / 0x2000000 + 1
    ensures Sum(output[..], 0, 11) == old(Sum(output[..], 0, 11))
  {
    hide Sum, Times, W;
    var over := DivBy25(output[i]);
    Put(output, i, output[i] - over * 0x2000000, 11);
    Put(output, i + 1, output[i + 1] + over, 11);
    NextWeight(i + 1);
    CarryCancels(over as int, 0x2000000, W(i));
  }

  lemma CarryCancels(c: int, k: int, w: int)
    ensures Times(-(c * k), w) + Times(c, k * w) == 0
  {
    assert c * (k * w) == (c * k) * w;
    assert (-(c * k)) * w == -((c * k) * w);
  }

  // Limbs lo to hi have been carried: 26 bits at even places, 25 at odd ones.
  ghost predicate Carried(s: seq<int64>, hi: nat) {
    forall j :: 0 <= j < hi && j < |s| ==>
      if j % 2 == 0 then -0x4000000 < s[j] < 0x4000000 else -0x2000000 < s[j] < 0x2000000
  }

  // One round of the loop, on limbs i and i + 1.
  method CarryPair(output: array<int64>, i: nat)
    requires i % 2 == 0 && i < 10 && output.Length == 19 && Carried(output[..], i)
    requires Below(output[..], i, i + 1, 281 * 0x40000000000000) && Below(output[..], i + 1, 10, 280 * 0x40000000000000)
    requires output[10] == 0
    modifies output
    ensures Carried(output[..], i + 2) && Sum(output[..], 0, 11) == old(Sum(output[..], 0, 11))
    ensures Below(output[..], i + 3, 10, 280 * 0x40000000000000)
    ensures i < 8 ==> Below(output[..], i + 2, i + 3, 281 * 0x40000000000000) && output[10] == 0
    ensures i == 8 ==> -0x2320000001 <= output[10] <= 0x2320000001
  {
    hide Sum;
    Carry26(output, i, 281 * 0x40000000000000, 280 * 0x40000000000000);
    Carry25(output, i + 1, 281 * 0x40000000000000, if i == 8 then 0 else 280 * 0x40000000000000);
  }

  method FReduceCoefficients(output: array<int64>)
    requires output.Length == 19 && Bounded(output, 280 * 0x40000000000000)
    modifies output
    ensures Bounded(output, REDUCED) && Fe(output) == old(Fe(output))
  {
    hide Sum, Times, W;
    ghost var t := output[..];
    output[10] := 0;
    TenLimbs(t, output[..]);
    var i := 0;
    while i < 10
      invariant 0 <= i <= 10 && i % 2 == 0 && Carried(output[..], i)
      invariant Sum(output[..], 0, 11) == Sum(t, 0, 10)
      invariant i < 10 ==> Below(output[..], i, i + 1, 281 * 0x40000000000000) && output[10] == 0
      invariant Below(output[..], i + 1, 10, 280 * 0x40000000000000)
      invariant i == 10 ==> -0x2320000001 <= output[10] <= 0x2320000001
    {
      CarryPair(output, i);
      i := i + 2;
    }
    FoldTenth(output);
    ghost var u := output[..];
    Carry26(output, 0, 0x29c64000013, 0x2000000);
    TenLimbs(output[..], output[..]);
  }

  // output[0] += output[10] << 4; << 1; output[10]; output[10] = 0
  method FoldTenth(output: array<int64>)
    requires output.Length == 19 && Carried(output[..], 10) && -0x2320000001 <= output[10] <= 0x2320000001
    modifies output
    ensures output[..] == old(output[..])[0 := output[0]][10 := 0] && -0x29c64000013 <= output[0] <= 0x29c64000013
    ensures Sum(output[..], 0, 11) % P == old(Sum(output[..], 0, 11)) % P
  {
    hide Sum, Times, W;
    ghost var t := output[..];
    output[0] := output[0] + output[10] * 16;
    output[0] := output[0] + output[10] * 2;
    output[0] := output[0] + output[10];
    output[10] := 0;
    assert output[..] == t[0 := output[0]][10 := 0];
    SumUpdate(t, 0, 11, 0, output[0]);
    SumUpdate(t[0 := output[0]], 0, 11, 10, 0);
    TenthWeight(t[10] as int);
    Shift(Sum(t, 0, 11), Sum(output[..], 0, 11), t[10] as int);
  }

  lemma TenthWeight(x: int)
    ensures Times(19 * x, W(0)) == 19 * x && Times(-x, W(10)) == -(P + 19) * x
  {
    Weight10();
  }

  lemma TenLimbs(t: seq<int64>, u: seq<int64>)
    requires |t| == |u| == 19 && u[10] == 0 && forall j :: 0 <= j < 10 ==> u[j] == t[j]
    ensures Sum(u, 0, 11) == Sum(t, 0, 10)
  {
    SumSplit(u, 0, 10, 11);
    SumFrame(u, t, 0, 10);
    assert Sum(u, 10, 11) == Times(0, W(10)) + Sum(u, 11, 11);
  }

  // ----- Field operations -----

  method FSum(output: array<int64>, input: array<int64>)
    requires Bounded(output, REDUCED) && Bounded(input, REDUCED) && output != input
    modifies output
    ensures Bounded(output, SUM) && Fe(output) == Add(old(Fe(output)), Fe(input))
  {
    hide Sum, Add;
    ghost var t := output[..];
    var i := 0;
    while i < 10
      invariant 0 <= i <= 10 && i % 2 == 0 && output.Length == |t|
      invariant forall j :: 0 <= j < i ==> output[j] == t[j] + input[j]
      invariant forall j :: i <= j < |t| ==> output[j] == t[j]
    {
      output[i] := output[i] + input[i];
      output[i + 1] := output[i + 1] + input[i + 1];
      i := i + 2;
    }
    SumPlus(output[..], t, input[..], 0);
    AddResidues(Sum(t, 0, 10), Value(input));
  }

  method FDifference(output: array<int64>, input: array<int64>)
    requires Bounded(output, REDUCED) && Bounded(input, REDUCED) && output != input
    modifies output
    ensures Bounded(output, SUM) && Fe(output) == Sub(Fe(input), old(Fe(output)))
  {
    hide Sum, Sub;
    ghost var t := output[..];
    var i := 0;
    while i < 10
      invariant 0 <= i <= 10 && output.Length == |t|
      invariant forall j :: 0 <= j < i ==> output[j] == input[j] - t[j]
      invariant forall j :: i <= j < |t| ==> output[j] == t[j]
    {
      output[i] := input[i] - output[i];
      i := i + 1;
    }
    SumPlus(input[..], output[..], t, 0);
    SubResidues(Value(input), Sum(t, 0, 10));
  }

  method FScalarProduct(output: array<int64>, input: array<int64>, scalar: int64)
    requires output.Length >= 10 && Bounded(input, SUM) && 0 <= scalar <= 0x20000 && output != input
    modifies output
    ensures Bounded(output, 0x1000_0000_0000) && Fe(output) == Mul(scalar as int, Fe(input))
  {
    hide Sum, Mul, Times;
    var i := 0;
    while i < 10
      invariant 0 <= i <= 10
      invariant forall j :: 0 <= j < i ==> output[j] as int == Times(scalar as int, input[j] as int)
      invariant Below(output[..], 0, i, 0x1000_0000_0000)
    {
      ScalarBound(input[i] as int, scalar as int);
      output[i] := input[i] * scalar;
      i := i + 1;
    }
    SumScaled(output[..], input[..], scalar as int, 0);
    ScaledResidue(scalar as int, Value(input));
  }

  lemma ScaledResidue(c: int, v: int)
    ensures Times(c, v) % P == Mul(c, v % P)
  {
    ProductShift(v, c);
  }

  lemma ScalarBound(x: int, c: nat)
    requires -SUM as int <= x <= SUM as int && c <= 0x20000
    ensures -0x1000_0000_0000 <= x * c <= 0x1000_0000_0000 && x * c == Times(c, x)
  {
    MulMonotone(c, x, SUM as int);
    MulMonotone(c, -x, SUM as int);
    MulMonotone(SUM as int, c, 0x20000);
  }

  // memcpy of ten limbs
  method Copy(output: array<int64>, input: array<int64>)
    requires output.Length >= 10 && input.Length >= 10 && output != input
    modifies output
    ensures Fe(output) == Fe(input)
    ensures forall j :: 0 <= j < 10 ==> output[j] == input[j]
    ensures Bounded(input, REDUCED) ==> Bounded(output, REDUCED)
  {
    hide Sum;
    CopyLimbs(output, 0, input[..10]);
    SumFrame(output[..], input[..], 0, 10);
  }

  method FMul(output: array<int64>, input: array<int64>, in2: array<int64>)
    requires output.Length >= 10 && Bounded(input, SUM) && Bounded(in2, SUM)
    modifies output
    ensures Bounded(output, REDUCED) && Fe(output) == Mul(old(Fe(input)), old(Fe(in2)))
  {
    hide Sum, Mul, Times;
    var t := new int64[19];
    FProduct(t, input, in2);
    ResidueOfProduct(Value(input), Value(in2));
    FReduceDegree(t);
    FReduceCoefficients(t);
    Copy(output, t);
  }

  lemma ResidueOfProduct(x: int, y: int)
    ensures Times(x, y) % P == Mul(x % P, y % P)
  {
    MulResidues(x, y);
  }

  method FSquare(output: array<int64>, input: array<int64>)
    requires output.Length >= 10 && Bounded(input, SUM)
    modifies output
    ensures Bounded(output, REDUCED) && Fe(output) == Pow(old(Fe(input)), 2)
  {
    hide Sum, Mul, Times;
    var t := new int64[19];
    FSquareInner(t, input);
    ResidueOfProduct(Value(input), Value(input));
    PowTwo(Fe(input));
    FReduceDegree(t);
    FReduceCoefficients(t);
    Copy(output, t);
  }
}
