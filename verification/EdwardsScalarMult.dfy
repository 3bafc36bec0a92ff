// The scalar multiplications of curve25519/boringssl/curve25519.c over any abelian group: the
// variable-time double multiplication, the fixed-base multiplication with signed radix-16 digits
// and the fixed 4-bit window. The precomputed tables are parameters that hold the multiples
// their comments say.
module EdwardsScalarMult {
  import opened Words
  import opened Bits
  import opened Bytes
  import opened AbelianGroup
  import opened Recoding

  // ----- The multiples and sums that the loops keep -----

  lemma AddMultiple<T(!new)>(g: Group<T>, m: int, d: int, x: T, y: T)
    requires Abelian(g)
    ensures g.add(g.add(Mul(g, m, x), y), Mul(g, d, x)) == g.add(Mul(g, m + d, x), y)
  {
    hide Mul;
    MulPlus(g, m, d, x);
    Associate(g, Mul(g, m, x), y, Mul(g, d, x));
    assert Commutative(g, y, Mul(g, d, x));
    Associate(g, Mul(g, m, x), Mul(g, d, x), y);
  }

  lemma NegatedMultiple<T(!new)>(g: Group<T>, d: int, x: T)
    requires Abelian(g)
    ensures g.neg(Mul(g, d, x)) == Mul(g, -d, x)
  {
    hide Mul;
    MulMinus(g, 0, d, x);
    MulOne(g, x);
    ZeroLeft(g, g.neg(Mul(g, d, x)));
  }

  // m x + n y
  ghost function Combination<T>(g: Group<T>, m: int, x: T, n: int, y: T): T {
    g.add(Mul(g, m, x), Mul(g, n, y))
  }

  // 2 (m x + n y) = 2m x + 2n y
  lemma DoubleSum<T(!new)>(g: Group<T>, m: int, n: int, x: T, y: T)
    requires Abelian(g)
    ensures Double(g, Combination(g, m, x, n, y)) == Combination(g, 2 * m, x, 2 * n, y)
  {
    hide Mul;
    MulDouble(g, m, x);
    MulDouble(g, n, y);
    Combine(g, Mul(g, m, x), Mul(g, n, y), Mul(g, m, x), Mul(g, n, y));
  }

  // ----- ge_double_scalarmult_vartime -----

  // x, 3x, 5x, ..., 15x
  ghost predicate OddMultiples<T>(g: Group<T>, t: seq<T>, x: T) {
    |t| == 8 && forall j :: 0 <= j < 8 ==> t[j] == Mul(g, 2 * j + 1, x)
  }

  // x25519_ge_add(&t, &A2, &Ai[k]), the next odd multiple
  method NextOdd<T(!new)>(g: Group<T>, x2: T, y: T, ghost k: nat, ghost x: T) returns (t: T)
    requires Abelian(g) && x2 == Mul(g, 2, x) && y == Mul(g, 2 * k + 1, x)
    ensures t == Mul(g, 2 * (k + 1) + 1, x)
  {
    hide *;
    t := g.add(x2, y);
    MulPlus(g, 2, 2 * k + 1, x);
  }

  method OddTable<T(!new)>(g: Group<T>, x: T) returns (t: seq<T>)
    requires Abelian(g)
    ensures OddMultiples(g, t, x)
  {
    hide Mul, Double;
    var x2 := Double(g, x);
    MulOne(g, x);
    MulDouble(g, 1, x);
    var x3 := NextOdd(g, x2, x, 0, x);
    var x5 := NextOdd(g, x2, x3, 1, x);
    var x7 := NextOdd(g, x2, x5, 2, x);
    var x9 := NextOdd(g, x2, x7, 3, x);
    var x11 := NextOdd(g, x2, x9, 4, x);
    var x13 := NextOdd(g, x2, x11, 5, x);
    var x15 := NextOdd(g, x2, x13, 6, x);
    t := [x, x3, x5, x7, x9, x11, x13, x15];
  }

  // One digit of one scalar: t + d x, with d x looked up.
  method AddDigit<T(!new)>(g: Group<T>, t: T, d: int8, table: seq<T>, ghost x: T) returns (r: T)
    requires Abelian(g) && SlideDigit(d) && OddMultiples(g, table, x)
    ensures r == g.add(t, Mul(g, d as int, x))
  {
    hide Mul;
    r := t;
    if d > 0 {
      r := g.add(t, table[d / 2]);
    } else if d < 0 {
      r := Subtract(g, t, table[-d / 2]);
      NegatedMultiple(g, -d as int, x);
    } else {
      MulOne(g, x);
      ZeroRight(g, t);
    }
  }

  lemma NoDigits<T(!new)>(g: Group<T>, a: seq<int8>, b: seq<int8>, x: T, y: T, i: nat)
    requires Abelian(g) && |a| == |b| && i <= |a|
    requires forall j :: i <= j < |a| ==> a[j] == 0 && b[j] == 0
    ensures g.zero == Combination(g, Horner(a[i..], 2), x, Horner(b[i..], 2), y)
  {
    hide Mul, Horner;
    ZeroDigits(a[i..], 2);
    ZeroDigits(b[i..], 2);
    MulOne(g, x);
    MulOne(g, y);
    ZeroRight(g, g.zero);
  }

  // One round of the main loop: 2 r + a_i A + b_i B
  method TakeDigits<T(!new)>(g: Group<T>, r: T, da: int8, db: int8, Ai: seq<T>, Bi: seq<T>,
                             ghost A: T, ghost B: T, ghost m: int, ghost n: int)
      returns (t: T)
    requires Abelian(g) && SlideDigit(da) && SlideDigit(db) && OddMultiples(g, Ai, A) && OddMultiples(g, Bi, B)
    requires r == Combination(g, m, A, n, B)
    ensures t == Combination(g, da as int + 2 * m, A, db as int + 2 * n, B)
  {
    hide Mul, Double;
    DoubleSum(g, m, n, A, B);
    t := Double(g, r);
    AddMultiple(g, 2 * m, da as int, A, Mul(g, 2 * n, B));
    t := AddDigit(g, t, da, Ai, A);
    Associate(g, Mul(g, 2 * m + da as int, A), Mul(g, 2 * n, B), Mul(g, db as int, B));
    MulPlus(g, 2 * n, db as int, B);
    t := AddDigit(g, t, db, Bi, B);
  }

  // The first loop: the highest index with a nonzero digit, or -1.
  method HighestDigit(aslide: seq<int8>, bslide: seq<int8>) returns (i: int)
    requires |aslide| == |bslide| == 256
    ensures -1 <= i <= 255 && forall j :: i < j < 256 ==> aslide[j] == 0 && bslide[j] == 0
  {
    i := 255;
    while i >= 0
      invariant -1 <= i <= 255
      invariant forall j :: i < j < 256 ==> aslide[j] == 0 && bslide[j] == 0
    {
      if aslide[i] != 0 || bslide[i] != 0 {
        break;
      }
      i := i - 1;
    }
  }

  // The second loop: the result doubles and takes in one digit of each scalar.
  method DoubleAndAddDigits<T(!new)>(g: Group<T>, aslide: seq<int8>, bslide: seq<int8>, Ai: seq<T>, Bi: seq<T>,
                                     ghost A: T, ghost B: T)
      returns (r: T)
    requires Abelian(g) && |aslide| == |bslide| == 256
    requires forall j :: 0 <= j < 256 ==> SlideDigit(aslide[j]) && SlideDigit(bslide[j])
    requires OddMultiples(g, Ai, A) && OddMultiples(g, Bi, B)
    ensures r == Combination(g, Horner(aslide, 2), A, Horner(bslide, 2), B)
  {
    hide *;
    r := g.zero;
    var i := HighestDigit(aslide, bslide);
    NoDigits(g, aslide, bslide, A, B, i + 1);
    ghost var m, n := Horner(aslide[i + 1..], 2), Horner(bslide[i + 1..], 2);
    while i >= 0
      invariant -1 <= i <= 255 && m == Horner(aslide[i + 1..], 2) && n == Horner(bslide[i + 1..], 2)
      invariant r == Combination(g, m, A, n, B)
    {
      PeelDigit(aslide, 2, i);
      PeelDigit(bslide, 2, i);
      TimesTwo(m);
      TimesTwo(n);
      r := TakeDigits(g, r, aslide[i], bslide[i], Ai, Bi, A, B, m, n);
      m, n := aslide[i] as int + 2 * m, bslide[i] as int + 2 * n;
      i := i - 1;
    }
  }

  // The result for all 32-byte scalars: each lost carry takes 2^256 off its scalar. It is a A + b B
  // exactly when what is taken off multiplies to zero, as it does when no carry is lost.
  method GeDoubleScalarmultVartime<T(!new)>(g: Group<T>, a: array<uint8>, A: T, b: array<uint8>, Bi: seq<T>, ghost B: T)
      returns (r: T)
    requires Abelian(g) && a.Length == b.Length == 32 && OddMultiples(g, Bi, B)
    ensures r == Combination(g, DigitSum(Le(a[..])), A, DigitSum(Le(b[..])), B)
    ensures r == Combination(g, Le(a[..]), A, Le(b[..]), B) <==>
      Combination(g, LostPart(Le(a[..])), A, LostPart(Le(b[..])), B) == g.zero
    ensures !Lost(Le(a[..]), 256) && !Lost(Le(b[..]), 256) ==> r == Combination(g, Le(a[..]), A, Le(b[..]), B)
    ensures Le(a[..]) <= Pow2(255) && Le(b[..]) <= Pow2(255) ==>
      r == Combination(g, Le(a[..]), A, Le(b[..]), B)
  {
    hide Mul, Horner, Le, Pow2, Double, OddMultiples, Lost, Combination;
    var aslide, bslide := new int8[256], new int8[256];
    Slide(aslide, a);
    Slide(bslide, b);
    var Ai := OddTable(g, A);
    r := DoubleAndAddDigits(g, aslide[..], bslide[..], Ai, Bi, A, B);
    WithoutLostParts(g, Le(a[..]), A, Le(b[..]), B);
  }

  // What a lost carry takes off the number n.
  function LostPart(n: nat): int { if Lost(n, 256) then Pow2(256) else 0 }

  lemma WithoutLostParts<T(!new)>(g: Group<T>, m: nat, x: T, n: nat, y: T)
    requires Abelian(g)
    ensures Combination(g, DigitSum(m), x, DigitSum(n), y) == Combination(g, m, x, n, y) <==>
      Combination(g, LostPart(m), x, LostPart(n), y) == g.zero
  {
    hide Mul, Pow2, Lost;
    MulPlus(g, DigitSum(m), LostPart(m), x);
    MulPlus(g, DigitSum(n), LostPart(n), y);
    var s, l := Combination(g, DigitSum(m), x, DigitSum(n), y), Combination(g, LostPart(m), x, LostPart(n), y);
    Combine(g, Mul(g, DigitSum(m), x), Mul(g, LostPart(m), x), Mul(g, DigitSum(n), y), Mul(g, LostPart(n), y));
    assert Combination(g, m, x, n, y) == g.add(s, l);
    ZeroRight(g, s);
    if g.add(s, l) == s {
      assert Commutative(g, s, l) && Neutral(g, s);
      Undo(g, l, s);
      assert Subtract(g, g.add(l, s), s) == l;
    }
  }

  // ----- x25519_ge_scalarmult_base -----

  // k25519Precomp[p][j] = (j + 1) 256^p B
  ghost predicate BaseTable<T>(g: Group<T>, table: seq<seq<T>>, B: T) {
    |table| == 32 && (forall p :: 0 <= p < 32 ==> |table[p]| == 8)
    && forall p, j :: 0 <= p < 32 && 0 <= j < 8 ==> table[p][j] == Mul(g, (j + 1) * Weight(256, p), B)
  }

  // b 256^pos B
  method TableSelect<T(!new)>(g: Group<T>, table: seq<seq<T>>, pos: nat, b: int8, ghost B: T) returns (t: T)
    requires Abelian(g) && BaseTable(g, table, B) && pos < 32 && -8 <= b <= 8
    ensures t == Mul(g, b as int * Weight(256, pos), B)
  {
    hide Mul, Weight;
    var bnegative := b < 0;
    var babs := if bnegative then -b else b;
    t := g.zero;
    MulOne(g, B);
    var i := 0;
    while i < 8
      invariant 0 <= i <= 8
      invariant t == if 0 < babs as int <= i then table[pos][babs - 1] else g.zero
    {
      if babs as int == 1 + i {
        t := table[pos][i];
      }
      i := i + 1;
    }
    assert t == Mul(g, babs as int * Weight(256, pos), B);
    var minust := g.neg(t);
    NegatedMultiple(g, babs as int * Weight(256, pos), B);
    if bnegative {
      t := minust;
    }
  }

  // The digits at even places (start = 0) or odd places (start = 1) below 2j, in base 256.
  ghost function Every(e: seq<int8>, start: nat, j: nat): int
    requires start <= 1 && 2 * j <= |e|
  {
    if j == 0 then 0 else Every(e, start, j - 1) + e[2 * (j - 1) + start] as int * Weight(256, j - 1)
  }

  lemma {:induction false} EvenAndOdd(e: seq<int8>, j: nat)
    requires 2 * j <= |e|
    ensures Horner(e[..2 * j], 16) == Every(e, 0, j) + 16 * Every(e, 1, j)
  {
    if j > 0 {
      EvenAndOdd(e, j - 1);
      var i := 2 * (j - 1);
      var t := e[..2 * j];
      assert t[..i] == e[..i];
      HornerSplit(t, 16, i);
      PeelDigit(t, 16, i);
      PeelDigit(t, 16, i + 1);
      assert t[i + 2..] == [];
      SquaredWeight(j - 1);
      assert Horner(t[i..], 16) == e[i] as int + 16 * e[i + 1] as int;
      var w := Weight(256, j - 1);
      assert w * (e[i] as int + 16 * e[i + 1] as int) == e[i] as int * w + 16 * (e[i + 1] as int * w);
    }
  }

  lemma {:induction false} SquaredWeight(j: nat)
    ensures Weight(16, 2 * j) == Weight(256, j)
  {
    if j > 0 {
      SquaredWeight(j - 1);
      assert Weight(16, 2 * j) == 16 * Weight(16, 2 * j - 1) == 256 * Weight(16, 2 * j - 2);
    }
  }

  // One pass over the even or the odd digits: h + (sum of e_i 256^(i/2)) B
  method AddEvery<T(!new)>(g: Group<T>, h: T, e: seq<int8>, start: nat, table: seq<seq<T>>, ghost m: int, ghost B: T)
      returns (r: T)
    requires Abelian(g) && BaseTable(g, table, B) && |e| == 64 && start <= 1
    requires forall i :: 0 <= i < 64 ==> -8 <= e[i] <= 8
    requires h == Mul(g, m, B)
    ensures r == Mul(g, m + Every(e, start, 32), B)
  {
    hide Mul, Abelian, BaseTable, Weight;
    r := h;
    var i := start;
    while i < 64
      invariant start <= i <= 64 + start && i % 2 == start
      invariant r == Mul(g, m + Every(e, start, i / 2), B)
    {
      var t := TableSelect(g, table, i / 2, e[i], B);
      MulPlus(g, m + Every(e, start, i / 2), e[i] as int * Weight(256, i / 2), B);
      r := g.add(r, t);
      i := i + 2;
    }
  }

  method X25519GeScalarmultBase<T(!new)>(g: Group<T>, a: array<uint8>, table: seq<seq<T>>, ghost B: T) returns (h: T)
    requires Abelian(g) && BaseTable(g, table, B) && a.Length == 32 && a[31] <= 127
    ensures h == Mul(g, Le(a[..]), B)
  {
    hide Mul, Abelian, BaseTable, Weight, Double, Every, Horner, Le;
    var e := RadixSixteen(a);
    ghost var odd := Every(e[..], 1, 32);
    h := g.zero;
    MulOne(g, B);
    h := AddEvery(g, h, e[..], 1, table, 0, B);
    h := FourDoublings(g, h, odd, B);
    h := AddEvery(g, h, e[..], 0, table, 16 * odd, B);
    EvenAndOdd(e[..], 32);
    assert e[..][..64] == e[..];
  }

  // ----- x25519_ge_scalarmult -----

  ghost predicate Multiples<T>(g: Group<T>, t: seq<T>, x: T) {
    forall j :: 0 <= j < |t| ==> t[j] == Mul(g, j, x)
  }

  // 2x and A + 2x
  method NextPair<T(!new)>(g: Group<T>, x: T, ghost i: nat, A: T) returns (t: (T, T))
    requires Abelian(g) && i % 2 == 0 && x == Mul(g, i / 2, A)
    ensures t == (Mul(g, i, A), Mul(g, i + 1, A))
  {
    hide Mul, Double;
    MulOne(g, A);
    MulDouble(g, i / 2, A);
    MulPlus(g, 1, i, A);
    var even := Double(g, x);
    t := (even, g.add(A, even));
  }

  // 0, A, 2A, ..., 15A. Even multiples double an entry of Ai_p2, odd ones add A.
  method WindowTable<T(!new)>(g: Group<T>, A: T) returns (Ai: seq<T>)
    requires Abelian(g)
    ensures |Ai| == 16 && Multiples(g, Ai, A)
  {
    hide Mul, Double;
    MulOne(g, A);
    Ai := [g.zero, A];
    var p2 := [g.zero, A];
    var i := 2;
    while i < 16
      invariant 2 <= i <= 16 && i % 2 == 0 && |Ai| == i && |p2| == (if i < 8 then i else 8)
      invariant Multiples(g, Ai, A) && Multiples(g, p2, A)
    {
      var t := NextPair(g, p2[i / 2], i, A);
      Ai := Ai + [t.0, t.1];
      if i < 8 {
        p2 := p2 + [t.0];
      }
      if i < 7 {
        p2 := p2 + [t.1];
      }
      i := i + 2;
    }
  }

  // The conditional moves over the whole table.
  method SelectEntry<T>(g: Group<T>, Ai: seq<T>, index: uint8) returns (selected: T)
    requires |Ai| == 16 && index < 16
    ensures selected == Ai[index]
  {
    selected := g.zero;
    var j := 0;
    while j < 16
      invariant 0 <= j <= 16 && (index as int < j ==> selected == Ai[index])
    {
      if index as int == j {
        selected := Ai[j];
      }
      j := j + 1;
    }
  }

  // (scalar[31 - i/8] >> (4 - (i & 4))) & 0xf for a multiple i of 4
  function WindowIndex(scalar: seq<uint8>, i: nat): (index: uint8)
    requires |scalar| == 32 && i < 256 && i % 4 == 0
    ensures index < 16
  {
    (scalar[31 - i / 8] as int / Pow2(4 - i % 8) % 16) as uint8
  }

  lemma NextWindow(scalar: seq<uint8>, i: nat)
    requires |scalar| == 32 && i < 256 && i % 4 == 0
    ensures Le(scalar) / Pow2(252 - i) == 16 * (Le(scalar) / Pow2(256 - i)) + WindowIndex(scalar, i) as int
  {
    hide Le, Pow256, Pow2;
    var m, r := 31 - i / 8, 4 - i % 8;
    var n, v := Le(scalar), Le(scalar) / Pow256(m);
    ByteAt(scalar, m);
    Pow256IsPow2(m);
    Pow2Add(8 * m, r);
    assert 8 * m + r == 252 - i;
    DivDiv(n, Pow256(m), Pow2(r));
    SmallPow2();
    Extract(v, Pow2(r), 16, Pow2(4 - r));
    Pow2Add(r, 4 - r);
    ByteModulus16(Pow2(r), Pow2(4 - r));
    Pow2Add(252 - i, 4);
    DivDiv(n, Pow2(252 - i), 16);
  }

  lemma ByteModulus16(a: nat, b: nat)
    requires a * b == 16
    ensures a * 16 * b == 256
  {
  }

  method X25519GeScalarmult<T(!new)>(g: Group<T>, scalar: seq<uint8>, A: T) returns (r: T)
    requires Abelian(g) && |scalar| == 32
    ensures r == Mul(g, Le(scalar), A)
  {
    hide Mul, Double, Le, Pow2, Pow256, WindowIndex;
    var Ai := WindowTable(g, A);
    ghost var n := Le(scalar);
    r := g.zero;
    MulOne(g, A);
    LeBound(scalar);
    Pow256IsPow2(32);
    DivModUnique(n, Pow2(256), 0, n);
    var i := 0;
    while i < 256
      invariant 0 <= i <= 256 && i % 4 == 0
      invariant r == Mul(g, n / Pow2(256 - i), A)
    {
      var u := FourDoublings(g, r, n / Pow2(256 - i), A);
      var index := WindowIndex(scalar, i);
      var selected := SelectEntry(g, Ai, index);
      NextWindow(scalar, i);
      MulPlus(g, 16 * (n / Pow2(256 - i)), index as int, A);
      r := g.add(u, selected);
      i := i + 4;
    }
    DivByOne(n);
  }

  method FourDoublings<T(!new)>(g: Group<T>, r: T, ghost m: int, ghost A: T) returns (u: T)
    requires Abelian(g) && r == Mul(g, m, A)
    ensures u == Mul(g, 16 * m, A)
  {
    hide *;
    MulDouble(g, m, A);
    u := Double(g, r);
    MulDouble(g, 2 * m, A);
    u := Double(g, u);
    MulDouble(g, 4 * m, A);
    u := Double(g, u);
    MulDouble(g, 8 * m, A);
    u := Double(g, u);
  }
}
