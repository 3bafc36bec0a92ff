// Machine words as vectors of 32 bits: the sum modulo 2^32, the exclusive-or of the module Bits and
// the rotations, told by the operators on bit vectors.
module BitVectors {
  import opened Words
  import opened Bits

  // The bits of a word.
  function Vector(w: uint32): bv32 { w as int as bv32 }

  // The number of a vector.
  function Num(x: bv32): nat { x as nat }

  lemma VectorNumber(w: uint32)
    ensures Num(Vector(w)) == w as nat
  {
    BitsOfWord(w as nat);
  }

  // A number below 2^32 survives the way to 32 bits and back: its four bytes make up a bit vector
  // with that value.
  lemma BitsOfWord(n: nat)
    requires n < 0x1_0000_0000
    ensures n as bv32 as nat == n
  {
    var w, h := n / 0x100, n / 0x10000;
    assert w < 0x100_0000 && h < 0x10000 && w / 0x100 == h;
    BitsOfBytes(h / 0x100, h % 0x100, w % 0x100, n % 0x100, n);
  }

  lemma BitsOfBytes(b3: nat, b2: nat, b1: nat, b0: nat, n: nat)
    requires b3 < 0x100 && b2 < 0x100 && b1 < 0x100 && b0 < 0x100
    requires n == 0x1000000 * b3 + 0x10000 * b2 + 0x100 * b1 + b0
    ensures n < 0x1_0000_0000 && n as bv32 as nat == n
  {
    var v3, v2, v1, v0 := ByteBits(b3), ByteBits(b2), ByteBits(b1), ByteBits(b0);
    JoinedBytes(v3, v2, v1, v0);
    FromBits(((v3 as bv32) << 24) | ((v2 as bv32) << 16) | ((v1 as bv32) << 8) | (v0 as bv32), n);
  }

  lemma JoinedBytes(b3: bv8, b2: bv8, b1: bv8, b0: bv8)
    ensures (((b3 as bv32) << 24) | ((b2 as bv32) << 16) | ((b1 as bv32) << 8) | (b0 as bv32)) as nat
      == 0x1000000 * b3 as nat + 0x10000 * b2 as nat + 0x100 * b1 as nat + b0 as nat
  {
  }

  // A bit vector for every byte, from its two halves.
  function ByteBits(n: nat): (v: bv8)
    requires n < 0x100
    ensures v as nat == n
  {
    HalfByte(n / 16);
    HalfByte(n % 16);
    var high, low := (n / 16) as bv4, (n % 16) as bv4;
    JoinedHalves(high, low);
    ((high as bv8) << 4) | (low as bv8)
  }

  lemma HalfByte(n: nat)
    requires n < 16
    ensures n as bv4 as nat == n
  {
  }

  lemma JoinedHalves(a: bv4, b: bv4)
    ensures (((a as bv8) << 4) | (b as bv8)) as nat == 16 * a as nat + b as nat
  {
  }

  lemma FromBits(x: bv32, n: nat)
    requires x as nat == n
    ensures n as bv32 == x
  {
  }

  // A word is known by its bits, and its bits by their number.
  lemma VectorOf(x: bv32, w: uint32)
    requires Num(x) == w as nat
    ensures Vector(w) == x
  {
    FromBits(x, w as nat);
  }

  // ----- Bit by bit -----

  // The lowest bit of a vector, the bits above it, and the vector these two make up.
  // The proofs below name what they build on these, and leave their bodies to the lemmas about one bit.
  function Low(x: bv32): bv32 { x & 1 }

  function High(x: bv32): bv32 { x >> 1 }

  function Join(h: bv32, b: bv32): bv32 { (h << 1) | b }

  predicate Short(x: bv32) { x >> 31 == 0 }

  lemma Bounded(x: bv32)
    ensures Num(x) < 0x1_0000_0000
  {
  }

  lemma BitValue(b: bv32)
    requires b == 0 || b == 1
    ensures Num(b) == if b == 1 then 1 else 0
  {
  }

  lemma Halves(x: bv32)
    ensures x == Join(High(x), Low(x)) && Short(High(x)) && (Low(x) == 0 || Low(x) == 1)
  {
  }

  lemma Parts(h: bv32, b: bv32) returns (w: bv31, c: bv1)
    requires Short(h) && (b == 0 || b == 1)
    ensures h == w as bv32 && b == c as bv32
  {
    w, c := h as bv31, b as bv1;
  }

  lemma NumOfParts(w: bv31, c: bv1)
    ensures Num(Join(w as bv32, c as bv32)) == 2 * Num(w as bv32) + Num(c as bv32)
  {
  }

  // One more bit below.
  lemma NumOfJoin(h: bv32, b: bv32)
    requires Short(h) && (b == 0 || b == 1)
    ensures Num(Join(h, b)) == 2 * Num(h) + Num(b)
  {
    hide Num, Join, Short;
    var w, c := Parts(h, b);
    NumOfParts(w, c);
  }

  lemma Halve(x: bv32)
    ensures Num(x) / 2 == Num(High(x)) && Num(x) % 2 == Num(Low(x))
  {
    hide Num, Join, Short, High, Low;
    Halves(x);
    NumOfJoin(High(x), Low(x));
    BitValue(Low(x));
    DivModUnique(Num(x), 2, Num(High(x)), Num(Low(x)));
  }

  lemma OnlyZero(x: bv32)
    requires Num(x) == 0
    ensures x == 0
  {
    FromBits(x, 0);
  }

  // ----- The exclusive-or -----

  function XorVector(x: bv32, y: bv32): bv32 { x ^ y }

  lemma XorHalves(x: bv32, y: bv32)
    ensures High(XorVector(x, y)) == XorVector(High(x), High(y))
    ensures Low(XorVector(x, y)) == XorVector(Low(x), Low(y))
    ensures XorVector(0, y) == y
  {
  }

  lemma BitParity(a: bv32, b: bv32)
    requires (a == 0 || a == 1) && (b == 0 || b == 1)
    ensures Num(XorVector(a, b)) == (Num(a) + Num(b)) % 2
  {
    BitValue(a);
    BitValue(b);
    BitValue(XorVector(a, b));
    hide Num;
  }

  lemma {:induction false} XorOfBits(x: bv32, y: bv32)
    ensures Xor(Num(x), Num(y)) == Num(XorVector(x, y))
    decreases Num(x)
  {
    hide Num, High, Low, XorVector, Xor;
    XorHalves(x, y);
    if Num(x) == 0 {
      OnlyZero(x);
      XorFromZero(Num(y));
    } else {
      Halve(x);
      XorOfBits(High(x), High(y));
      Halve(y);
      Halve(XorVector(x, y));
      XorStep(Num(x), Num(y));
      Halves(x);
      Halves(y);
      BitParity(Low(x), Low(y));
      SameNumber(Num(x), Num(y), Xor(Num(x), Num(y)), Num(XorVector(x, y)));
    }
  }

  lemma XorFromZero(n: nat)
    ensures Xor(0, n) == n
  {
  }

  lemma SameNumber(a: nat, b: nat, v: nat, w: nat)
    requires v / 2 == w / 2 && v % 2 == (a + b) % 2 && w % 2 == (a % 2 + b % 2) % 2
    ensures v == w
  {
  }

  // ----- The sum -----

  // All but bit 31, and bit 31 set.
  function Rest(x: bv32): bv32 { x & 0x7fff_ffff }

  function WithTop(x: bv32): bv32 { x | 0x8000_0000 }

  // A number below 2^31 has no bit 31, and any other is 2^31 and such a number.
  lemma ShortNumber(x: bv32)
    ensures Short(x) <==> Num(x) < 0x8000_0000
    ensures Num(x) % 0x8000_0000 == Num(Rest(x)) && Short(Rest(x))
  {
    hide Num, Short, Rest, WithTop;
    RestIsShort(x);
    ShortBound(Rest(x));
    TopValue(Rest(x));
  }

  lemma RestIsShort(x: bv32)
    ensures Short(Rest(x)) && (if Short(x) then Rest(x) == x else x == WithTop(Rest(x)))
  {
    RawRest(x);
  }

  lemma RawRest(x: bv32)
    ensures (x & 0x7fff_ffff) >> 31 == 0 && (x >> 31 == 0 ==> x & 0x7fff_ffff == x)
    ensures x >> 31 != 0 ==> x == (x & 0x7fff_ffff) | 0x8000_0000
  {
  }

  lemma ShortBound(x: bv32)
    requires Short(x)
    ensures Num(x) < 0x8000_0000
  {
    var w, c := Parts(x, 0);
    Widened(w);
    NarrowBound(w);
  }

  lemma Widened(w: bv31)
    ensures w as bv32 as nat == w as nat
  {
  }

  lemma NarrowBound(w: bv31)
    ensures w as nat < 0x8000_0000
  {
  }

  lemma TopValue(w: bv32)
    requires Short(w)
    ensures Num(WithTop(w)) == 0x8000_0000 + Num(w)
  {
    RawTop(w);
  }

  lemma RawTop(w: bv32)
    requires w >> 31 == 0
    ensures (w | 0x8000_0000) as nat == 0x8000_0000 + w as nat
  {
  }

  // A bit shifted out at the top is lost.
  lemma WrappedJoin(h: bv32, b: bv32)
    requires b == 0 || b == 1
    ensures Num(Join(h, b)) == (2 * Num(h) + Num(b)) % 0x1_0000_0000
  {
    hide Num, Join, Short, Rest;
    ShortNumber(h);
    BitValue(b);
    SameJoin(h, b);
    NumOfJoin(Rest(h), b);
    Bounded(h);
    WrappedDouble(Num(h), Num(b));
  }

  lemma WrappedDouble(n: nat, b: nat)
    requires n < 0x1_0000_0000 && b <= 1
    ensures (2 * n + b) % 0x1_0000_0000 == 2 * (n % 0x8000_0000) + b
  {
  }

  lemma SameJoin(h: bv32, b: bv32)
    ensures Join(h, b) == Join(Rest(h), b)
  {
  }

  function Next(x: bv32): bv32 { x + 1 }

  lemma NextHalves(x: bv32)
    ensures Low(x) == 0 ==> Next(x) == Join(High(x), 1)
    ensures Low(x) == 1 ==> Next(x) == Join(Next(High(x)), 0)
  {
    hide Low, High, Join, Next;
    HalfBodies(x);
    NextBody(x);
    NextBody(x >> 1);
    JoinedNext(x);
  }

  lemma HalfBodies(x: bv32)
    ensures Low(x) == x & 1 && High(x) == x >> 1
  {
  }

  lemma JoinedNext(x: bv32)
    ensures x & 1 == 0 ==> Join(x >> 1, 1) == x + 1
    ensures x & 1 == 1 ==> Join((x >> 1) + 1, 0) == x + 1
  {
    RawNext(x);
  }

  lemma RawNext(x: bv32)
    ensures x & 1 == 0 ==> x + 1 == ((x >> 1) << 1) | 1
    ensures x & 1 == 1 ==> x + 1 == (((x >> 1) + 1) << 1) | 0
  {
  }

  lemma {:induction false} NextNumber(x: bv32)
    ensures Num(Next(x)) == (Num(x) + 1) % 0x1_0000_0000
    decreases Num(x)
  {
    hide Num, High, Low, Join, Short, Next;
    NextHalves(x);
    Halves(x);
    Halve(x);
    Bounded(x);
    BitValue(Low(x));
    BitValue(0);
    BitValue(1);
    if Low(x) == 0 {
      NumOfJoin(High(x), 1);
    } else {
      NextNumber(High(x));
      WrappedJoin(Next(High(x)), 0);
    }
  }

  function Sum(x: bv32, y: bv32): bv32 { x + y }

  // x + (z + 1) is (x + z) + 1
  lemma SumNext(x: bv32, z: bv32)
    ensures Sum(x, Next(z)) == Next(Sum(x, z))
  {
    hide Sum, Next;
    SumBody(x, z);
    NextBody(z);
    Reassociate(x, z);
  }

  lemma SumBody(x: bv32, z: bv32)
    ensures Sum(x, z) == x + z
  {
  }

  lemma NextBody(z: bv32)
    ensures Next(z) == z + 1
  {
  }

  lemma Reassociate(x: bv32, z: bv32)
    ensures Sum(x, z + 1) == Next(x + z)
  {
  }

  lemma SumZero(x: bv32)
    ensures Sum(x, 0) == x
  {
  }

  lemma OneLess(y: bv32) returns (z: bv32)
    ensures y == Next(z)
  {
    z := y - 1;
  }

  lemma NextSum(a: nat, z: nat, b: nat, v: nat)
    requires z < 0x1_0000_0000 && b == (z + 1) % 0x1_0000_0000 && b > 0 && v == (a + z) % 0x1_0000_0000
    ensures b == z + 1 && (v + 1) % 0x1_0000_0000 == (a + b) % 0x1_0000_0000
  {
  }

  lemma {:induction false} SumOfBits(x: bv32, y: bv32)
    ensures Num(Sum(x, y)) == (Num(x) + Num(y)) % 0x1_0000_0000
    decreases Num(y)
  {
    hide Num, Sum, Next;
    Bounded(x);
    Bounded(y);
    if Num(y) == 0 {
      OnlyZero(y);
      SumZero(x);
    } else {
      var z := OneLess(y);
      NextNumber(z);
      Bounded(z);
      SumOfBits(x, z);
      SumNext(x, z);
      NextNumber(Sum(x, z));
      NextSum(Num(x), Num(z), Num(y), Num(Sum(x, z)));
    }
  }

  // ----- The exclusive-or and the sum of words -----

  lemma XorWord(a: uint32, b: uint32, w: uint32)
    requires w as nat == Xor(a as nat, b as nat)
    ensures Vector(w) == XorVector(Vector(a), Vector(b))
  {
    hide Num, Vector, XorVector;
    XorOfBits(Vector(a), Vector(b));
    VectorNumber(a);
    VectorNumber(b);
    VectorOf(XorVector(Vector(a), Vector(b)), w);
  }

  lemma XorOfWords(a: uint32, b: uint32, w: uint32)
    requires w as nat == Xor(a as nat, b as nat)
    ensures Vector(w) == Vector(a) ^ Vector(b)
  {
    hide Vector, XorVector, Xor;
    XorWord(a, b, w);
    XorBody(Vector(a), Vector(b));
  }

  lemma XorBody(x: bv32, y: bv32)
    ensures XorVector(x, y) == x ^ y
  {
  }

  lemma SumWord(a: uint32, b: uint32, w: uint32)
    requires w as int == (a as int + b as int) % 0x1_0000_0000
    ensures Vector(w) == Sum(Vector(a), Vector(b))
  {
    hide Num, Vector, Sum;
    SumOfBits(Vector(a), Vector(b));
    VectorNumber(a);
    VectorNumber(b);
    VectorOf(Sum(Vector(a), Vector(b)), w);
  }

  lemma SumOfWords(a: uint32, b: uint32, w: uint32)
    requires w as int == (a as int + b as int) % 0x1_0000_0000
    ensures Vector(w) == Vector(a) + Vector(b)
  {
    hide Vector, Sum;
    SumWord(a, b, w);
    SumBody(Vector(a), Vector(b));
  }

  // ----- The rotations of a word -----

  function Rotated16(x: bv32): bv32 { x.RotateLeft(16) }

  function Glue16(h: bv16, l: bv16): bv32 { ((h as bv32) << 16) | (l as bv32) }

  function Swapped16(h: bv16, l: bv16): bv32 { ((l as bv32) << 16) | (h as bv32) }

  lemma Cut16(x: bv32) returns (h: bv16, l: bv16)
    ensures x == Glue16(h, l)
  {
    h, l := (x >> 16) as bv16, (x & 0xffff) as bv16;
  }

  lemma Turn16(h: bv16, l: bv16)
    ensures Rotated16(Glue16(h, l)) == Swapped16(h, l)
  {
    RawTurn16(h, l);
  }

  lemma RawTurn16(h: bv16, l: bv16)
    ensures (((h as bv32) << 16) | (l as bv32)).RotateLeft(16) == ((l as bv32) << 16) | (h as bv32)
  {
  }

  lemma Numbers16(h: bv16, l: bv16) returns (i: nat, j: nat)
    ensures Num(Glue16(h, l)) == 0x10000 * i + j && j < 0x10000
    ensures Num(Swapped16(h, l)) == 0x10000 * j + i
  {
    i, j := h as nat, l as nat;
  }

  lemma RotatedWord16(a: uint32, w: uint32)
    requires w as int == a as int % 0x10000 * 0x10000 + a as int / 0x10000
    ensures Vector(w) == Rotated16(Vector(a))
  {
    hide Num, Vector, Glue16, Swapped16, Rotated16;
    var h, l := Cut16(Vector(a));
    Turn16(h, l);
    var i, j := Numbers16(h, l);
    VectorNumber(a);
    DivModUnique(a as int, 0x10000, i, j);
    VectorOf(Swapped16(h, l), w);
  }

  lemma RotationBy16(a: uint32, w: uint32)
    requires w as int == a as int % 0x10000 * 0x10000 + a as int / 0x10000
    ensures Vector(w) == Vector(a).RotateLeft(16)
  {
    hide Vector, Rotated16;
    RotatedWord16(a, w);
    RotatedBody16(Vector(a));
  }

  lemma RotatedBody16(x: bv32)
    ensures Rotated16(x) == x.RotateLeft(16)
  {
  }

  function Rotated12(x: bv32): bv32 { x.RotateLeft(12) }

  function Glue12(h: bv12, l: bv20): bv32 { ((h as bv32) << 20) | (l as bv32) }

  function Swapped12(h: bv12, l: bv20): bv32 { ((l as bv32) << 12) | (h as bv32) }

  lemma Cut12(x: bv32) returns (h: bv12, l: bv20)
    ensures x == Glue12(h, l)
  {
    h, l := (x >> 20) as bv12, (x & 0xfffff) as bv20;
  }

  lemma Turn12(h: bv12, l: bv20)
    ensures Rotated12(Glue12(h, l)) == Swapped12(h, l)
  {
    RawTurn12(h, l);
  }

  lemma RawTurn12(h: bv12, l: bv20)
    ensures (((h as bv32) << 20) | (l as bv32)).RotateLeft(12) == ((l as bv32) << 12) | (h as bv32)
  {
  }

  lemma Numbers12(h: bv12, l: bv20) returns (i: nat, j: nat)
    ensures Num(Glue12(h, l)) == 0x100000 * i + j && j < 0x100000
    ensures Num(Swapped12(h, l)) == 0x1000 * j + i
  {
    i, j := h as nat, l as nat;
  }

  lemma RotatedWord12(a: uint32, w: uint32)
    requires w as int == a as int % 0x100000 * 0x1000 + a as int / 0x100000
    ensures Vector(w) == Rotated12(Vector(a))
  {
    hide Num, Vector, Glue12, Swapped12, Rotated12;
    var h, l := Cut12(Vector(a));
    Turn12(h, l);
    var i, j := Numbers12(h, l);
    VectorNumber(a);
    DivModUnique(a as int, 0x100000, i, j);
    VectorOf(Swapped12(h, l), w);
  }

  lemma RotationBy12(a: uint32, w: uint32)
    requires w as int == a as int % 0x100000 * 0x1000 + a as int / 0x100000
    ensures Vector(w) == Vector(a).RotateLeft(12)
  {
    hide Vector, Rotated12;
    RotatedWord12(a, w);
    RotatedBody12(Vector(a));
  }

  lemma RotatedBody12(x: bv32)
    ensures Rotated12(x) == x.RotateLeft(12)
  {
  }

  function Rotated8(x: bv32): bv32 { x.RotateLeft(8) }

  function Glue8(h: bv8, l: bv24): bv32 { ((h as bv32) << 24) | (l as bv32) }

  function Swapped8(h: bv8, l: bv24): bv32 { ((l as bv32) << 8) | (h as bv32) }

  lemma Cut8(x: bv32) returns (h: bv8, l: bv24)
    ensures x == Glue8(h, l)
  {
    h, l := (x >> 24) as bv8, (x & 0xffffff) as bv24;
  }

  lemma Turn8(h: bv8, l: bv24)
    ensures Rotated8(Glue8(h, l)) == Swapped8(h, l)
  {
    RawTurn8(h, l);
  }

  lemma RawTurn8(h: bv8, l: bv24)
    ensures (((h as bv32) << 24) | (l as bv32)).RotateLeft(8) == ((l as bv32) << 8) | (h as bv32)
  {
  }

  lemma Numbers8(h: bv8, l: bv24) returns (i: nat, j: nat)
    ensures Num(Glue8(h, l)) == 0x1000000 * i + j && j < 0x1000000
    ensures Num(Swapped8(h, l)) == 0x100 * j + i
  {
    i, j := h as nat, l as nat;
  }

  lemma RotatedWord8(a: uint32, w: uint32)
    requires w as int == a as int % 0x1000000 * 0x100 + a as int / 0x1000000
    ensures Vector(w) == Rotated8(Vector(a))
  {
    hide Num, Vector, Glue8, Swapped8, Rotated8;
    var h, l := Cut8(Vector(a));
    Turn8(h, l);
    var i, j := Numbers8(h, l);
    VectorNumber(a);
    DivModUnique(a as int, 0x1000000, i, j);
    VectorOf(Swapped8(h, l), w);
  }

  lemma RotationBy8(a: uint32, w: uint32)
    requires w as int == a as int % 0x1000000 * 0x100 + a as int / 0x1000000
    ensures Vector(w) == Vector(a).RotateLeft(8)
  {
    hide Vector, Rotated8;
    RotatedWord8(a, w);
    RotatedBody8(Vector(a));
  }

  lemma RotatedBody8(x: bv32)
    ensures Rotated8(x) == x.RotateLeft(8)
  {
  }

  function Rotated7(x: bv32): bv32 { x.RotateLeft(7) }

  function Glue7(h: bv7, l: bv25): bv32 { ((h as bv32) << 25) | (l as bv32) }

  function Swapped7(h: bv7, l: bv25): bv32 { ((l as bv32) << 7) | (h as bv32) }

  lemma Cut7(x: bv32) returns (h: bv7, l: bv25)
    ensures x == Glue7(h, l)
  {
    h, l := (x >> 25) as bv7, (x & 0x1ffffff) as bv25;
  }

  lemma Turn7(h: bv7, l: bv25)
    ensures Rotated7(Glue7(h, l)) == Swapped7(h, l)
  {
    RawTurn7(h, l);
  }

  lemma RawTurn7(h: bv7, l: bv25)
    ensures (((h as bv32) << 25) | (l as bv32)).RotateLeft(7) == ((l as bv32) << 7) | (h as bv32)
  {
  }

  lemma Numbers7(h: bv7, l: bv25) returns (i: nat, j: nat)
    ensures Num(Glue7(h, l)) == 0x2000000 * i + j && j < 0x2000000
    ensures Num(Swapped7(h, l)) == 0x80 * j + i
  {
    i, j := h as nat, l as nat;
  }

  lemma RotatedWord7(a: uint32, w: uint32)
    requires w as int == a as int % 0x2000000 * 0x80 + a as int / 0x2000000
    ensures Vector(w) == Rotated7(Vector(a))
  {
    hide Num, Vector, Glue7, Swapped7, Rotated7;
    var h, l := Cut7(Vector(a));
    Turn7(h, l);
    var i, j := Numbers7(h, l);
    VectorNumber(a);
    DivModUnique(a as int, 0x2000000, i, j);
    VectorOf(Swapped7(h, l), w);
  }

  lemma RotationBy7(a: uint32, w: uint32)
    requires w as int == a as int % 0x2000000 * 0x80 + a as int / 0x2000000
    ensures Vector(w) == Vector(a).RotateLeft(7)
  {
    hide Vector, Rotated7;
    RotatedWord7(a, w);
    RotatedBody7(Vector(a));
  }

  lemma RotatedBody7(x: bv32)
    ensures Rotated7(x) == x.RotateLeft(7)
  {
  }
}
