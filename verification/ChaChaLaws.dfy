// What the definitions of Rfc7539 compute, told without them: the quarter round by the operators on
// 32-bit vectors, the inner block by the words it mixes, the block by the bytes of ten rounds, and
// the cipher by the place of each byte in the stream.
module ChaChaLaws {
  import opened Words
  import opened Bits
  import opened Bytes
  import opened Rfc7539
  import opened BitVectors

  // ----- The quarter round -----

  lemma RotateValue(a: uint32, n: nat, p: nat, q: nat)
    requires n <= 32 && Pow2(32 - n) == p && Pow2(n) == q
    ensures p > 0 && RotateLeft(a, n) as int == a as int % p * q + a as int / p
  {
    hide Pow2;
  }

  lemma RotationPowers()
    ensures Pow2(7) == 0x80 && Pow2(8) == 0x100 && Pow2(12) == 0x1000 && Pow2(16) == 0x10000
    ensures Pow2(20) == 0x100000 && Pow2(24) == 0x1000000 && Pow2(25) == 0x2000000
  {
    hide Pow2;
    SmallPow2();
    Pow2Values();
    Pow2Add(8, 4);
    Pow2Add(16, 4);
    Pow2Add(16, 8);
    Pow2Add(24, 1);
  }

  // The words of one line of the quarter round.
  lemma StepWords(s: seq<uint32>, a: nat, b: nat, d: nat, n: nat)
    requires |s| == 16 && a < 16 && b < 16 && d < 16 && a != d && n <= 32
    ensures var t := Step(s, a, b, d, n);
      && t[a] == Add32(s[a], s[b]) && t[d] == RotateLeft(Xor32(s[d], t[a]), n)
      && forall i :: 0 <= i < 16 && i != a && i != d ==> t[i] == s[i]
  {
    hide RotateLeft, Xor32, Add32;
  }

  // x += y; z ^= x; z <<<= n
  lemma LineOnBits(x: uint32, y: uint32, z: uint32)
    ensures var w := Add32(x, y);
      && Vector(w) == Sum(Vector(x), Vector(y))
      && Vector(RotateLeft(Xor32(z, w), 16)) == Rotated16(XorVector(Vector(z), Vector(w)))
      && Vector(RotateLeft(Xor32(z, w), 12)) == Rotated12(XorVector(Vector(z), Vector(w)))
      && Vector(RotateLeft(Xor32(z, w), 8)) == Rotated8(XorVector(Vector(z), Vector(w)))
      && Vector(RotateLeft(Xor32(z, w), 7)) == Rotated7(XorVector(Vector(z), Vector(w)))
  {
    hide Vector, RotateLeft, Sum, XorVector, Rotated16, Rotated12, Rotated8, Rotated7, Xor, Pow2;
    var w := Add32(x, y);
    var v := Xor32(z, w);
    SumWord(x, y, w);
    XorWord(z, w, v);
    RotationPowers();
    RotateValue(v, 16, 0x10000, 0x10000);
    RotateValue(v, 12, 0x100000, 0x1000);
    RotateValue(v, 8, 0x1000000, 0x100);
    RotateValue(v, 7, 0x2000000, 0x80);
    RotatedWord16(v, RotateLeft(v, 16));
    RotatedWord12(v, RotateLeft(v, 12));
    RotatedWord8(v, RotateLeft(v, 8));
    RotatedWord7(v, RotateLeft(v, 7));
  }

  // One line with a rotation by 16, in the operators on vectors.
  lemma Line16(x: bv32, y: bv32, z: bv32, w: bv32, v: bv32)
    requires w == Sum(x, y) && v == Rotated16(XorVector(z, w))
    ensures w == x + y && v == (z ^ w).RotateLeft(16)
  {
  }

  // One line with a rotation by 12, in the operators on vectors.
  lemma Line12(x: bv32, y: bv32, z: bv32, w: bv32, v: bv32)
    requires w == Sum(x, y) && v == Rotated12(XorVector(z, w))
    ensures w == x + y && v == (z ^ w).RotateLeft(12)
  {
  }

  // One line with a rotation by 8, in the operators on vectors.
  lemma Line8(x: bv32, y: bv32, z: bv32, w: bv32, v: bv32)
    requires w == Sum(x, y) && v == Rotated8(XorVector(z, w))
    ensures w == x + y && v == (z ^ w).RotateLeft(8)
  {
  }

  // One line with a rotation by 7, in the operators on vectors.
  lemma Line7(x: bv32, y: bv32, z: bv32, w: bv32, v: bv32)
    requires w == Sum(x, y) && v == Rotated7(XorVector(z, w))
    ensures w == x + y && v == (z ^ w).RotateLeft(7)
  {
  }

  lemma QuarterRoundWords(s: seq<uint32>, a: nat, b: nat, c: nat, d: nat)
      returns (a1: bv32, d1: bv32, c1: bv32, b1: bv32)
    requires |s| == 16 && a < 16 && b < 16 && c < 16 && d < 16
    requires a != b && a != c && a != d && b != c && b != d && c != d
    ensures a1 == Sum(Vector(s[a]), Vector(s[b])) && d1 == Rotated16(XorVector(Vector(s[d]), a1))
    ensures c1 == Sum(Vector(s[c]), d1) && b1 == Rotated12(XorVector(Vector(s[b]), c1))
    ensures var t := QuarterRound(s, a, b, c, d);
      && Vector(t[a]) == Sum(a1, b1) && Vector(t[d]) == Rotated8(XorVector(d1, Vector(t[a])))
      && Vector(t[c]) == Sum(c1, Vector(t[d])) && Vector(t[b]) == Rotated7(XorVector(b1, Vector(t[c])))
      && forall i :: 0 <= i < 16 && i != a && i != b && i != c && i != d ==> t[i] == s[i]
  {
    hide Vector, Step, RotateLeft, Xor32, Add32, Sum, XorVector, Rotated16, Rotated12, Rotated8, Rotated7;
    var s1 := Step(s, a, b, d, 16);
    var s2 := Step(s1, c, d, b, 12);
    var s3 := Step(s2, a, b, d, 8);
    StepWords(s, a, b, d, 16);
    StepWords(s1, c, d, b, 12);
    StepWords(s2, a, b, d, 8);
    StepWords(s3, c, d, b, 7);
    a1, d1, c1, b1 := Vector(s1[a]), Vector(s1[d]), Vector(s2[c]), Vector(s2[b]);
    LineOnBits(s[a], s[b], s[d]);
    LineOnBits(s1[c], s1[d], s1[b]);
    LineOnBits(s2[a], s2[b], s2[d]);
    LineOnBits(s3[c], s3[d], s3[b]);
  }

  lemma FourLines(a: bv32, b: bv32, c: bv32, d: bv32, a1: bv32, b1: bv32, c1: bv32, d1: bv32,
      a2: bv32, b2: bv32, c2: bv32, d2: bv32)
    requires a1 == Sum(a, b) && d1 == Rotated16(XorVector(d, a1))
    requires c1 == Sum(c, d1) && b1 == Rotated12(XorVector(b, c1))
    requires a2 == Sum(a1, b1) && d2 == Rotated8(XorVector(d1, a2))
    requires c2 == Sum(c1, d2) && b2 == Rotated7(XorVector(b1, c2))
    ensures a1 == a + b && d1 == (d ^ a1).RotateLeft(16)
    ensures c1 == c + d1 && b1 == (b ^ c1).RotateLeft(12)
    ensures a2 == a1 + b1 && d2 == (d1 ^ a2).RotateLeft(8)
    ensures c2 == c1 + d2 && b2 == (b1 ^ c2).RotateLeft(7)
  {
    hide *;
    Line16(a, b, d, a1, d1);
    Line12(c, d1, b, c1, b1);
    Line8(a1, b1, d1, a2, d2);
    Line7(c1, d2, b1, c2, b2);
  }

  // The sums, the exclusive-ors and the rotations by 16, 12, 8 and 7 that a quarter round makes of
  // the words a, b, c and d: half way they are a1, b1, c1 and d1, and in the end a2, b2, c2 and d2.
  lemma QuarterRoundOnBits(s: seq<uint32>, i: nat, j: nat, k: nat, l: nat, a: bv32, b: bv32, c: bv32, d: bv32)
      returns (a1: bv32, b1: bv32, c1: bv32, d1: bv32, a2: bv32, b2: bv32, c2: bv32, d2: bv32)
    requires |s| == 16 && i < 16 && j < 16 && k < 16 && l < 16
    requires i != j && i != k && i != l && j != k && j != l && k != l
    requires Vector(s[i]) == a && Vector(s[j]) == b && Vector(s[k]) == c && Vector(s[l]) == d
    ensures var t := QuarterRound(s, i, j, k, l);
      && Vector(t[i]) == a2 && Vector(t[j]) == b2 && Vector(t[k]) == c2 && Vector(t[l]) == d2
      && forall m :: 0 <= m < 16 && m != i && m != j && m != k && m != l ==> t[m] == s[m]
    ensures a1 == a + b && d1 == (d ^ a1).RotateLeft(16)
    ensures c1 == c + d1 && b1 == (b ^ c1).RotateLeft(12)
    ensures a2 == a1 + b1 && d2 == (d1 ^ a2).RotateLeft(8)
    ensures c2 == c1 + d2 && b2 == (b1 ^ c2).RotateLeft(7)
  {
    hide *;
    a1, d1, c1, b1 := QuarterRoundWords(s, i, j, k, l);
    var t := QuarterRound(s, i, j, k, l);
    a2, b2, c2, d2 := Vector(t[i]), Vector(t[j]), Vector(t[k]), Vector(t[l]);
    FourLines(a, b, c, d, a1, b1, c1, d1, a2, b2, c2, d2);
  }

  // ----- The block -----

  // Words a, b, c and d of t are those of the quarter round of s on them.
  ghost predicate Mixed(s: seq<uint32>, t: seq<uint32>, a: nat, b: nat, c: nat, d: nat)
    requires |s| == |t| == 16 && a < 16 && b < 16 && c < 16 && d < 16
  {
    var q := QuarterRound(s, a, b, c, d);
    t[a] == q[a] && t[b] == q[b] && t[c] == q[c] && t[d] == q[d]
  }

  // What a quarter round gives depends on its four words only, and it leaves the others alone.
  lemma QuarterRoundIsLocal(s: seq<uint32>, t: seq<uint32>, a: nat, b: nat, c: nat, d: nat)
    requires |s| == |t| == 16 && a < 16 && b < 16 && c < 16 && d < 16
    requires a != b && a != c && a != d && b != c && b != d && c != d
    requires s[a] == t[a] && s[b] == t[b] && s[c] == t[c] && s[d] == t[d]
    ensures Mixed(s, QuarterRound(t, a, b, c, d), a, b, c, d)
    ensures forall i :: 0 <= i < 16 && i != a && i != b && i != c && i != d ==> QuarterRound(t, a, b, c, d)[i] == t[i]
  {
    hide RotateLeft, Xor32, Add32;
  }

  // Four quarter rounds on words of which no two share any.
  lemma FourApart(s: seq<uint32>, x: seq<nat>)
      returns (s1: seq<uint32>, s2: seq<uint32>, s3: seq<uint32>, t: seq<uint32>)
    requires |s| == 16 && |x| == 16 && (forall i :: 0 <= i < 16 ==> x[i] < 16)
    requires forall i, j :: 0 <= i < j < 16 ==> x[i] != x[j]
    ensures |s1| == |s2| == |s3| == |t| == 16
    ensures s1 == QuarterRound(s, x[0], x[1], x[2], x[3]) && s2 == QuarterRound(s1, x[4], x[5], x[6], x[7])
    ensures s3 == QuarterRound(s2, x[8], x[9], x[10], x[11]) && t == QuarterRound(s3, x[12], x[13], x[14], x[15])
    ensures Mixed(s, t, x[0], x[1], x[2], x[3]) && Mixed(s, t, x[4], x[5], x[6], x[7])
    ensures Mixed(s, t, x[8], x[9], x[10], x[11]) && Mixed(s, t, x[12], x[13], x[14], x[15])
  {
    hide QuarterRound, Mixed;
    s1 := QuarterRound(s, x[0], x[1], x[2], x[3]);
    s2 := QuarterRound(s1, x[4], x[5], x[6], x[7]);
    s3 := QuarterRound(s2, x[8], x[9], x[10], x[11]);
    t := QuarterRound(s3, x[12], x[13], x[14], x[15]);
    QuarterRoundIsLocal(s, s, x[0], x[1], x[2], x[3]);
    QuarterRoundIsLocal(s, s1, x[4], x[5], x[6], x[7]);
    QuarterRoundIsLocal(s, s2, x[8], x[9], x[10], x[11]);
    QuarterRoundIsLocal(s, s3, x[12], x[13], x[14], x[15]);
    KeptMixed(s, s1, t, x[0], x[1], x[2], x[3]);
    KeptMixed(s, s2, t, x[4], x[5], x[6], x[7]);
    KeptMixed(s, s3, t, x[8], x[9], x[10], x[11]);
  }

  lemma KeptMixed(s: seq<uint32>, t: seq<uint32>, u: seq<uint32>, a: nat, b: nat, c: nat, d: nat)
    requires |s| == |t| == |u| == 16 && a < 16 && b < 16 && c < 16 && d < 16 && Mixed(s, t, a, b, c, d)
    requires t[a] == u[a] && t[b] == u[b] && t[c] == u[c] && t[d] == u[d]
    ensures Mixed(s, u, a, b, c, d)
  {
  }

  // The four columns of the 4 by 4 words, and then the four diagonals.
  lemma InnerBlockRounds(s: seq<uint32>) returns (m: seq<uint32>)
    requires |s| == 16
    ensures |m| == 16 && Mixed(s, m, 0, 4, 8, 12) && Mixed(s, m, 1, 5, 9, 13)
    ensures Mixed(s, m, 2, 6, 10, 14) && Mixed(s, m, 3, 7, 11, 15)
    ensures var t := InnerBlock(s);
      && Mixed(m, t, 0, 5, 10, 15) && Mixed(m, t, 1, 6, 11, 12) && Mixed(m, t, 2, 7, 8, 13) && Mixed(m, t, 3, 4, 9, 14)
  {
    hide QuarterRound, Mixed;
    var s1, s2, s3, s4 := FourApart(s, [0, 4, 8, 12, 1, 5, 9, 13, 2, 6, 10, 14, 3, 7, 11, 15]);
    var s5, s6, s7, s8 := FourApart(s4, [0, 5, 10, 15, 1, 6, 11, 12, 2, 7, 8, 13, 3, 4, 9, 14]);
    m := s4;
  }

  lemma {:induction false} Rounds(s: seq<uint32>, n: nat) returns (trace: seq<seq<uint32>>)
    requires |s| == 16
    ensures |trace| == n + 1 && trace[0] == s && trace[n] == InnerBlocks(s, n)
    ensures forall r :: 0 <= r <= n ==> |trace[r]| == 16
    ensures forall r :: 0 <= r < n ==> trace[r + 1] == InnerBlock(trace[r])
  {
    hide InnerBlock;
    if n == 0 {
      trace := [s];
    } else {
      var before := Rounds(s, n - 1);
      trace := before + [InnerBlocks(s, n)];
    }
  }

  lemma {:induction false} SerializedByte(w: seq<uint32>, i: nat, j: nat)
    requires i < |w| && j < 4
    ensures Serialize(w)[4 * i + j] as int == w[i] as int / Pow256(j) % 256
    decreases |w|
  {
    hide Pow256, ToLe;
    if i == |w| - 1 {
      ToLeAt(w[i] as int, 4, j);
    } else {
      SerializedByte(w[..|w| - 1], i, j);
    }
  }

  // Ten inner blocks, and then byte 4 i + j of the keystream is byte j, from the lowest, of word i
  // with the word of the initial state added.
  lemma BlockBytes(s: seq<uint32>) returns (trace: seq<seq<uint32>>)
    requires |s| == 16
    ensures |trace| == 11 && trace[0] == s && forall r :: 0 <= r <= 10 ==> |trace[r]| == 16
    ensures forall r :: 0 <= r < 10 ==> trace[r + 1] == InnerBlock(trace[r])
    ensures forall i, j :: 0 <= i < 16 && 0 <= j < 4 ==>
      KeystreamBlock(s)[4 * i + j] as int == (trace[10][i] as int + s[i] as int) % 0x1_0000_0000 / Pow256(j) % 256
  {
    hide InnerBlock, InnerBlocks, Serialize, Pow256;
    trace := Rounds(s, 10);
    var t := trace[10];
    var w := seq(16, i requires 0 <= i < 16 => Add32(t[i], s[i]));
    assert KeystreamBlock(s) == Serialize(w);
    forall i, j | 0 <= i < 16 && 0 <= j < 4
      ensures Serialize(w)[4 * i + j] as int == (t[i] as int + s[i] as int) % 0x1_0000_0000 / Pow256(j) % 256
    {
      SerializedByte(w, i, j);
    }
  }

  // ----- The state and the stream -----

  // The four constants, the key and the nonce as little-endian words, and the counter.
  lemma InitialWords(key: seq<uint8>, counter: uint32, nonce: seq<uint8>)
    requires |key| == 32 && |nonce| == 12
    ensures var s := InitialState(key, counter, nonce);
      && s[0] == 0x61707865 && s[1] == 0x3320646e && s[2] == 0x79622d32 && s[3] == 0x6b206574 && s[12] == counter
      && (forall i :: 0 <= i < 8 ==> s[4 + i] as int == Le(key[4 * i..4 * i + 4]))
      && (forall i :: 0 <= i < 3 ==> s[13 + i] as int == Le(nonce[4 * i..4 * i + 4]))
  {
    hide Le, GetUint32Le;
    var s := InitialState(key, counter, nonce);
    forall i | 0 <= i < 8 ensures s[4 + i] as int == Le(key[4 * i..4 * i + 4]) {
      assert s[4 + i] == LeWords(key)[i] == GetUint32Le(key, 4 * i);
    }
    forall i | 0 <= i < 3 ensures s[13 + i] as int == Le(nonce[4 * i..4 * i + 4]) {
      assert s[13 + i] == LeWords(nonce)[i] == GetUint32Le(nonce, 4 * i);
    }
  }

  // A byte at place p + i of the stream is ciphered with byte r of block q, where p + i is 64 q + r,
  // and the counter of that block is q further on modulo 2^32.
  lemma CipherByte(s: seq<uint32>, p: nat, text: seq<uint8>, i: nat, q: nat, r: nat)
    requires |s| == 16 && i < |text| && p + i == 64 * q + r && r < 64
    ensures var counter := ((s[12] as int + q) % 0x1_0000_0000) as uint32;
      Xor(EncryptAt(s, p, text)[i] as int, text[i] as int) == KeystreamBlock(s[12 := counter])[r] as int
  {
    hide KeystreamBlock, Xor;
    DivModUnique(p + i, 64, q, r);
    var k := KeystreamByte(s, p + i);
    assert EncryptAt(s, p, text)[i] == Xor8(text[i], k);
    XorCommutes(text[i] as int, k as int);
    XorCancels(k as int, text[i] as int);
  }

  // The key of the authenticator is the first half of the block at counter 0.
  lemma PolyKeyBytes(key: seq<uint8>, nonce: seq<uint8>, i: nat)
    requires |key| == 32 && |nonce| == 12 && i < 32
    ensures PolyKey(key, nonce)[i] == KeystreamBlock(InitialState(key, 0, nonce))[i]
  {
    hide KeystreamBlock, InitialState;
  }
}
