// Little-endian byte strings as numbers.
module Bytes {
  import opened Words
  import opened Bits

  function Pow256(n: nat): (r: nat)
    ensures r > 0
  {
    if n == 0 then 1 else 256 * Pow256(n - 1)
  }

  lemma {:induction false} Pow256IsPow2(n: nat)
    ensures Pow256(n) == Pow2(8 * n)
  {
    if n != 0 {
      Pow256IsPow2(n - 1);
      Pow2Add(8, 8 * (n - 1));
      Pow2Values();
    }
  }

  function Le(b: seq<uint8>): nat {
    if |b| == 0 then 0 else b[0] as int + 256 * Le(b[1..])
  }

  function ToLe(n: nat, len: nat): (b: seq<uint8>)
    ensures |b| == len
  {
    if len == 0 then [] else [(n % 256) as uint8] + ToLe(n / 256, len - 1)
  }

  lemma {:induction false} LeBound(b: seq<uint8>)
    ensures Le(b) < Pow256(|b|)
  {
    if |b| != 0 {
      LeBound(b[1..]);
    }
  }

  lemma {:induction false} LeOfToLe(n: nat, len: nat)
    requires n < Pow256(len)
    ensures Le(ToLe(n, len)) == n
  {
    if len != 0 {
      LeOfToLe(n / 256, len - 1);
      assert ToLe(n, len)[1..] == ToLe(n / 256, len - 1);
    }
  }

  lemma {:induction false} ToLeAt(n: nat, len: nat, i: nat)
    requires i < len
    ensures ToLe(n, len)[i] as int == n / Pow256(i) % 256
  {
    if i > 0 {
      ToLeAt(n / 256, len - 1, i - 1);
      DivDiv(n, 256, Pow256(i - 1));
    }
  }

  lemma {:induction false} ToLeOfLe(b: seq<uint8>)
    ensures ToLe(Le(b), |b|) == b
  {
    if |b| != 0 {
      ToLeOfLe(b[1..]);
      assert Le(b) % 256 == b[0] as int && Le(b) / 256 == Le(b[1..]);
      assert b == [b[0]] + b[1..];
    }
  }

  // Strings of one length are told apart by their value.
  lemma LeInjective(a: seq<uint8>, b: seq<uint8>)
    requires |a| == |b| && Le(a) == Le(b)
    ensures a == b
  {
    ToLeOfLe(a);
    ToLeOfLe(b);
  }

  lemma {:induction false} LeConcat(a: seq<uint8>, b: seq<uint8>)
    ensures Le(a + b) == Le(a) + Pow256(|a|) * Le(b)
  {
    if |a| == 0 {
      assert a + b == b;
    } else {
      assert (a + b)[1..] == a[1..] + b;
      LeConcat(a[1..], b);
      Regroup(a[0] as int, Le(a[1..]), Pow256(|a| - 1), Le(b));
    }
  }

  lemma Regroup(x: int, y: int, p: int, z: int)
    ensures x + 256 * (y + p * z) == x + 256 * y + (256 * p) * z
  {
  }

  lemma Split(b: seq<uint8>, i: nat)
    requires i <= |b|
    ensures Le(b[..i]) == Le(b) % Pow256(i) && Le(b[i..]) == Le(b) / Pow256(i)
  {
    assert b == b[..i] + b[i..];
    LeConcat(b[..i], b[i..]);
    LeBound(b[..i]);
    DivModUnique(Le(b), Pow256(i), Le(b[i..]), Le(b[..i]));
  }

  lemma Peel(b: seq<uint8>, i: nat, n: nat)
    requires i + n <= |b|
    ensures Le(b[i..]) == Le(b[i..i + n]) + Pow256(n) * Le(b[i + n..])
  {
    assert b[i..] == b[i..i + n] + b[i + n..];
    LeConcat(b[i..i + n], b[i + n..]);
  }

  // Bytes i .. i+n of b are the digits of Le(b) there.
  lemma Window(b: seq<uint8>, i: nat, n: nat)
    requires i + n <= |b|
    ensures Le(b[i..i + n]) == Le(b) / Pow256(i) % Pow256(n)
  {
    Split(b, i);
    Split(b[i..], n);
    assert b[i..][..n] == b[i..i + n];
  }

  lemma ByteAt(b: seq<uint8>, i: nat)
    requires i < |b|
    ensures Le(b) / Pow256(i) % 256 == b[i] as int
  {
    Split(b, i);
    var t := b[i..];
    assert Le(t) == t[0] as int + 256 * Le(t[1..]);
  }

  lemma Le3(b: seq<uint8>)
    requires |b| == 3
    ensures Le(b) == b[0] as int + 0x100 * b[1] as int + 0x10000 * b[2] as int
  {
    var t := b[1..];
    var u := t[1..];
    assert Le(u) == b[2] as int + 256 * Le(u[1..]) && Le(u[1..]) == 0;
    assert Le(t) == b[1] as int + 256 * Le(u);
  }

  lemma Le4(b: seq<uint8>)
    requires |b| == 4
    ensures Le(b) == b[0] as int + 0x100 * b[1] as int + 0x10000 * b[2] as int + 0x1000000 * b[3] as int
  {
    var t := b[1..];
    var u := t[1..];
    var v := u[1..];
    assert Le(v) == b[3] as int + 256 * Le(v[1..]) && Le(v[1..]) == 0;
    assert Le(u) == b[2] as int + 256 * Le(v);
    assert Le(t) == b[1] as int + 256 * Le(u);
  }

  lemma Le8(b: seq<uint8>)
    requires |b| == 8
    ensures Le(b) == b[0] as int + 0x100 * b[1] as int + 0x1_0000 * b[2] as int + 0x100_0000 * b[3] as int
      + 0x1_0000_0000 * b[4] as int + 0x100_0000_0000 * b[5] as int + 0x1_0000_0000_0000 * b[6] as int
      + 0x100_0000_0000_0000 * b[7] as int
  {
    assert b == b[..4] + b[4..];
    LeConcat(b[..4], b[4..]);
    Le4(b[..4]);
    Le4(b[4..]);
  }

  // Four little-endian 64-bit words in a row.
  lemma FourWords(a: seq<uint8>, b: seq<uint8>, c: seq<uint8>, d: seq<uint8>)
    requires |a| == |b| == |c| == |d| == 8
    ensures Le(a + b + c + d) == Le(a) + 0x1_0000_0000_0000_0000 * (Le(b)
      + 0x1_0000_0000_0000_0000 * (Le(c) + 0x1_0000_0000_0000_0000 * Le(d)))
  {
    hide Le, Pow256;
    Pow256IsPow2(8);
    Pow256IsPow2(16);
    Pow256IsPow2(24);
    Pow2Values();
    Pow2Add(128, 64);
    LeConcat(a + b + c, d);
    LeConcat(a + b, c);
    LeConcat(a, b);
  }

  method CopyBytes(a: array<uint8>) returns (b: array<uint8>)
    ensures fresh(b) && b[..] == a[..]
  {
    b := new uint8[a.Length](i requires 0 <= i < a.Length reads a => a[i]);
  }

  // MBEDTLS_GET_UINT32_LE
  function GetUint32Le(b: seq<uint8>, i: nat): (w: uint32)
    requires i + 4 <= |b|
    ensures w as int == Le(b[i..i + 4])
  {
    Le4(b[i..i + 4]);
    b[i] as uint32 + 0x100 * b[i + 1] as uint32 + 0x10000 * b[i + 2] as uint32 + 0x1000000 * b[i + 3] as uint32
  }

  // Sixteen bytes as four words.
  lemma FourLe4(b: seq<uint8>)
    requires |b| == 16
    ensures Le(b) == Le(b[0..4]) + 0x1_0000_0000 * (Le(b[4..8]) + 0x1_0000_0000 * (Le(b[8..12])
      + 0x1_0000_0000 * Le(b[12..16])))
  {
    hide Le, Pow256;
    assert Pow256(4) == 0x1_0000_0000 by {
      Pow256IsPow2(4);
      Pow2Values();
    }
    assert b[0..] == b && b[12..] == b[12..16];
    Peel(b, 0, 4);
    Peel(b, 4, 4);
    Peel(b, 8, 4);
  }

  lemma {:induction false} LeZeros(b: seq<uint8>)
    requires forall i :: 0 <= i < |b| ==> b[i] == 0
    ensures Le(b) == 0
  {
    if |b| > 0 {
      LeZeros(b[1..]);
    }
  }

  // memcpy of src to dst + at
  method CopyInto(dst: array<uint8>, at: nat, src: seq<uint8>)
    requires at + |src| <= dst.Length
    modifies dst
    ensures dst[..] == old(dst[..at]) + src + old(dst[at + |src|..])
  {
    var i := 0;
    while i < |src|
      invariant 0 <= i <= |src|
      invariant forall j :: 0 <= j < dst.Length ==>
        dst[j] == if at <= j < at + i then src[j - at] else old(dst[j])
    {
      dst[at + i] := src[i];
      i := i + 1;
    }
  }

  // The pieces of a message put together.
  function Flatten(pieces: seq<seq<uint8>>): seq<uint8> {
    if |pieces| == 0 then [] else Flatten(pieces[..|pieces| - 1]) + pieces[|pieces| - 1]
  }
}
