// ChaCha20, Poly1305 and their AEAD construction as RFC 7539 states them (sections 2.1 to 2.8):
// the reference the code in crypto/ is proved against.
module Rfc7539 {
  import opened Words
  import opened Bits
  import opened Bytes

  // ----- Section 2.5: Poly1305 -----

  const P1305: int := 0x3_ffff_ffff_ffff_ffff_ffff_ffff_ffff_fffb

  function ClampR(r: seq<uint8>): nat
    requires |r| == 16
  {
    And(Le(r), 0x0fff_fffc_0fff_fffc_0fff_fffc_0fff_ffff)
  }

  // One block of up to 16 bytes, with a byte 0x01 after its last byte.
  function MacStep(a: nat, block: seq<uint8>, r: nat): nat {
    (a + Le(block) + Pow256(|block|)) * r % P1305
  }

  function MacSum(a: nat, msg: seq<uint8>, r: nat): nat
    decreases |msg|
  {
    if |msg| == 0 then a
    else if |msg| <= 16 then MacStep(a, msg, r)
    else MacSum(MacStep(a, msg[..16], r), msg[16..], r)
  }

  function Poly1305(key: seq<uint8>, msg: seq<uint8>): (tag: seq<uint8>)
    requires |key| == 32
    ensures |tag| == 16
  {
    ToLe((MacSum(0, msg, ClampR(key[..16])) + Le(key[16..])) % 0x1_0000_0000_0000_0000_0000_0000_0000_0000, 16)
  }

  // Whole blocks can be taken off the front of a message.
  lemma {:induction false} MacSumConcat(a: nat, x: seq<uint8>, y: seq<uint8>, r: nat)
    requires |x| % 16 == 0
    ensures MacSum(a, x + y, r) == MacSum(MacSum(a, x, r), y, r)
    decreases |x|
  {
    hide MacStep;
    if |x| == 0 {
      assert x + y == y;
    } else {
      var b := MacStep(a, x[..16], r);
      assert (x + y)[..16] == x[..16] && (x + y)[16..] == x[16..] + y;
      MacSumConcat(b, x[16..], y, r);
      assert MacSum(a, x, r) == MacSum(b, x[16..], r) by {
        if |x| == 16 {
          assert x[..16] == x;
        }
      }
      assert MacSum(a, x + y, r) == MacSum(b, x[16..] + y, r) by {
        if |x + y| == 16 {
          assert x[..16] == x + y;
        }
      }
    }
  }

  // ----- Sections 2.1 to 2.4: ChaCha20 -----

  function Add32(a: uint32, b: uint32): uint32 { ((a as int + b as int) % 0x1_0000_0000) as uint32 }

  function Xor32(a: uint32, b: uint32): (r: uint32) {
    Pow2Values();
    XorBound(a as int, b as int, 32);
    Xor(a as int, b as int) as uint32
  }

  // a <<< n: the low 32 - n bits move up and the high n bits come in below them.
  function RotateLeft(a: uint32, n: nat): uint32
    requires n <= 32
  {
    RotationBound(a as int, n);
    hide Shl, Shr, Pow2;
    (Shl(a as int % Pow2(32 - n), n) + Shr(a as int, 32 - n)) as uint32
  }

  lemma RotationBound(a: nat, n: nat)
    requires a < 0x1_0000_0000 && n <= 32
    ensures Shr(a, 32 - n) < Pow2(n)
    ensures Shl(a % Pow2(32 - n), n) <= 0x1_0000_0000 - Pow2(n)
  {
    assert Pow2(32 - n) * Pow2(n) == 0x1_0000_0000 by {
      Pow2Add(32 - n, n);
      Pow2Values();
    }
    TwoParts(a, Pow2(32 - n), Pow2(n));
  }

  lemma TwoParts(a: nat, p: nat, q: nat)
    requires p > 0 && a < p * q
    ensures a / p < q && a % p * q <= p * q - q
  {
    var h, l := a / p, a % p;
    assert a == p * h + l;
    if h >= q {
      MulMonotone(p, q, h);
      assert false;
    }
    MulMonotone(q, l, p - 1);
    assert l * q == q * l && q * (p - 1) == p * q - q;
  }

  // One line of section 2.1: a += b; d ^= a; d <<<= n.
  function Step(s: seq<uint32>, a: nat, b: nat, d: nat, n: nat): (t: seq<uint32>)
    requires |s| == 16 && a < 16 && b < 16 && d < 16 && n <= 32
    ensures |t| == 16
  {
    var t := s[a := Add32(s[a], s[b])];
    t[d := RotateLeft(Xor32(t[d], t[a]), n)]
  }

  // Section 2.1, on the words numbered a, b, c, d of the state.
  function QuarterRound(s: seq<uint32>, a: nat, b: nat, c: nat, d: nat): (t: seq<uint32>)
    requires |s| == 16 && a < 16 && b < 16 && c < 16 && d < 16
    ensures |t| == 16
  {
    Step(Step(Step(Step(s, a, b, d, 16), c, d, b, 12), a, b, d, 8), c, d, b, 7)
  }

  // Section 2.3: a column round and a diagonal round.
  function InnerBlock(s: seq<uint32>): (t: seq<uint32>)
    requires |s| == 16
    ensures |t| == 16
  {
    var s := QuarterRound(s, 0, 4, 8, 12);
    var s := QuarterRound(s, 1, 5, 9, 13);
    var s := QuarterRound(s, 2, 6, 10, 14);
    var s := QuarterRound(s, 3, 7, 11, 15);
    var s := QuarterRound(s, 0, 5, 10, 15);
    var s := QuarterRound(s, 1, 6, 11, 12);
    var s := QuarterRound(s, 2, 7, 8, 13);
    QuarterRound(s, 3, 4, 9, 14)
  }

  function InnerBlocks(s: seq<uint32>, n: nat): (t: seq<uint32>)
    requires |s| == 16
    ensures |t| == 16
  {
    if n == 0 then s else InnerBlock(InnerBlocks(s, n - 1))
  }

  // "expand 32-byte k", the key, the block counter and the nonce.
  function InitialState(key: seq<uint8>, counter: uint32, nonce: seq<uint8>): (s: seq<uint32>)
    requires |key| == 32 && |nonce| == 12
    ensures |s| == 16
  {
    [0x61707865, 0x3320646e, 0x79622d32, 0x6b206574] + LeWords(key) + [counter] + LeWords(nonce)
  }

  function LeWords(b: seq<uint8>): (w: seq<uint32>)
    requires |b| % 4 == 0
    ensures |w| == |b| / 4
  {
    seq(|b| / 4, i requires 0 <= i < |b| / 4 => GetUint32Le(b, 4 * i))
  }

  function Serialize(w: seq<uint32>): (b: seq<uint8>)
    ensures |b| == 4 * |w|
  {
    if |w| == 0 then [] else Serialize(w[..|w| - 1]) + ToLe(w[|w| - 1] as int, 4)
  }

  // The 64 bytes of keystream for one state.
  function KeystreamBlock(s: seq<uint32>): (b: seq<uint8>)
    requires |s| == 16
    ensures |b| == 64
  {
    var t := InnerBlocks(s, 10);
    Serialize(seq(16, i requires 0 <= i < 16 => Add32(t[i], s[i])))
  }

  // Byte i of the keystream that starts in state s; the counter is word 12.
  function KeystreamByte(s: seq<uint32>, i: nat): uint8
    requires |s| == 16
  {
    KeystreamBlock(s[12 := Advance(s[12], i / 64)])[i % 64]
  }

  function Advance(counter: uint32, n: nat): uint32 { ((counter as int + n) % 0x1_0000_0000) as uint32 }

  function Xor8(a: uint8, b: uint8): uint8 {
    Pow2Values();
    XorBound(a as int, b as int, 8);
    Xor(a as int, b as int) as uint8
  }

  // Section 2.4, from byte position p of the keystream on.
  function EncryptAt(s: seq<uint32>, p: nat, text: seq<uint8>): (r: seq<uint8>)
    requires |s| == 16
    ensures |r| == |text|
  {
    seq(|text|, i requires 0 <= i < |text| => Xor8(text[i], KeystreamByte(s, p + i)))
  }

  function ChaCha20(key: seq<uint8>, counter: uint32, nonce: seq<uint8>, text: seq<uint8>): (r: seq<uint8>)
    requires |key| == 32 && |nonce| == 12
    ensures |r| == |text|
  {
    EncryptAt(InitialState(key, counter, nonce), 0, text)
  }

  // Encrypting twice at the same position gives the text back.
  lemma EncryptTwice(s: seq<uint32>, p: nat, text: seq<uint8>)
    requires |s| == 16
    ensures EncryptAt(s, p, EncryptAt(s, p, text)) == text
  {
    hide KeystreamByte;
    var e := EncryptAt(s, p, text);
    forall i | 0 <= i < |text| ensures Xor8(e[i], KeystreamByte(s, p + i)) == text[i] {
      XorCancels(text[i] as int, KeystreamByte(s, p + i) as int);
    }
  }

  // Encrypting in pieces is encrypting the whole.
  lemma EncryptConcat(s: seq<uint32>, p: nat, x: seq<uint8>, y: seq<uint8>)
    requires |s| == 16
    ensures EncryptAt(s, p, x + y) == EncryptAt(s, p, x) + EncryptAt(s, p + |x|, y)
  {
    hide KeystreamByte, Xor8;
  }

  // ----- Sections 2.6 and 2.8: the AEAD construction -----

  function PolyKey(key: seq<uint8>, nonce: seq<uint8>): (k: seq<uint8>)
    requires |key| == 32 && |nonce| == 12
    ensures |k| == 32
  {
    KeystreamBlock(InitialState(key, 0, nonce))[..32]
  }

  // Zeroes up to the next multiple of 16 bytes.
  function Pad16(x: seq<uint8>): (z: seq<uint8>)
    ensures (|x| + |z|) % 16 == 0
  {
    seq((16 - |x| % 16) % 16, _ => 0)
  }

  // A length as a 64-bit little-endian integer.
  function Length64(n: nat): (b: seq<uint8>)
    ensures |b| == 8
  {
    ToLe(n % 0x1_0000_0000_0000_0000, 8)
  }

  function MacData(aad: seq<uint8>, text: seq<uint8>): seq<uint8> {
    aad + Pad16(aad) + text + Pad16(text) + (Length64(|aad|) + Length64(|text|))
  }

  // What stands where in the input of the authenticator: the associated data from 0, the text from
  // the next multiple of 16, zeroes after each up to a multiple of 16, and the two lengths.
  ghost predicate LaidOut(d: seq<uint8>, aad: seq<uint8>, text: seq<uint8>) {
    var n := (|aad| + 15) / 16 * 16;
    var m := n + (|text| + 15) / 16 * 16;
    && |d| == m + 16
    && (forall i :: 0 <= i < |aad| ==> d[i] == aad[i])
    && (forall i :: |aad| <= i < n ==> d[i] == 0)
    && (forall i :: 0 <= i < |text| ==> d[n + i] == text[i])
    && (forall i :: n + |text| <= i < m ==> d[i] == 0)
    && Le(d[m..m + 8]) == |aad| % 0x1_0000_0000_0000_0000
    && Le(d[m + 8..]) == |text| % 0x1_0000_0000_0000_0000
  }

  lemma MacDataLaidOut(aad: seq<uint8>, text: seq<uint8>)
    ensures LaidOut(MacData(aad, text), aad, text)
  {
    hide MacData, Le;
    MacDataPlaces(aad, text);
  }

  // Every byte of the input, place by place.
  lemma MacDataPlaces(aad: seq<uint8>, text: seq<uint8>)
    ensures var d := MacData(aad, text);
      var n := (|aad| + 15) / 16 * 16;
      var m := n + (|text| + 15) / 16 * 16;
      && |d| == m + 16
      && (forall i :: 0 <= i < |aad| ==> d[i] == aad[i])
      && (forall i :: |aad| <= i < n ==> d[i] == 0)
      && (forall i :: 0 <= i < |text| ==> d[n + i] == text[i])
      && (forall i :: n + |text| <= i < m ==> d[i] == 0)
      && Le(d[m..m + 8]) == |aad| % 0x1_0000_0000_0000_0000
      && Le(d[m + 8..]) == |text| % 0x1_0000_0000_0000_0000
  {
    hide Le, Length64;
    PaddedLength(aad);
    PaddedLength(text);
    LengthBack(|aad|);
    LengthBack(|text|);
    var d, n := MacData(aad, text), (|aad| + 15) / 16 * 16;
    var m := n + (|text| + 15) / 16 * 16;
    assert d[m..m + 8] == Length64(|aad|) && d[m + 8..] == Length64(|text|);
  }

  lemma PaddedLength(x: seq<uint8>)
    ensures |x| + |Pad16(x)| == (|x| + 15) / 16 * 16
  {
  }

  lemma LengthBack(n: nat)
    ensures Le(Length64(n)) == n % 0x1_0000_0000_0000_0000
  {
    hide Le, ToLe, Pow256;
    Pow256IsPow2(8);
    Pow2Values();
    LeOfToLe(n % 0x1_0000_0000_0000_0000, 8);
  }

  function AeadTag(key: seq<uint8>, nonce: seq<uint8>, aad: seq<uint8>, text: seq<uint8>): (tag: seq<uint8>)
    requires |key| == 32 && |nonce| == 12
    ensures |tag| == 16
  {
    Poly1305(PolyKey(key, nonce), MacData(aad, text))
  }

  // The data is encrypted with the block counter starting at 1.
  function AeadCipher(key: seq<uint8>, nonce: seq<uint8>, text: seq<uint8>): (r: seq<uint8>)
    requires |key| == 32 && |nonce| == 12
    ensures |r| == |text|
  {
    ChaCha20(key, 1, nonce, text)
  }

  // Position 64 of the stream that starts with counter 0 is position 0 of the one with counter 1.
  lemma SecondBlock(key: seq<uint8>, nonce: seq<uint8>, text: seq<uint8>)
    requires |key| == 32 && |nonce| == 12
    ensures EncryptAt(InitialState(key, 0, nonce), 64, text) == AeadCipher(key, nonce, text)
  {
    hide KeystreamBlock, Xor8;
    var s0, s1 := InitialState(key, 0, nonce), InitialState(key, 1, nonce);
    forall i | 0 <= i < |text| ensures KeystreamByte(s0, 64 + i) == KeystreamByte(s1, i) {
      assert (64 + i) / 64 == 1 + i / 64 && (64 + i) % 64 == i % 64;
      assert s0[12 := Advance(0, 1 + i / 64)] == s1[12 := Advance(1, i / 64)];
    }
  }

  // Encryption of zeroes is the keystream itself.
  lemma KeystreamOfZeros(s: seq<uint32>)
    requires |s| == 16
    ensures EncryptAt(s, 0, seq(64, _ => 0)) == KeystreamBlock(s[12 := Advance(s[12], 0)])
  {
    hide KeystreamBlock;
  }

  // A message as sealed, and what opening it gives back.
  datatype Sealed = Sealed(text: seq<uint8>, tag: seq<uint8>)

  datatype Opened = Authentic(text: seq<uint8>) | Rejected

  function Seal(key: seq<uint8>, nonce: seq<uint8>, aad: seq<uint8>, plaintext: seq<uint8>): Sealed
    requires |key| == 32 && |nonce| == 12
  {
    var text := AeadCipher(key, nonce, plaintext);
    Sealed(text, AeadTag(key, nonce, aad, text))
  }

  function Open(key: seq<uint8>, nonce: seq<uint8>, aad: seq<uint8>, m: Sealed): Opened
    requires |key| == 32 && |nonce| == 12
  {
    if m.tag == AeadTag(key, nonce, aad, m.text) then Authentic(AeadCipher(key, nonce, m.text)) else Rejected
  }

  // Opening accepts the one right tag, with all its 16 bytes, and no other.
  lemma OpenIff(key: seq<uint8>, nonce: seq<uint8>, aad: seq<uint8>, text: seq<uint8>, tag: seq<uint8>)
    requires |key| == 32 && |nonce| == 12
    ensures var r := Open(key, nonce, aad, Sealed(text, tag));
      && (r.Authentic? <==> |tag| == 16 && forall i :: 0 <= i < 16 ==> tag[i] == AeadTag(key, nonce, aad, text)[i])
      && (r.Authentic? ==> r.text == AeadCipher(key, nonce, text))
  {
    hide AeadTag, AeadCipher;
    var t := AeadTag(key, nonce, aad, text);
    if |tag| == 16 && forall i :: 0 <= i < 16 ==> tag[i] == t[i] {
      assert tag == t;
    }
  }

  lemma SealThenOpen(key: seq<uint8>, nonce: seq<uint8>, aad: seq<uint8>, plaintext: seq<uint8>)
    requires |key| == 32 && |nonce| == 12
    ensures Open(key, nonce, aad, Seal(key, nonce, aad, plaintext)) == Authentic(plaintext)
  {
    CipherTwice(key, nonce, plaintext);
  }

  lemma CipherTwice(key: seq<uint8>, nonce: seq<uint8>, text: seq<uint8>)
    requires |key| == 32 && |nonce| == 12
    ensures AeadCipher(key, nonce, AeadCipher(key, nonce, text)) == text
  {
    EncryptTwice(InitialState(key, 1, nonce), 0, text);
  }

  // The ciphertext determines the plaintext: no two plaintexts are sealed to the same text.
  lemma SealInjective(key: seq<uint8>, nonce: seq<uint8>, x: seq<uint8>, y: seq<uint8>)
    requires |key| == 32 && |nonce| == 12 && AeadCipher(key, nonce, x) == AeadCipher(key, nonce, y)
    ensures x == y
  {
    CipherTwice(key, nonce, x);
    CipherTwice(key, nonce, y);
  }
}
