// The streaming interface of crypto/poly1305.c: a context that queues partial blocks, and the
// proof that its tag is the Poly1305 of RFC 7539 section 2.5 over everything fed to it, however
// the message was cut into update calls.
module Poly1305Mac {
  import opened Words
  import opened Bits
  import opened Bytes
  import opened Rfc7539
  import opened Poly1305Block

  const BLOCK_SIZE: nat := 16

  // Four words of a 16-byte block.
  function LoadBlock(b: seq<uint8>): (k: Key4)
    requires |b| == 16
    ensures Value4(k) == Le(b)
  {
    hide Le;
    FourLe4(b);
    Key4(GetUint32Le(b, 0), GetUint32Le(b, 4), GetUint32Le(b, 8), GetUint32Le(b, 12))
  }

  // The whole blocks of msg, each with top added to it.
  ghost function BlockSum(a: nat, msg: seq<uint8>, r: nat, top: nat): nat
    decreases |msg|
  {
    if |msg| < 16 then a else BlockSum(Residue(Times(a + Le(msg[..16]) + top, r)), msg[16..], r, top)
  }

  lemma {:induction false} BlockSumAppend(a: nat, x: seq<uint8>, y: seq<uint8>, r: nat, top: nat)
    requires |x| % 16 == 0 && |y| == 16
    ensures BlockSum(a, x + y, r, top) == Residue(Times(BlockSum(a, x, r, top) + Le(y) + top, r))
    decreases |x|
  {
    hide Residue, Times, Le;
    if |x| == 0 {
      assert x + y == y && y[..16] == y;
    } else {
      assert (x + y)[..16] == x[..16] && (x + y)[16..] == x[16..] + y;
      BlockSumAppend(Residue(Times(a + Le(x[..16]) + top, r)), x[16..], y, r, top);
    }
  }

  // With the padding bit at 2^128 these are the steps of the specification.
  lemma {:induction false} BlockSumIsMacSum(a: nat, msg: seq<uint8>, r: nat)
    requires |msg| % 16 == 0
    ensures BlockSum(a, msg, r, 0x1_0000_0000_0000_0000_0000_0000_0000_0000) == MacSum(a, msg, r)
    decreases |msg|
  {
    hide Le, Pow256;
    if |msg| > 0 {
      Pow256IsPow2(16);
      Pow2Values();
      assert msg[..16] == msg || |msg| > 16;
      BlockSumIsMacSum(MacStep(a, msg[..16], r), msg[16..], r);
      assert MacStep(a, msg[..16],
        r) == Residue(Times(a + Le(msg[..16]) + 0x1_0000_0000_0000_0000_0000_0000_0000_0000, r));
    }
  }

  // Replacing the accumulator by its residue does not change the residue of the next one.
  lemma ResidueStep(a: int, m: int, r: int)
    ensures Residue(Times(Residue(a) + m, r)) == Residue(Times(a + m, r))
  {
    var q := a / P1305;
    assert a == P1305 * q + Residue(a);
    assert (a + m) * r == (Residue(a) + m) * r + P1305 * (q * r) by {
      assert (P1305 * q + (Residue(a) + m)) * r == P1305 * q * r + (Residue(a) + m) * r;
    }
    SameResidue((Residue(a) + m) * r, q * r);
  }

  // The masks on the four words of r are the 128-bit mask of the specification.
  lemma {:induction false} AndSplit(a: nat, b: nat, c: nat, d: nat, k: nat)
    requires a < Pow2(k) && c < Pow2(k)
    ensures And(a + Times(Pow2(k), b), c + Times(Pow2(k), d)) == And(a, c) + Times(Pow2(k), And(b, d))
    decreases k
  {
    hide And;
    AndBound(a, c);
    if k > 0 {
      AndSplit(a / 2, b, c / 2, d, k - 1);
      var x, y, z := Times(Pow2(k - 1), b), Times(Pow2(k - 1), d), Times(Pow2(k - 1), And(b, d));
      TimesDouble(Pow2(k - 1), b);
      TimesDouble(Pow2(k - 1), d);
      TimesDouble(Pow2(k - 1), And(b, d));
      AndHalves(a, c, x, y);
    }
  }

  lemma AndHalves(a: nat, c: nat, x: nat, y: nat)
    ensures And(a + 2 * x, c + 2 * y) == 2 * And(a / 2 + x, c / 2 + y) + (if a % 2 == 1 && c % 2 == 1 then 1 else 0)
    ensures And(a, c) == 2 * And(a / 2, c / 2) + (if a % 2 == 1 && c % 2 == 1 then 1 else 0)
  {
    hide And;
    AndStep(a + 2 * x, c + 2 * y);
    AndStep(a, c);
    assert (a + 2 * x) / 2 == a / 2 + x && (c + 2 * y) / 2 == c / 2 + y;
  }

  lemma TimesDouble(p: int, b: int)
    ensures Times(2 * p, b) == 2 * Times(p, b)
  {
  }

  lemma AndStep(a: nat, b: nat)
    ensures And(a, b) == 2 * And(a / 2, b / 2) + (if a % 2 == 1 && b % 2 == 1 then 1 else 0)
  {
  }

  // r &= 0x0ffffffc0ffffffc0ffffffc0fffffff, word by word.
  function ClampedKey(key: seq<uint8>): (r: Key4)
    requires |key| == 32
    ensures Clamped(r) && Value4(r) == ClampR(key[..16])
  {
    hide And;
    var k := LoadBlock(key[..16]);
    AndBound(k.w0 as int, 0x0fff_ffff);
    AndBound(k.w1 as int, 0x0fff_fffc);
    AndBound(k.w2 as int, 0x0fff_fffc);
    AndBound(k.w3 as int, 0x0fff_fffc);
    MaskWords(k);
    Key4(And(k.w0 as int, 0x0fff_ffff) as uint32, And(k.w1 as int, 0x0fff_fffc) as uint32,
      And(k.w2 as int, 0x0fff_fffc) as uint32, And(k.w3 as int, 0x0fff_fffc) as uint32)
  }

  lemma MaskWords(k: Key4)
    ensures And(Value4(k), 0x0fff_fffc_0fff_fffc_0fff_fffc_0fff_ffff)
      == Horner5(And(k.w0 as int, 0x0fff_ffff), And(k.w1 as int, 0x0fff_fffc), And(k.w2 as int, 0x0fff_fffc),
           And(k.w3 as int, 0x0fff_fffc), 0)
    ensures And(k.w1 as int, 0x0fff_fffc) % 4 == And(k.w2 as int, 0x0fff_fffc) % 4 == And(k.w3 as int,
      0x0fff_fffc) % 4 == 0
  {
    hide And, Pow2;
    Pow2Values();
    var m := 0x0fff_fffc;
    AndSplit(k.w2 as int, k.w3 as int, m, m, 32);
    AndSplit(k.w1 as int, k.w2 as int + 0x1_0000_0000 * k.w3 as int, m, m + 0x1_0000_0000 * m, 32);
    AndSplit(k.w0 as int, k.w1 as int + 0x1_0000_0000 * (k.w2 as int + 0x1_0000_0000 * k.w3 as int), 0x0fff_ffff,
      m + 0x1_0000_0000 * (m + 0x1_0000_0000 * m), 32);
    MultipleOfFour(k.w1 as int);
    MultipleOfFour(k.w2 as int);
    MultipleOfFour(k.w3 as int);
  }

  lemma MultipleOfFour(a: nat)
    ensures And(a, 0x0fff_fffc) % 4 == 0
  {
    hide And;
    AndStep(a, 0x0fff_fffc);
    AndStep(a / 2, 0x07ff_fffe);
  }

  class Context {
    var r: Key4
    var s: Key4
    var acc: Acc
    const queue: array<uint8>
    var queueLen: nat
    // The key, and the whole blocks the accumulator stands for.
    ghost var key: seq<uint8>
    ghost var done: seq<uint8>

    // The words hold the key and the accumulator has taken in exactly the blocks in done.
    ghost predicate Valid()
      reads this
    {
      && queue.Length == BLOCK_SIZE && queueLen < BLOCK_SIZE && |key| == 32
      && Clamped(r) && Value4(r) == ClampR(key[..16]) && Value4(s) == Le(key[16..])
      && Bounded(acc) && acc.w4 <= 4
      && |done| % 16 == 0 && Residue(Value(acc)) == MacSum(0, done, Value4(r))
    }

    // Everything fed since the start: the absorbed blocks and the queued bytes.
    ghost function Fed(): seq<uint8>
      requires Valid()
      reads this, queue
    {
      done + queue[..queueLen]
    }

    // mbedtls_poly1305_init
    constructor ()
      ensures queue.Length == BLOCK_SIZE && fresh(queue)
    {
      r, s, acc := Key4(0, 0, 0, 0), Key4(0, 0, 0, 0), Acc(0, 0, 0, 0, 0);
      queue := new uint8[BLOCK_SIZE](_ => 0);
      queueLen := 0;
      key, done := [], [];
    }

    // mbedtls_poly1305_starts: a new key and an empty message, whatever state the context was in.
    method Starts(k: seq<uint8>)
      requires |k| == 32 && queue.Length == BLOCK_SIZE
      modifies this, queue
      ensures Valid() && key == k && Fed() == []
    {
      hide And, ClampR, Le, Horner5;
      r := ClampedKey(k);
      s := LoadBlock(k[16..]);
      acc := Acc(0, 0, 0, 0, 0);
      var i := 0;
      while i < 16
        modifies queue
      {
        queue[i] := 0;
        i := i + 1;
      }
      queueLen := 0;
      key, done := k, [];
      ZeroAcc();
    }

    // poly1305_process
    method Process(nblocks: nat, input: seq<uint8>, pad: uint32)
      requires Clamped(r) && Bounded(acc) && acc.w4 <= 4 && pad <= 1 && 16 * nblocks <= |input|
      modifies this`acc
      ensures Bounded(acc) && acc.w4 <= 4
      ensures Residue(Value(acc)) == BlockSum(Residue(old(Value(acc))), input[..16 * nblocks], Value4(r),
        0x1_0000_0000_0000_0000_0000_0000_0000_0000 * pad as int)
    {
      hide BlockSum, Times, Residue, Value4, Value, Bounded, Clamped, LoadBlock, Le;
      var i := 0;
      ghost var top := 0x1_0000_0000_0000_0000_0000_0000_0000_0000 * pad as int;
      NoBlocks(Residue(Value(acc)), Value4(r), top);
      assert input[..0] == [];
      while i < nblocks
        invariant 0 <= i <= nblocks && Bounded(acc) && acc.w4 <= 4
        invariant Residue(Value(acc)) == BlockSum(Residue(old(Value(acc))), input[..16 * i], Value4(r), top)
      {
        ghost var v := Value(acc);
        acc := ProcessBlock(acc, LoadBlock(input[16 * i..16 * i + 16]), pad, r);
        AbsorbNext(Residue(old(Value(acc))), input, i, Value4(r), top, v, Value(acc));
        i := i + 1;
      }
    }

    // Whole blocks of the message, with the padding bit and an empty queue.
    method ProcessMessage(nblocks: nat, input: seq<uint8>)
      requires Valid() && queueLen == 0 && 16 * nblocks <= |input|
      modifies this`acc, this`done
      ensures Valid() && done == old(done) + input[..16 * nblocks]
    {
      hide MacSum, BlockSum, Residue, Value, Value4, Bounded, Clamped, ClampR, Le;
      Process(nblocks, input, 1);
      BlockSumIsMacSum(MacSum(0, done, Value4(r)), input[..16 * nblocks], Value4(r));
      MacSumConcat(0, done, input[..16 * nblocks], Value4(r));
      done := done + input[..16 * nblocks];
    }

    // The first part of mbedtls_poly1305_update: what is queued is topped up from the input.
    method TopUpQueue(input: seq<uint8>) returns (offset: nat)
      requires Valid() && |input| > 0 && queueLen > 0
      modifies this`acc, this`queueLen, this`done, queue
      ensures Valid() && offset <= |input| && Fed() == old(Fed()) + input[..offset]
      ensures offset < |input| ==> queueLen == 0
    {
      hide MacSum, BlockSum, Residue, Value, Value4, Bounded, Clamped, ClampR, Le;
      var free := BLOCK_SIZE - queueLen;
      if |input| < free {
        CopyInto(queue, queueLen, input);
        queueLen := queueLen + |input|;
        offset := |input|;
        assert queue[..queueLen] == old(queue[..queueLen]) + input;
      } else {
        CopyInto(queue, queueLen, input[..free]);
        queueLen := 0;
        offset := free;
        assert queue[..] == old(queue[..queueLen]) + input[..offset];
        ProcessMessage(1, queue[..]);
        assert queue[..][..16] == queue[..];
      }
    }

    // The rest of it: whole blocks straight from the input, and a partial one into the queue.
    method TakeBlocks(input: seq<uint8>, start: nat)
      requires Valid() && queueLen == 0 && start <= |input|
      modifies this`acc, this`queueLen, this`done, queue
      ensures Valid() && Fed() == old(Fed()) + input[start..]
    {
      hide MacSum, BlockSum, Residue, Value, Value4, Bounded, Clamped, ClampR, Le;
      var offset, remaining := start, |input| - start;
      if remaining >= BLOCK_SIZE {
        var nblocks := remaining / BLOCK_SIZE;
        ProcessMessage(nblocks, input[offset..]);
        offset := offset + nblocks * BLOCK_SIZE;
        remaining := remaining % BLOCK_SIZE;
        assert input[start..][..16 * nblocks] == input[start..offset];
      }
      assert done == old(done) + input[start..offset];
      if remaining > 0 {
        queueLen := remaining;
        CopyInto(queue, 0, input[offset..offset + remaining]);
        assert queue[..queueLen] == input[offset..];
      }
      assert input[start..] == input[start..offset] + input[offset..];
    }

    // mbedtls_poly1305_update
    method Update(input: seq<uint8>)
      requires Valid()
      modifies this`acc, this`queueLen, this`done, queue
      ensures Valid() && Fed() == old(Fed()) + input
    {
      hide MacSum, BlockSum, Residue, Value, Value4, Bounded, Clamped, ClampR, Le;
      var offset := 0;
      if |input| > 0 && queueLen > 0 {
        offset := TopUpQueue(input);
      }
      if offset < |input| {
        TakeBlocks(input, offset);
        assert input == input[..offset] + input[offset..];
      }
    }

    // poly1305_compute_mac
    method ComputeMac() returns (mac: seq<uint8>)
      requires Bounded(acc) && acc.w4 <= 4
      ensures mac == ToLe(Low128(Residue(Value(acc)) + Value4(s)), 16)
    {
      hide Residue, MaskedSubtract, AddKey, Value;
      var t := AddKey(MaskedSubtract(acc), s);
      LowSum(Residue(Value(acc)), Value4(s));
      mac := PutWords(t);
    }

    // mbedtls_poly1305_finish. After whole blocks the context can go on after it.
    method Finish() returns (mac: seq<uint8>)
      requires Valid()
      modifies this`acc, this`queueLen, queue
      ensures mac == Poly1305(key, old(Fed()))
      ensures |old(Fed())| % 16 == 0 ==> Valid() && Fed() == old(Fed())
    {
      hide MacSum, BlockSum, Residue, Value, Value4, Bounded, Clamped, ClampR, Le, Poly1305, ToLe, Low128;
      ghost var tail := queue[..queueLen];
      ghost var m := MacSum(0, done, Value4(r));
      MacSumConcat(0, done, tail, Value4(r));
      if queueLen > 0 {
        PadQueue();
        Process(1, queue[..], 0);
        assert queue[..][..16] == queue[..];
        LastBlock(m, tail, queue[..], Value4(r));
      } else {
        NoMessage(m, Value4(r));
      }
      TagIsPoly1305(key, old(Fed()), Value4(r), Residue(Value(acc)), Value4(s));
      mac := ComputeMac();
    }

    // A byte 0x01 after the queued bytes, then zeroes.
    method PadQueue()
      requires queue.Length == BLOCK_SIZE && 0 < queueLen < BLOCK_SIZE
      modifies this`queueLen, queue
      ensures queue[..] == old(queue[..queueLen]) + [1] + seq(15 - old(queueLen), _ => 0)
    {
      queue[queueLen] := 1;
      queueLen := queueLen + 1;
      var i := queueLen;
      while i < BLOCK_SIZE
        invariant queueLen <= i <= BLOCK_SIZE
        invariant queue[..queueLen] == old(queue[..queueLen]) + [1]
        invariant forall j :: queueLen <= j < i ==> queue[j] == 0
      {
        queue[i] := 0;
        i := i + 1;
      }
    }
  }

  lemma LowSum(x: nat, y: nat)
    ensures Low128(Low128(x) + y) == Low128(x + y)
  {
    var m := 0x1_0000_0000_0000_0000_0000_0000_0000_0000;
    var q := x / m;
    assert x == m * q + Low128(x);
    var t := Low128(x) + y;
    DivModUnique(x + y, m, q + t / m, t % m);
  }

  // MBEDTLS_PUT_UINT32_LE of four words in a row
  function PutWords(t: Key4): (mac: seq<uint8>)
    ensures mac == ToLe(Value4(t), 16)
  {
    var b0, b1, b2, b3 := ToLe(t.w0 as int, 4), ToLe(t.w1 as int, 4), ToLe(t.w2 as int, 4), ToLe(t.w3 as int, 4);
    var mac := b0 + b1 + b2 + b3;
    PutBytes(t, mac);
    mac
  }

  lemma PutBytes(t: Key4, mac: seq<uint8>)
    requires mac == ToLe(t.w0 as int, 4) + ToLe(t.w1 as int, 4) + ToLe(t.w2 as int, 4) + ToLe(t.w3 as int, 4)
    ensures mac == ToLe(Value4(t), 16)
  {
    hide Le, ToLe, Pow256;
    assert mac[0..4] == ToLe(t.w0 as int, 4) && mac[4..8] == ToLe(t.w1 as int, 4)
      && mac[8..12] == ToLe(t.w2 as int, 4) && mac[12..16] == ToLe(t.w3 as int, 4);
    FourLe4(mac);
    Pow256IsPow2(4);
    Pow2Values();
    LeOfToLe(t.w0 as int, 4);
    LeOfToLe(t.w1 as int, 4);
    LeOfToLe(t.w2 as int, 4);
    LeOfToLe(t.w3 as int, 4);
    ToLeOfLe(mac);
  }

  // The queue padded with 0x01 and zeroes is the last, short block of the specification.
  lemma LastBlock(m: nat, tail: seq<uint8>, queue: seq<uint8>, r: nat)
    requires 0 < |tail| < 16 && queue == tail + [1] + seq(15 - |tail|, _ => 0)
    ensures BlockSum(m, queue, r, 0) == MacSum(m, tail, r)
  {
    hide Le, Pow256;
    var zeros: seq<uint8> := seq(15 - |tail|, _ => 0);
    LeZeros(zeros);
    LeConcat([1], zeros);
    LeConcat(tail, [1] + zeros);
    assert queue == tail + ([1] + zeros) && queue[..16] == queue;
    OneByte();
    assert Le(queue) == Le(tail) + Pow256(|tail|);
  }

  lemma OneByte()
    ensures Le([1]) == 1
  {
    assert Le([1]) == 1 + 256 * Le([]);
  }

  lemma NoMessage(m: nat, r: nat)
    ensures MacSum(m, [], r) == m
  {
  }

  lemma TagIsPoly1305(key: seq<uint8>, msg: seq<uint8>, r: nat, a: nat, s: nat)
    requires |key| == 32 && r == ClampR(key[..16]) && s == Le(key[16..]) && a == MacSum(0, msg, r)
    ensures ToLe(Low128(a + s), 16) == Poly1305(key, msg)
  {
    hide MacSum, ClampR, Le, ToLe;
  }

  // One more block of the input.
  lemma AbsorbNext(a: nat, input: seq<uint8>, i: nat, r: nat, top: nat, v: nat, w: nat)
    requires 16 * i + 16 <= |input| && Residue(v) == BlockSum(a, input[..16 * i], r, top)
    requires Residue(w) == Residue(Times(v + Le(input[16 * i..16 * i + 16]) + top, r))
    ensures Residue(w) == BlockSum(a, input[..16 * (i + 1)], r, top)
  {
    hide BlockSum, Times, Residue, Le;
    var block := input[16 * i..16 * i + 16];
    ResidueStep(v, Le(block) + top, r);
    BlockSumAppend(a, input[..16 * i], block, r, top);
    assert input[..16 * i] + block == input[..16 * (i + 1)];
  }

  lemma ZeroAcc()
    ensures Residue(Value(Acc(0, 0, 0, 0, 0))) == 0 && Bounded(Acc(0, 0, 0, 0, 0))
  {
  }

  lemma NoBlocks(a: nat, r: nat, top: nat)
    ensures BlockSum(a, [], r, top) == a
  {
  }

  // mbedtls_poly1305_mac
  method Mac(key: seq<uint8>, input: seq<uint8>) returns (mac: seq<uint8>)
    requires |key| == 32
    ensures mac == Poly1305(key, input)
  {
    mac := MacInPieces(key, [input]);
    assert Flatten([input]) == input by {
      assert Flatten([input]) == Flatten([]) + input;
    }
  }

  // starts, any number of updates, finish: the tag depends on the message and not on how it was cut.
  method MacInPieces(key: seq<uint8>, pieces: seq<seq<uint8>>) returns (mac: seq<uint8>)
    requires |key| == 32
    ensures mac == Poly1305(key, Flatten(pieces))
  {
    hide Poly1305;
    var ctx := new Context();
    ctx.Starts(key);
    var i := 0;
    while i < |pieces|
      invariant 0 <= i <= |pieces| && ctx.Valid() && ctx.key == key && fresh(ctx) && fresh(ctx.queue)
      invariant ctx.Fed() == Flatten(pieces[..i])
    {
      ctx.Update(pieces[i]);
      assert pieces[..i + 1][..i] == pieces[..i];
      i := i + 1;
    }
    assert pieces[..i] == pieces;
    mac := ctx.Finish();
  }
}
