// crypto/chacha20.c: the block function on a 16-word state mutated in place, and the streaming
// context with its leftover keystream, proved to be the cipher of RFC 7539 sections 2.3 and 2.4.
module ChaCha20Cipher {
  import opened Words
  import opened Bits
  import opened Bytes
  import opened Rfc7539

  const BLOCK_SIZE: nat := 64
  const CTR_INDEX: nat := 12

  // ROTL32: (uint32_t) (value << amount) | (value >> (32 - amount))
  function Rotl32(value: uint32, amount: nat): (r: uint32)
    requires amount <= 32
    ensures r == RotateLeft(value, amount)
  {
    RotateByShifts(value as int, amount);
    hide Or, Shl, Shr;
    Or(Shl(value as int, amount) % 0x1_0000_0000, Shr(value as int, 32 - amount)) as uint32
  }

  // The bits pushed out of the word by the left shift are the ones the right shift brings back.
  lemma RotateByShifts(a: nat, n: nat)
    requires a < 0x1_0000_0000 && n <= 32
    ensures Or(Shl(a, n) % 0x1_0000_0000, Shr(a, 32 - n)) == Shl(a % Pow2(32 - n), n) + Shr(a, 32 - n) < 0x1_0000_0000
  {
    hide Or;
    RotationBound(a, n);
    var p, q, l := Pow2(32 - n), Pow2(n), a % Pow2(32 - n);
    assert p * q == 0x1_0000_0000 by {
      Pow2Add(32 - n, n);
      Pow2Values();
    }
    assert Shl(a, n) % 0x1_0000_0000 == Shl(l, n) by {
      ShiftedOut(a, p, q);
    }
    OrDisjoint(Shr(a, 32 - n), l, n);
    OrCommutes(Shl(l, n), Shr(a, 32 - n));
  }

  lemma ShiftedOut(a: nat, p: nat, q: nat)
    requires p > 0 && q > 0 && p * q == 0x1_0000_0000
    ensures a * q % 0x1_0000_0000 == a % p * q
  {
    var h, l := a / p, a % p;
    MulMonotone(q, l, p - 1);
    assert a * q == 0x1_0000_0000 * h + l * q by {
      assert (p * h + l) * q == (p * q) * h + l * q;
    }
    assert l * q == q * l && q * (p - 1) == p * q - q;
    DivModUnique(a * q, 0x1_0000_0000, h, l * q);
  }

  // a += b; d ^= a; d <<<= n
  method StepInPlace(state: array<uint32>, a: nat, b: nat, d: nat, n: nat)
    requires state.Length == 16 && a < 16 && b < 16 && d < 16 && n <= 32
    modifies state
    ensures state[..] == Step(old(state[..]), a, b, d, n)
  {
    hide RotateLeft, Xor32, Add32;
    state[a] := Add32(state[a], state[b]);
    state[d] := Xor32(state[d], state[a]);
    state[d] := Rotl32(state[d], n);
  }

  method QuarterRoundInPlace(state: array<uint32>, a: nat, b: nat, c: nat, d: nat)
    requires state.Length == 16 && a < 16 && b < 16 && c < 16 && d < 16
    modifies state
    ensures state[..] == QuarterRound(old(state[..]), a, b, c, d)
  {
    hide Step;
    StepInPlace(state, a, b, d, 16);
    StepInPlace(state, c, d, b, 12);
    StepInPlace(state, a, b, d, 8);
    StepInPlace(state, c, d, b, 7);
  }

  method InnerBlockInPlace(state: array<uint32>)
    requires state.Length == 16
    modifies state
    ensures state[..] == InnerBlock(old(state[..]))
  {
    hide QuarterRound;
    QuarterRoundInPlace(state, 0, 4, 8, 12);
    QuarterRoundInPlace(state, 1, 5, 9, 13);
    QuarterRoundInPlace(state, 2, 6, 10, 14);
    QuarterRoundInPlace(state, 3, 7, 11, 15);
    QuarterRoundInPlace(state, 0, 5, 10, 15);
    QuarterRoundInPlace(state, 1, 6, 11, 12);
    QuarterRoundInPlace(state, 2, 7, 8, 13);
    QuarterRoundInPlace(state, 3, 4, 9, 14);
  }

  // The first i words of w increased by those of initial.
  ghost predicate Increased(t: seq<uint32>, w: seq<uint32>, initial: seq<uint32>, i: nat) {
    |t| == |w| == |initial| == 16 && forall j :: 0 <= j < 16 ==> t[j] == if j < i then Add32(w[j], initial[j]) else w[j]
  }

  // working_state[i] += initial_state[i]
  method AddWord(working: array<uint32>, initial: array<uint32>, i: nat, ghost w: seq<uint32>)
    requires working != initial && i < 16 && Increased(working[..], w, initial[..], i)
    modifies working
    ensures Increased(working[..], w, initial[..], i + 1)
  {
    hide Add32;
    working[i] := Add32(working[i], initial[i]);
  }

  method AddInitial(working: array<uint32>, initial: array<uint32>)
    requires working.Length == initial.Length == 16 && working != initial
    modifies working
    ensures Increased(working[..], old(working[..]), initial[..], 16)
  {
    hide Increased;
    ghost var w := working[..];
    NoneIncreased(w, initial[..]);
    AddWord(working, initial, 0, w);
    AddWord(working, initial, 1, w);
    AddWord(working, initial, 2, w);
    AddWord(working, initial, 3, w);
    AddWord(working, initial, 4, w);
    AddWord(working, initial, 5, w);
    AddWord(working, initial, 6, w);
    AddWord(working, initial, 7, w);
    AddWord(working, initial, 8, w);
    AddWord(working, initial, 9, w);
    AddWord(working, initial, 10, w);
    AddWord(working, initial, 11, w);
    AddWord(working, initial, 12, w);
    AddWord(working, initial, 13, w);
    AddWord(working, initial, 14, w);
    AddWord(working, initial, 15, w);
  }

  lemma NoneIncreased(w: seq<uint32>, initial: seq<uint32>)
    requires |w| == |initial| == 16
    ensures Increased(w, w, initial, 0)
  {
  }

  // MBEDTLS_PUT_UINT32_LE of every word
  method PutWordsLe(working: array<uint32>, keystream: array<uint8>)
    requires working.Length == 16 && keystream.Length == BLOCK_SIZE
    modifies keystream
    ensures keystream[..] == Serialize(working[..])
  {
    hide ToLe;
    ghost var w := working[..];
    var i := 0;
    while i < 16
      invariant 0 <= i <= 16 && working[..] == w
      invariant keystream[..4 * i] == Serialize(w[..i])
    {
      CopyInto(keystream, 4 * i, ToLe(working[i] as int, 4));
      assert w[..i + 1][..i] == w[..i];
      i := i + 1;
    }
    assert w[..16] == w;
  }

  // chacha20_block
  method Block(initialState: array<uint32>, keystream: array<uint8>)
    requires initialState.Length == 16 && keystream.Length == BLOCK_SIZE
    modifies keystream
    ensures keystream[..] == KeystreamBlock(initialState[..])
  {
    hide InnerBlock, Add32, Serialize;
    ghost var s := initialState[..];
    var working := new uint32[16](i requires 0 <= i < 16
      && initialState.Length == 16 reads initialState => initialState[i]);
    assert working[..] == s;
    var i := 0;
    while i < 10
      invariant 0 <= i <= 10 && working[..] == InnerBlocks(s, i)
    {
      InnerBlockInPlace(working);
      i := i + 1;
    }
    AddInitial(working, initialState);
    var t := InnerBlocks(s, 10);
    assert working[..] == seq(16, i requires 0 <= i < 16 => Add32(t[i], s[i]));
    PutWordsLe(working, keystream);
  }

  // The state whose block holds keystream bytes 64n to 64n + 63.
  function BlockState(start: seq<uint32>, n: nat): (s: seq<uint32>)
    requires |start| == 16
    ensures |s| == 16
  {
    start[CTR_INDEX := Advance(start[CTR_INDEX], n)]
  }

  // The number of blocks started for the first p bytes.
  function BlocksUsed(p: nat): nat { (p + 63) / 64 }

  // From o on, output holds the encryption of the first done bytes of text from keystream position p;
  // from i + done on, the input is still the text; the rest of the output is as it was in was.
  // Input and output may be one buffer, read and written at the same place.
  ghost predicate Progress(input: array<uint8>, i: nat, output: array<uint8>, o: nat, text: seq<uint8>, was: seq<uint8>,
                           start: seq<uint32>, p: nat, done: nat)
    reads input, output
  {
    && |start| == 16 && done <= |text| && i + |text| <= input.Length && o + |text| <= output.Length == |was|
    && (input == output ==> i == o)
    && (forall j :: o <= j < o + done ==> output[j] == Xor8(text[j - o], KeystreamByte(start, p + (j - o))))
    && (forall j :: i + done <= j < i + |text| ==> input[j] == text[j - i])
    && (forall j :: 0 <= j < |was| && !(o <= j < o + |text|) ==> output[j] == was[j])
  }

  // output[done] = input[done] ^ k, where k is the keystream byte due there.
  method XorByte(input: array<uint8>, i: nat, output: array<uint8>, o: nat, done: nat, k: uint8,
                 ghost text: seq<uint8>, ghost was: seq<uint8>, ghost start: seq<uint32>, ghost p: nat)
    requires Progress(input, i, output, o, text, was, start, p, done) && done < |text|
    requires k == KeystreamByte(start, p + done)
    modifies output
    ensures Progress(input, i, output, o, text, was, start, p, done + 1)
  {
    hide KeystreamByte, Xor8;
    output[o + done] := Xor8(input[i + done], k);
  }

  // Within a block the number of blocks used does not change.
  lemma NextPosition(p: nat)
    requires p % BLOCK_SIZE != 0
    ensures BlocksUsed(p + 1) == BlocksUsed(p) && (p + 1) % BLOCK_SIZE == (p % BLOCK_SIZE + 1) % BLOCK_SIZE
    ensures p % BLOCK_SIZE < BLOCK_SIZE - 1 ==> (p + 1) / BLOCK_SIZE == p / BLOCK_SIZE
  {
  }

  // The leftover bytes are the keystream at the present position.
  lemma LeftoverByte(keystream: seq<uint8>, start: seq<uint32>, position: nat, used: nat)
    requires |start| == 16 && used < BLOCK_SIZE && used == position % BLOCK_SIZE
    requires keystream == KeystreamBlock(BlockState(start, position / BLOCK_SIZE))
    ensures keystream[used] == KeystreamByte(start, position)
  {
    hide KeystreamBlock;
  }

  class Context {
    const state: array<uint32>
    const keystream8: array<uint8>
    var used: nat
    // The state at the start of the stream, and the number of bytes processed since.
    ghost var start: seq<uint32>
    ghost var position: nat

    ghost predicate Sized() {
      state.Length == 16 && keystream8.Length == BLOCK_SIZE
    }

    // The counter stands past the blocks used so far, and the leftover is the rest of the last one.
    ghost predicate Valid()
      reads this, state, keystream8
    {
      && Sized() && |start| == 16 && state[..] == BlockState(start, BlocksUsed(position))
      && 0 < used <= BLOCK_SIZE && used % BLOCK_SIZE == position % BLOCK_SIZE
      && (used < BLOCK_SIZE ==> keystream8[..] == KeystreamBlock(BlockState(start, position / BLOCK_SIZE)))
    }

    // mbedtls_chacha20_init
    constructor ()
      ensures Sized() && fresh(state) && fresh(keystream8)
    {
      state := new uint32[16](_ => 0);
      keystream8 := new uint8[BLOCK_SIZE](_ => 0);
      used := BLOCK_SIZE;
      start, position := [], 0;
    }

    ghost predicate HasKey(key: seq<uint8>)
      requires Sized() && |key| == 32
      reads state
    {
      state[0] == 0x61707865 && state[1] == 0x3320646e && state[2] == 0x79622d32 && state[3] == 0x6b206574
      && state[4] == GetUint32Le(key, 0) && state[5] == GetUint32Le(key, 4)
      && state[6] == GetUint32Le(key, 8) && state[7] == GetUint32Le(key, 12)
      && state[8] == GetUint32Le(key, 16) && state[9] == GetUint32Le(key, 20)
      && state[10] == GetUint32Le(key, 24) && state[11] == GetUint32Le(key, 28)
    }

    // mbedtls_chacha20_setkey
    method SetKey(key: seq<uint8>)
      requires Sized() && |key| == 32
      modifies state
      ensures HasKey(key) && forall i :: 12 <= i < 16 ==> state[i] == old(state[i])
    {
      state[0], state[1], state[2], state[3] := 0x61707865, 0x3320646e, 0x79622d32, 0x6b206574;
      hide GetUint32Le, Le;
      state[4] := GetUint32Le(key, 0);
      state[5] := GetUint32Le(key, 4);
      state[6] := GetUint32Le(key, 8);
      state[7] := GetUint32Le(key, 12);
      state[8] := GetUint32Le(key, 16);
      state[9] := GetUint32Le(key, 20);
      state[10] := GetUint32Le(key, 24);
      state[11] := GetUint32Le(key, 28);
    }

    // mbedtls_chacha20_starts
    method Starts(nonce: seq<uint8>, counter: uint32)
      requires Sized() && |nonce| == 12
      modifies this, state, keystream8
      ensures Valid() && position == 0 && start == old(state[..12]) + [counter] + LeWords(nonce)
    {
      state[12] := counter;
      state[13] := GetUint32Le(nonce, 0);
      state[14] := GetUint32Le(nonce, 4);
      state[15] := GetUint32Le(nonce, 8);
      var i := 0;
      while i < BLOCK_SIZE
        modifies keystream8
      {
        keystream8[i] := 0;
        i := i + 1;
      }
      used := BLOCK_SIZE;
      start, position := state[..], 0;
    }

    // The first loop of update: what is left of the last block.
    method UseLeftover(size: nat, input: array<uint8>, i: nat, output: array<uint8>, o: nat,
                       ghost text: seq<uint8>, ghost was: seq<uint8>)
        returns (offset: nat)
      requires Valid() && |text| == size && Progress(input, i, output, o, text, was, start, position, 0)
      requires keystream8 != output
      modifies this`used, this`position, output
      ensures Valid() && offset <= size && position == old(position) + offset
      ensures Progress(input, i, output, o, text, was, start, old(position), offset)
      ensures offset < size ==> used == BLOCK_SIZE
    {
      hide KeystreamBlock, KeystreamByte, Progress, BlockState, BlocksUsed;
      offset := 0;
      ghost var p := position;
      while offset < size && used < BLOCK_SIZE
        invariant Valid() && offset <= size && position == p + offset
        invariant Progress(input, i, output, o, text, was, start, p, offset)
      {
        LeftoverByte(keystream8[..], start, position, used);
        NextPosition(position);
        XorByte(input, i, output, o, offset, keystream8[used], text, was, start, p);
        used := used + 1;
        offset := offset + 1;
        position := position + 1;
      }
    }

    // mbedtls_xor(output + offset, input + offset, keystream8, n), the loop over a block's bytes
    method XorBlock(n: nat, input: array<uint8>, i: nat, output: array<uint8>, o: nat, offset: nat,
                    ghost text: seq<uint8>, ghost was: seq<uint8>, ghost p: nat)
      requires Sized() && n <= BLOCK_SIZE && offset + n <= |text| && |start| == 16 && keystream8 != output
      requires (p + offset) % BLOCK_SIZE == 0
      requires keystream8[..] == KeystreamBlock(BlockState(start, (p + offset) / BLOCK_SIZE))
      requires Progress(input, i, output, o, text, was, start, p, offset)
      modifies output
      ensures Progress(input, i, output, o, text, was, start, p, offset + n)
    {
      hide KeystreamBlock, KeystreamByte, Progress, BlockState;
      var k := 0;
      while k < n
        invariant 0 <= k <= n && keystream8[..] == old(keystream8[..])
        invariant Progress(input, i, output, o, text, was, start, p, offset + k)
      {
        InBlock(p + offset, k);
        LeftoverByte(keystream8[..], start, p + offset + k, k);
        XorByte(input, i, output, o, offset + k, keystream8[k], text, was, start, p);
        k := k + 1;
      }
    }

    // chacha20_block(ctx->state, ctx->keystream8); ctx->state[12]++
    method NextBlock(ghost q: nat)
      requires Sized() && |start| == 16 && state[..] == BlockState(start, q)
      modifies state, keystream8
      ensures keystream8[..] == KeystreamBlock(BlockState(start, q)) && state[..] == BlockState(start, q + 1)
    {
      hide KeystreamBlock;
      Block(state, keystream8);
      state[CTR_INDEX] := Add32(state[CTR_INDEX], 1);
      NextCounter(start[CTR_INDEX], q);
    }

    // One round of the second loop, or the last partial block: n bytes from a fresh block.
    method FreshBlock(n: nat, input: array<uint8>, i: nat, output: array<uint8>, o: nat, offset: nat,
                      ghost text: seq<uint8>, ghost was: seq<uint8>, ghost p: nat)
      requires Valid() && 0 < n <= BLOCK_SIZE && offset + n <= |text| && used == BLOCK_SIZE && position == p + offset
      requires keystream8 != output && keystream8 != input && Progress(input, i, output, o, text, was, start, p, offset)
      modifies this`used, this`position, state, keystream8, output
      ensures Valid() && used == n && position == p + offset + n
      ensures Progress(input, i, output, o, text, was, start, p, offset + n)
    {
      hide KeystreamBlock, KeystreamByte, BlockState, BlocksUsed, Progress;
      Boundary(position, n);
      NextBlock(position / BLOCK_SIZE);
      XorBlock(n, input, i, output, o, offset, text, was, p);
      used := n;
      position := position + n;
    }

    // mbedtls_chacha20_update of size bytes from input + i to output + o, which may be the same bytes.
    method Update(size: nat, input: array<uint8>, i: nat, output: array<uint8>, o: nat)
      requires Valid() && i + size <= input.Length && o + size <= output.Length && (input == output ==> i == o)
      requires keystream8 != output && keystream8 != input
      modifies this`used, this`position, state, keystream8, output
      ensures Valid() && position == old(position) + size
      ensures output[o..o + size] == EncryptAt(start, old(position), old(input[i..i + size]))
      ensures output[..o] == old(output[..o]) && output[o + size..] == old(output[o + size..])
    {
      hide KeystreamBlock, KeystreamByte, BlockState, BlocksUsed, EncryptAt, Progress;
      ghost var text, was, p := input[i..i + size], output[..], position;
      NothingDone(input, i, output, o, text, start, p);
      var offset := UseLeftover(size, input, i, output, o, text, was);
      while size - offset >= BLOCK_SIZE
        invariant Valid() && offset <= size && position == p + offset && (offset < size ==> used == BLOCK_SIZE)
        invariant Progress(input, i, output, o, text, was, start, p, offset)
      {
        FreshBlock(BLOCK_SIZE, input, i, output, o, offset, text, was, p);
        offset := offset + BLOCK_SIZE;
      }
      if offset < size {
        FreshBlock(size - offset, input, i, output, o, offset, text, was, p);
      }
      AllDone(input, i, output, o, text, was, start, p);
    }
  }

  lemma NothingDone(input: array<uint8>, i: nat, output: array<uint8>, o: nat, text: seq<uint8>, start: seq<uint32>,
    p: nat)
    requires |start| == 16 && i + |text| <= input.Length && o + |text| <= output.Length && (input == output ==> i == o)
    requires text == input[i..i + |text|]
    ensures Progress(input, i, output, o, text, output[..], start, p, 0)
  {
  }

  // At a block boundary the next block to be used is number p / 64.
  lemma Boundary(p: nat, n: nat)
    requires p % BLOCK_SIZE == 0 && 0 < n <= BLOCK_SIZE
    ensures BlocksUsed(p) == p / BLOCK_SIZE && BlocksUsed(p + n) == p / BLOCK_SIZE + 1
    ensures (p + n) % BLOCK_SIZE == n % BLOCK_SIZE && (n < BLOCK_SIZE ==> (p + n) / BLOCK_SIZE == p / BLOCK_SIZE)
  {
  }

  // When all of the text is done the output is its encryption.
  lemma AllDone(input: array<uint8>, i: nat, output: array<uint8>, o: nat, text: seq<uint8>, was: seq<uint8>,
      start: seq<uint32>, p: nat)
    requires Progress(input, i, output, o, text, was, start, p, |text|)
    ensures output[o..o + |text|] == EncryptAt(start, p, text)
    ensures output[..o] == was[..o] && output[o + |text|..] == was[o + |text|..]
  {
    hide KeystreamByte, Xor8;
  }

  lemma InBlock(p: nat, i: nat)
    requires p % BLOCK_SIZE == 0 && i < BLOCK_SIZE
    ensures (p + i) % BLOCK_SIZE == i && (p + i) / BLOCK_SIZE == p / BLOCK_SIZE
  {
  }

  lemma NextCounter(counter: uint32, q: nat)
    ensures Add32(Advance(counter, q), 1) == Advance(counter, q + 1)
  {
    var v := counter as int + q;
    var d, r := v / 0x1_0000_0000, v % 0x1_0000_0000;
    if r == 0xffff_ffff {
      DivModUnique(v + 1, 0x1_0000_0000, d + 1, 0);
    } else {
      DivModUnique(v + 1, 0x1_0000_0000, d, r + 1);
    }
  }

  // A context that holds key starts in the state of RFC 7539 section 2.3.
  lemma KeyedStart(s: seq<uint32>, key: seq<uint8>, counter: uint32, nonce: seq<uint8>)
    requires |s| == 16 && |key| == 32 && |nonce| == 12
    requires s[0] == 0x61707865 && s[1] == 0x3320646e && s[2] == 0x79622d32 && s[3] == 0x6b206574
    requires s[4] == GetUint32Le(key, 0) && s[5] == GetUint32Le(key, 4)
    requires s[6] == GetUint32Le(key, 8) && s[7] == GetUint32Le(key, 12)
    requires s[8] == GetUint32Le(key, 16) && s[9] == GetUint32Le(key, 20)
    requires s[10] == GetUint32Le(key, 24) && s[11] == GetUint32Le(key, 28)
    ensures s[..12] + [counter] + LeWords(nonce) == InitialState(key, counter, nonce)
  {
    hide GetUint32Le, Le;
    assert s[4..12] == LeWords(key);
    assert s[..12] == [0x61707865, 0x3320646e, 0x79622d32, 0x6b206574] + s[4..12];
  }

  // Nothing has been counted at the start of the stream.
  lemma AtStart(ctx: Context)
    requires ctx.Valid() && ctx.position == 0
    ensures ctx.state[..] == ctx.start
  {
    hide KeystreamBlock;
    var s := ctx.start;
    assert Advance(s[CTR_INDEX], 0) == s[CTR_INDEX];
    assert s[CTR_INDEX := s[CTR_INDEX]] == s;
  }

  // The counter is the only word of the state that the stream changes.
  lemma StillKeyed(ctx: Context, key: seq<uint8>, counter: uint32, nonce: seq<uint8>)
    requires ctx.Valid() && |key| == 32 && |nonce| == 12 && ctx.start == InitialState(key, counter, nonce)
    ensures ctx.HasKey(key)
  {
    hide GetUint32Le, Le;
    var s, w := ctx.start, LeWords(key);
    assert forall i :: 0 <= i < 8 ==> s[4 + i] == w[i];
    assert w[0] == s[4] && w[1] == s[5] && w[2] == s[6] && w[3] == s[7];
    assert w[4] == s[8] && w[5] == s[9] && w[6] == s[10] && w[7] == s[11];
    assert forall i :: 0 <= i < 12 ==> ctx.state[..][i] == s[i];
  }

  // mbedtls_chacha20_crypt
  method Crypt(key: seq<uint8>, nonce: seq<uint8>, counter: uint32, size: nat, input: array<uint8>,
    output: array<uint8>)
    requires |key| == 32 && |nonce| == 12 && size <= input.Length && size <= output.Length
    modifies output
    ensures output[..size] == ChaCha20(key, counter, nonce, old(input[..size]))
    ensures output[size..] == old(output[size..])
  {
    hide InitialState, EncryptAt, LeWords;
    var ctx := new Context();
    ctx.SetKey(key);
    KeyedStart(ctx.state[..], key, counter, nonce);
    ctx.Starts(nonce, counter);
    ctx.Update(size, input, 0, output, 0);
    assert output[0..size] == output[..size] && old(input[0..size]) == old(input[..size]);
  }

  // starts and then one update call for each piece: the one-shot call on the concatenation.
  method CryptInPieces(key: seq<uint8>, nonce: seq<uint8>, counter: uint32, texts: seq<seq<uint8>>)
      returns (out: seq<uint8>)
    requires |key| == 32 && |nonce| == 12
    ensures out == ChaCha20(key, counter, nonce, Flatten(texts))
  {
    hide InitialState, EncryptAt, LeWords, Context.Valid;
    var ctx := new Context();
    ctx.SetKey(key);
    KeyedStart(ctx.state[..], key, counter, nonce);
    ctx.Starts(nonce, counter);
    out := [];
    var i := 0;
    while i < |texts|
      invariant 0 <= i <= |texts| && ctx.Valid() && ctx.start == InitialState(key, counter, nonce)
      invariant fresh(ctx) && fresh(ctx.state) && fresh(ctx.keystream8)
      invariant ctx.position == |out| && out == EncryptAt(ctx.start, 0, Flatten(texts[..i]))
    {
      var n := |texts[i]|;
      var buffer := new uint8[n](j requires 0 <= j < n => texts[i][j]);
      assert buffer[0..n] == texts[i];
      ctx.Update(n, buffer, 0, buffer, 0);
      EncryptConcat(ctx.start, 0, Flatten(texts[..i]), texts[i]);
      out := out + buffer[0..n];
      assert texts[..i + 1][..i] == texts[..i];
      i := i + 1;
    }
    assert texts[..i] == texts;
  }
}
