// crypto/chachapoly.c: the state machine that drives ChaCha20 and Poly1305, proved to compute
// the AEAD of RFC 7539 section 2.8 for every way of cutting the data into calls.
module ChaChaPoly {
  import opened Words
  import opened Bits
  import opened Bytes
  import opened Rfc7539
  import ChaCha20Cipher
  import Poly1305Mac

  const BAD_STATE: int := -0x0054
  const AUTH_FAILED: int := -0x0056

  datatype State = Init | Aad | Ciphertext | Finished

  datatype Mode = Encrypt | Decrypt

  function Add64(a: uint64, n: nat): uint64 { ((a as int + n) % 0x1_0000_0000_0000_0000) as uint64 }

  class Context {
    const chacha: ChaCha20Cipher.Context
    const poly: Poly1305Mac.Context
    var aadLen: uint64
    var ciphertextLen: uint64
    var state: State
    var mode: Mode
    // The message in hand: its key and nonce, and the data taken in so far on either side of the cipher.
    ghost var key: seq<uint8>
    ghost var nonce: seq<uint8>
    ghost var aad: seq<uint8>
    ghost var plaintext: seq<uint8>
    ghost var ciphertext: seq<uint8>

    ghost function Repr(): set<object>
      reads this
    {
      {this, chacha, chacha.state, chacha.keystream8, poly, poly.queue}
    }

    ghost predicate Objects()
      reads this
    {
      && chacha.Sized() && poly.queue.Length == Poly1305Mac.BLOCK_SIZE && poly.queue != chacha.keystream8
    }

    // A buffer of the caller is not part of the context.
    ghost predicate Outside(a: array<uint8>)
      reads this
    {
      a != chacha.keystream8 && a != poly.queue
    }

    // Between starts and finish: both halves are at the same place in the same message.
    ghost predicate Active()
      reads this, chacha, chacha.state, chacha.keystream8, poly, poly.queue
    {
      && Objects() && chacha.Valid() && poly.Valid() && |key| == 32 && |nonce| == 12
      && chacha.start == InitialState(key, 0, nonce) && poly.key == PolyKey(key, nonce)
      && (state == Aad || state == Ciphertext)
      && aadLen as int == |aad| % 0x1_0000_0000_0000_0000
      && ciphertextLen as int == |ciphertext| % 0x1_0000_0000_0000_0000
      && chacha.position == 64 + |plaintext| && ciphertext == AeadCipher(key, nonce, plaintext)
      && poly.Fed() == (if state == Aad then aad else aad + Pad16(aad) + ciphertext)
      && (state == Aad ==> plaintext == [])
    }

    constructor ()
      ensures Objects() && state == Init
      ensures fresh(Repr())
    {
      var c := new ChaCha20Cipher.Context();
      var p := new Poly1305Mac.Context();
      chacha, poly := c, p;
      aadLen, ciphertextLen := 0, 0;
      state, mode := Init, Encrypt;
      key, nonce, aad, plaintext, ciphertext := [], [], [], [], [];
    }

    // mbedtls_chachapoly_setkey
    method SetKey(k: seq<uint8>)
      requires Objects() && |k| == 32
      modifies chacha.state
      ensures chacha.HasKey(k)
    {
      chacha.SetKey(k);
    }

    // The key of Poly1305: the keystream at counter 0, as the encryption of 64 zeroes in place.
    method GeneratePolyKey(n: seq<uint8>, ghost k: seq<uint8>) returns (polyKey: seq<uint8>)
      requires chacha.Sized() && |k| == 32 && |n| == 12 && chacha.HasKey(k)
      modifies chacha, chacha.state, chacha.keystream8
      ensures chacha.Valid() && chacha.start == InitialState(k, 0, n) && chacha.position == 64
      ensures polyKey == PolyKey(k, n)
    {
      hide InitialState, PolyKey, EncryptAt, ChaCha20Cipher.Context.Valid, LeWords;
      ChaCha20Cipher.KeyedStart(chacha.state[..], k, 0, n);
      chacha.Starts(n, 0);
      var buffer := new uint8[64](_ => 0);
      assert buffer[..64] == seq(64, _ => 0);
      chacha.Update(64, buffer, 0, buffer, 0);
      FirstBlock(k, n);
      polyKey := buffer[..64][..32];
    }

    method StartBoth(n: seq<uint8>, ghost k: seq<uint8>)
      requires Objects() && |k| == 32 && |n| == 12 && chacha.HasKey(k)
      modifies chacha, chacha.state, chacha.keystream8, poly, poly.queue
      ensures chacha.Valid() && chacha.start == InitialState(k, 0, n) && chacha.position == 64
      ensures poly.Valid() && poly.key == PolyKey(k, n) && poly.Fed() == []
    {
      hide InitialState, PolyKey, Poly1305Mac.Context.Valid, ChaCha20Cipher.Context.Valid,
        ChaCha20Cipher.Context.HasKey;
      var polyKey := GeneratePolyKey(n, k);
      poly.Starts(polyKey);
    }

    // mbedtls_chachapoly_starts, from any state
    method Starts(n: seq<uint8>, m: Mode, ghost k: seq<uint8>)
      requires Objects() && |k| == 32 && |n| == 12 && chacha.HasKey(k)
      modifies Repr()
      ensures Active() && state == Aad && mode == m && key == k && nonce == n
      ensures aad == [] && plaintext == [] && ciphertext == []
    {
      hide InitialState, PolyKey, AeadCipher, Poly1305Mac.Context.Valid, Poly1305Mac.Context.Fed,
        ChaCha20Cipher.Context.Valid;
      StartBoth(n, k);
      aadLen, ciphertextLen := 0, 0;
      state, mode := Aad, m;
      key, nonce, aad, plaintext, ciphertext := k, n, [], [], [];
      NothingEncrypted(k, n);
    }

    // Every call outside its states changes nothing and reports the bad state.
    // mbedtls_chachapoly_update_aad
    method UpdateAad(data: seq<uint8>) returns (ret: int)
      requires state == Aad ==> Active()
      modifies Repr()
      ensures old(state) != Aad ==> ret == BAD_STATE && unchanged(Repr())
      ensures old(state) == Aad ==> ret == 0 && Active() && state == Aad && aad == old(aad) + data
      ensures mode == old(mode) && key == old(key) && nonce == old(nonce)
      ensures plaintext == old(plaintext) && ciphertext == old(ciphertext)
    {
      hide InitialState, PolyKey, AeadCipher, Poly1305Mac.Context.Valid, ChaCha20Cipher.Context.Valid;
      if state != Aad {
        return BAD_STATE;
      }
      LengthSum(aadLen, |aad|, |data|);
      aadLen := Add64(aadLen, |data|);
      poly.Update(data);
      aad := aad + data;
      ret := 0;
    }

    // chachapoly_pad_aad on the way into the ciphertext
    method EnterCiphertext()
      requires Active() && state == Aad
      modifies this`state, poly, poly.queue
      ensures Active() && state == Ciphertext
    {
      hide InitialState, PolyKey, AeadCipher, Poly1305Mac.Context.Valid, Poly1305Mac.Context.Fed,
        ChaCha20Cipher.Context.Valid;
      state := Ciphertext;
      PadData(aadLen, aad);
      NothingEncrypted(key, nonce);
    }

    // chachapoly_pad_aad and chachapoly_pad_ciphertext: nul bytes up to the next multiple of 16
    method PadData(n: uint64, ghost data: seq<uint8>)
      requires poly.Valid() && n as int == |data| % 0x1_0000_0000_0000_0000
      modifies poly, poly.queue
      ensures poly.Valid() && poly.key == old(poly.key) && poly.Fed() == old(poly.Fed()) + Pad16(data)
    {
      hide Poly1305Mac.Context.Valid, Poly1305Mac.Context.Fed;
      var partialBlockLen := n as int % 16;
      LengthMod16(n, |data|);
      if partialBlockLen == 0 {
        assert Pad16(data) == [];
        assert poly.Fed() + [] == poly.Fed();
        return;
      }
      poly.Update(seq(16 - partialBlockLen, _ => 0));
    }

    // The encrypting branch of mbedtls_chachapoly_update
    method EncryptData(len: nat, input: array<uint8>, output: array<uint8>)
      requires Active() && state == Ciphertext && len <= input.Length && len <= output.Length
      requires Outside(input) && Outside(output)
      modifies this`ciphertextLen, this`plaintext, this`ciphertext, chacha, chacha.state, chacha.keystream8, poly,
        poly.queue, output
      ensures Active() && plaintext == old(plaintext) + old(input[..len])
      ensures ciphertext == old(ciphertext) + output[..len] && output[len..] == old(output[len..])
    {
      hide InitialState, PolyKey, AeadCipher, Poly1305Mac.Context.Valid, Poly1305Mac.Context.Fed,
        ChaCha20Cipher.Context.Valid, EncryptAt;
      LengthSum(ciphertextLen, |ciphertext|, len);
      ciphertextLen := Add64(ciphertextLen, len);
      ghost var t := input[..len];
      chacha.Update(len, input, 0, output, 0);
      poly.Update(output[..len]);
      CipherAppend(key, nonce, plaintext, t);
      plaintext := plaintext + t;
      ciphertext := ciphertext + output[..len];
    }

    // The decrypting branch: the ciphertext is authenticated before it may be overwritten.
    method DecryptData(len: nat, input: array<uint8>, output: array<uint8>)
      requires Active() && state == Ciphertext && len <= input.Length && len <= output.Length
      requires Outside(input) && Outside(output)
      modifies this`ciphertextLen, this`plaintext, this`ciphertext, chacha, chacha.state, chacha.keystream8, poly,
        poly.queue, output
      ensures Active() && ciphertext == old(ciphertext) + old(input[..len])
      ensures plaintext == old(plaintext) + output[..len] && output[len..] == old(output[len..])
    {
      hide InitialState, PolyKey, AeadCipher, Poly1305Mac.Context.Valid, Poly1305Mac.Context.Fed,
        ChaCha20Cipher.Context.Valid, EncryptAt;
      LengthSum(ciphertextLen, |ciphertext|, len);
      ciphertextLen := Add64(ciphertextLen, len);
      ghost var t := input[..len];
      poly.Update(input[..len]);
      chacha.Update(len, input, 0, output, 0);
      CipherAppend(key, nonce, plaintext, output[..len]);
      EncryptTwice(chacha.start, 64 + |plaintext|, t);
      plaintext := plaintext + output[..len];
      ciphertext := ciphertext + t;
    }

    // mbedtls_chachapoly_update
    method Update(len: nat, input: array<uint8>, output: array<uint8>) returns (ret: int)
      requires (state == Aad || state == Ciphertext ==> Active()) && len <= input.Length && len <= output.Length
      requires Outside(input) && Outside(output)
      modifies Repr(), output
      ensures old(state) != Aad && old(state) != Ciphertext ==>
        ret == BAD_STATE && unchanged(Repr()) && unchanged(output)
      ensures old(state) == Aad || old(state) == Ciphertext ==>
        ret == 0 && Active() && state == Ciphertext && aad == old(aad) && output[len..] == old(output[len..])
      ensures old(state) == Aad || old(state) == Ciphertext ==>
        if mode == Encrypt then
          plaintext == old(plaintext) + old(input[..len]) && ciphertext == old(ciphertext) + output[..len]
        else
          ciphertext == old(ciphertext) + old(input[..len]) && plaintext == old(plaintext) + output[..len]
      ensures mode == old(mode) && key == old(key) && nonce == old(nonce)
    {
      hide Active, Poly1305Mac.Context.Valid, Poly1305Mac.Context.Fed, ChaCha20Cipher.Context.Valid;
      if state != Aad && state != Ciphertext {
        return BAD_STATE;
      }
      if state == Aad {
        EnterCiphertext();
      }
      if mode == Encrypt {
        EncryptData(len, input, output);
      } else {
        DecryptData(len, input, output);
      }
      ret := 0;
    }

    // After finish the authenticator has taken in whole blocks only and could go on.
    ghost predicate Done()
      reads this, poly, poly.queue
    {
      && Objects() && |key| == 32 && |nonce| == 12 && state == Finished
      && poly.Valid() && |poly.Fed()| % 16 == 0 && poly.key == PolyKey(key, nonce)
      && aadLen as int == |aad| % 0x1_0000_0000_0000_0000
      && ciphertextLen as int == |ciphertext| % 0x1_0000_0000_0000_0000
    }

    // The padding that mbedtls_chachapoly_finish owes in each of the two active states
    method PadLast()
      requires Active()
      modifies this`state, poly, poly.queue
      ensures state == Finished && poly.Valid() && poly.key == PolyKey(key, nonce)
      ensures poly.Fed() == aad + Pad16(aad) + ciphertext + Pad16(ciphertext)
    {
      hide InitialState, PolyKey, AeadCipher, Poly1305Mac.Context.Valid, Poly1305Mac.Context.Fed,
        ChaCha20Cipher.Context.Valid;
      if state == Aad {
        PadData(aadLen, aad);
        NothingEncrypted(key, nonce);
        assert ciphertext == [] && Pad16(ciphertext) == [];
      } else {
        PadData(ciphertextLen, ciphertext);
      }
      state := Finished;
    }

    // The block of the two lengths, and the tag.
    method LastBlock(mac: array<uint8>)
      requires Objects() && poly.Valid() && |poly.Fed()| % 16 == 0 && mac.Length >= 16 && Outside(mac)
      modifies poly, poly.queue, mac
      ensures poly.Valid() && poly.key == old(poly.key)
      ensures poly.Fed() == old(poly.Fed()) + (ToLe(aadLen as int, 8) + ToLe(ciphertextLen as int, 8))
      ensures mac[..16] == Poly1305(poly.key, poly.Fed()) && mac[16..] == old(mac[16..])
    {
      hide Poly1305, ToLe, Poly1305Mac.Context.Valid, Poly1305Mac.Context.Fed;
      poly.Update(ToLe(aadLen as int, 8) + ToLe(ciphertextLen as int, 8));
      var tag := poly.Finish();
      CopyInto(mac, 0, tag);
    }

    // The message is whole: pad what came last, add the lengths, produce the tag.
    method FinishMessage(mac: array<uint8>)
      requires Active() && mac.Length >= 16 && Outside(mac)
      modifies this`state, poly, poly.queue, mac
      ensures Done() && poly.Fed() == MacData(aad, ciphertext) && LaidOut(poly.Fed(), aad, ciphertext)
      ensures mac[..16] == AeadTag(key, nonce, aad, ciphertext) && mac[16..] == old(mac[16..])
      ensures mac[..16] == Poly1305(poly.key, poly.Fed())
    {
      hide LaidOut, InitialState, PolyKey, AeadCipher, Poly1305, Pad16, Length64,
        Poly1305Mac.Context.Valid, Poly1305Mac.Context.Fed, ChaCha20Cipher.Context.Valid;
      PadLast();
      Aligned(aad, ciphertext);
      LengthBytes(aadLen, |aad|);
      LengthBytes(ciphertextLen, |ciphertext|);
      LastBlock(mac);
      MacDataLaidOut(aad, ciphertext);
    }

    // mac holds the tag of the whole message.
    ghost predicate Tagged(mac: array<uint8>)
      reads this, poly, poly.queue, mac
    {
      Done() && mac.Length >= 16 && poly.Fed() == MacData(aad, ciphertext)
        && mac[..16] == AeadTag(key, nonce, aad, ciphertext) == Poly1305(poly.key, poly.Fed())
    }

    // mbedtls_chachapoly_finish. Only the initial state is refused: a second finish goes on to
    // authenticate the lengths once more, although the header promises the bad-state code.
    method Finish(mac: array<uint8>) returns (ret: int)
      requires (state == Aad || state == Ciphertext ==> Active()) && (state == Finished ==> Done())
      requires mac.Length >= 16 && Outside(mac)
      modifies this`state, poly, poly.queue, mac
      ensures old(state) == Init ==> ret == BAD_STATE && state == Init && unchanged(poly, poly.queue, mac)
      ensures old(state) == Aad || old(state) == Ciphertext ==>
        ret == 0 && Tagged(mac) && LaidOut(poly.Fed(), aad, ciphertext)
      ensures old(state) == Finished ==> ret == 0 && Done() && mac[..16] == Poly1305(poly.key, poly.Fed())
      ensures old(state) == Finished ==> poly.Fed() == old(poly.Fed()) + (Length64(|aad|) + Length64(|ciphertext|))
      ensures old(state) == Finished ==> poly.Fed() != old(poly.Fed())
    {
      hide PolyKey, AeadTag, Poly1305, MacData, Length64, Active, LaidOut,
        Poly1305Mac.Context.Valid, Poly1305Mac.Context.Fed, ChaCha20Cipher.Context.Valid;
      if state == Init {
        return BAD_STATE;
      }
      if state != Finished {
        FinishMessage(mac);
      } else {
        LengthBytes(aadLen, |aad|);
        LengthBytes(ciphertextLen, |ciphertext|);
        LastBlock(mac);
      }
      ret := 0;
    }

    // The first three calls of chachapoly_crypt_and_tag: the message is taken in whole.
    method CryptMessage(m: Mode, length: nat, n: seq<uint8>, data: seq<uint8>, input: array<uint8>,
      output: array<uint8>,
                        ghost k: seq<uint8>)
      requires Objects() && |k| == 32 && |n| == 12 && chacha.HasKey(k)
      requires length <= input.Length && length <= output.Length && Outside(input) && Outside(output)
      modifies Repr(), output
      ensures Active() && chacha.HasKey(k) && key == k && nonce == n && aad == data
      ensures ciphertext == if m == Encrypt then output[..length] else old(input[..length])
      ensures plaintext == if m == Encrypt then old(input[..length]) else output[..length]
      ensures output[length..] == old(output[length..])
    {
      hide Active, AeadCipher, InitialState, Poly1305Mac.Context.Valid, Poly1305Mac.Context.Fed,
        ChaCha20Cipher.Context.Valid, ChaCha20Cipher.Context.HasKey;
      Starts(n, m, k);
      var ret := UpdateAad(data);
      ret := Update(length, input, output);
      WhenActive();
    }

    // chachapoly_crypt_and_tag. Each of its four calls returns 0 here, so its error exits are not taken.
    method CryptAndTag(m: Mode, length: nat, n: seq<uint8>, data: seq<uint8>, input: array<uint8>, output: array<uint8>,
                       tag: array<uint8>, ghost k: seq<uint8>)
        returns (ret: int)
      requires Objects() && |k| == 32 && |n| == 12 && chacha.HasKey(k) && tag.Length >= 16 && tag != output
      requires length <= input.Length && length <= output.Length && Outside(input) && Outside(output) && Outside(tag)
      modifies Repr(), output, tag
      ensures ret == 0 && chacha.HasKey(k) && output[..length] == AeadCipher(k, n, old(input[..length]))
      ensures tag[..16] == AeadTag(k, n, data, if m == Encrypt then output[..length] else old(input[..length]))
      ensures output[length..] == old(output[length..])
    {
      hide Active, Done, AeadCipher, AeadTag, InitialState, Poly1305Mac.Context.Valid, Poly1305Mac.Context.Fed,
        ChaCha20Cipher.Context.Valid, ChaCha20Cipher.Context.HasKey;
      CryptMessage(m, length, n, data, input, output, k);
      WhenActive();
      CipherTwice(k, n, output[..length]);
      ret := Finish(tag);
    }

    // mbedtls_chachapoly_encrypt_and_tag
    method EncryptAndTag(length: nat, n: seq<uint8>, data: seq<uint8>, input: array<uint8>, output: array<uint8>,
                         tag: array<uint8>, ghost k: seq<uint8>)
        returns (ret: int)
      requires Objects() && |k| == 32 && |n| == 12 && chacha.HasKey(k) && tag.Length >= 16 && tag != output
      requires length <= input.Length && length <= output.Length && Outside(input) && Outside(output) && Outside(tag)
      modifies Repr(), output, tag
      ensures ret == 0 && chacha.HasKey(k)
      ensures Sealed(output[..length], tag[..16]) == Seal(k, n, data, old(input[..length]))
      ensures output[length..] == old(output[length..])
    {
      hide AeadCipher, AeadTag, ChaCha20Cipher.Context.HasKey;
      ret := CryptAndTag(Encrypt, length, n, data, input, output, tag, k);
    }

    // mbedtls_chachapoly_auth_decrypt: the plaintext if the tag is the right one, otherwise an
    // error and an output of zeroes.
    method AuthDecrypt(length: nat, n: seq<uint8>, data: seq<uint8>, tag: seq<uint8>, input: array<uint8>,
                       output: array<uint8>, ghost k: seq<uint8>)
        returns (ret: int)
      requires Objects() && |k| == 32 && |n| == 12 && chacha.HasKey(k) && |tag| == 16
      requires length <= input.Length && length <= output.Length && Outside(input) && Outside(output)
      modifies Repr(), output
      ensures chacha.HasKey(k) && output[length..] == old(output[length..])
      ensures match Open(k, n, data, Sealed(old(input[..length]), tag))
        case Authentic(text) => ret == 0 && output[..length] == text
        case Rejected => ret == AUTH_FAILED && forall i :: 0 <= i < length ==> output[i] == 0
      ensures ret == 0 <==> tag == AeadTag(k, n, data, old(input[..length]))
      ensures ret == 0 ==> output[..length] == AeadCipher(k, n, old(input[..length]))
      ensures ret != 0 ==> ret == AUTH_FAILED && forall i :: 0 <= i < length ==> output[i] == 0
    {
      hide AeadCipher, AeadTag, ChaCha20Cipher.Context.HasKey;
      var checkTag := new uint8[16](_ => 0);
      ret := CryptAndTag(Decrypt, length, n, data, input, output, checkTag, k);
      if checkTag[..16] != tag {
        Zeroize(output, length);
        ret := AUTH_FAILED;
      }
    }

    lemma WhenActive()
      requires Active()
      ensures Objects() && chacha.HasKey(key) && ciphertext == AeadCipher(key, nonce, plaintext)
      ensures state == Aad || state == Ciphertext
    {
      hide AeadCipher, InitialState;
      ChaCha20Cipher.StillKeyed(chacha, key, 0, nonce);
    }
  }

  // mbedtls_platform_zeroize(a, length)
  method Zeroize(a: array<uint8>, length: nat)
    requires length <= a.Length
    modifies a
    ensures (forall i :: 0 <= i < length ==> a[i] == 0) && a[length..] == old(a[length..])
  {
    var i := 0;
    while i < length
      invariant 0 <= i <= length && forall j :: 0 <= j < i ==> a[j] == 0
      invariant a[length..] == old(a[length..])
    {
      a[i] := 0;
      i := i + 1;
    }
  }

  // starts, update_aad*, update*, finish on a fresh context, each piece of text in place. Both
  // directions cipher the concatenation and authenticate the ciphertext side of it.
  method MessageInPieces(key: seq<uint8>, nonce: seq<uint8>, mode: Mode, aads: seq<seq<uint8>>, texts: seq<seq<uint8>>)
      returns (out: seq<uint8>, tag: seq<uint8>)
    requires |key| == 32 && |nonce| == 12
    ensures out == AeadCipher(key, nonce, Flatten(texts))
    ensures tag == AeadTag(key, nonce, Flatten(aads), if mode == Encrypt then out else Flatten(texts))
  {
    hide Context.Active, AeadCipher, AeadTag, Context.Done, ChaCha20Cipher.Context.HasKey;
    var ctx := new Context();
    ctx.SetKey(key);
    ctx.Starts(nonce, mode, key);
    FeedAad(ctx, aads);
    out := FeedText(ctx, texts);
    ctx.WhenActive();
    CipherTwice(key, nonce, out);
    var mac := new uint8[16](_ => 0);
    var ret := ctx.Finish(mac);
    tag := mac[..16];
  }

  // Sealing in pieces is the one-shot call on the concatenations.
  method SealInPieces(key: seq<uint8>, nonce: seq<uint8>, aads: seq<seq<uint8>>, texts: seq<seq<uint8>>)
      returns (sealed: Sealed)
    requires |key| == 32 && |nonce| == 12
    ensures sealed == Seal(key, nonce, Flatten(aads), Flatten(texts))
  {
    hide AeadCipher, AeadTag;
    var out, tag := MessageInPieces(key, nonce, Encrypt, aads, texts);
    sealed := Sealed(out, tag);
  }

  // And so is opening, with the tag compared at the end as mbedtls_chachapoly_auth_decrypt does.
  method OpenInPieces(key: seq<uint8>, nonce: seq<uint8>, aads: seq<seq<uint8>>, texts: seq<seq<uint8>>,
                      tag: seq<uint8>)
      returns (result: Opened)
    requires |key| == 32 && |nonce| == 12
    ensures result == Open(key, nonce, Flatten(aads), Sealed(Flatten(texts), tag))
    ensures result.Authentic? <==> tag == AeadTag(key, nonce, Flatten(aads), Flatten(texts))
    ensures result.Authentic? ==> result.text == AeadCipher(key, nonce, Flatten(texts))
  {
    hide AeadCipher, AeadTag;
    var out, checkTag := MessageInPieces(key, nonce, Decrypt, aads, texts);
    result := if checkTag == tag then Authentic(out) else Rejected;
  }

  // The two one-shot calls one after the other, in place: the buffer is as it was and no error.
  method SealAndOpen(ctx: Context, length: nat, n: seq<uint8>, data: seq<uint8>, buffer: array<uint8>,
                     ghost k: seq<uint8>)
      returns (ret: int)
    requires ctx.Objects() && |k| == 32 && |n| == 12 && ctx.chacha.HasKey(k)
    requires length <= buffer.Length && ctx.Outside(buffer)
    modifies ctx.Repr(), buffer
    ensures ret == 0 && buffer[..] == old(buffer[..])
  {
    hide AeadCipher, AeadTag, Seal, Open, ChaCha20Cipher.Context.HasKey;
    ghost var text, rest := buffer[..length], buffer[length..];
    var tag := new uint8[16](_ => 0);
    ret := ctx.EncryptAndTag(length, n, data, buffer, buffer, tag, k);
    SealThenOpen(k, n, data, text);
    ret := ctx.AuthDecrypt(length, n, data, tag[..16], buffer, buffer, k);
    assert buffer[..] == buffer[..length] + buffer[length..];
  }

  method FeedAad(ctx: Context, aads: seq<seq<uint8>>)
    requires ctx.Active() && ctx.state == Aad && ctx.aad == [] && ctx.plaintext == ctx.ciphertext == []
    modifies ctx.Repr()
    ensures ctx.Active() && ctx.state == Aad && ctx.aad == Flatten(aads) && ctx.plaintext == ctx.ciphertext == []
    ensures ctx.key == old(ctx.key) && ctx.nonce == old(ctx.nonce) && ctx.mode == old(ctx.mode)
  {
    hide Context.Active, AeadCipher;
    var i := 0;
    while i < |aads|
      invariant 0 <= i <= |aads| && ctx.Active() && ctx.state == Aad && ctx.aad == Flatten(aads[..i])
      invariant ctx.plaintext == ctx.ciphertext == []
      invariant ctx.key == old(ctx.key) && ctx.nonce == old(ctx.nonce) && ctx.mode == old(ctx.mode)
    {
      var ret := ctx.UpdateAad(aads[i]);
      assert aads[..i + 1][..i] == aads[..i];
      i := i + 1;
    }
    assert aads[..i] == aads;
  }

  // One update call on a copy of the piece, in place.
  method FeedPiece(ctx: Context, text: seq<uint8>) returns (out: seq<uint8>)
    requires ctx.Active() && ctx.state in {Aad, Ciphertext}
    modifies ctx.Repr()
    ensures ctx.Active() && ctx.state in {Aad, Ciphertext} && ctx.mode == old(ctx.mode)
    ensures ctx.plaintext == old(ctx.plaintext) + (if ctx.mode == Encrypt then text else out)
    ensures ctx.ciphertext == old(ctx.ciphertext) + (if ctx.mode == Encrypt then out else text)
    ensures ctx.key == old(ctx.key) && ctx.nonce == old(ctx.nonce) && ctx.aad == old(ctx.aad)
  {
    hide Context.Active, AeadCipher;
    var buffer := new uint8[|text|](j requires 0 <= j < |text| => text[j]);
    assert buffer[..|text|] == text;
    var ret := ctx.Update(|text|, buffer, buffer);
    out := buffer[..|text|];
  }

  method FeedText(ctx: Context, texts: seq<seq<uint8>>) returns (out: seq<uint8>)
    requires ctx.Active() && ctx.state == Aad && ctx.plaintext == ctx.ciphertext == []
    modifies ctx.Repr()
    ensures ctx.Active() && ctx.state in {Aad, Ciphertext}
    ensures ctx.plaintext == if ctx.mode == Encrypt then Flatten(texts) else out
    ensures ctx.ciphertext == if ctx.mode == Encrypt then out else Flatten(texts)
    ensures ctx.key == old(ctx.key) && ctx.nonce == old(ctx.nonce) && ctx.aad == old(ctx.aad)
    ensures ctx.mode == old(ctx.mode)
  {
    hide Context.Active, AeadCipher;
    out := [];
    var i := 0;
    while i < |texts|
      invariant 0 <= i <= |texts| && ctx.Active() && ctx.state in {Aad, Ciphertext} && ctx.mode == old(ctx.mode)
      invariant ctx.plaintext == if ctx.mode == Encrypt then Flatten(texts[..i]) else out
      invariant ctx.ciphertext == if ctx.mode == Encrypt then out else Flatten(texts[..i])
      invariant ctx.key == old(ctx.key) && ctx.nonce == old(ctx.nonce) && ctx.aad == old(ctx.aad)
    {
      var piece := FeedPiece(ctx, texts[i]);
      out := out + piece;
      assert texts[..i + 1][..i] == texts[..i];
      i := i + 1;
    }
    assert texts[..i] == texts;
  }

  lemma Aligned(aad: seq<uint8>, text: seq<uint8>)
    ensures |aad + Pad16(aad) + text + Pad16(text)| % 16 == 0
    ensures |Length64(|aad|) + Length64(|text|)| == 16
  {
    hide Pad16, Length64;
    Multiples(|aad| + |Pad16(aad)|, |text| + |Pad16(text)|);
  }

  lemma Multiples(x: nat, y: nat)
    requires x % 16 == 0 && y % 16 == 0
    ensures (x + y) % 16 == 0
  {
  }

  lemma LengthBytes(n: uint64, m: nat)
    requires n as int == m % 0x1_0000_0000_0000_0000
    ensures ToLe(n as int, 8) == Length64(m)
  {
  }

  lemma LengthMod16(n: uint64, m: nat)
    requires n as int == m % 0x1_0000_0000_0000_0000
    ensures n as int % 16 == m % 16
  {
    var q := m / 0x1_0000_0000_0000_0000;
    assert m == 16 * (0x1000_0000_0000_0000 * q) + n as int;
    DivModUnique(m, 16, 0x1000_0000_0000_0000 * q + n as int / 16, n as int % 16);
  }

  lemma CipherAppend(k: seq<uint8>, n: seq<uint8>, x: seq<uint8>, y: seq<uint8>)
    requires |k| == 32 && |n| == 12
    ensures AeadCipher(k, n, x + y) == AeadCipher(k, n, x) + EncryptAt(InitialState(k, 0, n), 64 + |x|, y)
  {
    hide AeadCipher, EncryptAt, InitialState;
    SecondBlock(k, n, x + y);
    SecondBlock(k, n, x);
    EncryptConcat(InitialState(k, 0, n), 64, x, y);
  }

  lemma NothingEncrypted(k: seq<uint8>, n: seq<uint8>)
    requires |k| == 32 && |n| == 12
    ensures AeadCipher(k, n, []) == []
  {
    assert |AeadCipher(k, n, [])| == 0;
  }

  lemma LengthSum(a: uint64, m: nat, n: nat)
    requires a as int == m % 0x1_0000_0000_0000_0000
    ensures Add64(a, n) as int == (m + n) % 0x1_0000_0000_0000_0000
  {
  }

  lemma FirstBlock(k: seq<uint8>, n: seq<uint8>)
    requires |k| == 32 && |n| == 12
    ensures EncryptAt(InitialState(k, 0, n), 0, seq(64, _ => 0))[..32] == PolyKey(k, n)
  {
    hide KeystreamBlock;
    var s := InitialState(k, 0, n);
    KeystreamOfZeros(s);
    assert s[12 := Advance(s[12], 0)] == s;
  }
}
