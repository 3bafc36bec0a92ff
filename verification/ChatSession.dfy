// The session object of chatsession.h: its two cipher contexts and the handlers that frame,
// encrypt, collect and decrypt messages, each proved to be a step of the protocol machine.
module ChatSession {
  import opened Words
  import opened Bits
  import opened Bytes
  import opened Rfc7539
  import opened ChatProtocol
  import ChaCha20Cipher
  import ChaChaLaws

  const BUFFER_SIZE: nat := 4096

  class Session {
    const chachaD: ChaCha20Cipher.Context
    const chachaE: ChaCha20Cipher.Context
    var chacha20Key: seq<uint8>
    // The buffer of the read in progress and how much of it has arrived.
    var msg: array<uint8>
    var filled: nat
    ghost var handled: nat
    ghost var delivered: seq<seq<uint8>>

    ghost function CipherState(): set<object>
    {
      {chachaD, chachaD.state, chachaD.keystream8, chachaE, chachaE.state, chachaE.keystream8}
    }

    ghost predicate Apart()
      reads this
    {
      && chachaD.Sized() && chachaE.Sized() && chachaD != chachaE
      && chachaD.state != chachaE.state && chachaD.keystream8 != chachaE.keystream8
      && msg.Length == BUFFER_SIZE && msg != chachaD.keystream8 && msg != chachaE.keystream8
      && |chacha20Key| == 32
    }

    // After the handshake: both ciphers run in the state that the shared key fixes.
    ghost predicate Ready()
      reads this, msg, CipherState()
    {
      && Apart() && chachaD.Valid() && chachaE.Valid()
      && chachaD.start == chachaE.start == SharedState(chacha20Key)
      && filled <= BUFFER_SIZE && (forall i :: filled <= i < BUFFER_SIZE ==> msg[i] == 0)
    }

    ghost function ReaderState(): Reader
      requires Apart() && filled <= BUFFER_SIZE
      reads this, msg, chachaD
    {
      Reader(chachaD.position, msg[..filled], handled, delivered)
    }

    constructor (key: seq<uint8>)
      requires |key| == 32
      ensures Apart() && chacha20Key == key
      ensures fresh(CipherState()) && fresh(msg)
    {
      var d := new ChaCha20Cipher.Context();
      var e := new ChaCha20Cipher.Context();
      chachaD, chachaE := d, e;
      chacha20Key := key;
      msg := new uint8[BUFFER_SIZE](_ => 0);
      filled := 0;
      handled, delivered := 0, [];
    }

    // initChaCha20: the first 12 bytes of the key are the nonce of both ciphers, counter 0.
    method InitChaCha20()
      requires Apart()
      modifies this`filled, this`handled, this`delivered, this`msg, CipherState()
      ensures Ready() && chachaE.position == 0 && ReaderState() == Reader(0, [], 0, [])
      ensures fresh(msg)
      ensures chachaD.state[..] == chachaE.state[..] && chachaD.state[12] == 0
      ensures forall i :: 0 <= i < 8 ==> chachaD.state[4 + i] as int == Le(chacha20Key[4 * i..4 * i + 4])
      ensures forall i :: 0 <= i < 3 ==> chachaD.state[13 + i] as int == Le(chacha20Key[4 * i..4 * i + 4])
    {
      hide InitialState, ChaCha20Cipher.Context.Valid, ChaCha20Cipher.Context.HasKey;
      StartCipher(chachaD, chacha20Key);
      StartCipher(chachaE, chacha20Key);
      SharedWords(chacha20Key);
      handled, delivered := 0, [];
      StartRead();
    }

    // startRead: a new zeroed buffer, nothing in it.
    method StartRead()
      modifies this`msg, this`filled
      ensures fresh(msg) && msg.Length == BUFFER_SIZE && filled == 0
      ensures forall i :: 0 <= i < BUFFER_SIZE ==> msg[i] == 0
    {
      msg := new uint8[BUFFER_SIZE](_ => 0);
      filled := 0;
    }

    // writeMsg: the payload after the four header bytes is encrypted in place and the size is
    // written before the protocol number the caller has put there. What goes out is the frame.
    method WriteMsg(m: array<uint8>, size: uint16) returns (data: seq<uint8>)
      requires Ready() && size as int + 4 <= m.Length && m != msg
      requires m != chachaD.keystream8 && m != chachaE.keystream8
      modifies chachaE, chachaE.state, chachaE.keystream8, m
      ensures Ready() && chachaE.position == old(chachaE.position) + size as int
      ensures ReaderState() == old(ReaderState())
      ensures data == Frame(SharedState(chacha20Key), old(chachaE.position), old(MessageIn(m, size)))
      ensures |data| == size as int + 4 && Le(data[..2]) == size as int && data[2..4] == old(m[2..4])
      ensures data[4..] == EncryptAt(SharedState(chacha20Key), old(chachaE.position), old(m[4..4 + size as int]))
    {
      hide InitialState, ChaCha20Cipher.Context.Valid, EncryptAt, ToLe;
      ghost var text := m[4..4 + size as int];
      ghost var protocol := m[2..4];
      chachaE.Update(size as int, m, 4, m, 4);
      assert m[2..4] == protocol;
      SizeBytes(size);
      CopyInto(m, 0, ToLe(size as int, 2));
      ProtocolBytes(protocol);
      data := m[..size as int + 4];
      assert data == ToLe(size as int, 2) + (protocol + EncryptAt(chachaE.start, old(chachaE.position), text));
    }

    // handleReadMsg: a text message is decrypted in place and handed up as the string that begins
    // at its payload; then the next read starts.
    method HandleReadMsg() returns (text: seq<seq<uint8>>)
      requires Ready() && filled >= 4 && filled == Need(msg[..filled])
      modifies this`msg, this`filled, this`handled, this`delivered, msg, chachaD, chachaD.state, chachaD.keystream8
      ensures Ready() && ReaderState() == Handle(SharedState(chacha20Key), old(ReaderState()), old(msg[..filled]))
      ensures old(delivered) <= delivered && text == Strings(delivered[|old(delivered)|..])
      ensures msg == old(msg) || fresh(msg)
      ensures !(old(msg[2]) == 1 && old(msg[3]) == 0) ==> text == []
      ensures old(msg[2]) == 1 && old(msg[3]) == 0 ==>
        var p := EncryptAt(SharedState(chacha20Key), old(chachaD.position), old(msg[4..filled]));
        && |text| == 1 && text[0] <= p && 0 !in text[0] && (|text[0]| < |p| ==> p[|text[0]|] == 0)
    {
      hide InitialState, ChaCha20Cipher.Context.Valid, EncryptAt, Le, UpToZero;
      ghost var b := msg[..filled];
      assert msg[0..2] == b[..2] && msg[2..4] == b[2..4];
      var msgsize := GetUint16Le(msg[0..2]);
      var protocol := GetUint16Le(msg[2..4]);
      text := [];
      ghost var handedUp: seq<seq<uint8>> := [];
      if protocol == 1 {
        chachaD.Update(msgsize as int, msg, 4, msg, 4);
        handedUp := [msg[4..4 + msgsize as int]];
        var s := StringAt(msg, 4);
        StringInBuffer(msg[..], 4, 4 + msgsize as int);
        StringOf(msg[4..4 + msgsize as int]);
        text := [s];
        assert b[4..] == old(msg[4..4 + msgsize as int]);
      }
      handled, delivered := handled + 1, delivered + handedUp;
      StartRead();
    }

    // Bytes arrive for the read in progress. The read of the two size bytes completes into
    // handleReadMsgHead, which asks for the rest; the read of the rest into handleReadMsg.
    method Arrive(chunk: seq<uint8>) returns (text: seq<seq<uint8>>)
      requires Ready() && filled + |chunk| <= Need(msg[..filled])
      requires filled + |chunk| >= 2 ==> Need(msg[..filled] + chunk) <= BUFFER_SIZE
      modifies this`msg, this`filled, this`handled, this`delivered, msg, chachaD, chachaD.state, chachaD.keystream8
      ensures Ready() && ReaderState() == Receive(SharedState(chacha20Key), old(ReaderState()), chunk)
      ensures old(delivered) <= delivered && text == Strings(delivered[|old(delivered)|..])
      ensures chachaE.position == old(chachaE.position)
      ensures var b := old(msg[..filled]) + chunk;
        if |b| < 4 || |b| < Le(b[..2]) + 4 || b[2] != 1 || b[3] != 0 then text == []
        else
          var p := EncryptAt(SharedState(chacha20Key), old(chachaD.position), b[4..]);
          |text| == 1 && text[0] <= p && 0 !in text[0] && (|text[0]| < |p| ==> p[|text[0]|] == 0)
    {
      hide InitialState, ChaCha20Cipher.Context.Valid, Handle, Le, UpToZero, EncryptAt;
      ghost var b := msg[..filled] + chunk;
      LargerNeed(msg[..filled], chunk);
      CopyInto(msg, filled, chunk);
      text := [];
      var now := filled + |chunk|;
      assert msg[..now] == b && (now >= 2 ==> msg[0..2] == b[..2]);
      if now >= 4 && now >= HandleReadMsgHead() + 2 {
        filled := now;
        SameHandling(SharedState(chacha20Key), old(ReaderState()), b);
        text := HandleReadMsg();
      } else {
        filled := now;
      }
    }

    // handleReadMsgHead: how many bytes the second read has to fetch.
    function HandleReadMsgHead(): nat
      requires msg.Length >= 2
      reads this, msg
    {
      GetUint16Le(msg[0..2]) as nat + 2
    }
  }

  // The bytes that a char* to b stands for.
  function UpToZero(b: seq<uint8>): (s: seq<uint8>) {
    if |b| == 0 || b[0] == 0 then [] else [b[0]] + UpToZero(b[1..])
  }

  function Strings(payloads: seq<seq<uint8>>): seq<seq<uint8>> {
    seq(|payloads|, i requires 0 <= i < |payloads| => UpToZero(payloads[i]))
  }

  // The string is the payload itself exactly when the payload holds no zero byte.
  lemma {:induction false} WholeString(b: seq<uint8>)
    ensures UpToZero(b) == b <==> 0 !in b
  {
    if |b| > 0 && b[0] != 0 {
      WholeString(b[1..]);
      assert b == [b[0]] + b[1..];
    }
  }

  lemma {:induction false} StringEnd(b: seq<uint8>, k: nat)
    requires k <= |b| && (forall j :: 0 <= j < k ==> b[j] != 0) && (k == |b| || b[k] == 0)
    ensures UpToZero(b) == b[..k]
  {
    if k > 0 {
      StringEnd(b[1..], k - 1);
      assert b[..k] == [b[0]] + b[1..][..k - 1];
    }
  }

  // The string at i, which the end of the buffer ends at the latest.
  method StringAt(a: array<uint8>, i: nat) returns (s: seq<uint8>)
    requires i <= a.Length
    ensures s == UpToZero(a[i..])
  {
    var k := i;
    while k < a.Length && a[k] != 0
      invariant i <= k <= a.Length && forall j :: i <= j < k ==> a[j] != 0
    {
      k := k + 1;
    }
    s := a[i..k];
    StringEnd(a[i..], k - i);
  }

  // What the string is, for any bytes: what stands before the first zero, or all of them.
  lemma {:induction false} StringOf(b: seq<uint8>)
    ensures UpToZero(b) <= b && 0 !in UpToZero(b) && (|UpToZero(b)| < |b| ==> b[|UpToZero(b)|] == 0)
  {
    if |b| > 0 && b[0] != 0 {
      StringOf(b[1..]);
    }
  }

  // Zeroes after the payload do not matter.
  lemma StringInBuffer(b: seq<uint8>, i: nat, n: nat)
    requires i <= n <= |b| && forall j :: n <= j < |b| ==> b[j] == 0
    ensures UpToZero(b[i..]) == UpToZero(b[i..n])
    decreases n - i
  {
    if i < n && b[i] != 0 {
      StringInBuffer(b, i + 1, n);
      assert b[i..][1..] == b[i + 1..] && b[i..n][1..] == b[i + 1..n];
    }
  }

  // mbedtls_chacha20_init, setkey and starts
  method StartCipher(ctx: ChaCha20Cipher.Context, key: seq<uint8>)
    requires ctx.Sized() && |key| == 32
    modifies ctx, ctx.state, ctx.keystream8
    ensures ctx.Valid() && ctx.position == 0 && ctx.start == SharedState(key) == ctx.state[..]
  {
    hide InitialState, ChaCha20Cipher.Context.Valid, LeWords;
    ctx.SetKey(key);
    ChaCha20Cipher.KeyedStart(ctx.state[..], key, 0, key[..12]);
    ctx.Starts(key[..12], 0);
    ChaCha20Cipher.AtStart(ctx);
  }

  // The state from which all four ciphers of a conversation start.
  function SharedState(key: seq<uint8>): (s: seq<uint32>)
    requires |key| == 32
    ensures |s| == 16
  {
    InitialState(key, 0, key[..12])
  }

  // The counter is 0, and the nonce is the beginning of the key.
  lemma SharedWords(key: seq<uint8>)
    requires |key| == 32
    ensures var s := SharedState(key);
      && s[12] == 0
      && (forall i :: 0 <= i < 8 ==> s[4 + i] as int == Le(key[4 * i..4 * i + 4]))
      && (forall i :: 0 <= i < 3 ==> s[13 + i] as int == Le(key[4 * i..4 * i + 4]))
  {
    hide Le, InitialState;
    ChaChaLaws.InitialWords(key, 0, key[..12]);
    forall i | 0 <= i < 3 ensures key[..12][4 * i..4 * i + 4] == key[4 * i..4 * i + 4] {
    }
  }

  // The message a caller of writeMsg has laid out: protocol number at 2, payload from 4 on.
  function MessageIn(m: array<uint8>, size: uint16): Message
    requires size as int + 4 <= m.Length
    reads m
  {
    Message(GetUint16Le(m[2..4]), m[4..4 + size as int])
  }

  // *((uint16_t*) p) on a little-endian machine
  function GetUint16Le(b: seq<uint8>): (w: uint16)
    requires |b| == 2
    ensures w as int == Le(b)
  {
    var t := b[1..];
    assert Le(t) == t[0] as int + 256 * Le(t[1..]) && Le(t[1..]) == 0;
    b[0] as uint16 + 0x100 * b[1] as uint16
  }

  lemma SizeBytes(size: uint16)
    ensures |ToLe(size as int, 2)| == 2 && Le(ToLe(size as int, 2)) == size as int
  {
    hide Le, ToLe, Pow256;
    Pow256IsPow2(2);
    Pow2Values();
    LeOfToLe(size as int, 2);
  }

  lemma ProtocolBytes(b: seq<uint8>)
    requires |b| == 2
    ensures ToLe(GetUint16Le(b) as int, 2) == b
  {
    ToLeOfLe(b);
  }

  lemma LargerNeed(b: seq<uint8>, chunk: seq<uint8>)
    requires |b| + |chunk| <= Need(b)
    requires |b| + |chunk| >= 2 ==> Need(b + chunk) <= BUFFER_SIZE
    ensures |b| + |chunk| <= BUFFER_SIZE
    ensures |b| + |chunk| >= 4 ==> |b| + |chunk| <= Need(b + chunk)
  {
    if |b| >= 2 {
      assert (b + chunk)[..2] == b[..2];
    }
  }

  // What is handled is the frame alone, whatever the reader says is in its buffer.
  lemma SameHandling(start: seq<uint32>, r: Reader, frame: seq<uint8>)
    requires |start| == 16 && |frame| >= 4
    ensures Handle(start, r.(buffer := frame), frame) == Handle(start, r, frame)
  {
  }
}
