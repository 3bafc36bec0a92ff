// The message protocol of chatsession.h as a step machine: two sessions that share one key,
// each with an encrypting and a decrypting cipher, over two FIFO byte streams that may hand on
// their bytes in any pieces and in any interleaving with the writes.
module ChatProtocol {
  import opened Words
  import opened Bits
  import opened Bytes
  import opened Rfc7539

  const TEXT: nat := 1
  // A reader's buffer of 4096 bytes holds a header of 4 and this much.
  const MAX_PAYLOAD: nat := 4092

  datatype Message = Message(protocol: uint16, payload: seq<uint8>)

  // Size, protocol, and the payload under the writer's cipher at its present position.
  function Frame(start: seq<uint32>, pos: nat, m: Message): (f: seq<uint8>)
    requires |start| == 16
    ensures |f| == 4 + |m.payload|
  {
    ToLe(|m.payload|, 2) + (ToLe(m.protocol as int, 2) + EncryptAt(start, pos, m.payload))
  }

  // The number of bytes the reading side is still to fetch for the message in its buffer ends here.
  function Need(buffer: seq<uint8>): nat {
    if |buffer| < 2 then 2 else Le(buffer[..2]) + 4
  }

  datatype Reader = Reader(pos: nat, buffer: seq<uint8>, handled: nat, delivered: seq<seq<uint8>>)

  // handleReadMsg: only a text message is decrypted and handed up.
  function Handle(start: seq<uint32>, r: Reader, frame: seq<uint8>): Reader
    requires |start| == 16 && |frame| >= 4
  {
    if Le(frame[2..4]) == TEXT then
      Reader(r.pos + |frame| - 4, [], r.handled + 1, r.delivered + [EncryptAt(start, r.pos, frame[4..])])
    else
      Reader(r.pos, [], r.handled + 1, r.delivered)
  }

  // Some bytes arrive. The handlers run when the read they wait for is complete.
  function Receive(start: seq<uint32>, r: Reader, chunk: seq<uint8>): Reader
    requires |start| == 16 && |r.buffer| + |chunk| <= Need(r.buffer)
  {
    var b := r.buffer + chunk;
    if |b| < 4 || |b| < Need(b) then r.(buffer := b) else Handle(start, r, b)
  }

  // One direction: what was sent, the writer's position, the bytes under way, the reader.
  datatype Direction = Direction(sent: seq<Message>, pos: nat, wire: seq<uint8>, reader: Reader)

  datatype Action = Write(m: Message) | Arrive(n: nat)

  predicate Enabled(d: Direction, a: Action) {
    match a
    case Write(m) => |m.payload| <= MAX_PAYLOAD
    case Arrive(n) => 0 < n <= |d.wire| && |d.reader.buffer| + n <= Need(d.reader.buffer)
  }

  function Act(start: seq<uint32>, d: Direction, a: Action): Direction
    requires |start| == 16 && Enabled(d, a)
  {
    match a
    case Write(m) =>
      d.(sent := d.sent + [m], pos := d.pos + |m.payload|, wire := d.wire + Frame(start, d.pos, m))
    case Arrive(n) =>
      d.(wire := d.wire[n..], reader := Receive(start, d.reader, d.wire[..n]))
  }

  function InitialDirection(): Direction { Direction([], 0, [], Reader(0, [], 0, [])) }

  // Both directions, stepped in any order.
  datatype Net = Net(forth: Direction, back: Direction)

  datatype Event = Forth(a: Action) | Back(a: Action)

  ghost predicate Step(start: seq<uint32>, n: Net, e: Event, n': Net)
    requires |start| == 16
  {
    match e
    case Forth(a) => Enabled(n.forth, a) && n' == n.(forth := Act(start, n.forth, a))
    case Back(a) => Enabled(n.back, a) && n' == n.(back := Act(start, n.back, a))
  }

  ghost predicate Run(start: seq<uint32>, trace: seq<Net>, events: seq<Event>)
    requires |start| == 16
  {
    |trace| == |events| + 1 && trace[0] == Net(InitialDirection(), InitialDirection())
    && forall i :: 0 <= i < |events| ==> Step(start, trace[i], events[i], trace[i + 1])
  }

  // ----- The invariant of one direction -----

  function TotalSize(ms: seq<Message>): nat {
    if |ms| == 0 then 0 else TotalSize(ms[..|ms| - 1]) + |ms[|ms| - 1].payload|
  }

  // The bytes that move the reader's cipher on.
  function TextSize(ms: seq<Message>): nat {
    if |ms| == 0 then 0
    else TextSize(ms[..|ms| - 1]) + (if ms[|ms| - 1].protocol as int == TEXT then |ms[|ms| - 1].payload| else 0)
  }

  function Frames(start: seq<uint32>, pos: nat, ms: seq<Message>): seq<uint8>
    requires |start| == 16
    decreases |ms|
  {
    if |ms| == 0 then [] else Frame(start, pos, ms[0]) + Frames(start, pos + |ms[0].payload|, ms[1..])
  }

  // What the reader hands up: each text under the writer's cipher and then under its own.
  function HandedUp(start: seq<uint32>, ms: seq<Message>): seq<seq<uint8>>
    requires |start| == 16
  {
    if |ms| == 0 then []
    else
      var before, m := ms[..|ms| - 1], ms[|ms| - 1];
      if m.protocol as int == TEXT then
        HandedUp(start, before) + [EncryptAt(start, TextSize(before), EncryptAt(start, TotalSize(before), m.payload))]
      else HandedUp(start, before)
  }

  // Between the ciphers lie exactly the bytes in flight: the wire after the buffer parses into
  // the frames of the messages not yet handled.
  ghost predicate Inv(start: seq<uint32>, d: Direction)
    requires |start| == 16
  {
    && d.reader.handled <= |d.sent| && d.pos == TotalSize(d.sent)
    && (forall i :: 0 <= i < |d.sent| ==> |d.sent[i].payload| <= MAX_PAYLOAD)
    && d.reader.buffer + d.wire == Frames(start, TotalSize(d.sent[..d.reader.handled]), d.sent[d.reader.handled..])
    && |d.reader.buffer| < Need(d.reader.buffer)
    && d.reader.pos == TextSize(d.sent[..d.reader.handled])
    && d.reader.delivered == HandedUp(start, d.sent[..d.reader.handled])
  }

  lemma {:induction false} FramesAppend(start: seq<uint32>, pos: nat, ms: seq<Message>, m: Message)
    requires |start| == 16
    ensures Frames(start, pos, ms + [m]) == Frames(start, pos, ms) + Frame(start, pos + TotalSize(ms), m)
    decreases |ms|
  {
    hide Frame, Frames, TotalSize;
    NoFrames(start, pos);
    if |ms| == 0 {
      FirstFrame(start, pos, [m]);
      NoFrames(start, pos + |m.payload|);
      assert ms + [m] == [m] && [m][1..] == [];
      assert TotalSize(ms) == 0 by {
        NoSize();
      }
    } else {
      FirstFrame(start, pos, ms);
      FirstFrame(start, pos, ms + [m]);
      assert (ms + [m])[1..] == ms[1..] + [m];
      FramesAppend(start, pos + |ms[0].payload|, ms[1..], m);
      SizeOfFirst(ms);
    }
  }

  lemma NoFrames(start: seq<uint32>, pos: nat)
    requires |start| == 16
    ensures Frames(start, pos, []) == []
  {
  }

  lemma NoSize()
    ensures TotalSize([]) == 0
  {
  }

  lemma {:induction false} SizeOfFirst(ms: seq<Message>)
    requires |ms| > 0
    ensures TotalSize(ms) == |ms[0].payload| + TotalSize(ms[1..])
  {
    if |ms| > 1 {
      var t := ms[..|ms| - 1];
      SizeOfFirst(t);
      assert t[1..] == ms[1..][..|ms| - 2];
    } else {
      assert ms[..0] == [] && ms[1..] == [];
    }
  }

  lemma {:induction false} SizeOfSplit(ms: seq<Message>, k: nat)
    requires k <= |ms|
    ensures TotalSize(ms) == TotalSize(ms[..k]) + TotalSize(ms[k..])
    decreases |ms|
  {
    if k == |ms| {
      assert ms[..k] == ms;
    } else {
      var t := ms[..|ms| - 1];
      SizeOfSplit(t, k);
      assert t[..k] == ms[..k] && t[k..] == ms[k..][..|ms| - k - 1];
    }
  }

  lemma WriteKeepsInv(start: seq<uint32>, d: Direction, m: Message)
    requires |start| == 16 && Inv(start, d) && Enabled(d, Write(m))
    ensures Inv(start, Act(start, d, Write(m)))
  {
    hide Frames, Frame, TotalSize, TextSize, HandedUp, Need;
    var k := d.reader.handled;
    var sent := d.sent + [m];
    FramesAppend(start, TotalSize(d.sent[..k]), d.sent[k..], m);
    SizeOfSplit(d.sent, k);
    assert sent[k..] == d.sent[k..] + [m] && sent[..k] == d.sent[..k];
    LastSize(sent);
    assert sent[..|d.sent|] == d.sent;
  }

  lemma LastSize(ms: seq<Message>)
    requires |ms| > 0
    ensures TotalSize(ms) == TotalSize(ms[..|ms| - 1]) + |ms[|ms| - 1].payload|
  {
  }

  // The parts of a frame read back.
  lemma FrameFields(start: seq<uint32>, pos: nat, m: Message)
    requires |start| == 16 && |m.payload| <= MAX_PAYLOAD
    ensures var f := Frame(start, pos, m);
      Le(f[..2]) == |m.payload| && Le(f[2..4]) == m.protocol as int && f[4..] == EncryptAt(start, pos, m.payload)
  {
    hide Le, ToLe, EncryptAt, Pow256;
    var f := Frame(start, pos, m);
    assert f[..2] == ToLe(|m.payload|, 2) && f[2..4] == ToLe(m.protocol as int, 2);
    assert Pow256(2) == 0x10000 by {
      Pow256IsPow2(2);
      Pow2Values();
    }
    LeOfToLe(|m.payload|, 2);
    LeOfToLe(m.protocol as int, 2);
  }

  // What has been buffered is the beginning of the next frame, so the reader waits for its end.
  lemma NeedOfPrefix(start: seq<uint32>, pos: nat, m: Message, b: seq<uint8>, w: seq<uint8>, rest: seq<uint8>)
    requires |start| == 16 && |m.payload| <= MAX_PAYLOAD && b + w == Frame(start, pos, m) + rest && |b| >= 2
    ensures Need(b) == |m.payload| + 4
  {
    hide Frame;
    FrameFields(start, pos, m);
    assert (b + w)[..2] == b[..2];
    assert (Frame(start, pos, m) + rest)[..2] == Frame(start, pos, m)[..2];
  }

  lemma ArriveKeepsInv(start: seq<uint32>, d: Direction, n: nat)
    requires |start| == 16 && Inv(start, d) && Enabled(d, Arrive(n))
    ensures Inv(start, Act(start, d, Arrive(n)))
  {
    hide Frame, TotalSize, TextSize, HandedUp, Need, Frames;
    var k, r := d.reader.handled, d.reader;
    var b, w := r.buffer + d.wire[..n], d.wire[n..];
    assert b + w == r.buffer + d.wire;
    SomethingSent(start, d);
    var m, pos := d.sent[k], TotalSize(d.sent[..k]);
    var rest := Frames(start, pos + |m.payload|, d.sent[k..][1..]);
    assert b + w == Frame(start, pos, m) + rest by {
      FirstFrame(start, pos, d.sent[k..]);
    }
    BufferGrows(start, pos, m, r.buffer, d.wire, b, w, rest);
    if |b| >= 4 && |b| >= Need(b) {
      assert b == Frame(start, pos, m) by {
        assert (b + w)[..|b|] == b;
        assert (Frame(start, pos, m) + rest)[..|b|] == Frame(start, pos, m);
      }
      assert w == rest by {
        assert (b + w)[|b|..] == w;
        assert (b + rest)[|b|..] == rest;
      }
      FrameFields(start, pos, m);
      HandleNext(start, d.sent, k);
      assert d.sent[k..][1..] == d.sent[k + 1..];
      EmptyNeed();
    }
  }

  lemma EmptyNeed()
    ensures Need([]) == 2
  {
  }

  lemma FirstFrame(start: seq<uint32>, pos: nat, ms: seq<Message>)
    requires |start| == 16 && |ms| > 0
    ensures Frames(start, pos, ms) == Frame(start, pos, ms[0]) + Frames(start, pos + |ms[0].payload|, ms[1..])
  {
  }

  lemma SomethingSent(start: seq<uint32>, d: Direction)
    requires |start| == 16 && Inv(start, d) && |d.wire| > 0
    ensures d.reader.handled < |d.sent|
  {
    if d.reader.handled == |d.sent| {
      NothingLeft(start, d);
    }
  }

  lemma NothingLeft(start: seq<uint32>, d: Direction)
    requires |start| == 16 && Inv(start, d) && d.reader.handled == |d.sent|
    ensures |d.wire| == 0
  {
    assert d.sent[d.reader.handled..] == [];
    assert |d.reader.buffer + d.wire| == 0;
  }

  lemma BufferGrows(start: seq<uint32>, pos: nat, m: Message, buffer: seq<uint8>, wire: seq<uint8>,
      b: seq<uint8>, w: seq<uint8>, rest: seq<uint8>)
    requires |start| == 16 && |m.payload| <= MAX_PAYLOAD
    requires buffer + wire == b + w == Frame(start, pos, m) + rest
    requires |buffer| <= |b| <= Need(buffer)
    ensures |b| < 4 || |b| < Need(b) ==> |b| < Need(b)
    ensures |b| >= 4 && |b| >= Need(b) ==> |b| == |m.payload| + 4
  {
    hide Frame;
    if |b| >= 2 {
      NeedOfPrefix(start, pos, m, b, w, rest);
    }
    if |buffer| >= 2 {
      NeedOfPrefix(start, pos, m, buffer, wire, rest);
    }
  }

  // The lists of the invariant with one more handled message.
  lemma HandleNext(start: seq<uint32>, ms: seq<Message>, k: nat)
    requires |start| == 16 && k < |ms|
    ensures TotalSize(ms[..k + 1]) == TotalSize(ms[..k]) + |ms[k].payload|
    ensures TextSize(ms[..k + 1]) == TextSize(ms[..k]) + (if ms[k].protocol as int == TEXT then |ms[k].payload| else 0)
    ensures HandedUp(start, ms[..k + 1]) ==
      if ms[k].protocol as int == TEXT then
        HandedUp(start, ms[..k]) + [EncryptAt(start, TextSize(ms[..k]), EncryptAt(start, TotalSize(ms[..k]),
          ms[k].payload))]
      else HandedUp(start, ms[..k])
  {
    hide EncryptAt;
    var t := ms[..k + 1];
    assert t[..|t| - 1] == ms[..k] && t[|t| - 1] == ms[k];
  }

  // ----- Every run -----

  // The invariant holds throughout, and a reader never waits while bytes are under way.
  lemma {:induction false} RunKeepsInv(start: seq<uint32>, trace: seq<Net>, events: seq<Event>, i: nat)
    requires |start| == 16 && Run(start, trace, events) && i < |trace|
    ensures Inv(start, trace[i].forth) && Inv(start, trace[i].back)
    ensures |trace[i].forth.wire| > 0 ==> Enabled(trace[i].forth, Arrive(1))
    ensures |trace[i].back.wire| > 0 ==> Enabled(trace[i].back, Arrive(1))
  {
    if i == 0 {
      InitialInv(start);
    } else {
      RunKeepsInv(start, trace, events, i - 1);
      assert Step(start, trace[i - 1], events[i - 1], trace[i - 1 + 1]);
      match events[i - 1]
      case Forth(a) => ActKeepsInv(start, trace[i - 1].forth, a);
      case Back(a) => ActKeepsInv(start, trace[i - 1].back, a);
    }
  }

  lemma InitialInv(start: seq<uint32>)
    requires |start| == 16
    ensures Inv(start, InitialDirection())
  {
  }

  lemma ActKeepsInv(start: seq<uint32>, d: Direction, a: Action)
    requires |start| == 16 && Inv(start, d) && Enabled(d, a)
    ensures Inv(start, Act(start, d, a))
  {
    match a
    case Write(m) => WriteKeepsInv(start, d, m);
    case Arrive(n) => ArriveKeepsInv(start, d, n);
  }

  // The payloads of the text messages, in order.
  function Texts(ms: seq<Message>): seq<seq<uint8>> {
    if |ms| == 0 then []
    else
      var m := ms[|ms| - 1];
      Texts(ms[..|ms| - 1]) + (if m.protocol as int == TEXT then [m.payload] else [])
  }

  // Messages of other protocols carry nothing, so the two ciphers of a direction stay together.
  ghost predicate InStep(ms: seq<Message>) {
    forall i :: 0 <= i < |ms| && ms[i].protocol as int != TEXT ==> |ms[i].payload| == 0
  }

  // In step, both ciphers are at the same place for each text.
  lemma {:induction false} TextIsHandedUp(start: seq<uint32>, ms: seq<Message>)
    requires |start| == 16 && InStep(ms)
    ensures TextSize(ms) == TotalSize(ms) && HandedUp(start, ms) == Texts(ms)
    decreases |ms|
  {
    hide EncryptAt;
    if |ms| > 0 {
      var t, m := ms[..|ms| - 1], ms[|ms| - 1];
      TextIsHandedUp(start, t);
      EncryptTwice(start, TotalSize(t), m.payload);
    }
  }

  lemma {:induction false} TextsOfPrefix(ms: seq<Message>, k: nat)
    requires k <= |ms|
    ensures Texts(ms[..k]) <= Texts(ms)
    decreases |ms|
  {
    if k == |ms| {
      assert ms[..k] == ms;
    } else {
      var t := ms[..|ms| - 1];
      TextsOfPrefix(t, k);
      assert t[..k] == ms[..k];
    }
  }

  // When all messages are texts, these are all payloads.
  lemma {:induction false} TextsOfTexts(ms: seq<Message>)
    requires forall i :: 0 <= i < |ms| ==> ms[i].protocol as int == TEXT
    ensures InStep(ms) && |Texts(ms)| == |ms| && forall i :: 0 <= i < |ms| ==> Texts(ms)[i] == ms[i].payload
    decreases |ms|
  {
    if |ms| > 0 {
      TextsOfTexts(ms[..|ms| - 1]);
    }
  }

  // In every run, at every moment and in each direction that is in step, the payloads handed up
  // are those of the texts sent, in order, up to some message.
  lemma DeliveredIsPrefix(start: seq<uint32>, trace: seq<Net>, events: seq<Event>, i: nat)
    requires |start| == 16 && Run(start, trace, events) && i < |trace|
    ensures InStep(trace[i].forth.sent) ==> trace[i].forth.reader.delivered <= Texts(trace[i].forth.sent)
    ensures InStep(trace[i].back.sent) ==> trace[i].back.reader.delivered <= Texts(trace[i].back.sent)
  {
    hide Inv, Run, InStep, Texts, Enabled;
    RunKeepsInv(start, trace, events, i);
    if InStep(trace[i].forth.sent) {
      Delivered(start, trace[i].forth);
    }
    if InStep(trace[i].back.sent) {
      Delivered(start, trace[i].back);
    }
  }

  lemma Delivered(start: seq<uint32>, d: Direction)
    requires |start| == 16 && Inv(start, d) && InStep(d.sent)
    ensures d.reader.delivered == Texts(d.sent[..d.reader.handled]) && d.pos >= d.reader.pos
    ensures d.reader.delivered <= Texts(d.sent)
  {
    hide Frames, HandedUp, TextSize, TotalSize, Texts;
    var t := d.sent[..d.reader.handled];
    TextIsHandedUp(start, t);
    SizeOfSplit(d.sent, d.reader.handled);
    TextsOfPrefix(d.sent, d.reader.handled);
  }

  // Once nothing is under way, every text has been handed up.
  lemma QuietMeansDelivered(start: seq<uint32>, d: Direction)
    requires |start| == 16 && Inv(start, d) && InStep(d.sent) && d.wire == [] && d.reader.buffer == []
    ensures d.reader.delivered == Texts(d.sent) && d.reader.pos == d.pos
  {
    var k := d.reader.handled;
    if k < |d.sent| {
      FirstFrame(start, TotalSize(d.sent[..k]), d.sent[k..]);
      assert false;
    }
    assert d.sent[..k] == d.sent;
    TextIsHandedUp(start, d.sent);
  }

  // A message of another protocol moves the writer's cipher but not the reader's: the two stay
  // together exactly while all such messages are empty.
  lemma {:induction false} InStepIff(ms: seq<Message>)
    ensures TextSize(ms) <= TotalSize(ms)
    ensures TextSize(ms) == TotalSize(ms) <==> InStep(ms)
    decreases |ms|
  {
    if |ms| > 0 {
      var t := ms[..|ms| - 1];
      InStepIff(t);
      assert forall i :: 0 <= i < |t| ==> t[i] == ms[i];
    }
  }

  ghost predicate SameByte(start: seq<uint32>, p: nat, q: nat, i: nat)
    requires |start| == 16
  {
    KeystreamByte(start, p + i) == KeystreamByte(start, q + i)
  }

  // Decrypting at q what was encrypted at p gives the text back just where the keystreams agree.
  lemma GarbledIff(start: seq<uint32>, p: nat, q: nat, text: seq<uint8>)
    requires |start| == 16
    ensures EncryptAt(start, q, EncryptAt(start, p, text)) == text <==>
      forall i :: 0 <= i < |text| ==> SameByte(start, p, q, i)
  {
    hide KeystreamByte, Xor8;
    var e := EncryptAt(start, p, text);
    var r := EncryptAt(start, q, e);
    forall i | 0 <= i < |text| ensures r[i] == text[i] <==> SameByte(start, p, q, i) {
      assert e[i] == Xor8(text[i], KeystreamByte(start, p + i));
      assert r[i] == Xor8(e[i], KeystreamByte(start, q + i));
      XorPair(text[i], KeystreamByte(start, p + i), KeystreamByte(start, q + i));
    }
    assert r == text <==> forall i :: 0 <= i < |text| ==> r[i] == text[i];
  }

  // Both directions of a conversation start from one state, so where their positions are equal so
  // is their keystream: the exclusive-or of the two encryptions is that of the two texts.
  lemma SharedKeystream(start: seq<uint32>, p: nat, x: seq<uint8>, y: seq<uint8>, i: nat)
    requires |start| == 16 && i < |x| && i < |y|
    ensures Xor8(EncryptAt(start, p, x)[i], EncryptAt(start, p, y)[i]) == Xor8(x[i], y[i])
  {
    hide KeystreamByte, Xor;
    XorShared(x[i] as int, y[i] as int, KeystreamByte(start, p + i) as int);
  }

  lemma XorPair(t: uint8, a: uint8, b: uint8)
    ensures Xor8(Xor8(t, a), b) == t <==> a == b
  {
    hide Xor;
    var x := Xor(t as int, a as int);
    XorCancels(t as int, a as int);
    XorCancels(x, b as int);
    XorCommutes(x, t as int);
  }
}
