/**
 WebSocket frames (sections 5.2 and 5.3 of RFC 6455) as HTTPClient sends and receives them, on top of
 AsyncSocketReader.
 */
module WebSockets {
  import opened Bytes
  import opened SocketReaders

  const TEXT: byte := 0x01
  const CLOSE: byte := 0x08
  const PING: byte := 0x09
  const PONG: byte := 0x0A
  const FIN: byte := 0x80

  // ---- frames ----

  type MaskKey = k: seq<byte> | |k| == 4 witness [0, 0, 0, 0]

  function Mask(d: seq<byte>, key: MaskKey): (r: seq<byte>)
    ensures |r| == |d|
  {
    seq(|d|, i requires 0 <= i < |d| => Xor(d[i], key[i % 4]))
  }

  lemma MaskTwice(d: seq<byte>, key: MaskKey)
    ensures Mask(Mask(d, key), key) == d
  {
    forall i | 0 <= i < |d| ensures Mask(Mask(d, key), key)[i] == d[i] {
      XorTwice(d[i], key[i % 4]);
    }
  }

  /** The payload length in its shortest form; `masked` is the mask bit. */
  function LengthBytes(masked: bool, n: u64): seq<byte> {
    var bit := if masked then 0x80 else 0;
    if n > 0xFFFF then [bit + 0x7F] + Be(n, 8)
    else if n > 0x7D then [bit + 0x7E] + Be(n, 2)
    else [bit + n]
  }

  /** A string, whose length fits in 64 bits. */
  type Payload = d: seq<byte> | |d| < 0x1_0000_0000_0000_0000

  /** A frame with its first byte (FIN bit, reserved bits and opcode), optional mask key, and payload. */
  function EncodeFrame(head: byte, key: Option<MaskKey>, payload: Payload): seq<byte>
  {
    [head] + LengthBytes(key.Some?, |payload|)
    + if key.Some? then key.value + Mask(payload, key.value) else payload
  }

  /** send_websocket_message: final, unmasked. */
  function SentFrame(payload: Payload, opcode: byte): seq<byte>
  {
    EncodeFrame(FIN + opcode % 16, None, payload)
  }

  // ---- reading one frame ----

  datatype FrameError = EndOfData | TooLarge

  datatype Frame = Frame(head: byte, payload: Payload, rest: seq<byte>)

  /** How many bytes after the second hold the length. */
  function LengthWidth(second: byte): nat {
    if second % 0x80 == 0x7F then 8 else if second % 0x80 == 0x7E then 2 else 0
  }

  function ReadFrame(s: seq<byte>, maxSize: u64): (r: Result<Frame, FrameError>)
    ensures r.Ok? ==> |r.value.rest| < |s|
  {
    if |s| < 2 then Err(EndOfData) else ReadSized(s[0], s[1..], maxSize)
  }

  function ReadSized(head: byte, s: seq<byte>, maxSize: u64): (r: Result<Frame, FrameError>)
    requires |s| > 0
    ensures r.Ok? ==> |r.value.rest| < |s|
  {
    var width := LengthWidth(s[0]);
    if |s| < 1 + width then Err(EndOfData)
    else
      var size := if width == 0 then s[0] % 0x80 else FromBe(s[1..1 + width]);
      if size > maxSize then Err(TooLarge) else ReadBody(head, s[0] >= 0x80, size, s[1 + width..])
  }

  function ReadBody(head: byte, masked: bool, size: u64, s: seq<byte>): (r: Result<Frame, FrameError>)
    ensures r.Ok? ==> |r.value.rest| <= |s|
  {
    if !masked then
      if |s| < size then Err(EndOfData) else Ok(Frame(head, s[..size], s[size..]))
    else if |s| < 4 then Err(EndOfData)
    else if |s| - 4 < size then Err(EndOfData)
    else Ok(Frame(head, Mask(s[4..4 + size], s[..4]), s[4 + size..]))
  }

  /** What follows the length is read back and unmasked. */
  lemma BodyRoundTrip(head: byte, key: Option<MaskKey>, payload: Payload, rest: seq<byte>)
    ensures var body := if key.Some? then key.value + Mask(payload, key.value) else payload;
      ReadBody(head, key.Some?, |payload|, body + rest) == Ok(Frame(head, payload, rest))
  {
    if key.Some? {
      var m := Mask(payload, key.value);
      var s := key.value + m + rest;
      assert s[..4] == key.value && s[4..4 + |m|] == m && s[4 + |m|..] == rest;
      MaskTwice(payload, key.value);
    } else {
      var s := payload + rest;
      assert s[..|payload|] == payload && s[|payload|..] == rest;
    }
  }

  lemma LengthRoundTrip(masked: bool, n: u64, tail: seq<byte>)
    ensures var l := LengthBytes(masked, n);
      var width := LengthWidth(l[0]);
      && |l| == 1 + width && (l[0] >= 0x80 <==> masked)
      && (if width == 0 then l[0] % 0x80 else FromBe((l + tail)[1..1 + width])) == n
      && (l + tail)[1 + width..] == tail
  {
    var l := LengthBytes(masked, n);
    PowersOf256();
    if n > 0xFFFF {
      BeRoundTrip(n, 8);
      assert (l + tail)[1..9] == Be(n, 8);
    } else if n > 0x7D {
      BeRoundTrip(n, 2);
      assert (l + tail)[1..3] == Be(n, 2);
    }
  }

  lemma SizedRoundTrip(head: byte, masked: bool, n: u64, tail: seq<byte>, maxSize: u64)
    ensures ReadSized(head, LengthBytes(masked, n) + tail, maxSize)
         == if n <= maxSize then ReadBody(head, masked, n, tail) else Err(TooLarge)
  {
    LengthRoundTrip(masked, n, tail);
  }

  /** Every frame is read back, whatever its first byte, mask and payload, exactly if the payload is within the limit. */
  lemma FrameRoundTrip(head: byte, key: Option<MaskKey>, payload: Payload, rest: seq<byte>, maxSize: u64)
    ensures ReadFrame(EncodeFrame(head, key, payload) + rest, maxSize)
         == if |payload| <= maxSize then Ok(Frame(head, payload, rest)) else Err(TooLarge)
  {
    var l := LengthBytes(key.Some?, |payload|);
    var body := if key.Some? then key.value + Mask(payload, key.value) else payload;
    var s := EncodeFrame(head, key, payload) + rest;
    assert s[0] == head && s[1..] == l + (body + rest);
    SizedRoundTrip(head, key.Some?, |payload|, body + rest, maxSize);
    BodyRoundTrip(head, key, payload, rest);
  }

  // ---- receiving a message ----

  /** The end of recv_websocket_message: a message, a closed connection (which throws), or a failed read. */
  datatype Outcome =
    | Message(head: byte, data: seq<byte>, rest: seq<byte>, replies: seq<byte>)
    | Closed(rest: seq<byte>, replies: seq<byte>)
    | Failed(error: FrameError, replies: seq<byte>)

  function Replying(before: seq<byte>, o: Outcome): Outcome {
    match o
    case Message(h, d, rest, r) => Message(h, d, rest, before + r)
    case Closed(rest, r) => Closed(rest, before + r)
    case Failed(e, r) => Failed(e, before + r)
  }

  /**
   Control frames are answered or ignored. A data frame with opcode 0 closes the connection, because the flag that a
   fragment is pending is never set; one with another opcode is returned if it is final and otherwise dropped.
   A close frame is answered with the opcode a fresh message has, which is TEXT.
   */
  function Receive(s: seq<byte>, maxSize: u64): Outcome
    decreases |s|, 1
  {
    match ReadFrame(s, maxSize)
    case Err(e) => Failed(e, [])
    case Ok(f) => OnFrame(f, maxSize)
  }

  function OnFrame(f: Frame, maxSize: u64): Outcome
    decreases |f.rest|, 2
  {
    var opcode := f.head % 16;
    if opcode == PONG then Receive(f.rest, maxSize)
    else if opcode == CLOSE then Closed(f.rest, SentFrame(f.payload, TEXT))
    else if opcode == PING then Replying(SentFrame(f.payload, PONG), Receive(f.rest, maxSize))
    else if opcode >= 8 || opcode == 0 then Closed(f.rest, [])
    else if f.head >= FIN then Message(f.head, f.payload, f.rest, [])
    else Receive(f.rest, maxSize)
  }

  /** What is written in answer to a frame. */
  function Reply(opcode: byte, data: Payload): seq<byte> {
    if opcode == CLOSE then SentFrame(data, TEXT) else if opcode == PING then SentFrame(data, PONG) else []
  }

  /** One frame's effect on a reception that has already written `before`. */
  lemma ReplyStep(before: seq<byte>, f: Frame, maxSize: u64)
    ensures var opcode := f.head % 16;
      var o := Replying(before, OnFrame(f, maxSize));
      var written := before + Reply(opcode, f.payload);
      if opcode == PING || opcode == PONG then o == Replying(written, Receive(f.rest, maxSize))
      else if opcode >= 8 || opcode == 0 then o == Closed(f.rest, written)
      else if f.head >= FIN then o == Message(f.head, f.payload, f.rest, written)
      else o == Replying(written, Receive(f.rest, maxSize))
  {
    Append(before, Reply(f.head % 16, f.payload), Receive(f.rest, maxSize));
    assert before + [] == before;
  }

  lemma ReceiveFrame(head: byte, key: Option<MaskKey>, payload: Payload, s: seq<byte>, maxSize: u64)
    requires |payload| <= maxSize
    ensures Receive(EncodeFrame(head, key, payload) + s, maxSize) == OnFrame(Frame(head, payload, s), maxSize)
  {
    FrameRoundTrip(head, key, payload, s, maxSize);
  }

  datatype Control = Control(head: byte, key: Option<MaskKey>, payload: Payload)

  predicate PingOrPong(c: Control, maxSize: u64) {
    (c.head % 16 == PING || c.head % 16 == PONG) && |c.payload| <= maxSize
  }

  function ControlFrames(cs: seq<Control>): seq<byte>
  {
    if cs == [] then [] else EncodeFrame(cs[0].head, cs[0].key, cs[0].payload) + ControlFrames(cs[1..])
  }

  /** One pong per ping, in order, with the ping's payload. */
  function Pongs(cs: seq<Control>): seq<byte>
  {
    if cs == [] then []
    else (if cs[0].head % 16 == PING then SentFrame(cs[0].payload, PONG) else []) + Pongs(cs[1..])
  }

  /** Any run of pings and pongs changes nothing but the replies. */
  lemma {:induction false} ControlsAreTransparent(cs: seq<Control>, s: seq<byte>, maxSize: u64)
    requires forall c | c in cs :: PingOrPong(c, maxSize)
    ensures Receive(ControlFrames(cs) + s, maxSize) == Replying(Pongs(cs), Receive(s, maxSize))
    decreases |cs|
  {
    var o := Receive(s, maxSize);
    if cs == [] {
      assert ControlFrames(cs) + s == s && [] + o.replies == o.replies;
    } else {
      var c := cs[0];
      assert c in cs && PingOrPong(c, maxSize);
      var tail := ControlFrames(cs[1..]) + s;
      assert ControlFrames(cs) + s == EncodeFrame(c.head, c.key, c.payload) + tail;
      ReceiveFrame(c.head, c.key, c.payload, tail, maxSize);
      ControlsAreTransparent(cs[1..], s, maxSize);
      Append(if c.head % 16 == PING then SentFrame(c.payload, PONG) else [], Pongs(cs[1..]), o);
    }
  }

  lemma Append(a: seq<byte>, b: seq<byte>, o: Outcome)
    ensures Replying(a, Replying(b, o)) == Replying(a + b, o) && Replying([], o) == o
  {
    assert a + (b + o.replies) == a + b + o.replies && [] + o.replies == o.replies;
  }

  predicate DataHead(head: byte) { 0 < head % 16 < 8 }

  /**
   A data frame after any run of pings and pongs is delivered with the same bytes and head exactly if it is
   final; a frame that announces more fragments vanishes.
   */
  lemma DataFrame(cs: seq<Control>, head: byte, key: Option<MaskKey>, payload: Payload, s: seq<byte>, maxSize: u64)
    requires forall c | c in cs :: PingOrPong(c, maxSize)
    requires DataHead(head) && |payload| <= maxSize
    ensures Receive(ControlFrames(cs) + (EncodeFrame(head, key, payload) + s), maxSize)
         == if head >= FIN then Message(head, payload, s, Pongs(cs)) else Replying(Pongs(cs), Receive(s, maxSize))
  {
    ControlsAreTransparent(cs, EncodeFrame(head, key, payload) + s, maxSize);
    ReceiveFrame(head, key, payload, s, maxSize);
    assert Pongs(cs) + [] == Pongs(cs);
  }

  lemma Finals(opcode: byte)
    requires opcode < 16
    ensures opcode % 16 == opcode == (FIN + opcode) % 16
  {
  }

  lemma OnData(head: byte, payload: Payload, s: seq<byte>, maxSize: u64)
    requires DataHead(head)
    ensures OnFrame(Frame(head, payload, s), maxSize)
         == if head >= FIN then Message(head, payload, s, []) else Receive(s, maxSize)
  {
  }

  /** What this server sends, it can receive. */
  lemma SentIsReceived(payload: Payload, opcode: byte, s: seq<byte>, maxSize: u64)
    requires 0 < opcode < 8 && |payload| <= maxSize
    ensures Receive(SentFrame(payload, opcode) + s, maxSize) == Message(FIN + opcode, payload, s, [])
  {
    Finals(opcode);
    assert SentFrame(payload, opcode) == EncodeFrame(FIN + opcode, None, payload);
    ReceiveFrame(FIN + opcode, None, payload, s, maxSize);
    OnData(FIN + opcode, payload, s, maxSize);
  }

  /** A continuation frame closes the connection. */
  lemma Continuation(head: byte, key: Option<MaskKey>, payload: Payload, s: seq<byte>, maxSize: u64)
    requires head % 16 == 0 && |payload| <= maxSize
    ensures Receive(EncodeFrame(head, key, payload) + s, maxSize) == Closed(s, [])
  {
    ReceiveFrame(head, key, payload, s, maxSize);
  }

  /**
   Fragmented messages are not reassembled. A message sent as one final frame is delivered (DataFrame); of one sent as
   more, the opening frame and the first continuation already close the connection, whatever pings and pongs come
   between them and whatever follows.
   */
  lemma FragmentsClose(head: byte, key: Option<MaskKey>, payload: Payload, cs: seq<Control>,
                       head2: byte, key2: Option<MaskKey>, payload2: Payload, s: seq<byte>, maxSize: u64)
    requires DataHead(head) && head < FIN && head2 % 16 == 0
    requires |payload| <= maxSize && |payload2| <= maxSize
    requires forall c | c in cs :: PingOrPong(c, maxSize)
    ensures Receive(EncodeFrame(head, key, payload)
                    + (ControlFrames(cs) + (EncodeFrame(head2, key2, payload2) + s)), maxSize) == Closed(s, Pongs(cs))
  {
    var second := EncodeFrame(head2, key2, payload2) + s;
    var tail := ControlFrames(cs) + second;
    ReceiveFrame(head, key, payload, tail, maxSize);
    OnData(head, payload, tail, maxSize);
    ControlsAreTransparent(cs, second, maxSize);
    Continuation(head2, key2, payload2, s, maxSize);
    assert Pongs(cs) + [] == Pongs(cs);
  }

  // ---- the class ----

  /** Two ways to take the first byte, the second one and the length off a stream. */
  lemma HeaderCut(s: seq<byte>, width: nat)
    requires 2 + width <= |s|
    ensures s[..2][0] == s[0] && s[..2][1] == s[1..][0]
    ensures s[2..][..width] == s[1..][1..1 + width]
    ensures s[2..][width..] == s[1..][1 + width..]
    ensures width == 0 ==> s[2..] == s[1..][1 + width..]
  {
  }

  class HTTPClient {
    const reader: AsyncSocketReader
    var open: bool
    var written: seq<byte>

    ghost predicate Valid()
      reads this, reader
    {
      reader.Valid()
    }

    constructor (reader: AsyncSocketReader)
      requires reader.Valid()
      ensures Valid() && this.reader == reader && open && written == []
    {
      this.reader, open, written := reader, true, [];
    }

    method SendWebSocketMessage(data: Payload, opcode: byte)
      modifies this`written
      ensures written == old(written) + SentFrame(data, opcode)
    {
      var head := [FIN + opcode % 16];
      if |data| > 0xFFFF {
        head := head + [0x7F] + Be(|data|, 8);
      } else if |data| > 0x7D {
        head := head + [0x7E] + Be(|data|, 2);
      } else {
        head := head + [|data|];
      }
      assert head == [FIN + opcode % 16] + LengthBytes(false, |data|);
      written := written + (head + data);
    }

    /** The unmasking loop. */
    method Unmask(data: seq<byte>, key: MaskKey) returns (r: seq<byte>)
      ensures r == Mask(data, key)
    {
      r := data;
      for x := 0 to |data|
        invariant |r| == |data|
        invariant forall i | 0 <= i < x :: r[i] == Mask(data, key)[i]
        invariant forall i | x <= i < |data| :: r[i] == data[i]
      {
        r := r[x := Xor(r[x], key[x % 4])];
      }
    }

    /** The reads that make up one frame. */
    method RecvFrame(maxSize: u64) returns (r: Result<(byte, Payload), FrameError>)
      requires Valid()
      modifies reader
      ensures Valid()
      ensures match ReadFrame(old(reader.Stream()), maxSize)
        case Ok(f) => r == Ok((f.head, f.payload)) && reader.Stream() == f.rest
        case Err(e) => r == Err(e)
    {
      ghost var s := reader.Stream();
      var header := reader.ReadData(2);
      if header.Err? {
        return Err(EndOfData);
      }
      var second := header.value[1];
      var size := second % 0x80;
      var width := LengthWidth(second);
      assert header.value == s[..2];
      if width != 0 {
        var wire := reader.ReadData(width);
        if wire.Err? {
          return Err(EndOfData);
        }
        size := FromBe(wire.value);
      }
      HeaderCut(s, width);
      if size > maxSize {
        return Err(TooLarge);
      }
      var payload := RecvBody(header.value[0], second >= 0x80, size);
      return if payload.Some? then Ok((header.value[0], payload.value)) else Err(EndOfData);
    }

    method RecvBody(ghost head: byte, masked: bool, size: u64) returns (payload: Option<Payload>)
      requires Valid()
      modifies reader
      ensures Valid()
      ensures match ReadBody(head, masked, size, old(reader.Stream()))
        case Ok(f) => payload == Some(f.payload) && reader.Stream() == f.rest
        case Err(_) => payload == None
    {
      ghost var body := reader.Stream();
      var key: MaskKey := [0, 0, 0, 0];
      if masked {
        var k := reader.ReadData(4);
        if k.Err? {
          return None;
        }
        key := k.value;
      }
      var data := reader.ReadData(size);
      if data.Err? {
        return None;
      }
      if !masked {
        return Some(data.value);
      }
      assert data.value == body[4..4 + size] && reader.Stream() == body[4 + size..];
      var clear := Unmask(data.value, key);
      return Some(clear);
    }

    /** Answers a control frame; unknown ones and close close the connection. */
    method HandleControl(opcode: byte, data: Payload)
      requires 8 <= opcode < 16
      modifies this
      ensures written == old(written) + Reply(opcode, data)
      ensures open == (old(open) && (opcode == PING || opcode == PONG))
    {
      if opcode == PONG {
        assert written + [] == written;
      } else if opcode == CLOSE {
        SendWebSocketMessage(data, TEXT);
        open := false;
      } else if opcode == PING {
        SendWebSocketMessage(data, PONG);
      } else {
        assert written + [] == written;
        open := false;
      }
    }

    /** One pass of the loop; the result is the message if the frame completes one. */
    method RecvStep(maxSize: u64) returns (r: Result<Option<(byte, Payload)>, FrameError>, ghost frame: Frame)
      requires Valid() && open
      modifies this, reader
      ensures Valid()
      ensures r.Err? ==>
        Receive(old(reader.Stream()), maxSize) == Failed(r.error, []) && open && written == old(written)
      ensures r.Ok? ==>
        var opcode := frame.head % 16;
        && Receive(old(reader.Stream()), maxSize) == OnFrame(frame, maxSize)
        && reader.Stream() == frame.rest && |frame.rest| < |old(reader.Stream())|
        && written == old(written) + Reply(opcode, frame.payload)
        && open == (opcode == PING || opcode == PONG || 0 < opcode < 8)
        && r.value == if 0 < opcode < 8 && frame.head >= FIN then Some((frame.head, frame.payload)) else None
    {
      frame := Frame(0, [], []);
      var f := RecvFrame(maxSize);
      if f.Err? {
        return Err(f.error), frame;
      }
      var (head, data) := f.value;
      frame := Frame(head, data, reader.Stream());
      var opcode := head % 16;
      assert written + [] == written;
      if opcode >= 8 {
        HandleControl(opcode, data);
      } else if opcode == 0 {
        open := false;
      } else if head >= FIN {
        return Ok(Some((head, data))), frame;
      }
      return Ok(None), frame;
    }

    /** A message, or an exception: `None` is the one thrown because the connection is not open. */
    method RecvWebSocketMessage(maxSize: u64) returns (r: Result<(byte, Payload), Option<FrameError>>)
      requires Valid()
      modifies this, reader
      ensures Valid()
      ensures old(!open) ==> r == Err(None) && written == old(written) && reader.Stream() == old(reader.Stream())
      ensures old(open) ==>
        match Receive(old(reader.Stream()), maxSize)
        case Message(head, data, rest, replies) =>
          r == Ok((head, data)) && open && reader.Stream() == rest && written == old(written) + replies
        case Closed(rest, replies) =>
          r == Err(None) && !open && reader.Stream() == rest && written == old(written) + replies
        case Failed(e, replies) =>
          r == Err(Some(e)) && open && written == old(written) + replies
    {
      if !open {
        return Err(None);
      }
      r := RecvLoop(maxSize);
    }

    method RecvLoop(maxSize: u64) returns (r: Result<(byte, Payload), Option<FrameError>>)
      requires Valid() && open
      modifies this, reader
      ensures Valid()
      ensures match Receive(old(reader.Stream()), maxSize)
        case Message(head, data, rest, replies) =>
          r == Ok((head, data)) && open && reader.Stream() == rest && written == old(written) + replies
        case Closed(rest, replies) =>
          r == Err(None) && !open && reader.Stream() == rest && written == old(written) + replies
        case Failed(e, replies) =>
          r == Err(Some(e)) && open && written == old(written) + replies
    {
      ghost var before, o := [], Receive(reader.Stream(), maxSize);
      Append([], [], o);
      while open
        invariant Valid() && written == old(written) + before
        invariant open ==> o == Replying(before, Receive(reader.Stream(), maxSize))
        invariant !open ==> o == Closed(reader.Stream(), before)
        decreases open, |reader.Stream()|
      {
        var step, f := RecvStep(maxSize);
        if step.Err? {
          assert before + [] == before;
          return Err(Some(step.error));
        }
        ReplyStep(before, f, maxSize);
        ghost var reply := Reply(f.head % 16, f.payload);
        Associative(old(written), before, reply);
        before := before + reply;
        if step.value.Some? {
          return Ok(step.value.value);
        }
      }
      return Err(None);
    }
  }
}
