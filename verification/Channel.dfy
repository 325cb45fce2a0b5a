/**
 Channel::send and Channel::recv: framing, padding and encryption of game commands, one receive
 automaton for all versions, and the proof that the receiver reconstructs what was sent however the bytes are cut up.
 */
module Channel {
  import opened Bytes
  import opened Ciphers

  datatype Version =
    | PC_PATCH | BB_PATCH | DC_NTE | DC_11_2000 | DC_V1 | DC_V2 | PC_NTE | PC_V2
    | GC_NTE | GC_V3 | GC_EP3_NTE | GC_EP3 | XB_V3 | BB_V4 | UNKNOWN

  predicate IsV1(v: Version) { v == DC_NTE || v == DC_11_2000 || v == DC_V1 }

  predicate HasPCHeader(v: Version) { v == PC_PATCH || v == BB_PATCH || v == PC_NTE || v == PC_V2 }

  function HeaderSize(v: Version): nat { if v == BB_V4 then 8 else 4 }

  const MAX_COMMAND_SIZE: nat := 0x7C00

  // ---- headers ----

  function EncodeHeader(v: Version, cmd: u16, flag: u32, size: u16): (h: seq<byte>)
    requires v != UNKNOWN
    ensures |h| == HeaderSize(v)
  {
    if v == BB_V4 then Le(size, 2) + Le(cmd, 2) + Le(flag, 4)
    else if HasPCHeader(v) then Le(size, 2) + [cmd % 256, flag % 256]
    else [cmd % 256, flag % 256] + Le(size, 2)
  }

  function SizeField(v: Version, h: seq<byte>): nat
    requires |h| == HeaderSize(v)
  {
    if v == BB_V4 || HasPCHeader(v) then FromLe(h[..2]) else FromLe(h[2..4])
  }

  function CommandField(v: Version, h: seq<byte>): nat
    requires |h| == HeaderSize(v)
  {
    if v == BB_V4 then FromLe(h[2..4]) else if HasPCHeader(v) then h[2] else h[0]
  }

  function FlagField(v: Version, h: seq<byte>): nat
    requires |h| == HeaderSize(v)
  {
    if v == BB_V4 then FromLe(h[4..8]) else if HasPCHeader(v) then h[3] else h[1]
  }

  /** What survives of a command number and a flag: all of it on BB, the low byte elsewhere. */
  function Narrow(v: Version, x: nat): nat { if v == BB_V4 then x else x % 256 }

  lemma HeaderRoundTrip(v: Version, cmd: u16, flag: u32, size: u16)
    requires v != UNKNOWN
    ensures var h := EncodeHeader(v, cmd, flag, size);
      SizeField(v, h) == size && CommandField(v, h) == Narrow(v, cmd) && FlagField(v, h) == Narrow(v, flag)
  {
    LeFields(size, cmd, flag);
    if v == BB_V4 {
      LongHeader(Le(size, 2), Le(cmd, 2), Le(flag, 4));
    } else {
      ShortHeader(v, Le(size, 2), cmd % 256, flag % 256);
    }
  }

  lemma LongHeader(a: seq<byte>, b: seq<byte>, c: seq<byte>)
    requires |a| == 2 && |b| == 2 && |c| == 4
    ensures SizeField(BB_V4, a + b + c) == FromLe(a)
    ensures CommandField(BB_V4, a + b + c) == FromLe(b)
    ensures FlagField(BB_V4, a + b + c) == FromLe(c)
  {
    var h := a + b + c;
    assert h[..2] == a && h[2..4] == b && h[4..8] == c;
  }

  lemma ShortHeader(v: Version, a: seq<byte>, cmd: byte, flag: byte)
    requires |a| == 2 && v != BB_V4
    ensures var h := if HasPCHeader(v) then a + [cmd, flag] else [cmd, flag] + a;
      SizeField(v, h) == FromLe(a) && CommandField(v, h) == cmd && FlagField(v, h) == flag
  {
    assert (a + [cmd, flag])[..2] == a && ([cmd, flag] + a)[2..4] == a;
  }

  lemma LeFields(size: u16, cmd: u16, flag: u32)
    ensures FromLe(Le(size, 2)) == size && FromLe(Le(cmd, 2)) == cmd && FromLe(Le(flag, 4)) == flag
  {
    PowersOf256();
    LeRoundTrip(size, 2);
    LeRoundTrip(cmd, 2);
    LeRoundTrip(flag, 4);
  }

  // ---- send ----

  /** Bytes put on the wire for a payload of n bytes. */
  function PhysicalSize(v: Version, encrypted: bool, n: nat): nat {
    if !encrypted || IsV1(v) then HeaderSize(v) + n
    else if v == BB_V4 then RoundUp(HeaderSize(v) + n, 8)
    else RoundUp(HeaderSize(v) + n, 4)
  }

  /** Value of the size field. */
  function LogicalSize(v: Version, encrypted: bool, n: nat): nat {
    if v == BB_V4 then RoundUp(HeaderSize(v) + n, 4) else PhysicalSize(v, encrypted, n)
  }

  datatype Failure = UnknownVersion | TooLarge | BadCipherLength | SizeFieldTooSmall

  datatype Sent = Sent(wire: seq<byte>, crypt: Option<Cipher>)

  function WireHeader(v: Version, encrypted: bool, cmd: u16, flag: u32, n: nat): (h: seq<byte>)
    requires v != UNKNOWN
    ensures |h| == HeaderSize(v)
  {
    EncodeHeader(v, cmd, flag, LogicalSize(v, encrypted, n) % 0x1_0000)
  }

  /** The frame after its header: the payload and the padding. */
  function Rest(v: Version, encrypted: bool, payload: seq<byte>): (d: seq<byte>)
    ensures |d| == PhysicalSize(v, encrypted, |payload|) - HeaderSize(v)
  {
    payload + Zeros(PhysicalSize(v, encrypted, |payload|) - HeaderSize(v) - |payload|)
  }

  function Frame(v: Version, encrypted: bool, cmd: u16, flag: u32, payload: seq<byte>): (f: seq<byte>)
    requires v != UNKNOWN
    ensures |f| == PhysicalSize(v, encrypted, |payload|)
  {
    WireHeader(v, encrypted, cmd, flag, |payload|) + Rest(v, encrypted, payload)
  }

  function Sealed(crypt: Option<Cipher>, d: seq<byte>): seq<byte>
    requires crypt.Some? ==> Accepts(crypt.value, |d|)
  {
    if crypt.Some? then Encrypt(crypt.value, d) else d
  }

  function Advanced(crypt: Option<Cipher>, d: seq<byte>): Option<Cipher> {
    if crypt.Some? then Some(After(crypt.value, d)) else None
  }

  function Send(v: Version, crypt: Option<Cipher>, cmd: u16, flag: u32, payload: seq<byte>): Result<Sent, Failure> {
    if v == UNKNOWN then Err(UnknownVersion)
    else if PhysicalSize(v, crypt.Some?, |payload|) > MAX_COMMAND_SIZE then Err(TooLarge)
    else
      var f := Frame(v, crypt.Some?, cmd, flag, payload);
      if crypt.Some? && !Accepts(crypt.value, |f|) then Err(BadCipherLength)
      else Ok(Sent(Sealed(crypt, f), Advanced(crypt, f)))
  }

  // ---- recv, as an automaton fed one byte at a time ----

  datatype Message = Message(command: nat, flag: nat, data: seq<byte>)

  /** Where the receiving coroutine is; `Broken` is the state after recv has thrown. */
  datatype Phase = AwaitHeader | AwaitBody(header: seq<byte>) | Broken(failure: Failure)

  datatype Receiver = Receiver(version: Version, crypt: Option<Cipher>, phase: Phase, got: seq<byte>,
                               delivered: seq<Message>)

  predicate WellFormed(r: Receiver) {
    match r.phase
    case AwaitHeader => |r.got| < HeaderSize(r.version)
    case AwaitBody(h) =>
      && |h| == HeaderSize(r.version) <= SizeField(r.version, h)
      && |r.got| < BodySize(r, h)
    case Broken(_) => true
  }

  /** Bytes to read after the header: BB pads to 8 when encrypted, without saying so in the size field. */
  function BodySize(r: Receiver, h: seq<byte>): nat
    requires |h| == HeaderSize(r.version) <= SizeField(r.version, h)
  {
    var logical := SizeField(r.version, h);
    (if r.crypt.Some? && r.version == BB_V4 then RoundUp(logical, 8) else logical) - HeaderSize(r.version)
  }

  /** Size of the read that is in progress. */
  function Need(r: Receiver): nat
    requires WellFormed(r) && !r.phase.Broken?
  {
    match r.phase
    case AwaitHeader => HeaderSize(r.version)
    case AwaitBody(h) => BodySize(r, h)
  }

  function Break(r: Receiver, f: Failure): Receiver { r.(phase := Broken(f)) }

  function FinishHeader(r: Receiver, raw: seq<byte>): (r': Receiver)
    requires |raw| == HeaderSize(r.version)
    ensures WellFormed(r')
  {
    if r.crypt.Some? && !Accepts(r.crypt.value, |raw|) then Break(r, BadCipherLength)
    else
      var h := if r.crypt.Some? then Decrypt(r.crypt.value, raw) else raw;
      var r1 := r.(crypt := Advanced(r.crypt, h), got := []);
      if r.version == UNKNOWN then Break(r1, UnknownVersion)
      else if SizeField(r.version, h) < HeaderSize(r.version) then Break(r1, SizeFieldTooSmall)
      else AfterHeader(r1, h)
  }

  /** A zero-length body read completes at once. */
  function AfterHeader(r: Receiver, h: seq<byte>): (r': Receiver)
    requires r.got == [] && |h| == HeaderSize(r.version) <= SizeField(r.version, h)
    ensures WellFormed(r')
  {
    if BodySize(r, h) == 0 then FinishBody(r, h, []) else r.(phase := AwaitBody(h))
  }

  function FinishBody(r: Receiver, h: seq<byte>, raw: seq<byte>): (r': Receiver)
    requires |h| == HeaderSize(r.version) <= SizeField(r.version, h)
    requires |raw| == BodySize(r, h)
    ensures WellFormed(r')
  {
    var padded := raw + Zeros(RoundUp(|raw|, 4) - |raw|);
    if r.crypt.Some? && !Accepts(r.crypt.value, |padded|) then Break(r, BadCipherLength)
    else
      var plain := if r.crypt.Some? then Decrypt(r.crypt.value, padded) else padded;
      var data := plain[..|raw|][..DataSize(r.version, h)];
      Ready(r.version, Advanced(r.crypt, plain), r.delivered + [MessageOf(r.version, h, data)])
  }

  function DataSize(v: Version, h: seq<byte>): nat
    requires |h| == HeaderSize(v) <= SizeField(v, h)
  {
    SizeField(v, h) - HeaderSize(v)
  }

  function MessageOf(v: Version, h: seq<byte>, data: seq<byte>): Message
    requires |h| == HeaderSize(v)
  {
    Message(CommandField(v, h), FlagField(v, h), data)
  }

  /** The read in progress has all its bytes. */
  function Finish(r: Receiver, raw: seq<byte>): (r': Receiver)
    requires r.got == [] && WellFormed(r) && !r.phase.Broken? && |raw| == Need(r)
    ensures WellFormed(r')
  {
    match r.phase
    case AwaitHeader => FinishHeader(r, raw)
    case AwaitBody(h) => FinishBody(r, h, raw)
  }

  function Step(r: Receiver, b: byte): (r': Receiver)
    requires WellFormed(r)
    ensures WellFormed(r')
  {
    if r.phase.Broken? then r
    else if |r.got| + 1 == Need(r) then Finish(r.(got := []), r.got + [b])
    else r.(got := r.got + [b])
  }

  function Run(r: Receiver, bytes: seq<byte>): (r': Receiver)
    requires WellFormed(r)
    ensures WellFormed(r')
    decreases |bytes|
  {
    if bytes == [] then r else Run(Step(r, bytes[0]), bytes[1..])
  }

  /** At a message boundary. */
  function Ready(v: Version, crypt: Option<Cipher>, delivered: seq<Message>): (r: Receiver)
    ensures WellFormed(r)
  {
    Receiver(v, crypt, AwaitHeader, [], delivered)
  }

  // ---- how the receiver consumes a stream ----

  /** The state depends on the bytes, not on where the stream was cut. */
  lemma {:induction false} RunAppend(r: Receiver, a: seq<byte>, b: seq<byte>)
    requires WellFormed(r)
    ensures Run(r, a + b) == Run(Run(r, a), b)
    decreases |a|
  {
    if a == [] {
      assert a + b == b;
    } else {
      RunAppend(Step(r, a[0]), a[1..], b);
      assert (a + b)[0] == a[0] && (a + b)[1..] == a[1..] + b;
    }
  }

  /** A raw read that is still short of the amount needed is buffered. */
  lemma {:induction false} RunShort(r: Receiver, d: seq<byte>)
    requires WellFormed(r) && !r.phase.Broken? && |r.got| + |d| < Need(r)
    ensures Run(r, d) == r.(got := r.got + d)
    decreases |d|
  {
    if d == [] {
      assert r.got + d == r.got;
    } else {
      var r1 := r.(got := r.got + [d[0]]);
      assert Step(r, d[0]) == r1;
      assert Need(r1) == Need(r);
      RunShort(r1, d[1..]);
      assert r1.got + d[1..] == r.got + d;
    }
  }

  /** A raw read that brings exactly the amount needed completes. */
  lemma RunComplete(r: Receiver, d: seq<byte>)
    requires WellFormed(r) && !r.phase.Broken? && 0 < |d| && |r.got| + |d| == Need(r)
    ensures Run(r, d) == Finish(r.(got := []), r.got + d)
  {
    var n := |d| - 1;
    var init, last := d[..n], d[n];
    var r1 := r.(got := r.got + init);
    assert d == init + [last];
    RunShort(r, init);
    RunAppend(r, init, [last]);
    Associative(r.got, init, [last]);
    StepFinishes(r1, last);
    assert r1.(got := []) == r.(got := []);
  }

  lemma StepFinishes(r: Receiver, b: byte)
    requires WellFormed(r) && !r.phase.Broken? && |r.got| + 1 == Need(r)
    ensures Run(r, [b]) == Finish(r.(got := []), r.got + [b])
  {
    RunOne(r, b);
  }

  lemma RunOne(r: Receiver, b: byte)
    requires WellFormed(r)
    ensures Run(r, [b]) == Step(r, b)
  {
    var r1 := Step(r, b);
    assert [b][1..] == [];
    assert Run(r1, []) == r1;
  }

  /** Messages already delivered are never changed. */
  lemma {:induction false} DeliveredGrows(r: Receiver, d: seq<byte>)
    requires WellFormed(r)
    ensures r.delivered <= Run(r, d).delivered
    decreases |d|
  {
    if d != [] {
      DeliveredGrows(Step(r, d[0]), d[1..]);
    }
  }

  // ---- sender and receiver together ----

  /** The kind of cipher each version uses. */
  predicate Suits(v: Version, crypt: Option<Cipher>) {
    crypt.Some? ==> (crypt.value.BlockCipher? <==> v == BB_V4)
  }

  ghost predicate Usable(v: Version, crypt: Option<Cipher>) {
    v != UNKNOWN && Suits(v, crypt) && (crypt.Some? ==> Lawful(crypt.value))
  }

  function Padding(v: Version, encrypted: bool, n: nat): nat {
    if v == BB_V4 || (encrypted && !IsV1(v)) then RoundUp(n, 4) - n else 0
  }

  /** The payload as recv hands it over: followed by as many zeros as the size field covers. */
  function Padded(v: Version, encrypted: bool, payload: seq<byte>): seq<byte> {
    payload + Zeros(Padding(v, encrypted, |payload|))
  }

  function Expected(v: Version, encrypted: bool, cmd: u16, flag: u32, payload: seq<byte>): Message {
    Message(Narrow(v, cmd), Narrow(v, flag), Padded(v, encrypted, payload))
  }

  /** Without encryption BB writes a rounded size field but no padding. */
  predicate KeepsFraming(v: Version, encrypted: bool, n: nat) {
    v == BB_V4 && !encrypted ==> n % 4 == 0
  }

  /** The receiver recomputes the sender's physical size from the size field. */
  lemma SizesAgree(v: Version, encrypted: bool, n: nat)
    requires KeepsFraming(v, encrypted, n)
    ensures var l := LogicalSize(v, encrypted, n);
      && PhysicalSize(v, encrypted, n) == (if encrypted && v == BB_V4 then RoundUp(l, 8) else l)
      && l == HeaderSize(v) + n + Padding(v, encrypted, n) <= PhysicalSize(v, encrypted, n)
  {
    Rounding(n);
    RoundUpExact(n, 4);
  }

  /** Rounding to 8 forgets an earlier rounding to 4. */
  lemma {:induction false} Rounding(n: nat)
    ensures RoundUp(RoundUp(8 + n, 4), 8) == RoundUp(8 + n, 8) >= RoundUp(8 + n, 4) == 8 + RoundUp(n, 4)
    ensures RoundUp(4 + n, 4) == 4 + RoundUp(n, 4)
  {
    assert RoundUp(8 + n, 4) == 4 + RoundUp(4 + n, 4);
    if n > 8 {
      Rounding(n - 8);
    }
  }

  /** The size field covers the padded payload exactly, and the receiver's body read covers the rest of the frame. */
  lemma RestParts(v: Version, encrypted: bool, payload: seq<byte>)
    requires KeepsFraming(v, encrypted, |payload|)
    ensures var covered := LogicalSize(v, encrypted, |payload|) - HeaderSize(v);
      && 0 <= covered <= |Rest(v, encrypted, payload)|
      && Rest(v, encrypted, payload)[..covered] == Padded(v, encrypted, payload)
  {
    SizesAgree(v, encrypted, |payload|);
    ZerosCut(payload, |Rest(v, encrypted, payload)| - |payload|, Padding(v, encrypted, |payload|));
  }

  lemma ZerosCut(d: seq<byte>, room: nat, pad: nat)
    requires pad <= room
    ensures (d + Zeros(room))[..|d| + pad] == d + Zeros(pad)
  {
  }

  lemma HeaderParts(v: Version, encrypted: bool, cmd: u16, flag: u32, n: nat)
    requires v != UNKNOWN && PhysicalSize(v, encrypted, n) <= MAX_COMMAND_SIZE
    ensures var h := WireHeader(v, encrypted, cmd, flag, n);
      && SizeField(v, h) == LogicalSize(v, encrypted, n) >= HeaderSize(v)
      && CommandField(v, h) == Narrow(v, cmd) && FlagField(v, h) == Narrow(v, flag)
  {
    HeaderRoundTrip(v, cmd, flag, LogicalSize(v, encrypted, n));
  }

  /** Encrypting a frame is encrypting its header and then the rest. */
  lemma WireParts(crypt: Option<Cipher>, h: seq<byte>, rest: seq<byte>)
    requires |h| % 4 == 0
    requires crypt.Some? ==> Accepts(crypt.value, |h|) && Accepts(crypt.value, |rest|)
    ensures crypt.Some? ==> Accepts(crypt.value, |h + rest|)
    ensures Sealed(crypt, h + rest) == Sealed(crypt, h) + Sealed(Advanced(crypt, h), rest)
    ensures Advanced(crypt, h + rest) == Advanced(Advanced(crypt, h), rest)
  {
    if crypt.Some? {
      EncryptSplit(crypt.value, h, rest);
    }
  }

  /** The body of a command comes back out of the padded decryption, and the ciphers stay in step. */
  lemma BodyDecrypts(c: Cipher, d: seq<byte>)
    requires Lawful(c) && Accepts(c, |d|)
    ensures var padded := Encrypt(c, d) + Zeros(RoundUp(|d|, 4) - |d|);
      && Accepts(c, |padded|)
      && Decrypt(c, padded)[..|d|] == d
      && After(c, Decrypt(c, padded)) == After(c, d)
  {
    if c.WordStream? {
      StreamBody(c, d);
    } else {
      BlockBody(c, d);
    }
  }

  lemma StreamBody(c: Cipher, d: seq<byte>)
    requires c.WordStream?
    ensures var padded := Encrypt(c, d) + Zeros(RoundUp(|d|, 4) - |d|);
      && Decrypt(c, padded)[..|d|] == d
      && After(c, Decrypt(c, padded)) == After(c, d)
  {
    DecryptEncrypt(c, d);
    var e := Encrypt(c, d);
    assert After(c, e) == After(c, d);
    PaddedDecrypt(c, e, RoundUp(|d|, 4) - |d|);
  }

  lemma BlockBody(c: Cipher, d: seq<byte>)
    requires c.BlockCipher? && Lawful(c) && Accepts(c, |d|)
    ensures var padded := Encrypt(c, d) + Zeros(RoundUp(|d|, 4) - |d|);
      padded == Encrypt(c, d) && Decrypt(c, padded) == d
  {
    DecryptEncrypt(c, d);
    NoPadding(Encrypt(c, d));
  }

  lemma NoPadding(e: seq<byte>)
    requires |e| % 8 == 0
    ensures e + Zeros(RoundUp(|e|, 4) - |e|) == e
  {
    FoursInEights(|e|);
    RoundUpExact(|e|, 4);
    assert Zeros(0) == [] && e + [] == e;
  }

  lemma FoursInEights(n: nat)
    requires n % 8 == 0
    ensures n % 4 == 0
  {
  }

  lemma StillUsable(v: Version, crypt: Option<Cipher>, d: seq<byte>)
    requires Usable(v, crypt)
    ensures Usable(v, Advanced(crypt, d))
  {
  }

  /** The header half: the plaintext header comes out and the body read is set up with the right length. */
  lemma HeaderReceived(v: Version, crypt: Option<Cipher>, ms: seq<Message>, h: seq<byte>)
    requires Usable(v, crypt)
    requires |h| == HeaderSize(v) <= SizeField(v, h)
    ensures Run(Ready(v, crypt, ms), Sealed(crypt, h)) == AfterHeader(Ready(v, Advanced(crypt, h), ms), h)
  {
    if crypt.Some? {
      DecryptEncrypt(crypt.value, h);
    }
    var r, raw := Ready(v, crypt, ms), Sealed(crypt, h);
    RunComplete(r, raw);
    assert r.got + raw == raw;
  }

  /** The body half. */
  lemma BodyReceived(v: Version, crypt: Option<Cipher>, ms: seq<Message>, h: seq<byte>, d: seq<byte>)
    requires Usable(v, crypt)
    requires |h| == HeaderSize(v) <= SizeField(v, h)
    requires crypt.Some? ==> Accepts(crypt.value, |d|)
    requires |d| == BodySize(Ready(v, crypt, ms), h)
    ensures Run(AfterHeader(Ready(v, crypt, ms), h), Sealed(crypt, d))
         == Ready(v, Advanced(crypt, d), ms + [MessageOf(v, h, d[..DataSize(v, h)])])
  {
    var r, raw := Ready(v, crypt, ms), Sealed(crypt, d);
    BodyFinished(v, crypt, ms, h, d);
    if |raw| == 0 {
      assert raw == [];
    } else {
      var r1 := AfterHeader(r, h);
      RunComplete(r1, raw);
      assert r1.got + raw == raw && r1.(got := []) == r1;
    }
  }

  lemma BodyFinished(v: Version, crypt: Option<Cipher>, ms: seq<Message>, h: seq<byte>, d: seq<byte>)
    requires Usable(v, crypt)
    requires |h| == HeaderSize(v) <= SizeField(v, h)
    requires crypt.Some? ==> Accepts(crypt.value, |d|)
    requires |d| == BodySize(Ready(v, crypt, ms), h)
    ensures FinishBody(Ready(v, crypt, ms), h, Sealed(crypt, d))
         == Ready(v, Advanced(crypt, d), ms + [MessageOf(v, h, d[..DataSize(v, h)])])
  {
    if crypt.Some? {
      BodyDecrypts(crypt.value, d);
    } else {
      assert (d + Zeros(RoundUp(|d|, 4) - |d|))[..|d|] == d;
    }
  }

  /** A header and a matching rest, encrypted as one frame. */
  lemma FrameReceived(v: Version, crypt: Option<Cipher>, ms: seq<Message>, h: seq<byte>, rest: seq<byte>)
    requires Usable(v, crypt)
    requires |h| == HeaderSize(v) <= SizeField(v, h)
    requires crypt.Some? ==> Accepts(crypt.value, |rest|)
    requires |rest| == BodySize(Ready(v, crypt, ms), h)
    ensures crypt.Some? ==> Accepts(crypt.value, |h + rest|)
    ensures Run(Ready(v, crypt, ms), Sealed(crypt, h + rest))
         == Ready(v, Advanced(crypt, h + rest), ms + [MessageOf(v, h, rest[..DataSize(v, h)])])
  {
    var crypt1 := Advanced(crypt, h);
    WireParts(crypt, h, rest);
    RunAppend(Ready(v, crypt, ms), Sealed(crypt, h), Sealed(crypt1, rest));
    StillUsable(v, crypt, h);
    HeaderReceived(v, crypt, ms, h);
    BodyReceived(v, crypt1, ms, h, rest);
  }

  /** A frame is laid out as the receiver will read it. */
  lemma FrameParts(v: Version, crypt: Option<Cipher>, ms: seq<Message>, cmd: u16, flag: u32, payload: seq<byte>)
    requires Usable(v, crypt)
    requires KeepsFraming(v, crypt.Some?, |payload|)
    requires PhysicalSize(v, crypt.Some?, |payload|) <= MAX_COMMAND_SIZE
    ensures var h := WireHeader(v, crypt.Some?, cmd, flag, |payload|);
      var rest := Rest(v, crypt.Some?, payload);
      && HeaderSize(v) <= SizeField(v, h)
      && (crypt.Some? ==> Accepts(crypt.value, |rest|))
      && |rest| == BodySize(Ready(v, crypt, ms), h)
      && DataSize(v, h) <= |rest|
      && MessageOf(v, h, rest[..DataSize(v, h)]) == Expected(v, crypt.Some?, cmd, flag, payload)
  {
    HeaderParts(v, crypt.Some?, cmd, flag, |payload|);
    RestParts(v, crypt.Some?, payload);
    SizesAgree(v, crypt.Some?, |payload|);
    if v == BB_V4 {
      WholeBlocks(crypt.Some?, |payload|);
    }
  }

  lemma WholeBlocks(encrypted: bool, n: nat)
    ensures encrypted ==> (PhysicalSize(BB_V4, encrypted, n) - 8) % 8 == 0
  {
    RoundUpExact(8 + n, 8);
  }

  /**
   One command, end to end. Whatever the sender puts on the wire, a receiver whose cipher is in step delivers
   exactly one message with the same (narrowed) command and flag and the zero-padded payload, and ends with its
   cipher in step again.
   */
  lemma OneMessage(v: Version, crypt: Option<Cipher>, ms: seq<Message>, cmd: u16, flag: u32, payload: seq<byte>)
    requires Usable(v, crypt)
    requires KeepsFraming(v, crypt.Some?, |payload|)
    requires PhysicalSize(v, crypt.Some?, |payload|) <= MAX_COMMAND_SIZE
    ensures var s := Send(v, crypt, cmd, flag, payload);
      && s.Ok? && Usable(v, s.value.crypt)
      && Run(Ready(v, crypt, ms), s.value.wire)
         == Ready(v, s.value.crypt, ms + [Expected(v, crypt.Some?, cmd, flag, payload)])
  {
    var h := WireHeader(v, crypt.Some?, cmd, flag, |payload|);
    var rest := Rest(v, crypt.Some?, payload);
    FrameParts(v, crypt, ms, cmd, flag, payload);
    FrameReceived(v, crypt, ms, h, rest);
    StillUsable(v, crypt, h + rest);
  }

  /**
   The one case with no promise: unencrypted BB. A payload that is not a multiple of 4 leaves the receiver inside
   the command, waiting for bytes that the sender never wrote; a multiple of 4 is received.
   */
  lemma UnencryptedBB(ms: seq<Message>, cmd: u16, flag: u32, payload: seq<byte>)
    requires PhysicalSize(BB_V4, false, |payload|) <= MAX_COMMAND_SIZE
    ensures var s := Send(BB_V4, None, cmd, flag, payload);
      && s.Ok?
      && var r := Run(Ready(BB_V4, None, ms), s.value.wire);
         && (r == Ready(BB_V4, None, ms + [Expected(BB_V4, false, cmd, flag, payload)]) <==> |payload| % 4 == 0)
         && (|payload| % 4 != 0 ==> r.phase.AwaitBody? && r.delivered == ms && 0 < Need(r) - |r.got| < 4)
  {
    if |payload| % 4 == 0 {
      OneMessage(BB_V4, None, ms, cmd, flag, payload);
    } else {
      var h := WireHeader(BB_V4, false, cmd, flag, |payload|);
      HeaderParts(BB_V4, false, cmd, flag, |payload|);
      Rounding(|payload|);
      RoundUpExact(|payload|, 4);
      assert Rest(BB_V4, false, payload) == payload;
      ShortBody(ms, h, payload);
    }
  }

  lemma ShortBody(ms: seq<Message>, h: seq<byte>, payload: seq<byte>)
    requires |h| == 8 && |payload| + 8 < SizeField(BB_V4, h)
    ensures Run(Ready(BB_V4, None, ms), h + payload) == Receiver(BB_V4, None, AwaitBody(h), payload, ms)
  {
    var r1 := Receiver(BB_V4, None, AwaitBody(h), [], ms);
    HeaderReceived(BB_V4, None, ms, h);
    assert AfterHeader(Ready(BB_V4, None, ms), h) == r1;
    RunAppend(Ready(BB_V4, None, ms), h, payload);
    RunShort(r1, payload);
    assert r1.got + payload == payload;
  }

  // ---- whole runs ----

  datatype Command = Command(cmd: u16, flag: u32, payload: seq<byte>)

  predicate Fits(v: Version, encrypted: bool, c: Command) {
    PhysicalSize(v, encrypted, |c.payload|) <= MAX_COMMAND_SIZE
  }

  predicate AllKeepFraming(v: Version, encrypted: bool, cs: seq<Command>) {
    forall c | c in cs :: KeepsFraming(v, encrypted, |c.payload|)
  }

  /** The wire after a run of sends; a send that throws writes nothing and leaves the cipher alone. */
  function SendAll(v: Version, crypt: Option<Cipher>, cs: seq<Command>): Sent {
    if cs == [] then Sent([], crypt)
    else
      var last := cs[|cs| - 1];
      var before := SendAll(v, crypt, cs[..|cs| - 1]);
      match Send(v, before.crypt, last.cmd, last.flag, last.payload)
      case Ok(s) => Sent(before.wire + s.wire, s.crypt)
      case Err(_) => before
  }

  function ExpectedAll(v: Version, encrypted: bool, cs: seq<Command>): seq<Message> {
    if cs == [] then []
    else
      var last := cs[|cs| - 1];
      ExpectedAll(v, encrypted, cs[..|cs| - 1])
      + if Fits(v, encrypted, last) then [Expected(v, encrypted, last.cmd, last.flag, last.payload)] else []
  }

  /** Any run of sends is received as the same run of messages, and the ciphers end in step. */
  lemma {:induction false} AllMessages(v: Version, crypt: Option<Cipher>, cs: seq<Command>)
    requires Usable(v, crypt) && AllKeepFraming(v, crypt.Some?, cs)
    ensures var s := SendAll(v, crypt, cs);
      && Usable(v, s.crypt) && s.crypt.Some? == crypt.Some?
      && Run(Ready(v, crypt, []), s.wire) == Ready(v, s.crypt, ExpectedAll(v, crypt.Some?, cs))
    decreases |cs|
  {
    if cs != [] {
      var init, last := cs[..|cs| - 1], cs[|cs| - 1];
      AllMessages(v, crypt, init);
      var before := SendAll(v, crypt, init);
      if Fits(v, crypt.Some?, last) {
        var ms := ExpectedAll(v, crypt.Some?, init);
        OneMessage(v, before.crypt, ms, last.cmd, last.flag, last.payload);
        var s := Send(v, before.crypt, last.cmd, last.flag, last.payload).value;
        RunAppend(Ready(v, crypt, []), before.wire, s.wire);
      }
    }
  }
}
