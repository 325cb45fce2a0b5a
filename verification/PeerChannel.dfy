/**
 PeerChannel: two in-process channels whose inbound data is a deque of blocks. The class follows the source's fields;
 the datatype `Link` is one direction of a linked pair, on which whole interleaved runs are reasoned about.
 */
module PeerChannels {
  import opened Bytes
  import opened Ciphers
  import opened Channel
  import opened AsyncEvents

  // ---- every interleaving of sends and reads ----

  /** One direction: the sender's cipher, the receiver's deque, and the receiving coroutine. */
  datatype Link = Link(version: Version, crypt: Option<Cipher>, blocks: seq<seq<byte>>, receiver: Receiver)

  /**
   `Sends` is a call to send. `Reads(n)` is the receiving coroutine copying n bytes out of the front block, which
   drops the block when it is used up and otherwise keeps its remainder.
   */
  datatype Event = Sends(command: Command) | Reads(n: nat)

  predicate Linked(l: Link) { WellFormed(l.receiver) }

  function Apply(l: Link, e: Event): (l': Link)
    requires Linked(l)
    ensures Linked(l')
  {
    match e
    case Sends(c) =>
      (match Send(l.version, l.crypt, c.cmd, c.flag, c.payload)
       case Ok(s) => l.(crypt := s.crypt, blocks := l.blocks + [s.wire])
       case Err(_) => l)
    case Reads(n) =>
      if l.blocks == [] then l
      else if n < |l.blocks[0]| then
        l.(blocks := [l.blocks[0][n..]] + l.blocks[1..], receiver := Run(l.receiver, l.blocks[0][..n]))
      else
        l.(blocks := l.blocks[1..], receiver := Run(l.receiver, l.blocks[0]))
  }

  function ApplyAll(l: Link, es: seq<Event>): (l': Link)
    requires Linked(l)
    ensures Linked(l')
  {
    if es == [] then l else Apply(ApplyAll(l, es[..|es| - 1]), es[|es| - 1])
  }

  function Commands(es: seq<Event>): seq<Command> {
    if es == [] then []
    else
      var last := es[|es| - 1];
      Commands(es[..|es| - 1]) + if last.Sends? then [last.command] else []
  }

  function Start(v: Version, crypt: Option<Cipher>): Link {
    Link(v, crypt, [], Ready(v, crypt, []))
  }

  lemma {:induction false} CommandsKeepFraming(v: Version, encrypted: bool, es: seq<Event>)
    requires AllKeepFraming(v, encrypted, Commands(es))
    ensures es != [] ==> AllKeepFraming(v, encrypted, Commands(es[..|es| - 1]))
  {
    if es != [] {
      var init := Commands(es[..|es| - 1]);
      assert forall c | c in init :: c in Commands(es);
    }
  }

  /** Reading moves bytes from the deque to the receiver and changes neither the whole stream nor its meaning. */
  lemma ReadKeepsFuture(l: Link, n: nat)
    requires Linked(l)
    ensures Run(Apply(l, Reads(n)).receiver, Flatten(Apply(l, Reads(n)).blocks)) == Run(l.receiver, Flatten(l.blocks))
  {
    if l.blocks != [] {
      var front, tail := l.blocks[0], l.blocks[1..];
      if n < |front| {
        var rest := [front[n..]] + tail;
        assert rest[1..] == tail;
        assert front == front[..n] + front[n..];
        assert front[..n] + (front[n..] + Flatten(tail)) == front + Flatten(tail);
        RunAppend(l.receiver, front[..n], Flatten(rest));
      } else {
        RunAppend(l.receiver, front, Flatten(tail));
      }
    }
  }

  /** What is still in the deque, once read, brings the receiver to where the sender's run says it must end. */
  lemma {:induction false} LinkInvariant(v: Version, crypt: Option<Cipher>, es: seq<Event>)
    requires Usable(v, crypt) && AllKeepFraming(v, crypt.Some?, Commands(es))
    ensures var l := ApplyAll(Start(v, crypt), es);
      var s := SendAll(v, crypt, Commands(es));
      && l.version == v && l.crypt == s.crypt
      && Run(l.receiver, Flatten(l.blocks)) == Run(Ready(v, crypt, []), s.wire)
    decreases |es|
  {
    if es != [] {
      var init, last := es[..|es| - 1], es[|es| - 1];
      CommandsKeepFraming(v, crypt.Some?, es);
      LinkInvariant(v, crypt, init);
      var l := ApplyAll(Start(v, crypt), init);
      var cs := Commands(init);
      match last {
        case Reads(n) =>
          assert Commands(es) == cs;
          ReadKeepsFuture(l, n);
        case Sends(c) =>
          SendKeepsInvariant(v, crypt, cs, l, c);
          assert Commands(es) == cs + [c];
      }
    }
  }

  lemma SendKeepsInvariant(v: Version, crypt: Option<Cipher>, cs: seq<Command>, l: Link, c: Command)
    requires Linked(l) && l.version == v
    requires var s := SendAll(v, crypt, cs);
      l.crypt == s.crypt && Run(l.receiver, Flatten(l.blocks)) == Run(Ready(v, crypt, []), s.wire)
    ensures var l' := Apply(l, Sends(c));
      var s' := SendAll(v, crypt, cs + [c]);
      && l'.version == v && l'.crypt == s'.crypt
      && Run(l'.receiver, Flatten(l'.blocks)) == Run(Ready(v, crypt, []), s'.wire)
  {
    var before := SendAll(v, crypt, cs);
    assert (cs + [c])[..|cs|] == cs;
    var sent := Send(v, before.crypt, c.cmd, c.flag, c.payload);
    if sent.Ok? {
      var wire := sent.value.wire;
      FlattenAppend(l.blocks, [wire]);
      assert Flatten([wire]) == wire + Flatten([]) == wire;
      RunAppend(l.receiver, Flatten(l.blocks), wire);
      RunAppend(Ready(v, crypt, []), before.wire, wire);
    }
  }

  /**
   End to end over a linked pair. However sends and reads interleave and however reads cut the blocks, the messages
   received so far are a prefix of the messages sent, in order and with the sender's command, flag and zero-padded
   payload; when the deque is empty every message has been received and the two ciphers agree.
   */
  lemma EndToEnd(v: Version, crypt: Option<Cipher>, es: seq<Event>)
    requires Usable(v, crypt) && AllKeepFraming(v, crypt.Some?, Commands(es))
    ensures var l := ApplyAll(Start(v, crypt), es);
      var sent := ExpectedAll(v, crypt.Some?, Commands(es));
      && l.receiver.delivered <= sent
      && (Flatten(l.blocks) == [] ==> l.receiver == Ready(v, l.crypt, sent))
  {
    LinkInvariant(v, crypt, es);
    AllMessages(v, crypt, Commands(es));
    var l := ApplyAll(Start(v, crypt), es);
    DeliveredGrows(l.receiver, Flatten(l.blocks));
  }

  // ---- the class ----

  /** How a run of a receiving coroutine ends: it finishes, it suspends on the event, or it throws. */
  datatype Outcome<+T> = Done(value: T) | Parked | Disconnected | Threw(failure: Failure)

  /** Taking the first bytes of a block, and leaving the rest, moves them from the blocks to what has been read. */
  lemma CutBlock(before: seq<byte>, front: seq<byte>, n: nat, tail: seq<seq<byte>>)
    requires n <= |front|
    ensures before + front[..n] + Flatten([front[n..]] + tail) == before + (front + Flatten(tail))
  {
    assert ([front[n..]] + tail)[1..] == tail;
    assert front == front[..n] + front[n..];
    Associative(front[..n], front[n..], Flatten(tail));
    Associative(before, front[..n], front[n..] + Flatten(tail));
  }

  /** The coroutine that receives on a channel. */
  const RECEIVER: nat := 0

  class PeerChannel {
    const version: Version
    const signal: AsyncEvent   // send_buffer_nonempty_signal
    var cryptOut: Option<Cipher>
    var peer: PeerChannel?
    var inbound: seq<seq<byte>>
    var receiver: Receiver     // crypt_in and the frame of recv

    constructor (version: Version, cryptIn: Option<Cipher>, cryptOut: Option<Cipher>)
      ensures this.version == version && this.cryptOut == cryptOut && peer == null && inbound == []
      ensures receiver == Ready(version, cryptIn, []) && fresh(signal) && signal.View() == EventRun([]) && Attentive()
    {
      this.version, this.cryptOut, this.peer, this.inbound := version, cryptOut, null, [];
      this.receiver := Ready(version, cryptIn, []);
      signal := new AsyncEvent();
    }

    ghost function Other(): set<PeerChannel>
      reads this
    {
      if peer == null then {} else {peer}
    }

    ghost function OtherSignal(): set<AsyncEvent>
      reads this
    {
      if peer == null then {} else {peer.signal}
    }

    /** No lost wakeup: a receiver waits, with no resume posted, only while there is nothing to read and the peer is there. */
    ghost predicate Attentive()
      reads this, signal
    {
      && (signal.isSet ==> signal.waiters == [])
      && (signal.waiters != [] ==> inbound == [] && peer != null)
    }

    /** True while there is something to read, even after the peer has gone. */
    predicate Connected()
      reads this
    {
      inbound != [] || peer != null
    }

    static method LinkPeers(a: PeerChannel, b: PeerChannel) returns (linked: bool)
      modifies a`peer, b`peer
      ensures linked == !(old(a.Connected()) || old(b.Connected()))
      ensures linked ==> a.peer == b && b.peer == a
      ensures !linked ==> unchanged(a, b)
      ensures (old(a.Attentive()) ==> a.Attentive()) && (old(b.Attentive()) ==> b.Attentive())
    {
      if a.Connected() || b.Connected() {
        return false;
      }
      a.peer := b;
      b.peer := a;
      return true;
    }

    /** Both receivers are resumed if they wait. */
    method Disconnect()
      modifies this`peer, signal, Other()`peer, OtherSignal()
      ensures peer == null && signal.View() == Set(old(signal.View())) && Attentive()
      ensures var p := old(peer); p != null ==>
        p.peer == null && p.signal.View() == Set(old(p.signal.View())) && p.Attentive()
    {
      var p := peer;
      if p != null {
        p.peer := null;
        p.signal.SetEvent();
      }
      peer := null;
      signal.SetEvent();
    }

    /** The peer's receiver is resumed if it waits. */
    method SendRaw(data: seq<byte>)
      modifies Other()`inbound, OtherSignal()
      ensures peer != null ==>
        peer.inbound == old(peer.inbound) + [data]
        && peer.signal.View() == Set(old(peer.signal.View())) && peer.Attentive()
    {
      if peer != null {
        peer.inbound := peer.inbound + [data];
        peer.signal.SetEvent();
      }
    }

    /** Channel::send on this transport: all or nothing, and nothing at all on a closed channel. */
    method SendCommand(cmd: u16, flag: u32, payload: seq<byte>) returns (failure: Option<Failure>)
      modifies this`cryptOut, Other()`inbound, OtherSignal()
      ensures old(!Connected()) ==> failure == None && cryptOut == old(cryptOut) && peer == null && inbound == []
      ensures old(Connected()) ==>
        match Send(version, old(cryptOut), cmd, flag, payload)
        case Ok(s) => failure == None && cryptOut == s.crypt
                      && (peer != null ==> peer.inbound == old(peer.inbound) + [s.wire]
                                           && peer.signal.View() == Set(old(peer.signal.View())) && peer.Attentive())
        case Err(f) => failure == Some(f) && cryptOut == old(cryptOut)
                       && (peer != null ==> peer.inbound == old(peer.inbound)
                                            && peer.signal.View() == old(peer.signal.View()))
    {
      if !Connected() {
        return None;
      }
      match Send(version, cryptOut, cmd, flag, payload) {
        case Err(f) =>
          return Some(f);
        case Ok(s) =>
          cryptOut := s.crypt;
          SendRaw(s.wire);
          return None;
      }
    }

    /**
     recv_raw, run until it completes, suspends or throws. `data` is what has been copied so far; a suspended call
     is resumed by calling again with the size that is left.
     */
    method RecvRaw(size: nat) returns (data: seq<byte>, outcome: Outcome<()>)
      requires Attentive()
      modifies this`inbound, signal
      ensures Attentive()
      ensures Flatten(old(inbound)) == data + Flatten(inbound)
      ensures |data| <= size
      ensures signal.View() == if outcome.Parked? then Wait(Clear(old(signal.View())), RECEIVER) else old(signal.View())
      ensures match outcome
        case Done(_) => |data| == size
        case Parked => |data| < size && inbound == [] && peer != null
        case Disconnected => |data| < size && inbound == [] && peer == null
        case Threw(_) => false
    {
      data := [];
      ghost var all := Flatten(inbound);
      while |data| < size
        invariant |data| <= size && Attentive() && signal.View() == old(signal.View())
        invariant all == data + Flatten(inbound)
        decreases |inbound|, size - |data|
      {
        if inbound == [] {
          if peer != null {
            signal.ClearEvent();
            var _ := signal.WaitOn(RECEIVER);
            return data, Parked;
          }
          return data, Disconnected;
        }
        var front, left := inbound[0], size - |data|;
        ghost var before, tail := data, Flatten(inbound[1..]);
        if left < |front| {
          data := data + front[..left];
          inbound := [front[left..]] + inbound[1..];
          CutBlock(before, front, left, inbound[1..]);
        } else {
          data := data + front;
          inbound := inbound[1..];
          Associative(before, front, tail);
        }
      }
      return data, Done(());
    }

    /** The receiver takes what one raw read has brought: buffers a part, or acts on a whole header or body. */
    method Absorb(data: seq<byte>)
      requires WellFormed(receiver) && !receiver.phase.Broken? && |receiver.got| + |data| <= Need(receiver)
      modifies this`receiver
      ensures WellFormed(receiver) && receiver == Run(old(receiver), data)
      ensures |old(receiver).got| + |data| < Need(old(receiver)) ==>
        receiver.phase == old(receiver).phase && receiver.delivered == old(receiver).delivered
      ensures receiver.delivered == old(receiver).delivered
        || (!receiver.phase.Broken? && exists m :: receiver.delivered == old(receiver).delivered + [m])
    {
      var r := receiver;
      if |r.got| + |data| < Need(r) {
        RunShort(r, data);
        receiver := r.(got := r.got + data);
      } else {
        RunComplete(r, data);
        receiver := Finish(r.(got := []), r.got + data);
        FinishDelivers(r.(got := []), r.got + data);
      }
    }

    /**
     recv, run until it returns a message, suspends or throws. It consumes a prefix of the inbound stream, and is then
     exactly where the byte-fed automaton is after that prefix.
     */
    method Recv() returns (outcome: Outcome<Message>, ghost consumed: seq<byte>)
      requires WellFormed(receiver) && !receiver.phase.Broken? && Attentive()
      modifies this`inbound, this`receiver, signal
      ensures WellFormed(receiver) && Attentive()
      ensures Flatten(old(inbound)) == consumed + Flatten(inbound)
      ensures receiver == Run(old(receiver), consumed)
      ensures match outcome
        case Done(m) => receiver.delivered == old(receiver).delivered + [m]
        case Parked => receiver.delivered == old(receiver).delivered && inbound == [] && peer != null
                       && signal.View() == Wait(Clear(old(signal.View())), RECEIVER)
        case Disconnected => receiver.delivered == old(receiver).delivered && inbound == [] && peer == null
        case Threw(f) => receiver.phase == Broken(f) && receiver.delivered == old(receiver).delivered
    {
      consumed := [];
      ghost var all, first := Flatten(inbound), receiver;
      var count := |receiver.delivered|;
      while true
        invariant WellFormed(receiver) && !receiver.phase.Broken? && Attentive()
        invariant signal.View() == old(signal.View())
        invariant all == consumed + Flatten(inbound)
        invariant receiver == Run(first, consumed)
        invariant receiver.delivered == first.delivered && count == |first.delivered|
        decreases |Flatten(inbound)|
      {
        var r := receiver;
        var data, status := RecvRaw(Need(r) - |r.got|);
        Associative(consumed, data, Flatten(inbound));
        RunAppend(first, consumed, data);
        consumed := consumed + data;
        Absorb(data);
        if !status.Done? {
          outcome := if status.Parked? then Parked else Disconnected;
          return;
        }
        if receiver.phase.Broken? {
          return Threw(receiver.phase.failure), consumed;
        }
        if |receiver.delivered| > count {
          return Done(receiver.delivered[count]), consumed;
        }
      }
    }
  }

  /** The class-level form of LinkInvariant: channel `a` has sent `cs` and channel `b` is on course to receive it. */
  ghost predicate Feeds(a: PeerChannel, b: PeerChannel, crypt: Option<Cipher>, cs: seq<Command>)
    reads a, b, b.signal
  {
    && a != b && a.peer == b && a.version == b.version
    && a.cryptOut == SendAll(a.version, crypt, cs).crypt
    && WellFormed(b.receiver)
    && Run(b.receiver, Flatten(b.inbound)) == Run(Ready(a.version, crypt, []), SendAll(a.version, crypt, cs).wire)
    && b.Attentive()
  }

  /** A send by `a` keeps b on course, and resumes b's receiver if it waits. */
  method SendStep(a: PeerChannel, b: PeerChannel, ghost crypt: Option<Cipher>, ghost cs: seq<Command>, next: Command)
    requires Usable(a.version, crypt) && AllKeepFraming(a.version, crypt.Some?, cs)
    requires KeepsFraming(a.version, crypt.Some?, |next.payload|)
    requires Feeds(a, b, crypt, cs)
    modifies a`cryptOut, b`inbound, b.signal
    ensures Feeds(a, b, crypt, cs + [next])
    ensures Fits(a.version, crypt.Some?, next) ==> b.signal.View() == Set(old(b.signal.View()))
  {
    ghost var l := Link(a.version, a.cryptOut, b.inbound, b.receiver);
    AllMessages(a.version, crypt, cs);
    SendKeepsInvariant(a.version, crypt, cs, l, next);
    FittingIsSent(a.version, a.cryptOut, next);
    var _ := a.SendCommand(next.cmd, next.flag, next.payload);
    assert Apply(l, Sends(next)) == Link(a.version, a.cryptOut, b.inbound, b.receiver);
  }

  lemma FittingIsSent(v: Version, crypt: Option<Cipher>, c: Command)
    requires Usable(v, crypt) && KeepsFraming(v, crypt.Some?, |c.payload|)
    ensures Fits(v, crypt.Some?, c) ==> Send(v, crypt, c.cmd, c.flag, c.payload).Ok?
  {
    if Fits(v, crypt.Some?, c) {
      OneMessage(v, crypt, [], c.cmd, c.flag, c.payload);
    }
  }

  /** So does a receive by `b`. */
  method ReceiveStep(a: PeerChannel, b: PeerChannel, ghost crypt: Option<Cipher>, ghost cs: seq<Command>)
    requires !b.receiver.phase.Broken? && Feeds(a, b, crypt, cs)
    modifies b`inbound, b`receiver, b.signal
    ensures Feeds(a, b, crypt, cs)
  {
    ghost var was := b.receiver;
    var _, consumed := b.Recv();
    RunAppend(was, consumed, Flatten(b.inbound));
  }

  lemma FeedsDelivers(a: PeerChannel, b: PeerChannel, crypt: Option<Cipher>, cs: seq<Command>)
    requires Usable(a.version, crypt) && AllKeepFraming(a.version, crypt.Some?, cs) && Feeds(a, b, crypt, cs)
    ensures b.receiver.delivered <= ExpectedAll(a.version, crypt.Some?, cs)
    ensures b.inbound == [] ==> b.receiver == Ready(a.version, a.cryptOut, ExpectedAll(a.version, crypt.Some?, cs))
  {
    AllMessages(a.version, crypt, cs);
    DeliveredGrows(b.receiver, Flatten(b.inbound));
  }

  /** A send by `a` or a receive by `b`; any sequence of these keeps `Feeds`, so EndToEnd's conclusion holds of objects. */
  method SendOrReceive(a: PeerChannel, b: PeerChannel, ghost crypt: Option<Cipher>, ghost cs: seq<Command>,
                       next: Option<Command>) returns (ghost cs': seq<Command>)
    requires Usable(a.version, crypt) && AllKeepFraming(a.version, crypt.Some?, cs)
    requires next.Some? ==> KeepsFraming(a.version, crypt.Some?, |next.value.payload|)
    requires Feeds(a, b, crypt, cs)
    modifies a`cryptOut, b`inbound, b`receiver, b.signal
    ensures cs' == cs + (if next.Some? then [next.value] else [])
    ensures Feeds(a, b, crypt, cs')
    ensures b.receiver.delivered <= ExpectedAll(a.version, crypt.Some?, cs')
    ensures b.inbound == [] ==> b.receiver == Ready(a.version, a.cryptOut, ExpectedAll(a.version, crypt.Some?, cs'))
  {
    cs' := cs;
    if next.Some? {
      cs' := cs + [next.value];
      SendStep(a, b, crypt, cs, next.value);
    } else if !b.receiver.phase.Broken? {
      ReceiveStep(a, b, crypt, cs);
    }
    FeedsDelivers(a, b, crypt, cs');
  }

  /** Completing a read delivers at most one message, and none if it throws. */
  lemma FinishDelivers(r: Receiver, raw: seq<byte>)
    requires r.got == [] && WellFormed(r) && !r.phase.Broken? && |raw| == Need(r)
    ensures var r' := Finish(r, raw);
      r'.delivered == r.delivered || (!r'.phase.Broken? && exists m :: r'.delivered == r.delivered + [m])
  {
  }
}
