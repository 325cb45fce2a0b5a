/**
 SocketChannel's send task as a machine over the turns of a single-threaded executor. Between two suspension points nothing
 else runs, so one turn is one step. The class carries the source's fields; the datatype is its value.
 */
module SocketChannels {
  import opened Bytes
  import opened AsyncEvents

  /** Where send_task is suspended: not yet started, in async_write, in the event's wait; or over, or dead. */
  datatype Task = Starting | Writing | Waiting | Ended | Dead

  /** `accepted` and `written` are history: what send_raw took and what the socket was given. */
  datatype State = State(open: bool, outbound: seq<seq<byte>>, shouldDisconnect: bool, event: EventState,
                         task: Task, inflight: seq<seq<byte>>, accepted: seq<byte>, written: seq<byte>)

  const SEND_TASK: nat := 0

  function Created(): State {
    State(true, [], false, EventState(false, [], [], []), Starting, [], [], [])
  }

  function SendRaw(s: State, data: seq<byte>): State {
    if s.shouldDisconnect then s
    else s.(outbound := s.outbound + [data], event := Set(s.event), accepted := s.accepted + data)
  }

  function Disconnect(s: State): State { s.(shouldDisconnect := true, event := Set(s.event)) }

  /** The loop of send_task from its head to the next suspension point. */
  function Loop(s: State): State {
    if !s.open then s.(task := Ended)
    else if s.outbound != [] then s.(inflight := s.outbound, outbound := [], task := Writing)
    else Idle(s)
  }

  /** The part after the write, when nothing new has been queued. */
  function Idle(s: State): State {
    if s.shouldDisconnect then s.(open := false, task := Ended)
    else s.(event := Wait(Clear(s.event), SEND_TASK), task := Waiting)
  }

  /** async_write has completed. */
  function WriteDone(s: State): State {
    var s1 := s.(written := s.written + Flatten(s.inflight), inflight := []);
    if s1.outbound == [] then Idle(s1) else Loop(s1)
  }

  /** The executor runs whatever is ready for this channel, if anything is. */
  function Turn(s: State): State {
    match s.task
    case Starting => Loop(s)
    case Writing => WriteDone(s)
    case Waiting => if s.event.posted == [] then s else Loop(s.(event := RunPosted(s.event)))
    case Ended => s
    case Dead => s
  }

  /** async_write has thrown after n bytes: send_task dies with the rest of its buffers. */
  function WriteFails(s: State, n: nat): State {
    var data := Flatten(s.inflight);
    if s.task != Writing || n > |data| then s
    else s.(written := s.written + data[..n], inflight := [data[n..]], task := Dead)
  }

  datatype Step = Sends(data: seq<byte>) | Disconnects | Turns | Fails(n: nat)

  function Apply(s: State, e: Step): State {
    match e
    case Sends(data) => SendRaw(s, data)
    case Disconnects => Disconnect(s)
    case Turns => Turn(s)
    case Fails(n) => WriteFails(s, n)
  }

  function ApplyAll(s: State, es: seq<Step>): State
    decreases |es|
  {
    if es == [] then s else ApplyAll(Apply(s, es[0]), es[1..])
  }

  /** Nothing is lost or reordered between send_raw and the socket. */
  ghost predicate Conserved(s: State) {
    s.accepted == s.written + Flatten(s.inflight) + Flatten(s.outbound)
  }

  ghost predicate Inv(s: State) {
    && Conserved(s)
    && (s.event.isSet ==> s.event.waiters == [])
    // send_task is known to the event exactly while it waits, and only once
    && s.event.waiters + s.event.posted == (if s.task == Waiting then [SEND_TASK] else [])
    // no lost wakeup: parked with no resume posted means there is nothing to do
    && (s.task == Waiting && s.event.posted == [] ==> s.outbound == [] && !s.shouldDisconnect && !s.event.isSet)
    && (s.task == Starting || s.task == Waiting || s.task == Ended ==> s.inflight == [])
    && (s.open <==> s.task != Ended)
    // send_task closes the socket only after a disconnect and with nothing left
    && (s.task == Ended ==> s.outbound == [] && s.shouldDisconnect)
  }

  lemma StepInv(s: State, e: Step)
    requires Inv(s)
    ensures Inv(Apply(s, e))
  {
    match e
    case Sends(data) =>
      FlattenAppend(s.outbound, [data]);
      assert Flatten([data]) == data + Flatten([]) == data;
    case Disconnects =>
    case Turns => TurnInv(s);
    case Fails(n) => FailInv(s, n);
  }

  lemma TurnInv(s: State)
    requires Inv(s)
    ensures Inv(Turn(s))
  {
    assert Flatten([]) == [];
  }

  lemma FailInv(s: State, n: nat)
    requires Inv(s)
    ensures Inv(WriteFails(s, n))
  {
    var d := Flatten(s.inflight);
    if s.task == Writing && n <= |d| {
      assert Flatten([d[n..]]) == d[n..] + Flatten([]) == d[n..];
      assert s.written + d[..n] + d[n..] == s.written + d;
    }
  }

  /** The invariant in every reachable state. */
  lemma {:induction false} RunInv(s: State, es: seq<Step>)
    requires Inv(s)
    ensures Inv(ApplyAll(s, es))
    decreases |es|
  {
    if es != [] {
      StepInv(s, es[0]);
      RunInv(Apply(s, es[0]), es[1..]);
    }
  }

  /** What every reachable state promises, whatever was sent, however the executor and the socket behaved. */
  lemma Reachable(es: seq<Step>)
    ensures var s := ApplyAll(Created(), es);
      && Conserved(s)
      && (s.task == Waiting && (s.outbound != [] || s.shouldDisconnect) ==> s.event.posted == [SEND_TASK])
      && (s.task == Waiting ==> s.event.waiters + s.event.posted == [SEND_TASK])
      && (!s.open ==> s.written == s.accepted && s.shouldDisconnect)
  {
    assert Inv(Created());
    RunInv(Created(), es);
    var s := ApplyAll(Created(), es);
    if !s.open {
      assert Flatten([]) == [];
    }
  }

  // ---- flushing before the close ----

  /** Turns still needed to close once a disconnect has been asked for. */
  function Distance(s: State): nat {
    match s.task
    case Ended => 0
    case Dead => 0
    case Writing => if s.outbound == [] then 1 else 2
    case Starting => 3
    case Waiting => 3
  }

  function TurnsIn(es: seq<Step>): nat {
    if es == [] then 0 else (if es[0] == Turns then 1 else 0) + TurnsIn(es[1..])
  }

  lemma TurnsGetCloser(s: State, e: Step)
    requires Inv(s) && s.shouldDisconnect && s.task != Dead && !e.Fails?
    ensures var s' := Apply(s, e);
      && s'.shouldDisconnect && s'.task != Dead && s'.accepted == s.accepted
      && Distance(s') <= Distance(s)
      && (e == Turns && s.task != Ended ==> Distance(s') < Distance(s))
  {
  }

  /**
   Flush before close. After disconnect, as long as writes succeed, at most three turns of the executor close the
   socket, whatever else is called meanwhile, and by then exactly the bytes accepted before have been written.
   */
  lemma {:induction false} DisconnectFlushes(s: State, es: seq<Step>)
    requires Inv(s) && s.shouldDisconnect && s.task != Dead
    requires forall e | e in es :: !e.Fails?
    requires TurnsIn(es) >= Distance(s)
    ensures var s' := ApplyAll(s, es);
      s'.task == Ended && !s'.open && s'.written == s.accepted == s'.accepted
    decreases |es|
  {
    if es == [] {
      assert Flatten([]) == [];
    } else {
      StepInv(s, es[0]);
      TurnsGetCloser(s, es[0]);
      DisconnectFlushes(Apply(s, es[0]), es[1..]);
    }
  }

  // ---- the class ----

  class SocketChannel {
    var open: bool
    var outbound: seq<seq<byte>>
    var shouldDisconnect: bool
    const signal: AsyncEvent
    var task: Task
    var inflight: seq<seq<byte>>
    ghost var accepted: seq<byte>
    ghost var written: seq<byte>

    ghost function View(): State
      reads this, signal
    {
      State(open, outbound, shouldDisconnect, signal.View(), task, inflight, accepted, written)
    }

    constructor ()
      ensures View() == Created() && Inv(View()) && fresh(signal)
    {
      open, outbound, shouldDisconnect, task, inflight := true, [], false, Starting, [];
      accepted, written := [], [];
      signal := new AsyncEvent();
    }

    predicate Connected()
      reads this
    {
      !shouldDisconnect && open
    }

    method QueueRaw(data: seq<byte>)
      requires Inv(View())
      modifies this, signal
      ensures View() == SendRaw(old(View()), data) && Inv(View())
    {
      StepInv(View(), Sends(data));
      if !shouldDisconnect {
        outbound := outbound + [data];
        accepted := accepted + data;
        signal.SetEvent();
      }
    }

    method RequestDisconnect()
      requires Inv(View())
      modifies this, signal
      ensures View() == Disconnect(old(View())) && Inv(View()) && !Connected()
    {
      StepInv(View(), Disconnects);
      shouldDisconnect := true;
      signal.SetEvent();
    }

    /** send_task from the head of its loop to the next suspension. `resuming`: it has just come back from a write. */
    method RunTask(resuming: bool)
      requires resuming ==> open
      modifies this, signal
      ensures View() == if resuming && old(outbound) == [] then Idle(old(View())) else Loop(old(View()))
    {
      var skipWrite := resuming;
      while open
        invariant open ==> View() == old(View()) && (skipWrite || !resuming || outbound != []) && (skipWrite ==> resuming)
        invariant !open ==> View() == old(View()).(open := false)
        invariant !open && old(open) ==> shouldDisconnect && outbound == []
        decreases open, skipWrite
      {
        if !skipWrite {
          var toSend := outbound;
          outbound := [];
          if toSend != [] {
            inflight, task := toSend, Writing;
            return;
          }
        }
        skipWrite := false;
        if outbound == [] {
          if shouldDisconnect {
            open := false;
          } else {
            signal.ClearEvent();
            var _ := signal.WaitOn(SEND_TASK);
            task := Waiting;
            return;
          }
        }
      }
      task := Ended;
    }

    /** One turn of the executor for this channel. */
    method ExecutorTurn()
      requires Inv(View())
      modifies this, signal
      ensures View() == Turn(old(View())) && Inv(View())
    {
      StepInv(View(), Turns);
      match task {
        case Starting =>
          RunTask(false);
        case Writing =>
          written := written + Flatten(inflight);
          inflight := [];
          RunTask(true);
        case Waiting =>
          if signal.posted != [] {
            var _ := signal.RunNext();
            RunTask(false);
          }
        case Ended =>
        case Dead =>
      }
    }

    /** Once disconnected, letting the executor run closes the socket with everything flushed. */
    method Drain()
      requires Inv(View()) && shouldDisconnect && task != Dead
      modifies this, signal
      ensures Inv(View()) && task == Ended && !open && written == old(accepted)
    {
      while task != Ended
        invariant Inv(View()) && shouldDisconnect && task != Dead && accepted == old(accepted)
        decreases Distance(View())
      {
        TurnsGetCloser(View(), Turns);
        ExecutorTurn();
      }
      assert Flatten([]) == [];
    }
  }
}

/** Commands over a socket: the send task's machine between Channel::send and the other side's recv. */
module SocketDelivery {
  import opened Bytes
  import opened Ciphers
  import opened Channel
  import S = SocketChannels

  /**
   Whatever the executor, the callers and failing writes did, a receiver that has read any part of what the socket
   was given has received a prefix of the commands sent; and once the socket is closed and read to its end, all of them.
   */
  lemma CommandsArrive(v: Version, crypt: Option<Cipher>, cs: seq<Command>, es: seq<S.Step>, got: seq<byte>)
    requires Usable(v, crypt) && AllKeepFraming(v, crypt.Some?, cs)
    requires S.ApplyAll(S.Created(), es).accepted == SendAll(v, crypt, cs).wire
    requires got <= S.ApplyAll(S.Created(), es).written
    ensures var s := S.ApplyAll(S.Created(), es);
      var r := Run(Ready(v, crypt, []), got);
      && r.delivered <= ExpectedAll(v, crypt.Some?, cs)
      && (!s.open && got == s.written ==> r == Ready(v, SendAll(v, crypt, cs).crypt, ExpectedAll(v, crypt.Some?, cs)))
  {
    var s := S.ApplyAll(S.Created(), es);
    S.Reachable(es);
    AllMessages(v, crypt, cs);
    var unread := s.accepted[|got|..];
    assert s.accepted == got + unread;
    RunAppend(Ready(v, crypt, []), got, unread);
    DeliveredGrows(Run(Ready(v, crypt, []), got), unread);
  }
}
