/**
 AsyncEvent: coroutines wait until the event is set. The class carries the source's fields; the datatype is its value, on which
 whole runs are reasoned about. The executor is single-threaded, so one step is what happens between two suspensions.
 */
module AsyncEvents {

  /** Coroutines are named by numbers. `posted` are handlers given to the executor that have not run yet. */
  datatype EventState = EventState(isSet: bool, waiters: seq<nat>, posted: seq<nat>, resumed: seq<nat>)

  function Set(e: EventState): EventState {
    e.(isSet := true, waiters := [], posted := e.posted + e.waiters)
  }

  function Clear(e: EventState): EventState { e.(isSet := false) }

  /** A coroutine that waits on a set event goes on at once. */
  function Wait(e: EventState, id: nat): EventState {
    if e.isSet then e.(resumed := e.resumed + [id]) else e.(waiters := e.waiters + [id])
  }

  /** The executor runs the oldest posted handler. */
  function RunPosted(e: EventState): EventState {
    if e.posted == [] then e else e.(posted := e.posted[1..], resumed := e.resumed + [e.posted[0]])
  }

  datatype EventStep = Sets | Clears | Waits(id: nat) | Runs

  function EventApply(e: EventState, s: EventStep): EventState {
    match s
    case Sets => Set(e)
    case Clears => Clear(e)
    case Waits(id) => Wait(e, id)
    case Runs => RunPosted(e)
  }

  function EventRun(ss: seq<EventStep>): EventState {
    if ss == [] then EventState(false, [], [], []) else EventApply(EventRun(ss[..|ss| - 1]), ss[|ss| - 1])
  }

  function WaitsIn(ss: seq<EventStep>): seq<nat> {
    if ss == [] then []
    else
      var last := ss[|ss| - 1];
      WaitsIn(ss[..|ss| - 1]) + if last.Waits? then [last.id] else []
  }

  /**
   Over every run: a set event has no waiters, and each wait that was started is, exactly once, still waiting,
   posted, or resumed; so no wait is lost and none is resumed twice.
   */
  lemma {:induction false} EventInvariant(ss: seq<EventStep>)
    ensures var e := EventRun(ss);
      && (e.isSet ==> e.waiters == [])
      && multiset(WaitsIn(ss)) == Held(e)
  {
    if ss != [] {
      EventInvariant(ss[..|ss| - 1]);
      StepCounts(EventRun(ss[..|ss| - 1]), ss[|ss| - 1]);
    }
  }

  function Held(e: EventState): multiset<nat> { multiset(e.waiters) + multiset(e.posted) + multiset(e.resumed) }

  lemma StepCounts(e: EventState, s: EventStep)
    requires e.isSet ==> e.waiters == []
    ensures var e' := EventApply(e, s);
      && (e'.isSet ==> e'.waiters == [])
      && Held(e') == Held(e) + (if s.Waits? then multiset{s.id} else multiset{})
  {
    match s
    case Sets => SetCounts(e);
    case Clears =>
    case Waits(id) =>
    case Runs => RunCounts(e);
  }

  lemma SetCounts(e: EventState)
    ensures Held(Set(e)) == Held(e)
  {
  }

  lemma RunCounts(e: EventState)
    ensures Held(RunPosted(e)) == Held(e)
  {
    if e.posted != [] {
      assert e.posted == [e.posted[0]] + e.posted[1..];
    }
  }

  class AsyncEvent {
    var isSet: bool
    var waiters: seq<nat>
    var posted: seq<nat>
    ghost var resumed: seq<nat>

    ghost function View(): EventState
      reads this
    {
      EventState(isSet, waiters, posted, resumed)
    }

    constructor ()
      ensures View() == EventRun([])
    {
      isSet, waiters, posted, resumed := false, [], [], [];
    }

    method SetEvent()
      modifies this
      ensures View() == Set(old(View()))
    {
      isSet := true;
      var toResume := waiters;
      waiters := [];
      posted := posted + toResume;
    }

    method ClearEvent()
      modifies this
      ensures View() == Clear(old(View()))
    {
      isSet := false;
    }

    /** Returns whether the coroutine has to suspend. */
    method WaitOn(id: nat) returns (suspend: bool)
      modifies this
      ensures View() == Wait(old(View()), id) && suspend == !isSet
    {
      if isSet {
        resumed := resumed + [id];
        return false;
      }
      waiters := waiters + [id];
      return true;
    }

    method RunNext() returns (id: nat)
      requires posted != []
      modifies this
      ensures View() == RunPosted(old(View())) && id == old(posted)[0]
    {
      id := posted[0];
      posted := posted[1..];
      resumed := resumed + [id];
    }
  }
}
