/** Which clients an event is delivered to, whatever its key and the interleaving. */
module GenaEvents {
  import opened Bytes
  import opened Gena
  import opened GenaDelivery

  /** The subscription is listed in every state of the run. */
  predicate Throughout(s: State, acts: seq<Act>, a: nat, h: nat)
    decreases |acts|
  {
    Listed(s, a, h) && (acts != [] && Step(s, acts[0]).Some? ==> Throughout(Step(s, acts[0]).value, acts[1..], a, h))
  }

  /** The subscription is listed in some state of the run. */
  predicate Sometime(s: State, acts: seq<Act>, a: nat, h: nat)
    decreases |acts|
  {
    Listed(s, a, h) || (acts != [] && Step(s, acts[0]).Some? && Sometime(Step(s, acts[0]).value, acts[1..], a, h))
  }

  predicate Notifies(th: Thread, ev: Event) {
    (th.NotifyStart? || th.Notify? || th.NotifyWait? || th.NotifyAgain? || th.NotifyDone?) && th.ev == ev
  }

  function Delivered(th: Thread): set<nat>
    requires th.NotifyStart? || th.Notify? || th.NotifyWait? || th.NotifyAgain? || th.NotifyDone?
  {
    if th.NotifyStart? then {} else th.delivered
  }

  /** The client is still to come, or has been delivered to. */
  predicate Reaches(th: Thread, ev: Event, h: nat) {
    Notifies(th, ev) && (!Passed(th, h) || h in Delivered(th))
  }

  lemma FirstIsBefore(table: map<nat, seq<Sub>>, from: nat, h: nat)
    requires from <= h < NUM_HANDLE && h in table
    ensures FirstClient(table, from) <= h
    decreases NUM_HANDLE - from
  {
    if from !in table {
      FirstIsBefore(table, from + 1, h);
    }
  }

  /** One step of the notifier itself. */
  lemma NotifierStep(s: State, t: nat, ev: Event, h: nat)
    requires t in s.threads && Notifies(s.threads[t], ev) && StepNotify(s, t, s.threads[t]).Some?
    ensures var th' := StepNotify(s, t, s.threads[t]).value.threads[t];
            && Notifies(th', ev)
            && (h in Delivered(th') ==> h in Delivered(s.threads[t]) || Listed(s, ev.actual, h))
            && (0 < h < NUM_HANDLE && Listed(s, ev.actual, h) && Reaches(s.threads[t], ev, h) ==> Reaches(th', ev, h))
  {
    hide HasActual;
    if s.threads[t].NotifyStart? && 0 < h < NUM_HANDLE && h in s.table {
      FirstIsBefore(s.table, 1, h);
    }
    hide FirstClient;
  }

  lemma EventStep(s: State, a: Act, t: nat, ev: Event, h: nat)
    requires Step(s, a).Some? && t in s.threads && Notifies(s.threads[t], ev)
    ensures var s' := Step(s, a).value;
            && t in s'.threads && Notifies(s'.threads[t], ev)
            && (h in Delivered(s'.threads[t]) ==> h in Delivered(s.threads[t]) || Listed(s, ev.actual, h))
            && (0 < h < NUM_HANDLE && Listed(s, ev.actual, h) && Reaches(s.threads[t], ev, h) ==>
                  Reaches(s'.threads[t], ev, h))
  {
    if a.Run? && a.t == t {
      RunIsNotify(s, t, a.choice);
      hide StepNotify, StepThread, HasActual;
      NotifierStep(s, t, ev, h);
    } else {
      OtherThreads(s, a, t);
    }
  }

  lemma RunIsNotify(s: State, t: nat, c: Choice)
    requires t in s.threads && StepThread(s, t, c).Some?
    requires var th := s.threads[t];
             th.NotifyStart? || th.Notify? || th.NotifyWait? || th.NotifyAgain? || th.NotifyDone?
    ensures StepThread(s, t, c) == StepNotify(s, t, s.threads[t])
  {
    hide HasActual, FirstClient, NextHandle;
  }

  lemma OtherThreads(s: State, a: Act, t: nat)
    requires Step(s, a).Some? && t in s.threads && !(a.Run? && a.t == t)
    ensures t in Step(s, a).value.threads && Step(s, a).value.threads[t] == s.threads[t]
  {
    hide HasActual, FirstClient, NextHandle, FindSid, RemoveAt;
  }

  lemma {:induction false} ReachesAlways(s: State, acts: seq<Act>, t: nat, ev: Event, h: nat)
    requires RunAll(s, acts).Some? && t in s.threads && Reaches(s.threads[t], ev, h)
    requires 0 < h < NUM_HANDLE && Throughout(s, acts, ev.actual, h)
    ensures var s' := RunAll(s, acts).value; t in s'.threads && Reaches(s'.threads[t], ev, h)
    decreases |acts|
  {
    hide Step, Listed, Passed;
    if acts != [] {
      EventStep(s, acts[0], t, ev, h);
      ReachesAlways(Step(s, acts[0]).value, acts[1..], t, ev, h);
    }
  }

  lemma {:induction false} DeliveredWhenListed(s: State, acts: seq<Act>, t: nat, ev: Event, h: nat)
    requires RunAll(s, acts).Some? && t in s.threads && Notifies(s.threads[t], ev)
    ensures var s' := RunAll(s, acts).value;
            && t in s'.threads && Notifies(s'.threads[t], ev)
            && (h in Delivered(s'.threads[t]) ==> h in Delivered(s.threads[t]) || Sometime(s, acts, ev.actual, h))
    decreases |acts|
  {
    hide Step, Listed, Passed;
    if acts != [] {
      EventStep(s, acts[0], t, ev, h);
      DeliveredWhenListed(Step(s, acts[0]).value, acts[1..], t, ev, h);
    }
  }

  /** Handles are in the range of the client table. */
  predicate Handles(s: State) {
    forall h | h in s.table :: 0 < h < NUM_HANDLE
  }

  lemma HandlesStep(s: State, a: Act)
    requires Handles(s) && Step(s, a).Some?
    ensures Handles(Step(s, a).value)
  {
    hide HasActual, FirstClient, NextHandle, RemoveAt;
  }

  lemma {:induction false} HandlesAlways(s: State, acts: seq<Act>)
    requires Handles(s) && RunAll(s, acts).Some?
    ensures Handles(RunAll(s, acts).value)
    decreases |acts|
  {
    hide Step, Handles;
    if acts != [] {
      HandlesStep(s, acts[0]);
      HandlesAlways(Step(s, acts[0]).value, acts[1..]);
    }
  }

  lemma {:induction false} RunAllSplit(s: State, acts: seq<Act>, more: seq<Act>)
    ensures RunAll(s, acts + more) == if RunAll(s, acts).None? then None else RunAll(RunAll(s, acts).value, more)
    decreases |acts|
  {
    hide Step;
    if acts == [] {
      assert [] + more == more;
    } else {
      assert (acts + more)[0] == acts[0] && (acts + more)[1..] == acts[1..] + more;
      if Step(s, acts[0]).Some? {
        RunAllSplit(Step(s, acts[0]).value, acts[1..], more);
      }
    }
  }

  /**
   In every run, whatever the key of the event: from the spawning of a notifier until it is done, a client whose list
   has the subscription all the time is delivered to, and a client is delivered to only if its list has the
   subscription at some time.
   */
  lemma DeliveredIffListed(before: seq<Act>, t: nat, ev: Event, after: seq<Act>, delivered: set<nat>, h: nat)
    requires var spawned := RunAll(INIT, before + [Spawn(t, NotifyStart(ev))]);
             && spawned.Some? && RunAll(spawned.value, after).Some?
             && t in RunAll(spawned.value, after).value.threads
             && RunAll(spawned.value, after).value.threads[t] == NotifyDone(ev, delivered)
    ensures var s := RunAll(INIT, before + [Spawn(t, NotifyStart(ev))]).value;
            && (Throughout(s, after, ev.actual, h) ==> h in delivered)
            && (h in delivered ==> Sometime(s, after, ev.actual, h))
  {
    var acts := before + [Spawn(t, NotifyStart(ev))];
    var s := RunAll(INIT, acts).value;
    RunAllSplit(INIT, before, [Spawn(t, NotifyStart(ev))]);
    var r := RunAll(INIT, before).value;
    RunAllOne(r, Spawn(t, NotifyStart(ev)), []);
    assert [Spawn(t, NotifyStart(ev))] + [] == [Spawn(t, NotifyStart(ev))];
    assert s.threads[t] == NotifyStart(ev);
    HandlesAlways(INIT, acts);
    hide RunAll, Step, HasActual;
    DeliveredWhenListed(s, after, t, ev, h);
    if Throughout(s, after, ev.actual, h) {
      ReachesAlways(s, after, t, ev, h);
    }
  }
}
