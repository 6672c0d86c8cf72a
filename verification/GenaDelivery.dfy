/** The initial event of a subscription is not lost, whatever the interleaving. */
module GenaDelivery {
  import opened Bytes
  import opened Gena

  predicate Holding(th: Thread) {
    th.SubRequest? || th.SubAnswer? || th.SubRefused? || th.SubUnlock? || th.NotifyAgain?
  }

  /** The subscribe lock is held by exactly the thread that is inside. */
  predicate LockOk(s: State) {
    && (s.lock.Some? ==> s.lock.value in s.threads && Holding(s.threads[s.lock.value]))
    && forall t | t in s.threads && Holding(s.threads[t]) :: s.lock == Some(t)
  }

  /** The subscription is about to be linked. */
  predicate Pending(s: State, a: nat, h: nat) {
    s.lock.Some? && s.lock.value in s.threads && s.threads[s.lock.value] == SubAnswer(h, a)
  }

  predicate Listed(s: State, a: nat, h: nat) {
    h in s.table && HasActual(s.table[h], a)
  }

  /** An accepted subscription is listed, or about to be, unless it was lost or failed. */
  predicate AcceptedOk(s: State, a: nat)
    requires a in s.accepted
  {
    a in s.lost || a in s.failed || Listed(s, a, s.accepted[a])
      || (Pending(s, a, s.accepted[a]) && s.accepted[a] in s.table)
  }

  predicate Passed(th: Thread, h: nat) {
    match th
    case Notify(_, at, _) => h < at
    case NotifyWait(_, at, _) => h < at
    case NotifyAgain(_, at, _) => h < at
    case NotifyDone(_, _) => true
    case _ => false
  }

  /** An initial event that has passed by the client it is meant for was delivered to it. */
  predicate NotifyOk(s: State, th: Thread) {
    (th.NotifyStart? || th.Notify? || th.NotifyWait? || th.NotifyAgain? || th.NotifyDone?) && th.ev.key == 0 ==>
      var a := th.ev.actual;
      && a in s.accepted
      && (Passed(th, s.accepted[a]) ==> s.accepted[a] in th.delivered || a in s.lost || a in s.failed)
  }

  predicate Subscribing(s: State, th: Thread)
    requires forall a | a in s.linked :: a in s.accepted
  {
    && (th.SubWait? || th.SubRequest? ==> 0 < th.h < NUM_HANDLE)
    && (th.SubAnswer? ==>
          th.actual in s.accepted && s.accepted[th.actual] == th.h && th.actual !in s.failed && th.actual !in s.linked)
    && ((th.SubUnlock? || th.SubDone?) && th.result.Some? ==>
          th.result.value in s.linked && s.accepted[th.result.value] == th.h)
    && (th.Notify? || th.NotifyWait? || th.NotifyAgain? ==> 0 < th.at < NUM_HANDLE)
  }

  predicate Inv(s: State) {
    && LockOk(s)
    && (forall h | h in s.table :: 0 < h < NUM_HANDLE)
    && (forall a | a in s.accepted :: 0 < s.accepted[a] < NUM_HANDLE && AcceptedOk(s, a))
    && (forall a | a in s.failed + s.linked :: a in s.accepted) && s.failed !! s.linked
    && (forall t | t in s.threads :: NotifyOk(s, s.threads[t]) && Subscribing(s, s.threads[t]))
  }

  /** What only grows. */
  predicate Grows(s: State, s': State) {
    && s.lost <= s'.lost && s.failed <= s'.failed && s.linked <= s'.linked
    && forall a | a in s.accepted :: a in s'.accepted && s'.accepted[a] == s.accepted[a]
  }

  predicate Known(s: State) {
    forall a | a in s.failed + s.linked :: a in s.accepted
  }

  lemma OthersStay(s: State, s': State, th: Thread)
    requires Known(s) && Known(s') && Grows(s, s') && NotifyOk(s, th) && Subscribing(s, th)
    requires th.SubAnswer? ==> th.actual !in s'.failed && th.actual !in s'.linked
    ensures NotifyOk(s', th) && Subscribing(s', th)
  {
  }

  lemma KeptByRemoval(list: seq<Sub>, i: nat, a: nat)
    requires i < |list| && HasActual(list, a)
    ensures list[i].actual == a || HasActual(RemoveAt(list, i), a)
  {
    var j :| 0 <= j < |list| && list[j].actual == a;
    if j != i {
      assert RemoveAt(list, i)[if j < i then j else j - 1] == list[j];
    }
  }

  lemma KeptByUpdate(list: seq<Sub>, i: nat, sub: Sub, a: nat)
    requires i < |list| && HasActual(list, a)
    ensures (list[i].actual == a && sub.actual != a) || HasActual(list[i := sub], a)
  {
    var j :| 0 <= j < |list| && list[j].actual == a;
    assert list[i := sub][j] == if j == i then sub else list[j];
  }

  lemma KeptByLinking(list: seq<Sub>, sub: Sub, a: nat)
    ensures HasActual(list, a) ==> HasActual([sub] + list, a)
    ensures HasActual([sub] + list, sub.actual)
  {
    if HasActual(list, a) {
      var j :| 0 <= j < |list| && list[j].actual == a;
      assert ([sub] + list)[j + 1] == list[j];
    }
    assert ([sub] + list)[0] == sub;
  }

  /** What is enough for the invariant after a step that changes one thread. */
  lemma InvByThread(s: State, s': State, t: nat, th: Thread)
    requires Inv(s) && Grows(s, s') && s'.threads == s.threads[t := th]
    requires LockOk(s') && (forall h | h in s'.table :: 0 < h < NUM_HANDLE)
    requires forall a | a in s'.accepted :: 0 < s'.accepted[a] < NUM_HANDLE && AcceptedOk(s', a)
    requires Known(s') && s'.failed !! s'.linked
    requires NotifyOk(s', th) && Subscribing(s', th)
    requires (s'.failed != s.failed || s'.linked != s.linked) ==> s.lock == Some(t)
    ensures Inv(s')
  {
    forall t' | t' in s'.threads && t' != t ensures NotifyOk(s', s'.threads[t']) && Subscribing(s', s'.threads[t']) {
      assert NotifyOk(s, s.threads[t']) && Subscribing(s, s.threads[t']);
      OthersStay(s, s', s.threads[t']);
    }
    hide NotifyOk, Subscribing, AcceptedOk, LockOk;
  }

  /** The lists of the clients may only lose what is lost. */
  ghost predicate TableKept(s: State, s': State) {
    && s'.table.Keys == s.table.Keys
    && forall h, a | h in s.table && HasActual(s.table[h], a) :: a in s'.lost || HasActual(s'.table[h], a)
  }

  lemma AcceptedStays(s: State, s': State, a: nat)
    requires a in s.accepted && AcceptedOk(s, a) && Grows(s, s') && TableKept(s, s')
    requires Pending(s, a, s.accepted[a]) ==> Pending(s', a, s.accepted[a])
    ensures AcceptedOk(s', a)
  {
  }

  lemma RemovedKeeps(s: State, h: nat, sid: nat)
    ensures TableKept(s, Removed(s, h, sid)) && Grows(s, Removed(s, h, sid))
  {
    if h in s.table && FindSid(s.table[h], sid).Some? {
      var i := FindSid(s.table[h], sid).value;
      forall a | HasActual(s.table[h], a)
        ensures a in Removed(s, h, sid).lost || HasActual(Removed(s, h, sid).table[h], a)
      {
        KeptByRemoval(s.table[h], i, a);
      }
    }
  }

  // ----- every step keeps it

  lemma InvAddClient(s: State, h: nat)
    requires Inv(s) && 0 < h < NUM_HANDLE && h !in s.table
    ensures Inv(s.(table := s.table[h := []]))
  {
    var s' := s.(table := s.table[h := []]);
    forall a | a in s'.accepted ensures AcceptedOk(s', a) {
      assert AcceptedOk(s, a);
    }
  }

  lemma InvDropClient(s: State, h: nat)
    requires Inv(s)
    ensures Inv(s.(table := s.table - {h}, lost := s.lost + Of(s, h)))
  {
    var s' := s.(table := s.table - {h}, lost := s.lost + Of(s, h));
    forall a | a in s'.accepted ensures AcceptedOk(s', a) {
      assert AcceptedOk(s, a);
    }
    forall t | t in s'.threads ensures NotifyOk(s', s'.threads[t]) && Subscribing(s', s'.threads[t]) {
      assert NotifyOk(s, s.threads[t]) && Subscribing(s, s.threads[t]);
      assert Subscribing(s, s.threads[t]);
      hide AcceptedOk;
      OthersStay(s, s', s.threads[t]);
    }
  }

  lemma InvSpawn(s: State, t: nat, th: Thread)
    requires Inv(s) && t !in s.threads && Begins(s, th)
    ensures Inv(s.(threads := s.threads[t := th]))
  {
    var s' := s.(threads := s.threads[t := th]);
    forall a | a in s'.accepted ensures AcceptedOk(s', a) {
      assert AcceptedOk(s, a);
    }
  }

  /** A step that only moves a thread that is not inside the subscribe lock, and may take entries out of the lists. */
  lemma InvOutside(s: State, s0: State, t: nat, th: Thread)
    requires Inv(s) && t in s.threads && !Holding(s.threads[t]) && !Holding(th)
    requires Grows(s, s0) && TableKept(s, s0) && s0.threads == s.threads && s0.lock == s.lock
             && s0.accepted == s.accepted
    requires s0.failed == s.failed && s0.linked == s.linked
    requires NotifyOk(s0, th) && (Subscribing(s, th))
    ensures Inv(Become(s0, t, th))
  {
    var s' := Become(s0, t, th);
    forall a | a in s'.accepted ensures AcceptedOk(s', a) && 0 < s'.accepted[a] < NUM_HANDLE {
      assert AcceptedOk(s, a);
      AcceptedStays(s, s', a);
    }
    hide AcceptedOk, NotifyOk;
    NotifyHere(s0, s', th);
    InvByThread(s, s', t, th);
  }

  lemma NotifyHere(s: State, s': State, th: Thread)
    requires NotifyOk(s, th) && s'.accepted == s.accepted && s'.lost == s.lost && s'.failed == s.failed
    ensures NotifyOk(s', th)
  {
  }

  /** Nobody has passed an initial event by a client whose subscription it is, without delivering it. */
  lemma NotListedIsLost(s: State, a: nat)
    requires Inv(s) && a in s.accepted && !Listed(s, a, s.accepted[a])
    requires s.accepted[a] !in s.table || !Pending(s, a, s.accepted[a])
    ensures a in s.lost || a in s.failed
  {
    assert AcceptedOk(s, a);
  }

  lemma FirstClientIs(table: map<nat, seq<Sub>>, h: nat)
    requires h <= NUM_HANDLE
    ensures var f := FirstClient(table, h);
            h <= f <= NUM_HANDLE && (f < NUM_HANDLE ==> f in table) && forall g | h <= g < f :: g !in table
    decreases NUM_HANDLE - h
  {
    if h != NUM_HANDLE && h !in table {
      FirstClientIs(table, h + 1);
    }
  }

  lemma InvNotifyStart(s: State, t: nat, ev: Event)
    requires Inv(s) && t in s.threads && s.threads[t] == NotifyStart(ev)
    ensures Inv(StepNotify(s, t, s.threads[t]).value)
  {
    FirstClientIs(s.table, 1);
    assert NotifyOk(s, s.threads[t]) && Subscribing(s, s.threads[t]);
    var first := FirstClient(s.table, 1);
    var th := if first < NUM_HANDLE then Notify(ev, first, {}) else NotifyDone(ev, {});
    if ev.key == 0 && Passed(th, s.accepted[ev.actual]) {
      NotListedIsLost(s, ev.actual);
    }
    InvOutside(s, s, t, th);
  }

  lemma InvNotify(s: State, t: nat, ev: Event, at: nat, delivered: set<nat>)
    requires Inv(s) && t in s.threads && s.threads[t] == Notify(ev, at, delivered)
    ensures Inv(StepNotify(s, t, s.threads[t]).value)
  {
    assert NotifyOk(s, s.threads[t]) && Subscribing(s, s.threads[t]);
    var s' := StepNotify(s, t, s.threads[t]).value;
    var th := s'.threads[t];
    if ev.key == 0 && s.accepted[ev.actual] == at && at !in s.table {
      NotListedIsLost(s, ev.actual);
    }
    InvOutside(s, s, t, th);
  }

  /** Waiting for the subscribe lock and taking it. */
  lemma InvTakeLock(s: State, t: nat, th: Thread)
    requires Inv(s) && t in s.threads && !Holding(s.threads[t]) && s.lock == None && Holding(th)
    requires NotifyOk(s, th) && Subscribing(s, th) && !th.SubAnswer?
    ensures Inv(Become(s.(lock := Some(t)), t, th))
  {
    var s' := Become(s.(lock := Some(t)), t, th);
    forall a | a in s'.accepted ensures AcceptedOk(s', a) && 0 < s'.accepted[a] < NUM_HANDLE {
      assert AcceptedOk(s, a);
    }
    hide AcceptedOk, NotifyOk;
    NotifyHere(s, s', th);
    InvByThread(s, s', t, th);
  }

  /** The second lookup happens while no subscription is requested or about to be linked. */
  lemma InvNotifyAgain(s: State, t: nat, ev: Event, at: nat, delivered: set<nat>)
    requires Inv(s) && t in s.threads && s.threads[t] == NotifyAgain(ev, at, delivered)
    ensures forall u | u in s.threads :: !s.threads[u].SubRequest? && !s.threads[u].SubAnswer?
    ensures forall a, h :: !Pending(s, a, h)
    ensures Inv(StepNotify(s, t, s.threads[t]).value)
  {
    assert NotifyOk(s, s.threads[t]) && Subscribing(s, s.threads[t]);
    assert s.lock == Some(t);
    var s' := StepNotify(s, t, s.threads[t]).value;
    var th := s'.threads[t];
    if ev.key == 0 && s.accepted[ev.actual] == at && !Listed(s, ev.actual, at) {
      NotListedIsLost(s, ev.actual);
    }
    forall a | a in s'.accepted ensures AcceptedOk(s', a) && 0 < s'.accepted[a] < NUM_HANDLE {
      assert AcceptedOk(s, a);
    }
    assert NotifyOk(s', th) && Subscribing(s', th);
    hide AcceptedOk, NotifyOk;
    InvByThread(s, s', t, th);
  }

  lemma InvStepNotify(s: State, t: nat)
    requires Inv(s) && t in s.threads && StepNotify(s, t, s.threads[t]).Some?
    ensures Inv(StepNotify(s, t, s.threads[t]).value)
  {
    match s.threads[t]
    case NotifyStart(ev) => InvNotifyStart(s, t, ev);
    case Notify(ev, at, delivered) => InvNotify(s, t, ev, at, delivered);
    case NotifyWait(ev, at, delivered) =>
      assert NotifyOk(s, s.threads[t]) && Subscribing(s, s.threads[t]);
      InvTakeLock(s, t, NotifyAgain(ev, at, delivered));
    case NotifyAgain(ev, at, delivered) => InvNotifyAgain(s, t, ev, at, delivered);
  }

  lemma InvRequest(s: State, t: nat, h: nat, c: Choice)
    requires Inv(s) && t in s.threads && s.threads[t] == SubRequest(h) && StepSubscribe(s, t, s.threads[t], c).Some?
    ensures Inv(StepSubscribe(s, t, s.threads[t], c).value)
  {
    assert NotifyOk(s, s.threads[t]) && Subscribing(s, s.threads[t]);
    assert s.lock == Some(t);
    var s' := StepSubscribe(s, t, s.threads[t], c).value;
    forall a | a in s'.accepted ensures AcceptedOk(s', a) && 0 < s'.accepted[a] < NUM_HANDLE {
      if a in s.accepted {
        assert AcceptedOk(s, a);
      }
    }
    hide AcceptedOk, NotifyOk;
    NotNotifying(s', s'.threads[t]);
    InvByThread(s, s', t, s'.threads[t]);
  }

  lemma NotNotifying(s: State, th: Thread)
    requires !(th.NotifyStart? || th.Notify? || th.NotifyWait? || th.NotifyAgain? || th.NotifyDone?)
    ensures NotifyOk(s, th)
  {
  }

  lemma InvAnswer(s: State, t: nat, h: nat, actual: nat, c: Choice)
    requires Inv(s) && t in s.threads && s.threads[t] == SubAnswer(h, actual)
             && StepSubscribe(s, t, s.threads[t], c).Some?
    ensures Inv(StepSubscribe(s, t, s.threads[t], c).value)
  {
    assert NotifyOk(s, s.threads[t]) && Subscribing(s, s.threads[t]);
    assert s.lock == Some(t);
    var s' := StepSubscribe(s, t, s.threads[t], c).value;
    forall a | a in s'.accepted ensures AcceptedOk(s', a) && 0 < s'.accepted[a] < NUM_HANDLE {
      assert AcceptedOk(s, a);
      if s'.table != s.table {
        KeptByLinking(s.table[h], Sub(c.id, actual, c.timer), a);
      }
    }
    hide AcceptedOk, NotifyOk;
    NotNotifying(s', s'.threads[t]);
    InvByThread(s, s', t, s'.threads[t]);
  }

  lemma InvInside(s: State, s': State, t: nat, th: Thread)
    requires Inv(s) && t in s.threads && Holding(s.threads[t]) && !s.threads[t].SubAnswer? && !th.SubAnswer?
    requires (s' == Become(s, t, th) && Holding(th)) || (s' == Become(s.(lock := None), t, th) && !Holding(th))
    requires NotifyOk(s, th) && Subscribing(s, th)
    ensures Inv(s')
  {
    assert s.lock == Some(t);
    forall a | a in s'.accepted ensures AcceptedOk(s', a) && 0 < s'.accepted[a] < NUM_HANDLE {
      assert AcceptedOk(s, a);
    }
    hide AcceptedOk, NotifyOk;
    NotifyHere(s, s', th);
    InvByThread(s, s', t, th);
  }

  lemma InvStepSubscribe(s: State, t: nat, c: Choice)
    requires Inv(s) && t in s.threads && StepSubscribe(s, t, s.threads[t], c).Some?
    ensures Inv(StepSubscribe(s, t, s.threads[t], c).value)
  {
    assert NotifyOk(s, s.threads[t]) && Subscribing(s, s.threads[t]);
    match s.threads[t]
    case SubCheck(h) => InvOutside(s, s, t, if h in s.table then SubWait(h) else SubDone(h, None));
    case SubWait(h) => InvTakeLock(s, t, SubRequest(h));
    case SubRequest(h) => InvRequest(s, t, h, c);
    case SubRefused(h) => InvInside(s, Become(s, t, SubUnlock(h, None)), t, SubUnlock(h, None));
    case SubAnswer(h, actual) => InvAnswer(s, t, h, actual, c);
    case SubUnlock(h, r) => InvInside(s, Become(s.(lock := None), t, SubDone(h, r)), t, SubDone(h, r));
  }

  lemma InvStepRenew(s: State, t: nat, c: Choice)
    requires Inv(s) && t in s.threads && StepRenew(s, t, s.threads[t], c).Some?
    ensures Inv(StepRenew(s, t, s.threads[t], c).value)
  {
    hide Inv, StepRenew;
    var s0, th := RenewEffect(s, t, c);
    NoHolding(s, t, th);
    InvOutsideOf(s, s0, t, th);
  }

  predicate Renewing(th: Thread) {
    th.RenewCheck? || th.RenewRequest? || th.RenewAnswer? || th.RenewDone?
  }

  lemma NoHolding(s: State, t: nat, th: Thread)
    requires t in s.threads && Renewing(s.threads[t]) && Renewing(th)
    ensures !Holding(s.threads[t]) && !Holding(th)
  {
  }

  /** What a step of a renewal does apart from moving its thread. */
  lemma RenewEffect(s: State, t: nat, c: Choice) returns (s0: State, th: Thread)
    requires t in s.threads && StepRenew(s, t, s.threads[t], c).Some?
    ensures StepRenew(s, t, s.threads[t], c).value == Become(s0, t, th)
    ensures Renewing(s.threads[t]) && Renewing(th) && !th.RenewCheck?
    ensures Grows(s, s0) && TableKept(s, s0) && s0.threads == s.threads && s0.lock == s.lock
    ensures s0.accepted == s.accepted && s0.failed == s.failed && s0.linked == s.linked
  {
    var s' := StepRenew(s, t, s.threads[t], c).value;
    s0, th := s'.(threads := s.threads), s'.threads[t];
    if !s.threads[t].RenewRequest? {
      var h, sid := s.threads[t].h, s.threads[t].sid;
      RemovedKeeps(s, h, sid);
      if h in s.table && FindSid(s.table[h], sid).Some? {
        var i := FindSid(s.table[h], sid).value;
        if s.threads[t].RenewCheck? {
          UpdateKeeps(s, h, i, s.table[h][i].(timer := None));
        } else if s.threads[t].answer.Some? {
          UpdateKeeps(s, h, i, Sub(sid, s.threads[t].answer.value, c.timer));
        }
      }
    }
    hide TableKept;
  }

  /** The lists after an entry has been overwritten. */
  function Updated(s: State, h: nat, i: nat, sub: Sub): State
    requires h in s.table && i < |s.table[h]|
  {
    s.(table := s.table[h := s.table[h][i := sub]],
       lost := if s.table[h][i].actual == sub.actual then s.lost else s.lost + {s.table[h][i].actual})
  }

  lemma UpdateKeeps(s: State, h: nat, i: nat, sub: Sub)
    requires h in s.table && i < |s.table[h]|
    ensures TableKept(s, Updated(s, h, i, sub)) && Grows(s, Updated(s, h, i, sub))
  {
    forall a | HasActual(s.table[h], a)
      ensures a in Updated(s, h, i, sub).lost || HasActual(Updated(s, h, i, sub).table[h], a)
    {
      KeptByUpdate(s.table[h], i, sub, a);
    }
  }

  lemma InvOutsideOf(s: State, s0: State, t: nat, th: Thread)
    requires Inv(s) && t in s.threads && !Holding(s.threads[t]) && !Holding(th)
    requires Grows(s, s0) && TableKept(s, s0) && s0.threads == s.threads && s0.lock == s.lock
             && s0.accepted == s.accepted
    requires s0.failed == s.failed && s0.linked == s.linked
    requires th.RenewRequest? || th.RenewAnswer? || th.RenewDone? || th.UnsubRequest? || th.UnsubRemove?
             || th.UnsubDone?
             || th.Unregister? || th.UnregisterRequest? || th.UnregisterDone?
    ensures Inv(Become(s0, t, th))
  {
    NotNotifying(s0, th);
    InvOutside(s, s0, t, th);
  }

  lemma InvStepUnsubscribe(s: State, t: nat)
    requires Inv(s) && t in s.threads && StepUnsubscribe(s, t, s.threads[t]).Some?
    ensures Inv(StepUnsubscribe(s, t, s.threads[t]).value)
  {
    var s' := StepUnsubscribe(s, t, s.threads[t]).value;
    var th := s'.threads[t];
    hide AcceptedOk, NotifyOk, Inv;
    var h := s.threads[t].h;
    if s.threads[t].UnsubRemove? {
      RemovedKeeps(s, h, s.threads[t].sid);
    }
    if s.threads[t].Unregister? && h in s.table && s.table[h] != [] {
      RemovedKeeps(s, h, s.table[h][0].sid);
    }
    InvOutsideOf(s, s'.(threads := s.threads), t, th);
  }

  lemma InvStep(s: State, a: Act)
    requires Inv(s) && Step(s, a).Some?
    ensures Inv(Step(s, a).value)
  {
    hide Inv, Begins, AcceptedOk, StepSubscribe, StepNotify, StepRenew, StepUnsubscribe;
    match a
    case AddClient(h) => InvAddClient(s, h);
    case DropClient(h) => InvDropClient(s, h);
    case Spawn(t, th) => InvSpawn(s, t, th);
    case Run(t, c) =>
      if StepSubscribe(s, t, s.threads[t], c).Some? {
        InvStepSubscribe(s, t, c);
      } else if StepNotify(s, t, s.threads[t]).Some? {
        InvStepNotify(s, t);
      } else if StepRenew(s, t, s.threads[t], c).Some? {
        InvStepRenew(s, t, c);
      } else {
        InvStepUnsubscribe(s, t);
      }
  }

  lemma {:induction false} InvAlways(s: State, acts: seq<Act>)
    requires Inv(s) && RunAll(s, acts).Some?
    ensures Inv(RunAll(s, acts).value)
    decreases |acts|
  {
    hide Inv, Step;
    if acts != [] {
      InvStep(s, acts[0]);
      InvAlways(Step(s, acts[0]).value, acts[1..]);
    }
  }

  /**
   In every run: once an initial event has been processed, if the subscribing that it answers succeeded and neither the
   subscription nor its client has been removed, the event was delivered to that client.
   */
  lemma InitialEventDelivered(acts: seq<Act>, u: nat, h: nat, a: nat, t: nat, delivered: set<nat>)
    requires RunAll(INIT, acts).Some?
    requires var s := RunAll(INIT, acts).value;
             && u in s.threads && s.threads[u] == SubDone(h, Some(a)) && a !in s.lost
             && t in s.threads && s.threads[t] == NotifyDone(Event(a, 0), delivered)
    ensures h in delivered
  {
    InvAlways(INIT, acts);
    var s := RunAll(INIT, acts).value;
    assert NotifyOk(s, s.threads[t]) && Subscribing(s, s.threads[u]);
    hide RunAll;
  }

  lemma {:induction false} RunAllOne(s: State, a: Act, acts: seq<Act>)
    requires Step(s, a).Some?
    ensures RunAll(s, [a] + acts) == RunAll(Step(s, a).value, acts)
  {
    assert ([a] + acts)[1..] == acts;
  }

  /**
   Wherever the notifier waits while the subscribing thread is
   about to link, the second lookup delivers the event.
   */
  lemma SecondLookup(s8: State, ev: Event, c: Choice, a4: Act)
    requires c == Choice(true, 7, None) && a4 == Run(1, c) && ev == Event(7, 0)
    requires 1 in s8.table && s8.lock == Some(0) && 7 !in s8.used && 0 in s8.threads && 1 in s8.threads
    requires s8.threads[0] == SubAnswer(1, 7) && s8.threads[1] == NotifyWait(ev, 1, {})
    ensures var s' := RunAll(s8, [Run(0, c), Run(0, c), a4, a4]);
            && s'.Some? && 0 in s'.value.threads && 1 in s'.value.threads
            && s'.value.threads[0] == SubDone(1, Some(7)) && s'.value.threads[1] == Notify(ev, 2, {1})
  {
    var a2 := Run(0, c);
    var s9, s10 := LinkingSteps(s8, c);
    var s11, s12 := LookupSteps(s10, ev, c);
    hide Step;
    Steps4(s8, a2, a2, a4, a4, s9, s10, s11, s12, []);
    assert [a2, a2, a4, a4] + [] == [a2, a2, a4, a4];
  }

  lemma LinkingSteps(s8: State, c: Choice) returns (s9: State, s10: State)
    requires c == Choice(true, 7, None) && 1 in s8.table && s8.lock == Some(0) && 7 !in s8.used
    requires 0 in s8.threads && s8.threads[0] == SubAnswer(1, 7)
    ensures Step(s8, Run(0, c)) == Some(s9) && Step(s9, Run(0, c)) == Some(s10)
    ensures s10.threads == s8.threads[0 := SubUnlock(1, Some(7))][0 := SubDone(1, Some(7))] && s10.lock == None
    ensures 1 in s10.table && HasActual(s10.table[1], 7)
  {
    var l := [Sub(7, 7, None)] + s8.table[1];
    s9 := Become(s8.(table := s8.table[1 := l], used := s8.used + {7}, linked := s8.linked + {7}), 0,
                 SubUnlock(1, Some(7)));
    s10 := Become(s9.(lock := None), 0, SubDone(1, Some(7)));
    assert Step(s8, Run(0, c)) == Some(s9);
    assert Step(s9, Run(0, c)) == Some(s10);
    assert l[0].actual == 7 && HasActual(l, 7);
    assert s10.table[1] == l;
  }

  lemma LookupSteps(s10: State, ev: Event, c: Choice) returns (s11: State, s12: State)
    requires ev == Event(7, 0) && s10.lock == None && 1 in s10.table && HasActual(s10.table[1], 7)
    requires 1 in s10.threads && s10.threads[1] == NotifyWait(ev, 1, {})
    ensures Step(s10, Run(1, c)) == Some(s11) && Step(s11, Run(1, c)) == Some(s12)
    ensures s12.threads == s10.threads[1 := NotifyAgain(ev, 1, {})][1 := Notify(ev, 2, {1})]
  {
    hide HasActual;
    s11 := Become(s10.(lock := Some(1)), 1, NotifyAgain(ev, 1, {}));
    s12 := Become(s11.(lock := None), 1, Notify(ev, 2, {} + {1}));
    assert Step(s10, Run(1, c)) == Some(s11);
    assert Step(s11, Run(1, c)) == Some(s12);
    assert {} + {1} == {1};
  }

  /** A client subscribes, up to the request. */
  lemma Requesting() returns (s4: State)
    ensures var c := Choice(true, 7, None);
            RunAll(INIT, [AddClient(1), Spawn(0, SubCheck(1)), Run(0, c), Run(0, c)] + []) == Some(s4)
    ensures 1 in s4.table && s4.lock == Some(0) && s4.used == {} && s4.accepted == map[]
    ensures 0 in s4.threads && s4.threads[0] == SubRequest(1) && 1 !in s4.threads && s4.table[1] == []
  {
    var a0, a1, a2 := AddClient(1), Spawn(0, SubCheck(1)), Run(0, Choice(true, 7, None));
    var s1 := INIT.(table := INIT.table[1 := []]);
    var s2 := s1.(threads := s1.threads[0 := SubCheck(1)]);
    var s3 := Become(s2, 0, SubWait(1));
    s4 := Become(s3.(lock := Some(0)), 0, SubRequest(1));
    assert Step(INIT, a0) == Some(s1) && Step(s1, a1) == Some(s2);
    assert Step(s2, a2) == Some(s3);
    assert Step(s3, a2) == Some(s4);
    hide Step;
    Steps4(INIT, a0, a1, a2, a2, s1, s2, s3, s4, []);
  }

  /** The request is accepted, and the first lookup of its initial event fails. */
  lemma FirstLookup(s4: State, ev: Event, c: Choice) returns (s8: State)
    requires c == Choice(true, 7, None) && ev == Event(7, 0)
    requires 1 in s4.table && s4.lock == Some(0) && s4.used == {} && s4.accepted == map[]
    requires 0 in s4.threads && s4.threads[0] == SubRequest(1) && 1 !in s4.threads && s4.table[1] == []
    ensures RunAll(s4, [Run(0, c), Spawn(1, NotifyStart(ev)), Run(1, c), Run(1, c)] + []) == Some(s8)
    ensures 1 in s8.table && s8.lock == Some(0) && 7 !in s8.used && 0 in s8.threads && 1 in s8.threads
    ensures s8.threads[0] == SubAnswer(1, 7) && s8.threads[1] == NotifyWait(ev, 1, {})
    ensures 7 in s8.accepted && !Listed(s8, 7, 1)
  {
    var a2, a3, a4 := Run(0, c), Spawn(1, NotifyStart(ev)), Run(1, c);
    var s5 := Become(s4.(accepted := s4.accepted[7 := 1], lost := s4.lost), 0, SubAnswer(1, 7));
    var s6 := s5.(threads := s5.threads[1 := NotifyStart(ev)]);
    var s7 := Become(s6, 1, Notify(ev, 1, {}));
    s8 := Become(s7, 1, NotifyWait(ev, 1, {}));
    assert Step(s4, a2) == Some(s5);
    assert Step(s5, a3) == Some(s6);
    assert Step(s6, a4) == Some(s7);
    assert Step(s7, a4) == Some(s8);
    hide Step;
    Steps4(s4, a2, a3, a4, a4, s5, s6, s7, s8, []);
  }

  /**
   There is a run in which the initial event comes before its subscription is listed: the first lookup fails, and the
   second one delivers it.
   */
  lemma EarlyEvent() returns (before: seq<Act>, rest: seq<Act>)
    ensures var s := RunAll(INIT, before);
            && s.Some? && 1 in s.value.threads && s.value.threads[1] == NotifyWait(Event(7, 0), 1, {})
            && 7 in s.value.accepted && !Listed(s.value, 7, 1)
            && var s' := RunAll(s.value, rest);
               && s'.Some? && 0 in s'.value.threads && 1 in s'.value.threads
               && s'.value.threads[0] == SubDone(1, Some(7)) && s'.value.threads[1] == Notify(Event(7, 0), 2, {1})
  {
    hide Step, RunAll;
    var ev, c := Event(7, 0), Choice(true, 7, None);
    var s4 := Requesting();
    var s8 := FirstLookup(s4, ev, c);
    SecondLookup(s8, ev, c, Run(1, c));
    var first := [AddClient(1), Spawn(0, SubCheck(1)), Run(0, c), Run(0, c)] + [];
    var second := [Run(0, c), Spawn(1, NotifyStart(ev)), Run(1, c), Run(1, c)] + [];
    before := first + second;
    rest := [Run(0, c), Run(0, c), Run(1, c), Run(1, c)];
    RunConcat(INIT, first, second);
  }

  lemma {:induction false} RunConcat(s: State, a: seq<Act>, b: seq<Act>)
    requires RunAll(s, a).Some?
    ensures RunAll(s, a + b) == RunAll(RunAll(s, a).value, b)
    decreases |a|
  {
    hide Step;
    if a == [] {
      assert a + b == b;
    } else {
      assert (a + b)[1..] == a[1..] + b;
      RunConcat(Step(s, a[0]).value, a[1..], b);
    }
  }

  lemma Steps4(s: State, a: Act, b: Act, c: Act, d: Act, s1: State, s2: State, s3: State, s4: State, acts: seq<Act>)
    requires Step(s, a) == Some(s1) && Step(s1, b) == Some(s2) && Step(s2, c) == Some(s3) && Step(s3, d) == Some(s4)
    ensures RunAll(s, [a, b, c, d] + acts) == RunAll(s4, acts)
  {
    hide Step;
    RunAllOne(s, a, [b, c, d] + acts);
    RunAllOne(s1, b, [c, d] + acts);
    RunAllOne(s2, c, [d] + acts);
    RunAllOne(s3, d, acts);
    assert [a, b, c, d] + acts == [a] + ([b, c, d] + acts);
    assert [b, c, d] + acts == [b] + ([c, d] + acts);
    assert [c, d] + acts == [c] + ([d] + acts);
  }
}
