/**
 The GENA control point as a system of interleaved threads. A section under the handle lock is one atomic step; the
 subscribe lock is held across steps, and over the network request of a new subscription.
 */
module Gena {
  import opened Bytes

  const NUM_HANDLE: nat := 200

  /** A subscription: the client's id, the publisher's id, and the timer that is to renew it. */
  datatype Sub = Sub(sid: nat, actual: nat, timer: Option<nat>)

  datatype Event = Event(actual: nat, key: nat)

  datatype Code = Success | BadHandle | BadSid | NetworkFailure

  datatype Thread =
    // genaSubscribe
    | SubCheck(h: nat)
    | SubWait(h: nat)
    | SubRequest(h: nat)
    | SubAnswer(h: nat, actual: nat)
    | SubRefused(h: nat)
    | SubUnlock(h: nat, result: Option<nat>)
    | SubDone(h: nat, result: Option<nat>)
    // gena_process_notification_event
    | NotifyStart(ev: Event)
    | Notify(ev: Event, at: nat, delivered: set<nat>)
    | NotifyWait(ev: Event, at: nat, delivered: set<nat>)
    | NotifyAgain(ev: Event, at: nat, delivered: set<nat>)
    | NotifyDone(ev: Event, delivered: set<nat>)
    // genaRenewSubscription
    | RenewCheck(h: nat, sid: nat)
    | RenewRequest(h: nat, sid: nat)
    | RenewAnswer(h: nat, sid: nat, answer: Option<nat>)
    | RenewDone(code: Code)
    // genaUnSubscribe
    | UnsubCheck(h: nat, sid: nat)
    | UnsubRequest(h: nat, sid: nat)
    | UnsubRemove(h: nat, sid: nat)
    | UnsubDone(code: Code)
    // genaUnregisterClient
    | Unregister(h: nat)
    | UnregisterRequest(h: nat, removed: Sub)
    | UnregisterDone(code: Code)

  /**
   The registered clients with their lists, the holder of the subscribe lock, the threads; and, of the past: which
   client each accepted subscription was requested for, the client ids ever used, and the publisher's ids of the
   subscriptions that were removed or whose client was, of those whose subscribing failed,
   and of those that were listed.
   */
  datatype State = State(table: map<nat, seq<Sub>>, lock: Option<nat>, threads: map<nat, Thread>,
                         accepted: map<nat, nat>, used: set<nat>, lost: set<nat>, failed: set<nat>, linked: set<nat>)

  /** What the surroundings decide in a step: success or failure, a new id, a timer. */
  datatype Choice = Choice(ok: bool, id: nat, timer: Option<nat>)

  datatype Act =
    | AddClient(h: nat)
    | DropClient(h: nat)
    | Spawn(t: nat, thread: Thread)
    | Run(t: nat, choice: Choice)

  // ----- the client table

  function FindSid(list: seq<Sub>, sid: nat): Option<nat>
    ensures FindSid(list, sid).Some? ==> FindSid(list, sid).value < |list| && list[FindSid(list, sid).value].sid == sid
    ensures FindSid(list, sid).None? ==> forall i | 0 <= i < |list| :: list[i].sid != sid
  {
    if list == [] then None
    else if list[0].sid == sid then Some(0)
    else match FindSid(list[1..], sid) case None => None case Some(i) => Some(i + 1)
  }

  predicate HasActual(list: seq<Sub>, actual: nat) {
    exists i | 0 <= i < |list| :: list[i].actual == actual
  }

  function RemoveAt(list: seq<Sub>, i: nat): seq<Sub>
    requires i < |list|
  {
    list[..i] + list[i + 1..]
  }

  /** Takes the entry of a client id out of the list of a client, if it is there. */
  function Removed(s: State, h: nat, sid: nat): State {
    if h !in s.table then s
    else
      match FindSid(s.table[h], sid)
      case None => s
      case Some(i) => s.(table := s.table[h := RemoveAt(s.table[h], i)], lost := s.lost + {s.table[h][i].actual})
  }

  function Become(s: State, t: nat, th: Thread): State {
    s.(threads := s.threads[t := th])
  }

  // ----- one step of a thread

  function StepSubscribe(s: State, t: nat, th: Thread, c: Choice): Option<State> {
    match th
    case SubCheck(h) => Some(Become(s, t, if h in s.table then SubWait(h) else SubDone(h, None)))
    case SubWait(h) => if s.lock == None then Some(Become(s.(lock := Some(t)), t, SubRequest(h))) else None
    case SubRequest(h) =>
      if !c.ok then Some(Become(s, t, SubRefused(h)))
      else if c.id in s.accepted then None
      else
        Some(Become(s.(accepted := s.accepted[c.id := h], lost := if h in s.table then s.lost else s.lost + {c.id}),
                    t, SubAnswer(h, c.id)))
    case SubRefused(h) => Some(Become(s, t, SubUnlock(h, None)))
    case SubAnswer(h, actual) =>
      if !c.ok || h !in s.table then Some(Become(s.(failed := s.failed + {actual}), t, SubUnlock(h, None)))
      else if c.id in s.used then None
      else
        Some(Become(s.(table := s.table[h := [Sub(c.id, actual, c.timer)] + s.table[h]], used := s.used + {c.id},
                       linked := s.linked + {actual}),
                    t, SubUnlock(h, Some(actual))))
    case SubUnlock(h, r) => Some(Become(s.(lock := None), t, SubDone(h, r)))
    case _ => None
  }

  /** The first registered client at or after a handle. */
  function FirstClient(table: map<nat, seq<Sub>>, h: nat): nat
    requires h <= NUM_HANDLE
    decreases NUM_HANDLE - h
  {
    if h == NUM_HANDLE || h in table then h else FirstClient(table, h + 1)
  }

  function NextHandle(ev: Event, at: nat, delivered: set<nat>): Thread {
    if at + 1 < NUM_HANDLE then Notify(ev, at + 1, delivered) else NotifyDone(ev, delivered)
  }

  function StepNotify(s: State, t: nat, th: Thread): Option<State> {
    match th
    case NotifyStart(ev) =>
      var first := FirstClient(s.table, 1);
      Some(Become(s, t, if first < NUM_HANDLE then Notify(ev, first, {}) else NotifyDone(ev, {})))
    case Notify(ev, at, delivered) =>
      if at !in s.table then Some(Become(s, t, NextHandle(ev, at, delivered)))
      else if HasActual(s.table[at], ev.actual) then Some(Become(s, t, NextHandle(ev, at, delivered + {at})))
      else if ev.key == 0 then Some(Become(s, t, NotifyWait(ev, at, delivered)))
      else Some(Become(s, t, NextHandle(ev, at, delivered)))
    case NotifyWait(ev, at, delivered) =>
      if s.lock == None then Some(Become(s.(lock := Some(t)), t, NotifyAgain(ev, at, delivered))) else None
    case NotifyAgain(ev, at, delivered) =>
      var found := at in s.table && HasActual(s.table[at], ev.actual);
      Some(Become(s.(lock := None), t, NextHandle(ev, at, if found then delivered + {at} else delivered)))
    case _ => None
  }

  function StepRenew(s: State, t: nat, th: Thread, c: Choice): Option<State> {
    match th
    case RenewCheck(h, sid) =>
      if h !in s.table then Some(Become(s, t, RenewDone(BadHandle)))
      else
        (match FindSid(s.table[h], sid)
         case None => Some(Become(s, t, RenewDone(BadSid)))
         case Some(i) =>
           Some(Become(s.(table := s.table[h := s.table[h][i := s.table[h][i].(timer := None)]]), t,
             RenewRequest(h, sid))))
    case RenewRequest(h, sid) => Some(Become(s, t, RenewAnswer(h, sid, if c.ok then Some(c.id) else None)))
    case RenewAnswer(h, sid, answer) =>
      if h !in s.table then Some(Become(s, t, RenewDone(BadHandle)))
      else if answer == None then Some(Become(Removed(s, h, sid), t, RenewDone(NetworkFailure)))
      else
        (match FindSid(s.table[h], sid)
         case None => Some(Become(s, t, RenewDone(BadSid)))
         case Some(i) =>
           if !c.ok then Some(Become(Removed(s, h, sid), t, RenewDone(NetworkFailure)))
           else
             var was := s.table[h][i].actual;
             Some(Become(s.(table := s.table[h := s.table[h][i := Sub(sid, answer.value, c.timer)]],
                            lost := if was == answer.value then s.lost else s.lost + {was}),
                         t, RenewDone(Success))))
    case _ => None
  }

  function StepUnsubscribe(s: State, t: nat, th: Thread): Option<State> {
    match th
    case UnsubCheck(h, sid) =>
      Some(Become(s, t, if h !in s.table then UnsubDone(BadHandle)
                        else if FindSid(s.table[h], sid) == None then UnsubDone(BadSid)
                        else UnsubRequest(h, sid)))
    case UnsubRequest(h, sid) => Some(Become(s, t, UnsubRemove(h, sid)))
    case UnsubRemove(h, sid) =>
      if h !in s.table then Some(Become(s, t, UnsubDone(BadHandle)))
      else Some(Become(Removed(s, h, sid), t, UnsubDone(Success)))
    case Unregister(h) =>
      if h !in s.table then Some(Become(s, t, UnregisterDone(BadHandle)))
      else if s.table[h] == [] then Some(Become(s, t, UnregisterDone(Success)))
      else
        var sub := s.table[h][0];
        Some(Become(Removed(s, h, sub.sid), t, UnregisterRequest(h, sub)))
    case UnregisterRequest(h, _) => Some(Become(s, t, Unregister(h)))
    case _ => None
  }

  function StepThread(s: State, t: nat, c: Choice): Option<State>
    requires t in s.threads
  {
    var th := s.threads[t];
    if StepSubscribe(s, t, th, c).Some? then StepSubscribe(s, t, th, c)
    else if StepNotify(s, t, th).Some? then StepNotify(s, t, th)
    else if StepRenew(s, t, th, c).Some? then StepRenew(s, t, th, c)
    else StepUnsubscribe(s, t, th)
  }

  /** The calls a thread may begin with; a publisher sends an initial event only for what it has accepted. */
  predicate Begins(s: State, th: Thread) {
    match th
    case SubCheck(_) => true
    case NotifyStart(ev) => ev.key == 0 ==> ev.actual in s.accepted
    case RenewCheck(_, _) => true
    case UnsubCheck(_, _) => true
    case Unregister(_) => true
    case _ => false
  }

  /** The accepted subscriptions of a client. */
  function Of(s: State, h: nat): set<nat> {
    set a | a in s.accepted && s.accepted[a] == h
  }

  function Step(s: State, a: Act): Option<State> {
    match a
    case AddClient(h) => if 0 < h < NUM_HANDLE && h !in s.table then Some(s.(table := s.table[h := []])) else None
    case DropClient(h) => Some(s.(table := s.table - {h}, lost := s.lost + Of(s, h)))
    case Spawn(t, th) => if t !in s.threads && Begins(s, th) then Some(s.(threads := s.threads[t := th])) else None
    case Run(t, c) => if t in s.threads then StepThread(s, t, c) else None
  }

  const INIT := State(map[], None, map[], map[], {}, {}, {}, {})

  function RunAll(s: State, acts: seq<Act>): Option<State>
    decreases |acts|
  {
    if acts == [] then Some(s)
    else match Step(s, acts[0]) case None => None case Some(s') => RunAll(s', acts[1..])
  }
}
