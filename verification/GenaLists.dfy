/** What happens to the entries of the subscription lists over a run. */
module GenaLists {
  import opened Bytes
  import opened Gena
  import GenaDelivery

  // ----- client ids

  /** A client id is listed, and what it is listed with. */
  ghost predicate Entry(s: State, h: nat, sub: Sub) {
    h in s.table && sub in s.table[h]
  }

  ghost predicate SidListed(s: State, sid: nat) {
    exists h, sub :: Entry(s, h, sub) && sub.sid == sid
  }

  /** All client ids are different, and recorded as used. */
  ghost predicate Ids(s: State) {
    && (forall h, i | h in s.table && 0 <= i < |s.table[h]| :: s.table[h][i].sid in s.used)
    && (forall h, i, j | h in s.table && 0 <= i < j < |s.table[h]| :: s.table[h][i].sid != s.table[h][j].sid)
    && (forall h, g, i, j | h in s.table && g in s.table && h != g && 0 <= i < |s.table[h]| && 0 <= j < |s.table[g]| ::
          s.table[h][i].sid != s.table[g][j].sid)
  }

  ghost predicate Cut(l: seq<Sub>, l': seq<Sub>, i: nat) {
    i < |l| && l' == RemoveAt(l, i)
  }

  ghost predicate Overwritten(l: seq<Sub>, l': seq<Sub>, i: nat, sub: Sub) {
    i < |l| && sub.sid == l[i].sid && l' == l[i := sub]
  }

  ghost predicate Headed(s: State, s': State, l: seq<Sub>, l': seq<Sub>, sub: Sub) {
    sub.sid !in s.used && sub.sid in s'.used && l' == [sub] + l
  }

  /**
   How one list may change in a step: it stays, or loses an entry, or
   has one overwritten, or one with a new id put first.
   */
  ghost predicate ListStep(s: State, s': State, l: seq<Sub>, l': seq<Sub>) {
    || l' == l
    || (exists i :: Cut(l, l', i))
    || (exists i, sub :: Overwritten(l, l', i, sub))
    || (exists sub :: Headed(s, s', l, l', sub))
  }

  ghost predicate OneList(s: State, s': State, h: nat, l': seq<Sub>) {
    h in s.table && ListStep(s, s', s.table[h], l') && s'.table == s.table[h := l']
  }

  ghost predicate NewClient(s: State, s': State, h: nat) {
    h !in s.table && s'.table == s.table[h := []]
  }

  ghost predicate GoneClient(s: State, s': State, h: nat) {
    s'.table == s.table - {h}
  }

  /** At most one list changes. */
  ghost predicate TableStep(s: State, s': State) {
    && s.used <= s'.used
    && (s'.table == s.table
        || (exists h :: NewClient(s, s', h))
        || (exists h :: GoneClient(s, s', h))
        || (exists h, l' :: OneList(s, s', h, l')))
  }

  lemma RemovedStep(s: State, h: nat, sid: nat)
    ensures TableStep(s, Removed(s, h, sid)) && Removed(s, h, sid).used == s.used
  {
    if h in s.table && FindSid(s.table[h], sid).Some? {
      var l' := RemoveAt(s.table[h], FindSid(s.table[h], sid).value);
      assert Cut(s.table[h], l', FindSid(s.table[h], sid).value);
      assert OneList(s, Removed(s, h, sid), h, l');
    }
  }

  lemma SameTableStep(s: State, r: State, s': State)
    requires TableStep(s, r) && s'.table == r.table && s'.used == r.used
    ensures TableStep(s, s')
  {
    if h, l' :| OneList(s, r, h, l') {
      SameListStep(s, r, s', s.table[h], l');
      assert OneList(s, s', h, l');
    } else if h :| NewClient(s, r, h) {
      assert NewClient(s, s', h);
    } else if h :| GoneClient(s, r, h) {
      assert GoneClient(s, s', h);
    }
  }

  lemma SameListStep(s: State, r: State, s': State, l: seq<Sub>, l': seq<Sub>)
    requires ListStep(s, r, l, l') && s'.used == r.used
    ensures ListStep(s, s', l, l')
  {
    if sub: Sub :| Headed(s, r, l, l', sub) {
      assert Headed(s, s', l, l', sub);
    }
  }

  lemma StepChangesOne(s: State, a: Act)
    requires Step(s, a).Some?
    ensures TableStep(s, Step(s, a).value)
  {
    var s' := Step(s, a).value;
    match a
    case AddClient(h) => assert NewClient(s, s', h);
    case DropClient(h) => assert GoneClient(s, s', h);
    case Spawn(t, th) =>
    case Run(t, c) =>
      var th := s.threads[t];
      hide TableStep, ListStep;
      if StepSubscribe(s, t, th, c).Some? {
        SubscribeChangesOne(s, t, th, c);
      } else if StepNotify(s, t, th).Some? {
        NotifyChangesNone(s, t, th);
      } else if StepRenew(s, t, th, c).Some? {
        RenewChangesOne(s, t, th, c);
      } else {
        UnsubscribeChangesOne(s, t, th);
      }
  }

  lemma SubscribeChangesOne(s: State, t: nat, th: Thread, c: Choice)
    requires StepSubscribe(s, t, th, c).Some?
    ensures TableStep(s, StepSubscribe(s, t, th, c).value)
  {
    var s' := StepSubscribe(s, t, th, c).value;
    if th.SubAnswer? && s'.table != s.table {
      var sub := Sub(c.id, th.actual, c.timer);
      assert Headed(s, s', s.table[th.h], [sub] + s.table[th.h], sub);
      assert OneList(s, s', th.h, [sub] + s.table[th.h]);
    }
  }

  lemma NotifyChangesNone(s: State, t: nat, th: Thread)
    requires StepNotify(s, t, th).Some?
    ensures StepNotify(s, t, th).value.table == s.table && TableStep(s, StepNotify(s, t, th).value)
  {
  }

  lemma RenewChangesOne(s: State, t: nat, th: Thread, c: Choice)
    requires StepRenew(s, t, th, c).Some?
    ensures TableStep(s, StepRenew(s, t, th, c).value)
  {
    var s' := StepRenew(s, t, th, c).value;
    if th.RenewCheck? || th.RenewAnswer? {
      RemovedStep(s, th.h, th.sid);
      if s'.table == Removed(s, th.h, th.sid).table {
        SameTableStep(s, Removed(s, th.h, th.sid), s');
      }
      if th.h in s.table && FindSid(s.table[th.h], th.sid).Some? {
        var i, l := FindSid(s.table[th.h], th.sid).value, s.table[th.h];
        var cleared := l[i].(timer := None);
        assert cleared.sid == l[i].sid;
        if th.RenewCheck? {
          assert Overwritten(l, l[i := cleared], i, cleared);
          assert OneList(s, s', th.h, l[i := cleared]);
        } else if th.answer.Some? && c.ok {
          var sub := Sub(th.sid, th.answer.value, c.timer);
          assert Overwritten(l, l[i := sub], i, sub);
          assert OneList(s, s', th.h, l[i := sub]);
        }
      }
    }
  }

  lemma UnsubscribeChangesOne(s: State, t: nat, th: Thread)
    requires StepUnsubscribe(s, t, th).Some?
    ensures TableStep(s, StepUnsubscribe(s, t, th).value)
  {
    var s' := StepUnsubscribe(s, t, th).value;
    if th.UnsubRemove? && th.h in s.table {
      RemovedStep(s, th.h, th.sid);
      SameTableStep(s, Removed(s, th.h, th.sid), s');
    }
    if th.Unregister? && th.h in s.table && s.table[th.h] != [] {
      RemovedStep(s, th.h, s.table[th.h][0].sid);
      SameTableStep(s, Removed(s, th.h, s.table[th.h][0].sid), s');
    }
  }

  /** Every id in a list was there before, or has never been used. */
  lemma IdsFromBefore(s: State, s': State, h: nat, sub: Sub)
    requires TableStep(s, s') && Entry(s', h, sub)
    ensures SidListed(s, sub.sid) || sub.sid !in s.used
  {
    if s'.table != s.table && h in s.table && s'.table[h] != s.table[h] {
      var l, l' := s.table[h], s'.table[h];
      var j :| 0 <= j < |l'| && l'[j] == sub;
      assert ListStep(s, s', l, l');
      if i :| Cut(l, l', i) {
        assert Entry(s, h, l[if j < i then j else j + 1]);
      } else if i, sub': Sub :| Overwritten(l, l', i, sub') {
        assert Entry(s, h, l[j]);
      } else {
        var sub': Sub :| Headed(s, s', l, l', sub');
        if j > 0 {
          assert Entry(s, h, l[j - 1]);
        }
      }
    } else if h in s.table {
      assert Entry(s, h, sub);
    }
  }

  /**
   An id that has been used and is listed nowhere is never listed again: a subscription removed while its renewal is on
   the network is not brought back by the answer.
   */
  lemma {:induction false} NeverBack(s: State, acts: seq<Act>, sid: nat)
    requires sid in s.used && !SidListed(s, sid) && RunAll(s, acts).Some?
    ensures !SidListed(RunAll(s, acts).value, sid)
    decreases |acts|
  {
    hide Step, TableStep;
    if acts != [] {
      var s' := Step(s, acts[0]).value;
      StepChangesOne(s, acts[0]);
      assert s.used <= s'.used by { UsedGrows(s, s'); }
      if SidListed(s', sid) {
        var h, sub :| Entry(s', h, sub) && sub.sid == sid;
        IdsFromBefore(s, s', h, sub);
      }
      NeverBack(s', acts[1..], sid);
    }
  }

  lemma UsedGrows(s: State, s': State)
    requires TableStep(s, s')
    ensures s.used <= s'.used
  {
  }

  lemma IdsStep(s: State, s': State)
    requires Ids(s) && TableStep(s, s')
    ensures Ids(s')
  {
    if h, l' :| OneList(s, s', h, l') {
      IdsList(s, s', h, s.table[h], l');
    } else if s'.table != s.table {
      assert (exists h :: NewClient(s, s', h)) || (exists h :: GoneClient(s, s', h));
    }
  }

  ghost predicate FromBefore(s: State, l: seq<Sub>, sid: nat) {
    (exists i :: 0 <= i < |l| && l[i].sid == sid) || sid !in s.used
  }

  lemma IdsOfList(s: State, s': State, l: seq<Sub>, l': seq<Sub>, j: nat)
    requires s.used <= s'.used && ListStep(s, s', l, l') && j < |l'|
    requires forall i | 0 <= i < |l| :: l[i].sid in s.used
    ensures l'[j].sid in s'.used && FromBefore(s, l, l'[j].sid)
  {
    if i :| Cut(l, l', i) {
      assert l'[j] == l[if j < i then j else j + 1];
    } else if i, sub: Sub :| Overwritten(l, l', i, sub) {
      assert l'[j].sid == l[j].sid;
    } else if l' != l {
      var sub: Sub :| Headed(s, s', l, l', sub);
      assert j > 0 ==> l'[j] == l[j - 1];
    }
  }

  lemma IdsWithinList(s: State, s': State, l: seq<Sub>, l': seq<Sub>, i: nat, j: nat)
    requires ListStep(s, s', l, l') && i < j < |l'|
    requires forall i | 0 <= i < |l| :: l[i].sid in s.used
    requires forall i, j | 0 <= i < j < |l| :: l[i].sid != l[j].sid
    ensures l'[i].sid != l'[j].sid
  {
    if k :| Cut(l, l', k) {
      assert l'[i] == l[if i < k then i else i + 1] && l'[j] == l[if j < k then j else j + 1];
    } else if k, sub: Sub :| Overwritten(l, l', k, sub) {
      assert l'[i].sid == l[i].sid && l'[j].sid == l[j].sid;
    } else if l' != l {
      var sub: Sub :| Headed(s, s', l, l', sub);
      assert l'[j] == l[j - 1] && (i > 0 ==> l'[i] == l[i - 1]);
    }
  }

  lemma IdsList(s: State, s': State, h: nat, l: seq<Sub>, l': seq<Sub>)
    requires Ids(s) && s.used <= s'.used && h in s.table && s.table[h] == l && ListStep(s, s', l, l')
             && s'.table == s.table[h := l']
    ensures Ids(s')
  {
    hide ListStep;
    forall j | 0 <= j < |l'| ensures l'[j].sid in s'.used && FromBefore(s, l, l'[j].sid) {
      IdsOfList(s, s', l, l', j);
    }
    forall i, j | 0 <= i < j < |l'| ensures l'[i].sid != l'[j].sid {
      IdsWithinList(s, s', l, l', i, j);
    }
  }

  /** Over every run the ids in the lists are all different. */
  lemma {:induction false} IdsAlways(s: State, acts: seq<Act>)
    requires Ids(s) && RunAll(s, acts).Some?
    ensures Ids(RunAll(s, acts).value)
    decreases |acts|
  {
    hide Step, TableStep, Ids;
    if acts != [] {
      StepChangesOne(s, acts[0]);
      IdsStep(s, Step(s, acts[0]).value);
      IdsAlways(Step(s, acts[0]).value, acts[1..]);
    }
  }

  // ----- renewal and removal

  function Others(l: seq<Sub>, sid: nat): seq<Sub> {
    if l == [] then [] else (if l[0].sid == sid then [] else [l[0]]) + Others(l[1..], sid)
  }

  lemma {:induction false} OthersRemoved(l: seq<Sub>, i: nat)
    requires i < |l|
    ensures Others(RemoveAt(l, i), l[i].sid) == Others(l, l[i].sid)
  {
    if i > 0 {
      OthersRemoved(l[1..], i - 1);
      assert RemoveAt(l, i) == [l[0]] + RemoveAt(l[1..], i - 1);
    } else {
      assert RemoveAt(l, 0) == l[1..];
    }
  }

  lemma {:induction false} OthersUpdated(l: seq<Sub>, i: nat, sub: Sub)
    requires i < |l| && sub.sid == l[i].sid
    ensures Others(l[i := sub], sub.sid) == Others(l, sub.sid)
  {
    if i > 0 {
      OthersUpdated(l[1..], i - 1, sub);
      assert l[i := sub][1..] == l[1..][i - 1 := sub];
    } else {
      assert l[0 := sub][1..] == l[1..];
    }
  }

  /** No step of a renewal touches any entry but that of the id it renews. */
  lemma RenewLeavesOthers(s: State, t: nat, c: Choice, h: nat)
    requires t in s.threads && StepRenew(s, t, s.threads[t], c).Some? && h in s.table
    ensures var s', th := StepRenew(s, t, s.threads[t], c).value, s.threads[t];
            && s'.table.Keys == s.table.Keys
            && (th.RenewRequest? || h != th.h ==> s'.table[h] == s.table[h])
            && (!th.RenewRequest? ==> Others(s'.table[h], th.sid) == Others(s.table[h], th.sid))
  {
    var th := s.threads[t];
    if (th.RenewCheck? || th.RenewAnswer?) && th.h in s.table && FindSid(s.table[th.h], th.sid).Some? {
      var l, i := s.table[th.h], FindSid(s.table[th.h], th.sid).value;
      OthersRemoved(l, i);
      OthersUpdated(l, i, l[i].(timer := None));
      if th.RenewAnswer? && th.answer.Some? {
        OthersUpdated(l, i, Sub(th.sid, th.answer.value, c.timer));
      }
    }
  }

  /** The thread alone, `n` steps. */
  function Alone(s: State, t: nat, n: nat): Option<State>
    decreases n
  {
    if n == 0 then Some(s)
    else match Step(s, Run(t, Choice(true, 0, None))) case None => None case Some(s') => Alone(s', t, n - 1)
  }

  /**
   An unregistration removes the first entry in each round,
   and finishes with success exactly when it finds the list empty;
   undisturbed it does so after one round for each entry.
   */
  lemma {:induction false} UnregisterEmpties(s: State, t: nat, h: nat)
    requires t in s.threads && s.threads[t] == Unregister(h) && h in s.table
    ensures var r := Alone(s, t, 2 * |s.table[h]| + 1);
            && r.Some? && t in r.value.threads && r.value.threads[t] == UnregisterDone(Success)
            && r.value.table == s.table[h := []]
    decreases |s.table[h]|
  {
    hide Step;
    if s.table[h] == [] {
      UnregisterLast(s, t, h);
      AloneOne(s, t, 0);
      AloneNone(Step(s, Run(t, Choice(true, 0, None))).value, t);
    } else {
      var n := |s.table[h]|;
      var s1, s2 := UnregisterRound(s, t, h);
      UnregisterEmpties(s2, t, h);
      AloneOne(s, t, 2 * n);
      AloneOne(s1, t, 2 * n - 1);
      assert s2.table[h := []] == s.table[h := []];
    }
  }

  lemma UnregisterLast(s: State, t: nat, h: nat)
    requires t in s.threads && s.threads[t] == Unregister(h) && h in s.table && s.table[h] == []
    ensures var r := Step(s, Run(t, Choice(true, 0, None)));
            && r.Some? && t in r.value.threads && r.value.threads[t] == UnregisterDone(Success)
            && r.value.table == s.table[h := []]
  {
    assert s.table[h := []] == s.table;
  }

  /** One round takes the first entry out. */
  lemma UnregisterRound(s: State, t: nat, h: nat) returns (s1: State, s2: State)
    requires t in s.threads && s.threads[t] == Unregister(h) && h in s.table && s.table[h] != []
    ensures var c := Choice(true, 0, None); Step(s, Run(t, c)) == Some(s1) && Step(s1, Run(t, c)) == Some(s2)
    ensures t in s2.threads && s2.threads[t] == Unregister(h) && s2.table == s.table[h := s.table[h][1..]]
  {
    var c := Choice(true, 0, None);
    RemoveHead(s.table[h]);
    s1 := Step(s, Run(t, c)).value;
    assert s1.table == s.table[h := s.table[h][1..]] && s1.threads[t] == UnregisterRequest(h, s.table[h][0]);
    s2 := Step(s1, Run(t, c)).value;
  }

  lemma AloneNone(s: State, t: nat)
    ensures Alone(s, t, 0) == Some(s)
  {
  }

  lemma RemoveHead(l: seq<Sub>)
    requires l != []
    ensures FindSid(l, l[0].sid) == Some(0) && RemoveAt(l, 0) == l[1..]
  {
  }

  lemma AloneOne(s: State, t: nat, n: nat)
    requires Step(s, Run(t, Choice(true, 0, None))).Some?
    ensures Alone(s, t, n + 1) == Alone(Step(s, Run(t, Choice(true, 0, None))).value, t, n)
  {
    hide Step;
  }

  /** In any state, success of an unregistration means that the list was empty under the handle lock. */
  lemma UnregisterSucceedsEmpty(s: State, t: nat, h: nat, c: Choice)
    requires t in s.threads && s.threads[t] == Unregister(h) && Step(s, Run(t, c)).Some?
    ensures var s' := Step(s, Run(t, c)).value;
            && (s'.threads[t] == UnregisterDone(Success) <==> h in s.table && s.table[h] == [])
            && (s'.threads[t].UnregisterRequest? <==> h in s.table && s.table[h] != [])
            && (s'.threads[t].UnregisterRequest? ==>
                  s'.table == s.table[h := s.table[h][1..]] && s'.threads[t].removed == s.table[h][0])
            && (s'.threads[t] == UnregisterDone(BadHandle) <==> h !in s.table)
  {
    if h in s.table && s.table[h] != [] {
      RemoveHead(s.table[h]);
    }
  }

  /** The holder of the subscribe lock is never blocked, so the lock is always given back. */
  lemma LockHolderMoves(s: State, id: nat)
    requires GenaDelivery.Inv(s) && s.lock.Some? && id !in s.used && id !in s.accepted
    ensures s.lock.value in s.threads && Step(s, Run(s.lock.value, Choice(true, id, None))).Some?
  {
    hide GenaDelivery.AcceptedOk, GenaDelivery.NotifyOk, GenaDelivery.Subscribing;
  }

  /**
   A subscription counts as lost only in a step in which its entry
   goes, or gets another publisher's id, or without its client.
   */
  lemma LostOnlyByRemoval(s: State, a: Act, x: nat)
    requires Ids(s) && Step(s, a).Some? && x in Step(s, a).value.lost && x !in s.lost
    ensures var s' := Step(s, a).value;
            || (x in s'.accepted && s'.accepted[x] !in s'.table)
            || exists h, sub :: Entry(s, h, sub) && sub.actual == x && h in s'.table && !Keeps(s'.table[h], sub)
  {
    if a.Run? {
      var th, s' := s.threads[a.t], Step(s, a).value;
      if th.h in s.table {
        if th.RenewAnswer? || th.UnsubRemove? {
          LostEntry(s, s', th.h, FindSid(s.table[th.h], th.sid).value, x);
        } else if th.Unregister? {
          RemoveHead(s.table[th.h]);
          LostEntry(s, s', th.h, 0, x);
        }
      }
    }
  }

  /** An entry of the same client id and publisher's id is in the list. */
  predicate Keeps(l: seq<Sub>, sub: Sub) {
    exists i | 0 <= i < |l| :: l[i].sid == sub.sid && l[i].actual == sub.actual
  }

  lemma LostEntry(s: State, s': State, h: nat, i: nat, x: nat)
    requires Ids(s) && h in s.table && h in s'.table && i < |s.table[h]| && s.table[h][i].actual == x
    requires s'.table[h] == RemoveAt(s.table[h], i)
             || exists sub: Sub :: Overwritten(s.table[h], s'.table[h], i, sub) && sub.actual != x
    ensures Entry(s, h, s.table[h][i]) && !Keeps(s'.table[h], s.table[h][i])
  {
    var l := s.table[h];
    forall j | 0 <= j < |s'.table[h]| ensures !(s'.table[h][j].sid == l[i].sid && s'.table[h][j].actual == x) {
      if s'.table[h] == RemoveAt(l, i) {
        assert s'.table[h][j] == l[if j < i then j else j + 1];
      } else {
        assert j != i ==> s'.table[h][j] == l[j];
      }
    }
  }
}
