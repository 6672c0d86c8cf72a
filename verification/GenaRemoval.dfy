/** What an unsubscription, a failed renewal and a successful one leave in the lists. */
module GenaRemoval {
  import opened Bytes
  import opened Gena
  import opened GenaEvents
  import opened GenaLists

  predicate HasSid(l: seq<Sub>, sid: nat) {
    exists i | 0 <= i < |l| :: l[i].sid == sid
  }

  lemma {:induction false} OthersWithout(l: seq<Sub>, sid: nat)
    requires !HasSid(l, sid)
    ensures Others(l, sid) == l
  {
    if l != [] {
      assert l[0].sid != sid;
      forall i | 0 <= i < |l[1..]| ensures l[1..][i].sid != sid {
        assert l[i + 1].sid != sid;
      }
      OthersWithout(l[1..], sid);
    }
  }

  lemma {:induction false} OthersHaveNot(l: seq<Sub>, sid: nat)
    ensures !HasSid(Others(l, sid), sid)
  {
    if l != [] {
      OthersHaveNot(l[1..], sid);
      var o := Others(l[1..], sid);
      forall i | 0 <= i < |Others(l, sid)| ensures Others(l, sid)[i].sid != sid {
        assert l[0].sid != sid ==> Others(l, sid) == [l[0]] + o;
      }
    }
  }

  lemma RemovedHasNot(l: seq<Sub>, i: nat)
    requires i < |l| && forall i, j | 0 <= i < j < |l| :: l[i].sid != l[j].sid
    ensures !HasSid(RemoveAt(l, i), l[i].sid)
  {
    var r := RemoveAt(l, i);
    forall j | 0 <= j < |r| ensures r[j].sid != l[i].sid {
      assert r[j] == l[if j < i then j else j + 1];
    }
  }

  /** Ids are all different, so taking out the first entry of an id takes out every one. */
  lemma RemovedIsOthers(l: seq<Sub>, sid: nat)
    requires forall i, j | 0 <= i < j < |l| :: l[i].sid != l[j].sid
    ensures Others(l, sid) == match FindSid(l, sid) case None => l case Some(i) => RemoveAt(l, i)
  {
    hide Others, RemoveAt;
    match FindSid(l, sid)
    case None => OthersWithout(l, sid);
    case Some(i) =>
      OthersRemoved(l, i);
      RemovedHasNot(l, i);
      OthersWithout(RemoveAt(l, i), sid);
  }

  /** The list of a client without an id; all other lists as they were. */
  predicate TakenOut(s: State, s': State, h: nat, sid: nat) {
    h in s.table && s'.table == s.table[h := Others(s.table[h], sid)]
  }

  lemma RemovedTakesOut(s: State, h: nat, sid: nat)
    requires Ids(s) && h in s.table
    ensures TakenOut(s, Removed(s, h, sid), h, sid)
  {
    RemovedIsOthers(s.table[h], sid);
    assert s.table[h := s.table[h]] == s.table;
  }

  /** An unsubscription that succeeds has taken out the entry of its id, and nothing else. */
  lemma UnsubscribeTakesOut(s: State, t: nat, c: Choice)
    requires Ids(s) && t in s.threads && s.threads[t].UnsubRemove? && Step(s, Run(t, c)).Some?
    ensures var s', h, sid := Step(s, Run(t, c)).value, s.threads[t].h, s.threads[t].sid;
            && (s'.threads[t] == UnsubDone(Success) <==> h in s.table)
            && (h in s.table ==> TakenOut(s, s', h, sid))
            && (h !in s.table ==> s'.threads[t] == UnsubDone(BadHandle) && s'.table == s.table)
  {
    var h, sid := s.threads[t].h, s.threads[t].sid;
    if h in s.table {
      RemovedTakesOut(s, h, sid);
    }
    hide Removed, Ids;
  }

  /** A list in which the entry of an id has been replaced. */
  predicate Renewed(l: seq<Sub>, l': seq<Sub>, sub: Sub) {
    |l'| == |l| && forall i | 0 <= i < |l| :: l'[i] == if l[i].sid == sub.sid then sub else l[i]
  }

  /**
   The end of a renewal. It succeeds if and only if the publisher has answered, the id is still listed and the next
   renewal can be scheduled; then the entry has the publisher's new id and the new timer. If it failed for another
   reason than a missing client or id, the entry is gone.
   */
  lemma RenewalEnds(s: State, t: nat, c: Choice)
    requires Ids(s) && t in s.threads && s.threads[t].RenewAnswer? && Step(s, Run(t, c)).Some?
    ensures var s', th := Step(s, Run(t, c)).value, s.threads[t];
            var h, sid := th.h, th.sid;
            && (s'.threads[t] == RenewDone(Success) <==>
                  h in s.table && HasSid(s.table[h], sid) && th.answer.Some? && c.ok)
            && (s'.threads[t] == RenewDone(Success) ==>
                  && s'.table.Keys == s.table.Keys && (forall g | g in s.table && g != h :: s'.table[g] == s.table[g])
                  && Renewed(s.table[h], s'.table[h], Sub(sid, th.answer.value, c.timer)))
            && (s'.threads[t] == RenewDone(NetworkFailure) ==> TakenOut(s, s', h, sid))
            && (s'.threads[t] == RenewDone(BadHandle) || s'.threads[t] == RenewDone(BadSid) ==> s'.table == s.table)
            && s'.threads[t].RenewDone?
  {
    var h, sid := s.threads[t].h, s.threads[t].sid;
    if h in s.table {
      RemovedTakesOut(s, h, sid);
      var l := s.table[h];
      if FindSid(l, sid).Some? {
        var i := FindSid(l, sid).value;
        assert forall j | 0 <= j < |l| && j != i :: l[j].sid != l[i].sid;
      }
    }
    hide Removed, Ids;
  }

  /** The beginning of a renewal: the timer of the entry is cleared, so it is not renewed a second time. */
  lemma RenewalBegins(s: State, t: nat, c: Choice)
    requires Ids(s) && t in s.threads && s.threads[t].RenewCheck? && Step(s, Run(t, c)).Some?
    ensures var s', th := Step(s, Run(t, c)).value, s.threads[t];
            var h, sid := th.h, th.sid;
            && (s'.threads[t] == RenewRequest(h, sid) <==> h in s.table && HasSid(s.table[h], sid))
            && (s'.threads[t] == RenewRequest(h, sid) ==>
                  && s'.table.Keys == s.table.Keys && (forall g | g in s.table && g != h :: s'.table[g] == s.table[g])
                  && |s'.table[h]| == |s.table[h]|
                  && forall i | 0 <= i < |s.table[h]| ::
                       var was := s.table[h][i];
                       s'.table[h][i] == if was.sid == sid then Sub(sid, was.actual, None) else was)
            && (s'.threads[t] != RenewRequest(h, sid) ==> s'.table == s.table)
  {
    var h, sid := s.threads[t].h, s.threads[t].sid;
    if h in s.table && FindSid(s.table[h], sid).Some? {
      var l, i := s.table[h], FindSid(s.table[h], sid).value;
      assert forall j | 0 <= j < |l| && j != i :: l[j].sid != l[i].sid;
    }
    hide Ids;
  }

  // ----- over runs

  /** A client id that is at work on is known, and in no other client's list. */
  ghost predicate Own(s: State, h: nat, sid: nat) {
    sid in s.used && forall g, sub | Entry(s, g, sub) && sub.sid == sid :: g == h
  }

  ghost predicate AtWork(s: State) {
    forall t | t in s.threads :: WorksOn(s.threads[t]) ==> Own(s, s.threads[t].h, s.threads[t].sid)
  }

  predicate WorksOn(th: Thread) {
    th.UnsubRequest? || th.UnsubRemove? || th.RenewRequest? || th.RenewAnswer?
  }

  /** An id that no other client has is never listed by another client. */
  lemma OwnStays(s: State, s': State, h: nat, sid: nat)
    requires TableStep(s, s') && Own(s, h, sid)
    ensures Own(s', h, sid)
  {
    forall g, sub | Entry(s', g, sub) && sub.sid == sid ensures g == h {
      EntryFromBefore(s, s', g, sub);
    }
  }

  /** An entry was in the same list before, with the same id, or its id has never been used. */
  lemma EntryFromBefore(s: State, s': State, g: nat, sub: Sub)
    requires TableStep(s, s') && Entry(s', g, sub)
    ensures sub.sid !in s.used || exists was :: Entry(s, g, was) && was.sid == sub.sid
  {
    if g in s.table {
      var l, l' := s.table[g], s'.table[g];
      var j :| 0 <= j < |l'| && l'[j] == sub;
      if l' == l {
        assert Entry(s, g, sub);
      } else if i :| Cut(l, l', i) {
        assert Entry(s, g, l[if j < i then j else j + 1]);
      } else if i, o: Sub :| Overwritten(l, l', i, o) {
        assert Entry(s, g, l[j]);
      } else {
        assert ListStep(s, s', l, l');
        var o: Sub :| Headed(s, s', l, l', o);
        if j > 0 {
          assert Entry(s, g, l[j - 1]);
        }
      }
    }
  }

  /** A thread begins to work on an id only after it has found it in the list of its client. */
  lemma WorkBegins(s: State, a: Act, t: nat)
    requires Ids(s) && Step(s, a).Some? && t in Step(s, a).value.threads && WorksOn(Step(s, a).value.threads[t])
    ensures var th := Step(s, a).value.threads[t];
            || (t in s.threads && WorksOn(s.threads[t]) && s.threads[t].h == th.h && s.threads[t].sid == th.sid)
            || Own(s, th.h, th.sid)
  {
    hide Ids, Own;
    if a.Run? && a.t == t {
      ThreadWorks(s, t, a.choice);
    } else if t in s.threads {
      OtherThreads(s, a, t);
    } else {
      NoneSpawned(s, a, t);
    }
  }

  lemma NoneSpawned(s: State, a: Act, t: nat)
    requires Step(s, a).Some? && t !in s.threads && t in Step(s, a).value.threads
    ensures !WorksOn(Step(s, a).value.threads[t])
  {
    hide HasActual, FirstClient, NextHandle, RemoveAt, FindSid;
  }

  lemma ThreadWorks(s: State, t: nat, c: Choice)
    requires Ids(s) && t in s.threads && StepThread(s, t, c).Some?
    requires t in StepThread(s, t, c).value.threads && WorksOn(StepThread(s, t, c).value.threads[t])
    ensures var th, th' := s.threads[t], StepThread(s, t, c).value.threads[t];
            (WorksOn(th) && th.h == th'.h && th.sid == th'.sid) || Own(s, th'.h, th'.sid)
  {
    var th := StepThread(s, t, c).value.threads[t];
    hide HasActual, FirstClient, RemoveAt, Ids, Own, FindSid;
    if s.threads[t].RenewCheck? || s.threads[t].UnsubCheck? {
      FoundIsOwn(s, th.h, th.sid);
    }
  }

  lemma FoundIsOwn(s: State, h: nat, sid: nat)
    requires Ids(s) && h in s.table && FindSid(s.table[h], sid).Some?
    ensures Own(s, h, sid)
  {
    var i := FindSid(s.table[h], sid).value;
    assert s.table[h][i].sid == sid;
    forall g, sub | Entry(s, g, sub) && sub.sid == sid ensures g == h {
      var j :| 0 <= j < |s.table[g]| && s.table[g][j] == sub;
    }
  }

  lemma AtWorkStep(s: State, a: Act)
    requires Ids(s) && AtWork(s) && Step(s, a).Some?
    ensures AtWork(Step(s, a).value)
  {
    var s' := Step(s, a).value;
    StepChangesOne(s, a);
    hide Step, TableStep, Ids, Own;
    forall t | t in s'.threads && WorksOn(s'.threads[t]) ensures Own(s', s'.threads[t].h, s'.threads[t].sid) {
      WorkBegins(s, a, t);
      OwnStays(s, s', s'.threads[t].h, s'.threads[t].sid);
    }
  }

  lemma {:induction false} AtWorkAlways(s: State, acts: seq<Act>)
    requires Ids(s) && AtWork(s) && RunAll(s, acts).Some?
    ensures Ids(RunAll(s, acts).value) && AtWork(RunAll(s, acts).value)
    decreases |acts|
  {
    hide Step, TableStep, Ids, AtWork;
    if acts != [] {
      StepChangesOne(s, acts[0]);
      IdsStep(s, Step(s, acts[0]).value);
      AtWorkStep(s, acts[0]);
      AtWorkAlways(Step(s, acts[0]).value, acts[1..]);
    }
  }

  lemma InitialWork()
    ensures Ids(INIT) && AtWork(INIT)
  {
  }

  lemma TakenOutGone(s: State, s': State, h: nat, sid: nat)
    requires Own(s, h, sid) && TakenOut(s, s', h, sid)
    ensures !SidListed(s', sid)
  {
    OthersHaveNot(s.table[h], sid);
    if SidListed(s', sid) {
      var g, sub :| Entry(s', g, sub) && sub.sid == sid;
      if g != h {
        assert Entry(s, g, sub);
      }
    }
  }

  lemma UsedStays(s: State, a: Act, sid: nat)
    requires Step(s, a).Some? && sid in s.used
    ensures sid in Step(s, a).value.used
  {
    StepChangesOne(s, a);
    hide Step;
  }

  /**
   In every run: once an unsubscription has succeeded, or a renewal has failed for the network, its id is in no list,
   and it is in none at any later time.
   */
  lemma GoneForGood(before: seq<Act>, t: nat, c: Choice, after: seq<Act>)
    requires var s := RunAll(INIT, before);
             && s.Some? && t in s.value.threads && Step(s.value, Run(t, c)).Some?
             && (s.value.threads[t].UnsubRemove? || s.value.threads[t].RenewAnswer?)
             && var s' := Step(s.value, Run(t, c)).value;
             && (s'.threads[t] == UnsubDone(Success) || s'.threads[t] == RenewDone(NetworkFailure))
             && RunAll(s', after).Some?
    ensures var s := RunAll(INIT, before).value;
            var s', sid := Step(s, Run(t, c)).value, s.threads[t].sid;
            TakenOut(s, s', s.threads[t].h, sid) && !SidListed(s', sid) && !SidListed(RunAll(s', after).value, sid)
  {
    InitialWork();
    AtWorkAlways(INIT, before);
    var s := RunAll(INIT, before).value;
    var s' := Step(s, Run(t, c)).value;
    var h, sid := s.threads[t].h, s.threads[t].sid;
    if s.threads[t].UnsubRemove? {
      UnsubscribeTakesOut(s, t, c);
    } else {
      RenewalEnds(s, t, c);
    }
    UsedStays(s, Run(t, c), sid);
    hide RunAll, Step, Ids, TakenOut, SidListed;
    TakenOutGone(s, s', h, sid);
    NeverBack(s', after, sid);
  }
}
