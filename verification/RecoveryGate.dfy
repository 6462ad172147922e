/** Which requests may run while a node recovers, told from the recovery list, the store and the epoch
    alone (sheep/recovery.c, sheep/request.c). */
module RecoveryGate {
  import opened Options
  import opened Recovery

  // ---- objects

  /** Nothing is being recovered, or the object is there, or its recovery is over, or it was never asked
      for and the slot behind the list does not hold it either. */
  ghost predicate MayRun(s: State, oid: nat)
    requires Shaped(s)
  {
    s.current.None? || oid in s.store ||
    (s.superseding.None? &&
     var r := s.current.value;
     r.phase == RecoverObj && (oid in r.oids[..r.done] || (oid !in r.listed && r.oids[r.count] != oid)))
  }

  /** Nobody is at work on the object, and somebody will have to be. */
  ghost predicate NeedsDirect(s: State, oid: nat)
    requires Shaped(s)
  {
    s.current.Some? && oid !in s.store && s.superseding.None? &&
    var r := s.current.value;
    r.phase == PrepareList ||
    (oid !in r.oids[..r.done] && if oid in r.oids[r.done..r.next] then r.suspended
      else oid in r.oids[r.next..r.count + 1])
  }

  /** An exempt request runs; any other runs if and only if its object allows it, and otherwise sleeps. A
      direct recovery is queued if and only if nobody is at work on the object. */
  lemma RunsExactly(s: State, q: Request)
    requires Shaped(s) && Windowed(s)
    ensures SubmitLocal(s, q).running == s.running + [q] <==> q.exempt || MayRun(s, q.oid)
    ensures q.exempt || MayRun(s, q.oid) ==> SubmitLocal(s, q).waiting == s.waiting
    ensures !q.exempt && !MayRun(s, q.oid) ==>
      SubmitLocal(s, q).running == s.running && SubmitLocal(s, q).waiting == s.waiting + [q]
    ensures SubmitLocal(s, q).direct ==
      if !q.exempt && NeedsDirect(s, q.oid) then s.direct + multiset{q.oid} else s.direct
    ensures NeedsDirect(s, q.oid) ==> !MayRun(s, q.oid)
  {
    hide Windowed, Look, MayRun, NeedsDirect;
    LookIs(s, q.oid);
  }

  /** The lookup in those terms. */
  lemma LookIs(s: State, oid: nat)
    requires Shaped(s) && Windowed(s)
    ensures Look(s, oid) == Recovered <==> MayRun(s, oid)
    ensures Look(s, oid) == WaitDirect <==> NeedsDirect(s, oid)
  {
    hide Windowed;
    if s.current.Some? && s.current.value.phase == RecoverObj { PartsAre(s, oid); }
  }

  lemma PartsAre(s: State, oid: nat)
    requires Shaped(s) && Windowed(s) && s.current.Some? && s.current.value.phase == RecoverObj
    ensures var r := s.current.value;
      (oid in r.listed <==>
        oid in r.oids[..r.done] || oid in r.oids[r.done..r.next] || oid in r.oids[r.next..r.count]) &&
      (oid in r.oids[r.next..r.count + 1] <==> oid in r.oids[r.next..r.count] || r.oids[r.count] == oid) &&
      (Found(r.oids, 0, r.done, oid) <==> oid in r.oids[..r.done])
  {
    var r := s.current.value;
    assert r.oids[0..r.done] == r.oids[..r.done];
    SearchParts(r, oid);
    ListedAre(r, oid);
  }

  /** While the list is made nothing runs that is not there, and after that nothing that is listed and
      neither there nor done. */
  lemma NotBeforeItsTime(s: State, oid: nat)
    requires Shaped(s) && s.current.Some? && oid !in s.store
    requires s.current.value.phase == RecoverObj ==>
      oid in s.current.value.listed && oid !in s.current.value.oids[..s.current.value.done]
    ensures !MayRun(s, oid)
  {}

  // ---- epochs

  /** A gateway request runs under the epoch of the node, and so does a peer request of that epoch; a peer
      request of an older one is refused and told the epoch, and one of a newer epoch sleeps until the node
      gets there. */
  lemma SubmitByEpoch(s: State, q: Request)
    requires Shaped(s) && Windowed(s)
    ensures var s' := Submit(s, q);
      var late, early := !q.gateway && q.oid != 0 && q.epoch < s.epoch, !q.gateway && q.oid != 0 && q.epoch > s.epoch;
      var q1 := if q.gateway then q.(epoch := s.epoch) else q;
      (s'.running == s.running + [q1] <==> !late && !early && (q.oid == 0 || q.exempt || MayRun(s, q.oid))) &&
      (s'.running != s.running ==> s'.running == s.running + [q1] && EpochFits(s, q1)) &&
      (s'.answered != s.answered <==> late) &&
      (late ==> s' == s.(answered := s.answered + [q.(result := OldNodeVer, rpEpoch := s.epoch)])) &&
      (early ==> s' == s.(waiting := s.waiting + [q.(result := NewNodeVer)]))
  {
    hide SubmitLocal, Windowed, MayRun;
    var q1 := q.(epoch := s.epoch);
    RunsExactly(s, q); RunsExactly(s, q1);
    SubmitLocalAnswers(s, q); SubmitLocalAnswers(s, q1);
  }

  lemma SubmitLocalAnswers(s: State, q: Request)
    requires Shaped(s)
    ensures SubmitLocal(s, q).answered == s.answered
    ensures SubmitLocal(s, q).running == s.running || SubmitLocal(s, q).running == s.running + [q]
  {
    hide Look;
  }

  lemma SubmitAnswers(s: State, q: Request)
    requires Shaped(s)
    ensures !q.gateway && q.oid != 0 && q.epoch < s.epoch ==>
      Submit(s, q) == s.(answered := s.answered + [q.(result := OldNodeVer, rpEpoch := s.epoch)])
    ensures !q.gateway && q.oid != 0 && q.epoch > s.epoch ==>
      Submit(s, q) == s.(waiting := s.waiting + [q.(result := NewNodeVer)])
    ensures !(!q.gateway && q.oid != 0 && q.epoch < s.epoch) ==> Submit(s, q).answered == s.answered
    ensures Submit(s, q).running == s.running ||
      Submit(s, q).running == s.running + [if q.gateway then q.(epoch := s.epoch) else q]
  {
    hide SubmitLocal;
    SubmitLocalAnswers(s, q); SubmitLocalAnswers(s, q.(epoch := s.epoch));
  }

  ghost predicate EpochFits(s: State, q: Request) { q.epoch == s.epoch || (!q.gateway && q.oid == 0) }

  // ---- what a step does with requests

  /** The request may run in s. */
  ghost predicate Admitted(s: State, q: Request)
    requires Shaped(s)
  {
    EpochFits(s, q) && (q.oid == 0 || q.exempt || MayRun(s, q.oid))
  }

  /** The request has been refused for its epoch in s. */
  ghost predicate Refused(s: State, q: Request) {
    !q.gateway && q.oid != 0 && q.epoch < s.epoch && q.result == OldNodeVer && q.rpEpoch == s.epoch
  }

  /** Only gateways wait for the epoch of a peer, and only peers for their own node to get to theirs. */
  ghost predicate InRole(q: Request) {
    (q.result == OldNodeVer ==> q.gateway) && (q.result == NewNodeVer ==> !q.gateway)
  }

  ghost predicate AllInRole(qs: seq<Request>) { forall i :: 0 <= i < |qs| ==> InRole(qs[i]) }

  ghost predicate Roles(s: State) { AllInRole(s.waiting) && AllInRole(s.running) }

  /** From a on, b has only requests that may run in s. */
  ghost predicate AllAdmitted(s: State, a: seq<Request>, b: seq<Request>)
    requires Shaped(s)
  {
    |a| <= |b| && b[..|a|] == a && forall k :: |a| <= k < |b| ==> Admitted(s, b[k])
  }

  /** From a on, b has only requests that have been refused in s. */
  ghost predicate AllRefused(s: State, a: seq<Request>, b: seq<Request>) {
    |a| <= |b| && b[..|a|] == a && forall k :: |a| <= k < |b| ==> Refused(s, b[k])
  }

  /** From s to s' only requests that may run have been set to run, and only refusals have been answered;
      everybody is in their role. */
  ghost predicate Orderly(s: State, s': State) {
    Shaped(s') && AllAdmitted(s', s.running, s'.running) && AllRefused(s', s.answered, s'.answered) && Roles(s')
  }

  /** What may run in s may run in s'. */
  ghost predicate Opens(s: State, s': State) {
    Shaped(s) && Shaped(s') && s'.epoch == s.epoch && forall oid :: MayRun(s, oid) ==> MayRun(s', oid)
  }

  lemma AdmittedThen(s1: State, s2: State, a: seq<Request>, b: seq<Request>, c: seq<Request>)
    requires Opens(s1, s2) && AllAdmitted(s1, a, b) && AllAdmitted(s2, b, c)
    ensures AllAdmitted(s2, a, c)
  {
    hide MayRun;
    assert c[..|a|] == c[..|b|][..|a|];
    forall k | |a| <= k < |c| ensures Admitted(s2, c[k]) {
      if k < |b| { assert c[..|b|][k] == b[k] && Admitted(s1, b[k]); }
    }
  }

  lemma RefusedThen(s1: State, s2: State, a: seq<Request>, b: seq<Request>, c: seq<Request>)
    requires s1.epoch == s2.epoch && AllRefused(s1, a, b) && AllRefused(s2, b, c)
    ensures AllRefused(s2, a, c)
  {
    assert c[..|a|] == c[..|b|][..|a|];
    forall k | |a| <= k < |c| ensures Refused(s2, c[k]) {
      if k < |b| { assert c[..|b|][k] == b[k] && Refused(s1, b[k]); }
    }
  }

  lemma OrderlyThen(s: State, s1: State, s2: State)
    requires Orderly(s, s1) && Orderly(s1, s2) && Opens(s1, s2)
    ensures Orderly(s, s2)
  {
    hide AllAdmitted, AllRefused, MayRun, AllInRole;
    AdmittedThen(s1, s2, s.running, s1.running, s2.running);
    RefusedThen(s1, s2, s.answered, s1.answered, s2.answered);
  }

  /** Nothing happens to the requests. */
  lemma OrderlySame(s: State, s': State)
    requires Roles(s) && Shaped(s') && s'.running == s.running && s'.answered == s.answered && s'.waiting == s.waiting
    ensures Orderly(s, s')
  {
    hide InRole;
  }

  lemma DispatchOrderly(s: State, q: Request)
    requires Shaped(s) && Roles(s) && InRole(q) && Admitted(s, q)
    ensures Orderly(s, Dispatch(s, q))
  {
    hide InRole;
    var s' := Dispatch(s, q);
    assert forall oid :: MayRun(s, oid) <==> MayRun(s', oid);
  }

  lemma SleepOrderly(s: State, s': State, q: Request)
    requires Shaped(s') && Roles(s) && InRole(q)
    requires s'.running == s.running && s'.answered == s.answered && s'.waiting == s.waiting + [q]
    ensures Orderly(s, s')
  {
    hide InRole;
  }

  lemma RespondOrderly(s: State, q: Request)
    requires Shaped(s) && Roles(s) && Refused(s, q)
    ensures Orderly(s, Respond(s, q))
  {
    hide InRole;
  }

  lemma SubmitLocalOrderly(s: State, q: Request)
    requires Shaped(s) && Windowed(s) && Roles(s) && InRole(q) && EpochFits(s, q)
    ensures Orderly(s, SubmitLocal(s, q))
  {
    hide Windowed, Look, MayRun, AllInRole, Orderly, InRole;
    SubmitLocalKeepsRest(s, q);
    RunsExactly(s, q);
    if q.exempt || MayRun(s, q.oid) { DispatchOrderly(s, q); } else { SleepOrderly(s, SubmitLocal(s, q), q); }
  }

  lemma SubmitOrderly(s: State, q: Request)
    requires Shaped(s) && Windowed(s) && Roles(s) && InRole(q)
    ensures Orderly(s, Submit(s, q))
  {
    hide SubmitLocal, Windowed, MayRun, AllInRole, Orderly;
    SubmitKeepsRest(s, q);
    if q.gateway {
      var q1 := q.(epoch := s.epoch);
      if q.oid == 0 { DispatchOrderly(s, q1); } else { SubmitLocalOrderly(s, q1); }
    } else if q.oid == 0 {
      DispatchOrderly(s, q);
    } else if q.epoch < s.epoch {
      RespondOrderly(s, q.(result := OldNodeVer, rpEpoch := s.epoch));
    } else if q.epoch > s.epoch {
      SleepOrderly(s, Submit(s, q), q.(result := NewNodeVer));
    } else {
      SubmitLocalOrderly(s, q);
    }
  }

  lemma SameRecoveryOpens(s: State, s': State)
    requires Shaped(s) && SameRecovery(s, s')
    ensures Shaped(s') && Opens(s, s') && (Windowed(s) ==> Windowed(s'))
  {}

  lemma {:induction false} RouseOrderly(s: State, pending: seq<Request>, p: Pick, kept: seq<Request>)
    requires Shaped(s) && Windowed(s) && Roles(s) && AllInRole(pending) && AllInRole(kept)
    ensures Orderly(s, Rouse(s, pending, p, kept))
    decreases |pending|
  {
    hide Submit, Windowed, Opens, InRole, AllAdmitted, AllRefused, SameRecovery;
    if pending == [] {
      KeptOrderly(s, kept);
    } else if Picks(p, pending[0]) {
      var q := Refreshed(p, pending[0], s.epoch);
      RefreshedInRole(p, pending[0], s.epoch);
      var s1 := Submit(s, q);
      SubmitKeepsRest(s, q);
      SameRecoveryOpens(s, s1);
      SubmitOrderly(s, q);
      RouseOrderly(s1, pending[1..], p, kept);
      RouseKeepsRest(s1, pending[1..], p, kept);
      SameRecoveryOpens(s1, Rouse(s1, pending[1..], p, kept));
      OrderlyThen(s, s1, Rouse(s1, pending[1..], p, kept));
    } else {
      RouseOrderly(s, pending[1..], p, kept + [pending[0]]);
    }
  }

  lemma KeptOrderly(s: State, kept: seq<Request>)
    requires Shaped(s) && Roles(s) && AllInRole(kept)
    ensures Orderly(s, s.(waiting := kept + s.waiting))
  {
    hide InRole;
  }

  lemma RefreshedInRole(p: Pick, q: Request, epoch: nat)
    requires InRole(q)
    ensures InRole(Refreshed(p, q, epoch))
  {}

  lemma WakeOrderly(s: State, p: Pick)
    requires Shaped(s) && Windowed(s) && Roles(s)
    ensures Orderly(s, Wake(s, p)) && Opens(s, Wake(s, p))
  {
    hide Rouse, Windowed, InRole, AllAdmitted, AllRefused;
    assert Windowed(s.(waiting := [])) by { WindowElsewhere(s, s.(waiting := [])); }
    RouseOrderly(s.(waiting := []), s.waiting, p, []);
    SameRecoveryOpens(s, Wake(s, p));
  }

  // ---- the callbacks

  lemma OrderlyFrom(s: State, s1: State, s2: State)
    requires Orderly(s1, s2) && s1.running == s.running && s1.answered == s.answered
    ensures Orderly(s, s2)
  {
    hide AllAdmitted, AllRefused, AllInRole;
  }

  lemma RunNextOrderly(s: State)
    requires Shaped(s) && s.superseding.Some? && Roles(s)
    ensures Orderly(s, RunNext(s))
  {
    hide Wake, AllAdmitted, AllRefused, AllInRole, MayRun;
    if s.current.value.done < s.current.value.next {
      OrderlySame(s, s);
    } else {
      var s1 := s.(current := s.superseding, superseding := None);
      WakeOrderly(s1, All);
      ListsOrderly(Wake(s1, All));
      OrderlyThen(s1, Wake(s1, All), RunNext(s));
      OrderlyFrom(s, s1, RunNext(s));
    }
  }

  lemma ListsOrderly(s: State)
    requires Shaped(s) && Roles(s)
    ensures Orderly(s, s.(lists := s.lists + 1)) && Opens(s, s.(lists := s.lists + 1))
  {
    hide InRole;
    OrderlySame(s, s.(lists := s.lists + 1));
  }

  lemma RecoverNextOrderly(s: State)
    requires Shaped(s) && s.current.Some? && Roles(s)
    ensures Orderly(s, RecoverNext(s))
    ensures s.superseding.None? ==> Opens(s, RecoverNext(s)) && RecoverNext(s).superseding.None?
  {
    hide RunNext, AllInRole;
    if s.superseding.Some? { RunNextOrderly(s); } else { OrderlySame(s, RecoverNext(s)); }
  }

  lemma {:induction false} RecoverSomeOrderly(s: State, n: nat)
    requires Shaped(s) && s.current.Some? && s.superseding.None? && Roles(s)
    ensures Orderly(s, RecoverSome(s, n)) && RecoverSome(s, n).superseding.None?
  {
    hide RecoverNext, AllInRole, AllAdmitted, AllRefused, MayRun;
    if n == 0 {
      OrderlySame(s, s);
    } else {
      RecoverSomeOrderly(s, n - 1);
      RecoverNextOrderly(RecoverSome(s, n - 1));
      OrderlyThen(s, RecoverSome(s, n - 1), RecoverSome(s, n));
    }
  }

  lemma ResumeOrderly(s: State)
    requires Shaped(s) && Roles(s)
    ensures Orderly(s, Resume(s))
  {
    hide RecoverNext, AllInRole, AllAdmitted, AllRefused, MayRun;
    if s.current.Some? && s.current.value.suspended {
      var s1 := s.(current := Some(s.current.value.(suspended := false)));
      RecoverNextOrderly(s1);
      OrderlyFrom(s, s1, Resume(s));
    } else {
      OrderlySame(s, s);
    }
  }

  lemma FinishOrderly(s: State)
    requires Shaped(s) && s.superseding.None? && Roles(s)
    ensures Orderly(s, Finish(s)) && Opens(s, Finish(s))
  {
    hide Wake, AllInRole, AllAdmitted, AllRefused;
    var s1 := s.(current := None);
    WakeOrderly(s1, All);
    OrderlyFrom(s, s1, Finish(s));
  }

  lemma ObjDoneOrderly(s: State, oid: nat)
    requires Inv(s) && Roles(s) && oid in s.inFlight
    ensures s.current.Some? && Found(s.current.value.oids, s.current.value.done, s.current.value.next, oid)
    ensures Orderly(s, ObjDone(s, oid))
  {
    hide RunNext, RecoverNext, Finish, Wake, Tracked, Moving, AllExcused, Finished, AllAdmitted, AllRefused, AllInRole;
    hide MayRun, Windowed;
    ShrunkWorking(s, oid);
    var r := Finished(s.current.value, oid);
    var s1 := s.(current := Some(r), inFlight := s.inFlight - multiset{oid});
    if s.superseding.Some? {
      RunNextOrderly(s1);
    } else {
      WakeOrderly(s1, OnOid(oid));
      var s2 := Wake(s1, OnOid(oid));
      if r.done >= r.count { FinishOrderly(s2); } else { RecoverNextOrderly(s2); }
      OrderlyThen(s1, s2, ObjDone(s, oid));
    }
    OrderlyFrom(s, s1, ObjDone(s, oid));
  }

  lemma ListDoneOrderly(s: State, list: seq<nat>, extra: nat)
    requires Inv(s) && Roles(s) && s.lists > 0
    ensures s.current.Some? && s.current.value.next <= |list| && Orderly(s, ListDone(s, list, extra))
  {
    hide RunNext, RecoverSome, Finish, Moving, AllExcused, AllAdmitted, AllRefused, AllInRole, MayRun;
    var r := s.current.value.(phase := RecoverObj, count := |list|, oids := list + [extra], listed := list);
    var s1 := s.(current := Some(r), lists := s.lists - 1);
    if s.superseding.Some? {
      RunNextOrderly(s1);
    } else if |list| == 0 {
      FinishOrderly(s1);
    } else {
      RecoverSomeOrderly(s1, s.threads);
    }
    OrderlyFrom(s, s1, ListDone(s, list, extra));
  }

  lemma DirectDoneOrderly(s: State, oid: nat)
    requires Inv(s) && Roles(s)
    ensures Orderly(s, DirectDone(s, oid))
  {
    hide Wake, Moving, AllExcused, AllAdmitted, AllRefused, AllInRole, Windowed;
    var s1 := s.(direct := s.direct - multiset{oid});
    WindowElsewhere(s, s1);
    WakeOrderly(s1, OnOid(oid));
    OrderlyFrom(s, s1, DirectDone(s, oid));
  }

  lemma StartOrderly(s: State, epoch: nat)
    requires Inv(s) && Roles(s) && s.epoch <= epoch
    ensures Orderly(s, Start(s, epoch))
  {
    hide Resume, Wake, AllAdmitted, AllRefused, AllInRole, MayRun;
    var s1 := s.(epoch := epoch);
    if s.current.Some? {
      var t := s1.(superseding := Some(Fresh(epoch)));
      ResumeKeeps(t);
      ResumeOrderly(t);
      WakeOrderly(Resume(t), OnEpoch);
      OrderlyThen(t, Resume(t), Start(s, epoch));
      OrderlyFrom(s, t, Start(s, epoch));
    } else {
      var t := s1.(current := Some(Fresh(epoch)), lists := s.lists + 1);
      WakeOrderly(t, OnEpoch);
      OrderlyFrom(s, t, Start(s, epoch));
    }
  }

  /** The request whose worker is done no longer runs. */
  ghost function Before(s: State, t: Step): (s': State)
    requires Enabled(s, t)
  {
    if t.WorkerDone? then s.(running := s.running[..t.i] + s.running[t.i + 1..]) else s
  }

  /** The request runs or sleeps, and has not been answered. */
  ghost predicate Tried(s: State, s': State, q: Request) {
    s'.answered == s.answered &&
    ((s'.running == s.running + [q] && s'.waiting == s.waiting) ||
      (s'.running == s.running && s'.waiting == s.waiting + [q]))
  }

  lemma GatewayTried(s: State, q: Request)
    requires Shaped(s) && q.gateway
    ensures Tried(s, Submit(s, q), q.(epoch := s.epoch))
  {
    hide Look;
  }

  /** A gateway request that is to be tried again is not answered; it sleeps for the epoch if its peer has
      one that is newer. */
  lemma RetryNotAnswered(s: State, i: nat, o: Outcome)
    requires Shaped(s) && i < |s.running| && s.running[i].gateway && o != Done
    ensures var s', q := RequestDone(s, i, o), s.running[i];
      var s1 := s.(running := s.running[..i] + s.running[i + 1..]);
      if o.OldVersion? && o.rpEpoch > s.epoch then
        s' == s1.(waiting := s.waiting + [q.(result := OldNodeVer, rpEpoch := o.rpEpoch)])
      else
        Tried(s1, s', q.(epoch := s.epoch))
  {
    hide Submit, Tried;
    GatewayTried(s.(running := s.running[..i] + s.running[i + 1..]), s.running[i]);
  }

  lemma WithoutInRole(qs: seq<Request>, i: nat)
    requires i < |qs| && AllInRole(qs)
    ensures AllInRole(qs[..i] + qs[i + 1..])
  {
    hide InRole;
  }

  lemma RequestDoneOrderly(s: State, i: nat, o: Outcome)
    requires Inv(s) && Roles(s) && i < |s.running| && o != Done && s.running[i].gateway
    ensures Orderly(s.(running := s.running[..i] + s.running[i + 1..]), RequestDone(s, i, o))
  {
    hide Submit, Windowed, AllInRole, AllAdmitted, AllRefused, MayRun, Moving, AllExcused;
    var q, s1 := s.running[i], s.(running := s.running[..i] + s.running[i + 1..]);
    WindowElsewhere(s, s1);
    WithoutInRole(s.running, i);
    GatewayInRole(s.running, i);
    if o.OldVersion? && o.rpEpoch > s.epoch {
      SleepOrderly(s1, RequestDone(s, i, o), q.(result := OldNodeVer, rpEpoch := o.rpEpoch));
    } else {
      SubmitOrderly(s1, q);
    }
  }

  lemma GatewayInRole(qs: seq<Request>, i: nat)
    requires i < |qs| && AllInRole(qs)
    ensures InRole(qs[i])
  {}

  // ---- whole runs

  /** What every step does with requests: one whose worker is done is answered; beside that only requests
      that may run are set to run, and only refusals are answered. */
  lemma NextOrderly(s: State, t: Step)
    requires Inv(s) && Roles(s) && Enabled(s, t)
    ensures Roles(Apply(s, t))
    ensures if t.WorkerDone? && t.outcome == Done
      then Apply(s, t) == Before(s, t).(answered := s.answered + [s.running[t.i]])
      else Orderly(Before(s, t), Apply(s, t))
  {
    hide Start, ListDone, ObjDone, DirectDone, Resume, Submit, Moving, AllExcused, Windowed;
    hide AllInRole, AllAdmitted, AllRefused;
    match t
    case StartRecovery(epoch) => StartOrderly(s, epoch);
    case ListPrepared(list, extra) => ListDoneOrderly(s, list, extra);
    case ObjectRecovered(oid) => ObjDoneOrderly(s, oid);
    case DirectRecovered(oid) => DirectDoneOrderly(s, oid);
    case EnableRecovery => ResumeOrderly(s.(disabled := false)); OrderlyFrom(s, s.(disabled := false), Apply(s, t));
    case NewRequest(q) => SubmitOrderly(s, q);
    case WorkerDone(i, o) => if o == Done { WithoutInRole(s.running, i); } else { RequestDoneOrderly(s, i, o); }
    case StoreChanged(store) => OrderlySame(s, Apply(s, t));
    case DisableRecovery => OrderlySame(s, Apply(s, t));
  }

  /** In every run only gateways wait with an old node version and only peers with a new one. */
  lemma {:induction false} RunRoles(ss: seq<State>, ts: seq<Step>, n: nat)
    requires Run(ss, ts) && n < |ss|
    ensures Inv(ss[n]) && Roles(ss[n])
  {
    hide Apply, Inv;
    RunKeeps(ss, ts, n);
    if n > 0 {
      RunRoles(ss, ts, n - 1);
      assert Enabled(ss[n - 1], ts[n - 1]);
      NextOrderly(ss[n - 1], ts[n - 1]);
    }
  }

  /** In every run, a request that a step sets to run has the epoch that the node then has, unless it is a
      peer request for no object; and unless it is exempt its object is then there, done or not asked for. */
  lemma RunAdmits(ss: seq<State>, ts: seq<Step>, n: nat, k: nat)
    requires Run(ss, ts) && n < |ts| && Enabled(ss[n], ts[n])
    requires |Before(ss[n], ts[n]).running| <= k < |ss[n + 1].running|
    ensures var s, q := ss[n + 1], ss[n + 1].running[k];
      EpochFits(s, q) && Shaped(s) && (!q.exempt && q.oid != 0 ==> MayRun(s, q.oid))
  {
    hide Apply, Inv, AllRefused, AllInRole, MayRun;
    RunRoles(ss, ts, n);
    NextOrderly(ss[n], ts[n]);
    assert Admitted(ss[n + 1], ss[n + 1].running[k]);
  }

  /** In every run, what a step answers beside the work that is done are refusals of an old epoch. */
  lemma RunRefuses(ss: seq<State>, ts: seq<Step>, n: nat, k: nat)
    requires Run(ss, ts) && n < |ts| && !(ts[n].WorkerDone? && ts[n].outcome == Done)
    requires |ss[n].answered| <= k < |ss[n + 1].answered|
    ensures Refused(ss[n + 1], ss[n + 1].answered[k])
  {
    hide Apply, Inv, AllAdmitted, AllInRole;
    RunRoles(ss, ts, n);
    assert Enabled(ss[n], ts[n]);
    NextOrderly(ss[n], ts[n]);
  }

  // ---- what a wakeup is for

  /** A peer request of an epoch that the node has not reached. */
  ghost predicate Ahead(s: State, q: Request) { !q.gateway && q.oid != 0 && q.epoch > s.epoch }

  /** Nobody sleeps on the object any more, but for peers that are ahead. */
  ghost predicate NoneWaits(s: State, qs: seq<Request>, oid: nat) {
    forall i :: 0 <= i < |qs| && qs[i].oid == oid ==> Ahead(s, qs[i])
  }

  lemma SubmitServes(s: State, q: Request, oid: nat)
    requires Shaped(s) && Windowed(s) && MayRun(s, oid) && NoneWaits(s, s.waiting, oid)
    ensures NoneWaits(Submit(s, q), Submit(s, q).waiting, oid)
  {
    hide Windowed, Look, MayRun;
    LookIs(s, q.oid);
    SubmitKeepsRest(s, q);
    assert Submit(s, q).epoch == s.epoch;
  }

  lemma {:induction false} RouseServes(s: State, pending: seq<Request>, p: Pick, kept: seq<Request>, oid: nat)
    requires Shaped(s) && Windowed(s) && MayRun(s, oid) && NoneWaits(s, s.waiting, oid) && NoneWaits(s, kept, oid)
    requires p == All || p == OnOid(oid)
    ensures NoneWaits(Rouse(s, pending, p, kept), Rouse(s, pending, p, kept).waiting, oid)
    decreases |pending|
  {
    hide Submit, Windowed, Shaped;
    if pending != [] {
      if Picks(p, pending[0]) {
        var q := Refreshed(p, pending[0], s.epoch);
        SubmitServes(s, q, oid);
        SubmitKeepsRest(s, q);
        SameRecoveryOpens(s, Submit(s, q));
        RouseServes(Submit(s, q), pending[1..], p, kept, oid);
      } else {
        RouseServes(s, pending[1..], p, kept + [pending[0]], oid);
      }
    }
  }

  lemma WakeServes(s: State, p: Pick, oid: nat)
    requires Shaped(s) && Windowed(s) && MayRun(s, oid) && (p == All || p == OnOid(oid))
    ensures NoneWaits(Wake(s, p), Wake(s, p).waiting, oid)
  {
    hide Rouse, Windowed;
    WindowElsewhere(s, s.(waiting := []));
    RouseServes(s.(waiting := []), s.waiting, p, [], oid);
  }

  /** Once recovery is over nobody sleeps on any object. */
  lemma FinishServes(s: State, oid: nat)
    requires Shaped(s) && s.superseding.None?
    ensures NoneWaits(Finish(s), Finish(s).waiting, oid)
  {
    hide Wake;
    WakeServes(s.(current := None), All, oid);
  }

  lemma FinishedIsDone(s: State, oid: nat)
    requires Inv(s) && oid in s.inFlight && s.superseding.None?
    ensures s.current.Some? && Found(s.current.value.oids, s.current.value.done, s.current.value.next, oid)
    ensures var s1 := s.(current := Some(Finished(s.current.value, oid)), inFlight := s.inFlight - multiset{oid});
      Shaped(s1) && Windowed(s1) && MayRun(s1, oid)
  {
    ShrunkWorking(s, oid);
    var r := Finished(s.current.value, oid);
    assert r.oids[..r.done][r.done - 1] == oid;
  }

  /** The completion of an object, unless another recovery is pending, leaves nobody asleep on it. */
  lemma ObjectServed(s: State, oid: nat)
    requires Inv(s) && oid in s.inFlight && s.superseding.None?
    ensures s.current.Some? && Found(s.current.value.oids, s.current.value.done, s.current.value.next, oid)
    ensures NoneWaits(ObjDone(s, oid), ObjDone(s, oid).waiting, oid)
  {
    hide Wake, Finish, Finished, Windowed, MayRun, Moving, AllExcused;
    FinishedIsDone(s, oid);
    var r := Finished(s.current.value, oid);
    var s1 := s.(current := Some(r), inFlight := s.inFlight - multiset{oid});
    var s2 := Wake(s1, OnOid(oid));
    WakeServes(s1, OnOid(oid), oid);
    if r.done >= r.count { FinishServes(s2, oid); }
  }

  /** So does the completion of a direct recovery that has brought the object; it takes one of the
      outstanding direct recoveries away and adds none for the object. */
  lemma DirectServed(s: State, oid: nat)
    requires Inv(s) && oid in s.direct && oid in s.store
    ensures NoneWaits(DirectDone(s, oid), DirectDone(s, oid).waiting, oid)
    ensures DirectDone(s, oid).direct[oid] == s.direct[oid] - 1
  {
    hide Wake, Windowed, Moving, AllExcused;
    var s1 := s.(direct := s.direct - multiset{oid});
    WindowElsewhere(s, s1);
    WakeServes(s1, OnOid(oid), oid);
    WakeDirect(s1, OnOid(oid), oid);
  }

  lemma SubmitDirect(s: State, q: Request, oid: nat)
    requires Shaped(s) && oid in s.store
    ensures Submit(s, q).direct[oid] == s.direct[oid]
  {}

  lemma {:induction false} RouseDirect(s: State, pending: seq<Request>, p: Pick, kept: seq<Request>, oid: nat)
    requires Shaped(s) && oid in s.store
    ensures Rouse(s, pending, p, kept).direct[oid] == s.direct[oid]
    decreases |pending|
  {
    hide Submit;
    if pending != [] {
      if Picks(p, pending[0]) {
        var q := Refreshed(p, pending[0], s.epoch);
        SubmitDirect(s, q, oid);
        SubmitKeepsRest(s, q);
        RouseDirect(Submit(s, q), pending[1..], p, kept, oid);
      } else {
        RouseDirect(s, pending[1..], p, kept + [pending[0]], oid);
      }
    }
  }

  lemma WakeDirect(s: State, p: Pick, oid: nat)
    requires Shaped(s) && oid in s.store
    ensures Wake(s, p).direct[oid] == s.direct[oid]
  {
    RouseDirect(s.(waiting := []), s.waiting, p, [], oid);
  }

  /** The request does not sleep for what p wakes for. */
  ghost predicate Undisturbed(p: Pick, q: Request) {
    match p
    case OnEpoch => q.result == Unset
    case OnOid(oid) => q.oid != oid
    case All => false
  }

  lemma PicksTheRest(p: Pick, q: Request)
    ensures Picks(p, q) <==> !Undisturbed(p, q)
  {}

  ghost function Undisturbeds(p: Pick, qs: seq<Request>): (r: seq<Request>) {
    if qs == [] then [] else (if Undisturbed(p, qs[0]) then [qs[0]] else []) + Undisturbeds(p, qs[1..])
  }

  lemma {:induction false} RouseOrder(s: State, pending: seq<Request>, p: Pick, kept: seq<Request>)
    requires Shaped(s)
    ensures kept + Undisturbeds(p, pending) <= Rouse(s, pending, p, kept).waiting
    decreases |pending|
  {
    hide Submit, Refreshed, Picks, Undisturbed;
    if pending != [] { PicksTheRest(p, pending[0]); }
    if pending == [] {
      assert kept + Undisturbeds(p, pending) == kept;
    } else if Picks(p, pending[0]) {
      var q := Refreshed(p, pending[0], s.epoch);
      assert Shaped(Submit(s, q)) by { SubmitKeepsRest(s, q); }
      RouseOrder(Submit(s, q), pending[1..], p, kept);
      assert Undisturbeds(p, pending) == Undisturbeds(p, pending[1..]);
    } else {
      RouseOrder(s, pending[1..], p, kept + [pending[0]]);
      assert kept + Undisturbeds(p, pending) == kept + [pending[0]] + Undisturbeds(p, pending[1..]);
    }
  }

  /** Those a wakeup does not pick sleep on as they were, in order, ahead of those that go back to sleep. */
  lemma WakeOrder(s: State, p: Pick)
    requires Shaped(s)
    ensures Undisturbeds(p, s.waiting) <= Wake(s, p).waiting
  {
    RouseOrder(s.(waiting := []), s.waiting, p, []);
  }

  // ---- how much is at work

  /** s' has n objects more in flight than s. */
  ghost predicate Started(s: State, s': State, n: nat) {
    s.current.Some? && s'.current.Some? && s'.superseding.None? && !s'.disabled &&
    s'.current.value.count == s.current.value.count && s'.current.value.oids == s.current.value.oids &&
    s'.current.value.next == s.current.value.next + n && |s'.inFlight| == |s.inFlight| + n
  }

  lemma RecoverNextCount(s: State, s1: State, n: nat)
    requires Shaped(s) && Shaped(s1) && Started(s, s1, n)
    ensures Started(s, RecoverNext(s1), if s1.current.value.next < s1.current.value.count then n + 1 else n)
  {}

  lemma {:induction false} RecoverSomeCount(s: State, n: nat)
    requires Shaped(s) && s.current.Some? && s.superseding.None? && !s.disabled
    ensures var r := s.current.value;
      Started(s, RecoverSome(s, n), if r.next + n < r.count then n else r.count - r.next)
  {
    hide RecoverNext;
    if n > 0 {
      var r := s.current.value;
      RecoverSomeCount(s, n - 1);
      RecoverNextCount(s, RecoverSome(s, n - 1), if r.next + (n - 1) < r.count then n - 1 else r.count - r.next);
    }
  }

  /** With the list at hand as many objects go in flight as there are threads, or all of them. */
  lemma ListStarts(s: State, list: seq<nat>, extra: nat)
    requires Inv(s) && s.lists > 0 && s.superseding.None? && !s.disabled && list != []
    ensures s.current.Some? && s.current.value.next <= |list|
    ensures |ListDone(s, list, extra).inFlight| == if s.threads < |list| then s.threads else |list|
  {
    hide RecoverSome, AllExcused, Moving;
    var r := s.current.value.(phase := RecoverObj, count := |list|, oids := list + [extra], listed := list);
    RecoverSomeCount(s.(current := Some(r), lists := s.lists - 1), s.threads);
  }

  /** Each completion is followed by the next object, until there is none. */
  lemma ObjectRefills(s: State, oid: nat)
    requires Inv(s) && oid in s.inFlight && s.superseding.None? && !s.disabled
    ensures s.current.Some? && Found(s.current.value.oids, s.current.value.done, s.current.value.next, oid)
    ensures |ObjDone(s, oid).inFlight| == |s.inFlight| - if s.current.value.next < s.current.value.count then 0 else 1
  {
    hide Wake, Finished, AllExcused, Moving, Windowed;
    ShrunkWorking(s, oid);
    FinishedCounts(s.current.value, oid);
  }

  lemma FinishedCounts(r: Rinfo, oid: nat)
    requires Sized(r) && Found(r.oids, r.done, r.next, oid)
    ensures var r' := Finished(r, oid); r'.next == r.next && r'.count == r.count && r'.done == r.done + 1
  {}

  /** A start leaves the node at the new epoch, with a recovery for it under way or pending. */
  lemma StartAsks(s: State, epoch: nat)
    requires Inv(s) && s.epoch <= epoch
    ensures var s' := Start(s, epoch);
      s'.epoch == epoch && s'.current.Some? &&
      (if s'.superseding.Some? then s'.superseding.value else s'.current.value) == Fresh(epoch) &&
      (s.current.Some? && s.current.value.phase == PrepareList ==> s'.current == s.current)
  {
    hide Wake;
  }
}
