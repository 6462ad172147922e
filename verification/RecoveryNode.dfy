/** The callbacks of recovery.c and request.c as methods that update the node's fields, each proved
    to take the step of the state machine that carries its name. */
module RecoveryNode {
  import opened Options
  import opened Recovery
  import opened RecoveryGate

  /** xlfind() on oids[lo..hi) */
  method Lfind(oids: seq<nat>, lo: nat, hi: nat, oid: nat) returns (p: Option<nat>)
    requires lo <= hi <= |oids|
    ensures p.Some? <==> Found(oids, lo, hi, oid)
    ensures p.Some? ==> p.value == SlotOf(oids, lo, hi, oid)
  {
    var i := lo;
    while i < hi
      invariant lo <= i <= hi
      invariant Found(oids, lo, hi, oid) <==> Found(oids, i, hi, oid)
      invariant Found(oids, i, hi, oid) ==> SlotOf(oids, lo, hi, oid) == SlotOf(oids, i, hi, oid)
    {
      if oids[i] == oid {
        assert oids[i..hi][0] == oid;
        return Some(i);
      }
      assert oids[i..hi] == [oids[i]] + oids[i + 1..hi];
      i := i + 1;
    }
    return None;
  }

  /** The completions come in any order: the finished object changes places with the first of the
      window. */
  method TakeFromWindow(r: Rinfo, oid: nat) returns (r': Rinfo)
    requires Sized(r) && Found(r.oids, r.done, r.next, oid)
    ensures r' == Finished(r, oid)
  {
    r' := r;
    if r.oids[r.done] != oid {
      var p := Lfind(r.oids, r.done, r.next, oid);
      r' := r.(oids := r.oids[p.value := r.oids[r.done]][r.done := oid]);
    } else {
      assert SlotOf(r.oids, r.done, r.next, oid) == r.done;
    }
    r' := r'.(done := r'.done + 1);
  }

  class Node {
    var current: Option<Rinfo>
    var superseding: Option<Rinfo>
    var lists: nat
    var inFlight: multiset<nat>
    var direct: multiset<nat>
    var waiting: seq<Request>
    var running: seq<Request>
    var answered: seq<Request>
    var store: set<nat>
    var epoch: nat
    var disabled: bool
    var threads: nat

    ghost function View(): (s: State)
      reads this
    {
      State(current, superseding, lists, inFlight, direct, waiting, running, answered, store, epoch, disabled, threads)
    }

    constructor (epoch: nat, threads: nat, store: set<nat>)
      requires threads > 0
      ensures Initial(View()) && Inv(View()) && this.epoch == epoch && this.threads == threads && this.store == store
    {
      current, superseding, lists, inFlight, direct := None, None, 0, multiset{}, multiset{};
      waiting, running, answered := [], [], [];
      this.store, this.epoch, this.disabled, this.threads := store, epoch, false, threads;
    }

    // ---- request.c

    method OidInRecovery(oid: nat) returns (waits: bool)
      requires Shaped(View())
      modifies this`direct
      ensures waits <==> Look(old(View()), oid) != Recovered
      ensures direct == if Look(old(View()), oid) == WaitDirect then old(direct) + multiset{oid} else old(direct)
      ensures old(Windowed(View())) ==>
        (waits <==> !MayRun(old(View()), oid)) &&
        direct == if NeedsDirect(old(View()), oid) then old(direct) + multiset{oid} else old(direct)
    {
      if Windowed(View()) { LookIs(View(), oid); }
      if current.None? { return false; }
      if oid in store { return false; }
      if superseding.Some? { return true; }
      var r := current.value;
      if r.phase == RecoverObj {
        var p := Lfind(r.oids, 0, r.done, oid);
        if p.Some? { return false; }
        p := Lfind(r.oids, r.done, r.next, oid);
        if p.Some? {
          if !r.suspended { return true; }
        } else {
          p := Lfind(r.oids, r.next, r.count + 1, oid);
          if p.None? { return false; }
        }
      }
      direct := direct + multiset{oid};
      return true;
    }

    method QueueLocal(q: Request)
      requires Shaped(View())
      modifies this
      ensures View() == SubmitLocal(old(View()), q)
    {
      hide Look, MayRun, NeedsDirect, Windowed, Shaped;
      if !q.exempt {
        var waits := OidInRecovery(q.oid);
        if waits {
          waiting := waiting + [q];
          return;
        }
      }
      running := running + [q];
    }

    /** The request is asleep, running or answered, once; if it sleeps, something outstanding will wake
        it; and nobody else is disturbed. */
    method QueueRequest(q: Request)
      requires Shaped(View())
      modifies this
      ensures View() == Submit(old(View()), q)
      ensures SameRecovery(old(View()), View()) && Census(View()) == old(Census(View())) + multiset{q.id}
      ensures old(Inv(View())) ==> Inv(View())
      ensures answered == if !q.gateway && q.oid != 0 && q.epoch < epoch
        then old(answered) + [q.(result := OldNodeVer, rpEpoch := epoch)] else old(answered)
      ensures !q.gateway && q.oid != 0 && q.epoch > epoch ==>
        running == old(running) && waiting == old(waiting) + [q.(result := NewNodeVer)]
      ensures old(Windowed(View())) && (q.gateway || q.oid == 0 || q.epoch == epoch) ==>
        (running != old(running) <==> q.oid == 0 || q.exempt || MayRun(old(View()), q.oid))
      ensures running != old(running) ==> running == old(running) + [if q.gateway then q.(epoch := epoch) else q]
      ensures old(Windowed(View()) && Roles(View())) && InRole(q) ==> Orderly(old(View()), View())
    {
      hide SubmitLocal, Census, Inv, Windowed, Roles, InRole, Orderly, MayRun;
      if Windowed(View()) { SubmitByEpoch(View(), q); }
      SubmitAnswers(View(), q);
      if Windowed(View()) && Roles(View()) && InRole(q) { SubmitOrderly(View(), q); }
      SubmitKeepsRest(View(), q);
      SubmitCensus(View(), q);
      if Inv(View()) { SubmitKeeps(View(), q); }
      if q.gateway {
        var q1 := q.(epoch := epoch);
        if q.oid == 0 { running := running + [q1]; } else { QueueLocal(q1); }
      } else if q.oid == 0 {
        running := running + [q];
      } else if q.epoch < epoch {
        answered := answered + [q.(result := OldNodeVer, rpEpoch := epoch)];
      } else if q.epoch > epoch {
        waiting := waiting + [q.(result := NewNodeVer)];
      } else {
        QueueLocal(q);
      }
    }

    /** The three wakeup routines, which differ in the requests they pick. */
    method Wakeup(p: Pick)
      requires Shaped(View())
      modifies this
      ensures View() == Wake(old(View()), p)
    {
      hide Submit, Inv, Census, Refreshed, Picks;
      var pending, kept := waiting, [];
      waiting := [];
      var i := 0;
      while i < |pending|
        invariant 0 <= i <= |pending| && Shaped(View())
        invariant Rouse(View(), pending[i..], p, kept) == Wake(old(View()), p)
      {
        var q := pending[i];
        assert pending[i..][1..] == pending[i + 1..];
        if Picks(p, q) {
          SubmitKeepsRest(View(), Refreshed(p, q, epoch));
          QueueRequest(Refreshed(p, q, epoch));
        } else {
          kept := kept + [q];
        }
        i := i + 1;
      }
      waiting := kept + waiting;
    }

    // ---- recovery.c

    /** The pending recovery takes over if and only if the window is empty, and then everybody has been
        woken; no request is lost, and with the list at hand the invariant holds again. */
    method RunNextRw() returns (pending: bool)
      requires Shaped(View())
      modifies this
      ensures pending <==> old(superseding).Some?
      ensures View() == if pending then RunNext(old(View())) else old(View())
      ensures pending ==>
        if old(current.value.done == current.value.next) then current == old(superseding) && superseding.None?
          else current == old(current)
      ensures Census(View()) == old(Census(View()))
      ensures pending && old(Working(View()) && !current.value.suspended) ==> Inv(View())
    {
      hide Census, Inv, Wake;
      ghost var s := View();
      if superseding.Some? {
        RunNextCensus(s);
        RunNextParts(s);
        if Working(s) && !current.value.suspended { RunNextKeeps(s); }
      }
      if superseding.None? { return false; }
      if current.value.done < current.value.next { return true; }
      current, superseding := superseding, None;
      Wakeup(All);
      lists := lists + 1;
      return true;
    }

    /** Nothing is being recovered, nobody waits for an object in vain, and no request is lost. */
    method FinishRecovery()
      requires Shaped(View()) && superseding.None?
      modifies this
      ensures View() == Finish(old(View()))
      ensures current.None? && Census(View()) == old(Census(View()))
      ensures old(lists == 0 && inFlight == multiset{}) ==> Inv(View())
    {
      hide Census, Inv, Wake;
      FinishCensus(View());
      if lists == 0 && inFlight == multiset{} { FinishKeeps(View()); }
      current := None;
      Wakeup(All);
    }

    /** While objects are left the invariant holds again: the next one is in flight, or recovery is
        suspended, or the pending one has taken over; no request is lost. */
    method RecoverNextObject()
      requires Shaped(View()) && current.Some?
      modifies this
      ensures View() == RecoverNext(old(View()))
      ensures Census(View()) == old(Census(View()))
      ensures old(AtWork(View())) ==> Inv(View())
    {
      hide RunNext, Census, Inv, AtWork;
      ghost var s := View();
      RecoverNextCensus(s);
      if AtWork(s) { AtWorkKeeps(s); }
      var pending := RunNextRw();
      if pending { return; }
      var r := current.value;
      if disabled {
        current := Some(r.(suspended := true));
        return;
      }
      if r.next >= r.count { return; }
      inFlight := inFlight + multiset{r.oids[r.next]};
      current := Some(r.(next := r.next + 1));
    }

    /** A suspended recovery has work in flight again, or gives way to a pending one; no request is
        lost. */
    method ResumeSuspendedRecovery()
      requires Shaped(View())
      modifies this
      ensures View() == Resume(old(View()))
      ensures Census(View()) == old(Census(View()))
      ensures old(Inv(View())) ==> Inv(View())
      ensures old(Inv(View())) && current.Some? && current.value.phase == RecoverObj && !old(disabled) ==>
        inFlight != multiset{}
    {
      hide RecoverNext, Census;
      ghost var s := View();
      ResumeCensus(s);
      if Inv(s) { ResumeMoves(s); }
      if current.Some? && current.value.suspended {
        current := Some(current.value.(suspended := false));
        RecoverNextObject();
      }
    }

    /** Completion of one object's recovery, in any order; its place in the window is always found. */
    method RecoverObjectMain(oid: nat)
      requires Inv(View()) && oid in inFlight
      modifies this
      ensures Inv(View()) && Enabled(old(View()), ObjectRecovered(oid))
      ensures View() == Apply(old(View()), ObjectRecovered(oid))
    {
      hide RunNext, RecoverNext, Finish, Finished, Wake, AllExcused, Windowed, Census, AtWork, Working;
      ObjDoneKeeps(View(), oid);
      var r := TakeFromWindow(current.value, oid);
      current, inFlight := Some(r), inFlight - multiset{oid};
      var pending := RunNextRw();
      if pending { return; }
      Wakeup(OnOid(oid));
      if r.done >= r.count { FinishRecovery(); } else { RecoverNextObject(); }
    }

    method FinishObjectList(list: seq<nat>, extra: nat)
      requires Inv(View()) && lists > 0
      modifies this
      ensures Inv(View()) && Enabled(old(View()), ListPrepared(list, extra))
      ensures View() == Apply(old(View()), ListPrepared(list, extra))
    {
      hide RunNext, RecoverNext, Finish, AllExcused, Windowed, Census, AtWork, Working;
      ListDoneKeeps(View(), list, extra);
      ghost var s0 := View();
      current := Some(current.value.(phase := RecoverObj, count := |list|, oids := list + [extra], listed := list));
      lists := lists - 1;
      var pending := RunNextRw();
      if pending { return; }
      if |list| == 0 {
        FinishRecovery();
        return;
      }
      ghost var s1 := View();
      for i := 0 to threads
        invariant Shaped(View()) && current.Some? && View() == RecoverSome(s1, i) && threads == s0.threads
      {
        RecoverNextObject();
        RecoverNextThreads(RecoverSome(s1, i));
      }
    }

    method DirectRecoverObjectMain(oid: nat)
      requires Inv(View()) && oid in direct
      modifies this
      ensures Inv(View()) && Enabled(old(View()), DirectRecovered(oid))
      ensures View() == Apply(old(View()), DirectRecovered(oid))
    {
      hide Wake, AllExcused, Windowed;
      DirectDoneKeeps(View(), oid);
      direct := direct - multiset{oid};
      Wakeup(OnOid(oid));
    }

    method StartRecoveryAt(newEpoch: nat)
      requires Inv(View()) && newEpoch >= epoch
      modifies this
      ensures Inv(View()) && Enabled(old(View()), StartRecovery(newEpoch))
      ensures View() == Apply(old(View()), StartRecovery(newEpoch))
    {
      hide Wake, Resume, AllExcused, Windowed, Census;
      StartKeeps(View(), newEpoch);
      epoch := newEpoch;
      if current.Some? {
        superseding := Some(Fresh(newEpoch));
        ResumeSuspendedRecovery();
      } else {
        current, lists := Some(Fresh(newEpoch)), lists + 1;
      }
      Wakeup(OnEpoch);
    }
  }

  lemma RunNextParts(s: State)
    requires Shaped(s) && s.superseding.Some?
    ensures if s.current.value.done == s.current.value.next then RunNext(s).current == s.superseding &&
      RunNext(s).superseding.None?
      else RunNext(s).current == s.current
  {
    hide Wake;
  }

  /** At the point of asking for more work, with objects left. */
  ghost predicate AtWork(s: State) {
    Working(s) && AllExcused(s, s.waiting) && s.current.value.done < s.current.value.count &&
    (s.superseding.Some? ==> !s.current.value.suspended)
  }

  lemma AtWorkKeeps(s: State)
    requires AtWork(s)
    ensures Inv(RecoverNext(s))
  {
    hide RecoverNext;
    RecoverNextKeeps(s);
  }

  lemma Busy(s: State)
    requires Inv(s) && s.current.Some? && s.current.value.phase == RecoverObj && !s.current.value.suspended
    ensures s.inFlight != multiset{}
  {
    var r := s.current.value;
    assert r.oids[r.done] in multiset(r.oids[r.done..r.next]);
  }

  lemma Awake(s: State)
    requires Shaped(s) && !s.disabled
    ensures Resume(s).current.Some? && Resume(s).disabled == s.disabled ==> !Resume(s).current.value.suspended
  {
    hide Wake;
  }

  lemma ResumeMoves(s: State)
    requires Inv(s)
    ensures Inv(Resume(s))
    ensures Resume(s).current.Some? && Resume(s).current.value.phase == RecoverObj && !s.disabled ==>
      Resume(s).inFlight != multiset{}
  {
    hide AllExcused, Excused, Resume, Windowed;
    if s.current.Some? {
      ResumeKeeps(s);
      ResumeDisabled(s);
      if Resume(s).current.Some? && Resume(s).current.value.phase == RecoverObj && !s.disabled {
        Awake(s);
        Busy(Resume(s));
      }
    } else {
      ResumeNothing(s);
    }
  }

  lemma ResumeNothing(s: State)
    requires Shaped(s) && s.current.None?
    ensures Resume(s) == s
  {}

  lemma ResumeDisabled(s: State)
    requires Shaped(s)
    ensures Resume(s).disabled == s.disabled
  {
    hide Wake;
  }

  lemma RecoverNextThreads(s: State)
    requires Shaped(s) && s.current.Some?
    ensures RecoverNext(s).threads == s.threads
  {
    hide Wake;
  }
}
