/** The recovery state machine of one node (sheep/recovery.c) and the queue of requests that wait
    for it (sheep/request.c). Every callback of the main thread is one atomic step; the workers'
    completions arrive in any order. */
module Recovery {
  import opened Options

  datatype Phase = PrepareList | RecoverObj

  /** struct recovery_info; `listed` is the list the recovery was given, `oids` the buffer that
      holds it and at least one slot more. */
  datatype Rinfo = Rinfo(phase: Phase, done: nat, next: nat, count: nat, oids: seq<nat>, suspended: bool,
                         listed: seq<nat>, epoch: nat)

  datatype Result = Unset | OldNodeVer | NewNodeVer

  /** `oid` is local_oid, 0 when the object is not kept here; `exempt` are the create and recovery
      requests, which never wait for recovery. */
  datatype Request = Request(id: nat, oid: nat, gateway: bool, exempt: bool, epoch: nat, result: Result, rpEpoch: nat)

  datatype State = State(
    current: Option<Rinfo>, superseding: Option<Rinfo>,
    lists: nat, inFlight: multiset<nat>, direct: multiset<nat>,
    waiting: seq<Request>, running: seq<Request>, answered: seq<Request>,
    store: set<nat>, epoch: nat, disabled: bool, threads: nat)

  /** A recovery for an epoch that has not begun. */
  function Fresh(epoch: nat): (r: Rinfo) { Rinfo(PrepareList, 0, 0, 0, [0], false, [], epoch) }

  ghost predicate IsFresh(r: Rinfo) { r == Fresh(r.epoch) }

  // ---- submitting a request

  datatype Answer = Recovered | Wait | WaitDirect

  /** Linear search in oids[lo..hi). */
  ghost predicate Found(oids: seq<nat>, lo: nat, hi: nat, oid: nat)
    requires lo <= hi <= |oids|
  {
    oid in oids[lo..hi]
  }

  ghost predicate Sized(r: Rinfo) { r.done <= r.next <= r.count < |r.oids| }

  ghost predicate Shaped(s: State) {
    s.threads > 0 && (s.current.Some? ==> Sized(s.current.value)) &&
    (s.superseding.Some? ==> s.current.Some? && IsFresh(s.superseding.value))
  }

  /** oid_in_recovery(), with the last search up to `beyond` slots beyond the list. */
  ghost function LookUpTo(s: State, oid: nat, beyond: nat): (a: Answer)
    requires Shaped(s) && beyond <= 1
  {
    if s.current.None? || oid in s.store then Recovered
    else if s.superseding.Some? then Wait
    else
      var r := s.current.value;
      if r.phase == PrepareList then WaitDirect
      else if Found(r.oids, 0, r.done, oid) then Recovered
      else if Found(r.oids, r.done, r.next, oid) then (if r.suspended then WaitDirect else Wait)
      else if Found(r.oids, r.next, r.count + beyond, oid) then WaitDirect
      else Recovered
  }

  /** As written it covers one slot more. */
  ghost function Look(s: State, oid: nat): (a: Answer)
    requires Shaped(s)
  {
    LookUpTo(s, oid, 1)
  }

  ghost function Sleep(s: State, q: Request): (s': State) { s.(waiting := s.waiting + [q]) }
  ghost function Dispatch(s: State, q: Request): (s': State) { s.(running := s.running + [q]) }
  ghost function Respond(s: State, q: Request): (s': State) { s.(answered := s.answered + [q]) }

  ghost function SubmitLocal(s: State, q: Request): (s': State)
    requires Shaped(s)
  {
    if q.exempt then Dispatch(s, q)
    else match Look(s, q.oid)
      case Recovered => Dispatch(s, q)
      case Wait => Sleep(s, q)
      case WaitDirect => Sleep(s.(direct := s.direct + multiset{q.oid}), q)
  }

  ghost function SubmitGateway(s: State, q: Request): (s': State)
    requires Shaped(s)
  {
    if q.oid == 0 then Dispatch(s, q) else SubmitLocal(s, q)
  }

  /** queue_request(): a gateway request takes the epoch of the node, a peer request must have it. */
  ghost function Submit(s: State, q: Request): (s': State)
    requires Shaped(s)
  {
    if q.gateway then SubmitGateway(s, q.(epoch := s.epoch))
    else if q.oid == 0 then Dispatch(s, q)
    else if q.epoch < s.epoch then Respond(s, q.(result := OldNodeVer, rpEpoch := s.epoch))
    else if q.epoch > s.epoch then Sleep(s, q.(result := NewNodeVer))
    else SubmitLocal(s, q)
  }

  // ---- waking requests

  datatype Pick = OnEpoch | OnOid(oid: nat) | All

  predicate Picks(p: Pick, q: Request) {
    match p
    case OnEpoch => q.result != Unset
    case OnOid(oid) => q.oid == oid
    case All => true
  }

  /** On an epoch change a gateway retries with the new epoch. */
  function Refreshed(p: Pick, q: Request, epoch: nat): (r: Request)
    ensures r.id == q.id
  {
    if p == OnEpoch && q.result == OldNodeVer then q.(epoch := epoch) else q
  }

  /** Walk through the requests that were waiting; those picked are submitted again at once and may
      go back to sleep, behind the ones that were not picked. */
  ghost function Rouse(s: State, pending: seq<Request>, p: Pick, kept: seq<Request>): (s': State)
    requires Shaped(s)
    decreases |pending|
  {
    if pending == [] then s.(waiting := kept + s.waiting)
    else if Picks(p, pending[0]) then
      SubmitKeepsRest(s, Refreshed(p, pending[0], s.epoch));
      Rouse(Submit(s, Refreshed(p, pending[0], s.epoch)), pending[1..], p, kept)
    else Rouse(s, pending[1..], p, kept + [pending[0]])
  }

  ghost function Wake(s: State, p: Pick): (s': State)
    requires Shaped(s)
    ensures SameRecovery(s, s')
  {
    RouseKeepsRest(s.(waiting := []), s.waiting, p, []);
    Rouse(s.(waiting := []), s.waiting, p, [])
  }

  /** Only the queues and the direct recoveries change. */
  ghost predicate SameRecovery(s: State, s': State) {
    s'.current == s.current && s'.superseding == s.superseding && s'.lists == s.lists && s'.inFlight == s.inFlight &&
    s'.store == s.store && s'.epoch == s.epoch && s'.disabled == s.disabled && s'.threads == s.threads &&
    s.direct <= s'.direct
  }

  lemma SubmitLocalKeepsRest(s: State, q: Request)
    requires Shaped(s)
    ensures SameRecovery(s, SubmitLocal(s, q))
  {
    hide Look;
  }

  lemma SubmitKeepsRest(s: State, q: Request)
    requires Shaped(s)
    ensures SameRecovery(s, Submit(s, q))
  {
    hide SubmitLocal;
    SubmitLocalKeepsRest(s, q); SubmitLocalKeepsRest(s, q.(epoch := s.epoch));
  }

  lemma {:induction false} RouseKeepsRest(s: State, pending: seq<Request>, p: Pick, kept: seq<Request>)
    requires Shaped(s)
    ensures SameRecovery(s, Rouse(s, pending, p, kept))
    decreases |pending|
  {
    if pending != [] {
      if Picks(p, pending[0]) {
        var q := Refreshed(p, pending[0], s.epoch);
        SubmitKeepsRest(s, q);
        RouseKeepsRest(Submit(s, q), pending[1..], p, kept);
      } else {
        RouseKeepsRest(s, pending[1..], p, kept + [pending[0]]);
      }
    }
  }

  // ---- the callbacks

  /** run_next_rw(): the superseding recovery takes over once nothing is in flight. */
  ghost function RunNext(s: State): (s': State)
    requires Shaped(s) && s.superseding.Some?
    ensures Shaped(s') && s'.current.Some?
  {
    if s.current.value.done < s.current.value.next then s
    else
      var woken := Wake(s.(current := s.superseding, superseding := None), All);
      woken.(lists := woken.lists + 1)
  }

  ghost function RecoverNext(s: State): (s': State)
    requires Shaped(s) && s.current.Some?
    ensures Shaped(s') && s'.current.Some?
  {
    var r := s.current.value;
    if s.superseding.Some? then RunNext(s)
    else if s.disabled then s.(current := Some(r.(suspended := true)))
    else if r.next >= r.count then s
    else s.(inFlight := s.inFlight + multiset{r.oids[r.next]}, current := Some(r.(next := r.next + 1)))
  }

  ghost function RecoverSome(s: State, n: nat): (s': State)
    requires Shaped(s) && s.current.Some?
    ensures Shaped(s') && s'.current.Some?
  {
    if n == 0 then s else RecoverNext(RecoverSome(s, n - 1))
  }

  ghost function Resume(s: State): (s': State)
    requires Shaped(s)
    ensures Shaped(s') && (s.current.Some? ==> s'.current.Some?)
  {
    if s.current.Some? && s.current.value.suspended
      then RecoverNext(s.(current := Some(s.current.value.(suspended := false)))) else s
  }

  ghost function Finish(s: State): (s': State)
    requires Shaped(s) && s.superseding.None?
    ensures Shaped(s') && s'.current.None?
  {
    Wake(s.(current := None), All)
  }

  /** Where the search in oids[lo..hi) finds the object. */
  ghost function SlotOf(oids: seq<nat>, lo: nat, hi: nat, oid: nat): (p: nat)
    requires lo <= hi <= |oids| && Found(oids, lo, hi, oid)
    ensures lo <= p < hi && oids[p] == oid
    decreases hi - lo
  {
    if oids[lo] == oid then lo else assert oids[lo..hi] == [oids[lo]] + oids[lo + 1..hi]; SlotOf(oids, lo + 1, hi, oid)
  }

  /** The finished object is exchanged with the first of the window, which then shrinks. */
  ghost function Finished(r: Rinfo, oid: nat): (r': Rinfo)
    requires Sized(r) && Found(r.oids, r.done, r.next, oid)
    ensures Sized(r')
  {
    var p := SlotOf(r.oids, r.done, r.next, oid);
    r.(oids := r.oids[p := r.oids[r.done]][r.done := oid], done := r.done + 1)
  }

  /** recover_object_main() */
  ghost function ObjDone(s: State, oid: nat): (s': State)
    requires Shaped(s) && s.current.Some?
    requires Found(s.current.value.oids, s.current.value.done, s.current.value.next, oid)
    ensures Shaped(s')
  {
    var r := Finished(s.current.value, oid);
    var s1 := s.(current := Some(r), inFlight := s.inFlight - multiset{oid});
    if s.superseding.Some? then RunNext(s1)
    else
      var s2 := Wake(s1, OnOid(oid));
      if r.done >= r.count then Finish(s2) else RecoverNext(s2)
  }

  /** finish_object_list() without the disk-full cancel; `extra` is the slot after the list. */
  ghost function ListDone(s: State, list: seq<nat>, extra: nat): (s': State)
    requires Shaped(s) && s.current.Some? && s.lists > 0 && s.current.value.next <= |list|
    ensures Shaped(s')
  {
    var r := s.current.value.(phase := RecoverObj, count := |list|, oids := list + [extra], listed := list);
    var s1 := s.(current := Some(r), lists := s.lists - 1);
    if s.superseding.Some? then RunNext(s1)
    else if |list| == 0 then Finish(s1)
    else RecoverSome(s1, s.threads)
  }

  /** direct_recover_object_main() */
  ghost function DirectDone(s: State, oid: nat): (s': State)
    requires Shaped(s)
    ensures Shaped(s')
  {
    Wake(s.(direct := s.direct - multiset{oid}), OnOid(oid))
  }

  /** start_recovery() at a possibly new epoch. */
  ghost function Start(s: State, epoch: nat): (s': State)
    requires Shaped(s)
    ensures Shaped(s')
  {
    var s1 := s.(epoch := epoch);
    Wake(if s.current.Some? then Resume(s1.(superseding := Some(Fresh(epoch))))
      else s1.(current := Some(Fresh(epoch)), lists := s.lists + 1), OnEpoch)
  }

  datatype Outcome = Done | Retry | OldVersion(rpEpoch: nat)

  /** The worker of running[i] is done; a gateway may have to try again, or to wait for the epoch
      its peer has already reached. */
  ghost function RequestDone(s: State, i: nat, o: Outcome): (s': State)
    requires Shaped(s) && i < |s.running|
    ensures Shaped(s')
  {
    var q := s.running[i];
    var s1 := s.(running := s.running[..i] + s.running[i + 1..]);
    SubmitKeepsRest(s1, q);
    match o
    case Done => Respond(s1, q)
    case Retry => Submit(s1, q)
    case OldVersion(e) => if e > s.epoch then Sleep(s1, q.(result := OldNodeVer, rpEpoch := e)) else Submit(s1, q)
  }

  // ---- what holds in every state

  ghost predicate Windowed(s: State) {
    s.current.Some? && Sized(s.current.value) && s.current.value.phase == RecoverObj ==>
      var r := s.current.value;
      s.inFlight == multiset(r.oids[r.done..r.next]) && multiset(r.oids[..r.count]) == multiset(r.listed)
  }

  /** Work is outstanding for the list, or for exactly the objects of the window. */
  ghost predicate Tracked(s: State) {
    Shaped(s) && Windowed(s) &&
    match s.current
    case None => s.lists == 0 && s.inFlight == multiset{}
    case Some(r) =>
      if r.phase == PrepareList then s.lists == 1 && s.inFlight == multiset{} && IsFresh(r)
      else s.lists == 0 && r.done < r.count
  }

  /** Unless it is suspended, recovery has something in flight; it is not left suspended when
      another recovery is pending. */
  ghost predicate Moving(s: State) {
    s.current.Some? && s.current.value.phase == RecoverObj ==>
      if s.current.value.suspended then s.superseding.None? else s.current.value.done < s.current.value.next
  }

  ghost predicate WaitsForEpoch(s: State, q: Request) {
    (q.result == NewNodeVer && q.epoch > s.epoch) || (q.result == OldNodeVer && q.rpEpoch > s.epoch)
  }

  /** Something outstanding will wake the request. */
  ghost predicate Excused(s: State, q: Request) {
    WaitsForEpoch(s, q) || q.oid in s.inFlight || q.oid in s.direct || s.superseding.Some?
  }

  ghost predicate AllExcused(s: State, qs: seq<Request>) {
    forall i :: 0 <= i < |qs| ==> Excused(s, qs[i])
  }

  ghost predicate Inv(s: State) {
    Tracked(s) && Moving(s) && AllExcused(s, s.waiting)
  }

  // ---- the slot too many

  /** The object is one that recovery was not asked for, and the slot behind the list happens to hold it. */
  ghost predicate Mistaken(s: State, oid: nat)
    requires Shaped(s)
  {
    s.current.Some? && s.superseding.None? && oid !in s.store &&
    var r := s.current.value;
    r.phase == RecoverObj && oid !in r.listed && r.oids[r.count] == oid
  }

  lemma SearchParts(r: Rinfo, oid: nat)
    requires Sized(r)
    ensures oid in r.oids[..r.count] <==>
      Found(r.oids, 0, r.done, oid) || Found(r.oids, r.done, r.next, oid) || Found(r.oids, r.next, r.count, oid)
    ensures Found(r.oids, r.next, r.count + 1, oid) <==> Found(r.oids, r.next, r.count, oid) || r.oids[r.count] == oid
  {
    assert r.oids[..r.count] == r.oids[..r.done] + r.oids[r.done..r.next] + r.oids[r.next..r.count];
    assert r.oids[r.next..r.count + 1] == r.oids[r.next..r.count] + [r.oids[r.count]];
  }

  lemma ListedAre(r: Rinfo, oid: nat)
    requires Sized(r) && multiset(r.oids[..r.count]) == multiset(r.listed)
    ensures oid in r.oids[..r.count] <==> oid in r.listed
  {
    assert oid in r.oids[..r.count] <==> oid in multiset(r.oids[..r.count]);
    assert oid in r.listed <==> oid in multiset(r.listed);
  }

  /** The lookup differs from one without the extra slot if and only if the object is mistaken for a
      listed one; a request for it then waits for one direct recovery instead of running. */
  lemma ExtraSlotExact(s: State, q: Request)
    requires Inv(s) && !q.exempt
    ensures Look(s, q.oid) != LookUpTo(s, q.oid, 0) <==> Mistaken(s, q.oid)
    ensures Mistaken(s, q.oid) ==>
      LookUpTo(s, q.oid, 0) == Recovered &&
      SubmitLocal(s, q) == s.(waiting := s.waiting + [q], direct := s.direct + multiset{q.oid})
  {
    hide Moving, AllExcused, Found;
    if s.current.Some? && s.current.value.phase == RecoverObj {
      SearchParts(s.current.value, q.oid);
      ListedAre(s.current.value, q.oid);
    }
  }

  // ---- no lost wakeup

  lemma LookExcused(s: State, q: Request)
    requires Shaped(s) && Windowed(s) && Look(s, q.oid) == Wait
    ensures Excused(s, q)
  {
    if s.superseding.None? {
      var r := s.current.value;
      assert q.oid in multiset(r.oids[r.done..r.next]);
    }
  }

  lemma SleepExcused(s: State, q: Request)
    requires AllExcused(s, s.waiting) && Excused(s, q)
    ensures AllExcused(Sleep(s, q), Sleep(s, q).waiting)
  {
    var s' := Sleep(s, q);
    forall i | 0 <= i < |s'.waiting|
      ensures Excused(s', s'.waiting[i])
    {
      assert i < |s.waiting| ==> Excused(s, s.waiting[i]);
    }
  }

  lemma ExcusedElsewhere(s: State, s': State)
    requires AllExcused(s, s.waiting) && s'.waiting == s.waiting && s'.epoch == s.epoch && s'.inFlight == s.inFlight
    requires s.direct <= s'.direct && s'.superseding == s.superseding
    ensures AllExcused(s', s'.waiting)
  {
    forall i | 0 <= i < |s'.waiting| ensures Excused(s', s'.waiting[i]) { assert Excused(s, s.waiting[i]); }
  }

  lemma SubmitLocalExcused(s: State, q: Request)
    requires Shaped(s) && Windowed(s) && AllExcused(s, s.waiting)
    ensures AllExcused(SubmitLocal(s, q), SubmitLocal(s, q).waiting)
  {
    hide Look, AllExcused, Sleep;
    var s1 := s.(direct := s.direct + multiset{q.oid});
    ExcusedElsewhere(s, Dispatch(s, q));
    ExcusedElsewhere(s, s1);
    SleepExcused(s1, q);
    if Look(s, q.oid) == Wait { LookExcused(s, q); SleepExcused(s, q); }
  }

  lemma SubmitExcused(s: State, q: Request)
    requires Shaped(s) && Windowed(s) && AllExcused(s, s.waiting)
    ensures AllExcused(Submit(s, q), Submit(s, q).waiting)
  {
    hide AllExcused, SubmitLocal, Sleep;
    ExcusedElsewhere(s, Dispatch(s, q)); ExcusedElsewhere(s, Dispatch(s, q.(epoch := s.epoch)));
    ExcusedElsewhere(s, Respond(s, q.(result := OldNodeVer, rpEpoch := s.epoch)));
    SubmitLocalExcused(s, q); SubmitLocalExcused(s, q.(epoch := s.epoch));
    if q.epoch > s.epoch { SleepExcused(s, q.(result := NewNodeVer)); }
  }

  lemma {:induction false} RouseExcused(s: State, pending: seq<Request>, p: Pick, kept: seq<Request>)
    requires Shaped(s) && Windowed(s) && AllExcused(s, s.waiting) && AllExcused(s, kept)
    requires forall i :: 0 <= i < |pending| && !Picks(p, pending[i]) ==> Excused(s, pending[i])
    ensures AllExcused(Rouse(s, pending, p, kept), Rouse(s, pending, p, kept).waiting)
    decreases |pending|
  {
    hide Submit;
    if pending != [] {
      var q := Refreshed(p, pending[0], s.epoch);
      if Picks(p, pending[0]) {
        SubmitKeepsRest(s, q);
        SubmitExcused(s, q);
        RouseExcused(Submit(s, q), pending[1..], p, kept);
      } else {
        RouseExcused(s, pending[1..], p, kept + [pending[0]]);
      }
    }
  }

  lemma WakeExcused(s: State, p: Pick)
    requires Shaped(s) && Windowed(s)
    requires forall i :: 0 <= i < |s.waiting| && !Picks(p, s.waiting[i]) ==> Excused(s, s.waiting[i])
    ensures AllExcused(Wake(s, p), Wake(s, p).waiting)
  {
    RouseExcused(s.(waiting := []), s.waiting, p, []);
  }

  // ---- the callbacks keep the invariant

  lemma SwapKeeps(q: seq<nat>, d: nat, p: nat, lo: nat, hi: nat)
    requires lo <= d <= p < hi <= |q|
    ensures multiset(q[p := q[d]][d := q[p]][lo..hi]) == multiset(q[lo..hi])
  {
    var w := q[lo..hi];
    assert q[p := q[d]][d := q[p]][lo..hi] == w[p - lo := w[d - lo]][d - lo := w[p - lo]];
  }

  /** The window loses exactly the finished object and the list stays a permutation. */
  lemma FinishedWindow(r: Rinfo, oid: nat)
    requires Sized(r) && Found(r.oids, r.done, r.next, oid)
    ensures multiset(Finished(r, oid).oids[r.done + 1..r.next]) == multiset(r.oids[r.done..r.next]) - multiset{oid}
    ensures multiset(Finished(r, oid).oids[..r.count]) == multiset(r.oids[..r.count])
  {
    hide Found, SlotOf;
    var p, q := SlotOf(r.oids, r.done, r.next, oid), Finished(r, oid).oids;
    assert q == r.oids[p := r.oids[r.done]][r.done := r.oids[p]];
    assert multiset(q[r.done..r.next]) == multiset(r.oids[r.done..r.next]) by {
      SwapKeeps(r.oids, r.done, p, r.done, r.next);
    }
    assert q[r.done..r.next] == [oid] + q[r.done + 1..r.next];
    assert q[0..r.count] == q[..r.count] && r.oids[0..r.count] == r.oids[..r.count];
    SwapKeeps(r.oids, r.done, p, 0, r.count);
  }

  /** The recovery has its list and may be at the point of asking for more work. */
  ghost predicate Working(s: State) {
    Shaped(s) && Windowed(s) && s.current.Some? && s.current.value.phase == RecoverObj && s.lists == 0
  }

  lemma RunNextKeeps(s: State)
    requires Working(s) && s.superseding.Some? && !s.current.value.suspended
    ensures Inv(RunNext(s))
  {
    if s.current.value.done == s.current.value.next {
      WakeExcused(s.(current := s.superseding, superseding := None), All);
    }
  }

  /** One more object goes in flight as the window grows by one. */
  lemma QueueNextKeeps(s: State, s': State, r: Rinfo)
    requires Working(s) && AllExcused(s, s.waiting) && s.current == Some(r) && s.superseding.None? && r.next < r.count
    requires s' == s.(inFlight := s.inFlight + multiset{r.oids[r.next]}, current := Some(r.(next := r.next + 1)))
    ensures Inv(s') && Working(s')
  {
    assert r.oids[r.done..r.next + 1] == r.oids[r.done..r.next] + [r.oids[r.next]];
    forall i | 0 <= i < |s'.waiting| ensures Excused(s', s'.waiting[i]) { assert Excused(s, s.waiting[i]); }
  }

  lemma SuspendKeeps(s: State, s': State, r: Rinfo)
    requires Working(s) && AllExcused(s, s.waiting) && s.current == Some(r) && s.superseding.None? && r.done < r.count
    requires s' == s.(current := Some(r.(suspended := true)))
    ensures Inv(s') && Working(s')
  {
    forall i | 0 <= i < |s'.waiting| ensures Excused(s', s'.waiting[i]) { assert Excused(s, s.waiting[i]); }
  }

  lemma RecoverNextKeeps(s: State)
    requires Working(s) && AllExcused(s, s.waiting) && s.current.value.done < s.current.value.count
    requires s.superseding.Some? ==> !s.current.value.suspended
    ensures Inv(RecoverNext(s))
    ensures s.superseding.None? ==> Working(RecoverNext(s)) && RecoverNext(s).superseding.None?
  {
    hide RunNext, Excused;
    var r := s.current.value;
    if s.superseding.Some? {
      RunNextKeeps(s);
    } else if s.disabled {
      SuspendKeeps(s, RecoverNext(s), r);
    } else if r.next < r.count {
      QueueNextKeeps(s, RecoverNext(s), r);
    }
  }

  lemma {:induction false} RecoverSomeKeeps(s: State, n: nat)
    requires Working(s) && AllExcused(s, s.waiting) && s.current.value.done < s.current.value.count
    requires s.superseding.None? && n > 0
    ensures Inv(RecoverSome(s, n)) && Working(RecoverSome(s, n)) && RecoverSome(s, n).superseding.None?
  {
    hide RecoverNext;
    if n == 1 {
      assert RecoverSome(s, n - 1) == s;
      RecoverNextKeeps(s);
    } else {
      RecoverSomeKeeps(s, n - 1);
      RecoverNextKeeps(RecoverSome(s, n - 1));
    }
  }

  lemma ResumeKeeps(s: State)
    requires Tracked(s) && AllExcused(s, s.waiting) && s.current.Some?
    requires Moving(s) || (s.superseding.Some? && s.current.value.phase == RecoverObj)
    requires s.current.value.suspended || Moving(s)
    ensures Inv(Resume(s))
  {
    hide RecoverNext;
    if s.current.value.suspended {
      RecoverNextKeeps(s.(current := Some(s.current.value.(suspended := false))));
    }
  }

  lemma FinishKeeps(s: State)
    requires Shaped(s) && s.superseding.None? && s.lists == 0 && s.inFlight == multiset{}
    ensures Inv(Finish(s))
  {
    WakeExcused(s.(current := None), All);
  }

  /** After the finished object has left the window. */
  lemma WindowShrunkKeeps(s: State, oid: nat)
    requires Working(s) && !(s.superseding.Some? && s.current.value.suspended)
    requires forall i :: 0 <= i < |s.waiting| && s.waiting[i].oid != oid ==> Excused(s, s.waiting[i])
    ensures s.superseding.Some? ==> Inv(RunNext(s))
    ensures s.superseding.None? && s.current.value.done >= s.current.value.count ==> Inv(Finish(Wake(s, OnOid(oid))))
    ensures s.superseding.None? && s.current.value.done < s.current.value.count ==>
      Inv(RecoverNext(Wake(s, OnOid(oid))))
  {
    hide RunNext, RecoverNext, Finish, Excused, Wake;
    if s.superseding.Some? {
      RunNextKeeps(s);
    } else {
      WakeExcused(s, OnOid(oid));
      if s.current.value.done >= s.current.value.count {
        FinishKeeps(Wake(s, OnOid(oid)));
      } else {
        RecoverNextKeeps(Wake(s, OnOid(oid)));
      }
    }
  }

  lemma InFlightFound(s: State, oid: nat)
    requires Tracked(s) && oid in s.inFlight
    ensures Working(s) && Found(s.current.value.oids, s.current.value.done, s.current.value.next, oid)
  {
    var r := s.current.value;
    assert oid in multiset(r.oids[r.done..r.next]);
  }

  lemma ShrunkExcused(s: State, s1: State, oid: nat)
    requires AllExcused(s, s.waiting) && s1.waiting == s.waiting && s1.inFlight == s.inFlight - multiset{oid}
    requires s1.direct == s.direct && s1.superseding == s.superseding && s1.epoch == s.epoch
    ensures forall i :: 0 <= i < |s1.waiting| && s1.waiting[i].oid != oid ==> Excused(s1, s1.waiting[i])
  {
    forall i | 0 <= i < |s1.waiting| && s1.waiting[i].oid != oid
      ensures Excused(s1, s1.waiting[i])
    {
      assert Excused(s, s.waiting[i]);
    }
  }

  lemma ShrunkWorking(s: State, oid: nat)
    requires Tracked(s) && Moving(s) && oid in s.inFlight
    ensures Working(s) && Found(s.current.value.oids, s.current.value.done, s.current.value.next, oid)
    ensures var s1 := s.(current := Some(Finished(s.current.value, oid)), inFlight := s.inFlight - multiset{oid});
      Working(s1) && !(s1.superseding.Some? && s1.current.value.suspended)
  {
    InFlightFound(s, oid);
    FinishedWindow(s.current.value, oid);
  }

  lemma ObjDoneKeeps(s: State, oid: nat)
    requires Inv(s) && oid in s.inFlight
    ensures s.current.Some? && Found(s.current.value.oids, s.current.value.done, s.current.value.next, oid)
    ensures Inv(ObjDone(s, oid))
  {
    hide RunNext, RecoverNext, Finish, Wake, Tracked, Moving, AllExcused, Excused, Finished;
    ShrunkWorking(s, oid);
    var s1 := s.(current := Some(Finished(s.current.value, oid)), inFlight := s.inFlight - multiset{oid});
    ShrunkExcused(s, s1, oid);
    WindowShrunkKeeps(s1, oid);
  }

  lemma ListDoneKeeps(s: State, list: seq<nat>, extra: nat)
    requires Inv(s) && s.lists > 0
    ensures s.current.Some? && s.current.value.next <= |list| && Inv(ListDone(s, list, extra))
  {
    hide RunNext, RecoverNext, Finish;
    var s1 := s.(current :=
      Some(s.current.value.(phase := RecoverObj, count := |list|, oids := list + [extra], listed := list)),
        lists := s.lists - 1);
    assert (list + [extra])[..|list|] == list;
    if s.superseding.Some? {
      RunNextKeeps(s1);
    } else if |list| == 0 {
      FinishKeeps(s1);
    } else {
      RecoverSomeKeeps(s1, s.threads);
    }
  }

  lemma DirectDoneKeeps(s: State, oid: nat)
    requires Inv(s)
    ensures Inv(DirectDone(s, oid))
  {
    WakeExcused(s.(direct := s.direct - multiset{oid}), OnOid(oid));
  }

  lemma StartKeeps(s: State, epoch: nat)
    requires Inv(s) && s.epoch <= epoch
    ensures Inv(Start(s, epoch))
  {
    hide Resume;
    var s1 := s.(epoch := epoch);
    if s.current.Some? {
      ResumeKeeps(s1.(superseding := Some(Fresh(epoch))));
      WakeExcused(Resume(s1.(superseding := Some(Fresh(epoch)))), OnEpoch);
    } else {
      WakeExcused(s1.(current := Some(Fresh(epoch)), lists := s.lists + 1), OnEpoch);
    }
  }

  lemma EnableKeeps(s: State)
    requires Inv(s)
    ensures Inv(Resume(s.(disabled := false)))
  {
    if s.current.Some? { ResumeKeeps(s.(disabled := false)); }
  }

  lemma SubmitKeeps(s: State, q: Request)
    requires Inv(s)
    ensures Inv(Submit(s, q))
  {
    hide Submit;
    SubmitKeepsRest(s, q);
    SubmitExcused(s, q);
  }

  lemma SleepKeeps(s: State, q: Request)
    requires Inv(s) && Excused(s, q)
    ensures Inv(Sleep(s, q))
  {
    SleepExcused(s, q);
  }

  lemma RequestDoneKeeps(s: State, i: nat, o: Outcome)
    requires Inv(s) && i < |s.running|
    ensures Inv(RequestDone(s, i, o))
  {
    hide Submit, AllExcused, Sleep, Windowed;
    var q, s1 := s.running[i], s.(running := s.running[..i] + s.running[i + 1..]);
    assert Inv(s1) by { ExcusedElsewhere(s, s1); WindowElsewhere(s, s1); }
    match o
    case Done => ExcusedElsewhere(s1, Respond(s1, q)); WindowElsewhere(s1, Respond(s1, q));
    case Retry => SubmitKeeps(s1, q);
    case OldVersion(e) =>
      if e > s.epoch { SleepKeeps(s1, q.(result := OldNodeVer, rpEpoch := e)); } else { SubmitKeeps(s1, q); }
  }

  lemma WindowElsewhere(s: State, s': State)
    requires Windowed(s) && s'.current == s.current && s'.inFlight == s.inFlight
    ensures Windowed(s')
  {}

  // ---- whole runs

  datatype Step =
    | StartRecovery(epoch: nat)
    | ListPrepared(list: seq<nat>, extra: nat)
    | ObjectRecovered(oid: nat)
    | DirectRecovered(oid: nat)
    | DisableRecovery
    | EnableRecovery
    | StoreChanged(store: set<nat>)
    | NewRequest(q: Request)
    | WorkerDone(i: nat, outcome: Outcome)

  ghost predicate Enabled(s: State, t: Step) {
    match t
    case StartRecovery(epoch) => epoch >= s.epoch
    case ListPrepared(_, _) => s.lists > 0
    case ObjectRecovered(oid) => oid in s.inFlight
    case DirectRecovered(oid) => oid in s.direct
    case NewRequest(q) => q.result == Unset
    case WorkerDone(i, o) => i < |s.running| && (o == Done || s.running[i].gateway)
    case _ => true
  }

  ghost function Apply(s: State, t: Step): (s': State)
    requires Inv(s) && Enabled(s, t)
  {
    match t
    case StartRecovery(epoch) => Start(s, epoch)
    case ListPrepared(list, extra) => ListDone(s, list, extra)
    case ObjectRecovered(oid) => ObjDoneKeeps(s, oid); ObjDone(s, oid)
    case DirectRecovered(oid) => DirectDone(s, oid)
    case DisableRecovery => s.(disabled := true)
    case EnableRecovery => Resume(s.(disabled := false))
    case StoreChanged(store) => s.(store := store)
    case NewRequest(q) => Submit(s, q)
    case WorkerDone(i, o) => RequestDone(s, i, o)
  }

  lemma StoreKeeps(s: State, store: set<nat>)
    requires Inv(s)
    ensures Inv(s.(store := store))
  {
    var s' := s.(store := store);
    forall k | 0 <= k < |s'.waiting| ensures Excused(s', s'.waiting[k]) { assert Excused(s, s.waiting[k]); }
  }

  lemma DisableKeeps(s: State)
    requires Inv(s)
    ensures Inv(s.(disabled := true))
  {
    var s' := s.(disabled := true);
    forall k | 0 <= k < |s'.waiting| ensures Excused(s', s'.waiting[k]) { assert Excused(s, s.waiting[k]); }
  }

  lemma NextKeeps(s: State, t: Step)
    requires Inv(s) && Enabled(s, t)
    ensures Inv(Apply(s, t))
  {
    hide Start, ListDone, ObjDone, DirectDone, Resume, Submit, RequestDone, Moving, AllExcused;
    match t
    case StartRecovery(epoch) => StartKeeps(s, epoch);
    case ListPrepared(list, extra) => ListDoneKeeps(s, list, extra);
    case ObjectRecovered(oid) => ObjDoneKeeps(s, oid);
    case DirectRecovered(oid) => DirectDoneKeeps(s, oid);
    case EnableRecovery => EnableKeeps(s);
    case NewRequest(q) => SubmitKeeps(s, q);
    case WorkerDone(i, o) => RequestDoneKeeps(s, i, o);
    case StoreChanged(store) => StoreKeeps(s, store);
    case DisableRecovery => DisableKeeps(s);
  }

  ghost predicate Initial(s: State) {
    s.threads > 0 && s.current.None? && s.superseding.None? && s.lists == 0 && s.inFlight == multiset{} &&
    s.direct == multiset{} &&
    s.waiting == [] && s.running == [] && s.answered == []
  }

  ghost predicate Run(ss: seq<State>, ts: seq<Step>) {
    |ss| == |ts| + 1 && Initial(ss[0]) &&
    forall i :: 0 <= i < |ts| ==> Enabled(ss[i], ts[i]) && (Inv(ss[i]) ==> ss[i + 1] == Apply(ss[i], ts[i]))
  }

  /** Every state of every run: done <= next <= count, the window is the bag of objects in flight,
      the list is a permutation of what was prepared, and no request sleeps in vain. */
  lemma {:induction false} RunKeeps(ss: seq<State>, ts: seq<Step>, n: nat)
    requires Run(ss, ts) && n < |ss|
    ensures Inv(ss[n])
  {
    hide Apply;
    if n > 0 {
      RunKeeps(ss, ts, n - 1);
      assert Enabled(ss[n - 1], ts[n - 1]);
      NextKeeps(ss[n - 1], ts[n - 1]);
    }
  }

  // ---- consequences

  /** The search for the finished object never fails. */
  lemma LookupSucceeds(s: State, oid: nat)
    requires Inv(s) && oid in s.inFlight
    ensures s.current.Some?
    ensures exists p :: s.current.value.done <= p < s.current.value.next && s.current.value.oids[p] == oid
  {
    ObjDoneKeeps(s, oid);
    var r := s.current.value;
    assert r.oids[SlotOf(r.oids, r.done, r.next, oid)] == oid;
  }

  lemma ObjDoneFinish(s: State, oid: nat)
    requires Inv(s) && oid in s.inFlight
    ensures s.current.Some? && Found(s.current.value.oids, s.current.value.done, s.current.value.next, oid)
    ensures ObjDone(s, oid).current.None? ==> s.superseding.None? && s.current.value.done + 1 == s.current.value.count
  {
    hide Wake, RunNext, RecoverNext, AllExcused;
    InFlightFound(s, oid);
  }

  lemma ListDoneFinish(s: State, list: seq<nat>, extra: nat)
    requires Inv(s) && s.lists > 0
    ensures s.current.Some? && s.current.value.next <= |list|
    ensures ListDone(s, list, extra).current.None? ==> s.superseding.None? && list == []
  {
    hide Wake, RunNext, RecoverSome, AllExcused;
  }

  /** Recovery ends only with its last object, or when there was none, and never while another
      recovery is pending. */
  lemma FinishOnlyWhenDone(s: State, t: Step)
    requires Inv(s) && Enabled(s, t) && s.current.Some? && Apply(s, t).current.None?
    ensures s.superseding.None?
    ensures match t
      case ObjectRecovered(_) => s.current.value.done + 1 == s.current.value.count
      case ListPrepared(list, _) => list == []
      case _ => false
  {
    hide Wake, Resume, Submit, Respond, Sleep, ObjDone, ListDone, AllExcused, Windowed;
    match t
    case ObjectRecovered(oid) => ObjDoneFinish(s, oid);
    case ListPrepared(list, extra) => ListDoneFinish(s, list, extra);
    case StartRecovery(epoch) => StartGoesOn(s, epoch);
    case WorkerDone(i, o) => RequestDoneGoesOn(s, i, o);
    case NewRequest(q) => SubmitKeepsRest(s, q);
    case _ =>
  }

  lemma StartGoesOn(s: State, epoch: nat)
    requires Shaped(s)
    ensures Start(s, epoch).current.Some?
  {
    hide Wake, Resume;
  }

  lemma RequestDoneGoesOn(s: State, i: nat, o: Outcome)
    requires Shaped(s) && i < |s.running|
    ensures RequestDone(s, i, o).current == s.current
  {
    hide Submit;
    SubmitKeepsRest(s.(running := s.running[..i] + s.running[i + 1..]), s.running[i]);
  }

  /** A request that waits for an object has that object in flight, or under direct recovery, or a
      recovery pending that will wake it, with work outstanding that leads there. */
  lemma SleeperHasWork(s: State, i: nat)
    requires Inv(s) && i < |s.waiting| && !WaitsForEpoch(s, s.waiting[i])
    ensures var oid := s.waiting[i].oid;
      oid in s.inFlight || oid in s.direct || (s.superseding.Some? && (s.lists > 0 || s.inFlight != multiset{}))
  {
    assert Excused(s, s.waiting[i]);
    if s.superseding.Some? && s.current.value.phase == RecoverObj {
      var r := s.current.value;
      assert r.oids[r.done] in multiset(r.oids[r.done..r.next]);
    }
  }

  // ---- a recovery is never superseded by an older one

  /** The recovery running, the one pending and the node are of ascending epochs. */
  ghost predicate Ordered(s: State) {
    (s.current.Some? ==> s.current.value.epoch <= s.epoch) &&
    (s.superseding.Some? ==> s.current.Some? && s.current.value.epoch <= s.superseding.value.epoch <= s.epoch)
  }

  /** What a step may do to the recovery running: end it, go on, or change to one not older. */
  ghost predicate Advances(s: State, s': State) {
    Ordered(s') && s.epoch <= s'.epoch &&
    (s.current.Some? && s'.current.Some? ==> s.current.value.epoch <= s'.current.value.epoch)
  }

  lemma RunNextAdvances(s: State)
    requires Shaped(s) && s.superseding.Some? && Ordered(s)
    ensures Advances(s, RunNext(s))
  {
    hide Wake;
  }

  lemma RecoverNextAdvances(s: State)
    requires Shaped(s) && s.current.Some? && Ordered(s)
    ensures Advances(s, RecoverNext(s))
  {
    hide RunNext;
    if s.superseding.Some? { RunNextAdvances(s); }
  }

  lemma {:induction false} RecoverSomeAdvances(s: State, n: nat)
    requires Shaped(s) && s.current.Some? && Ordered(s)
    ensures Advances(s, RecoverSome(s, n))
  {
    hide RecoverNext;
    if n > 0 {
      RecoverSomeAdvances(s, n - 1);
      RecoverNextAdvances(RecoverSome(s, n - 1));
    }
  }

  lemma ResumeAdvances(s: State)
    requires Shaped(s) && Ordered(s)
    ensures Advances(s, Resume(s))
  {
    hide RecoverNext;
    if s.current.Some? && s.current.value.suspended {
      RecoverNextAdvances(s.(current := Some(s.current.value.(suspended := false))));
    }
  }

  lemma StartAdvances(s: State, epoch: nat)
    requires Shaped(s) && Ordered(s) && s.epoch <= epoch
    ensures Advances(s, Start(s, epoch))
  {
    hide Wake, Resume;
    var s1 := s.(epoch := epoch);
    if s.current.Some? { ResumeAdvances(s1.(superseding := Some(Fresh(epoch)))); }
  }

  lemma ObjDoneAdvances(s: State, oid: nat)
    requires Shaped(s) && Ordered(s) && s.current.Some?
    requires Found(s.current.value.oids, s.current.value.done, s.current.value.next, oid)
    ensures Advances(s, ObjDone(s, oid))
  {
    hide Wake, RunNext, RecoverNext;
    var s1 := s.(current := Some(Finished(s.current.value, oid)), inFlight := s.inFlight - multiset{oid});
    if s.superseding.Some? { RunNextAdvances(s1); } else { RecoverNextAdvances(Wake(s1, OnOid(oid))); }
  }

  lemma ListDoneAdvances(s: State, list: seq<nat>, extra: nat)
    requires Shaped(s) && Ordered(s) && s.current.Some? && s.lists > 0 && s.current.value.next <= |list|
    ensures Advances(s, ListDone(s, list, extra))
  {
    hide Wake, RunNext, RecoverSome;
    var r := s.current.value.(phase := RecoverObj, count := |list|, oids := list + [extra], listed := list);
    var s1 := s.(current := Some(r), lists := s.lists - 1);
    if s.superseding.Some? { RunNextAdvances(s1); } else { RecoverSomeAdvances(s1, s.threads); }
  }

  lemma NextAdvances(s: State, t: Step)
    requires Inv(s) && Ordered(s) && Enabled(s, t)
    ensures Advances(s, Apply(s, t))
  {
    hide Wake, Submit, AllExcused, Windowed, Start, ListDone, ObjDone, Resume, RequestDone;
    match t
    case StartRecovery(epoch) => StartAdvances(s, epoch);
    case ListPrepared(list, extra) => ListDoneKeeps(s, list, extra); ListDoneAdvances(s, list, extra);
    case ObjectRecovered(oid) => ObjDoneKeeps(s, oid); ObjDoneAdvances(s, oid);
    case EnableRecovery => ResumeAdvances(s.(disabled := false));
    case WorkerDone(i, o) => RequestDoneSame(s, i, o);
    case NewRequest(q) => SubmitKeepsRest(s, q);
    case DirectRecovered(oid) => WakeSame(s.(direct := s.direct - multiset{oid}), OnOid(oid));
    case _ =>
  }

  lemma WakeSame(s: State, p: Pick)
    requires Shaped(s)
    ensures SameRecovery(s, Wake(s, p))
  {}

  lemma RequestDoneSame(s: State, i: nat, o: Outcome)
    requires Shaped(s) && i < |s.running|
    ensures SameRecovery(s, RequestDone(s, i, o))
  {
    hide Submit;
    SubmitKeepsRest(s.(running := s.running[..i] + s.running[i + 1..]), s.running[i]);
  }

  /** In every run the epochs are in order, and no recovery gives way to an older one. */
  lemma {:induction false} RunAdvances(ss: seq<State>, ts: seq<Step>, n: nat)
    requires Run(ss, ts) && n < |ss|
    ensures Inv(ss[n]) && Ordered(ss[n]) && (n > 0 ==> Advances(ss[n - 1], ss[n]))
  {
    hide Apply, Advances;
    RunKeeps(ss, ts, n);
    if n > 0 {
      RunAdvances(ss, ts, n - 1);
      assert Enabled(ss[n - 1], ts[n - 1]);
      NextAdvances(ss[n - 1], ts[n - 1]);
      AdvancedOrdered(ss[n - 1], ss[n]);
    }
  }

  lemma AdvancedOrdered(s: State, s': State)
    requires Advances(s, s')
    ensures Ordered(s')
  {}

  // ---- the disk-full cancel, which is not among the steps

  /** The list work ends with `cancel` set: recovery finishes whatever else is pending. With no
      current recovery a pending one no longer matters to the requests woken. */
  ghost function Cancelled(s: State): (s': State)
    requires Inv(s) && s.lists > 0
  {
    Finish(s.(superseding := None, lists := s.lists - 1)).(superseding := s.superseding)
  }

  /** No recovery runs; one may be left pending, which nothing looks at then. */
  ghost predicate Idle(s: State) {
    s.current.None? && Inv(s.(superseding := None)) && (s.superseding.Some? ==> IsFresh(s.superseding.value))
  }

  lemma CancelIdle(s: State)
    requires Inv(s) && s.lists > 0
    ensures Idle(Cancelled(s)) && Cancelled(s).superseding == s.superseding && Cancelled(s).epoch == s.epoch
  {
    hide Wake;
    FinishKeeps(s.(superseding := None, lists := s.lists - 1));
  }

  /** A step other than a start, which takes no notice of what is pending. */
  ghost function IdleStep(s: State, t: Step): (s': State)
    requires Idle(s) && Enabled(s, t) && !t.StartRecovery?
  {
    Apply(s.(superseding := None), t).(superseding := s.superseding)
  }

  lemma IdleStays(s: State, t: Step)
    requires Idle(s) && Enabled(s, t) && !t.StartRecovery?
    ensures Idle(IdleStep(s, t)) && IdleStep(s, t).superseding == s.superseding && IdleStep(s, t).epoch == s.epoch
    ensures !t.ListPrepared? && !t.ObjectRecovered?
  {
    hide Wake, Submit, AllExcused, Windowed, RequestDone;
    var s0 := s.(superseding := None);
    NextKeeps(s0, t);
    match t
    case WorkerDone(i, o) => RequestDoneSame(s0, i, o);
    case NewRequest(q) => SubmitKeepsRest(s0, q);
    case DirectRecovered(oid) => WakeSame(s0.(direct := s0.direct - multiset{oid}), OnOid(oid));
    case _ =>
  }

  ghost predicate IdleRun(ss: seq<State>, ts: seq<Step>) {
    |ss| == |ts| + 1 && Idle(ss[0]) &&
    forall i :: 0 <= i < |ts| ==>
      Enabled(ss[i], ts[i]) && !ts[i].StartRecovery? && (Idle(ss[i]) ==> ss[i + 1] == IdleStep(ss[i], ts[i]))
  }

  /** In every run from a cancelled recovery without a new start, the pending recovery stays pending: no
      list is made and no object goes in flight. */
  lemma {:induction false} CancelStrands(ss: seq<State>, ts: seq<Step>, n: nat)
    requires IdleRun(ss, ts) && n < |ss|
    ensures Idle(ss[n]) && ss[n].superseding == ss[0].superseding && ss[n].epoch == ss[0].epoch
    ensures ss[n].lists == 0 && ss[n].inFlight == multiset{}
  {
    hide IdleStep, Windowed, AllExcused;
    if n > 0 {
      CancelStrands(ss, ts, n - 1);
      assert Enabled(ss[n - 1], ts[n - 1]);
      IdleStays(ss[n - 1], ts[n - 1]);
    }
  }

  /** A start with no recovery running. */
  ghost function StartIdle(s: State, epoch: nat): (s': State)
    requires Idle(s)
  {
    Wake(s.(epoch := epoch, current := Some(Fresh(epoch)), lists := s.lists + 1), OnEpoch)
  }

  lemma StartIdleIsStart(s: State, epoch: nat)
    requires Idle(s) && s.superseding.None?
    ensures StartIdle(s, epoch) == Start(s, epoch)
  {
    hide Wake;
  }

  /** The node takes it for an ordinary start that was superseded. */
  lemma StartIdleKeeps(s: State, epoch: nat)
    requires Idle(s) && s.epoch <= epoch
    ensures var s1 := StartIdle(s, epoch);
      Inv(s1) && s1.lists == 1 && s1.current == Some(Fresh(epoch)) && s1.superseding == s.superseding &&
      s1.epoch == epoch
  {
    hide Wake, Submit;
    var s1 := s.(epoch := epoch, current := Some(Fresh(epoch)), lists := s.lists + 1);
    forall i | 0 <= i < |s1.waiting| && !Picks(OnEpoch, s1.waiting[i]) ensures Excused(s1, s1.waiting[i]) {
      assert Excused(s.(superseding := None), s.waiting[i]);
    }
    WakeExcused(s1, OnEpoch);
  }

  /** When its list is ready a recovery pending from before takes over, however old it is. */
  lemma StaleSupersedes(s: State, epoch: nat, list: seq<nat>, extra: nat)
    requires Idle(s) && s.epoch <= epoch && s.superseding.Some?
    ensures Inv(StartIdle(s, epoch)) && StartIdle(s, epoch).lists > 0
    ensures StartIdle(s, epoch).current == Some(Fresh(epoch))
    ensures ListDone(StartIdle(s, epoch), list, extra).current == s.superseding
    ensures ListDone(StartIdle(s, epoch), list, extra).superseding.None?
  {
    hide Wake, StartIdle;
    StartIdleKeeps(s, epoch);
  }

  /** The recovery started at `epoch` is given up for an older one. */
  ghost predicate GivenUp(s: State, epoch: nat, list: seq<nat>, extra: nat)
    requires Idle(s) && s.epoch <= epoch
  {
    StartIdleKeeps(s, epoch);
    var s' := ListDone(StartIdle(s, epoch), list, extra);
    s'.current.Some? && s'.current.value.epoch < epoch
  }

  lemma NotGivenUp(s: State, epoch: nat, list: seq<nat>, extra: nat)
    requires Idle(s) && s.epoch <= epoch && s.superseding.None?
    ensures !GivenUp(s, epoch, list, extra)
  {
    hide Wake, ListDone, StartIdle;
    StartIdleKeeps(s, epoch);
    ListDoneAdvances(StartIdle(s, epoch), list, extra);
  }

  /** After a cancel, every later recovery runs rather than one older than it, if and only if none was
      pending. */
  lemma CancelExact(s: State)
    requires Inv(s) && Ordered(s) && s.lists > 0
    ensures Idle(Cancelled(s))
    ensures (forall epoch: nat, list, extra: nat ::
      Cancelled(s).epoch < epoch ==> !GivenUp(Cancelled(s), epoch, list, extra)) <==> s.superseding.None?
  {
    hide Cancelled, GivenUp, Inv, Idle;
    CancelIdle(s);
    var c := Cancelled(s);
    if s.superseding.None? {
      forall epoch: nat, list, extra: nat | c.epoch < epoch
        ensures !GivenUp(c, epoch, list, extra)
      {
        NotGivenUp(c, epoch, list, extra);
      }
    } else {
      StaleGivesUp(c, c.epoch + 1);
      assert GivenUp(c, c.epoch + 1, [], 0);
    }
  }

  lemma StaleGivesUp(s: State, epoch: nat)
    requires Idle(s) && s.epoch <= epoch && s.superseding.Some? && s.superseding.value.epoch < epoch
    ensures GivenUp(s, epoch, [], 0)
  {
    hide StartIdle, ListDone;
    StaleSupersedes(s, epoch, [], 0);
  }

  /** A run with two starts before the first list is made is in the state in which a cancel strands
      a recovery. */
  lemma CancelReached(s: State) returns (ss: seq<State>, ts: seq<Step>)
    requires Initial(s)
    ensures Run(ss, ts) && ss[0] == s && |ts| == 2
    ensures Inv(ss[2]) && Ordered(ss[2]) && ss[2].lists > 0 && ss[2].superseding == Some(Fresh(s.epoch + 2))
  {
    var e := s.epoch;
    var s1 := Start(s, e + 1);
    StartKeeps(s, e + 1);
    assert s1 == s.(epoch := e + 1, current := Some(Fresh(e + 1)), lists := 1);
    var s2 := Start(s1, e + 2);
    assert s2 == s1.(epoch := e + 2, superseding := Some(Fresh(e + 2)));
    ss, ts := [s, s1, s2], [StartRecovery(e + 1), StartRecovery(e + 2)];
    RunAdvances(ss, ts, 2);
  }

  /** Neither the list nor the store changes, and no recovery is pending. */
  ghost predicate SameList(s: State, s': State) {
    s.current.Some? && s'.current.Some? && s'.superseding.None? && s'.store == s.store &&
    var r, r' := s.current.value, s'.current.value;
    r'.phase == r.phase && r'.count == r.count && r'.oids == r.oids && r'.listed == r.listed
  }

  lemma RecoverNextSameList(s: State, s1: State)
    requires Shaped(s1) && SameList(s, s1)
    ensures SameList(s, RecoverNext(s1))
  {}

  lemma {:induction false} RecoverSomeSameList(s: State, n: nat)
    requires Shaped(s) && s.current.Some? && s.superseding.None?
    ensures SameList(s, RecoverSome(s, n))
  {
    if n > 0 {
      hide RecoverNext, SameList;
      RecoverSomeSameList(s, n - 1);
      RecoverNextSameList(s, RecoverSome(s, n - 1));
    }
  }

  /** A run gets to the state in which an object is mistaken for a listed one: a recovery of one object,
      with another in the slot behind it. */
  lemma ExtraSlotReached(s: State, oid: nat, other: nat) returns (ss: seq<State>, ts: seq<Step>)
    requires Initial(s) && oid != other && oid !in s.store
    ensures Run(ss, ts) && ss[0] == s && |ts| == 2 && Inv(ss[2]) && Mistaken(ss[2], oid)
  {
    hide RecoverSome, Moving, AllExcused;
    var e := s.epoch + 1;
    var s1 := Start(s, e);
    assert s1 == s.(epoch := e, current := Some(Fresh(e)), lists := 1);
    var list := [other];
    var s2 := ListDone(s1, list, oid);
    var r := Fresh(e).(phase := RecoverObj, count := 1, oids := list + [oid], listed := list);
    RecoverSomeSameList(s1.(current := Some(r), lists := 0), s.threads);
    ss, ts := [s, s1, s2], [StartRecovery(e), ListPrepared(list, oid)];
    RunKeeps(ss, ts, 2);
  }

  // ---- requests are neither lost nor duplicated

  ghost function Ids(qs: seq<Request>): (m: multiset<nat>) {
    if qs == [] then multiset{} else multiset{qs[0].id} + Ids(qs[1..])
  }

  lemma {:induction false} IdsConcat(a: seq<Request>, b: seq<Request>)
    ensures Ids(a + b) == Ids(a) + Ids(b)
  {
    if a == [] {
      assert a + b == b;
    } else {
      assert (a + b)[1..] == a[1..] + b;
      IdsConcat(a[1..], b);
    }
  }

  lemma IdsAppend(a: seq<Request>, q: Request)
    ensures Ids(a + [q]) == Ids(a) + multiset{q.id}
  {
    IdsConcat(a, [q]);
    assert Ids([q]) == multiset{q.id} + Ids([q][1..]);
  }

  ghost function Census(s: State): (m: multiset<nat>) { Ids(s.waiting) + Ids(s.running) + Ids(s.answered) }

  lemma SleepCensus(s: State, q: Request)
    ensures Census(Sleep(s, q)) == Census(s) + multiset{q.id}
  {
    IdsAppend(s.waiting, q);
  }

  lemma DispatchCensus(s: State, q: Request)
    ensures Census(Dispatch(s, q)) == Census(s) + multiset{q.id}
  {
    IdsAppend(s.running, q);
  }

  lemma RespondCensus(s: State, q: Request)
    ensures Census(Respond(s, q)) == Census(s) + multiset{q.id}
  {
    IdsAppend(s.answered, q);
  }

  lemma SubmitLocalCensus(s: State, q: Request)
    requires Shaped(s)
    ensures Census(SubmitLocal(s, q)) == Census(s) + multiset{q.id}
  {
    hide Look, Ids, Sleep, Dispatch;
    DispatchCensus(s, q);
    SleepCensus(s, q);
    SleepCensus(s.(direct := s.direct + multiset{q.oid}), q);
  }

  lemma SubmitCensus(s: State, q: Request)
    requires Shaped(s)
    ensures Census(Submit(s, q)) == Census(s) + multiset{q.id}
  {
    hide Census, SubmitLocal, Sleep, Dispatch, Respond;
    var q1 := q.(epoch := s.epoch);
    if q.gateway { DispatchCensus(s, q1); SubmitLocalCensus(s, q1); }
    else if q.oid == 0 { DispatchCensus(s, q); }
    else if q.epoch < s.epoch { RespondCensus(s, q.(result := OldNodeVer, rpEpoch := s.epoch)); }
    else if q.epoch > s.epoch { SleepCensus(s, q.(result := NewNodeVer)); }
    else { SubmitLocalCensus(s, q); }
  }

  lemma {:induction false} RouseCensus(s: State, pending: seq<Request>, p: Pick, kept: seq<Request>)
    requires Shaped(s)
    ensures Census(Rouse(s, pending, p, kept)) == Census(s) + Ids(pending) + Ids(kept)
    decreases |pending|
  {
    hide Submit, Shaped;
    if pending == [] {
      IdsConcat(kept, s.waiting);
    } else if Picks(p, pending[0]) {
      var q := Refreshed(p, pending[0], s.epoch);
      assert Shaped(Submit(s, q)) by { SubmitShaped(s, q); }
      SubmitCensus(s, q);
      RouseCensus(Submit(s, q), pending[1..], p, kept);
    } else {
      IdsAppend(kept, pending[0]);
      RouseCensus(s, pending[1..], p, kept + [pending[0]]);
    }
  }

  lemma SubmitShaped(s: State, q: Request)
    requires Shaped(s)
    ensures Shaped(Submit(s, q))
  {
    hide Submit;
    SubmitKeepsRest(s, q);
  }

  /** Waking, whatever the reason, keeps every request exactly once. */
  lemma WakeCensus(s: State, p: Pick)
    requires Shaped(s)
    ensures Census(Wake(s, p)) == Census(s)
  {
    RouseCensus(s.(waiting := []), s.waiting, p, []);
  }

  ghost predicate SameCensus(s: State, s': State) { Census(s') == Census(s) }

  lemma RunNextCensus(s: State)
    requires Shaped(s) && s.superseding.Some?
    ensures SameCensus(s, RunNext(s))
  {
    WakeCensus(s.(current := s.superseding, superseding := None), All);
  }

  lemma RecoverNextCensus(s: State)
    requires Shaped(s) && s.current.Some?
    ensures SameCensus(s, RecoverNext(s))
  {
    hide RunNext;
    if s.superseding.Some? { RunNextCensus(s); }
  }

  lemma {:induction false} RecoverSomeCensus(s: State, n: nat)
    requires Shaped(s) && s.current.Some?
    ensures SameCensus(s, RecoverSome(s, n))
  {
    hide RecoverNext;
    if n > 0 { RecoverSomeCensus(s, n - 1); RecoverNextCensus(RecoverSome(s, n - 1)); }
  }

  lemma ResumeCensus(s: State)
    requires Shaped(s)
    ensures SameCensus(s, Resume(s))
  {
    hide RecoverNext;
    if s.current.Some? && s.current.value.suspended {
      RecoverNextCensus(s.(current := Some(s.current.value.(suspended := false))));
    }
  }

  lemma FinishCensus(s: State)
    requires Shaped(s) && s.superseding.None?
    ensures SameCensus(s, Finish(s))
  {
    WakeCensus(s.(current := None), All);
  }

  lemma ObjDoneCensus(s: State, oid: nat)
    requires Shaped(s) && s.current.Some?
    requires Found(s.current.value.oids, s.current.value.done, s.current.value.next, oid)
    ensures SameCensus(s, ObjDone(s, oid))
  {
    hide RunNext, RecoverNext, Finish, Wake;
    var r := Finished(s.current.value, oid);
    var s1 := s.(current := Some(r), inFlight := s.inFlight - multiset{oid});
    if s.superseding.Some? {
      RunNextCensus(s1);
    } else {
      WakeCensus(s1, OnOid(oid));
      if r.done >= r.count { FinishCensus(Wake(s1, OnOid(oid))); } else { RecoverNextCensus(Wake(s1, OnOid(oid))); }
    }
  }

  lemma ListDoneCensus(s: State, list: seq<nat>, extra: nat)
    requires Shaped(s) && s.current.Some? && s.lists > 0 && s.current.value.next <= |list|
    ensures SameCensus(s, ListDone(s, list, extra))
  {
    hide RunNext, RecoverSome, Finish;
    var s1 := s.(current :=
      Some(s.current.value.(phase := RecoverObj, count := |list|, oids := list + [extra], listed := list)),
        lists := s.lists - 1);
    if s.superseding.Some? {
      RunNextCensus(s1);
    } else if |list| == 0 {
      FinishCensus(s1);
    } else {
      RecoverSomeCensus(s1, s.threads);
    }
  }

  lemma StartCensus(s: State, epoch: nat)
    requires Shaped(s)
    ensures SameCensus(s, Start(s, epoch))
  {
    hide Resume, Wake;
    var s1 := s.(epoch := epoch);
    if s.current.Some? {
      ResumeCensus(s1.(superseding := Some(Fresh(epoch))));
      WakeCensus(Resume(s1.(superseding := Some(Fresh(epoch)))), OnEpoch);
    } else {
      WakeCensus(s1.(current := Some(Fresh(epoch)), lists := s.lists + 1), OnEpoch);
    }
  }

  lemma RemovedCensus(s: State, i: nat, s1: State)
    requires i < |s.running| && s1 == s.(running := s.running[..i] + s.running[i + 1..])
    ensures Census(s) == Census(s1) + multiset{s.running[i].id}
  {
    var q := s.running[i];
    assert s.running == s.running[..i] + ([q] + s.running[i + 1..]);
    IdsConcat(s.running[..i], [q] + s.running[i + 1..]);
    IdsConcat(s.running[..i], s.running[i + 1..]);
    IdsConcat([q], s.running[i + 1..]);
    IdsAppend([], q);
    assert [] + [q] == [q];
  }

  lemma RequestDoneCensus(s: State, i: nat, o: Outcome)
    requires Shaped(s) && i < |s.running|
    ensures SameCensus(s, RequestDone(s, i, o))
  {
    hide Submit, Sleep, Respond, Census;
    var q, s1 := s.running[i], s.(running := s.running[..i] + s.running[i + 1..]);
    RemovedCensus(s, i, s1);
    SubmitCensus(s1, q); RespondCensus(s1, q);
    if o.OldVersion? { SleepCensus(s1, q.(result := OldNodeVer, rpEpoch := o.rpEpoch)); }
  }

  /** No step loses or duplicates a request. */
  lemma NextCensus(s: State, t: Step)
    requires Inv(s) && Enabled(s, t)
    ensures Census(Apply(s, t)) == Census(s) + if t.NewRequest? then multiset{t.q.id} else multiset{}
  {
    hide Start, ListDone, ObjDone, Wake, Resume, Submit, RequestDone, Ids;
    match t
    case StartRecovery(epoch) => StartCensus(s, epoch);
    case ListPrepared(list, extra) => ListDoneCensus(s, list, extra);
    case ObjectRecovered(oid) => ObjDoneKeeps(s, oid); ObjDoneCensus(s, oid);
    case DirectRecovered(oid) => WakeCensus(s.(direct := s.direct - multiset{oid}), OnOid(oid));
    case EnableRecovery => ResumeCensus(s.(disabled := false));
    case NewRequest(q) => SubmitCensus(s, q);
    case WorkerDone(i, o) => RequestDoneCensus(s, i, o);
    case _ =>
  }

  // ---- a pending recovery does take over

  ghost predicate Drains(s: State, s': State, completed: nat) {
    if s'.superseding.Some? then |s'.inFlight| == |s.inFlight| - completed
      else s'.inFlight == multiset{} && s'.current == s.superseding
  }

  lemma RunNextDrains(s: State)
    requires Working(s) && s.superseding.Some?
    ensures Drains(s, RunNext(s), 0)
  {
    hide Wake;
  }

  lemma ObjDoneDrains(s: State, oid: nat)
    requires Inv(s) && oid in s.inFlight && s.superseding.Some?
    ensures s.current.Some? && Found(s.current.value.oids, s.current.value.done, s.current.value.next, oid)
    ensures Drains(s, ObjDone(s, oid), 1)
  {
    hide RunNext, Excused;
    ObjDoneKeeps(s, oid);
    FinishedWindow(s.current.value, oid);
    RunNextDrains(s.(current := Some(Finished(s.current.value, oid)), inFlight := s.inFlight - multiset{oid}));
  }

  lemma StartDrains(s: State, epoch: nat)
    requires Inv(s) && s.superseding.Some?
    ensures Drains(s, Start(s, epoch), 0)
  {
    hide Wake, Excused;
  }

  lemma ListDoneDrains(s: State, list: seq<nat>, extra: nat)
    requires Inv(s) && s.lists > 0 && s.superseding.Some?
    ensures s.current.Some? && s.current.value.next <= |list|
    ensures Drains(s, ListDone(s, list, extra), 0) && ListDone(s, list, extra).superseding.None?
  {
    hide Wake, Excused;
  }

  lemma EnableDrains(s: State)
    requires Inv(s) && s.superseding.Some?
    ensures Drains(s, Resume(s.(disabled := false)), 0)
  {}

  lemma RequestDoneDrains(s: State, i: nat, o: Outcome)
    requires Shaped(s) && i < |s.running| && s.superseding.Some?
    ensures Drains(s, RequestDone(s, i, o), 0)
  {
    hide Submit;
    SubmitKeepsRest(s.(running := s.running[..i] + s.running[i + 1..]), s.running[i]);
  }

  /** While another recovery is pending nothing new goes in flight, every completion brings the
      take-over nearer, and it happens with the window empty and no other way. */
  lemma PendingDrains(s: State, t: Step)
    requires Inv(s) && Enabled(s, t) && s.superseding.Some?
    ensures Drains(s, Apply(s, t), if t.ObjectRecovered? then 1 else 0)
  {
    hide Wake, Submit, AllExcused, Windowed, Start, ListDone, ObjDone, Resume, RequestDone;
    match t
    case StartRecovery(epoch) => StartDrains(s, epoch);
    case ListPrepared(list, extra) => ListDoneDrains(s, list, extra);
    case ObjectRecovered(oid) => ObjDoneDrains(s, oid);
    case EnableRecovery => EnableDrains(s);
    case WorkerDone(i, o) => RequestDoneDrains(s, i, o);
    case NewRequest(q) => SubmitKeepsRest(s, q);
    case _ =>
  }
}
