/** Generational reference counting of data objects: snapshots and clones copy references
    (sheep/vdi.c), overwrites give them up with asynchronous decrements (sheep/gateway.c), and a
    ledger per data object decides when it can be removed (sheep/ops.c), unless the reference given up
    was never copied: then the object is removed at once (sheep/store/common.c). */
module GenerationalRefcount {
  import opened Sequences

  const U32: nat := 0x1_0000_0000
  const LEDGER_ENTRIES: nat := 1048576

  datatype Gref = Gref(generation: nat, count: nat)
  datatype Oid = Oid(vid: nat, idx: nat)
  datatype Msg = Msg(oid: Oid, gref: Gref)
  /** data_vdi_id[] and gref[] of one inode. */
  datatype Inode = Inode(vids: seq<nat>, gref: seq<Gref>)
  type Ledger = seq<nat>
  datatype State = State(inodes: seq<Inode>, msgs: seq<Msg>, ledgers: map<Oid, Ledger>, objects: set<Oid>)

  const NO_COPIES := Gref(0, 0)

  // ---- what is outstanding

  /** What an outstanding reference is worth in generation g. */
  function Worth(r: Gref, g: nat): (w: int) {
    (if r.generation == g then 1 else 0) - (if r.generation + 1 == g then r.count else 0)
  }

  ghost predicate Refers(v: Inode, o: Oid) {
    |v.vids| == |v.gref| && o.idx < |v.vids| && v.vids[o.idx] == o.vid
  }

  ghost function SlotWorth(v: Inode, o: Oid, g: nat): (w: int) {
    if Refers(v, o) then Worth(v.gref[o.idx], g) else 0
  }

  ghost function MsgWorth(m: Msg, o: Oid, g: nat): (w: int) {
    if m.oid == o then Worth(m.gref, g) else 0
  }

  ghost function SumInodes(vs: seq<Inode>, o: Oid, g: nat, n: nat): (w: int)
    requires n <= |vs|
  {
    if n == 0 then 0 else SumInodes(vs, o, g, n - 1) + SlotWorth(vs[n - 1], o, g)
  }

  ghost function SumMsgs(ms: seq<Msg>, o: Oid, g: nat, n: nat): (w: int)
    requires n <= |ms|
  {
    if n == 0 then 0 else SumMsgs(ms, o, g, n - 1) + MsgWorth(ms[n - 1], o, g)
  }

  /** Outstanding references of generation g minus the copies made of those of generation g - 1. */
  ghost function Balance(s: State, o: Oid, g: nat): (w: int) {
    SumInodes(s.inodes, o, g, |s.inodes|) + SumMsgs(s.msgs, o, g, |s.msgs|)
  }

  /** Some inode refers to o, or a decrement for it is still under way. */
  ghost predicate Outstanding(s: State, o: Oid) {
    (exists k :: 0 <= k < |s.inodes| && Refers(s.inodes[k], o)) || exists j :: 0 <= j < |s.msgs| && s.msgs[j].oid == o
  }

  // ---- the ledger

  /** A data object without a ledger object has the one reference it was created with. */
  function InitialLedger(): (l: Ledger)
    ensures |l| == LEDGER_ENTRIES && forall g :: 0 <= g < |l| ==> l[g] == if g == 0 then 1 else 0
  {
    seq(LEDGER_ENTRIES, g => if g == 0 then 1 else 0)
  }

  function LedgerOf(ledgers: map<Oid, Ledger>, o: Oid): (l: Ledger) {
    if o in ledgers then ledgers[o] else InitialLedger()
  }

  predicate IsZero(l: Ledger) {
    forall g :: 0 <= g < |l| ==> l[g] == 0
  }

  /** One decrement, in 32-bit arithmetic. */
  function Charged(l: Ledger, r: Gref): (l': Ledger)
    requires r.generation + 1 < |l|
    ensures |l'| == |l|
    ensures forall g :: 0 <= g < |l| ==>
      l'[g] == if g == r.generation then (l[g] - 1) % U32 else if g == r.generation + 1 then (l[g] + r.count) % U32
        else l[g]
  {
    l[r.generation := (l[r.generation] - 1) % U32][r.generation + 1 := (l[r.generation + 1] + r.count) % U32]
  }

  ghost predicate Congruent(a: int, b: int) { (a - b) % U32 == 0 }

  ghost predicate IsLedger(l: Ledger) {
    |l| == LEDGER_ENTRIES && forall g :: 0 <= g < |l| ==> 0 <= l[g] < U32
  }

  ghost predicate Law(s: State, o: Oid)
    requires IsLedger(LedgerOf(s.ledgers, o))
  {
    forall g :: 0 <= g < LEDGER_ENTRIES ==> Congruent(LedgerOf(s.ledgers, o)[g], Balance(s, o, g))
  }

  /** Counts are 32 bits wide, and a decrement has to find its place in the ledger. */
  ghost predicate Bounded(r: Gref) { r.generation + 1 < LEDGER_ENTRIES && r.count < U32 }

  ghost predicate GoodInode(v: Inode) {
    |v.vids| == |v.gref| && forall i :: 0 <= i < |v.gref| ==> Bounded(v.gref[i])
  }

  ghost predicate WellFormed(s: State) {
    (forall k :: 0 <= k < |s.inodes| ==> GoodInode(s.inodes[k])) &&
    (forall j :: 0 <= j < |s.msgs| ==> s.msgs[j].oid.vid != 0 && Bounded(s.msgs[j].gref)) &&
    (forall o :: o in s.ledgers ==> IsLedger(s.ledgers[o]))
  }

  /** The ledger tells the truth about the object, which exists exactly while something is
      outstanding. */
  ghost predicate Accounted(s: State, o: Oid)
    requires WellFormed(s)
  {
    (o in s.objects <==> Outstanding(s, o)) && if o in s.objects then Law(s, o) else o !in s.ledgers
  }

  ghost predicate Inv(s: State) {
    WellFormed(s) && forall o: Oid :: o.vid != 0 ==> Accounted(s, o)
  }

  // ---- sums

  lemma {:induction false} SumInodesUpdate(vs: seq<Inode>, k: nat, v: Inode, o: Oid, g: nat, n: nat)
    requires k < |vs| && n <= |vs|
    ensures SumInodes(vs[k := v], o, g, n) == SumInodes(vs, o, g, n) + if k < n
      then SlotWorth(v, o, g) - SlotWorth(vs[k], o, g) else 0
  {
    if n > 0 { SumInodesUpdate(vs, k, v, o, g, n - 1); }
  }

  lemma {:induction false} SumInodesPrefix(vs: seq<Inode>, v: Inode, o: Oid, g: nat, n: nat)
    requires n <= |vs|
    ensures SumInodes(vs + [v], o, g, n) == SumInodes(vs, o, g, n)
  {
    if n > 0 { SumInodesPrefix(vs, v, o, g, n - 1); }
  }

  lemma {:induction false} SumMsgsPrefix(ms: seq<Msg>, ms': seq<Msg>, o: Oid, g: nat, n: nat)
    requires n <= |ms| && n <= |ms'| && forall j :: 0 <= j < n ==> ms[j] == ms'[j]
    ensures SumMsgs(ms', o, g, n) == SumMsgs(ms, o, g, n)
  {
    if n > 0 { SumMsgsPrefix(ms, ms', o, g, n - 1); }
  }

  function Without(ms: seq<Msg>, j: nat): (r: seq<Msg>)
    requires j < |ms|
    ensures |r| == |ms| - 1 && forall i :: 0 <= i < |r| ==> r[i] == if i < j then ms[i] else ms[i + 1]
  {
    ms[..j] + ms[j + 1..]
  }

  lemma {:induction false} SumMsgsWithout(ms: seq<Msg>, j: nat, o: Oid, g: nat, n: nat)
    requires j < n <= |ms|
    ensures SumMsgs(Without(ms, j), o, g, n - 1) == SumMsgs(ms, o, g, n) - MsgWorth(ms[j], o, g)
  {
    if n == j + 1 {
      SumMsgsPrefix(ms, Without(ms, j), o, g, j);
    } else {
      SumMsgsWithout(ms, j, o, g, n - 1);
    }
  }

  lemma {:induction false} NothingSums(s: State, o: Oid, g: nat, n: nat, m: nat)
    requires !Outstanding(s, o) && n <= |s.inodes| && m <= |s.msgs|
    ensures SumInodes(s.inodes, o, g, n) == 0 && SumMsgs(s.msgs, o, g, m) == 0
    decreases n + m
  {
    if n > 0 { NothingSums(s, o, g, n - 1, m); }
    if m > 0 { NothingSums(s, o, g, n, m - 1); }
  }

  // ---- an all-zero ledger means that nothing is outstanding

  /** No outstanding reference of a generation below g. */
  ghost predicate NoneBelow(s: State, o: Oid, g: nat) {
    (forall k :: 0 <= k < |s.inodes| && Refers(s.inodes[k], o) ==> s.inodes[k].gref[o.idx].generation >= g) &&
    (forall j :: 0 <= j < |s.msgs| && s.msgs[j].oid == o ==> s.msgs[j].gref.generation >= g)
  }

  lemma {:induction false} InodesOfGeneration(s: State, o: Oid, g: nat, n: nat)
    requires NoneBelow(s, o, g) && n <= |s.inodes|
    ensures 0 <= SumInodes(s.inodes, o, g, n) <= n
    ensures SumInodes(s.inodes, o, g, n) == 0 ==>
      forall k :: 0 <= k < n && Refers(s.inodes[k], o) ==> s.inodes[k].gref[o.idx].generation > g
  {
    if n > 0 { InodesOfGeneration(s, o, g, n - 1); }
  }

  lemma {:induction false} MsgsOfGeneration(s: State, o: Oid, g: nat, n: nat)
    requires NoneBelow(s, o, g) && n <= |s.msgs|
    ensures 0 <= SumMsgs(s.msgs, o, g, n) <= n
    ensures SumMsgs(s.msgs, o, g, n) == 0 ==>
      forall j :: 0 <= j < n && s.msgs[j].oid == o ==> s.msgs[j].gref.generation > g
  {
    if n > 0 { MsgsOfGeneration(s, o, g, n - 1); }
  }

  /** Fewer references and decrements than the 32-bit ledger entries can count. */
  ghost predicate Countable(s: State) { |s.inodes| + |s.msgs| < U32 }

  lemma {:induction false} ZeroBelow(s: State, o: Oid, g: nat)
    requires WellFormed(s) && Countable(s) && g <= LEDGER_ENTRIES
    requires Law(s, o) && IsZero(LedgerOf(s.ledgers, o))
    ensures NoneBelow(s, o, g)
  {
    if g > 0 {
      ZeroBelow(s, o, g - 1);
      InodesOfGeneration(s, o, g - 1, |s.inodes|);
      MsgsOfGeneration(s, o, g - 1, |s.msgs|);
      assert Congruent(LedgerOf(s.ledgers, o)[g - 1], Balance(s, o, g - 1));
    }
  }

  lemma {:induction false} ZeroExactlyWhenNothing(s: State, o: Oid)
    requires WellFormed(s) && Countable(s) && Law(s, o)
    ensures IsZero(LedgerOf(s.ledgers, o)) <==> !Outstanding(s, o)
  {
    var l := LedgerOf(s.ledgers, o);
    if IsZero(l) {
      ZeroBelow(s, o, LEDGER_ENTRIES);
    }
    if !Outstanding(s, o) {
      forall g | 0 <= g < |l| ensures l[g] == 0 {
        NothingSums(s, o, g, |s.inodes|, |s.msgs|);
        assert Congruent(l[g], Balance(s, o, g));
      }
    }
  }

  // ---- delivery of a decrement

  /** Ledgers and data objects after one decrement. */
  function Settled(ledgers: map<Oid, Ledger>, objects: set<Oid>, o: Oid, r: Gref): (r': (map<Oid, Ledger>, set<Oid>))
    requires r.generation + 1 < |LedgerOf(ledgers, o)|
  {
    var l := Charged(LedgerOf(ledgers, o), r);
    if IsZero(l) then (ledgers - {o}, objects - {o}) else (ledgers[o := l], objects)
  }

  /** The same for a message under way, were it charged to the ledger whatever its gref. */
  function Charge(s: State, j: nat): (s': State)
    requires j < |s.msgs| && s.msgs[j].gref.generation + 1 < |LedgerOf(s.ledgers, s.msgs[j].oid)|
  {
    var (ledgers, objects) := Settled(s.ledgers, s.objects, s.msgs[j].oid, s.msgs[j].gref);
    State(s.inodes, Without(s.msgs, j), ledgers, objects)
  }

  lemma CongruentShift(a: int, b: int, c: int)
    requires Congruent(a, b)
    ensures Congruent((a + c) % U32, b + c)
  {}

  lemma ChargedWorth(l: Ledger, r: Gref, g: nat, b: int)
    requires r.generation + 1 < |l| && g < |l| && Congruent(l[g], b)
    ensures Congruent(Charged(l, r)[g], b - Worth(r, g))
  {
    if g == r.generation {
      CongruentShift(l[g], b, -1);
    } else if g == r.generation + 1 {
      CongruentShift(l[g], b, r.count);
    }
  }

  lemma OutstandingWithout(s: State, s': State, j: nat, o: Oid)
    requires j < |s.msgs| && s'.inodes == s.inodes && s'.msgs == Without(s.msgs, j)
    ensures Outstanding(s', o) ==> Outstanding(s, o)
    ensures s.msgs[j].oid != o ==> (Outstanding(s', o) <==> Outstanding(s, o))
  {
    if i :| 0 <= i < |s.msgs| && i != j && s.msgs[i].oid == o {
      assert s'.msgs[if i < j then i else i - 1].oid == o;
    }
  }

  /** The ledger after the decrement accounts for what is then outstanding. */
  lemma ChargeLaw(s: State, j: nat, o: Oid, s': State)
    requires WellFormed(s) && WellFormed(s') && j < |s.msgs| && Law(s, o)
    requires s'.inodes == s.inodes && s'.msgs == Without(s.msgs, j)
    requires LedgerOf(s'.ledgers, o) == if o == s.msgs[j].oid then Charged(LedgerOf(s.ledgers, o), s.msgs[j].gref)
      else LedgerOf(s.ledgers, o)
    ensures Law(s', o)
  {
    var m := s.msgs[j];
    forall g | 0 <= g < LEDGER_ENTRIES ensures Congruent(LedgerOf(s'.ledgers, o)[g], Balance(s', o, g)) {
      SumMsgsWithout(s.msgs, j, o, g, |s.msgs|);
      assert Congruent(LedgerOf(s.ledgers, o)[g], Balance(s, o, g));
      if m.oid == o { ChargedWorth(LedgerOf(s.ledgers, o), m.gref, g, Balance(s, o, g)); }
    }
  }

  lemma ChargeTarget(s: State, j: nat)
    requires Inv(s) && Countable(s) && j < |s.msgs|
    ensures WellFormed(Charge(s, j)) && Accounted(Charge(s, j), s.msgs[j].oid)
  {
    hide Law;
    var m, s' := s.msgs[j], Charge(s, j);
    var o := m.oid;
    assert Outstanding(s, o) && Accounted(s, o);
    var l := Charged(LedgerOf(s.ledgers, o), m.gref);
    var charged := State(s.inodes, s'.msgs, s.ledgers[o := l], s.objects);
    ChargeLaw(s, j, o, charged);
    ZeroExactlyWhenNothing(charged, o);
  }

  lemma ChargeOther(s: State, j: nat, o: Oid)
    requires Inv(s) && j < |s.msgs| && s.msgs[j].oid != o && o.vid != 0 && WellFormed(Charge(s, j))
    ensures Accounted(Charge(s, j), o)
  {
    hide Law;
    assert Accounted(s, o);
    OutstandingWithout(s, Charge(s, j), j, o);
    if o in s.objects { ChargeLaw(s, j, o, Charge(s, j)); }
  }

  /** Charging in any order keeps every ledger right; a data object goes exactly with its last
      reference. */
  lemma ChargeKeeps(s: State, j: nat)
    requires Inv(s) && Countable(s) && j < |s.msgs|
    ensures Inv(Charge(s, j)) && Countable(Charge(s, j))
  {
    ChargeTarget(s, j);
    forall o: Oid | o.vid != 0 && o != s.msgs[j].oid ensures Accounted(Charge(s, j), o) { ChargeOther(s, j, o); }
  }

  // ---- removal without a look at the ledger

  /** What sd_dec_object_refcnt() does: a reference that was never copied takes the object with it, and
      any other is charged to the ledger. */
  function Dropped(ledgers: map<Oid, Ledger>, objects: set<Oid>, o: Oid, r: Gref): (r': (map<Oid, Ledger>, set<Oid>))
    requires r == NO_COPIES || r.generation + 1 < |LedgerOf(ledgers, o)|
  {
    if r == NO_COPIES then (ledgers, objects - {o}) else Settled(ledgers, objects, o, r)
  }

  function Deliver(s: State, j: nat): (s': State)
    requires j < |s.msgs|
    requires s.msgs[j].gref == NO_COPIES || s.msgs[j].gref.generation + 1 < |LedgerOf(s.ledgers, s.msgs[j].oid)|
  {
    var (ledgers, objects) := Dropped(s.ledgers, s.objects, s.msgs[j].oid, s.msgs[j].gref);
    State(s.inodes, Without(s.msgs, j), ledgers, objects)
  }

  /** No reference has been copied more often than there are inodes to show for it. */
  ghost predicate FewCopies(s: State) {
    (forall k, i :: 0 <= k < |s.inodes| && 0 <= i < |s.inodes[k].gref| ==> s.inodes[k].gref[i].count < |s.inodes|) &&
    (forall j :: 0 <= j < |s.msgs| ==> s.msgs[j].gref.count < |s.inodes|)
  }

  /** Who holds an outstanding reference: an inode, or a decrement under way. */
  datatype Holder = AnInode(k: nat) | AMsg(j: nat)

  ghost predicate Held(s: State, o: Oid, x: Holder) {
    match x
    case AnInode(k) => k < |s.inodes| && Refers(s.inodes[k], o)
    case AMsg(j) => j < |s.msgs| && s.msgs[j].oid == o
  }

  ghost function GrefAt(s: State, o: Oid, x: Holder): (r: Gref)
    requires Held(s, o, x)
  {
    match x
    case AnInode(k) => s.inodes[k].gref[o.idx]
    case AMsg(j) => s.msgs[j].gref
  }

  /** A reference that was never copied is the only one to its object, which has no ledger. */
  ghost predicate Alone(s: State, o: Oid) {
    (forall x, y :: Held(s, o, x) && Held(s, o, y) && x != y ==> GrefAt(s, o, x) != NO_COPIES) &&
    (forall x :: Held(s, o, x) && GrefAt(s, o, x) == NO_COPIES ==> o !in s.ledgers)
  }

  ghost predicate Sole(s: State) { FewCopies(s) && forall o: Oid :: o.vid != 0 ==> Alone(s, o) }

  lemma HeldOutstanding(s: State, o: Oid)
    ensures Outstanding(s, o) <==> exists x :: Held(s, o, x)
  {
    if k :| 0 <= k < |s.inodes| && Refers(s.inodes[k], o) { assert Held(s, o, AnInode(k)); }
    if j :| 0 <= j < |s.msgs| && s.msgs[j].oid == o { assert Held(s, o, AMsg(j)); }
    if x :| Held(s, o, x) {
      match x
      case AnInode(k) => assert Refers(s.inodes[k], o);
      case AMsg(j) => assert s.msgs[j].oid == o;
    }
  }

  /** The holder that x was before message j was delivered. */
  ghost function BeforeDelivery(x: Holder, j: nat): (y: Holder) {
    if x.AMsg? && x.j >= j then AMsg(x.j + 1) else x
  }

  /** A decrement of a reference that was never copied leaves nothing outstanding, and removing the
      object is what the ledger would have done. */
  lemma DirectAgrees(s: State, j: nat)
    requires WellFormed(s) && j < |s.msgs| && s.msgs[j].gref == NO_COPIES && Alone(s, s.msgs[j].oid)
    ensures Deliver(s, j) == Charge(s, j)
    ensures !Outstanding(Deliver(s, j), s.msgs[j].oid) && s.msgs[j].oid !in s.ledgers
  {
    hide Alone;
    var o, s' := s.msgs[j].oid, Deliver(s, j);
    forall x | Held(s', o, x) ensures Held(s, o, BeforeDelivery(x, j)) && BeforeDelivery(x, j) != AMsg(j) {}
    assert o !in s.ledgers && forall x :: Held(s, o, x) ==> x == AMsg(j) by { OnlyHolder(s, o, AMsg(j)); }
    assert IsZero(Charged(InitialLedger(), NO_COPIES));
    assert s.ledgers - {o} == s.ledgers;
    HeldOutstanding(s', o);
  }

  /** The ledger law alone would not make that removal right: here the ledger tells the truth, and the
      decrement would take the object from under the inode. */
  lemma LawIsNotEnough(ledger: Ledger, s: State)
    requires ledger == seq(LEDGER_ENTRIES, g => if g <= 1 then 1 else 0)
    requires s == State([Inode([1], [Gref(1, 0)])], [Msg(Oid(1, 0), NO_COPIES)], map[Oid(1, 0) := ledger], {Oid(1, 0)})
    ensures Inv(s) && Countable(s)
    ensures Outstanding(Deliver(s, 0), Oid(1, 0)) && Oid(1, 0) !in Deliver(s, 0).objects
  {
    var o := Oid(1, 0);
    assert Refers(s.inodes[0], o) && Refers(Deliver(s, 0).inodes[0], o);
    assert GoodInode(s.inodes[0]) && s.msgs[0].oid == o;
    forall g | 0 <= g < LEDGER_ENTRIES ensures Congruent(ledger[g], Balance(s, o, g)) {
      assert SumInodes(s.inodes, o, g, 0) == 0 && SumMsgs(s.msgs, o, g, 0) == 0;
      assert SumInodes(s.inodes, o, g, 1) == Worth(Gref(1, 0), g) && SumMsgs(s.msgs, o, g, 1) == Worth(NO_COPIES, g);
    }
  }

  lemma OnlyHolder(s: State, o: Oid, x: Holder)
    requires Alone(s, o) && Held(s, o, x) && GrefAt(s, o, x) == NO_COPIES
    ensures o !in s.ledgers && forall y :: Held(s, o, y) ==> y == x
  {}

  lemma DeliverAlone(s: State, j: nat, s': State, o: Oid)
    requires j < |s.msgs| && s'.inodes == s.inodes && s'.msgs == Without(s.msgs, j) && Alone(s, o)
    requires o != s.msgs[j].oid ==> (o in s'.ledgers ==> o in s.ledgers)
    ensures Alone(s', o)
  {
    forall x | Held(s', o, x)
      ensures Held(s, o, BeforeDelivery(x, j)) && GrefAt(s', o, x) == GrefAt(s, o, BeforeDelivery(x, j))
    {}
    if o == s.msgs[j].oid {
      assert Held(s, o, AMsg(j));
      forall x | Held(s', o, x) ensures GrefAt(s', o, x) != NO_COPIES { assert BeforeDelivery(x, j) != AMsg(j); }
    }
  }

  /** Delivery in any order: every ledger stays right, and a data object goes exactly with its last
      reference, whether or not a ledger is looked at. */
  lemma DeliverKeeps(s: State, j: nat)
    requires Inv(s) && Sole(s) && Countable(s) && j < |s.msgs|
    ensures Deliver(s, j) == Charge(s, j)
    ensures Inv(Deliver(s, j)) && Sole(Deliver(s, j)) && Countable(Deliver(s, j))
  {
    hide Inv, Alone, Settled;
    MsgFormed(s, j);
    if s.msgs[j].gref == NO_COPIES { DirectAgrees(s, j); }
    ChargeKeeps(s, j);
    var s' := Deliver(s, j);
    SettledOthers(s.ledgers, s.objects, s.msgs[j].oid, s.msgs[j].gref);
    forall o: Oid | o.vid != 0 ensures Alone(s', o) { DeliverAlone(s, j, s', o); }
  }

  lemma MsgFormed(s: State, j: nat)
    requires Inv(s) && j < |s.msgs|
    ensures WellFormed(s) && s.msgs[j].oid.vid != 0
    ensures s.msgs[j].gref.generation + 1 < |LedgerOf(s.ledgers, s.msgs[j].oid)|
  {
    assert Bounded(s.msgs[j].gref);
  }

  lemma SettledOthers(ledgers: map<Oid, Ledger>, objects: set<Oid>, o: Oid, r: Gref)
    requires r.generation + 1 < |LedgerOf(ledgers, o)|
    ensures forall p :: p != o ==> (p in Settled(ledgers, objects, o, r).0 <==> p in ledgers)
  {}

  // ---- snapshot and clone

  function Parent(v: Inode): (r: Inode)
    requires |v.vids| == |v.gref|
    ensures |r.vids| == |r.gref| == |v.vids| && r.vids == v.vids
    ensures forall i :: 0 <= i < |v.vids| ==>
      r.gref[i] == if v.vids[i] == 0 then v.gref[i] else v.gref[i].(count := (v.gref[i].count + 1) % U32)
  {
    Inode(v.vids, seq(|v.gref|, i requires 0 <= i < |v.gref| =>
      if v.vids[i] == 0 then v.gref[i] else v.gref[i].(count := (v.gref[i].count + 1) % U32)))
  }

  function Child(v: Inode): (r: Inode)
    requires |v.vids| == |v.gref|
    ensures |r.vids| == |r.gref| == |v.vids| && r.vids == v.vids
    ensures forall i :: 0 <= i < |v.vids| ==>
      r.gref[i] == if v.vids[i] == 0 then NO_COPIES else Gref(v.gref[i].generation + 1, 0)
  {
    Inode(v.vids, seq(|v.gref|, i requires 0 <= i < |v.gref| =>
      if v.vids[i] == 0 then NO_COPIES else Gref(v.gref[i].generation + 1, 0)))
  }

  function Copy(s: State, k: nat): (s': State)
    requires k < |s.inodes| && |s.inodes[k].vids| == |s.inodes[k].gref|
  {
    s.(inodes := s.inodes[k := Parent(s.inodes[k])] + [Child(s.inodes[k])])
  }

  /** The copy is not so deep that its decrements would miss the ledger. */
  ghost predicate Shallow(v: Inode) {
    |v.vids| == |v.gref| && forall i :: 0 <= i < |v.gref| ==> v.gref[i].generation + 2 < LEDGER_ENTRIES
  }

  /** What the parent's reference loses the child's gains. */
  lemma CopyWorth(v: Inode, o: Oid, g: nat)
    requires GoodInode(v) && o.vid != 0
    ensures Congruent(SlotWorth(Parent(v), o, g) + SlotWorth(Child(v), o, g), SlotWorth(v, o, g))
  {}

  lemma CopyBalance(s: State, k: nat, o: Oid, g: nat)
    requires k < |s.inodes| && GoodInode(s.inodes[k]) && o.vid != 0
    ensures Congruent(Balance(Copy(s, k), o, g), Balance(s, o, g))
  {
    var v, n := s.inodes[k], |s.inodes|;
    CopyWorth(v, o, g);
    SumInodesPrefix(s.inodes[k := Parent(v)], Child(v), o, g, n);
    SumInodesUpdate(s.inodes, k, Parent(v), o, g, n);
  }

  lemma CopyLaw(s: State, k: nat, o: Oid)
    requires k < |s.inodes| && GoodInode(s.inodes[k]) && o.vid != 0
    requires IsLedger(LedgerOf(s.ledgers, o)) && Law(s, o)
    ensures Law(Copy(s, k), o)
  {
    var s' := Copy(s, k);
    forall g | 0 <= g < LEDGER_ENTRIES ensures Congruent(LedgerOf(s'.ledgers, o)[g], Balance(s', o, g)) {
      CopyBalance(s, k, o, g);
      assert Congruent(LedgerOf(s.ledgers, o)[g], Balance(s, o, g));
    }
  }

  lemma CopyOutstanding(s: State, k: nat, o: Oid)
    requires k < |s.inodes| && GoodInode(s.inodes[k])
    ensures Outstanding(Copy(s, k), o) <==> Outstanding(s, o)
  {
    var s' := Copy(s, k);
    if i :| 0 <= i < |s.inodes| && Refers(s.inodes[i], o) { assert Refers(s'.inodes[i], o); }
    if i :| 0 <= i < |s'.inodes| && Refers(s'.inodes[i], o) {
      assert Refers(s.inodes[if i < |s.inodes| then i else k], o);
    }
  }

  lemma CopyKeeps(s: State, k: nat)
    requires Inv(s) && k < |s.inodes| && Shallow(s.inodes[k])
    ensures Inv(Copy(s, k))
  {
    hide Law;
    var s' := Copy(s, k);
    assert GoodInode(s.inodes[k]);
    assert GoodInode(Parent(s.inodes[k])) && GoodInode(Child(s.inodes[k]));
    forall o: Oid | o.vid != 0 ensures Accounted(s', o) {
      assert Accounted(s, o);
      CopyOutstanding(s, k, o);
      if o in s.objects { CopyLaw(s, k, o); }
    }
  }

  lemma CopyFew(s: State, k: nat)
    requires FewCopies(s) && k < |s.inodes| && GoodInode(s.inodes[k])
    ensures FewCopies(Copy(s, k))
  {
    var s' := Copy(s, k);
    forall n, i | 0 <= n < |s'.inodes| && 0 <= i < |s'.inodes[n].gref|
      ensures s'.inodes[n].gref[i].count < |s'.inodes|
    {
      assert n < |s.inodes| ==> s.inodes[n].gref[i].count < |s.inodes|;
    }
  }

  /** What is copied has no reference left that was never copied. */
  lemma CopyAlone(s: State, k: nat, o: Oid)
    requires FewCopies(s) && Countable(s) && k < |s.inodes| && GoodInode(s.inodes[k]) && o.vid != 0 && Alone(s, o)
    ensures Alone(Copy(s, k), o)
  {
    var s', v := Copy(s, k), s.inodes[k];
    if Refers(v, o) {
      assert Held(s, o, AnInode(k));
      assert v.gref[o.idx].count < |s.inodes|;
      forall x | Held(s', o, x) ensures GrefAt(s', o, x) != NO_COPIES {
        if x != AnInode(k) && x != AnInode(|s.inodes|) { assert Held(s, o, x); }
      }
    } else {
      forall x | Held(s', o, x) ensures Held(s, o, x) && GrefAt(s', o, x) == GrefAt(s, o, x) {}
    }
  }

  lemma CopySole(s: State, k: nat)
    requires Inv(s) && Sole(s) && Countable(s) && k < |s.inodes| && |s.inodes[k].vids| == |s.inodes[k].gref|
    ensures Sole(Copy(s, k))
  {
    hide Alone, Copy;
    assert GoodInode(s.inodes[k]);
    CopyFew(s, k);
    forall o: Oid | o.vid != 0 ensures Alone(Copy(s, k), o) { CopyAlone(s, k, o); }
  }

  // ---- overwriting slots of an inode

  ghost predicate HasSlot(s: State, k: nat, i: nat) {
    k < |s.inodes| && |s.inodes[k].vids| == |s.inodes[k].gref| && i < |s.inodes[k].vids|
  }

  /** Slot i of inode k is given vid y. Its gref is zeroed whether or not the vid changes; a
      decrement goes out only when it does. */
  function WriteSlot(s: State, k: nat, i: nat, y: nat): (s': State)
    requires HasSlot(s, k, i)
  {
    var v := s.inodes[k];
    var old_vid := v.vids[i];
    State(s.inodes[k := Inode(v.vids[i := y], v.gref[i := NO_COPIES])],
          if old_vid == 0 || old_vid == y then s.msgs else s.msgs + [Msg(Oid(old_vid, i), v.gref[i])],
          s.ledgers,
          if y == 0 || old_vid == y then s.objects else s.objects + {Oid(y, i)})
  }

  /** A vid written into a slot is the writer's own new data object, and a slot that keeps its
      vid has never been copied. */
  ghost predicate CleanSlot(s: State, k: nat, i: nat, y: nat)
    requires HasSlot(s, k, i)
  {
    if s.inodes[k].vids[i] == y then y == 0 || s.inodes[k].gref[i] == NO_COPIES else y == 0 || Oid(y, i) !in s.objects
  }

  lemma WriteSlotBalance(s: State, k: nat, i: nat, y: nat, o: Oid, g: nat)
    requires HasSlot(s, k, i) && o.vid != 0
    ensures Balance(WriteSlot(s, k, i, y), o, g) == Balance(s, o, g) +
      if o != Oid(y, i) then 0 else Worth(NO_COPIES, g) - if s.inodes[k].vids[i] == y then Worth(s.inodes[k].gref[i], g)
        else 0
  {
    var s' := WriteSlot(s, k, i, y);
    SumInodesUpdate(s.inodes, k, s'.inodes[k], o, g, |s.inodes|);
    SumMsgsPrefix(s.msgs, s'.msgs, o, g, |s.msgs|);
  }

  lemma WriteSlotOutstanding(s: State, k: nat, i: nat, y: nat, o: Oid)
    requires HasSlot(s, k, i) && o.vid != 0
    ensures Outstanding(WriteSlot(s, k, i, y), o) <==> Outstanding(s, o) || o == Oid(y, i)
  {
    var s' := WriteSlot(s, k, i, y);
    assert Refers(s'.inodes[k], Oid(y, i));
    if n :| 0 <= n < |s.inodes| && Refers(s.inodes[n], o) {
      if n == k && o.idx == i && s.inodes[k].vids[i] != y {
        assert s'.msgs[|s.msgs|].oid == o;
      } else {
        assert Refers(s'.inodes[n], o);
      }
    }
    if n :| 0 <= n < |s'.inodes| && Refers(s'.inodes[n], o) && o != Oid(y, i) { assert Refers(s.inodes[n], o); }
    if j :| 0 <= j < |s.msgs| && s.msgs[j].oid == o { assert s'.msgs[j].oid == o; }
    if j :| 0 <= j < |s'.msgs| && s'.msgs[j].oid == o { assert j == |s.msgs| ==> Refers(s.inodes[k], o); }
  }

  lemma WriteSlotFormed(s: State, k: nat, i: nat, y: nat)
    requires WellFormed(s) && HasSlot(s, k, i)
    ensures WellFormed(WriteSlot(s, k, i, y))
  {
    assert GoodInode(s.inodes[k]) && Bounded(s.inodes[k].gref[i]);
    assert GoodInode(WriteSlot(s, k, i, y).inodes[k]);
  }

  lemma WriteSlotLaw(s: State, k: nat, i: nat, y: nat, o: Oid)
    requires WellFormed(s) && HasSlot(s, k, i) && o.vid != 0 && Law(s, o)
    requires o == Oid(y, i) ==> s.inodes[k].vids[i] == y && s.inodes[k].gref[i] == NO_COPIES
    ensures Law(WriteSlot(s, k, i, y), o)
  {
    var s' := WriteSlot(s, k, i, y);
    forall g | 0 <= g < LEDGER_ENTRIES ensures Congruent(LedgerOf(s'.ledgers, o)[g], Balance(s', o, g)) {
      WriteSlotBalance(s, k, i, y, o, g);
      assert Congruent(LedgerOf(s.ledgers, o)[g], Balance(s, o, g));
    }
  }

  /** A new object starts with one reference, as a missing ledger says. */
  lemma WriteSlotNew(s: State, k: nat, i: nat, y: nat)
    requires WellFormed(s) && HasSlot(s, k, i) && y != 0 && s.inodes[k].vids[i] != y
    requires !Outstanding(s, Oid(y, i)) && Oid(y, i) !in s.ledgers
    ensures Law(WriteSlot(s, k, i, y), Oid(y, i))
  {
    var o, s' := Oid(y, i), WriteSlot(s, k, i, y);
    forall g | 0 <= g < LEDGER_ENTRIES ensures Congruent(LedgerOf(s'.ledgers, o)[g], Balance(s', o, g)) {
      WriteSlotBalance(s, k, i, y, o, g);
      NothingSums(s, o, g, |s.inodes|, |s.msgs|);
    }
  }

  lemma WriteSlotKeeps(s: State, k: nat, i: nat, y: nat)
    requires Inv(s) && HasSlot(s, k, i) && CleanSlot(s, k, i, y)
    ensures Inv(WriteSlot(s, k, i, y))
  {
    hide Law;
    var s' := WriteSlot(s, k, i, y);
    WriteSlotFormed(s, k, i, y);
    forall o: Oid | o.vid != 0 ensures Accounted(s', o) {
      assert Accounted(s, o);
      WriteSlotOutstanding(s, k, i, y, o);
      if o == Oid(y, i) && s.inodes[k].vids[i] == y { assert Refers(s.inodes[k], o); }
      if o == Oid(y, i) && s.inodes[k].vids[i] != y {
        WriteSlotNew(s, k, i, y);
      } else if o in s.objects {
        WriteSlotLaw(s, k, i, y, o);
      }
    }
  }

  /** The holder that x was before slot i of inode k was written: a new decrement was the slot. */
  ghost function BeforeWrite(s: State, k: nat, x: Holder): (y: Holder) {
    if x == AMsg(|s.msgs|) then AnInode(k) else x
  }

  lemma WriteSlotAlone(s: State, k: nat, i: nat, y: nat, o: Oid)
    requires HasSlot(s, k, i) && o.vid != 0 && Alone(s, o)
    requires o == Oid(y, i) ==> s.inodes[k].vids[i] == y && s.inodes[k].gref[i] == NO_COPIES
    ensures Alone(WriteSlot(s, k, i, y), o)
  {
    var s' := WriteSlot(s, k, i, y);
    forall x | Held(s', o, x)
      ensures Held(s, o, BeforeWrite(s, k, x)) && GrefAt(s', o, x) == GrefAt(s, o, BeforeWrite(s, k, x))
    {}
    assert Held(s', o, AMsg(|s.msgs|)) ==> !Held(s', o, AnInode(k));
  }

  lemma WriteSlotOwn(s: State, k: nat, i: nat, y: nat)
    requires HasSlot(s, k, i) && !Outstanding(s, Oid(y, i)) && Oid(y, i) !in s.ledgers
    ensures Alone(WriteSlot(s, k, i, y), Oid(y, i))
  {
    var o, s' := Oid(y, i), WriteSlot(s, k, i, y);
    HeldOutstanding(s, o);
    forall x | Held(s', o, x) ensures x == AnInode(k) { assert !Held(s, o, x); }
  }

  lemma WriteSlotFew(s: State, k: nat, i: nat, y: nat)
    requires FewCopies(s) && HasSlot(s, k, i)
    ensures FewCopies(WriteSlot(s, k, i, y))
  {
    assert s.inodes[k].gref[i].count < |s.inodes|;
  }

  lemma WriteSlotSole(s: State, k: nat, i: nat, y: nat)
    requires Inv(s) && Sole(s) && HasSlot(s, k, i) && CleanSlot(s, k, i, y)
    ensures Sole(WriteSlot(s, k, i, y))
  {
    hide Alone, WriteSlot, Law;
    WriteSlotFew(s, k, i, y);
    forall o: Oid | o.vid != 0 ensures Alone(WriteSlot(s, k, i, y), o) {
      assert Accounted(s, o);
      if o == Oid(y, i) && s.inodes[k].vids[i] != y {
        WriteSlotOwn(s, k, i, y);
      } else {
        WriteSlotAlone(s, k, i, y, o);
      }
    }
  }

  /** The unconditional zeroing of gref is right exactly when there was nothing to zero: rewriting
      a slot with the vid it has keeps the ledger law if and only if its gref is (0, 0). */
  lemma RewriteExact(s: State, k: nat, i: nat, y: nat)
    requires Inv(s) && HasSlot(s, k, i) && y != 0 && s.inodes[k].vids[i] == y
    ensures Law(WriteSlot(s, k, i, y), Oid(y, i)) <==> s.inodes[k].gref[i] == NO_COPIES
  {
    var o, s', r := Oid(y, i), WriteSlot(s, k, i, y), s.inodes[k].gref[i];
    assert Refers(s.inodes[k], o) && Accounted(s, o) && GoodInode(s.inodes[k]) && Bounded(r);
    if r == NO_COPIES {
      WriteSlotLaw(s, k, i, y, o);
    } else {
      var g := if r.generation == 0 then 1 else 0;
      WriteSlotBalance(s, k, i, y, o, g);
      assert Congruent(LedgerOf(s.ledgers, o)[g], Balance(s, o, g));
      assert !Congruent(LedgerOf(s'.ledgers, o)[g], Balance(s', o, g));
    }
  }

  // ---- a write of a range of slots

  ghost predicate HasRange(s: State, k: nat, start: nat, n: nat) {
    k < |s.inodes| && |s.inodes[k].vids| == |s.inodes[k].gref| && start + n <= |s.inodes[k].vids|
  }

  function Write(s: State, k: nat, start: nat, ys: seq<nat>, n: nat): (s': State)
    requires HasRange(s, k, start, n) && n <= |ys|
    ensures HasRange(s', k, start, n) && |s'.inodes| == |s.inodes| && |s'.inodes[k].vids| == |s.inodes[k].vids|
    ensures forall i :: start + n <= i < |s.inodes[k].vids| ==>
      s'.inodes[k].vids[i] == s.inodes[k].vids[i] && s'.inodes[k].gref[i] == s.inodes[k].gref[i]
    ensures |s'.msgs| <= |s.msgs| + n
  {
    if n == 0 then s else WriteSlot(Write(s, k, start, ys, n - 1), k, start + n - 1, ys[n - 1])
  }

  ghost predicate CleanWrite(s: State, k: nat, start: nat, ys: seq<nat>)
    requires HasRange(s, k, start, |ys|)
  {
    forall i :: 0 <= i < |ys| ==> CleanSlot(s, k, start + i, ys[i])
  }

  lemma {:induction false} WriteAdopts(s: State, k: nat, start: nat, ys: seq<nat>, n: nat, o: Oid)
    requires HasRange(s, k, start, n) && n <= |ys| && o.idx >= start + n
    ensures o in Write(s, k, start, ys, n).objects <==> o in s.objects
  {
    if n > 0 { WriteAdopts(s, k, start, ys, n - 1, o); }
  }

  lemma {:induction false} WriteKeeps(s: State, k: nat, start: nat, ys: seq<nat>, n: nat)
    requires Inv(s) && HasRange(s, k, start, |ys|) && CleanWrite(s, k, start, ys) && n <= |ys|
    ensures Inv(Write(s, k, start, ys, n)) && (Sole(s) ==> Sole(Write(s, k, start, ys, n)))
  {
    hide Inv, Sole, WriteSlot;
    if n > 0 {
      WriteKeeps(s, k, start, ys, n - 1);
      assert CleanSlot(s, k, start + (n - 1), ys[n - 1]);
      WriteAdopts(s, k, start, ys, n - 1, Oid(ys[n - 1], start + n - 1));
      WriteSlotKeeps(Write(s, k, start, ys, n - 1), k, start + n - 1, ys[n - 1]);
      if Sole(s) { WriteSlotSole(Write(s, k, start, ys, n - 1), k, start + n - 1, ys[n - 1]); }
    }
  }

  // ---- whole runs

  datatype Step =
    | CreateInode(width: nat)
    | CopyInode(base: nat)
    | WriteVids(inode: nat, start: nat, vids: seq<nat>)
    | DeliverDecref(msg: nat)

  ghost predicate Enabled(s: State, t: Step) {
    match t
    case CreateInode(_) => true
    case CopyInode(k) => k < |s.inodes| && Shallow(s.inodes[k])
    case WriteVids(k, start, ys) => HasRange(s, k, start, |ys|) && CleanWrite(s, k, start, ys)
    case DeliverDecref(j) => j < |s.msgs|
  }

  ghost function Apply(s: State, t: Step): (s': State)
    requires WellFormed(s) && Enabled(s, t)
  {
    match t
    case CreateInode(n) => s.(inodes := s.inodes + [Inode(seq(n, _ => 0), seq(n, _ => NO_COPIES))])
    case CopyInode(k) => Copy(s, k)
    case WriteVids(k, start, ys) => Write(s, k, start, ys, |ys|)
    case DeliverDecref(j) => assert Bounded(s.msgs[j].gref); Deliver(s, j)
  }

  const EMPTY := State([], [], map[], {})

  ghost predicate Next(s: State, t: Step, s': State) {
    Enabled(s, t) && (WellFormed(s) ==> s' == Apply(s, t))
  }

  /** ss is a run from the empty cluster. */
  ghost predicate Run(ss: seq<State>, ts: seq<Step>) {
    |ss| == |ts| + 1 && ss[0] == EMPTY &&
    (forall i :: 0 <= i < |ss| ==> Countable(ss[i])) &&
    forall i :: 0 <= i < |ts| ==> Next(ss[i], ts[i], ss[i + 1])
  }

  lemma CreateKeeps(s: State, n: nat)
    requires Inv(s)
    ensures Inv(Apply(s, CreateInode(n)))
  {
    var s' := Apply(s, CreateInode(n));
    var v := s'.inodes[|s.inodes|];
    assert GoodInode(v);
    forall o: Oid | o.vid != 0 ensures Accounted(s', o) {
      assert Accounted(s, o);
      if i :| 0 <= i < |s.inodes| && Refers(s.inodes[i], o) { assert Refers(s'.inodes[i], o); }
      assert Outstanding(s', o) <==> Outstanding(s, o);
      forall g | 0 <= g < LEDGER_ENTRIES && o in s.objects
        ensures Congruent(LedgerOf(s'.ledgers, o)[g], Balance(s', o, g))
      {
        SumInodesPrefix(s.inodes, v, o, g, |s.inodes|);
        assert Congruent(LedgerOf(s.ledgers, o)[g], Balance(s, o, g));
      }
    }
  }

  lemma CreateSole(s: State, n: nat)
    requires WellFormed(s) && Sole(s)
    ensures Sole(Apply(s, CreateInode(n)))
  {
    hide WellFormed;
    var s' := Apply(s, CreateInode(n));
    assert FewCopies(s') by {
      forall k, i | 0 <= k < |s.inodes| && 0 <= i < |s.inodes[k].gref|
        ensures s.inodes[k].gref[i].count < |s'.inodes|
      {
        assert s.inodes[k].gref[i].count < |s.inodes|;
      }
    }
    forall o: Oid | o.vid != 0 ensures Alone(s', o) {
      assert Alone(s, o);
      forall x | Held(s', o, x) ensures Held(s, o, x) && GrefAt(s', o, x) == GrefAt(s, o, x) {}
    }
  }

  lemma NextKeeps(s: State, t: Step, s': State)
    requires Inv(s) && Sole(s) && Countable(s) && Next(s, t, s')
    ensures Inv(s') && Sole(s')
  {
    hide Law, Write, Copy, Deliver, Sole;
    match t
    case CreateInode(n) => CreateKeeps(s, n); CreateSole(s, n);
    case CopyInode(k) => CopyKeeps(s, k); CopySole(s, k);
    case WriteVids(k, start, ys) => WriteKeeps(s, k, start, ys, |ys|);
    case DeliverDecref(j) => DeliverKeeps(s, j);
  }

  /** In every run, whatever the order in which decrements arrive, every ledger accounts for what
      is outstanding, a data object exists exactly while something is, and a reference that was never
      copied is the only one to its object. */
  lemma {:induction false} RunKeeps(ss: seq<State>, ts: seq<Step>, n: nat)
    requires Run(ss, ts) && n < |ss|
    ensures Inv(ss[n]) && Sole(ss[n])
  {
    if n == 0 {
      assert !exists o :: Outstanding(EMPTY, o);
      assert forall o, x :: !Held(EMPTY, o, x);
    } else {
      RunKeeps(ss, ts, n - 1);
      assert Next(ss[n - 1], ts[n - 1], ss[n]);
      NextKeeps(ss[n - 1], ts[n - 1], ss[n]);
    }
  }

  /** In every run the removal that does not look at the ledger is right: there is no ledger, nothing
      else is outstanding, and charging the ledger would have removed the object as well. */
  lemma DirectRemovalIsLast(ss: seq<State>, ts: seq<Step>, n: nat, j: nat)
    requires Run(ss, ts) && n < |ss| && j < |ss[n].msgs| && ss[n].msgs[j].gref == NO_COPIES
    ensures var s, o := ss[n], ss[n].msgs[j].oid;
      o in s.objects && o !in s.ledgers && !Outstanding(Deliver(s, j), o) && Deliver(s, j) == Charge(s, j)
  {
    RunKeeps(ss, ts, n);
    var s, o := ss[n], ss[n].msgs[j].oid;
    MsgFormed(s, j);
    assert Outstanding(s, o) && Accounted(s, o);
    DirectAgrees(s, j);
  }

  /** A data object that some inode can still reach is there to be read. */
  lemma NoDangling(ss: seq<State>, ts: seq<Step>, n: nat, k: nat, i: nat)
    requires Run(ss, ts) && n < |ss| && HasSlot(ss[n], k, i) && ss[n].inodes[k].vids[i] != 0
    ensures Oid(ss[n].inodes[k].vids[i], i) in ss[n].objects
  {
    RunKeeps(ss, ts, n);
    var o := Oid(ss[n].inodes[k].vids[i], i);
    assert Refers(ss[n].inodes[k], o) && Accounted(ss[n], o);
  }

  /** Once all decrements have arrived, every object left is reachable: nothing leaks. */
  lemma NoLeak(ss: seq<State>, ts: seq<Step>, n: nat, o: Oid) returns (k: nat)
    requires Run(ss, ts) && n < |ss| && ss[n].msgs == [] && o in ss[n].objects && o.vid != 0
    ensures HasSlot(ss[n], k, o.idx) && ss[n].inodes[k].vids[o.idx] == o.vid
  {
    RunKeeps(ss, ts, n);
    assert Accounted(ss[n], o);
    k :| 0 <= k < |ss[n].inodes| && Refers(ss[n].inodes[k], o);
  }

  /** An inode has written data object (1, 0) and nothing else has happened. */
  const WRITTEN := State([Inode([1], [NO_COPIES])], [], map[], {Oid(1, 0)})

  lemma WrittenInv()
    ensures Inv(WRITTEN)
  {
    assert !exists o :: Outstanding(EMPTY, o);
    var blank := Apply(EMPTY, CreateInode(1));
    CreateKeeps(EMPTY, 1);
    assert blank.inodes[0] == Inode([0], [NO_COPIES]);
    WriteSlotKeeps(blank, 0, 0, 1);
    var one := WriteSlot(blank, 0, 0, 1);
    assert one.inodes[0] == WRITTEN.inodes[0] && one.objects == WRITTEN.objects;
    assert one == WRITTEN;
  }

  /** The same inode, cloned once. */
  const CLONED := State([Inode([1], [Gref(0, 1)]), Inode([1], [Gref(1, 0)])], [], map[], {Oid(1, 0)})

  lemma ClonedInv()
    ensures Inv(CLONED)
  {
    WrittenInv();
    CopyKeeps(WRITTEN, 0);
    assert Parent(WRITTEN.inodes[0]) == CLONED.inodes[0] && Child(WRITTEN.inodes[0]) == CLONED.inodes[1];
    assert Copy(WRITTEN, 0) == CLONED;
  }

  /** Outside the clean writes the law is lost with consequences: when the first inode rewrites
      the same vid and then a new one, the decrement is that of a reference never copied, and the
      clone's object is removed under it without a look at the ledger. */
  lemma RewriteLosesObject(s1: State, s2: State)
    requires s1 == WriteSlot(CLONED, 0, 0, 1) && s2 == WriteSlot(s1, 0, 0, 2)
    ensures Inv(CLONED) && s2.msgs == [Msg(Oid(1, 0), NO_COPIES)]
    ensures Outstanding(Deliver(s2, 0), Oid(1, 0)) && Oid(1, 0) !in Deliver(s2, 0).objects
  {
    ClonedInv();
    assert Refers(Deliver(s2, 0).inodes[1], Oid(1, 0));
  }

  // ---- discarding an object

  /** local_discard_obj(): slot i of inode k, whose own vid is y, is given up, with the decrement that
      goes with it, and the inode's own object i is removed as well. */
  function Discard(s: State, k: nat, i: nat, y: nat): (s': State)
    requires HasSlot(s, k, i)
  {
    if s.inodes[k].vids[i] == 0 then s else
      var s1 := WriteSlot(s, k, i, 0);
      s1.(objects := s1.objects - {Oid(y, i)})
  }

  /** Whatever vid the slot holds, its decrement goes out; the slot is empty then, the inode's own object is
      gone, and nothing else changes. */
  lemma DiscardEffect(s: State, k: nat, i: nat, y: nat)
    requires HasSlot(s, k, i) && s.inodes[k].vids[i] != 0
    ensures var s', v := Discard(s, k, i, y), s.inodes[k];
      s'.msgs == s.msgs + [Msg(Oid(v.vids[i], i), v.gref[i])] && s'.ledgers == s.ledgers &&
      (forall o :: o in s'.objects <==> o in s.objects && o != Oid(y, i)) && |s'.inodes| == |s.inodes| &&
      (forall n, o: Oid :: 0 <= n < |s.inodes| && o.vid != 0 ==>
        (Refers(s'.inodes[n], o) <==> Refers(s.inodes[n], o) && !(n == k && o.idx == i)))
  {}

  /** Every object that an inode refers to is there. */
  ghost predicate NoneDangling(s: State) {
    forall k, o: Oid :: 0 <= k < |s.inodes| && o.vid != 0 && Refers(s.inodes[k], o) ==> o in s.objects
  }

  /** The removal is harmless if and only if no other inode refers to the object. */
  lemma DiscardExact(s: State, k: nat, i: nat, y: nat)
    requires Inv(s) && HasSlot(s, k, i) && s.inodes[k].vids[i] != 0 && y != 0
    ensures NoneDangling(Discard(s, k, i, y)) <==>
      forall n :: 0 <= n < |s.inodes| && n != k ==> !Refers(s.inodes[n], Oid(y, i))
  {
    hide Law;
    var s', a := Discard(s, k, i, y), Oid(y, i);
    forall n, o: Oid | 0 <= n < |s'.inodes| && o.vid != 0 && Refers(s'.inodes[n], o)
      ensures Refers(s.inodes[n], o) && (o in s'.objects <==> o != a) && (o == a ==> n != k)
    {
      assert Refers(s.inodes[n], o);
      assert Accounted(s, o);
    }
    forall n | 0 <= n < |s.inodes| && n != k && Refers(s.inodes[n], a) ensures Refers(s'.inodes[n], a) {}
  }

  /** Discarding an object of the inode's own that was never copied is harmless, and it only anticipates
      the decrement: once that has arrived nothing tells it from an ordinary write of 0. */
  lemma DiscardOwn(s: State, k: nat, i: nat, y: nat)
    requires Inv(s) && Sole(s) && HasSlot(s, k, i) && y != 0
    requires s.inodes[k].vids[i] == y && s.inodes[k].gref[i] == NO_COPIES
    ensures NoneDangling(Discard(s, k, i, y)) && Discard(s, k, i, y).msgs == s.msgs + [Msg(Oid(y, i), NO_COPIES)]
    ensures Deliver(Discard(s, k, i, y), |s.msgs|) == Deliver(WriteSlot(s, k, i, 0), |s.msgs|)
  {
    var o := Oid(y, i);
    assert Alone(s, o);
    assert Held(s, o, AnInode(k));
    forall n | 0 <= n < |s.inodes| && n != k ensures !Refers(s.inodes[n], o) { assert !Held(s, o, AnInode(n)); }
    DiscardExact(s, k, i, y);
  }

  /** While the decrement is under way the object must not come back: when the inode writes it anew, the
      late decrement removes it. */
  lemma DiscardThenWriteLosesObject(s1: State, s2: State)
    requires s1 == Discard(WRITTEN, 0, 0, 1) && s2 == WriteSlot(s1, 0, 0, 1)
    ensures Inv(WRITTEN) && NoneDangling(s1) && NoneDangling(s2) && s2.msgs == [Msg(Oid(1, 0), NO_COPIES)]
    ensures !NoneDangling(Deliver(s2, 0))
  {
    WrittenInv();
    assert s1.inodes[0] == Inode([0], [NO_COPIES]) && s2.inodes[0] == Inode([1], [NO_COPIES]);
    assert Refers(Deliver(s2, 0).inodes[0], Oid(1, 0));
  }

  // ---- the loops of the source

  method IsZeroLedger(ledger: array<nat>) returns (zero: bool)
    ensures zero <==> IsZero(ledger[..])
  {
    for i := 0 to ledger.Length
      invariant IsZero(ledger[..i])
    {
      if ledger[i] != 0 { return false; }
    }
    assert ledger[..] == ledger[..ledger.Length];
    return true;
  }

  /** The peer's side: ledger objects and data objects in its store. */
  class Peer {
    var ledgers: map<Oid, Ledger>
    var objects: set<Oid>

    method ReadLedger(o: Oid, ledger: array<nat>)
      requires ledger.Length == LEDGER_ENTRIES && (o in ledgers ==> |ledgers[o]| == LEDGER_ENTRIES)
      modifies ledger
      ensures ledger[..] == LedgerOf(ledgers, o)
    {
      for i := 0 to ledger.Length
        invariant forall k :: 0 <= k < i ==> ledger[k] == LedgerOf(ledgers, o)[k]
      {
        ledger[i] := if o in ledgers then ledgers[o][i] else if i == 0 then 1 else 0;
      }
    }

    method DecrefObject(o: Oid, generation: nat, count: nat)
      requires generation + 1 < LEDGER_ENTRIES && (o in ledgers ==> |ledgers[o]| == LEDGER_ENTRIES)
      modifies this
      ensures (ledgers, objects) == Settled(old(ledgers), old(objects), o, Gref(generation, count))
    {
      var ledger := new nat[LEDGER_ENTRIES];
      ReadLedger(o, ledger);
      ledger[generation] := (ledger[generation] - 1) % U32;
      ledger[generation + 1] := (ledger[generation + 1] + count) % U32;
      assert ledger[..] == Charged(LedgerOf(ledgers, o), Gref(generation, count));
      var zero := IsZeroLedger(ledger);
      if zero {
        ledgers := ledgers - {o};
        objects := objects - {o};
      } else {
        ledgers := ledgers[o := ledger[..]];
      }
    }

    /** sd_dec_object_refcnt(); for a decrement under way in a run, the object goes if and only if nothing
        is outstanding then. */
    method DecObjectRefcnt(o: Oid, generation: nat, count: nat)
      requires generation + 1 < LEDGER_ENTRIES && (o in ledgers ==> |ledgers[o]| == LEDGER_ENTRIES)
      modifies this
      ensures (ledgers, objects) == Dropped(old(ledgers), old(objects), o, Gref(generation, count))
      ensures forall s: State, j: nat :: Underway(s, j, o, Gref(generation, count), old(ledgers), old(objects)) ==>
        Inv(Deliver(s, j)) && Deliver(s, j) == State(s.inodes, Without(s.msgs, j), ledgers, objects) &&
        (o in objects <==> Outstanding(Deliver(s, j), o))
    {
      hide Inv, Sole, Settled, Outstanding;
      if generation == 0 && count == 0 {
        objects := objects - {o};
      } else {
        DecrefObject(o, generation, count);
      }
      forall s: State, j: nat | Underway(s, j, o, Gref(generation, count), old(ledgers), old(objects))
        ensures Inv(Deliver(s, j)) && (o in Deliver(s, j).objects <==> Outstanding(Deliver(s, j), o))
      {
        DeliverKeeps(s, j);
        MsgFormed(s, j);
        InvObject(Deliver(s, j), o);
      }
    }
  }

  /** Message j of s is the decrement r for o, and the peer holds what s says. */
  ghost predicate Underway(s: State, j: nat, o: Oid, r: Gref, ledgers: map<Oid, Ledger>, objects: set<Oid>) {
    Inv(s) && Sole(s) && Countable(s) && j < |s.msgs| && s.msgs[j] == Msg(o, r) &&
    r.generation + 1 < |LedgerOf(s.ledgers, o)| && s.ledgers == ledgers && s.objects == objects
  }

  lemma InvObject(s: State, o: Oid)
    requires Inv(s) && o.vid != 0
    ensures o in s.objects <==> Outstanding(s, o)
  {
    assert Accounted(s, o);
  }

  /** The decrements for the slots that lose their vid, each of them a call of DecObjectRefcnt. */
  function Discards(start: nat, vids: seq<nat>, ys: seq<nat>, refs: seq<Gref>, n: nat): (r: seq<Msg>)
    requires n <= |vids| == |ys| == |refs|
  {
    if n == 0 then [] else
      Discards(start, vids, ys, refs, n - 1) +
      if vids[n - 1] == 0 || vids[n - 1] == ys[n - 1] then [] else [Msg(Oid(vids[n - 1], start + n - 1), refs[n - 1])]
  }

  method UpdateObjRefcnt(start: nat, vids: seq<nat>, ys: seq<nat>, refs: seq<Gref>) returns (sent: seq<Msg>)
    requires |vids| == |ys| == |refs|
    ensures sent == Discards(start, vids, ys, refs, |vids|)
  {
    sent := [];
    for i := 0 to |vids|
      invariant sent == Discards(start, vids, ys, refs, i)
    {
      if vids[i] == 0 || vids[i] == ys[i] { continue; }
      sent := sent + [Msg(Oid(vids[i], i + start), refs[i])];
    }
  }

  lemma PatchedStep<T>(q: seq<T>, start: nat, ys: seq<T>, y: T)
    requires start + |ys| < |q|
    ensures Patched(q, start, ys)[start + |ys| := y] == Patched(q, start, ys + [y])
  {}

  /** A range write, slot by slot, amounts to replacing the range. */
  lemma {:induction false} WriteSlots(s: State, k: nat, start: nat, ys: seq<nat>, n: nat)
    requires HasRange(s, k, start, |ys|) && n <= |ys|
    ensures Write(s, k, start, ys, n).inodes[k].vids == Patched(s.inodes[k].vids, start, ys[..n])
    ensures Write(s, k, start, ys, n).inodes[k].gref == Patched(s.inodes[k].gref, start, seq(n, _ => NO_COPIES))
  {
    hide Patched;
    var v := s.inodes[k];
    if n == 0 {
      assert Patched(v.vids, start, ys[..n]) == v.vids && Patched(v.gref, start, seq(n, _ => NO_COPIES)) == v.gref;
    } else {
      WriteSlots(s, k, start, ys, n - 1);
      PatchedStep(v.vids, start, ys[..n - 1], ys[n - 1]);
      PatchedStep(v.gref, start, seq(n - 1, _ => NO_COPIES), NO_COPIES);
      assert ys[..n] == ys[..n - 1] + [ys[n - 1]];
      assert seq(n, _ => NO_COPIES) == seq(n - 1, _ => NO_COPIES) + [NO_COPIES];
    }
  }

  lemma {:induction false} WriteMsgs(s: State, k: nat, start: nat, ys: seq<nat>, n: nat)
    requires HasRange(s, k, start, |ys|) && n <= |ys|
    ensures Write(s, k, start, ys, n).msgs ==
      s.msgs + Discards(start, s.inodes[k].vids[start..start + |ys|], ys, s.inodes[k].gref[start..start + |ys|], n)
  {
    if n > 0 { WriteMsgs(s, k, start, ys, n - 1); }
  }

  method StoreRange<T>(a: array<T>, start: nat, ys: seq<T>)
    requires start + |ys| <= a.Length
    modifies a
    ensures a[..] == Patched(old(a[..]), start, ys)
  {
    for i := 0 to |ys|
      invariant forall j :: 0 <= j < a.Length ==> a[j] == if start <= j < start + i then ys[j - start] else old(a[j])
    {
      a[start + i] := ys[i];
    }
  }

  /** The gateway's write of a range of vids: read the old vids and grefs, write the new vids, zero
      the grefs, send the decrements. */
  method WriteObj(vids: array<nat>, gref: array<Gref>, start: nat, ys: seq<nat>, ghost s: State, ghost k: nat)
    returns (sent: seq<Msg>)
    requires vids.Length == gref.Length && start + |ys| <= vids.Length && k < |s.inodes|
    requires s.inodes[k] == Inode(vids[..], gref[..])
    modifies vids, gref
    ensures Inode(vids[..], gref[..]) == Write(s, k, start, ys, |ys|).inodes[k]
    ensures s.msgs + sent == Write(s, k, start, ys, |ys|).msgs
  {
    hide Patched, Write, Discards;
    var oldVids, oldRefs := vids[start..start + |ys|], gref[start..start + |ys|];
    StoreRange(vids, start, ys);
    StoreRange(gref, start, seq(|ys|, _ => NO_COPIES));
    sent := UpdateObjRefcnt(start, oldVids, ys, oldRefs);
    WriteSlots(s, k, start, ys, |ys|); WriteMsgs(s, k, start, ys, |ys|);
    assert ys[..|ys|] == ys;
  }

  /** The copy side: counts of the base go up, the new inode starts one generation later. */
  method CopyGrefs(vids: seq<nat>, gref: array<Gref>) returns (child: array<Gref>)
    requires |vids| == gref.Length
    modifies gref
    ensures Inode(vids, gref[..]) == Parent(Inode(vids, old(gref[..])))
    ensures fresh(child) && Inode(vids, child[..]) == Child(Inode(vids, old(gref[..])))
  {
    for i := 0 to gref.Length
      invariant forall j :: 0 <= j < gref.Length ==>
        gref[j] == if j < i then Parent(Inode(vids, old(gref[..]))).gref[j] else old(gref[j])
    {
      if vids[i] != 0 { gref[i] := gref[i].(count := (gref[i].count + 1) % U32); }
    }
    child := new Gref[gref.Length](_ => NO_COPIES);
    for i := 0 to gref.Length
      invariant forall j :: 0 <= j < gref.Length ==> gref[j] == Parent(Inode(vids, old(gref[..]))).gref[j]
      invariant forall j :: 0 <= j < gref.Length ==>
        child[j] == if j < i then Child(Inode(vids, old(gref[..]))).gref[j] else NO_COPIES
    {
      if vids[i] == 0 { continue; }
      child[i] := Gref(gref[i].generation + 1, 0);
    }
  }
}
