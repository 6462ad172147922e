/** Choosing the right copy of an object among its replicas (vote_majority_object of dog/vdi.c). */
module MajorityVote {
  import opened Options

  datatype Verdict = NoObjFound | Success | NoMajorityFound

  /** copies[i] is the hash of copy i, if it was found. */
  function Live(copies: seq<Option<nat>>, n: nat): (r: nat)
    requires n <= |copies|
  {
    if n == 0 then 0 else Live(copies, n - 1) + if copies[n - 1].Some? then 1 else 0
  }

  function Count(copies: seq<Option<nat>>, n: nat, h: nat): (r: nat)
    requires n <= |copies|
  {
    if n == 0 then 0 else Count(copies, n - 1, h) + if copies[n - 1] == Some(h) then 1 else 0
  }

  ghost predicate HasMajority(copies: seq<Option<nat>>, h: nat) {
    2 * Count(copies, |copies|, h) > Live(copies, |copies|)
  }

  /** The copies found that have another hash. */
  function Others(copies: seq<Option<nat>>, n: nat, h: nat): (r: nat)
    requires n <= |copies|
  {
    if n == 0 then 0 else Others(copies, n - 1, h) + if copies[n - 1].Some? && copies[n - 1].value != h then 1 else 0
  }

  lemma {:induction false} LiveParts(copies: seq<Option<nat>>, n: nat, h: nat)
    requires n <= |copies|
    ensures Live(copies, n) == Count(copies, n, h) + Others(copies, n, h)
  {
    if n > 0 { LiveParts(copies, n - 1, h); }
  }

  /** A hash has the majority if and only if more of the copies found have it than have another one. */
  lemma MajorityMeans(copies: seq<Option<nat>>, h: nat)
    ensures HasMajority(copies, h) <==> Count(copies, |copies|, h) > Others(copies, |copies|, h)
  {
    LiveParts(copies, |copies|, h);
  }

  /** After n copies no other hash can be in the majority, and the candidate at most by the margin. */
  ghost predicate Margin(copies: seq<Option<nat>>, n: nat, h: nat, count: nat)
    requires n <= |copies|
  {
    count <= Count(copies, n, h) && 2 * Count(copies, n, h) <= Live(copies, n) + count &&
    forall g: nat :: g != h ==> 2 * Count(copies, n, g) <= Live(copies, n) - count
  }

  /** One copy more. */
  lemma MarginStep(copies: seq<Option<nat>>, n: nat, h: nat, count: nat, h': nat, count': nat)
    requires n < |copies| && copies[n].Some? && (if count == 0 then h' == copies[n].value else h' == h)
    requires count' == if copies[n].value == h' then count + 1 else count - 1
    requires Margin(copies, n, h, count)
    ensures Margin(copies, n + 1, h', count')
  {
    var m := n + 1;
    assert h' != h ==> 2 * Count(copies, n, h') <= Live(copies, n) - count;
    forall g: nat | g != h' ensures 2 * Count(copies, m, g) <= Live(copies, m) - count' {
      assert 2 * Count(copies, n, g) <= Live(copies, n) - count;
    }
  }

  lemma {:induction false} NoneLive(copies: seq<Option<nat>>, n: nat, h: nat)
    requires n <= |copies|
    ensures Count(copies, n, h) <= Live(copies, n)
  {
    if n > 0 { NoneLive(copies, n - 1, h); }
  }

  /** Succeeds exactly when some hash is held by more than half of the copies found, and then selects
      a copy with that hash. */
  method VoteMajorityObject(copies: seq<Option<nat>>) returns (result: Verdict, majority: Option<nat>)
    ensures result == NoObjFound <==> Live(copies, |copies|) == 0
    ensures result == Success <==> exists h: nat :: HasMajority(copies, h)
    ensures result == Success ==>
      majority.Some? && majority.value < |copies| && copies[majority.value].Some? &&
      HasMajority(copies, copies[majority.value].value)
    ensures result != Success ==> majority.None?
  {
    var count, live := 0, 0;
    majority := None;
    ghost var h := 0;
    for i := 0 to |copies|
      invariant live == Live(copies, i) && count >= 0
      invariant majority.None? <==> live == 0
      invariant majority.Some? ==> majority.value < |copies| && copies[majority.value] == Some(h)
      invariant Margin(copies, i, h, count)
    {
      if copies[i].None? {
        assert Margin(copies, i + 1, h, count) by { Skipped(copies, i, h, count); }
        continue;
      }
      live := live + 1;
      if count == 0 { majority := Some(i); }
      ghost var h', count' := copies[majority.value].value, if copies[majority.value] == copies[i] then count + 1
        else count - 1;
      MarginStep(copies, i, h, count, h', count');
      if copies[majority.value] == copies[i] { count := count + 1; } else { count := count - 1; }
      h := h';
    }
    ghost var margin := count;
    if 0 < count <= live / 2 {
      count := 0;
      for i := 0 to |copies|
        invariant count == Count(copies, i, h)
      {
        if copies[i].None? { continue; }
        if copies[majority.value] == copies[i] { count := count + 1; }
      }
    }
    NoneLive(copies, |copies|, h);
    if majority.None? {
      result := NoObjFound;
      forall g: nat ensures !HasMajority(copies, g) { NoneLive(copies, |copies|, g); }
    } else if count > live / 2 {
      result := Success;
      assert HasMajority(copies, h);
    } else {
      majority := None;
      result := NoMajorityFound;
      forall g: nat
        ensures !HasMajority(copies, g)
      {
        assert g != h ==> 2 * Count(copies, |copies|, g) <= live - margin;
      }
    }
  }

  lemma Skipped(copies: seq<Option<nat>>, n: nat, h: nat, count: nat)
    requires n < |copies| && copies[n].None? && Margin(copies, n, h, count)
    ensures Margin(copies, n + 1, h, count)
  {
    var m := n + 1;
    forall g: nat | g != h ensures 2 * Count(copies, m, g) <= Live(copies, m) - count {
      assert 2 * Count(copies, n, g) <= Live(copies, n) - count;
    }
  }
}
