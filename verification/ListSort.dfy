/** The merge sort on linked lists of lib/util.c. List nodes are indices into the arrays of their
    next and prev links. */
module ListSort {

  const NULL: int := -1

  // ---- chains

  ghost predicate Nodes(s: seq<int>, n: nat) {
    (forall i :: 0 <= i < |s| ==> 0 <= s[i] < n) && forall i, j :: 0 <= i < j < |s| ==> s[i] != s[j]
  }

  ghost predicate Linked(next: seq<int>, s: seq<int>)
    requires Nodes(s, |next|)
  {
    forall i :: 0 <= i < |s| - 1 ==> next[s[i]] == s[i + 1]
  }

  /** From a, the next links lead through s and then to NULL. */
  ghost predicate Chain(next: seq<int>, a: int, s: seq<int>) {
    Nodes(s, |next|) && Linked(next, s) && if s == [] then a == NULL else a == s[0] && next[s[|s| - 1]] == NULL
  }

  ghost predicate Disjoint(s: seq<int>, t: seq<int>) { forall i, j :: 0 <= i < |s| && 0 <= j < |t| ==> s[i] != t[j] }

  lemma ChainFrame(next: seq<int>, next': seq<int>, a: int, s: seq<int>)
    requires Chain(next, a, s) && |next'| == |next| && forall i :: 0 <= i < |s| ==> next'[s[i]] == next[s[i]]
    ensures Chain(next', a, s)
  {}

  lemma ChainTail(next: seq<int>, a: int, s: seq<int>)
    requires Chain(next, a, s) && s != []
    ensures Chain(next, next[a], s[1..])
  {
    if |s| > 1 { assert next[s[0]] == s[1]; }
    forall i | 0 <= i < |s[1..]| - 1 ensures next[s[1..][i]] == s[1..][i + 1] { assert next[s[i + 1]] == s[i + 2]; }
  }

  // ---- the order

  type Cmp = (int, int) -> int

  /** cmp is a total preorder. */
  ghost predicate Preorder(cmp: Cmp) {
    (forall x, y :: cmp(x, y) <= 0 || cmp(y, x) <= 0) &&
    (forall x, y, z :: cmp(x, y) <= 0 && cmp(y, z) <= 0 ==> cmp(x, z) <= 0)
  }

  /** x comes before y: it is less, or equivalent and was first. */
  ghost predicate Before(cmp: Cmp, rank: int -> int, x: int, y: int) {
    cmp(x, y) <= 0 && (cmp(y, x) <= 0 ==> rank(x) < rank(y))
  }

  ghost predicate Ordered(cmp: Cmp, rank: int -> int, s: seq<int>) {
    forall i, j :: 0 <= i < j < |s| ==> Before(cmp, rank, s[i], s[j])
  }

  /** Everything in s comes before everything in t. */
  ghost predicate AllBefore(cmp: Cmp, rank: int -> int, s: seq<int>, t: seq<int>) {
    forall i, j :: 0 <= i < |s| && 0 <= j < |t| ==> Before(cmp, rank, s[i], t[j])
  }

  /** Everything in s was in the list before everything in t. */
  ghost predicate Earlier(rank: int -> int, s: seq<int>, t: seq<int>) {
    forall i, j :: 0 <= i < |s| && 0 <= j < |t| ==> rank(s[i]) < rank(t[j])
  }

  lemma TakeFirst(cmp: Cmp, rank: int -> int, a: seq<int>, b: seq<int>)
    requires Preorder(cmp) && Ordered(cmp, rank, a) && Ordered(cmp, rank, b) && Earlier(rank, a, b)
    requires a != [] && b != [] && cmp(a[0], b[0]) <= 0
    ensures AllBefore(cmp, rank, [a[0]], a[1..]) && AllBefore(cmp, rank, [a[0]], b)
  {
    forall j | 0 <= j < |a| - 1 ensures Before(cmp, rank, a[0], a[1..][j]) { assert Before(cmp, rank, a[0], a[j + 1]); }
    forall j | 0 <= j < |b| ensures Before(cmp, rank, a[0], b[j]) {
      if j > 0 { assert Before(cmp, rank, b[0], b[j]); }
      assert rank(a[0]) < rank(b[j]);
    }
  }

  lemma TakeSecond(cmp: Cmp, rank: int -> int, a: seq<int>, b: seq<int>)
    requires Preorder(cmp) && Ordered(cmp, rank, a) && Ordered(cmp, rank, b)
    requires a != [] && b != [] && cmp(a[0], b[0]) > 0
    ensures AllBefore(cmp, rank, [b[0]], a) && AllBefore(cmp, rank, [b[0]], b[1..])
  {
    forall j | 0 <= j < |b| - 1 ensures Before(cmp, rank, b[0], b[1..][j]) { assert Before(cmp, rank, b[0], b[j + 1]); }
    forall j | 0 <= j < |a| ensures Before(cmp, rank, b[0], a[j]) {
      if j > 0 { assert Before(cmp, rank, a[0], a[j]); }
    }
  }

  lemma OrderedTail(cmp: Cmp, rank: int -> int, s: seq<int>)
    requires Ordered(cmp, rank, s) && s != []
    ensures Ordered(cmp, rank, s[1..])
  {
    forall i, j | 0 <= i < j < |s| - 1
      ensures Before(cmp, rank, s[1..][i], s[1..][j])
    {
      assert Before(cmp, rank, s[i + 1], s[j + 1]);
    }
  }

  lemma OrderedJoin(cmp: Cmp, rank: int -> int, s: seq<int>, t: seq<int>)
    requires Ordered(cmp, rank, s) && Ordered(cmp, rank, t) && AllBefore(cmp, rank, s, t)
    ensures Ordered(cmp, rank, s + t)
  {
    forall i, j | 0 <= i < j < |s + t| ensures Before(cmp, rank, (s + t)[i], (s + t)[j]) {
      if j < |s| { assert Before(cmp, rank, s[i], s[j]); }
      else if i >= |s| { assert Before(cmp, rank, t[i - |s|], t[j - |s|]); }
      else { assert Before(cmp, rank, s[i], t[j - |s|]); }
    }
  }

  // ---- merging

  ghost predicate Spread(dummy: int, out: seq<int>, sa: seq<int>, sb: seq<int>, n: nat) {
    0 <= dummy < n && Nodes([dummy] + out, n) && Nodes(sa, n) && Nodes(sb, n) && Disjoint([dummy] + out, sa) &&
    Disjoint([dummy] + out, sb) && Disjoint(sa, sb)
  }

  /** The links in the middle of a merge: from the dummy through what has been taken, up to the tail,
      and the two chains that are left. */
  ghost predicate Merging(next: seq<int>, dummy: int, out: seq<int>, tail: int, a: int, sa: seq<int>, b: int,
                          sb: seq<int>) {
    Spread(dummy, out, sa, sb, |next|) && Linked(next, [dummy] + out) && tail == ([dummy] + out)[|out|] &&
    Chain(next, a, sa) && Chain(next, b, sb)
  }

  lemma MergingSwap(next: seq<int>, dummy: int, out: seq<int>, tail: int, a: int, sa: seq<int>, b: int, sb: seq<int>)
    requires Merging(next, dummy, out, tail, a, sa, b, sb)
    ensures Merging(next, dummy, out, tail, b, sb, a, sa)
  {}

  lemma SpreadTake(dummy: int, out: seq<int>, sa: seq<int>, sb: seq<int>, n: nat)
    requires Spread(dummy, out, sa, sb, n) && sa != []
    ensures Spread(dummy, out + [sa[0]], sa[1..], sb, n)
  {
    var path, path' := [dummy] + out, [dummy] + (out + [sa[0]]);
    assert path' == path + [sa[0]];
  }

  /** Taking the first node of a. */
  lemma MergingTake(next: seq<int>, dummy: int, out: seq<int>, tail: int, a: int, sa: seq<int>, b: int, sb: seq<int>,
                    next': seq<int>)
    requires Merging(next, dummy, out, tail, a, sa, b, sb) && sa != [] && next' == next[tail := a]
    ensures Merging(next', dummy, out + [a], a, next'[a], sa[1..], b, sb)
  {
    hide Spread;
    assert Nodes([dummy] + out, |next|) && Disjoint([dummy] + out, sa) && Disjoint([dummy] + out, sb) by {
      SpreadParts(dummy, out, sa, sb, |next|);
    }
    SpreadTake(dummy, out, sa, sb, |next|);
    assert tail == ([dummy] + out)[|out|];
    ChainFrame(next, next', a, sa);
    ChainFrame(next, next', b, sb);
    ChainTail(next', a, sa);
    PathTake(next, dummy, out, tail, a, sa, sb, next');
  }

  lemma SpreadParts(dummy: int, out: seq<int>, sa: seq<int>, sb: seq<int>, n: nat)
    requires Spread(dummy, out, sa, sb, n)
    ensures Nodes([dummy] + out, n) && Disjoint([dummy] + out, sa) && Disjoint([dummy] + out, sb)
  {}

  lemma PathTake(next: seq<int>, dummy: int, out: seq<int>, tail: int, a: int, sa: seq<int>, sb: seq<int>,
                 next': seq<int>)
    requires sa != [] && Spread(dummy, out, sa, sb, |next|) && Spread(dummy, out + [a], sa[1..], sb, |next|)
    requires Linked(next, [dummy] + out)
    requires tail == ([dummy] + out)[|out|] && next' == next[tail := a]
    ensures Linked(next', [dummy] + (out + [a]))
  {
    var path, path' := [dummy] + out, [dummy] + (out + [a]);
    assert path' == path + [a];
    forall i | 0 <= i < |path'| - 1 ensures next'[path'[i]] == path'[i + 1] {
      if i < |out| { assert next[path[i]] == path[i + 1]; assert path[i] != path[|out|]; }
    }
  }

  /** Appending what is left of a. */
  lemma MergingEnd(next: seq<int>, dummy: int, out: seq<int>, tail: int, a: int, sa: seq<int>, b: int, sb: seq<int>,
                   next': seq<int>)
    requires Merging(next, dummy, out, tail, a, sa, b, sb) && next' == next[tail := a]
    ensures Chain(next', next'[dummy], out + sa)
  {
    var path, r := [dummy] + out, out + sa;
    ChainFrame(next, next', a, sa);
    assert Nodes(r, |next|) by {
      forall i, j | 0 <= i < j < |r| ensures r[i] != r[j] {
        if j < |out| {
          assert path[i + 1] != path[j + 1];
        } else if i >= |out| {
          assert sa[i - |out|] != sa[j - |out|];
        } else {
          assert path[i + 1] != sa[j - |out|];
        }
      }
      forall i | 0 <= i < |r| ensures 0 <= r[i] < |next| { if i < |out| { assert 0 <= path[i + 1] < |next|; } }
    }
    forall i | 0 <= i < |r| - 1 ensures next'[r[i]] == r[i + 1] {
      if i + 1 < |out| { assert next[path[i + 1]] == path[i + 2]; assert path[i + 1] != path[|out|]; }
      else if i >= |out| { assert next'[sa[i - |out|]] == sa[i - |out| + 1]; }
    }
    if out != [] { assert next[path[0]] == path[1]; assert path[0] != path[|out|]; }
  }

  /** What has been taken and what is left is in order. */
  ghost predicate InOrder(cmp: Cmp, rank: int -> int, out: seq<int>, sa: seq<int>, sb: seq<int>) {
    Ordered(cmp, rank, out) && Ordered(cmp, rank, sa) && Ordered(cmp, rank, sb) && Earlier(rank, sa, sb) &&
    AllBefore(cmp, rank, out, sa) && AllBefore(cmp, rank, out, sb)
  }

  lemma BeforeExtend(cmp: Cmp, rank: int -> int, out: seq<int>, x: int, t: seq<int>)
    requires AllBefore(cmp, rank, out, t) && AllBefore(cmp, rank, [x], t)
    ensures AllBefore(cmp, rank, out + [x], t)
  {
    forall i, j | 0 <= i < |out| + 1 && 0 <= j < |t| ensures Before(cmp, rank, (out + [x])[i], t[j]) {
      if i == |out| { assert Before(cmp, rank, [x][0], t[j]); } else { assert Before(cmp, rank, out[i], t[j]); }
    }
  }

  lemma BeforeTail(cmp: Cmp, rank: int -> int, out: seq<int>, t: seq<int>)
    requires AllBefore(cmp, rank, out, t) && t != []
    ensures AllBefore(cmp, rank, out, t[1..]) && AllBefore(cmp, rank, out, [t[0]])
  {
    forall i, j | 0 <= i < |out| && 0 <= j < |t| - 1
      ensures Before(cmp, rank, out[i], t[1..][j])
    {
      assert Before(cmp, rank, out[i], t[j + 1]);
    }
    forall i | 0 <= i < |out| ensures Before(cmp, rank, out[i], [t[0]][0]) { assert Before(cmp, rank, out[i], t[0]); }
  }

  lemma EarlierTail(rank: int -> int, s: seq<int>, t: seq<int>)
    requires Earlier(rank, s, t)
    ensures s != [] ==> Earlier(rank, s[1..], t)
    ensures t != [] ==> Earlier(rank, s, t[1..])
  {}

  lemma OneOrdered(cmp: Cmp, rank: int -> int, x: int)
    ensures Ordered(cmp, rank, [x])
  {}

  lemma OrderFirst(cmp: Cmp, rank: int -> int, out: seq<int>, sa: seq<int>, sb: seq<int>)
    requires Preorder(cmp) && InOrder(cmp, rank, out, sa, sb) && sa != [] && sb != [] && cmp(sa[0], sb[0]) <= 0
    ensures InOrder(cmp, rank, out + [sa[0]], sa[1..], sb)
  {
    hide Ordered, AllBefore, Earlier;
    TakeFirst(cmp, rank, sa, sb);
    OneOrdered(cmp, rank, sa[0]);
    BeforeTail(cmp, rank, out, sa);
    OrderedJoin(cmp, rank, out, [sa[0]]);
    OrderedTail(cmp, rank, sa);
    EarlierTail(rank, sa, sb);
    BeforeExtend(cmp, rank, out, sa[0], sa[1..]); BeforeExtend(cmp, rank, out, sa[0], sb);
  }

  lemma OrderSecond(cmp: Cmp, rank: int -> int, out: seq<int>, sa: seq<int>, sb: seq<int>)
    requires Preorder(cmp) && InOrder(cmp, rank, out, sa, sb) && sa != [] && sb != [] && cmp(sa[0], sb[0]) > 0
    ensures InOrder(cmp, rank, out + [sb[0]], sa, sb[1..])
  {
    hide Ordered, AllBefore, Earlier;
    TakeSecond(cmp, rank, sa, sb);
    OneOrdered(cmp, rank, sb[0]);
    BeforeTail(cmp, rank, out, sb);
    OrderedJoin(cmp, rank, out, [sb[0]]);
    OrderedTail(cmp, rank, sb);
    EarlierTail(rank, sa, sb);
    BeforeExtend(cmp, rank, out, sb[0], sa); BeforeExtend(cmp, rank, out, sb[0], sb[1..]);
  }

  /** Two disjoint ordered chains, the first one earlier, ready to be merged. */
  ghost predicate Mergeable(next: seq<int>, dummy: int, a: int, sa: seq<int>, b: int, sb: seq<int>, cmp: Cmp,
                            rank: int -> int) {
    Chain(next, a, sa) && Chain(next, b, sb) && Spread(dummy, [], sa, sb, |next|) &&
    Preorder(cmp) && Ordered(cmp, rank, sa) && Ordered(cmp, rank, sb) && Earlier(rank, sa, sb)
  }

  lemma MergeStarts(next: seq<int>, dummy: int, a: int, sa: seq<int>, b: int, sb: seq<int>, cmp: Cmp, rank: int -> int)
    requires Mergeable(next, dummy, a, sa, b, sb, cmp, rank)
    ensures Merging(next, dummy, [], dummy, a, sa, b, sb) && InOrder(cmp, rank, [], sa, sb)
  {
    assert [dummy] + [] == [dummy];
  }

  /** Links of other nodes stay. */
  ghost predicate Keeps(next: seq<int>, next': seq<int>, dummy: int, s: multiset<int>) {
    |next'| == |next| && forall x :: 0 <= x < |next| && x != dummy && x !in s ==> next'[x] == next[x]
  }

  lemma KeepsTail(next: seq<int>, next': seq<int>, dummy: int, s: multiset<int>, out: seq<int>, tail: int, v: int)
    requires Keeps(next, next', dummy, s) && tail == ([dummy] + out)[|out|] && multiset(out) <= s && 0 <= tail < |next'|
    ensures Keeps(next, next'[tail := v], dummy, s)
  {
    if out != [] { assert tail == out[|out| - 1]; assert tail in multiset(out); }
  }

  /** Nothing is lost. */
  ghost predicate Sums(out: seq<int>, sa: seq<int>, sb: seq<int>, all: multiset<int>) {
    multiset(out) + multiset(sa) + multiset(sb) == all
  }

  lemma SumsStart(sa: seq<int>, sb: seq<int>)
    ensures Sums([], sa, sb, multiset(sa) + multiset(sb))
  {}

  lemma SumsTake(out: seq<int>, sa: seq<int>, sb: seq<int>, all: multiset<int>)
    requires Sums(out, sa, sb, all) && sa != []
    ensures Sums(out + [sa[0]], sa[1..], sb, all)
  {
    assert sa == [sa[0]] + sa[1..];
  }

  lemma SumsSwap(out: seq<int>, sa: seq<int>, sb: seq<int>, all: multiset<int>)
    requires Sums(out, sa, sb, all)
    ensures Sums(out, sb, sa, all) && multiset(out) <= all
  {}

  lemma SumsEnd(out: seq<int>, sa: seq<int>, sb: seq<int>, all: multiset<int>)
    requires Sums(out, sa, sb, all) && sb == []
    ensures multiset(out + sa) == all
  {}

  lemma KeepsSame(next: seq<int>, dummy: int, s: multiset<int>)
    ensures Keeps(next, next, dummy, s)
  {}

  lemma Heads(next: seq<int>, dummy: int, out: seq<int>, tail: int, a: int, sa: seq<int>, b: int, sb: seq<int>)
    requires Merging(next, dummy, out, tail, a, sa, b, sb)
    ensures 0 <= tail < |next| && 0 <= dummy < |next| && tail == ([dummy] + out)[|out|]
    ensures (a == NULL <==> sa == []) && (a != NULL ==> sa != [] && a == sa[0] && 0 <= a < |next|)
    ensures (b == NULL <==> sb == []) && (b != NULL ==> sb != [] && b == sb[0] && 0 <= b < |next|)
  {
    assert 0 <= ([dummy] + out)[|out|] < |next|;
  }

  /** The prev links lead back along path. */
  ghost predicate Backed(prev: seq<int>, path: seq<int>) {
    forall i :: 0 < i < |path| ==> 0 <= path[i] < |prev| && prev[path[i]] == path[i - 1]
  }

  lemma BackedExtend(prev: seq<int>, path: seq<int>, x: int)
    requires Backed(prev, path) && |path| > 0 && 0 <= x < |prev| && x !in path
    ensures Backed(prev[x := path[|path| - 1]], path + [x])
  {
    var prev', path' := prev[x := path[|path| - 1]], path + [x];
    forall i | 0 < i < |path'| ensures 0 <= path'[i] < |prev'| && prev'[path'[i]] == path'[i - 1] {
      if i < |path| { assert prev[path[i]] == path[i - 1]; assert path[i] in path; }
    }
  }

  lemma TakenIsNew(next: seq<int>, dummy: int, out: seq<int>, tail: int, a: int, sa: seq<int>, b: int, sb: seq<int>)
    requires Merging(next, dummy, out, tail, a, sa, b, sb) && sa != []
    ensures a !in [dummy] + out
  {
    assert Disjoint([dummy] + out, sa);
  }

  /** The loop that both kinds of merge share; `back` asks for prev links as well. */
  method MergeLoop(next: array<int>, prev: array<int>, dummy: int, a0: int, b0: int, cmp: Cmp, back: bool,
                   ghost rank: int -> int, ghost sa0: seq<int>, ghost sb0: seq<int>)
    returns (tail: int, a: int, b: int, ghost out: seq<int>, ghost sa: seq<int>, ghost sb: seq<int>)
    requires next != prev && prev.Length == next.Length && Mergeable(next[..], dummy, a0, sa0, b0, sb0, cmp, rank)
    modifies next, prev
    ensures Merging(next[..], dummy, out, tail, a, sa, b, sb) && InOrder(cmp, rank, out, sa, sb)
    ensures a == NULL || b == NULL
    ensures sa0 != [] || sb0 != [] ==> sa != [] || sb != []
    ensures Sums(out, sa, sb, multiset(sa0) + multiset(sb0))
    ensures Keeps(old(next[..]), next[..], dummy, multiset(sa0) + multiset(sb0))
    ensures if back then Backed(prev[..], [dummy] + out) else prev[..] == old(prev[..])
  {
    hide Chain, Spread, Ordered, Preorder, Keeps, InOrder, Sums, Merging, Backed;
    ghost var all := multiset(sa0) + multiset(sb0);
    MergeStarts(next[..], dummy, a0, sa0, b0, sb0, cmp, rank);
    KeepsSame(next[..], dummy, all);
    SumsStart(sa0, sb0);
    a, b, tail := a0, b0, dummy;
    out, sa, sb := [], sa0, sb0;
    NothingBacked(prev[..], dummy);
    while a != NULL && b != NULL
      invariant Merging(next[..], dummy, out, tail, a, sa, b, sb) && InOrder(cmp, rank, out, sa, sb)
      invariant Sums(out, sa, sb, all) && Keeps(old(next[..]), next[..], dummy, all)
      invariant sa0 != [] || sb0 != [] ==> sa != [] || sb != []
      invariant if back then Backed(prev[..], [dummy] + out) else prev[..] == old(prev[..])
      decreases |sa| + |sb|
    {
      ghost var before, path := next[..], [dummy] + out;
      Heads(before, dummy, out, tail, a, sa, b, sb);
      SumsSwap(out, sa, sb, all);
      MergingSwap(before, dummy, out, tail, a, sa, b, sb);
      if cmp(a, b) <= 0 {
        KeepsTail(old(next[..]), before, dummy, all, out, tail, a);
        TakenIsNew(before, dummy, out, tail, a, sa, b, sb);
        next[tail] := a;
        if back { BackedExtend(prev[..], path, a); Link(prev, a, tail); assert path + [a] == [dummy] + (out + [a]); }
        assert next[..] == before[tail := a];
        MergingTake(before, dummy, out, tail, a, sa, b, sb, next[..]);
        OrderFirst(cmp, rank, out, sa, sb);
        SumsTake(out, sa, sb, all);
        tail, a := a, next[a];
        out, sa := out + [sa[0]], sa[1..];
      } else {
        KeepsTail(old(next[..]), before, dummy, all, out, tail, b);
        TakenIsNew(before, dummy, out, tail, b, sb, a, sa);
        next[tail] := b;
        if back { BackedExtend(prev[..], path, b); Link(prev, b, tail); assert path + [b] == [dummy] + (out + [b]); }
        assert next[..] == before[tail := b];
        MergingTake(before, dummy, out, tail, b, sb, a, sa, next[..]);
        MergingSwap(next[..], dummy, out + [b], b, next[b], sb[1..], a, sa);
        OrderSecond(cmp, rank, out, sa, sb);
        SumsTake(out, sb, sa, all); SumsSwap(out + [b], sb[1..], sa, all);
        tail, b := b, next[b];
        out, sb := out + [sb[0]], sb[1..];
      }
    }
  }

  lemma NothingBacked(prev: seq<int>, dummy: int)
    ensures Backed(prev, [dummy] + [])
  {}

  method Link(links: array<int>, at: int, to: int)
    requires 0 <= at < links.Length
    modifies links
    ensures links[..] == old(links[..])[at := to]
  {
    links[at] := to;
  }

  method Merge(next: array<int>, prev: array<int>, dummy: int, a0: int, b0: int, cmp: Cmp, ghost rank: int -> int,
               ghost sa0: seq<int>, ghost sb0: seq<int>) returns (r: int, ghost out: seq<int>)
    requires next != prev && prev.Length == next.Length && Mergeable(next[..], dummy, a0, sa0, b0, sb0, cmp, rank)
    modifies next, prev
    ensures Chain(next[..], r, out) && Ordered(cmp, rank, out) && multiset(out) == multiset(sa0) + multiset(sb0)
    ensures Keeps(old(next[..]), next[..], dummy, multiset(sa0) + multiset(sb0))
  {
    hide Chain, Spread, Ordered, Preorder, Keeps, InOrder, Sums, Merging;
    ghost var all := multiset(sa0) + multiset(sb0);
    ghost var sa, sb;
    var tail, a, b;
    tail, a, b, out, sa, sb := MergeLoop(next, prev, dummy, a0, b0, cmp, false, rank, sa0, sb0);
    ghost var before := next[..];
    Heads(before, dummy, out, tail, a, sa, b, sb);
    SumsSwap(out, sa, sb, all);
    KeepsTail(old(next[..]), before, dummy, all, out, tail, if a != NULL then a else b);
    MergingSwap(before, dummy, out, tail, a, sa, b, sb);
    if a != NULL {
      Link(next, tail, a);
      MergingEnd(before, dummy, out, tail, a, sa, b, sb, next[..]);
      OrderEnd(cmp, rank, out, sa, sb, sa);
      SumsEnd(out, sa, sb, all);
      out := out + sa;
    } else {
      Link(next, tail, b);
      MergingEnd(before, dummy, out, tail, b, sb, a, sa, next[..]);
      OrderEnd(cmp, rank, out, sa, sb, sb);
      SumsEnd(out, sb, sa, all);
      out := out + sb;
    }
    r := next[dummy];
  }

  lemma OrderEnd(cmp: Cmp, rank: int -> int, out: seq<int>, sa: seq<int>, sb: seq<int>, rest: seq<int>)
    requires InOrder(cmp, rank, out, sa, sb) && (rest == sa || rest == sb)
    ensures Ordered(cmp, rank, out + rest)
  {
    OrderedJoin(cmp, rank, out, rest);
  }

  // ---- the doubly linked list

  /** head and s form a ring of next and prev links. */
  ghost predicate Ring(next: seq<int>, prev: seq<int>, head: int, s: seq<int>) {
    |next| == |prev| && 0 <= head < |next| && Nodes([head] + s, |next|) &&
    var path := [head] + s;
    Linked(next, path) && Backed(prev, path) && next[path[|s|]] == head && prev[head] == path[|s|]
  }

  /** A chain hanging off head, whose links lead along path. */
  ghost predicate Hangs(next: seq<int>, head: int, s: seq<int>) {
    Nodes([head] + s, |next|) && Linked(next, [head] + s) && next[([head] + s)[|s|]] == NULL
  }

  lemma MergingHangs(next: seq<int>, head: int, out: seq<int>, tail: int, a: int, sa: seq<int>, b: int, sb: seq<int>,
                     next': seq<int>)
    requires Merging(next, head, out, tail, a, sa, b, sb) && next' == next[tail := a]
    ensures Hangs(next', head, out + sa)
  {
    var path, whole := [head] + out, [head] + (out + sa);
    assert whole == path + sa;
    assert Nodes(whole, |next'|) by {
      forall i, j | 0 <= i < j < |whole| ensures whole[i] != whole[j] {
        if i >= |path| { assert sa[i - |path|] != sa[j - |path|]; }
      }
    }
    forall i | 0 <= i < |whole| - 1 ensures next'[whole[i]] == whole[i + 1] {
      if i < |out| { assert next[path[i]] == path[i + 1]; assert path[i] != path[|out|]; }
      else if i > |out| { assert next[sa[i - |path|]] == sa[i - |path| + 1]; assert sa[i - |path|] != path[|out|]; }
    }
    if sa != [] { assert sa[|sa| - 1] != path[|out|]; }
  }

  lemma HangsAt(next: seq<int>, head: int, s: seq<int>, k: nat)
    requires Hangs(next, head, s) && k <= |s|
    ensures 0 <= ([head] + s)[k] < |next|
    ensures next[([head] + s)[k]] == if k == |s| then NULL else ([head] + s)[k + 1]
    ensures k < |s| ==> ([head] + s)[k + 1] !in ([head] + s)[..k + 1] && 0 <= ([head] + s)[k + 1] < |next|
  {
    var path := [head] + s;
    if k < |s| { assert next[path[k]] == path[k + 1]; }
  }

  lemma RingCloses(next: seq<int>, prev: seq<int>, head: int, s: seq<int>)
    requires Hangs(next, head, s) && |prev| == |next| && Backed(prev, [head] + s) && 0 <= head < |prev|
    ensures var last := ([head] + s)[|s|]; 0 <= last < |next| && Ring(next[last := head], prev[head := last], head, s)
  {
    var path := [head] + s;
    var last := path[|s|];
    var next', prev' := next[last := head], prev[head := last];
    forall i | 0 <= i < |path| - 1
      ensures next'[path[i]] == path[i + 1]
    {
      assert next[path[i]] == path[i + 1];
      assert path[i] != path[|s|];
    }
    forall i | 0 < i < |path| ensures prev'[path[i]] == path[i - 1] { assert path[0] != path[i]; }
  }

  /** Restores the prev links of what the merge left over, and closes the ring. */
  method RestoreBackLinks(next: array<int>, prev: array<int>, head: int, last: int, ghost s: seq<int>, ghost from: nat,
                          ghost out: seq<int>)
    requires next != prev && prev.Length == next.Length && Hangs(next[..], head, s) && 0 <= head < next.Length
    requires from == |out| <= |s| && s[..from] == out && last == ([head] + out)[from] && Backed(prev[..], [head] + out)
    modifies next, prev
    ensures Ring(next[..], prev[..], head, s)
  {
    hide Ring, Hangs, Backed;
    var tail := last;
    ghost var path, k := [head] + s, from;
    assert path[..k + 1] == [head] + out;
    HangsAt(next[..], head, s, k);
    while next[tail] != NULL
      invariant 0 <= k <= |s| && tail == path[k] && 0 <= tail < next.Length && Backed(prev[..], path[..k + 1])
      invariant Hangs(next[..], head, s)
      decreases |s| - k
    {
      HangsAt(next[..], head, s, k);
      BackedExtend(prev[..], path[..k + 1], next[tail]);
      Link(prev, next[tail], tail);
      assert path[..k + 2] == path[..k + 1] + [path[k + 1]];
      tail := next[tail];
      k := k + 1;
      HangsAt(next[..], head, s, k);
    }
    HangsAt(next[..], head, s, k);
    assert path[..k + 1] == path;
    RingCloses(next[..], prev[..], head, s);
    Link(next, tail, head);
    Link(prev, head, tail);
  }

  /** The last merge, onto the list head, with all links restored. */
  method MergeAndRestoreBackLinks(next: array<int>, prev: array<int>, head: int, a0: int, b0: int, cmp: Cmp,
                                  ghost rank: int -> int, ghost sa0: seq<int>, ghost sb0: seq<int>)
    returns (ghost s: seq<int>)
    requires next != prev && prev.Length == next.Length && Mergeable(next[..], head, a0, sa0, b0, sb0, cmp, rank)
    requires sa0 != []
    modifies next, prev
    ensures Ring(next[..], prev[..], head, s) && Ordered(cmp, rank, s) && multiset(s) == multiset(sa0) + multiset(sb0)
  {
    hide Chain, Spread, Ordered, Preorder, Keeps, InOrder, Sums, Merging, Ring, Hangs, Backed, Linked, Nodes;
    ghost var all := multiset(sa0) + multiset(sb0);
    ghost var out, sa, sb;
    var tail, a, b;
    tail, a, b, out, sa, sb := MergeLoop(next, prev, head, a0, b0, cmp, true, rank, sa0, sb0);
    ghost var before := next[..];
    Heads(before, head, out, tail, a, sa, b, sb);
    MergingSwap(before, head, out, tail, a, sa, b, sb);
    SumsSwap(out, sa, sb, all);
    if a != NULL {
      Link(next, tail, a);
      MergingHangs(before, head, out, tail, a, sa, b, sb, next[..]);
      OrderEnd(cmp, rank, out, sa, sb, sa);
      SumsEnd(out, sa, sb, all);
      s := out + sa;
    } else {
      Link(next, tail, b);
      MergingHangs(before, head, out, tail, b, sb, a, sa, next[..]);
      OrderEnd(cmp, rank, out, sa, sb, sb);
      SumsEnd(out, sb, sa, all);
      s := out + sb;
    }
    RestoreBackLinks(next, prev, head, tail, s, |out|, out);
  }

  // ---- the slots

  /** One more than there are useful slots: the last is a sentinel. */
  const SLOTS: nat := 21

  ghost function Total(parts: seq<seq<int>>, n: nat): (m: multiset<int>)
    requires n <= |parts|
  {
    if n == 0 then multiset{} else Total(parts, n - 1) + multiset(parts[n - 1])
  }

  lemma {:induction false} TotalUpdate(parts: seq<seq<int>>, l: nat, x: seq<int>, n: nat)
    requires l < n <= |parts|
    ensures Total(parts[l := x], n) + multiset(parts[l]) == Total(parts, n) + multiset(x)
  {
    if l < n - 1 {
      TotalUpdate(parts, l, x, n - 1);
      Exchange(Total(parts[l := x], n - 1), Total(parts, n - 1), multiset(parts[n - 1]), multiset(parts[l]),
        multiset(x));
    } else {
      TotalSame(parts, l, x, n - 1);
      Rotate(Total(parts, n - 1), multiset(x), multiset(parts[l]));
    }
  }

  lemma Exchange(a: multiset<int>, b: multiset<int>, z: multiset<int>, u: multiset<int>, v: multiset<int>)
    requires a + u == b + v
    ensures (a + z) + u == (b + z) + v
  {
    assert (a + z) + u == (a + u) + z;
    assert (b + z) + v == (b + v) + z;
  }

  lemma Rotate(a: multiset<int>, u: multiset<int>, v: multiset<int>)
    ensures (a + u) + v == (a + v) + u
  {}

  lemma {:induction false} TotalSame(parts: seq<seq<int>>, l: nat, x: seq<int>, n: nat)
    requires n <= l < |parts|
    ensures Total(parts[l := x], n) == Total(parts, n)
  {
    if n > 0 { TotalSame(parts, l, x, n - 1); }
  }

  lemma {:induction false} TotalHas(parts: seq<seq<int>>, l: nat, n: nat)
    requires l < n <= |parts|
    ensures multiset(parts[l]) <= Total(parts, n)
  {
    if l < n - 1 { TotalHas(parts, l, n - 1); }
  }

  lemma {:induction false} TotalTwo(parts: seq<seq<int>>, l: nat, m: nat, n: nat)
    requires l < n <= |parts| && m < n && l != m
    ensures multiset(parts[l]) + multiset(parts[m]) <= Total(parts, n)
  {
    if l < n - 1 && m < n - 1 { TotalTwo(parts, l, m, n - 1); }
    else { TotalHas(parts, if l == n - 1 then m else l, n - 1); }
  }

  ghost predicate Once(all: multiset<int>) { forall x :: all[x] <= 1 }

  lemma Apart(a: seq<int>, b: seq<int>, all: multiset<int>)
    requires Once(all) && multiset(a) + multiset(b) <= all
    ensures Disjoint(a, b)
  {
    forall i, j | 0 <= i < |a| && 0 <= j < |b| ensures a[i] != b[j] {
      var x, y := a[i], b[j];
      assert x in multiset(a) && y in multiset(b) && all[x] <= 1 && all[y] <= 1;
    }
  }

  /** The nodes are spread over the slots, the list being carried and the rest of the input; slots
      are ordered, and hold earlier nodes the higher they are. */
  ghost predicate Sorting(next: seq<int>, part: seq<int>, parts: seq<seq<int>>, cur: int, scur: seq<int>, list: int,
                          rest: seq<int>, all: multiset<int>, dummy: int, cmp: Cmp, rank: int -> int) {
    |part| == |parts| == SLOTS && Preorder(cmp) && 0 <= dummy < |next| && dummy !in all && Once(all) &&
    (forall l :: 0 <= l < |parts| ==> Slot(next, part[l], parts[l], scur, rest, cmp, rank)) &&
    (forall l, m :: 0 <= l < m < |parts| ==> Earlier(rank, parts[m], parts[l])) &&
    Chain(next, cur, scur) && Ordered(cmp, rank, scur) && Earlier(rank, scur, rest) && Chain(next, list, rest) &&
    Total(parts, |parts|) + multiset(scur) + multiset(rest) == all
  }

  ghost predicate Slot(next: seq<int>, a: int, sa: seq<int>, scur: seq<int>, rest: seq<int>, cmp: Cmp,
                       rank: int -> int) {
    Chain(next, a, sa) && Ordered(cmp, rank, sa) && Earlier(rank, sa, scur) && Earlier(rank, sa, rest)
  }

  lemma SlotMergeable(next: seq<int>, part: seq<int>, parts: seq<seq<int>>, cur: int, scur: seq<int>, list: int,
                      rest: seq<int>, all: multiset<int>, dummy: int, cmp: Cmp, rank: int -> int, l: nat)
    requires Sorting(next, part, parts, cur, scur, list, rest, all, dummy, cmp, rank) && l < SLOTS
    ensures Mergeable(next, dummy, part[l], parts[l], cur, scur, cmp, rank)
    ensures multiset(parts[l]) + multiset(scur) <= all
  {
    hide Ordered, Preorder, Earlier, Linked;
    assert Slot(next, part[l], parts[l], scur, rest, cmp, rank);
    TotalHas(parts, l, |parts|);
    Apart(parts[l], scur, all);
    assert [dummy] + [] == [dummy];
    forall i | 0 <= i < |parts[l]| ensures parts[l][i] != dummy { assert parts[l][i] in multiset(parts[l]); }
    forall i | 0 <= i < |scur| ensures scur[i] != dummy { assert scur[i] in multiset(scur); }
  }

  lemma KeptChain(next: seq<int>, next': seq<int>, dummy: int, s: multiset<int>, a: int, sa: seq<int>,
                  all: multiset<int>)
    requires Keeps(next, next', dummy, s) && Chain(next, a, sa) && Once(all) && dummy !in all && s + multiset(sa) <= all
    ensures Chain(next', a, sa)
  {
    forall i | 0 <= i < |sa| ensures next'[sa[i]] == next[sa[i]] {
      var x := sa[i];
      assert x in multiset(sa) && all[x] <= 1;
    }
    ChainFrame(next, next', a, sa);
  }

  lemma EarlierBoth(rank: int -> int, s: seq<int>, a: seq<int>, b: seq<int>, out: seq<int>)
    requires multiset(out) == multiset(a) + multiset(b)
    ensures Earlier(rank, s, a) && Earlier(rank, s, b) ==> Earlier(rank, s, out)
    ensures Earlier(rank, a, s) && Earlier(rank, b, s) ==> Earlier(rank, out, s)
  {
    forall i | 0 <= i < |out|
      ensures out[i] in a || out[i] in b
    {
      assert out[i] in multiset(out);
      assert out[i] in multiset(a) || out[i] in multiset(b);
    }
  }

  /** Merging slot l into the list being carried. */
  lemma SortingMerged(next: seq<int>, part: seq<int>, parts: seq<seq<int>>, cur: int, scur: seq<int>, list: int,
                      rest: seq<int>, all: multiset<int>, dummy: int, cmp: Cmp, rank: int -> int, l: nat,
                      next': seq<int>, cur': int, out: seq<int>)
    requires Sorting(next, part, parts, cur, scur, list, rest, all, dummy, cmp, rank) && l < SLOTS
    requires forall m :: 0 <= m < l ==> parts[m] == []
    requires Chain(next', cur', out) && Ordered(cmp, rank, out) && multiset(out) == multiset(parts[l]) + multiset(scur)
    requires Keeps(next, next', dummy, multiset(parts[l]) + multiset(scur))
    ensures Sorting(next', part[l := NULL], parts[l := []], cur', out, list, rest, all, dummy, cmp, rank)
  {
    hide Ordered, Preorder, Earlier, Chain, Keeps, Once;
    var part', parts', s := part[l := NULL], parts[l := []], multiset(parts[l]) + multiset(scur);
    assert Slot(next, part[l], parts[l], scur, rest, cmp, rank);
    TotalUpdate(parts, l, [], |parts|);
    TotalHas(parts, l, |parts|);
    Regroup(Total(parts, |parts|), Total(parts', |parts|), multiset(parts[l]), multiset(scur), multiset(rest),
      multiset(out));
    EarlierBoth(rank, rest, parts[l], scur, out);
    KeptChain(next, next', dummy, s, list, rest, all);
    forall m | 0 <= m < |parts| ensures Slot(next', part'[m], parts'[m], out, rest, cmp, rank) {
      assert Slot(next, part[m], parts[m], scur, rest, cmp, rank);
      if m == l || parts[m] == [] {
        EmptyChain(next, part[m], parts[m]);
        EmptySlot(next', part'[m], out, rest, cmp, rank);
      } else {
        TotalTwo(parts, l, m, |parts|);
        KeptChain(next, next', dummy, s, part[m], parts[m], all);
        assert Earlier(rank, parts[m], parts[l]);
        EarlierBoth(rank, parts[m], parts[l], scur, out);
      }
    }
    forall k, m | 0 <= k < m < |parts| ensures Earlier(rank, parts'[m], parts'[k]) {
      assert Earlier(rank, parts[m], parts[k]);
      EarlierEmpty(rank, parts[m], parts[k]);
    }
    assert |next'| == |next| by { KeepsLength(next, next', dummy, s); }
  }

  lemma KeepsLength(next: seq<int>, next': seq<int>, dummy: int, s: multiset<int>)
    requires Keeps(next, next', dummy, s)
    ensures |next'| == |next|
  {}

  lemma Regroup(t: multiset<int>, t': multiset<int>, p: multiset<int>, c: multiset<int>, r: multiset<int>,
                o: multiset<int>)
    requires t' + p == t + multiset([]) && o == p + c
    ensures t' + o + r == t + c + r
  {
    var none: seq<int> := [];
    assert multiset(none) == multiset{};
    assert t' + o == (t' + p) + c;
  }

  lemma EarlierEmpty(rank: int -> int, s: seq<int>, t: seq<int>)
    ensures Earlier(rank, [], t) && Earlier(rank, s, [])
  {}

  lemma EmptyChain(next: seq<int>, a: int, s: seq<int>)
    requires Chain(next, a, s)
    ensures a == NULL <==> s == []
  {}

  lemma EmptySlot(next: seq<int>, a: int, scur: seq<int>, rest: seq<int>, cmp: Cmp, rank: int -> int)
    requires a == NULL
    ensures Slot(next, a, [], scur, rest, cmp, rank)
  {}

  /** Nodes in the order of the input. */
  ghost predicate Ranked(rank: int -> int, s: seq<int>) { forall i, j :: 0 <= i < j < |s| ==> rank(s[i]) < rank(s[j]) }

  /** The next node of the input is carried. */
  lemma SortingTake(next: seq<int>, part: seq<int>, parts: seq<seq<int>>, list: int, rest: seq<int>,
                    all: multiset<int>, dummy: int, cmp: Cmp, rank: int -> int, next': seq<int>)
    requires Sorting(next, part, parts, NULL, [], list, rest, all, dummy, cmp, rank) && rest != [] && Ranked(rank, rest)
    requires next' == next[list := NULL]
    ensures Sorting(next', part, parts, list, [rest[0]], next[list], rest[1..], all, dummy, cmp, rank)
    ensures Ranked(rank, rest[1..])
  {
    hide Ordered, Preorder, Once, Chain, Earlier, Total, Ranked;
    var one: seq<int> := [rest[0]];
    TakeChains(next, list, rest, next');
    TakeCount(Total(parts, |parts|), rest, all);
    RankedTake(rank, rest);
    OneOrdered(cmp, rank, list);
    forall l | 0 <= l < |parts| ensures Slot(next', part[l], parts[l], one, rest[1..], cmp, rank) {
      assert Slot(next, part[l], parts[l], [], rest, cmp, rank);
      TotalHas(parts, l, |parts|);
      TakeSlot(next, part[l], parts[l], list, rest, all, rank, next');
    }
  }

  lemma TakeChains(next: seq<int>, list: int, rest: seq<int>, next': seq<int>)
    requires Chain(next, list, rest) && rest != [] && next' == next[list := NULL]
    ensures list == rest[0] && 0 <= list < |next| && Chain(next', list, [rest[0]])
    ensures Chain(next', next[list], rest[1..])
  {
    ChainTail(next, list, rest);
    ChainFrame(next, next', next[list], rest[1..]);
    OneChain(next', list);
  }

  lemma TakeCount(t: multiset<int>, rest: seq<int>, all: multiset<int>)
    requires rest != [] && t + multiset([]) + multiset(rest) == all
    ensures t + multiset([rest[0]]) + multiset(rest[1..]) == all && multiset(rest) <= all
  {
    var none: seq<int> := [];
    assert multiset(none) == multiset{};
    assert rest == [rest[0]] + rest[1..];
  }

  lemma RankedTake(rank: int -> int, rest: seq<int>)
    requires Ranked(rank, rest) && rest != []
    ensures Ranked(rank, rest[1..]) && Earlier(rank, [rest[0]], rest[1..])
  {
    forall j | 0 <= j < |rest| - 1
      ensures rank(rest[0]) < rank(rest[1..][j])
    {
      assert rank(rest[0]) < rank(rest[j + 1]);
    }
    forall i, j | 0 <= i < j < |rest| - 1
      ensures rank(rest[1..][i]) < rank(rest[1..][j])
    {
      assert rank(rest[i + 1]) < rank(rest[j + 1]);
    }
  }

  lemma TakeSlot(next: seq<int>, a: int, sa: seq<int>, list: int, rest: seq<int>, all: multiset<int>, rank: int -> int,
                 next': seq<int>)
    requires Chain(next, a, sa) && Earlier(rank, sa, rest) && rest != [] && list == rest[0] && 0 <= list < |next|
    requires next' == next[list := NULL]
    ensures Chain(next', a, sa) && Earlier(rank, sa, [rest[0]]) && Earlier(rank, sa, rest[1..])
  {
    forall i | 0 <= i < |sa|
      ensures sa[i] != list && rank(sa[i]) < rank(rest[0])
    {
      assert rank(sa[i]) < rank(rest[0]);
    }
    ChainFrame(next, next', a, sa);
    EarlierTail(rank, sa, rest);
  }

  lemma OneChain(next: seq<int>, a: int)
    requires 0 <= a < |next| && next[a] == NULL
    ensures Chain(next, a, [a])
  {}

  /** The carried list goes into an empty slot below which there is nothing. */
  lemma SortingStore(next: seq<int>, part: seq<int>, parts: seq<seq<int>>, cur: int, scur: seq<int>, list: int,
                     rest: seq<int>, all: multiset<int>, dummy: int, cmp: Cmp, rank: int -> int, l: nat)
    requires Sorting(next, part, parts, cur, scur, list, rest, all, dummy, cmp, rank) && l < SLOTS
    requires forall m :: 0 <= m <= l ==> parts[m] == []
    ensures Sorting(next, part[l := cur], parts[l := scur], NULL, [], list, rest, all, dummy, cmp, rank)
  {
    hide Ordered, Preorder, Once, Earlier;
    var part', parts' := part[l := cur], parts[l := scur];
    TotalUpdate(parts, l, scur, |parts|);
    assert Total(parts', |parts|) + multiset([]) == Total(parts, |parts|) + multiset(scur) by {
      NoneLeft(parts[l], Total(parts', |parts|));
    }
    forall m | 0 <= m < |parts| ensures Slot(next, part'[m], parts'[m], [], rest, cmp, rank) {
      assert Slot(next, part[m], parts[m], scur, rest, cmp, rank);
      EarlierEmpty(rank, parts'[m], rest);
    }
    forall k, m | 0 <= k < m < |parts| ensures Earlier(rank, parts'[m], parts'[k]) {
      assert Earlier(rank, parts[m], parts[k]);
      assert Slot(next, part[m], parts[m], scur, rest, cmp, rank);
      EarlierEmpty(rank, parts'[m], rest);
    }
    EmptyOrdered(cmp, rank, rest);
  }

  lemma NoneLeft(s: seq<int>, t: multiset<int>)
    requires s == []
    ensures multiset(s) == multiset{} && t + multiset(s) == t
  {}

  lemma EmptyOrdered(cmp: Cmp, rank: int -> int, rest: seq<int>)
    ensures Ordered(cmp, rank, []) && Earlier(rank, [], rest)
  {}

  /** The slots in use, and that the highest of them is not empty once anything is sorted. */
  ghost predicate Levels(parts: seq<seq<int>>, max: nat, some: bool) {
    |parts| == SLOTS && max < SLOTS - 1 && (forall l :: max < l < |parts| ==> parts[l] == []) &&
    (some ==> parts[max] != [])
  }

  /** Like adding one in binary: full slots are merged into the carry until an empty one is found;
      the sentinel is never reached by more than the look at it. */
  method Carry(next: array<int>, prev: array<int>, part: array<int>, dummy: int, cur0: int, list: int, max: nat,
               cmp: Cmp, ghost rank: int -> int, ghost parts0: seq<seq<int>>, ghost scur0: seq<int>,
               ghost rest: seq<int>, ghost all: multiset<int>)
    returns (cur: int, lev: nat, ghost parts: seq<seq<int>>, ghost scur: seq<int>)
    requires next != prev && next != part && prev != part && prev.Length == next.Length && part.Length == SLOTS
    requires Sorting(next[..], part[..], parts0, cur0, scur0, list, rest, all, dummy, cmp, rank)
    requires Levels(parts0, max, false) && scur0 != []
    modifies next, prev, part
    ensures Sorting(next[..], part[..], parts, cur, scur, list, rest, all, dummy, cmp, rank) && scur != []
    ensures lev <= max + 1 && |parts| == |parts0| && (forall m :: 0 <= m <= lev ==> parts[m] == [])
    ensures forall m :: lev < m < |parts| ==> parts[m] == parts0[m]
    ensures parts0[lev] == []
  {
    hide Sorting, Chain, Ordered, Keeps;
    cur, lev, parts, scur := cur0, 0, parts0, scur0;
    SlotNull(next[..], part[..], parts, cur, scur, list, rest, all, dummy, cmp, rank, lev);
    while part[lev] != NULL
      invariant lev <= max + 1 && |parts| == |parts0| && (forall m :: 0 <= m < lev ==> parts[m] == [])
      invariant forall m :: lev <= m < |parts| ==> parts[m] == parts0[m]
      invariant Sorting(next[..], part[..], parts, cur, scur, list, rest, all, dummy, cmp, rank) && scur != []
      invariant part[lev] == NULL <==> parts[lev] == []
      decreases SLOTS - lev
    {
      SlotMergeable(next[..], part[..], parts, cur, scur, list, rest, all, dummy, cmp, rank, lev);
      ghost var before, slots, c := next[..], part[..], cur;
      ghost var out;
      cur, out := Merge(next, prev, dummy, part[lev], cur, cmp, rank, parts[lev], scur);
      SortingMerged(before, slots, parts, c, scur, list, rest, all, dummy, cmp, rank, lev, next[..], cur, out);
      NotEmpty(parts[lev], scur, out);
      Link(part, lev, NULL);
      parts, scur := parts[lev := []], out;
      lev := lev + 1;
      SlotNull(next[..], part[..], parts, cur, scur, list, rest, all, dummy, cmp, rank, lev);
    }
  }

  lemma NotEmpty(a: seq<int>, b: seq<int>, out: seq<int>)
    requires b != [] && multiset(out) == multiset(a) + multiset(b)
    ensures out != []
  {
    assert b[0] in multiset(b);
  }

  lemma SlotNull(next: seq<int>, part: seq<int>, parts: seq<seq<int>>, cur: int, scur: seq<int>, list: int,
                 rest: seq<int>, all: multiset<int>, dummy: int, cmp: Cmp, rank: int -> int, l: nat)
    requires Sorting(next, part, parts, cur, scur, list, rest, all, dummy, cmp, rank) && l < SLOTS
    ensures |part| == |parts| == SLOTS && (part[l] == NULL <==> parts[l] == [])
  {
    assert Slot(next, part[l], parts[l], scur, rest, cmp, rank);
  }

  // ---- the sort

  /** The place of x in the input. */
  ghost function IndexOf(q: seq<int>, x: int): (i: int) {
    if q == [] then 0 else if q[|q| - 1] == x then |q| - 1 else IndexOf(q[..|q| - 1], x)
  }

  lemma {:induction false} IndexOfAt(q: seq<int>, i: nat)
    requires i < |q| && forall j, k :: 0 <= j < k < |q| ==> q[j] != q[k]
    ensures IndexOf(q, q[i]) == i
  {
    if i < |q| - 1 { IndexOfAt(q[..|q| - 1], i); }
  }

  ghost function Position(q: seq<int>): (rank: int -> int) { x => IndexOf(q, x) }

  lemma PositionRanked(q: seq<int>)
    requires forall j, k :: 0 <= j < k < |q| ==> q[j] != q[k]
    ensures Ranked(Position(q), q)
  {
    forall i, j | 0 <= i < j < |q| ensures Position(q)(q[i]) < Position(q)(q[j]) { IndexOfAt(q, i); IndexOfAt(q, j); }
  }

  lemma {:induction false} DistinctOnce(q: seq<int>)
    requires forall j, k :: 0 <= j < k < |q| ==> q[j] != q[k]
    ensures Once(multiset(q))
  {
    if q != [] {
      var n := |q| - 1;
      DistinctOnce(q[..n]);
      assert q == q[..n] + [q[n]];
      assert q[n] !in q[..n];
    }
  }

  lemma RingOpens(next: seq<int>, prev: seq<int>, head: int, q: seq<int>)
    requires Ring(next, prev, head, q) && q != []
    ensures 0 <= prev[head] < |next| && next[head] == q[0] && Chain(next[prev[head] := NULL], q[0], q)
    ensures prev[head] != head
    ensures Nodes(q, |next|) && head !in multiset(q)
  {
    var path, last := [head] + q, prev[head];
    assert path[|q|] == last && next[path[0]] == path[1];
    forall i | 0 <= i < |q|
      ensures 0 <= q[i] < |next| && q[i] == path[i + 1] && q[i] != path[0]
    {
      assert q[i] == path[i + 1];
      assert 0 <= path[i + 1] < |next|;
    }
    forall i, j | 0 <= i < j < |q| ensures q[i] != q[j] { assert path[i + 1] != path[j + 1]; }
    forall i | 0 <= i < |q| - 1
      ensures next[last := NULL][q[i]] == q[i + 1]
    {
      assert next[path[i + 1]] == path[i + 2];
      assert path[i + 1] != path[|q|];
    }
  }

  lemma RingEmpty(next: seq<int>, prev: seq<int>, head: int, q: seq<int>)
    requires Ring(next, prev, head, q)
    ensures 0 <= head < |next| && (next[head] == head <==> q == [])
  {
    var path := [head] + q;
    if q != [] { assert next[path[0]] == path[1] && path[0] != path[1]; }
  }

  lemma {:induction false} TotalNone(parts: seq<seq<int>>, n: nat)
    requires n <= |parts| && forall l :: 0 <= l < |parts| ==> parts[l] == []
    ensures Total(parts, n) == multiset{}
  {
    if n > 0 { TotalNone(parts, n - 1); }
  }

  lemma {:induction false} TotalOne(parts: seq<seq<int>>, l: nat, n: nat)
    requires l < |parts| && n <= |parts| && forall m :: 0 <= m < |parts| && m != l ==> parts[m] == []
    ensures Total(parts, n) == if l < n then multiset(parts[l]) else multiset{}
  {
    if n > 0 { TotalOne(parts, l, n - 1); }
  }

  lemma SortingStarts(next: seq<int>, part: seq<int>, parts: seq<seq<int>>, list: int, q: seq<int>, dummy: int,
                      cmp: Cmp, rank: int -> int)
    requires |part| == |parts| == SLOTS && (forall l :: 0 <= l < SLOTS ==> part[l] == NULL && parts[l] == [])
    requires Preorder(cmp) && 0 <= dummy < |next| && dummy !in multiset(q) && Once(multiset(q)) && Chain(next, list, q)
    ensures Sorting(next, part, parts, NULL, [], list, q, multiset(q), dummy, cmp, rank)
  {
    hide Preorder, Once;
    TotalNone(parts, |parts|);
    var none: seq<int> := [];
    assert multiset(none) == multiset{};
  }

  lemma SortingFor(next: seq<int>, part: seq<int>, parts: seq<seq<int>>, cur: int, scur: seq<int>, list: int,
                   rest: seq<int>, all: multiset<int>, dummy: int, cmp: Cmp, rank: int -> int, head: int)
    requires Sorting(next, part, parts, cur, scur, list, rest, all, dummy, cmp, rank) && 0 <= head < |next|
    requires head !in all
    ensures Sorting(next, part, parts, cur, scur, list, rest, all, head, cmp, rank)
  {}

  lemma SortingInput(next: seq<int>, part: seq<int>, parts: seq<seq<int>>, cur: int, scur: seq<int>, list: int,
                     rest: seq<int>, all: multiset<int>, dummy: int, cmp: Cmp, rank: int -> int)
    requires Sorting(next, part, parts, cur, scur, list, rest, all, dummy, cmp, rank)
    ensures (list == NULL <==> rest == []) && (rest != [] ==> list == rest[0] && 0 <= list < |next|)
    ensures |part| == |parts| == SLOTS
  {}

  lemma SortingEnds(next: seq<int>, part: seq<int>, parts: seq<seq<int>>, cur: int, scur: seq<int>, list: int,
                    rest: seq<int>, all: multiset<int>, dummy: int, cmp: Cmp, rank: int -> int, l: nat)
    requires Sorting(next, part, parts, cur, scur, list, rest, all, dummy, cmp, rank) && rest == [] && l < SLOTS
    requires forall m :: 0 <= m < |parts| && m != l ==> parts[m] == []
    ensures multiset(parts[l]) + multiset(scur) == all
  {
    TotalOne(parts, l, |parts|);
    var none: seq<int> := [];
    assert multiset(none) == multiset{};
  }

  /** All nodes go through the slots. */
  method FillSlots(next: array<int>, prev: array<int>, part: array<int>, dummy: int, list0: int, cmp: Cmp,
                   ghost rank: int -> int, ghost q: seq<int>)
    returns (max: nat, ghost parts: seq<seq<int>>)
    requires next != prev && next != part && prev != part && prev.Length == next.Length && part.Length == SLOTS
    requires q != []
    requires Preorder(cmp) && 0 <= dummy < next.Length && dummy !in multiset(q) && Once(multiset(q))
    requires Chain(next[..], list0, q) && Ranked(rank, q)
    requires forall l :: 0 <= l < SLOTS ==> part[l] == NULL
    modifies next, prev, part
    ensures Sorting(next[..], part[..], parts, NULL, [], NULL, [], multiset(q), dummy, cmp, rank)
    ensures Levels(parts, max, true)
  {
    hide Sorting, Preorder, Once, Chain, Ranked;
    ghost var rest := q;
    var list := list0;
    parts := seq(SLOTS, _ => []);
    max := 0;
    SortingStarts(next[..], part[..], parts, list, q, dummy, cmp, rank);
    SortingInput(next[..], part[..], parts, NULL, [], list, rest, multiset(q), dummy, cmp, rank);
    while list != NULL
      invariant Sorting(next[..], part[..], parts, NULL, [], list, rest, multiset(q), dummy, cmp, rank)
      invariant Ranked(rank, rest)
      invariant Levels(parts, max, |rest| < |q|) && |rest| <= |q| && (list == NULL <==> rest == [])
      invariant max == 0 || |rest| < |q|
      decreases |rest|
    {
      ghost var before := next[..];
      SortingInput(before, part[..], parts, NULL, [], list, rest, multiset(q), dummy, cmp, rank);
      var cur := list;
      list := next[list];
      Link(next, cur, NULL);
      SortingTake(before, part[..], parts, cur, rest, multiset(q), dummy, cmp, rank, next[..]);
      ghost var scur := [rest[0]];
      rest := rest[1..];
      var lev;
      ghost var had := parts;
      cur, lev, parts, scur :=
        Carry(next, prev, part, dummy, cur, list, max, cmp, rank, parts, scur, rest, multiset(q));
      if lev > max {
        if lev >= SLOTS - 1 { lev := lev - 1; }
        max := lev;
      }
      SortingStore(next[..], part[..], parts, cur, scur, list, rest, multiset(q), dummy, cmp, rank, lev);
      Link(part, lev, cur);
      parts := parts[lev := scur];
      SortingInput(next[..], part[..], parts, NULL, [], list, rest, multiset(q), dummy, cmp, rank);
    }
  }

  /** What is left in the slots below the highest is merged, the later nodes first. */
  method EmptySlots(next: array<int>, prev: array<int>, part: array<int>, dummy: int, max: nat, cmp: Cmp,
                    ghost rank: int -> int, ghost parts0: seq<seq<int>>, ghost all: multiset<int>)
    returns (list: int, ghost parts: seq<seq<int>>, ghost acc: seq<int>)
    requires next != prev && next != part && prev != part && prev.Length == next.Length && part.Length == SLOTS
    requires Sorting(next[..], part[..], parts0, NULL, [], NULL, [], all, dummy, cmp, rank) && Levels(parts0, max, true)
    modifies next, prev, part
    ensures Sorting(next[..], part[..], parts, list, acc, NULL, [], all, dummy, cmp, rank)
    ensures |parts| == SLOTS && parts[max] == parts0[max] && forall m :: 0 <= m < |parts| && m != max ==> parts[m] == []
  {
    hide Sorting, Chain, Ordered, Keeps;
    list, parts, acc := NULL, parts0, [];
    for lev := 0 to max
      invariant Sorting(next[..], part[..], parts, list, acc, NULL, [], all, dummy, cmp, rank)
      invariant |parts| == SLOTS && (forall m :: 0 <= m < lev ==> parts[m] == [])
      invariant forall m :: lev <= m < |parts| ==> parts[m] == parts0[m]
    {
      SlotNull(next[..], part[..], parts, list, acc, NULL, [], all, dummy, cmp, rank, lev);
      if part[lev] != NULL {
        SlotMergeable(next[..], part[..], parts, list, acc, NULL, [], all, dummy, cmp, rank, lev);
        ghost var before, slots, c := next[..], part[..], list;
        ghost var out;
        list, out := Merge(next, prev, dummy, part[lev], list, cmp, rank, parts[lev], acc);
        SortingMerged(before, slots, parts, c, acc, NULL, [], all, dummy, cmp, rank, lev, next[..], list, out);
        Link(part, lev, NULL);
        parts, acc := parts[lev := []], out;
      }
    }
  }

  /** Sorts the list in place: the same nodes, in order, equivalent ones as they were, linked both
      ways. */
  method ListSort(next: array<int>, prev: array<int>, head: int, dummy: int, cmp: Cmp, ghost q: seq<int>)
    returns (ghost s: seq<int>)
    requires next != prev && prev.Length == next.Length && Ring(next[..], prev[..], head, q)
    requires 0 <= dummy < next.Length && dummy !in [head] + q && Preorder(cmp)
    modifies next, prev
    ensures Ring(next[..], prev[..], head, s) && multiset(s) == multiset(q) && Ordered(cmp, Position(q), s)
  {
    hide Ring, Sorting, Chain, Preorder, Ordered, Once, Ranked, Nodes;
    ghost var rank, all := Position(q), multiset(q);
    RingEmpty(next[..], prev[..], head, q);
    if next[head] == head {
      EmptyOrdered(cmp, rank, q);
      return [];
    }
    RingOpens(next[..], prev[..], head, q);
    DistinctNodes(q, next.Length);
    PositionRanked(q);
    DistinctOnce(q);
    assert dummy !in multiset(q) by { assert dummy !in q; }
    var part := new int[SLOTS](_ => NULL);
    Link(next, prev[head], NULL);
    ghost var parts, acc;
    var max, list;
    max, parts := FillSlots(next, prev, part, dummy, next[head], cmp, rank, q);
    ghost var top := parts[max];
    list, parts, acc := EmptySlots(next, prev, part, dummy, max, cmp, rank, parts, all);
    SortingFor(next[..], part[..], parts, list, acc, NULL, [], all, dummy, cmp, rank, head);
    SlotMergeable(next[..], part[..], parts, list, acc, NULL, [], all, head, cmp, rank, max);
    SortingEnds(next[..], part[..], parts, list, acc, NULL, [], all, head, cmp, rank, max);
    s := MergeAndRestoreBackLinks(next, prev, head, part[max], list, cmp, rank, parts[max], acc);
  }

  lemma DistinctNodes(q: seq<int>, n: nat)
    requires Nodes(q, n)
    ensures forall j, k :: 0 <= j < k < |q| ==> q[j] != q[k]
  {}

  /** In particular the result is sorted, and equivalent nodes keep the order they had. */
  lemma SortedAndStable(cmp: Cmp, q: seq<int>, s: seq<int>, i: nat, j: nat)
    requires Ordered(cmp, Position(q), s) && i < j < |s|
    ensures cmp(s[i], s[j]) <= 0 && (cmp(s[j], s[i]) <= 0 ==> IndexOf(q, s[i]) < IndexOf(q, s[j]))
  {
    assert Before(cmp, Position(q), s[i], s[j]);
  }
}
