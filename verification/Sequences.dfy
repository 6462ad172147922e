module Sequences {
  function InsertAt<T>(q: seq<T>, p: nat, e: T): (r: seq<T>)
    requires p <= |q|
    ensures |r| == |q| + 1
    ensures forall i {:trigger r[i]} :: 0 <= i < |r| ==> r[i] == if i < p then q[i] else if i == p then e else q[i - 1]
  {
    q[..p] + [e] + q[p..]
  }

  /** q with p written at `at`. */
  function Patched<T>(q: seq<T>, at: nat, p: seq<T>): (r: seq<T>)
    requires at + |p| <= |q|
    ensures |r| == |q|
    ensures forall t {:trigger r[t]} :: 0 <= t < |q| ==> r[t] == if at <= t < at + |p| then p[t - at] else q[t]
  {
    q[..at] + p + q[at + |p|..]
  }
}
