/**
 Loops that ask the catalog for one thing after another and stop at the first call that
 fails.  Calls are numbered; a call maps its number, the state and the item asked for to the
 state after it, or to a failure.
 */
module Replies {
  import opened Sequences

  /** The first of the items from i to n whose call fails, and the state then. */
  ghost function Proceed<S, T>(call: (nat, S, T) -> Option<S>, calls: nat, s: S, items: seq<T>, i: nat, n: nat)
    : (nat, S)
    requires n <= |items|
    decreases n - i
  {
    if i >= n then (i, s)
    else
      match call(calls, s, items[i])
      case None => (i, s)
      case Some(next) => Proceed(call, calls + 1, next, items, i + 1, n)
  }

  /** The calls for the items from i to m all succeed and lead to the last state. */
  ghost predicate Chained<S, T>(call: (nat, S, T) -> Option<S>, calls: nat, s: S, items: seq<T>, i: nat, m: nat, end: S)
    requires m <= |items|
    decreases m - i
  {
    if i >= m then end == s
    else
      match call(calls, s, items[i])
      case None => false
      case Some(next) => Chained(call, calls + 1, next, items, i + 1, m, end)
  }

  /** The calls before it all succeeded, and its own failed. */
  lemma {:induction false} ProceedExact<S, T>(call: (nat, S, T) -> Option<S>, calls: nat, s: S, items: seq<T>, i: nat,
                                              n: nat)
    requires i <= n <= |items|
    ensures
      var (m, end) := Proceed(call, calls, s, items, i, n);
      && i <= m <= n && Chained(call, calls, s, items, i, m, end)
      && (m < n ==> call(calls + (m - i), end, items[m]).None?)
    decreases n - i
  {
    if i < n && call(calls, s, items[i]).Some? {
      ProceedExact(call, calls + 1, call(calls, s, items[i]).value, items, i + 1, n);
    }
  }

  /** Two loops, one after the other, are one loop. */
  lemma {:induction false} ProceedContinues<S, T>(call: (nat, S, T) -> Option<S>, calls: nat, s: S, items: seq<T>,
                                                  i: nat, k: nat, n: nat)
    requires i <= k <= n <= |items|
    ensures
      var (m, mid) := Proceed(call, calls, s, items, i, k);
      Proceed(call, calls, s, items, i, n) ==
      if m < k then (m, mid) else Proceed(call, calls + (k - i), mid, items, k, n)
    decreases k - i
  {
    if i < k && call(calls, s, items[i]).Some? {
      ProceedContinues(call, calls + 1, call(calls, s, items[i]).value, items, i + 1, k, n);
    }
  }

  /** What every successful call keeps, from the state before item k to that before item k + 1, holds at the end. */
  lemma {:induction false} ChainedKeeps<S, T>(call: (nat, S, T) -> Option<S>, good: (nat, S) -> bool, calls: nat, s: S,
                                              items: seq<T>, i: nat, m: nat, end: S)
    requires i <= m <= |items| && Chained(call, calls + i, s, items, i, m, end) && good(i, s)
    requires forall k, t :: i <= k < m && good(k, t) && call(calls + k, t, items[k]).Some? ==>
               good(k + 1, call(calls + k, t, items[k]).value)
    ensures good(m, end)
    decreases m - i
  {
    if i < m {
      ChainedKeeps(call, good, calls, call(calls + i, s, items[i]).value, items, i + 1, m, end);
    }
  }

  /** So a loop ends in a good state, and stops early only where a call fails. */
  lemma ProceedKeeps<S, T>(call: (nat, S, T) -> Option<S>, good: (nat, S) -> bool, calls: nat, s: S, items: seq<T>)
    requires good(0, s)
    requires forall k, t :: 0 <= k < |items| && good(k, t) && call(calls + k, t, items[k]).Some? ==>
               good(k + 1, call(calls + k, t, items[k]).value)
    ensures
      var (m, end) := Proceed(call, calls, s, items, 0, |items|);
      m <= |items| && good(m, end) && (m < |items| ==> call(calls + m, end, items[m]).None?)
  {
    var (m, end) := Proceed(call, calls, s, items, 0, |items|);
    ProceedExact(call, calls, s, items, 0, |items|);
    ChainedKeeps(call, good, calls, s, items, 0, m, end);
  }

  /** The first n calls after those made before are all granted. */
  ghost predicate Granted(refused: set<nat>, before: nat, n: nat) {
    n == 0 || (before + n - 1 !in refused && Granted(refused, before, n - 1))
  }

  lemma {:induction false} GrantedExactly(refused: set<nat>, before: nat, n: nat)
    ensures Granted(refused, before, n) <==> forall c :: before <= c < before + n ==> c !in refused
  {
    if n != 0 {
      GrantedExactly(refused, before, n - 1);
    }
  }

  // ----- Calls that fail only where they are refused --------------------------------------

  /** The first n items taken in one after the other. */
  ghost function Fold<S, T>(f: (S, T) -> S, s: S, items: seq<T>, n: nat): S
    requires n <= |items|
  {
    if n == 0 then s else f(Fold(f, s, items, n - 1), items[n - 1])
  }

  lemma {:induction false} FoldKeeps<S, T>(f: (S, T) -> S, good: S -> bool, s: S, items: seq<T>, n: nat)
    requires n <= |items| && good(s) && forall t, x :: good(t) ==> good(f(t, x))
    ensures good(Fold(f, s, items, n))
  {
    if n > 0 {
      FoldKeeps(f, good, s, items, n - 1);
    }
  }

  ghost function Obeying<S, T>(refused: set<nat>, f: (S, T) -> S): (nat, S, T) -> Option<S> {
    (calls: nat, s: S, x: T) => if calls in refused then None else Some(f(s, x))
  }

  /** Such a loop takes in the items whose calls are granted in a row. */
  lemma ObeyingExact<S, T>(refused: set<nat>, f: (S, T) -> S, calls: nat, s: S, items: seq<T>)
    ensures
      var (m, end) := Proceed(Obeying(refused, f), calls, s, items, 0, |items|);
      && m <= |items| && end == Fold(f, s, items, m)
      && (forall c :: calls <= c < calls + m ==> c !in refused) && (m < |items| ==> calls + m in refused)
  {
    var good := (k: nat, t: S) => k <= |items| && Granted(refused, calls, k) && t == Fold(f, s, items, k);
    ProceedKeeps(Obeying(refused, f), good, calls, s, items);
    GrantedExactly(refused, calls, Proceed(Obeying(refused, f), calls, s, items, 0, |items|).0);
  }
}
