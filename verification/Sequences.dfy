/** Facts about sequences that several components need. */
module Sequences {

  datatype Option<+T> = None | Some(value: T)

  /** The image of a sequence under a function. */
  function Map<A, B>(f: A -> B, s: seq<A>): (r: seq<B>)
    ensures |r| == |s|
    ensures forall i :: 0 <= i < |s| ==> r[i] == f(s[i])
  {
    seq(|s|, i requires 0 <= i < |s| => f(s[i]))
  }

  /** The elements that satisfy p, in order. */
  function Filter<A>(p: A -> bool, s: seq<A>): (r: seq<A>)
  {
    if s == [] then []
    else Filter(p, s[..|s| - 1]) + (if p(s[|s| - 1]) then [s[|s| - 1]] else [])
  }

  /** The sequence without the element at index i. */
  function RemoveAt<A>(s: seq<A>, i: nat): (r: seq<A>)
    requires i < |s|
    ensures |r| == |s| - 1
    ensures forall k :: 0 <= k < i ==> r[k] == s[k]
    ensures forall k :: i <= k < |r| ==> r[k] == s[k + 1]
  {
    s[..i] + s[i + 1..]
  }

  ghost predicate NoDuplicates<A>(s: seq<A>) {
    forall i, j :: 0 <= i < j < |s| ==> s[i] != s[j]
  }

  lemma NoDuplicatesSplit<A>(a: seq<A>, b: seq<A>)
    requires NoDuplicates(a + b)
    ensures NoDuplicates(a) && NoDuplicates(b)
    ensures forall x :: x in a ==> x !in b
  {
    var s := a + b;
    forall i, j | 0 <= i < j < |b| ensures b[i] != b[j] {
      assert s[|a| + i] != s[|a| + j];
    }
    forall i, j | 0 <= i < |a| && 0 <= j < |b| ensures a[i] != b[j] {
      assert s[i] != s[|a| + j];
    }
    forall i, j | 0 <= i < j < |a| ensures a[i] != a[j] {
      assert s[i] != s[j];
    }
  }

  lemma RemoveAtMultiset<A>(s: seq<A>, i: nat)
    requires i < |s|
    ensures multiset(s) == multiset(RemoveAt(s, i)) + multiset{s[i]}
  {
    assert s == s[..i] + [s[i]] + s[i + 1..];
  }

  lemma UpdateMultiset<A>(s: seq<A>, i: nat, x: A)
    requires i < |s|
    ensures multiset(s[i := x]) == multiset(s) - multiset{s[i]} + multiset{x}
  {
  }

  lemma {:induction false} FilterMembers<A>(p: A -> bool, s: seq<A>, x: A)
    ensures x in Filter(p, s) <==> x in s && p(x)
  {
    if s != [] {
      var n := |s| - 1;
      FilterMembers(p, s[..n], x);
      assert s == s[..n] + [s[n]];
    }
  }

  lemma {:induction false} FilterAll<A>(p: A -> bool, s: seq<A>)
    requires forall x :: x in s ==> p(x)
    ensures Filter(p, s) == s
  {
    if s != [] {
      var n := |s| - 1;
      assert s == s[..n] + [s[n]] && s[n] in s;
      FilterAll(p, s[..n]);
      assert Filter(p, s) == Filter(p, s[..n]) + [s[n]];
    }
  }

  lemma {:induction false} FilterNone<A>(p: A -> bool, s: seq<A>)
    requires forall x :: x in s ==> !p(x)
    ensures Filter(p, s) == []
  {
    if s != [] {
      var n := |s| - 1;
      assert s[n] in s;
      FilterNone(p, s[..n]);
    }
  }

  lemma {:induction false} FilterSplit<A>(p: A -> bool, a: seq<A>, b: seq<A>)
    ensures Filter(p, a + b) == Filter(p, a) + Filter(p, b)
  {
    if b == [] {
      assert a + b == a;
    } else {
      var n := |b| - 1;
      var last := if p(b[n]) then [b[n]] else [];
      FilterSplit(p, a, b[..n]);
      assert (a + b)[..|a + b| - 1] == a + b[..n] && (a + b)[|a + b| - 1] == b[n];
      assert Filter(p, a + b) == Filter(p, a + b[..n]) + last;
      assert Filter(p, b) == Filter(p, b[..n]) + last;
    }
  }

  /** Filtering out one element removes it. */
  lemma {:induction false} FilterAllBut<A>(p: A -> bool, s: seq<A>, k: nat)
    requires k < |s| && forall i :: 0 <= i < |s| ==> (p(s[i]) <==> i != k)
    ensures Filter(p, s) == RemoveAt(s, k)
  {
    var n := |s| - 1;
    if k == n {
      FilterAll(p, s[..n]);
    } else {
      FilterAllBut(p, s[..n], k);
      assert RemoveAt(s, k) == RemoveAt(s[..n], k) + [s[n]];
    }
  }

  /** A relation between all ordered pairs of selected elements holds throughout the selection. */
  lemma {:induction false} FilterPairwise<A>(p: A -> bool, rel: (A, A) -> bool, s: seq<A>)
    requires forall i, j :: 0 <= i < j < |s| && p(s[i]) && p(s[j]) ==> rel(s[i], s[j])
    ensures forall i, j :: 0 <= i < j < |Filter(p, s)| ==> rel(Filter(p, s)[i], Filter(p, s)[j])
  {
    if s != [] {
      var n := |s| - 1;
      var front := s[..n];
      FilterPairwise(p, rel, front);
      forall x | x in Filter(p, front) && p(s[n]) ensures rel(x, s[n]) {
        FilterMembers(p, front, x);
        var i :| 0 <= i < n && s[i] == x;
      }
    }
  }

  lemma {:induction false} NoDuplicatesCount<A>(s: seq<A>, x: A)
    requires NoDuplicates(s)
    ensures multiset(s)[x] == if x in s then 1 else 0
  {
    if s != [] {
      var n := |s| - 1;
      NoDuplicatesCount(s[..n], x);
      assert s == s[..n] + [s[n]];
    }
  }

  /** Two duplicate-free sequences with the same elements are permutations of each other. */
  lemma SameElementsSameMultiset<A>(a: seq<A>, b: seq<A>)
    requires NoDuplicates(a) && NoDuplicates(b)
    requires forall x :: x in a <==> x in b
    ensures multiset(a) == multiset(b)
  {
    forall x ensures multiset(a)[x] == multiset(b)[x] {
      NoDuplicatesCount(a, x);
      NoDuplicatesCount(b, x);
    }
  }

  lemma MultisetCancel<A>(a: multiset<A>, b: multiset<A>, x: A)
    requires a + multiset{x} == b + multiset{x}
    ensures a == b
  {
    assert a == (a + multiset{x}) - multiset{x};
    assert b == (b + multiset{x}) - multiset{x};
  }

  /** Mapping permutations yields permutations. */
  lemma {:induction false} MapMultiset<A, B>(f: A -> B, a: seq<A>, b: seq<A>)
    requires multiset(a) == multiset(b)
    ensures multiset(Map(f, a)) == multiset(Map(f, b))
    decreases |a|, 1
  {
    if a == [] {
      assert |multiset(b)| == 0;
    } else {
      var n := |a| - 1;
      assert a[n] in multiset(b);
      var i :| 0 <= i < |b| && b[i] == a[n];
      MapMultisetStep(f, a, b, i);
    }
  }

  lemma MapMultisetStep<A, B>(f: A -> B, a: seq<A>, b: seq<A>, i: nat)
    requires multiset(a) == multiset(b) && a != [] && i < |b| && b[i] == a[|a| - 1]
    ensures multiset(Map(f, a)) == multiset(Map(f, b))
    decreases |a|, 0
  {
    var n := |a| - 1;
    RemoveAtMultiset(a, n);
    RemoveAtMultiset(b, i);
    MultisetCancel(multiset(RemoveAt(a, n)), multiset(RemoveAt(b, i)), a[n]);
    MapMultiset(f, RemoveAt(a, n), RemoveAt(b, i));
    RemoveAtMultiset(Map(f, a), n);
    RemoveAtMultiset(Map(f, b), i);
    assert Map(f, RemoveAt(a, n)) == RemoveAt(Map(f, a), n);
    assert Map(f, RemoveAt(b, i)) == RemoveAt(Map(f, b), i);
  }

  // ----- Selections of places -------------------------------------------------------------

  /** Distinct places of a list of length n, in increasing order. */
  ghost predicate Selection(sel: seq<nat>, n: nat) {
    && (forall i, j :: 0 <= i < j < |sel| ==> sel[i] < sel[j])
    && (forall i :: 0 <= i < |sel| ==> sel[i] < n)
  }

  lemma SelectionOneMore(at: seq<nat>, n: nat)
    requires Selection(at, n)
    ensures Selection(at, n + 1) && Selection(at + [n], n + 1)
    ensures forall i: nat :: i in at + [n] <==> i in at || i == n
  {
  }

  /** A filtered sequence has the elements at exactly the places where p holds, in increasing order. */
  lemma {:induction false} FilterPlaces<A>(p: A -> bool, s: seq<A>) returns (at: seq<nat>)
    ensures Selection(at, |s|) && forall i: nat :: i in at <==> i < |s| && p(s[i])
    ensures |Filter(p, s)| == |at| && forall k :: 0 <= k < |at| ==> Filter(p, s)[k] == s[at[k]]
  {
    at := [];
    if s != [] {
      var n := |s| - 1;
      at := FilterPlaces(p, s[..n]);
      SelectionOneMore(at, n);
      at := at + if p(s[n]) then [n] else [];
    }
  }

  lemma MappedPlaces<A, B>(p: A -> bool, f: A -> B, s: seq<A>) returns (at: seq<nat>)
    ensures Selection(at, |s|) && forall i: nat :: i < |s| ==> (i in at <==> p(s[i]))
    ensures
      var image := Map(f, Filter(p, s));
      |image| == |at| && forall k :: 0 <= k < |at| ==> image[k] == f(s[at[k]])
  {
    at := FilterPlaces(p, s);
  }

  /** The rows whose indices are not among those given, in order. */
  ghost function Except<A>(rows: seq<A>, gone: set<nat>): seq<A> {
    if rows == [] then []
    else Except(rows[..|rows| - 1], gone) + (if |rows| - 1 in gone then [] else [rows[|rows| - 1]])
  }

  lemma {:induction false} ExceptNone<A>(rows: seq<A>, gone: set<nat>)
    requires forall g :: g in gone ==> g >= |rows|
    ensures Except(rows, gone) == rows
  {
    if rows != [] {
      ExceptNone(rows[..|rows| - 1], gone);
    }
  }

  /** They are those at exactly the other places, in increasing order. */
  lemma {:induction false} ExceptPlaces<A>(rows: seq<A>, gone: set<nat>) returns (at: seq<nat>)
    ensures Selection(at, |rows|) && forall i: nat :: i in at <==> i < |rows| && i !in gone
    ensures |Except(rows, gone)| == |at| && forall k :: 0 <= k < |at| ==> Except(rows, gone)[k] == rows[at[k]]
  {
    at := [];
    if rows != [] {
      var n := |rows| - 1;
      at := ExceptPlaces(rows[..n], gone);
      SelectionOneMore(at, n);
      at := at + if n in gone then [] else [n];
    }
  }

  /** Below the rows already removed, places are unchanged: removing place k removes row k. */
  lemma {:induction false} ExceptOneMore<A>(rows: seq<A>, gone: set<nat>, k: nat)
    requires k < |rows| && forall g :: g in gone ==> k < g
    ensures k < |Except(rows, gone)| && Except(rows, gone)[k] == rows[k]
    ensures RemoveAt(Except(rows, gone), k) == Except(rows, gone + {k})
  {
    var n := |rows| - 1;
    if k == n {
      ExceptNone(rows[..n], gone);
      ExceptNone(rows[..n], gone + {k});
      assert n !in gone;
    } else {
      ExceptOneMore(rows[..n], gone, k);
      var front := Except(rows[..n], gone);
      var last := if n in gone then [] else [rows[n]];
      assert RemoveAt(front + last, k) == RemoveAt(front, k) + last;
    }
  }

  /** The selected places, highest first. */
  ghost function TopDown(sel: seq<nat>): seq<nat> {
    seq(|sel|, i requires 0 <= i < |sel| => sel[|sel| - 1 - i])
  }

  /** The topmost selected places. */
  ghost function Topmost(sel: seq<nat>, done: nat): set<nat>
    requires done <= |sel|
  {
    set i | |sel| - done <= i < |sel| :: sel[i]
  }

  /** As many as asked for, each above all selected places that are not among them. */
  lemma TopmostExactly(sel: seq<nat>, n: nat, done: nat)
    requires Selection(sel, n) && done <= |sel|
    ensures |Topmost(sel, done)| == done && forall j :: j in Topmost(sel, done) ==> j in sel
    ensures forall i, j :: i in sel && i !in Topmost(sel, done) && j in Topmost(sel, done) ==> i < j
  {
    TopmostCount(sel, n, done);
  }

  lemma {:induction false} TopmostCount(sel: seq<nat>, n: nat, done: nat)
    requires Selection(sel, n) && done <= |sel|
    ensures |Topmost(sel, done)| == done
  {
    if done > 0 {
      TopmostCount(sel, n, done - 1);
      TopmostOneMore(sel, n, done - 1);
    }
  }

  lemma TopmostOneMore(sel: seq<nat>, n: nat, done: nat)
    requires Selection(sel, n) && done < |sel|
    ensures
      var j := sel[|sel| - 1 - done];
      Topmost(sel, done + 1) == Topmost(sel, done) + {j} && j !in Topmost(sel, done)
  {
    assert forall i :: |sel| - done <= i < |sel| ==> sel[i] > sel[|sel| - 1 - done];
  }

  /** Removing a selection from the highest place down: the next row to go is where it was. */
  lemma TopmostNext<A>(rows: seq<A>, sel: seq<nat>, done: nat)
    requires Selection(sel, |rows|) && done < |sel|
    ensures
      var j, left := sel[|sel| - 1 - done], Except(rows, Topmost(sel, done));
      j < |left| && left[j] == rows[j] && RemoveAt(left, j) == Except(rows, Topmost(sel, done + 1))
  {
    var j := sel[|sel| - 1 - done];
    assert Topmost(sel, done + 1) == Topmost(sel, done) + {j};
    ExceptOneMore(rows, Topmost(sel, done), j);
  }
}
