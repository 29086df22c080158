/**
 Moving buffered collections and data objects into a destination collection.  A guard looks
 at the destination once; then the buffered items are moved one by one by calls to the
 server, each of which either moves everything at and below the item or does nothing.
 */
module GuardedMove {
  import opened Sequences
  import opened Replies

  /** A path is a list of names; the client writes a slash before each. */
  type Path = seq<string>

  function Render(p: Path): string {
    if p == [] then "" else "/" + p[0] + Render(p[1..])
  }

  /** The catalog files collections and objects under identifiers, with their paths. */
  datatype Namespace = Namespace(colls: map<nat, Path>, objs: map<nat, Path>) {
    predicate HasColl(p: Path) { exists c :: c in colls && colls[c] == p }

    predicate HasObj(p: Path) { exists o :: o in objs && objs[o] == p }

    predicate Has(p: Path) { HasColl(p) || HasObj(p) }

    /** Paths are unique, and the parent of everything is a collection. */
    ghost predicate Valid() {
      && (forall a, b :: a in colls && b in colls && colls[a] == colls[b] ==> a == b)
      && (forall a, b :: a in objs && b in objs && objs[a] == objs[b] ==> a == b)
      && (forall a, b :: a in colls && b in objs ==> colls[a] != objs[b])
      && (forall c :: c in colls ==> colls[c] != [])
      && (forall o :: o in objs ==> |objs[o]| >= 2)
      && (forall c {:trigger Parent(colls[c])} :: c in colls && |colls[c]| > 1 ==> HasColl(Parent(colls[c])))
      && (forall o {:trigger Parent(objs[o])} :: o in objs ==> HasColl(Parent(objs[o])))
    }
  }

  lemma EmptyValid()
    ensures Namespace(map[], map[]).Valid()
  {
  }

  /** A catalog stays valid when a zone, or a child of a collection, is filed under a free path. */
  lemma CollFiledValid(ns: Namespace, id: nat, parent: Path, name: string)
    requires ns.Valid() && id !in ns.colls && !ns.Has(parent + [name]) && (parent == [] || ns.HasColl(parent))
    ensures ns.(colls := ns.colls[id := parent + [name]]).Valid()
  {
    var p := parent + [name];
    var after := ns.(colls := ns.colls[id := p]);
    assert Parent(p) == parent;
    forall q | ns.HasColl(q) ensures after.HasColl(q) {
      var c :| c in ns.colls && ns.colls[c] == q;
      assert after.colls[c] == q;
    }
    FreePath(ns, p);
  }

  lemma FreePath(ns: Namespace, p: Path)
    requires !ns.Has(p)
    ensures (forall c :: c in ns.colls ==> ns.colls[c] != p) && (forall o :: o in ns.objs ==> ns.objs[o] != p)
  {
    assert !ns.HasColl(p) && !ns.HasObj(p);
  }

  lemma ObjFiledValid(ns: Namespace, id: nat, parent: Path, name: string)
    requires ns.Valid() && id !in ns.objs && !ns.Has(parent + [name]) && parent != [] && ns.HasColl(parent)
    ensures ns.(objs := ns.objs[id := parent + [name]]).Valid()
  {
    var p := parent + [name];
    var after := ns.(objs := ns.objs[id := p]);
    FreePath(ns, p);
    forall o | o in after.objs ensures |after.objs[o]| >= 2 && after.HasColl(Parent(after.objs[o])) {
      assert Parent(p) == parent;
      assert o != id ==> ns.HasColl(Parent(ns.objs[o]));
    }
  }

  function Parent(p: Path): Path
    requires p != []
  {
    p[..|p| - 1]
  }

  /** At or below. */
  predicate Below(p: Path, q: Path) { q <= p }

  // ----- One move on the server ------------------------------------------------------------

  function Target(source: Path, dest: Path): Path
    requires source != []
  {
    dest + [source[|source| - 1]]
  }

  function Relocated(p: Path, source: Path, dest: Path): Path
    requires source != []
  {
    if Below(p, source) then Target(source, dest) + p[|source|..] else p
  }

  /** What stands below the source, or is the source, stands below the destination under the name of the source. */
  lemma RelocatedExactly(source: Path, dest: Path, rest: Path, p: Path)
    requires source != []
    ensures Relocated(source + rest, source, dest) == dest + [source[|source| - 1]] + rest
    ensures !(source <= p) ==> Relocated(p, source, dest) == p
  {
    assert (source + rest)[|source|..] == rest;
  }

  /** A move keeps everything filed under its identifier. */
  lemma MovedExactly(ns: Namespace, source: Path, dest: Path)
    requires source != []
    ensures
      var after := Moved(ns, source, dest);
      && after.colls.Keys == ns.colls.Keys && after.objs.Keys == ns.objs.Keys
      && (forall c, rest :: c in ns.colls && ns.colls[c] == source + rest ==>
            after.colls[c] == dest + [source[|source| - 1]] + rest)
      && (forall o, rest :: o in ns.objs && ns.objs[o] == source + rest ==>
            after.objs[o] == dest + [source[|source| - 1]] + rest)
      && (forall c :: c in ns.colls && !(source <= ns.colls[c]) ==> after.colls[c] == ns.colls[c])
      && (forall o :: o in ns.objs && !(source <= ns.objs[o]) ==> after.objs[o] == ns.objs[o])
  {
    forall rest: Path ensures Relocated(source + rest, source, dest) == dest + [source[|source| - 1]] + rest {
      RelocatedExactly(source, dest, rest, source);
    }
  }

  function Moved(ns: Namespace, source: Path, dest: Path): Namespace
    requires source != []
  {
    Namespace(map c | c in ns.colls :: Relocated(ns.colls[c], source, dest),
              map o | o in ns.objs :: Relocated(ns.objs[o], source, dest))
  }

  /** The server needs the source and the destination and refuses an occupied target. */
  predicate Movable(ns: Namespace, source: Path, dest: Path) {
    source != [] && ns.Has(source) && ns.HasColl(dest) && !ns.Has(Target(source, dest))
  }

  /** Everything that exists has all its ancestors. */
  lemma {:induction false} AncestorExists(ns: Namespace, p: Path, n: nat)
    requires ns.Valid() && ns.Has(p) && 1 <= n < |p|
    ensures ns.HasColl(p[..n])
    decreases |p|
  {
    var q := Parent(p);
    assert ns.HasColl(q);
    if n < |q| {
      AncestorExists(ns, q, n);
      assert q[..n] == p[..n];
    }
  }

  lemma NothingBelowFreePath(ns: Namespace, p: Path, free: Path)
    requires ns.Valid() && ns.Has(p) && free != [] && !ns.Has(free)
    ensures !Below(p, free)
  {
    if Below(p, free) && p != free {
      assert p[..|free|] == free;
      AncestorExists(ns, p, |free|);
    }
  }

  lemma RelocatedBelow(source: Path, dest: Path, p: Path)
    requires source != []
    ensures Below(p, source) ==> Below(Relocated(p, source, dest), Target(source, dest))
    ensures Below(p, source) ==> Relocated(p, source, dest)[|Target(source, dest)|..] == p[|source|..]
    ensures Below(p, source) ==> p == source + p[|source|..]
  {
  }

  /** No two items are put in the same place. */
  lemma RelocatedInjective(ns: Namespace, source: Path, dest: Path, p: Path, q: Path)
    requires ns.Valid() && Movable(ns, source, dest) && ns.Has(p) && ns.Has(q)
    requires Relocated(p, source, dest) == Relocated(q, source, dest)
    ensures p == q
  {
    var target := Target(source, dest);
    NothingBelowFreePath(ns, p, target);
    NothingBelowFreePath(ns, q, target);
    RelocatedBelow(source, dest, p);
    RelocatedBelow(source, dest, q);
    assert Below(p, source) <==> Below(q, source);
  }

  lemma RelocatedExists(ns: Namespace, source: Path, dest: Path, p: Path)
    requires source != [] && ns.HasColl(p)
    ensures Moved(ns, source, dest).HasColl(Relocated(p, source, dest))
  {
    var c :| c in ns.colls && ns.colls[c] == p;
    assert Moved(ns, source, dest).colls[c] == Relocated(p, source, dest);
  }

  lemma ParentRelocated(source: Path, dest: Path, p: Path)
    requires source != [] && Below(p, source) && p != source
    ensures |Relocated(p, source, dest)| >= 2
    ensures Parent(Relocated(p, source, dest)) == Relocated(Parent(p), source, dest)
  {
  }

  /** The parent of a relocated item is a collection again. */
  lemma RelocatedParent(ns: Namespace, source: Path, dest: Path, p: Path)
    requires ns.Valid() && Movable(ns, source, dest) && !Below(dest, source)
    requires p != [] && (ns.HasColl(Parent(p)) || |p| == 1)
    ensures
      var r := Relocated(p, source, dest);
      r != [] && (r == p || |r| >= 2) && (|r| == 1 || Moved(ns, source, dest).HasColl(Parent(r)))
  {
    var r := Relocated(p, source, dest);
    RelocatedExists(ns, source, dest, dest);
    assert dest != [];
    if p == source {
      assert r == Target(source, dest);
      assert Parent(r) == dest == Relocated(dest, source, dest);
    } else if Below(p, source) {
      assert |p| > |source|;
      RelocatedExists(ns, source, dest, Parent(p));
      ParentRelocated(source, dest, p);
    } else if |p| > 1 {
      assert !Below(Parent(p), source);
      RelocatedExists(ns, source, dest, Parent(p));
    }
  }

  /** A move to a place outside the source keeps the catalog valid and the destination in place. */
  lemma MoveKeepsValid(ns: Namespace, source: Path, dest: Path)
    requires ns.Valid() && Movable(ns, source, dest) && !Below(dest, source)
    ensures Moved(ns, source, dest).Valid() && Moved(ns, source, dest).HasColl(dest)
  {
    var after := Moved(ns, source, dest);
    RelocatedExists(ns, source, dest, dest);
    forall c | c in after.colls
      ensures after.colls[c] != [] && (|after.colls[c]| == 1 || after.HasColl(Parent(after.colls[c])))
    {
      RelocatedParent(ns, source, dest, ns.colls[c]);
    }
    forall o | o in after.objs ensures |after.objs[o]| >= 2 && after.HasColl(Parent(after.objs[o])) {
      RelocatedParent(ns, source, dest, ns.objs[o]);
    }
    MoveKeepsUnique(ns, source, dest);
  }

  lemma MoveKeepsUnique(ns: Namespace, source: Path, dest: Path)
    requires ns.Valid() && Movable(ns, source, dest)
    ensures
      var after := Moved(ns, source, dest);
      && (forall a, b :: a in after.colls && b in after.colls && after.colls[a] == after.colls[b] ==> a == b)
      && (forall a, b :: a in after.objs && b in after.objs && after.objs[a] == after.objs[b] ==> a == b)
      && (forall a, b :: a in after.colls && b in after.objs ==> after.colls[a] != after.objs[b])
  {
    var after := Moved(ns, source, dest);
    forall a, b | a in after.colls && b in after.colls && after.colls[a] == after.colls[b] ensures a == b {
      RelocatedInjective(ns, source, dest, ns.colls[a], ns.colls[b]);
    }
    forall a, b | a in after.objs && b in after.objs && after.objs[a] == after.objs[b] ensures a == b {
      RelocatedInjective(ns, source, dest, ns.objs[a], ns.objs[b]);
    }
    forall a, b | a in after.colls && b in after.objs ensures after.colls[a] != after.objs[b] {
      if after.colls[a] == after.objs[b] {
        RelocatedInjective(ns, source, dest, ns.colls[a], ns.objs[b]);
      }
    }
  }

  /** Exactly when a move leaves the destination where it was: it is not at or below the source. */
  lemma DestinationKeptExactly(ns: Namespace, source: Path, dest: Path)
    requires ns.Valid() && Movable(ns, source, dest)
    ensures Moved(ns, source, dest).HasColl(dest) <==> !Below(dest, source)
  {
    if !Below(dest, source) {
      MoveKeepsValid(ns, source, dest);
    } else {
      forall c | c in ns.colls ensures Moved(ns, source, dest).colls[c] != dest {
        var p := ns.colls[c];
        assert Below(p, source) ==> |Relocated(p, source, dest)| > |dest|;
      }
    }
  }

  // ----- The guard -------------------------------------------------------------------------

  /** The client's test compares characters, not names. */
  predicate IsDescendant(p1: string, p2: string) {
    |p1| > |p2| && p1[..|p2|] == p2
  }

  datatype Relation = NoRelation | SameColl | DescendantOfColl

  method CheckWithBuffer(dest: string, buffer: seq<string>) returns (r: Relation)
    ensures r == NoRelation <==> forall i :: 0 <= i < |buffer| ==> !(buffer[i] <= dest)
    ensures r != NoRelation ==>
              exists i :: 0 <= i < |buffer| && buffer[i] <= dest && (forall k :: 0 <= k < i ==> !(buffer[k] <= dest))
                          && (r == SameColl <==> buffer[i] == dest)
  {
    for i := 0 to |buffer|
      invariant forall k :: 0 <= k < i ==> !(buffer[k] <= dest)
    {
      if buffer[i] == dest {
        return SameColl;
      }
      if IsDescendant(dest, buffer[i]) {
        return DescendantOfColl;
      }
    }
    r := NoRelation;
  }

  lemma ConcatAssociates(a: string, b: string, c: string)
    ensures (a + b) + c == a + (b + c)
  {
  }

  lemma {:induction false} RenderConcat(p: Path, q: Path)
    ensures Render(p + q) == Render(p) + Render(q)
  {
    if p == [] {
      assert p + q == q;
    } else {
      RenderConcat(p[1..], q);
      RenderHead(p, q);
      ConcatAssociates("/" + p[0], Render(p[1..]), Render(q));
    }
  }

  lemma RenderOne(name: string)
    ensures Render([name]) == "/" + name && Render([]) == ""
  {
    assert [name][1..] == [];
  }

  lemma RenderHead(p: Path, q: Path)
    requires p != []
    ensures Render(p + q) == ("/" + p[0]) + Render(p[1..] + q)
  {
    assert (p + q)[1..] == p[1..] + q;
  }

  /** The test accepts every path at or below the collection, so the guard misses none. */
  lemma GuardSeesDescendants(dest: Path, source: Path)
    requires Below(dest, source)
    ensures Render(source) <= Render(dest)
  {
    RenderConcat(source, dest[|source|..]);
    assert dest == source + dest[|source|..];
  }

  /** The paths agree up to the last name of the source, which may be cut short. */
  predicate NamePrefix(source: Path, dest: Path)
    requires source != []
  {
    && |source| <= |dest|
    && Parent(source) <= dest
    && source[|source| - 1] <= dest[|source| - 1]
  }

  /**
   Exactly what the guard refuses: a destination at or below the collection, but also one at
   or below a sibling whose name merely begins with the name of the collection.
   */
  lemma {:induction false} GuardRefusesExactly(source: Path, dest: Path)
    requires source != [] && forall name :: name in source + dest ==> '/' !in name
    ensures Render(source) <= Render(dest) <==> NamePrefix(source, dest)
  {
    if dest != [] {
      var a, b := source[0], dest[0];
      assert a in source + dest && b in source + dest;
      assert forall name :: name in source[1..] + dest[1..] ==> name in source + dest;
      var s, d := source[1..], dest[1..];
      RenderStart(s);
      RenderStart(d);
      HeadPrefix(a, Render(s), b, Render(d));
      ConcatAssociates("/", a, Render(s));
      ConcatAssociates("/", b, Render(d));
      SlashPrefix(a + Render(s), b + Render(d));
      if s != [] {
        GuardRefusesExactly(s, d);
        NamePrefixTail(source, dest);
      }
    }
  }

  lemma RenderStart(p: Path)
    ensures Render(p) == "" <==> p == []
    ensures p != [] ==> Render(p)[0] == '/'
  {
  }

  lemma NamePrefixTail(source: Path, dest: Path)
    requires |source| > 1 && dest != []
    ensures NamePrefix(source, dest) <==> source[0] == dest[0] && NamePrefix(source[1..], dest[1..])
  {
  }

  lemma SlashPrefix(x: string, y: string)
    ensures "/" + x <= "/" + y <==> x <= y
  {
    assert ("/" + x)[1..] == x && ("/" + y)[1..] == y;
  }

  /** Comparing character by character decides the first name before the rest. */
  lemma HeadPrefix(a: string, x: string, b: string, y: string)
    requires '/' !in a && '/' !in b
    requires (x == "" || x[0] == '/') && (y == "" || y[0] == '/')
    ensures x == "" ==> (a + x <= b + y <==> a <= b)
    ensures x != "" ==> (a + x <= b + y <==> a == b && x <= y)
  {
    var l, r := a + x, b + y;
    if |a| > |b| {
      assert l[|b|] == a[|b|] && a[|b|] in a;
      assert |r| > |b| ==> r[|b|] == y[0];
    } else {
      assert l[..|a|] == a && r[..|a|] == b[..|a|];
      if x != "" {
        assert l[|a|] == '/';
        assert |a| < |b| ==> r[|a|] == b[|a|] && b[|a|] in b;
        assert l[|a|..] == x && |a| == |b| ==> r[|a|..] == y;
      }
    }
  }

  // ----- The whole buffer --------------------------------------------------------------------

  /**
   What the server answers to a call, by the number of calls before, the catalog, the source
   and the destination: the catalog after the move, or a failure.
   */
  type Answers = (nat, Namespace, Path, Path) -> Option<Namespace>

  /** One move, where it is possible. */
  function Mover(dest: Path): (Namespace, Path) -> Option<Namespace> {
    (ns: Namespace, source: Path) => if Movable(ns, source, dest) then Some(Moved(ns, source, dest)) else None
  }

  /** A call that succeeds has moved the source; a call may fail for any reason. */
  ghost predicate Honest(answers: Answers) {
    forall calls, ns, source, dest {:trigger HonestAt(answers, calls, ns, source, dest)} ::
      HonestAt(answers, calls, ns, source, dest)
  }

  ghost predicate HonestAt(answers: Answers, calls: nat, ns: Namespace, source: Path, dest: Path) {
    answers(calls, ns, source, dest).Some? ==> answers(calls, ns, source, dest) == Mover(dest)(ns, source)
  }

  /** For instance the server that refuses certain calls and otherwise moves what it can. */
  function Answering(refused: set<nat>): Answers {
    (calls: nat, ns: Namespace, source: Path, dest: Path) => if calls in refused then None else Mover(dest)(ns, source)
  }

  lemma AnsweringIsHonest(refused: set<nat>)
    ensures Honest(Answering(refused))
  {
  }

  function MoveCall(answers: Answers, dest: Path): (nat, Namespace, Path) -> Option<Namespace> {
    (calls: nat, ns: Namespace, source: Path) => answers(calls, ns, source, dest)
  }

  /** The first of the items from i to n that is not moved, and the catalog then. */
  ghost function MoveRun(answers: Answers, calls: nat, ns: Namespace, items: seq<Path>, i: nat, n: nat, dest: Path)
    : (nat, Namespace)
    requires n <= |items|
  {
    Proceed(MoveCall(answers, dest), calls, ns, items, i, n)
  }

  class Server {
    const answers: Answers
    var calls: nat
    var ns: Namespace

    constructor (ns: Namespace, answers: Answers)
      ensures this.ns == ns && this.answers == answers && calls == 0
    {
      this.ns, this.answers, calls := ns, answers, 0;
    }

    method MoveObjects(source: Path, dest: Path) returns (ok: bool)
      modifies this
      ensures ok <==> answers(old(calls), old(ns), source, dest).Some?
      ensures ns == if ok then answers(old(calls), old(ns), source, dest).value else old(ns)
      ensures calls == old(calls) + 1
    {
      var answer := answers(calls, ns, source, dest);
      ok, calls := answer.Some?, calls + 1;
      if ok {
        ns := answer.value;
      }
    }
  }

  datatype Outcome = NothingBuffered | Refused | Finished | Failed

  /** One loop over buffered items, which are those from `at` on in the whole buffer. */
  method MoveEach(server: Server, dest: Path, items: seq<Path>, ghost all: seq<Path>, ghost at: nat)
    returns (ok: bool, done: nat)
    requires at + |items| <= |all| && items == all[at..at + |items|]
    modifies server
    ensures (at + done, server.ns) ==
            MoveRun(server.answers, old(server.calls), old(server.ns), all, at, at + |items|, dest)
    ensures done <= |items| && (ok <==> done == |items|)
    ensures server.calls == old(server.calls) + done + if ok then 0 else 1
  {
    done := 0;
    ghost var end := at + |items|;
    ghost var goal := MoveRun(server.answers, server.calls, server.ns, all, at, end, dest);
    while done < |items|
      invariant done <= |items| && server.calls == old(server.calls) + done
      invariant goal == MoveRun(server.answers, server.calls, server.ns, all, at + done, end, dest)
    {
      assert items[done] == all[at + done];
      ok := server.MoveObjects(items[done], dest);
      if !ok {
        return;
      }
      done := done + 1;
    }
    ok := true;
  }

  /** Collections first, then objects. */
  method MoveAll(server: Server, dest: Path, colls: seq<Path>, objs: seq<Path>) returns (ok: bool, done: nat)
    modifies server
    ensures (done, server.ns) ==
            MoveRun(server.answers, old(server.calls), old(server.ns), colls + objs, 0, |colls + objs|, dest)
    ensures ok <==> done == |colls + objs|
  {
    ghost var all := colls + objs;
    ProceedContinues(MoveCall(server.answers, dest), server.calls, server.ns, all, 0, |colls|, |all|);
    ok, done := MoveEach(server, dest, colls, all, 0);
    if ok {
      ok, done := MoveEach(server, dest, objs, all, |colls|);
      done := |colls| + done;
    }
  }

  lemma GuardMeaning(dest: Path, colls: seq<Path>)
    ensures (forall i :: 0 <= i < |colls| ==> !(Map(Render, colls)[i] <= Render(dest))) <==>
            (forall i :: 0 <= i < |colls| ==> !(Render(colls[i]) <= Render(dest)))
  {
    forall i | 0 <= i < |colls| ensures Map(Render, colls)[i] == Render(colls[i]) {
    }
  }

  /** The guard, then collections and objects; the first failing call ends the operation. */
  method MoveBuffered(server: Server, dest: Path, colls: seq<Path>, objs: seq<Path>)
    returns (outcome: Outcome, done: nat)
    modifies server
    ensures outcome == NothingBuffered <==> colls == [] && objs == []
    ensures outcome == Refused <==> exists i :: 0 <= i < |colls| && Render(colls[i]) <= Render(dest)
    ensures outcome.NothingBuffered? || outcome.Refused? ==>
              done == 0 && server.ns == old(server.ns) && server.calls == old(server.calls)
    ensures outcome.Finished? || outcome.Failed? ==>
              && (done, server.ns) ==
                 MoveRun(server.answers, old(server.calls), old(server.ns), colls + objs, 0, |colls + objs|, dest)
              && (outcome.Finished? <==> done == |colls + objs|)
  {
    done := 0;
    if colls == [] && objs == [] {
      return NothingBuffered, 0;
    }
    var relation := CheckWithBuffer(Render(dest), Map(Render, colls));
    GuardMeaning(dest, colls);
    if relation != NoRelation {
      return Refused, 0;
    }
    var ok;
    ok, done := MoveAll(server, dest, colls, objs);
    outcome := if ok then Finished else Failed;
  }

  /** What the guard admits, and the buffered objects: nothing the destination is below. */
  lemma GuardedItem(ns: Namespace, dest: Path, colls: seq<Path>, objs: seq<Path>, k: nat)
    requires ns.Valid() && ns.HasColl(dest) && k < |colls + objs|
    requires k < |colls| ==> !(Render(colls[k]) <= Render(dest))
    requires k >= |colls| ==> ns.HasObj(objs[k - |colls|])
    ensures !Below(dest, (colls + objs)[k])
  {
    if k < |colls| {
      if Below(dest, colls[k]) {
        GuardSeesDescendants(dest, colls[k]);
      }
    } else {
      ObjectNotAbove(ns, dest, objs[k - |colls|]);
    }
  }

  lemma ObjectNotAbove(ns: Namespace, dest: Path, obj: Path)
    requires ns.Valid() && ns.HasColl(dest) && ns.HasObj(obj)
    ensures !Below(dest, obj)
  {
    assert !ns.HasColl(obj);
    if Below(dest, obj) && dest != obj {
      assert dest[..|obj|] == obj;
      AncestorExists(ns, dest, |obj|);
    }
  }

  datatype Fault = Invalid | DestinationGone | ItemsLost

  /** What may be wrong with a catalog, compared with the one at the start. */
  ghost function Faults(start: Namespace, dest: Path, ns: Namespace): set<Fault> {
    (if ns.Valid() then {} else {Invalid}) +
    (if ns.HasColl(dest) then {} else {DestinationGone}) +
    (if ns.colls.Keys == start.colls.Keys && ns.objs.Keys == start.objs.Keys then {} else {ItemsLost})
  }

  /** Nothing: it is valid, the destination in place, and every item filed as at the start. */
  lemma NoFaultsExactly(start: Namespace, dest: Path, ns: Namespace)
    ensures Faults(start, dest, ns) == {} <==>
            && ns.Valid() && ns.HasColl(dest)
            && ns.colls.Keys == start.colls.Keys && ns.objs.Keys == start.objs.Keys
  {
    var faults := Faults(start, dest, ns);
    assert Invalid in faults <==> !ns.Valid();
    assert DestinationGone in faults <==> !ns.HasColl(dest);
  }

  lemma StepKeeps(answers: Answers, calls: nat, start: Namespace, dest: Path, ns: Namespace, item: Path)
    requires Honest(answers) && Faults(start, dest, ns) == {} && !Below(dest, item)
    requires answers(calls, ns, item, dest).Some?
    ensures Faults(start, dest, answers(calls, ns, item, dest).value) == {}
  {
    assert HonestAt(answers, calls, ns, item, dest);
    MoveKeepsValid(ns, item, dest);
  }

  /** One call of the loop, in whatever catalog it is made. */
  lemma {:induction false} CallsKeep(answers: Answers, calls: nat, start: Namespace, dest: Path, items: seq<Path>)
    requires Honest(answers) && forall k :: 0 <= k < |items| ==> !Below(dest, items[k])
    ensures forall k: nat, s ::
              k < |items| && Faults(start, dest, s) == {} && answers(calls + k, s, items[k], dest).Some? ==>
                Faults(start, dest, answers(calls + k, s, items[k], dest).value) == {}
  {
    forall k: nat, s | k < |items| && Faults(start, dest, s) == {} && answers(calls + k, s, items[k], dest).Some?
      ensures Faults(start, dest, answers(calls + k, s, items[k], dest).value) == {}
    {
      StepKeeps(answers, calls + k, start, dest, s, items[k]);
    }
  }

  /** Moving items the destination is not below keeps all that, as far as the loop comes. */
  lemma {:induction false} StepsKeep(answers: Answers, calls: nat, start: Namespace, dest: Path, items: seq<Path>)
    requires Honest(answers) && Faults(start, dest, start) == {}
    requires forall k :: 0 <= k < |items| ==> !Below(dest, items[k])
    ensures
      var (m, ns) := MoveRun(answers, calls, start, items, 0, |items|, dest);
      Faults(start, dest, ns) == {} && m <= |items| && (m < |items| ==> answers(calls + m, ns, items[m], dest).None?)
  {
    CallsKeep(answers, calls, start, dest, items);
    ProceedKeeps(MoveCall(answers, dest), (k: nat, s: Namespace) => Faults(start, dest, s) == {}, calls, start, items);
  }

  lemma GuardedAll(ns: Namespace, dest: Path, colls: seq<Path>, objs: seq<Path>)
    requires ns.Valid() && ns.HasColl(dest)
    requires forall i :: 0 <= i < |colls| ==> !(Render(colls[i]) <= Render(dest))
    requires forall i :: 0 <= i < |objs| ==> ns.HasObj(objs[i])
    ensures forall k :: 0 <= k < |colls + objs| ==> !Below(dest, (colls + objs)[k])
  {
    forall k | 0 <= k < |colls + objs| ensures !Below(dest, (colls + objs)[k]) {
      GuardedItem(ns, dest, colls, objs, k);
    }
  }

  /**
   Once the guard admits a move, whichever calls the server fails: the catalog stays valid,
   the destination keeps its path, no collection or object is lost or overwritten, and the
   loop stops early only where a call fails.
   */
  lemma {:induction false} AdmittedMoveIsSafe(answers: Answers, calls: nat, start: Namespace, dest: Path,
                                              colls: seq<Path>, objs: seq<Path>)
    requires Honest(answers) && start.Valid() && start.HasColl(dest)
    requires forall i :: 0 <= i < |colls| ==> !(Render(colls[i]) <= Render(dest))
    requires forall i :: 0 <= i < |objs| ==> start.HasObj(objs[i])
    ensures
      var all := colls + objs;
      var (m, ns) := MoveRun(answers, calls, start, all, 0, |all|, dest);
      Faults(start, dest, ns) == {} && m <= |all| && (m < |all| ==> answers(calls + m, ns, all[m], dest).None?)
  {
    GuardedAll(start, dest, colls, objs);
    StepsKeep(answers, calls, start, dest, colls + objs);
  }

  // ----- Where the items end ---------------------------------------------------------------

  /** The buffered items are different children of one collection. */
  ghost predicate Siblings(items: seq<Path>, parent: Path) {
    && (forall k :: 0 <= k < |items| ==> items[k] != [] && Parent(items[k]) == parent)
    && (forall j, k :: 0 <= j < k < |items| ==> items[j] != items[k])
  }

  /** Where a path is after the first m items have moved: everything at or below one of them moves along. */
  ghost function Placed(p: Path, items: seq<Path>, m: nat, dest: Path): Path
    requires m <= |items| && forall k :: 0 <= k < |items| ==> items[k] != []
  {
    if m == 0 then p
    else if Below(p, items[m - 1]) then Relocated(p, items[m - 1], dest)
    else Placed(p, items, m - 1, dest)
  }

  /** Children of one collection under different names, for instance. */
  lemma ChildrenAreSiblings(parent: Path, names: seq<string>)
    requires NoDuplicates(names)
    ensures Siblings(Map((name: string) => parent + [name], names), parent)
  {
    var items := Map((name: string) => parent + [name], names);
    forall j, k | 0 <= j < k < |items| ensures items[j] != items[k] {
      assert items[j][|parent|] == names[j] && items[k][|parent|] == names[k];
    }
  }

  lemma SiblingAbove(items: seq<Path>, parent: Path, p: Path, j: nat, k: nat)
    requires Siblings(items, parent) && j < |items| && k < |items| && Below(p, items[j]) && Below(p, items[k])
    ensures j == k
  {
    assert |items[j]| == |parent| + 1 == |items[k]|;
    assert items[j] == p[..|parent| + 1] == items[k];
  }

  /** Siblings do not share what is below them, so that is said by one item each. */
  lemma PlacedExactly(p: Path, items: seq<Path>, parent: Path, m: nat, dest: Path)
    requires Siblings(items, parent) && m <= |items|
    ensures forall k :: 0 <= k < m && Below(p, items[k]) ==> Placed(p, items, m, dest) == Relocated(p, items[k], dest)
    ensures (forall k :: 0 <= k < m ==> !Below(p, items[k])) ==> Placed(p, items, m, dest) == p
  {
    forall k | 0 <= k < m && Below(p, items[k]) ensures Placed(p, items, m, dest) == Relocated(p, items[k], dest) {
      forall j | k < j < m ensures !Below(p, items[j]) {
        if Below(p, items[j]) {
          SiblingAbove(items, parent, p, k, j);
        }
      }
      PlacedWith(p, items, m, dest, k);
    }
    if forall k :: 0 <= k < m ==> !Below(p, items[k]) {
      PlacedAside(p, items, m, dest);
    }
  }

  lemma {:induction false} PlacedWith(p: Path, items: seq<Path>, m: nat, dest: Path, k: nat)
    requires k < m <= |items| && forall j :: 0 <= j < |items| ==> items[j] != []
    requires Below(p, items[k]) && forall j :: k < j < m ==> !Below(p, items[j])
    ensures Placed(p, items, m, dest) == Relocated(p, items[k], dest)
  {
    if k < m - 1 {
      PlacedWith(p, items, m - 1, dest, k);
    }
  }

  lemma {:induction false} PlacedAside(p: Path, items: seq<Path>, m: nat, dest: Path)
    requires m <= |items| && forall k :: 0 <= k < |items| ==> items[k] != []
    requires forall k :: 0 <= k < m ==> !Below(p, items[k])
    ensures Placed(p, items, m, dest) == p
  {
    if m > 0 {
      PlacedAside(p, items, m - 1, dest);
    }
  }

  /** No item has been moved to a place above its siblings. */
  ghost predicate NoneAbove(items: seq<Path>, parent: Path, m: nat, dest: Path)
    requires m <= |items| && forall k :: 0 <= k < |items| ==> items[k] != []
  {
    forall j :: 0 <= j < m ==> !Below(parent, Target(items[j], dest))
  }

  /** Then the next item finds only what was below it at the start. */
  lemma PlacedBelow(p: Path, items: seq<Path>, parent: Path, m: nat, dest: Path)
    requires Siblings(items, parent) && m < |items| && NoneAbove(items, parent, m, dest) && !Below(dest, items[m])
    requires Below(Placed(p, items, m, dest), items[m])
    ensures Below(p, items[m])
  {
    PlacedExactly(p, items, parent, m, dest);
    if !Below(p, items[m]) {
      var j :| 0 <= j < m && Below(p, items[j]);
      MovedAside(p, items, parent, j, m, dest);
    }
  }

  lemma MovedAside(p: Path, items: seq<Path>, parent: Path, j: nat, m: nat, dest: Path)
    requires Siblings(items, parent) && j < m < |items| && NoneAbove(items, parent, m, dest) && !Below(dest, items[m])
    requires Below(p, items[j])
    ensures !Below(Relocated(p, items[j], dest), items[m])
  {
    var r, target, item := Relocated(p, items[j], dest), Target(items[j], dest), items[m];
    assert r[..|target|] == target && target[..|dest|] == dest;
    if |item| <= |dest| {
      assert r[..|item|] == dest[..|item|];
    } else if |item| == |target| {
      assert r[..|item|] == target;
      if item == target {
        SameTarget(item, items[j], dest);
      }
    } else {
      if Below(r, item) {
        OnOnePath(r, item, target);
        AboveParent(item, target);
      }
    }
  }

  lemma SameTarget(a: Path, b: Path, dest: Path)
    requires a != [] && b != [] && Parent(a) == Parent(b) && a == Target(b, dest)
    ensures a == b
  {
    assert a == Parent(a) + [a[|a| - 1]] && b == Parent(b) + [b[|b| - 1]];
  }

  lemma OnOnePath(r: Path, item: Path, above: Path)
    requires Below(r, item) && Below(r, above) && |above| <= |item|
    ensures Below(item, above)
  {
    assert item[..|above|] == r[..|above|];
  }

  lemma AboveParent(item: Path, above: Path)
    requires |above| < |item| && Below(item, above)
    ensures Below(Parent(item), above)
  {
    assert Parent(item)[..|above|] == item[..|above|];
  }

  lemma PlacedNext(p: Path, items: seq<Path>, parent: Path, m: nat, dest: Path)
    requires Siblings(items, parent) && m < |items| && NoneAbove(items, parent, m, dest) && !Below(dest, items[m])
    ensures Relocated(Placed(p, items, m, dest), items[m], dest) == Placed(p, items, m + 1, dest)
  {
    PlacedExactly(p, items, parent, m, dest);
    if Below(p, items[m]) {
      forall k | 0 <= k < m ensures !Below(p, items[k]) {
        if Below(p, items[k]) {
          SiblingAbove(items, parent, p, k, m);
        }
      }
    } else if Below(Placed(p, items, m, dest), items[m]) {
      PlacedBelow(p, items, parent, m, dest);
    }
  }

  /** Every collection and object is where the first m moves put it. */
  ghost function PlacedAll(start: Namespace, items: seq<Path>, m: nat, dest: Path): Namespace
    requires m <= |items| && forall k :: 0 <= k < |items| ==> items[k] != []
  {
    Namespace(map c | c in start.colls :: Placed(start.colls[c], items, m, dest),
              map o | o in start.objs :: Placed(start.objs[o], items, m, dest))
  }

  /** An item that can be moved was there at the start, and its target is not above its siblings. */
  lemma MovableNext(start: Namespace, items: seq<Path>, parent: Path, m: nat, dest: Path)
    requires start.Valid() && Siblings(items, parent) && m < |items| && NoneAbove(items, parent, m, dest)
    requires !Below(dest, items[m]) && Movable(PlacedAll(start, items, m, dest), items[m], dest)
    ensures NoneAbove(items, parent, m + 1, dest)
  {
    var target := Target(items[m], dest);
    ItemFromStart(start, items, parent, m, dest);
    if Below(parent, target) {
      assert items[m][..|target|] == parent[..|target|] == target;
      AncestorExists(start, items[m], |target|);
      StaysAbove(start, items, parent, m, dest, target);
    }
  }

  /** What is above the siblings stays. */
  lemma StaysAbove(start: Namespace, items: seq<Path>, parent: Path, m: nat, dest: Path, above: Path)
    requires Siblings(items, parent) && m <= |items| && start.HasColl(above) && |above| <= |parent|
    ensures PlacedAll(start, items, m, dest).HasColl(above)
  {
    var c :| c in start.colls && start.colls[c] == above;
    PlacedExactly(above, items, parent, m, dest);
    assert PlacedAll(start, items, m, dest).colls[c] == above;
  }

  lemma ItemFromStart(start: Namespace, items: seq<Path>, parent: Path, m: nat, dest: Path)
    requires Siblings(items, parent) && m < |items| && NoneAbove(items, parent, m, dest) && !Below(dest, items[m])
    requires PlacedAll(start, items, m, dest).Has(items[m])
    ensures start.Has(items[m])
  {
    var now, item := PlacedAll(start, items, m, dest), items[m];
    if now.HasColl(item) {
      var c :| c in now.colls && now.colls[c] == item;
      PlacedItself(start.colls[c], items, parent, m, dest);
    } else {
      var o :| o in now.objs && now.objs[o] == item;
      PlacedItself(start.objs[o], items, parent, m, dest);
    }
  }

  lemma PlacedItself(p: Path, items: seq<Path>, parent: Path, m: nat, dest: Path)
    requires Siblings(items, parent) && m < |items| && NoneAbove(items, parent, m, dest) && !Below(dest, items[m])
    requires Placed(p, items, m, dest) == items[m]
    ensures p == items[m]
  {
    PlacedBelow(p, items, parent, m, dest);
    PlacedExactly(p, items, parent, m, dest);
    forall k | 0 <= k < m ensures !Below(p, items[k]) {
      if Below(p, items[k]) {
        SiblingAbove(items, parent, p, k, m);
      }
    }
  }

  /** The next move puts everything where it belongs. */
  lemma PlacedAllNext(start: Namespace, items: seq<Path>, parent: Path, m: nat, dest: Path)
    requires Siblings(items, parent) && m < |items| && NoneAbove(items, parent, m, dest) && !Below(dest, items[m])
    ensures Moved(PlacedAll(start, items, m, dest), items[m], dest) == PlacedAll(start, items, m + 1, dest)
  {
    var after := Moved(PlacedAll(start, items, m, dest), items[m], dest);
    forall c | c in start.colls ensures after.colls[c] == Placed(start.colls[c], items, m + 1, dest) {
      PlacedNext(start.colls[c], items, parent, m, dest);
    }
    forall o | o in start.objs ensures after.objs[o] == Placed(start.objs[o], items, m + 1, dest) {
      PlacedNext(start.objs[o], items, parent, m, dest);
    }
  }

  ghost function InPlace(start: Namespace, items: seq<Path>, parent: Path, dest: Path): (nat, Namespace) -> bool
    requires forall k :: 0 <= k < |items| ==> items[k] != []
  {
    (k: nat, ns: Namespace) =>
      k <= |items| && NoneAbove(items, parent, k, dest) && ns == PlacedAll(start, items, k, dest)
  }

  lemma MovePlaces(answers: Answers, calls: nat, start: Namespace, items: seq<Path>, parent: Path, dest: Path, k: nat,
                   ns: Namespace)
    requires Honest(answers) && start.Valid() && Siblings(items, parent) && k < |items| && !Below(dest, items[k])
    requires InPlace(start, items, parent, dest)(k, ns) && answers(calls, ns, items[k], dest).Some?
    ensures InPlace(start, items, parent, dest)(k + 1, answers(calls, ns, items[k], dest).value)
  {
    assert HonestAt(answers, calls, ns, items[k], dest);
    MovableNext(start, items, parent, k, dest);
    PlacedAllNext(start, items, parent, k, dest);
  }

  /**
   An admitted move of siblings puts everything where it belongs, whichever call fails first: what was at or
   below an item that was moved is at the same place below the destination, and all else is where it was.
   */
  lemma {:induction false} AdmittedMovePlaces(answers: Answers, calls: nat, start: Namespace, dest: Path,
                                              colls: seq<Path>, objs: seq<Path>, parent: Path)
    requires Honest(answers) && start.Valid() && start.HasColl(dest) && Siblings(colls + objs, parent)
    requires forall i :: 0 <= i < |colls| ==> !(Render(colls[i]) <= Render(dest))
    requires forall i :: 0 <= i < |objs| ==> start.HasObj(objs[i])
    ensures
      var all := colls + objs;
      var (m, ns) := MoveRun(answers, calls, start, all, 0, |all|, dest);
      m <= |all| && ns == PlacedAll(start, all, m, dest)
  {
    GuardedAll(start, dest, colls, objs);
    MovesPlace(answers, calls, start, dest, colls + objs, parent);
  }

  /** Where that is, in names, for everything at or below a moved item and for everything else. */
  lemma PlacedInNames(start: Namespace, items: seq<Path>, parent: Path, m: nat, dest: Path, k: nat, rest: Path)
    requires Siblings(items, parent) && m <= |items| && k < m
    ensures
      var name, after := items[k][|parent|], PlacedAll(start, items, m, dest);
      && (forall c :: c in start.colls && start.colls[c] == parent + [name] + rest ==>
            c in after.colls && after.colls[c] == dest + [name] + rest)
      && (forall o :: o in start.objs && start.objs[o] == parent + [name] + rest ==>
            o in after.objs && after.objs[o] == dest + [name] + rest)
    ensures
      var after := PlacedAll(start, items, m, dest);
      && after.colls.Keys == start.colls.Keys && after.objs.Keys == start.objs.Keys
      && (forall c :: c in start.colls && (forall i :: 0 <= i < m ==> !(items[i] <= start.colls[c])) ==>
            after.colls[c] == start.colls[c])
      && (forall o :: o in start.objs && (forall i :: 0 <= i < m ==> !(items[i] <= start.objs[o])) ==>
            after.objs[o] == start.objs[o])
  {
    forall p ensures (forall i :: 0 <= i < m ==> !(items[i] <= p)) ==> Placed(p, items, m, dest) == p {
      PlacedExactly(p, items, parent, m, dest);
    }
    var name := items[k][|parent|];
    assert items[k] == parent + [name];
    PlacedExactly(parent + [name] + rest, items, parent, m, dest);
    RelocatedExactly(items[k], dest, rest, parent);
  }

  lemma NameOfRelocated(p: Path, source: Path, dest: Path)
    requires source != [] && Below(p, source)
    ensures |Relocated(p, source, dest)| > |dest| && Relocated(p, source, dest)[|dest|] == source[|source| - 1]
  {
  }

  lemma NamesOfSiblings(items: seq<Path>, parent: Path, j: nat, m: nat)
    requires Siblings(items, parent) && j < m < |items|
    ensures items[j][|items[j]| - 1] != items[m][|items[m]| - 1]
  {
    var a, b := items[j], items[m];
    assert a == Parent(a) + [a[|a| - 1]] && b == Parent(b) + [b[|b| - 1]];
  }

  /** The target of the next item stays free. */
  lemma TargetStaysFree(items: seq<Path>, parent: Path, m: nat, dest: Path, p: Path)
    requires Siblings(items, parent) && m < |items| && p != Target(items[m], dest)
    ensures Placed(p, items, m, dest) != Target(items[m], dest)
  {
    PlacedExactly(p, items, parent, m, dest);
    if exists j :: 0 <= j < m && Below(p, items[j]) {
      var j :| 0 <= j < m && Below(p, items[j]);
      NameOfRelocated(p, items[j], dest);
      NamesOfSiblings(items, parent, j, m);
      assert Target(items[m], dest)[|dest|] == items[m][|items[m]| - 1];
    }
  }

  /** The next item is still where it was. */
  lemma NextStillThere(items: seq<Path>, parent: Path, m: nat, dest: Path)
    requires Siblings(items, parent) && m < |items|
    ensures Placed(items[m], items, m, dest) == items[m]
  {
    forall k | 0 <= k < m ensures !Below(items[m], items[k]) {
      if Below(items[m], items[k]) {
        SiblingAbove(items, parent, items[m], k, m);
      }
    }
    PlacedExactly(items[m], items, parent, m, dest);
  }

  lemma NextMovable(start: Namespace, items: seq<Path>, parent: Path, m: nat, dest: Path)
    requires Siblings(items, parent) && m < |items| && PlacedAll(start, items, m, dest).HasColl(dest)
    requires start.Has(items[m]) && !start.Has(Target(items[m], dest))
    ensures Movable(PlacedAll(start, items, m, dest), items[m], dest)
  {
    var now := PlacedAll(start, items, m, dest);
    NextStillThere(items, parent, m, dest);
    if start.HasColl(items[m]) {
      var c :| c in start.colls && start.colls[c] == items[m];
      assert now.colls[c] == items[m];
    } else {
      var o :| o in start.objs && start.objs[o] == items[m];
      assert now.objs[o] == items[m];
    }
    forall p | start.Has(p) ensures Placed(p, items, m, dest) != Target(items[m], dest) {
      TargetStaysFree(items, parent, m, dest, p);
    }
    assert forall c :: c in start.colls ==> start.Has(start.colls[c]);
    assert forall o :: o in start.objs ==> start.Has(start.objs[o]);
  }

  /** The items exist and their targets are free. */
  ghost predicate Movables(start: Namespace, items: seq<Path>, parent: Path, dest: Path)
    requires forall k :: 0 <= k < |items| ==> |items[k]| > |parent|
  {
    forall k :: 0 <= k < |items| ==> start.Has(items[k]) && !start.Has(dest + [items[k][|parent|]])
  }

  lemma NextGranted(refused: set<nat>, calls: nat, start: Namespace, items: seq<Path>, parent: Path, m: nat, dest: Path)
    requires Siblings(items, parent) && Movables(start, items, parent, dest) && m < |items| && calls + m !in refused
    requires PlacedAll(start, items, m, dest).HasColl(dest)
    ensures Answering(refused)(calls + m, PlacedAll(start, items, m, dest), items[m], dest).Some?
  {
    assert |items[m]| == |Parent(items[m])| + 1 == |parent| + 1;
    NextMovable(start, items, parent, m, dest);
    var now := PlacedAll(start, items, m, dest);
    assert Movable(now, items[m], dest) && Mover(dest)(now, items[m]) == Some(Moved(now, items[m], dest));
    assert Answering(refused)(calls + m, now, items[m], dest) == Mover(dest)(now, items[m]);
  }

  /**
   An admitted move of siblings that exist, to places that are free, comes to its end if the server refuses
   none of its calls.
   */
  lemma {:induction false} UnrefusedMoveCompletes(refused: set<nat>, calls: nat, start: Namespace, dest: Path,
                                                  colls: seq<Path>, objs: seq<Path>, parent: Path)
    requires start.Valid() && start.HasColl(dest) && Siblings(colls + objs, parent)
    requires forall i :: 0 <= i < |colls| ==> !(Render(colls[i]) <= Render(dest))
    requires forall i :: 0 <= i < |objs| ==> start.HasObj(objs[i])
    requires forall k :: 0 <= k < |colls + objs| ==>
               start.Has((colls + objs)[k]) && !start.Has(dest + [(colls + objs)[k][|parent|]])
    requires forall c :: calls <= c < calls + |colls + objs| ==> c !in refused
    ensures MoveRun(Answering(refused), calls, start, colls + objs, 0, |colls + objs|, dest).0 == |colls + objs|
  {
    AnsweringIsHonest(refused);
    GuardedAll(start, dest, colls, objs);
    SiblingsMoveOn(refused, calls, start, dest, colls + objs, parent);
  }

  lemma {:induction false} SiblingsMoveOn(refused: set<nat>, calls: nat, start: Namespace, dest: Path, items: seq<Path>,
                                          parent: Path)
    requires Honest(Answering(refused)) && start.Valid() && start.HasColl(dest) && Siblings(items, parent)
    requires forall k :: 0 <= k < |items| ==> !Below(dest, items[k])
    requires Movables(start, items, parent, dest) && forall c :: calls <= c < calls + |items| ==> c !in refused
    ensures MoveRun(Answering(refused), calls, start, items, 0, |items|, dest).0 == |items|
  {
    var answers := Answering(refused);
    var (m, ns) := MoveRun(answers, calls, start, items, 0, |items|, dest);
    NoFaultsExactly(start, dest, start);
    StepsKeep(answers, calls, start, dest, items);
    MovesPlace(answers, calls, start, dest, items, parent);
    NoFaultsExactly(start, dest, ns);
    if m < |items| {
      NextGranted(refused, calls, start, items, parent, m, dest);
    }
  }

  lemma {:induction false} MovesPlace(answers: Answers, calls: nat, start: Namespace, dest: Path, items: seq<Path>,
                                      parent: Path)
    requires Honest(answers) && start.Valid() && Siblings(items, parent)
    requires forall k :: 0 <= k < |items| ==> !Below(dest, items[k])
    ensures
      var (m, ns) := MoveRun(answers, calls, start, items, 0, |items|, dest);
      InPlace(start, items, parent, dest)(m, ns)
  {
    StartInPlace(start, items, parent, dest);
    CallsPlace(answers, calls, start, items, parent, dest);
    ProceedKeeps(MoveCall(answers, dest), InPlace(start, items, parent, dest), calls, start, items);
  }

  lemma StartInPlace(start: Namespace, items: seq<Path>, parent: Path, dest: Path)
    requires forall k :: 0 <= k < |items| ==> items[k] != []
    ensures InPlace(start, items, parent, dest)(0, start)
  {
    assert PlacedAll(start, items, 0, dest) == start;
  }

  lemma {:induction false} CallsPlace(answers: Answers, calls: nat, start: Namespace, items: seq<Path>, parent: Path,
                                      dest: Path)
    requires Honest(answers) && start.Valid() && Siblings(items, parent)
    requires forall k :: 0 <= k < |items| ==> !Below(dest, items[k])
    ensures forall k: nat, s ::
              && k < |items| && InPlace(start, items, parent, dest)(k, s)
              && answers(calls + k, s, items[k], dest).Some? ==>
                InPlace(start, items, parent, dest)(k + 1, answers(calls + k, s, items[k], dest).value)
  {
    forall k: nat, s
      | k < |items| && InPlace(start, items, parent, dest)(k, s) && answers(calls + k, s, items[k], dest).Some?
      ensures InPlace(start, items, parent, dest)(k + 1, answers(calls + k, s, items[k], dest).value)
    {
      MovePlaces(answers, calls + k, start, items, parent, dest, k, s);
    }
  }
}
