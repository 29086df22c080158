/**
 The right pane of the desktop client shows the two lists of the document as rows, each with
 a copy of its own.  An operation on the rows updates rows and lists separately, finding the
 entries of the lists by path or by name, parent and replica number.
 */
module ListPane {
  import opened Sequences
  import opened Explorer
  import ExplorerLaws
  import opened Replies

  datatype Row = CollRow(coll: Coll) | ObjRow(obj: DataObj)

  datatype Pane = Pane(rows: seq<Row>, colls: seq<Coll>, objs: seq<DataObj>)

  function RowOfColl(c: Coll): Row { CollRow(c) }
  function RowOfObj(o: DataObj): Row { ObjRow(o) }

  /** The rows of the two lists, collections first. */
  function Filled(colls: seq<Coll>, objs: seq<DataObj>): seq<Row> {
    Map(RowOfColl, colls) + Map(RowOfObj, objs)
  }

  /** Up to their order, the rows are the entries of the lists. */
  ghost predicate RowsAgree(p: Pane) {
    multiset(p.rows) == multiset(Filled(p.colls, p.objs))
  }

  /** What a deletion looks for. */
  predicate SameKey(a: Row, b: Row) {
    match (a, b)
    case (CollRow(c), CollRow(d)) => c.path == d.path
    case (ObjRow(o), ObjRow(q)) => IsObj(o, q.name, q.parent, q.replica)
    case _ => false
  }

  ghost predicate Distinct(rows: seq<Row>) {
    forall i, j :: 0 <= i < j < |rows| ==> !SameKey(rows[i], rows[j])
  }

  ghost predicate Sound(p: Pane) { RowsAgree(p) && Distinct(Filled(p.colls, p.objs)) }

  // ----- The operations -----------------------------------------------------------------

  function FirstEntry(p: Pane, r: Row): Option<Row> {
    match r
    case CollRow(c) =>
      var i := FirstColl(p.colls, c.path);
      if i < |p.colls| then Some(CollRow(p.colls[i])) else None
    case ObjRow(o) =>
      var i := FirstObj(p.objs, o.name, o.parent, o.replica);
      if i < |p.objs| then Some(ObjRow(p.objs[i])) else None
  }

  function DropEntry(p: Pane, r: Row): Pane {
    match r
    case CollRow(c) => p.(colls := DropFirstColl(p.colls, c.path))
    case ObjRow(o) => p.(objs := DropFirstObj(p.objs, o.name, o.parent, o.replica))
  }

  function Deleted(p: Pane, j: nat): Pane {
    if j < |p.rows| then DropEntry(p, p.rows[j]).(rows := RemoveAt(p.rows, j)) else p
  }

  /** Deleting so many selected rows, from the highest index down. */
  ghost function DeletedTop(p: Pane, sel: seq<nat>, done: nat): Pane
    requires done <= |sel|
  {
    Fold(Deleted, p, TopDown(sel), done)
  }

  /** The row moves to the path it has in the catalog, the entry to the path that is recorded. */
  function CollRenamed(p: Pane, j: nat, newName: string): Pane
    requires j < |p.rows| && p.rows[j].CollRow?
  {
    var c := p.rows[j].coll;
    Pane(p.rows[j := CollRow(c.(path := ExplorerLaws.CatalogPath(c.path, newName), name := newName))],
         RenameFirstColl(p.colls, c.path, RecordedPath(c.path, newName), newName), p.objs)
  }

  function RenamedRow(oldName: string, newName: string): Row -> Row {
    (r: Row) => if r.ObjRow? && r.obj.name == oldName then ObjRow(r.obj.(name := newName)) else r
  }

  /** All replicas, in fact all objects of that name, get the new one. */
  function ObjRenamed(p: Pane, oldName: string, newName: string): Pane {
    Pane(Map(RenamedRow(oldName, newName), p.rows), p.colls, RenameObjs(p.objs, oldName, newName))
  }

  /** The catalog; which deletions it refuses is settled beforehand. */
  class Catalog {
    const refused: set<nat>   // by the number of calls before
    var calls: nat

    constructor (refused: set<nat>)
      ensures this.refused == refused && calls == 0
    {
      this.refused, calls := refused, 0;
    }

    method Delete() returns (ok: bool)
      modifies this
      ensures (ok <==> old(calls) !in refused) && calls == old(calls) + 1
    {
      ok, calls := calls !in refused, calls + 1;
    }
  }

  lemma {:induction false} DeletedTopRows(p: Pane, sel: seq<nat>, done: nat)
    requires Selection(sel, |p.rows|) && done <= |sel|
    ensures DeletedTop(p, sel, done).rows == Except(p.rows, Topmost(sel, done))
  {
    if done == 0 {
      ExceptNone(p.rows, Topmost(sel, 0));
    } else {
      DeletedTopRows(p, sel, done - 1);
      TopmostNext(p.rows, sel, done - 1);
    }
  }

  /** How far the deletions of a selection come, and what is left. */
  ghost function DeleteRun(refused: set<nat>, calls: nat, p: Pane, sel: seq<nat>, done: nat): (nat, Pane) {
    Proceed(Obeying(refused, Deleted), calls, p, TopDown(sel), done, |TopDown(sel)|)
  }

  /** They come as far as the calls are granted. */
  lemma DeleteRunExact(refused: set<nat>, calls: nat, p: Pane, sel: seq<nat>)
    ensures
      var (m, q) := DeleteRun(refused, calls, p, sel, 0);
      && m <= |sel| && q == DeletedTop(p, sel, m)
      && (forall c :: calls <= c < calls + m ==> c !in refused) && (m < |sel| ==> calls + m in refused)
  {
    ObeyingExact(refused, Deleted, calls, p, TopDown(sel));
  }

  class View {
    var rows: seq<Row>
    var colls: seq<Coll>
    var objs: seq<DataObj>

    function Now(): Pane
      reads this
    {
      Pane(rows, colls, objs)
    }

    constructor ()
      ensures Now() == Pane([], [], [])
    {
      rows, colls, objs := [], [], [];
    }

    /** Copies the lists into new rows. */
    method UpdateRlist()
      modifies `rows
      ensures rows == Filled(colls, objs) && |rows| == |colls| + |objs|
      ensures forall i :: 0 <= i < |colls| ==> rows[i] == CollRow(colls[i])
      ensures forall i :: 0 <= i < |objs| ==> rows[|colls| + i] == ObjRow(objs[i])
      ensures Distinct(Filled(colls, objs)) ==>
                Possible(old(Now()), Refresh(colls, objs)) && Now() == Step(old(Now()), Refresh(colls, objs))
    {
      rows := [];
      for i := 0 to |colls|
        invariant rows == Map(RowOfColl, colls[..i])
      {
        CopyExactly(colls[i], NEW_COLL);
        rows := rows + [CollRow(CopyTo(colls[i], NEW_COLL))];
      }
      assert colls[..|colls|] == colls;
      for i := 0 to |objs|
        invariant rows == Map(RowOfColl, colls) + Map(RowOfObj, objs[..i])
      {
        rows := rows + [ObjRow(objs[i])];
      }
      assert objs[..|objs|] == objs;
    }

    method InsertOneColl(c: Coll)
      modifies `rows, `colls
      ensures Now() == Pane(old(rows) + [CollRow(c)], old(colls) + [c], objs)
      ensures (forall d :: d in old(colls) ==> d.path != c.path) ==>
                Possible(old(Now()), NewColl(c)) && Now() == Step(old(Now()), NewColl(c))
    {
      CopyExactly(c, NEW_COLL);
      colls := colls + [c];
      rows := rows + [CollRow(CopyTo(c, NEW_COLL))];
    }

    method InsertOneDataobj(o: DataObj)
      modifies `rows, `objs
      ensures Now() == Pane(old(rows) + [ObjRow(o)], colls, old(objs) + [o])
      ensures (forall q :: q in old(objs) ==> (q.name, q.parent, q.replica) != (o.name, o.parent, o.replica)) ==>
                Possible(old(Now()), NewObj(o)) && Now() == Step(old(Now()), NewObj(o))
    {
      objs := objs + [o];
      rows := rows + [ObjRow(o)];
    }

    /** The rows deleted are the topmost selected ones, as many as the catalog grants in a row. */
    method OnDelete(sel: seq<nat>, catalog: Catalog) returns (done: nat)
      requires Selection(sel, |rows|)
      modifies this, catalog
      ensures done <= |sel| && forall c :: old(catalog.calls) <= c < old(catalog.calls) + done ==> c !in catalog.refused
      ensures done < |sel| ==> old(catalog.calls) + done in catalog.refused
      ensures Now() == DeletedTop(old(Now()), sel, done)
      ensures rows == Except(old(rows), Topmost(sel, done))
      ensures Possible(old(Now()), Event.Delete(sel, done)) && Now() == Step(old(Now()), Event.Delete(sel, done))
    {
      ghost var start := Now();
      DeleteRunExact(catalog.refused, catalog.calls, start, sel);
      done := DeleteSelected(sel, catalog);
      DeletedTopRows(start, sel, done);
    }

    /** The loop stops at the first refusal. */
    method DeleteSelected(sel: seq<nat>, catalog: Catalog) returns (done: nat)
      requires Selection(sel, |rows|)
      modifies this, catalog
      ensures (done, Now()) == DeleteRun(catalog.refused, old(catalog.calls), old(Now()), sel, 0)
    {
      done := 0;
      ghost var goal := DeleteRun(catalog.refused, catalog.calls, Now(), sel, 0);
      while done < |sel|
        invariant done <= |sel| && (done < |sel| ==> sel[|sel| - 1 - done] < |rows|)
        invariant goal == DeleteRun(catalog.refused, catalog.calls, Now(), sel, done)
      {
        var ok := catalog.Delete();
        if !ok {
          return;
        }
        DeleteRow(sel[|sel| - 1 - done]);
        done := done + 1;
      }
    }

    method DeleteRow(j: nat)
      requires j < |rows|
      modifies this
      ensures Now() == Deleted(old(Now()), j) && rows == RemoveAt(old(rows), j)
    {
      DropFromLists(rows[j]);
      rows := RemoveAt(rows, j);
    }

    method DropFromLists(r: Row)
      modifies `colls, `objs
      ensures Now() == DropEntry(old(Now()), r)
    {
      match r
      case CollRow(c) =>
        var i := Frame.FindColl(colls, c.path);
        if i < |colls| {
          colls := RemoveAt(colls, i);
        }
      case ObjRow(o) =>
        var i := Frame.FindObj(objs, o.name, o.parent, o.replica);
        if i < |objs| {
          objs := RemoveAt(objs, i);
        }
    }

    /** Renaming the selected row, after the catalog has agreed. */
    method OnRename(j: nat, newName: string)
      requires j < |rows|
      modifies this
      ensures Now() == if old(rows)[j].CollRow? then CollRenamed(old(Now()), j, newName)
                       else ObjRenamed(old(Now()), old(rows)[j].obj.name, newName)
      ensures old(rows)[j].ObjRow? && (forall o :: o in old(objs) ==> o.name != newName) ==>
                var e := RenameObj(old(rows)[j].obj.name, newName);
                Possible(old(Now()), e) && Now() == Step(old(Now()), e)
      ensures forall parent, name: string ::
                old(rows)[j].CollRow? && '/' !in name && old(rows)[j].coll.path == parent + "/" + name ==>
                  rows == old(rows)[j := CollRow(old(rows)[j].coll.(path := parent + "/" + newName, name := newName))]
    {
      forall parent, name: string | rows[j].CollRow? && '/' !in name && rows[j].coll.path == parent + "/" + name
        ensures ExplorerLaws.ParentOf(rows[j].coll.path) == parent
      {
        ExplorerLaws.ParentExactly(parent, name);
      }
      match rows[j]
      case CollRow(c) =>
        var i := Frame.FindColl(colls, c.path);
        if i < |colls| {
          colls := colls[i := colls[i].(path := RecordedPath(c.path, newName), name := newName)];
        }
        rows := rows[j := CollRow(c.(path := ExplorerLaws.CatalogPath(c.path, newName), name := newName))];
      case ObjRow(o) =>
        objs := Frame.RenameInPlace(objs, o.name, newName);
        rows := RenameRows(rows, o.name, newName);
    }

    static method RenameRows(rows: seq<Row>, oldName: string, newName: string) returns (r: seq<Row>)
      ensures r == Map(RenamedRow(oldName, newName), rows)
    {
      r := rows;
      for i := 0 to |rows|
        invariant |r| == |rows|
        invariant forall k :: 0 <= k < i ==> r[k] == RenamedRow(oldName, newName)(rows[k])
        invariant forall k :: i <= k < |rows| ==> r[k] == rows[k]
      {
        if r[i].ObjRow? && r[i].obj.name == oldName {
          r := r[i := ObjRow(r[i].obj.(name := newName))];
        }
      }
    }
  }

  // ----- Deleting ---------------------------------------------------------------------------

  /** The row goes, and with it the first entry of its path, or of its name, parent and replica number. */
  lemma DeletedExactly(p: Pane, j: nat, k: nat)
    requires j < |p.rows|
    ensures
      var q := Deleted(p, j);
      q.rows == p.rows[..j] + p.rows[j + 1..] &&
      match p.rows[j]
      case CollRow(c) =>
        && q.objs == p.objs
        && (k < |p.colls| && p.colls[k].path == c.path && (forall i :: 0 <= i < k ==> p.colls[i].path != c.path) ==>
              q.colls == p.colls[..k] + p.colls[k + 1..])
      case ObjRow(o) =>
        && q.colls == p.colls
        && (k < |p.objs| && IsObj(p.objs[k], o.name, o.parent, o.replica)
            && (forall i :: 0 <= i < k ==> !IsObj(p.objs[i], o.name, o.parent, o.replica)) ==>
              q.objs == p.objs[..k] + p.objs[k + 1..])
  {
  }

  /** The place of the first entry among the rows of the lists. */
  function EntryPlace(p: Pane, r: Row): nat {
    match r
    case CollRow(c) => FirstColl(p.colls, c.path)
    case ObjRow(o) => |p.colls| + FirstObj(p.objs, o.name, o.parent, o.replica)
  }

  lemma EntryDroppedAt(p: Pane, r: Row)
    requires FirstEntry(p, r).Some?
    ensures
      var q, rows := DropEntry(p, r), Filled(p.colls, p.objs);
      && EntryPlace(p, r) < |rows| && rows[EntryPlace(p, r)] == FirstEntry(p, r).value
      && Filled(q.colls, q.objs) == RemoveAt(rows, EntryPlace(p, r))
  {
    match r
    case CollRow(c) => FilledWithoutColl(p.colls, p.objs, FirstColl(p.colls, c.path));
    case ObjRow(o) => FilledWithoutObj(p.colls, p.objs, FirstObj(p.objs, o.name, o.parent, o.replica));
  }

  lemma FilledWithoutColl(colls: seq<Coll>, objs: seq<DataObj>, i: nat)
    requires i < |colls|
    ensures Filled(RemoveAt(colls, i), objs) == RemoveAt(Filled(colls, objs), i)
  {
    assert Map(RowOfColl, RemoveAt(colls, i)) == RemoveAt(Map(RowOfColl, colls), i);
  }

  lemma FilledWithoutObj(colls: seq<Coll>, objs: seq<DataObj>, i: nat)
    requires i < |objs|
    ensures Filled(colls, RemoveAt(objs, i)) == RemoveAt(Filled(colls, objs), |colls| + i)
  {
    assert Map(RowOfObj, RemoveAt(objs, i)) == RemoveAt(Map(RowOfObj, objs), i);
  }

  /** The entry that goes is the first one found. */
  lemma EntryDropped(p: Pane, r: Row)
    requires FirstEntry(p, r).Some?
    ensures
      var q := DropEntry(p, r);
      multiset(Filled(p.colls, p.objs)) == multiset(Filled(q.colls, q.objs)) + multiset{FirstEntry(p, r).value}
  {
    EntryDroppedAt(p, r);
    RemoveAtMultiset(Filled(p.colls, p.objs), EntryPlace(p, r));
  }

  lemma RowHasEntry(p: Pane, r: Row)
    requires r in Filled(p.colls, p.objs)
    ensures FirstEntry(p, r).Some? && SameKey(FirstEntry(p, r).value, r)
    ensures FirstEntry(p, r).value in Filled(p.colls, p.objs)
  {
  }

  /** Deleting a row keeps rows and lists in step exactly if its entry is the first of its key. */
  lemma DeleteKeepsRowsExactly(p: Pane, j: nat)
    requires RowsAgree(p) && j < |p.rows|
    ensures RowsAgree(Deleted(p, j)) <==> FirstEntry(p, p.rows[j]) == Some(p.rows[j])
  {
    var r := p.rows[j];
    assert r in multiset(p.rows) && r in Filled(p.colls, p.objs);
    RowHasEntry(p, r);
    EntryDropped(p, r);
    RemoveAtMultiset(p.rows, j);
    var f, after := FirstEntry(p, r).value, Deleted(p, j);
    var lists := multiset(Filled(after.colls, after.objs));
    assert multiset(after.rows) + multiset{r} == lists + multiset{f};
    if f == r {
      MultisetCancel(multiset(after.rows), lists, r);
    } else {
      assert (lists + multiset{f})[f] == lists[f] + 1;
      assert (multiset(after.rows) + multiset{r})[f] == multiset(after.rows)[f];
    }
  }

  lemma SoundEntryIsRow(p: Pane, r: Row)
    requires Distinct(Filled(p.colls, p.objs)) && r in Filled(p.colls, p.objs)
    ensures FirstEntry(p, r) == Some(r)
  {
    RowHasEntry(p, r);
    var rows, f := Filled(p.colls, p.objs), FirstEntry(p, r).value;
    var i :| 0 <= i < |rows| && rows[i] == r;
    var k :| 0 <= k < |rows| && rows[k] == f;
    assert SameKey(rows[i], rows[k]) && SameKey(rows[k], rows[i]);
    assert i == k;
  }

  lemma RemoveAtDistinct(rows: seq<Row>, i: nat)
    requires Distinct(rows) && i < |rows|
    ensures Distinct(RemoveAt(rows, i))
  {
  }

  lemma DeleteKeepsSound(p: Pane, j: nat)
    requires Sound(p)
    ensures Sound(Deleted(p, j))
  {
    if j < |p.rows| {
      var r := p.rows[j];
      assert r in multiset(p.rows) && r in Filled(p.colls, p.objs);
      SoundEntryIsRow(p, r);
      DeleteKeepsRowsExactly(p, j);
      EntryDroppedAt(p, r);
      RemoveAtDistinct(Filled(p.colls, p.objs), EntryPlace(p, r));
    }
  }

  /** Wherever the catalog refuses, the rows left and the lists are in step. */
  lemma {:induction false} DeleteSelectionKeepsSound(p: Pane, sel: seq<nat>, done: nat)
    requires Sound(p) && done <= |sel|
    ensures Sound(DeletedTop(p, sel, done))
  {
    var good := (q: Pane) => Sound(q);
    forall q, j: nat | good(q) ensures good(Deleted(q, j)) {
      DeleteKeepsSound(q, j);
    }
    FoldKeeps(Deleted, good, p, TopDown(sel), done);
  }

  // ----- Renaming ---------------------------------------------------------------------------

  /**
   The row of a renamed collection ends at the path it has in the catalog, beside its siblings, under the new
   name; its entry, the first one of the old path, ends below that path.  Nothing else changes.
   */
  lemma RenamedCollExactly(p: Pane, j: nat, parent: string, name: string, newName: string)
    requires j < |p.rows| && p.rows[j].CollRow? && p.rows[j].coll.path == parent + "/" + name && '/' !in name
    ensures
      var q, c := CollRenamed(p, j, newName), p.rows[j].coll;
      && q.rows == p.rows[j := CollRow(Coll(newName, parent + "/" + newName, c.queried, c.colls, c.objs))]
      && q.objs == p.objs && |q.colls| == |p.colls|
      && forall i :: 0 <= i < |p.colls| ==>
           q.colls[i] == if p.colls[i].path == c.path && (forall k :: 0 <= k < i ==> p.colls[k].path != c.path)
                         then p.colls[i].(name := newName, path := c.path + "/" + newName) else p.colls[i]
  {
    ExplorerLaws.ParentExactly(parent, name);
  }

  /** Renaming an object reaches all rows and entries of its name, and nothing else. */
  lemma RenamedObjExactly(p: Pane, oldName: string, newName: string)
    ensures
      var q := ObjRenamed(p, oldName, newName);
      && q.colls == p.colls && |q.rows| == |p.rows| && |q.objs| == |p.objs|
      && (forall i :: 0 <= i < |p.objs| ==>
            q.objs[i] == if p.objs[i].name == oldName then p.objs[i].(name := newName) else p.objs[i])
      && (forall i :: 0 <= i < |p.rows| ==>
            q.rows[i] == match p.rows[i]
                         case CollRow(c) => CollRow(c)
                         case ObjRow(o) => ObjRow(if o.name == oldName then o.(name := newName) else o))
  {
  }

  lemma EntryRenamed(p: Pane, j: nat, newName: string)
    requires j < |p.rows| && p.rows[j].CollRow? && FirstEntry(p, p.rows[j]).Some?
    ensures
      var f, q := FirstEntry(p, p.rows[j]).value, CollRenamed(p, j, newName);
      var g := CollRow(f.coll.(path := RecordedPath(f.coll.path, newName), name := newName));
      multiset(Filled(q.colls, q.objs)) == multiset(Filled(p.colls, p.objs)) - multiset{f} + multiset{g}
  {
    var i := FirstColl(p.colls, p.rows[j].coll.path);
    var f, q := p.colls[i], CollRenamed(p, j, newName);
    var g := CollRow(f.(path := RecordedPath(f.path, newName), name := newName));
    assert Filled(q.colls, q.objs) == Filled(p.colls, p.objs)[i := g];
    UpdateMultiset(Filled(p.colls, p.objs), i, g);
  }

  /** Renaming a collection in the list always separates its row from its entry. */
  lemma RenameCollKeepsRowsExactly(p: Pane, j: nat, newName: string)
    requires RowsAgree(p) && j < |p.rows| && p.rows[j].CollRow?
    ensures RowsAgree(CollRenamed(p, j, newName)) <==>
            p.rows[j].coll.path == "" && FirstEntry(p, p.rows[j]) == Some(p.rows[j])
  {
    var r := p.rows[j];
    assert r in multiset(p.rows) && r in Filled(p.colls, p.objs);
    RowHasEntry(p, r);
    EntryRenamed(p, j, newName);
    var c, f := r.coll, FirstEntry(p, r).value;
    var moved := CollRow(c.(path := ExplorerLaws.CatalogPath(c.path, newName), name := newName));
    var recorded := CollRow(f.coll.(path := RecordedPath(f.coll.path, newName), name := newName));
    UpdateMultiset(p.rows, j, moved);
    if c.path != "" {
      ExplorerLaws.RecordedPathIsWrong(c.path, newName);
    }
    assert |RecordedPath(c.path, newName)| > |c.path|;
    ExchangedExactly(multiset(p.rows), r, moved, f, recorded);
  }

  lemma ExchangedExactly<A>(m: multiset<A>, a: A, a': A, b: A, b': A)
    requires a in m && b in m && b != b'
    ensures m - multiset{a} + multiset{a'} == m - multiset{b} + multiset{b'} <==> a == b && a' == b'
  {
    var l, r := m - multiset{a} + multiset{a'}, m - multiset{b} + multiset{b'};
    if l == r {
      assert l[b'] == r[b'];
      assert l[b] == r[b];
    }
  }

  /** A collection renamed and then deleted in the list stays among the entries of the document. */
  lemma RenameThenDelete(p: Pane, j: nat, newName: string)
    requires RowsAgree(p) && j < |p.rows| && p.rows[j].CollRow? && p.rows[j].coll.path != ""
    requires forall k :: 0 <= k < |p.colls| ==>
               p.colls[k].path != ExplorerLaws.CatalogPath(p.rows[j].coll.path, newName)
    ensures
      var q := Deleted(CollRenamed(p, j, newName), j);
      && q.rows == RemoveAt(p.rows, j) && |q.colls| == |p.colls| && q.objs == p.objs
      && (exists k :: 0 <= k < |q.colls| && q.colls[k].path == RecordedPath(p.rows[j].coll.path, newName))
      && !RowsAgree(q)
  {
    var r, renamed := p.rows[j], CollRenamed(p, j, newName);
    assert r in multiset(p.rows) && r in Filled(p.colls, p.objs);
    RowHasEntry(p, r);
    ExplorerLaws.RecordedPathIsWrong(r.coll.path, newName);
    var i := FirstColl(p.colls, r.coll.path);
    assert renamed.colls[i].path == RecordedPath(r.coll.path, newName);
    assert FirstColl(renamed.colls, ExplorerLaws.CatalogPath(r.coll.path, newName)) == |p.colls|;
    var q := Deleted(renamed, j);
    assert q.rows == RemoveAt(p.rows, j) && q.colls == renamed.colls;
    assert |p.rows| == |multiset(p.rows)| == |p.colls| + |p.objs|;
    assert |multiset(q.rows)| != |multiset(Filled(q.colls, q.objs))|;
  }

  /** Renaming objects treats rows and entries alike. */
  lemma RenameObjKeepsRows(p: Pane, oldName: string, newName: string)
    requires RowsAgree(p)
    ensures RowsAgree(ObjRenamed(p, oldName, newName))
  {
    var rename := RenamedRow(oldName, newName);
    MapMultiset(rename, p.rows, Filled(p.colls, p.objs));
    assert Map(rename, Filled(p.colls, p.objs)) == Filled(p.colls, RenameObjs(p.objs, oldName, newName));
  }

  lemma RenameObjKeepsSound(p: Pane, oldName: string, newName: string)
    requires Sound(p) && forall k :: 0 <= k < |p.objs| ==> p.objs[k].name != newName
    ensures Sound(ObjRenamed(p, oldName, newName))
  {
    RenameObjKeepsRows(p, oldName, newName);
    var rename, rows := RenamedRow(oldName, newName), Filled(p.colls, p.objs);
    assert Map(rename, rows) == Filled(p.colls, RenameObjs(p.objs, oldName, newName));
    forall i, j | 0 <= i < j < |rows| ensures !SameKey(rename(rows[i]), rename(rows[j])) {
      assert !SameKey(rows[i], rows[j]);
    }
  }

  // ----- Inserting --------------------------------------------------------------------------

  lemma NewCollKeepsRows(p: Pane, c: Coll)
    requires RowsAgree(p)
    ensures RowsAgree(Pane(p.rows + [CollRow(c)], p.colls + [c], p.objs))
  {
    var a, b := Map(RowOfColl, p.colls), Map(RowOfObj, p.objs);
    assert Map(RowOfColl, p.colls + [c]) == a + [CollRow(c)];
    assert multiset(a + [CollRow(c)] + b) == multiset(a + b) + multiset{CollRow(c)};
  }

  lemma NewObjKeepsRows(p: Pane, o: DataObj)
    requires RowsAgree(p)
    ensures RowsAgree(Pane(p.rows + [ObjRow(o)], p.colls, p.objs + [o]))
  {
    assert Filled(p.colls, p.objs + [o]) == Filled(p.colls, p.objs) + [ObjRow(o)];
  }

  lemma InsertKeepsDistinct(a: seq<Row>, r: Row, b: seq<Row>)
    requires Distinct(a + b) && forall x :: x in a + b ==> !SameKey(x, r)
    ensures Distinct(a + [r] + b)
  {
    var before, after := a + b, a + [r] + b;
    forall i, j | 0 <= i < j < |after| ensures !SameKey(after[i], after[j]) {
      if i == |a| {
        assert after[j] == before[j - 1] && before[j - 1] in before;
      } else if j == |a| {
        assert after[i] == before[i] && before[i] in before;
      } else {
        assert after[i] == before[if i < |a| then i else i - 1];
        assert after[j] == before[if j < |a| then j else j - 1];
      }
    }
  }

  lemma NewCollKeepsDistinct(p: Pane, c: Coll)
    requires Distinct(Filled(p.colls, p.objs)) && Possible(p, NewColl(c))
    ensures Distinct(Filled(p.colls + [c], p.objs))
  {
    InsertKeepsDistinct(Map(RowOfColl, p.colls), CollRow(c), Map(RowOfObj, p.objs));
    assert Filled(p.colls + [c], p.objs) == Map(RowOfColl, p.colls) + [CollRow(c)] + Map(RowOfObj, p.objs);
  }

  lemma NewObjKeepsDistinct(p: Pane, o: DataObj)
    requires Distinct(Filled(p.colls, p.objs)) && Possible(p, NewObj(o))
    ensures Distinct(Filled(p.colls, p.objs + [o]))
  {
    var before := Filled(p.colls, p.objs);
    assert before + [] == before;
    InsertKeepsDistinct(before, ObjRow(o), []);
    assert Filled(p.colls, p.objs + [o]) == before + [ObjRow(o)] + [];
  }

  /** The row of a new collection stands where a refresh puts it exactly if no object is listed. */
  lemma InsertKeepsOrderExactly(colls: seq<Coll>, objs: seq<DataObj>, c: Coll)
    ensures Filled(colls, objs) + [CollRow(c)] == Filled(colls + [c], objs) <==> objs == []
  {
    var a, b := Filled(colls, objs) + [CollRow(c)], Filled(colls + [c], objs);
    assert b[|colls|] == CollRow(c);
    if objs != [] {
      assert a[|colls|] == ObjRow(objs[0]);
    }
  }

  // ----- Runs --------------------------------------------------------------------------------

  datatype Event =
    | Refresh(colls: seq<Coll>, objs: seq<DataObj>)
    | NewColl(c: Coll)
    | NewObj(o: DataObj)
    | Delete(sel: seq<nat>, done: nat)
    | RenameObj(oldName: string, newName: string)

  /** The catalog has no two children of the same key, and refuses to create a second one. */
  ghost predicate Possible(p: Pane, e: Event) {
    match e
    case Refresh(colls, objs) => Distinct(Filled(colls, objs))
    case NewColl(c) => forall k :: 0 <= k < |p.colls| ==> p.colls[k].path != c.path
    case NewObj(o) => forall k :: 0 <= k < |p.objs| ==> !SameKey(ObjRow(p.objs[k]), ObjRow(o))
    case Delete(sel, done) => Selection(sel, |p.rows|) && done <= |sel|
    case RenameObj(_, newName) => forall k :: 0 <= k < |p.objs| ==> p.objs[k].name != newName
  }

  ghost function Step(p: Pane, e: Event): Pane
    requires Possible(p, e)
  {
    match e
    case Refresh(colls, objs) => Pane(Filled(colls, objs), colls, objs)
    case NewColl(c) => Pane(p.rows + [CollRow(c)], p.colls + [c], p.objs)
    case NewObj(o) => Pane(p.rows + [ObjRow(o)], p.colls, p.objs + [o])
    case Delete(sel, done) => DeletedTop(p, sel, done)
    case RenameObj(oldName, newName) => ObjRenamed(p, oldName, newName)
  }

  /** Rows just filled agree with the lists; they are sound exactly if no two children have the same key. */
  lemma FilledSoundExactly(colls: seq<Coll>, objs: seq<DataObj>)
    ensures RowsAgree(Pane(Filled(colls, objs), colls, objs))
    ensures Sound(Pane(Filled(colls, objs), colls, objs)) <==>
            && (forall i, j :: 0 <= i < j < |colls| ==> colls[i].path != colls[j].path)
            && (forall i, j :: 0 <= i < j < |objs| ==>
                  (objs[i].name, objs[i].parent, objs[i].replica) != (objs[j].name, objs[j].parent, objs[j].replica))
  {
    var rows := Filled(colls, objs);
    if Distinct(rows) {
      forall i, j | 0 <= i < j < |colls| ensures colls[i].path != colls[j].path {
        assert !SameKey(rows[i], rows[j]);
      }
      forall i, j | 0 <= i < j < |objs|
        ensures (objs[i].name, objs[i].parent, objs[i].replica) != (objs[j].name, objs[j].parent, objs[j].replica)
      {
        assert !SameKey(rows[|colls| + i], rows[|colls| + j]);
      }
    }
  }

  lemma StepKeepsSound(p: Pane, e: Event)
    requires Sound(p) && Possible(p, e)
    ensures Sound(Step(p, e))
  {
    match e
    case Refresh(_, _) =>
    case NewColl(c) =>
      NewCollKeepsRows(p, c);
      NewCollKeepsDistinct(p, c);
    case NewObj(o) =>
      NewObjKeepsRows(p, o);
      NewObjKeepsDistinct(p, o);
    case Delete(sel, done) => DeleteSelectionKeepsSound(p, sel, done);
    case RenameObj(oldName, newName) => RenameObjKeepsSound(p, oldName, newName);
  }

  ghost predicate Reaches(p: Pane, es: seq<Event>, q: Pane)
    decreases es
  {
    if es == [] then p == q else Possible(p, es[0]) && Reaches(Step(p, es[0]), es[1..], q)
  }

  lemma StandingStill(p: Pane)
    ensures Reaches(p, [], p)
  {
  }

  lemma {:induction false} ReachesOneMore(p: Pane, es: seq<Event>, q: Pane, e: Event)
    requires Reaches(p, es, q) && Possible(q, e)
    ensures Reaches(p, es + [e], Step(q, e))
    decreases es
  {
    if es == [] {
      assert [e][1..] == [];
    } else {
      ReachesOneMore(Step(p, es[0]), es[1..], q, e);
      assert (es + [e])[1..] == es[1..] + [e];
    }
  }

  /** Without a renamed collection, the rows are the entries of the lists in every run. */
  lemma {:induction false} RunKeepsSound(p: Pane, es: seq<Event>, q: Pane)
    requires Sound(p) && Reaches(p, es, q)
    ensures Sound(q)
    decreases es
  {
    if es != [] {
      StepKeepsSound(p, es[0]);
      RunKeepsSound(Step(p, es[0]), es[1..], q);
    }
  }
}
