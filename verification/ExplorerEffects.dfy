/**
 What each operation of the explorer leaves behind, entry by entry: in the lists of the
 document, in the cache and the child items of the item concerned, and in the rest of the tree.
 */
module ExplorerEffects {
  import opened Sequences
  import opened Explorer
  import opened ExplorerLaws

  // ----- The rest of the tree -------------------------------------------------------------

  /** Replacing an item leaves every item alone that is neither above it nor below. */
  lemma {:induction false} AsideUntouched(t: Item, p: Place, x: Item, q: Place)
    requires ValidPlace(t, p) && ValidPlace(t, q) && !(p <= q) && !(q <= p)
    ensures ValidPlace(ReplaceAt(t, p, x), q) && ItemAt(ReplaceAt(t, p, x), q) == ItemAt(t, q)
    decreases p
  {
    if p[0] == q[0] {
      TailPrefix(p, q);
      TailPrefix(q, p);
      AsideUntouched(t.kids[p[0]], p[1..], x, q[1..]);
    }
  }

  /** Of the items above it only the one child on the way to it changes. */
  lemma {:induction false} AboveUntouched(t: Item, p: Place, x: Item, q: Place)
    requires ValidPlace(t, p) && q < p
    ensures ValidPlace(t, q) && ValidPlace(ReplaceAt(t, p, x), q)
    ensures
      var before, after := ItemAt(t, q), ItemAt(ReplaceAt(t, p, x), q);
      && after.text == before.text && after.coll == before.coll && |after.kids| == |before.kids|
      && forall k :: 0 <= k < |before.kids| && k != p[|q|] ==> after.kids[k] == before.kids[k]
    decreases p
  {
    if q != [] {
      AboveUntouched(t.kids[p[0]], p[1..], x, q[1..]);
    }
  }

  // ----- Refreshing and selecting ---------------------------------------------------------

  /** The lists, the cache and the child items are the answer of the catalog. */
  ghost predicate ShowsAnswer(s: State, colls: seq<Coll>, objs: seq<DataObj>) {
    && ValidPlace(s.root, s.sel) && s.docColls == colls && s.docObjs == objs && s.collMode
    && var item := ItemAt(s.root, s.sel);
      && item.coll.queried && item.coll.colls == colls && item.coll.objs == objs && |item.kids| == |colls|
      && forall i :: 0 <= i < |colls| ==> item.kids[i] == Item(colls[i].name, colls[i].(queried := false), [])
  }

  /** A successful refresh shows the answer; one that fails stops at the query that failed. */
  lemma RefreshExactly(s: State, colls: seq<Coll>, objs: seq<DataObj>)
    requires ValidPlace(s.root, s.sel)
    ensures
      var a := RefreshSelected(s, Children(colls, objs));
      && a == State(a.root, s.sel, colls, objs, true) && ValidPlace(a.root, s.sel) && ShowsAnswer(a, colls, objs)
      && var before, after := ItemAt(s.root, s.sel), ItemAt(a.root, s.sel);
        && after.text == before.text && after.coll == Coll(before.coll.name, before.coll.path, true, colls, objs)
        && |after.kids| == |colls|
        && forall i :: 0 <= i < |colls| ==> after.kids[i] == Item(colls[i].name, colls[i].(queried := false), [])
    ensures RefreshSelected(s, NoObjs(colls)) == s.(docColls := colls) && RefreshSelected(s, NoColls) == s
  {
  }

  /** A queried item shows its cache, and nothing else changes; any other is refreshed. */
  lemma SelectExactly(s: State, p: Place, colls: seq<Coll>, objs: seq<DataObj>)
    requires ValidPlace(s.root, p)
    ensures
      var c, a := ItemAt(s.root, p).coll, Select(s, p, Children(colls, objs));
      && a.sel == p
      && if c.queried then a.docColls == c.colls && a.docObjs == c.objs && a.root == s.root && a.collMode == s.collMode
         else a == RefreshSelected(s.(sel := p), Children(colls, objs)) && ShowsAnswer(a, colls, objs)
  {
  }

  /** A refresh from elsewhere fills the lists with the children of the other item. */
  lemma RefreshOtherEffect(s: State, p: Place, colls: seq<Coll>, objs: seq<DataObj>)
    requires ValidPlace(s.root, p)
    ensures
      var a := RefreshOther(s, p, colls, objs);
      && a.sel == s.sel && a.collMode == s.collMode && ShowsAnswer(a.(sel := p, collMode := true), colls, objs)
      && SameFace(ItemAt(a.root, p), ItemAt(s.root, p))
  {
  }

  lemma StandingStill(s: State)
    ensures Reaches(s, [], s)
  {
  }

  /** An enabled step before a run makes a run. */
  lemma StepBegins(s: State, e: Event, es: seq<Event>, t: State)
    requires ValidPlace(s.root, s.sel) && Enabled(s, e) && Reaches(Step(s, e), es, t)
    ensures Reaches(s, [e] + es, t)
  {
    assert ([e] + es)[1..] == es;
  }

  /** The other steps of a run are the changes below. */
  lemma StepsAreHandlers(s: State, name: string, newName: string, o: DataObj, uploaded: seq<DataObj>)
    requires ValidPlace(s.root, s.sel)
    ensures Enabled(s, AddCollection(name)) && Step(s, AddCollection(name)) == NewCollection(s, name)
    ensures Enabled(s, AddFolder(name)) && Step(s, AddFolder(name)) == UploadFolder(s, name)
    ensures Enabled(s, AddFiles(uploaded)) && Step(s, AddFiles(uploaded)) == UploadFiles(s, uploaded)
    ensures Enabled(s, DropCollection(name)) && Step(s, DropCollection(name)) == ListDeleteColl(s, name)
    ensures
      var e := DropObject(o.name, o.parent, o.replica);
      Enabled(s, e) && Step(s, e) == ListDeleteObj(s, o.name, o.parent, o.replica)
    ensures Enabled(s, RenameCollection(name, newName))
            && Step(s, RenameCollection(name, newName)) == ListRenameColl(s, name, newName)
    ensures Enabled(s, RenameObject(name, newName))
            && Step(s, RenameObject(name, newName)) == ListRenameObj(s, name, newName)
  {
  }

  /** Selecting needs the place, and a refresh nothing. */
  lemma AnswersEnabled(s: State, p: Place, colls: seq<Coll>, objs: seq<DataObj>)
    requires ValidPlace(s.root, s.sel)
    ensures Enabled(s, SelectItem(p, colls, objs)) <==> ValidPlace(s.root, p)
    ensures Enabled(s, RefreshItem(colls, objs))
  {
  }

  /** A rename or deletion in the tree needs an item that no sibling before it shares its path with. */
  lemma EnabledExactly(s: State, q: Place, k: nat, p: Place, newName: string, colls: seq<Coll>, objs: seq<DataObj>)
    requires ValidPlace(s.root, q) && k < |ItemAt(s.root, q).kids| && s.sel == q + [k] && ValidPlace(s.root, s.sel)
    ensures
      var kids := ItemAt(s.root, q).kids;
      var first := forall j :: 0 <= j < k ==> kids[j].coll.path != kids[k].coll.path;
      && (Enabled(s, RenameItem(newName, colls, objs)) <==> first)
      && (Enabled(s, DeleteItem(p, colls, objs)) <==> first && ValidPlace(RootAfterDelete(s), p))
  {
    assert s.sel[..|s.sel| - 1] == q;
    assert SelectedIsFirst(s) <==> FirstOfItsPath(ItemAt(s.root, q), k);
  }

  lemma {:induction false} ReachesLast(s: State, es: seq<Event>, e: Event, t: State) returns (u: State)
    requires Reaches(s, es + [e], t)
    ensures Reaches(s, es, u) && ValidPlace(u.root, u.sel) && Enabled(u, e) && t == Step(u, e)
    decreases es
  {
    if es == [] {
      u := s;
      assert [e][1..] == [];
    } else {
      assert (es + [e])[1..] == es[1..] + [e];
      u := ReachesLast(Step(s, es[0]), es[1..], e, t);
    }
  }

  /**
   In every run: right after a refresh, a rename in the tree, or the selection of an item not queried before,
   everything shows the answer of the catalog; right after the selection of any other item the lists are what
   was cached with it.
   */
  lemma RunShowsAnswer(s: State, es: seq<Event>, e: Event, t: State) returns (u: State)
    requires Reaches(s, es + [e], t)
    ensures Reaches(s, es, u) && ValidPlace(u.root, u.sel) && Enabled(u, e) && t == Step(u, e)
    ensures e.RefreshItem? ==> t.sel == u.sel && ShowsAnswer(t, e.colls, e.objs)
    ensures e.SelectItem? ==>
              && t.sel == e.p && ValidPlace(u.root, e.p)
              && var c := ItemAt(u.root, e.p).coll;
                if c.queried then t.root == u.root && t.docColls == c.colls && t.docObjs == c.objs
                else ShowsAnswer(t, e.colls, e.objs)
    ensures e.RenameItem? ==> t.sel == u.sel && ShowsAnswer(t, e.colls, e.objs)
    ensures e.DeleteItem? ==>
              && t.sel == e.next && ValidPlace(RootAfterDelete(u), e.next)
              && var c := ItemAt(RootAfterDelete(u), e.next).coll;
                if c.queried then t.root == RootAfterDelete(u) && t.docColls == c.colls && t.docObjs == c.objs
                else ShowsAnswer(t, e.colls, e.objs)
  {
    u := ReachesLast(s, es, e, t);
    if e.RefreshItem? {
      RefreshExactly(u, e.colls, e.objs);
    } else if e.SelectItem? {
      SelectExactly(u, e.p, e.colls, e.objs);
    } else if e.RenameItem? {
      RenameShowsAnswer(u, e.newName, e.colls, e.objs);
    } else if e.DeleteItem? {
      SelectExactly(u.(root := RootAfterDelete(u)), e.next, e.colls, e.objs);
    }
  }

  lemma RenameShowsAnswer(s: State, newName: string, colls: seq<Coll>, objs: seq<DataObj>)
    requires ValidPlace(s.root, s.sel) && s.sel != []
    ensures
      var a := TreeRename(s, newName, Children(colls, objs));
      a.sel == s.sel && ShowsAnswer(a, colls, objs)
  {
    PlaceOfParent(s.root, s.sel);
    var q, k := s.sel[..|s.sel| - 1], s.sel[|s.sel| - 1];
    var root := ReplaceAt(s.root, q, ParentAfterRename(ItemAt(s.root, q), k, newName));
    PlaceOfKid(root, q, k);
    assert q + [k] == s.sel;
    RefreshExactly(s.(root := root), colls, objs);
  }

  // ----- Adding -----------------------------------------------------------------------------

  /** The child stands at the end of the lists, the cache and the tree; the item is otherwise as it was. */
  lemma NewCollectionExactly(s: State, name: string)
    requires ValidPlace(s.root, s.sel)
    ensures
      var a, item := NewCollection(s, name), ItemAt(s.root, s.sel);
      var c := Coll(name, item.coll.path + "/" + name, false, [], []);
      && a == s.(root := a.root, docColls := s.docColls + [c]) && ValidPlace(a.root, s.sel)
      && ItemAt(a.root, s.sel) ==
         Item(item.text, item.coll.(colls := item.coll.colls + [c]), item.kids + [Item(name, c, [])])
  {
  }

  lemma UploadFolderExactly(s: State, name: string)
    requires ValidPlace(s.root, s.sel)
    ensures
      var a, item := UploadFolder(s, name), ItemAt(s.root, s.sel);
      var c := Coll(name, item.coll.path + "/" + name, false, [], []);
      && a == s.(root := a.root, docColls := if s.collMode then s.docColls + [c] else s.docColls)
      && ValidPlace(a.root, s.sel)
      && ItemAt(a.root, s.sel) ==
         Item(item.text, item.coll.(colls := item.coll.colls + [c]), item.kids + [Item(name, c, [])])
  {
    CopyExactly(NEW_COLL.(name := name, path := ItemAt(s.root, s.sel).coll.path + "/" + name), NEW_COLL);
  }

  /** An object of this name and replica number is cached, or was uploaded before. */
  ghost predicate Known(objs: seq<DataObj>, uploaded: seq<DataObj>, i: nat)
    requires i < |uploaded|
  {
    || (exists k :: 0 <= k < |objs| && objs[k].name == uploaded[i].name && objs[k].replica == uploaded[i].replica)
    || (exists j :: 0 <= j < i && uploaded[j].name == uploaded[i].name && uploaded[j].replica == uploaded[i].replica)
  }

  lemma ListedMore(objs: seq<DataObj>, more: seq<DataObj>, o: DataObj)
    ensures Listed(objs, o) ==> Listed(objs + more, o)
    ensures o in more ==> Listed(objs + more, o)
  {
    if Listed(objs, o) {
      var i :| 0 <= i < |objs| && objs[i].name == o.name && objs[i].replica == o.replica;
      assert (objs + more)[i] == objs[i];
    }
    if o in more {
      var i :| 0 <= i < |more| && more[i] == o;
      assert (objs + more)[|objs| + i] == o;
    }
  }

  /** Afterwards every uploaded file is cached. */
  lemma {:induction false} UploadedListed(objs: seq<DataObj>, uploaded: seq<DataObj>, j: nat)
    requires j < |uploaded|
    ensures Listed(objs + Unlisted(objs, uploaded), uploaded[j])
  {
    var n := |uploaded| - 1;
    var rest := Unlisted(objs, uploaded[..n]);
    if j < n {
      UploadedListed(objs, uploaded[..n], j);
      ListedMore(objs + rest, [uploaded[n]], uploaded[j]);
    } else {
      ListedMore(objs + rest, [uploaded[n]], uploaded[n]);
    }
    assert objs + (rest + [uploaded[n]]) == objs + rest + [uploaded[n]];
  }

  lemma LastKnown(objs: seq<DataObj>, uploaded: seq<DataObj>, at: seq<nat>)
    requires uploaded != []
    requires
      var n := |uploaded| - 1;
      var rest := Unlisted(objs, uploaded[..n]);
      |rest| == |at| && forall k :: 0 <= k < |at| ==> at[k] < n && rest[k] == uploaded[at[k]]
    ensures
      var n := |uploaded| - 1;
      Known(objs, uploaded, n) <==> Listed(objs + Unlisted(objs, uploaded[..n]), uploaded[n])
  {
    var n := |uploaded| - 1;
    var o, all := uploaded[n], objs + Unlisted(objs, uploaded[..n]);
    if Listed(all, o) {
      var i :| 0 <= i < |all| && all[i].name == o.name && all[i].replica == o.replica;
      assert if i < |objs| then all[i] == objs[i] else all[i] == uploaded[at[i - |objs|]];
    }
    if exists k :: 0 <= k < |objs| && objs[k].name == o.name && objs[k].replica == o.replica {
      ListedMore(objs, Unlisted(objs, uploaded[..n]), o);
    }
    if exists j :: 0 <= j < n && uploaded[j].name == o.name && uploaded[j].replica == o.replica {
      var j: nat :| j < n && uploaded[j].name == o.name && uploaded[j].replica == o.replica;
      UploadedListed(objs, uploaded[..n], j);
    }
  }

  /** The files added are those not known, in order. */
  lemma {:induction false} UnlistedExactly(objs: seq<DataObj>, uploaded: seq<DataObj>) returns (at: seq<nat>)
    ensures Selection(at, |uploaded|)
    ensures forall i: nat :: i in at <==> i < |uploaded| && !Known(objs, uploaded, i)
    ensures |Unlisted(objs, uploaded)| == |at|
    ensures forall k :: 0 <= k < |at| ==> Unlisted(objs, uploaded)[k] == uploaded[at[k]]
  {
    at := [];
    if uploaded != [] {
      var n := |uploaded| - 1;
      at := UnlistedExactly(objs, uploaded[..n]);
      forall i: nat | i < n ensures Known(objs, uploaded[..n], i) <==> Known(objs, uploaded, i) {
        KnownFront(objs, uploaded, i);
      }
      LastKnown(objs, uploaded, at);
      SelectionOneMore(at, n);
      at := at + if Known(objs, uploaded, n) then [] else [n];
    }
  }

  lemma KnownFront(objs: seq<DataObj>, uploaded: seq<DataObj>, i: nat)
    requires i < |uploaded| - 1
    ensures Known(objs, uploaded[..|uploaded| - 1], i) <==> Known(objs, uploaded, i)
  {
    var front := uploaded[..|uploaded| - 1];
    assert forall j :: 0 <= j <= i ==> front[j] == uploaded[j];
  }

  /** The old objects come first, the added ones follow; nothing else of the item changes. */
  lemma UploadFilesExactly(s: State, uploaded: seq<DataObj>) returns (at: seq<nat>, added: seq<DataObj>)
    requires ValidPlace(s.root, s.sel)
    ensures
      var objs := ItemAt(s.root, s.sel).coll.objs;
      Selection(at, |uploaded|) && forall i: nat :: i in at <==> i < |uploaded| && !Known(objs, uploaded, i)
    ensures |added| == |at| && forall k :: 0 <= k < |at| ==> added[k] == uploaded[at[k]]
    ensures
      var a, item := UploadFiles(s, uploaded), ItemAt(s.root, s.sel);
      && a == s.(root := a.root, docObjs := if s.collMode then s.docObjs + added else s.docObjs)
      && ValidPlace(a.root, s.sel)
      && ItemAt(a.root, s.sel) == item.(coll := item.coll.(objs := item.coll.objs + added))
    ensures forall u :: u in uploaded ==> Listed(ItemAt(s.root, s.sel).coll.objs + added, u)
  {
    var objs := ItemAt(s.root, s.sel).coll.objs;
    at := UnlistedExactly(objs, uploaded);
    added := Unlisted(objs, uploaded);
    AllListed(objs, uploaded);
  }

  lemma AllListed(objs: seq<DataObj>, uploaded: seq<DataObj>)
    ensures forall u :: u in uploaded ==> Listed(objs + Unlisted(objs, uploaded), u)
  {
    forall u | u in uploaded ensures Listed(objs + Unlisted(objs, uploaded), u) {
      var j :| 0 <= j < |uploaded| && uploaded[j] == u;
      UploadedListed(objs, uploaded, j);
    }
  }

  // ----- First entries ------------------------------------------------------------------------

  /** Only the first collection of a path goes, or is renamed. */
  lemma FirstCollExactly(colls: seq<Coll>, path: string, k: nat, newPath: string, newName: string)
    requires k < |colls| && colls[k].path == path && forall j :: 0 <= j < k ==> colls[j].path != path
    ensures DropFirstColl(colls, path) == colls[..k] + colls[k + 1..]
    ensures RenameFirstColl(colls, path, newPath, newName) == colls[k := colls[k].(path := newPath, name := newName)]
  {
  }

  lemma FirstKidExactly(kids: seq<Item>, path: string, k: nat, newPath: string, newName: string)
    requires k < |kids| && kids[k].coll.path == path && forall j :: 0 <= j < k ==> kids[j].coll.path != path
    ensures DropFirstKid(kids, path) == kids[..k] + kids[k + 1..]
    ensures
      var renamed := Item(newName, kids[k].coll.(path := newPath, name := newName), kids[k].kids);
      RenameFirstKid(kids, path, newPath, newName) == kids[k := renamed]
  {
  }

  lemma FirstObjExactly(objs: seq<DataObj>, o: DataObj, k: nat)
    requires k < |objs| && objs[k].name == o.name && objs[k].parent == o.parent && objs[k].replica == o.replica
    requires forall j :: 0 <= j < k ==>
               objs[j].name != o.name || objs[j].parent != o.parent || objs[j].replica != o.replica
    ensures DropFirstObj(objs, o.name, o.parent, o.replica) == objs[..k] + objs[k + 1..]
  {
  }

  /** Where there is none, nothing changes. */
  lemma NoneFirst(colls: seq<Coll>, kids: seq<Item>, objs: seq<DataObj>, path: string, o: DataObj, newName: string)
    requires forall j :: 0 <= j < |colls| ==> colls[j].path != path
    requires forall j :: 0 <= j < |kids| ==> kids[j].coll.path != path
    requires forall j :: 0 <= j < |objs| ==>
               objs[j].name != o.name || objs[j].parent != o.parent || objs[j].replica != o.replica
    ensures DropFirstColl(colls, path) == colls && DropFirstKid(kids, path) == kids
    ensures DropFirstObj(objs, o.name, o.parent, o.replica) == objs
    ensures forall p ::
              RenameFirstColl(colls, path, p, newName) == colls && RenameFirstKid(kids, path, p, newName) == kids
  {
  }

  /** Every object of the old name is renamed, and nothing else. */
  lemma RenameObjsExactly(objs: seq<DataObj>, oldName: string, newName: string, k: nat)
    requires k < |objs|
    ensures |RenameObjs(objs, oldName, newName)| == |objs|
    ensures RenameObjs(objs, oldName, newName)[k] ==
            DataObj(if objs[k].name == oldName then newName else objs[k].name,
                    objs[k].parent, objs[k].replica, objs[k].details)
  {
  }

  // ----- Deleting and renaming in the list ---------------------------------------------------

  /** A deletion in the list reaches list, cache and child items, for collections, and list and cache for objects. */
  lemma ListDeleteExactly(s: State, path: string, o: DataObj)
    requires ValidPlace(s.root, s.sel) && s.collMode
    ensures
      var a, item := ListDeleteColl(s, path), ItemAt(s.root, s.sel);
      && a == s.(root := a.root, docColls := DropFirstColl(s.docColls, path)) && ValidPlace(a.root, s.sel)
      && ItemAt(a.root, s.sel) == Item(item.text, item.coll.(colls := DropFirstColl(item.coll.colls, path)),
                                       DropFirstKid(item.kids, path))
    ensures
      var a, item := ListDeleteObj(s, o.name, o.parent, o.replica), ItemAt(s.root, s.sel);
      && a == s.(root := a.root, docObjs := DropFirstObj(s.docObjs, o.name, o.parent, o.replica))
      && ValidPlace(a.root, s.sel)
      && ItemAt(a.root, s.sel) ==
         Item(item.text, item.coll.(objs := DropFirstObj(item.coll.objs, o.name, o.parent, o.replica)), item.kids)
  {
  }

  /** All three copies of a renamed collection take the same path, below the old one. */
  lemma ListRenameExactly(s: State, oldPath: string, oldName: string, newName: string)
    requires ValidPlace(s.root, s.sel) && s.collMode
    ensures
      var a, item, newPath := ListRenameColl(s, oldPath, newName), ItemAt(s.root, s.sel), oldPath + "/" + newName;
      && a == s.(root := a.root, docColls := RenameFirstColl(s.docColls, oldPath, newPath, newName))
      && ValidPlace(a.root, s.sel)
      && ItemAt(a.root, s.sel) ==
         Item(item.text, item.coll.(colls := RenameFirstColl(item.coll.colls, oldPath, newPath, newName)),
              RenameFirstKid(item.kids, oldPath, newPath, newName))
    ensures
      var a, item := ListRenameObj(s, oldName, newName), ItemAt(s.root, s.sel);
      && a == s.(root := a.root, docObjs := RenameObjs(s.docObjs, oldName, newName)) && ValidPlace(a.root, s.sel)
      && ItemAt(a.root, s.sel) ==
         Item(item.text, item.coll.(objs := RenameObjs(item.coll.objs, oldName, newName)), item.kids)
  {
  }

  /** While the list shows the results of a search, none of them changes anything here. */
  lemma SearchResultsApart(s: State, path: string, o: DataObj, newName: string)
    requires ValidPlace(s.root, s.sel) && !s.collMode
    ensures ListDeleteColl(s, path) == ListDeleteObj(s, o.name, o.parent, o.replica) == s
    ensures ListRenameColl(s, path, newName) == ListRenameObj(s, o.name, newName) == s
  {
  }

  /** A client that has only its root item, never queried, is where runs start. */
  lemma StartIsFresh(name: string, path: string, colls: seq<Coll>, objs: seq<DataObj>, mode: bool)
    ensures Fresh(State(Item(name, Coll(name, path, false, [], []), []), [], colls, objs, mode))
  {
  }

  // ----- Renaming and deleting in the tree -----------------------------------------------------

  /** The item takes its new name and path, the cache of its parent as far as it finds the old path. */
  lemma TreeRenameExactly(s: State, q: Place, k: nat, newName: string, colls: seq<Coll>, objs: seq<DataObj>)
    requires ValidPlace(s.root, q) && k < |ItemAt(s.root, q).kids| && s.sel == q + [k] && ValidPlace(s.root, s.sel)
    ensures
      var a, before := TreeRename(s, newName, Children(colls, objs)), ItemAt(s.root, q);
      var oldPath, newPath := before.kids[k].coll.path, before.coll.path + "/" + newName;
      && a.sel == s.sel && ShowsAnswer(a, colls, objs) && ValidPlace(a.root, q)
      && var after := ItemAt(a.root, q);
        && after.text == before.text && |after.kids| == |before.kids|
        && after.coll == before.coll.(colls := RenameFirstColl(before.coll.colls, oldPath, newPath, newName))
        && after.kids[k].text == after.kids[k].coll.name == newName && after.kids[k].coll.path == newPath
        && forall i :: 0 <= i < |before.kids| && i != k ==> after.kids[i] == before.kids[i]
  {
    var item := ItemAt(s.root, q);
    var root := ReplaceAt(s.root, q, ParentAfterRename(item, k, newName));
    assert s.sel[..|s.sel| - 1] == q;
    PlaceOfKid(root, q, k);
    var shown := Refreshed(ItemAt(root, s.sel), colls, objs);
    RefreshExactly(s.(root := root), colls, objs);
    AboveUntouched(root, s.sel, shown, q);
    PlaceOfKid(ReplaceAt(root, s.sel, shown), q, k);
  }

  /** Without an answer the item keeps its cache, but counts as not queried, and loses its child items. */
  lemma TreeRenameUnanswered(s: State, q: Place, k: nat, newName: string)
    requires ValidPlace(s.root, q) && k < |ItemAt(s.root, q).kids| && s.sel == q + [k] && ValidPlace(s.root, s.sel)
    ensures
      var a, parent := TreeRename(s, newName, NoColls), ItemAt(s.root, q);
      && a == s.(root := a.root) && ValidPlace(a.root, s.sel)
      && var c := parent.kids[k].coll;
        ItemAt(a.root, s.sel) ==
        Item(newName, Coll(newName, parent.coll.path + "/" + newName, false, c.colls, c.objs), [])
  {
    assert s.sel[..|s.sel| - 1] == q;
    PlaceOfKid(ReplaceAt(s.root, q, ParentAfterRename(ItemAt(s.root, q), k, newName)), q, k);
  }

  /** The item goes, and the first collection of its path in the cache of its parent. */
  lemma TreeDeleteExactly(s: State, q: Place, k: nat)
    requires ValidPlace(s.root, q) && k < |ItemAt(s.root, q).kids| && s.sel == q + [k] && ValidPlace(s.root, s.sel)
    ensures
      var root, before := RootAfterDelete(s), ItemAt(s.root, q);
      && ValidPlace(root, q)
      && ItemAt(root, q) == Item(before.text,
                                 before.coll.(colls := DropFirstColl(before.coll.colls, before.kids[k].coll.path)),
                                 before.kids[..k] + before.kids[k + 1..])
  {
    assert s.sel[..|s.sel| - 1] == q;
  }

  // ----- From one answer to the next ----------------------------------------------------------

  /** An operation on the children of the selected item. */
  predicate IsEdit(e: Event) { !e.SelectItem? && !e.RefreshItem? && !e.RenameItem? && !e.DeleteItem? }

  /** What an edit makes of the child collections of a path, and of its data objects. */
  ghost function EditColls(colls: seq<Coll>, path: string, e: Event): seq<Coll> {
    match e
    case AddCollection(name) => colls + [Coll(name, path + "/" + name, false, [], [])]
    case AddFolder(name) => colls + [Coll(name, path + "/" + name, false, [], [])]
    case DropCollection(p) => DropFirstColl(colls, p)
    case RenameCollection(oldPath, newName) =>
      RenameFirstColl(colls, oldPath, oldPath + "/" + newName, newName)
    case _ => colls
  }

  ghost function EditObjs(objs: seq<DataObj>, e: Event): seq<DataObj> {
    match e
    case AddFiles(uploaded) => objs + Unlisted(objs, uploaded)
    case DropObject(name, parent, replica) => DropFirstObj(objs, name, parent, replica)
    case RenameObject(oldName, newName) => RenameObjs(objs, oldName, newName)
    case _ => objs
  }

  ghost function AllEdits(colls: seq<Coll>, objs: seq<DataObj>, path: string, es: seq<Event>): (seq<Coll>, seq<DataObj>)
    decreases es
  {
    if es == [] then (colls, objs) else AllEdits(EditColls(colls, path, es[0]), EditObjs(objs, es[0]), path, es[1..])
  }

  lemma StepEdits(s: State, e: Event)
    requires Agrees(s) && IsEdit(e)
    ensures Enabled(s, e)
    ensures
      var t := Step(s, e);
      && t.docColls == EditColls(s.docColls, ItemAt(s.root, s.sel).coll.path, e)
      && t.docObjs == EditObjs(s.docObjs, e)
      && t.sel == s.sel && ValidPlace(t.root, t.sel)
      && ItemAt(t.root, t.sel).coll.path == ItemAt(s.root, s.sel).coll.path
  {
    if e.AddFolder? {
      UploadFolderExactly(s, e.name);
    }
  }

  lemma {:induction false} EditsAccumulate(s: State, es: seq<Event>, t: State)
    requires Agrees(s) && Reaches(s, es, t) && forall e :: e in es ==> IsEdit(e)
    ensures t.sel == s.sel
    ensures (t.docColls, t.docObjs) == AllEdits(s.docColls, s.docObjs, ItemAt(s.root, s.sel).coll.path, es)
    decreases es
  {
    if es != [] {
      assert es[0] in es;
      StepEdits(s, es[0]);
      StepAgrees(s, es[0]);
      EditsAccumulate(Step(s, es[0]), es[1..], t);
    }
  }

  /**
   From any answer of the catalog on, until something else is selected or asked for, the lists and the cache are
   that answer with the edits made since then, one after the other, and the tree shows its collections.
   */
  lemma LastAnswerEdited(a: State, colls: seq<Coll>, objs: seq<DataObj>, es: seq<Event>, t: State)
    requires Agrees(a) && ShowsAnswer(a, colls, objs) && Reaches(a, es, t) && forall e :: e in es ==> IsEdit(e)
    ensures t.sel == a.sel && Agrees(t)
    ensures
      var c, path := ItemAt(t.root, t.sel).coll, ItemAt(a.root, a.sel).coll.path;
      (t.docColls, t.docObjs) == (c.colls, c.objs) == AllEdits(colls, objs, path, es)
  {
    EditsAccumulate(a, es, t);
    RunAgrees(a, es, t);
  }
}
