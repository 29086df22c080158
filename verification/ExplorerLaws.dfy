/** Agreement of the copies over whole runs, and exactly where it is lost. */
module ExplorerLaws {
  import opened Sequences
  import opened Explorer

  // ----- Each operation on the selected item ------------------------------------------------

  /** The selected item may be replaced by one that looks the same and matches the new lists. */
  lemma SelectedReplaced(s: State, x: Item)
    requires Agrees(s) && TreeAgrees(x) && SameFace(x, ItemAt(s.root, s.sel)) && x.coll.queried
    ensures Agrees(s.(root := ReplaceAt(s.root, s.sel, x), docColls := x.coll.colls, docObjs := x.coll.objs))
  {
    ReplaceAgrees(s.root, s.sel, x);
  }

  lemma RefreshedAgrees(item: Item, colls: seq<Coll>, objs: seq<DataObj>)
    ensures TreeAgrees(Refreshed(item, colls, objs)) && SameFace(Refreshed(item, colls, objs), item)
  {
  }

  /** From any state, a successful refresh of the selected item repairs that item. */
  lemma RefreshRepairs(s: State, colls: seq<Coll>, objs: seq<DataObj>)
    requires ValidPlace(s.root, s.sel)
    ensures
      var a := RefreshSelected(s, Children(colls, objs));
      && ValidPlace(a.root, a.sel) && a.collMode && ListsAgree(a)
      && TreeAgrees(ItemAt(a.root, a.sel)) && ItemAt(a.root, a.sel).coll.queried
      && (TreeAgrees(s.root) ==> Agrees(a))
  {
    var item := ItemAt(s.root, s.sel);
    RefreshedAgrees(item, colls, objs);
    if TreeAgrees(s.root) {
      ReplaceAgrees(s.root, s.sel, Refreshed(item, colls, objs));
    }
  }

  lemma SelectAgrees(s: State, p: Place, colls: seq<Coll>, objs: seq<DataObj>)
    requires Agrees(s) && ValidPlace(s.root, p)
    ensures Agrees(Select(s, p, Children(colls, objs)))
  {
    if !ItemAt(s.root, p).coll.queried {
      RefreshRepairs(s.(sel := p), colls, objs);
    }
  }

  lemma WithKidAgrees(item: Item, kid: Item, c: Coll)
    requires TreeAgrees(item) && item.coll.queried && TreeAgrees(kid) && Shows(kid, c)
    ensures TreeAgrees(WithKid(item, kid, c))
  {
  }

  lemma NewCollectionAgrees(s: State, name: string)
    requires Agrees(s)
    ensures Agrees(NewCollection(s, name))
  {
    var item := ItemAt(s.root, s.sel);
    var c := NEW_COLL.(name := name, path := item.coll.path + "/" + name);
    AgreesAt(s.root, s.sel);
    WithKidAgrees(item, Item(name, c, []), c);
    SelectedReplaced(s, WithKid(item, Item(name, c, []), c));
  }

  lemma UploadFolderAgrees(s: State, name: string)
    requires Agrees(s)
    ensures Agrees(UploadFolder(s, name))
  {
    var item := ItemAt(s.root, s.sel);
    var c := NEW_COLL.(name := name, path := item.coll.path + "/" + name);
    var kid := Item(c.name, CopyTo(c, NEW_COLL), []);
    AgreesAt(s.root, s.sel);
    WithKidAgrees(item, kid, c);
    SelectedReplaced(s, WithKid(item, kid, c));
  }

  /** Changing only the data objects of the selected item cannot disturb the tree. */
  lemma ObjsReplaced(s: State, objs: seq<DataObj>)
    requires Agrees(s)
    ensures
      var item := ItemAt(s.root, s.sel);
      Agrees(s.(root := ReplaceAt(s.root, s.sel, item.(coll := item.coll.(objs := objs))), docObjs := objs))
  {
    var item := ItemAt(s.root, s.sel);
    AgreesAt(s.root, s.sel);
    SelectedReplaced(s, item.(coll := item.coll.(objs := objs)));
  }

  lemma ListDeleteCollAgrees(s: State, path: string)
    requires Agrees(s)
    ensures Agrees(ListDeleteColl(s, path))
  {
    var item := ItemAt(s.root, s.sel);
    AgreesAt(s.root, s.sel);
    SameFirst(item.kids, item.coll.colls, path);
    SelectedReplaced(s, item.(coll := item.coll.(colls := DropFirstColl(item.coll.colls, path)),
                              kids := DropFirstKid(item.kids, path)));
  }

  lemma ListRenameCollAgrees(s: State, oldPath: string, newName: string)
    requires Agrees(s)
    ensures Agrees(ListRenameColl(s, oldPath, newName))
  {
    var item := ItemAt(s.root, s.sel);
    var newPath := RecordedPath(oldPath, newName);
    AgreesAt(s.root, s.sel);
    SameFirst(item.kids, item.coll.colls, oldPath);
    SelectedReplaced(s, item.(coll := item.coll.(colls := RenameFirstColl(item.coll.colls, oldPath, newPath, newName)),
                              kids := RenameFirstKid(item.kids, oldPath, newPath, newName)));
  }

  // ----- Operations on the parent of the selected item --------------------------------------

  /** The item is the first of its siblings with its path. */
  predicate FirstOfItsPath(parent: Item, k: nat)
    requires k < |parent.kids|
  {
    FirstKid(parent.kids, parent.kids[k].coll.path) == k
  }

  lemma RenamedParentAgrees(parent: Item, k: nat, newName: string)
    requires TreeAgrees(parent) && k < |parent.kids| && (parent.coll.queried ==> FirstOfItsPath(parent, k))
    ensures TreeAgrees(ParentAfterRename(parent, k, newName))
    ensures SameFace(ParentAfterRename(parent, k, newName), parent)
  {
  }

  /**
   Exactly when renaming a tree item to another path keeps its parent's cache right: no
   earlier sibling has the item's path.
   */
  lemma RenameKeepsMirrorExactly(parent: Item, k: nat, newName: string)
    requires TreeAgrees(parent) && parent.coll.queried && k < |parent.kids|
    requires parent.coll.path + "/" + newName != parent.kids[k].coll.path
    ensures TreeAgrees(ParentAfterRename(parent, k, newName)) <==> FirstOfItsPath(parent, k)
  {
    var after := ParentAfterRename(parent, k, newName);
    SameFirst(parent.kids, parent.coll.colls, parent.kids[k].coll.path);
    var i := FirstKid(parent.kids, parent.kids[k].coll.path);
    if i == k {
      RenamedParentAgrees(parent, k, newName);
    } else {
      assert i < k;
      assert after.coll.colls[i].path != after.kids[i].coll.path;
      assert !Shows(after.kids[i], after.coll.colls[i]);
    }
  }

  lemma DeletedParentAgrees(parent: Item, k: nat)
    requires TreeAgrees(parent) && k < |parent.kids| && (parent.coll.queried ==> FirstOfItsPath(parent, k))
    ensures TreeAgrees(ParentAfterDelete(parent, k)) && SameFace(ParentAfterDelete(parent, k), parent)
  {
  }

  /** The siblings from place i to place k look alike. */
  ghost predicate Alike(kids: seq<Item>, i: nat, k: nat)
    requires i <= k < |kids|
  {
    forall m :: i <= m < k ==> SameFace(kids[m], kids[m + 1])
  }

  /**
   Exactly when deleting a tree item keeps its parent's cache right: all siblings from the
   first one with its path up to the item itself look alike.
   */
  lemma DeleteKeepsMirrorExactly(parent: Item, k: nat)
    requires TreeAgrees(parent) && parent.coll.queried && k < |parent.kids|
    ensures
      var i := FirstKid(parent.kids, parent.kids[k].coll.path);
      i <= k && (TreeAgrees(ParentAfterDelete(parent, k)) <==> Alike(parent.kids, i, k))
  {
    var path := parent.kids[k].coll.path;
    var i := FirstKid(parent.kids, path);
    SameFirst(parent.kids, parent.coll.colls, path);
    var after := ParentAfterDelete(parent, k);
    var kids, colls := parent.kids, parent.coll.colls;
    assert Mirrors(kids, colls);
    forall m | 0 <= m < |after.kids|
      ensures Shows(after.kids[m], after.coll.colls[m]) <==> (i <= m < k ==> SameFace(kids[m], kids[m + 1]))
    {
      assert Shows(kids[m], colls[m]) && Shows(kids[m + 1], colls[m + 1]);
    }
    assert forall m :: 0 <= m < |after.kids| ==> TreeAgrees(after.kids[m]);
    if Mirrors(after.kids, after.coll.colls) {
      forall m | i <= m < k ensures SameFace(kids[m], kids[m + 1]) {
        assert Shows(after.kids[m], after.coll.colls[m]);
      }
    }
  }

  /** Uploading a folder twice is enough to have two siblings with one path. */
  lemma UploadTwiceDuplicates(s: State, name: string)
    requires Agrees(s)
    ensures
      var a := UploadFolder(UploadFolder(s, name), name);
      var item := ItemAt(a.root, a.sel);
      |item.kids| > 0 && !FirstOfItsPath(item, |item.kids| - 1)
  {
    UploadFolderAgrees(s, name);
    var item := ItemAt(s.root, s.sel);
    var n := |item.kids|;
    var path := item.coll.path + "/" + name;
    var once := UploadFolder(s, name);
    var twice := UploadFolder(once, name);
    assert ItemAt(twice.root, twice.sel).kids[n].coll.path == path;
    assert ItemAt(twice.root, twice.sel).kids[n + 1].coll.path == path;
  }

  predicate SelectedIsFirst(s: State)
    requires ValidPlace(s.root, s.sel) && s.sel != []
  {
    PlaceOfParent(s.root, s.sel);
    FirstOfItsPath(ItemAt(s.root, s.sel[..|s.sel| - 1]), s.sel[|s.sel| - 1])
  }

  lemma TreeRenameAgrees(s: State, newName: string, colls: seq<Coll>, objs: seq<DataObj>)
    requires Agrees(s) && s.sel != [] && SelectedIsFirst(s)
    ensures Agrees(TreeRename(s, newName, Children(colls, objs)))
  {
    PlaceOfParent(s.root, s.sel);
    var q, k := s.sel[..|s.sel| - 1], s.sel[|s.sel| - 1];
    var parent := ItemAt(s.root, q);
    AgreesAt(s.root, q);
    RenamedParentAgrees(parent, k, newName);
    ReplaceAgrees(s.root, q, ParentAfterRename(parent, k, newName));
    var root := ReplaceAt(s.root, q, ParentAfterRename(parent, k, newName));
    PlaceOfKid(root, q, k);
    assert q + [k] == s.sel;
    RefreshRepairs(s.(root := root), colls, objs);
  }

  lemma TreeDeleteAgrees(s: State, next: Place, colls: seq<Coll>, objs: seq<DataObj>)
    requires Agrees(s) && s.sel != [] && SelectedIsFirst(s) && ValidPlace(RootAfterDelete(s), next)
    ensures Agrees(Select(s.(root := RootAfterDelete(s)), next, Children(colls, objs)))
  {
    PlaceOfParent(s.root, s.sel);
    var q, k := s.sel[..|s.sel| - 1], s.sel[|s.sel| - 1];
    AgreesAt(s.root, q);
    DeletedParentAgrees(ItemAt(s.root, q), k);
    ReplaceAgrees(s.root, q, ParentAfterDelete(ItemAt(s.root, q), k));
    var t := s.(root := RootAfterDelete(s), sel := next);
    if !ItemAt(t.root, next).coll.queried {
      RefreshRepairs(t, colls, objs);
    }
  }

  // ----- Runs ------------------------------------------------------------------------------

  /** The successful operations; answers to catalog queries are part of them. */
  datatype Event =
    | SelectItem(p: Place, colls: seq<Coll>, objs: seq<DataObj>)
    | RefreshItem(colls: seq<Coll>, objs: seq<DataObj>)
    | AddCollection(name: string)
    | AddFolder(name: string)
    | AddFiles(uploaded: seq<DataObj>)
    | DropCollection(path: string)
    | DropObject(name: string, parent: string, replica: int)
    | RenameCollection(oldPath: string, newName: string)
    | RenameObject(oldName: string, newName: string)
    | RenameItem(newName: string, colls: seq<Coll>, objs: seq<DataObj>)
    | DeleteItem(next: Place, colls: seq<Coll>, objs: seq<DataObj>)

  /** Places exist, and tree renames and deletes hit the first sibling with the path. */
  predicate Enabled(s: State, e: Event)
    requires ValidPlace(s.root, s.sel)
  {
    match e
    case SelectItem(p, _, _) => ValidPlace(s.root, p)
    case RenameItem(_, _, _) => s.sel != [] && SelectedIsFirst(s)
    case DeleteItem(next, _, _) => s.sel != [] && SelectedIsFirst(s) && ValidPlace(RootAfterDelete(s), next)
    case _ => true
  }

  function Step(s: State, e: Event): State
    requires ValidPlace(s.root, s.sel) && Enabled(s, e)
  {
    match e
    case SelectItem(p, colls, objs) => Select(s, p, Children(colls, objs))
    case RefreshItem(colls, objs) => RefreshSelected(s, Children(colls, objs))
    case AddCollection(name) => NewCollection(s, name)
    case AddFolder(name) => UploadFolder(s, name)
    case AddFiles(uploaded) => UploadFiles(s, uploaded)
    case DropCollection(path) => ListDeleteColl(s, path)
    case DropObject(name, parent, replica) => ListDeleteObj(s, name, parent, replica)
    case RenameCollection(oldPath, newName) => ListRenameColl(s, oldPath, newName)
    case RenameObject(oldName, newName) => ListRenameObj(s, oldName, newName)
    case RenameItem(newName, colls, objs) => TreeRename(s, newName, Children(colls, objs))
    case DeleteItem(next, colls, objs) =>
      Select(s.(root := RootAfterDelete(s)), next, Children(colls, objs))
  }

  lemma StepAgrees(s: State, e: Event)
    requires Agrees(s) && Enabled(s, e)
    ensures Agrees(Step(s, e))
  {
    match e
    case SelectItem(p, colls, objs) => SelectAgrees(s, p, colls, objs);
    case RefreshItem(colls, objs) => RefreshRepairs(s, colls, objs);
    case AddCollection(name) => NewCollectionAgrees(s, name);
    case AddFolder(name) => UploadFolderAgrees(s, name);
    case AddFiles(uploaded) =>
      var objs := ItemAt(s.root, s.sel).coll.objs;
      ObjsReplaced(s, objs + Unlisted(objs, uploaded));
    case DropCollection(path) => ListDeleteCollAgrees(s, path);
    case DropObject(name, parent, replica) => ObjsReplaced(s, DropFirstObj(s.docObjs, name, parent, replica));
    case RenameCollection(oldPath, newName) => ListRenameCollAgrees(s, oldPath, newName);
    case RenameObject(oldName, newName) => ObjsReplaced(s, RenameObjs(s.docObjs, oldName, newName));
    case RenameItem(newName, colls, objs) => TreeRenameAgrees(s, newName, colls, objs);
    case DeleteItem(next, colls, objs) => TreeDeleteAgrees(s, next, colls, objs);
  }

  ghost predicate Reaches(s: State, es: seq<Event>, t: State)
    decreases es
  {
    if es == [] then s == t
    else ValidPlace(s.root, s.sel) && Enabled(s, es[0]) && Reaches(Step(s, es[0]), es[1..], t)
  }

  /** Before the first selection: a root item that was never queried, and empty lists. */
  ghost predicate Fresh(s: State) {
    s.sel == [] && !s.root.coll.queried && s.root.kids == []
  }

  lemma {:induction false} RunAgrees(s: State, es: seq<Event>, t: State)
    requires Agrees(s) && Reaches(s, es, t)
    ensures Agrees(t)
    decreases es
  {
    if es != [] {
      StepAgrees(s, es[0]);
      RunAgrees(Step(s, es[0]), es[1..], t);
    }
  }

  /**
   After every run of successful operations that begins by selecting the root, and in which items
   renamed or deleted in the tree are the first of their path, the lists of the document are the
   cached children of the selected item, and below every queried item the tree shows exactly the
   cached child collections.
   */
  lemma EveryRunAgrees(s: State, colls: seq<Coll>, objs: seq<DataObj>, es: seq<Event>, t: State)
    requires Fresh(s) && Reaches(Select(s, [], Children(colls, objs)), es, t)
    ensures Agrees(t)
  {
    RefreshRepairs(s, colls, objs);
    RunAgrees(Select(s, [], Children(colls, objs)), es, t);
  }

  // ----- Where agreement is lost ------------------------------------------------------------

  /** A refresh whose second query fails breaks agreement unless the first changed nothing. */
  lemma HalfRefreshExactly(s: State, colls: seq<Coll>)
    requires Agrees(s)
    ensures Agrees(RefreshSelected(s, NoObjs(colls))) <==> colls == s.docColls
  {
  }

  /**
   A refresh of an item that is neither the selected one nor above it overwrites the lists
   with the children of that item; they still agree exactly if those are the same children.
   */
  lemma {:induction false} RefreshOtherExactly(s: State, p: Place, colls: seq<Coll>, objs: seq<DataObj>)
    requires Agrees(s) && ValidPlace(s.root, p) && !(p <= s.sel)
    ensures Agrees(RefreshOther(s, p, colls, objs)) <==> colls == s.docColls && objs == s.docObjs
  {
    var x := Refreshed(ItemAt(s.root, p), colls, objs);
    RefreshedAgrees(ItemAt(s.root, p), colls, objs);
    ReplaceAgrees(s.root, p, x);
    ReplaceElsewhere(s.root, p, x, s.sel);
  }

  lemma TailPrefix(p: Place, q: Place)
    requires p != [] && q != [] && p[0] == q[0]
    ensures p <= q <==> p[1..] <= q[1..]
  {
  }

  /** Replacing an item leaves the objects of items beside and above it alone. */
  lemma {:induction false} ReplaceElsewhere(t: Item, p: Place, x: Item, q: Place)
    requires ValidPlace(t, p) && ValidPlace(t, q) && !(p <= q)
    ensures ValidPlace(ReplaceAt(t, p, x), q)
    ensures ItemAt(ReplaceAt(t, p, x), q).coll == ItemAt(t, q).coll
    decreases p
  {
    if q != [] && p[0] == q[0] {
      TailPrefix(p, q);
      ReplaceElsewhere(t.kids[p[0]], p[1..], x, q[1..]);
    }
  }

  /** The parent of a slash-separated path: everything before the last slash. */
  function ParentOf(path: string): (parent: string)
    ensures |parent| <= |path|
    ensures path != [] ==> |parent| < |path|
  {
    if path == [] then []
    else if path[|path| - 1] == '/' then path[..|path| - 1]
    else ParentOf(path[..|path| - 1])
  }

  lemma {:induction false} ParentExactly(path: string, name: string)
    requires '/' !in name
    ensures ParentOf(path + "/" + name) == path && ParentOf(name) == ""
  {
    if name == "" {
      assert (path + "/")[..|path|] == path;
    } else {
      var n := |name| - 1;
      ParentExactly(path, name[..n]);
      assert name[n] in name && (path + "/" + name)[..|path + "/" + name| - 1] == path + "/" + name[..n];
    }
  }

  /** Where the catalog, and the row of the right pane, put a renamed collection. */
  function CatalogPath(oldPath: string, newName: string): string { ParentOf(oldPath) + "/" + newName }

  /** The path recorded by a rename in the list is never the one in the catalog. */
  lemma RecordedPathIsWrong(oldPath: string, newName: string)
    requires oldPath != ""
    ensures RecordedPath(oldPath, newName) != CatalogPath(oldPath, newName)
  {
  }
}
