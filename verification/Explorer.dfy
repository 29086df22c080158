/**
 The explorer of the desktop client shows the children of the selected collection.  The same
 children are held four times: as child items of the tree control, in the vectors cached
 with the selected tree item, and in the two lists of the document that fill the right pane.
 Every operation updates the copies one by one; the catalog is only asked again on a refresh.
 */
module Explorer {
  import opened Sequences
  import opened Strings

  datatype DataObj = DataObj(name: string, parent: string, replica: int, details: string)

  /** A collection object with its cached children. */
  datatype Coll = Coll(name: string, path: string, queried: bool, colls: seq<Coll>, objs: seq<DataObj>)

  /** A tree item: its text, the collection object it owns, and its child items. */
  datatype Item = Item(text: string, coll: Coll, kids: seq<Item>)

  const NEW_COLL: Coll := Coll("", "", false, [], [])

  /** Copying appends the children to those the target already has. */
  function CopyTo(source: Coll, target: Coll): Coll {
    Coll(source.name, source.path, source.queried, target.colls + source.colls, target.objs + source.objs)
  }

  /** A copy equals its source exactly if the target had no children. */
  lemma CopyExactly(source: Coll, target: Coll)
    ensures CopyTo(source, target) == source <==> target.colls == [] && target.objs == []
  {
  }

  /** A second copy doubles them. */
  lemma CopiedTwice(source: Coll)
    ensures
      var twice := CopyTo(source, CopyTo(source, NEW_COLL));
      twice == source.(colls := source.colls + source.colls, objs := source.objs + source.objs)
  {
    CopyExactly(source, NEW_COLL);
  }

  // ----- The state ---------------------------------------------------------------------

  type Place = seq<nat>

  /** The root item, the place of the selected item, the document lists and their mode. */
  datatype State = State(root: Item, sel: Place, docColls: seq<Coll>, docObjs: seq<DataObj>, collMode: bool)

  predicate ValidPlace(t: Item, p: Place)
    decreases p
  {
    p == [] || (p[0] < |t.kids| && ValidPlace(t.kids[p[0]], p[1..]))
  }

  function ItemAt(t: Item, p: Place): Item
    requires ValidPlace(t, p)
    decreases p
  {
    if p == [] then t else ItemAt(t.kids[p[0]], p[1..])
  }

  function ReplaceAt(t: Item, p: Place, x: Item): (r: Item)
    requires ValidPlace(t, p)
    ensures ValidPlace(r, p) && ItemAt(r, p) == x
    decreases p
  {
    if p == [] then x
    else t.(kids := t.kids[p[0] := ReplaceAt(t.kids[p[0]], p[1..], x)])
  }

  // ----- Agreement ---------------------------------------------------------------------

  /** A tree item shows a cached child collection. */
  predicate Shows(item: Item, c: Coll) {
    item.text == c.name && item.coll.name == c.name && item.coll.path == c.path
  }

  ghost predicate Mirrors(kids: seq<Item>, colls: seq<Coll>) {
    |kids| == |colls| && forall i :: 0 <= i < |kids| ==> Shows(kids[i], colls[i])
  }

  /** Below a queried item the tree shows the cached child collections, in order. */
  ghost predicate TreeAgrees(t: Item)
    decreases t
  {
    && (t.coll.queried ==> Mirrors(t.kids, t.coll.colls))
    && forall i :: 0 <= i < |t.kids| ==> TreeAgrees(t.kids[i])
  }

  ghost predicate ListsAgree(s: State)
    requires ValidPlace(s.root, s.sel)
  {
    var c := ItemAt(s.root, s.sel).coll;
    s.docColls == c.colls && s.docObjs == c.objs
  }

  ghost predicate Agrees(s: State) {
    && ValidPlace(s.root, s.sel)
    && ItemAt(s.root, s.sel).coll.queried
    && s.collMode
    && ListsAgree(s)
    && TreeAgrees(s.root)
  }

  predicate SameFace(a: Item, b: Item) {
    a.text == b.text && a.coll.name == b.coll.name && a.coll.path == b.coll.path
  }

  lemma {:induction false} AgreesAt(t: Item, p: Place)
    requires TreeAgrees(t) && ValidPlace(t, p)
    ensures TreeAgrees(ItemAt(t, p))
    decreases p
  {
    if p != [] {
      AgreesAt(t.kids[p[0]], p[1..]);
    }
  }

  /** Changing what is below an item, not how it appears, keeps the rest of the tree right. */
  lemma {:induction false} ReplaceAgrees(t: Item, p: Place, x: Item)
    requires TreeAgrees(t) && ValidPlace(t, p) && TreeAgrees(x) && SameFace(x, ItemAt(t, p))
    ensures TreeAgrees(ReplaceAt(t, p, x)) && SameFace(ReplaceAt(t, p, x), t)
    decreases p
  {
    if p != [] {
      ReplaceAgrees(t.kids[p[0]], p[1..], x);
    }
  }

  lemma {:induction false} PlaceOfKid(t: Item, p: Place, k: nat)
    requires ValidPlace(t, p) && k < |ItemAt(t, p).kids|
    ensures ValidPlace(t, p + [k]) && ItemAt(t, p + [k]) == ItemAt(t, p).kids[k]
    decreases p
  {
    if p == [] {
      assert [k][1..] == [];
    } else {
      PlaceOfKid(t.kids[p[0]], p[1..], k);
      assert (p + [k])[1..] == p[1..] + [k];
    }
  }

  lemma {:induction false} PlaceOfParent(t: Item, p: Place)
    requires ValidPlace(t, p) && p != []
    ensures
      var q, k := p[..|p| - 1], p[|p| - 1];
      ValidPlace(t, q) && k < |ItemAt(t, q).kids| && ItemAt(t, q).kids[k] == ItemAt(t, p)
    decreases p
  {
    if |p| > 1 {
      PlaceOfParent(t.kids[p[0]], p[1..]);
      assert p[..|p| - 1][1..] == p[1..][..|p| - 2];
    } else {
      assert p[1..] == [];
    }
  }

  // ----- Searching by path --------------------------------------------------------------

  /** The index of the first collection with a path, or the length if there is none. */
  function FirstColl(colls: seq<Coll>, path: string): (i: nat)
    ensures i <= |colls|
    ensures i < |colls| ==> colls[i].path == path
    ensures forall k :: 0 <= k < i ==> colls[k].path != path
  {
    if colls == [] then 0
    else if colls[0].path == path then 0
    else 1 + FirstColl(colls[1..], path)
  }

  function FirstKid(kids: seq<Item>, path: string): (i: nat)
    ensures i <= |kids|
    ensures i < |kids| ==> kids[i].coll.path == path
    ensures forall k :: 0 <= k < i ==> kids[k].coll.path != path
  {
    if kids == [] then 0
    else if kids[0].coll.path == path then 0
    else 1 + FirstKid(kids[1..], path)
  }

  predicate IsObj(o: DataObj, name: string, parent: string, replica: int) {
    o.name == name && o.parent == parent && o.replica == replica
  }

  function FirstObj(objs: seq<DataObj>, name: string, parent: string, replica: int): (i: nat)
    ensures i <= |objs|
    ensures i < |objs| ==> IsObj(objs[i], name, parent, replica)
    ensures forall k :: 0 <= k < i ==> !IsObj(objs[k], name, parent, replica)
  {
    if objs == [] then 0
    else if IsObj(objs[0], name, parent, replica) then 0
    else 1 + FirstObj(objs[1..], name, parent, replica)
  }

  lemma SameFirst(kids: seq<Item>, colls: seq<Coll>, path: string)
    requires Mirrors(kids, colls)
    ensures FirstKid(kids, path) == FirstColl(colls, path)
  {
  }

  function DropFirstColl(colls: seq<Coll>, path: string): seq<Coll> {
    var i := FirstColl(colls, path);
    if i < |colls| then RemoveAt(colls, i) else colls
  }

  function DropFirstKid(kids: seq<Item>, path: string): seq<Item> {
    var i := FirstKid(kids, path);
    if i < |kids| then RemoveAt(kids, i) else kids
  }

  function DropFirstObj(objs: seq<DataObj>, name: string, parent: string, replica: int): seq<DataObj> {
    var i := FirstObj(objs, name, parent, replica);
    if i < |objs| then RemoveAt(objs, i) else objs
  }

  function RenameFirstColl(colls: seq<Coll>, path: string, newPath: string, newName: string): seq<Coll> {
    var i := FirstColl(colls, path);
    if i < |colls| then colls[i := colls[i].(path := newPath, name := newName)] else colls
  }

  function RenamedItem(item: Item, newPath: string, newName: string): Item {
    Item(newName, item.coll.(path := newPath, name := newName), item.kids)
  }

  function RenameFirstKid(kids: seq<Item>, path: string, newPath: string, newName: string): seq<Item> {
    var i := FirstKid(kids, path);
    if i < |kids| then kids[i := RenamedItem(kids[i], newPath, newName)] else kids
  }

  function RenameObjs(objs: seq<DataObj>, oldName: string, newName: string): seq<DataObj> {
    Map((o: DataObj) => if o.name == oldName then o.(name := newName) else o, objs)
  }

  // ----- The operations ---------------------------------------------------------------

  /** The two catalog queries of a refresh: child collections first, then data objects. */
  datatype Answer = NoColls | NoObjs(colls: seq<Coll>) | Children(colls: seq<Coll>, objs: seq<DataObj>)

  function NewKid(c: Coll): Item {
    Item(c.name, CopyTo(c, NEW_COLL).(queried := false), [])
  }

  function Refreshed(item: Item, colls: seq<Coll>, objs: seq<DataObj>): Item {
    Item(item.text, item.coll.(queried := true, colls := colls, objs := objs), Map(NewKid, colls))
  }

  /** Refreshing the selected item; a refused second query leaves the lists half replaced. */
  function RefreshSelected(s: State, a: Answer): State
    requires ValidPlace(s.root, s.sel)
  {
    match a
    case NoColls => s
    case NoObjs(colls) => s.(docColls := colls)
    case Children(colls, objs) =>
      State(ReplaceAt(s.root, s.sel, Refreshed(ItemAt(s.root, s.sel), colls, objs)), s.sel, colls, objs, true)
  }

  /** Selecting shows the cache of a queried item and refreshes an unqueried one. */
  function Select(s: State, p: Place, a: Answer): State
    requires ValidPlace(s.root, p)
  {
    var c := ItemAt(s.root, p).coll;
    if c.queried then s.(sel := p, docColls := c.colls, docObjs := c.objs)
    else RefreshSelected(s.(sel := p), a)
  }

  /** A refresh of some other item, as a drop onto it does: the document lists are used as well. */
  function RefreshOther(s: State, p: Place, colls: seq<Coll>, objs: seq<DataObj>): State
    requires ValidPlace(s.root, p)
  {
    s.(root := ReplaceAt(s.root, p, Refreshed(ItemAt(s.root, p), colls, objs)), docColls := colls, docObjs := objs)
  }

  function WithKid(item: Item, kid: Item, c: Coll): Item {
    item.(coll := item.coll.(colls := item.coll.colls + [c]), kids := item.kids + [kid])
  }

  function NewCollection(s: State, name: string): State
    requires ValidPlace(s.root, s.sel)
  {
    var item := ItemAt(s.root, s.sel);
    var c := NEW_COLL.(name := name, path := item.coll.path + "/" + name);
    s.(root := ReplaceAt(s.root, s.sel, WithKid(item, Item(name, c, []), c)), docColls := s.docColls + [c])
  }

  function UploadFolder(s: State, name: string): State
    requires ValidPlace(s.root, s.sel)
  {
    var item := ItemAt(s.root, s.sel);
    var c := NEW_COLL.(name := name, path := item.coll.path + "/" + name);
    var kid := Item(c.name, CopyTo(c, NEW_COLL), []);
    s.(root := ReplaceAt(s.root, s.sel, WithKid(item, kid, c)),
       docColls := if s.collMode then s.docColls + [c] else s.docColls)
  }

  predicate Listed(objs: seq<DataObj>, o: DataObj) {
    exists i :: 0 <= i < |objs| && objs[i].name == o.name && objs[i].replica == o.replica
  }

  /** The uploaded objects that are not listed yet, each tested against those before it. */
  function Unlisted(objs: seq<DataObj>, uploaded: seq<DataObj>): seq<DataObj> {
    if uploaded == [] then []
    else
      var rest := Unlisted(objs, uploaded[..|uploaded| - 1]);
      var o := uploaded[|uploaded| - 1];
      if Listed(objs + rest, o) then rest else rest + [o]
  }

  function UploadFiles(s: State, uploaded: seq<DataObj>): State
    requires ValidPlace(s.root, s.sel)
  {
    var item := ItemAt(s.root, s.sel);
    var added := Unlisted(item.coll.objs, uploaded);
    s.(root := ReplaceAt(s.root, s.sel, item.(coll := item.coll.(objs := item.coll.objs + added))),
       docObjs := if s.collMode then s.docObjs + added else s.docObjs)
  }

  /** Deleting a collection in the right pane. */
  function ListDeleteColl(s: State, path: string): State
    requires ValidPlace(s.root, s.sel)
  {
    if !s.collMode then s
    else
      var item := ItemAt(s.root, s.sel);
      var after := item.(coll := item.coll.(colls := DropFirstColl(item.coll.colls, path)),
                         kids := DropFirstKid(item.kids, path));
      s.(root := ReplaceAt(s.root, s.sel, after), docColls := DropFirstColl(s.docColls, path))
  }

  function ListDeleteObj(s: State, name: string, parent: string, replica: int): State
    requires ValidPlace(s.root, s.sel)
  {
    if !s.collMode then s
    else
      var item := ItemAt(s.root, s.sel);
      var after := item.(coll := item.coll.(objs := DropFirstObj(item.coll.objs, name, parent, replica)));
      s.(root := ReplaceAt(s.root, s.sel, after), docObjs := DropFirstObj(s.docObjs, name, parent, replica))
  }

  /** The path all copies but the row of the right pane receive: below the old path. */
  function RecordedPath(oldPath: string, newName: string): string { oldPath + "/" + newName }

  function ListRenameColl(s: State, oldPath: string, newName: string): State
    requires ValidPlace(s.root, s.sel)
  {
    if !s.collMode then s
    else
      var item := ItemAt(s.root, s.sel);
      var newPath := RecordedPath(oldPath, newName);
      var after := item.(coll := item.coll.(colls := RenameFirstColl(item.coll.colls, oldPath, newPath, newName)),
                         kids := RenameFirstKid(item.kids, oldPath, newPath, newName));
      s.(root := ReplaceAt(s.root, s.sel, after),
         docColls := RenameFirstColl(s.docColls, oldPath, newPath, newName))
  }

  function ListRenameObj(s: State, oldName: string, newName: string): State
    requires ValidPlace(s.root, s.sel)
  {
    if !s.collMode then s
    else
      var item := ItemAt(s.root, s.sel);
      s.(root := ReplaceAt(s.root, s.sel,
                           item.(coll := item.coll.(objs := RenameObjs(item.coll.objs, oldName, newName)))),
         docObjs := RenameObjs(s.docObjs, oldName, newName))
  }

  /** The parent of a renamed item: its cache is searched by the old path. */
  function ParentAfterRename(parent: Item, k: nat, newName: string): Item
    requires k < |parent.kids|
  {
    var newPath := parent.coll.path + "/" + newName;
    var kid := RenamedItem(parent.kids[k], newPath, newName);
    var colls := RenameFirstColl(parent.coll.colls, parent.kids[k].coll.path, newPath, newName);
    parent.(coll := parent.coll.(colls := colls),
            kids := parent.kids[k := kid.(coll := kid.coll.(queried := false), kids := [])])
  }

  /** Renaming the selected tree item, which is not the root. */
  function TreeRename(s: State, newName: string, a: Answer): State
    requires ValidPlace(s.root, s.sel) && s.sel != []
  {
    PlaceOfParent(s.root, s.sel);
    var q, k := s.sel[..|s.sel| - 1], s.sel[|s.sel| - 1];
    var root := ReplaceAt(s.root, q, ParentAfterRename(ItemAt(s.root, q), k, newName));
    PlaceOfKid(root, q, k);
    assert q + [k] == s.sel;
    RefreshSelected(s.(root := root), a)
  }

  function ParentAfterDelete(parent: Item, k: nat): Item
    requires k < |parent.kids|
  {
    parent.(coll := parent.coll.(colls := DropFirstColl(parent.coll.colls, parent.kids[k].coll.path)),
            kids := RemoveAt(parent.kids, k))
  }

  /** The tree after deleting the selected item; the control then selects another one. */
  function RootAfterDelete(s: State): Item
    requires ValidPlace(s.root, s.sel) && s.sel != []
  {
    PlaceOfParent(s.root, s.sel);
    var q, k := s.sel[..|s.sel| - 1], s.sel[|s.sel| - 1];
    ReplaceAt(s.root, q, ParentAfterDelete(ItemAt(s.root, q), k))
  }

  // ----- The handlers --------------------------------------------------------------------

  class Frame {
    var root: Item
    var sel: Place
    var docColls: seq<Coll>
    var docObjs: seq<DataObj>
    var collMode: bool

    function View(): State
      reads this
    {
      State(root, sel, docColls, docObjs, collMode)
    }

    predicate Valid()
      reads this
    {
      ValidPlace(root, sel)
    }

    constructor (root: Item, collMode: bool)
      ensures Valid() && View() == State(root, [], [], [], collMode)
    {
      this.root, sel, docColls, docObjs, this.collMode := root, [], [], [], collMode;
    }

    static method FindColl(colls: seq<Coll>, path: string) returns (i: nat)
      ensures i == FirstColl(colls, path)
    {
      i := 0;
      while i < |colls| && colls[i].path != path
        invariant i <= |colls| && forall k :: 0 <= k < i ==> colls[k].path != path
      {
        i := i + 1;
      }
    }

    static method FindKid(kids: seq<Item>, path: string) returns (i: nat)
      ensures i == FirstKid(kids, path)
    {
      i := 0;
      while i < |kids| && kids[i].coll.path != path
        invariant i <= |kids| && forall k :: 0 <= k < i ==> kids[k].coll.path != path
      {
        i := i + 1;
      }
    }

    static method FindObj(objs: seq<DataObj>, name: string, parent: string, replica: int) returns (i: nat)
      ensures i == FirstObj(objs, name, parent, replica)
    {
      i := 0;
      while i < |objs| && !IsObj(objs[i], name, parent, replica)
        invariant i <= |objs| && forall k :: 0 <= k < i ==> !IsObj(objs[k], name, parent, replica)
      {
        i := i + 1;
      }
    }

    method RefreshDisp(a: Answer)
      requires Valid()
      modifies this
      ensures Valid() && View() == RefreshSelected(old(View()), a)
      ensures a.Children? ==>
                && docColls == a.colls == ItemAt(root, sel).coll.colls
                && docObjs == a.objs == ItemAt(root, sel).coll.objs
                && ItemAt(root, sel).coll.queried && Mirrors(ItemAt(root, sel).kids, a.colls) && collMode
    {
      if a.NoColls? {
        return;
      }
      docColls := a.colls;
      if a.NoObjs? {
        return;
      }
      docObjs := a.objs;
      var item := ItemAt(root, sel);
      var kids: seq<Item> := [];
      for i := 0 to |docColls|
        invariant kids == Map(NewKid, docColls[..i])
      {
        kids := kids + [NewKid(docColls[i])];
      }
      assert docColls[..|docColls|] == docColls;
      root := ReplaceAt(root, sel,
                        Item(item.text, item.coll.(queried := true, colls := docColls, objs := docObjs), kids));
      collMode := true;
    }

    method OnSelchanged(p: Place, a: Answer)
      requires ValidPlace(root, p)
      modifies this
      ensures Valid() && View() == Select(old(View()), p, a)
    {
      sel := p;
      var c := ItemAt(root, p).coll;
      if c.queried {
        docColls, docObjs := c.colls, c.objs;
      } else {
        RefreshDisp(a);
      }
    }

    /** The new child is added to the tree, the cache and the lists one after the other. */
    method AddChild(c: Coll, kid: Item, listed: bool)
      requires Valid()
      modifies `root, `docColls
      ensures Valid()
      ensures root == ReplaceAt(old(root), sel, WithKid(ItemAt(old(root), sel), kid, c))
      ensures docColls == if listed then old(docColls) + [c] else old(docColls)
    {
      var item := ItemAt(root, sel);
      item := item.(kids := item.kids + [kid]);
      item := item.(coll := item.coll.(colls := item.coll.colls + [c]));
      root := ReplaceAt(root, sel, item);
      if listed {
        docColls := docColls + [c];
      }
    }

    method OnNewCollection(name: string)
      requires Valid()
      modifies this
      ensures Valid() && View() == if Trim(name) == "" then old(View()) else NewCollection(old(View()), Trim(name))
    {
      var trimmed := Trim(name);
      if trimmed != "" {
        var c := NEW_COLL.(name := trimmed, path := ItemAt(root, sel).coll.path + "/" + trimmed);
        AddChild(c, Item(trimmed, c, []), true);
      }
    }

    method OnUploadFolder(name: string)
      requires Valid()
      modifies this
      ensures Valid() && View() == UploadFolder(old(View()), name)
    {
      var c := NEW_COLL.(name := name, path := ItemAt(root, sel).coll.path + "/" + name);
      AddChild(c, Item(c.name, CopyTo(c, NEW_COLL), []), collMode);
    }

    method OnUploadFiles(uploaded: seq<DataObj>)
      requires Valid()
      modifies this
      ensures Valid() && View() == UploadFiles(old(View()), uploaded)
    {
      var item := ItemAt(root, sel);
      var before := item.coll.objs;
      ghost var docBefore := docObjs;
      var objs := before;
      for i := 0 to |uploaded|
        invariant objs == before + Unlisted(before, uploaded[..i])
        invariant docObjs == if collMode then docBefore + Unlisted(before, uploaded[..i]) else docBefore
        invariant root == old(root) && sel == old(sel) && docColls == old(docColls) && collMode == old(collMode)
      {
        assert uploaded[..i + 1][..i] == uploaded[..i];
        var inList := false;
        for j := 0 to |objs|
          invariant inList <==> exists k :: 0 <= k < j && objs[k].name == uploaded[i].name
                                            && objs[k].replica == uploaded[i].replica
        {
          if objs[j].name == uploaded[i].name && objs[j].replica == uploaded[i].replica {
            inList := true;
          }
        }
        if !inList {
          objs := objs + [uploaded[i]];
          if collMode {
            docObjs := docObjs + [uploaded[i]];
          }
        }
      }
      assert uploaded[..|uploaded|] == uploaded;
      root := ReplaceAt(root, sel, item.(coll := item.coll.(objs := objs)));
    }

    method DeleteOneColl(path: string)
      requires Valid() && collMode
      modifies this
      ensures Valid() && View() == ListDeleteColl(old(View()), path)
    {
      docColls := DropColl(docColls, path);
      var item := ItemAt(root, sel);
      var colls := DropColl(item.coll.colls, path);
      var kids := DropKid(item.kids, path);
      root := ReplaceAt(root, sel, item.(coll := item.coll.(colls := colls), kids := kids));
    }

    static method DropColl(colls: seq<Coll>, path: string) returns (r: seq<Coll>)
      ensures r == DropFirstColl(colls, path)
    {
      var i := FindColl(colls, path);
      r := if i < |colls| then RemoveAt(colls, i) else colls;
    }

    static method DropKid(kids: seq<Item>, path: string) returns (r: seq<Item>)
      ensures r == DropFirstKid(kids, path)
    {
      var i := FindKid(kids, path);
      r := if i < |kids| then RemoveAt(kids, i) else kids;
    }

    method DeleteOneObj(name: string, parent: string, replica: int)
      requires Valid() && collMode
      modifies this
      ensures Valid() && View() == ListDeleteObj(old(View()), name, parent, replica)
    {
      var i := FindObj(docObjs, name, parent, replica);
      if i < |docObjs| {
        docObjs := RemoveAt(docObjs, i);
      }
      var item := ItemAt(root, sel);
      var j := FindObj(item.coll.objs, name, parent, replica);
      if j < |item.coll.objs| {
        item := item.(coll := item.coll.(objs := RemoveAt(item.coll.objs, j)));
      }
      root := ReplaceAt(root, sel, item);
    }

    method ChangeOneCollName(oldPath: string, newName: string)
      requires Valid() && collMode
      modifies this
      ensures Valid() && View() == ListRenameColl(old(View()), oldPath, newName)
    {
      var newPath := oldPath + "/" + newName;
      var i := FindColl(docColls, oldPath);
      if i < |docColls| {
        docColls := docColls[i := docColls[i].(path := newPath, name := newName)];
      }
      var item := ItemAt(root, sel);
      var colls, kids := item.coll.colls, item.kids;
      var j := FindColl(colls, oldPath);
      if j < |colls| {
        colls := colls[j := colls[j].(path := newPath, name := newName)];
      }
      var k := FindKid(kids, oldPath);
      if k < |kids| {
        kids := kids[k := RenamedItem(kids[k], newPath, newName)];
      }
      root := ReplaceAt(root, sel, item.(coll := item.coll.(colls := colls), kids := kids));
    }

    static method RenameInPlace(objs: seq<DataObj>, oldName: string, newName: string) returns (r: seq<DataObj>)
      ensures r == RenameObjs(objs, oldName, newName)
    {
      r := objs;
      for i := 0 to |objs|
        invariant |r| == |objs|
        invariant forall k :: 0 <= k < i ==> r[k] == RenameObjs(objs, oldName, newName)[k]
        invariant forall k :: i <= k < |objs| ==> r[k] == objs[k]
      {
        if r[i].name == oldName {
          r := r[i := r[i].(name := newName)];
        }
      }
    }

    method ChangeOneDataName(oldName: string, newName: string)
      requires Valid() && collMode
      modifies this
      ensures Valid() && View() == ListRenameObj(old(View()), oldName, newName)
    {
      docObjs := RenameInPlace(docObjs, oldName, newName);
      var item := ItemAt(root, sel);
      var objs := RenameInPlace(item.coll.objs, oldName, newName);
      root := ReplaceAt(root, sel, item.(coll := item.coll.(objs := objs)));
    }

    static method RenameKid(parent: Item, k: nat, newName: string) returns (r: Item)
      requires k < |parent.kids|
      ensures r == ParentAfterRename(parent, k, newName)
    {
      var kid := parent.kids[k];
      var newPath := parent.coll.path + "/" + newName;
      var colls := parent.coll.colls;
      var i := FindColl(colls, kid.coll.path);
      if i < |colls| {
        colls := colls[i := colls[i].(path := newPath, name := newName)];
      }
      kid := Item(newName, kid.coll.(path := newPath, name := newName, queried := false), []);
      r := parent.(coll := parent.coll.(colls := colls), kids := parent.kids[k := kid]);
    }

    /** Renaming in the tree: the item, the cache of its parent, then a refresh of the item. */
    method OnRename(newName: string, a: Answer)
      requires Valid() && sel != []
      modifies this
      ensures Valid() && View() == TreeRename(old(View()), newName, a)
    {
      PlaceOfParent(root, sel);
      var q, k := sel[..|sel| - 1], sel[|sel| - 1];
      var parent := RenameKid(ItemAt(root, q), k, newName);
      root := ReplaceAt(root, q, parent);
      PlaceOfKid(root, q, k);
      assert q + [k] == sel;
      assert View() == old(View()).(root := root);
      RefreshDisp(a);
    }

    /** Deleting in the tree; the control selects the item at `next` afterwards. */
    method OnDelete(next: Place, a: Answer)
      requires Valid() && sel != [] && ValidPlace(RootAfterDelete(View()), next)
      modifies this
      ensures Valid() && View() == Select(old(View()).(root := RootAfterDelete(old(View()))), next, a)
    {
      PlaceOfParent(root, sel);
      var q, k := sel[..|sel| - 1], sel[|sel| - 1];
      var parent := ItemAt(root, q);
      var colls := parent.coll.colls;
      var i := FindColl(colls, parent.kids[k].coll.path);
      if i < |colls| {
        colls := RemoveAt(colls, i);
      }
      root := ReplaceAt(root, q, parent.(coll := parent.coll.(colls := colls), kids := RemoveAt(parent.kids, k)));
      OnSelchanged(next, a);
    }
  }
}
