/**
 The tree control stores items under handles and knows for each its child handles, its parent
 and a pointer to the collection object it owns.  An item is deleted recursively: as long as
 it has children the first one is fetched again and deleted, then its object is released and
 the item itself is removed.
 */
module TreeControl {
  import opened Sequences

  type Handle = nat
  type Pointer = nat

  datatype Slot = Slot(data: Option<Pointer>, kids: seq<Handle>, parent: Option<Handle>)
  type Items = map<Handle, Slot>

  /** The shape of a finite subtree: which handle sits where. */
  datatype Shape = Shape(handle: Handle, kids: seq<Shape>)

  ghost function HandleOf(s: Shape): Handle { s.handle }

  ghost function Handles(s: Shape): seq<Handle>
    decreases s, 1
  {
    HandlesOfAll(s.kids) + [s.handle]
  }

  ghost function HandlesOfAll(kids: seq<Shape>): seq<Handle>
    decreases kids, 0
  {
    if kids == [] then [] else Handles(kids[0]) + HandlesOfAll(kids[1..])
  }

  /** The items under the handles of the shape form exactly that subtree. */
  ghost predicate Holds(items: Items, s: Shape, parent: Option<Handle>)
    decreases s, 1
  {
    && s.handle in items
    && items[s.handle].data.Some?
    && items[s.handle].parent == parent
    && items[s.handle].kids == Map(HandleOf, s.kids)
    && HoldsAll(items, s.kids, s.handle)
  }

  ghost predicate HoldsAll(items: Items, kids: seq<Shape>, parent: Handle)
    decreases kids, 0
  {
    kids == [] || (Holds(items, kids[0], Some(parent)) && HoldsAll(items, kids[1..], parent))
  }

  /** Child by child. */
  lemma HoldsExactly(items: Items, s: Shape, parent: Option<Handle>)
    ensures Holds(items, s, parent) <==>
            && s.handle in items && items[s.handle].data.Some? && items[s.handle].parent == parent
            && |items[s.handle].kids| == |s.kids|
            && forall i :: 0 <= i < |s.kids| ==>
                 items[s.handle].kids[i] == s.kids[i].handle && Holds(items, s.kids[i], Some(s.handle))
  {
    HoldsEach(items, s.kids, s.handle);
    if s.handle in items && |items[s.handle].kids| == |s.kids|
       && forall i :: 0 <= i < |s.kids| ==> items[s.handle].kids[i] == s.kids[i].handle {
      assert items[s.handle].kids == Map(HandleOf, s.kids);
    }
  }

  lemma {:induction false} HoldsEach(items: Items, kids: seq<Shape>, parent: Handle)
    ensures HoldsAll(items, kids, parent) <==> forall i :: 0 <= i < |kids| ==> Holds(items, kids[i], Some(parent))
  {
    if kids != [] {
      HoldsEach(items, kids[1..], parent);
      assert forall i :: 1 <= i < |kids| ==> kids[i] == kids[1..][i - 1];
    }
  }

  ghost predicate SameOn(a: Items, b: Items, hs: seq<Handle>) {
    forall h :: h in hs ==> h in a && h in b && a[h] == b[h]
  }

  lemma {:induction false} HoldsFrame(a: Items, b: Items, s: Shape, parent: Option<Handle>)
    requires Holds(a, s, parent) && SameOn(a, b, Handles(s))
    ensures Holds(b, s, parent)
    decreases s, 1
  {
    assert s.handle in Handles(s);
    HoldsAllFrame(a, b, s.kids, s.handle);
  }

  lemma {:induction false} HoldsAllFrame(a: Items, b: Items, kids: seq<Shape>, parent: Handle)
    requires HoldsAll(a, kids, parent) && SameOn(a, b, HandlesOfAll(kids))
    ensures HoldsAll(b, kids, parent)
    decreases kids, 0
  {
    if kids != [] {
      HoldsFrame(a, b, kids[0], Some(parent));
      HoldsAllFrame(a, b, kids[1..], parent);
    }
  }

  lemma {:induction false} HoldsKeys(items: Items, s: Shape, parent: Option<Handle>)
    requires Holds(items, s, parent)
    ensures forall h :: h in Handles(s) ==> h in items && items[h].data.Some?
    decreases s, 1
  {
    HoldsAllKeys(items, s.kids, s.handle);
  }

  lemma {:induction false} HoldsAllKeys(items: Items, kids: seq<Shape>, parent: Handle)
    requires HoldsAll(items, kids, parent)
    ensures forall h :: h in HandlesOfAll(kids) ==> h in items && items[h].data.Some?
    decreases kids, 0
  {
    if kids != [] {
      HoldsKeys(items, kids[0], Some(parent));
      HoldsAllKeys(items, kids[1..], parent);
    }
  }

  // ----- What deletion does ---------------------------------------------------------------

  /** The control without some items; the child list of one remaining item is shortened. */
  ghost function Without(items: Items, gone: seq<Handle>, parent: Option<Handle>, kids: seq<Handle>): Items {
    map h | h in items && h !in gone :: if Some(h) == parent then items[h].(kids := kids) else items[h]
  }

  /** The objects of the items, in the order in which the items are deleted. */
  ghost function Objects(items: Items, hs: seq<Handle>): seq<Option<Pointer>> {
    Map((h: Handle) => if h in items then items[h].data else None, hs)
  }

  lemma ObjectsFrame(a: Items, b: Items, hs: seq<Handle>)
    requires forall h :: h in hs ==> h in a && h in b && a[h].data == b[h].data
    ensures Objects(a, hs) == Objects(b, hs)
  {
  }

  /** A child list without the first occurrence of a handle. */
  function Dropped(kids: seq<Handle>, h: Handle): seq<Handle> {
    if kids == [] then [] else if kids[0] == h then kids[1..] else [kids[0]] + Dropped(kids[1..], h)
  }

  /** A child list loses the one place of the handle. */
  lemma {:induction false} DroppedExactly(kids: seq<Handle>, h: Handle, k: nat)
    requires NoDuplicates(kids)
    ensures k < |kids| && kids[k] == h ==> Dropped(kids, h) == RemoveAt(kids, k)
    ensures h !in kids ==> Dropped(kids, h) == kids
  {
    if kids != [] {
      assert kids == [kids[0]] + kids[1..];
      NoDuplicatesSplit([kids[0]], kids[1..]);
      if k > 0 {
        DroppedExactly(kids[1..], h, k - 1);
        assert k < |kids| && kids[k] == h ==> kids[0] != h;
      } else if kids[0] != h {
        DroppedExactly(kids[1..], h, 0);
      }
    }
  }

  /** What is left are the other items, unchanged but for the child list of the one parent. */
  lemma WithoutExactly(items: Items, gone: seq<Handle>, parent: Option<Handle>, kids: seq<Handle>, h: Handle)
    ensures h in Without(items, gone, parent, kids) <==> h in items && h !in gone
    ensures h in items && h !in gone ==>
              var slot := Without(items, gone, parent, kids)[h];
              && slot.data == items[h].data && slot.parent == items[h].parent
              && slot.kids == if parent == Some(h) then kids else items[h].kids
  {
  }

  ghost function ParentKids(items: Items, parent: Option<Handle>): seq<Handle> {
    if parent.Some? && parent.value in items then items[parent.value].kids else []
  }

  /** The loop over the children of h has dealt with those before place i. */
  ghost predicate Progress(before: Items, now: Items, h: Handle, kids: seq<Shape>, i: nat, gone: seq<Handle>) {
    && i <= |kids| && h in before && h !in HandlesOfAll(kids)
    && NoDuplicates(HandlesOfAll(kids))
    && HandlesOfAll(kids) == gone + HandlesOfAll(kids[i..])
    && now == Without(before, gone, Some(h), Map(HandleOf, kids[i..]))
    && HoldsAll(now, kids[i..], h)
  }

  /** The next child can be deleted. */
  lemma KidReady(before: Items, now: Items, h: Handle, kids: seq<Shape>, i: nat, gone: seq<Handle>)
    requires Progress(before, now, h, kids, i, gone) && i < |kids|
    ensures h in now && now[h].kids == Map(HandleOf, kids[i..]) && now[h].kids[0] == kids[i].handle
    ensures kids[i].handle in now && now[kids[i].handle].parent == Some(h) && Holds(now, kids[i], Some(h))
    ensures NoDuplicates(Handles(kids[i])) && h !in Handles(kids[i])
  {
    var rest := kids[i..];
    assert Holds(now, rest[0], Some(h));
    NoDuplicatesSplit(gone, HandlesOfAll(rest));
    NoDuplicatesSplit(Handles(rest[0]), HandlesOfAll(rest[1..]));
  }

  lemma HeadStays(before: Items, now: Items, h: Handle, kids: seq<Shape>, i: nat, gone: seq<Handle>)
    requires Progress(before, now, h, kids, i, gone)
    ensures h in now && now[h].kids == Map(HandleOf, kids[i..])
  {
  }

  lemma AllKidsDeleted(before: Items, now: Items, h: Handle, kids: seq<Shape>, i: nat, gone: seq<Handle>)
    requires Progress(before, now, h, kids, i, gone) && Map(HandleOf, kids[i..]) == []
    ensures gone == HandlesOfAll(kids) && now == Without(before, HandlesOfAll(kids), Some(h), [])
  {
  }

  lemma WithoutTwice(items: Items, a: seq<Handle>, b: seq<Handle>, h: Handle, k1: seq<Handle>, k2: seq<Handle>)
    ensures Without(Without(items, a, Some(h), k1), b, Some(h), k2) == Without(items, a + b, Some(h), k2)
  {
  }

  lemma RestHeld(now: Items, after: Items, h: Handle, rest: seq<Shape>, gone: seq<Handle>)
    requires h in now && h !in HandlesOfAll(rest) && rest != []
    requires NoDuplicates(gone + HandlesOfAll(rest)) && HoldsAll(now, rest, h)
    requires after == Without(now, Handles(rest[0]), Some(h), Dropped(ParentKids(now, Some(h)), rest[0].handle))
    ensures HoldsAll(after, rest[1..], h)
  {
    NoDuplicatesSplit(gone, HandlesOfAll(rest));
    NoDuplicatesSplit(Handles(rest[0]), HandlesOfAll(rest[1..]));
    HoldsAllKeys(now, rest, h);
    forall x | x in HandlesOfAll(rest[1..]) ensures x in now && x in after && now[x] == after[x] {
      assert x in HandlesOfAll(rest);
    }
    HoldsAllFrame(now, after, rest[1..], h);
  }

  /** Deleting the next child brings the loop one step further. */
  lemma KidDeleted(before: Items, now: Items, after: Items, h: Handle, kids: seq<Shape>, i: nat, gone: seq<Handle>)
    requires Progress(before, now, h, kids, i, gone) && i < |kids|
    requires ParentKids(now, Some(h)) == Map(HandleOf, kids[i..])
    requires after == Without(now, Handles(kids[i]), Some(h), Dropped(ParentKids(now, Some(h)), kids[i].handle))
    ensures Progress(before, after, h, kids, i + 1, gone + Handles(kids[i]))
  {
    var rest := kids[i..];
    assert rest[1..] == kids[i + 1..];
    RestHeld(now, after, h, rest, gone);
    FirstDropped(now[h].kids, rest);
    WithoutTwice(before, gone, Handles(rest[0]), h, Map(HandleOf, rest), Map(HandleOf, rest[1..]));
    assert gone + HandlesOfAll(rest) == gone + Handles(rest[0]) + HandlesOfAll(rest[1..]);
  }

  lemma FirstDropped(handles: seq<Handle>, rest: seq<Shape>)
    requires rest != [] && handles == Map(HandleOf, rest)
    ensures Dropped(handles, rest[0].handle) == handles[1..] == Map(HandleOf, rest[1..])
  {
  }

  /** And its objects are the next to be released. */
  lemma KidLogged(before: Items, now: Items, h: Handle, kids: seq<Shape>, i: nat, gone: seq<Handle>,
                  log: seq<Option<Pointer>>)
    requires Progress(before, now, h, kids, i, gone) && i < |kids|
    ensures log + Objects(before, gone) + Objects(now, Handles(kids[i])) ==
            log + Objects(before, gone + Handles(kids[i]))
  {
    var first := Handles(kids[i]);
    assert kids[i..][0] == kids[i];
    HoldsKeys(now, kids[i], Some(h));
    ObjectsFrame(now, before, first);
    assert Objects(before, gone + first) == Objects(before, gone) + Objects(before, first);
  }

  /** Removing the childless item itself completes the deletion of its subtree. */
  lemma NodeGone(before: Items, s: Shape, log: seq<Option<Pointer>>)
    requires s.handle in before && s.handle !in HandlesOfAll(s.kids) && before[s.handle].parent != Some(s.handle)
    ensures
      var parent := before[s.handle].parent;
      var childless := Without(before, HandlesOfAll(s.kids), Some(s.handle), []);
      forall data, rest ::
        Without(childless[s.handle := childless[s.handle].(data := data)], [s.handle], parent, rest) ==
        Without(before, Handles(s), parent, rest)
    ensures log + Objects(before, HandlesOfAll(s.kids)) + [before[s.handle].data] == log + Objects(before, Handles(s))
  {
    assert Objects(before, Handles(s)) == Objects(before, HandlesOfAll(s.kids)) + [before[s.handle].data];
  }

  class Tree {
    var items: Items
    ghost var released: seq<Option<Pointer>>

    constructor ()
      ensures items == map[] && released == []
    {
      items := map[];
      released := [];
    }

    /** Removes a childless item, also from the child list of its parent. */
    method DeleteItem(h: Handle)
      requires h in items && items[h].kids == []
      requires items[h].parent.Some? ==> items[h].parent.value in items && items[h].parent.value != h
      modifies `items
      ensures
        var parent := old(items)[h].parent;
        items == Without(old(items), [h], parent,
                         Dropped(ParentKids(old(items), parent), h))
    {
      var parent := items[h].parent;
      if parent.Some? {
        var p := parent.value;
        items := items[p := items[p].(kids := Dropped(items[p].kids, h))];
      }
      items := items - {h};
    }

    /**
     Deletes the subtree of an item, wherever it stands among its siblings: exactly its items
     disappear, and their objects are released, each before that of its parent.
     */
    method DeleteOneNode(h: Handle, ghost s: Shape)
      requires h == s.handle && h in items && Holds(items, s, items[h].parent)
      requires NoDuplicates(Handles(s))
      requires items[h].parent.Some? ==>
                 && items[h].parent.value in items && items[h].parent.value !in Handles(s)
      modifies this
      ensures
        var parent := old(items)[h].parent;
        items == Without(old(items), Handles(s), parent,
                         Dropped(ParentKids(old(items), parent), h))
      ensures released == old(released) + Objects(old(items), Handles(s))
      decreases s, 2
    {
      ghost var before := items;
      HoldsKeys(items, s, items[h].parent);
      NoDuplicatesSplit(HandlesOfAll(s.kids), [h]);
      DeleteKids(h, s.kids);
      ghost var parent := before[h].parent;
      released := released + [items[h].data];
      items := items[h := items[h].(data := None)];
      DeleteItem(h);
      NodeGone(before, s, old(released));
    }

    /** The loop: the first child is fetched anew until there is none. */
    method DeleteKids(h: Handle, ghost kids: seq<Shape>)
      requires h in items && items[h].kids == Map(HandleOf, kids) && HoldsAll(items, kids, h)
      requires NoDuplicates(HandlesOfAll(kids)) && h !in HandlesOfAll(kids)
      modifies this
      ensures items == Without(old(items), HandlesOfAll(kids), Some(h), [])
      ensures released == old(released) + Objects(old(items), HandlesOfAll(kids))
      decreases kids, 1
    {
      ghost var before := items;
      ghost var i, gone := 0, [];
      assert Progress(before, items, h, kids, 0, []) by {
        assert kids[0..] == kids;
      }
      while items[h].kids != []
        invariant Progress(before, items, h, kids, i, gone)
        invariant h in items && items[h].kids == Map(HandleOf, kids[i..])
        invariant released == old(released) + Objects(before, gone)
        decreases |kids| - i
      {
        DeleteFirstKid(h, before, kids, i, gone, old(released));
        gone, i := gone + Handles(kids[i]), i + 1;
        HeadStays(before, items, h, kids, i, gone);
      }
      AllKidsDeleted(before, items, h, kids, i, gone);
    }

    method DeleteFirstKid(h: Handle, ghost before: Items, ghost kids: seq<Shape>, ghost i: nat, ghost gone: seq<Handle>,
                          ghost log: seq<Option<Pointer>>)
      requires Progress(before, items, h, kids, i, gone) && i < |kids|
      requires released == log + Objects(before, gone)
      modifies this
      ensures Progress(before, items, h, kids, i + 1, gone + Handles(kids[i]))
      ensures released == log + Objects(before, gone + Handles(kids[i]))
      decreases kids, 0
    {
      ghost var now := items;
      KidReady(before, now, h, kids, i, gone);
      KidLogged(before, now, h, kids, i, gone, log);
      var child := items[h].kids[0];
      DeleteOneNode(child, kids[i]);
      KidDeleted(before, now, items, h, kids, i, gone);
    }
  }

  /**
   Where no two items own the same object, deleting a subtree releases the object of each of its items exactly
   once, and no other.
   */
  lemma ReleasedOnce(items: Items, s: Shape, parent: Option<Handle>)
    requires Holds(items, s, parent) && NoDuplicates(Handles(s))
    requires forall a, b ::
               a in items && b in items && items[a].data.Some? && items[a].data == items[b].data ==> a == b
    ensures
      var log := Objects(items, Handles(s));
      && NoDuplicates(log) && None !in log
      && forall h :: h in items && items[h].data.Some? ==> (items[h].data in log <==> h in Handles(s))
  {
    var hs := Handles(s);
    var log := Objects(items, hs);
    HoldsKeys(items, s, parent);
    assert forall i :: 0 <= i < |hs| ==> hs[i] in hs;
    forall h | h in items && items[h].data.Some? ensures items[h].data in log <==> h in hs {
      if h in hs {
        var i :| 0 <= i < |hs| && hs[i] == h;
        assert log[i] == items[h].data;
      }
    }
  }

  // ----- The subtree ------------------------------------------------------------------------

  /** Each of these items but those under the parent itself comes before its own parent. */
  ghost predicate ParentsFollow(items: Items, hs: seq<Handle>, parent: Option<Handle>) {
    forall i :: 0 <= i < |hs| ==>
      hs[i] in items && (items[hs[i]].parent == parent
                         || exists j :: i < j < |hs| && items[hs[i]].parent == Some(hs[j]))
  }

  lemma ParentsFollowConcat(items: Items, a: seq<Handle>, b: seq<Handle>, parent: Option<Handle>)
    requires ParentsFollow(items, a, parent) && ParentsFollow(items, b, parent)
    ensures ParentsFollow(items, a + b, parent)
  {
    var hs := a + b;
    forall i | 0 <= i < |hs| && items[hs[i]].parent != parent
      ensures exists j :: i < j < |hs| && items[hs[i]].parent == Some(hs[j])
    {
      if i < |a| {
        var j :| i < j < |a| && items[a[i]].parent == Some(a[j]);
        assert hs[j] == a[j];
      } else {
        var j :| i - |a| < j < |b| && items[b[i - |a|]].parent == Some(b[j]);
        assert hs[|a| + j] == b[j];
      }
    }
  }

  /** So the objects of a subtree are released from below: every item goes before its parent, the item itself last. */
  lemma {:induction false} ReleasedFromBelow(items: Items, s: Shape, parent: Option<Handle>)
    requires Holds(items, s, parent)
    ensures ParentsFollow(items, Handles(s), parent) && Handles(s)[|Handles(s)| - 1] == s.handle
    decreases s, 1
  {
    AllFromBelow(items, s.kids, s.handle);
    var below, hs := HandlesOfAll(s.kids), Handles(s);
    forall i | 0 <= i < |hs| && items[hs[i]].parent != parent
      ensures exists j :: i < j < |hs| && items[hs[i]].parent == Some(hs[j])
    {
      assert hs[|below|] == s.handle;
      if items[hs[i]].parent != Some(s.handle) {
        var j :| i < j < |below| && items[below[i]].parent == Some(below[j]);
        assert hs[j] == below[j];
      }
    }
  }

  lemma {:induction false} AllFromBelow(items: Items, kids: seq<Shape>, parent: Handle)
    requires HoldsAll(items, kids, parent)
    ensures ParentsFollow(items, HandlesOfAll(kids), Some(parent))
    decreases kids, 0
  {
    if kids != [] {
      ReleasedFromBelow(items, kids[0], Some(parent));
      AllFromBelow(items, kids[1..], parent);
      ParentsFollowConcat(items, Handles(kids[0]), HandlesOfAll(kids[1..]), Some(parent));
    }
  }

  /** And nothing is left below: the children of each item deleted are deleted as well. */
  lemma {:induction false} SubtreeClosed(items: Items, s: Shape, parent: Option<Handle>)
    requires Holds(items, s, parent)
    ensures forall h, k :: h in Handles(s) && h in items && k in items[h].kids ==> k in Handles(s)
    decreases s, 1
  {
    AllClosed(items, s.kids, s.handle);
  }

  lemma {:induction false} AllClosed(items: Items, kids: seq<Shape>, parent: Handle)
    requires HoldsAll(items, kids, parent)
    ensures forall h, k :: h in HandlesOfAll(kids) && h in items && k in items[h].kids ==> k in HandlesOfAll(kids)
    ensures forall k :: k in Map(HandleOf, kids) ==> k in HandlesOfAll(kids)
    decreases kids, 0
  {
    if kids != [] {
      SubtreeClosed(items, kids[0], Some(parent));
      AllClosed(items, kids[1..], parent);
      assert kids[0].handle in Handles(kids[0]);
      assert Map(HandleOf, kids) == [kids[0].handle] + Map(HandleOf, kids[1..]);
    }
  }
}
