/**
 The metadata editor of the web client: an editable grid over the attributes of one
 object, and the Save button, which turns the edited grid into a batch of deletions
 followed by additions.  The catalog executes the batch in order and stops at the first
 instruction it refuses.
 */
module MetadataGrid {
  import opened Sequences

  datatype Avu = Avu(name: string, value: string, unit: string)

  /** A row either stands for a catalog entry or was added locally and not saved yet. */
  datatype RowId = Stored(n: nat) | Local(k: nat)
  datatype Row = Row(id: RowId, avu: Avu, isNew: bool, isEdited: bool, isRemoved: bool)
  datatype Column = NameColumn | ValueColumn | UnitColumn

  datatype Op = DeleteById(id: RowId) | Insert(avu: Avu)

  // ----- The catalog -----------------------------------------------------------------

  datatype Entry = Entry(id: nat, avu: Avu)
  datatype Catalog = Catalog(entries: seq<Entry>, nextId: nat) {
    ghost predicate Valid() {
      && (forall e :: e in entries ==> e.id < nextId)
      && (forall i, j :: 0 <= i < j < |entries| ==> entries[i].id != entries[j].id)
    }
  }

  function EntryAvu(e: Entry): Avu { e.avu }

  ghost function Contents(entries: seq<Entry>): multiset<Avu> {
    multiset(Map(EntryAvu, entries))
  }

  /** Deleting needs the entry to exist; inserting needs the triple to be absent. */
  function ApplyOp(cat: Catalog, op: Op): Option<Catalog> {
    match op
    case DeleteById(id) =>
      if exists e :: e in cat.entries && Stored(e.id) == id
      then Some(cat.(entries := Filter((e: Entry) => Stored(e.id) != id, cat.entries)))
      else None
    case Insert(avu) =>
      if exists e :: e in cat.entries && e.avu == avu then None
      else Some(Catalog(cat.entries + [Entry(cat.nextId, avu)], cat.nextId + 1))
  }

  /** The catalog after the batch, and whether every instruction was carried out. */
  function ApplyBatch(cat: Catalog, ops: seq<Op>): (r: (Catalog, bool))
    decreases ops
  {
    if ops == [] then (cat, true)
    else
      match ApplyOp(cat, ops[0])
      case None => (cat, false)
      case Some(next) => ApplyBatch(next, ops[1..])
  }

  // ----- Editing the grid ------------------------------------------------------------

  function LoadedRow(e: Entry): Row { Row(Stored(e.id), e.avu, false, false, false) }

  function LoadRows(entries: seq<Entry>): seq<Row> { Map(LoadedRow, entries) }

  /** The decimal digits of a number, as the script's string concatenation prints it. */
  function Decimal(k: nat): string {
    if k < 10 then ["0123456789"[k]] else Decimal(k / 10) + ["0123456789"[k % 10]]
  }

  /** What the digits stand for. */
  function Value(s: string): nat {
    if s == "" then 0
    else
      var c := s[|s| - 1];
      Value(s[..|s| - 1]) * 10 + if '0' <= c <= '9' then (c as int) - ('0' as int) else 0
  }

  lemma {:induction false} DecimalDigits(k: nat)
    ensures forall i :: 0 <= i < |Decimal(k)| ==> '0' <= Decimal(k)[i] <= '9'
    ensures Value(Decimal(k)) == k && Decimal(k) != "" && (k > 0 ==> Decimal(k)[0] != '0')
  {
    var digits := "0123456789";
    assert forall i :: 0 <= i < 10 ==> '0' <= digits[i] <= '9' && (digits[i] as int) - ('0' as int) == i;
    if k >= 10 {
      DecimalDigits(k / 10);
      assert Decimal(k)[..|Decimal(k)| - 1] == Decimal(k / 10);
    } else {
      assert Decimal(k)[..0] == "";
    }
  }

  function FreshRow(k: nat): Row {
    Row(Local(k), Avu("New Name " + Decimal(k), "New Value " + Decimal(k), ""), true, false, false)
  }

  /** Rows added one after the other never share their names. */
  lemma FreshNamesDiffer(j: nat, k: nat)
    ensures FreshRow(j).avu.name == FreshRow(k).avu.name <==> j == k
  {
    DecimalDigits(j);
    DecimalDigits(k);
    assert FreshRow(j).avu.name[9..] == Decimal(j) && FreshRow(k).avu.name[9..] == Decimal(k);
  }

  function SetColumn(a: Avu, col: Column, text: string): Avu {
    match col
    case NameColumn => a.(name := text)
    case ValueColumn => a.(value := text)
    case UnitColumn => a.(unit := text)
  }

  /** A removed row cannot be edited and a blank name or value is not taken over. */
  predicate EditTakesEffect(r: Row, col: Column, text: string) {
    && !r.isRemoved
    && (col != UnitColumn ==> text != "")
    && SetColumn(r.avu, col, text) != r.avu
  }

  function EditRow(r: Row, col: Column, text: string): Row {
    if EditTakesEffect(r, col, text)
    then r.(avu := SetColumn(r.avu, col, text), isEdited := r.isEdited || !r.isNew)
    else r
  }

  /** Remove drops an unsaved row and flips the mark of a stored one. */
  function ToggleRow(rows: seq<Row>, i: nat): seq<Row>
    requires i < |rows|
  {
    if rows[i].isNew then RemoveAt(rows, i)
    else rows[i := rows[i].(isRemoved := !rows[i].isRemoved)]
  }

  /** An edit sets its own column and nothing else; it marks a stored row if it changed it. */
  lemma EditedExactly(r: Row, col: Column, text: string)
    ensures
      var e, ignored := EditRow(r, col, text), r.isRemoved || (col != UnitColumn && text == "");
      && e.avu.name == (if col == NameColumn && !ignored then text else r.avu.name)
      && e.avu.value == (if col == ValueColumn && !ignored then text else r.avu.value)
      && e.avu.unit == (if col == UnitColumn && !ignored then text else r.avu.unit)
      && e.id == r.id && e.isNew == r.isNew && e.isRemoved == r.isRemoved
      && (e.isEdited <==> r.isEdited || (!r.isNew && e.avu != r.avu))
  {
  }

  /** Removing a new row drops it; removing a stored row twice leaves it as it was. */
  lemma RemovedExactly(rows: seq<Row>, i: nat)
    requires i < |rows|
    ensures
      var after := ToggleRow(rows, i);
      if rows[i].isNew then after == rows[..i] + rows[i + 1..]
      else |after| == |rows| && after[i].isRemoved != rows[i].isRemoved
           && after[i].id == rows[i].id && after[i].avu == rows[i].avu && after[i].isEdited == rows[i].isEdited
           && (forall k :: 0 <= k < |rows| && k != i ==> after[k] == rows[k]) && ToggleRow(after, i) == rows
  {
  }

  // ----- Saving ----------------------------------------------------------------------

  predicate Touched(r: Row) { r.isNew || r.isEdited || r.isRemoved }

  /** Another row that will survive has the name of row i. */
  predicate ClashesAt(rows: seq<Row>, i: nat)
    requires i < |rows|
  {
    && Touched(rows[i])
    && exists j :: 0 <= j < |rows| && j != i && !rows[j].isRemoved && rows[j].avu.name == rows[i].avu.name
  }

  predicate Accepts(rows: seq<Row>) {
    forall i :: 0 <= i < |rows| ==> !ClashesAt(rows, i)
  }

  /**
   Exactly when Save accepts: no row that is new, edited or removed has the name of another row that is not
   removed.  Untouched rows may share their names.
   */
  lemma AcceptedExactly(rows: seq<Row>)
    ensures Accepts(rows) <==>
            forall i, j :: 0 <= i < |rows| && 0 <= j < |rows| && i != j
                           && (rows[i].isNew || rows[i].isEdited || rows[i].isRemoved) && !rows[j].isRemoved ==>
              rows[i].avu.name != rows[j].avu.name
  {
    if Accepts(rows) {
      forall i, j | 0 <= i < |rows| && 0 <= j < |rows| && i != j && Touched(rows[i]) && !rows[j].isRemoved
        ensures rows[i].avu.name != rows[j].avu.name
      {
        assert !ClashesAt(rows, i);
      }
    }
  }

  /** So every grid that was just loaded is accepted. */
  lemma LoadedAccepted(entries: seq<Entry>)
    ensures Accepts(LoadRows(entries))
  {
  }

  predicate IsDeletion(r: Row) { !r.isNew && (r.isRemoved || r.isEdited) }
  predicate IsAddition(r: Row) { r.isNew || (!r.isRemoved && r.isEdited) }
  predicate Survives(r: Row) { !r.isRemoved }

  function RowAvu(r: Row): Avu { r.avu }
  function DeleteOp(r: Row): Op { DeleteById(r.id) }
  function InsertOp(r: Row): Op { Insert(r.avu) }

  function BatchOf(rows: seq<Row>): seq<Op> {
    Map(DeleteOp, Filter(IsDeletion, rows)) + Map(InsertOp, Filter(IsAddition, rows))
  }

  /** A batch first deletes exactly the stored rows that are removed or edited, in their order. */
  lemma BatchDeletes(rows: seq<Row>) returns (gone: seq<nat>)
    ensures Selection(gone, |rows|)
    ensures forall i: nat :: i < |rows| ==> (i in gone <==> !rows[i].isNew && (rows[i].isRemoved || rows[i].isEdited))
    ensures
      var ops := BatchOf(rows);
      && |gone| <= |ops| && (forall k :: 0 <= k < |gone| ==> ops[k] == DeleteById(rows[gone[k]].id))
      && forall k :: |gone| <= k < |ops| ==> ops[k].Insert?
  {
    gone := MappedPlaces(IsDeletion, DeleteOp, rows);
  }

  /** And then adds exactly the new rows and the edited ones that are not removed, in their order. */
  lemma BatchAdds(rows: seq<Row>) returns (added: seq<nat>)
    ensures Selection(added, |rows|)
    ensures forall i: nat :: i < |rows| ==>
              (i in added <==> rows[i].isNew || (rows[i].isEdited && !rows[i].isRemoved))
    ensures
      var ops := BatchOf(rows);
      && |added| <= |ops| && (forall k :: 0 <= k < |ops| - |added| ==> ops[k].DeleteById?)
      && forall k :: 0 <= k < |added| ==> ops[|ops| - |added| + k] == Insert(rows[added[k]].avu)
  {
    added := MappedPlaces(IsAddition, InsertOp, rows);
  }

  ghost function Survivors(rows: seq<Row>): multiset<Avu> {
    multiset(Map(RowAvu, Filter(Survives, rows)))
  }

  /** The triples of the rows that are not marked removed. */
  lemma SurvivorsExactly(rows: seq<Row>) returns (at: seq<nat>)
    ensures Selection(at, |rows|) && forall i: nat :: i in at <==> i < |rows| && !rows[i].isRemoved
    ensures Survivors(rows) == multiset(seq(|at|, k requires 0 <= k < |at| && at[k] < |rows| => rows[at[k]].avu))
  {
    at := FilterPlaces(Survives, rows);
    assert Map(RowAvu, Filter(Survives, rows)) ==
           seq(|at|, k requires 0 <= k < |at| && at[k] < |rows| => rows[at[k]].avu);
  }

  datatype SaveResult = Duplicate(at: nat) | Request(ops: seq<Op>)

  /** The grid object: the rows of the data store and the counter of locally added rows. */
  class Grid {
    var rows: seq<Row>
    var added: nat

    /** The session of the runs below, beside a given catalog. */
    ghost function View(cat: Catalog): Session
      reads this
    {
      Session(rows, added, cat)
    }

    constructor ()
      ensures rows == [] && added == 0
    {
      rows, added := [], 0;
    }

    method Load(entries: seq<Entry>)
      modifies this
      ensures rows == LoadRows(entries) && |rows| == |entries| && added == 0
      ensures forall i :: 0 <= i < |rows| ==> rows[i] == Row(Stored(entries[i].id), entries[i].avu, false, false, false)
    {
      rows, added := LoadRows(entries), 0;
    }

    method Reload(entries: seq<Entry>)
      modifies `rows
      ensures rows == LoadRows(entries)
      ensures forall cat: Catalog :: cat.entries == entries ==> View(cat) == Step(old(View(cat)), Command.Reload)
    {
      rows := LoadRows(entries);
    }

    method AddRow()
      modifies this
      ensures rows == [FreshRow(old(added))] + old(rows) && added == old(added) + 1
      ensures forall cat :: View(cat) == Step(old(View(cat)), Command.AddRow)
    {
      rows := [FreshRow(added)] + rows;
      added := added + 1;
    }

    method Edit(i: nat, col: Column, text: string)
      requires i < |rows|
      modifies `rows
      ensures rows == old(rows)[i := EditRow(old(rows)[i], col, text)]
      ensures forall cat :: View(cat) == Step(old(View(cat)), Command.Edit(i, col, text))
    {
      var r := rows[i];
      if r.isRemoved || (col != UnitColumn && text == "") || SetColumn(r.avu, col, text) == r.avu {
        return;
      }
      r := r.(avu := SetColumn(r.avu, col, text));
      if !r.isNew {
        r := r.(isEdited := true);
      }
      rows := rows[i := r];
    }

    method Remove(i: nat)
      requires i < |rows|
      modifies `rows
      ensures rows == ToggleRow(old(rows), i)
      ensures forall cat :: View(cat) == Step(old(View(cat)), Command.Remove(i))
    {
      if !rows[i].isNew {
        if !rows[i].isRemoved {
          rows := rows[i := rows[i].(isRemoved := true)];
        } else {
          rows := rows[i := rows[i].(isRemoved := false)];
        }
      } else {
        rows := rows[..i] + rows[i + 1..];
      }
    }

    /** Builds both queues while checking names; the first clash stops the save. */
    method Save() returns (result: SaveResult)
      ensures result.Duplicate? <==> !Accepts(rows)
      ensures result.Duplicate? <==>
                exists i, j :: 0 <= i < |rows| && 0 <= j < |rows| && i != j
                               && (rows[i].isNew || rows[i].isEdited || rows[i].isRemoved)
                               && !rows[j].isRemoved && rows[i].avu.name == rows[j].avu.name
      ensures result.Duplicate? ==>
                && result.at < |rows|
                && ClashesAt(rows, result.at)
                && forall i :: 0 <= i < result.at ==> !ClashesAt(rows, i)
      ensures result.Request? ==> result.ops == BatchOf(rows)
      ensures forall cat :: result.Request? ==> Step(View(cat), Command.Save).cat == ApplyBatch(cat, result.ops).0
      ensures forall cat :: result.Duplicate? ==> Step(View(cat), Command.Save) == View(cat)
    {
      AcceptedExactly(rows);
      for i := 0 to |rows|
        invariant forall k :: 0 <= k < i ==> !ClashesAt(rows, k)
      {
        var clashes := NameClashes(i);
        if clashes {
          return Duplicate(i);
        }
      }
      var ops := BuildBatch();
      result := Request(ops);
    }

    /** A row that was touched must not share its name with a row that stays. */
    method NameClashes(i: nat) returns (clashes: bool)
      requires i < |rows|
      ensures clashes <==> ClashesAt(rows, i)
    {
      var rec := rows[i];
      if rec.isNew || rec.isEdited || rec.isRemoved {
        for j := 0 to |rows|
          invariant forall k :: 0 <= k < j && k != i ==> rows[k].isRemoved || rows[k].avu.name != rec.avu.name
        {
          if i != j && !rows[j].isRemoved && rec.avu.name == rows[j].avu.name {
            return true;
          }
        }
      }
      clashes := false;
    }

    method BuildQueues() returns (delQueue: seq<Row>, addQueue: seq<Row>)
      ensures delQueue == Filter(IsDeletion, rows) && addQueue == Filter(IsAddition, rows)
    {
      delQueue, addQueue := [], [];
      for i := 0 to |rows|
        invariant delQueue == Filter(IsDeletion, rows[..i])
        invariant addQueue == Filter(IsAddition, rows[..i])
      {
        var rec := rows[i];
        assert rows[..i + 1][..i] == rows[..i];
        if rec.isNew {
          addQueue := addQueue + [rec];
        } else if rec.isRemoved {
          delQueue := delQueue + [rec];
        } else if rec.isEdited {
          delQueue := delQueue + [rec];
          addQueue := addQueue + [rec];
        }
      }
      assert rows[..|rows|] == rows;
    }

    method BuildBatch() returns (ops: seq<Op>)
      ensures ops == BatchOf(rows)
    {
      var delQueue, addQueue := BuildQueues();
      ops := [];
      for i := 0 to |delQueue|
        invariant ops == Map(DeleteOp, delQueue[..i])
      {
        ops := ops + [DeleteById(delQueue[i].id)];
      }
      assert delQueue[..|delQueue|] == delQueue;
      ghost var deletions := ops;
      for i := 0 to |addQueue|
        invariant ops == deletions + Map(InsertOp, addQueue[..i])
      {
        ops := ops + [Insert(addQueue[i].avu)];
      }
      assert addQueue[..|addQueue|] == addQueue;
    }
  }

  // ----- The grid describes the catalog it was loaded from ----------------------------

  ghost predicate RowOk(r: Row, entries: seq<Entry>) {
    if r.isNew then r.id.Local? && !r.isRemoved && !r.isEdited
    else r.id.Stored? && exists e :: e in entries && Stored(e.id) == r.id && (!r.isEdited ==> e.avu == r.avu)
  }

  ghost predicate HasRow(rows: seq<Row>, e: Entry) {
    exists r :: r in rows && !r.isNew && r.id == Stored(e.id)
  }

  /** Every entry is shown by exactly one stored row, which differs from it only if edited. */
  ghost predicate Describes(rows: seq<Row>, entries: seq<Entry>) {
    && (forall r {:trigger RowOk(r, entries)} :: r in rows ==> RowOk(r, entries))
    && (forall i, j :: 0 <= i < j < |rows| && !rows[i].isNew && !rows[j].isNew ==> rows[i].id != rows[j].id)
    && (forall e {:trigger HasRow(rows, e)} :: e in entries ==> HasRow(rows, e))
  }

  lemma LoadDescribes(cat: Catalog)
    requires cat.Valid()
    ensures Describes(LoadRows(cat.entries), cat.entries)
  {
  }

  predicate Keeps(r: Row) { !r.isNew && !r.isRemoved && !r.isEdited }

  function RowEntry(r: Row): Entry {
    Entry(match r.id case Stored(n) => n case Local(_) => 0, r.avu)
  }

  predicate DifferentIds(a: Row, b: Row) { a.id != b.id }
  predicate DifferentEntryIds(a: Entry, b: Entry) { a.id != b.id }
  predicate DifferentNames(a: Row, b: Row) { a.avu.name != b.avu.name }

  /** Deleting by id drops exactly that entry. */
  lemma DeleteApplies(cat: Catalog, id: RowId)
    requires cat.Valid() && exists e :: e in cat.entries && Stored(e.id) == id
    ensures ApplyOp(cat, DeleteById(id)).Some?
    ensures
      var after := ApplyOp(cat, DeleteById(id)).value;
      && after.Valid() && after.nextId == cat.nextId
      && forall e :: e in after.entries <==> e in cat.entries && Stored(e.id) != id
  {
    var keep := (e: Entry) => Stored(e.id) != id;
    var after := ApplyOp(cat, DeleteById(id)).value;
    FilterPairwise(keep, DifferentEntryIds, cat.entries);
    forall e ensures e in after.entries <==> e in cat.entries && Stored(e.id) != id {
      FilterMembers(keep, cat.entries, e);
    }
  }

  /** The catalog deletes the one entry of an id it has, and adds a triple it does not have. */
  lemma OpExactly(cat: Catalog, op: Op)
    requires cat.Valid()
    ensures
      var after := ApplyOp(cat, op);
      match op
      case DeleteById(id) =>
        (after.Some? <==> exists e :: e in cat.entries && Stored(e.id) == id)
        && forall k :: 0 <= k < |cat.entries| && Stored(cat.entries[k].id) == id ==>
             after == Some(cat.(entries := RemoveAt(cat.entries, k)))
      case Insert(avu) =>
        (after.None? <==> exists e :: e in cat.entries && e.avu == avu)
        && (after.Some? ==> after == Some(Catalog(cat.entries + [Entry(cat.nextId, avu)], cat.nextId + 1)))
  {
    if op.DeleteById? {
      forall k | 0 <= k < |cat.entries| && Stored(cat.entries[k].id) == op.id
        ensures ApplyOp(cat, op) == Some(cat.(entries := RemoveAt(cat.entries, k)))
      {
        assert cat.entries[k] in cat.entries;
        FilterAllBut((e: Entry) => Stored(e.id) != op.id, cat.entries, k);
      }
    }
  }

  /** A batch goes on as long as its instructions are carried out, and stops at the first that is refused. */
  lemma BatchHead(cat: Catalog, op: Op, rest: seq<Op>)
    ensures ApplyOp(cat, op).Some? ==> ApplyBatch(cat, [op] + rest) == ApplyBatch(ApplyOp(cat, op).value, rest)
    ensures ApplyOp(cat, op).None? ==> ApplyBatch(cat, [op] + rest) == (cat, false)
    ensures ApplyBatch(cat, []) == (cat, true)
  {
  }

  ghost predicate HasEntry(entries: seq<Entry>, id: RowId) {
    exists e :: e in entries && Stored(e.id) == id
  }

  ghost function IdsOf(dels: seq<Row>): set<RowId> { set d | d in dels :: d.id }

  lemma DeleteKeepsOthers(cat: Catalog, dels: seq<Row>) returns (next: Catalog)
    requires cat.Valid() && dels != []
    requires forall i, j :: 0 <= i < j < |dels| ==> DifferentIds(dels[i], dels[j])
    requires forall d :: d in dels ==> HasEntry(cat.entries, d.id)
    ensures ApplyOp(cat, DeleteById(dels[0].id)) == Some(next)
    ensures next.Valid() && next.nextId == cat.nextId
    ensures forall e :: e in next.entries <==> e in cat.entries && Stored(e.id) != dels[0].id
    ensures forall d :: d in dels[1..] ==> HasEntry(next.entries, d.id)
  {
    var id := dels[0].id;
    assert dels[0] in dels;
    DeleteApplies(cat, id);
    next := ApplyOp(cat, DeleteById(id)).value;
    forall d | d in dels[1..] ensures HasEntry(next.entries, d.id) {
      assert d in dels && d.id != id;
      var e :| e in cat.entries && Stored(e.id) == d.id;
      assert e in next.entries;
    }
  }

  /** The deletions of a batch succeed one after the other and drop exactly their entries. */
  lemma DeletionsSplit(dels: seq<Row>, rest: seq<Op>)
    requires dels != []
    ensures Map(DeleteOp, dels) + rest == [DeleteById(dels[0].id)] + (Map(DeleteOp, dels[1..]) + rest)
    ensures IdsOf(dels) == {dels[0].id} + IdsOf(dels[1..])
  {
  }

  lemma {:induction false} DeletionsApply(cat: Catalog, dels: seq<Row>, rest: seq<Op>) returns (after: Catalog)
    requires cat.Valid()
    requires forall i, j :: 0 <= i < j < |dels| ==> DifferentIds(dels[i], dels[j])
    requires forall d :: d in dels ==> HasEntry(cat.entries, d.id)
    ensures ApplyBatch(cat, Map(DeleteOp, dels) + rest) == ApplyBatch(after, rest)
    ensures after.Valid() && after.nextId == cat.nextId
    ensures forall e :: e in after.entries <==> e in cat.entries && Stored(e.id) !in IdsOf(dels)
    decreases dels
  {
    if dels == [] {
      after := cat;
      assert Map(DeleteOp, dels) + rest == rest;
    } else {
      var id := dels[0].id;
      assert dels[0] in dels;
      var next := DeleteKeepsOthers(cat, dels);
      after := DeletionsApply(next, dels[1..], rest);
      BatchHead(cat, DeleteById(id), Map(DeleteOp, dels[1..]) + rest);
      DeletionsSplit(dels, rest);
    }
  }

  lemma InsertApplies(cat: Catalog, avu: Avu)
    requires cat.Valid() && forall e :: e in cat.entries ==> avu.name != e.avu.name
    ensures ApplyOp(cat, Insert(avu)).Some?
    ensures
      var after := ApplyOp(cat, Insert(avu)).value;
      after.Valid() && after == Catalog(cat.entries + [Entry(cat.nextId, avu)], cat.nextId + 1)
  {
  }

  /** The rows can be added in turn: their names are new and differ from each other. */
  ghost predicate Addable(adds: seq<Row>, entries: seq<Entry>) {
    && (forall i, j :: 0 <= i < j < |adds| ==> DifferentNames(adds[i], adds[j]))
    && (forall a, e :: a in adds && e in entries ==> a.avu.name != e.avu.name)
  }

  lemma AddableAfterFirst(adds: seq<Row>, entries: seq<Entry>, id: nat)
    requires Addable(adds, entries) && adds != []
    ensures Addable(adds[1..], entries + [Entry(id, adds[0].avu)])
  {
  }

  function AppendAll(cat: Catalog, adds: seq<Row>): Catalog
    decreases adds
  {
    if adds == [] then cat
    else AppendAll(Catalog(cat.entries + [Entry(cat.nextId, adds[0].avu)], cat.nextId + 1), adds[1..])
  }

  lemma {:induction false} AppendAllContents(cat: Catalog, adds: seq<Row>)
    ensures Map(EntryAvu, AppendAll(cat, adds).entries) == Map(EntryAvu, cat.entries) + Map(RowAvu, adds)
    decreases adds
  {
    if adds != [] {
      var next := Catalog(cat.entries + [Entry(cat.nextId, adds[0].avu)], cat.nextId + 1);
      AppendAllContents(next, adds[1..]);
      assert Map(EntryAvu, next.entries) == Map(EntryAvu, cat.entries) + [adds[0].avu];
      assert Map(RowAvu, adds) == [adds[0].avu] + Map(RowAvu, adds[1..]);
    }
  }

  /** Addable rows are all accepted by the catalog, one after the other. */
  lemma {:induction false} InsertionsApply(cat: Catalog, adds: seq<Row>)
    requires cat.Valid() && Addable(adds, cat.entries)
    ensures ApplyBatch(cat, Map(InsertOp, adds)) == (AppendAll(cat, adds), true)
    ensures AppendAll(cat, adds).Valid()
    decreases adds
  {
    if adds != [] {
      var op := Insert(adds[0].avu);
      assert adds[0] in adds;
      InsertApplies(cat, adds[0].avu);
      AddableAfterFirst(adds, cat.entries, cat.nextId);
      InsertionsApply(ApplyOp(cat, op).value, adds[1..]);
      BatchHead(cat, op, Map(InsertOp, adds[1..]));
      assert Map(InsertOp, adds) == [op] + Map(InsertOp, adds[1..]);
    }
  }

  lemma {:induction false} SelectedAvus(p: Row -> bool, rows: seq<Row>)
    requires rows != []
    ensures
      var n := |rows| - 1;
      Map(RowAvu, Filter(p, rows)) ==
      Map(RowAvu, Filter(p, rows[..n])) + (if p(rows[n]) then [rows[n].avu] else [])
  {
  }

  lemma {:induction false} SurvivorsSplit(rows: seq<Row>)
    requires forall r :: r in rows && r.isNew ==> !r.isRemoved && !r.isEdited
    ensures Survivors(rows) ==
            multiset(Map(RowAvu, Filter(Keeps, rows))) + multiset(Map(RowAvu, Filter(IsAddition, rows)))
  {
    if rows != [] {
      var n := |rows| - 1;
      assert rows[n] in rows;
      SurvivorsSplit(rows[..n]);
      SelectedAvus(Survives, rows);
      SelectedAvus(Keeps, rows);
      SelectedAvus(IsAddition, rows);
    }
  }

  /** The catalog without the entries of the rows that are to be deleted. */
  ghost predicate Remaining(rows: seq<Row>, cat: Catalog, after: Catalog) {
    forall e :: e in after.entries <==> e in cat.entries && Stored(e.id) !in IdsOf(Filter(IsDeletion, rows))
  }

  lemma KeptRowHasEntry(rows: seq<Row>, cat: Catalog, after: Catalog, r: Row)
    requires Describes(rows, cat.entries) && Remaining(rows, cat, after)
    requires r in rows && Keeps(r)
    ensures RowEntry(r) in after.entries
  {
    assert RowOk(r, cat.entries);
    var ids := IdsOf(Filter(IsDeletion, rows));
    forall d | d in Filter(IsDeletion, rows) ensures d.id != r.id {
      FilterMembers(IsDeletion, rows, d);
    }
    assert r.id !in ids;
  }

  lemma EntryHasKeptRow(rows: seq<Row>, cat: Catalog, after: Catalog, e: Entry) returns (r: Row)
    requires Describes(rows, cat.entries) && cat.Valid() && Remaining(rows, cat, after)
    requires e in after.entries
    ensures r in rows && Keeps(r) && RowEntry(r) == e
  {
    assert HasRow(rows, e);
    r :| r in rows && !r.isNew && r.id == Stored(e.id);
    assert RowOk(r, cat.entries);
    FilterMembers(IsDeletion, rows, r);
    assert IsDeletion(r) ==> r.id in IdsOf(Filter(IsDeletion, rows));
  }

  lemma ShownEntries(rows: seq<Row>, cat: Catalog, after: Catalog)
    requires Describes(rows, cat.entries) && cat.Valid() && Remaining(rows, cat, after)
    ensures forall e :: e in after.entries <==> e in Map(RowEntry, Filter(Keeps, rows))
  {
    var kept := Filter(Keeps, rows);
    var shown := Map(RowEntry, kept);
    forall e ensures e in after.entries <==> e in shown {
      if e in after.entries {
        var r := EntryHasKeptRow(rows, cat, after, e);
        FilterMembers(Keeps, rows, r);
        var k :| 0 <= k < |kept| && kept[k] == r;
        assert shown[k] == e;
      }
      if e in shown {
        var k :| 0 <= k < |shown| && shown[k] == e;
        FilterMembers(Keeps, rows, kept[k]);
        KeptRowHasEntry(rows, cat, after, kept[k]);
      }
    }
  }

  /** An entry stays, under its id, exactly if its row is untouched. */
  lemma KeptEntries(rows: seq<Row>, cat: Catalog, after: Catalog)
    requires Describes(rows, cat.entries) && cat.Valid() && Remaining(rows, cat, after)
    ensures forall e :: e in after.entries <==>
                        e in cat.entries && exists r :: r in rows && Keeps(r) && r.id == Stored(e.id)
  {
    forall e
      ensures e in after.entries <==> e in cat.entries && exists r :: r in rows && Keeps(r) && r.id == Stored(e.id)
    {
      if e in after.entries {
        var r := EntryHasKeptRow(rows, cat, after, e);
        assert RowOk(r, cat.entries);
      }
      if e in cat.entries && exists r :: r in rows && Keeps(r) && r.id == Stored(e.id) {
        var r :| r in rows && Keeps(r) && r.id == Stored(e.id);
        KeptRowHasEntry(rows, cat, after, r);
        SameIdSameEntry(cat, e, RowEntry(r));
      }
    }
  }

  lemma SameIdSameEntry(cat: Catalog, a: Entry, b: Entry)
    requires cat.Valid() && a in cat.entries && b in cat.entries && a.id == b.id
    ensures a == b
  {
  }

  lemma ShownNoDuplicates(rows: seq<Row>, entries: seq<Entry>)
    requires Describes(rows, entries)
    ensures NoDuplicates(Map(RowEntry, Filter(Keeps, rows)))
  {
    var kept := Filter(Keeps, rows);
    FilterPairwise(Keeps, DifferentIds, rows);
    forall i | 0 <= i < |kept| ensures kept[i].id.Stored? {
      FilterMembers(Keeps, rows, kept[i]);
      assert RowOk(kept[i], entries);
    }
  }

  /** After the deletions the catalog holds exactly the untouched rows. */
  lemma KeptContents(rows: seq<Row>, cat: Catalog, after: Catalog)
    requires Describes(rows, cat.entries) && cat.Valid() && after.Valid() && Remaining(rows, cat, after)
    ensures Contents(after.entries) == multiset(Map(RowAvu, Filter(Keeps, rows)))
  {
    var shown := Map(RowEntry, Filter(Keeps, rows));
    ShownEntries(rows, cat, after);
    ShownNoDuplicates(rows, cat.entries);
    SameElementsSameMultiset(after.entries, shown);
    MapMultiset(EntryAvu, after.entries, shown);
    assert Map(EntryAvu, shown) == Map(RowAvu, Filter(Keeps, rows));
  }

  /** A row to be added has a name that no other surviving row has. */
  lemma AdditionNames(rows: seq<Row>, cat: Catalog, after: Catalog)
    requires Describes(rows, cat.entries) && cat.Valid() && Remaining(rows, cat, after) && Accepts(rows)
    ensures Addable(Filter(IsAddition, rows), after.entries)
  {
    var adds := Filter(IsAddition, rows);
    forall i, j | 0 <= i < |rows| && 0 <= j < |rows| && i != j && IsAddition(rows[i]) && Survives(rows[j])
      ensures DifferentNames(rows[i], rows[j])
    {
      assert !ClashesAt(rows, i);
    }
    forall i | 0 <= i < |rows| && IsAddition(rows[i]) ensures Survives(rows[i]) {
      assert RowOk(rows[i], cat.entries);
    }
    FilterPairwise(IsAddition, DifferentNames, rows);
    forall a, e | a in adds && e in after.entries ensures a.avu.name != e.avu.name {
      FilterMembers(IsAddition, rows, a);
      var r := EntryHasKeptRow(rows, cat, after, e);
      var i :| 0 <= i < |rows| && rows[i] == a;
      var j :| 0 <= j < |rows| && rows[j] == r;
      assert i != j;
    }
  }

  lemma {:induction false} AppendAllEntries(cat: Catalog, adds: seq<Row>)
    ensures forall e: Entry :: e.id < cat.nextId ==> (e in AppendAll(cat, adds).entries <==> e in cat.entries)
    decreases adds
  {
    if adds != [] {
      AppendAllEntries(Catalog(cat.entries + [Entry(cat.nextId, adds[0].avu)], cat.nextId + 1), adds[1..]);
    }
  }

  /** The first half of a batch leaves the entries of the untouched rows. */
  lemma DeletionsFirst(rows: seq<Row>, cat: Catalog) returns (mid: Catalog)
    requires cat.Valid() && Describes(rows, cat.entries)
    ensures ApplyBatch(cat, BatchOf(rows)) == ApplyBatch(mid, Map(InsertOp, Filter(IsAddition, rows)))
    ensures mid.Valid() && mid.nextId == cat.nextId && Remaining(rows, cat, mid)
  {
    var dels := Filter(IsDeletion, rows);
    FilterPairwise(IsDeletion, DifferentIds, rows);
    forall d | d in dels ensures HasEntry(cat.entries, d.id) {
      FilterMembers(IsDeletion, rows, d);
      assert RowOk(d, cat.entries);
    }
    mid := DeletionsApply(cat, dels, Map(InsertOp, Filter(IsAddition, rows)));
  }

  /**
   The purpose of Save: on a grid that describes the catalog, an accepted batch is carried
   out to its end, and the catalog then holds exactly the rows that were not removed.
   */
  lemma SaveReproducesGrid(rows: seq<Row>, cat: Catalog) returns (after: Catalog)
    requires cat.Valid() && Describes(rows, cat.entries) && Accepts(rows)
    ensures ApplyBatch(cat, BatchOf(rows)) == (after, true)
    ensures after.Valid() && Contents(after.entries) == Survivors(rows)
  {
    var adds := Filter(IsAddition, rows);
    var mid := DeletionsFirst(rows, cat);
    KeptContents(rows, cat, mid);
    AdditionNames(rows, cat, mid);
    InsertionsApply(mid, adds);
    AppendAllContents(mid, adds);
    after := AppendAll(mid, adds);
    forall r | r in rows && r.isNew ensures !r.isRemoved && !r.isEdited {
      assert RowOk(r, cat.entries);
    }
    SurvivorsSplit(rows);
  }

  /** In it an entry keeps its id exactly if its row is untouched; all other entries are new. */
  lemma SaveKeepsUntouched(rows: seq<Row>, cat: Catalog)
    requires cat.Valid() && Describes(rows, cat.entries) && Accepts(rows)
    ensures
      var after := ApplyBatch(cat, BatchOf(rows)).0;
      forall e :: e in after.entries && e.id < cat.nextId <==>
                  && e in cat.entries
                  && exists r :: r in rows && !r.isNew && !r.isEdited && !r.isRemoved && r.id == Stored(e.id)
  {
    var adds := Filter(IsAddition, rows);
    var mid := DeletionsFirst(rows, cat);
    AdditionNames(rows, cat, mid);
    InsertionsApply(mid, adds);
    AppendAllEntries(mid, adds);
    KeptEntries(rows, cat, mid);
  }

  // ----- Whole editing sessions --------------------------------------------------------

  /** What a user can do; Sort stands for clicking a column header. */
  datatype Command =
    | AddRow
    | Edit(i: nat, col: Column, text: string)
    | Remove(i: nat)
    | Sort(order: seq<nat>)
    | Save
    | Reload

  datatype Session = Session(rows: seq<Row>, added: nat, cat: Catalog) {
    ghost predicate Valid() { cat.Valid() && Describes(rows, cat.entries) }
  }

  ghost predicate IsOrder(order: seq<nat>, n: nat) {
    && |order| == n
    && (forall i :: 0 <= i < n ==> order[i] < n)
    && (forall i, j :: 0 <= i < j < n ==> order[i] != order[j])
    && (forall k :: 0 <= k < n ==> k in order)
  }

  ghost function Reorder(rows: seq<Row>, order: seq<nat>): seq<Row>
    requires IsOrder(order, |rows|)
  {
    seq(|rows|, i requires 0 <= i < |rows| => rows[order[i]])
  }

  /** A refused save and a failed request leave the grid alone; a finished one reloads it. */
  ghost function Step(s: Session, c: Command): Session {
    match c
    case AddRow => s.(rows := [FreshRow(s.added)] + s.rows, added := s.added + 1)
    case Edit(i, col, text) =>
      if i < |s.rows| then s.(rows := s.rows[i := EditRow(s.rows[i], col, text)]) else s
    case Remove(i) => if i < |s.rows| then s.(rows := ToggleRow(s.rows, i)) else s
    case Sort(order) =>
      if IsOrder(order, |s.rows|)
      then s.(rows := Reorder(s.rows, order)) else s
    case Save =>
      if !Accepts(s.rows) || BatchOf(s.rows) == [] then s
      else
        var (cat, done) := ApplyBatch(s.cat, BatchOf(s.rows));
        Session(if done then LoadRows(cat.entries) else s.rows, s.added, cat)
    case Reload => s.(rows := LoadRows(s.cat.entries))
  }

  /** Sorting shows every row once, in the order asked for. */
  lemma SortedExactly(s: Session, order: seq<nat>, k: nat)
    requires |order| == |s.rows| && NoDuplicates(order) && k < |order|
    requires (forall i :: 0 <= i < |order| ==> order[i] < |order|) && forall i :: 0 <= i < |order| ==> i in order
    ensures
      var t := Step(s, Sort(order));
      t == s.(rows := t.rows) && |t.rows| == |s.rows| && t.rows[k] == s.rows[order[k]]
  {
  }

  ghost function Run(s: Session, cs: seq<Command>): Session
    decreases cs
  {
    if cs == [] then s else Run(Step(s, cs[0]), cs[1..])
  }

  lemma {:induction false} RunAppends(s: Session, cs: seq<Command>, e: Command)
    ensures Run(s, []) == s && Run(s, cs + [e]) == Step(Run(s, cs), e)
    decreases cs
  {
    if cs == [] {
      assert Run(s, [e]) == Run(Step(s, e), [e][1..]);
    } else {
      RunAppends(Step(s, cs[0]), cs[1..], e);
      assert (cs + [e])[1..] == cs[1..] + [e];
    }
  }

  lemma AddDescribes(rows: seq<Row>, entries: seq<Entry>, k: nat)
    requires Describes(rows, entries)
    ensures Describes([FreshRow(k)] + rows, entries)
  {
    var after := [FreshRow(k)] + rows;
    forall e | e in entries ensures HasRow(after, e) {
      assert HasRow(rows, e);
      var r :| r in rows && !r.isNew && r.id == Stored(e.id);
      assert r in after;
    }
  }

  /** Replacing a row by one for the same entry keeps the description. */
  lemma ReplaceDescribes(rows: seq<Row>, entries: seq<Entry>, i: nat, x: Row)
    requires Describes(rows, entries) && i < |rows|
    requires x.id == rows[i].id && x.isNew == rows[i].isNew && RowOk(x, entries)
    ensures Describes(rows[i := x], entries)
  {
    var after := rows[i := x];
    forall e | e in entries ensures HasRow(after, e) {
      assert HasRow(rows, e);
      var r :| r in rows && !r.isNew && r.id == Stored(e.id);
      var k :| 0 <= k < |rows| && rows[k] == r;
      assert after[k] in after;
    }
  }

  lemma DropDescribes(rows: seq<Row>, entries: seq<Entry>, i: nat)
    requires Describes(rows, entries) && i < |rows| && rows[i].isNew
    ensures Describes(RemoveAt(rows, i), entries)
  {
    var after := RemoveAt(rows, i);
    assert forall r :: r in after ==> r in rows;
    forall e | e in entries ensures HasRow(after, e) {
      assert HasRow(rows, e);
      var r :| r in rows && !r.isNew && r.id == Stored(e.id);
      var k :| 0 <= k < |rows| && rows[k] == r;
      assert after[if k < i then k else k - 1] == r;
    }
  }

  lemma SortDescribes(rows: seq<Row>, entries: seq<Entry>, order: seq<nat>)
    requires Describes(rows, entries) && IsOrder(order, |rows|)
    ensures Describes(Reorder(rows, order), entries)
  {
    var after := Reorder(rows, order);
    assert forall r :: r in after ==> r in rows;
    forall i, j | 0 <= i < j < |after| && !after[i].isNew && !after[j].isNew ensures after[i].id != after[j].id {
      var a, b := order[i], order[j];
      assert a < b || b < a;
    }
    forall e | e in entries ensures HasRow(after, e) {
      assert HasRow(rows, e);
      var r :| r in rows && !r.isNew && r.id == Stored(e.id);
      var k :| 0 <= k < |rows| && rows[k] == r;
      assert k in order;
      var m :| 0 <= m < |order| && order[m] == k;
      assert after[m] == r;
    }
  }

  ghost predicate SavedFaithfully(before: Session, after: Session) {
    && after.Valid()
    && Contents(after.cat.entries) == Survivors(before.rows)
    && Survivors(after.rows) == Survivors(before.rows)
  }

  lemma SaveStep(s: Session)
    requires s.Valid() && Accepts(s.rows)
    ensures SavedFaithfully(s, Step(s, Save))
  {
    var after := SaveReproducesGrid(s.rows, s.cat);
    var ops := BatchOf(s.rows);
    if ops == [] {
      assert Step(s, Save) == s && ApplyBatch(s.cat, ops) == (s.cat, true);
    } else {
      LoadDescribes(after);
      LoadedSurvive(after.entries);
      assert Step(s, Save) == Session(LoadRows(after.entries), s.added, after);
    }
  }

  lemma StepKeepsValid(s: Session, c: Command)
    requires s.Valid()
    ensures Step(s, c).Valid()
  {
    match c
    case AddRow => AddDescribes(s.rows, s.cat.entries, s.added);
    case Edit(i, col, text) =>
      if i < |s.rows| {
        assert RowOk(s.rows[i], s.cat.entries);
        ReplaceDescribes(s.rows, s.cat.entries, i, EditRow(s.rows[i], col, text));
      }
    case Remove(i) =>
      if i < |s.rows| {
        var r := s.rows[i];
        assert RowOk(r, s.cat.entries);
        if r.isNew {
          DropDescribes(s.rows, s.cat.entries, i);
        } else {
          ReplaceDescribes(s.rows, s.cat.entries, i, r.(isRemoved := !r.isRemoved));
        }
      }
    case Sort(order) =>
      if IsOrder(order, |s.rows|) {
        SortDescribes(s.rows, s.cat.entries, order);
      }
    case Save =>
      if Accepts(s.rows) {
        SaveStep(s);
      }
    case Reload => LoadDescribes(s.cat);
  }

  lemma {:induction false} RunKeepsValid(s: Session, cs: seq<Command>)
    requires s.Valid()
    ensures Run(s, cs).Valid()
    decreases cs
  {
    if cs != [] {
      StepKeepsValid(s, cs[0]);
      RunKeepsValid(Step(s, cs[0]), cs[1..]);
    }
  }

  /**
   In every session that starts by loading a catalog, each accepted Save stores exactly the
   surviving rows, and the grid then shows the stored attributes and nothing else.
   */
  lemma EverySaveIsFaithful(cat: Catalog, cs: seq<Command>)
    requires cat.Valid()
    ensures
      var s := Run(Session(LoadRows(cat.entries), 0, cat), cs);
      s.Valid() && (Accepts(s.rows) ==> SavedFaithfully(s, Step(s, Save)))
  {
    LoadDescribes(cat);
    var s0 := Session(LoadRows(cat.entries), 0, cat);
    RunKeepsValid(s0, cs);
    if Accepts(Run(s0, cs).rows) {
      SaveStep(Run(s0, cs));
    }
  }

  lemma LoadedSurvive(entries: seq<Entry>)
    ensures Survivors(LoadRows(entries)) == Contents(entries)
  {
    FilterAll(Survives, LoadRows(entries));
    assert Map(RowAvu, LoadRows(entries)) == Map(EntryAvu, entries);
  }

  // ----- Names --------------------------------------------------------------------------

  /** A multi-valued attribute does not stand in the way: a row added under a name that is free can be saved. */
  lemma {:induction false} AddedRowSaved(entries: seq<Entry>, k: nat)
    ensures
      var rows := [FreshRow(k)] + LoadRows(entries);
      && (Accepts(rows) <==> forall e :: e in entries ==> e.avu.name != "New Name " + Decimal(k))
      && BatchOf(rows) == [Insert(Avu("New Name " + Decimal(k), "New Value " + Decimal(k), ""))]
  {
    var loaded := LoadRows(entries);
    var rows := [FreshRow(k)] + loaded;
    AcceptedExactly(rows);
    if Accepts(rows) {
      forall e | e in entries ensures e.avu.name != "New Name " + Decimal(k) {
        var i :| 0 <= i < |entries| && entries[i] == e;
        assert rows[0] == FreshRow(k) && rows[i + 1] == LoadedRow(e);
      }
    }
    FilterSplit(IsDeletion, [FreshRow(k)], loaded);
    FilterSplit(IsAddition, [FreshRow(k)], loaded);
    FilterNone(IsDeletion, loaded);
    FilterNone(IsAddition, loaded);
    assert Filter(IsAddition, [FreshRow(k)]) == [FreshRow(k)] && Filter(IsDeletion, [FreshRow(k)]) == [];
  }

  ghost predicate SurvivingNamesDistinct(rows: seq<Row>) {
    forall i, j :: 0 <= i < j < |rows| && Survives(rows[i]) && Survives(rows[j]) ==> DifferentNames(rows[i], rows[j])
  }

  ghost predicate RemovedNamesGone(rows: seq<Row>) {
    forall i, j :: 0 <= i < |rows| && 0 <= j < |rows| && rows[i].isRemoved && Survives(rows[j]) ==>
      DifferentNames(rows[i], rows[j])
  }

  /**
   Where the untouched rows have distinct names, that is: the surviving names are distinct and
   no removed row shares its name with a surviving one.
   */
  lemma DistinctNamesAccepted(rows: seq<Row>)
    requires forall i, j :: 0 <= i < j < |rows| && Keeps(rows[i]) && Keeps(rows[j]) ==> DifferentNames(rows[i], rows[j])
    ensures Accepts(rows) <==> SurvivingNamesDistinct(rows) && RemovedNamesGone(rows)
  {
    AcceptedExactly(rows);
  }

  /**
   A consequence: replacing an attribute by removing its row and adding another of the same
   name is refused, although the outcome would have distinct names.
   */
  lemma ReplacementRefused(e: Entry, value: string)
    requires value != ""
    ensures
      var cat := Catalog([e], e.id + 1);
      var s := Run(Session(LoadRows(cat.entries), 0, cat),
                   [Remove(0), AddRow, Edit(0, NameColumn, e.avu.name), Edit(0, ValueColumn, value)]);
      cat.Valid() && (e.avu.name != "" ==> SurvivingNamesDistinct(s.rows) && !Accepts(s.rows) && Step(s, Save) == s)
  {
    if e.avu.name != "" {
      var cat := Catalog([e], e.id + 1);
      var s0 := Session(LoadRows(cat.entries), 0, cat);
      var cs := [Remove(0), AddRow, Edit(0, NameColumn, e.avu.name), Edit(0, ValueColumn, value)];
      var s1 := Step(s0, cs[0]);
      var s2 := Step(s1, cs[1]);
      var s3 := Step(s2, cs[2]);
      var s4 := Step(s3, cs[3]);
      assert s2.rows == [FreshRow(0), LoadedRow(e).(isRemoved := true)];
      assert s4.rows[0].avu.name == e.avu.name;
      assert s4.rows[1] == LoadedRow(e).(isRemoved := true);
      assert ClashesAt(s4.rows, 1);
      RunFour(s0, cs);
    }
  }

  lemma RunFour(s: Session, cs: seq<Command>)
    requires |cs| == 4
    ensures Run(s, cs) == Step(Step(Step(Step(s, cs[0]), cs[1]), cs[2]), cs[3])
  {
    var s1 := Step(s, cs[0]);
    var s2 := Step(s1, cs[1]);
    var s3 := Step(s2, cs[2]);
    var s4 := Step(s3, cs[3]);
    var a, b, c := cs[1..], cs[2..], cs[3..];
    assert a[1..] == b && b[1..] == c && c[1..] == [];
    assert Run(s, cs) == Run(s1, a);
    assert Run(s1, a) == Run(s2, b);
    assert Run(s2, b) == Run(s3, c);
    assert Run(s3, c) == Run(s4, []) == s4;
  }
}
