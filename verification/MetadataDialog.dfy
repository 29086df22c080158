/**
 The metadata dialog of the desktop client keeps three parallel arrays and a list control in
 step with the triples the catalog stores for one object.  Every change is first sent to the
 catalog, which may refuse it.  Modifying is a deletion followed by an addition.
 */
module MetadataDialog {
  import opened Sequences
  import opened Strings
  import opened Replies

  datatype Avu = Avu(att: string, val: string, unit: string)

  /** The tabs of the dialog decide what the one button does. */
  datatype Mode = Deleting | Adding | Modifying | Viewing

  // ----- The catalog and the dialog ---------------------------------------------------------

  /** The catalog; which calls it would refuse whatever they ask is settled beforehand. */
  class Store {
    const refused: set<nat>   // by the number of calls before
    var calls: nat
    var avus: set<Avu>

    constructor (avus: set<Avu>, refused: set<nat>)
      ensures this.avus == avus && this.refused == refused && calls == 0
    {
      this.avus, this.refused, calls := avus, refused, 0;
    }

    method Delete(a: Avu) returns (ok: bool)
      modifies this
      ensures ok <==> old(calls) !in refused && a in old(avus)
      ensures avus == (if ok then old(avus) - {a} else old(avus)) && calls == old(calls) + 1
    {
      ok := calls !in refused && a in avus;
      calls := calls + 1;
      if ok {
        avus := avus - {a};
      }
    }

    method Add(a: Avu) returns (ok: bool)
      modifies this
      ensures ok <==> old(calls) !in refused && a !in old(avus)
      ensures avus == (if ok then old(avus) + {a} else old(avus)) && calls == old(calls) + 1
    {
      ok := calls !in refused && a !in avus;
      calls := calls + 1;
      if ok {
        avus := avus + {a};
      }
    }
  }

  function AttOf(a: Avu): string { a.att }
  function ValOf(a: Avu): string { a.val }
  function UnitOf(a: Avu): string { a.unit }

  /** The topmost selected rows, so many of them, are gone from the list and from the catalog. */
  ghost predicate DeletedTopmost(before: seq<Avu>, stored: set<Avu>, sel: seq<nat>, done: nat,
                                 rows: seq<Avu>, store: set<Avu>)
    requires done <= |sel|
  {
    var gone := Topmost(sel, done);
    && rows == Except(before, gone)
    && (forall j :: j in gone ==> j < |before| && before[j] in stored)
    && store == stored - set j | j in gone && j < |before| :: before[j]
  }

  lemma NothingDeleted(before: seq<Avu>, stored: set<Avu>, sel: seq<nat>)
    ensures DeletedTopmost(before, stored, sel, 0, before, stored)
  {
    ExceptNone(before, Topmost(sel, 0));
  }

  lemma TopmostDeleted(before: seq<Avu>, stored: set<Avu>, sel: seq<nat>, done: nat, rows: seq<Avu>, store: set<Avu>)
    requires Selection(sel, |before|) && done < |sel| && DeletedTopmost(before, stored, sel, done, rows, store)
    requires sel[|sel| - 1 - done] < |rows| && rows[sel[|sel| - 1 - done]] in store
    ensures
      var j := sel[|sel| - 1 - done];
      DeletedTopmost(before, stored, sel, done + 1, RemoveAt(rows, j), store - {rows[j]})
  {
    var j := sel[|sel| - 1 - done];
    TopmostNext(before, sel, done);
    assert Topmost(sel, done + 1) == Topmost(sel, done) + {j};
  }

  /** One deletion, of rows and triples: it fails if the call is refused or the row is not stored. */
  ghost function DeleteCall(refused: set<nat>): (nat, (seq<Avu>, set<Avu>), nat) -> Option<(seq<Avu>, set<Avu>)> {
    (calls: nat, s: (seq<Avu>, set<Avu>), j: nat) =>
      if calls in refused || j >= |s.0| || s.0[j] !in s.1 then None else Some((RemoveAt(s.0, j), s.1 - {s.0[j]}))
  }

  /** How far the deletions of a selection come, and what is left. */
  ghost function DeleteRun(refused: set<nat>, calls: nat, rows: seq<Avu>, store: set<Avu>, sel: seq<nat>, done: nat)
    : (nat, (seq<Avu>, set<Avu>))
  {
    Proceed(DeleteCall(refused), calls, (rows, store), TopDown(sel), done, |TopDown(sel)|)
  }

  /** Exactly the topmost selected rows go from list and catalog, as far as the deletions come. */
  lemma DeletesTopmost(refused: set<nat>, calls: nat, before: seq<Avu>, stored: set<Avu>, sel: seq<nat>)
    requires Selection(sel, |before|)
    ensures
      var (m, left) := DeleteRun(refused, calls, before, stored, sel, 0);
      m <= |sel| && DeletedTopmost(before, stored, sel, m, left.0, left.1)
  {
    var call, places := DeleteCall(refused), TopDown(sel);
    var good := (k: nat, s: (seq<Avu>, set<Avu>)) => k <= |sel| && DeletedTopmost(before, stored, sel, k, s.0, s.1);
    NothingDeleted(before, stored, sel);
    forall k, s | 0 <= k < |sel| && good(k, s) && call(calls + k, s, places[k]).Some?
      ensures good(k + 1, call(calls + k, s, places[k]).value)
    {
      TopmostDeleted(before, stored, sel, k, s.0, s.1);
    }
    ProceedKeeps(call, good, calls, (before, stored), places);
  }

  /** They stop before the first call that is refused or whose row is not stored any more. */
  lemma DeletesUntilRefused(refused: set<nat>, calls: nat, before: seq<Avu>, stored: set<Avu>, sel: seq<nat>)
    requires Selection(sel, |before|)
    ensures
      var (m, left) := DeleteRun(refused, calls, before, stored, sel, 0);
      && m <= |sel| && (forall c :: calls <= c < calls + m ==> c !in refused)
      && (m < |sel| ==> calls + m in refused || before[sel[|sel| - 1 - m]] !in left.1)
  {
    var (m, left) := DeleteRun(refused, calls, before, stored, sel, 0);
    DeletesGranted(refused, calls, before, stored, sel);
    GrantedExactly(refused, calls, m);
    if m < |sel| {
      NextStays(refused, calls, before, stored, sel);
    }
  }

  lemma DeletesGranted(refused: set<nat>, calls: nat, before: seq<Avu>, stored: set<Avu>, sel: seq<nat>)
    ensures
      var (m, left) := DeleteRun(refused, calls, before, stored, sel, 0);
      && m <= |sel| && Granted(refused, calls, m)
      && (m < |sel| ==> calls + m in refused || var j := sel[|sel| - 1 - m]; j >= |left.0| || left.0[j] !in left.1)
  {
    var good := (k: nat, s: (seq<Avu>, set<Avu>)) => Granted(refused, calls, k);
    ProceedKeeps(DeleteCall(refused), good, calls, (before, stored), TopDown(sel));
    var m := DeleteRun(refused, calls, before, stored, sel, 0).0;
    assert m < |sel| ==> TopDown(sel)[m] == sel[|sel| - 1 - m];
  }

  /** The next row to delete is where it was. */
  lemma NextStays(refused: set<nat>, calls: nat, before: seq<Avu>, stored: set<Avu>, sel: seq<nat>)
    requires Selection(sel, |before|) && DeleteRun(refused, calls, before, stored, sel, 0).0 < |sel|
    ensures
      var (m, left) := DeleteRun(refused, calls, before, stored, sel, 0);
      var j := sel[|sel| - 1 - m];
      j < |left.0| && left.0[j] == before[j]
  {
    DeletesTopmost(refused, calls, before, stored, sel);
    TopmostNext(before, sel, DeleteRun(refused, calls, before, stored, sel, 0).0);
  }

  ghost predicate AsRun(start: State, sel: seq<nat>, k: nat, s: (seq<Avu>, set<Avu>)) {
    k <= |sel| && Reaches(start, DeleteEvents(sel, k), start.(rows := s.0, store := s.1))
  }

  lemma DeleteAsEvent(start: State, sel: seq<nat>, k: nat, rows: seq<Avu>, store: set<Avu>)
    requires start.mode == Deleting && k < |sel|
    requires AsRun(start, sel, k, (rows, store))
    requires sel[|sel| - 1 - k] < |rows| && rows[sel[|sel| - 1 - k]] in store
    ensures
      var j := sel[|sel| - 1 - k];
      AsRun(start, sel, k + 1, (RemoveAt(rows, j), store - {rows[j]}))
  {
    var e := Delete(sel[|sel| - 1 - k], true);
    ReachesOneMore(start, DeleteEvents(sel, k), start.(rows := rows, store := store), e);
    assert DeleteEvents(sel, k + 1) == DeleteEvents(sel, k) + [e];
  }

  /** And they are a run of single deletions. */
  lemma DeletesAsRun(refused: set<nat>, calls: nat, start: State, sel: seq<nat>)
    requires start.mode == Deleting
    ensures
      var (m, left) := DeleteRun(refused, calls, start.rows, start.store, sel, 0);
      AsRun(start, sel, m, left)
  {
    var call, places, first := DeleteCall(refused), TopDown(sel), (start.rows, start.store);
    var good := (k: nat, s: (seq<Avu>, set<Avu>)) => AsRun(start, sel, k, s);
    forall k, s | 0 <= k < |sel| && good(k, s) && call(calls + k, s, places[k]).Some?
      ensures good(k + 1, call(calls + k, s, places[k]).value)
    {
      DeleteAsEvent(start, sel, k, s.0, s.1);
    }
    ProceedKeeps(call, good, calls, first, places);
  }

  class Dialog {
    var atts: seq<string>
    var vals: seq<string>
    var units: seq<string>
    var list: seq<Avu>
    var mode: Mode
    var captured: Avu
    var at: nat

    /** The arrays and the list control hold the same rows. */
    ghost predicate Valid()
      reads this
    {
      atts == Map(AttOf, list) && vals == Map(ValOf, list) && units == Map(UnitOf, list)
    }

    /** The state of the runs below, without the count of losses. */
    ghost function View(store: Store): State
      reads this, store
    {
      State(list, store.avus, mode, captured, at, multiset{})
    }

    constructor (loaded: seq<Avu>)
      ensures Valid() && list == loaded && mode == Deleting
    {
      atts, vals, units, list := Map(AttOf, loaded), Map(ValOf, loaded), Map(UnitOf, loaded), loaded;
      mode, captured, at := Deleting, Avu("", "", ""), 0;
    }

    method AddMetadata(store: Store, typed: Avu) returns (added: bool)
      requires Valid()
      modifies `atts, `vals, `units, `list, store
      ensures Valid()
      ensures
        var a := Avu(Trim(typed.att), Trim(typed.val), Trim(typed.unit));
        && (added <==> a.att != "" && a.val != "" && old(store.calls) !in store.refused && a !in old(store.avus))
        && (added ==> store.avus == old(store.avus) + {a} && list == old(list) + [a])
        && (!added ==> store.avus == old(store.avus) && list == old(list))
      ensures mode == Adding ==>
                var e := Event.Add(Avu(Trim(typed.att), Trim(typed.val), Trim(typed.unit)), added);
                Possible(old(View(store)), e) && View(store) == Step(old(View(store)), e)
    {
      var a := Avu(Trim(typed.att), Trim(typed.val), Trim(typed.unit));
      if a.att == "" || a.val == "" {
        return false;
      }
      added := store.Add(a);
      if added {
        list := list + [a];
        atts, vals, units := atts + [a.att], vals + [a.val], units + [a.unit];
      }
    }

    /** Stops at the first refusal. */
    method DeleteMetadata(store: Store, sel: seq<nat>) returns (done: nat)
      requires Valid() && Selection(sel, |list|)
      modifies `atts, `vals, `units, `list, store
      ensures Valid()
      ensures (done, (list, store.avus)) ==
              DeleteRun(store.refused, old(store.calls), old(list), old(store.avus), sel, 0)
    {
      done := 0;
      ghost var goal := DeleteRun(store.refused, store.calls, list, store.avus, sel, 0);
      while done < |sel|
        invariant Valid() && done <= |sel| && (done < |sel| ==> sel[|sel| - 1 - done] < |list|)
        invariant goal == DeleteRun(store.refused, store.calls, list, store.avus, sel, done)
      {
        var j := sel[|sel| - 1 - done];
        var ok := store.Delete(Avu(atts[j], vals[j], units[j]));
        if !ok {
          return;
        }
        RemoveRow(j);
        done := done + 1;
      }
    }

    method RemoveRow(j: nat)
      requires Valid() && j < |list|
      modifies `atts, `vals, `units, `list
      ensures Valid() && list == RemoveAt(old(list), j)
    {
      atts, vals, units := RemoveAt(atts, j), RemoveAt(vals, j), RemoveAt(units, j);
      list := RemoveAt(list, j);
    }

    /** Choosing a tab; modifying and viewing need exactly one selected row and remember it. */
    method SelectTab(tab: Mode, sel: seq<nat>, ghost store: Store)
      requires Valid() && Selection(sel, |list|)
      modifies `mode, `captured, `at
      ensures
        if tab.Modifying? || tab.Viewing?
        then if |sel| == 1 then mode == tab && at == sel[0] && captured == list[at]
             else mode == Deleting && captured == old(captured) && at == old(at)
        else mode == tab && captured == old(captured) && at == old(at)
      ensures View(store) == Step(old(View(store)), Tab(tab, sel))
    {
      if tab.Modifying? || tab.Viewing? {
        if |sel| != 1 {
          mode := Deleting;
          return;
        }
        at := sel[0];
        captured := Avu(atts[at], vals[at], units[at]);
      }
      mode := tab;
    }

    /** The deletion is not undone when the addition is refused. */
    method ModifyMetadata(store: Store, typed: Avu) returns (deleted: bool, added: bool)
      requires Valid() && at < |list|
      modifies `atts, `vals, `units, `list, store
      ensures Valid() && (added ==> deleted)
      ensures deleted <==> typed != captured && old(store.calls) !in store.refused && captured in old(store.avus)
      ensures added <==> deleted && old(store.calls) + 1 !in store.refused && typed !in old(store.avus) - {captured}
      ensures added ==> store.avus == old(store.avus) - {captured} + {typed} && list == old(list)[at := typed]
      ensures !added ==> list == old(list)
                         && store.avus == if deleted then old(store.avus) - {captured} else old(store.avus)
      ensures mode == Modifying ==>
                var e := Modify(typed, deleted, added);
                Possible(old(View(store)), e) && View(store) == Step(old(View(store)), e).(lost := multiset{})
    {
      deleted, added := false, false;
      if typed == captured {
        return;
      }
      deleted := store.Delete(captured);
      if !deleted {
        return;
      }
      added := store.Add(typed);
      if added {
        list := list[at := typed];
        atts, vals, units := atts[at := typed.att], vals[at := typed.val], units[at := typed.unit];
      }
    }
  }

  // ----- Runs --------------------------------------------------------------------------------

  /** The dialog and the catalog; `lost` counts the rows whose modification failed half way. */
  datatype State = State(rows: seq<Avu>, store: set<Avu>, mode: Mode, captured: Avu, at: nat, lost: multiset<Avu>)

  /** What happened, with the answers of the catalog. */
  datatype Event =
    | Add(a: Avu, ok: bool)
    | Delete(j: nat, ok: bool)
    | Tab(tab: Mode, sel: seq<nat>)
    | Modify(typed: Avu, deleted: bool, added: bool)

  /** The button does what the mode says, and the catalog honours its contract. */
  ghost predicate Possible(s: State, e: Event) {
    match e
    case Add(a, ok) => s.mode == Adding && (ok ==> a !in s.store)
    case Delete(j, ok) => s.mode == Deleting && j < |s.rows| && (ok ==> s.rows[j] in s.store)
    case Tab(_, sel) => Selection(sel, |s.rows|)
    case Modify(typed, deleted, added) =>
      && s.mode == Modifying && s.at < |s.rows|
      && (added ==> deleted) && (deleted ==> typed != s.captured && s.captured in s.store)
      && (added ==> typed !in s.store - {s.captured})
  }

  ghost function Step(s: State, e: Event): State
    requires Possible(s, e)
  {
    match e
    case Add(a, ok) => if ok then s.(rows := s.rows + [a], store := s.store + {a}) else s
    case Delete(j, ok) => if ok then s.(rows := RemoveAt(s.rows, j), store := s.store - {s.rows[j]}) else s
    case Tab(tab, sel) =>
      if tab.Modifying? || tab.Viewing?
      then if |sel| == 1 then s.(mode := tab, at := sel[0], captured := s.rows[sel[0]]) else s.(mode := Deleting)
      else s.(mode := tab)
    case Modify(typed, deleted, added) =>
      if added then s.(rows := s.rows[s.at := typed], store := s.store - {s.captured} + {typed})
      else if deleted then s.(store := s.store - {s.captured}, lost := s.lost + multiset{s.captured})
      else s
  }

  /**
   The rows are the stored triples and the lost ones.  While modifying, the remembered triple
   is that of its row, or it is no longer stored.
   */
  ghost predicate Accounted(s: State) {
    && multiset(s.rows) == multiset(s.store) + s.lost
    && (s.mode == Modifying ==> s.at < |s.rows| && (s.rows[s.at] == s.captured || s.captured !in s.store))
  }

  lemma AddAccounted(s: State, a: Avu)
    requires Accounted(s) && s.mode == Adding && a !in s.store
    ensures Accounted(Step(s, Add(a, true)))
  {
  }

  lemma DeleteAccounted(s: State, j: nat)
    requires Accounted(s) && s.mode == Deleting && j < |s.rows| && s.rows[j] in s.store
    ensures Accounted(Step(s, Delete(j, true)))
  {
    var r := s.rows[j];
    RemoveAtMultiset(s.rows, j);
    assert multiset(s.store) == multiset(s.store - {r}) + multiset{r};
    MultisetCancel(multiset(RemoveAt(s.rows, j)), multiset(s.store - {r}) + s.lost, r);
  }

  lemma ModifyAccounted(s: State, typed: Avu, added: bool)
    requires Accounted(s) && Possible(s, Modify(typed, true, added))
    ensures Accounted(Step(s, Modify(typed, true, added)))
  {
    var kept := s.store - {s.captured};
    assert multiset(s.store) == multiset(kept) + multiset{s.captured};
    if added {
      UpdateMultiset(s.rows, s.at, typed);
      assert multiset(kept + {typed}) == multiset(kept) + multiset{typed};
    }
  }

  lemma StepAccounted(s: State, e: Event)
    requires Accounted(s) && Possible(s, e)
    ensures Accounted(Step(s, e))
  {
    match e
    case Add(a, ok) => if ok { AddAccounted(s, a); }
    case Delete(j, ok) => if ok { DeleteAccounted(s, j); }
    case Tab(_, _) =>
    case Modify(typed, deleted, added) => if deleted { ModifyAccounted(s, typed, added); }
  }

  ghost predicate Reaches(s: State, es: seq<Event>, t: State)
    decreases es
  {
    if es == [] then s == t else Possible(s, es[0]) && Reaches(Step(s, es[0]), es[1..], t)
  }

  lemma {:induction false} ReachesOneMore(s: State, es: seq<Event>, t: State, e: Event)
    requires Reaches(s, es, t) && Possible(t, e)
    ensures Reaches(s, es + [e], Step(t, e))
    decreases es
  {
    if es != [] {
      ReachesOneMore(Step(s, es[0]), es[1..], t, e);
      assert (es + [e])[1..] == es[1..] + [e];
    }
  }

  /** The deletions of so many selected rows, topmost first. */
  ghost function DeleteEvents(sel: seq<nat>, done: nat): seq<Event>
    requires done <= |sel|
  {
    seq(done, i requires 0 <= i < done => Delete(sel[|sel| - 1 - i], true))
  }

  /** The triples whose deletion succeeded and whose replacement was then refused. */
  ghost function HalfModified(s: State, es: seq<Event>): multiset<Avu>
    decreases es
  {
    if es == [] || !Possible(s, es[0]) then multiset{}
    else (if es[0].Modify? && es[0].deleted && !es[0].added then multiset{s.captured} else multiset{})
         + HalfModified(Step(s, es[0]), es[1..])
  }

  lemma {:induction false} RunAccounted(s: State, es: seq<Event>, t: State)
    requires Accounted(s) && Reaches(s, es, t)
    ensures Accounted(t) && t.lost == s.lost + HalfModified(s, es)
    decreases es
  {
    if es != [] {
      StepAccounted(s, es[0]);
      RunAccounted(Step(s, es[0]), es[1..], t);
    }
  }

  ghost function Opened(loaded: seq<Avu>, captured: Avu, at: nat): State {
    State(loaded, (set a | a in loaded), Deleting, captured, at, multiset{})
  }

  /**
   After every run on a freshly loaded dialog, with refusals at any point, the rows are the
   stored triples together with exactly those of half-failed modifications.
   */
  lemma RowsMatchStore(loaded: seq<Avu>, captured: Avu, at: nat, es: seq<Event>, t: State)
    requires NoDuplicates(loaded)
    requires Reaches(Opened(loaded, captured, at), es, t)
    ensures
      var start := Opened(loaded, captured, at);
      multiset(t.rows) == multiset(t.store) + HalfModified(start, es)
  {
    var start := Opened(loaded, captured, at);
    forall a ensures multiset(loaded)[a] == multiset(start.store)[a] {
      NoDuplicatesCount(loaded, a);
    }
    assert multiset(loaded) == multiset(start.store);
    RunAccounted(start, es, t);
  }
}
