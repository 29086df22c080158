/**
 The query dialog collects conditions in a list.  Selected conditions can be joined into one
 by a left fold of conjunctions, or removed; the query is accepted when one is left.
 */
module QueryBuilder {
  import opened Sequences

  datatype Operator = Equal | NotEqual | Greater | Less | GreaterOrEqual | LessOrEqual
    | Between | NotBetween | Like | NotLike | SoundsLike | SoundsNotLike

  /** The operator stays unset when its text is none of the known ones. */
  datatype Leaf = Leaf(attribute: string, op: Option<Operator>, value: string)

  datatype Condition = Basic(leaf: Leaf) | And(left: Condition, right: Condition)

  function ParseOperator(s: string): Option<Operator> {
    if s == "=" then Some(Equal)
    else if s == "<>" then Some(NotEqual)
    else if s == ">" then Some(Greater)
    else if s == "<" then Some(Less)
    else if s == ">=" then Some(GreaterOrEqual)
    else if s == "<=" then Some(LessOrEqual)
    else if s == "between" then Some(Between)
    else if s == "not between" then Some(NotBetween)
    else if s == "like" then Some(Like)
    else if s == "not like" then Some(NotLike)
    else if s == "sounds like" then Some(SoundsLike)
    else if s == "sounds not like" then Some(SoundsNotLike)
    else None
  }

  /** The texts the dialog offers. */
  function OperatorText(op: Operator): string {
    match op
    case Equal => "="
    case NotEqual => "<>"
    case Greater => ">"
    case Less => "<"
    case GreaterOrEqual => ">="
    case LessOrEqual => "<="
    case Between => "between"
    case NotBetween => "not between"
    case Like => "like"
    case NotLike => "not like"
    case SoundsLike => "sounds like"
    case SoundsNotLike => "sounds not like"
  }

  /** Each text is read as its operator, and no other text is read at all. */
  lemma ParsedExactly(s: string, op: Operator)
    ensures ParseOperator(s) == Some(op) <==> s == OperatorText(op)
  {
  }

  /** A record is given by the leaf conditions it meets. */
  predicate Holds(c: Condition, meets: Leaf -> bool) {
    match c
    case Basic(leaf) => meets(leaf)
    case And(l, r) => Holds(l, meets) && Holds(r, meets)
  }

  /** How often a leaf occurs in a condition, and in a list of conditions. */
  ghost function Count(c: Condition, leaf: Leaf): nat {
    match c
    case Basic(l) => if l == leaf then 1 else 0
    case And(l, r) => Count(l, leaf) + Count(r, leaf)
  }

  ghost function CountAll(cs: seq<Condition>, leaf: Leaf): nat {
    if cs == [] then 0 else CountAll(cs[..|cs| - 1], leaf) + Count(cs[|cs| - 1], leaf)
  }

  /** A condition holds exactly when all its leaves do, however they were joined. */
  lemma {:induction false} HoldsExactly(c: Condition, meets: Leaf -> bool)
    ensures Holds(c, meets) <==> forall leaf :: Count(c, leaf) > 0 ==> meets(leaf)
  {
    match c
    case Basic(leaf) => assert Count(c, leaf) == 1;
    case And(l, r) =>
      HoldsExactly(l, meets);
      HoldsExactly(r, meets);
      assert forall leaf :: Count(c, leaf) > 0 <==> Count(l, leaf) > 0 || Count(r, leaf) > 0;
  }

  /** The conjunction ((c0 and c1) and c2) ... */
  function Folded(cs: seq<Condition>): Condition
    requires cs != []
  {
    if |cs| == 1 then cs[0] else And(Folded(cs[..|cs| - 1]), cs[|cs| - 1])
  }

  /** It is joined from the left: all but the last condition stand in the left part. */
  lemma {:induction false} FoldedExactly(cs: seq<Condition>, c: Condition)
    ensures Folded([c]) == c
    ensures cs != [] ==> Folded(cs + [c]) == And(Folded(cs), c)
  {
    assert (cs + [c])[..|cs|] == cs;
  }

  lemma {:induction false} FoldedCount(cs: seq<Condition>, leaf: Leaf)
    requires cs != []
    ensures Count(Folded(cs), leaf) == CountAll(cs, leaf)
  {
    if |cs| == 1 {
      assert CountAll(cs[..0], leaf) == 0;
    } else {
      FoldedCount(cs[..|cs| - 1], leaf);
    }
  }

  lemma {:induction false} CountConcat(a: seq<Condition>, b: seq<Condition>, leaf: Leaf)
    ensures CountAll(a + b, leaf) == CountAll(a, leaf) + CountAll(b, leaf)
  {
    if b == [] {
      assert a + b == a;
    } else {
      CountConcat(a, b[..|b| - 1], leaf);
      assert (a + b)[..|a + b| - 1] == a + b[..|b| - 1];
    }
  }

  /** The selected conditions, in order. */
  function Picked(cs: seq<Condition>, sel: seq<nat>): seq<Condition>
    requires forall i :: 0 <= i < |sel| ==> sel[i] < |cs|
  {
    seq(|sel|, i requires 0 <= i < |sel| => cs[sel[i]])
  }

  /** The list without the selected conditions, deleted from the highest place down. */
  function Unpicked(cs: seq<Condition>, sel: seq<nat>): seq<Condition>
    requires Selection(sel, |cs|)
    decreases |sel|
  {
    if sel == [] then cs
    else
      var n := |sel| - 1;
      Unpicked(RemoveAt(cs, sel[n]), sel[..n])
  }

  /** The list control chooses the place of a new entry. */
  function Inserted(cs: seq<Condition>, place: nat, c: Condition): seq<Condition>
    requires place <= |cs|
  {
    cs[..place] + [c] + cs[place..]
  }

  /** The conditions left are those at the places not selected, in their order. */
  lemma UnpickedExactly(cs: seq<Condition>, sel: seq<nat>)
    requires Selection(sel, |cs|)
    ensures Unpicked(cs, sel) == Except(cs, set k | 0 <= k < |sel| :: sel[k])
  {
    UnpickedFrom(cs, sel, 0);
    assert sel[..|sel|] == sel && Topmost(sel, |sel|) == set k | 0 <= k < |sel| :: sel[k];
    ExceptNone(cs, Topmost(sel, 0));
  }

  lemma {:induction false} UnpickedFrom(cs: seq<Condition>, sel: seq<nat>, done: nat)
    requires Selection(sel, |cs|) && done <= |sel|
    ensures
      var left, rest := Except(cs, Topmost(sel, done)), sel[..|sel| - done];
      Selection(rest, |left|) && Unpicked(left, rest) == Except(cs, Topmost(sel, |sel|))
    decreases |sel| - done
  {
    if done < |sel| {
      TopmostNext(cs, sel, done);
      UnpickedFrom(cs, sel, done + 1);
      assert sel[..|sel| - done][..|sel| - done - 1] == sel[..|sel| - done - 1];
    }
  }

  /** A condition is inserted at its place, and removing it there leaves the list as it was. */
  lemma InsertedExactly(cs: seq<Condition>, place: nat, c: Condition)
    requires place <= |cs|
    ensures
      var after := Inserted(cs, place, c);
      |after| == |cs| + 1 && after[place] == c && RemoveAt(after, place) == cs
  {
  }

  class Dialog {
    var list: seq<Condition>

    constructor ()
      ensures list == []
    {
      list := [];
    }

    method OnQueryAdd(attribute: string, operator: string, value: string, place: nat)
      requires place <= |list|
      modifies this
      ensures list == Inserted(old(list), place, Basic(Leaf(attribute, ParseOperator(operator), value)))
      ensures list == Step(old(list), Add(Leaf(attribute, ParseOperator(operator), value), place))
    {
      list := list[..place] + [Basic(Leaf(attribute, ParseOperator(operator), value))] + list[place..];
    }

    /** Deletes from the last selected place to the first. */
    method DeleteSelected(sel: seq<nat>)
      requires Selection(sel, |list|)
      modifies this
      ensures list == Unpicked(old(list), sel)
    {
      var i: int := |sel|;
      assert sel[..i] == sel;
      while i > 0
        invariant 0 <= i <= |sel| && Selection(sel[..i], |list|)
        invariant Unpicked(list, sel[..i]) == Unpicked(old(list), sel)
      {
        i := i - 1;
        assert sel[..i + 1][..i] == sel[..i];
        list := RemoveAt(list, sel[i]);
      }
    }

    method OnQueryAnd(sel: seq<nat>, place: nat)
      requires Selection(sel, |list|)
      requires |sel| > 1 ==> place <= |Unpicked(list, sel)|
      modifies this
      ensures list == if |sel| <= 1 then old(list)
                      else Inserted(Unpicked(old(list), sel), place, Folded(Picked(old(list), sel)))
      ensures list == Step(old(list), Join(sel, place))
    {
      if |sel| <= 1 {
        return;
      }
      ghost var picked := Picked(list, sel);
      var result := And(list[sel[0]], list[sel[1]]);
      assert picked[..2] == [list[sel[0]], list[sel[1]]] && Folded(picked[..2]) == result by {
        assert picked[..2][..1] == [list[sel[0]]];
      }
      for i := 2 to |sel|
        invariant result == Folded(picked[..i])
      {
        assert picked[..i + 1][..i] == picked[..i];
        result := And(result, list[sel[i]]);
      }
      assert picked[..|sel|] == picked;
      DeleteSelected(sel);
      list := list[..place] + [result] + list[place..];
    }

    method OnQueryRemove(sel: seq<nat>)
      requires Selection(sel, |list|)
      modifies this
      ensures list == Unpicked(old(list), sel) == Step(old(list), Remove(sel))
    {
      DeleteSelected(sel);
    }

    /** One condition must be left; it is what all additions, joins and removals amount to. */
    method OnOK() returns (query: Option<Condition>)
      ensures (query.Some? <==> |list| == 1) && (query.Some? ==> list == [query.value])
      ensures query.Some? ==> forall es, meets ::
                Reaches([], es, list) ==> (Holds(query.value, meets) <==> MeetsAllLeft(es, meets))
    {
      query := if |list| == 1 then Some(list[0]) else None;
      if query.Some? {
        assert list == [query.value];
        forall es, meets | Reaches([], es, list) ensures Holds(query.value, meets) <==> MeetsAllLeft(es, meets) {
          AcceptedQueryExactly(es, query.value, meets);
        }
      }
    }
  }

  // ----- Leaves are conserved --------------------------------------------------------------

  lemma CountInserted(cs: seq<Condition>, place: nat, c: Condition, leaf: Leaf)
    requires place <= |cs|
    ensures CountAll(Inserted(cs, place, c), leaf) == CountAll(cs, leaf) + Count(c, leaf)
  {
    var front, back := cs[..place], cs[place..];
    assert cs == front + back;
    CountConcat(front, back, leaf);
    CountSplice(front, c, back, leaf);
  }

  lemma CountSplice(front: seq<Condition>, c: Condition, back: seq<Condition>, leaf: Leaf)
    ensures CountAll(front + [c] + back, leaf) == CountAll(front, leaf) + Count(c, leaf) + CountAll(back, leaf)
  {
    CountConcat(front + [c], back, leaf);
    CountConcat(front, [c], leaf);
    CountSingle(c, leaf);
  }

  lemma CountSingle(c: Condition, leaf: Leaf)
    ensures CountAll([c], leaf) == Count(c, leaf)
  {
  }

  lemma CountRemoved(cs: seq<Condition>, i: nat, leaf: Leaf)
    requires i < |cs|
    ensures CountAll(cs, leaf) == CountAll(RemoveAt(cs, i), leaf) + Count(cs[i], leaf)
  {
    CountInserted(RemoveAt(cs, i), i, cs[i], leaf);
    assert Inserted(RemoveAt(cs, i), i, cs[i]) == cs;
  }

  lemma {:induction false} CountUnpicked(cs: seq<Condition>, sel: seq<nat>, leaf: Leaf)
    requires Selection(sel, |cs|)
    ensures CountAll(cs, leaf) == CountAll(Unpicked(cs, sel), leaf) + CountAll(Picked(cs, sel), leaf)
    decreases |sel|
  {
    if sel != [] {
      var n := |sel| - 1;
      var rest := RemoveAt(cs, sel[n]);
      CountUnpicked(rest, sel[..n], leaf);
      CountRemoved(cs, sel[n], leaf);
      assert Picked(cs, sel)[..n] == Picked(rest, sel[..n]);
    }
  }

  // ----- Runs -------------------------------------------------------------------------------

  datatype Event = Add(leaf: Leaf, place: nat) | Join(sel: seq<nat>, place: nat) | Remove(sel: seq<nat>)

  ghost predicate Possible(cs: seq<Condition>, e: Event) {
    match e
    case Add(_, place) => place <= |cs|
    case Join(sel, place) => Selection(sel, |cs|) && (|sel| > 1 ==> place <= |Unpicked(cs, sel)|)
    case Remove(sel) => Selection(sel, |cs|)
  }

  ghost function Step(cs: seq<Condition>, e: Event): seq<Condition>
    requires Possible(cs, e)
  {
    match e
    case Add(leaf, place) => Inserted(cs, place, Basic(leaf))
    case Join(sel, place) =>
      if |sel| <= 1 then cs else Inserted(Unpicked(cs, sel), place, Folded(Picked(cs, sel)))
    case Remove(sel) => Unpicked(cs, sel)
  }

  /** Joining conserves the leaves; removing takes those of the selected conditions. */
  lemma StepCount(cs: seq<Condition>, e: Event, leaf: Leaf)
    requires Possible(cs, e)
    ensures CountAll(cs, leaf) + AddedBy(e, leaf) == CountAll(Step(cs, e), leaf) + RemovedBy(cs, e, leaf)
  {
    match e
    case Add(added, place) => CountInserted(cs, place, Basic(added), leaf);
    case Join(sel, place) =>
      if |sel| > 1 {
        CountUnpicked(cs, sel, leaf);
        CountInserted(Unpicked(cs, sel), place, Folded(Picked(cs, sel)), leaf);
        FoldedCount(Picked(cs, sel), leaf);
      }
    case Remove(sel) => CountUnpicked(cs, sel, leaf);
  }

  ghost function AddedBy(e: Event, leaf: Leaf): nat {
    if e.Add? && e.leaf == leaf then 1 else 0
  }

  ghost function RemovedBy(cs: seq<Condition>, e: Event, leaf: Leaf): nat
    requires Possible(cs, e)
  {
    if e.Remove? then CountAll(Picked(cs, e.sel), leaf) else 0
  }

  ghost predicate Reaches(cs: seq<Condition>, es: seq<Event>, end: seq<Condition>)
    decreases es
  {
    if es == [] then cs == end else Possible(cs, es[0]) && Reaches(Step(cs, es[0]), es[1..], end)
  }

  lemma StandingStill(cs: seq<Condition>)
    ensures Reaches(cs, [], cs)
  {
  }

  lemma {:induction false} ReachesOneMore(cs: seq<Condition>, es: seq<Event>, end: seq<Condition>, e: Event)
    requires Reaches(cs, es, end) && Possible(end, e)
    ensures Reaches(cs, es + [e], Step(end, e))
    decreases es
  {
    if es == [] {
      assert [e][1..] == [];
    } else {
      ReachesOneMore(Step(cs, es[0]), es[1..], end, e);
      assert (es + [e])[1..] == es[1..] + [e];
    }
  }

  /** How often a leaf was added during a run, and how often it was removed. */
  ghost function TimesAdded(es: seq<Event>, leaf: Leaf): nat
    decreases es
  {
    if es == [] then 0 else AddedBy(es[0], leaf) + TimesAdded(es[1..], leaf)
  }

  ghost function TimesRemoved(cs: seq<Condition>, es: seq<Event>, leaf: Leaf): nat
    decreases es
  {
    if es == [] || !Possible(cs, es[0]) then 0
    else RemovedBy(cs, es[0], leaf) + TimesRemoved(Step(cs, es[0]), es[1..], leaf)
  }

  lemma {:induction false} RunCount(cs: seq<Condition>, es: seq<Event>, end: seq<Condition>, leaf: Leaf)
    requires Reaches(cs, es, end)
    ensures CountAll(cs, leaf) + TimesAdded(es, leaf) == CountAll(end, leaf) + TimesRemoved(cs, es, leaf)
    decreases es
  {
    if es != [] {
      StepCount(cs, es[0], leaf);
      RunCount(Step(cs, es[0]), es[1..], end, leaf);
    }
  }

  /** The record meets every leaf that was added more often than it was removed. */
  ghost predicate MeetsAllLeft(es: seq<Event>, meets: Leaf -> bool) {
    forall leaf :: TimesAdded(es, leaf) > TimesRemoved([], es, leaf) ==> meets(leaf)
  }

  /**
   The query accepted after any run of Add, And and Remove holds of a record exactly when
   the record meets every leaf that was added more often than it was removed.
   */
  lemma AcceptedQueryExactly(es: seq<Event>, query: Condition, meets: Leaf -> bool)
    requires Reaches([], es, [query])
    ensures Holds(query, meets) <==> MeetsAllLeft(es, meets)
  {
    forall leaf
      ensures Count(query, leaf) > 0 <==> TimesAdded(es, leaf) > TimesRemoved([], es, leaf)
    {
      RunCount([], es, [query], leaf);
      CountSingle(query, leaf);
    }
    HoldsExactly(query, meets);
  }
}
