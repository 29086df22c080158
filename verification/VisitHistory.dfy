/**
 The Back and Forward buttons of the desktop client.  Visited nodes are kept in an array of
 ten slots used as a ring: `first` and `last` bound the retained visits and `current` is the
 visit shown.  `first` moves only when the index wraps past the end of the array.
 */
module VisitHistory {
  import opened Sequences

  type Node = nat

  const SLOTS: nat := 10

  datatype Ring = Ring(slots: seq<Option<Node>>, first: int, last: int, current: int, node: Option<Node>) {
    predicate Valid() {
      && |slots| == SLOTS
      && (first == -1 ==> last == -1 && current == -1)
      && (first != -1 ==> first >= 0 && 0 <= last < SLOTS && 0 <= current < SLOTS)
    }
  }

  function Visited(r: Ring, n: Option<Node>): (v: Ring)
    requires r.Valid()
    ensures v.Valid()
  {
    if n == None || n == r.node then r
    else if r.first == -1 then Ring(r.slots[0 := n], 0, 0, 0, n)
    else if r.current + 1 == SLOTS then Ring(r.slots[0 := n], r.first + 1, 0, 0, n)
    else Ring(r.slots[r.current + 1 := n], r.first, r.current + 1, r.current + 1, n)
  }

  predicate CanGoBack(r: Ring) { r.current != r.first }
  predicate CanGoForward(r: Ring) { r.current != r.last }

  function WentBack(r: Ring): (b: Ring)
    requires r.Valid()
    ensures b.Valid()
  {
    if !CanGoBack(r) then r
    else
      var c := if r.current == 0 then SLOTS - 1 else r.current - 1;
      r.(current := c, node := r.slots[c])
  }

  function WentForward(r: Ring): (f: Ring)
    requires r.Valid()
    ensures f.Valid()
  {
    if !CanGoForward(r) then r
    else
      var c := (r.current + 1) % SLOTS;
      r.(current := c, node := r.slots[c])
  }

  /** Deleting, refreshing and reconnecting forget the visits and leave the slots alone. */
  function Forgotten(r: Ring, n: Option<Node>): Ring {
    r.(first := -1, last := -1, current := -1, node := n)
  }

  function EmptyRing(): Ring { Ring(seq(SLOTS, _ => None), -1, -1, -1, None) }

  class Document {
    const history: array<Option<Node>>
    var first: int
    var last: int
    var current: int
    var currentNode: Option<Node>

    ghost predicate Valid()
      reads this, history
    {
      history.Length == SLOTS && View().Valid()
    }

    ghost function View(): Ring
      reads this, history
    {
      Ring(history[..], first, last, current, currentNode)
    }

    constructor ()
      ensures Valid() && fresh(history) && View() == EmptyRing()
    {
      history := new Option<Node>[SLOTS](_ => None);
      first, last, current, currentNode := -1, -1, -1, None;
      new;
      assert history[..] == EmptyRing().slots;
    }

    method SetCurrentNode(n: Option<Node>)
      requires Valid()
      modifies this, history
      ensures Valid() && View() == Visited(old(View()), n) == Step(old(View()), Visit(n))
    {
      if n == None || n == currentNode {
        return;
      }
      currentNode := n;
      if first == -1 {
        first, last, current := 0, 0, 0;
      } else {
        current := current + 1;
        if current == SLOTS {
          current := 0;
          first := first + 1;
        }
        last := current;
      }
      history[current] := n;
    }

    method OnBack()
      requires Valid()
      modifies this
      ensures Valid() && View() == WentBack(old(View())) == Step(old(View()), Back)
    {
      if current == first {
        return;
      }
      current := current - 1;
      if current == -1 {
        current := SLOTS - 1;
      }
      currentNode := history[current];
    }

    method OnForward()
      requires Valid()
      modifies this
      ensures Valid() && View() == WentForward(old(View())) == Step(old(View()), Forward)
    {
      if current == last {
        return;
      }
      current := (current + 1) % SLOTS;
      currentNode := history[current];
    }

    method Forget(n: Option<Node>)
      requires Valid()
      modifies this
      ensures Valid() && View() == Forgotten(old(View()), n) == Step(old(View()), Event.Forget(n))
      ensures history[..] == old(history[..]) && first == last == current == -1 && currentNode == n
    {
      first, last, current, currentNode := -1, -1, -1, n;
    }
  }

  // ----- Runs ---------------------------------------------------------------------------

  /** Substitute stands for the operations that replace the node shown without a visit. */
  datatype Event = Visit(n: Option<Node>) | Back | Forward | Forget(n: Option<Node>) | Substitute(n: Option<Node>)

  function Step(r: Ring, e: Event): (s: Ring)
    requires r.Valid()
    ensures s.Valid()
  {
    match e
    case Visit(n) => Visited(r, n)
    case Back => WentBack(r)
    case Forward => WentForward(r)
    case Forget(n) => Forgotten(r, n)
    case Substitute(n) => r.(node := n)
  }

  function Run(r: Ring, es: seq<Event>): (s: Ring)
    requires r.Valid()
    ensures s.Valid()
    decreases es
  {
    if es == [] then r else Run(Step(r, es[0]), es[1..])
  }

  // ----- The ideal history ----------------------------------------------------------------

  /** Unbounded: all visits, and a cursor, which is -1 before the first visit. */
  datatype Ideal = Ideal(visits: seq<Option<Node>>, cursor: int, node: Option<Node>) {
    predicate Valid() {
      if visits == [] then cursor == -1 else 0 <= cursor < |visits|
    }
  }

  function IdealStep(h: Ideal, e: Event): (s: Ideal)
    requires h.Valid()
    ensures s.Valid()
  {
    match e
    case Visit(n) =>
      if n == None || n == h.node then h
      else Ideal(h.visits[..h.cursor + 1] + [n], h.cursor + 1, n)
    case Back => if h.cursor <= 0 then h else h.(cursor := h.cursor - 1, node := h.visits[h.cursor - 1])
    case Forward =>
      if h.cursor + 1 >= |h.visits| then h else h.(cursor := h.cursor + 1, node := h.visits[h.cursor + 1])
    case Forget(n) => Ideal([], -1, n)
    case Substitute(n) => h.(node := n)
  }

  function IdealRun(h: Ideal, es: seq<Event>): (s: Ideal)
    requires h.Valid()
    ensures s.Valid()
    decreases es
  {
    if es == [] then h else IdealRun(IdealStep(h, es[0]), es[1..])
  }

  // ----- Refinement below ten wraps ---------------------------------------------------------

  /** The distance from slot a forward to slot b. */
  function Distance(a: int, b: int): int { if a <= b then b - a else b - a + SLOTS }

  /** The slot k places after slot a. */
  function SlotAfter(a: int, k: int): int { if a + k < SLOTS then a + k else a + k - SLOTS }

  function Length(r: Ring): int { if r.first == -1 then 0 else Distance(r.first, r.last) + 1 }

  /** The slots from first to last are the latest visits, and the cursor lies in them. */
  ghost predicate Refines(r: Ring, h: Ideal) {
    && r.Valid() && h.Valid() && r.first < SLOTS && r.node == h.node
    && (r.first == -1 ==> h.visits == [])
    && (r.first != -1 ==>
          && Length(r) <= |h.visits|
          && Distance(r.first, r.current) < Length(r)
          && h.cursor == |h.visits| - Length(r) + Distance(r.first, r.current)
          && forall k :: 0 <= k < Length(r) ==>
               r.slots[SlotAfter(r.first, k)] == h.visits[|h.visits| - Length(r) + k])
  }

  lemma VisitRefines(r: Ring, h: Ideal, n: Option<Node>)
    requires Refines(r, h) && Visited(r, n).first < SLOTS
    ensures Refines(Visited(r, n), IdealStep(h, Visit(n)))
  {
    if n != None && n != r.node && r.first != -1 {
      var v, g := Visited(r, n), IdealStep(h, Visit(n));
      var dropped := |g.visits| - Length(v) - (|h.visits| - Length(r));
      assert |g.visits| == h.cursor + 2;
      forall k | 0 <= k < Length(v)
        ensures v.slots[SlotAfter(v.first, k)] == g.visits[|g.visits| - Length(v) + k]
      {
        if k < Length(v) - 1 {
          assert SlotAfter(v.first, k) == SlotAfter(r.first, k + dropped);
          assert r.slots[SlotAfter(r.first, k + dropped)] == h.visits[|h.visits| - Length(r) + k + dropped];
        }
      }
    }
  }

  /** An enabled Back shows what the ideal history shows; Forward then undoes it. */
  lemma BackRefines(r: Ring, h: Ideal)
    requires Refines(r, h) && CanGoBack(r)
    ensures h.cursor > 0 && Refines(WentBack(r), IdealStep(h, Back))
    ensures WentForward(WentBack(r)) == r.(node := r.slots[r.current])
  {
    var k := Distance(r.first, r.current) - 1;
    assert SlotAfter(r.first, k) == WentBack(r).current;
    assert r.slots[SlotAfter(r.first, k)] == h.visits[|h.visits| - Length(r) + k];
  }

  /** Forward is enabled exactly where it is on the ideal history; Back then undoes it. */
  lemma ForwardRefines(r: Ring, h: Ideal)
    requires Refines(r, h)
    ensures CanGoForward(r) <==> h.cursor + 1 < |h.visits|
    ensures Refines(WentForward(r), IdealStep(h, Forward))
    ensures CanGoForward(r) ==> WentBack(WentForward(r)) == r.(node := r.slots[r.current])
  {
    if CanGoForward(r) {
      var k := Distance(r.first, r.current) + 1;
      assert SlotAfter(r.first, k) == WentForward(r).current;
      assert r.slots[SlotAfter(r.first, k)] == h.visits[|h.visits| - Length(r) + k];
    }
  }

  /** Back is only used where the ring enables it; the ideal history may reach further back. */
  ghost predicate BackWhereEnabled(r: Ring, es: seq<Event>)
    requires r.Valid()
    decreases es
  {
    es == [] ||
    ((es[0].Back? ==> CanGoBack(r)) && BackWhereEnabled(Step(r, es[0]), es[1..]))
  }

  ghost predicate BelowTenWraps(r: Ring, es: seq<Event>)
    requires r.Valid()
    decreases es
  {
    r.first < SLOTS && (es == [] || BelowTenWraps(Step(r, es[0]), es[1..]))
  }

  /** Each event wraps once at most. */
  lemma {:induction false} ShortRunsBelow(r: Ring, es: seq<Event>)
    requires r.Valid() && r.first + |es| < SLOTS
    ensures BelowTenWraps(r, es)
    decreases es
  {
    if es != [] {
      ShortRunsBelow(Step(r, es[0]), es[1..]);
    }
  }

  lemma {:induction false} WithoutBackEnabled(r: Ring, es: seq<Event>)
    requires r.Valid() && forall e :: e in es ==> !e.Back?
    ensures BackWhereEnabled(r, es)
    decreases es
  {
    if es != [] {
      WithoutBackEnabled(Step(r, es[0]), es[1..]);
    }
  }

  /**
   In every run with fewer than ten wraps, in which Back is only used where it is enabled,
   the ring stays a suffix of the ideal history with the cursor inside it.
   */
  lemma {:induction false} RunRefines(r: Ring, h: Ideal, es: seq<Event>)
    requires Refines(r, h) && BelowTenWraps(r, es) && BackWhereEnabled(r, es)
    ensures Refines(Run(r, es), IdealRun(h, es))
    decreases es
  {
    if es != [] {
      var s := Step(r, es[0]);
      assert s.first < SLOTS;
      match es[0] {
        case Visit(n) => VisitRefines(r, h, n);
        case Back => BackRefines(r, h);
        case Forward => ForwardRefines(r, h);
        case Forget(n) =>
        case Substitute(n) =>
      }
      RunRefines(s, IdealStep(h, es[0]), es[1..]);
    }
  }

  lemma EveryRunRefines(es: seq<Event>)
    requires BelowTenWraps(EmptyRing(), es) && BackWhereEnabled(EmptyRing(), es)
    ensures Refines(Run(EmptyRing(), es), IdealRun(Ideal([], -1, None), es))
  {
    RunRefines(EmptyRing(), Ideal([], -1, None), es);
  }

  // ----- At ten wraps the bound is lost -------------------------------------------------------

  function Backs(r: Ring, n: nat): (s: Ring)
    requires r.Valid()
    ensures s.Valid()
  {
    if n == 0 then r else WentBack(Backs(r, n - 1))
  }

  lemma {:induction false} BacksBounded(r: Ring, n: nat)
    requires r.Valid() && 0 <= r.first < SLOTS
    ensures Backs(r, n).first == r.first
    ensures
      var d := Distance(r.first, r.current);
      Distance(r.first, Backs(r, n).current) == if n <= d then d - n else 0
  {
    if n > 0 {
      BacksBounded(r, n - 1);
    }
  }

  lemma {:induction false} BacksUnbounded(r: Ring, n: nat)
    requires r.Valid() && r.first >= SLOTS
    ensures Backs(r, n).first == r.first && CanGoBack(Backs(r, n))
    ensures Backs(r, n).current == (r.current - n) % SLOTS
  {
    if n > 0 {
      BacksUnbounded(r, n - 1);
      OneLess(r.current - (n - 1));
    }
  }

  lemma OneLess(x: int)
    ensures (x - 1) % SLOTS == if x % SLOTS == 0 then SLOTS - 1 else x % SLOTS - 1
  {
  }

  /** Using Back nine times or more ends at the oldest visit exactly below ten wraps. */
  lemma BackEndsExactly(r: Ring, n: nat)
    requires r.Valid() && r.first >= 0 && n >= SLOTS - 1
    ensures !CanGoBack(Backs(r, n)) <==> r.first < SLOTS
    ensures r.first >= SLOTS && n == SLOTS ==> Backs(r, n).current == r.current
  {
    if r.first < SLOTS {
      BacksBounded(r, n);
    } else {
      BacksUnbounded(r, n);
    }
  }

  function IdealBacks(h: Ideal, n: nat): (s: Ideal)
    requires h.Valid()
    ensures s.Valid() && s.visits == h.visits
    ensures s.cursor == if h.cursor < 0 then h.cursor else if n <= h.cursor then h.cursor - n else 0
  {
    if n == 0 then h else IdealStep(IdealBacks(h, n - 1), Back)
  }

  /** From ten wraps on the ring goes back where any history of visits has come to its start. */
  lemma NoHistoryFits(r: Ring, h: Ideal)
    requires r.Valid() && h.Valid() && r.first >= SLOTS && h.cursor >= 0
    ensures CanGoBack(Backs(r, h.cursor)) && IdealBacks(h, h.cursor).cursor == 0
  {
    BacksUnbounded(r, h.cursor);
  }

  lemma {:induction false} RunAppend(r: Ring, es: seq<Event>, e: Event)
    requires r.Valid()
    ensures Run(r, es + [e]) == Step(Run(r, es), e)
    decreases es
  {
    if es == [] {
      assert Run(r, [e]) == Run(Step(r, e), []);
    } else {
      RunAppend(Step(r, es[0]), es[1..], e);
      assert (es + [e])[1..] == es[1..] + [e];
    }
  }

  /** Ten wraps do occur: visit eleven nodes, then nine times go back and visit another. */
  lemma TenWrapsReached() returns (es: seq<Event>)
    ensures Run(EmptyRing(), es).first == SLOTS
  {
    es := [];
    var k := 0;
    while k < 11
      invariant 0 <= k <= 11
      invariant var r := Run(EmptyRing(), es);
                if k == 0 then r == EmptyRing()
                else r.node == Some(k) && r.first == (if k == 11 then 1 else 0) && r.current == (k - 1) % SLOTS
    {
      RunAppend(EmptyRing(), es, Visit(Some(k + 1)));
      es := es + [Visit(Some(k + 1))];
      k := k + 1;
    }
    while k < 20
      invariant 11 <= k <= 20
      invariant var r := Run(EmptyRing(), es); r.first == k - 10 && r.current == 0
    {
      RunAppend(EmptyRing(), es, Back);
      es := es + [Back];
      var shown := Run(EmptyRing(), es).node;
      var next := if shown == Some(0) then Some(1) else Some(0);
      RunAppend(EmptyRing(), es, Visit(next));
      es := es + [Visit(next)];
      k := k + 1;
    }
  }

  // ----- No leftover is ever shown ---------------------------------------------------------

  /** The visits recorded since they were last forgotten. */
  ghost function Recorded(r: Ring, recorded: set<Option<Node>>, e: Event): set<Option<Node>> {
    match e
    case Visit(n) => if n == None || n == r.node then recorded else recorded + {n}
    case Forget(_) => {}
    case _ => recorded
  }

  ghost function RecordedBy(r: Ring, recorded: set<Option<Node>>, es: seq<Event>): set<Option<Node>>
    requires r.Valid()
    decreases es
  {
    if es == [] then recorded else RecordedBy(Step(r, es[0]), Recorded(r, recorded, es[0]), es[1..])
  }

  /** Before the first wrap the slots up to the last, afterwards all slots, hold recorded visits. */
  ghost predicate OnlyRecorded(r: Ring, recorded: set<Option<Node>>) {
    && r.Valid()
    && (r.first == 0 ==> r.current <= r.last && forall i :: 0 <= i <= r.last ==> r.slots[i] in recorded)
    && (r.first > 0 ==> forall i :: 0 <= i < SLOTS ==> r.slots[i] in recorded)
  }

  lemma {:induction false} RunOnlyRecorded(r: Ring, recorded: set<Option<Node>>, es: seq<Event>)
    requires OnlyRecorded(r, recorded)
    ensures OnlyRecorded(Run(r, es), RecordedBy(r, recorded, es))
    decreases es
  {
    if es != [] {
      RunOnlyRecorded(Step(r, es[0]), Recorded(r, recorded, es[0]), es[1..]);
    }
  }

  /**
   In every run, however often the index wraps, an enabled Back or Forward shows a node
   recorded since the visits were last forgotten, never a leftover of an earlier period.
   */
  lemma ButtonsShowRecorded(es: seq<Event>)
    ensures
      var r := Run(EmptyRing(), es);
      var recorded := RecordedBy(EmptyRing(), {}, es);
      && (CanGoBack(r) ==> WentBack(r).node in recorded)
      && (CanGoForward(r) ==> WentForward(r).node in recorded)
      && (r.current == -1 || 0 <= r.current < SLOTS)
  {
    RunOnlyRecorded(EmptyRing(), {}, es);
  }
}
