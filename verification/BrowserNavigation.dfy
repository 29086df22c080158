/**
 Navigation in the web client.  A collection path can be entered through the grid, through
 the directory tree or through the browser's own history.  The three are kept in step by
 calls that re-enter each other: going to a path writes the location and updates the grid,
 the grid updates the tree, and selecting a tree node goes to its path again.  A poll picks
 up locations that the browser changed by itself.

 The history module holds its state in encoded form, locations are arbitrary texts, and grid
 and tree hold paths.
 */
module BrowserNavigation {
  import opened Sequences
  import opened TextCodec
  import HistoryManager
  import HistoryLaws
  import HistoryTexts

  type Path = Text

  /** The text after the number sign, if there is one. */
  type Location = Option<Text>

  /** The page registers one module, under the name "ruri". */
  const RURI: Text := [114, 117, 114, 105]

  datatype Browser = Browser(
    entries: seq<Location>,   // the session history of the browser window
    pos: nat,                 // the entry the window shows
    hash: Location,           // the location the last poll saw
    counter: nat,             // the history length the last poll saw
    initial: Text,            // the states of the history module
    current: Text,
    grid: Path,
    tree: Path,
    selected: Option<Path>)   // the node the tree control highlights
  {
    predicate Valid() { pos < |entries| }

    function Shown(): Location
      requires Valid()
    {
      entries[pos]
    }

    function Ruri(): HistoryManager.Module { HistoryManager.Module(RURI, initial, current) }

    /** The path the history module stands for. */
    function State(): Path { Unescape(current) }

    /** The state a location asks for. */
    function Asked(location: Location): Text { HistoryManager.NewState(Ruri(), HistoryManager.VisitText(location)) }
  }

  /** The location text a navigation writes. */
  function Printed(p: Path): Text { HistoryManager.PairText(RURI, Escape(p)) }

  /** The part before the first slash names the account. */
  function Account(p: Path): Path {
    if p == [] || 47 !in p then []
    else if p[0] == 47 then [] else [p[0]] + Account(p[1..])
  }

  /** Without a slash there is no account. */
  lemma {:induction false} AccountExactly(p: Path)
    ensures 47 !in p ==> Account(p) == []
    ensures 47 in p ==> 47 !in Account(p) && Account(p) + [47] <= p
  {
    if 47 in p && p[0] != 47 {
      AccountExactly(p[1..]);
      assert p == [p[0]] + p[1..];
      assert Account(p) + [47] == [p[0]] + (Account(p[1..]) + [47]);
    }
  }

  lemma AccountIs(p: Path, a: Path)
    requires 47 !in a && (a + [47] <= p || (a == [] && 47 !in p))
    ensures Account(p) == a
  {
    AccountExactly(p);
    if a + [47] <= p {
      FirstSlash(p, a, a);
      FirstSlash(p, a, Account(p));
      FirstSlash(p, Account(p), a);
      assert a == p[..|a|] && Account(p) == p[..|a|];
    }
  }

  lemma FirstSlash(p: Path, a: Path, c: Path)
    requires 47 !in a && a + [47] <= p && c + [47] <= p
    ensures |a| <= |c| && 47 in p
  {
    assert p[|c|] == (c + [47])[|c|];
    assert forall k :: 0 <= k < |a| ==> p[k] == a[k] && a[k] in a;
  }

  /** Writing the location adds a history entry unless the window already shows it. */
  function Written(b: Browser, p: Path): (a: Browser)
    requires b.Valid()
    ensures a.Valid()
  {
    if b.Shown() == Some(Printed(p)) then b
    else b.(entries := b.entries[..b.pos + 1] + [Some(Printed(p))], pos := b.pos + 1)
  }

  /** Selecting a node that exists and is not selected yet. */
  function Selected(b: Browser, p: Path, nodes: set<Path>): (a: Browser)
    requires b.Valid()
    ensures a.Valid()
  {
    if p in nodes && b.selected != Some(p)
    then
      var marked := b.(selected := Some(p));
      if b.State() != p then Written(marked, p) else marked
    else b
  }

  function TreeUpdated(b: Browser, p: Path, nodes: set<Path>): (a: Browser)
    requires b.Valid()
    ensures a.Valid()
  {
    if p == b.tree then b
    else if Account(p) == Account(b.tree) then Selected(b, p, nodes).(tree := p)
    else Selected(b.(tree := p, selected := None), p, nodes)
  }

  function GridUpdated(b: Browser, p: Path, nodes: set<Path>): (a: Browser)
    requires b.Valid()
    ensures a.Valid()
  {
    if p == b.grid then b else TreeUpdated(b.(grid := p), p, nodes)
  }

  function WentTo(b: Browser, p: Path, nodes: set<Path>): (a: Browser)
    requires b.Valid()
    ensures a.Valid()
  {
    if b.State() == p then b else GridUpdated(Written(b, p), p, nodes)
  }

  function LocationHandled(b: Browser, location: Location, nodes: set<Path>): (a: Browser)
    requires b.Valid()
    ensures a.Valid()
  {
    if HistoryManager.Notifies(b.Ruri(), HistoryManager.VisitText(location))
    then GridUpdated(b.(current := b.Asked(location)), Unescape(b.Asked(location)), nodes)
    else b
  }

  /** These browsers keep no list of visited states, so a changed length alone asks for nothing. */
  function Polled(b: Browser, nodes: set<Path>): (a: Browser)
    requires b.Valid()
    ensures a.Valid()
  {
    if b.Shown() != b.hash then
      LocationHandled(b.(hash := b.Shown(), counter := |b.entries|), b.Shown(), nodes)
    else if |b.entries| != b.counter then
      LocationHandled(b.(counter := |b.entries|), None, nodes)
    else b
  }

  /** The path a page opens with: the bookmarked one, or else the one of the query or the default. */
  function FirstPath(location: Location, fallback: Path): Path {
    match HistoryManager.Bookmarked(Split(HistoryManager.VisitText(location), AMPERSAND), RURI)
    case Some(p) => if p == [] then fallback else p
    case None => fallback
  }

  /** A page that is opened or comes back: grid and tree start from the first path, the module as it was stored. */
  function Opened(entries: seq<Location>, pos: nat, storage: Text, fallback: Path): (b: Browser)
    requires pos < |entries|
    ensures b.Valid()
  {
    var first := FirstPath(entries[pos], fallback);
    var m := HistoryManager.Restored([HistoryManager.Module(RURI, Escape(first), Escape(first))], storage)[0];
    Browser(entries, pos, entries[pos], |entries|, m.initial, m.current, first, first, None)
  }

  // ----- The page object: the call chain itself ------------------------------------------

  class Page {
    const nodes: set<Path>
    var entries: seq<Location>
    var pos: nat
    var hash: Location
    var counter: nat
    var initial: Text
    var current: Text
    var grid: Path
    var tree: Path
    var selected: Option<Path>

    ghost function View(): Browser
      reads this
    {
      Browser(entries, pos, hash, counter, initial, current, grid, tree, selected)
    }

    ghost predicate Valid()
      reads this
    {
      pos < |entries|
    }

    /** Opening ends with a call to go to the state of the history module, which that state prevents. */
    constructor (entries: seq<Location>, pos: nat, storage: Text, fallback: Path, nodes: set<Path>)
      requires pos < |entries|
      ensures Valid() && this.nodes == nodes && View() == Opened(entries, pos, storage, fallback)
    {
      var first := FirstPath(entries[pos], fallback);
      var m := HistoryManager.Restored([HistoryManager.Module(RURI, Escape(first), Escape(first))], storage)[0];
      this.nodes, this.entries, this.pos := nodes, entries, pos;
      hash, counter := entries[pos], |entries|;
      initial, current := m.initial, m.current;
      grid, tree, selected := first, first, None;
      new;
      if HistoryManager.VisitText(hash) != [] {
        AllGoTo(Unescape(current));
      }
    }

    /** The entry point for links, buttons and tree selections. */
    method AllGoTo(p: Path)
      requires Valid()
      modifies this
      ensures Valid() && View() == WentTo(old(View()), p, nodes) == Step(old(View()), GoTo(p), nodes)
      decreases if grid == p then 0 else 1, 4
    {
      if Unescape(current) != p {
        Navigate(p);
        GridGoTo(p);
      }
    }

    /** Assigning the location of the window. */
    method Navigate(p: Path)
      requires Valid()
      modifies `entries, `pos
      ensures Valid() && View() == Written(old(View()), p)
    {
      if entries[pos] != Some(Printed(p)) {
        entries, pos := entries[..pos + 1] + [Some(Printed(p))], pos + 1;
      }
    }

    method GridGoTo(p: Path)
      requires Valid()
      modifies this
      ensures Valid() && View() == GridUpdated(old(View()), p, nodes)
      decreases if grid == p then 0 else 1, 3
    {
      if p != grid {
        grid := p;
        TreeGoTo(p);
      }
    }

    method TreeGoTo(p: Path)
      requires Valid() && grid == p
      modifies this
      ensures Valid() && View() == TreeUpdated(old(View()), p, nodes)
      ensures tree == p && (p != old(tree) && p in nodes ==> selected == Some(p))
      decreases 0, 6
    {
      if p != tree {
        if Account(p) == Account(tree) {
          SelectPath(p);
          tree := p;
        } else {
          tree, selected := p, None;
          SelectPath(p);
        }
      }
    }

    /** The selection listener goes to the path of the node that was selected. */
    method SelectPath(p: Path)
      requires Valid() && grid == p
      modifies this
      ensures Valid() && View() == Selected(old(View()), p, nodes)
      decreases 0, 5
    {
      if p in nodes && selected != Some(p) {
        selected := Some(p);
        AllGoTo(p);
      }
    }

    /** The user selects a node. */
    method ClickNode(p: Path)
      requires Valid()
      modifies this
      ensures Valid() && View() == Step(old(View()), Click(p), nodes)
    {
      if p in nodes && selected != Some(p) {
        selected := Some(p);
        AllGoTo(p);
      }
    }

    method Handle(location: Location)
      requires Valid()
      modifies this
      ensures Valid() && View() == LocationHandled(old(View()), location, nodes)
    {
      var m, fq := HistoryManager.Module(RURI, initial, current), HistoryManager.VisitText(location);
      if HistoryManager.Notifies(m, fq) {
        current := HistoryManager.NewState(m, fq);
        GridGoTo(Unescape(current));
      }
    }

    method Poll()
      requires Valid()
      modifies this
      ensures Valid() && View() == Polled(old(View()), nodes) == Step(old(View()), Event.Poll, nodes)
    {
      if entries[pos] != hash {
        hash, counter := entries[pos], |entries|;
        Handle(hash);
      } else if |entries| != counter {
        counter := |entries|;
        Handle(None);
      }
    }
  }

  // ----- The history module behind the page ---------------------------------------------------

  /** Navigating the module writes the printed path, and different paths differ in it. */
  lemma LocationTextExact(b: Browser, p: Path, q: Path)
    ensures HistoryManager.NavigationText([b.Ruri()], RURI, Escape(p)) == Printed(p) != []
    ensures Printed(p) == [114, 117, 114, 105, 61] + Escape(p)
    ensures Printed(p) == Printed(q) <==> p == q
  {
    UnescapeEscape(p);
    UnescapeEscape(q);
    assert Printed(p)[5..] == Escape(p) && Printed(q)[5..] == Escape(q);
  }

  /** A printed path is bookmarked as itself, and asks for itself unless it is empty. */
  lemma PrintedAsks(b: Browser, p: Path)
    ensures HistoryManager.Bookmarked(Split(Printed(p), AMPERSAND), RURI) == Some(p)
    ensures p != [] ==> b.Asked(Some(Printed(p))) == Escape(p) && Unescape(b.Asked(Some(Printed(p)))) == p
    ensures p != [] && b.State() != p ==> HistoryManager.Notifies(b.Ruri(), Printed(p))
  {
    HistoryLaws.EscapeIsClean(p);
    EscapeEmpty(p);
    UnescapeEscape(p);
    SplitNone(Printed(p), AMPERSAND);
    HistoryLaws.PairTokens(RURI, Escape(p));
    var parts := [Printed(p)];
    assert HistoryManager.LastValue(parts, RURI, true) == Some(Escape(p));
  }

  /** Handling any location, however written, is what the history manager does with its one module. */
  lemma HandlingIsExact(b: Browser, location: Location, nodes: set<Path>)
    requires b.Valid() && b.grid == b.tree
    ensures
      var a, fq := LocationHandled(b, location, nodes), HistoryManager.VisitText(location);
      && HistoryManager.Handled([b.Ruri()], fq) == [a.Ruri()]
      && HistoryManager.Notices([b.Ruri()], fq) ==
         if HistoryManager.Notifies(b.Ruri(), fq) then [HistoryManager.Notice(RURI, a.grid)] else []
  {
    var ms, fq := [b.Ruri()], HistoryManager.VisitText(location);
    HandledShows(b, location, nodes);
    HistoryManager.LastNotice(ms, fq, 0);
    assert ms[..0] == [] && ms[..1] == ms;
    HandledLast(b, location);
  }

  /** Not being notified means that the state asked for is the one held. */
  lemma HandledLast(b: Browser, location: Location)
    ensures !HistoryManager.Notifies(b.Ruri(), HistoryManager.VisitText(location)) ==> b.Asked(location) == b.current
    ensures HistoryManager.Handled([b.Ruri()], HistoryManager.VisitText(location)) ==
            [b.(current := b.Asked(location)).Ruri()]
  {
  }

  // ----- Grid and tree ---------------------------------------------------------------------

  /** Once the location shows the path, updating the grid writes nothing more. */
  lemma {:induction false} GridUpdates(b: Browser, p: Path, nodes: set<Path>)
    requires b.Valid() && b.grid == b.tree && b.Shown() == Some(Printed(p))
    ensures
      var a := GridUpdated(b, p, nodes);
      a == b.(grid := p, tree := p, selected := a.selected)
  {
  }

  lemma {:induction false} WentToShows(b: Browser, p: Path, nodes: set<Path>)
    requires b.Valid() && b.grid == b.tree
    ensures
      var a := WentTo(b, p, nodes);
      && a.Valid() && a.grid == a.tree
      && a.hash == b.hash && a.counter == b.counter && a.initial == b.initial && a.current == b.current
      && a.grid == (if b.State() == p then b.grid else p)
      && (b.State() != p ==> a.Shown() == Some(Printed(p)))
      && (b.State() == p ==> a.entries == b.entries && a.pos == b.pos)
      && (b.State() != p ==>
            if b.Shown() == Some(Printed(p)) then a.entries == b.entries && a.pos == b.pos
            else a.entries == b.entries[..b.pos + 1] + [Some(Printed(p))] && a.pos == b.pos + 1)
  {
    GridUpdates(Written(b, p), p, nodes);
  }

  lemma {:induction false} HandledShows(b: Browser, location: Location, nodes: set<Path>)
    requires b.Valid() && b.grid == b.tree
    ensures
      var a := LocationHandled(b, location, nodes);
      && a.Valid() && a.grid == a.tree
      && a.entries == b.entries && a.pos == b.pos && a.hash == b.hash && a.counter == b.counter
      && a.initial == b.initial && a.current == b.Asked(location)
      && (if HistoryManager.Notifies(b.Ruri(), HistoryManager.VisitText(location))
          then a.grid == Unescape(b.Asked(location))
          else a == b)
  {
    HandledLast(b, location);
  }

  datatype Event = GoTo(p: Path) | Click(p: Path) | TravelTo(pos: nat) | Poll

  function Step(b: Browser, e: Event, nodes: set<Path>): (a: Browser)
    requires b.Valid()
    ensures a.Valid()
  {
    match e
    case GoTo(p) => WentTo(b, p, nodes)
    case Click(p) =>
      if p in nodes && b.selected != Some(p) then WentTo(b.(selected := Some(p)), p, nodes) else b
    case TravelTo(pos) => if pos < |b.entries| then b.(pos := pos) else b
    case Poll => Polled(b, nodes)
  }

  lemma StepShows(b: Browser, e: Event, nodes: set<Path>)
    requires b.Valid() && b.grid == b.tree
    ensures Step(b, e, nodes).Valid() && Step(b, e, nodes).grid == Step(b, e, nodes).tree
  {
    match e
    case GoTo(p) => WentToShows(b, p, nodes);
    case Click(p) => WentToShows(b.(selected := Some(p)), p, nodes);
    case TravelTo(pos) =>
    case Poll =>
      if b.Shown() != b.hash {
        HandledShows(b.(hash := b.Shown(), counter := |b.entries|), b.Shown(), nodes);
      } else if |b.entries| != b.counter {
        HandledShows(b.(counter := |b.entries|), None, nodes);
      }
  }

  /** The state after a run of events, each handled to its end. */
  ghost function Run(b: Browser, es: seq<Event>, nodes: set<Path>): Browser
    requires b.Valid() && b.grid == b.tree
    ensures Run(b, es, nodes).Valid()
    decreases es
  {
    if es == [] then b
    else
      StepShows(b, es[0], nodes);
      Run(Step(b, es[0], nodes), es[1..], nodes)
  }

  /** In every interleaving grid and tree show the same path between top-level calls. */
  lemma {:induction false} GridAndTreeAgree(b: Browser, es: seq<Event>, nodes: set<Path>)
    requires b.Valid() && b.grid == b.tree
    ensures Run(b, es, nodes).grid == Run(b, es, nodes).tree
    decreases es
  {
    if es != [] {
      StepShows(b, es[0], nodes);
      GridAndTreeAgree(Step(b, es[0], nodes), es[1..], nodes);
    }
  }

  // ----- The selection ----------------------------------------------------------------------

  /**
   A new path selects its node.  Without a node for it the selection stays within the account, the text before
   the first slash, and is lost with the tree of another account.
   */
  lemma TreeSelects(b: Browser, p: Path, nodes: set<Path>, a: Path, c: Path)
    requires b.Valid() && p != b.tree
    requires 47 !in a && (a + [47] <= p || (a == [] && 47 !in p))
    requires 47 !in c && (c + [47] <= b.tree || (c == [] && 47 !in b.tree))
    ensures TreeUpdated(b, p, nodes).selected ==
            if p in nodes then Some(p) else if a == c then b.selected else None
  {
    AccountIs(p, a);
    AccountIs(b.tree, c);
  }

  /** So does going to another path; going to the path shown, or the one the module holds, leaves the selection. */
  lemma WentToSelects(b: Browser, p: Path, nodes: set<Path>, a: Path, c: Path)
    requires b.Valid() && b.grid == b.tree
    requires 47 !in a && (a + [47] <= p || (a == [] && 47 !in p))
    requires 47 !in c && (c + [47] <= b.grid || (c == [] && 47 !in b.grid))
    ensures WentTo(b, p, nodes).selected ==
            if p == b.grid || p == b.State() then b.selected
            else if p in nodes then Some(p) else if a == c then b.selected else None
  {
    if p != b.grid && p != b.State() {
      TreeSelects(Written(b, p).(grid := p), p, nodes, a, c);
    }
  }

  lemma NodeSelected(b: Browser, p: Path, nodes: set<Path>)
    requires b.Valid() && b.grid == b.tree && p in nodes && p != b.grid && p != b.State()
    ensures WentTo(b, p, nodes).selected == Some(p)
  {
  }

  /** Exactly when a click leads to the node: it is shown already, or neither selected nor held by the module. */
  lemma {:induction false} ClickExactly(b: Browser, q: Path, nodes: set<Path>)
    requires b.Valid() && b.grid == b.tree
    ensures
      var a := Step(b, Click(q), nodes);
      && (a.grid == q <==> b.grid == q || (q in nodes && b.selected != Some(q) && b.State() != q))
      && (q in nodes ==> a.selected == Some(q)) && (q !in nodes ==> a == b)
  {
    if q in nodes && b.selected != Some(q) {
      var marked := b.(selected := Some(q));
      WentToShows(marked, q, nodes);
      if q != b.grid && q != b.State() {
        NodeSelected(marked, q, nodes);
      }
    }
  }

  /** What a poll does to a page; when it does not notify, the selection stays as well. */
  lemma PolledExactly(b: Browser, nodes: set<Path>)
    requires b.Valid() && b.grid == b.tree
    ensures
      var a := Polled(b, nodes);
      && a.entries == b.entries && a.pos == b.pos && a.initial == b.initial
      && a.hash == b.Shown() && a.counter == |b.entries|
      && a.current == (if b.Shown() != b.hash then b.Asked(b.Shown())
                       else if |b.entries| != b.counter then b.initial else b.current)
      && a.grid == a.tree == (if PollNotifies(b) then a.State() else b.grid)
      && (!PollNotifies(b) ==> a.selected == b.selected)
  {
    if b.Shown() != b.hash {
      HandledShows(b.(hash := b.Shown(), counter := |b.entries|), b.Shown(), nodes);
    } else if |b.entries| != b.counter {
      HandledShows(b.(counter := |b.entries|), None, nodes);
    }
  }

  /** After going to a node and polling, a click on any other node goes to that one. */
  lemma {:induction false} ClickAfterVisit(b: Browser, p: Path, q: Path, nodes: set<Path>)
    requires Settled(b) && p != [] && p != b.grid && p in nodes && q in nodes && q != p
    ensures
      var a := Polled(WentTo(b, p, nodes), nodes);
      a.selected == Some(p) && a.grid == p && Step(a, Click(q), nodes).grid == q
  {
    var w := WentTo(b, p, nodes);
    PrintedAsks(b, p);
    WentToShows(b, p, nodes);
    NodeSelected(b, p, nodes);
    VisitPolled(b, p, nodes);
    ClickExactly(Polled(w, nodes), q, nodes);
  }

  /** The poll finds the node of a visit selected, and grid and tree at its path. */
  lemma VisitPolled(b: Browser, p: Path, nodes: set<Path>)
    requires Settled(b) && p != [] && p != b.grid
    ensures
      var w := WentTo(b, p, nodes);
      var a := Polled(w, nodes);
      a == w.(hash := w.Shown(), counter := |w.entries|, current := Escape(p)) && a.State() == a.grid == p
  {
    var w := WentTo(b, p, nodes);
    PrintedAsks(b, p);
    PrintedAsks(w, p);
    WentToShows(b, p, nodes);
    UnescapeEscape(p);
  }

  // ----- The poll ---------------------------------------------------------------------------

  predicate Agrees(b: Browser) { b.State() == b.grid == b.tree }

  /** The poll will call the state-change function. */
  predicate PollNotifies(b: Browser)
    requires b.Valid()
  {
    if b.Shown() != b.hash then HistoryManager.Notifies(b.Ruri(), HistoryManager.VisitText(b.Shown()))
    else |b.entries| != b.counter
  }

  /** Exactly when history, grid and tree agree after a poll. */
  lemma PollAgreesExactly(b: Browser, nodes: set<Path>)
    requires b.Valid() && b.grid == b.tree
    ensures Agrees(Polled(b, nodes)) <==> PollNotifies(b) || b.grid == b.State()
  {
    if b.Shown() != b.hash {
      HandledShows(b.(hash := b.Shown(), counter := |b.entries|), b.Shown(), nodes);
    } else if |b.entries| != b.counter {
      HandledShows(b.(counter := |b.entries|), None, nodes);
    }
  }

  /** The location the last poll saw asks for the state of the history module. */
  predicate InStep(b: Browser) { Unescape(b.Asked(b.hash)) == b.State() }

  /** Nothing was navigated since the last poll; the window may show any history entry. */
  ghost predicate Idle(b: Browser) {
    b.Valid() && Agrees(b) && |b.entries| == b.counter && InStep(b)
  }

  /** The page went to a path that the next poll has yet to see. */
  ghost predicate Pending(b: Browser) {
    && b.Valid() && b.grid == b.tree && b.grid != b.State() && b.grid != []
    && b.Shown() == Some(Printed(b.grid)) && InStep(b)
  }

  /** After a poll: everything agrees, also with the location shown. */
  ghost predicate Settled(b: Browser) { Idle(b) && b.Shown() == b.hash }

  /** No path is empty, and the history is not moved in while a navigation is pending. */
  ghost predicate Orderly(b: Browser, e: Event) {
    match e
    case GoTo(p) => p != []
    case Click(p) => p != []
    case TravelTo(_) => Agrees(b)
    case Poll => true
  }

  lemma PollSettles(b: Browser, nodes: set<Path>)
    requires Idle(b) || Pending(b)
    ensures Settled(Polled(b, nodes))
  {
    if Pending(b) {
      PrintedAsks(b, b.grid);
    }
    if b.Shown() != b.hash {
      var seen := b.(hash := b.Shown(), counter := |b.entries|);
      HandledShows(seen, b.Shown(), nodes);
      assert b.Asked(b.Shown()) == seen.Asked(b.Shown()) == LocationHandled(seen, b.Shown(), nodes).Asked(b.Shown());
    }
  }

  lemma OrderlyStep(b: Browser, e: Event, nodes: set<Path>)
    requires (Idle(b) || Pending(b)) && Orderly(b, e)
    ensures
      var a := Step(b, e, nodes);
      && (Idle(a) || Pending(a))
      && (e == Poll ==> Settled(a))
  {
    match e
    case GoTo(p) => WentToShows(b, p, nodes);
    case Click(p) => WentToShows(b.(selected := Some(p)), p, nodes);
    case TravelTo(pos) =>
    case Poll => PollSettles(b, nodes);
  }

  ghost predicate OrderlyRun(b: Browser, es: seq<Event>, nodes: set<Path>)
    requires b.Valid() && b.grid == b.tree
    decreases es
  {
    es == [] ||
    (StepShows(b, es[0], nodes);
     Orderly(b, es[0]) && OrderlyRun(Step(b, es[0], nodes), es[1..], nodes))
  }

  /**
   From an idle or pending page, in every interleaving in which the history is not moved in between a
   navigation and the next poll, each poll leaves history state, grid, tree and location in agreement.
   */
  lemma {:induction false} EveryPollSettles(b: Browser, es: seq<Event>, nodes: set<Path>)
    requires Idle(b) || Pending(b)
    requires OrderlyRun(b, es, nodes)
    ensures
      var a := Run(b, es, nodes);
      && (Idle(a) || Pending(a))
      && Settled(Polled(a, nodes))
    decreases es
  {
    if es == [] {
      PollSettles(b, nodes);
    } else {
      OrderlyStep(b, es[0], nodes);
      EveryPollSettles(Step(b, es[0], nodes), es[1..], nodes);
    }
  }

  // ----- Agreement without regard to the location ---------------------------------------------

  /** The location the last poll saw is none that a navigation away from the state would write. */
  ghost predicate NavigationsSeen(b: Browser) {
    forall p :: p != [] && b.hash == Some(Printed(p)) ==> p == b.State()
  }

  lemma InStepSees(b: Browser)
    requires InStep(b)
    ensures NavigationsSeen(b)
  {
    forall p | p != [] && b.hash == Some(Printed(p)) ensures p == b.State() {
      PrintedAsks(b, p);
    }
  }

  /** Nothing was navigated since the last poll, whatever the location asks for. */
  ghost predicate Quiet(b: Browser) {
    b.Valid() && Agrees(b) && |b.entries| == b.counter && NavigationsSeen(b)
  }

  /** The page went to a path that the next poll will see. */
  ghost predicate Underway(b: Browser) {
    && b.Valid() && b.grid == b.tree && b.grid != b.State() && b.grid != []
    && b.Shown() == Some(Printed(b.grid)) && NavigationsSeen(b)
  }

  lemma PollQuiets(b: Browser, nodes: set<Path>)
    requires Quiet(b) || Underway(b)
    ensures Quiet(Polled(b, nodes))
  {
    if b.Shown() != b.hash {
      var seen := b.(hash := b.Shown(), counter := |b.entries|);
      HandledShows(seen, b.Shown(), nodes);
      if Underway(b) {
        PrintedAsks(seen, b.grid);
      }
      var a := LocationHandled(seen, b.Shown(), nodes);
      assert a.Asked(b.Shown()) == seen.Asked(b.Shown()) == a.current;
      InStepSees(a);
    }
  }

  lemma AgreeingStep(b: Browser, e: Event, nodes: set<Path>)
    requires (Quiet(b) || Underway(b)) && Orderly(b, e)
    ensures Quiet(Step(b, e, nodes)) || Underway(Step(b, e, nodes))
  {
    match e
    case GoTo(p) => WentToShows(b, p, nodes);
    case Click(p) => WentToShows(b.(selected := Some(p)), p, nodes);
    case TravelTo(pos) =>
    case Poll => PollQuiets(b, nodes);
  }

  /** From such a page, each poll of an orderly run leaves history state, grid and tree in agreement. */
  lemma {:induction false} EveryPollAgrees(b: Browser, es: seq<Event>, nodes: set<Path>)
    requires Quiet(b) || Underway(b)
    requires OrderlyRun(b, es, nodes)
    ensures Agrees(Polled(Run(b, es, nodes), nodes))
    decreases es
  {
    if es == [] {
      PollQuiets(b, nodes);
    } else {
      AgreeingStep(b, es[0], nodes);
      EveryPollAgrees(Step(b, es[0], nodes), es[1..], nodes);
    }
  }

  // ----- How a page starts ----------------------------------------------------------------------

  /** The poll has just begun. */
  ghost predicate Begun(b: Browser) {
    b.Valid() && b.grid == b.tree && b.hash == b.Shown() && b.counter == |b.entries|
  }

  ghost predicate SettlesAfter(b: Browser, es: seq<Event>, nodes: set<Path>)
    requires b.Valid() && b.grid == b.tree
  {
    OrderlyRun(b, es, nodes) ==> Settled(Polled(Run(b, es, nodes), nodes))
  }

  ghost predicate AgreesAfter(b: Browser, es: seq<Event>, nodes: set<Path>)
    requires b.Valid() && b.grid == b.tree
  {
    OrderlyRun(b, es, nodes) ==> Agrees(Polled(Run(b, es, nodes), nodes))
  }

  lemma AtOnce(b: Browser, nodes: set<Path>)
    requires Begun(b)
    ensures SettlesAfter(b, [], nodes) <==> Agrees(b) && InStep(b)
    ensures AgreesAfter(b, [], nodes) <==> Agrees(b)
  {
    assert Run(b, [], nodes) == b == Polled(b, nodes);
  }

  /**
   Exactly from which starts every orderly run settles at each poll: state, grid and tree agree
   and the location seen asks for the state.
   */
  lemma SettlesFromExactly(b: Browser, nodes: set<Path>)
    requires Begun(b)
    ensures (forall es :: SettlesAfter(b, es, nodes)) <==> Agrees(b) && InStep(b)
  {
    AtOnce(b, nodes);
    if Agrees(b) && InStep(b) {
      forall es ensures SettlesAfter(b, es, nodes) {
        if OrderlyRun(b, es, nodes) {
          EveryPollSettles(b, es, nodes);
        }
      }
    }
  }

  /**
   Exactly from which starts every orderly run agrees at each poll, whatever the location then asks for:
   state, grid and tree agree, and the location is not the one printed for another path.
   */
  lemma AgreesFromExactly(b: Browser, nodes: set<Path>)
    requires Begun(b)
    ensures (forall es :: AgreesAfter(b, es, nodes)) <==> Agrees(b) && NavigationsSeen(b)
  {
    AtOnce(b, nodes);
    if Agrees(b) && NavigationsSeen(b) {
      forall es ensures AgreesAfter(b, es, nodes) {
        if OrderlyRun(b, es, nodes) {
          EveryPollAgrees(b, es, nodes);
        }
      }
    } else if Agrees(b) {
      var p :| p != [] && b.hash == Some(Printed(p)) && p != b.State();
      OneNavigation(b, p, nodes);
    }
  }

  lemma OneNavigation(b: Browser, p: Path, nodes: set<Path>)
    requires Begun(b) && Agrees(b) && p != [] && b.hash == Some(Printed(p)) && p != b.State()
    ensures !AgreesAfter(b, [GoTo(p)], nodes)
  {
    var a := Step(b, GoTo(p), nodes);
    IgnoredNavigation(b, p, nodes);
    StepShows(b, GoTo(p), nodes);
    assert [GoTo(p)][1..] == [];
    assert OrderlyRun(a, [], nodes) && OrderlyRun(b, [GoTo(p)], nodes);
    assert Run(b, [GoTo(p)], nodes) == Run(a, [], nodes) == a;
  }

  /** An opened page shows the path of a printed location. */
  lemma OpenedShowsLocation(entries: seq<Location>, pos: nat, storage: Text, fallback: Path, p: Path)
    requires pos < |entries| && p != [] && entries[pos] == Some(Printed(p))
    ensures Opened(entries, pos, storage, fallback).grid == p
  {
    PrintedAsks(Opened(entries, pos, storage, fallback), p);
  }

  /** A page opens with the path that the first part of the location for the module stands for, or else the fallback. */
  lemma OpenedExactly(entries: seq<Location>, pos: nat, storage: Text, fallback: Path)
    requires pos < |entries|
    ensures
      var b := Opened(entries, pos, storage, fallback);
      var parts := Split(if entries[pos].Some? then entries[pos].value else [], 38);
      && b.entries == entries && b.pos == pos && b.hash == entries[pos] && b.counter == |entries|
      && b.selected == None && b.tree == b.grid
      && (forall v :: HistoryTexts.GivenFirst(parts, RURI, v) ==> b.grid == if v == [] then fallback else Unescape(v))
      && ((forall i, v :: 0 <= i < |parts| ==> !HistoryTexts.Gives(parts[i], RURI, v, true)) ==> b.grid == fallback)
  {
    HistoryTexts.BookmarkedExactly(Split(HistoryManager.VisitText(entries[pos]), AMPERSAND), RURI);
  }

  /**
   Exactly which opened pages, with whatever stored states and at whatever location, agree at each poll of
   every orderly run: those whose module starts in the state that grid and tree show.
   */
  lemma OpenedAgreesExactly(entries: seq<Location>, pos: nat, storage: Text, fallback: Path, nodes: set<Path>)
    requires pos < |entries|
    ensures
      var b := Opened(entries, pos, storage, fallback);
      (forall es :: AgreesAfter(b, es, nodes)) <==> b.State() == b.grid
  {
    var b := Opened(entries, pos, storage, fallback);
    forall p | p != [] && b.hash == Some(Printed(p)) ensures b.grid == p {
      OpenedShowsLocation(entries, pos, storage, fallback, p);
    }
    AgreesFromExactly(b, nodes);
  }

  /**
   A first visit, without stored states, always agrees.  It is also in step with its location exactly if the
   last part of the location for the module is missing, empty, or stands for the path of the first part.
   */
  lemma FreshPageExactly(entries: seq<Location>, pos: nat, fallback: Path)
    requires pos < |entries|
    ensures
      var b, fq := Opened(entries, pos, [], fallback), HistoryManager.VisitText(entries[pos]);
      && b.State() == b.grid == b.tree == FirstPath(entries[pos], fallback)
      && (Idle(b) <==> fq == [] || match HistoryManager.Requested(fq, RURI)
                                   case None => true
                                   case Some(v) => v == [] || Unescape(v) == b.grid)
  {
    UnescapeEscape(FirstPath(entries[pos], fallback));
  }

  /** For instance at a location that is absent or was printed. */
  lemma FreshPageIdle(entries: seq<Location>, pos: nat, fallback: Path)
    requires pos < |entries| && (entries[pos] == None || exists p :: entries[pos] == Some(Printed(p)))
    ensures Idle(Opened(entries, pos, [], fallback))
  {
    FreshPageExactly(entries, pos, fallback);
    if p :| entries[pos] == Some(Printed(p)) {
      PrintedAsks(Opened(entries, pos, [], fallback), p);
      PrintedRequests(p);
    }
  }

  lemma PrintedRequests(p: Path)
    ensures HistoryManager.Requested(Printed(p), RURI) == Some(Escape(p))
  {
    HistoryLaws.EscapeIsClean(p);
    SplitNone(Printed(p), AMPERSAND);
    HistoryLaws.PairTokens(RURI, Escape(p));
  }

  /** But not at one typed by hand in which two parts differ: the bookmark reads the first, the poll the last. */
  lemma {:induction false} TypedPageOutOfStep(p: Path, q: Path, fallback: Path)
    requires p != [] && q != [] && p != q
    ensures
      var b := Opened([Some(Printed(p) + [AMPERSAND] + Printed(q))], 0, [], fallback);
      b.grid == p && Unescape(b.Asked(b.hash)) == q && Agrees(b) && !Idle(b)
  {
    TypedParts(p, q);
    FreshPageExactly([Some(Printed(p) + [AMPERSAND] + Printed(q))], 0, fallback);
    EscapeEmpty(q);
    UnescapeEscape(q);
  }

  lemma TypedParts(p: Path, q: Path)
    ensures
      var typed := Printed(p) + [AMPERSAND] + Printed(q);
      && HistoryManager.Bookmarked(Split(typed, AMPERSAND), RURI) == Some(p)
      && HistoryManager.Requested(typed, RURI) == Some(Escape(q))
  {
    HistoryLaws.EscapeIsClean(p);
    HistoryLaws.EscapeIsClean(q);
    SplitFirst(Printed(p), AMPERSAND, Printed(q));
    SplitNone(Printed(q), AMPERSAND);
    HistoryLaws.PairTokens(RURI, Escape(p));
    HistoryLaws.PairTokens(RURI, Escape(q));
    UnescapeEscape(p);
    var parts := [Printed(p), Printed(q)];
    assert Split(Printed(p) + [AMPERSAND] + Printed(q), AMPERSAND) == parts;
  }

  /** A page that is left and comes back to the same place of the session history. */
  function Reopened(b: Browser, fallback: Path): (a: Browser)
    requires b.Valid()
    ensures a.Valid()
  {
    Opened(b.entries, b.pos, HistoryManager.StorageText([b.Ruri()], [], false), fallback)
  }

  ghost predicate Storable(b: Browser) {
    HistoryLaws.WellFormed([b.Ruri()]) && HistoryLaws.NoBars([b.Ruri()])
  }

  /** No separator stands in its states: so it is for what was printed or encoded. */
  lemma StorableExactly(b: Browser)
    ensures Storable(b) <==>
            38 !in b.initial + b.current && 61 !in b.initial + b.current && 124 !in b.initial + b.current
  {
    var ms := [b.Ruri()];
    assert HistoryLaws.CleanName(RURI) && ms[0] == b.Ruri();
  }

  lemma EncodedStorable(b: Browser, p: Path, q: Path)
    requires b.initial == Escape(p) && b.current == Escape(q)
    ensures Storable(b)
  {
    HistoryLaws.EscapeIsClean(p);
    HistoryLaws.EscapeIsClean(q);
  }

  lemma ReopenedStates(b: Browser, fallback: Path)
    requires b.Valid() && Storable(b)
    ensures
      var a := Reopened(b, fallback);
      && a.initial == b.initial && a.current == b.current
      && a.grid == a.tree == FirstPath(b.Shown(), fallback)
      && a.entries == b.entries && a.pos == b.pos && a.hash == b.Shown() && a.counter == |b.entries|
  {
    var first := FirstPath(b.Shown(), fallback);
    HistoryLaws.StorageRoundTrip([b.Ruri()], [HistoryManager.Module(RURI, Escape(first), Escape(first))], [], false);
  }

  /** At a location that was printed, the page that comes back settles exactly if it was left in its state. */
  lemma ReopenedExactly(b: Browser, p: Path, fallback: Path)
    requires b.Valid() && Storable(b) && b.Shown() == Some(Printed(p)) && p != []
    ensures Idle(Reopened(b, fallback)) <==> b.State() == p
  {
    ReopenedStates(b, fallback);
    PrintedAsks(Reopened(b, fallback), p);
  }

  /** Without a location, exactly if state and initial state are the path it opens with. */
  lemma ReopenedBareExactly(b: Browser, fallback: Path)
    requires b.Valid() && Storable(b) && b.Shown() == None
    ensures Idle(Reopened(b, fallback)) <==> b.State() == Unescape(b.initial) == fallback
  {
    ReopenedStates(b, fallback);
    assert HistoryManager.Bookmarked([[]], RURI) == None;
  }

  // ----- What goes wrong otherwise ------------------------------------------------------------

  /** Leaving before the poll: the page comes back with grid and history module apart, and polls do not help. */
  lemma LeftBeforePoll(b: Browser, fallback: Path, nodes: set<Path>)
    requires Pending(b) && Storable(b)
    ensures
      var a := Reopened(b, fallback);
      a.grid == a.tree == b.grid && a.State() == b.State() && Polled(a, nodes) == a && !Agrees(a)
  {
    ReopenedStates(b, fallback);
    PrintedAsks(Reopened(b, fallback), b.grid);
  }

  /**
   A page that agrees while its location asks for another path: going to that path changes nothing the
   poll could see, and the way back is cut off.
   */
  lemma IgnoredNavigation(b: Browser, p: Path, nodes: set<Path>)
    requires b.Valid() && Agrees(b) && b.hash == b.Shown() == Some(Printed(p)) && b.counter == |b.entries|
    requires p != [] && p != b.grid
    ensures
      var a := Polled(WentTo(b, p, nodes), nodes);
      && a.grid == a.tree == p && a.State() == b.grid && !Agrees(a)
      && WentTo(a, b.grid, nodes) == a
  {
    var w := WentTo(b, p, nodes);
    assert Written(b, p) == b;
    WentToShows(b, p, nodes);
    assert w.entries == b.entries && w.pos == b.pos;
  }

  /** A page reset by a poll is such a page, unless its initial path is the one its location was printed for. */
  lemma {:induction false} ResetHidesLocation(b: Browser, p: Path, q: Path, nodes: set<Path>)
    requires Settled(b) && b.Shown() == Some(Printed(p)) && p != [] && b.pos + 1 == |b.entries|
    requires q != [] && q != p && Unescape(b.initial) != p
    ensures
      var a := Polled(Step(WentTo(b, q, nodes), TravelTo(b.pos), nodes), nodes);
      && Begun(a) && Agrees(a) && a.hash == Some(Printed(p)) && p != a.grid
      && !Agrees(Polled(WentTo(a, p, nodes), nodes))
  {
    PrintedAsks(b, p);
    LocationTextExact(b, p, q);
    WrittenEntries(b, q, nodes);
    var w := WentTo(b, q, nodes).(pos := b.pos);
    HandledShows(w.(counter := |w.entries|), None, nodes);
    IgnoredNavigation(Polled(w, nodes), p, nodes);
  }

  ghost function Start(initial: Path): Browser { Opened([None], 0, [], initial) }

  lemma StartIsIdle(initial: Path)
    ensures Idle(Start(initial)) && Start(initial).grid == initial
  {
    FreshPageIdle([None], 0, initial);
    assert HistoryManager.Bookmarked([[]], RURI) == None;
  }

  /**
   Going to `q` and back before the poll, with the history length unchanged, leaves the
   page showing `q` while history and location say `p`.
   */
  lemma {:induction false} BackBeforePollDisagrees(b: Browser, p: Path, q: Path, nodes: set<Path>)
    requires Settled(b) && b.Shown() == Some(Printed(p)) && p != [] && b.pos + 2 == |b.entries|
    requires q != [] && q != p
    ensures
      var a := Polled(Step(WentTo(b, q, nodes), TravelTo(b.pos), nodes), nodes);
      a.State() == p && a.grid == a.tree == q && a.Shown() == Some(Printed(p)) && !Agrees(a)
  {
    PrintedAsks(b, p);
    LocationTextExact(b, p, q);
    WrittenEntries(b, q, nodes);
  }

  /**
   With a history that grew instead, the poll resets everything to the initial path, whatever
   the location shows.
   */
  lemma {:induction false} BackBeforePollResets(b: Browser, p: Path, q: Path, nodes: set<Path>)
    requires Settled(b) && b.Shown() == Some(Printed(p)) && p != [] && b.pos + 1 == |b.entries|
    requires q != [] && q != p
    ensures
      var a := Polled(Step(WentTo(b, q, nodes), TravelTo(b.pos), nodes), nodes);
      Agrees(a) && a.current == b.initial && a.Shown() == Some(Printed(p))
  {
    PrintedAsks(b, p);
    LocationTextExact(b, p, q);
    WrittenEntries(b, q, nodes);
    var w := WentTo(b, q, nodes).(pos := b.pos);
    HandledShows(w.(counter := |w.entries|), None, nodes);
  }

  /** Going to another path from a settled page cuts the session history and adds one entry. */
  lemma {:induction false} WrittenEntries(b: Browser, p: Path, nodes: set<Path>)
    requires Settled(b) && p != [] && p != b.State() && b.Shown() != Some(Printed(p))
    ensures
      var w := WentTo(b, p, nodes);
      && w.Valid() && w.entries == b.entries[..b.pos + 1] + [Some(Printed(p))] && w.pos == b.pos + 1
      && w.grid == w.tree == p && w.hash == b.hash && w.counter == b.counter
      && w.initial == b.initial && w.current == b.current
  {
    GridUpdates(Written(b, p), p, nodes);
  }

  /** The growing history is reached from the start by one navigation. */
  lemma OneVisit(initial: Path, p: Path, nodes: set<Path>)
    requires p != [] && p != initial
    ensures
      var b := Polled(WentTo(Start(initial), p, nodes), nodes);
      Settled(b) && b.entries == [None, Some(Printed(p))] && b.pos == 1 && b.State() == p
  {
    var b0 := Start(initial);
    StartIsIdle(initial);
    VisitSettles(b0, p, nodes);
  }

  lemma VisitSettles(b: Browser, p: Path, nodes: set<Path>)
    requires Settled(b) && p != [] && p != b.State() && b.Shown() != Some(Printed(p))
    ensures
      var a := Polled(WentTo(b, p, nodes), nodes);
      Settled(a) && a.entries == b.entries[..b.pos + 1] + [Some(Printed(p))] && a.pos == b.pos + 1 && a.State() == p
  {
    var w := WentTo(b, p, nodes);
    WrittenEntries(b, p, nodes);
    OrderlyStep(b, GoTo(p), nodes);
    PollSettles(w, nodes);
    PrintedAsks(b, p);
    PrintedAsks(w, p);
    HandledShows(w.(hash := w.Shown(), counter := |w.entries|), w.Shown(), nodes);
  }

  /** The other one by two navigations and one step back, each followed by a poll. */
  lemma TwoVisitsAndBack(initial: Path, p: Path, r: Path, nodes: set<Path>)
    requires p != [] && r != [] && p != initial && r != p
    ensures
      var b1 := Polled(WentTo(Start(initial), p, nodes), nodes);
      var b2 := Polled(WentTo(b1, r, nodes), nodes);
      var b3 := Polled(Step(b2, TravelTo(1), nodes), nodes);
      Settled(b3) && b3.Shown() == Some(Printed(p)) && b3.pos + 2 == |b3.entries|
  {
    OneVisit(initial, p, nodes);
    var b1 := Polled(WentTo(Start(initial), p, nodes), nodes);
    LocationTextExact(b1, p, r);
    VisitSettles(b1, r, nodes);
    var b2 := Polled(WentTo(b1, r, nodes), nodes);
    TravelSettles(b2, 1, nodes);
  }

  lemma TravelSettles(b: Browser, pos: nat, nodes: set<Path>)
    requires Settled(b) && pos < |b.entries|
    ensures
      var a := Polled(Step(b, TravelTo(pos), nodes), nodes);
      Settled(a) && a.entries == b.entries && a.pos == pos
  {
    var back := b.(pos := pos);
    PollSettles(back, nodes);
    HandledShows(back.(hash := back.Shown(), counter := |back.entries|), back.Shown(), nodes);
  }
}
