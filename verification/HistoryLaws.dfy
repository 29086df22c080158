/** What the history manager promises: texts it prints are read back exactly. */
module HistoryLaws {
  import opened Sequences
  import opened TextCodec
  import opened HistoryManager
  import opened HistoryTexts

  // ----- What every registered module looks like -------------------------------------------

  predicate CleanName(s: Text) { EQUALS !in s && AMPERSAND !in s && BAR !in s && COMMA !in s && s != [] }
  predicate CleanInitial(s: Text) { EQUALS !in s && AMPERSAND !in s && BAR !in s }
  predicate CleanCurrent(s: Text) { EQUALS !in s && AMPERSAND !in s }

  ghost predicate WellFormed(ms: seq<Module>) {
    && (forall i :: 0 <= i < |ms| ==>
          CleanName(ms[i].name) && CleanInitial(ms[i].initial) && CleanCurrent(ms[i].current))
    && (forall i, j :: 0 <= i < j < |ms| ==> ms[i].name != ms[j].name)
  }

  lemma EscapeIsClean(s: Text)
    ensures EQUALS !in Escape(s) && AMPERSAND !in Escape(s) && BAR !in Escape(s) && COMMA !in Escape(s)
  {
    EscapeAlphabet(s);
  }

  lemma FiledNames(ms: seq<Module>, m: Module, name: Text)
    ensures HasModule(Filed(ms, m), name) <==> HasModule(ms, name) || m.name == name
  {
    var after := Filed(ms, m);
    if HasModule(ms, name) {
      var i :| 0 <= i < |ms| && ms[i].name == name;
      assert after[i].name == name;
    }
    if m.name == name && !HasModule(ms, name) {
      assert after[|ms|] == m;
    }
    if HasModule(after, name) {
      var i :| 0 <= i < |after| && after[i].name == name;
      assert i < |ms| ==> after[i].name == ms[i].name;
    }
  }

  lemma FiledWellFormed(ms: seq<Module>, m: Module)
    requires WellFormed(ms) && CleanName(m.name) && CleanInitial(m.initial) && CleanCurrent(m.current)
    ensures WellFormed(Filed(ms, m))
  {
    var after := Filed(ms, m);
    if HasModule(ms, m.name) {
      assert forall i :: 0 <= i < |ms| ==> after[i].name == ms[i].name;
    } else {
      assert forall i :: 0 <= i < |ms| ==> after[i] == ms[i] && ms[i].name != m.name;
    }
  }

  lemma RegisterKeepsWellFormed(ms: seq<Module>, name: Text, initial: Text)
    requires WellFormed(ms) && CanRegister(ms, name)
    ensures WellFormed(Registered(ms, name, initial)) && HasModule(Registered(ms, name, initial), Escape(name))
  {
    EscapeIsClean(name);
    EscapeIsClean(initial);
    EscapeEmpty(name);
    var m := Module(Escape(name), Escape(initial), Escape(initial));
    FiledNames(ms, m, m.name);
    FiledWellFormed(ms, m);
  }

  /** Values found by splitting on both separators contain neither of them. */
  lemma {:induction false} LastValueIsClean(parts: seq<Text>, name: Text, strict: bool)
    requires forall i :: 0 <= i < |parts| ==> AMPERSAND !in parts[i]
    ensures LastValue(parts, name, strict).Some? ==> CleanCurrent(LastValue(parts, name, strict).value)
    ensures LastValue(parts, name, strict).Some? && (forall i :: 0 <= i < |parts| ==> BAR !in parts[i]) ==>
              CleanInitial(LastValue(parts, name, strict).value)
  {
    if parts != [] {
      var last := parts[|parts| - 1];
      LastValueIsClean(parts[..|parts| - 1], name, strict);
      SplitParts(last, EQUALS);
      SplitAlphabet(last, EQUALS, AMPERSAND);
      if BAR !in last {
        SplitAlphabet(last, EQUALS, BAR);
      }
    }
  }

  /** Whatever the location says, the modules stay well formed. */
  lemma HandleKeepsWellFormed(ms: seq<Module>, fq: Text)
    requires WellFormed(ms)
    ensures WellFormed(Handled(ms, fq))
  {
    SplitParts(fq, AMPERSAND);
    forall i | 0 <= i < |ms| ensures CleanCurrent(NewState(ms[i], fq)) {
      LastValueIsClean(Split(fq, AMPERSAND), ms[i].name, true);
    }
  }

  /** Whatever the storage field says, the modules stay well formed. */
  lemma RestoreKeepsWellFormed(ms: seq<Module>, storage: Text)
    requires WellFormed(ms)
    ensures WellFormed(Restored(ms, storage))
  {
    var parts := Split(storage, BAR);
    if |parts| > 1 {
      SplitParts(storage, BAR);
      SplitParts(parts[0], AMPERSAND);
      SplitParts(parts[1], AMPERSAND);
      SplitAlphabet(parts[0], AMPERSAND, BAR);
      forall i | 0 <= i < |ms|
        ensures CleanInitial(Restored(ms, storage)[i].initial) && CleanCurrent(Restored(ms, storage)[i].current)
      {
        LastValueIsClean(Split(parts[0], AMPERSAND), ms[i].name, true);
        LastValueIsClean(Split(parts[1], AMPERSAND), ms[i].name, false);
      }
    }
  }

  // ----- Printed pairs are read back --------------------------------------------------------

  /** The parts are the printed pairs of the given names and values. */
  ghost predicate PrintsPairs(parts: seq<Text>, names: seq<Text>, values: seq<Text>) {
    && |parts| == |names| == |values|
    && forall i :: 0 <= i < |parts| ==>
         && parts[i] == PairText(names[i], values[i])
         && EQUALS !in names[i] && EQUALS !in values[i]
         && AMPERSAND !in names[i] && AMPERSAND !in values[i]
  }

  lemma PairTokens(name: Text, value: Text)
    requires EQUALS !in name && EQUALS !in value
    ensures Split(PairText(name, value), EQUALS) == [name, value]
  {
    SplitFirst(name, EQUALS, value);
    SplitNone(value, EQUALS);
  }

  lemma {:induction false} PrintedLastValue(parts: seq<Text>, names: seq<Text>, values: seq<Text>, k: nat, strict: bool)
    requires PrintsPairs(parts, names, values) && k < |names|
    requires forall i, j :: 0 <= i < j < |names| ==> names[i] != names[j]
    ensures LastValue(parts, names[k], strict) == Some(values[k])
  {
    var n := |parts| - 1;
    PairTokens(names[n], values[n]);
    if k != n {
      PrintedLastValue(parts[..n], names[..n], values[..n], k, strict);
    }
  }

  lemma {:induction false} PrintedFirstValue(parts: seq<Text>, names: seq<Text>, values: seq<Text>, k: nat)
    requires PrintsPairs(parts, names, values) && k < |names|
    requires forall i, j :: 0 <= i < j < |names| ==> names[i] != names[j]
    ensures Bookmarked(parts, names[k]) == Some(Unescape(values[k]))
  {
    PairTokens(names[0], values[0]);
    if k != 0 {
      PrintedFirstValue(parts[1..], names[1..], values[1..], k - 1);
    }
  }

  lemma PrintedSplit(parts: seq<Text>, names: seq<Text>, values: seq<Text>)
    requires PrintsPairs(parts, names, values) && parts != []
    ensures Split(Join(parts, AMPERSAND), AMPERSAND) == parts
    ensures Join(parts, AMPERSAND) != []
  {
    SplitJoin(parts, AMPERSAND);
  }

  ghost function Names(ms: seq<Module>): seq<Text> { Map((m: Module) => m.name, ms) }

  ghost function Targets(ms: seq<Module>, name: Text, state: Text): seq<Text> {
    Map((m: Module) => StateFor(m, name, state), ms)
  }

  /** The navigation text asks every module for its own state, and the named one for the new. */
  lemma NavigationRequests(ms: seq<Module>, name: Text, state: Text, k: nat)
    requires WellFormed(ms) && CleanCurrent(state) && k < |ms|
    ensures NavigationText(ms, name, state) != []
    ensures Requested(NavigationText(ms, name, state), ms[k].name) == Some(StateFor(ms[k], name, state))
    ensures Bookmarked(Split(NavigationText(ms, name, state), AMPERSAND), ms[k].name) ==
            Some(Unescape(StateFor(ms[k], name, state)))
  {
    var parts := NavigationPairs(ms, name, state);
    PrintedSplit(parts, Names(ms), Targets(ms, name, state));
    PrintedLastValue(parts, Names(ms), Targets(ms, name, state), k, true);
    PrintedFirstValue(parts, Names(ms), Targets(ms, name, state), k);
  }

  /**
   What handling a navigation does to every module: it takes over its target state, or its
   initial state where the target is empty, and it is notified exactly if the target is
   empty or differs from the state it had.
   */
  lemma NavigationHandled(ms: seq<Module>, name: Text, state: Text, k: nat)
    requires WellFormed(ms) && k < |ms|
    ensures
      var fq := NavigationText(ms, name, Escape(state));
      var target := StateFor(ms[k], name, Escape(state));
      && Handled(ms, fq)[k] == ms[k].(current := if target == [] then ms[k].initial else target)
      && (Notifies(ms[k], fq) <==> target == [] || target != ms[k].current)
  {
    EscapeIsClean(state);
    NavigationRequests(ms, name, Escape(state), k);
  }

  // ----- Navigation delivers the state ---------------------------------------------------

  lemma {:induction false} NoNotices(ms: seq<Module>, fq: Text)
    requires forall i :: 0 <= i < |ms| ==> !Notifies(ms[i], fq)
    ensures Notices(ms, fq) == []
  {
    if ms != [] {
      var n := |ms| - 1;
      assert ms[..n + 1] == ms;
      LastNotice(ms, fq, n);
      NoNotices(ms[..n], fq);
    }
  }

  lemma {:induction false} OneNotice(ms: seq<Module>, fq: Text, k: nat)
    requires k < |ms| && Notifies(ms[k], fq)
    requires forall i :: 0 <= i < |ms| && i != k ==> !Notifies(ms[i], fq)
    ensures Notices(ms, fq) == [Notice(ms[k].name, Unescape(NewState(ms[k], fq)))]
  {
    var n := |ms| - 1;
    assert ms[..n + 1] == ms;
    LastNotice(ms, fq, n);
    if k == n {
      NoNotices(ms[..n], fq);
    } else {
      OneNotice(ms[..n], fq, k);
    }
  }

  /**
   Navigating a module to a non-empty state and polling hands exactly that module exactly
   that state, over all code units; a module whose state did not change hears nothing.
   */
  lemma NavigationDelivers(ms: seq<Module>, k: nat, state: Text)
    requires WellFormed(ms) && k < |ms| && state != [] && forall i :: 0 <= i < |ms| ==> ms[i].current != []
    ensures
      var fq := NavigationText(ms, ms[k].name, Escape(state));
      && Handled(ms, fq) == ms[k := ms[k].(current := Escape(state))]
      && Notices(ms, fq) == (if ms[k].current == Escape(state) then [] else [Notice(ms[k].name, state)])
      && Bookmarked(Split(fq, AMPERSAND), ms[k].name) == Some(state)
  {
    var fq := NavigationText(ms, ms[k].name, Escape(state));
    EscapeEmpty(state);
    EscapeIsClean(state);
    UnescapeEscape(state);
    NavigationSets(ms, k, state);
    NavigationRequests(ms, ms[k].name, Escape(state), k);
    if ms[k].current == Escape(state) {
      NoNotices(ms, fq);
    } else {
      OneNotice(ms, fq, k);
    }
  }

  lemma NavigationSets(ms: seq<Module>, k: nat, state: Text)
    requires WellFormed(ms) && k < |ms| && state != [] && forall i :: 0 <= i < |ms| ==> ms[i].current != []
    ensures
      var fq := NavigationText(ms, ms[k].name, Escape(state));
      && Handled(ms, fq) == ms[k := ms[k].(current := Escape(state))]
      && NewState(ms[k], fq) == Escape(state)
      && (forall i :: 0 <= i < |ms| ==> (Notifies(ms[i], fq) <==> i == k && ms[k].current != Escape(state)))
  {
    var name := ms[k].name;
    var fq := NavigationText(ms, name, Escape(state));
    var after := ms[k := ms[k].(current := Escape(state))];
    EscapeEmpty(state);
    forall i | 0 <= i < |ms|
      ensures Handled(ms, fq)[i] == after[i]
      ensures Notifies(ms[i], fq) <==> i == k && ms[k].current != Escape(state)
    {
      NavigationHandled(ms, name, state, i);
      assert i != k ==> ms[i].name != name;
      assert StateFor(ms[i], name, Escape(state)) == after[i].current;
    }
    assert Handled(ms, fq) == after;
  }

  /** The current states are the ones the last handled location asks for. */
  ghost predicate Settled(ms: seq<Module>, location: Option<Text>) {
    forall i :: 0 <= i < |ms| ==> NewState(ms[i], VisitText(location)) == ms[i].current
  }

  /** Handling a location leaves every module in the state the location asks for. */
  lemma HandlingSettles(ms: seq<Module>, location: Option<Text>)
    ensures Settled(Handled(ms, VisitText(location)), location)
  {
  }

  /** The modules after a tick of the poll. */
  ghost function AfterPoll(ms: seq<Module>, hash: Option<Text>, location: Option<Text>, counter: nat, length: nat,
                           visited: seq<Option<Text>>): seq<Module>
  {
    if location == hash && length == counter then ms else Handled(ms, Polled(location, hash, length, visited))
  }

  /**
   Exactly when the poll after a navigation leaves the module in the state navigated to.  It
   always does when the location changed.  Otherwise the module must hold the state already, and if
   only the length of the session history changed, the visit recorded for that length must
   ask for the state; where no visits are recorded, it must be the initial state.
   */
  lemma NavigateThenPollExactly(ms: seq<Module>, hash: Option<Text>, counter: nat, length: nat,
                                visited: seq<Option<Text>>, k: nat, state: Text)
    requires WellFormed(ms) && k < |ms| && state != []
    ensures
      var location := Some(NavigationText(ms, ms[k].name, Escape(state)));
      var after := AfterPoll(ms, hash, location, counter, length, visited)[k].current;
      && (location != hash ==> after == Escape(state))
      && (location == hash && length == counter ==> (after == Escape(state) <==> ms[k].current == Escape(state)))
      && (location == hash && length != counter ==>
            var visit := if length == 0 then [] else Visits(visited, length - 1);
            && (after == Escape(state) <==> NewState(ms[k], visit) == Escape(state))
            && (visit == location.value ==> after == Escape(state))
            && (visit == [] ==> (after == Escape(state) <==> ms[k].initial == Escape(state))))
      && (after == Escape(state) ==> Unescape(after) == state)
  {
    EscapeEmpty(state);
    EscapeIsClean(state);
    UnescapeEscape(state);
    NavigationRequests(ms, ms[k].name, Escape(state), k);
  }

  /** If the modules had settled on the location, navigating to it again finds the module in its state. */
  lemma SettledHoldsState(ms: seq<Module>, k: nat, state: Text)
    requires WellFormed(ms) && k < |ms| && state != []
    requires Settled(ms, Some(NavigationText(ms, ms[k].name, Escape(state))))
    ensures ms[k].current == Escape(state)
  {
    EscapeEmpty(state);
    EscapeIsClean(state);
    NavigationRequests(ms, ms[k].name, Escape(state), k);
  }

  // ----- Names ---------------------------------------------------------------------------------

  /**
   Right after its registration, in any manager that accepts it, a module is found under its name exactly if its
   name consists of unreserved characters, because the entry is filed under the encoded name.
   */
  lemma NavigableExactly(ms: seq<Module>, name: Text, initial: Text)
    requires CanRegister(ms, name)
    ensures HasModule(Registered(ms, name, initial), name) <==> forall c :: c in name ==> Unreserved(c)
  {
    EscapeFixed(name);
    FiledNames(ms, Module(Escape(name), Escape(initial), Escape(initial)), name);
  }

  datatype Registration = Registration(name: Text, initial: Text)

  /** The modules after the first n attempts, of which the refused ones leave no trace. */
  ghost function AllRegistered(rs: seq<Registration>, n: nat): seq<Module>
    requires n <= |rs|
  {
    if n == 0 then []
    else
      var front, r := AllRegistered(rs, n - 1), rs[n - 1];
      if CanRegister(front, r.name) then Registered(front, r.name, r.initial) else front
  }

  ghost predicate Accepted(rs: seq<Registration>, i: nat)
    requires i < |rs|
  {
    CanRegister(AllRegistered(rs, i), rs[i].name)
  }

  ghost predicate FiledUnder(rs: seq<Registration>, i: nat, name: Text)
    requires i < |rs|
  {
    Accepted(rs, i) && Escape(rs[i].name) == name
  }

  /** In the end a name is found exactly if some accepted name is encoded to it. */
  lemma {:induction false} FoundExactly(rs: seq<Registration>, n: nat, name: Text)
    requires n <= |rs|
    ensures HasModule(AllRegistered(rs, n), name) <==>
            exists i :: 0 <= i < n && FiledUnder(rs, i, name)
  {
    if n > 0 {
      var front, r := AllRegistered(rs, n - 1), rs[n - 1];
      FoundExactly(rs, n - 1, name);
      assert HasModule(AllRegistered(rs, n), name) <==> HasModule(front, name) || FiledUnder(rs, n - 1, name) by {
        FiledNames(front, Module(Escape(r.name), Escape(r.initial), Escape(r.initial)), name);
      }
    }
  }

  /** The name was accepted here, and no later registration replaced its entry. */
  ghost predicate LastFiled(rs: seq<Registration>, n: nat, i: nat, name: Text) {
    i < n <= |rs| && FiledUnder(rs, i, name) && forall j :: i < j < n ==> !FiledUnder(rs, j, name)
  }

  /** An entry comes from the last attempt, or it was there before and that attempt left it alone. */
  lemma EntryOrigin(rs: seq<Registration>, n: nat, m: Module)
    requires 0 < n <= |rs| && m in AllRegistered(rs, n)
    ensures if FiledUnder(rs, n - 1, m.name) then Unescape(m.initial) == rs[n - 1].initial == Unescape(m.current)
            else m in AllRegistered(rs, n - 1)
  {
    var front, r := AllRegistered(rs, n - 1), rs[n - 1];
    if Accepted(rs, n - 1) {
      FiledOnce(front, Module(Escape(r.name), Escape(r.initial), Escape(r.initial)));
      UnescapeEscape(r.initial);
    }
  }

  ghost predicate OfLast(rs: seq<Registration>, n: nat, i: nat, m: Module) {
    LastFiled(rs, n, i, m.name) && Unescape(m.initial) == rs[i].initial == Unescape(m.current)
  }

  /** Both states of an entry are the initial state of the last registration accepted for its name. */
  lemma {:induction false} StatesOfLast(rs: seq<Registration>, n: nat, m: Module)
    requires n <= |rs| && m in AllRegistered(rs, n)
    ensures exists i: nat :: OfLast(rs, n, i, m)
  {
    EntryOrigin(rs, n, m);
    if FiledUnder(rs, n - 1, m.name) {
      assert OfLast(rs, n, n - 1, m);
    } else {
      StatesOfLast(rs, n - 1, m);
      var i: nat :| OfLast(rs, n - 1, i, m);
      assert OfLast(rs, n, i, m);
    }
  }

  lemma {:induction false} NamesDistinct(rs: seq<Registration>, n: nat)
    requires n <= |rs|
    ensures DistinctNames(AllRegistered(rs, n))
  {
    if n > 0 {
      NamesDistinct(rs, n - 1);
      if Accepted(rs, n - 1) {
        RegisteredExactly(AllRegistered(rs, n - 1), rs[n - 1].name, rs[n - 1].initial);
      }
    }
  }

  const QUARTER: Text := [PERCENT, 50, 53]

  /** So a name changed by its encoding may be found all the same, under the entry of another module. */
  lemma NameOfAnother(a: Text, b: Text)
    ensures
      var rs := [Registration(QUARTER, a), Registration([PERCENT], b)];
      && Escape([PERCENT]) == QUARTER && Escape(QUARTER) != QUARTER
      && Accepted(rs, 0) && Accepted(rs, 1) && HasModule(AllRegistered(rs, 2), QUARTER)
  {
    var rs := [Registration(QUARTER, a), Registration([PERCENT], b)];
    assert Escape([PERCENT]) == EscapeUnit(PERCENT) + Escape([]) == QUARTER;
    EscapeLength(QUARTER);
    assert PERCENT in QUARTER && !Unreserved(PERCENT);
    assert QUARTER[0] == PERCENT && !IsSpace(PERCENT);
    assert AllRegistered(rs, 1) == [Module(Escape(QUARTER), Escape(a), Escape(a))];
    assert |Escape(QUARTER)| > 1;
    assert FiledUnder(rs, 1, QUARTER);
    FoundExactly(rs, 2, QUARTER);
  }

  // ----- The storage field -----------------------------------------------------------------

  ghost function Initials(ms: seq<Module>): seq<Text> { Map((m: Module) => m.initial, ms) }
  ghost function Currents(ms: seq<Module>): seq<Text> { Map((m: Module) => m.current, ms) }

  ghost predicate NoBars(ms: seq<Module>) {
    forall i :: 0 <= i < |ms| ==> BAR !in ms[i].current
  }

  ghost predicate SameNames(a: seq<Module>, b: seq<Module>) {
    |a| == |b| && forall i :: 0 <= i < |a| ==> a[i].name == b[i].name
  }

  /** Restoring and handling keep the names. */
  lemma NamesKept(ms: seq<Module>, text: Text)
    ensures SameNames(ms, Restored(ms, text)) && SameNames(ms, Handled(ms, text))
  {
  }

  lemma PairsWithoutBars(ms: seq<Module>)
    requires WellFormed(ms) && NoBars(ms)
    ensures BAR !in Join(InitialPairs(ms), AMPERSAND)
    ensures BAR !in Join(CurrentPairs(ms), AMPERSAND)
  {
    JoinAlphabet(InitialPairs(ms), AMPERSAND, BAR);
    JoinAlphabet(CurrentPairs(ms), AMPERSAND, BAR);
  }

  /** The storage field falls into its first two parts and the parts of the list of visits. */
  lemma StorageParts(ms: seq<Module>, visited: seq<Option<Text>>, keepsVisited: bool)
    requires WellFormed(ms) && NoBars(ms)
    ensures
      var a, b := Join(InitialPairs(ms), AMPERSAND), Join(CurrentPairs(ms), AMPERSAND);
      Split(StorageText(ms, visited, keepsVisited), BAR) ==
      [a, b] + if keepsVisited then Split(Join(Map(VisitText, visited), COMMA), BAR) else []
  {
    PairsWithoutBars(ms);
    var a, b := Join(InitialPairs(ms), AMPERSAND), Join(CurrentPairs(ms), AMPERSAND);
    var c := Join(Map(VisitText, visited), COMMA);
    if keepsVisited {
      SplitTwice(a, b, c);
    } else {
      SplitFirst(a, BAR, b);
      SplitNone(b, BAR);
    }
  }

  lemma RestoredFromPairs(ms: seq<Module>, reloaded: seq<Module>, k: nat)
    requires WellFormed(ms) && SameNames(ms, reloaded) && k < |ms|
    ensures
      var initials := Split(Join(InitialPairs(ms), AMPERSAND), AMPERSAND);
      LastValue(initials, reloaded[k].name, true) == Some(ms[k].initial)
    ensures
      var currents := Split(Join(CurrentPairs(ms), AMPERSAND), AMPERSAND);
      LastValue(currents, reloaded[k].name, false) == Some(ms[k].current)
  {
    PrintedSplit(InitialPairs(ms), Names(ms), Initials(ms));
    PrintedSplit(CurrentPairs(ms), Names(ms), Currents(ms));
    PrintedLastValue(InitialPairs(ms), Names(ms), Initials(ms), k, true);
    PrintedLastValue(CurrentPairs(ms), Names(ms), Currents(ms), k, false);
  }

  /** Saving the states and reloading the page restores every initial and current state. */
  lemma StorageRoundTrip(ms: seq<Module>, reloaded: seq<Module>, visited: seq<Option<Text>>, keepsVisited: bool)
    requires WellFormed(ms) && NoBars(ms) && SameNames(ms, reloaded)
    ensures Restored(reloaded, StorageText(ms, visited, keepsVisited)) == ms
  {
    StorageParts(ms, visited, keepsVisited);
    forall k | 0 <= k < |ms| ensures Restored(reloaded, StorageText(ms, visited, keepsVisited))[k] == ms[k] {
      RestoredFromPairs(ms, reloaded, k);
    }
  }

  /** A state restored from the storage field never contains a bar. */
  lemma RestoredWithoutBars(reloaded: seq<Module>, storage: Text)
    requires NoBars(reloaded)
    ensures NoBars(Restored(reloaded, storage))
  {
    var parts := Split(storage, BAR);
    if |parts| > 1 {
      SplitParts(storage, BAR);
      SplitAlphabet(parts[1], AMPERSAND, BAR);
      SplitParts(parts[1], AMPERSAND);
      forall k | 0 <= k < |reloaded| ensures BAR !in Restored(reloaded, storage)[k].current {
        LastValueIsClean(Split(parts[1], AMPERSAND), reloaded[k].name, false);
      }
    }
  }

  /**
   Exactly when the reload restores everything, with or without a list of visits: no
   current state contains a bar.  Encoded states never do; a location typed by hand can.
   */
  lemma StorageRoundTripExactly(ms: seq<Module>, reloaded: seq<Module>, visited: seq<Option<Text>>, keepsVisited: bool)
    requires WellFormed(ms) && SameNames(ms, reloaded) && NoBars(reloaded)
    ensures Restored(reloaded, StorageText(ms, visited, keepsVisited)) == ms <==> NoBars(ms)
  {
    if NoBars(ms) {
      StorageRoundTrip(ms, reloaded, visited, keepsVisited);
    }
    RestoredWithoutBars(reloaded, StorageText(ms, visited, keepsVisited));
  }

  ghost predicate Storable(visited: seq<Option<Text>>) {
    forall i :: 0 <= i < |visited| ==> BAR !in VisitText(visited[i]) && COMMA !in VisitText(visited[i])
  }

  /** The list of visited states comes back, with a hole read as an empty state. */
  lemma VisitsRoundTrip(ms: seq<Module>, reloaded: seq<Option<Text>>, visited: seq<Option<Text>>, at: nat)
    requires WellFormed(ms) && NoBars(ms) && Storable(visited)
    ensures
      var restored := RestoredVisits(reloaded, StorageText(ms, visited, true));
      Visits(restored, at) == Visits(visited, at) && |restored| == if visited == [] then 1 else |visited|
  {
    StorageParts(ms, visited, true);
    var texts := Map(VisitText, visited);
    JoinAlphabet(texts, COMMA, BAR);
    SplitNone(Join(texts, COMMA), BAR);
    if visited == [] {
      assert Split(Join(texts, COMMA), COMMA) == [[]];
    } else {
      SplitJoin(texts, COMMA);
    }
  }

  /** Exactly when all visits come back at their places: none contains a bar or a comma. */
  lemma VisitsRoundTripExactly(ms: seq<Module>, reloaded: seq<Option<Text>>, visited: seq<Option<Text>>)
    requires WellFormed(ms) && NoBars(ms)
    ensures
      var restored := RestoredVisits(reloaded, StorageText(ms, visited, true));
      (forall at: nat :: Visits(restored, at) == Visits(visited, at)) <==> Storable(visited)
  {
    var storage := StorageText(ms, visited, true);
    var restored := RestoredVisits(reloaded, storage);
    if Storable(visited) {
      forall at: nat ensures Visits(restored, at) == Visits(visited, at) {
        VisitsRoundTrip(ms, reloaded, visited, at);
      }
    }
    StorageParts(ms, visited, true);
    var list := Split(storage, BAR)[2];
    SplitParts(storage, BAR);
    SplitParts(list, COMMA);
    SplitAlphabet(list, COMMA, BAR);
    assert forall at: nat :: BAR !in Visits(restored, at) && COMMA !in Visits(restored, at);
    if forall at: nat :: Visits(restored, at) == Visits(visited, at) {
      forall i | 0 <= i < |visited| ensures BAR !in VisitText(visited[i]) && COMMA !in VisitText(visited[i]) {
        assert Visits(visited, i) == VisitText(visited[i]);
      }
    }
  }

  /** A visited state written by navigation can always be stored. */
  lemma NavigationTextStorable(ms: seq<Module>, name: Text, state: Text)
    requires WellFormed(ms) && NoBars(ms) && forall i :: 0 <= i < |ms| ==> COMMA !in ms[i].current
    ensures BAR !in NavigationText(ms, name, Escape(state)) && COMMA !in NavigationText(ms, name, Escape(state))
  {
    EscapeIsClean(state);
    JoinAlphabet(NavigationPairs(ms, name, Escape(state)), AMPERSAND, BAR);
    JoinAlphabet(NavigationPairs(ms, name, Escape(state)), AMPERSAND, COMMA);
  }

  // ----- Every run ---------------------------------------------------------------------------

  datatype Event = Registers(name: Text, initial: Text) | Reloads(storage: Text) | Handles(fq: Text)

  ghost function Step(ms: seq<Module>, e: Event): seq<Module> {
    match e
    case Registers(name, initial) => if CanRegister(ms, name) then Registered(ms, name, initial) else ms
    case Reloads(storage) => Restored(ms, storage)
    case Handles(fq) => Handled(ms, fq)
  }

  /** An attempt to register, a reload, and a location handled are the steps. */
  lemma StepsAreCalls(ms: seq<Module>, name: Text, text: Text)
    ensures Step(ms, Registers(name, text)) == if CanRegister(ms, name) then Registered(ms, name, text) else ms
    ensures Step(ms, Reloads(text)) == Restored(ms, text) && Step(ms, Handles(text)) == Handled(ms, text)
  {
  }

  ghost function Run(ms: seq<Module>, es: seq<Event>): seq<Module>
    decreases es
  {
    if es == [] then ms else Run(Step(ms, es[0]), es[1..])
  }

  lemma {:induction false} RunAppends(s: seq<Module>, es: seq<Event>, e: Event)
    ensures Run(s, []) == s && Run(s, es + [e]) == Step(Run(s, es), e)
    decreases es
  {
    if es == [] {
      assert Run(s, [e]) == Run(Step(s, e), [e][1..]);
    } else {
      RunAppends(Step(s, es[0]), es[1..], e);
      assert (es + [e])[1..] == es[1..] + [e];
    }
  }

  /** No sequence of registrations, reloads and locations, however malformed, spoils a module. */
  lemma {:induction false} EveryRunWellFormed(ms: seq<Module>, es: seq<Event>)
    requires WellFormed(ms)
    ensures WellFormed(Run(ms, es))
    decreases es
  {
    if es != [] {
      match es[0] {
        case Registers(name, initial) =>
          if CanRegister(ms, name) {
            RegisterKeepsWellFormed(ms, name, initial);
          }
        case Reloads(storage) => RestoreKeepsWellFormed(ms, storage);
        case Handles(fq) => HandleKeepsWellFormed(ms, fq);
      }
      EveryRunWellFormed(Step(ms, es[0]), es[1..]);
    }
  }

  // ----- Runs of navigations alone ------------------------------------------------------------

  predicate Plain(s: Text) { BAR !in s && COMMA !in s }

  /** The modules and the texts navigations have written, as the session history or the manager keeps them. */
  datatype Session = Session(ms: seq<Module>, written: seq<Option<Text>>)

  datatype Move =
    | Enrolls(name: Text, initial: Text)
    | Navigates(name: Text, state: Text, at: nat)
    | Returns(at: nat)
    | Reopens(reloaded: seq<Module>, keepsVisited: bool)

  ghost predicate Stores(s: Session) {
    && WellFormed(s.ms) && Storable(s.written)
    && forall i :: 0 <= i < |s.ms| ==> Plain(s.ms[i].initial) && Plain(s.ms[i].current)
  }

  /** A location is either one that was written before or none; a reload starts from newly registered modules. */
  ghost function Moved(s: Session, m: Move): Session {
    match m
    case Enrolls(name, initial) => if CanRegister(s.ms, name) then s.(ms := Registered(s.ms, name, initial)) else s
    case Navigates(name, state, at) =>
      s.(written := SetVisit(s.written, at, NavigationText(s.ms, Escape(name), Escape(state))))
    case Returns(at) => s.(ms := Handled(s.ms, Visits(s.written, at)))
    case Reopens(reloaded, keepsVisited) =>
      if SameNames(s.ms, reloaded) then s.(ms := Restored(reloaded, StorageText(s.ms, s.written, keepsVisited))) else s
  }

  /** A navigation files the text it prints, and returning to a place handles the text filed there. */
  lemma MovesAreCalls(s: Session, name: Text, state: Text, at: nat)
    ensures
      var t := Moved(s, Navigates(name, state, at));
      && t.ms == s.ms && Visits(t.written, at) == NavigationText(s.ms, Escape(name), Escape(state))
      && Moved(t, Returns(at)) == t.(ms := Handled(s.ms, NavigationText(s.ms, Escape(name), Escape(state))))
    ensures Moved(s, Enrolls(name, state)) == s.(ms := Step(s.ms, Registers(name, state)))
  {
    SetVisitExactly(s.written, at, NavigationText(s.ms, Escape(name), Escape(state)), at);
  }

  lemma {:induction false} LastValueAlphabet(parts: seq<Text>, name: Text, strict: bool, c: CodeUnit)
    requires forall i :: 0 <= i < |parts| ==> c !in parts[i]
    ensures LastValue(parts, name, strict).Some? ==> c !in LastValue(parts, name, strict).value
  {
    if parts != [] {
      LastValueAlphabet(parts[..|parts| - 1], name, strict, c);
      SplitAlphabet(parts[|parts| - 1], EQUALS, c);
    }
  }

  lemma PlainLocation(m: Module, fq: Text)
    requires Plain(fq) && Plain(m.initial)
    ensures Plain(NewState(m, fq))
  {
    SplitAlphabet(fq, AMPERSAND, BAR);
    SplitAlphabet(fq, AMPERSAND, COMMA);
    LastValueAlphabet(Split(fq, AMPERSAND), m.name, true, BAR);
    LastValueAlphabet(Split(fq, AMPERSAND), m.name, true, COMMA);
  }

  lemma RegisterKeepsPlain(ms: seq<Module>, name: Text, initial: Text)
    requires forall i :: 0 <= i < |ms| ==> Plain(ms[i].initial) && Plain(ms[i].current)
    ensures
      var after := Registered(ms, name, initial);
      forall i :: 0 <= i < |after| ==> Plain(after[i].initial) && Plain(after[i].current)
  {
    EscapeIsClean(initial);
  }

  lemma MoveStores(s: Session, m: Move)
    requires Stores(s)
    ensures Stores(Moved(s, m))
  {
    match m
    case Enrolls(name, initial) =>
      if CanRegister(s.ms, name) {
        RegisterKeepsWellFormed(s.ms, name, initial);
        RegisterKeepsPlain(s.ms, name, initial);
      }
    case Navigates(name, state, at) => NavigationTextStorable(s.ms, Escape(name), state);
    case Returns(at) =>
      HandleKeepsWellFormed(s.ms, Visits(s.written, at));
      forall i | 0 <= i < |s.ms| ensures Plain(NewState(s.ms[i], Visits(s.written, at))) {
        PlainLocation(s.ms[i], Visits(s.written, at));
      }
    case Reopens(reloaded, keepsVisited) =>
      if SameNames(s.ms, reloaded) {
        StorageRoundTrip(s.ms, reloaded, s.written, keepsVisited);
      }
  }

  ghost function MovedAlong(s: Session, moves: seq<Move>): Session
    decreases moves
  {
    if moves == [] then s else MovedAlong(Moved(s, moves[0]), moves[1..])
  }

  lemma {:induction false} MovedAlongAppends(s: Session, moves: seq<Move>, e: Move)
    ensures MovedAlong(s, []) == s && MovedAlong(s, moves + [e]) == Moved(MovedAlong(s, moves), e)
    decreases moves
  {
    if moves == [] {
      assert MovedAlong(s, [e]) == MovedAlong(Moved(s, e), [e][1..]);
    } else {
      MovedAlongAppends(Moved(s, moves[0]), moves[1..], e);
      assert (moves + [e])[1..] == moves[1..] + [e];
    }
  }

  lemma {:induction false} RunStores(s: Session, moves: seq<Move>)
    requires Stores(s)
    ensures Stores(MovedAlong(s, moves))
    decreases moves
  {
    if moves != [] {
      MoveStores(s, moves[0]);
      RunStores(Moved(s, moves[0]), moves[1..]);
    }
  }

  /**
   In every run in which only navigations write locations, a reload restores all states
   and all visits, whatever the reloaded page starts with.
   */
  lemma EveryRunRestores(moves: seq<Move>, reloaded: seq<Module>, keepsVisited: bool, visits: seq<Option<Text>>)
    ensures
      var s := MovedAlong(Session([], []), moves);
      && (SameNames(s.ms, reloaded) ==> Restored(reloaded, StorageText(s.ms, s.written, keepsVisited)) == s.ms)
      && (forall at: nat ::
            Visits(RestoredVisits(visits, StorageText(s.ms, s.written, true)), at) == Visits(s.written, at))
  {
    RunStores(Session([], []), moves);
    var s := MovedAlong(Session([], []), moves);
    if SameNames(s.ms, reloaded) {
      StorageRoundTrip(s.ms, reloaded, s.written, keepsVisited);
    }
    VisitsRoundTripExactly(s.ms, visits, s.written);
  }
}
