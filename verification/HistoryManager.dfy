/**
 The browser history manager of the web client.  Each registered module has an initial and
 a current state, both kept in encoded form.  `Navigate` prints all current states as
 `name=state&name=state...` into the location; a poll parses the location back, hands every
 module its state and notifies the modules concerned.  The states also survive a page
 reload in a storage field of the form `initial|current|visited`.
 */
module HistoryManager {
  import opened Sequences
  import opened TextCodec

  datatype Module = Module(name: Text, initial: Text, current: Text)

  /** A call of a module's state-change function. */
  datatype Notice = Notice(name: Text, state: Text)

  // ----- Printing -----------------------------------------------------------------------

  function PairText(name: Text, state: Text): Text { name + [EQUALS] + state }

  function StateFor(m: Module, name: Text, state: Text): Text {
    if m.name == name then state else m.current
  }

  function NavigationPairs(ms: seq<Module>, name: Text, state: Text): seq<Text> {
    Map((m: Module) => PairText(m.name, StateFor(m, name, state)), ms)
  }

  function InitialPairs(ms: seq<Module>): seq<Text> {
    Map((m: Module) => PairText(m.name, m.initial), ms)
  }

  function CurrentPairs(ms: seq<Module>): seq<Text> {
    Map((m: Module) => PairText(m.name, m.current), ms)
  }

  /** The text `Navigate` writes into the location. */
  function NavigationText(ms: seq<Module>, name: Text, state: Text): Text {
    Join(NavigationPairs(ms, name, state), AMPERSAND)
  }

  function VisitText(v: Option<Text>): Text { match v case Some(t) => t case None => [] }

  /** The storage field; only one browser family keeps the list of visited states. */
  function StorageText(ms: seq<Module>, visited: seq<Option<Text>>, keepsVisited: bool): Text {
    var states := Join(InitialPairs(ms), AMPERSAND) + [BAR] + Join(CurrentPairs(ms), AMPERSAND);
    if keepsVisited then states + [BAR] + Join(Map(VisitText, visited), COMMA) else states
  }

  // ----- Parsing ------------------------------------------------------------------------

  /** The value of the last `name=value` part; strict parts have exactly one equals sign. */
  function LastValue(parts: seq<Text>, name: Text, strict: bool): Option<Text> {
    if parts == [] then None
    else
      var tokens := Split(parts[|parts| - 1], EQUALS);
      if (if strict then |tokens| == 2 else |tokens| >= 2) && tokens[0] == name then Some(tokens[1])
      else LastValue(parts[..|parts| - 1], name, strict)
  }

  function Requested(fq: Text, name: Text): Option<Text> {
    LastValue(Split(fq, AMPERSAND), name, true)
  }

  /** The state a location asks of a module; an absent or empty one means the initial state. */
  function NewState(m: Module, fq: Text): Text {
    if fq == [] then m.initial
    else
      match Requested(fq, m.name)
      case Some(v) => if v == [] then m.initial else v
      case None => m.initial
  }

  predicate Notifies(m: Module, fq: Text) {
    fq == [] || match Requested(fq, m.name)
                case Some(v) => v == [] || v != m.current
                case None => true
  }

  function Handled(ms: seq<Module>, fq: Text): (r: seq<Module>)
    ensures |r| == |ms|
    ensures forall i :: 0 <= i < |ms| ==> r[i] == ms[i].(current := NewState(ms[i], fq))
  {
    if ms == [] then [] else
      var n := |ms| - 1;
      Handled(ms[..n], fq) + [ms[n].(current := NewState(ms[n], fq))]
  }

  function Notices(ms: seq<Module>, fq: Text): seq<Notice> {
    if ms == [] then []
    else
      var m := ms[|ms| - 1];
      Notices(ms[..|ms| - 1], fq) +
      if Notifies(m, fq) then [Notice(m.name, Unescape(NewState(m, fq)))] else []
  }

  lemma LastNotice(ms: seq<Module>, fq: Text, i: nat)
    requires i < |ms|
    ensures
      var m := ms[i];
      Notices(ms[..i + 1], fq) ==
      Notices(ms[..i], fq) + if Notifies(m, fq) then [Notice(m.name, Unescape(NewState(m, fq)))] else []
  {
    assert ms[..i + 1][..i] == ms[..i];
  }

  function OrElse(v: Option<Text>, default: Text): Text {
    match v case Some(t) => t case None => default
  }

  /** The module states after a reload with the given storage field. */
  function Restored(ms: seq<Module>, storage: Text): seq<Module> {
    var parts := Split(storage, BAR);
    if |parts| > 1 then
      var initials := Split(parts[0], AMPERSAND);
      var currents := Split(parts[1], AMPERSAND);
      Map((m: Module) => Module(m.name,
                                OrElse(LastValue(initials, m.name, true), m.initial),
                                OrElse(LastValue(currents, m.name, false), m.current)), ms)
    else ms
  }

  function RestoredVisits(visited: seq<Option<Text>>, storage: Text): seq<Option<Text>> {
    var parts := Split(storage, BAR);
    if |parts| > 2 then Map((t: Text) => Some(t), Split(parts[2], COMMA)) else visited
  }

  // ----- Registration -------------------------------------------------------------------

  predicate IsSpace(c: CodeUnit) {
    || 9 <= c <= 13 || c == 32 || c == 160 || c == 0x1680 || 0x2000 <= c <= 0x200A
    || c == 0x2028 || c == 0x2029 || c == 0x202F || c == 0x205F || c == 0x3000 || c == 0xFEFF
  }

  predicate Blank(s: Text) { forall c :: c in s ==> IsSpace(c) }

  predicate HasModule(ms: seq<Module>, name: Text) {
    exists i :: 0 <= i < |ms| && ms[i].name == name
  }

  /** The check uses the given name, the entry is filed under the encoded one. */
  predicate CanRegister(ms: seq<Module>, name: Text) { !Blank(name) && !HasModule(ms, name) }

  function Filed(ms: seq<Module>, m: Module): seq<Module> {
    if HasModule(ms, m.name) then Map((x: Module) => if x.name == m.name then m else x, ms) else ms + [m]
  }

  lemma FiledOnce(ms: seq<Module>, m: Module)
    ensures HasModule(Filed(ms, m), m.name)
    ensures forall x :: x in Filed(ms, m) ==> x == m || (x.name != m.name && x in ms)
  {
    var after := Filed(ms, m);
    if HasModule(ms, m.name) {
      var i :| 0 <= i < |ms| && ms[i].name == m.name;
      assert after[i] == m;
    } else {
      assert after[|ms|] == m;
    }
  }

  function Registered(ms: seq<Module>, name: Text, initial: Text): seq<Module> {
    Filed(ms, Module(Escape(name), Escape(initial), Escape(initial)))
  }

  function Visits(visited: seq<Option<Text>>, at: nat): Text {
    if at < |visited| then VisitText(visited[at]) else []
  }

  /** The text a poll hands on when the location or the length of the session history changed. */
  function Polled(location: Option<Text>, hash: Option<Text>, historyLength: nat, visited: seq<Option<Text>>): Text {
    if location != hash then VisitText(location)
    else if historyLength == 0 then [] else Visits(visited, historyLength - 1)
  }

  function SetVisit(visited: seq<Option<Text>>, at: nat, fq: Text): seq<Option<Text>> {
    if at < |visited| then visited[at := Some(fq)]
    else visited + seq(at - |visited|, _ => None) + [Some(fq)]
  }

  // ----- The manager --------------------------------------------------------------------

  class Manager {
    const keepsVisited: bool
    var modules: seq<Module>
    var visited: seq<Option<Text>>
    var storage: Text
    var hash: Option<Text>
    var counter: nat
    var initialized: bool
    var ready: bool

    constructor (keepsVisited: bool, storage: Text)
      ensures modules == [] && visited == [] && !initialized && !ready
      ensures this.keepsVisited == keepsVisited && this.storage == storage
    {
      this.keepsVisited, this.storage := keepsVisited, storage;
      modules, visited, hash, counter, initialized, ready := [], [], None, 0, false, false;
    }

    method Register(name: Text, initial: Text) returns (ok: bool)
      modifies `modules
      ensures ok <==> CanRegister(old(modules), name) && !initialized
      ensures ok <==> (exists c :: c in name && !IsSpace(c)) && (forall m :: m in old(modules) ==> m.name != name)
                      && !initialized
      ensures modules == if ok then Registered(old(modules), name, initial) else old(modules)
      ensures ok ==> HasModule(modules, Escape(name))
      ensures ok ==> forall m :: m in modules ==>
                if m.name == Escape(name) then Unescape(m.initial) == initial == Unescape(m.current)
                else m in old(modules)
    {
      UnescapeEscape(initial);
      ok := !Blank(name) && !HasModule(modules, name) && !initialized;
      if ok {
        modules := Filed(modules, Module(Escape(name), Escape(initial), Escape(initial)));
        FiledOnce(old(modules), Module(Escape(name), Escape(initial), Escape(initial)));
      }
    }

    /** The new location, or None when the call throws. */
    method Navigate(name: Text, state: Text, historyLength: nat) returns (location: Option<Text>)
      modifies `visited, `storage
      ensures location ==
              if ready && HasModule(modules, name)
              then Some(NavigationText(modules, Escape(name), Escape(state))) else None
      ensures visited ==
              if location.Some? && keepsVisited then SetVisit(old(visited), historyLength, location.value)
              else old(visited)
      ensures storage ==
              if location.Some? && keepsVisited then StorageText(modules, visited, true) else old(storage)
    {
      if !ready || !HasModule(modules, name) {
        return None;
      }
      var target, encoded := Escape(name), Escape(state);
      var pairs: seq<Text> := [];
      for i := 0 to |modules|
        invariant pairs == NavigationPairs(modules[..i], target, encoded)
      {
        var state := if modules[i].name == target then encoded else modules[i].current;
        pairs := pairs + [PairText(modules[i].name, state)];
      }
      assert modules[..|modules|] == modules;
      var fq := Join(pairs, AMPERSAND);
      if keepsVisited {
        visited := SetVisit(visited, historyLength, fq);
        StoreStates();
      }
      location := Some(fq);
    }

    method StoreStates()
      modifies `storage
      ensures storage == StorageText(modules, visited, keepsVisited)
    {
      var initials: seq<Text>, currents: seq<Text> := [], [];
      for i := 0 to |modules|
        invariant initials == InitialPairs(modules[..i])
        invariant currents == CurrentPairs(modules[..i])
      {
        initials := initials + [PairText(modules[i].name, modules[i].initial)];
        currents := currents + [PairText(modules[i].name, modules[i].current)];
      }
      assert modules[..|modules|] == modules;
      storage := Join(initials, AMPERSAND) + [BAR] + Join(currents, AMPERSAND);
      if keepsVisited {
        storage := storage + [BAR] + Join(Map(VisitText, visited), COMMA);
      }
    }

    /** The states a non-empty location asks for; a later part overrides an earlier one. */
    static method ParseRequests(fq: Text) returns (requested: map<Text, Text>)
      ensures forall n :: Requested(fq, n) == if n in requested then Some(requested[n]) else None
    {
      requested := map[];
      var parts := Split(fq, AMPERSAND);
      for i := 0 to |parts|
        invariant forall n :: LastValue(parts[..i], n, true) == if n in requested then Some(requested[n]) else None
      {
        assert parts[..i + 1][..i] == parts[..i];
        var tokens := Split(parts[i], EQUALS);
        if |tokens| == 2 {
          requested := requested[tokens[0] := tokens[1]];
        }
      }
      assert parts[..|parts|] == parts;
    }

    method HandleStateChange(fq: Text) returns (log: seq<Notice>)
      modifies `modules
      ensures modules == Handled(old(modules), fq)
      ensures log == Notices(old(modules), fq)
    {
      var requested: map<Text, Text> := map[];
      if fq != [] {
        requested := ParseRequests(fq);
      }
      ghost var before := modules;
      log := [];
      for i := 0 to |modules|
        invariant |modules| == |before|
        invariant forall k :: i <= k < |before| ==> modules[k] == before[k]
        invariant forall k :: 0 <= k < i ==> modules[k] == before[k].(current := NewState(before[k], fq))
        invariant log == Notices(before[..i], fq)
      {
        var m := modules[i];
        LastNotice(before, fq, i);
        var state, notified := StateAsked(m, fq, requested);
        if notified {
          log := log + [Notice(m.name, Unescape(state))];
          modules := modules[i := m.(current := state)];
        }
      }
      assert before[..|before|] == before;
    }

    /** What one module makes of the states asked for. */
    static method StateAsked(m: Module, fq: Text, requested: map<Text, Text>) returns (state: Text, notified: bool)
      requires fq != [] ==> Requested(fq, m.name) == if m.name in requested then Some(requested[m.name]) else None
      ensures state == NewState(m, fq) && (notified <==> Notifies(m, fq)) && (!notified ==> state == m.current)
    {
      if fq == [] || m.name !in requested || requested[m.name] == [] {
        return m.initial, true;
      }
      state := requested[m.name];
      notified := m.current != state;
    }

    static method RestoreInitials(ms: seq<Module>, parts: seq<Text>) returns (r: seq<Module>)
      ensures |r| == |ms|
      ensures forall k :: 0 <= k < |ms| ==>
                r[k] == ms[k].(initial := OrElse(LastValue(parts, ms[k].name, true), ms[k].initial))
    {
      r := ms;
      for i := 0 to |parts|
        invariant |r| == |ms|
        invariant forall k :: 0 <= k < |ms| ==>
                    r[k] == ms[k].(initial := OrElse(LastValue(parts[..i], ms[k].name, true), ms[k].initial))
      {
        assert parts[..i + 1][..i] == parts[..i];
        var tokens := Split(parts[i], EQUALS);
        if |tokens| == 2 {
          r := Map((m: Module) => if m.name == tokens[0] then m.(initial := tokens[1]) else m, r);
        }
      }
      assert parts[..|parts|] == parts;
    }

    static method RestoreCurrents(ms: seq<Module>, parts: seq<Text>) returns (r: seq<Module>)
      ensures |r| == |ms|
      ensures forall k :: 0 <= k < |ms| ==>
                r[k] == ms[k].(current := OrElse(LastValue(parts, ms[k].name, false), ms[k].current))
    {
      r := ms;
      for i := 0 to |parts|
        invariant |r| == |ms|
        invariant forall k :: 0 <= k < |ms| ==>
                    r[k] == ms[k].(current := OrElse(LastValue(parts[..i], ms[k].name, false), ms[k].current))
      {
        assert parts[..i + 1][..i] == parts[..i];
        var tokens := Split(parts[i], EQUALS);
        if |tokens| >= 2 {
          r := Map((m: Module) => if m.name == tokens[0] then m.(current := tokens[1]) else m, r);
        }
      }
      assert parts[..|parts|] == parts;
    }

    /** Runs when the page has loaded; the poll starts from the location seen then. */
    method Initialize(location: Option<Text>, historyLength: nat)
      modifies this
      ensures modules == Restored(old(modules), old(storage))
      ensures visited == RestoredVisits(old(visited), old(storage))
      ensures storage == old(storage) && hash == location && counter == historyLength && ready && initialized
    {
      var parts := Split(storage, BAR);
      if |parts| > 1 {
        var restored := RestoreInitials(modules, Split(parts[0], AMPERSAND));
        modules := RestoreCurrents(restored, Split(parts[1], AMPERSAND));
      }
      if |parts| > 2 {
        visited := Map((t: Text) => Some(t), Split(parts[2], COMMA));
      }
      hash, counter, ready, initialized := location, historyLength, true, true;
    }

    method HandleAndStore(fq: Text) returns (log: seq<Notice>)
      modifies `modules, `storage
      ensures modules == Handled(old(modules), fq) && log == Notices(old(modules), fq)
      ensures storage == StorageText(modules, visited, keepsVisited)
    {
      log := HandleStateChange(fq);
      StoreStates();
    }

    /** One tick: a changed location is handled; an unchanged one with a longer or shorter
        session history falls back on the list of visited states. */
    method Poll(location: Option<Text>, historyLength: nat) returns (log: seq<Notice>)
      modifies this
      ensures hash == location && counter == historyLength
      ensures
        if location == old(hash) && historyLength == old(counter) then
          modules == old(modules) && storage == old(storage) && log == []
        else
          var fq := Polled(location, old(hash), historyLength, visited);
          && modules == Handled(old(modules), fq) && log == Notices(old(modules), fq)
          && storage == StorageText(modules, visited, keepsVisited)
      ensures visited == old(visited) && ready == old(ready) && initialized == old(initialized)
    {
      log := [];
      if location == hash && historyLength == counter {
        return;
      }
      var fq := Polled(location, hash, historyLength, visited);
      hash, counter := location, historyLength;
      log := HandleAndStore(fq);
    }

    /** None when the call throws: before the storage field is ready, or for an unknown name. */
    method GetCurrentState(name: Text) returns (state: Option<Text>)
      ensures state.Some? <==> ready && HasModule(modules, name)
      ensures state.Some? ==>
                exists i :: 0 <= i < |modules| && modules[i].name == name && state.value == Unescape(modules[i].current)
    {
      state := None;
      if !ready {
        return;
      }
      for i := 0 to |modules|
        invariant state == None && forall k :: 0 <= k < i ==> modules[k].name != name
      {
        if modules[i].name == name {
          return Some(Unescape(modules[i].current));
        }
      }
    }

    /** Reads a state out of a location without consulting the modules. */
    static method GetBookmarkedState(location: Text, name: Text) returns (state: Option<Text>)
      ensures state == Bookmarked(Split(location, AMPERSAND), name)
    {
      var parts := Split(location, AMPERSAND);
      for i := 0 to |parts|
        invariant Bookmarked(parts, name) == Bookmarked(parts[i..], name)
      {
        var tokens := Split(parts[i], EQUALS);
        assert parts[i..][1..] == parts[i + 1..];
        if |tokens| == 2 && tokens[0] == name {
          return Some(Unescape(tokens[1]));
        }
      }
      state := None;
    }
  }

  /** The decoded value of the first `name=value` part. */
  function Bookmarked(parts: seq<Text>, name: Text): Option<Text> {
    if parts == [] then None
    else
      var tokens := Split(parts[0], EQUALS);
      if |tokens| == 2 && tokens[0] == name then Some(Unescape(tokens[1])) else Bookmarked(parts[1..], name)
  }
}
