/**
 The texts of the history manager, character by character: which part of a location or a
 storage field decides what a module is asked for, whoever wrote the text.
 */
module HistoryTexts {
  import opened Sequences
  import opened TextCodec
  import opened HistoryManager

  // ----- Parts --------------------------------------------------------------------------------

  /** The part gives the name this value; only strict parts must have no second equals sign. */
  ghost predicate Gives(part: Text, name: Text, value: Text, strict: bool) {
    && 61 !in name && 61 !in value
    && (part == name + [61] + value || (!strict && name + [61] + value + [61] <= part))
  }

  lemma {:induction false} TwoTokens(part: Text)
    ensures
      var tokens := Split(part, EQUALS);
      && (|tokens| == 1 ==> EQUALS !in part)
      && (|tokens| == 2 ==> part == tokens[0] + [EQUALS] + tokens[1])
      && (|tokens| > 2 ==> tokens[0] + [EQUALS] + tokens[1] + [EQUALS] <= part)
  {
    var tokens := Split(part, EQUALS);
    JoinSplit(part, EQUALS);
    SplitParts(part, EQUALS);
    if |tokens| > 2 {
      var tail := Join(tokens[2..], EQUALS);
      assert tokens[1..][1..] == tokens[2..];
      assert part == tokens[0] + [EQUALS] + (tokens[1] + [EQUALS] + tail);
      assert part == tokens[0] + [EQUALS] + tokens[1] + [EQUALS] + tail;
    }
  }

  lemma GivenTokens(part: Text, name: Text, value: Text, strict: bool)
    requires Gives(part, name, value, strict)
    ensures
      var tokens := Split(part, EQUALS);
      (if strict then |tokens| == 2 else |tokens| >= 2) && tokens[0] == name && tokens[1] == value
  {
    if part == name + [61] + value {
      SplitFirst(name, EQUALS, value);
      SplitNone(value, EQUALS);
    } else {
      var rest := part[|name| + |value| + 2..];
      assert part == name + [EQUALS] + (value + [EQUALS] + rest);
      SplitFirst(name, EQUALS, value + [EQUALS] + rest);
      SplitFirst(value, EQUALS, rest);
    }
  }

  /** Splitting on equals signs finds exactly that. */
  lemma GivesExactly(part: Text, name: Text, value: Text, strict: bool)
    ensures
      var tokens := Split(part, EQUALS);
      Gives(part, name, value, strict) <==>
      (if strict then |tokens| == 2 else |tokens| >= 2) && tokens[0] == name && tokens[1] == value
  {
    TwoTokens(part);
    SplitParts(part, EQUALS);
    if Gives(part, name, value, strict) {
      GivenTokens(part, name, value, strict);
    }
  }

  /** The last part that gives the name a value gives it this one. */
  ghost predicate GivenLast(parts: seq<Text>, name: Text, value: Text, strict: bool) {
    exists i :: 0 <= i < |parts| && Gives(parts[i], name, value, strict)
                && forall j, v :: i < j < |parts| ==> !Gives(parts[j], name, v, strict)
  }

  ghost predicate GivenFirst(parts: seq<Text>, name: Text, value: Text) {
    exists i :: 0 <= i < |parts| && Gives(parts[i], name, value, true)
                && forall j, v :: 0 <= j < i ==> !Gives(parts[j], name, v, true)
  }

  /** A later part overrides an earlier one. */
  lemma {:induction false} LastValueExactly(parts: seq<Text>, name: Text, value: Text, strict: bool)
    ensures LastValue(parts, name, strict) == Some(value) <==> GivenLast(parts, name, value, strict)
  {
    if parts != [] {
      var n := |parts| - 1;
      var tokens := Split(parts[n], EQUALS);
      LastValueExactly(parts[..n], name, value, strict);
      forall v ensures Gives(parts[n], name, v, strict) <==>
                       (if strict then |tokens| == 2 else |tokens| >= 2) && tokens[0] == name && tokens[1] == v
      {
        GivesExactly(parts[n], name, v, strict);
      }
      assert |tokens| > 1 && tokens[0] == name && (strict ==> |tokens| == 2) ==>
          Gives(parts[n], name, tokens[1], strict);
      LastGiven(parts, name, value, strict);
    }
  }

  lemma LastGiven(parts: seq<Text>, name: Text, value: Text, strict: bool)
    requires parts != []
    ensures
      var n := |parts| - 1;
      GivenLast(parts, name, value, strict) <==>
      Gives(parts[n], name, value, strict)
      || (GivenLast(parts[..n], name, value, strict) && forall v :: !Gives(parts[n], name, v, strict))
  {
    var n := |parts| - 1;
    var front := parts[..n];
    if GivenLast(parts, name, value, strict) && !Gives(parts[n], name, value, strict) {
      var i :| 0 <= i < |parts| && Gives(parts[i], name, value, strict)
               && forall j, v :: i < j < |parts| ==> !Gives(parts[j], name, v, strict);
      assert Gives(front[i], name, value, strict);
    }
    if GivenLast(front, name, value, strict) && forall v :: !Gives(parts[n], name, v, strict) {
      var i :| 0 <= i < |front| && Gives(front[i], name, value, strict)
               && forall j, v :: i < j < |front| ==> !Gives(front[j], name, v, strict);
      forall j, v | i < j < |parts| ensures !Gives(parts[j], name, v, strict) {
        assert j < n ==> parts[j] == front[j];
      }
      assert Gives(parts[i], name, value, strict);
    }
  }

  /** The bookmark reads the first part instead. */
  lemma {:induction false} BookmarkedExactly(parts: seq<Text>, name: Text)
    ensures (forall value :: GivenFirst(parts, name, value) ==> Bookmarked(parts, name) == Some(Unescape(value)))
    ensures (forall i, v :: 0 <= i < |parts| ==> !Gives(parts[i], name, v, true)) ==> Bookmarked(parts, name) == None
  {
    if parts != [] {
      var tokens := Split(parts[0], EQUALS);
      BookmarkedExactly(parts[1..], name);
      forall v ensures Gives(parts[0], name, v, true) <==> |tokens| == 2 && tokens[0] == name && tokens[1] == v {
        GivesExactly(parts[0], name, v, true);
      }
      forall value | GivenFirst(parts, name, value) && !Gives(parts[0], name, value, true)
        ensures GivenFirst(parts[1..], name, value)
      {
        FirstGivenLater(parts, name, value);
      }
    }
  }

  lemma FirstGivenLater(parts: seq<Text>, name: Text, value: Text)
    requires GivenFirst(parts, name, value) && parts != [] && !Gives(parts[0], name, value, true)
    ensures GivenFirst(parts[1..], name, value) && forall v :: !Gives(parts[0], name, v, true)
  {
    var rest := parts[1..];
    var i :| 0 <= i < |parts| && Gives(parts[i], name, value, true)
             && forall j, v :: 0 <= j < i ==> !Gives(parts[j], name, v, true);
    assert Gives(rest[i - 1], name, value, true);
    forall j, v | 0 <= j < i - 1 ensures !Gives(rest[j], name, v, true) {
      assert rest[j] == parts[j + 1];
    }
  }

  // ----- What a module is asked for -----------------------------------------------------------

  /**
   What a location does to a module: a state given to it by the last part is taken over and announced if it is
   not held already; an empty one, or none, takes it back to its initial state, which is always announced.
   */
  lemma AskedExactly(m: Module, fq: Text)
    ensures forall v :: GivenLast(Split(fq, 38), m.name, v, true) && v != [] ==>
                          NewState(m, fq) == v && (Notifies(m, fq) <==> v != m.current)
    ensures (forall v :: GivenLast(Split(fq, 38), m.name, v, true) ==> v == []) ==>
              NewState(m, fq) == m.initial && Notifies(m, fq)
  {
    forall v ensures GivenLast(Split(fq, 38), m.name, v, true) <==> Requested(fq, m.name) == Some(v) {
      LastValueExactly(Split(fq, 38), m.name, v, true);
    }
    if fq == [] {
      forall v, i | 0 <= i < 1 ensures !Gives(Split(fq, 38)[i], m.name, v, true) {
      }
    }
  }

  lemma {:induction false} NoticesFiltered(ms: seq<Module>, fq: Text)
    ensures Notices(ms, fq) ==
            Map((m: Module) => Notice(m.name, Unescape(NewState(m, fq))), Filter((m: Module) => Notifies(m, fq), ms))
  {
    if ms != [] {
      NoticesFiltered(ms[..|ms| - 1], fq);
    }
  }

  /** The modules notified are told in their order, each the state it is asked for. */
  lemma NoticesExactly(ms: seq<Module>, fq: Text) returns (at: seq<nat>)
    ensures Selection(at, |ms|) && forall i: nat :: i in at <==> i < |ms| && Notifies(ms[i], fq)
    ensures |Notices(ms, fq)| == |at|
    ensures forall k :: 0 <= k < |at| ==>
              Notices(ms, fq)[k] == Notice(ms[at[k]].name, Unescape(NewState(ms[at[k]], fq)))
  {
    NoticesFiltered(ms, fq);
    at := FilterPlaces((m: Module) => Notifies(m, fq), ms);
  }

  lemma StorageSplit(a: Text, b: Text, c: Text)
    requires BAR !in a && BAR !in b
    ensures Split(a, BAR) == [a] && Split(a + [BAR] + b, BAR) == [a, b]
    ensures Split(a + [BAR] + b + [BAR] + c, BAR) == [a, b] + Split(c, BAR)
  {
    SplitNone(a, BAR);
    SplitFirst(a, BAR, b);
    SplitNone(b, BAR);
    SplitTwice(a, b, c);
  }

  lemma SplitTwice(a: Text, b: Text, c: Text)
    requires BAR !in a && BAR !in b
    ensures Split(a + [BAR] + b + [BAR] + c, BAR) == [a, b] + Split(c, BAR)
  {
    SplitFirst(a, BAR, b + [BAR] + c);
    SplitFirst(b, BAR, c);
    BarsAssociate(a, b, c);
    TwoBefore(a, b, Split(c, BAR));
  }

  lemma BarsAssociate(a: Text, b: Text, c: Text)
    ensures a + [BAR] + b + [BAR] + c == a + [BAR] + (b + [BAR] + c)
  {
  }

  lemma TwoBefore(a: Text, b: Text, rest: seq<Text>)
    ensures [a] + ([b] + rest) == [a, b] + rest
  {
  }

  /** A storage field without a bar restores nothing; else each module takes what the first two parts give it. */
  lemma RestoredExactly(ms: seq<Module>, a: Text, b: Text, c: Text, k: nat)
    requires 124 !in a && 124 !in b && k < |ms|
    ensures Restored(ms, a) == ms
    ensures
      var r, s := Restored(ms, a + [124] + b)[k], Restored(ms, a + [124] + b + [124] + c)[k];
      && r == s && r.name == ms[k].name
      && (forall v :: GivenLast(Split(a, 38), r.name, v, true) ==> r.initial == v)
      && (forall v :: GivenLast(Split(b, 38), r.name, v, false) ==> r.current == v)
      && ((forall v :: !GivenLast(Split(a, 38), r.name, v, true)) ==> r.initial == ms[k].initial)
      && ((forall v :: !GivenLast(Split(b, 38), r.name, v, false)) ==> r.current == ms[k].current)
  {
    StorageSplit(a, b, c);
    forall v ensures GivenLast(Split(a, 38), ms[k].name, v, true) <==>
                     LastValue(Split(a, 38), ms[k].name, true) == Some(v)
    {
      LastValueExactly(Split(a, 38), ms[k].name, v, true);
    }
    forall v ensures GivenLast(Split(b, 38), ms[k].name, v, false) <==>
                     LastValue(Split(b, 38), ms[k].name, false) == Some(v)
    {
      LastValueExactly(Split(b, 38), ms[k].name, v, false);
    }
  }

  /** The third part, if there is one, is the list of visits. */
  lemma RestoredVisitsExactly(visited: seq<Option<Text>>, a: Text, b: Text, c: Text)
    requires 124 !in a && 124 !in b && 124 !in c
    ensures RestoredVisits(visited, a) == RestoredVisits(visited, a + [124] + b) == visited
    ensures RestoredVisits(visited, a + [124] + b + [124] + c) == Map((t: Text) => Some(t), Split(c, 44))
  {
    StorageSplit(a, b, c);
    SplitNone(c, BAR);
  }

  // ----- What is printed ------------------------------------------------------------------------

  /** For instance two modules and two visits, of which the first is a hole. */
  lemma PrintedForTwo(m: Module, n: Module, state: Text, visit: Text)
    requires m.name != n.name
    ensures NavigationText([m, n], n.name, state) == m.name + [61] + m.current + [38] + (n.name + [61] + state)
    ensures NavigationText([m, n], m.name, state) == m.name + [61] + state + [38] + (n.name + [61] + n.current)
    ensures
      var initials := m.name + [61] + m.initial + [38] + (n.name + [61] + n.initial);
      var currents := m.name + [61] + m.current + [38] + (n.name + [61] + n.current);
      && StorageText([m, n], [None, Some(visit)], false) == initials + [124] + currents
      && StorageText([m, n], [None, Some(visit)], true) == initials + [124] + currents + [124] + ([44] + visit)
  {
    var ms := [m, n];
    PairOfTexts(NavigationPairs(ms, n.name, state));
    PairOfTexts(NavigationPairs(ms, m.name, state));
    PairOfTexts(InitialPairs(ms));
    PairOfTexts(CurrentPairs(ms));
    var visits := Map(VisitText, [None, Some(visit)]);
    assert visits[1..] == [visit];
    assert Join(visits, COMMA) == [] + [COMMA] + visit == [44] + visit;
  }

  lemma PairOfTexts(parts: seq<Text>)
    requires |parts| == 2
    ensures Join(parts, AMPERSAND) == parts[0] + [38] + parts[1]
  {
    assert parts[1..] == [parts[1]];
  }

  // ----- Visits ---------------------------------------------------------------------------------

  /** A visit is filed at its place, and all other places read as before. */
  lemma SetVisitExactly(visited: seq<Option<Text>>, at: nat, fq: Text, other: nat)
    ensures Visits(SetVisit(visited, at, fq), at) == fq
    ensures other != at ==> Visits(SetVisit(visited, at, fq), other) == Visits(visited, other)
  {
  }

  /** And a poll that sees only another length of the session history finds it there. */
  lemma RecordedVisitPolled(visited: seq<Option<Text>>, at: nat, fq: Text, location: Option<Text>)
    ensures Polled(location, location, at + 1, SetVisit(visited, at, fq)) == fq
    ensures Polled(location, location, 0, visited) == []
    ensures forall hash :: location != hash ==>
              Polled(location, hash, at, visited) == if location.Some? then location.value else []
  {
  }

  // ----- Registration ----------------------------------------------------------------------------

  /** In ASCII the white space is tab, newline, vertical tab, form feed, return and space. */
  lemma AsciiSpaces(c: CodeUnit)
    requires c < 128
    ensures IsSpace(c) <==> c in {9, 10, 11, 12, 13, 32}
  {
  }

  ghost predicate DistinctNames(ms: seq<Module>) {
    forall i, j :: 0 <= i < j < |ms| ==> ms[i].name != ms[j].name
  }

  /**
   An accepted registration leaves exactly one entry of the encoded name, both of whose states decode to the
   initial state given; the entries of other names are as they were, and none is lost.
   */
  lemma RegisteredExactly(ms: seq<Module>, name: Text, initial: Text)
    requires CanRegister(ms, name) && DistinctNames(ms)
    ensures
      var after := Registered(ms, name, initial);
      && (exists i :: 0 <= i < |after| && after[i].name == Escape(name)
                      && Unescape(after[i].initial) == initial == Unescape(after[i].current)
                      && forall j :: 0 <= j < |after| && j != i ==> after[j].name != Escape(name))
      && (forall m: Module :: m.name != Escape(name) ==> (m in after <==> m in ms))
      && DistinctNames(after) && |ms| <= |after| && forall i :: 0 <= i < |ms| ==> after[i].name == ms[i].name
  {
    var m := Module(Escape(name), Escape(initial), Escape(initial));
    UnescapeEscape(initial);
    var i := FiledAt(ms, m);
    assert Registered(ms, name, initial)[i] == m;
    OthersKept(ms, m);
  }

  lemma FiledAt(ms: seq<Module>, m: Module) returns (i: nat)
    requires DistinctNames(ms)
    ensures
      var after := Filed(ms, m);
      && DistinctNames(after) && |ms| <= |after| && (forall k :: 0 <= k < |ms| ==> after[k].name == ms[k].name)
      && i < |after| && after[i] == m && forall j :: 0 <= j < |after| && j != i ==> after[j].name != m.name
  {
    var after := Filed(ms, m);
    if HasModule(ms, m.name) {
      i :| 0 <= i < |ms| && ms[i].name == m.name;
      assert after[i] == m;
    } else {
      i := |ms|;
      assert forall k :: 0 <= k < |ms| ==> after[k] == ms[k] && ms[k].name != m.name;
    }
  }

  lemma OthersKept(ms: seq<Module>, m: Module)
    ensures forall x: Module :: x.name != m.name ==> (x in Filed(ms, m) <==> x in ms)
  {
    var after := Filed(ms, m);
    FiledOnce(ms, m);
    forall x: Module | x.name != m.name && x in ms ensures x in after {
      var k :| 0 <= k < |ms| && ms[k] == x;
      assert after[k] == x;
    }
  }

  /**
   Under a name of unreserved characters the module is found at once, and after the page has been initialized
   with an empty storage field its current state reads as the initial state given.
   */
  lemma RegisteredReads(ms: seq<Module>, name: Text, initial: Text)
    requires CanRegister(ms, name) && (forall c :: c in name ==> Unreserved(c))
    requires DistinctNames(ms)
    ensures
      var after := Restored(Registered(ms, name, initial), []);
      HasModule(after, name)
      && forall i :: 0 <= i < |after| && after[i].name == name ==> Unescape(after[i].current) == initial
  {
    EscapeFixed(name);
    RegisteredExactly(ms, name, initial);
  }
}
