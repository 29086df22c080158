/**
 The login dialog keeps connection profiles in numbered registry slots 1 to Latest, shows them
 in a list, and remembers their texts in an array it compares new profiles with.  Removing a
 profile shifts the slots and deletes the row, but leaves the array of texts alone.
 */
module LoginProfiles {
  import opened Sequences

  datatype Profile = Profile(name: string, zone: string, host: string, port: string)

  const EMPTY: Profile := Profile("", "", "", "")

  function Text(p: Profile): string { p.name + " in " + p.zone + " at " + p.host + " | " + p.port }

  /** Profiles that differ in one field have different texts. */
  lemma TextTellsFields(p: Profile, q: Profile)
    requires Text(p) == Text(q)
    ensures p.zone == q.zone && p.host == q.host && p.port == q.port ==> p == q
    ensures p.name == q.name && p.host == q.host && p.port == q.port ==> p == q
    ensures p.name == q.name && p.zone == q.zone && p.port == q.port ==> p == q
    ensures p.name == q.name && p.zone == q.zone && p.host == q.host ==> p == q
  {
    if p.host == q.host && p.port == q.port {
      TellsNameAndZone(p, q);
    }
    if p.name == q.name && p.zone == q.zone {
      TellsHostAndPort(p, q);
    }
  }

  lemma TellsNameAndZone(p: Profile, q: Profile)
    requires Text(p) == Text(q) && p.host == q.host && p.port == q.port
    ensures p.zone == q.zone || p.name == q.name ==> p == q
  {
    if p.zone == q.zone {
      SameAround("", p.name, q.name, " in " + p.zone + " at " + p.host + " | " + p.port, p, q);
    } else if p.name == q.name {
      SameAround(p.name + " in ", p.zone, q.zone, " at " + p.host + " | " + p.port, p, q);
    }
  }

  lemma TellsHostAndPort(p: Profile, q: Profile)
    requires Text(p) == Text(q) && p.name == q.name && p.zone == q.zone
    ensures p.port == q.port || p.host == q.host ==> p == q
  {
    if p.port == q.port {
      SameAround(p.name + " in " + p.zone + " at ", p.host, q.host, " | " + p.port, p, q);
    } else if p.host == q.host {
      SameAround(p.name + " in " + p.zone + " at " + p.host + " | ", p.port, q.port, "", p, q);
    }
  }

  lemma SameAround(l: string, a: string, b: string, r: string, p: Profile, q: Profile)
    requires Text(p) == l + a + r && Text(q) == l + b + r && Text(p) == Text(q)
    ensures a == b
  {
    TextAround(l, a, r, p);
    TextAround(l, b, r, q);
  }

  /** A field is the part of the text between the parts before and after it. */
  lemma TextAround(l: string, a: string, r: string, p: Profile)
    requires Text(p) == l + a + r
    ensures |a| == |Text(p)| - |l| - |r| && a == Text(p)[|l|..|l| + |a|]
  {
  }

  class Registry {
    var slots: map<nat, Profile>
    var latest: nat

    constructor (slots: map<nat, Profile>, latest: nat)
      ensures this.slots == slots && this.latest == latest
    {
      this.slots, this.latest := slots, latest;
    }

    /** A missing entry reads as empty. */
    function Read(i: nat): Profile
      reads this
    {
      Entry(slots, i)
    }

    /** What the numbered slots show, whether or not all of them exist. */
    function Listed(): (r: seq<Profile>)
      reads this
      ensures Mirrors(slots, latest, r)
    {
      var now, n := slots, latest;
      seq(n, i requires 0 <= i < n => Entry(now, i + 1))
    }
  }

  function Entry(slots: map<nat, Profile>, i: nat): Profile { if i in slots then slots[i] else EMPTY }

  /** Slots 1 to latest read as the rows. */
  ghost predicate Mirrors(slots: map<nat, Profile>, latest: nat, rows: seq<Profile>) {
    latest == |rows| && forall k :: 1 <= k <= latest ==> Entry(slots, k) == rows[k - 1]
  }

  /** That is, row for row, the slot one number above, or nothing where it is missing. */
  lemma MirrorsExactly(slots: map<nat, Profile>, latest: nat, rows: seq<Profile>)
    ensures Mirrors(slots, latest, rows) <==>
            latest == |rows| &&
            forall k :: 0 <= k < |rows| ==> rows[k] == if k + 1 in slots then slots[k + 1] else Profile("", "", "", "")
  {
    if Mirrors(slots, latest, rows) {
      assert forall k :: 0 <= k < |rows| ==> Entry(slots, k + 1) == rows[k];
    }
  }

  /** The slots after the loop has shifted those up to place j. */
  ghost predicate Shifted(slots: map<nat, Profile>, rows: seq<Profile>, i: nat, j: nat) {
    && i < j <= |rows|
    && forall k :: 1 <= k <= |rows| ==> Entry(slots, k) == rows[if i < k < j then k else k - 1]
  }

  lemma ShiftOne(slots: map<nat, Profile>, rows: seq<Profile>, i: nat, j: nat)
    requires Shifted(slots, rows, i, j) && j < |rows|
    ensures Shifted(slots[j := Entry(slots, j + 1)], rows, i, j + 1)
  {
    var after := slots[j := Entry(slots, j + 1)];
    assert Entry(slots, j + 1) == rows[j];
    forall k | 1 <= k <= |rows| ensures Entry(after, k) == rows[if i < k < j + 1 then k else k - 1] {
      assert Entry(slots, k) == rows[if i < k < j then k else k - 1];
    }
  }

  lemma ShiftDone(slots: map<nat, Profile>, rows: seq<Profile>, i: nat)
    requires Shifted(slots, rows, i, |rows|)
    ensures Mirrors(slots - {|rows|}, |rows| - 1, RemoveAt(rows, i))
  {
    forall k | 1 <= k <= |rows| - 1 ensures Entry(slots - {|rows|}, k) == RemoveAt(rows, i)[k - 1] {
      assert Entry(slots, k) == rows[if i < k < |rows| then k else k - 1];
    }
  }

  lemma SlotAdded(slots: map<nat, Profile>, rows: seq<Profile>, p: Profile)
    requires Mirrors(slots, |rows|, rows)
    ensures Mirrors(slots[|rows| + 1 := p], |rows| + 1, rows + [p])
  {
    var after := slots[|rows| + 1 := p];
    forall k | 1 <= k <= |rows| + 1 ensures Entry(after, k) == (rows + [p])[k - 1] {
      assert k <= |rows| ==> Entry(after, k) == Entry(slots, k);
    }
  }

  class Dialog {
    var rows: seq<Profile>
    var texts: seq<string>

    ghost predicate Valid(registry: Registry)
      reads this, registry
    {
      Mirrors(registry.slots, registry.latest, rows) && |texts| >= |rows|
    }

    ghost function View(): State
      reads this
    {
      State(rows, texts)
    }

    /** Opening the dialog lists the slots in order, whatever the registry holds. */
    constructor (registry: Registry)
      ensures Valid(registry) && rows == registry.Listed() && View() == Opened(registry.Listed())
    {
      var filled: seq<Profile> := [];
      for i := 1 to registry.latest + 1
        invariant filled == registry.Listed()[..i - 1]
      {
        filled := filled + [registry.Read(i)];
      }
      rows, texts := filled, Map(Text, filled);
    }

    /** Refused exactly if one of the first texts, as many as there are rows, is the same. */
    method OnLoginNew(registry: Registry, p: Profile) returns (added: bool)
      requires Valid(registry)
      modifies this, registry
      ensures Valid(registry)
      ensures (forall k :: k in old(registry.slots) ==> k <= old(registry.latest)) ==>
                forall k :: k in registry.slots ==> k <= registry.latest
      ensures added <==> Text(p) !in old(texts)[..|old(rows)|]
      ensures rows == (if added then old(rows) + [p] else old(rows))
      ensures texts == (if added then old(texts) + [Text(p)] else old(texts))
      ensures View() == Step(old(View()), New(p))
    {
      for i := 0 to |rows|
        invariant Text(p) !in texts[..i]
      {
        if texts[i] == Text(p) {
          assert Text(p) in texts[..|rows|];
          return false;
        }
        assert texts[..i + 1] == texts[..i] + [texts[i]];
      }
      SlotAdded(registry.slots, rows, p);
      registry.latest := if registry.latest == 0 then 1 else registry.latest + 1;
      registry.slots := registry.slots[registry.latest := p];
      rows := rows + [p];
      texts := texts + [Text(p)];
      added := true;
    }

    /** Shifts the slots above the removed one down, then erases the last. */
    method OnLoginRemove(registry: Registry, i: nat)
      requires Valid(registry) && i < |rows|
      modifies this, registry
      ensures Valid(registry)
      ensures (forall k :: k in old(registry.slots) ==> k <= old(registry.latest)) ==>
                forall k :: k in registry.slots ==> k <= registry.latest
      ensures rows == RemoveAt(old(rows), i) && texts == old(texts)
      ensures View() == Step(old(View()), Event.Remove(i))
    {
      var latest := registry.latest;
      var j := i + 1;
      while j < latest
        invariant i < j <= latest == |rows| && registry.latest == latest
        invariant rows == old(rows) && texts == old(texts)
        invariant Shifted(registry.slots, rows, i, j)
        invariant (forall k :: k in old(registry.slots) ==> k <= latest) ==>
                    forall k :: k in registry.slots ==> k <= latest
      {
        ShiftOne(registry.slots, rows, i, j);
        registry.slots := registry.slots[j := registry.Read(j + 1)];
        j := j + 1;
      }
      ShiftDone(registry.slots, rows, i);
      registry.slots := registry.slots - {latest};
      registry.latest := latest - 1;
      rows := RemoveAt(rows, i);
    }
  }

  // ----- Steps -------------------------------------------------------------------------------

  datatype State = State(rows: seq<Profile>, texts: seq<string>)
  datatype Event = New(p: Profile) | Remove(i: nat)

  function Opened(stored: seq<Profile>): State { State(stored, Map(Text, stored)) }

  function Step(s: State, e: Event): (t: State)
    requires |s.texts| >= |s.rows|
    ensures |t.texts| >= |t.rows|
  {
    match e
    case New(p) =>
      if Text(p) in s.texts[..|s.rows|] then s else State(s.rows + [p], s.texts + [Text(p)])
    case Remove(i) => if i < |s.rows| then s.(rows := RemoveAt(s.rows, i)) else s
  }

  /** The texts compared with are those of the rows. */
  ghost predicate TextsMatch(s: State) {
    |s.texts| >= |s.rows| && forall k :: 0 <= k < |s.rows| ==> s.texts[k] == Text(s.rows[k])
  }

  ghost predicate DistinctTexts(rows: seq<Profile>) {
    forall i, j :: 0 <= i < j < |rows| ==> Text(rows[i]) != Text(rows[j])
  }

  lemma DistinctTextsExactly(rows: seq<Profile>)
    ensures DistinctTexts(rows) <==> NoDuplicates(Map(Text, rows))
  {
  }

  /**
   While the texts match, New refuses exactly the profiles that are listed.  An accepted
   profile keeps the match exactly if no text is left over, or the next one left is its own.
   */
  lemma NewIsExact(s: State, p: Profile)
    requires TextsMatch(s)
    ensures
      var refused := exists k :: 0 <= k < |s.rows| && Text(s.rows[k]) == Text(p);
      && (Step(s, New(p)) == s <==> refused)
      && (!refused ==> (TextsMatch(Step(s, New(p))) <==> |s.texts| == |s.rows| || s.texts[|s.rows|] == Text(p)))
    ensures DistinctTexts(s.rows) ==> DistinctTexts(Step(s, New(p)).rows)
  {
    var n := |s.rows|;
    assert forall k :: 0 <= k < n ==> s.texts[..n][k] == s.texts[k];
    if Text(p) !in s.texts[..n] {
      var t := Step(s, New(p));
      assert t.rows[n] == p;
    }
  }

  /** Removing a row keeps the texts right exactly if it is the last of rows with distinct texts. */
  lemma RemoveKeepsTextsExactly(s: State, i: nat)
    requires TextsMatch(s) && DistinctTexts(s.rows) && i < |s.rows|
    ensures TextsMatch(Step(s, Remove(i))) <==> i == |s.rows| - 1
  {
    var t := Step(s, Remove(i));
    if i < |s.rows| - 1 {
      assert t.rows[i] == s.rows[i + 1] && t.texts[i] == Text(s.rows[i]);
      assert Text(s.rows[i]) != Text(s.rows[i + 1]);
    }
  }

  /** Once another row has been removed, the last profile can be entered a second time. */
  lemma DuplicateAfterRemove(s: State, i: nat)
    requires TextsMatch(s) && DistinctTexts(s.rows) && i < |s.rows| - 1
    ensures
      var p := s.rows[|s.rows| - 1];
      var t := Step(Step(s, Remove(i)), New(p));
      t.rows == RemoveAt(s.rows, i) + [p] && |t.rows| >= 2 && t.rows[|t.rows| - 2] == p
  {
    var n := |s.rows| - 1;
    var p := s.rows[n];
    var r := Step(s, Remove(i));
    var shown := r.texts[..|r.rows|];
    forall k | 0 <= k < |shown| ensures shown[k] != Text(p) {
      assert shown[k] == Text(s.rows[k]);
    }
  }

  // ----- Runs --------------------------------------------------------------------------------

  function Run(s: State, es: seq<Event>): (t: State)
    requires |s.texts| >= |s.rows|
    ensures |t.texts| >= |t.rows|
    decreases es
  {
    if es == [] then s else Run(Step(s, es[0]), es[1..])
  }

  /** How many rows a run removes. */
  function Removals(s: State, es: seq<Event>): nat
    requires |s.texts| >= |s.rows|
    decreases es
  {
    if es == [] then 0
    else (if es[0].Remove? && es[0].i < |s.rows| then 1 else 0) + Removals(Step(s, es[0]), es[1..])
  }

  /** The texts left over are as many as the rows that were removed. */
  lemma {:induction false} RemovalsCounted(s: State, es: seq<Event>)
    requires |s.texts| >= |s.rows|
    ensures
      var t := Run(s, es);
      |t.texts| - |t.rows| == |s.texts| - |s.rows| + Removals(s, es)
    decreases es
  {
    if es != [] {
      RemovalsCounted(Step(s, es[0]), es[1..]);
    }
  }

  /** Until a row is removed, texts match rows, and the texts of rows stay distinct. */
  lemma {:induction false} RunKeepsDistinct(s: State, es: seq<Event>)
    requires TextsMatch(s) && |s.texts| == |s.rows| && DistinctTexts(s.rows) && Removals(s, es) == 0
    ensures TextsMatch(Run(s, es)) && DistinctTexts(Run(s, es).rows)
    decreases es
  {
    if es != [] {
      if es[0].New? {
        NewIsExact(s, es[0].p);
      }
      RunKeepsDistinct(Step(s, es[0]), es[1..]);
    }
  }

  ghost predicate EnteredTwice(s: State, p: Profile)
    requires |s.texts| >= |s.rows|
  {
    Step(Step(s, New(p)), New(p)).rows == s.rows + [p, p]
  }

  /** A profile whose text is longer than all that are remembered. */
  lemma {:induction false} UnknownProfile(texts: seq<string>) returns (p: Profile)
    ensures forall k :: 0 <= k < |texts| ==> |texts[k]| < |Text(p)|
  {
    p := EMPTY;
    if texts != [] {
      var n := |texts| - 1;
      var q := UnknownProfile(texts[..n]);
      p := Profile(q.name + texts[n] + " ", q.zone, q.host, q.port);
    }
  }

  /** With texts left over, any profile with a text not yet remembered is accepted twice. */
  lemma UnknownEnteredTwice(s: State, p: Profile)
    requires |s.texts| > |s.rows| && Text(p) !in s.texts
    ensures EnteredTwice(s, p)
  {
    var n := |s.rows|;
    var t := Step(s, New(p));
    assert t.texts[..n + 1] == s.texts[..n + 1];
    assert t.rows + [p] == s.rows + [p, p];
  }

  /** From every state of the dialog: some profile can be entered twice if and only if texts are left over. */
  lemma EnteredTwiceExactly(s: State)
    requires |s.texts| >= |s.rows| && (|s.texts| == |s.rows| ==> TextsMatch(s))
    ensures (exists p :: EnteredTwice(s, p)) <==> |s.texts| > |s.rows|
  {
    if |s.texts| > |s.rows| {
      var p := UnknownProfile(s.texts);
      UnknownEnteredTwice(s, p);
    } else {
      forall p ensures !EnteredTwice(s, p) {
        var t := Step(s, New(p));
        assert t == s || t.texts[..|t.rows|][|s.rows|] == Text(p);
        assert Step(t, New(p)) == t;
        assert |t.rows| < |s.rows + [p, p]|;
      }
    }
  }

  /**
   In every run of a dialog opened on profiles with distinct texts: some profile can then be
   entered twice if and only if a row was removed, be it the last; and until then rows stay distinct.
   */
  lemma DuplicatesExactly(stored: seq<Profile>, es: seq<Event>)
    requires DistinctTexts(stored)
    ensures
      var s := Run(Opened(stored), es);
      && ((exists p :: EnteredTwice(s, p)) <==> Removals(Opened(stored), es) > 0)
      && (Removals(Opened(stored), es) == 0 ==> TextsMatch(s) && DistinctTexts(s.rows))
  {
    var start := Opened(stored);
    RemovalsCounted(start, es);
    if Removals(start, es) == 0 {
      RunKeepsDistinct(start, es);
    }
    EnteredTwiceExactly(Run(start, es));
  }
}
