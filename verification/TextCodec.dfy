/**
 The string primitives the history manager of the web client is built from: `escape` and
 `unescape` as section B.2 of ECMA-262 defines them on 16-bit code units, and splitting and
 joining on a one-character separator.
 */
module TextCodec {
  import opened Sequences

  type CodeUnit = n: nat | n < 0x10000
  type Text = seq<CodeUnit>

  const PERCENT: CodeUnit := 37
  const AMPERSAND: CodeUnit := 38
  const COMMA: CodeUnit := 44
  const EQUALS: CodeUnit := 61
  const LOWER_U: CodeUnit := 117
  const BAR: CodeUnit := 124

  // ----- escape and unescape --------------------------------------------------------

  /** Letters, digits and the seven marks @ * _ + - . / are copied. */
  predicate Unreserved(c: CodeUnit) {
    || 48 <= c <= 57 || 65 <= c <= 90 || 97 <= c <= 122
    || c == 64 || c == 42 || c == 95 || c == 43 || c == 45 || c == 46 || c == 47
  }

  lemma UnreservedExactly(c: CodeUnit)
    ensures Unreserved(c) <==>
            c < 128 && var ch := c as char; 'A' <= ch <= 'Z' || 'a' <= ch <= 'z' || '0' <= ch <= '9' || ch in "@*_+-./"
  {
    if c < 128 {
      assert c as char in "@*_+-./" <==> c == 64 || c == 42 || c == 95 || c == 43 || c == 45 || c == 46 || c == 47;
    }
  }

  function HexDigit(d: nat): CodeUnit
    requires d < 16
  {
    if d < 10 then 48 + d else 55 + d
  }

  function HexValue(c: CodeUnit): Option<nat> {
    if 48 <= c <= 57 then Some(c - 48)
    else if 65 <= c <= 70 then Some(c - 55)
    else if 97 <= c <= 102 then Some(c - 87)
    else None
  }

  /** Digits are read in either case. */
  lemma HexExactly(c: CodeUnit)
    ensures HexValue(c).Some? <==> 48 <= c <= 57 || 65 <= c <= 70 || 97 <= c <= 102
    ensures 97 <= c <= 102 ==> HexValue(c) == HexValue(c - 32)
  {
  }

  function EscapeUnit(c: CodeUnit): Text {
    if Unreserved(c) then [c]
    else if c < 256 then [PERCENT, HexDigit(c / 16), HexDigit(c % 16)]
    else [PERCENT, LOWER_U, HexDigit(c / 4096), HexDigit(c / 256 % 16), HexDigit(c / 16 % 16), HexDigit(c % 16)]
  }

  function Escape(s: Text): Text {
    if s == [] then [] else EscapeUnit(s[0]) + Escape(s[1..])
  }

  function LongCode(s: Text): Option<CodeUnit> {
    if |s| >= 6 && s[0] == PERCENT && s[1] == LOWER_U then
      match (HexValue(s[2]), HexValue(s[3]), HexValue(s[4]), HexValue(s[5]))
      case (Some(a), Some(b), Some(c), Some(d)) =>
        if a < 16 && b < 16 && c < 16 && d < 16 then Some(a * 4096 + b * 256 + c * 16 + d) else None
      case _ => None
    else None
  }

  function ShortCode(s: Text): Option<CodeUnit> {
    if |s| >= 3 && s[0] == PERCENT then
      match (HexValue(s[1]), HexValue(s[2]))
      case (Some(a), Some(b)) => if a < 16 && b < 16 then Some(a * 16 + b) else None
      case _ => None
    else None
  }

  /** A malformed sequence is copied. */
  function Unescape(s: Text): Text {
    if s == [] then []
    else
      match LongCode(s)
      case Some(c) => [c] + Unescape(s[6..])
      case None =>
        match ShortCode(s)
        case Some(c) => [c] + Unescape(s[3..])
        case None => [s[0]] + Unescape(s[1..])
  }

  lemma HexInverse(d: nat)
    requires d < 16
    ensures HexValue(HexDigit(d)) == Some(d) && HexDigit(d) != LOWER_U && Unreserved(HexDigit(d))
  {
  }

  predicate UpperHex(c: CodeUnit) { 48 <= c <= 57 || 65 <= c <= 70 }

  /** The three forms: the character itself, a percent sign and two digits, or a percent sign, u and four digits. */
  lemma EscapeForm(c: CodeUnit)
    ensures
      var e := EscapeUnit(c);
      if Unreserved(c) then e == [c]
      else if c < 256 then |e| == 3 && e[0] == 37 && UpperHex(e[1]) && UpperHex(e[2])
      else |e| == 6 && e[0] == 37 && e[1] == 117 && UpperHex(e[2]) && UpperHex(e[3]) && UpperHex(e[4]) && UpperHex(e[5])
  {
  }

  /** Decoding takes digits in either case. */
  lemma EitherCase()
    ensures Unescape([37, 69, 52]) == [228] == Unescape([37, 101, 52])
  {
    assert [37, 69, 52][3..] == [] && [37, 101, 52][3..] == [];
    assert ShortCode([37, 69, 52]) == Some(228) == ShortCode([37, 101, 52]);
  }

  /** A percent sign that begins neither form is copied, and decoding goes on behind it. */
  lemma MalformedCopied(s: Text)
    requires s != [] && s[0] == 37
    requires |s| < 3 || HexValue(s[1]) == None || HexValue(s[2]) == None
    requires |s| < 6 || s[1] != 117 || HexValue(s[2]) == None || HexValue(s[3]) == None
             || HexValue(s[4]) == None || HexValue(s[5]) == None
    ensures Unescape(s) == [37] + Unescape(s[1..])
  {
    assert LongCode(s) == None;
    assert ShortCode(s) == None;
  }

  lemma {:induction false} UnescapePlain(s: Text)
    requires PERCENT !in s
    ensures Unescape(s) == s
  {
    if s != [] {
      UnescapePlain(s[1..]);
      assert s[0] in s && s == [s[0]] + s[1..];
    }
  }

  lemma UnescapeUnit(c: CodeUnit, rest: Text)
    ensures Unescape(EscapeUnit(c) + rest) == [c] + Unescape(rest)
  {
    var e := EscapeUnit(c);
    var s := e + rest;
    if Unreserved(c) {
      assert s[1..] == rest;
    } else if c < 256 {
      HexInverse(c / 16);
      HexInverse(c % 16);
      assert s[3..] == rest;
      assert LongCode(s) == None && ShortCode(s) == Some(c);
    } else {
      HexInverse(c / 4096);
      HexInverse(c / 256 % 16);
      HexInverse(c / 16 % 16);
      HexInverse(c % 16);
      DigitsOf(c);
      assert s[6..] == rest;
      assert LongCode(s) == Some(c);
    }
  }

  lemma DigitsOf(c: nat)
    requires c < 0x10000
    ensures c == c / 4096 * 4096 + c / 256 % 16 * 256 + c / 16 % 16 * 16 + c % 16
  {
    assert c == c / 16 * 16 + c % 16;
    assert c / 16 == c / 256 * 16 + c / 16 % 16;
    assert c / 256 == c / 4096 * 16 + c / 256 % 16;
  }

  /** Decoding undoes encoding, for every sequence of code units. */
  lemma {:induction false} UnescapeEscape(s: Text)
    ensures Unescape(Escape(s)) == s
  {
    if s != [] {
      UnescapeEscape(s[1..]);
      UnescapeUnit(s[0], Escape(s[1..]));
      assert s == [s[0]] + s[1..];
    }
  }

  predicate EscapedUnit(c: CodeUnit) { Unreserved(c) || c == PERCENT }

  /** Encoded text consists of unreserved characters and percent signs. */
  lemma {:induction false} EscapeAlphabet(s: Text)
    ensures forall c :: c in Escape(s) ==> EscapedUnit(c)
  {
    if s != [] {
      EscapeAlphabet(s[1..]);
      var c := s[0];
      if !Unreserved(c) && c < 256 {
        HexInverse(c / 16);
        HexInverse(c % 16);
      } else if !Unreserved(c) {
        HexInverse(c / 4096);
        HexInverse(c / 256 % 16);
        HexInverse(c / 16 % 16);
        HexInverse(c % 16);
      }
      assert forall x :: x in EscapeUnit(c) ==> EscapedUnit(x);
    }
  }

  lemma {:induction false} EscapeLength(s: Text)
    ensures |Escape(s)| >= |s|
    ensures |Escape(s)| == |s| <==> forall c :: c in s ==> Unreserved(c)
  {
    if s != [] {
      EscapeLength(s[1..]);
      assert s == [s[0]] + s[1..];
    }
  }

  /** Encoding leaves exactly the texts of unreserved characters alone. */
  lemma {:induction false} EscapeFixed(s: Text)
    ensures Escape(s) == s <==> forall c :: c in s ==> Unreserved(c)
  {
    EscapeLength(s);
    if forall c :: c in s ==> Unreserved(c) {
      EscapeUnreserved(s);
    }
  }

  lemma {:induction false} EscapeUnreserved(s: Text)
    requires forall c :: c in s ==> Unreserved(c)
    ensures Escape(s) == s
  {
    if s != [] {
      assert s[0] in s;
      EscapeUnreserved(s[1..]);
      assert s == [s[0]] + s[1..];
    }
  }

  lemma EscapeEmpty(s: Text)
    ensures Escape(s) == [] <==> s == []
  {
  }

  // ----- Splitting and joining --------------------------------------------------------

  function Split(s: Text, sep: CodeUnit): (parts: seq<Text>)
    ensures |parts| >= 1
  {
    if s == [] then [[]]
    else
      var rest := Split(s[1..], sep);
      if s[0] == sep then [[]] + rest else [[s[0]] + rest[0]] + rest[1..]
  }

  function Join(parts: seq<Text>, sep: CodeUnit): Text {
    if parts == [] then []
    else if |parts| == 1 then parts[0]
    else parts[0] + [sep] + Join(parts[1..], sep)
  }

  /** No part of a split contains the separator. */
  lemma {:induction false} SplitParts(s: Text, sep: CodeUnit)
    ensures forall i :: 0 <= i < |Split(s, sep)| ==> sep !in Split(s, sep)[i]
  {
    if s != [] {
      SplitParts(s[1..], sep);
    }
  }

  /** Splitting introduces no character. */
  lemma {:induction false} SplitAlphabet(s: Text, sep: CodeUnit, c: CodeUnit)
    requires c !in s
    ensures forall i :: 0 <= i < |Split(s, sep)| ==> c !in Split(s, sep)[i]
  {
    if s != [] {
      SplitAlphabet(s[1..], sep, c);
    }
  }

  lemma {:induction false} SplitFirst(a: Text, sep: CodeUnit, rest: Text)
    requires sep !in a
    ensures Split(a + [sep] + rest, sep) == [a] + Split(rest, sep)
  {
    var s := a + [sep] + rest;
    if a == [] {
      assert s[1..] == rest;
    } else {
      SplitFirst(a[1..], sep, rest);
      assert s[1..] == a[1..] + [sep] + rest;
      assert a == [a[0]] + a[1..] && a[0] in a;
    }
  }

  lemma {:induction false} SplitNone(a: Text, sep: CodeUnit)
    requires sep !in a
    ensures Split(a, sep) == [a]
  {
    if a != [] {
      SplitNone(a[1..], sep);
      assert a == [a[0]] + a[1..] && a[0] in a;
    }
  }

  /** Splitting undoes joining when no part contains the separator. */
  lemma {:induction false} SplitJoin(parts: seq<Text>, sep: CodeUnit)
    requires parts != [] && forall i :: 0 <= i < |parts| ==> sep !in parts[i]
    ensures Split(Join(parts, sep), sep) == parts
  {
    if |parts| == 1 {
      SplitNone(parts[0], sep);
    } else {
      SplitJoin(parts[1..], sep);
      SplitFirst(parts[0], sep, Join(parts[1..], sep));
    }
  }

  /** Joining undoes splitting, always. */
  lemma {:induction false} JoinSplit(s: Text, sep: CodeUnit)
    ensures Join(Split(s, sep), sep) == s
  {
    if s != [] {
      var rest := Split(s[1..], sep);
      JoinSplit(s[1..], sep);
      assert s == [s[0]] + s[1..];
      if s[0] == sep {
        assert ([[]] + rest)[1..] == rest;
      } else if |rest| > 1 {
        assert ([[s[0]] + rest[0]] + rest[1..])[1..] == rest[1..];
        assert [s[0]] + (rest[0] + [sep] + Join(rest[1..], sep)) == [s[0]] + rest[0] + [sep] + Join(rest[1..], sep);
      }
    }
  }

  lemma {:induction false} JoinAlphabet(parts: seq<Text>, sep: CodeUnit, c: CodeUnit)
    requires c != sep && forall i :: 0 <= i < |parts| ==> c !in parts[i]
    ensures c !in Join(parts, sep)
  {
    if |parts| > 1 {
      JoinAlphabet(parts[1..], sep, c);
    }
  }
}
