/** Trimming of texts, as the string class of the desktop client does it. */
module Strings {

  predicate IsBlank(c: char) { c == ' ' || c == '\t' || c == '\n' || c == '\r' }

  function TrimLeft(s: string): string {
    if s != "" && IsBlank(s[0]) then TrimLeft(s[1..]) else s
  }

  function TrimRight(s: string): string {
    if s != "" && IsBlank(s[|s| - 1]) then TrimRight(s[..|s| - 1]) else s
  }

  function Trim(s: string): string { TrimRight(TrimLeft(s)) }

  lemma BlankExactly(c: char)
    ensures IsBlank(c) <==> c in " \t\n\r"
  {
  }

  /** The trimmed text lies between places i and j: blanks only are cut at both ends, and all of them. */
  ghost predicate Bare(s: string, i: nat, j: nat) {
    && i <= j <= |s|
    && (forall k :: 0 <= k < i || j <= k < |s| ==> IsBlank(s[k]))
    && (i < j ==> !IsBlank(s[i]) && !IsBlank(s[j - 1]))
  }

  lemma TrimExactly(s: string) returns (i: nat, j: nat)
    ensures Bare(s, i, j) && Trim(s) == s[i..j]
  {
    i := TrimLeftCuts(s);
    j := TrimRightCuts(s[i..]);
    assert forall k :: i + j <= k < |s| ==> s[i..][k - i] == s[k];
    assert j > 0 ==> s[i..][j - 1] == s[i + j - 1];
    j := i + j;
  }

  lemma {:induction false} TrimLeftCuts(s: string) returns (i: nat)
    ensures i <= |s| && TrimLeft(s) == s[i..] && (i < |s| ==> !IsBlank(s[i]))
    ensures forall k :: 0 <= k < i ==> IsBlank(s[k])
  {
    i := 0;
    if s != "" && IsBlank(s[0]) {
      i := TrimLeftCuts(s[1..]);
      assert forall k :: 1 <= k < |s| ==> s[k] == s[1..][k - 1];
      i := i + 1;
    }
  }

  lemma {:induction false} TrimRightCuts(s: string) returns (j: nat)
    ensures j <= |s| && TrimRight(s) == s[..j] && (j > 0 ==> !IsBlank(s[j - 1]))
    ensures forall k :: j <= k < |s| ==> IsBlank(s[k])
  {
    j := |s|;
    if s != "" && IsBlank(s[|s| - 1]) {
      j := TrimRightCuts(s[..|s| - 1]);
      assert s[..|s| - 1][..j] == s[..j];
    }
  }

  /** Only one pair of places is like that, so a text of which they are known trims to what stands between. */
  lemma TrimBetween(s: string, i: nat, j: nat)
    requires Bare(s, i, j)
    ensures Trim(s) == s[i..j]
  {
    var a, b := TrimExactly(s);
    assert a < b ==> i <= a < j && i <= b - 1 < j;
  }
}
