/**
 Dragging nodes out of the desktop client.  The dragged nodes are described in one block of
 memory that is written by the source and read back record by record; the files they stand
 for are then listed in a second block, sized in a first pass and filled in a second one.
 */
module DragOut {
  import opened Sequences

  type Byte = n: nat | n < 256
  type Bytes = seq<Byte>

  const SLASH: Byte := 47

  // ----- The list of files ---------------------------------------------------------------

  function TotalLength(names: seq<Bytes>): nat {
    if names == [] then 0 else TotalLength(names[..|names| - 1]) + |names[|names| - 1]|
  }

  /** Directory and name of each file, each closed by a zero. */
  function FileList(path: Bytes, names: seq<Bytes>): Bytes {
    if names == [] then []
    else FileList(path, names[..|names| - 1]) + path + names[|names| - 1] + [0]
  }

  lemma {:induction false} FileListLength(path: Bytes, names: seq<Bytes>)
    ensures |FileList(path, names)| == TotalLength(names) + |names| * |path| + |names|
  {
    if names != [] {
      var n := |names| - 1;
      FileListLength(path, names[..n]);
      assert (n + 1) * |path| == n * |path| + |path|;
    }
  }

  lemma {:induction false} FileListPrefix(path: Bytes, names: seq<Bytes>, k: nat)
    requires k <= |names|
    ensures |FileList(path, names[..k])| <= |FileList(path, names)|
    decreases |names|
  {
    var n := |names| - 1;
    if k <= n {
      FileListPrefix(path, names[..n], k);
      assert names[..n][..k] == names[..k];
    } else {
      assert names[..k] == names;
    }
  }

  /** Copies bytes into the block; the caller guarantees that they fit. */
  method CopyBytes(block: array<Byte>, at: nat, s: Bytes)
    requires at + |s| <= block.Length
    modifies block
    ensures block[..at] == old(block[..at])
    ensures block[at..at + |s|] == s
    ensures forall k :: at + |s| <= k < block.Length ==> block[k] == old(block[k])
  {
    for i := 0 to |s|
      invariant block[..at] == old(block[..at])
      invariant block[at..at + i] == s[..i]
      invariant forall k :: at + i <= k < block.Length ==> block[k] == old(block[k])
    {
      block[at + i] := s[i];
    }
  }

  /** The first pass. */
  method CountBytes(path: Bytes, names: seq<Bytes>) returns (charCount: nat)
    ensures charCount == |FileList(path, names)| + 1
  {
    charCount := 0;
    for i := 0 to |names|
      invariant charCount == TotalLength(names[..i])
    {
      assert names[..i + 1][..i] == names[..i];
      charCount := charCount + |names[i]|;
    }
    assert names[..|names|] == names;
    charCount := charCount + |names| * |path| + |names| + 1;
    FileListLength(path, names);
  }

  lemma FileListStep(path: Bytes, names: seq<Bytes>, i: nat)
    requires i < |names|
    ensures FileList(path, names[..i + 1]) == FileList(path, names[..i]) + path + names[i] + [0]
    ensures |FileList(path, names[..i + 1])| <= |FileList(path, names)|
  {
    assert names[..i + 1][..i] == names[..i];
    FileListPrefix(path, names, i + 1);
  }

  /** The two passes: the block is one zero longer than what is written into it. */
  method LayOut(path: Bytes, names: seq<Bytes>) returns (block: array<Byte>, written: nat)
    ensures fresh(block)
    ensures block[..] == FileList(path, names) + [0]
    ensures written == |FileList(path, names)| == block.Length - 1
  {
    var charCount := CountBytes(path, names);
    block := new Byte[charCount](_ => 0);
    written := 0;
    for i := 0 to |names|
      invariant written == |FileList(path, names[..i])|
      invariant written <= block.Length - 1
      invariant block[..written] == FileList(path, names[..i])
      invariant forall k :: written <= k < block.Length ==> block[k] == 0
    {
      FileListStep(path, names, i);
      WriteEntry(block, written, path, names[i]);
      written := written + |path| + |names[i]| + 1;
    }
    assert names[..|names|] == names;
    assert block[..] == block[..written] + [block[written]];
  }

  /** One entry, with the zero that ends it. */
  method WriteEntry(block: array<Byte>, at: nat, path: Bytes, name: Bytes)
    requires at + |path| + |name| + 1 <= block.Length
    requires forall k :: at <= k < block.Length ==> block[k] == 0
    modifies block
    ensures block[..at + |path| + |name| + 1] == old(block[..at]) + path + name + [0]
    ensures forall k :: at + |path| + |name| + 1 <= k < block.Length ==> block[k] == 0
  {
    CopyBytes(block, at, path);
    var next := at + |path|;
    assert block[..next] == old(block[..at]) + path;
    CopyBytes(block, next, name + [0]);
    var end := next + |name| + 1;
    assert block[..end] == block[..next] + block[next..end];
  }

  /** The index of the first zero, or the length. */
  function StringLength(s: Bytes): (n: nat)
    ensures n <= |s|
    ensures n < |s| ==> s[n] == 0
    ensures forall k :: 0 <= k < n ==> s[k] != 0
  {
    if s == [] || s[0] == 0 then 0 else 1 + StringLength(s[1..])
  }

  /** How the receiver reads the block: strings up to the first empty one. */
  function ReadFiles(s: Bytes): seq<Bytes> {
    var n := StringLength(s);
    if n == 0 || n == |s| then [] else [s[..n]] + ReadFiles(s[n + 1..])
  }

  function Entries(path: Bytes, names: seq<Bytes>): seq<Bytes> {
    Map((name: Bytes) => path + name, names)
  }

  lemma StringAtFront(s: Bytes, rest: Bytes)
    requires 0 !in s
    ensures StringLength(s + [0] + rest) == |s|
  {
    var t := s + [0] + rest;
    var n := StringLength(t);
    assert t[|s|] == 0;
    assert forall k :: 0 <= k < |s| ==> t[k] == s[k] && s[k] in s;
  }

  lemma AppendEntry(a: Bytes, b: Bytes, path: Bytes, name: Bytes)
    ensures (a + b) + path + name + [0] == a + (b + path + name + [0])
  {
  }

  lemma {:induction false} FileListFront(path: Bytes, names: seq<Bytes>)
    requires names != []
    ensures FileList(path, names) == (path + names[0]) + [0] + FileList(path, names[1..])
  {
    var n := |names| - 1;
    var first := path + names[0] + [0];
    if n == 0 {
      assert names[..0] == [] && names[1..] == [];
    } else {
      var tail := names[1..];
      FileListFront(path, names[..n]);
      assert names[..n][1..] == tail[..n - 1] && tail[n - 1] == names[n];
      AppendEntry(first, FileList(path, tail[..n - 1]), path, names[n]);
    }
  }

  /** The place of the first item whose path and name are both empty, or the number of items. */
  function FirstEmpty(path: Bytes, names: seq<Bytes>): (n: nat)
    ensures n <= |names| && (n < |names| ==> path + names[n] == [])
    ensures forall i :: 0 <= i < n ==> path + names[i] != []
  {
    if names == [] || path + names[0] == [] then 0 else 1 + FirstEmpty(path, names[1..])
  }

  /** Reading the block back gives path and name of every item before the first empty one, in order. */
  lemma {:induction false} ReadBack(path: Bytes, names: seq<Bytes>)
    requires 0 !in path && (forall i :: 0 <= i < |names| ==> 0 !in names[i])
    ensures ReadFiles(FileList(path, names) + [0]) == Entries(path, names[..FirstEmpty(path, names)])
  {
    if names == [] {
      assert FileList(path, names) + [0] == [0];
    } else {
      var first, rest := path + names[0], FileList(path, names[1..]);
      FileListFront(path, names);
      EndAssociates(first, rest);
      assert FileList(path, names) + [0] == first + [0] + (rest + [0]);
      if first == [] {
        assert StringLength(FileList(path, names) + [0]) == 0;
      } else {
        ReadBack(path, names[1..]);
        ReadFirst(first, rest + [0]);
        EntriesFront(path, names, FirstEmpty(path, names));
      }
    }
  }

  lemma EntriesFront(path: Bytes, names: seq<Bytes>, n: nat)
    requires 0 < n <= |names|
    ensures Entries(path, names[..n]) == [path + names[0]] + Entries(path, names[1..][..n - 1])
  {
    assert names[..n] == [names[0]] + names[1..][..n - 1];
  }

  lemma EndAssociates(first: Bytes, rest: Bytes)
    ensures first + [0] + rest + [0] == first + [0] + (rest + [0])
  {
  }

  lemma ReadFirst(s: Bytes, rest: Bytes)
    requires 0 !in s && s != []
    ensures ReadFiles(s + [0] + rest) == [s] + ReadFiles(rest)
  {
    StringAtFront(s, rest);
    var t := s + [0] + rest;
    assert t[..|s|] == s && t[|s| + 1..] == rest;
  }

  /** Exactly when the receiver sees every file: path and name are never both empty. */
  lemma ReadBackExactly(path: Bytes, names: seq<Bytes>)
    requires 0 !in path && (forall i :: 0 <= i < |names| ==> 0 !in names[i])
    ensures ReadFiles(FileList(path, names) + [0]) == Entries(path, names) <==>
            forall i :: 0 <= i < |names| ==> path + names[i] != []
  {
    ReadBack(path, names);
    var n := FirstEmpty(path, names);
    assert n == |names| ==> names[..n] == names;
    assert |Entries(path, names[..n])| == n && |Entries(path, names)| == |names|;
  }

  // ----- The list of dragged nodes ---------------------------------------------------------

  /** The replica number is kept as the 32 bits of the integer. */
  datatype Record = Record(replica: nat, isColl: bool, cut: bool, name: Bytes, path: Bytes)

  function FourBytes(n: nat): Bytes {
    [n % 256, n / 256 % 256, n / 65536 % 256, n / 16777216 % 256]
  }

  function FromBytes(s: Bytes): nat
    requires |s| >= 4
  {
    (s[0] as int) + 256 * (s[1] as int) + 65536 * (s[2] as int) + 16777216 * (s[3] as int)
  }

  lemma FourBytesRoundTrip(n: nat)
    requires n < 0x1_0000_0000
    ensures FromBytes(FourBytes(n)) == n
  {
    var a := n / 256;
    var b := a / 256;
    assert n == 256 * a + n % 256 && a == 256 * b + a % 256 && b == 256 * (b / 256) + b % 256;
    assert n / 65536 == b && n / 16777216 == b / 256;
  }

  lemma LastByte(low: Byte, rest: nat)
    ensures (low + 256 * rest) % 256 == low && (low + 256 * rest) / 256 == rest
  {
  }

  /** The lowest byte comes first. */
  lemma FourBytesOrder(a: Byte, b: Byte, c: Byte, d: Byte)
    ensures FourBytes(a + 256 * b + 65536 * c + 16777216 * d) == [a, b, c, d]
  {
    var y: nat := c + 256 * d;
    var x: nat := b + 256 * y;
    var n: nat := a + 256 * x;
    LastByte(a, x);
    LastByte(b, y);
    LastByte(c, d);
    assert n / 65536 == x / 256 && n / 16777216 == y / 256;
  }

  /** "COLL" or "DATA". */
  function TypeText(isColl: bool): Bytes { if isColl then [67, 79, 76, 76] else [68, 65, 84, 65] }

  /** The cut flag; every letter but Y means no. */
  function CutText(cut: bool): Bytes { if cut then [89] else [78] }

  /** The four strings of a record. */
  function Strings(r: Record): Bytes {
    TypeText(r.isColl) + [0] + (CutText(r.cut) + [0] + (r.name + [0] + (r.path + [0])))
  }

  function RecordBytes(r: Record): Bytes { FourBytes(r.replica) + Strings(r) }

  /** Number, type, flag, name and path: for a collection that is cut, and for a data object that is copied. */
  lemma RecordExactly(replica: nat, name: Bytes, path: Bytes)
    ensures RecordBytes(Record(replica, true, true, name, path)) ==
            FourBytes(replica) + [67, 79, 76, 76, 0, 89, 0] + name + [0] + path + [0]
    ensures RecordBytes(Record(replica, false, false, name, path)) ==
            FourBytes(replica) + [68, 65, 84, 65, 0, 78, 0] + name + [0] + path + [0]
  {
  }

  function RecordsBytes(rs: seq<Record>): Bytes {
    if rs == [] then [] else RecordBytes(rs[0]) + RecordsBytes(rs[1..])
  }

  /** The block ends with a zero replica number and an empty type. */
  function DragBlock(rs: seq<Record>): Bytes { RecordsBytes(rs) + [0, 0, 0, 0, 0] }

  /** The size the writer computes before it allocates the block. */
  function BlockSize(rs: seq<Record>): nat {
    if rs == [] then 5 else 9 + |rs[0].name| + |rs[0].path| + 4 + BlockSize(rs[1..])
  }

  /** The size formula counts exactly the bytes of the block. */
  lemma {:induction false} BlockSizeExact(rs: seq<Record>)
    ensures BlockSize(rs) == |DragBlock(rs)|
  {
    if rs != [] {
      BlockSizeExact(rs[1..]);
    }
  }

  /** The place of the first slash at or after `from`, or the length of the path. */
  function NextSlash(path: Bytes, from: nat): (n: nat)
    requires from <= |path|
    ensures from <= n <= |path| && (n < |path| ==> path[n] == SLASH)
    ensures forall k :: from <= k < n ==> path[k] != SLASH
    decreases |path| - from
  {
    if from == |path| || path[from] == SLASH then from else NextSlash(path, from + 1)
  }

  /**
   Where a record's node is looked up: the path from its second inner slash on, or from the
   only one.  Without an inner slash the record does not set it.
   */
  function LookupPath(path: Bytes): Option<Bytes> {
    var first := if path == [] then 0 else NextSlash(path, 1);
    if first == |path| then None
    else
      var second := NextSlash(path, first + 1);
      Some(path[if second < |path| then second else first..])
  }

  /** Of a path with two or more slashes after its first character, the second and what follows; of one, that. */
  lemma LookupExactly(c: Byte, a: Bytes, b: Bytes, rest: Bytes)
    requires SLASH !in a && SLASH !in b
    ensures LookupPath([c] + a + [47] + b + [47] + rest) == Some([47] + rest)
    ensures LookupPath([c] + a + [47] + b) == Some([47] + b)
    ensures LookupPath([c] + a) == None && LookupPath([]) == None
  {
    var one, two := [c] + a + [47] + b, [c] + a + [47] + b + [47] + rest;
    SlashAt([c] + a, 1, 1 + |a|);
    SlashAt(one, 1, 1 + |a|);
    SlashAt(one, 2 + |a|, |one|);
    SlashAt(two, 1, 1 + |a|);
    SlashAt(two, 2 + |a|, |one|);
    assert one[1 + |a|..] == [47] + b && two[|one|..] == [47] + rest;
  }

  lemma {:induction false} SlashAt(path: Bytes, from: nat, n: nat)
    requires from <= n <= |path| && (n < |path| ==> path[n] == SLASH)
    requires forall k :: from <= k < n ==> path[k] != SLASH
    ensures NextSlash(path, from) == n
  {
  }

  datatype Node = Node(replica: nat, isColl: bool, cut: bool, name: Bytes, lookup: Option<Bytes>)

  function NodeOf(r: Record): Node { Node(r.replica, r.isColl, r.cut, r.name, LookupPath(r.path)) }

  lemma SkipString(s: Bytes, rest: Bytes)
    requires 0 !in s
    ensures StringLength(s + [0] + rest) == |s|
    ensures (s + [0] + rest)[..|s|] == s && (s + [0] + rest)[|s| + 1..] == rest
  {
    StringAtFront(s, rest);
  }

  /** Scans for the second slash after the first character, keeping the last one seen. */
  method FindLookup(path: Bytes) returns (lookup: Option<Bytes>)
    ensures lookup == LookupPath(path)
  {
    lookup := None;
    var z, i: nat := 0, 1;
    ghost var first: nat := 0;
    while i < |path|
      invariant 1 <= i && (i <= |path| || path == []) && z <= 1
      invariant z == 0 && path != [] ==> lookup == None && NextSlash(path, 1) == NextSlash(path, i)
      invariant z == 0 && path == [] ==> lookup == None
      invariant z == 1 ==>
                  && first < i <= |path| && first == NextSlash(path, 1) && lookup == Some(path[first..])
                  && NextSlash(path, first + 1) == NextSlash(path, i)
    {
      if path[i] == SLASH {
        z, lookup := z + 1, Some(path[i..]);
        if z == 2 {
          return;
        }
        first := i;
      }
      i := i + 1;
    }
  }

  /** Reads one zero-terminated string and returns what follows it. */
  method ReadString(s: Bytes, ghost expected: Bytes, ghost after: Bytes) returns (text: Bytes, rest: Bytes)
    requires 0 !in expected && s == expected + [0] + after
    ensures text == expected && rest == after
  {
    SkipString(expected, after);
    var n := StringLength(s);
    text, rest := s[..n], s[n + 1..];
  }

  /** Reads one record and returns what follows it. */
  method ReadRecord(s: Bytes, ghost r: Record, ghost after: Bytes) returns (node: Node, rest: Bytes)
    requires r.replica < 0x1_0000_0000 && 0 !in r.name && 0 !in r.path && s == RecordBytes(r) + after
    ensures node == NodeOf(r) && rest == after
  {
    var replica := FromBytes(s);
    FourBytesRoundTrip(r.replica);
    assert s[..4] == FourBytes(r.replica);
    rest := s[4..];
    ghost var afterName := r.path + [0] + after;
    ghost var afterCut := r.name + [0] + afterName;
    ghost var afterType := CutText(r.cut) + [0] + afterCut;
    assert rest == TypeText(r.isColl) + [0] + afterType;
    var kind, flag, name, path;
    kind, rest := ReadString(rest, TypeText(r.isColl), afterType);
    flag, rest := ReadString(rest, CutText(r.cut), afterCut);
    name, rest := ReadString(rest, r.name, afterName);
    path, rest := ReadString(rest, r.path, after);
    var lookup := FindLookup(path);
    node := Node(replica, kind[0] == 67, flag[0] == 89, name, lookup);
  }

  /** The reader: at least one record, then on until the type after a replica number is empty. */
  method ReadBlock(s: Bytes, ghost rs: seq<Record>) returns (nodes: seq<Node>)
    requires forall i :: 0 <= i < |rs| ==> rs[i].replica < 0x1_0000_0000 && 0 !in rs[i].name && 0 !in rs[i].path
    requires rs != [] && s == DragBlock(rs)
    ensures nodes == Map(NodeOf, rs)
  {
    nodes := [];
    var rest := s;
    var more := true;
    ghost var i := 0;
    while more
      invariant 0 <= i <= |rs|
      invariant nodes == Map(NodeOf, rs[..i])
      invariant rest == DragBlock(rs[i..])
      invariant more <==> i < |rs|
      decreases |rs| - i
    {
      ghost var r, after := rs[i], DragBlock(rs[i + 1..]);
      FirstRecord(rs[i..]);
      assert rs[i..][1..] == rs[i + 1..];
      var node;
      node, rest := ReadRecord(rest, r, after);
      nodes := nodes + [node];
      i := i + 1;
      NextType(rs[i..]);
      more := rest[4] != 0;
    }
    assert rs[..i] == rs;
  }

  lemma FirstRecord(rs: seq<Record>)
    requires rs != []
    ensures DragBlock(rs) == RecordBytes(rs[0]) + DragBlock(rs[1..])
  {
  }

  /** The byte after the next replica number tells whether a record follows. */
  lemma NextType(rs: seq<Record>)
    ensures |DragBlock(rs)| > 4
    ensures DragBlock(rs)[4] != 0 <==> rs != []
  {
  }
}
