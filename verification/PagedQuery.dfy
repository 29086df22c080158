/**
 Catalog queries are answered in pages.  A page that is full carries a continuation index,
 whether or not rows remain; asking for rows beyond the last one is an error.  The client
 collects the two columns of all pages in two arrays and returns the number of rows.
 */
module PagedQuery {
  import opened Sequences
  import opened Strings

  datatype Row = Row(coll: string, name: string)

  /** Negative status codes of the catalog. */
  datatype Status = Ok | NoRows | Failure

  /** The answers to one query.  Which requests the catalog fails is settled beforehand. */
  class Catalog {
    const rows: seq<Row>
    const pageSize: nat
    const fails: nat -> bool   // by the number of rows served before the request
    var served: nat

    constructor (rows: seq<Row>, pageSize: nat, fails: nat -> bool)
      requires pageSize > 0
      ensures Valid() && this.rows == rows && this.pageSize == pageSize && this.fails == fails && served == 0
    {
      this.rows, this.pageSize, this.fails, served := rows, pageSize, fails, 0;
    }

    ghost predicate Valid()
      reads this
    {
      pageSize > 0 && served <= |rows|
    }

    /** The rows a client gets that asks on while pages are full and succeed. */
    ghost function Obtained(): nat
      reads this
      requires Valid()
    {
      Obtainable(|rows|, pageSize, fails, served)
    }

    /** The next page, unless the catalog fails or has no more rows. */
    method NextPage() returns (status: Status, page: seq<Row>, more: bool)
      requires Valid()
      modifies this
      ensures Valid()
      ensures status == if fails(old(served)) then Failure else if old(served) == |rows| then NoRows else Ok
      ensures status == Ok ==>
                && old(served) < served <= |rows| && page == rows[old(served)..served]
                && |page| <= pageSize && (|page| < pageSize ==> served == |rows|) && (more <==> |page| == pageSize)
      ensures status != Ok ==> served == old(served)
    {
      page, more := [], false;
      if fails(served) {
        return Failure, page, more;
      }
      if served == |rows| {
        return NoRows, page, more;
      }
      var next := if served + pageSize < |rows| then served + pageSize else |rows|;
      page, more := rows[served..next], next == served + pageSize;
      served := next;
      status := Ok;
    }
  }

  /** The rows obtained by the time a request fails, finds no rows, or brings a page that is not full. */
  function Obtainable(total: nat, size: nat, fails: nat -> bool, n: nat): (m: nat)
    requires size > 0 && n <= total
    ensures n <= m <= total
    decreases total - n
  {
    if fails(n) || n == total then n
    else if n + size <= total then Obtainable(total, size, fails, n + size)
    else total
  }

  /** The number of rows in so many full pages. */
  function Pages(k: nat, size: nat): nat {
    if k == 0 then 0 else Pages(k - 1, size) + size
  }

  /** What is obtained is everything exactly if no request failed, else all pages before the failure. */
  lemma {:induction false} ObtainedExactly(total: nat, size: nat, fails: nat -> bool, k: nat)
    requires size > 0 && Pages(k, size) <= total
    ensures
      var m := Obtainable(total, size, fails, Pages(k, size));
      && (m == total <==> forall i :: i >= k && Pages(i, size) < total ==> !fails(Pages(i, size)))
      && (m < total ==> fails(m) && exists i :: i >= k && m == Pages(i, size))
    decreases total - Pages(k, size)
  {
    var n := Pages(k, size);
    forall i | i >= k ensures Pages(i, size) >= n && (i > k ==> Pages(i, size) >= n + size) {
      PagesGrow(k, i, size);
      if i > k {
        PagesGrow(k + 1, i, size);
      }
    }
    if !fails(n) && n + size <= total {
      ObtainedExactly(total, size, fails, k + 1);
    }
  }

  lemma {:induction false} PagesGrow(k: nat, i: nat, size: nat)
    requires k <= i
    ensures Pages(k, size) <= Pages(i, size)
  {
    if k < i {
      PagesGrow(k, i - 1, size);
    }
  }

  /** What a file name or metadata search leaves in the arrays of its caller. */
  datatype Result = Result(status: Status, total: nat, colls: seq<string>, names: seq<string>)

  /** Both arrays have received the first n rows. */
  ghost predicate Collected(colls: seq<string>, names: seq<string>, oldColls: seq<string>, oldNames: seq<string>,
                            rows: seq<Row>, n: nat)
  {
    && n <= |rows| && |colls| == |oldColls| + n && |names| == |oldNames| + n
    && oldColls <= colls && oldNames <= names
    && forall k :: 0 <= k < n ==> colls[|oldColls| + k] == rows[k].coll && names[|oldNames| + k] == rows[k].name
  }

  lemma CollectOne(colls: seq<string>, names: seq<string>, oldColls: seq<string>, oldNames: seq<string>,
                   rows: seq<Row>, n: nat)
    requires Collected(colls, names, oldColls, oldNames, rows, n) && n < |rows|
    ensures Collected(colls + [rows[n].coll], names + [rows[n].name], oldColls, oldNames, rows, n + 1)
  {
  }

  lemma CollectedFromNone(colls: seq<string>, names: seq<string>, none: seq<string>, rows: seq<Row>, n: nat)
    requires Collected(colls, names, none, none, rows, n) && |none| == 0
    ensures |colls| == |names| == n <= |rows|
    ensures forall k :: 0 <= k < n ==> colls[k] == rows[k].coll && names[k] == rows[k].name
  {
    forall k | 0 <= k < n ensures colls[k] == rows[k].coll && names[k] == rows[k].name {
      assert colls[|none| + k] == rows[k].coll && names[|none| + k] == rows[k].name;
    }
  }

  /** Copies the rows of one page. */
  method CollectPage(page: seq<Row>, colls: seq<string>, names: seq<string>, total: nat,
                     ghost oldColls: seq<string>, ghost oldNames: seq<string>, ghost rows: seq<Row>)
    returns (outColls: seq<string>, outNames: seq<string>, outTotal: nat)
    requires Collected(colls, names, oldColls, oldNames, rows, total)
    requires total + |page| <= |rows| && page == rows[total..total + |page|]
    ensures outTotal == total + |page|
    ensures Collected(outColls, outNames, oldColls, oldNames, rows, outTotal)
  {
    outColls, outNames, outTotal := colls, names, total;
    for i := 0 to |page|
      invariant outTotal == total + i
      invariant Collected(outColls, outNames, oldColls, oldNames, rows, outTotal)
    {
      CollectOne(outColls, outNames, oldColls, oldNames, rows, outTotal);
      outColls, outNames, outTotal := outColls + [page[i].coll], outNames + [page[i].name], outTotal + 1;
    }
  }

  /**
   The loop shared by both searches, after a first page has arrived: it goes on while pages
   are full and succeed.  A later failure ends it without being reported.
   */
  method CollectPages(catalog: Catalog, first: seq<Row>, firstMore: bool, colls: seq<string>, names: seq<string>)
    returns (r: Result)
    requires catalog.Valid() && catalog.served == |first|
    requires |first| == catalog.pageSize || |first| == |catalog.rows| < catalog.pageSize
    requires first == catalog.rows[..|first|] && (firstMore <==> |first| == catalog.pageSize)
    modifies catalog
    ensures r.status == Ok
    ensures r.total == if firstMore then old(catalog.Obtained()) else |first|
    ensures Collected(r.colls, r.names, colls, names, catalog.rows, r.total)
  {
    ghost var rows, goal := catalog.rows, if firstMore then catalog.Obtained() else |first|;
    var outColls, outNames, total := CollectPage(first, colls, names, 0, colls, names, rows);
    var more, status, page := firstMore, Ok, [];
    while status == Ok && more
      invariant catalog.Valid()
      invariant Collected(outColls, outNames, colls, names, rows, total)
      invariant if status == Ok && more then total == catalog.served && catalog.Obtained() == goal else total == goal
      decreases |rows| - total, if status == Ok && more then 1 else 0
    {
      status, page, more := catalog.NextPage();
      if status == Ok {
        outColls, outNames, total := CollectPage(page, outColls, outNames, total, colls, names, rows);
      }
    }
    r := Result(Ok, total, outColls, outNames);
  }

  /** A file name search clears the arrays, but only once there is a row. */
  method QueryFilename(catalog: Catalog, colls: seq<string>, names: seq<string>) returns (r: Result)
    requires catalog.Valid() && catalog.served == 0
    modifies catalog
    ensures r.status == if catalog.fails(0) then Failure else Ok
    ensures r.total == Obtainable(|catalog.rows|, catalog.pageSize, catalog.fails, 0)
    ensures if catalog.fails(0) || catalog.rows == [] then r.colls == colls && r.names == names
            else r.total > 0 && |r.colls| == |r.names| == r.total
                 && forall k :: 0 <= k < r.total ==>
                      r.colls[k] == catalog.rows[k].coll && r.names[k] == catalog.rows[k].name
    ensures r.status == Ok ==> (r.total == |r.colls| <==> catalog.rows != [] || colls == [])
  {
    var status, page, more := catalog.NextPage();
    if status == NoRows {
      return Result(Ok, 0, colls, names);
    }
    if status == Failure {
      return Result(Failure, 0, colls, names);
    }
    assert page == catalog.rows[..|page|];
    r := CollectPages(catalog, page, more, [], []);
    CollectedFromNone(r.colls, r.names, [], catalog.rows, r.total);
  }

  /** A metadata search never clears them, so that its rows follow those of earlier searches. */
  method QueryMetadata(catalog: Catalog, colls: seq<string>, names: seq<string>) returns (r: Result)
    requires catalog.Valid() && catalog.served == 0
    modifies catalog
    ensures r.status == if catalog.fails(0) then Failure else Ok
    ensures r.total == Obtainable(|catalog.rows|, catalog.pageSize, catalog.fails, 0)
    ensures |r.colls| == |colls| + r.total && |r.names| == |names| + r.total && colls <= r.colls && names <= r.names
    ensures forall k :: 0 <= k < r.total ==>
              r.colls[|colls| + k] == catalog.rows[k].coll && r.names[|names| + k] == catalog.rows[k].name
    ensures r.total == |r.colls| <==> colls == []
  {
    var status, page, more := catalog.NextPage();
    if status == NoRows {
      return Result(Ok, 0, colls, names);
    }
    if status == Failure {
      return Result(Failure, 0, colls, names);
    }
    assert page == catalog.rows[..|page|];
    r := CollectPages(catalog, page, more, colls, names);
  }

  // ----- Children of a collection -----------------------------------------------------------

  datatype Child = Child(name: string, path: string)
  datatype ListedObj = ListedObj(name: string, parent: string)

  /** The part of a path after its last slash. */
  function LastName(path: string): string {
    if path == "" || path[|path| - 1] == '/' then "" else LastName(path[..|path| - 1]) + [path[|path| - 1]]
  }

  /** What a row contributes: one final slash and outer blanks go, and so do blank rows and the parent. */
  function ChildOf(parent: string, listed: string): seq<Child> {
    var path := Trim(if listed != "" && listed[|listed| - 1] == '/' then listed[..|listed| - 1] else listed);
    if path == "" || path == parent then [] else [Child(LastName(path), path)]
  }

  function ChildLister(parent: string): Row -> seq<Child> { (r: Row) => ChildOf(parent, r.coll) }

  /** What the first n rows contribute, in order. */
  function Gathered<T>(f: Row -> seq<T>, rows: seq<Row>, n: nat): seq<T>
    requires n <= |rows|
  {
    if n == 0 then [] else Gathered(f, rows, n - 1) + f(rows[n - 1])
  }

  lemma GatheredOne<T>(f: Row -> seq<T>, rows: seq<Row>, n: nat)
    requires n < |rows|
    ensures Gathered(f, rows, n + 1) == Gathered(f, rows, n) + f(rows[n])
  {
  }

  method GatherPage<T>(page: seq<Row>, f: Row -> seq<T>, gathered: seq<T>, ghost rows: seq<Row>, ghost n: nat)
    returns (r: seq<T>)
    requires n + |page| <= |rows| && page == rows[n..n + |page|] && gathered == Gathered(f, rows, n)
    ensures r == Gathered(f, rows, n + |page|)
  {
    r := gathered;
    for i := 0 to |page|
      invariant r == Gathered(f, rows, n + i)
    {
      GatheredOne(f, rows, n + i);
      assert page[i] == rows[n + i];
      r := r + f(page[i]);
    }
  }

  /** The loop over the pages after the first. */
  method GatherPages<T>(catalog: Catalog, f: Row -> seq<T>, first: seq<Row>, firstMore: bool) returns (r: seq<T>)
    requires catalog.Valid() && catalog.served == |first|
    requires |first| == catalog.pageSize || |first| == |catalog.rows| < catalog.pageSize
    requires first == catalog.rows[..|first|] && (firstMore <==> |first| == catalog.pageSize)
    modifies catalog
    ensures r == Gathered(f, catalog.rows, if firstMore then old(catalog.Obtained()) else |first|)
  {
    ghost var rows, goal := catalog.rows, if firstMore then catalog.Obtained() else |first|;
    r := GatherPage(first, f, [], rows, 0);
    ghost var n: nat := |first|;
    var more, status, page := firstMore, Ok, [];
    while status == Ok && more
      invariant catalog.Valid() && n <= |rows| && r == Gathered(f, rows, n)
      invariant if status == Ok && more then n == catalog.served && catalog.Obtained() == goal else n == goal
      decreases |rows| - n, if status == Ok && more then 1 else 0
    {
      status, page, more := catalog.NextPage();
      if status == Ok {
        r := GatherPage(page, f, r, rows, n);
        n := n + |page|;
      }
    }
  }

  /** A listing of children empties the array also when there are none, and keeps it on a failure. */
  method ListChildren<T>(catalog: Catalog, f: Row -> seq<T>, children: seq<T>) returns (ok: bool, r: seq<T>)
    requires catalog.Valid() && catalog.served == 0
    modifies catalog
    ensures ok <==> !catalog.fails(0)
    ensures r == if ok then Gathered(f, catalog.rows, Obtainable(|catalog.rows|, catalog.pageSize, catalog.fails, 0))
                 else children
  {
    ok, r := true, [];
    var status, page, more := catalog.NextPage();
    if status == NoRows {
      return;
    }
    if status == Failure {
      return false, children;
    }
    assert page == catalog.rows[..|page|];
    r := GatherPages(catalog, f, page, more);
  }

  method GetChildCollections(catalog: Catalog, parent: string, children: seq<Child>) returns (ok: bool, r: seq<Child>)
    requires catalog.Valid() && catalog.served == 0
    modifies catalog
    ensures ok <==> !catalog.fails(0)
    ensures r == if ok then Gathered(ChildLister(parent), catalog.rows,
                                     Obtainable(|catalog.rows|, catalog.pageSize, catalog.fails, 0)) else children
  {
    ok, r := ListChildren(catalog, ChildLister(parent), children);
  }

  /** A data object is listed with the parent asked for. */
  function ObjLister(parent: string): Row -> seq<ListedObj> { (r: Row) => [ListedObj(r.name, parent)] }

  method GetChildObjs(catalog: Catalog, parent: string, children: seq<ListedObj>)
    returns (ok: bool, r: seq<ListedObj>)
    requires catalog.Valid() && catalog.served == 0
    modifies catalog
    ensures ok <==> !catalog.fails(0)
    ensures if ok then |r| == Obtainable(|catalog.rows|, catalog.pageSize, catalog.fails, 0)
                       && forall k :: 0 <= k < |r| ==> r[k] == ListedObj(catalog.rows[k].name, parent)
            else r == children
  {
    ok, r := ListChildren(catalog, ObjLister(parent), children);
    if ok {
      GatheredSingles(ObjLister(parent), catalog.rows, Obtainable(|catalog.rows|, catalog.pageSize, catalog.fails, 0),
                      Map((row: Row) => ListedObj(row.name, parent), catalog.rows));
    }
  }

  lemma {:induction false} GatheredSingles<T>(f: Row -> seq<T>, rows: seq<Row>, n: nat, xs: seq<T>)
    requires n <= |rows| && n <= |xs| && forall k :: 0 <= k < n ==> f(rows[k]) == [xs[k]]
    ensures Gathered(f, rows, n) == xs[..n]
  {
    if n > 0 {
      GatheredSingles(f, rows, n - 1, xs);
      assert xs[..n] == xs[..n - 1] + [xs[n - 1]];
    }
  }

  lemma {:induction false} LastNameExact(path: string, name: string)
    requires '/' !in name
    ensures LastName(path + "/" + name) == name && LastName(name) == name
  {
    if name != "" {
      var n := |name| - 1;
      assert name[n] in name;
      assert path + "/" + name == (path + "/" + name[..n]) + [name[n]];
      LastNameExact(path, name[..n]);
    }
  }

  /** The path of a child, as the catalog lists it, with or without a final slash. */
  lemma PlainChildListed(parent: string, name: string)
    requires parent != "" && !IsBlank(parent[0]) && name != "" && '/' !in name && !IsBlank(name[|name| - 1])
    ensures ChildOf(parent, parent + "/" + name) == [Child(name, parent + "/" + name)]
    ensures ChildOf(parent, parent + "/" + name + "/") == [Child(name, parent + "/" + name)]
  {
    assert (parent + "/" + name + "/")[..|parent + "/" + name|] == parent + "/" + name;
    var path := parent + "/" + name;
    assert path[0] == parent[0] && path[|path| - 1] == name[|name| - 1] && name[|name| - 1] in name;
    assert |path| > |parent|;
    LastNameExact(parent, name);
  }

  /** The parent itself is no child, with blanks around it or with a slash at its end. */
  lemma ParentNotListed(listed: string, i: nat, j: nat)
    requires Bare(listed, i, j) && (listed != "" ==> listed[|listed| - 1] != '/')
    ensures ChildOf(listed[i..j], listed) == []
  {
    TrimBetween(listed, i, j);
  }

  lemma ParentWithSlashNotListed(parent: string)
    requires Bare(parent, 0, |parent|)
    ensures ChildOf(parent, parent + "/") == []
  {
    TrimBetween(parent, 0, |parent|);
    assert (parent + "/")[..|parent|] == parent;
  }

  /** And neither is a blank path. */
  lemma BlankNotListed(parent: string, blanks: string)
    requires forall k :: 0 <= k < |blanks| ==> IsBlank(blanks[k])
    ensures ChildOf(parent, blanks) == ChildOf(parent, blanks + "/") == []
  {
    TrimBetween(blanks, 0, 0);
    assert (blanks + "/")[..|blanks|] == blanks;
  }

  /** The listing of a collection holds all its children by name and path, in order. */
  lemma {:induction false} PlainListing(parent: string, rows: seq<Row>, children: seq<Child>)
    requires |rows| == |children| && parent != "" && !IsBlank(parent[0])
    requires forall k :: 0 <= k < |rows| ==>
               var c := children[k];
               && c.name != "" && '/' !in c.name && !IsBlank(c.name[|c.name| - 1])
               && rows[k].coll == c.path == parent + "/" + c.name
    ensures Gathered(ChildLister(parent), rows, |rows|) == children
  {
    forall k | 0 <= k < |rows| ensures ChildLister(parent)(rows[k]) == [children[k]] {
      var c := children[k];
      PlainChildListed(parent, c.name);
      assert ChildOf(parent, rows[k].coll) == [c];
    }
    GatheredSingles(ChildLister(parent), rows, |rows|, children);
  }
}
