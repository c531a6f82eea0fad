/** The pure part of the listing route (api-server.js:146-164): keep the
    directory entries whose extension is accepted, describe each from its stat
    record, and sort the descriptions newest first. */
module Listing {
  import opened Formats

  /** What `fs.statSync` reports about a stored file: its size in bytes and
      its modification time in milliseconds. */
  datatype Entry = Entry(size: nat, mtime: nat)

  /** One element of the listing. `viewerFile` is the name the viewer link
      carries, before URL encoding. */
  datatype ListedFile = ListedFile(filename: string, size: nat, uploadDate: nat,
                                   filePath: string, viewerFile: string)

  /** The locator under which the static server publishes a stored file. */
  function FilePath(name: string): string {
    "/uploads/" + name
  }

  function Describe(name: string, e: Entry): ListedFile {
    ListedFile(name, e.size, e.mtime, FilePath(name), name)
  }

  /** The names the listing shows for a directory holding `m`. */
  function ListedNames(m: map<string, Entry>): set<string> {
    set n | n in m && ListingKeeps(n)
  }

  predicate Distinct(names: seq<string>) {
    forall i, j :: 0 <= i < j < |names| ==> names[i] != names[j]
  }

  predicate NamesDistinct(fs: seq<ListedFile>) {
    forall i, j :: 0 <= i < j < |fs| ==> fs[i].filename != fs[j].filename
  }

  /** Newest first: modification times never increase along the listing. */
  predicate NewestFirst(fs: seq<ListedFile>) {
    forall i, j :: 0 <= i < j < |fs| ==> fs[i].uploadDate >= fs[j].uploadDate
  }

  /** The elements of `s` that satisfy `keep`, in their order. */
  function Filter(s: seq<string>, keep: string -> bool): (r: seq<string>)
    ensures forall x :: x in r <==> x in s && keep(x)
    ensures |r| <= |s|
  {
    if s == [] then []
    else if keep(s[0]) then [s[0]] + Filter(s[1..], keep)
    else Filter(s[1..], keep)
  }

  lemma {:induction false} FilterKeepsDistinct(s: seq<string>, keep: string -> bool)
    ensures Distinct(s) ==> Distinct(Filter(s, keep))
  {
    if s != [] && Distinct(s) {
      FilterKeepsDistinct(s[1..], keep);
      var t := Filter(s[1..], keep);
      assert s[0] !in s[1..];
      assert s[0] !in t;
    }
  }

  /** The `filter` step: the names whose lower-cased extension is accepted, in
      directory order. */
  function KeepListable(names: seq<string>): (r: seq<string>)
    ensures forall n :: n in r <==> n in names && ListingKeeps(n)
    ensures Distinct(names) ==> Distinct(r)
  {
    FilterKeepsDistinct(names, ListingKeeps);
    Filter(names, ListingKeeps)
  }

  /** The `map` step: one description per name, from its stat record. */
  function DescribeAll(names: seq<string>, m: map<string, Entry>): (r: seq<ListedFile>)
    requires forall n :: n in names ==> n in m
    ensures |r| == |names|
    ensures forall i :: 0 <= i < |names| ==> r[i] == Describe(names[i], m[names[i]])
  {
    if names == [] then [] else [Describe(names[0], m[names[0]])] + DescribeAll(names[1..], m)
  }

  /** Prepending an element at least as new as every other keeps the order. */
  lemma NewestFirstCons(a: ListedFile, t: seq<ListedFile>)
    requires NewestFirst(t)
    requires forall j :: 0 <= j < |t| ==> a.uploadDate >= t[j].uploadDate
    ensures NewestFirst([a] + t)
  {
    forall i, j | 0 <= i < j < |[a] + t|
      ensures ([a] + t)[i].uploadDate >= ([a] + t)[j].uploadDate
    {
      assert ([a] + t)[j] == t[j - 1];
      if i > 0 {
        assert ([a] + t)[i] == t[i - 1];
      }
    }
  }

  /** Places `x` before the first element that is not newer than it. */
  function Insert(x: ListedFile, s: seq<ListedFile>): (r: seq<ListedFile>)
    requires NewestFirst(s)
    ensures NewestFirst(r)
    ensures multiset(r) == multiset(s) + multiset{x}
  {
    if s == [] then [x]
    else if x.uploadDate >= s[0].uploadDate then
      NewestFirstCons(x, s);
      [x] + s
    else
      var t := Insert(x, s[1..]);
      assert s == [s[0]] + s[1..];
      assert forall j :: 0 <= j < |t| ==> s[0].uploadDate >= t[j].uploadDate by {
        forall j | 0 <= j < |t| ensures s[0].uploadDate >= t[j].uploadDate {
          assert t[j] in multiset(t);
          if t[j] != x {
            assert t[j] in multiset(s[1..]);
            var k :| 0 <= k < |s[1..]| && s[1..][k] == t[j];
            assert s[k + 1] == t[j];
          }
        }
      }
      NewestFirstCons(s[0], t);
      [s[0]] + t
  }

  lemma {:induction false} InsertKeepsNamesDistinct(x: ListedFile, s: seq<ListedFile>)
    requires NewestFirst(s) && NamesDistinct(s)
    requires forall y :: y in s ==> y.filename != x.filename
    ensures NamesDistinct(Insert(x, s))
  {
    if s != [] && x.uploadDate < s[0].uploadDate {
      InsertKeepsNamesDistinct(x, s[1..]);
      var t := Insert(x, s[1..]);
      forall y | y in t ensures y.filename != s[0].filename {
        assert y in multiset(t);
      }
    }
  }

  /** The `sort` step: a stable insertion sort, newest first, of a
      permutation of its input. */
  function SortNewestFirst(s: seq<ListedFile>): (r: seq<ListedFile>)
    ensures NewestFirst(r)
    ensures multiset(r) == multiset(s)
  {
    if s == [] then []
    else
      assert s == [s[0]] + s[1..];
      Insert(s[0], SortNewestFirst(s[1..]))
  }

  lemma {:induction false} SortKeepsNamesDistinct(s: seq<ListedFile>)
    requires NamesDistinct(s)
    ensures NamesDistinct(SortNewestFirst(s))
  {
    if s != [] {
      SortKeepsNamesDistinct(s[1..]);
      var t := SortNewestFirst(s[1..]);
      forall y | y in t ensures y.filename != s[0].filename {
        assert y in multiset(s[1..]);
        var k :| 0 <= k < |s[1..]| && s[1..][k] == y;
        assert s[k + 1] == y;
      }
      InsertKeepsNamesDistinct(s[0], t);
    }
  }
}
