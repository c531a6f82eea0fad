/** The `uploads` directory as the three routes see it: the uploads write into
    it (api-server.js:22-27, 69-136), the listing reads it
    (api-server.js:139-174) and the delete route unlinks from it
    (api-server.js:177-202). */
module Registry {
  import opened PathExt
  import opened Formats
  import opened Naming
  import opened Listing
  import opened Ingestion

  /** The delete route's status for `name`: `path.join("uploads", name)` is
      "." for "..", which always exists and cannot be unlinked (500); it is
      the directory itself for ".", which cannot be unlinked when it exists
      (500) and is missing otherwise (404); any other name is a stored file
      (200) or missing (404). */
  function DeleteStatus(dirExists: bool, entries: map<string, Entry>, name: string): (status: nat)
    requires name != [] && Lacks(name, '/')
    ensures status == 200 || status == 404 || status == 500
    ensures status == 200 <==> PlainName(name) && name in entries
    ensures PlainName(name) && name !in entries ==> status == 404
    ensures name == ".." ==> status == 500
    ensures name == "." ==> (status == 500 <==> dirExists)
  {
    if name == ".." then 500
    else if name == "." then (if dirExists then 500 else 404)
    else if name in entries then 200
    else 404
  }

  /** The entries after the delete route ran: the unlinked file is gone. */
  function Deleted(dirExists: bool, entries: map<string, Entry>, name: string): map<string, Entry>
    requires name != [] && Lacks(name, '/')
  {
    if DeleteStatus(dirExists, entries, name) == 200 then entries - {name} else entries
  }

  /** Deleting a stored file removes exactly that entry; a missing name
      leaves the directory as it was. */
  lemma DeleteEffect(dirExists: bool, entries: map<string, Entry>, name: string)
    requires name != [] && Lacks(name, '/')
    requires forall n :: n in entries ==> PlainName(n)
    ensures name !in Deleted(dirExists, entries, name)
    ensures forall n :: n in Deleted(dirExists, entries, name) <==> n in entries && n != name
    ensures forall n :: n in Deleted(dirExists, entries, name) ==> Deleted(dirExists, entries, name)[n] == entries[n]
    ensures name !in entries ==> Deleted(dirExists, entries, name) == entries
  {
  }

  /** A second delete of the same stored name finds nothing: 404, and the
      directory stays as the first delete left it. */
  lemma DeleteTwiceNotFound(dirExists: bool, entries: map<string, Entry>, name: string)
    requires PlainName(name)
    ensures var once := Deleted(dirExists, entries, name);
      && DeleteStatus(dirExists, once, name) == 404
      && Deleted(dirExists, once, name) == once
  {
  }

  /** After a delete the listing no longer shows the name and shows every
      other listable name it showed before. */
  lemma DeletedNotListed(dirExists: bool, entries: map<string, Entry>, name: string)
    requires name != [] && Lacks(name, '/')
    requires forall n :: n in entries ==> PlainName(n)
    ensures ListedNames(Deleted(dirExists, entries, name)) == ListedNames(entries) - {name}
  {
    DeleteEffect(dirExists, entries, name);
  }

  /** Whether the storage engine starts writing a part, which creates the
      directory when it is missing: the first part passes the field, count
      and type checks (a part too large has its write already under way when
      the limit trips). */
  predicate ReachesStorage(route: Route, parts: seq<Part>) {
    parts != [] && (PartError(route, 0, parts[0]).None? || PartError(route, 0, parts[0]) == Some(FileTooLarge))
  }

  /** Every generated name is a plain name. */
  lemma StoredNameOfIsPlain(route: Route, p: Part)
    ensures PlainName(StoredNameOf(route, p))
  {
    assert Lacks(FieldName(route), '/');
    StoredNameIsPlain(FieldName(route), p.now, p.random, p.originalName);
  }

  /** Uploads only ever add plain names. */
  lemma StoreAllKeepsPlain(m: map<string, Entry>, route: Route, parts: seq<Part>)
    requires forall n :: n in m ==> PlainName(n)
    ensures forall n :: n in StoreAll(m, route, parts) ==> PlainName(n)
  {
    forall n | n in StoreAll(m, route, parts) ensures PlainName(n) {
      if n !in m {
        StoreAllOnlyAdds(m, route, parts, n);
        var i :| 0 <= i < |parts| && StoredNameOf(route, parts[i]) == n;
        StoredNameOfIsPlain(route, parts[i]);
      }
    }
  }

  /** The upload directory: whether it exists, and the size and modification
      time of each file in it. */
  class Uploads {
    var dirExists: bool
    var entries: map<string, Entry>

    /** A missing directory holds nothing, and every entry is named directly
        inside it. */
    ghost predicate Valid()
      reads this
    {
      && (!dirExists ==> entries == map[])
      && forall n :: n in entries ==> PlainName(n)
    }

    constructor(dirExists: bool, entries: map<string, Entry>)
      requires !dirExists ==> entries == map[]
      requires forall n :: n in entries ==> PlainName(n)
      ensures Valid()
      ensures this.dirExists == dirExists && this.entries == entries
    {
      this.dirExists := dirExists;
      this.entries := entries;
    }

    /** `fs.readdirSync`: every entry once, in an order the file system
        chooses. */
    method ReadDir() returns (names: seq<string>)
      ensures Distinct(names)
      ensures forall n :: n in names <==> n in entries
    {
      var rest := entries.Keys;
      names := [];
      while rest != {}
        invariant rest <= entries.Keys
        invariant forall n :: n in names <==> n in entries && n !in rest
        invariant Distinct(names)
        decreases |rest|
      {
        var n :| n in rest;
        names := names + [n];
        rest := rest - {n};
      }
    }

    /** `GET /api/files`: nothing when the directory is missing; otherwise
        one record per entry with an accepted extension, describing that
        entry, and nothing else, newest first. The directory is not changed. */
    method List() returns (files: seq<ListedFile>)
      requires Valid()
      ensures !dirExists ==> files == []
      ensures forall f :: f in files ==>
                f.filename in entries && ListingKeeps(f.filename) && f == Describe(f.filename, entries[f.filename])
      ensures forall n :: n in ListedNames(entries) ==> Describe(n, entries[n]) in files
      ensures NamesDistinct(files)
      ensures NewestFirst(files)
    {
      if !dirExists {
        return [];
      }
      var names := ReadDir();
      var kept := KeepListable(names);
      var described := DescribeAll(kept, entries);
      assert NamesDistinct(described) by {
        forall i, j | 0 <= i < j < |described| ensures described[i].filename != described[j].filename {
          assert described[i].filename == kept[i] && described[j].filename == kept[j];
        }
      }
      SortKeepsNamesDistinct(described);
      files := SortNewestFirst(described);
      assert forall f :: f in files <==> f in described by {
        forall f ensures f in files <==> f in described {
          assert f in files <==> f in multiset(files);
          assert f in described <==> f in multiset(described);
        }
      }
      forall n | n in ListedNames(entries) ensures Describe(n, entries[n]) in files {
        var i :| 0 <= i < |kept| && kept[i] == n;
        assert described[i] == Describe(n, entries[n]);
      }
    }

    /** `POST /api/upload` and `POST /api/upload/multiple`: the response is
        the one the admission checks and the handler determine; a stored
        request writes every part under its generated name, a refused one
        leaves the files as they were. The directory is created as soon as a
        part is handed to storage, even when the request is refused later. */
    method Upload(route: Route, parts: seq<Part>, uploadDate: nat) returns (resp: Response)
      requires Valid()
      modifies this
      ensures Valid()
      ensures resp == UploadResponse(route, parts, uploadDate)
      ensures dirExists == (old(dirExists) || ReachesStorage(route, parts))
      ensures resp.Stored? ==> entries == StoreAll(old(entries), route, parts)
      ensures resp.Failed? ==> entries == old(entries)
    {
      resp := UploadResponse(route, parts, uploadDate);
      dirExists := dirExists || ReachesStorage(route, parts);
      if resp.Stored? {
        AdmittedIff(route, parts);
        assert Admissible(route, parts[0]);
        StoreAllKeepsPlain(entries, route, parts);
        entries := StoreAll(entries, route, parts);
      }
    }

    /** `DELETE /api/files/:filename` for a name without '/': the status and
        the directory afterwards are those of `DeleteStatus` and `Deleted`. */
    method Remove(name: string) returns (status: nat)
      requires Valid()
      requires name != [] && Lacks(name, '/')
      modifies this
      ensures Valid()
      ensures status == DeleteStatus(old(dirExists), old(entries), name)
      ensures dirExists == old(dirExists)
      ensures entries == Deleted(old(dirExists), old(entries), name)
    {
      status := DeleteStatus(dirExists, entries, name);
      if status == 200 {
        entries := entries - {name};
      }
    }
  }
}
