/** The stored-name generator of the disk storage: the form field's name, the
    clock reading in milliseconds, a random integer and the original file's
    extension, joined by '-' (api-server.js:29-33). The clock and the random
    draw are parameters. */
module Naming {
  import opened Decimal
  import opened PathExt
  import opened Formats

  /** `fieldname-now-random` followed by the original extension, its case kept. */
  function StoredName(fieldname: string, now: nat, random: nat, originalName: string): (s: string)
    ensures |s| >= |fieldname| + 4
    ensures s[..|fieldname|] == fieldname && s[|fieldname|] == '-'
  {
    fieldname + "-" + Dec(now) + "-" + Dec(random) + Extname(originalName)
  }

  /** A name that names an entry directly inside the upload directory:
      non-empty, without '/', and neither "." nor "..". */
  predicate PlainName(s: string) {
    s != [] && Lacks(s, '/') && s != "." && s != ".."
  }

  lemma DigitsLack(s: string, c: char)
    requires AllDigits(s) && !IsDigit(c)
    ensures Lacks(s, c)
  {
  }

  /** The part of a stored name before its extension. */
  function Stem(fieldname: string, now: nat, random: nat): string {
    fieldname + "-" + Dec(now) + "-" + Dec(random)
  }

  lemma StemShape(fieldname: string, now: nat, random: nat)
    requires Lacks(fieldname, '/')
    ensures |Stem(fieldname, now, random)| >= 4
    ensures Lacks(Stem(fieldname, now, random), '/')
  {
    var t, r := Dec(now), Dec(random);
    var s := Stem(fieldname, now, random);
    DigitsLack(t, '/');
    DigitsLack(r, '/');
    forall i | 0 <= i < |s| ensures s[i] != '/' {
      if i < |fieldname| {
        assert s[i] == fieldname[i];
      } else if i == |fieldname| || i == |fieldname| + 1 + |t| {
        assert s[i] == '-';
      } else if i < |fieldname| + 1 + |t| {
        assert s[i] == t[i - |fieldname| - 1];
      } else {
        assert s[i] == r[i - |fieldname| - 2 - |t|];
      }
    }
  }

  /** A generated name always names a plain directory entry. */
  lemma StoredNameIsPlain(fieldname: string, now: nat, random: nat, originalName: string)
    requires Lacks(fieldname, '/')
    ensures PlainName(StoredName(fieldname, now, random, originalName))
  {
    var stem, ext := Stem(fieldname, now, random), Extname(originalName);
    StemShape(fieldname, now, random);
    ExtnameShape(originalName);
    var s := stem + ext;
    assert s == StoredName(fieldname, now, random, originalName);
    forall i | 0 <= i < |s| ensures s[i] != '/' {
      if i < |stem| { assert s[i] == stem[i]; } else { assert s[i] == ext[i - |stem|]; }
    }
  }

  /** The stored name has the original file's extension, with the same case. */
  lemma StoredNameKeepsExtension(fieldname: string, now: nat, random: nat, originalName: string)
    requires Lacks(fieldname, '/')
    requires Extname(originalName) != []
    ensures Extname(StoredName(fieldname, now, random, originalName)) == Extname(originalName)
  {
    var stem, ext := Stem(fieldname, now, random), Extname(originalName);
    StemShape(fieldname, now, random);
    ExtnameShape(originalName);
    assert stem + ext == StoredName(fieldname, now, random, originalName);
    ExtnameOfPlainName(stem, ext);
  }

  /** Write/list consistency: a file the upload filter accepts, stored under
      its generated name, is kept by the listing filter. */
  lemma AcceptedStoredNameIsListed(fieldname: string, now: nat, random: nat, originalName: string)
    requires Lacks(fieldname, '/')
    requires UploadAccepts(originalName)
    ensures ListingKeeps(StoredName(fieldname, now, random, originalName))
  {
    AcceptedHasExtension(originalName);
    StoredNameKeepsExtension(fieldname, now, random, originalName);
    FiltersAgree(StoredName(fieldname, now, random, originalName));
  }

  /** Position of the first `c` in `s`, or `|s|` when there is none. */
  function FirstIndex(s: string, c: char): (r: nat)
    ensures r <= |s|
    ensures r < |s| ==> s[r] == c
    ensures forall i :: 0 <= i < r ==> s[i] != c
  {
    if s == [] then 0 else if s[0] == c then 0 else 1 + FirstIndex(s[1..], c)
  }

  /** In `a + e`, with no `c` in `a` and `e` empty or starting with `c`, the
      first `c` (or the end) is right after `a`. */
  lemma FirstIndexAfter(a: string, e: string, c: char)
    requires Lacks(a, c) && (e == [] || e[0] == c)
    ensures FirstIndex(a + e, c) == |a|
  {
    var s := a + e;
    if e != [] {
      assert s[|a|] == c;
    }
    forall i | 0 <= i < |a| ensures s[i] != c {
      assert s[i] == a[i];
    }
  }

  /** A text free of `c`, followed by an empty or `c`-led ending, splits
      uniquely. */
  lemma SplitAtFirst(a1: string, e1: string, a2: string, e2: string, c: char)
    requires Lacks(a1, c) && Lacks(a2, c)
    requires e1 == [] || e1[0] == c
    requires e2 == [] || e2[0] == c
    requires a1 + e1 == a2 + e2
    ensures a1 == a2 && e1 == e2
  {
    var s := a1 + e1;
    FirstIndexAfter(a1, e1, c);
    FirstIndexAfter(a2, e2, c);
    assert a1 == s[..|a1|] == a2;
    assert e1 == s[|a1|..] == e2;
  }

  /** What follows "fieldname-" in a stored name. */
  lemma StoredNameTail(f: string, t: string, r: string, e: string)
    ensures (f + "-" + t + "-" + r + e)[|f| + 1..] == t + (['-'] + (r + e))
  {
    var s := f + "-" + t + "-" + r + e;
    var u := t + (['-'] + (r + e));
    assert |s| == |f| + 1 + |u|;
    forall i | 0 <= i < |u| ensures s[|f| + 1 + i] == u[i] {
      if i < |t| {
        assert s[|f| + 1 + i] == t[i];
      } else if i == |t| {
        assert s[|f| + 1 + i] == '-';
      } else if i < |t| + 1 + |r| {
        assert s[|f| + 1 + i] == r[i - |t| - 1];
      } else {
        assert s[|f| + 1 + i] == e[i - |t| - 1 - |r|];
      }
    }
  }

  /** For one field name, two generated names coincide exactly when the clock
      readings, the random draws and the original extensions all coincide:
      distinct (now, random) pairs never collide, equal ones always do. */
  lemma StoredNameInjective(fieldname: string, now1: nat, random1: nat, originalName1: string,
                            now2: nat, random2: nat, originalName2: string)
    ensures StoredName(fieldname, now1, random1, originalName1) == StoredName(fieldname, now2, random2, originalName2)
        <==> now1 == now2 && random1 == random2 && Extname(originalName1) == Extname(originalName2)
  {
    if StoredName(fieldname, now1, random1, originalName1) == StoredName(fieldname, now2, random2, originalName2) {
      var t1, r1, e1 := Dec(now1), Dec(random1), Extname(originalName1);
      var t2, r2, e2 := Dec(now2), Dec(random2), Extname(originalName2);
      StoredNameTail(fieldname, t1, r1, e1);
      StoredNameTail(fieldname, t2, r2, e2);
      DigitsLack(t1, '-');
      DigitsLack(t2, '-');
      SplitAtFirst(t1, ['-'] + (r1 + e1), t2, ['-'] + (r2 + e2), '-');
      assert r1 + e1 == (['-'] + (r1 + e1))[1..];
      ExtnameShape(originalName1);
      ExtnameShape(originalName2);
      DigitsLack(r1, '.');
      DigitsLack(r2, '.');
      SplitAtFirst(r1, e1, r2, e2, '.');
      DecInjective(now1, now2);
      DecInjective(random1, random2);
    }
  }
}
