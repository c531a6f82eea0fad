/** Node's POSIX `path.extname` and the ASCII part of `String.prototype.toLowerCase`,
    the two string operations both the upload filter and the listing filter
    apply to a file name. */
module PathExt {

  /** The path without its trailing '/' characters. */
  function TrimTrailingSlashes(p: string): (r: string)
    ensures |r| <= |p|
  {
    if p != [] && p[|p| - 1] == '/' then TrimTrailingSlashes(p[..|p| - 1]) else p
  }

  /** Trimming removes a run of '/' at the end, and only that. */
  lemma {:induction false} TrimShape(p: string)
    ensures var r := TrimTrailingSlashes(p);
      && |r| <= |p| && r == p[..|r|]
      && (r == [] || r[|r| - 1] != '/')
      && forall i :: |r| <= i < |p| ==> p[i] == '/'
  {
    if p != [] && p[|p| - 1] == '/' {
      TrimShape(p[..|p| - 1]);
    }
  }

  /** Index of the last occurrence of `c` in `s`, or -1, as `lastIndexOf`. */
  function LastIndex(s: string, c: char): (r: int)
    ensures -1 <= r < |s|
  {
    if s == [] then -1
    else if s[|s| - 1] == c then |s| - 1
    else LastIndex(s[..|s| - 1], c)
  }

  /** `LastIndex` finds an occurrence of `c` with none after it. */
  lemma {:induction false} LastIndexShape(s: string, c: char)
    ensures var r := LastIndex(s, c);
      && (r >= 0 ==> s[r] == c)
      && forall i :: r < i < |s| ==> s[i] != c
  {
    if s != [] && s[|s| - 1] != c {
      LastIndexShape(s[..|s| - 1], c);
    }
  }

  /** True when `c` does not occur in `s`. */
  predicate Lacks(s: string, c: char) {
    forall i :: 0 <= i < |s| ==> s[i] != c
  }

  /** The last path segment once trailing separators are dropped. */
  function LastSegment(p: string): (b: string)
    ensures |b| <= |p|
  {
    var t := TrimTrailingSlashes(p);
    t[LastIndex(t, '/') + 1..]
  }

  /** The last segment holds no '/' and ends the trimmed path. */
  lemma LastSegmentShape(p: string)
    ensures var t, b := TrimTrailingSlashes(p), LastSegment(p);
      && Lacks(b, '/') && |b| <= |t| && b == t[|t| - |b|..]
  {
    LastIndexShape(TrimTrailingSlashes(p), '/');
  }

  /** A name with no separator is its own last segment. */
  lemma LastSegmentOfPlainName(p: string)
    requires Lacks(p, '/')
    ensures LastSegment(p) == p
  {
    assert p == [] || p[|p| - 1] != '/';
    LastIndexShape(p, '/');
  }

  /** `path.extname`: from the last '.' of the last segment to its end; empty
      when the segment has no '.', when its only candidate '.' is its first
      character, and for the segment "..". */
  function Extname(p: string): (e: string)
    ensures |e| <= |p|
  {
    var b := LastSegment(p);
    var k := LastIndex(b, '.');
    if k <= 0 || b == ".." then [] else b[k..]
  }

  /** An extension is empty or a '.' followed by text without '.' or '/',
      and it is the path's own ending (before trailing separators), with its
      case kept. */
  lemma ExtnameShape(p: string)
    ensures var e := Extname(p);
      && (e == [] || (e[0] == '.' && Lacks(e[1..], '.') && Lacks(e, '/')))
      && |e| <= |TrimTrailingSlashes(p)|
      && e == TrimTrailingSlashes(p)[|TrimTrailingSlashes(p)| - |e|..]
  {
    LastSegmentShape(p);
    LastIndexShape(LastSegment(p), '.');
  }

  /** A name with no '/' that ends in '.' followed by dot-free text, and has
      something before that '.', has exactly that ending as its extension. */
  lemma ExtnameOfPlainName(stem: string, ext: string)
    requires stem != [] && Lacks(stem, '/')
    requires ext != [] && ext[0] == '.' && Lacks(ext[1..], '.') && Lacks(ext, '/')
    requires stem + ext != ".."
    ensures Extname(stem + ext) == ext
  {
    var p := stem + ext;
    forall i | 0 <= i < |p| ensures p[i] != '/' {
      if i < |stem| { assert p[i] == stem[i]; } else { assert p[i] == ext[i - |stem|]; }
    }
    LastSegmentOfPlainName(p);
    LastIndexShape(p, '.');
    var k := LastIndex(p, '.');
    assert p[|stem|] == '.';
    forall i | |stem| < i < |p| ensures p[i] != '.' {
      assert p[i] == ext[1..][i - |stem| - 1];
    }
    assert k == |stem|;
    assert p[|stem|..] == ext;
  }

  /** A piece of a text free of `c` is free of `c`. */
  lemma SliceLacks(s: string, lo: nat, hi: nat, c: char)
    requires lo <= hi <= |s| && Lacks(s, c)
    ensures Lacks(s[lo..hi], c)
  {
    forall i | 0 <= i < hi - lo ensures s[lo..hi][i] != c {
      assert s[lo..hi][i] == s[lo + i];
    }
  }

  /** A name with no '.' at all has no extension. */
  lemma ExtnameWithoutDot(p: string)
    requires Lacks(p, '.')
    ensures Extname(p) == []
  {
    var t := TrimTrailingSlashes(p);
    var b := LastSegment(p);
    assert Lacks(t, '.') by {
      TrimShape(p);
      SliceLacks(p, 0, |t|, '.');
    }
    assert Lacks(b, '.') by {
      LastSegmentShape(p);
      SliceLacks(t, |t| - |b|, |t|, '.');
    }
    LastIndexShape(b, '.');
  }

  /** A plain name whose only '.' is its first character (".obj") has no extension. */
  lemma ExtnameOfDotFile(p: string)
    requires p != [] && Lacks(p, '/') && p[0] == '.' && Lacks(p[1..], '.')
    ensures Extname(p) == []
  {
    LastSegmentOfPlainName(p);
    forall i | 0 < i < |p| ensures p[i] != '.' {
      assert p[i] == p[1..][i - 1];
    }
    LastIndexShape(p, '.');
    assert LastIndex(p, '.') == 0;
  }

  /** An upper-case ASCII letter becomes the matching lower-case letter;
      every other character is kept. */
  function LowerChar(c: char): (d: char)
    ensures !('A' <= d <= 'Z')
    ensures 'A' <= c <= 'Z' ==> 'a' <= d <= 'z' && d as int - 'a' as int == c as int - 'A' as int
    ensures !('A' <= c <= 'Z') ==> d == c
  {
    if 'A' <= c <= 'Z' then (c as int + 32) as char else c
  }

  /** True when `s` holds no upper-case ASCII letter. */
  predicate NoUpper(s: string) {
    forall i :: 0 <= i < |s| ==> !('A' <= s[i] <= 'Z')
  }

  /** `toLowerCase` on the ASCII letters; every other character is kept. */
  function ToLower(s: string): (r: string)
    ensures |r| == |s|
  {
    seq(|s|, i requires 0 <= i < |s| => LowerChar(s[i]))
  }

  /** Lower-casing maps each character on its own, leaves no upper-case
      letter, and changes nothing in a text without one. */
  lemma ToLowerShape(s: string)
    ensures forall i :: 0 <= i < |s| ==> ToLower(s)[i] == LowerChar(s[i])
    ensures NoUpper(ToLower(s))
    ensures NoUpper(s) ==> ToLower(s) == s
  {
  }
}
