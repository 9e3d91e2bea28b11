/** The path arithmetic of the whitelist code: Python's `os.path` functions on
    '/'-separated paths, where each namespace's whitelist file lives, and how a
    namespace is recovered from that file's path. */
module Paths {
  import opened Text

  /** Offset of the last '/' in `p`, or -1 when there is none. */
  function LastSlash(p: string): (r: int)
    ensures -1 <= r < |p|
    ensures r >= 0 ==> p[r] == '/'
    ensures forall j :: r < j < |p| ==> p[j] != '/'
  {
    if p == "" then -1
    else if p[|p| - 1] == '/' then |p| - 1
    else LastSlash(p[..|p| - 1])
  }

  /** `os.path.basename(p)`: everything after the last '/'. */
  function Basename(p: string): (r: string)
  {
    p[LastSlash(p) + 1..]
  }

  /** `s.rstrip("/")`. */
  function RStripSlashes(s: string): (r: string)
  {
    if s != "" && s[|s| - 1] == '/' then RStripSlashes(s[..|s| - 1]) else s
  }

  /** `s` is made of '/' only. */
  predicate AllSlashes(s: string)
  {
    forall i :: 0 <= i < |s| ==> s[i] == '/'
  }

  /** `os.path.dirname(p)`: everything up to the last '/', without trailing
      slashes unless it is made of slashes only. */
  function Dirname(p: string): (r: string)
  {
    var head := p[..LastSlash(p) + 1];
    if head != "" && !AllSlashes(head) then RStripSlashes(head) else head
  }

  /** `os.path.join(a, b)` for two components. */
  function Join(a: string, b: string): (r: string)
  {
    if b != "" && b[0] == '/' then b
    else if a == "" || a[|a| - 1] == '/' then a + b
    else a + "/" + b
  }

  /** `s.lstrip(".")`. */
  function LStripDots(s: string): (r: string)
  {
    if s != "" && s[0] == '.' then LStripDots(s[1..]) else s
  }

  /** The directory name from which namespaces are re-rooted. */
  const VENDOR := "vendor"

  /** `"".join(s.partition("vendor")[1:])`: `s` from its first "vendor" on,
      or "" when it has none. */
  function FromVendor(s: string): (r: string)
  {
    var k := Find(s, VENDOR);
    if k == -1 then "" else s[k..]
  }

  /** `_get_sparse_persistence_file`: the whitelist file of namespace `ns` is
      the hidden sibling `dirname(ns)/.basename(ns)`. */
  function SparsePersistenceFile(ns: string): (r: string)
  {
    Join(Dirname(ns), "." + Basename(ns))
  }

  /** `_get_ns_from_sparse_persistence_file`: the namespace, relative to the
      repository's "vendor" directory, whose whitelist file is `path`. */
  function NsFromSparsePersistenceFile(path: string): (r: string)
  {
    var v := FromVendor(path);
    Join(Dirname(v), LStripDots(Basename(v)))
  }

  /** `p` is absolute and normalised, so `os.path.abspath` leaves it as it
      is: it starts with '/', and no segment is empty, "." or "..". */
  predicate IsNormalAbsolute(p: string)
  {
    && p != "" && p[0] == '/'
    && !Contains(p + "/", "//") && !Contains(p + "/", "/./") && !Contains(p + "/", "/../")
  }

  /** A namespace directory `parent/base` as the module graph reports it:
      a normalised absolute path with a non-empty parent that does not end
      in '/', and a non-empty base name that does not start with '.'. */
  predicate IsNamespacePath(ns: string)
  {
    var i := LastSlash(ns);
    && IsNormalAbsolute(ns)
    && 0 < i < |ns| - 1 && ns[i - 1] != '/' && ns[i + 1] != '.'
  }

  /** `LastSlash` finds the '/' after which no other '/' follows. */
  lemma LastSlashIs(p: string, r: int)
    requires 0 <= r < |p| && p[r] == '/'
    requires forall j :: r < j < |p| ==> p[j] != '/'
    ensures LastSlash(p) == r
  {
  }

  /** Splitting `d + "/" + b` at its last '/' gives back `d` and `b` when `b`
      holds no '/' and `d` does not end in one. */
  lemma SplitAtSlash(d: string, b: string)
    requires d != "" && d[|d| - 1] != '/' && '/' !in b
    ensures LastSlash(d + "/" + b) == |d|
    ensures Dirname(d + "/" + b) == d && Basename(d + "/" + b) == b
  {
    var p := d + "/" + b;
    assert forall j :: |d| < j < |p| ==> p[j] == b[j - |d| - 1];
    assert forall j :: 0 <= j < |b| ==> b[j] in b;
    LastSlashIs(p, |d|);
    var head := p[..|d| + 1];
    assert head == d + "/";
    assert head[|d| - 1] != '/';
    assert head[..|head| - 1] == d;
    assert RStripSlashes(head) == RStripSlashes(d) == d;
    assert p[|d| + 1..] == b;
  }

  /** A path without '/' is its own base name and has an empty directory name. */
  lemma NoSlashPath(p: string)
    requires '/' !in p
    ensures LastSlash(p) == -1 && Dirname(p) == "" && Basename(p) == p
  {
    assert forall j :: 0 <= j < |p| ==> p[j] in p;
  }

  /** A namespace path is its directory name, a '/', and its base name. */
  lemma NamespaceParts(ns: string)
    requires IsNamespacePath(ns)
    ensures ns == Dirname(ns) + "/" + Basename(ns)
    ensures Dirname(ns) != "" && Dirname(ns)[|Dirname(ns)| - 1] != '/'
    ensures Basename(ns) != "" && Basename(ns)[0] != '.' && '/' !in Basename(ns)
  {
    var i := LastSlash(ns);
    var d, b := ns[..i], ns[i + 1..];
    assert ns == d + "/" + b;
    assert forall j :: 0 <= j < |b| ==> b[j] == ns[i + 1 + j];
    assert '/' !in b;
    SplitAtSlash(d, b);
  }

  /** The whitelist file of a namespace is its hidden sibling: same directory,
      base name prefixed with '.'. */
  lemma SparseFileIsHiddenSibling(ns: string)
    requires IsNamespacePath(ns)
    ensures SparsePersistenceFile(ns) == Dirname(ns) + "/." + Basename(ns)
    ensures Dirname(SparsePersistenceFile(ns)) == Dirname(ns)
    ensures Basename(SparsePersistenceFile(ns)) == "." + Basename(ns)
  {
    NamespaceParts(ns);
    var d, b := Dirname(ns), Basename(ns);
    assert '/' !in "." + b;
    SplitAtSlash(d, "." + b);
    assert d + "/" + ("." + b) == d + "/." + b;
  }

  /** An occurrence fixes the characters it covers. */
  lemma OccurrenceChars(s: string, pat: string, j: int)
    ensures OccursAt(s, pat, j) ==> forall m :: 0 <= m < |pat| ==> s[j + m] == pat[m]
  {
    if OccursAt(s, pat, j) {
      forall m | 0 <= m < |pat|
        ensures s[j + m] == pat[m]
      {
        assert s[j..j + |pat|][m] == s[j + m];
      }
    }
  }

  /** `pat` does not occur over a character it lacks. */
  lemma NoOccurrenceOver(s: string, pat: string, pos: int, j: int)
    requires 0 <= pos < |s| && s[pos] !in pat && j <= pos < j + |pat|
    ensures !OccursAt(s, pat, j)
  {
    OccurrenceChars(s, pat, j);
    if 0 <= j {
      assert pat[pos - j] in pat;
    }
  }

  /** Occurrences that end within `x` are those of `x` itself. */
  lemma OccursInLeft(x: string, z: string, pat: string, j: int)
    requires 0 <= j && j + |pat| <= |x|
    ensures OccursAt(x + z, pat, j) <==> OccursAt(x, pat, j)
  {
    assert (x + z)[j..j + |pat|] == x[j..j + |pat|];
  }

  /** Occurrences that start after `x` are those of what follows it. */
  lemma OccursInRight(x: string, y: string, pat: string, j: int)
    requires 0 <= j
    ensures OccursAt(x + y, pat, |x| + j) <==> OccursAt(y, pat, j)
  {
    if j + |pat| <= |y| {
      assert (x + y)[|x| + j..|x| + j + |pat|] == y[j..j + |pat|];
    }
  }

  /** Searching text split by a character that `pat` lacks searches each side. */
  lemma FindAcrossSeparator(x: string, c: char, y: string, pat: string)
    requires c !in pat && pat != ""
    ensures Find(x + [c] + y, pat) ==
      if Find(x, pat) != -1 then Find(x, pat)
      else if Find(y, pat) != -1 then |x| + 1 + Find(y, pat)
      else -1
  {
    var s := x + [c] + y;
    var fx, fy := Find(x, pat), Find(y, pat);
    assert s == x + ([c] + y);
    assert s[|x|] == c;
    // No occurrence straddles `c`; on either side, occurrences are those of `x` and `y`.
    forall j | j < |s|
      ensures OccursAt(s, pat, j) <==>
        (j + |pat| <= |x| && OccursAt(x, pat, j)) || (j > |x| && OccursAt(y, pat, j - |x| - 1))
    {
      if j < 0 {
      } else if j + |pat| <= |x| {
        OccursInLeft(x, [c] + y, pat, j);
      } else if j <= |x| {
        NoOccurrenceOver(s, pat, |x|, j);
      } else {
        OccursInRight(x + [c], y, pat, j - |x| - 1);
      }
    }
    forall j | j >= |s|
      ensures !OccursAt(s, pat, j)
    {
    }
    if fx != -1 {
      FindIsFirst(s, pat, fx);
    } else if fy != -1 {
      FindIsFirst(s, pat, |x| + 1 + fy);
    } else {
      FindIsFirst(s, pat, -1);
    }
  }

  /** Recovering from `dk/.b` the namespace `dk/b`. */
  lemma RecoverThroughParent(dk: string, b: string)
    requires dk != "" && dk[|dk| - 1] != '/'
    requires b != "" && b[0] != '.' && '/' !in b
    ensures Join(Dirname(dk + "/" + ("." + b)), LStripDots(Basename(dk + "/" + ("." + b)))) == dk + "/" + b
  {
    assert '/' !in "." + b;
    SplitAtSlash(dk, "." + b);
    assert ("." + b)[1..] == b;
    assert LStripDots("." + b) == b;
  }

  /** Recovering from a single path component gives it back. */
  lemma RecoverWithinBase(v: string)
    requires v != "" && v[0] != '.' && '/' !in v
    ensures Join(Dirname(v), LStripDots(Basename(v))) == v
  {
    NoSlashPath(v);
    assert v[0] in v;
  }

  /** Where "vendor" first occurs in `d/b` and in `d/.b`. */
  lemma FindVendorInSiblings(d: string, b: string)
    ensures Find(d + "/" + b, VENDOR) ==
      if Find(d, VENDOR) != -1 then Find(d, VENDOR)
      else if Find(b, VENDOR) != -1 then |d| + 1 + Find(b, VENDOR)
      else -1
    ensures Find(d + "/" + ("." + b), VENDOR) ==
      if Find(d, VENDOR) != -1 then Find(d, VENDOR)
      else if Find(b, VENDOR) != -1 then |d| + 2 + Find(b, VENDOR)
      else -1
  {
    assert '/' !in VENDOR && '.' !in VENDOR;
    assert d + "/" + b == d + ['/'] + b;
    assert d + "/" + ("." + b) == d + ['/'] + ("." + b);
    assert "." + b == "" + ['.'] + b;
    assert Find("", VENDOR) == -1;
    FindAcrossSeparator(d, '/', b, VENDOR);
    FindAcrossSeparator(d, '/', "." + b, VENDOR);
    FindAcrossSeparator("", '.', b, VENDOR);
  }

  /** The round trip when "vendor" first occurs in the parent directory. */
  lemma RoundTripThroughParent(d: string, b: string)
    requires d != "" && d[|d| - 1] != '/'
    requires b != "" && b[0] != '.' && '/' !in b
    requires Find(d, VENDOR) != -1
    ensures NsFromSparsePersistenceFile(d + "/" + ("." + b)) == FromVendor(d + "/" + b)
  {
    FindVendorInSiblings(d, b);
    var fd := Find(d, VENDOR);
    OccurrenceChars(d, VENDOR, fd);
    var dk := d[fd..];
    assert (d + "/" + ("." + b))[fd..] == dk + "/" + ("." + b);
    assert (d + "/" + b)[fd..] == dk + "/" + b;
    RecoverThroughParent(dk, b);
  }

  /** The round trip when "vendor" first occurs in the base name. */
  lemma RoundTripWithinBase(d: string, b: string)
    requires '/' !in b
    requires Find(d, VENDOR) == -1 && Find(b, VENDOR) != -1
    ensures NsFromSparsePersistenceFile(d + "/" + ("." + b)) == FromVendor(d + "/" + b)
  {
    FindVendorInSiblings(d, b);
    var fb := Find(b, VENDOR);
    var pf, ns := d + "/" + ("." + b), d + "/" + b;
    var v := b[fb..];
    assert pf[|d| + 2 + fb..] == v;
    assert ns[|d| + 1 + fb..] == v;
    assert FromVendor(pf) == v && FromVendor(ns) == v;
    assert v[0] == 'v' by {
      OccurrenceChars(b, VENDOR, fb);
      assert b[fb] == VENDOR[0];
    }
    assert '/' !in v by {
      assert forall c :: c in v ==> c in b;
    }
    RecoverWithinBase(v);
  }

  /** The round trip when there is no "vendor" at all. */
  lemma RoundTripWithoutVendor(d: string, b: string)
    requires Find(d, VENDOR) == -1 && Find(b, VENDOR) == -1
    ensures NsFromSparsePersistenceFile(d + "/" + ("." + b)) == FromVendor(d + "/" + b) == ""
  {
    FindVendorInSiblings(d, b);
    NoSlashPath("");
  }

  /** Recovering the namespace from its whitelist file's path yields the
      namespace from its first "vendor" on, and "" when it contains no "vendor". */
  lemma SparseFileRoundTrip(ns: string)
    requires IsNamespacePath(ns)
    ensures NsFromSparsePersistenceFile(SparsePersistenceFile(ns)) == FromVendor(ns)
  {
    NamespaceParts(ns);
    SparseFileIsHiddenSibling(ns);
    var d, b := Dirname(ns), Basename(ns);
    assert SparsePersistenceFile(ns) == d + "/" + ("." + b);
    if Find(d, VENDOR) != -1 {
      RoundTripThroughParent(d, b);
    } else if Find(b, VENDOR) != -1 {
      RoundTripWithinBase(d, b);
    } else {
      RoundTripWithoutVendor(d, b);
    }
  }

  /** Distinct namespaces have distinct whitelist files, so a whitelist file
      can be looked up by its namespace. */
  lemma SparseFileInjective(a: string, b: string)
    requires IsNamespacePath(a) && IsNamespacePath(b)
    ensures SparsePersistenceFile(a) == SparsePersistenceFile(b) <==> a == b
  {
    if SparsePersistenceFile(a) == SparsePersistenceFile(b) {
      NamespaceParts(a);
      NamespaceParts(b);
      SparseFileIsHiddenSibling(a);
      SparseFileIsHiddenSibling(b);
      assert "." + Basename(a) == "." + Basename(b);
      assert Basename(a) == ("." + Basename(a))[1..];
      assert Basename(b) == ("." + Basename(b))[1..];
    }
  }
}
