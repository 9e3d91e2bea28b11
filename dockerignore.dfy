/** The rewrite of `.dockerignore`: the lines up to and including the
    placeholder line are kept, and the snippet built from the whitelist files
    replaces whatever followed. */
module Dockerignore {
  import opened Collections
  import opened Text
  import opened Paths
  import opened Store
  import opened ModuleGraph
  import opened AutoInstall
  import opened Snippet

  /** The line after which `.dockerignore` is regenerated. */
  const PLACEHOLDER := "# Autogenerated file content from here ... DO NOT MODIFY"

  /** A line holding the marker text `mark`. The rewrite of `.dockerignore`
      uses `PLACEHOLDER` as the marker; the lemmas below hold for any. */
  predicate IsMarker(line: string, mark: string)
  {
    Contains(line, mark)
  }

  /** `_get_ns_from_sparse_persistence_file(_get_sparse_persistence_file(ns))`,
      which `Snippet.IgnoreRootFromVendor` describes. */
  method RootOf(ns: string) returns (root: string)
    ensures root == IgnoreRoot(ns)
  {
    root := NsFromSparsePersistenceFile(SparsePersistenceFile(ns));
  }

  /** The lines the rewrite keeps: all of them up to and including the first
      line holding `mark`, or all of them when there is none. */
  function KeptLines(lines: seq<string>, mark: string): (kept: seq<string>)
    ensures kept <= lines
    ensures forall i :: 0 <= i < |kept| - 1 ==> !IsMarker(kept[i], mark)
    ensures |kept| < |lines| ==> kept != [] && IsMarker(kept[|kept| - 1], mark)
  {
    if lines == [] then []
    else if IsMarker(lines[0], mark) then [lines[0]]
    else [lines[0]] + KeptLines(lines[1..], mark)
  }

  /** Text that already ends its kept lines at a placeholder line keeps
      exactly those lines, whatever follows. */
  lemma {:induction false} KeptThroughMarker(kept: seq<string>, rest: seq<string>, mark: string)
    requires kept != [] && IsMarker(kept[|kept| - 1], mark)
    requires forall i :: 0 <= i < |kept| - 1 ==> !IsMarker(kept[i], mark)
    ensures KeptLines(kept + rest, mark) == kept
  {
    if |kept| > 1 {
      assert (kept + rest)[1..] == kept[1..] + rest;
      KeptThroughMarker(kept[1..], rest, mark);
    }
  }

  /** `lines[..n]` is what the rewrite keeps when no line before `n - 1` is
      a placeholder line and `n` stops at one or at the end. */
  lemma {:induction false} KeptLinesAt(lines: seq<string>, n: nat, mark: string)
    requires n <= |lines|
    requires forall j :: 0 <= j < n - 1 ==> !IsMarker(lines[j], mark)
    requires n == |lines| || (n > 0 && IsMarker(lines[n - 1], mark))
    ensures KeptLines(lines, mark) == lines[..n]
  {
    if lines != [] && !IsMarker(lines[0], mark) {
      KeptLinesAt(lines[1..], n - 1, mark);
      assert lines[..n] == [lines[0]] + lines[1..][..n - 1];
    }
  }

  /** The rewrite loop of `reconcile_dockerignore_placeholder`: writes each
      line with a newline until the first placeholder line, then the
      snippet. */
  method Splice(lines: seq<string>, snippet: string, mark: string) returns (text: string)
    ensures text == Unlines(KeptLines(lines, mark)) + snippet
  {
    text := "";
    var i := 0;
    while i < |lines|
      invariant 0 <= i <= |lines|
      invariant text == Unlines(lines[..i])
      invariant forall j :: 0 <= j < i ==> !IsMarker(lines[j], mark)
      decreases |lines| - i
    {
      UnlinesAppend(lines[..i], [lines[i]]);
      assert lines[..i + 1] == lines[..i] + [lines[i]];
      text := text + lines[i] + "\n";
      i := i + 1;
      if IsMarker(lines[i - 1], mark) {
        break;
      }
    }
    KeptLinesAt(lines, i, mark);
    text := text + snippet;
  }

  /** When the lines hold a placeholder line, the kept lines end with one. */
  lemma KeptEndsAtMarker(lines: seq<string>, k: nat, mark: string)
    requires k < |lines| && IsMarker(lines[k], mark)
    ensures KeptLines(lines, mark) != [] && IsMarker(KeptLines(lines, mark)[|KeptLines(lines, mark)| - 1], mark)
  {
    var kept := KeptLines(lines, mark);
    if |kept| == |lines| {
      assert kept == lines;
    }
  }

  /** No kept line holds a line break. */
  lemma KeptAreLines(text: string, mark: string)
    ensures forall i :: 0 <= i < |KeptLines(SplitLines(text), mark)| ==> IsLine(KeptLines(SplitLines(text), mark)[i])
  {
    var lines := SplitLines(text);
    SplitLinesAreLines(text);
    forall i | 0 <= i < |KeptLines(lines, mark)|
      ensures IsLine(KeptLines(lines, mark)[i])
    {
      assert KeptLines(lines, mark)[i] == lines[i];
    }
  }

  /** Kept lines that end at their first placeholder line survive being
      written out, followed by any text, and split again. */
  lemma ResplitKept(kept: seq<string>, rest: string, mark: string)
    requires kept != [] && IsMarker(kept[|kept| - 1], mark)
    requires forall i :: 0 <= i < |kept| - 1 ==> !IsMarker(kept[i], mark)
    requires forall i :: 0 <= i < |kept| ==> IsLine(kept[i])
    ensures KeptLines(SplitLines(Unlines(kept) + rest), mark) == kept
  {
    SplitUnlines(kept, rest);
    KeptThroughMarker(kept, SplitLines(rest), mark);
  }

  /** With a placeholder line present, rewriting the rewritten text with the
      same snippet reproduces it. */
  lemma SpliceIdempotent(text: string, snippet: string, k: nat, mark: string)
    requires k < |SplitLines(text)| && IsMarker(SplitLines(text)[k], mark)
    ensures Unlines(KeptLines(SplitLines(Unlines(KeptLines(SplitLines(text), mark)) + snippet), mark)) + snippet
            == Unlines(KeptLines(SplitLines(text), mark)) + snippet
  {
    var lines := SplitLines(text);
    KeptAreLines(text, mark);
    KeptEndsAtMarker(lines, k, mark);
    ResplitKept(KeptLines(lines, mark), snippet, mark);
  }

  /** The loop of `reconcile_dockerignore_placeholder` that builds the
      snippet: one block per namespace of `sparse`, in the order the set is
      visited, each file's entries in the order its line set is iterated. */
  method BlocksOf(files: map<string, seq<string>>, sparse: set<string>)
    returns (snippet: string, ghost nss: seq<string>, ghost roots: seq<string>, ghost orders: seq<seq<string>>)
    requires sparse <= files.Keys
    ensures Enumerates(nss, sparse) && SnippetOf(files, nss, roots, orders, snippet)
    ensures snippet == "" <==> sparse == {}
  {
    snippet, nss, roots, orders := "", [], [], [];
    var rest := sparse;
    while rest != {}
      invariant rest <= files.Keys && Partitions(nss, rest, sparse)
      invariant SnippetOf(files, nss, roots, orders, snippet)
      decreases rest
    {
      var ns :| ns in rest;
      var root := RootOf(ns);
      var entries := Enumerate(Elems(files[ns]));
      EnumerationStep(nss, rest, sparse, ns);
      SnippetOfStep(files, nss, roots, orders, snippet, ns, root, entries);
      snippet := snippet + Block(root, entries);
      nss, roots, orders := nss + [ns], roots + [root], orders + [entries];
      rest := rest - {ns};
    }
    ElemsEmpty(nss);
    SnippetEmpty(files, nss, roots, orders, snippet);
  }

  /** The snippet of `reconcile_dockerignore_placeholder`, built from the
      whitelist files of the namespaces that have one. */
  method BuildSnippet(g: Graph, fs: Disk)
    returns (snippet: string, ghost nss: seq<string>, ghost roots: seq<string>, ghost orders: seq<seq<string>>)
    ensures Enumerates(nss, SparseNamespaces(g, fs.whitelists))
    ensures SnippetOf(fs.whitelists, nss, roots, orders, snippet)
    ensures snippet == "" <==> SparseNamespaces(g, fs.whitelists) == {}
  {
    var sparse := GetAllSparseFiles(g, fs);
    snippet, nss, roots, orders := BlocksOf(fs.whitelists, sparse);
  }

  /** `reconcile_dockerignore_placeholder`: keeps `.dockerignore` up to and
      including its first placeholder line and writes the snippet after it. */
  method ReconcileDockerignorePlaceholder(g: Graph, fs: Disk)
    returns (ghost nss: seq<string>, ghost roots: seq<string>, ghost orders: seq<seq<string>>)
    modifies fs`dockerignore
    ensures Enumerates(nss, SparseNamespaces(g, fs.whitelists))
    ensures SnippetParts(fs.whitelists, nss, roots, orders)
    ensures fs.dockerignore == Unlines(KeptLines(SplitLines(old(fs.dockerignore)), PLACEHOLDER)) + Blocks(roots, orders)
  {
    var snippet;
    snippet, nss, roots, orders := BuildSnippet(g, fs);
    var lines := SplitLines(fs.dockerignore);
    var text := Splice(lines, snippet, PLACEHOLDER);
    fs.WriteDockerignore(text);
  }
}
