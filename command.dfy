/** The `whitelist` command: validates the target module, then seeds the
    whitelist files of its namespaces, runs the auto-install passes to a
    fixed point and regenerates the `.dockerignore` fragment. */
module Command {
  import opened Outcomes
  import opened Collections
  import opened Text
  import opened Store
  import opened ModuleGraph
  import opened Resolution
  import opened Seeding
  import opened AutoInstall
  import opened Dockerignore
  import opened Snippet

  /** Every line a run of `whitelist` appends to the file of `ns` is an
      entry seeding required of it or an auto-install module of `ns`. */
  lemma RunAppendsOnly(g: Graph, includes: Include, before: map<string, seq<string>>,
                       seeded: map<string, seq<string>>, states: seq<map<string, seq<string>>>)
    requires SeedOutcome(includes, before, seeded) && PassChain(g, states) && states[0] == seeded
    ensures var after := states[|states| - 1];
      && after.Keys == before.Keys + includes.Keys
      && forall ns :: ns in after ==>
           && LinesOr(before, ns) <= after[ns]
           && forall x :: x in Elems(after[ns][|LinesOr(before, ns)|..]) ==>
                (ns in includes && x in Should(includes, ns)) || (x in AutoModules(g) && NamespaceOf(g, x) == ns)
  {
    var after := states[|states| - 1];
    ChainAppendsAuto(g, states);
    forall ns | ns in after
      ensures LinesOr(before, ns) <= after[ns]
      ensures forall x :: x in Elems(after[ns][|LinesOr(before, ns)|..]) ==>
                (ns in includes && x in Should(includes, ns)) || (x in AutoModules(g) && NamespaceOf(g, x) == ns)
    {
      var b := LinesOr(before, ns);
      var x, y := seeded[ns][|b|..], after[ns][|seeded[ns]|..];
      assert seeded[ns] == b + x;
      assert after[ns] == b + (x + y);
      assert after[ns][|b|..] == x + y;
      ElemsAppend(x, y);
    }
  }

  /** Running `whitelist` again on what a run left, with the same
      resolution, appends nothing: seeding finds every entry present and no
      auto-install module is eligible. */
  lemma RerunStable(g: Graph, includes: Include, files: map<string, seq<string>>,
                    seeded: map<string, seq<string>>, states: seq<map<string, seq<string>>>)
    requires Seeded(includes, files) && Adds(g, files) == {}
    requires SeedOutcome(includes, files, seeded) && PassChain(g, states) && states[0] == seeded
    ensures states[|states| - 1] == files
  {
    SeedIdempotent(includes, files, seeded);
    ChainStable(g, states);
  }

  /** The writing half of `whitelist`: seeds the namespaces of `includes`,
      runs the auto-install passes until one appends nothing, then
      regenerates the `.dockerignore` fragment. `seeded` is the state after
      seeding and `states` the files before each pass and after the last. */
  method Apply(g: Graph, includes: Include, fs: Disk)
    returns (ghost seeded: map<string, seq<string>>, ghost states: seq<map<string, seq<string>>>,
             ghost nss: seq<string>, ghost roots: seq<string>, ghost orders: seq<seq<string>>)
    modifies fs`whitelists, fs`sparseEnabled, fs`linked, fs`dockerignore
    ensures SeedOutcome(includes, old(fs.whitelists), seeded)
    ensures PassChain(g, states) && states[0] == seeded && states[|states| - 1] == fs.whitelists
    ensures Seeded(includes, fs.whitelists)
    ensures Extends(old(fs.whitelists), fs.whitelists)
    ensures fs.whitelists.Keys == old(fs.whitelists).Keys + includes.Keys
    ensures Adds(g, fs.whitelists) == {}
    ensures fs.sparseEnabled == old(fs.sparseEnabled) + includes.Keys
    ensures fs.linked == old(fs.linked) + (includes.Keys - old(fs.whitelists).Keys)
    ensures Enumerates(nss, SparseNamespaces(g, fs.whitelists))
    ensures SnippetParts(fs.whitelists, nss, roots, orders)
    ensures fs.dockerignore == Unlines(KeptLines(SplitLines(old(fs.dockerignore)), PLACEHOLDER)) + Blocks(roots, orders)
  {
    ghost var start := fs.whitelists;
    Seed(includes, fs);
    seeded := fs.whitelists;
    SeedOutcomeSeeds(includes, start, seeded);
    ghost var passes;
    passes, states := ReconcileUntilStable(g, fs);
    SeededExtends(includes, seeded, fs.whitelists);
    ExtendsTrans(start, seeded, fs.whitelists);
    nss, roots, orders := ReconcileDockerignorePlaceholder(g, fs);
  }

  /** Runs `whitelist target`. `insideWorkTree` is what
      `git rev-parse --is-inside-work-tree` reports. Every failure is
      detected before anything is written. */
  method Whitelist(g: Graph, target: string, skipNative: bool, insideWorkTree: bool, fs: Disk)
    returns (r: Outcome<Error>, ghost seeded: map<string, seq<string>>, ghost states: seq<map<string, seq<string>>>,
             ghost nss: seq<string>, ghost roots: seq<string>, ghost orders: seq<seq<string>>)
    requires Closed(g)
    modifies fs`whitelists, fs`sparseEnabled, fs`linked, fs`dockerignore
    ensures !insideWorkTree ==> r == Fail(NotInsideWorkTree)
    ensures insideWorkTree && ResolutionOf(g, target, skipNative).Err? ==>
              r == Fail(ResolutionOf(g, target, skipNative).error)
    ensures r.Pass? <==> insideWorkTree && ResolutionOf(g, target, skipNative).Ok?
    ensures r.Fail? ==> unchanged(fs)
    ensures r.Pass? ==>
              var includes := ResolutionOf(g, target, skipNative).value;
              && SeedOutcome(includes, old(fs.whitelists), seeded)
              && PassChain(g, states) && states[0] == seeded && states[|states| - 1] == fs.whitelists
              && Seeded(includes, fs.whitelists)
              && Extends(old(fs.whitelists), fs.whitelists)
              && fs.whitelists.Keys == old(fs.whitelists).Keys + includes.Keys
              && Adds(g, fs.whitelists) == {}
              && fs.sparseEnabled == old(fs.sparseEnabled) + includes.Keys
              && fs.linked == old(fs.linked) + (includes.Keys - old(fs.whitelists).Keys)
    ensures r.Pass? ==>
              && Enumerates(nss, SparseNamespaces(g, fs.whitelists))
              && SnippetParts(fs.whitelists, nss, roots, orders)
              && fs.dockerignore == Unlines(KeptLines(SplitLines(old(fs.dockerignore)), PLACEHOLDER)) + Blocks(roots, orders)
  {
    seeded, states, nss, roots, orders := map[], [map[]], [], [], [];
    if !insideWorkTree {
      return Fail(NotInsideWorkTree), seeded, states, nss, roots, orders;
    }
    var resolved := Resolve(g, target, skipNative);
    if resolved.Err? {
      return Fail(resolved.error), seeded, states, nss, roots, orders;
    }
    seeded, states, nss, roots, orders := Apply(g, resolved.value, fs);
    r := Pass;
  }
}
