/** The auto-install fixed point: a module flagged `auto_install` is appended
    to the whitelist file of its namespace once everything it depends on is
    whitelisted, and passes repeat until one appends nothing. */
module AutoInstall {
  import opened Collections
  import opened Store
  import opened ModuleGraph
  import opened Resolution

  /** The namespaces of the defined modules among `ms` whose whitelist file
      exists. */
  function SparseAmong(g: Graph, files: map<string, seq<string>>, ms: set<string>): (r: set<string>)
  {
    set m | m in ms && Defined(g, m) && NamespaceOf(g, m) in files :: NamespaceOf(g, m)
  }

  /** `_get_all_sparse_files`: the namespaces of defined modules whose
      whitelist file exists. */
  function SparseNamespaces(g: Graph, files: map<string, seq<string>>): (r: set<string>)
  {
    SparseAmong(g, files, g.Keys)
  }

  /** The modules among `ms` whose namespace has no whitelist file: such a
      namespace is checked out whole, so they count as whitelisted. */
  function Unlisted(g: Graph, files: map<string, seq<string>>, ms: set<string>): (r: set<string>)
  {
    set m | m in ms && Defined(g, m) && NamespaceOf(g, m) !in files
  }

  /** Every line of the whitelist files of the namespaces in `nss`. */
  function Listed(files: map<string, seq<string>>, nss: set<string>): (r: set<string>)
  {
    set ns, x | ns in nss && ns in files && x in files[ns] :: x
  }

  /** `all_white_listed` as a pass reads it before appending anything. */
  function Pool(g: Graph, files: map<string, seq<string>>): (r: set<string>)
  {
    Unlisted(g, files, g.Keys) + Listed(files, SparseNamespaces(g, files))
  }

  /** The defined modules among `ms` flagged `auto_install`. */
  function AutoAmong(g: Graph, ms: set<string>): (r: set<string>)
  {
    set m | m in ms && Defined(g, m) && g[m].value.autoInstall
  }

  /** `auto_install`: every defined module flagged `auto_install`. */
  function AutoModules(g: Graph): (r: set<string>)
  {
    AutoAmong(g, g.Keys)
  }

  /** A pass that starts from `files` appends `m`: an auto-install module
      whose dependencies are all in the pool, whose namespace has a
      whitelist file, and which that file does not list yet. */
  predicate Eligible(g: Graph, files: map<string, seq<string>>, m: string)
  {
    && Defined(g, m) && g[m].value.autoInstall
    && Elems(g[m].value.depends) <= Pool(g, files)
    && NamespaceOf(g, m) in files
    && m !in files[NamespaceOf(g, m)]
  }

  /** The modules a pass that starts from `files` appends. */
  function Adds(g: Graph, files: map<string, seq<string>>): (r: set<string>)
  {
    set m | m in g.Keys && Eligible(g, files, m)
  }

  /** The modules such a pass appends to the file of `ns`. */
  function AddsTo(g: Graph, files: map<string, seq<string>>, ns: string): (r: set<string>)
  {
    set m | m in Adds(g, files) && NamespaceOf(g, m) == ns
  }

  /** The auto-install modules that a whitelist file could still receive:
      their namespace has a file that does not list them. */
  function Pending(g: Graph, files: map<string, seq<string>>): (r: set<string>)
  {
    set m | m in AutoModules(g) && NamespaceOf(g, m) in files && m !in files[NamespaceOf(g, m)]
  }

  /** `after` is `before` once the modules of `done` have been considered in
      a pass: no file is created, and each file is its old lines followed,
      once each, by the modules of `done` the pass appends to it. */
  ghost predicate PassOn(g: Graph, done: set<string>,
                         before: map<string, seq<string>>, after: map<string, seq<string>>)
  {
    && after.Keys == before.Keys
    && forall ns :: ns in after ==>
         && before[ns] <= after[ns]
         && NoDup(after[ns][|before[ns]|..])
         && Elems(after[ns][|before[ns]|..]) == AddsTo(g, before, ns) * done
  }

  /** The effect of one whole pass. */
  ghost predicate PassOutcome(g: Graph, before: map<string, seq<string>>, after: map<string, seq<string>>)
  {
    PassOn(g, AutoModules(g), before, after)
  }

  /** A namespace is listed exactly when a defined module of it has a
      whitelist file. */
  lemma SparseNamespacesIff(g: Graph, files: map<string, seq<string>>, ns: string)
    ensures ns in SparseNamespaces(g, files) <==>
      ns in files && exists m :: m in g && Defined(g, m) && NamespaceOf(g, m) == ns
  {
  }

  /** Only auto-install modules whose file lacks them are appended. */
  lemma AddsArePending(g: Graph, files: map<string, seq<string>>)
    ensures Adds(g, files) <= Pending(g, files) <= AutoModules(g)
  {
  }

  /** A pass appends nothing exactly when it leaves every file as it was. */
  lemma PassIdleIff(g: Graph, before: map<string, seq<string>>, after: map<string, seq<string>>)
    requires PassOutcome(g, before, after)
    ensures after == before <==> Adds(g, before) == {}
  {
    if Adds(g, before) == {} {
      forall ns | ns in after
        ensures after[ns] == before[ns]
      {
        var added := after[ns][|before[ns]|..];
        ElemsEmpty(added);
        assert after[ns] == before[ns] + added;
      }
    } else {
      var m :| m in Adds(g, before);
      var ns := NamespaceOf(g, m);
      assert m in Elems(after[ns][|before[ns]|..]);
    }
  }

  /** A pass only appends. */
  lemma PassExtends(g: Graph, before: map<string, seq<string>>, after: map<string, seq<string>>)
    requires PassOutcome(g, before, after)
    ensures Extends(before, after)
  {
  }

  /** The modules a pass appends are no longer pending, and nothing else
      changes status. */
  lemma PassShrinksPending(g: Graph, before: map<string, seq<string>>, after: map<string, seq<string>>)
    requires PassOutcome(g, before, after)
    ensures Pending(g, after) == Pending(g, before) - Adds(g, before)
  {
    forall m | m in AutoModules(g) && NamespaceOf(g, m) in before
      ensures m in after[NamespaceOf(g, m)] <==> m in before[NamespaceOf(g, m)] || m in Adds(g, before)
    {
      var ns := NamespaceOf(g, m);
      var added := after[ns][|before[ns]|..];
      assert after[ns] == before[ns] + added;
      assert m in added <==> m in Elems(added);
      assert m in Elems(added) <==> m in Adds(g, before);
    }
  }

  /** A pass only grows the pool the next pass reads, so a module eligible
      now stays eligible until it is appended. */
  lemma PassGrowsPool(g: Graph, before: map<string, seq<string>>, after: map<string, seq<string>>)
    requires PassOutcome(g, before, after)
    ensures Pool(g, before) <= Pool(g, after)
  {
    assert Unlisted(g, before, g.Keys) == Unlisted(g, after, g.Keys);
    assert SparseNamespaces(g, before) == SparseNamespaces(g, after);
    forall x | x in Listed(before, SparseNamespaces(g, before))
      ensures x in Listed(after, SparseNamespaces(g, after))
    {
      var ns :| ns in SparseNamespaces(g, before) && ns in before && x in before[ns];
      assert after[ns] == before[ns] + after[ns][|before[ns]|..];
      assert x in after[ns];
    }
  }

  /** Considering one more auto-install module keeps `PassOn`: it is
      appended to the file of its namespace exactly when it is eligible. */
  lemma PassOnStep(g: Graph, done: set<string>, m: string,
                   before: map<string, seq<string>>, mid: map<string, seq<string>>,
                   pool: set<string>, add: bool, after: map<string, seq<string>>)
    requires m in AutoModules(g) && m !in done && PassOn(g, done, before, mid)
    requires pool == Pool(g, before)
    requires add <==> Elems(g[m].value.depends) <= pool && NamespaceOf(g, m) in mid
                      && m !in mid[NamespaceOf(g, m)]
    requires add ==> after == mid[NamespaceOf(g, m) := mid[NamespaceOf(g, m)] + [m]]
    requires !add ==> after == mid
    ensures add <==> m in Adds(g, before)
    ensures Adds(g, before) * (done + {m}) == Adds(g, before) * done + (if add then {m} else {})
    ensures PassOn(g, done + {m}, before, after)
  {
    var ns := NamespaceOf(g, m);
    if ns in mid {
      PassOnKeepsOthers(g, done, m, before, mid, ns);
    }
    assert add <==> Eligible(g, before, m);
    forall n | n in after && (n != ns || !add)
      ensures AddsTo(g, before, n) * (done + {m}) == AddsTo(g, before, n) * done
    {
    }
    if add {
      var added := mid[ns][|before[ns]|..];
      assert after[ns] == before[ns] + (added + [m]);
      assert after[ns][|before[ns]|..] == added + [m];
      NoDupAppend(added, [m]);
    }
  }

  /** The lines of a file the pass has considered `done` for are its old
      lines and modules of `done`, so for any other module the current file
      answers "already whitelisted" as the old one did. */
  lemma PassOnKeepsOthers(g: Graph, done: set<string>, m: string,
                          before: map<string, seq<string>>, mid: map<string, seq<string>>, ns: string)
    requires m !in done && PassOn(g, done, before, mid) && ns in mid
    ensures m in mid[ns] <==> m in before[ns]
  {
    var added := mid[ns][|before[ns]|..];
    assert mid[ns] == before[ns] + added;
    assert m in added ==> m in Elems(added);
  }

  /** `states` are the whitelist files before each of a run of passes and
      after the last: each follows from the one before by one pass. */
  ghost predicate PassChain(g: Graph, states: seq<map<string, seq<string>>>)
  {
    && states != []
    && forall i :: 0 <= i < |states| - 1 ==> PassOutcome(g, states[i], states[i + 1])
  }

  /** `after` is `before` with, appended to each file, distinct auto-install
      modules of its namespace that were pending in `before`; no file is
      created. */
  ghost predicate AppendsAuto(g: Graph, before: map<string, seq<string>>, after: map<string, seq<string>>)
  {
    && after.Keys == before.Keys
    && forall ns :: ns in after ==>
         && before[ns] <= after[ns]
         && NoDup(after[ns][|before[ns]|..])
         && forall m :: m in Elems(after[ns][|before[ns]|..]) ==> m in Pending(g, before) && NamespaceOf(g, m) == ns
  }

  /** One more pass extends a run of passes. */
  lemma PassChainSnoc(g: Graph, states: seq<map<string, seq<string>>>, after: map<string, seq<string>>)
    requires PassChain(g, states) && PassOutcome(g, states[|states| - 1], after)
    ensures PassChain(g, states + [after])
  {
    var s := states + [after];
    forall i | 0 <= i < |s| - 1
      ensures PassOutcome(g, s[i], s[i + 1])
    {
      if i < |states| - 1 {
        assert s[i] == states[i] && s[i + 1] == states[i + 1];
      }
    }
  }

  /** A pass appends only pending auto-install modules of each file's
      namespace, once each. */
  lemma PassAppendsAuto(g: Graph, before: map<string, seq<string>>, after: map<string, seq<string>>)
    requires PassOutcome(g, before, after)
    ensures AppendsAuto(g, before, after)
  {
    AddsArePending(g, before);
  }

  /** Appending pending auto-install modules twice is doing it once: what
      the second run appends was not listed after the first. */
  lemma AppendsAutoTrans(g: Graph, a: map<string, seq<string>>, b: map<string, seq<string>>, c: map<string, seq<string>>)
    requires AppendsAuto(g, a, b) && AppendsAuto(g, b, c)
    ensures AppendsAuto(g, a, c)
  {
    forall ns | ns in c
      ensures a[ns] <= c[ns]
      ensures NoDup(c[ns][|a[ns]|..])
      ensures forall m :: m in Elems(c[ns][|a[ns]|..]) ==> m in Pending(g, a) && NamespaceOf(g, m) == ns
    {
      var x, y := b[ns][|a[ns]|..], c[ns][|b[ns]|..];
      assert b[ns] == a[ns] + x;
      assert c[ns] == a[ns] + (x + y);
      assert c[ns][|a[ns]|..] == x + y;
      assert Elems(x) !! Elems(y) by {
        forall m | m in Elems(y)
          ensures m !in Elems(x)
        {
          assert m !in b[ns];
        }
      }
      NoDupAppend(x, y);
      forall m | m in Elems(y)
        ensures m in Pending(g, a)
      {
        assert m !in b[ns];
      }
    }
  }

  /** A run of passes appends only pending auto-install modules of each
      file's namespace, each at most once. */
  lemma {:induction false} ChainAppendsAuto(g: Graph, states: seq<map<string, seq<string>>>)
    requires PassChain(g, states)
    ensures AppendsAuto(g, states[0], states[|states| - 1])
    decreases |states|
  {
    if |states| == 1 {
      var s := states[0];
      forall ns | ns in s
        ensures s[ns][|s[ns]|..] == []
      {
      }
    } else {
      var rest := states[1..];
      assert PassChain(g, rest) by {
        forall i | 0 <= i < |rest| - 1
          ensures PassOutcome(g, rest[i], rest[i + 1])
        {
          assert rest[i] == states[i + 1] && rest[i + 1] == states[i + 2];
        }
      }
      ChainAppendsAuto(g, rest);
      PassAppendsAuto(g, states[0], states[1]);
      AppendsAutoTrans(g, states[0], states[1], states[|states| - 1]);
    }
  }

  /** A run of passes that starts where nothing is eligible changes nothing. */
  lemma {:induction false} ChainStable(g: Graph, states: seq<map<string, seq<string>>>)
    requires PassChain(g, states) && Adds(g, states[0]) == {}
    ensures states[|states| - 1] == states[0]
    decreases |states|
  {
    if |states| > 1 {
      PassIdleIff(g, states[0], states[1]);
      var rest := states[1..];
      assert PassChain(g, rest) by {
        forall i | 0 <= i < |rest| - 1
          ensures PassOutcome(g, rest[i], rest[i + 1])
        {
          assert rest[i] == states[i + 1] && rest[i + 1] == states[i + 2];
        }
      }
      ChainStable(g, rest);
    }
  }

  /** Computes `_get_all_sparse_files` by walking the graph. */
  method GetAllSparseFiles(g: Graph, fs: Disk) returns (nss: set<string>)
    ensures nss == SparseNamespaces(g, fs.whitelists)
  {
    nss := {};
    var ms := g.Keys;
    while ms != {}
      invariant ms <= g.Keys
      invariant nss == SparseAmong(g, fs.whitelists, g.Keys - ms)
      decreases ms
    {
      var m :| m in ms;
      assert g.Keys - (ms - {m}) == (g.Keys - ms) + {m};
      ms := ms - {m};
      if g[m].Some? {
        var ns := g[m].value.namespace;
        if fs.HasWhitelist(ns) {
          nss := nss + {ns};
        }
      }
    }
  }

  /** The first half of a pass: reads `all_white_listed` and the list of
      auto-install modules. */
  method ReadPool(g: Graph, fs: Disk) returns (pool: set<string>, auto: set<string>)
    ensures pool == Pool(g, fs.whitelists)
    ensures auto == AutoModules(g)
  {
    var sparse := GetAllSparseFiles(g, fs);
    pool := {};
    auto := {};
    var ms := g.Keys;
    while ms != {}
      invariant ms <= g.Keys
      invariant pool == Unlisted(g, fs.whitelists, g.Keys - ms)
      invariant auto == AutoAmong(g, g.Keys - ms)
      decreases ms
    {
      var m :| m in ms;
      ms := ms - {m};
      if g[m].Some? {
        var node := g[m].value;
        if !fs.HasWhitelist(node.namespace) {
          pool := pool + {m};
        }
        if node.autoInstall {
          auto := auto + {m};
        }
      }
    }
    var rest := sparse;
    while rest != {}
      invariant rest <= sparse
      invariant pool == Unlisted(g, fs.whitelists, g.Keys) + Listed(fs.whitelists, sparse - rest)
      decreases rest
    {
      var ns :| ns in rest;
      rest := rest - {ns};
      pool := pool + Elems(fs.whitelists[ns]);
    }
  }

  /** One iteration of the appending loop: appends `m` to the whitelist file
      of its namespace when all its dependencies are in `pool`, the file
      exists, and it does not list `m` yet. */
  method AppendIfEligible(g: Graph, m: string, pool: set<string>, fs: Disk) returns (add: bool)
    requires Defined(g, m)
    modifies fs`whitelists
    ensures add <==> Elems(g[m].value.depends) <= pool && NamespaceOf(g, m) in old(fs.whitelists)
                     && m !in old(fs.whitelists)[NamespaceOf(g, m)]
    ensures add ==> fs.whitelists == old(fs.whitelists)[NamespaceOf(g, m) := old(fs.whitelists)[NamespaceOf(g, m)] + [m]]
    ensures !add ==> fs.whitelists == old(fs.whitelists)
  {
    var node := g[m].value;
    add := false;
    if forall i :: 0 <= i < |node.depends| ==> node.depends[i] in pool {
      if fs.HasWhitelist(node.namespace) {
        var existing := Elems(fs.whitelists[node.namespace]);
        if m !in existing {
          fs.AppendLines(node.namespace, [m]);
          add := true;
        }
      }
    }
  }

  /** `_reconcile_auto_install`: one pass. It reads the pool once, then
      appends each eligible auto-install module to the whitelist file of its
      namespace, and reports whether it appended anything. */
  method ReconcileAutoInstall(g: Graph, fs: Disk) returns (changed: bool)
    modifies fs`whitelists
    ensures PassOutcome(g, old(fs.whitelists), fs.whitelists)
    ensures changed <==> Adds(g, old(fs.whitelists)) != {}
  {
    ghost var before := fs.whitelists;
    var pool, auto := ReadPool(g, fs);
    changed := false;
    var todo := auto;
    assert forall ns :: ns in before ==> before[ns][|before[ns]|..] == [];
    while todo != {}
      invariant todo <= auto
      invariant PassOn(g, auto - todo, before, fs.whitelists)
      invariant changed <==> Adds(g, before) * (auto - todo) != {}
      decreases todo
    {
      var m :| m in todo;
      ghost var done := auto - todo;
      ghost var mid := fs.whitelists;
      var add := AppendIfEligible(g, m, pool, fs);
      PassOnStep(g, done, m, before, mid, pool, add, fs.whitelists);
      changed := changed || add;
      assert auto - (todo - {m}) == done + {m};
      todo := todo - {m};
    }
  }

  /** `while _reconcile_auto_install(g): pass`: repeats passes until one
      appends nothing, which takes at most one call more than there are
      auto-install modules. `states` are the files before each call and
      after the last. */
  method ReconcileUntilStable(g: Graph, fs: Disk) returns (ghost passes: nat, ghost states: seq<map<string, seq<string>>>)
    modifies fs`whitelists
    ensures PassChain(g, states) && |states| == passes + 1
    ensures states[0] == old(fs.whitelists) && states[passes] == fs.whitelists
    ensures Adds(g, fs.whitelists) == {}
    ensures AppendsAuto(g, old(fs.whitelists), fs.whitelists)
    ensures Adds(g, old(fs.whitelists)) == {} ==> fs.whitelists == old(fs.whitelists)
    ensures passes <= |AutoModules(g)| + 1
  {
    ghost var start := fs.whitelists;
    passes, states := 0, [start];
    var changed := true;
    while changed
      invariant PassChain(g, states) && |states| == passes + 1
      invariant states[0] == start && states[passes] == fs.whitelists
      invariant passes <= |AutoModules(g)| + 1
      invariant changed && passes > 0 ==> passes + |Pending(g, fs.whitelists)| <= |AutoModules(g)|
      invariant !changed ==> Adds(g, fs.whitelists) == {}
      decreases |AutoModules(g)| + 1 - passes
    {
      ghost var before := fs.whitelists;
      changed := ReconcileAutoInstall(g, fs);
      PassChainSnoc(g, states, fs.whitelists);
      passes, states := passes + 1, states + [fs.whitelists];
      PassShrinksPending(g, before, fs.whitelists);
      AddsArePending(g, before);
      PassIdleIff(g, before, fs.whitelists);
      CardDifference(Pending(g, before), Adds(g, before));
      CardDifference(AutoModules(g), Pending(g, fs.whitelists));
    }
    ChainAppendsAuto(g, states);
    if Adds(g, start) == {} {
      ChainStable(g, states);
    }
  }
}
