/** Validation of the target module and grouping of its transitive
    dependencies by namespace: the first half of the `whitelist` command. */
module Resolution {
  import opened Outcomes
  import opened Collections
  import opened Text
  import opened ModuleGraph

  /** A namespace whose path contains this text holds native modules. */
  const NATIVE_MARKER := "vendor/odoo"

  /** Native namespaces are recognised by a plain substring test. */
  predicate IsNative(ns: string)
  {
    Contains(ns, NATIVE_MARKER)
  }

  /** Why the command stops before touching any whitelist file. */
  datatype Error =
    | NotInsideWorkTree
    | UnknownModule(name: string)
    | MissingModule(name: string)
    | NativeModuleSkipped(name: string)
    | MissingDependencies(modules: set<string>)

  /** Namespace to the modules that must be whitelisted in it. */
  type Include = map<string, set<string>>

  /** The namespace of a defined module. */
  function NamespaceOf(g: Graph, m: string): (r: string)
    requires Defined(g, m)
  {
    g[m].value.namespace
  }

  /** A dependency is whitelisted when it is defined and, if native modules
      are skipped, not native. */
  predicate Kept(g: Graph, d: string, skipNative: bool)
  {
    Defined(g, d) && !(skipNative && IsNative(NamespaceOf(g, d)))
  }

  /** The dependencies among `deps` that were found nowhere. */
  function Undefined(g: Graph, deps: set<string>): (r: set<string>)
  {
    set d | d in deps && !Defined(g, d)
  }

  /** The kept dependencies among `deps` whose namespace is `ns`. */
  function KeptIn(g: Graph, skipNative: bool, deps: set<string>, ns: string): (r: set<string>)
  {
    set d | d in deps && Kept(g, d, skipNative) && NamespaceOf(g, d) == ns
  }

  /** The namespaces of the kept dependencies among `deps`. */
  function KeptNamespaces(g: Graph, skipNative: bool, deps: set<string>): (r: set<string>)
  {
    set d | d in deps && Kept(g, d, skipNative) :: NamespaceOf(g, d)
  }

  /** The target under its namespace, and every kept dependency among `deps`
      under its own namespace. */
  function IncludeFor(g: Graph, target: string, skipNative: bool, deps: set<string>): (r: Include)
    requires Defined(g, target)
  {
    var tns := NamespaceOf(g, target);
    map ns | ns in {tns} + KeptNamespaces(g, skipNative, deps) ::
      (if ns == tns then {target} else {}) + KeptIn(g, skipNative, deps, ns)
  }

  /** What resolving `target` yields: the first failing check, in the order
      the command makes them, or the namespaces to whitelist. */
  ghost function ResolutionOf(g: Graph, target: string, skipNative: bool): (r: Result<Include, Error>)
  {
    if target !in g then Err(UnknownModule(target))
    else if !Defined(g, target) then Err(MissingModule(target))
    else if skipNative && IsNative(NamespaceOf(g, target)) then Err(NativeModuleSkipped(target))
    else
      var deps := AncestorsOf(g, target);
      if Undefined(g, deps) != {} then Err(MissingDependencies(Undefined(g, deps)))
      else Ok(IncludeFor(g, target, skipNative, deps))
  }

  /** `groups` is the grouping of `deps`, stated key by key. */
  ghost predicate GroupsOf(g: Graph, target: string, skipNative: bool, deps: set<string>, groups: Include)
    requires Defined(g, target)
  {
    var tns := NamespaceOf(g, target);
    && groups.Keys == {tns} + KeptNamespaces(g, skipNative, deps)
    && forall ns :: ns in groups ==>
         groups[ns] == (if ns == tns then {target} else {}) + KeptIn(g, skipNative, deps, ns)
  }

  /** One more dependency adds its namespace when it is kept. */
  lemma KeptNamespacesAdd(g: Graph, skipNative: bool, deps: set<string>, d: string)
    ensures KeptNamespaces(g, skipNative, deps + {d}) ==
      KeptNamespaces(g, skipNative, deps) + (if Kept(g, d, skipNative) then {NamespaceOf(g, d)} else {})
  {
  }

  /** One more dependency joins the kept modules of its namespace when it is kept. */
  lemma KeptInAdd(g: Graph, skipNative: bool, deps: set<string>, d: string, ns: string)
    ensures KeptIn(g, skipNative, deps + {d}, ns) ==
      KeptIn(g, skipNative, deps, ns) + (if Kept(g, d, skipNative) && NamespaceOf(g, d) == ns then {d} else {})
  {
  }

  /** Adding one more dependency adds it under its own namespace when it is
      kept, and changes nothing otherwise. */
  lemma GroupsOfAdd(g: Graph, target: string, skipNative: bool, deps: set<string>, groups: Include, d: string)
    requires Defined(g, target) && GroupsOf(g, target, skipNative, deps, groups)
    ensures Kept(g, d, skipNative) ==>
      var ns := NamespaceOf(g, d);
      GroupsOf(g, target, skipNative, deps + {d}, groups[ns := (if ns in groups then groups[ns] else {}) + {d}])
    ensures !Kept(g, d, skipNative) ==> GroupsOf(g, target, skipNative, deps + {d}, groups)
  {
    var tns := NamespaceOf(g, target);
    KeptNamespacesAdd(g, skipNative, deps, d);
    if Kept(g, d, skipNative) {
      var dns := NamespaceOf(g, d);
      var groups' := groups[dns := (if dns in groups then groups[dns] else {}) + {d}];
      forall ns | ns in groups'
        ensures groups'[ns] == (if ns == tns then {target} else {}) + KeptIn(g, skipNative, deps + {d}, ns)
      {
        KeptInAdd(g, skipNative, deps, d, ns);
      }
    } else {
      forall ns | ns in groups
        ensures groups[ns] == (if ns == tns then {target} else {}) + KeptIn(g, skipNative, deps + {d}, ns)
      {
        KeptInAdd(g, skipNative, deps, d, ns);
      }
    }
  }

  /** The grouping of no dependency holds the target alone. */
  lemma GroupsOfNone(g: Graph, target: string, skipNative: bool)
    requires Defined(g, target)
    ensures GroupsOf(g, target, skipNative, {}, map[NamespaceOf(g, target) := {target}])
  {
    assert KeptNamespaces(g, skipNative, {}) == {};
    assert forall ns :: KeptIn(g, skipNative, {}, ns) == {};
  }

  /** `GroupsOf` describes `IncludeFor` and nothing else. */
  lemma GroupsOfIsIncludeFor(g: Graph, target: string, skipNative: bool, deps: set<string>, groups: Include)
    requires Defined(g, target) && GroupsOf(g, target, skipNative, deps, groups)
    ensures groups == IncludeFor(g, target, skipNative, deps)
  {
    var expected := IncludeFor(g, target, skipNative, deps);
    assert groups.Keys == expected.Keys;
    assert forall ns :: ns in groups ==> groups[ns] == expected[ns];
  }

  /** The loop of `whitelist` over the target's dependencies: collects the
      undefined ones and groups the kept ones by namespace, starting from the
      target under its own namespace. */
  method GroupDependencies(g: Graph, target: string, skipNative: bool, deps: set<string>)
    returns (groups: Include, missing: set<string>)
    requires Defined(g, target) && deps <= g.Keys
    ensures missing == Undefined(g, deps)
    ensures groups == IncludeFor(g, target, skipNative, deps)
  {
    groups := map[g[target].value.namespace := {target}];
    missing := {};
    var todo := deps;
    GroupsOfNone(g, target, skipNative);
    assert deps - todo == {};
    while todo != {}
      invariant todo <= deps
      invariant missing == Undefined(g, deps - todo)
      invariant GroupsOf(g, target, skipNative, deps - todo, groups)
      decreases todo
    {
      var dep :| dep in todo;
      GroupsOfAdd(g, target, skipNative, deps - todo, groups, dep);
      assert deps - (todo - {dep}) == (deps - todo) + {dep};
      todo := todo - {dep};
      if g[dep].None? {
        missing := missing + {dep};
        continue;
      }
      var ns := g[dep].value.namespace;
      if skipNative && IsNative(ns) {
        continue;
      }
      if ns !in groups {
        groups := groups[ns := {}];
      }
      groups := groups[ns := groups[ns] + {dep}];
    }
    assert deps - todo == deps;
    GroupsOfIsIncludeFor(g, target, skipNative, deps, groups);
  }

  /** The body of `whitelist` up to its first write: computes the target's
      dependencies, rejects an unknown, undefined or (when skipping) native
      target, collects every undefined dependency before failing, and groups
      the kept dependencies by namespace. */
  method Resolve(g: Graph, target: string, skipNative: bool) returns (r: Result<Include, Error>)
    requires Closed(g)
    ensures r == ResolutionOf(g, target, skipNative)
  {
    if target !in g {
      return Err(UnknownModule(target));
    }
    var deps := Ancestors(g, target);
    if g[target].None? {
      return Err(MissingModule(target));
    }
    var node := g[target].value;
    if skipNative && IsNative(node.namespace) {
      return Err(NativeModuleSkipped(target));
    }
    var groups, missing := GroupDependencies(g, target, skipNative, deps);
    if missing != {} {
      return Err(MissingDependencies(missing));
    }
    return Ok(groups);
  }

  /** The failures of resolution, in the order the command checks them: an
      unknown target, an undefined target, a native target when native
      modules are skipped, then every undefined transitive dependency at once. */
  lemma ResolutionFailures(g: Graph, target: string, skipNative: bool)
    ensures target !in g ==> ResolutionOf(g, target, skipNative) == Err(UnknownModule(target))
    ensures target in g && !Defined(g, target) ==> ResolutionOf(g, target, skipNative) == Err(MissingModule(target))
    ensures Defined(g, target) && skipNative && IsNative(NamespaceOf(g, target)) ==>
      ResolutionOf(g, target, skipNative) == Err(NativeModuleSkipped(target))
    ensures Defined(g, target) && !(skipNative && IsNative(NamespaceOf(g, target))) ==>
      (ResolutionOf(g, target, skipNative).Err? <==>
        exists d :: Reachable(g, target, d) && d in g && d != target && !Defined(g, d))
    ensures ResolutionOf(g, target, skipNative).Err? && ResolutionOf(g, target, skipNative).error.MissingDependencies? ==>
      ResolutionOf(g, target, skipNative).error.modules ==
        set d | d in g && d != target && Reachable(g, target, d) && !Defined(g, d)
  {
    if Defined(g, target) && !(skipNative && IsNative(NamespaceOf(g, target))) {
      var missing := Undefined(g, AncestorsOf(g, target));
      assert missing == set d | d in g && d != target && Reachable(g, target, d) && !Defined(g, d);
      if missing != {} {
        var d :| d in missing;
        assert Reachable(g, target, d) && d in g && d != target && !Defined(g, d);
      }
      if exists d :: Reachable(g, target, d) && d in g && d != target && !Defined(g, d) {
        var d :| Reachable(g, target, d) && d in g && d != target && !Defined(g, d);
        assert d in missing;
      }
    }
  }

  /** What a successful resolution whitelists: the target under its own
      namespace; otherwise only modules the target depends on, each defined,
      under its own namespace and, when native modules are skipped, not
      native; and every such dependency is there. */
  lemma IncludeContents(g: Graph, target: string, skipNative: bool)
    requires ResolutionOf(g, target, skipNative).Ok?
    ensures Defined(g, target)
    ensures var inc := ResolutionOf(g, target, skipNative).value;
      NamespaceOf(g, target) in inc && target in inc[NamespaceOf(g, target)]
    ensures var inc := ResolutionOf(g, target, skipNative).value;
      forall ns, m :: ns in inc && m in inc[ns] ==>
        m == target ||
        (Reachable(g, target, m) && Defined(g, m) && NamespaceOf(g, m) == ns && !(skipNative && IsNative(ns)))
    ensures var inc := ResolutionOf(g, target, skipNative).value;
      forall m :: m in g && m != target && Reachable(g, target, m) ==>
        Defined(g, m) &&
        (!(skipNative && IsNative(NamespaceOf(g, m))) ==> NamespaceOf(g, m) in inc && m in inc[NamespaceOf(g, m)])
    ensures var inc := ResolutionOf(g, target, skipNative).value;
      skipNative ==> forall ns :: ns in inc ==> !IsNative(ns)
  {
    var inc := ResolutionOf(g, target, skipNative).value;
    var deps := AncestorsOf(g, target);
    assert inc == IncludeFor(g, target, skipNative, deps);
    forall m | m in g && m != target && Reachable(g, target, m)
      ensures Defined(g, m)
    {
      assert m in deps;
      assert m !in Undefined(g, deps);
    }
    forall ns | ns in inc && skipNative
      ensures !IsNative(ns)
    {
      if ns != NamespaceOf(g, target) {
        var d :| d in deps && Kept(g, d, skipNative) && NamespaceOf(g, d) == ns;
      }
    }
  }
}
