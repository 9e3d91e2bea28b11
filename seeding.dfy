/** Seeding: every namespace of the resolution gets a whitelist file holding
    its modules and the exclusion of its setup directory, by appending only
    what is missing. */
module Seeding {
  import opened Collections
  import opened Store
  import opened Resolution

  /** The exclusion every whitelist file carries. */
  const SETUP_EXCLUDE := "!setup/**"

  /** What the whitelist file of `ns` must contain. */
  function Should(includes: Include, ns: string): (r: set<string>)
    requires ns in includes
  {
    includes[ns] + {SETUP_EXCLUDE}
  }

  /** What seeding the namespaces in `done` requires of the file of `ns`. */
  function RequiredIn(includes: Include, done: set<string>, ns: string): (r: set<string>)
  {
    if ns in done && ns in includes then Should(includes, ns) else {}
  }

  /** `after` is `before` once the namespaces in `done` have been seeded: their
      files exist, and each file is its old lines followed by the required
      entries it lacked, each once. */
  ghost predicate SeededOn(includes: Include, done: set<string>,
                           before: map<string, seq<string>>, after: map<string, seq<string>>)
  {
    && after.Keys == before.Keys + (done * includes.Keys)
    && forall ns :: ns in after ==>
         && LinesOr(before, ns) <= after[ns]
         && NoDup(after[ns][|LinesOr(before, ns)|..])
         && Elems(after[ns][|LinesOr(before, ns)|..]) == RequiredIn(includes, done, ns) - Elems(LinesOr(before, ns))
  }

  /** The effect of seeding every namespace of `includes`. */
  ghost predicate SeedOutcome(includes: Include, before: map<string, seq<string>>, after: map<string, seq<string>>)
  {
    SeededOn(includes, includes.Keys, before, after)
  }

  /** Every namespace of `includes` has a whitelist file containing what it should. */
  ghost predicate Seeded(includes: Include, files: map<string, seq<string>>)
  {
    forall ns :: ns in includes ==> ns in files && Should(includes, ns) <= Elems(files[ns])
  }

  /** Appending to the file of `ns` the entries of `Should` it lacks extends
      the seeded state from `done` to `done + {ns}`. */
  lemma SeededOnStep(includes: Include, done: set<string>, ns: string,
                     before: map<string, seq<string>>, mid: map<string, seq<string>>, q: seq<string>)
    requires ns in includes && ns !in done && SeededOn(includes, done, before, mid)
    requires NoDup(q) && Elems(q) == Should(includes, ns) - Elems(LinesOr(mid, ns))
    ensures SeededOn(includes, done + {ns}, before, mid[ns := LinesOr(mid, ns) + q])
  {
    var after := mid[ns := LinesOr(mid, ns) + q];
    var b, m := LinesOr(before, ns), LinesOr(mid, ns);
    assert b <= m;
    var a := m[|b|..];
    assert Elems(a) == {} by {
      assert RequiredIn(includes, done, ns) == {};
      ElemsEmpty(a);
    }
    assert a == [] by { ElemsEmpty(a); }
    assert m == b;
    assert after[ns][|b|..] == q;
    forall n | n in after && n != ns
      ensures RequiredIn(includes, done + {ns}, n) == RequiredIn(includes, done, n)
    {
    }
  }

  /** Seeding establishes `Seeded`, and only appends. */
  lemma SeedOutcomeSeeds(includes: Include, before: map<string, seq<string>>, after: map<string, seq<string>>)
    requires SeedOutcome(includes, before, after)
    ensures Seeded(includes, after) && Extends(before, after)
  {
    forall ns | ns in includes
      ensures Should(includes, ns) <= Elems(after[ns])
    {
      var b := LinesOr(before, ns);
      assert after[ns] == b + after[ns][|b|..];
      ElemsAppend(b, after[ns][|b|..]);
    }
  }

  /** Seeding a state that is already seeded appends nothing. */
  lemma SeedIdempotent(includes: Include, before: map<string, seq<string>>, after: map<string, seq<string>>)
    requires Seeded(includes, before) && SeedOutcome(includes, before, after)
    ensures after == before
  {
    forall ns | ns in after
      ensures after[ns] == before[ns]
    {
      var added := after[ns][|before[ns]|..];
      ElemsEmpty(added);
      assert after[ns] == before[ns] + added;
    }
  }

  /** Appending lines keeps a seeded state seeded. */
  lemma SeededExtends(includes: Include, before: map<string, seq<string>>, after: map<string, seq<string>>)
    requires Seeded(includes, before) && Extends(before, after)
    ensures Seeded(includes, after)
  {
    forall ns | ns in includes
      ensures Should(includes, ns) <= Elems(after[ns])
    {
      assert after[ns] == before[ns] + after[ns][|before[ns]|..];
      ElemsAppend(before[ns], after[ns][|before[ns]|..]);
    }
  }

  /** One iteration of the seeding loop: switches the repository of `ns` to
      sparse checkout, links a new whitelist file into git, and appends to
      the file, once each, the entries of `should` it lacks. */
  method SeedNamespace(ns: string, should: set<string>, fs: Disk) returns (added: seq<string>)
    modifies fs`whitelists, fs`sparseEnabled, fs`linked
    ensures NoDup(added) && Elems(added) == should - Elems(LinesOr(old(fs.whitelists), ns))
    ensures added == [] ==> fs.whitelists == old(fs.whitelists)
    ensures added != [] ==> fs.whitelists == old(fs.whitelists)[ns := LinesOr(old(fs.whitelists), ns) + added]
    ensures fs.sparseEnabled == old(fs.sparseEnabled) + {ns}
    ensures fs.linked == old(fs.linked) + (if ns in old(fs.whitelists) then {} else {ns})
  {
    fs.EnableSparseCheckout(ns);
    var existing: set<string>;
    if fs.HasWhitelist(ns) {
      existing := Elems(fs.whitelists[ns]);
    } else {
      existing := {};
      fs.SymlinkSparseFile(ns);
    }
    var missing := should - existing;
    if missing == {} {
      added := [];
      ElemsEmpty(added);
      return;
    }
    added := Enumerate(missing);
    ElemsEmpty(added);
    fs.AppendLines(ns, added);
  }

  /** The state of the seeding loop once the namespaces of `includes` outside
      `todo` are done: their files are seeded, their repositories switched to
      sparse checkout, and the files they lacked linked into git. */
  ghost predicate SeedProgress(includes: Include, todo: set<string>,
                               before: map<string, seq<string>>, sparse0: set<string>, linked0: set<string>,
                               after: map<string, seq<string>>, sparse: set<string>, linked: set<string>)
  {
    && todo <= includes.Keys
    && SeededOn(includes, includes.Keys - todo, before, after)
    && sparse == sparse0 + (includes.Keys - todo)
    && linked == linked0 + ((includes.Keys - todo) - before.Keys)
  }

  /** Seeding one more namespace, as `SeedNamespace` does, keeps `SeedProgress`. */
  lemma SeedProgressStep(includes: Include, todo: set<string>, ns: string,
                         before: map<string, seq<string>>, sparse0: set<string>, linked0: set<string>,
                         mid: map<string, seq<string>>, sparse: set<string>, linked: set<string>,
                         added: seq<string>,
                         after: map<string, seq<string>>, sparse': set<string>, linked': set<string>)
    requires ns in todo
    requires SeedProgress(includes, todo, before, sparse0, linked0, mid, sparse, linked)
    requires NoDup(added) && Elems(added) == Should(includes, ns) - Elems(LinesOr(mid, ns))
    requires added == [] ==> after == mid
    requires added != [] ==> after == mid[ns := LinesOr(mid, ns) + added]
    requires sparse' == sparse + {ns}
    requires linked' == linked + (if ns in mid then {} else {ns})
    ensures SeedProgress(includes, todo - {ns}, before, sparse0, linked0, after, sparse', linked')
  {
    var done := includes.Keys - todo;
    assert includes.Keys - (todo - {ns}) == done + {ns};
    assert ns in mid <==> ns in before;
    if ns !in mid {
      assert SETUP_EXCLUDE in Elems(added);
    }
    SeededOnStep(includes, done, ns, before, mid, added);
    if added == [] && ns in mid {
      assert LinesOr(mid, ns) + added == mid[ns];
      assert mid[ns := LinesOr(mid, ns) + added] == mid;
    }
  }

  /** The seeding loop of `whitelist`: seeds every namespace of `includes`. */
  method Seed(includes: Include, fs: Disk)
    modifies fs`whitelists, fs`sparseEnabled, fs`linked
    ensures SeedOutcome(includes, old(fs.whitelists), fs.whitelists)
    ensures fs.sparseEnabled == old(fs.sparseEnabled) + includes.Keys
    ensures fs.linked == old(fs.linked) + (includes.Keys - old(fs.whitelists).Keys)
  {
    ghost var before, sparse0, linked0 := fs.whitelists, fs.sparseEnabled, fs.linked;
    var todo := includes.Keys;
    assert forall ns :: ns in before ==> before[ns][|LinesOr(before, ns)|..] == [];
    while todo != {}
      invariant SeedProgress(includes, todo, before, sparse0, linked0, fs.whitelists, fs.sparseEnabled, fs.linked)
      decreases todo
    {
      var ns :| ns in todo;
      ghost var mid, sparse, linked := fs.whitelists, fs.sparseEnabled, fs.linked;
      var added := SeedNamespace(ns, includes[ns] + {SETUP_EXCLUDE}, fs);
      SeedProgressStep(includes, todo, ns, before, sparse0, linked0, mid, sparse, linked,
                       added, fs.whitelists, fs.sparseEnabled, fs.linked);
      todo := todo - {ns};
    }
  }
}
