/** The text `reconcile_dockerignore_placeholder` writes after the
    placeholder line: for each namespace with a whitelist file, a block that
    ignores the namespace and re-includes its whitelisted entries. */
module Snippet {
  import opened Collections
  import opened Text
  import opened Paths

  /** Whitelist entries containing this text are not re-included. */
  const SETUP_MARK := "!setup"

  /** The directory a block is rooted at: the namespace as recovered from
      the path of its whitelist file. */
  function IgnoreRoot(ns: string): (r: string)
  {
    NsFromSparsePersistenceFile(SparsePersistenceFile(ns))
  }

  /** A block is rooted at the namespace from its first "vendor" on, the
      path relative to the directory holding the vendored repositories, and
      at "" when the namespace has no "vendor". */
  lemma IgnoreRootFromVendor(ns: string)
    requires IsNamespacePath(ns)
    ensures IgnoreRoot(ns) == FromVendor(ns)
    ensures Find(ns, VENDOR) == -1 ==> IgnoreRoot(ns) == ""
    ensures Find(ns, VENDOR) != -1 ==> IgnoreRoot(ns) == ns[Find(ns, VENDOR)..] && IgnoreRoot(ns)[..|VENDOR|] == VENDOR
  {
    SparseFileRoundTrip(ns);
    var k := Find(ns, VENDOR);
    if k != -1 {
      FindIsFirst(ns, VENDOR, k);
      assert ns[k..][..|VENDOR|] == ns[k..k + |VENDOR|];
    }
  }

  /** `less`: one re-inclusion `!root/entry` per entry, in the order of
      `entries`, skipping the entries that mention `!setup`. */
  function Less(root: string, entries: seq<string>): (r: seq<string>)
  {
    if entries == [] then []
    else
      (if Contains(entries[0], SETUP_MARK) then [] else ["!" + Join(root, entries[0])])
      + Less(root, entries[1..])
  }

  /** The block of one whitelist file: the pattern `Join(root, "**")`, then its re-inclusions,
      one per line. */
  function Block(root: string, entries: seq<string>): (r: string)
  {
    JoinNewline([Join(root, "**")] + Less(root, entries)) + "\n"
  }

  /** The blocks rooted at `roots`, in that order, the entries of the
      `i`-th taken in the order `orders[i]`. */
  function Blocks(roots: seq<string>, orders: seq<seq<string>>): (r: string)
    requires |orders| == |roots|
  {
    if roots == [] then ""
    else Blocks(roots[..|roots| - 1], orders[..|orders| - 1]) + Block(roots[|roots| - 1], orders[|orders| - 1])
  }

  /** Each re-inclusion comes from an entry without `!setup`, and each such
      entry yields one. */
  lemma {:induction false} LessContents(root: string, entries: seq<string>)
    ensures Elems(Less(root, entries)) ==
      set l | l in entries && !Contains(l, SETUP_MARK) :: "!" + Join(root, l)
  {
    if entries != [] {
      LessContents(root, entries[1..]);
      var head := if Contains(entries[0], SETUP_MARK) then [] else ["!" + Join(root, entries[0])];
      ElemsAppend(head, Less(root, entries[1..]));
      assert forall l :: l in entries <==> l == entries[0] || l in entries[1..];
    }
  }

  /** A block is its lines, each ended by a newline. */
  lemma BlockLines(root: string, entries: seq<string>)
    ensures Block(root, entries) == Unlines([Join(root, "**")] + Less(root, entries))
  {
    JoinNewlineTerminated([Join(root, "**")] + Less(root, entries));
  }

  /** A duplicate-free listing of two distinct elements is one of their two
      orders. */
  lemma TwoOrders(s: seq<string>, x: string, y: string)
    requires x != y && Enumerates(s, {x, y})
    ensures s == [x, y] || s == [y, x]
  {
    NoDupCard(s);
    assert |{x, y}| == 2;
    assert s[0] in Elems(s) && s[1] in Elems(s);
  }

  /** The setup exclusion yields no re-inclusion; `mod_a` yields one. */
  lemma LessExample(entries: seq<string>)
    requires Enumerates(entries, {"mod_a", "!setup/**"})
    ensures Less("vendor/acme", entries) == ["!vendor/acme/mod_a"]
  {
    TwoOrders(entries, "mod_a", "!setup/**");
    var root := "vendor/acme";
    assert Contains("!setup/**", SETUP_MARK);
    assert !Contains("mod_a", SETUP_MARK);
    assert Join(root, "mod_a") == "vendor/acme/mod_a";
    assert "!" + Join(root, "mod_a") == "!vendor/acme/mod_a";
    assert Less(root, ["!setup/**"]) == [] by {
      assert ["!setup/**"][1..] == [];
    }
    assert Less(root, ["mod_a"]) == ["!vendor/acme/mod_a"] by {
      assert ["mod_a"][1..] == [];
    }
    if entries == ["mod_a", "!setup/**"] {
      assert entries[1..] == ["!setup/**"];
    } else {
      assert entries[1..] == ["mod_a"];
    }
  }

  /** The block of namespace `vendor/acme` whose whitelist file holds `mod_a`
      and the setup exclusion: the namespace is ignored and `mod_a` alone is
      re-included, whichever order the entries are visited in. */
  lemma BlockExample(entries: seq<string>)
    requires Enumerates(entries, {"mod_a", "!setup/**"})
    ensures Block("vendor/acme", entries) == "vendor/acme/**" + "\n" + "!vendor/acme/mod_a" + "\n"
  {
    var lines := ["vendor/acme/**", "!vendor/acme/mod_a"];
    BlockLines("vendor/acme", entries);
    LessExample(entries);
    assert Join("vendor/acme", "**") == "vendor/acme/**";
    assert [Join("vendor/acme", "**")] + Less("vendor/acme", entries) == lines;
    assert Unlines(lines) == "vendor/acme/**" + "\n" + "!vendor/acme/mod_a" + "\n" by {
      assert lines[1..][1..] == [];
    }
  }

  /** The blocks of the namespaces `nss` are rooted at `roots`, and the
      entries of the `i`-th are those of its whitelist file, listed once each
      in the order `orders[i]`. */
  ghost predicate SnippetParts(files: map<string, seq<string>>, nss: seq<string>, roots: seq<string>,
                               orders: seq<seq<string>>)
  {
    && |roots| == |nss| && |orders| == |nss|
    && (nss != [] ==>
          var n := |nss| - 1;
          && SnippetParts(files, nss[..n], roots[..n], orders[..n])
          && nss[n] in files && roots[n] == IgnoreRoot(nss[n])
          && Enumerates(orders[n], Elems(files[nss[n]])))
  }

  /** One more whitelist file keeps `SnippetParts`. */
  lemma SnippetPartsStep(files: map<string, seq<string>>, nss: seq<string>, roots: seq<string>,
                         orders: seq<seq<string>>, ns: string, root: string, entries: seq<string>)
    requires SnippetParts(files, nss, roots, orders)
    requires ns in files && root == IgnoreRoot(ns) && Enumerates(entries, Elems(files[ns]))
    ensures SnippetParts(files, nss + [ns], roots + [root], orders + [entries])
  {
    assert (nss + [ns])[..|nss|] == nss;
    assert (roots + [root])[..|nss|] == roots;
    assert (orders + [entries])[..|nss|] == orders;
  }

  /** One more block goes at the end of the snippet. */
  lemma BlocksSnoc(roots: seq<string>, orders: seq<seq<string>>, root: string, entries: seq<string>)
    requires |orders| == |roots|
    ensures Blocks(roots + [root], orders + [entries]) == Blocks(roots, orders) + Block(root, entries)
  {
    var roots', orders' := roots + [root], orders + [entries];
    assert roots'[..|roots'| - 1] == roots && orders'[..|orders'| - 1] == orders;
  }

  /** `snippet` is the text of the blocks of the namespaces `nss`. */
  ghost predicate SnippetOf(files: map<string, seq<string>>, nss: seq<string>, roots: seq<string>,
                            orders: seq<seq<string>>, snippet: string)
  {
    SnippetParts(files, nss, roots, orders) && snippet == Blocks(roots, orders)
  }

  /** Appending the block of the whitelist file of `ns`, rooted at `root`
      and listing `entries`, keeps `SnippetOf`. */
  lemma SnippetOfStep(files: map<string, seq<string>>, nss: seq<string>, roots: seq<string>,
                      orders: seq<seq<string>>, snippet: string, ns: string, root: string, entries: seq<string>)
    requires SnippetOf(files, nss, roots, orders, snippet)
    requires ns in files && root == IgnoreRoot(ns) && Enumerates(entries, Elems(files[ns]))
    ensures SnippetOf(files, nss + [ns], roots + [root], orders + [entries], snippet + Block(root, entries))
  {
    SnippetPartsStep(files, nss, roots, orders, ns, root, entries);
    BlocksSnoc(roots, orders, root, entries);
  }

  /** The snippet is empty exactly when there is no block: every block ends
      with a newline. */
  lemma SnippetEmpty(files: map<string, seq<string>>, nss: seq<string>, roots: seq<string>,
                     orders: seq<seq<string>>, snippet: string)
    requires SnippetOf(files, nss, roots, orders, snippet)
    ensures snippet == "" <==> nss == []
  {
    if nss != [] {
      var n := |roots| - 1;
      assert |Block(roots[n], orders[n])| > 0;
      assert |snippet| >= |Block(roots[n], orders[n])|;
    }
  }
}
