/** The part of the file system the whitelist command reads and writes: the
    whitelist file of each namespace `ns`, found at
    `SparsePersistenceFile(ns)` and kept as its lines, and the `.dockerignore`
    file, kept as its text. The git side effects the command triggers are
    recorded in ghost fields. */
module Store {
  import opened Collections

  /** The lines of the whitelist file of `ns`, or none when it does not
      exist (an append creates it). */
  function LinesOr(files: map<string, seq<string>>, ns: string): (r: seq<string>)
  {
    if ns in files then files[ns] else []
  }

  /** `after` is `before` with lines appended to some files and possibly new
      files: nothing is rewritten or removed. */
  ghost predicate Extends(before: map<string, seq<string>>, after: map<string, seq<string>>)
  {
    before.Keys <= after.Keys && forall p :: p in before ==> before[p] <= after[p]
  }

  /** Appending twice is appending. */
  lemma ExtendsTrans(a: map<string, seq<string>>, b: map<string, seq<string>>, c: map<string, seq<string>>)
    requires Extends(a, b) && Extends(b, c)
    ensures Extends(a, c)
  {
    forall p | p in a
      ensures a[p] <= c[p]
    {
      assert a[p] == b[p][..|a[p]|];
      assert b[p] == c[p][..|b[p]|];
    }
  }

  class Disk {
    /** Namespace to the lines of its whitelist file, for the namespaces
        that have one. */
    var whitelists: map<string, seq<string>>
    /** The text of `.dockerignore`. */
    var dockerignore: string
    /** Namespaces in whose repository `core.sparseCheckout` has been set. */
    ghost var sparseEnabled: set<string>
    /** Namespaces whose whitelist file is linked into their repository's
        `info/sparse-checkout`. */
    ghost var linked: set<string>

    constructor (whitelists: map<string, seq<string>>, dockerignore: string)
      ensures this.whitelists == whitelists && this.dockerignore == dockerignore
      ensures sparseEnabled == {} && linked == {}
    {
      this.whitelists := whitelists;
      this.dockerignore := dockerignore;
      sparseEnabled := {};
      linked := {};
    }

    /** `os.path.isfile(_get_sparse_persistence_file(ns))`. */
    predicate HasWhitelist(ns: string)
      reads this
    {
      ns in whitelists
    }

    /** Opens the whitelist file of `ns` for appending (creating it if need
        be) and writes each of `lines` followed by a newline. */
    method AppendLines(ns: string, lines: seq<string>)
      modifies this`whitelists
      ensures whitelists == old(whitelists)[ns := LinesOr(old(whitelists), ns) + lines]
    {
      whitelists := whitelists[ns := LinesOr(whitelists, ns) + lines];
    }

    /** `_enable_sparse_echout_for_repo(ns)`: sets `core.sparseCheckout` in the
        repository of `ns` unless it is already set. */
    method EnableSparseCheckout(ns: string)
      modifies this`sparseEnabled
      ensures sparseEnabled == old(sparseEnabled) + {ns}
    {
      sparseEnabled := sparseEnabled + {ns};
    }

    /** `_symlink_sparse_file(ns)`: links the whitelist file of `ns` into
        its repository's `info/sparse-checkout`. */
    method SymlinkSparseFile(ns: string)
      modifies this`linked
      ensures linked == old(linked) + {ns}
    {
      linked := linked + {ns};
    }

    /** Rewrites `.dockerignore` with `text`. */
    method WriteDockerignore(text: string)
      modifies this`dockerignore
      ensures dockerignore == text
    {
      dockerignore := text;
    }
  }
}
