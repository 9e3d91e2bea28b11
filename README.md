# odooup `whitelist`: sparse-checkout whitelists, modelled in Dafny

`odooup whitelist MODULE` prepares a repository of many vendored module
repositories for sparse checkout. Every namespace (the directory of one
vendored repository) has a whitelist file, the hidden sibling
`dirname(ns)/.basename(ns)`, that lists the modules to check out and the
exclusion `!setup/**`. The command works in four steps:

1. It validates the target module against the module dependency graph. The
   target must be known and defined, and must not be native (its namespace
   contains `vendor/odoo`) when native modules are skipped. Every transitive
   dependency must be defined. It then groups the dependencies by namespace.
2. It seeds each of those namespaces. It switches the namespace's repository
   to sparse checkout, links a new whitelist file into git, and appends
   exactly the required entries the file lacks.
3. It runs auto-install passes until one appends nothing. A pass appends an
   `auto_install` module to its namespace's whitelist file once all of the
   module's dependencies are whitelisted.
4. It regenerates the `.dockerignore` fragment after the placeholder line:
   for each whitelist file, its namespace is ignored and its entries are
   re-included.

The model has one Dafny module per part of `odooup/whitelist.py`:

| Module | What it models |
|---|---|
| `Outcomes`, `Collections` | Result types; Python sets read as duplicate-free sequences in an unspecified order. |
| `Text` | Python's `in` on strings, `str.partition`'s search, `"\n".join` and `str.splitlines`. |
| `Paths` | The `os.path` arithmetic of the two persistence-file helpers and their round trip. |
| `ModuleGraph` | The graph; `networkx.ancestors` as reachability, computed by a worklist loop. |
| `Store` | The files the command touches, as a class `Disk` whose methods update them in place. The git side effects are recorded in ghost fields. |
| `Resolution` | Validation and the `include` map. |
| `Seeding` | The seeding loop. |
| `AutoInstall` | `_get_all_sparse_files`, `_reconcile_auto_install` and the fixed-point `while`. |
| `Snippet` | The text `reconcile_dockerignore_placeholder` writes after the placeholder line. |
| `Dockerignore` | `reconcile_dockerignore_placeholder`: the loops that build the snippet and rewrite the file. |
| `Command` | `whitelist` itself. |

The store is keyed by namespace, not by whitelist-file path. Namespaces
are taken to be normalised absolute paths, as `Paths.IsNamespacePath`
requires: a leading '/', and no empty, "." or ".." segment. For those,
the path `_get_sparse_persistence_file` normalises with `os.path.abspath`
is `Paths.SparsePersistenceFile(ns)`, and `Paths.SparseFileInjective` shows
that distinct namespaces have distinct whitelist files.

Two points about the auto-install passes:
- **The pool is a per-pass snapshot.** `all_white_listed` is read once per
  pass, before anything is appended (odooup/whitelist.py:93-108). A module
  appended in a pass is therefore in the pool only from the next pass on.
  `AutoInstall.Pool` is that snapshot.
- **The number of calls.** The loop at odooup/whitelist.py:247-248 makes at
  most |auto-install modules| + 1 calls to `_reconcile_auto_install`,
  counting the final call that appends nothing.

## Model

| member | source | states |
|---|---|---|
| Collections.Enumerate | odooup/whitelist.py:245 | Iterating a Python set visits each of its elements exactly once, in some order. |
| Text.FindIsFirst | odooup/whitelist.py:20 | The search behind `str.partition` returns the first offset where the pattern occurs, and -1 exactly when it occurs nowhere. |
| Text.ContainsIff | odooup/whitelist.py:203 | `pat in s` holds exactly when `pat` occurs at some offset of `s`. |
| Text.JoinNewlineTerminated | odooup/whitelist.py:148 | `"\n".join(parts) + "\n"` ends every part, the last one included, with a newline. |
| Text.SplitUnlines | odooup/whitelist.py:150-155 | `splitlines` on text written line by line (each line followed by "\n") gives those lines back, whatever text follows. |
| Text.SplitLinesAreLines | odooup/whitelist.py:151 | No line returned by `splitlines` contains a line break. |
| Text.UnlinesAppend | odooup/whitelist.py:154-155 | Writing two runs of lines one after the other writes their concatenation. |
| Paths.SparseFileIsHiddenSibling | odooup/whitelist.py:14-15 | For a namespace `parent/base`, the whitelist file is `parent/.base`: same directory, base name prefixed with a dot. |
| Paths.SparseFileRoundTrip | odooup/whitelist.py:14-21 | Recovering the namespace from its whitelist file's path gives the namespace from its first "vendor" onward, or "" when it contains no "vendor". |
| Paths.SparseFileInjective | odooup/whitelist.py:14-15 | Two namespaces have the same whitelist file exactly when they are the same namespace. |
| ModuleGraph.Ancestors | odooup/whitelist.py:180 | Returns exactly the modules the target reaches by one or more dependency edges, the target excluded. |
| Resolution.Resolve | odooup/whitelist.py:179-228 | Returns the failure of the first check that fails (unknown target, undefined target, native target while skipping, undefined dependencies), or else the namespace-to-modules map. |
| Resolution.GroupDependencies | odooup/whitelist.py:209-226 | Collects exactly the undefined dependencies, and maps the target's namespace to the target and each kept dependency's namespace to its kept dependencies, with no other key. |
| Resolution.ResolutionFailures | odooup/whitelist.py:179-228 | Each failure happens exactly in its case. Resolution fails after the target checks iff some reachable dependency is undefined, and the error then names all of them. |
| Resolution.IncludeContents | odooup/whitelist.py:209-226 | On success, the target is under its own namespace. Every other entry is a defined dependency under its own namespace. Every reachable dependency that is not skipped is present, and no native namespace is a key when skipping. |
| Seeding.SeedNamespace | odooup/whitelist.py:231-245 | Enables sparse checkout for the namespace and links its file only when there was none. The file is left as it was, or is its old lines followed by the missing entries, each once. |
| Seeding.Seed | odooup/whitelist.py:230-245 | Every namespace of `include` ends with a file: its old lines, then exactly the entries of `include[ns] ∪ {"!setup/**"}` it lacked, each once. Sparse checkout is enabled for all namespaces and exactly the new files are linked. |
| Seeding.SeedOutcomeSeeds | odooup/whitelist.py:230-245 | After seeding, every namespace's file contains all it should, and every file keeps its previous lines as a prefix. |
| Seeding.SeedIdempotent | odooup/whitelist.py:230-245 | Seeding a state that is already seeded appends nothing. |
| Seeding.SeededExtends | odooup/whitelist.py:247-248 | Later appends (the auto-install passes) keep a seeded state seeded. |
| Seeding.SeedProgressStep | odooup/whitelist.py:230-245 | Seeding one more namespace carries the loop's progress from the namespaces done to one more. |
| AutoInstall.GetAllSparseFiles | odooup/whitelist.py:66-76 | Returns the namespaces of the defined modules whose whitelist file exists. |
| AutoInstall.SparseNamespacesIff | odooup/whitelist.py:66-76 | A namespace is listed iff it has a whitelist file and some defined module lives in it. |
| AutoInstall.ReadPool | odooup/whitelist.py:92-108 | The pool is the modules whose namespace has no whitelist file plus every line of every existing whitelist file. The auto-install list is every defined module flagged `auto_install`. |
| AutoInstall.AppendIfEligible | odooup/whitelist.py:111-134 | Appends the module to its namespace's file iff all its dependencies are in the pool, the file exists and the file does not list it yet; otherwise it changes nothing. |
| AutoInstall.PassOnStep | odooup/whitelist.py:111-134 | Considering one more auto-install module appends it exactly when it is eligible against the snapshot taken at the start of the pass. |
| AutoInstall.ReconcileAutoInstall | odooup/whitelist.py:91-136 | A pass creates no file. It appends to each file, once each, exactly the eligible modules of that namespace, and it returns true iff there was at least one. |
| AutoInstall.AddsArePending | odooup/whitelist.py:111-134 | Only auto-install modules that their namespace's existing file does not list are ever appended. |
| AutoInstall.PassIdleIff | odooup/whitelist.py:110-136 | A pass leaves every file unchanged iff no module was eligible. |
| AutoInstall.PassExtends | odooup/whitelist.py:132-134 | A pass only appends. |
| AutoInstall.PassShrinksPending | odooup/whitelist.py:125-134 | After a pass, the modules still missing from their file are those missing before minus those appended. |
| AutoInstall.PassGrowsPool | odooup/whitelist.py:93-108 | The pool read by the next pass contains the pool read by this one. |
| AutoInstall.PassAppendsAuto | odooup/whitelist.py:111-134 | A pass creates no file and appends to each file only auto-install modules of its namespace that it did not list, each once. |
| AutoInstall.AppendsAutoTrans | odooup/whitelist.py:247-248 | Two such runs of appends in a row are one such run: what the second appends was not listed after the first, so nothing is appended twice. |
| AutoInstall.ChainAppendsAuto | odooup/whitelist.py:247-248 | Any number of passes together append to each file only auto-install modules of its namespace that it did not list at the start, each at most once. |
| AutoInstall.ChainStable | odooup/whitelist.py:247-248 | Passes that start where no module is eligible leave every file as it was. |
| AutoInstall.PassChainSnoc | odooup/whitelist.py:247-248 | A run of passes followed by one more pass is a run of passes. |
| AutoInstall.ReconcileUntilStable | odooup/whitelist.py:247-248 | The files go through a run of passes, each the exact effect of `_reconcile_auto_install` on the files before it. At most (auto-install modules + 1) calls are made. At the end no module is eligible, and only pending auto-install modules of each namespace were appended, each once. When nothing was eligible at the start, nothing changes. |
| Snippet.IgnoreRootFromVendor | odooup/whitelist.py:143 | The root of a namespace's block is the namespace from its first "vendor" onward, starting with "vendor", or "" when the namespace has no "vendor". |
| Snippet.LessContents | odooup/whitelist.py:147 | The re-inclusions are exactly `"!" + join(ns, l)` for the entries `l` that do not contain "!setup". |
| Snippet.BlockLines | odooup/whitelist.py:144-148 | A file's block is the line `ns/**` followed by its re-inclusions, each ended by a newline. |
| Snippet.BlockExample | odooup/whitelist.py:141-148 | For namespace `vendor/acme` with entries `mod_a` and the setup exclusion, the block is "vendor/acme/**\n!vendor/acme/mod_a\n", whichever order the entries are visited in. |
| Dockerignore.KeptLines | odooup/whitelist.py:154-157 | The kept lines are a prefix of the file's lines. No kept line before the last holds the placeholder. When lines are dropped, the last kept line holds it, so with no placeholder every line is kept. |
| Dockerignore.KeptLinesAt | odooup/whitelist.py:154-157 | The prefix that stops at the first placeholder line, or at the end, is what the rewrite keeps. |
| Dockerignore.Splice | odooup/whitelist.py:153-158 | Writes the kept lines, each with a newline, and then the snippet. |
| Dockerignore.KeptThroughMarker | odooup/whitelist.py:154-157 | Lines that already end at their first placeholder line are kept whole, whatever follows them. |
| Dockerignore.KeptEndsAtMarker | odooup/whitelist.py:154-157 | When some line holds the placeholder, the kept lines end with such a line. |
| Dockerignore.ResplitKept | odooup/whitelist.py:150-157 | Kept lines that end at their first placeholder line, once written out with any text after them and split again, are kept unchanged. |
| Dockerignore.SpliceIdempotent | odooup/whitelist.py:150-158 | With a placeholder line present and the same snippet, rewriting the rewritten file reproduces it. |
| Dockerignore.BlocksOf | odooup/whitelist.py:141-148 | Given a set of namespaces with whitelist files, visits each exactly once. The snippet is their blocks in visiting order, each block listing its file's distinct entries in the order they are visited. The snippet is empty exactly when the set is. |
| Snippet.SnippetEmpty | odooup/whitelist.py:141-148 | A snippet made of blocks is empty exactly when it has no block, since every block ends with a newline. |
| Dockerignore.BuildSnippet | odooup/whitelist.py:140-148 | The snippet is one block per namespace with a whitelist file, each exactly once. Each block holds that file's distinct entries, in the order they are visited. The snippet is empty exactly when no namespace has a whitelist file. |
| Dockerignore.ReconcileDockerignorePlaceholder | odooup/whitelist.py:139-158 | `.dockerignore` becomes its lines up to and including the first placeholder line, followed by the snippet of the current whitelist files. |
| Command.Apply | odooup/whitelist.py:230-250 | The files go through exactly seeding and then a run of auto-install passes. At the end every namespace of `include` is seeded, no auto-install module is eligible, and `.dockerignore` holds the regenerated snippet. |
| Command.RunAppendsOnly | odooup/whitelist.py:230-248 | A run creates files only for namespaces of `include`. Every line it appends to a file is one the seeding required of it or an auto-install module of its namespace. |
| Command.RerunStable | odooup/whitelist.py:230-248 | Running again, with the same resolution, on the files a run left appends nothing. |
| Command.Whitelist | odooup/whitelist.py:173-250 | Outside a work tree, or when resolution fails, it reports that failure and changes nothing. Otherwise it succeeds with the effects of `Apply` for the resolved `include`: exactly seeding and then a run of passes. |
| Store.Disk.AppendLines | odooup/whitelist.py:244-245 | Appending to a file keeps its old lines and adds the new ones after them, creating the file if need be. |
| Store.Disk.SymlinkSparseFile | odooup/whitelist.py:31-36 | Records that the namespace's whitelist file is linked into its repository. |
| Store.Disk.EnableSparseCheckout | odooup/whitelist.py:53-63 | Records that sparse checkout is enabled in the namespace's repository. |

## Left out

- Git invocations (`call_cmd`): `_enable_sparse_echout_for_repo` and `_symlink_sparse_file` become the ghost sets `sparseEnabled` and `linked` of `Store.Disk`. `_get_sparse_file` and the command lines are not modelled.
- Store.Disk.EnableSparseCheckout: does not model the read of `core.sparseCheckout` before setting it. Setting it again is a no-op on the recorded set.
- The work-tree check (`git rev-parse --is-inside-work-tree`) is the boolean parameter `insideWorkTree` of `Command.Whitelist`.
- `get_graph` is not part of this model. The graph is an input map from module to an optional node. Its dependency edges are the manifests' `depends` lists, and every module they name is a key (`ModuleGraph.Closed`).
- `_warn_path_length`, `_warn_missing_dependencies`, the `click` messages and the exit codes only report. Failures are values of `Resolution.Error`, and `_warn_missing_dependencies` is not modelled.
- `os.path.abspath` depends on the current directory. `Paths.SparsePersistenceFile` is the `os.path.join` it normalises. The two agree for normalised absolute namespaces, which `Paths.IsNamespacePath` requires.
- The store is keyed by namespace. Namespaces outside the form of `Paths.IsNamespacePath` (relative paths, "." or ".." segments, a trailing '/') could share a whitelist file in the source. For example, `x/./y` and `x/y` both resolve to the same `x/.y`. That sharing is not modelled.
- The dependency graph is assumed acyclic. The source computes `dag_longest_path_length` in `_warn_path_length` (odooup/whitelist.py:39-41, called at line 201), and it raises on a cycle among the dependencies before anything is written. The model accepts cyclic graphs and goes on to write.
- Whitelist files are sequences of lines. Not modelled: a file whose last line lacks a newline, where an append would continue that line; and line breaks other than "\n" (`str.splitlines` also splits at "\r" and other separators).
- `.dockerignore` is split by the same "\n"-only `Text.SplitLines`. A `.dockerignore` with "\r\n" or other line breaks is split, and so rewritten, differently from the source.
- `.dockerignore` is assumed to exist. In the source, opening a missing file for reading raises an error, and that error is not modelled.
- Python's list accumulation (`all_white_listed`, `auto_install`) is modelled as sets, since only membership is used.
- The check `if not node` at line 113 is not modelled, since the auto-install list holds only defined modules.
- Python set and dict iteration order is unspecified. The order of appended entries, of the blocks in the snippet and of the re-inclusions in a block is not fixed by the model. The methods return, as ghost values, the order they used, and their contracts hold for every such order.
- Interrupted runs and concurrent invocations are not modelled.
