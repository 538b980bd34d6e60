# gitFixCase in Dafny

gitFixCase finds the files whose name casing in the git index differs from
their casing on disk, lists them, and fixes them in one of two directions:
`-f` makes the index adopt the on-disk spelling (`git rm --cached` the index
path, `git add` the on-disk path), `-g` renames the on-disk file to the
index spelling. The repository holds two versions of the same `Main` class:
the current one (`src/main/java/...`) and an older one (`src/com/...`).

This project models both versions' logic over an abstract filesystem tree
and proves what it does:

- `file_tree.dfy` (`FileTree`): the tree (`File(name)` or
  `Dir(name, children)`, children in `listFiles()` order, a null listing for
  anything but a directory), `equalsIgnoreCase` with ASCII case folding, the
  first case-insensitive match in a listing, Java's `String.split("/")`
  (a leading empty piece kept, trailing empty pieces dropped), and
  `/`-joining.
- `resolver.dfy` (`Resolver`): `getFileSystemPath` in both versions, as
  methods with loops proved against the walk `Walk`/`Resolve` and
  `LegacyWalk`/`LegacyResolve` (the inner scan of a listing is the method
  `ScanListing`), and the walk's properties.
- `scope.dfy` (`Scope`): the prefix of the working directory inside the
  work tree and the `startsWith` scope test (current version only).
- `mismatches.dfy` (`Mismatches`): `getMismatchedFiles` in both versions, as
  loops that fill a map, with the map characterised as a set comprehension.
- `cli.dfy` (`Cli`): the argument loop of `main` (one method, a `Version`
  parameter telling whether `-a` is known), what `main` runs and its exit
  code, and the actions each fix intends per mismatch.
- `scenarios.dfy` (`Scenarios`): concrete cases.

Some behaviour of the code that a reader may not expect, which the model
follows:

- An unmatched path part does not stop resolution. It is skipped, and the
  next part is looked up in the same directory (`a/b/c` with only `A/c` on
  disk resolves to `A/c`).
- An entry that is missing on disk is a mismatch too. It is mapped to the
  part of its path that was found, possibly the empty path, and both fixes
  act on it.
- `-g` renames each file with a single `renameTo` call and ignores its
  result.
- Of several entries that match ignoring case, the first in listing order
  wins; there is no canonical tie-break.
- The scope test is a raw `startsWith` with no component boundary. Run in
  `sub`, it admits `subway/...`.
- The prefix is computed without checking that the working directory lies
  inside the work tree. With the work tree at `/`, the prefix loses a
  character (`Scenarios.PrefixAtFilesystemRoot`).

## Model

| member | source | states |
|---|---|---|
| `FileTree.ListFiles` | src/main/java/com/vladsch/git/fixcase/Main.java:35 | a plain file has a null listing; a directory lists its children |
| `FileTree.LowerAscii` | src/main/java/com/vladsch/git/fixcase/Main.java:38 | the folded character is never an upper-case ASCII letter, and is the character itself or its lower-case counterpart |
| `FileTree.EqualsIgnoreCase` | src/main/java/com/vladsch/git/fixcase/Main.java:38 | equal strings are equal ignoring case |
| `FileTree.EqualsIgnoreCaseSymmetric` | src/main/java/com/vladsch/git/fixcase/Main.java:38 | equality ignoring case is symmetric |
| `FileTree.EqualsIgnoreCaseTransitive` | src/main/java/com/vladsch/git/fixcase/Main.java:38 | equality ignoring case is transitive |
| `FileTree.Split` | src/main/java/com/vladsch/git/fixcase/Main.java:29 | `split("/")` of the empty string is `[""]`; no piece holds a `/`; the split of a non-empty string is empty or ends in a non-empty piece |
| `FileTree.SplitKeepsLeadingEmpty` | src/main/java/com/vladsch/git/fixcase/Main.java:29 | a leading empty piece is kept exactly when the path begins with `/` |
| `FileTree.SplitRejoins` | src/main/java/com/vladsch/git/fixcase/Main.java:29 | rejoining the pieces gives the path with its trailing separators removed |
| `FileTree.SplitWithoutSeparator` | src/main/java/com/vladsch/git/fixcase/Main.java:29 | a path without `/` splits into itself alone |
| `FileTree.JoinSegments` | src/main/java/com/vladsch/git/fixcase/Main.java:39-40 | joining all pieces of a path, empty ones included, gives the path back |
| `FileTree.Join` | src/main/java/com/vladsch/git/fixcase/Main.java:39-40 | the empty join is the empty string; a join begins with its first component, followed by a `/` when there are more |
| `FileTree.FirstMatch` | src/main/java/com/vladsch/git/fixcase/Main.java:37-43 | the scan that breaks at the first match finds an entry equal to the part ignoring case with no matching entry before it, or reports that no entry matches |
| `FileTree.FirstMatchRespectsCase` | src/main/java/com/vladsch/git/fixcase/Main.java:38 | two parts equal ignoring case select the same entry |
| `FileTree.JoinSnoc` | src/main/java/com/vladsch/git/fixcase/Main.java:39-40 | appending `sep` and a name to the built path adds one `/`-separated component |
| `FileTree.SplitJoin` | src/main/java/com/vladsch/git/fixcase/Main.java:29 | `split("/")` of a join of valid names gives the names back |
| `FileTree.JoinWellFormed` | src/main/java/com/vladsch/git/fixcase/Main.java:32-40 | a join of valid names has no leading, trailing or doubled separator |
| `Resolver.Step` | src/main/java/com/vladsch/git/fixcase/Main.java:35-43 | a part descends only into an entry of a non-null listing whose name equals it ignoring case |
| `Resolver.Walk` | src/main/java/com/vladsch/git/fixcase/Main.java:34-46 | the walk yields at most one component per part, and nothing from a node whose listing is null |
| `Resolver.Current` | src/main/java/com/vladsch/git/fixcase/Main.java:34-46 | the directory reached is the start when nothing was appended, and otherwise the entry named by the last component |
| `Resolver.Resolve` | src/main/java/com/vladsch/git/fixcase/Main.java:32-46 | in a tree of valid names the resolved path has no leading, trailing or doubled separator |
| `Resolver.ScanListing` | src/main/java/com/vladsch/git/fixcase/Main.java:37-44 | the scan that breaks at the first match returns the first entry equal to the part ignoring case, or none |
| `Resolver.GetFileSystemPath` | src/main/java/com/vladsch/git/fixcase/Main.java:28-49 | the loop over parts and listings returns `Resolve(root, path)`, the join of the walk from the work tree root |
| `Resolver.WalkIsCaseSubsequence` | src/main/java/com/vladsch/git/fixcase/Main.java:29-46 | the resolved components are at most as many as the parts, and each equals ignoring case a distinct part, in the parts' order |
| `Resolver.WalkReachesExistingEntries` | src/main/java/com/vladsch/git/fixcase/Main.java:37-42 | the resolved components are the real names of a chain of existing entries |
| `Resolver.UnmatchedPartIsSkipped` | src/main/java/com/vladsch/git/fixcase/Main.java:34-45 | a part with no match in the current directory changes neither the result nor the current directory, and the walk continues with the next part |
| `Resolver.FirstMatchingEntryWins` | src/main/java/com/vladsch/git/fixcase/Main.java:35-42 | when several entries match, the first in listing order is appended and descended into |
| `Resolver.NothingAfterFile` | src/main/java/com/vladsch/git/fixcase/Main.java:35-36 | from a plain file (null listing) nothing is appended and the walk stays there |
| `Resolver.FileEndsTheWalk` | src/main/java/com/vladsch/git/fixcase/Main.java:35-42 | once a plain file is matched, its name is the last component |
| `Resolver.WalkOfWalk` | src/main/java/com/vladsch/git/fixcase/Main.java:34-46 | walking the resolved components finds the same entries again |
| `Resolver.ResolveIdempotent` | src/main/java/com/vladsch/git/fixcase/Main.java:28-49 | resolving a resolved path gives it back |
| `Resolver.ResolveExactPath` | src/main/java/com/vladsch/git/fixcase/Main.java:29-46 | a path that exists with exact casing, each part with a unique case-insensitive match, resolves to itself |
| `Resolver.Filtered` | src/com/vladsch/git/fixcase/Main.java:36-41 | the filtered listing holds only entries of the listing whose names equal the part ignoring case |
| `Resolver.FilteredStartsWithFirstMatch` | src/com/vladsch/git/fixcase/Main.java:36-45 | the filtered listing is empty exactly when nothing matches, and its first entry is the first match of the whole listing |
| `Resolver.LegacyWalk` | src/com/vladsch/git/fixcase/Main.java:35-49 | the older walk yields at most one component per part, and throws when its first part is looked up in a node with a null listing |
| `Resolver.LegacyResolve` | src/com/vladsch/git/fixcase/Main.java:35-49 | the older resolution throws exactly when some part is looked up in a node with a null listing, and otherwise equals the current resolution |
| `Resolver.LegacyGetFileSystemPath` | src/com/vladsch/git/fixcase/Main.java:29-50 | the older loop, starting at `.`, returns `LegacyResolve(dot, path)`, failing where `requireNonNull` throws |
| `Resolver.LegacyWalkAgrees` | src/com/vladsch/git/fixcase/Main.java:35-47 | the older walk throws exactly when some part is looked up in a node with a null listing, and otherwise returns what the current walk returns |
| `Scope.StripCurrentDir` | src/main/java/com/vladsch/git/fixcase/Main.java:81-84 | a trailing `/.` is removed from the work tree path, and nothing else changes |
| `Scope.ScopePrefix` | src/main/java/com/vladsch/git/fixcase/Main.java:81-90 | the prefix is empty at the work tree root, fails exactly when `substring` would throw, and is otherwise the tail of the working directory after the work tree path and one character |
| `Scope.PrefixOfSubdirectory` | src/main/java/com/vladsch/git/fixcase/Main.java:85-88 | run from sub-directory `sub` of the work tree, the prefix is `sub` |
| `Scope.PrefixAtWorkTreeRoot` | src/main/java/com/vladsch/git/fixcase/Main.java:81-90 | with the work tree found as `<cwd>/./.git`, the prefix is empty |
| `Scope.InScope` | src/main/java/com/vladsch/git/fixcase/Main.java:96 | an entry is in scope exactly when it begins with the prefix; the empty prefix admits every entry |
| `Scope.ScopeIsRawPrefix` | src/main/java/com/vladsch/git/fixcase/Main.java:96 | the empty prefix admits every entry; a prefix admits its own directory's entries and any entry that merely begins with it |
| `Mismatches.GetMismatchedFiles` | src/main/java/com/vladsch/git/fixcase/Main.java:73-110 | without a repository or index the map is empty; a prefix that cannot be computed is an error; otherwise the keys are exactly the in-scope entries whose resolution differs, each mapped to its resolution, and with `listFiles` every in-scope entry is listed in index order |
| `Mismatches.LegacyGetMismatchedFiles` | src/com/vladsch/git/fixcase/Main.java:52-74 | without an index the map is empty; the run fails with a null pointer exactly when some entry's resolution throws; otherwise the keys are exactly the entries whose resolution differs, each mapped to its resolution |
| `Mismatches.LegacyDetectorAgrees` | src/com/vladsch/git/fixcase/Main.java:59-67 | where the older detector does not throw, it finds the mismatches the current one finds with an empty prefix |
| `Mismatches.AdoptedSpellingIsNoMismatch` | src/main/java/com/vladsch/git/fixcase/Main.java:186-191 | the on-disk path that `-f` stages for a mismatch resolves to itself, so it is no longer a mismatch |
| `Cli.Recognised` | src/main/java/com/vladsch/git/fixcase/Main.java:129-156 | every known option begins with `-` and has two characters; the older version does not know `-a` |
| `Cli.ParseArgs` | src/main/java/com/vladsch/git/fixcase/Main.java:124-161 | the error count is the number of arguments the version does not know; `-a` and `-l` are set when given anywhere; `-f` and `-g` are never both set, and the last one given wins |
| `Cli.Run` | src/main/java/com/vladsch/git/fixcase/Main.java:112-219 | the value passed to `System.exit` is the error count; no arguments or any error prints the usage; with errors nothing is listed or fixed; otherwise `-a` lists all entries, `-l` lists the mismatches, and the last of `-f`/`-g` picks the fix |
| `Cli.ExitStatus` | src/main/java/com/vladsch/git/fixcase/Main.java:218 | the status the parent sees is below 256 and agrees with the `System.exit` argument modulo 256 |
| `Cli.ErrorCountWrapsToSuccess` | src/main/java/com/vladsch/git/fixcase/Main.java:218 | 256 unknown arguments are an error run, yet the process status is 0 |
| `Cli.ListAllIsUnknownToLegacy` | src/com/vladsch/git/fixcase/Main.java:91-119 | the older version counts `-a` as an error, so it has strictly more errors than the current one |
| `Cli.CurrentKnowsMore` | src/main/java/com/vladsch/git/fixcase/Main.java:129-159 | the current version never counts more errors than the older one |
| `Cli.AllUnknown` | src/main/java/com/vladsch/git/fixcase/Main.java:127-160 | when no argument is a known option, every argument counts as an error |
| `Cli.ActionFor` | src/main/java/com/vladsch/git/fixcase/Main.java:186-210 | `-f` unstages the index spelling and stages the on-disk spelling (lines 189-190); `-g` renames the on-disk spelling to the index spelling (lines 208-210) |
| `Cli.PlanFix` | src/main/java/com/vladsch/git/fixcase/Main.java:178-211 | each fix yields one action per mismatch, in any order: `-f` unstages the key and stages the value, `-g` renames the value to the key |
| `Scenarios.ResolveFindsOnDiskSpelling` | src/main/java/com/vladsch/git/fixcase/Main.java:34-46 | `foo.txt` resolves to the on-disk `Foo.txt` |
| `Scenarios.ResolveMissingFile` | src/main/java/com/vladsch/git/fixcase/Main.java:34-48 | a missing file resolves to the empty path |
| `Scenarios.ResolveContinuesPastUnmatchedPart` | src/main/java/com/vladsch/git/fixcase/Main.java:34-45 | `a/b/c` resolves to `A/c` when only `A/c` exists, and to `A` when `A` is empty |
| `Scenarios.ResolvePrefersFirstListed` | src/main/java/com/vladsch/git/fixcase/Main.java:37-42 | of `a.txt` and `A.txt`, listed in that order, `A.txt` resolves to `a.txt` |
| `Scenarios.FileInTheMiddleOfAPath` | src/com/vladsch/git/fixcase/Main.java:36 | `a/b` with `a` a file resolves to `a` in the current version and throws in the older one |
| `Scenarios.PrefixCases` | src/main/java/com/vladsch/git/fixcase/Main.java:81-90 | concrete prefixes, including one for a working directory outside the work tree and one that throws |
| `Scenarios.PrefixAtFilesystemRoot` | src/main/java/com/vladsch/git/fixcase/Main.java:87 | with the work tree at `/`, the prefix of `/x/y` is `/y` |
| `Scenarios.ScopeCases` | src/main/java/com/vladsch/git/fixcase/Main.java:96 | `sub` excludes `other/file.txt` and admits `sub/file.txt` and `subway/file.txt` |
| `Scenarios.OptionCases` | src/main/java/com/vladsch/git/fixcase/Main.java:124-161 | the last of `-f`/`-g` wins; `-a` is an error only for the older version |

## Left out

- Repository discovery (`getRepository`, the upward search for `.git`, `new FileRepository`) is not modelled. Its result is the parameter `Mismatches.Repository`: the work tree, its absolute path and the index entries. The older version's `new FileRepository("./.git")` becomes its `index` parameter, with the working directory as the tree.
- Reading the index (`readDirCache`, `DirCacheEntry`) is not modelled. The index is a sequence of paths. An IOException while reading it is `None`, which gives the empty map.
- What the JGit `rm --cached` and `add` calls and `File.renameTo` actually do is not modelled. These are foreign library and platform effects. Only the intended action per mismatch is modelled (`Cli.PlanFix`). `-g` builds its `File` objects from index-relative paths, so they are read relative to the process working directory. The model records the two strings as given.
- Printing, the usage text and `System.exit` are not modelled as output. `Cli.Outcome` records whether the usage is printed, which listings run, which fix runs, and the value passed to `System.exit`.
- Cli.Run: records which listings and which fix `main` starts. It does not call the detector. It leaves out three things: the repository lookup each branch repeats (a missing repository makes that branch do nothing), the exceptions the fix branches catch, and the unchecked exceptions that end the process. The detectors return those exceptions as `Err`. Its `exitCode` is the argument to `System.exit`, an unbounded count; the status a POSIX parent sees is only `exitCode % 256` (`Cli.ExitStatus`), so 256 errors look like success (`Cli.ErrorCountWrapsToSuccess`), and the overflow of Java's `int` counter past 2^31 - 1 arguments is not modelled.
- `equalsIgnoreCase` is modelled with ASCII case folding, not full Unicode case mapping.
- A directory whose listing fails (`listFiles()` returns null) is modelled like a plain file.
- `HashMap` iteration order is unspecified. `Cli.PlanFix` takes the entries in any order, and no contract depends on the order.
