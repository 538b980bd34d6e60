/** `getFileSystemPath`: the case-insensitive walk that finds the on-disk
    spelling of an index path, in its current form (src/main) and in its
    older form (src/com). */
module Resolver {
  import opened FileTree

  // ---------------------------------------------------------------------
  // Specification of the walk
  // ---------------------------------------------------------------------

  /** The entry that `part` descends into from `dir`: the first entry of the
      listing whose name equals `part` ignoring case; None when the listing is
      null or nothing matches. */
  function Step(dir: Node, part: string): (r: Option<Node>)
    ensures r.Some? ==> dir.Dir? && r.value in dir.children && EqualsIgnoreCase(r.value.name, part)
  {
    match ListFiles(dir)
    case None => None
    case Some(listing) =>
      match FirstMatch(listing, part)
      case None => None
      case Some(i) => Some(listing[i])
  }

  /** The real names appended while walking `parts` from `dir`. A part that
      matches nothing is skipped and the walk stays where it is. */
  function Walk(dir: Node, parts: seq<string>): (r: seq<string>)
    ensures |r| <= |parts|
    ensures ListFiles(dir).None? ==> r == []
    decreases |parts|
  {
    if parts == [] then []
    else match Step(dir, parts[0])
      case None => Walk(dir, parts[1..])
      case Some(next) => [next.name] + Walk(next, parts[1..])
  }

  /** The directory (`parentDir`) the walk is in after `parts`: the entry
      whose name was appended last, or the start if nothing was. */
  function Current(dir: Node, parts: seq<string>): (r: Node)
    ensures Walk(dir, parts) == [] ==> r == dir
    ensures Walk(dir, parts) != [] ==> r.name == Walk(dir, parts)[|Walk(dir, parts)| - 1]
    decreases |parts|
  {
    if parts == [] then dir
    else match Step(dir, parts[0])
      case None => Current(dir, parts[1..])
      case Some(next) => Current(next, parts[1..])
  }

  /** The on-disk spelling of index path `path` below the work tree `root`:
      the walk's names joined by `/`, which in a tree of valid names has no
      leading, trailing or doubled separator. */
  function Resolve(root: Node, path: string): (r: string)
    ensures ValidTree(root) ==> WellFormedPath(r)
  {
    var comps := Walk(root, Split(path));
    if ValidTree(root) then
      WalkNamesValid(root, Split(path));
      JoinWellFormed(comps);
      Join(comps)
    else
      Join(comps)
  }

  // ---------------------------------------------------------------------
  // src/main: getFileSystemPath(repository, path)
  // ---------------------------------------------------------------------

  /** The inner for-each of `getFileSystemPath`: the listing is scanned in
      order and the scan stops at the first entry whose name equals `part`
      ignoring case. */
  method ScanListing(listing: seq<Node>, part: string) returns (found: Option<nat>)
    ensures found == FirstMatch(listing, part)
  {
    found := None;
    var j := 0;
    while j < |listing|
      invariant 0 <= j <= |listing|
      invariant forall i :: 0 <= i < j ==> !EqualsIgnoreCase(listing[i].name, part)
    {
      var file := listing[j];
      if EqualsIgnoreCase(file.name, part) {
        found := Some(j);
        break;
      }
      j := j + 1;
    }
  }

  /** One pass of the outer loop moves the walk by one part. */
  lemma WalkPass(root: Node, parts: seq<string>, k: nat, comps: seq<string>, dir: Node)
    requires k < |parts|
    requires comps + Walk(dir, parts[k..]) == Walk(root, parts)
    ensures Step(dir, parts[k]).None? ==> comps + Walk(dir, parts[k + 1..]) == Walk(root, parts)
    ensures Step(dir, parts[k]).Some? ==>
      var file := Step(dir, parts[k]).value;
      (comps + [file.name]) + Walk(file, parts[k + 1..]) == Walk(root, parts)
  {
    assert parts[k..][1..] == parts[k + 1..];
  }

  /** `sb.append(sep).append(name)` joins one more component. */
  lemma AppendComponent(comps: seq<string>, sb: string, sep: string, name: string)
    requires sb == Join(comps) && sep == if comps == [] then "" else "/"
    ensures sb + sep + name == Join(comps + [name])
  {
    if comps != [] {
      JoinSnoc(comps, name);
    } else {
      assert comps + [name] == [name];
    }
  }

  /** Walks the index path from the work tree root, appending the real name
      of the first case-insensitive match of each part. */
  method GetFileSystemPath(root: Node, path: string) returns (r: string)
    ensures r == Resolve(root, path)
  {
    var parts := Split(path);
    var parentDir := root;
    var sb := "";
    var sep := "";
    ghost var comps: seq<string> := [];
    for k := 0 to |parts|
      invariant comps + Walk(parentDir, parts[k..]) == Walk(root, parts)
      invariant sb == Join(comps)
      invariant sep == if comps == [] then "" else "/"
    {
      var part := parts[k];
      WalkPass(root, parts, k, comps, parentDir);
      var listFiles := ListFiles(parentDir);
      if listFiles.Some? {
        var listing := listFiles.value;
        var found := ScanListing(listing, part);
        if found.Some? {
          var file := listing[found.value];
          AppendComponent(comps, sb, sep, file.name);
          sb := sb + sep + file.name;
          sep := "/";
          comps := comps + [file.name];
          parentDir := file;
        }
      }
    }
    assert Walk(parentDir, parts[|parts|..]) == [];
    assert comps == Walk(root, parts);
    r := sb;
  }

  // ---------------------------------------------------------------------
  // Properties of the walk
  // ---------------------------------------------------------------------

  /** `comps` can be matched, in order, against distinct elements of `parts`
      that equal them ignoring case. */
  predicate CaseSubsequence(comps: seq<string>, parts: seq<string>)
    decreases |parts|
  {
    if comps == [] then true
    else if parts == [] then false
    else
      || (EqualsIgnoreCase(comps[0], parts[0]) && CaseSubsequence(comps[1..], parts[1..]))
      || CaseSubsequence(comps, parts[1..])
  }

  /** The resolved components are no more than the parts, and each equals,
      ignoring case, its own part, in the parts' order. */
  lemma {:induction false} WalkIsCaseSubsequence(dir: Node, parts: seq<string>)
    ensures |Walk(dir, parts)| <= |parts|
    ensures CaseSubsequence(Walk(dir, parts), parts)
  {
    if parts != [] {
      match Step(dir, parts[0])
      case None =>
        WalkIsCaseSubsequence(dir, parts[1..]);
        CaseSubsequenceSkip(Walk(dir, parts), parts);
      case Some(next) =>
        WalkIsCaseSubsequence(next, parts[1..]);
        var w := Walk(dir, parts);
        assert w[0] == next.name && w[1..] == Walk(next, parts[1..]);
    }
  }

  lemma CaseSubsequenceSkip(comps: seq<string>, parts: seq<string>)
    requires parts != [] && CaseSubsequence(comps, parts[1..])
    ensures CaseSubsequence(comps, parts)
  {
  }

  /** Each resolved component is the real name of an entry, and together they
      name a chain of entries below `dir`. */
  predicate Reaches(dir: Node, comps: seq<string>)
    decreases |comps|
  {
    comps == [] || (dir.Dir? && exists c :: c in dir.children && c.name == comps[0] && Reaches(c, comps[1..]))
  }

  lemma {:induction false} WalkReachesExistingEntries(dir: Node, parts: seq<string>)
    ensures Reaches(dir, Walk(dir, parts))
  {
    if parts != [] {
      match Step(dir, parts[0])
      case None =>
        WalkReachesExistingEntries(dir, parts[1..]);
      case Some(next) =>
        WalkReachesExistingEntries(next, parts[1..]);
        var w := Walk(dir, parts);
        assert w[0] == next.name && w[1..] == Walk(next, parts[1..]);
    }
  }

  /** A part that matches nothing in the current directory changes neither
      the result nor the current directory; the walk goes on with the next
      part. */
  lemma {:induction false} UnmatchedPartIsSkipped(dir: Node, pre: seq<string>, part: string, post: seq<string>)
    requires Step(Current(dir, pre), part).None?
    ensures Walk(dir, pre + [part] + post) == Walk(dir, pre + post)
    ensures Current(dir, pre + [part] + post) == Current(dir, pre + post)
  {
    if pre == [] {
      assert pre + [part] + post == [part] + post && pre + post == post;
      assert ([part] + post)[1..] == post;
    } else {
      assert (pre + [part] + post)[0] == pre[0] && (pre + post)[0] == pre[0];
      assert (pre + [part] + post)[1..] == pre[1..] + [part] + post;
      assert (pre + post)[1..] == pre[1..] + post;
      match Step(dir, pre[0])
      case None =>
        UnmatchedPartIsSkipped(dir, pre[1..], part, post);
      case Some(next) =>
        UnmatchedPartIsSkipped(next, pre[1..], part, post);
    }
  }

  /** When several entries match a part, the first in listing order is the
      one appended and descended into. */
  lemma FirstMatchingEntryWins(dir: Node, part: string, rest: seq<string>, i: nat)
    requires dir.Dir? && i < |dir.children|
    requires EqualsIgnoreCase(dir.children[i].name, part)
    requires forall j :: 0 <= j < i ==> !EqualsIgnoreCase(dir.children[j].name, part)
    ensures Walk(dir, [part] + rest) == [dir.children[i].name] + Walk(dir.children[i], rest)
  {
    assert FirstMatch(dir.children, part) == Some(i);
    assert ([part] + rest)[1..] == rest;
  }

  /** A plain file has a null listing: nothing more is appended after it. */
  lemma {:induction false} NothingAfterFile(name: string, parts: seq<string>)
    ensures Walk(File(name), parts) == []
    ensures Current(File(name), parts) == File(name)
  {
    if parts != [] {
      NothingAfterFile(name, parts[1..]);
    }
  }

  /** Once a plain file has been matched the result ends with its name. */
  lemma FileEndsTheWalk(dir: Node, parts: seq<string>)
    requires parts != [] && Step(dir, parts[0]).Some? && Step(dir, parts[0]).value.File?
    ensures Walk(dir, parts) == [Step(dir, parts[0]).value.name]
  {
    NothingAfterFile(Step(dir, parts[0]).value.name, parts[1..]);
  }

  lemma {:induction false} WalkNamesValid(dir: Node, parts: seq<string>)
    requires ValidTree(dir)
    ensures forall c :: c in Walk(dir, parts) ==> ValidName(c)
  {
    if parts != [] {
      match Step(dir, parts[0])
      case None =>
        WalkNamesValid(dir, parts[1..]);
      case Some(next) =>
        WalkNamesValid(next, parts[1..]);
    }
  }

  /** No entry of a valid tree matches the empty part. */
  lemma EmptyPartMatchesNothing(dir: Node)
    requires ValidTree(dir)
    ensures Walk(dir, [""]) == []
  {
    if dir.Dir? {
      forall j | 0 <= j < |dir.children|
        ensures !EqualsIgnoreCase(dir.children[j].name, "")
      {
        assert dir.children[j] in dir.children;
      }
    }
  }

  /** Walking the real names a walk produced finds the same entries again. */
  lemma {:induction false} WalkOfWalk(dir: Node, parts: seq<string>)
    ensures Walk(dir, Walk(dir, parts)) == Walk(dir, parts)
  {
    if parts != [] {
      match Step(dir, parts[0])
      case None =>
        WalkOfWalk(dir, parts[1..]);
      case Some(next) =>
        WalkOfWalk(next, parts[1..]);
        var w := Walk(dir, parts);
        assert w[0] == next.name && w[1..] == Walk(next, parts[1..]);
        FirstMatchRespectsCase(dir.children, next.name, parts[0]);
        assert Step(dir, next.name) == Some(next);
    }
  }

  /** Resolving a resolved path gives it back: after the index adopts the
      on-disk spelling, the entry is no longer a mismatch. */
  lemma ResolveIdempotent(root: Node, path: string)
    requires ValidTree(root)
    ensures Resolve(root, Resolve(root, path)) == Resolve(root, path)
  {
    var w := Walk(root, Split(path));
    WalkNamesValid(root, Split(path));
    if w == [] {
      EmptyPartMatchesNothing(root);
    } else {
      SplitJoin(w);
      WalkOfWalk(root, Split(path));
    }
  }

  /** `comps` names existing entries with exactly this spelling, and in each
      directory on the way only that entry matches its component ignoring
      case. */
  predicate ExactUniquePath(dir: Node, comps: seq<string>)
    decreases |comps|
  {
    comps == [] ||
    (dir.Dir? && exists i :: (0 <= i < |dir.children| && dir.children[i].name == comps[0]
      && (forall j :: 0 <= j < |dir.children| && EqualsIgnoreCase(dir.children[j].name, comps[0]) ==> j == i)
      && ExactUniquePath(dir.children[i], comps[1..])))
  }

  lemma {:induction false} WalkExactUniquePath(dir: Node, comps: seq<string>)
    requires ValidTree(dir) && ExactUniquePath(dir, comps)
    ensures Walk(dir, comps) == comps
    ensures forall c :: c in comps ==> ValidName(c)
  {
    if comps != [] {
      var i :| 0 <= i < |dir.children| && dir.children[i].name == comps[0]
        && (forall j :: 0 <= j < |dir.children| && EqualsIgnoreCase(dir.children[j].name, comps[0]) ==> j == i)
        && ExactUniquePath(dir.children[i], comps[1..]);
      var child := dir.children[i];
      assert child in dir.children;
      assert EqualsIgnoreCase(child.name, comps[0]);
      assert FirstMatch(dir.children, comps[0]) == Some(i);
      WalkExactUniquePath(child, comps[1..]);
      assert comps == [comps[0]] + comps[1..];
    }
  }

  /** A path that exists with exact casing, each part having a unique
      case-insensitive match, resolves to itself. */
  lemma ResolveExactPath(root: Node, comps: seq<string>)
    requires ValidTree(root) && ExactUniquePath(root, comps)
    ensures Resolve(root, Join(comps)) == Join(comps)
  {
    WalkExactUniquePath(root, comps);
    if comps == [] {
      EmptyPartMatchesNothing(root);
    } else {
      SplitJoin(comps);
    }
  }

  // ---------------------------------------------------------------------
  // src/com: getFileSystemPath(path), the older form
  // ---------------------------------------------------------------------

  /** `listFiles(filter)` with a filter accepting names equal to `part`
      ignoring case: the matching entries in listing order. */
  function Filtered(listing: seq<Node>, part: string): (r: seq<Node>)
    ensures forall n :: n in r ==> n in listing && EqualsIgnoreCase(n.name, part)
  {
    if listing == [] then []
    else (if EqualsIgnoreCase(listing[0].name, part) then [listing[0]] else []) + Filtered(listing[1..], part)
  }

  /** The first element of the filtered listing is the first match of the
      whole listing. */
  lemma {:induction false} FilteredStartsWithFirstMatch(listing: seq<Node>, part: string)
    ensures Filtered(listing, part) == [] <==> FirstMatch(listing, part).None?
    ensures FirstMatch(listing, part).Some? ==> Filtered(listing, part)[0] == listing[FirstMatch(listing, part).value]
  {
    if listing != [] {
      FilteredStartsWithFirstMatch(listing[1..], part);
    }
  }

  /** The older walk: None stands for the NullPointerException that
      `requireNonNull` throws when a part is looked up in something that is
      not a directory. */
  function LegacyWalk(dir: Node, parts: seq<string>): (r: Option<seq<string>>)
    ensures r.Some? ==> |r.value| <= |parts|
    ensures parts != [] && ListFiles(dir).None? ==> r.None?
    decreases |parts|
  {
    if parts == [] then Some([])
    else match ListFiles(dir)
      case None => None
      case Some(listing) =>
        var matches := Filtered(listing, parts[0]);
        if matches == [] then LegacyWalk(dir, parts[1..])
        else Prepend([matches[0].name], LegacyWalk(matches[0], parts[1..]))
  }

  function Prepend(comps: seq<string>, rest: Option<seq<string>>): Option<seq<string>>
  {
    match rest
    case None => None
    case Some(r) => Some(comps + r)
  }

  lemma PrependNothing(rest: Option<seq<string>>)
    ensures Prepend([], rest) == rest
  {
    if rest.Some? {
      assert [] + rest.value == rest.value;
    }
  }

  lemma PrependTwice(a: seq<string>, b: seq<string>, rest: Option<seq<string>>)
    ensures Prepend(a, Prepend(b, rest)) == Prepend(a + b, rest)
  {
    if rest.Some? {
      assert a + (b + rest.value) == (a + b) + rest.value;
    }
  }

  /** The older `getFileSystemPath`: None where it throws, and otherwise the
      path the current one computes from the same directory. */
  function LegacyResolve(dot: Node, path: string): (r: Option<string>)
    ensures r.None? <==> ReachesNullListing(dot, Split(path))
    ensures r.Some? ==> r.value == Resolve(dot, path)
  {
    LegacyWalkAgrees(dot, Split(path));
    match LegacyWalk(dot, Split(path))
    case None => None
    case Some(comps) => Some(Join(comps))
  }

  /** One pass of the older loop: a null listing throws, an empty filtered
      listing leaves the walk where it is, and otherwise the first filtered
      entry is appended and descended into. */
  lemma LegacyStep(dot: Node, parts: seq<string>, k: nat, comps: seq<string>, dir: Node)
    requires k < |parts|
    requires LegacyWalk(dot, parts) == Prepend(comps, LegacyWalk(dir, parts[k..]))
    ensures ListFiles(dir).None? ==> LegacyWalk(dot, parts) == None
    ensures dir.Dir? && Filtered(dir.children, parts[k]) == [] ==>
      LegacyWalk(dot, parts) == Prepend(comps, LegacyWalk(dir, parts[k + 1..]))
    ensures dir.Dir? && Filtered(dir.children, parts[k]) != [] ==>
      var file := Filtered(dir.children, parts[k])[0];
      LegacyWalk(dot, parts) == Prepend(comps + [file.name], LegacyWalk(file, parts[k + 1..]))
  {
    assert parts[k..][1..] == parts[k + 1..];
    if dir.Dir? && Filtered(dir.children, parts[k]) != [] {
      var file := Filtered(dir.children, parts[k])[0];
      PrependTwice(comps, [file.name], LegacyWalk(file, parts[k + 1..]));
    }
  }

  /** Walks the index path from the working directory `.`; fails (None) where
      the older code throws. */
  method LegacyGetFileSystemPath(dot: Node, path: string) returns (r: Option<string>)
    ensures r == LegacyResolve(dot, path)
  {
    var parts := Split(path);
    var parentDir := dot;
    var sb := "";
    var sep := "";
    ghost var comps: seq<string> := [];
    assert parts[0..] == parts;
    PrependNothing(LegacyWalk(dot, parts));
    for k := 0 to |parts|
      invariant LegacyWalk(dot, parts) == Prepend(comps, LegacyWalk(parentDir, parts[k..]))
      invariant sb == Join(comps)
      invariant sep == if comps == [] then "" else "/"
    {
      var part := parts[k];
      LegacyStep(dot, parts, k, comps, parentDir);
      var listFiles := ListFiles(parentDir);
      if listFiles.None? {
        return None;
      }
      var filtered := Filtered(listFiles.value, part);
      // the for-each over the filtered listing leaves after its first element
      if filtered != [] {
        var file := filtered[0];
        AppendComponent(comps, sb, sep, file.name);
        sb := sb + sep + file.name;
        sep := "/";
        comps := comps + [file.name];
        parentDir := file;
      }
    }
    assert LegacyWalk(parentDir, parts[|parts|..]) == Some([]);
    assert comps + [] == comps;
    r := Some(sb);
  }

  /** The older walk fails exactly when some part is looked up in a node
      whose listing is null. */
  predicate ReachesNullListing(dir: Node, parts: seq<string>)
  {
    exists k :: 0 <= k < |parts| && ListFiles(Current(dir, parts[..k])).None?
  }

  /** The older and the current walk agree whenever the older one does not
      throw, and it throws exactly when a null listing is reached. */
  lemma {:induction false} LegacyWalkAgrees(dir: Node, parts: seq<string>)
    ensures LegacyWalk(dir, parts).None? <==> ReachesNullListing(dir, parts)
    ensures LegacyWalk(dir, parts).Some? ==> LegacyWalk(dir, parts).value == Walk(dir, parts)
  {
    if parts == [] {
    } else if ListFiles(dir).None? {
      assert parts[..0] == [];
      assert ReachesNullListing(dir, parts);
    } else {
      var listing := ListFiles(dir).value;
      FilteredStartsWithFirstMatch(listing, parts[0]);
      var next := match Step(dir, parts[0]) case None => dir case Some(n) => n;
      LegacyWalkAgrees(next, parts[1..]);
      forall k | 1 <= k <= |parts|
        ensures Current(dir, parts[..k]) == Current(next, parts[1..][..k - 1])
      {
        assert parts[..k][0] == parts[0];
        assert parts[..k][1..] == parts[1..][..k - 1];
      }
      if ReachesNullListing(dir, parts) {
        var k :| 0 <= k < |parts| && ListFiles(Current(dir, parts[..k])).None?;
        assert k != 0;
        assert ListFiles(Current(next, parts[1..][..k - 1])).None?;
        assert ReachesNullListing(next, parts[1..]);
      }
      if ReachesNullListing(next, parts[1..]) {
        var k :| 0 <= k < |parts[1..]| && ListFiles(Current(next, parts[1..][..k])).None?;
        assert ListFiles(Current(dir, parts[..k + 1])).None?;
      }
    }
  }
}
