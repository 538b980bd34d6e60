/** `getMismatchedFiles`: the index entries whose on-disk spelling differs
    from the recorded one, mapped to that spelling. */
module Mismatches {
  import opened FileTree
  import opened Resolver
  import opened Scope

  /** An unchecked Java exception that leaves `getMismatchedFiles`. */
  datatype Fault =
    | NullPointer       // requireNonNull on a null listing (src/com)
    | IndexOutOfBounds  // substring past the end of the working directory (src/main)

  datatype Result<T> = Ok(value: T) | Err(fault: Fault)

  /** What the repository discovery hands over: the work tree (the parent of
      the `.git` directory), its absolute path as `getAbsolutePath` spells it,
      and the index entries; `index` is None when reading the index throws an
      IOException. */
  datatype Repository = Repository(workTree: Node, workTreePath: string, index: Option<seq<string>>)

  /** One `entry[%d]: %s -> %s` line of the full listing. */
  datatype EntryLine = EntryLine(index: nat, path: string, resolved: string)

  /** `m` maps exactly the in-scope entries whose resolution differs from
      them, each to its resolution. The resolution is a parameter so that the
      bookkeeping below is independent of how a path is resolved. */
  ghost predicate MismatchesOf(m: map<string, string>, resolve: string -> string, entries: seq<string>, prefix: string)
  {
    && (forall e :: e in m <==> e in entries && InScope(e, prefix) && resolve(e) != e)
    && (forall e :: e in m ==> m[e] == resolve(e))
  }

  /** `lines` lists every in-scope entry, in index order, with its resolution. */
  ghost predicate ListingOf(lines: seq<EntryLine>, resolve: string -> string, entries: seq<string>, prefix: string)
  {
    LinesAccurate(lines, resolve, entries, prefix) && LinesOrdered(lines) && LinesComplete(lines, entries, prefix)
  }

  ghost predicate LinesAccurate(lines: seq<EntryLine>, resolve: string -> string, entries: seq<string>, prefix: string)
  {
    forall j :: 0 <= j < |lines| ==>
      && lines[j].index < |entries| && lines[j].path == entries[lines[j].index]
      && InScope(lines[j].path, prefix) && lines[j].resolved == resolve(lines[j].path)
  }

  ghost predicate LinesOrdered(lines: seq<EntryLine>)
  {
    forall j1, j2 :: 0 <= j1 < j2 < |lines| ==> lines[j1].index < lines[j2].index
  }

  ghost predicate LinesComplete(lines: seq<EntryLine>, entries: seq<string>, prefix: string)
  {
    forall i :: 0 <= i < |entries| && InScope(entries[i], prefix) ==> exists j :: 0 <= j < |lines| && lines[j].index == i
  }

  lemma MismatchesStep(m: map<string, string>, resolve: string -> string, entries: seq<string>, prefix: string, i: nat)
    requires i < |entries| && MismatchesOf(m, resolve, entries[..i], prefix)
    ensures var e := entries[i];
      MismatchesOf(if InScope(e, prefix) && resolve(e) != e then m[e := resolve(e)] else m,
                   resolve, entries[..i + 1], prefix)
  {
    assert entries[..i + 1] == entries[..i] + [entries[i]];
  }

  lemma ListingStep(lines: seq<EntryLine>, resolve: string -> string, entries: seq<string>, prefix: string, i: nat)
    requires i < |entries| && ListingOf(lines, resolve, entries[..i], prefix)
    ensures var e := entries[i];
      ListingOf(if InScope(e, prefix) then lines + [EntryLine(i, e, resolve(e))] else lines,
                resolve, entries[..i + 1], prefix)
  {
    AccurateStep(lines, resolve, entries, prefix, i);
    OrderedStep(lines, resolve, entries, prefix, i);
    CompleteStep(lines, resolve, entries, prefix, i);
  }

  lemma AccurateStep(lines: seq<EntryLine>, resolve: string -> string, entries: seq<string>, prefix: string, i: nat)
    requires i < |entries| && LinesAccurate(lines, resolve, entries[..i], prefix)
    ensures var e := entries[i];
      LinesAccurate(if InScope(e, prefix) then lines + [EntryLine(i, e, resolve(e))] else lines,
                    resolve, entries[..i + 1], prefix)
  {
    var e := entries[i];
    var pre, post := entries[..i], entries[..i + 1];
    var lines' := if InScope(e, prefix) then lines + [EntryLine(i, e, resolve(e))] else lines;
    forall j | 0 <= j < |lines'|
      ensures lines'[j].index < |post| && lines'[j].path == post[lines'[j].index]
      ensures InScope(lines'[j].path, prefix) && lines'[j].resolved == resolve(lines'[j].path)
    {
      if j < |lines| {
        assert lines'[j] == lines[j];
        assert post[lines[j].index] == pre[lines[j].index];
      }
    }
  }

  lemma OrderedStep(lines: seq<EntryLine>, resolve: string -> string, entries: seq<string>, prefix: string, i: nat)
    requires i < |entries| && LinesAccurate(lines, resolve, entries[..i], prefix) && LinesOrdered(lines)
    ensures var e := entries[i];
      LinesOrdered(if InScope(e, prefix) then lines + [EntryLine(i, e, resolve(e))] else lines)
  {
    var e := entries[i];
    var lines' := if InScope(e, prefix) then lines + [EntryLine(i, e, resolve(e))] else lines;
    forall j1, j2 | 0 <= j1 < j2 < |lines'|
      ensures lines'[j1].index < lines'[j2].index
    {
      assert lines'[j1] == lines[j1];
      if j2 < |lines| {
        assert lines'[j2] == lines[j2];
      }
    }
  }

  lemma CompleteStep(lines: seq<EntryLine>, resolve: string -> string, entries: seq<string>, prefix: string, i: nat)
    requires i < |entries| && LinesComplete(lines, entries[..i], prefix)
    ensures var e := entries[i];
      LinesComplete(if InScope(e, prefix) then lines + [EntryLine(i, e, resolve(e))] else lines,
                    entries[..i + 1], prefix)
  {
    var e := entries[i];
    var pre, post := entries[..i], entries[..i + 1];
    var lines' := if InScope(e, prefix) then lines + [EntryLine(i, e, resolve(e))] else lines;
    forall k | 0 <= k < |post| && InScope(post[k], prefix)
      ensures exists j :: 0 <= j < |lines'| && lines'[j].index == k
    {
      if k < i {
        assert post[k] == pre[k];
        var j :| 0 <= j < |lines| && lines[j].index == k;
        assert lines'[j] == lines[j];
      } else {
        assert lines'[|lines'| - 1].index == k;
      }
    }
  }

  /** The resolution of index paths below the work tree `tree`. */
  function ResolveIn(tree: Node): string -> string
  {
    p => Resolve(tree, p)
  }

  /** src/main: resolve every in-scope entry from the work tree and keep the
      ones that differ; with `listFiles` also list every in-scope entry.
      `cwdPath` is the absolute path of the working directory (the parent of
      `new File(".").getAbsoluteFile()`). */
  method GetMismatchedFiles(repository: Option<Repository>, cwdPath: string, listFiles: bool)
    returns (r: Result<map<string, string>>, listed: seq<EntryLine>)
    ensures (repository.None? || repository.value.index.None?) ==> r == Ok(map[]) && listed == []
    ensures (repository.Some? && repository.value.index.Some?
             && ScopePrefix(repository.value.workTreePath, cwdPath).None?) ==> r == Err(IndexOutOfBounds)
    ensures (repository.Some? && repository.value.index.Some?
             && ScopePrefix(repository.value.workTreePath, cwdPath).Some?) ==>
      && r.Ok?
      && MismatchesOf(r.value, ResolveIn(repository.value.workTree), repository.value.index.value,
                      ScopePrefix(repository.value.workTreePath, cwdPath).value)
      && (listFiles ==> ListingOf(listed, ResolveIn(repository.value.workTree), repository.value.index.value,
                                  ScopePrefix(repository.value.workTreePath, cwdPath).value))
      && (!listFiles ==> listed == [])
  {
    var mismatchedFiles: map<string, string> := map[];
    listed := [];
    if repository.None? || repository.value.index.None? {
      return Ok(mismatchedFiles), listed;
    }
    var repo := repository.value;
    var entries := repo.index.value;
    var prefixOrFault := ScopePrefix(repo.workTreePath, cwdPath);
    if prefixOrFault.None? {
      return Err(IndexOutOfBounds), listed;
    }
    var prefix := prefixOrFault.value;
    ghost var resolve := ResolveIn(repo.workTree);
    for i := 0 to |entries|
      invariant MismatchesOf(mismatchedFiles, resolve, entries[..i], prefix)
      invariant listFiles ==> ListingOf(listed, resolve, entries[..i], prefix)
      invariant !listFiles ==> listed == []
    {
      var entry := entries[i];
      MismatchesStep(mismatchedFiles, resolve, entries, prefix, i);
      if listFiles {
        ListingStep(listed, resolve, entries, prefix, i);
      }
      if InScope(entry, prefix) {
        var fileSystemPath := GetFileSystemPath(repo.workTree, entry);
        if listFiles {
          listed := listed + [EntryLine(i, entry, fileSystemPath)];
        }
        if entry != fileSystemPath {
          mismatchedFiles := mismatchedFiles[entry := fileSystemPath];
        }
      }
    }
    assert entries[..|entries|] == entries;
    r := Ok(mismatchedFiles);
  }

  /** src/com: every entry of the index is resolved from the working
      directory `dot`. None for `index` stands for an IOException while
      opening the repository or reading its index. */
  ghost predicate LegacyMismatchesOf(m: map<string, string>, resolve: string -> Option<string>, entries: seq<string>)
  {
    && (forall e :: e in m <==> e in entries && resolve(e) != Some(e))
    && (forall e :: e in m ==> Some(m[e]) == resolve(e))
  }

  /** The resolution of index paths from the working directory `dot`, None
      where a listing on the way is null. */
  function LegacyResolveIn(dot: Node): string -> Option<string>
  {
    p => LegacyResolve(dot, p)
  }

  method LegacyGetMismatchedFiles(dot: Node, index: Option<seq<string>>)
    returns (r: Result<map<string, string>>)
    ensures index.None? ==> r == Ok(map[])
    ensures index.Some? ==>
      (r.Err? <==> exists e :: e in index.value && LegacyResolve(dot, e).None?)
    ensures index.Some? && r.Err? ==> r.fault == NullPointer
    ensures index.Some? && r.Ok? ==> LegacyMismatchesOf(r.value, LegacyResolveIn(dot), index.value)
  {
    var mismatchedFiles: map<string, string> := map[];
    if index.None? {
      return Ok(mismatchedFiles);
    }
    var entries := index.value;
    ghost var resolve := LegacyResolveIn(dot);
    for i := 0 to |entries|
      invariant forall e :: e in entries[..i] ==> LegacyResolve(dot, e).Some?
      invariant LegacyMismatchesOf(mismatchedFiles, resolve, entries[..i])
    {
      var entry := entries[i];
      assert entries[..i + 1] == entries[..i] + [entry];
      var fileSystemPath := LegacyGetFileSystemPath(dot, entry);
      if fileSystemPath.None? {
        return Err(NullPointer);
      }
      if entry != fileSystemPath.value {
        mismatchedFiles := mismatchedFiles[entry := fileSystemPath.value];
      }
    }
    assert entries[..|entries|] == entries;
    r := Ok(mismatchedFiles);
  }

  /** Where the older detector does not throw, run from the work tree root it
      finds the same mismatches as the current one with an empty prefix. */
  lemma LegacyDetectorAgrees(m: map<string, string>, dot: Node, entries: seq<string>)
    requires LegacyMismatchesOf(m, LegacyResolveIn(dot), entries)
    requires forall e :: e in entries ==> LegacyResolve(dot, e).Some?
    ensures MismatchesOf(m, ResolveIn(dot), entries, "")
  {
    forall e | e in entries
      ensures LegacyResolve(dot, e) == Some(Resolve(dot, e))
    {
      LegacyWalkAgrees(dot, Split(e));
    }
  }

  /** After the index adopts the on-disk spelling of every mismatch, none of
      the new entries is a mismatch. */
  lemma AdoptedSpellingIsNoMismatch(m: map<string, string>, tree: Node, entries: seq<string>, prefix: string, e: string)
    requires ValidTree(tree)
    requires MismatchesOf(m, ResolveIn(tree), entries, prefix)
    requires e in m
    ensures Resolve(tree, m[e]) == m[e]
  {
    ResolveIdempotent(tree, e);
  }
}
