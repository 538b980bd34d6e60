/** Small concrete cases of the model's behaviour, including the places
    where the code does something other than a reader might expect. */
module Scenarios {
  import opened FileTree
  import opened Resolver
  import opened Scope
  import opened Cli

  /** A differently cased file is found under its on-disk spelling. */
  lemma ResolveFindsOnDiskSpelling()
    ensures Resolve(Dir("repo", [File("Foo.txt")]), "foo.txt") == "Foo.txt"
  {
    var repo := Dir("repo", [File("Foo.txt")]);
    assert EqualsIgnoreCase("Foo.txt", "foo.txt") by {
      assert LowerAscii('F') == 'f';
    }
    assert Walk(repo, ["foo.txt"]) == ["Foo.txt"] by {
      assert FirstMatch(repo.children, "foo.txt") == Some(0);
    }
    SplitWithoutSeparator("foo.txt");
  }

  /** A missing file resolves to the empty path. */
  lemma ResolveMissingFile()
    ensures Resolve(Dir("repo", [File("Foo.txt")]), "missing.txt") == ""
  {
    var repo := Dir("repo", [File("Foo.txt")]);
    assert Walk(repo, ["missing.txt"]) == [] by {
      assert FirstMatch(repo.children, "missing.txt") == None;
    }
    SplitWithoutSeparator("missing.txt");
  }

  /** An unmatched part does not stop the walk: `b` is skipped and `c` is
      still looked up inside `A`. */
  lemma ResolveContinuesPastUnmatchedPart()
    ensures Resolve(Dir("repo", [Dir("A", [File("c")])]), "a/b/c") == "A/c"
    ensures Resolve(Dir("repo", [Dir("A", [])]), "a/b/c") == "A"
  {
    var full, empty := Dir("A", [File("c")]), Dir("A", []);
    var parts := ["a", "b", "c"];
    assert parts[1..] == ["b", "c"] && parts[2..] == ["c"] && parts[3..] == [];
    assert EqualsIgnoreCase("A", "a") by {
      assert LowerAscii('A') == 'a';
    }
    assert Walk(Dir("repo", [full]), parts) == ["A", "c"] by {
      assert Step(Dir("repo", [full]), "a") == Some(full);
      assert Step(full, "b") == None by {
        assert LowerAscii("c"[0]) == 'c' && LowerAscii("b"[0]) == 'b';
      }
      assert Step(full, "c") == Some(File("c"));
      assert Walk(full, parts[1..]) == Walk(full, parts[2..]);
    }
    assert Walk(Dir("repo", [empty]), parts) == ["A"] by {
      assert Step(Dir("repo", [empty]), "a") == Some(empty);
    }
    assert Join(["A", "c"]) == "A/c";
    assert Join(parts) == "a/b/c";
    SplitJoin(parts);
  }

  /** Of two entries differing only by case, the one listed first wins. */
  lemma ResolvePrefersFirstListed()
    ensures Resolve(Dir("repo", [File("a.txt"), File("A.txt")]), "A.txt") == "a.txt"
  {
    var repo := Dir("repo", [File("a.txt"), File("A.txt")]);
    assert EqualsIgnoreCase("a.txt", "A.txt") by {
      assert LowerAscii('A') == 'a';
    }
    assert Walk(repo, ["A.txt"]) == ["a.txt"] by {
      assert FirstMatch(repo.children, "A.txt") == Some(0);
    }
    SplitWithoutSeparator("A.txt");
  }

  /** Below a matched plain file the current version appends nothing, where
      the older version throws. */
  lemma FileInTheMiddleOfAPath()
    ensures Resolve(Dir(".", [File("a")]), "a/b") == "a"
    ensures LegacyResolve(Dir(".", [File("a")]), "a/b") == None
  {
    var dot := Dir(".", [File("a")]);
    var parts := ["a", "b"];
    assert parts[1..] == ["b"];
    assert Walk(dot, parts) == ["a"] by {
      assert Step(dot, "a") == Some(File("a"));
    }
    assert LegacyWalk(dot, parts) == None by {
      assert Filtered(dot.children, "a") == [File("a")];
    }
    assert Join(parts) == "a/b";
    SplitJoin(parts);
  }

  /** The prefix of a sub-directory, the empty prefix of a work tree found
      as `<cwd>/./.git`, and the prefix computed without checking that the
      working directory lies inside the work tree. */
  lemma PrefixCases()
    ensures ScopePrefix("/repo", "/repo/sub") == Some("sub")
    ensures ScopePrefix("/repo/.", "/repo") == Some("")
    ensures ScopePrefix("/repo", "/other/dir") == Some("/dir")
    ensures ScopePrefix("/repo", "/re") == None
  {
  }

  /** A work tree at the filesystem root loses the first character of the
      relative path: `substring(|"/"| + 1)` skips past the separator. */
  lemma PrefixAtFilesystemRoot()
    ensures ScopePrefix("/", "/x/y") == Some("/y")
  {
  }

  /** The scope test is a raw `startsWith`. */
  lemma ScopeCases()
    ensures !InScope("other/file.txt", "sub")
    ensures InScope("sub/file.txt", "sub")
    ensures InScope("subway/file.txt", "sub")
  {
    assert "other/file.txt"[0] != "sub"[0];
    assert "subway/file.txt" == "sub" + "way/file.txt";
    assert "sub/file.txt" == "sub" + "/file.txt";
  }

  /** The last of `-f` and `-g` wins; `-a` is an error only for the older
      version. */
  lemma OptionCases()
    ensures LastFixOption(["-f", "-l", "-g"]) == Some("-g")
    ensures LastFixOption(["-g", "-f"]) == Some("-f")
    ensures Unrecognised(Current, ["-a", "-l", "x", "-z"]) == 2
    ensures Unrecognised(Legacy, ["-a", "-l", "x", "-z"]) == 3
  {
    var args := ["-a", "-l", "x", "-z"];
    assert args[..3] == ["-a", "-l", "x"] && args[..3][..2] == ["-a", "-l"] && args[..3][..2][..1] == ["-a"];
    assert ["-a"][..0] == [];
    assert Unrecognised(Current, ["-a"]) == 0 && Unrecognised(Legacy, ["-a"]) == 1;
    assert Unrecognised(Current, ["-a", "-l"]) == 0 && Unrecognised(Legacy, ["-a", "-l"]) == 1;
    assert Unrecognised(Current, ["-a", "-l", "x"]) == 1 && Unrecognised(Legacy, ["-a", "-l", "x"]) == 2;
  }
}
