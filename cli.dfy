/** `main`: the option loop, the choice of what runs, the exit code, and the
    actions the two fixes intend for each mismatch. Both versions share the
    loop; the older one has no `-a`. */
module Cli {
  import opened FileTree

  datatype Version = Current | Legacy

  /** The loop's locals: the four flags and the `haveErrors` counter. */
  datatype Options = Options(
    listAllFiles: bool,
    listMismatches: bool,
    matchToFileSystem: bool,
    matchToGit: bool,
    haveErrors: nat)

  /** The options the version's `switch` knows: all begin with `-`, and the
      current version knows `-a` besides the older one's. */
  predicate Recognised(version: Version, arg: string)
    ensures Recognised(version, arg) ==> |arg| == 2 && arg[0] == '-'
    ensures Recognised(version, arg) && version == Legacy ==> arg != "-a"
  {
    arg == "-l" || arg == "-f" || arg == "-g" || (version == Current && arg == "-a")
  }

  /** The number of arguments the version does not know. */
  function Unrecognised(version: Version, args: seq<string>): nat
  {
    if args == [] then 0
    else Unrecognised(version, args[..|args| - 1]) + (if Recognised(version, args[|args| - 1]) then 0 else 1)
  }

  /** The last of `-f` and `-g` given, if either is. */
  function LastFixOption(args: seq<string>): Option<string>
  {
    if args == [] then None
    else if args[|args| - 1] == "-f" || args[|args| - 1] == "-g" then Some(args[|args| - 1])
    else LastFixOption(args[..|args| - 1])
  }

  /** The argument loop of `main`. */
  method ParseArgs(version: Version, args: seq<string>) returns (o: Options)
    ensures o.haveErrors == Unrecognised(version, args)
    ensures o.listAllFiles <==> version == Current && "-a" in args
    ensures o.listMismatches <==> "-l" in args
    ensures !(o.matchToFileSystem && o.matchToGit)
    ensures o.matchToFileSystem <==> LastFixOption(args) == Some("-f")
    ensures o.matchToGit <==> LastFixOption(args) == Some("-g")
  {
    var haveErrors := 0;
    var listAllFiles := false;
    var listMismatches := false;
    var matchToFileSystem := false;
    var matchToGit := false;
    for i := 0 to |args|
      invariant haveErrors == Unrecognised(version, args[..i])
      invariant listAllFiles <==> version == Current && "-a" in args[..i]
      invariant listMismatches <==> "-l" in args[..i]
      invariant matchToFileSystem <==> LastFixOption(args[..i]) == Some("-f")
      invariant matchToGit <==> LastFixOption(args[..i]) == Some("-g")
    {
      var arg := args[i];
      assert args[..i + 1][..i] == args[..i] && args[..i + 1][i] == arg;
      assert args[..i + 1] == args[..i] + [arg];
      if |arg| > 0 && arg[0] == '-' {
        if version == Current && arg == "-a" {
          listAllFiles := true;
        } else if arg == "-l" {
          listMismatches := true;
        } else if arg == "-f" {
          matchToFileSystem := true;
          matchToGit := false;
        } else if arg == "-g" {
          matchToFileSystem := false;
          matchToGit := true;
        } else {
          // unknown option
          haveErrors := haveErrors + 1;
        }
      } else {
        // unknown argument
        haveErrors := haveErrors + 1;
      }
    }
    assert args[..|args|] == args;
    o := Options(listAllFiles, listMismatches, matchToFileSystem, matchToGit, haveErrors);
  }

  /** Which fix runs. */
  datatype Fix = NoFix | MatchToFileSystem | MatchToGit

  /** What one run of `main` does: print the usage text, list every in-scope
      entry (`-a`), list the mismatches (`-l`), run a fix, and the value it
      passes to `System.exit` (the status the parent sees is `ExitStatus` of
      it). */
  datatype Outcome = Outcome(usage: bool, listAllFiles: bool, listMismatches: bool, fix: Fix, exitCode: nat)

  /** `main`: no arguments prints the usage text and returns normally;
      otherwise the options are parsed, the actions run only when no argument
      was in error, and the process exits with the number of errors. */
  method Run(version: Version, args: seq<string>) returns (out: Outcome)
    ensures out.exitCode == Unrecognised(version, args)
    ensures out.usage <==> args == [] || Unrecognised(version, args) > 0
    ensures Unrecognised(version, args) > 0 ==> !out.listAllFiles && !out.listMismatches && out.fix == NoFix
    ensures Unrecognised(version, args) == 0 ==>
      && (out.listAllFiles <==> version == Current && "-a" in args)
      && (out.listMismatches <==> "-l" in args)
      && (out.fix == MatchToFileSystem <==> LastFixOption(args) == Some("-f"))
      && (out.fix == MatchToGit <==> LastFixOption(args) == Some("-g"))
  {
    if args == [] {
      return Outcome(true, false, false, NoFix, 0);
    }
    var o := ParseArgs(version, args);
    out := Outcome(false, false, false, NoFix, o.haveErrors);
    if o.haveErrors == 0 {
      if o.listAllFiles {
        // the full listing is printed while the mismatches are collected
        out := out.(listAllFiles := true, listMismatches := o.listMismatches);
      } else if o.listMismatches {
        out := out.(listMismatches := true);
      }
      if o.matchToFileSystem {
        out := out.(fix := MatchToFileSystem);
      } else if o.matchToGit {
        out := out.(fix := MatchToGit);
      }
    } else {
      out := out.(usage := true);
    }
  }

  /** The status a POSIX parent process sees: only the low eight bits of the
      value passed to `System.exit` survive. */
  function ExitStatus(code: nat): (r: nat)
    ensures r < 256
    ensures (code - r) % 256 == 0
  {
    code % 256
  }

  /** 256 unknown arguments print the usage and yet leave the process with
      status 0, which a caller reads as success. */
  lemma ErrorCountWrapsToSuccess(version: Version, args: seq<string>)
    requires |args| == 256
    requires forall a :: a in args ==> !Recognised(version, a)
    ensures Unrecognised(version, args) > 0
    ensures ExitStatus(Unrecognised(version, args)) == 0
  {
    AllUnknown(version, args);
  }

  /** `-a` is an error for the older version. */
  lemma {:induction false} ListAllIsUnknownToLegacy(args: seq<string>)
    requires "-a" in args
    ensures Unrecognised(Legacy, args) > 0
    ensures Unrecognised(Current, args) < Unrecognised(Legacy, args)
  {
    var last := args[|args| - 1];
    var init := args[..|args| - 1];
    assert args == init + [last];
    if last != "-a" {
      assert "-a" in init;
      ListAllIsUnknownToLegacy(init);
    } else {
      CurrentKnowsMore(init);
    }
  }

  lemma {:induction false} CurrentKnowsMore(args: seq<string>)
    ensures Unrecognised(Current, args) <= Unrecognised(Legacy, args)
  {
    if args != [] {
      CurrentKnowsMore(args[..|args| - 1]);
    }
  }

  /** Every argument is in error when none is an option the version knows. */
  lemma {:induction false} AllUnknown(version: Version, args: seq<string>)
    requires forall a :: a in args ==> !Recognised(version, a)
    ensures Unrecognised(version, args) == |args|
  {
    if args != [] {
      var init := args[..|args| - 1];
      assert forall a :: a in init ==> a in args;
      assert args[|args| - 1] in args;
      AllUnknown(version, init);
    }
  }

  // ---------------------------------------------------------------------
  // The fixes: what each does with one mismatch
  // ---------------------------------------------------------------------

  /** `-f`: unstage the index path (`git rm --cached`) then stage the on-disk
      path (`git add`). `-g`: rename the on-disk file to the index spelling. */
  datatype Action =
    | Restage(removed: string, added: string)
    | Rename(source: string, target: string)

  /** The action for the mismatch `key` (index spelling) -> `value` (on-disk
      spelling): `-f` makes the index follow the disk, `-g` the disk follow
      the index. */
  function ActionFor(fix: Fix, key: string, value: string): (r: Action)
    requires fix != NoFix
    ensures r.Restage? <==> fix == MatchToFileSystem
    ensures r.Restage? ==> r.removed == key && r.added == value
    ensures r.Rename? ==> r.source == value && r.target == key
  {
    if fix == MatchToFileSystem then Restage(key, value) else Rename(value, key)
  }

  /** The loop over the mismatch map's entry set. The map's iteration order is
      unspecified, so each step takes any entry not yet handled. */
  method PlanFix(fix: Fix, mismatches: map<string, string>) returns (actions: seq<Action>)
    ensures fix == NoFix ==> actions == []
    ensures fix != NoFix ==> |actions| == |mismatches|
    ensures fix != NoFix ==> forall j :: 0 <= j < |actions| ==>
      exists k :: k in mismatches && actions[j] == ActionFor(fix, k, mismatches[k])
    ensures fix != NoFix ==> forall k :: k in mismatches ==>
      exists j :: 0 <= j < |actions| && actions[j] == ActionFor(fix, k, mismatches[k])
  {
    actions := [];
    if fix == NoFix {
      return;
    }
    var pending := mismatches.Keys;
    ghost var done: seq<string> := [];
    while pending != {}
      invariant pending <= mismatches.Keys
      invariant |actions| == |done| && |done| + |pending| == |mismatches|
      invariant forall j :: 0 <= j < |done| ==> done[j] in mismatches && actions[j] == ActionFor(fix, done[j], mismatches[done[j]])
      invariant forall k :: k in mismatches && k !in pending ==> k in done
      decreases |pending|
    {
      var key :| key in pending;
      actions := actions + [ActionFor(fix, key, mismatches[key])];
      done := done + [key];
      pending := pending - {key};
    }
    forall k | k in mismatches
      ensures exists j :: 0 <= j < |actions| && actions[j] == ActionFor(fix, k, mismatches[k])
    {
      var j :| 0 <= j < |done| && done[j] == k;
    }
  }
}
