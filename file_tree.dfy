/** The filesystem as the case fixer sees it, and the string operations it
    relies on: `equalsIgnoreCase`, `String.split("/")` and the `/`-joining of
    path components. */
module FileTree {

  datatype Option<+T> = None | Some(value: T)

  /** A directory entry. The order of `children` is the order in which
      `File.listFiles()` returns them. */
  datatype Node = File(name: string) | Dir(name: string, children: seq<Node>)

  /** `File.listFiles()`: the entries of a directory, null (None) for anything
      that is not a readable directory. */
  function ListFiles(n: Node): (r: Option<seq<Node>>)
    ensures n.File? ==> r.None?
    ensures n.Dir? ==> r == Some(n.children)
  {
    if n.Dir? then Some(n.children) else None
  }

  /** A name a real directory entry can have: not empty, no separator. */
  predicate ValidName(s: string)
  {
    s != "" && '/' !in s
  }

  /** Every entry below `n` has a valid name. */
  predicate ValidTree(n: Node)
  {
    n.Dir? ==> forall c :: c in n.children ==> ValidName(c.name) && ValidTree(c)
  }

  // ---------------------------------------------------------------------
  // Case-insensitive comparison
  // ---------------------------------------------------------------------

  /** ASCII lower-casing: upper-case letters move down by 32, every other
      character stays. */
  function LowerAscii(c: char): (r: char)
    ensures !('A' <= r <= 'Z')
    ensures r == c || ('A' <= c <= 'Z' && r as int == c as int + 32)
  {
    if 'A' <= c <= 'Z' then (c as int + 32) as char else c
  }

  /** `String.equalsIgnoreCase`, with ASCII case folding. */
  predicate EqualsIgnoreCase(a: string, b: string)
    ensures a == b ==> EqualsIgnoreCase(a, b)
  {
    |a| == |b| && forall i :: 0 <= i < |a| ==> LowerAscii(a[i]) == LowerAscii(b[i])
  }

  lemma EqualsIgnoreCaseSymmetric(a: string, b: string)
    requires EqualsIgnoreCase(a, b)
    ensures EqualsIgnoreCase(b, a)
  {
  }

  lemma EqualsIgnoreCaseTransitive(a: string, b: string, c: string)
    requires EqualsIgnoreCase(a, b) && EqualsIgnoreCase(b, c)
    ensures EqualsIgnoreCase(a, c)
  {
  }

  /** The index of the first entry of `listing` whose name equals `part`
      ignoring case: what a scan of the listing that breaks at the first
      match finds. */
  function FirstMatch(listing: seq<Node>, part: string): (r: Option<nat>)
    ensures r.Some? ==> r.value < |listing| && EqualsIgnoreCase(listing[r.value].name, part)
    ensures r.Some? ==> forall j :: 0 <= j < r.value ==> !EqualsIgnoreCase(listing[j].name, part)
    ensures r.None? ==> forall j :: 0 <= j < |listing| ==> !EqualsIgnoreCase(listing[j].name, part)
  {
    if listing == [] then None
    else if EqualsIgnoreCase(listing[0].name, part) then Some(0)
    else match FirstMatch(listing[1..], part)
      case None => None
      case Some(i) => Some(i + 1)
  }

  /** Two parts that are equal ignoring case select the same entry. */
  lemma {:induction false} FirstMatchRespectsCase(listing: seq<Node>, a: string, b: string)
    requires EqualsIgnoreCase(a, b)
    ensures FirstMatch(listing, a) == FirstMatch(listing, b)
  {
    if listing != [] {
      var n := listing[0].name;
      if EqualsIgnoreCase(n, a) {
        EqualsIgnoreCaseTransitive(n, a, b);
      } else {
        if EqualsIgnoreCase(n, b) {
          EqualsIgnoreCaseSymmetric(a, b);
          EqualsIgnoreCaseTransitive(n, b, a);
        }
        FirstMatchRespectsCase(listing[1..], a, b);
      }
    }
  }

  // ---------------------------------------------------------------------
  // Splitting and joining paths
  // ---------------------------------------------------------------------

  /** The pieces of `s` between separators, empty pieces included. */
  function Segments(s: string): (r: seq<string>)
    ensures |r| >= 1
    ensures forall p :: p in r ==> '/' !in p
  {
    if s == [] then [""]
    else
      var rest := Segments(s[1..]);
      if s[0] == '/' then [""] + rest else [[s[0]] + rest[0]] + rest[1..]
  }

  function DropTrailingEmpty(parts: seq<string>): (r: seq<string>)
    ensures r <= parts
    ensures r == [] || r[|r| - 1] != ""
    ensures forall i :: |r| <= i < |parts| ==> parts[i] == ""
  {
    if parts != [] && parts[|parts| - 1] == "" then DropTrailingEmpty(parts[..|parts| - 1]) else parts
  }

  /** `path.split("/")`: a leading empty piece is kept, trailing empty pieces
      are dropped, and a string without a separator (the empty one too) is
      its own only piece. */
  function Split(s: string): (r: seq<string>)
    ensures s == "" ==> r == [""]
    ensures forall p :: p in r ==> '/' !in p
    ensures s != "" ==> r == [] || r[|r| - 1] != ""
  {
    if s == "" then [""] else DropTrailingEmpty(Segments(s))
  }

  /** The components separated by single `/` characters. */
  function Join(parts: seq<string>): (r: string)
    ensures parts == [] ==> r == ""
    ensures parts != [] ==> parts[0] <= r
    ensures |parts| >= 2 ==> |parts[0]| < |r| && r[|parts[0]|] == '/'
  {
    if parts == [] then ""
    else if |parts| == 1 then parts[0]
    else parts[0] + "/" + Join(parts[1..])
  }

  /** Appending `sep + name` to a `/`-joined path extends it by one component. */
  lemma {:induction false} JoinSnoc(parts: seq<string>, x: string)
    requires parts != []
    ensures Join(parts + [x]) == Join(parts) + "/" + x
  {
    var px := parts + [x];
    if |parts| == 1 {
      assert px[1..] == [x];
      assert Join(px) == parts[0] + "/" + Join([x]);
    } else {
      assert px[1..] == parts[1..] + [x];
      JoinSnoc(parts[1..], x);
      assert Join(px) == parts[0] + "/" + Join(parts[1..] + [x]);
      assert Join(parts) == parts[0] + "/" + Join(parts[1..]);
    }
  }

  lemma {:induction false} SegmentsWithoutSeparator(a: string)
    requires '/' !in a
    ensures Segments(a) == [a]
  {
    if a != [] {
      SegmentsWithoutSeparator(a[1..]);
      assert [a[0]] + a[1..] == a;
    }
  }

  lemma {:induction false} SegmentsCons(a: string, b: string)
    requires '/' !in a
    ensures Segments(a + "/" + b) == [a] + Segments(b)
  {
    var s := a + "/" + b;
    if a == [] {
      assert s[1..] == b;
    } else {
      assert s[1..] == a[1..] + "/" + b;
      SegmentsCons(a[1..], b);
      assert [a[0]] + a[1..] == a;
    }
  }

  lemma {:induction false} JoinSegments(s: string)
    ensures Join(Segments(s)) == s
  {
    if s != [] {
      var rest := Segments(s[1..]);
      JoinSegments(s[1..]);
      assert s == [s[0]] + s[1..];
      if s[0] == '/' {
        assert ([""] + rest)[1..] == rest;
        assert Join([""] + rest) == "" + "/" + Join(rest);
      } else if |rest| > 1 {
        var h := [s[0]] + rest[0];
        assert ([h] + rest[1..])[1..] == rest[1..];
        assert Join(rest) == rest[0] + "/" + Join(rest[1..]);
      }
    }
  }

  lemma {:induction false} JoinDropTrailingEmpty(parts: seq<string>)
    ensures Join(DropTrailingEmpty(parts)) <= Join(parts)
    ensures forall i :: |Join(DropTrailingEmpty(parts))| <= i < |Join(parts)| ==> Join(parts)[i] == '/'
  {
    if parts != [] && parts[|parts| - 1] == "" {
      var init := parts[..|parts| - 1];
      JoinDropTrailingEmpty(init);
      assert parts == init + [""];
      if init != [] {
        JoinSnoc(init, "");
      }
    }
  }

  /** `split("/")` loses only separators at the end: joining its pieces gives
      the string back up to a run of trailing `/`. */
  lemma SplitRejoins(s: string)
    ensures Join(Split(s)) <= s
    ensures forall i :: |Join(Split(s))| <= i < |s| ==> s[i] == '/'
  {
    if s != "" {
      JoinSegments(s);
      JoinDropTrailingEmpty(Segments(s));
    }
  }

  /** A path that starts with `/` splits into a leading empty piece, and only
      such a path does. */
  lemma SplitKeepsLeadingEmpty(s: string)
    requires s != "" && Split(s) != []
    ensures Split(s)[0] == "" <==> s[0] == '/'
  {
    var r := Split(s);
    SplitRejoins(s);
    if r[0] == "" {
      assert |r| >= 2;
      assert Join(r)[0] == '/';
    } else {
      assert r[0] in r;
      assert s[0] == Join(r)[0] == r[0][0];
    }
  }

  /** A string without a separator is its own only piece. */
  lemma SplitWithoutSeparator(s: string)
    requires '/' !in s
    ensures Split(s) == [s]
  {
    if s != "" {
      SegmentsWithoutSeparator(s);
    }
  }

  /** Splitting a join of separator-free components gives the components back. */
  lemma {:induction false} SegmentsOfJoin(parts: seq<string>)
    requires parts != []
    requires forall p :: p in parts ==> '/' !in p
    ensures Segments(Join(parts)) == parts
  {
    if |parts| == 1 {
      SegmentsWithoutSeparator(parts[0]);
    } else {
      SegmentsOfJoin(parts[1..]);
      SegmentsCons(parts[0], Join(parts[1..]));
    }
  }

  /** Round trip: `Join(parts).split("/")` is `parts` when every part is a
      valid entry name. */
  lemma SplitJoin(parts: seq<string>)
    requires parts != []
    requires forall p :: p in parts ==> ValidName(p)
    ensures Split(Join(parts)) == parts
  {
    SegmentsOfJoin(parts);
    assert parts[0] in parts;
    assert parts[|parts| - 1] in parts;
    assert Join(parts) != "" by { JoinNonEmpty(parts); }
  }

  lemma {:induction false} JoinNonEmpty(parts: seq<string>)
    requires parts != []
    requires forall p :: p in parts ==> ValidName(p)
    ensures |Join(parts)| >= |parts[0]| > 0
  {
    assert parts[0] in parts;
  }

  /** No leading, trailing or doubled separator. */
  predicate WellFormedPath(s: string)
  {
    s == "" || (s[0] != '/' && s[|s| - 1] != '/' && forall i :: 0 <= i < |s| - 1 && s[i] == '/' ==> s[i + 1] != '/')
  }

  /** A join of valid names is well formed. */
  lemma {:induction false} JoinWellFormed(parts: seq<string>)
    requires forall p :: p in parts ==> ValidName(p)
    ensures WellFormedPath(Join(parts))
  {
    if |parts| > 1 {
      var a, rest := parts[0], parts[1..];
      assert a in parts;
      assert forall p :: p in rest ==> p in parts;
      JoinWellFormed(rest);
      var j := Join(rest);
      JoinNonEmpty(rest);
      assert rest[0] in parts;
      var s := a + "/" + j;
      assert Join(parts) == s;
      forall i | 0 <= i < |s| - 1 && s[i] == '/'
        ensures s[i + 1] != '/'
      {
        if i == |a| {
          assert s[i + 1] == j[0];
        } else if i > |a| {
          assert s[i] == j[i - |a| - 1] && s[i + 1] == j[i - |a|];
        }
      }
      assert s[|s| - 1] == j[|j| - 1];
    } else if |parts| == 1 {
      assert parts[0] in parts;
    }
  }
}
