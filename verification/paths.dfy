/** Lexical file paths with `/` separators, as `path/filepath` treats them on Unix:
    `Clean`, two-argument `Join`, and the zip-slip check of `downloadComponent`. A path is
    read as its `/`-separated segments; `Clean` folds them onto a stack, dropping empty
    and `.` segments and letting `..` cancel the segment before it. */
module Paths {
  import opened Strings
  import opened Seqs

  function Segments(p: string): seq<string> {
    Split(p, '/')
  }

  predicate IsRooted(p: string) {
    |p| > 0 && p[0] == '/'
  }

  /** A segment `Clean` keeps: non-empty, not `.`, without a separator. */
  predicate Elem(e: string) {
    e != "" && e != "." && '/' !in e
  }

  /** The stacks `Clean` builds: kept segments only, `..` only at the bottom, and no `..`
      at all under the root. */
  predicate Tidy(stack: seq<string>, rooted: bool) {
    && (forall i :: 0 <= i < |stack| ==> Elem(stack[i]))
    && (forall i, j :: 0 <= i < j < |stack| && stack[j] == ".." ==> stack[i] == "..")
    && (rooted ==> forall i :: 0 <= i < |stack| ==> stack[i] != "..")
  }

  /** One segment of `Clean`'s loop: empty and `.` segments vanish; `..` removes the last
      kept segment, or, when there is none, is dropped under the root and kept otherwise. */
  function Push(stack: seq<string>, seg: string, rooted: bool): seq<string> {
    if seg == "" || seg == "." then stack
    else if seg == ".." then
      if |stack| > 0 && stack[|stack| - 1] != ".." then stack[..|stack| - 1]
      else if rooted then stack
      else stack + [".."]
    else stack + [seg]
  }

  function Reduce(stack: seq<string>, segs: seq<string>, rooted: bool): seq<string>
    decreases |segs|
  {
    if |segs| == 0 then stack else Reduce(Push(stack, segs[0], rooted), segs[1..], rooted)
  }

  /** A stack written back as a path: `/` for an empty rooted one, `.` for an empty
      relative one. */
  function Render(rooted: bool, stack: seq<string>): string {
    if rooted then "/" + Join(stack, "/")
    else if |stack| == 0 then "."
    else Join(stack, "/")
  }

  /** The kept segments of a path. */
  function Stack(p: string): seq<string> {
    Reduce([], Segments(p), IsRooted(p))
  }

  /** `filepath.Clean`. */
  function Clean(p: string): string {
    if p == "" then "." else Render(IsRooted(p), Stack(p))
  }

  /** `filepath.Join` of two elements: empty elements are ignored, the rest joined with a
      separator and cleaned. */
  function JoinPath(a: string, b: string): string {
    if a != "" then Clean(a + "/" + b)
    else if b != "" then Clean(b)
    else ""
  }

  lemma {:induction false} ReduceAppend(stack: seq<string>, a: seq<string>, b: seq<string>, rooted: bool)
    ensures Reduce(stack, a + b, rooted) == Reduce(Reduce(stack, a, rooted), b, rooted)
    decreases |a|
  {
    if |a| == 0 {
      assert a + b == b;
    } else {
      assert (a + b)[0] == a[0];
      assert (a + b)[1..] == a[1..] + b;
      ReduceAppend(Push(stack, a[0], rooted), a[1..], b, rooted);
    }
  }

  lemma ReduceSnoc(stack: seq<string>, a: seq<string>, x: string, rooted: bool)
    ensures Reduce(stack, a + [x], rooted) == Push(Reduce(stack, a, rooted), x, rooted)
  {
    ReduceAppend(stack, a, [x], rooted);
    assert [x][1..] == [];
  }

  lemma PushTidy(stack: seq<string>, seg: string, rooted: bool)
    requires Tidy(stack, rooted) && '/' !in seg
    ensures Tidy(Push(stack, seg, rooted), rooted)
  {
    if seg == ".." && |stack| > 0 && stack[|stack| - 1] != ".." {
      var r := stack[..|stack| - 1];
      assert forall i :: 0 <= i < |r| ==> r[i] == stack[i];
    } else if seg == ".." && !rooted && !(|stack| > 0 && stack[|stack| - 1] != "..") {
      var r := stack + [".."];
      forall i, j | 0 <= i < j < |r| && r[j] == ".."
        ensures r[i] == ".."
      {
        if j == |stack| {
          assert stack[|stack| - 1] == "..";
          if i < |stack| - 1 {
            assert stack[i] == "..";
          }
        }
      }
    }
  }

  lemma {:induction false} ReduceTidy(stack: seq<string>, segs: seq<string>, rooted: bool)
    requires Tidy(stack, rooted)
    requires forall i :: 0 <= i < |segs| ==> '/' !in segs[i]
    ensures Tidy(Reduce(stack, segs, rooted), rooted)
    decreases |segs|
  {
    if |segs| > 0 {
      PushTidy(stack, segs[0], rooted);
      ReduceTidy(Push(stack, segs[0], rooted), segs[1..], rooted);
    }
  }

  /** Every stack `Clean` builds from a path is tidy. */
  lemma StackTidy(stack: seq<string>, p: string, rooted: bool)
    requires Tidy(stack, rooted)
    ensures Tidy(Reduce(stack, Segments(p), rooted), rooted)
  {
    SplitNoSep(p, '/');
    ReduceTidy(stack, Segments(p), rooted);
  }

  /** `s` continues `d` with at least one more segment. */
  predicate Below(d: seq<string>, s: seq<string>) {
    |s| > |d| && s[..|d|] == d
  }

  /** Where a prefix ending in a separator must find one. */
  lemma PrefixSlash(x: string, u: string, y: string, p: string)
    ensures HasPrefix(x + "/" + u, y + "/" + p) && |x| < |y| ==> '/' in y
    ensures HasPrefix(x + "/" + u, y + "/" + p) && |x| > |y| ==> '/' in x
    ensures HasPrefix(x, y + "/" + p) ==> '/' in x
  {
    var a, b := x + "/" + u, y + "/" + p;
    if HasPrefix(a, b) && |x| < |y| {
      assert a[|x|] == '/' && b[|x|] == y[|x|];
      assert y[|x|] in y;
    }
    if HasPrefix(a, b) && |x| > |y| {
      assert a[|y|] == x[|y|] && b[|y|] == '/';
      assert x[|y|] in x;
    }
    if HasPrefix(x, b) {
      assert x[|y|] == b[|y|];
      assert x[|y|] in x;
    }
  }

  lemma SlashPrefix(x: string, u: string, y: string, p: string)
    requires '/' !in x && '/' !in y
    ensures HasPrefix(x + "/" + u, y + "/" + p) <==> x == y && HasPrefix(u, p)
  {
    var a, b := x + "/" + u, y + "/" + p;
    PrefixSlash(x, u, y, p);
    if HasPrefix(a, b) {
      assert a[..|x|] == a[..|b|][..|x|] == b[..|y|];
      assert x == a[..|x|] && y == b[..|y|];
      assert u[..|p|] == a[|x| + 1..|b|] == b[|y| + 1..] == p;
    }
    if x == y && HasPrefix(u, p) {
      assert a[..|b|] == x + "/" + u[..|p|];
    }
  }

  /** Segment-wise prefix and string prefix agree for separator-free segments. */
  lemma {:induction false} JoinPrefix(d: seq<string>, s: seq<string>)
    requires |d| > 0
    requires forall i :: 0 <= i < |d| ==> '/' !in d[i]
    requires forall i :: 0 <= i < |s| ==> '/' !in s[i]
    ensures HasPrefix(Join(s, "/"), Join(d, "/") + "/") <==> Below(d, s)
    decreases |d|
  {
    var rest := if |d| == 1 then "" else Join(d[1..], "/") + "/";
    assert Join(d, "/") + "/" == d[0] + "/" + rest;
    if |s| == 0 {
    } else if |s| == 1 {
      PrefixSlash(s[0], "", d[0], rest);
    } else {
      assert Join(s, "/") == s[0] + "/" + Join(s[1..], "/");
      SlashPrefix(s[0], Join(s[1..], "/"), d[0], rest);
      if |d| == 1 {
        assert Below(d, s) <==> s[0] == d[0] by {
          assert s[..1] == [s[0]];
        }
      } else {
        JoinPrefix(d[1..], s[1..]);
        assert Below(d, s) <==> s[0] == d[0] && Below(d[1..], s[1..]) by {
          assert d == [d[0]] + d[1..];
          if |s| > |d| {
            assert s[..|d|] == [s[0]] + s[1..][..|d| - 1];
          }
        }
      }
    }
  }

  /** A joined stack starts with `y/` only if its first segment is `y` and more follow. */
  lemma JoinStartsWith(s: seq<string>, y: string)
    requires |s| > 0 && '/' !in s[0] && '/' !in y
    ensures HasPrefix(Join(s, "/"), y + "/") ==> |s| > 1 && s[0] == y
  {
    if |s| == 1 {
      PrefixSlash(s[0], "", y, "");
      assert y + "/" == y + "/" + "";
    } else {
      assert Join(s, "/") == s[0] + "/" + Join(s[1..], "/");
      SlashPrefix(s[0], Join(s[1..], "/"), y, "");
      assert y + "/" == y + "/" + "";
    }
  }

  lemma RootedPrefix(x: string, y: string)
    ensures HasPrefix("/" + x, "/" + y) <==> HasPrefix(x, y)
  {
    if HasPrefix("/" + x, "/" + y) {
      assert x[..|y|] == ("/" + x)[1..|y| + 1] == ("/" + y)[1..] == y;
    }
    if HasPrefix(x, y) {
      assert ("/" + x)[..|y| + 1] == "/" + x[..|y|];
    }
  }

  /** Nothing starts with the rendering of an empty stack followed by `/`. */
  lemma RenderPrefixEmpty(rooted: bool, s: seq<string>)
    requires Tidy(s, rooted)
    ensures !HasPrefix(Render(rooted, s), Render(rooted, []) + "/")
  {
    if |s| > 0 {
      JoinStartsWith(s, if rooted then "" else ".");
      if rooted {
        RootedPrefix(Join(s, "/"), "/");
      }
    }
  }

  /** The zip-slip prefix test on rendered stacks is the segment test `Below`, except that
      an empty destination stack (the path `/` or `.`) admits nothing. */
  lemma RenderPrefix(rooted: bool, d: seq<string>, s: seq<string>)
    requires Tidy(d, rooted) && Tidy(s, rooted)
    ensures HasPrefix(Render(rooted, s), Render(rooted, d) + "/") <==> |d| > 0 && Below(d, s)
  {
    if |d| == 0 {
      RenderPrefixEmpty(rooted, s);
    } else {
      JoinPrefix(d, s);
      JoinNonEmpty(d, "/");
      if rooted {
        RootedPrefix(Join(s, "/"), Join(d, "/") + "/");
      }
    }
  }

  /** The zip-slip check of `downloadComponent` as written: the joined file path must
      start with the cleaned destination followed by a separator. */
  predicate ZipSlipAccepts(dest: string, name: string) {
    HasPrefix(JoinPath(dest, name), Clean(dest) + "/")
  }

  /** The stack of `dest` continued with the segments of an archive entry name. */
  function EntryStack(dest: string, name: string): seq<string> {
    Reduce(Stack(dest), Segments(name), IsRooted(dest))
  }

  /** Joining onto a non-empty destination cleans the destination's segments followed by
      the name's, under the destination's root. */
  lemma JoinPathStack(dest: string, name: string)
    requires dest != ""
    ensures JoinPath(dest, name) == Render(IsRooted(dest), EntryStack(dest, name))
    ensures Clean(dest) == Render(IsRooted(dest), Stack(dest))
  {
    var p := dest + "/" + name;
    assert IsRooted(p) == IsRooted(dest) by {
      assert p[0] == dest[0];
    }
    SplitAround(dest, '/', name);
    ReduceAppend([], Segments(dest), Segments(name), IsRooted(dest));
  }

  lemma EmptyStacks()
    ensures Stack("") == [] && Stack("/") == []
  {
    assert Segments("") == [""];
    SplitAround("", '/', "");
    assert "" + ['/'] + "" == "/";
    assert Segments("/") == ["", ""];
  }

  /** The check as written accepts an entry exactly when the destination keeps at least
      one segment and the entry's cleaned segments continue the destination's. */
  lemma ZipSlipSegments(dest: string, name: string)
    ensures ZipSlipAccepts(dest, name) <==> |Stack(dest)| > 0 && Below(Stack(dest), EntryStack(dest, name))
  {
    StackTidy([], dest, IsRooted(dest));
    if dest == "" {
      EmptyStacks();
      assert Clean(dest) + "/" == Render(false, []) + "/" == "./";
      if name != "" {
        StackTidy([], name, IsRooted(name));
        if IsRooted(name) {
          assert JoinPath(dest, name)[0] == '/';
        } else {
          RenderPrefix(false, [], Stack(name));
        }
      }
    } else {
      JoinPathStack(dest, name);
      StackTidy(Stack(dest), name, IsRooted(dest));
      RenderPrefix(IsRooted(dest), Stack(dest), EntryStack(dest, name));
    }
  }

  /** The check the code evidently intends: the entry's cleaned path continues the
      destination's with segments that never climb back out through `..`. */
  predicate ZipSlipInside(dest: string, name: string) {
    && dest != ""
    && Below(Stack(dest), EntryStack(dest, name))
    && forall i :: |Stack(dest)| <= i < |EntryStack(dest, name)| ==> EntryStack(dest, name)[i] != ".."
  }

  /** For every destination that keeps a segment and has no `..` among them (every
      absolute destination other than `/` among them), the check as written is the
      intended one. */
  lemma ZipSlipAgrees(dest: string, name: string)
    requires |Stack(dest)| > 0
    requires forall i :: 0 <= i < |Stack(dest)| ==> Stack(dest)[i] != ".."
    ensures ZipSlipAccepts(dest, name) <==> ZipSlipInside(dest, name)
  {
    EmptyStacks();
    ZipSlipSegments(dest, name);
    var d, s := Stack(dest), EntryStack(dest, name);
    StackTidy([], dest, IsRooted(dest));
    StackTidy(d, name, IsRooted(dest));
    if Below(d, s) {
      assert s[0] == d[0];
      forall i | |d| <= i < |s| ensures s[i] == ".." ==> s[0] == ".." { }
    }
  }

  lemma ZipSlipAgreesRooted(dest: string, name: string)
    requires IsRooted(dest) && Clean(dest) != "/"
    ensures ZipSlipAccepts(dest, name) <==> ZipSlipInside(dest, name)
  {
    StackTidy([], dest, true);
    ZipSlipAgrees(dest, name);
  }

  /** With the destination `/`, the check as written rejects every entry, although
      `/a` lies inside `/`; the intended check accepts it. */
  lemma RootDestRejectsAll(name: string)
    ensures !ZipSlipAccepts("/", name)
    ensures ZipSlipInside("/", "a")
  {
    EmptyStacks();
    ZipSlipSegments("/", name);
    SplitWithoutSep("a", '/');
    assert EntryStack("/", "a") == ["a"] by {
      assert Segments("a") == ["a"];
      assert Reduce([], ["a"], true) == Reduce(["a"], [], true);
    }
  }

  lemma DotDotStacks()
    ensures Stack("..") == [".."]
    ensures EntryStack("..", "../x") == ["..", "..", "x"]
  {
    SplitWithoutSep("..", '/');
    SplitWithoutSep("x", '/');
    SplitAround("..", '/', "x");
    assert ".." + ['/'] + "x" == "../x";
    assert Segments("../x") == ["..", "x"];
    assert Reduce([], [".."], false) == Reduce([".."], [], false);
    assert Reduce([".."], ["..", "x"], false) == Reduce(["..", ".."], ["x"], false);
    assert Reduce(["..", ".."], ["x"], false) == Reduce(["..", "..", "x"], [], false);
  }

  /** With the relative destination `..`, the check as written accepts `../x`, which is
      written to `../../x`, outside the destination; the intended check rejects it. */
  lemma DotDotDestAcceptsEscape()
    ensures ZipSlipAccepts("..", "../x")
    ensures !ZipSlipInside("..", "../x")
  {
    DotDotStacks();
    ZipSlipSegments("..", "../x");
    assert Below([".."], ["..", "..", "x"]);
    assert EntryStack("..", "../x")[1] == "..";
  }

  /** The segments of a path written as its segments joined by separators. */
  lemma SegmentsOfJoin(p: string, parts: seq<string>)
    requires |parts| >= 1 && forall i :: 0 <= i < |parts| ==> '/' !in parts[i]
    requires Join(parts, "/") == p
    ensures Segments(p) == parts
  {
    SplitJoin(parts, '/');
  }

  /** `Clean` of a rooted path given by its segments and the stack they fold to. */
  lemma CleanRooted(p: string, parts: seq<string>, stack: seq<string>)
    requires |parts| >= 2 && parts[0] == "" && forall i :: 0 <= i < |parts| ==> '/' !in parts[i]
    requires Join(parts, "/") == p
    requires Reduce([], parts[1..], true) == stack
    ensures Clean(p) == "/" + Join(stack, "/")
  {
    SegmentsOfJoin(p, parts);
    assert p == "/" + Join(parts[1..], "/");
    assert parts == [""] + parts[1..];
  }

  lemma ClimbDestinationSegments()
    ensures "/b" + "/" + "/../c" == Join(["", "b", "", "..", "c"], "/")
  {
    assert Join(["c"], "/") == "c";
    assert Join(["..", "c"], "/") == "../c";
    assert Join(["", "..", "c"], "/") == "/../c";
    assert Join(["b", "", "..", "c"], "/") == "b//../c";
  }

  lemma ClimbDestinationStack()
    ensures Reduce([], ["b", "", "..", "c"], true) == ["c"]
  {
    assert Reduce([], ["b", "", "..", "c"], true) == Reduce(["b"], ["", "..", "c"], true);
    assert Reduce(["b"], ["", "..", "c"], true) == Reduce(["b"], ["..", "c"], true);
    assert Reduce(["b"], ["..", "c"], true) == Reduce([], ["c"], true);
  }

  lemma ClimbDestination()
    ensures JoinPath("/b", "/../c") == "/c"
  {
    ClimbDestinationSegments();
    ClimbDestinationStack();
    var parts := ["", "b", "", "..", "c"];
    assert parts[1..] == ["b", "", "..", "c"];
    CleanRooted("/b" + "/" + "/../c", parts, ["c"]);
  }

  lemma ClimbWritten()
    ensures JoinPath("/c", "n") == "/c/n"
  {
    assert "/c" + "/" + "n" == "/c/n";
    assert Join(["n"], "/") == "n";
    assert Join(["c", "n"], "/") == "c/n";
    assert Join(["", "c", "n"], "/") == "/c/n";
    assert Reduce([], ["c", "n"], true) == Reduce(["c"], ["n"], true);
    assert Reduce(["c"], ["n"], true) == ["c", "n"];
    CleanRooted("/c/n", ["", "c", "n"], ["c", "n"]);
  }

  lemma ClimbRecordedSegments()
    ensures "/../c" + "/" + "n" == Join(["", "..", "c", "n"], "/")
  {
    assert Join(["n"], "/") == "n";
    assert Join(["c", "n"], "/") == "c/n";
    assert Join(["..", "c", "n"], "/") == "../c/n";
  }

  lemma ClimbRecordedStack()
    ensures Reduce([], ["..", "c", "n"], true) == ["c", "n"]
  {
    assert Reduce([], ["..", "c", "n"], true) == Reduce([], ["c", "n"], true);
    assert Reduce([], ["c", "n"], true) == Reduce(["c"], ["n"], true);
  }

  lemma ClimbRecorded()
    ensures JoinPath("/../c", "n") == "/c/n"
  {
    ClimbRecordedSegments();
    ClimbRecordedStack();
    var parts := ["", "..", "c", "n"];
    assert parts[1..] == ["..", "c", "n"];
    CleanRooted("/../c" + "/" + "n", parts, ["c", "n"]);
    assert Join(["c", "n"], "/") == "c/n";
  }

  lemma ClimbRemovedSegments()
    ensures "/b" + "/" + "/c/n" == Join(["", "b", "", "c", "n"], "/")
  {
    assert Join(["n"], "/") == "n";
    assert Join(["c", "n"], "/") == "c/n";
    assert Join(["", "c", "n"], "/") == "/c/n";
    assert Join(["b", "", "c", "n"], "/") == "b//c/n";
  }

  lemma ClimbRemovedStack()
    ensures Reduce([], ["b", "", "c", "n"], true) == ["b", "c", "n"]
  {
    assert Reduce([], ["b", "", "c", "n"], true) == Reduce(["b"], ["", "c", "n"], true);
    assert Reduce(["b"], ["", "c", "n"], true) == Reduce(["b"], ["c", "n"], true);
    assert Reduce(["b"], ["c", "n"], true) == Reduce(["b", "c"], ["n"], true);
  }

  lemma ClimbRemoved()
    ensures JoinPath("/b", "/c/n") == "/b/c/n"
  {
    ClimbRemovedSegments();
    ClimbRemovedStack();
    var parts := ["", "b", "", "c", "n"];
    assert parts[1..] == ["b", "", "c", "n"];
    CleanRooted("/b" + "/" + "/c/n", parts, ["b", "c", "n"]);
    assert Join(["b", "c", "n"], "/") == "b/c/n";
  }

  /** Both checks accept the entry `n` under the destination `/c`. */
  lemma ClimbEntryPasses()
    ensures ZipSlipAccepts("/c", "n") && ZipSlipInside("/c", "n")
  {
    assert Join(["", "c"], "/") == "/c";
    SegmentsOfJoin("/c", ["", "c"]);
    assert Stack("/c") == Reduce([], ["", "c"], true) == ["c"];
    SplitWithoutSep("n", '/');
    assert EntryStack("/c", "n") == Reduce(["c"], ["n"], true) == ["c", "n"];
    ZipSlipSegments("/c", "n");
    assert Below(["c"], ["c", "n"]);
  }

  /** A rooted component path whose `..` climbs above the root: under the base `/b`, the
      path `/../c` names the directory `/c`, and its entry `n` is written to `/c/n`; the
      path recorded for that entry is the cleaned `/c/n` as well, but joined back onto the
      base it names `/b/c/n`. */
  lemma RootedClimbPaths()
    ensures JoinPath("/b", "/../c") == "/c"
    ensures JoinPath("/c", "n") == "/c/n"
    ensures JoinPath("/../c", "n") == "/c/n"
    ensures JoinPath("/b", "/c/n") == "/b/c/n"
  {
    ClimbDestination();
    ClimbWritten();
    ClimbRecorded();
    ClimbRemoved();
  }

  /** A segment that names something. */
  predicate Named(e: string) {
    e != "" && e != "."
  }

  lemma {:induction false} ReduceNoDotDot(stack: seq<string>, segs: seq<string>, rooted: bool)
    requires forall i :: 0 <= i < |segs| ==> segs[i] != ".."
    ensures Reduce(stack, segs, rooted) == stack + Filter(segs, Named)
    decreases |segs|
  {
    if |segs| > 0 {
      ReduceNoDotDot(Push(stack, segs[0], rooted), segs[1..], rooted);
      if Named(segs[0]) {
        assert stack + [segs[0]] + Filter(segs[1..], Named) == stack + ([segs[0]] + Filter(segs[1..], Named));
      } else {
        assert stack + Filter(segs[1..], Named) == stack + Filter(segs, Named);
      }
    }
  }

  /** An entry name without `..` segments is accepted by the intended check exactly when
      it names something, under any destination the program can use. */
  lemma PlainNamesInside(dest: string, name: string)
    requires dest != ""
    requires forall i :: 0 <= i < |Segments(name)| ==> Segments(name)[i] != ".."
    ensures ZipSlipInside(dest, name) <==> Filter(Segments(name), Named) != []
  {
    var d := Stack(dest);
    var kept := Filter(Segments(name), Named);
    ReduceNoDotDot(d, Segments(name), IsRooted(dest));
    assert EntryStack(dest, name) == d + kept;
    assert (d + kept)[..|d|] == d;
    forall i | |d| <= i < |d + kept| ensures (d + kept)[i] != ".." {
      assert (d + kept)[i] == kept[i - |d|];
      assert kept[i - |d|] in Segments(name);
    }
  }

  /** Pushing an already tidy continuation appends it unchanged. */
  lemma {:induction false} ReducePlain(stack: seq<string>, more: seq<string>, rooted: bool)
    requires Tidy(stack + more, rooted)
    ensures Reduce(stack, more, rooted) == stack + more
    decreases |more|
  {
    if |more| > 0 {
      var all := stack + more;
      assert all[|stack|] == more[0];
      if more[0] == ".." && |stack| > 0 {
        assert all[|stack| - 1] == stack[|stack| - 1];
      }
      assert Push(stack, more[0], rooted) == stack + [more[0]];
      assert (stack + [more[0]]) + more[1..] == all;
      ReducePlain(stack + [more[0]], more[1..], rooted);
    }
  }

  lemma JoinHead(k: seq<string>)
    requires |k| > 0 && k[0] != ""
    ensures |Join(k, "/")| > 0 && Join(k, "/")[0] == k[0][0]
  {
  }

  /** A rendered tidy stack is rooted exactly when the stack is. */
  lemma RenderRooted(rooted: bool, k: seq<string>)
    requires Tidy(k, rooted)
    ensures Render(rooted, k) != "" && IsRooted(Render(rooted, k)) == rooted
  {
    if !rooted && |k| > 0 {
      JoinHead(k);
      assert k[0][0] in k[0];
    }
  }

  /** Re-reading a rendered tidy stack gives back its segments, up to empty and `.` ones. */
  lemma ReduceRendered(stack: seq<string>, rooted: bool, k: seq<string>, rooted': bool)
    requires Tidy(k, rooted)
    ensures Reduce(stack, Segments(Render(rooted, k)), rooted') == Reduce(stack, k, rooted')
  {
    var j := Join(k, "/");
    var js := if |k| == 0 then [""] else k;
    assert Split(j, '/') == js by {
      if |k| > 0 {
        SplitJoin(k, '/');
      }
    }
    if rooted {
      SplitAround("", '/', j);
      assert "" + ['/'] + j == Render(rooted, k);
      assert Segments(Render(rooted, k)) == [""] + js;
      assert Reduce(stack, [""] + js, rooted') == Reduce(stack, js, rooted') by {
        assert ([""] + js)[1..] == js;
      }
      if |k| == 0 {
        assert Reduce(stack, [""], rooted') == Reduce(stack, [], rooted');
      }
    } else if |k| == 0 {
      SplitWithoutSep(".", '/');
      assert Reduce(stack, ["."], rooted') == Reduce(stack, [], rooted');
    }
  }

  /** `Clean` is idempotent on stacks: the stack of a rendered tidy stack is itself. */
  lemma StackOfRender(rooted: bool, k: seq<string>)
    requires Tidy(k, rooted)
    ensures Stack(Render(rooted, k)) == k
  {
    RenderRooted(rooted, k);
    ReduceRendered([], rooted, k, rooted);
    assert [] + k == k;
    ReducePlain([], k, rooted);
  }

  /** Pushing a name and then `..` leaves the stack as it was. */
  lemma PushPop(stack: seq<string>, k0: seq<string>, last: string, rooted: bool)
    requires Elem(last) && last != ".."
    ensures Push(Reduce(stack, k0 + [last], rooted), "..", rooted) == Reduce(stack, k0, rooted)
  {
    ReduceSnoc(stack, k0, last, rooted);
    var x := Reduce(stack, k0, rooted);
    assert Push(x, last, rooted) == x + [last];
    assert (x + [last])[..|x|] == x;
  }

  /** Applying a relative path's segments to a stack is the same as applying its cleaned
      segments. */
  lemma {:induction false} ReduceCanonical(stack: seq<string>, segs: seq<string>, rooted: bool)
    requires forall i :: 0 <= i < |segs| ==> '/' !in segs[i]
    ensures Reduce(stack, segs, rooted) == Reduce(stack, Reduce([], segs, false), rooted)
    decreases |segs|
  {
    if |segs| > 0 {
      var init, x := segs[..|segs| - 1], segs[|segs| - 1];
      assert segs == init + [x];
      ReduceCanonical(stack, init, rooted);
      ReduceSnoc(stack, init, x, rooted);
      ReduceSnoc([], init, x, false);
      var k := Reduce([], init, false);
      ReduceTidy([], init, false);
      if x == ".." && |k| > 0 && k[|k| - 1] != ".." {
        var k0 := k[..|k| - 1];
        assert k == k0 + [k[|k| - 1]];
        PushPop(stack, k0, k[|k| - 1], rooted);
      } else if x != "" && x != "." {
        ReduceSnoc(stack, k, x, rooted);
      }
    }
  }

  /** The path `removeComponent` deletes for a recorded line is the path
      `downloadComponent` wrote: joining the base with the recorded relative path
      `Join(directory, name)` gives `Join(Join(base, directory), name)`, as long as the
      recorded path is relative. */
  lemma RemovalMatchesWritten(base: string, dir: string, name: string)
    requires base != "" && !IsRooted(JoinPath(dir, name))
    ensures JoinPath(base, JoinPath(dir, name)) == JoinPath(JoinPath(base, dir), name)
  {
    var rb, b := IsRooted(base), Stack(base);
    StackTidy([], base, rb);
    // The destination directory and the written path.
    JoinPathStack(base, dir);
    var k1 := Reduce(b, Segments(dir), rb);
    StackTidy(b, dir, rb);
    var dest := JoinPath(base, dir);
    assert dest == Render(rb, k1);
    RenderRooted(rb, k1);
    StackOfRender(rb, k1);
    JoinPathStack(dest, name);
    ReduceAppend(b, Segments(dir), Segments(name), rb);
    var y := Segments(dir) + Segments(name);
    assert JoinPath(dest, name) == Render(rb, Reduce(b, y, rb));
    // The recorded relative path and the removed path.
    var rel := JoinPath(dir, name);
    SplitNoSep(dir, '/');
    SplitNoSep(name, '/');
    if dir != "" {
      var p := dir + "/" + name;
      assert IsRooted(p) == IsRooted(dir) by {
        assert p[0] == dir[0];
      }
      SplitAround(dir, '/', name);
      StackTidy([], p, IsRooted(p));
      RenderRooted(IsRooted(p), Stack(p));
      assert !IsRooted(p);
      JoinPathStack(base, rel);
      ReduceRendered(b, false, Stack(p), rb);
      ReduceCanonical(b, y, rb);
    } else if name != "" {
      StackTidy([], name, IsRooted(name));
      RenderRooted(IsRooted(name), Stack(name));
      JoinPathStack(base, rel);
      ReduceRendered(b, false, Stack(name), rb);
      ReduceCanonical(b, Segments(name), rb);
      assert Segments(dir) == [""];
      assert Reduce(b, y, rb) == Reduce(b, Segments(name), rb) by {
        assert y[1..] == Segments(name);
      }
    } else {
      JoinPathStack(base, rel);
      assert Segments("") == [""];
      assert Reduce(b, [""], rb) == b;
      assert y == ["", ""];
      assert Reduce(b, ["", ""], rb) == Reduce(b, [""], rb);
    }
  }
}
