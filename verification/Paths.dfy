/** The path algebra of src/tools/pathTools.cpp, POSIX branch. */
module Paths {
  import opened Seqs
  import opened Text

  // ---- Where a path leads ------------------------------------------------------------

  /** A part that names a directory entry. */
  predicate IsName(part: string) {
    part != "" && part != "." && part != ".."
  }

  ghost predicate AllNames(parts: seq<string>) {
    forall p | p in parts :: IsName(p)
  }

  /** One step of a walk over directories; `..` stops at the root. */
  function WalkStep(dir: seq<string>, part: string): seq<string> {
    if part == ".." then (if dir == [] then [] else dir[..|dir| - 1])
    else if IsName(part) then dir + [part]
    else dir
  }

  /** The directory reached from `dir` by following `parts`: the meaning of a path. */
  function Walk(dir: seq<string>, parts: seq<string>): seq<string>
    decreases |parts|
  {
    if parts == [] then dir else WalkStep(Walk(dir, parts[..|parts| - 1]), parts[|parts| - 1])
  }

  lemma {:induction false} WalkAppend(dir: seq<string>, a: seq<string>, b: seq<string>)
    ensures Walk(dir, a + b) == Walk(Walk(dir, a), b)
    decreases |b|
  {
    if b == [] {
      assert a + b == a;
    } else {
      assert (a + b)[..|a + b| - 1] == a + b[..|b| - 1];
      WalkAppend(dir, a, b[..|b| - 1]);
    }
  }

  lemma {:induction false} WalkNames(dir: seq<string>, parts: seq<string>)
    requires AllNames(dir)
    ensures AllNames(Walk(dir, parts))
    decreases |parts|
  {
    if parts != [] {
      WalkNames(dir, parts[..|parts| - 1]);
    }
  }

  lemma {:induction false} WalkOnNames(dir: seq<string>, down: seq<string>)
    requires AllNames(down)
    ensures Walk(dir, down) == dir + down
    decreases |down|
  {
    if down != [] {
      var init, last := down[..|down| - 1], down[|down| - 1];
      WalkOnNames(dir, init);
      assert last in down && down == init + [last];
      Assoc(dir, init, [last]);
    }
  }

  // ---- normalizeParts ---------------------------------------------------------------------

  /** The body of the loop, for the part number `index` (from 1) of `size`. */
  function NormStep(ret: seq<string>, part: string, absolute: bool, index: nat, size: nat): seq<string> {
    if part == ".." then
      if absolute then (if |ret| > 1 then ret[..|ret| - 1] else ret)
      else (if ret != [] && ret[|ret| - 1] != ".." then ret[..|ret| - 1] else ret + [".."])
    else if part == "" then
      (if ret == [] && (absolute || index < size) then ret + [""] else ret)
    else if part == "." then ret
    else ret + [part]
  }

  function NormTo(parts: seq<string>, absolute: bool, n: nat): seq<string>
    requires n <= |parts|
  {
    if n == 0 then [] else NormStep(NormTo(parts, absolute, n - 1), parts[n - 1], absolute, n, |parts|)
  }

  function Normalize(parts: seq<string>, absolute: bool): seq<string> {
    var ret := NormTo(parts, absolute, |parts|);
    if absolute && ret == [""] then ["", ""] else ret
  }

  method NormalizeParts(parts: seq<string>, absolute: bool) returns (ret: seq<string>)
    ensures ret == Normalize(parts, absolute)
  {
    ret := [];
    var index := 0;
    for i := 0 to |parts|
      invariant index == i
      invariant ret == NormTo(parts, absolute, i)
    {
      var part := parts[i];
      index := index + 1;
      if part == ".." {
        if absolute {
          if |ret| > 1 {
            ret := ret[..|ret| - 1];
          }
        } else {
          if ret != [] && ret[|ret| - 1] != ".." {
            ret := ret[..|ret| - 1];
          } else {
            ret := ret + [".."];
          }
        }
        continue;
      }
      if part == "" {
        if ret == [] && (absolute || index < |parts|) {
          ret := ret + [""];
        }
        continue;
      }
      if part == "." {
        continue;
      }
      ret := ret + [part];
    }
    if absolute && |ret| == 1 && ret[|ret| - 1] == "" {
      ret := ret + [""];
    }
  }

  // ---- Absolute mode ------------------------------------------------------------------------

  /** The parts of the absolute path to a directory. */
  function AbsForm(dir: seq<string>): seq<string> {
    if dir == [] then ["", ""] else [""] + dir
  }

  lemma {:induction false} AbsoluteTo(parts: seq<string>, n: nat)
    requires 1 <= n <= |parts| && parts[0] == ""
    ensures NormTo(parts, true, n) == [""] + Walk([], parts[..n])
  {
    assert parts[..n][..n - 1] == parts[..n - 1];
    if n == 1 {
      assert NormTo(parts, true, 0) == [];
    } else {
      AbsoluteTo(parts, n - 1);
    }
  }

  /** Absolute mode, on the parts of an absolute path, is resolution from the root. */
  lemma AbsoluteIsResolution(parts: seq<string>)
    requires parts != [] && parts[0] == ""
    ensures Normalize(parts, true) == AbsForm(Walk([], parts))
    ensures AllNames(Walk([], parts))
  {
    AbsoluteTo(parts, |parts|);
    assert parts[..|parts|] == parts;
    WalkNames([], parts);
  }

  lemma WalkAbsForm(dir: seq<string>)
    requires AllNames(dir)
    ensures Walk([], AbsForm(dir)) == dir
  {
    WalkAppend([], [""], if dir == [] then [""] else dir);
    WalkOnNames([], dir);
    assert [""][..0] == [] && [] + dir == dir;
    assert dir == [] ==> [""] + [""] == ["", ""];
  }

  lemma AbsoluteIdempotent(parts: seq<string>)
    requires parts != [] && parts[0] == ""
    ensures Normalize(Normalize(parts, true), true) == Normalize(parts, true)
  {
    AbsoluteIsResolution(parts);
    AbsoluteIsResolution(AbsForm(Walk([], parts)));
    WalkAbsForm(Walk([], parts));
  }

  // ---- Relative mode --------------------------------------------------------------------------

  /** What a relative path amounts to: so many levels up, then down. */
  datatype Net = Net(ups: nat, down: seq<string>)

  function NetStep(net: Net, part: string): Net {
    if part == ".." then
      (if net.down == [] then net.(ups := net.ups + 1) else net.(down := net.down[..|net.down| - 1]))
    else if IsName(part) then net.(down := net.down + [part])
    else net
  }

  function NetOf(parts: seq<string>, n: nat): Net
    requires n <= |parts|
  {
    if n == 0 then Net(0, []) else NetStep(NetOf(parts, n - 1), parts[n - 1])
  }

  function Climb(dir: seq<string>, ups: nat): seq<string> {
    if |dir| <= ups then [] else dir[..|dir| - ups]
  }

  lemma {:induction false} WalkIsNet(dir: seq<string>, parts: seq<string>, n: nat)
    requires n <= |parts|
    ensures Walk(dir, parts[..n]) == Climb(dir, NetOf(parts, n).ups) + NetOf(parts, n).down
    ensures AllNames(NetOf(parts, n).down)
  {
    if n > 0 {
      assert parts[..n][..n - 1] == parts[..n - 1];
      WalkIsNet(dir, parts, n - 1);
      NetStepWalk(dir, NetOf(parts, n - 1), parts[n - 1]);
    }
  }

  lemma NetStepWalk(dir: seq<string>, net: Net, part: string)
    ensures var next := NetStep(net, part);
            WalkStep(Climb(dir, net.ups) + net.down, part) == Climb(dir, next.ups) + next.down
  {
    var here := Climb(dir, net.ups);
    if part == ".." && net.down != [] {
      assert (here + net.down)[..|here + net.down| - 1] == here + net.down[..|net.down| - 1];
    } else if IsName(part) {
      Assoc(here, net.down, [part]);
    }
  }

  function Dots(n: nat): (r: seq<string>)
    ensures |r| == n && forall i | 0 <= i < n :: r[i] == ".."
  {
    if n == 0 then [] else Dots(n - 1) + [".."]
  }

  /** How relative mode stands after a prefix whose true effect is `net`.
      Good: it says exactly that.  Rooted: an empty part was kept while the stack was empty.
      Astray: after that, a `..` removed or met the empty part, and a level is lost. */
  datatype Mode = Good | Rooted | Astray

  ghost predicate Tracks(ret: seq<string>, net: Net, mode: Mode) {
    AllNames(net.down) &&
    match mode
    case Good => ret == Dots(net.ups) + net.down
    case Rooted => net.ups == 0 && ret == [""] + net.down
    case Astray => net.ups > 0 && (ret == [""] + net.down || exists j: nat :: j < net.ups && ret == Dots(j) + net.down)
  }

  function ModeStep(mode: Mode, net: Net, part: string, last: bool): Mode {
    if mode == Good && part == "" && net == Net(0, []) && !last then Rooted
    else if mode == Rooted && part == ".." && net.down == [] then Astray
    else mode
  }

  function ModeOf(parts: seq<string>, n: nat): Mode
    requires n <= |parts|
  {
    if n == 0 then Good
    else ModeStep(ModeOf(parts, n - 1), NetOf(parts, n - 1), parts[n - 1], n == |parts|)
  }

  /** Appending to the part of the stack below which nothing is touched. */
  lemma StackStep(base: seq<string>, down: seq<string>, part: string, index: nat, size: nat)
    requires AllNames(down) && (down != [] || IsName(part) || part == ".") && (base + down == [] ==> part != "")
    ensures NormStep(base + down, part, false, index, size) == base + NetStep(Net(0, down), part).down
    ensures NetStep(Net(0, down), part).ups == 0 && AllNames(NetStep(Net(0, down), part).down)
  {
    if part == ".." {
      assert (base + down)[|base + down| - 1] == down[|down| - 1] && IsName(down[|down| - 1]);
      assert (base + down)[..|base + down| - 1] == base + down[..|down| - 1];
    } else if IsName(part) {
      Assoc(base, down, [part]);
    }
  }

  lemma GoodStep(net: Net, part: string, index: nat, size: nat)
    requires AllNames(net.down) && index <= size
    ensures Tracks(NormStep(Dots(net.ups) + net.down, part, false, index, size), NetStep(net, part),
                   ModeStep(Good, net, part, index == size))
  {
    if net.down != [] || IsName(part) || part == "." {
      StackStep(Dots(net.ups), net.down, part, index, size);
    } else if part == ".." {
      assert Dots(net.ups) + [] == Dots(net.ups) && Dots(net.ups + 1) + [] == Dots(net.ups + 1);
    } else if net.ups == 0 {
      assert Dots(0) + [] == [] && [] + [""] == [""] + [];
    }
  }

  lemma RootedStep(net: Net, part: string, index: nat, size: nat)
    requires AllNames(net.down) && net.ups == 0 && index <= size
    ensures Tracks(NormStep([""] + net.down, part, false, index, size), NetStep(net, part),
                   ModeStep(Rooted, net, part, index == size))
  {
    if net.down != [] || IsName(part) || part == "." {
      StackStep([""], net.down, part, index, size);
    } else if part == ".." {
      assert NormStep([""] + net.down, part, false, index, size) == Dots(0) + [];
    }
  }

  lemma AstrayRootedStep(net: Net, part: string, index: nat, size: nat)
    requires AllNames(net.down) && net.ups > 0 && index <= size
    ensures Tracks(NormStep([""] + net.down, part, false, index, size), NetStep(net, part), Astray)
  {
    if net.down != [] || IsName(part) || part == "." {
      StackStep([""], net.down, part, index, size);
    } else if part == ".." {
      assert NormStep([""] + net.down, part, false, index, size) == Dots(0) + [];
    }
  }

  lemma AstrayDotsStep(net: Net, j: nat, part: string, index: nat, size: nat)
    requires AllNames(net.down) && j < net.ups && index <= size
    ensures Tracks(NormStep(Dots(j) + net.down, part, false, index, size), NetStep(net, part), Astray)
  {
    var ret := NormStep(Dots(j) + net.down, part, false, index, size);
    if net.down != [] || IsName(part) || part == "." {
      StackStep(Dots(j), net.down, part, index, size);
      assert ret == Dots(j) + NetStep(net, part).down;
    } else if part == ".." {
      assert Dots(j) + [] == Dots(j) && ret == Dots(j + 1) + [];
    } else if j == 0 {
      assert Dots(0) + [] == [] && [] + [""] == [""] + [];
    }
  }

  lemma {:induction false} RelativeTo(parts: seq<string>, n: nat)
    requires n <= |parts|
    ensures Tracks(NormTo(parts, false, n), NetOf(parts, n), ModeOf(parts, n))
  {
    if n == 0 {
      assert NormTo(parts, false, 0) == Dots(0) + [];
    } else {
      RelativeTo(parts, n - 1);
      var ret, net, mode := NormTo(parts, false, n - 1), NetOf(parts, n - 1), ModeOf(parts, n - 1);
      match mode {
        case Good => GoodStep(net, parts[n - 1], n, |parts|);
        case Rooted => RootedStep(net, parts[n - 1], n, |parts|);
        case Astray =>
          if ret == [""] + net.down {
            AstrayRootedStep(net, parts[n - 1], n, |parts|);
          } else {
            var j: nat :| j < net.ups && ret == Dots(j) + net.down;
            AstrayDotsStep(net, j, parts[n - 1], n, |parts|);
          }
      }
    }
  }

  // ---- When relative mode preserves meaning -----------------------------------------------------

  /** Where a joined path leads from `start`: parts that begin with an empty one, and go on, make
      an absolute path. */
  function Goto(start: seq<string>, parts: seq<string>): seq<string> {
    if |parts| > 1 && parts[0] == "" then Walk([], parts) else Walk(start, parts)
  }

  /** Some empty part, not the last one, comes when the path so far leads nowhere. */
  ghost predicate EmptyAtOrigin(parts: seq<string>) {
    exists i :: 0 <= i < |parts| - 1 && parts[i] == "" && NetOf(parts, i) == Net(0, [])
  }

  lemma {:induction false} ModeMeaning(parts: seq<string>, n: nat)
    requires n <= |parts|
    ensures ModeOf(parts, n) == Good
       <==> !(exists i :: 0 <= i < n && i < |parts| - 1 && parts[i] == "" && NetOf(parts, i) == Net(0, []))
    ensures ModeOf(parts, n) == Astray ==> NetOf(parts, n).ups > 0
  {
    if n > 0 {
      ModeMeaning(parts, n - 1);
    }
  }

  lemma WalkDots(dir: seq<string>, j: nat, down: seq<string>)
    requires AllNames(down)
    ensures Walk(dir, Dots(j) + down) == Climb(dir, j) + down
  {
    WalkOnlyDots(dir, j);
    WalkAppend(dir, Dots(j), down);
    WalkOnNames(Climb(dir, j), down);
  }

  lemma {:induction false} WalkOnlyDots(dir: seq<string>, j: nat)
    ensures Walk(dir, Dots(j)) == Climb(dir, j)
  {
    if j == 0 {
      assert Dots(0) == [];
    } else {
      WalkOnlyDots(dir, j - 1);
      DotsInit(j);
      ClimbOnce(dir, j - 1);
    }
  }

  lemma DotsInit(j: nat)
    requires j > 0
    ensures |Dots(j)| == j && Dots(j)[..j - 1] == Dots(j - 1) && Dots(j)[j - 1] == ".."
  {
  }

  lemma ClimbOnce(dir: seq<string>, j: nat)
    ensures WalkStep(Climb(dir, j), "..") == Climb(dir, j + 1)
  {
  }

  lemma WalkRooted(dir: seq<string>, down: seq<string>)
    requires AllNames(down)
    ensures Walk(dir, [""] + down) == dir + down
  {
    WalkAppend(dir, [""], down);
    assert Walk(dir, [""][..0]) == dir;
    WalkOnNames(dir, down);
  }

  /** The result of relative mode, read as a path: so many dots and names, ... */
  lemma GotoDots(start: seq<string>, j: nat, down: seq<string>)
    requires AllNames(down)
    ensures Goto(start, Dots(j) + down) == Climb(start, j) + down
  {
    WalkDots(start, j, down);
    var ret := Dots(j) + down;
    if ret != [] {
      assert ret[0] == if j > 0 then Dots(j)[0] else down[0];
      assert j == 0 ==> down[0] in down;
    }
  }

  /** ... or an absolute path, or an empty string. */
  lemma GotoRooted(start: seq<string>, down: seq<string>)
    requires AllNames(down)
    ensures Goto(start, [""] + down) == if down == [] then start else down
  {
    WalkRooted(start, down);
    WalkRooted([], down);
    assert [] + down == down && start + [] == start;
  }

  lemma GotoParts(start: seq<string>, parts: seq<string>)
    requires |parts| <= 1 || parts[0] != ""
    ensures Goto(start, parts) == Climb(start, NetOf(parts, |parts|).ups) + NetOf(parts, |parts|).down
    ensures Tracks(Normalize(parts, false), NetOf(parts, |parts|), ModeOf(parts, |parts|))
  {
    RelativeTo(parts, |parts|);
    WalkIsNet(start, parts, |parts|);
    assert parts[..|parts|] == parts;
  }

  function Copies(n: nat): seq<string> {
    seq(n, _ => "x")
  }

  /** Relative mode, on the parts of a relative path, leads every directory where the path led it
      if and only if no inner empty part comes at the origin, or the whole path leads nowhere. */
  lemma RelativeFaithfulIff(parts: seq<string>)
    requires |parts| <= 1 || parts[0] != ""
    ensures (forall start :: Goto(start, Normalize(parts, false)) == Goto(start, parts))
       <==> (EmptyAtOrigin(parts) ==> NetOf(parts, |parts|) == Net(0, []))
  {
    ModeMeaning(parts, |parts|);
    var net, ret := NetOf(parts, |parts|), Normalize(parts, false);
    if EmptyAtOrigin(parts) && net != Net(0, []) {
      GoesAstray(parts);
    } else {
      forall start
        ensures Goto(start, ret) == Goto(start, parts)
      {
        GotoParts(start, parts);
        GotoDots(start, net.ups, net.down);
        GotoRooted(start, net.down);
        assert start + [] == start;
      }
    }
  }

  lemma RootedDiffers(start: seq<string>, ups: nat, down: seq<string>)
    requires AllNames(down) && |start| == ups + 1 && (ups > 0 || down != [])
    ensures |Goto(start, [""] + down)| != 1 + |down|
  {
    GotoRooted(start, down);
  }

  lemma DotsDiffer(start: seq<string>, ups: nat, j: nat, down: seq<string>)
    requires AllNames(down) && |start| == ups + 1 && j < ups
    ensures |Goto(start, Dots(j) + down)| != 1 + |down|
  {
    GotoDots(start, j, down);
    assert |Climb(start, j)| == ups + 1 - j;
  }

  lemma NetArrives(start: seq<string>, parts: seq<string>)
    requires |parts| <= 1 || parts[0] != ""
    requires |start| == NetOf(parts, |parts|).ups + 1
    ensures |Goto(start, parts)| == 1 + |NetOf(parts, |parts|).down|
  {
    GotoParts(start, parts);
    assert |Climb(start, NetOf(parts, |parts|).ups)| == 1;
  }

  /** A start that tells the two apart: one level deeper than the path climbs. */
  lemma GoesAstray(parts: seq<string>)
    requires |parts| <= 1 || parts[0] != ""
    requires ModeOf(parts, |parts|) != Good && NetOf(parts, |parts|) != Net(0, [])
    ensures var start := Copies(NetOf(parts, |parts|).ups + 1);
            Goto(start, Normalize(parts, false)) != Goto(start, parts)
  {
    var net, ret := NetOf(parts, |parts|), Normalize(parts, false);
    var start := Copies(net.ups + 1);
    RelativeTo(parts, |parts|);
    NetArrives(start, parts);
    if ret == [""] + net.down {
      RootedDiffers(start, net.ups, net.down);
    } else {
      var j: nat :| j < net.ups && ret == Dots(j) + net.down;
      DotsDiffer(start, net.ups, j, net.down);
    }
  }

  /** "a/..//../b" is normalised to "b", not to "../b". */
  lemma EmptyPartLosesALevel()
    ensures Normalize(["a", "..", "", "..", "b"], false) == ["b"]
    ensures Walk(["x", "y"], ["a", "..", "", "..", "b"]) == ["x", "b"] && Walk(["x", "y"], ["b"]) == ["x", "y", "b"]
  {
    var p := ["a", "..", "", "..", "b"];
    LosesLevelNormal(p);
    assert NetOf(p, 1) == Net(0, ["a"]);
    assert NetOf(p, 2) == Net(0, []);
    assert NetOf(p, 4) == Net(1, []);
    LosesLevelWalk(p);
  }

  lemma LosesLevelNormal(p: seq<string>)
    requires p == ["a", "..", "", "..", "b"]
    ensures Normalize(p, false) == ["b"]
  {
    LosesLevelSteps();
    assert NormTo(p, false, 1) == NormStep(NormTo(p, false, 0), "a", false, 1, 5);
    assert NormTo(p, false, 2) == NormStep(NormTo(p, false, 1), "..", false, 2, 5);
    assert NormTo(p, false, 3) == NormStep(NormTo(p, false, 2), "", false, 3, 5);
    assert NormTo(p, false, 4) == NormStep(NormTo(p, false, 3), "..", false, 4, 5);
  }

  lemma LosesLevelSteps()
    ensures NormStep([], "a", false, 1, 5) == ["a"] && NormStep(["a"], "..", false, 2, 5) == []
    ensures NormStep([], "", false, 3, 5) == [""] && NormStep([""], "..", false, 4, 5) == []
    ensures NormStep([], "b", false, 5, 5) == ["b"]
  {
  }

  lemma LosesLevelWalk(p: seq<string>)
    requires |p| == 5 && NetOf(p, 4) == Net(1, []) && p[4] == "b"
    ensures Walk(["x", "y"], p) == ["x", "b"] && Walk(["x", "y"], ["b"]) == ["x", "y", "b"]
  {
    var xy := ["x", "y"];
    assert NetOf(p, 5) == Net(1, ["b"]);
    NetWalk(xy, p);
    OneUp("x", "y");
    WalkOnNames(xy, ["b"]);
    assert xy + ["b"] == ["x", "y", "b"];
  }

  lemma NetWalk(dir: seq<string>, p: seq<string>)
    ensures Walk(dir, p) == Climb(dir, NetOf(p, |p|).ups) + NetOf(p, |p|).down
  {
    WalkIsNet(dir, p, |p|);
    assert p[..|p|] == p;
  }

  lemma OneUp(x: string, y: string)
    ensures Climb([x, y], 1) == [x] && [x] + ["b"] == [x, "b"]
  {
    assert [x, y][..1] == [x];
  }

  // ---- computeRelativePath and computeAbsolutePath --------------------------------------------------

  /** `isRelativePath`. */
  predicate IsRelativePath(path: string) {
    path != "" && path[0] != '/'
  }

  predicate IsAbsolutePath(path: string) {
    path != "" && !IsRelativePath(path)
  }

  function Parts(path: string): seq<string> {
    Split(path, {'/'}, false, false)
  }

  function CommonCount(a: seq<string>, b: seq<string>): (n: nat)
    ensures n <= |a| && n <= |b| && a[..n] == b[..n]
    ensures n < |a| && n < |b| ==> a[n] != b[n]
  {
    if a == [] || b == [] || a[0] != b[0] then 0 else 1 + CommonCount(a[1..], b[1..])
  }

  /** Up from `from` to where `to` branches off, then down. */
  function Between(from: seq<string>, to: seq<string>): seq<string> {
    var n := CommonCount(from, to);
    Dots(|from| - n) + to[n..]
  }

  function RelativePath(path: string, absolutePath: string): string {
    Join(Normalize(Between(Normalize(Parts(path), false), Normalize(Parts(absolutePath), true)), false), "/")
  }

  function AbsolutePath(path: string, relativePath: string, cwd: string): string {
    var base := if path == "" then cwd else path;
    Join(Normalize(Normalize(Parts(base), true) + Normalize(Parts(relativePath), false), true), "/")
  }

  method ComputeRelativePath(path: string, absolutePath: string) returns (ret: string)
    ensures ret == RelativePath(path, absolutePath)
  {
    var parts := SplitString(path, {'/'}, false, false);
    var pathParts := NormalizeParts(parts, false);
    parts := SplitString(absolutePath, {'/'}, false, false);
    var absolutePathParts := NormalizeParts(parts, true);
    var relativeParts := BuildBetween(pathParts, absolutePathParts);
    var normalized := NormalizeParts(relativeParts, false);
    ret := JoinStrings(normalized, "/");
  }

  /** The three loops of `computeRelativePath`. */
  method BuildBetween(pathParts: seq<string>, absolutePathParts: seq<string>) returns (relativeParts: seq<string>)
    ensures relativeParts == Between(pathParts, absolutePathParts)
  {
    var commonCount := CountCommon(pathParts, absolutePathParts);
    relativeParts := [];
    for i := commonCount to |pathParts|
      invariant relativeParts == Dots(i - commonCount)
    {
      relativeParts := relativeParts + [".."];
    }
    ghost var up := relativeParts;
    for i := commonCount to |absolutePathParts|
      invariant relativeParts == up + absolutePathParts[commonCount..i]
    {
      relativeParts := relativeParts + [absolutePathParts[i]];
    }
  }

  method CountCommon(a: seq<string>, b: seq<string>) returns (n: nat)
    ensures n == CommonCount(a, b)
  {
    n := 0;
    while n < |a| && n < |b| && a[n] == b[n]
      invariant n <= |a| && n <= |b|
      invariant n + CommonCount(a[n..], b[n..]) == CommonCount(a, b)
    {
      assert a[n..][1..] == a[n + 1..] && b[n..][1..] == b[n + 1..];
      n := n + 1;
    }
  }

  /** `cwd` is what getCurrentDirectory() would return. */
  method ComputeAbsolutePath(path: string, relativePath: string, cwd: string) returns (ret: string)
    ensures ret == AbsolutePath(path, relativePath, cwd)
  {
    var absolutePath := path;
    if path == "" {
      absolutePath := cwd;
    }
    var parts := SplitString(absolutePath, {'/'}, false, false);
    var absoluteParts := NormalizeParts(parts, true);
    parts := SplitString(relativePath, {'/'}, false, false);
    var relativeParts := NormalizeParts(parts, false);
    absoluteParts := absoluteParts + relativeParts;
    var normalized := NormalizeParts(absoluteParts, true);
    ret := JoinStrings(normalized, "/");
  }

  // ---- The round trip ---------------------------------------------------------------------------------

  lemma PartsOfAbsolute(path: string)
    requires IsAbsolutePath(path)
    ensures Parts(path) != [] && Parts(path)[0] == ""
  {
    assert path == "" + ['/'] + path[1..];
    SplitCons("", path[1..], '/', false);
  }

  /** Relative mode on the parts of an absolute path keeps the names, below the root or below so
      many levels up. */
  ghost predicate RootShape(ret: seq<string>, dir: seq<string>) {
    AllNames(dir) && (ret == [""] + dir || exists j: nat :: ret == Dots(j) + dir)
  }

  lemma RootShapeStep(base: seq<string>, j: nat, dir: seq<string>, part: string, index: nat, size: nat)
    requires AllNames(dir) && (base == [""] || base == Dots(j))
    ensures RootShape(NormStep(base + dir, part, false, index, size), WalkStep(dir, part))
  {
    if dir != [] || IsName(part) || part == "." {
      if base + dir != [] || part != "" {
        StackStep(base, dir, part, index, size);
      }
    } else {
      assert base + [] == base && [""] + [] == [""] && Dots(0) + [] == [];
      if part == ".." && base != [""] {
        assert base + [".."] == Dots(j + 1) + [];
      }
    }
  }

  lemma {:induction false} RootShapeTo(parts: seq<string>, n: nat)
    requires 1 <= n <= |parts| && parts[0] == ""
    ensures |parts| > 1 ==> RootShape(NormTo(parts, false, n), Walk([], parts[..n]))
  {
    assert parts[..n][..n - 1] == parts[..n - 1];
    if n == 1 {
      assert NormTo(parts, false, 0) == [] && Walk([], parts[..0]) == [] && [""] + [] == [""];
    } else {
      RootShapeTo(parts, n - 1);
      var ret, dir := NormTo(parts, false, n - 1), Walk([], parts[..n - 1]);
      if ret == [""] + dir {
        RootShapeStep([""], 0, dir, parts[n - 1], n, |parts|);
      } else {
        var j: nat :| ret == Dots(j) + dir;
        RootShapeStep(Dots(j), j, dir, parts[n - 1], n, |parts|);
      }
    }
  }

  /** Parts whose dots all come first. */
  ghost predicate DotsFirst(parts: seq<string>, ups: nat) {
    ups <= |parts| && parts[..ups] == Dots(ups) && forall i | ups <= i < |parts| :: parts[i] != ".."
  }

  lemma {:induction false} DotsFirstMode(parts: seq<string>, ups: nat, n: nat)
    requires DotsFirst(parts, ups) && n <= |parts|
    ensures ModeOf(parts, n) != Astray
    ensures n <= ups ==> NetOf(parts, n) == Net(n, []) && ModeOf(parts, n) == Good
  {
    if n > 0 {
      DotsFirstMode(parts, ups, n - 1);
      assert n <= ups ==> parts[n - 1] == parts[..ups][n - 1];
    }
  }

  /** Unless it goes astray, relative mode keeps the walk. */
  lemma NotAstrayWalk(parts: seq<string>, dir: seq<string>)
    requires ModeOf(parts, |parts|) != Astray
    ensures Walk(dir, Normalize(parts, false)) == Walk(dir, parts)
  {
    RelativeTo(parts, |parts|);
    WalkIsNet(dir, parts, |parts|);
    assert parts[..|parts|] == parts;
    var net, ret := NetOf(parts, |parts|), Normalize(parts, false);
    if ModeOf(parts, |parts|) == Good {
      assert ret == Dots(net.ups) + net.down;
      WalkDots(dir, net.ups, net.down);
    } else {
      assert ret == [""] + net.down && Climb(dir, 0) == dir;
      WalkRooted(dir, net.down);
    }
  }

  /** Relative mode keeps the dots in front. */
  lemma DotsFirstWalk(parts: seq<string>, ups: nat, dir: seq<string>) returns (ups': nat)
    requires DotsFirst(parts, ups)
    ensures Walk(dir, Normalize(parts, false)) == Walk(dir, parts)
    ensures DotsFirst(Normalize(parts, false), ups')
  {
    DotsFirstMode(parts, ups, |parts|);
    NotAstrayWalk(parts, dir);
    RelativeTo(parts, |parts|);
    var net := NetOf(parts, |parts|);
    NoDots(net.down);
    if ModeOf(parts, |parts|) == Good {
      ups' := net.ups;
      DotsThen(net.ups, net.down);
    } else {
      ups' := 0;
      assert Dots(0) + ([""] + net.down) == [""] + net.down;
      DotsThen(0, [""] + net.down);
    }
  }

  lemma UpAndDown(dir: seq<string>, target: seq<string>, m: nat)
    requires AllNames(target) && m <= |dir| && m <= |target| && dir[..m] == target[..m]
    ensures Walk(dir, Dots(|dir| - m) + target[m..]) == target
  {
    SuffixNames(target, m);
    WalkDots(dir, |dir| - m, target[m..]);
    ClimbTo(dir, m);
  }

  lemma SuffixNames(target: seq<string>, m: nat)
    requires AllNames(target) && m <= |target|
    ensures AllNames(target[m..]) && target[..m] + target[m..] == target
  {
    assert forall p | p in target[m..] :: p in target;
  }

  lemma ClimbTo(dir: seq<string>, m: nat)
    requires m <= |dir|
    ensures Climb(dir, |dir| - m) == dir[..m]
  {
  }

  /** A common first part makes no difference. */
  lemma BetweenCons(x: string, a: seq<string>, b: seq<string>)
    ensures Between([x] + a, [x] + b) == Between(a, b)
  {
    var p, q, m := [x] + a, [x] + b, CommonCount(a, b);
    assert p[1..] == a && q[1..] == b;
    assert CommonCount(p, q) == 1 + m;
    assert q[1 + m..] == b[m..];
  }

  lemma BetweenRooted(dir: seq<string>, target: seq<string>)
    requires AllNames(dir) && AllNames(target)
    ensures Walk(dir, Between([""] + dir, AbsForm(target))) == target
  {
    if target == [] {
      assert AbsForm(target) == [""] + [""];
      BetweenCons("", dir, [""]);
      assert dir != [] ==> dir[0] in dir;
      NothingCommon(dir, [""]);
      ToTheTop(dir);
    } else {
      BetweenCons("", dir, target);
      UpAndDown(dir, target, CommonCount(dir, target));
    }
  }

  lemma ToTheTop(dir: seq<string>)
    ensures Walk(dir, Dots(|dir|) + [""]) == []
  {
    WalkAppend(dir, Dots(|dir|), [""]);
    WalkOnlyDots(dir, |dir|);
    WalkRooted([], []);
    assert [""] + [] == [""];
  }

  lemma NothingCommon(base: seq<string>, abs: seq<string>)
    requires base != [] && abs != [] ==> base[0] != abs[0]
    ensures Between(base, abs) == Dots(|base|) + abs
  {
    var n := CommonCount(base, abs);
    assert n == 0;
    DropNone(abs);
  }

  lemma DropNone(s: seq<string>)
    ensures s[0..] == s
  {
  }

  lemma BetweenDots(j: nat, dir: seq<string>, target: seq<string>)
    requires AllNames(dir) && AllNames(target)
    ensures Walk(dir, Between(Dots(j) + dir, AbsForm(target))) == target
  {
    var base, abs := Dots(j) + dir, AbsForm(target);
    if j > 0 {
      assert base[0] == Dots(j)[0];
    } else if dir != [] {
      assert base[0] == dir[0] && dir[0] in dir;
    }
    NothingCommon(base, abs);
    OverTheTop(dir, |base|, target);
  }

  lemma OverTheTop(dir: seq<string>, n: nat, target: seq<string>)
    requires AllNames(target) && n >= |dir|
    ensures Walk(dir, Dots(n) + AbsForm(target)) == target
  {
    WalkAppend(dir, Dots(n), AbsForm(target));
    WalkOnlyDots(dir, n);
    WalkAbsForm(target);
  }

  lemma BetweenDotsFirst(base: seq<string>, target: seq<string>)
    requires AllNames(target)
    ensures DotsFirst(Between(base, AbsForm(target)), |base| - CommonCount(base, AbsForm(target)))
  {
    var abs := AbsForm(target);
    var n := CommonCount(base, abs);
    NoDots(target);
    NoDotsAfter(abs, n);
    DotsThen(|base| - n, abs[n..]);
  }

  ghost predicate NoneUp(parts: seq<string>) {
    forall i | 0 <= i < |parts| :: parts[i] != ".."
  }

  lemma NoDotsAfter(s: seq<string>, n: nat)
    requires n <= |s| && NoneUp(s)
    ensures NoneUp(s[n..])
  {
  }

  lemma NoDots(target: seq<string>)
    requires AllNames(target)
    ensures NoneUp(AbsForm(target)) && NoneUp(target) && NoneUp([""] + target)
  {
    assert forall i | 0 <= i < |target| :: target[i] in target;
  }

  lemma DotsThen(ups: nat, rest: seq<string>)
    requires NoneUp(rest)
    ensures DotsFirst(Dots(ups) + rest, ups)
  {
  }

  ghost predicate SlashFree(parts: seq<string>) {
    AllFree(parts, '/')
  }

  lemma {:induction false} NormSlashFree(parts: seq<string>, absolute: bool, n: nat)
    requires n <= |parts| && SlashFree(parts)
    ensures SlashFree(NormTo(parts, absolute, n))
  {
    if n > 0 {
      NormSlashFree(parts, absolute, n - 1);
    }
  }

  /** What a second split and normalisation does to a joined relative path: nothing that matters. */
  lemma RejoinWalk(parts: seq<string>, ups: nat, dir: seq<string>)
    requires DotsFirst(parts, ups) && SlashFree(parts)
    ensures Walk(dir, Normalize(Parts(Join(parts, "/")), false)) == Walk(dir, parts)
  {
    if parts == [] {
      SplitOne("", '/', false);
      assert NormTo([""], false, 1) == NormStep(NormTo([""], false, 0), "", false, 1, 1);
    } else {
      SplitInvertsJoin(parts, '/');
      var ups' := DotsFirstWalk(parts, ups, dir);
    }
  }

  lemma BetweenSlashFree(base: seq<string>, abs: seq<string>)
    requires SlashFree(abs)
    ensures SlashFree(Between(base, abs))
  {
    var n := CommonCount(base, abs);
    var b := Between(base, abs);
    assert forall i | 0 <= i < |b| :: b[i] == ".." || b[i] in abs;
  }

  /** The relative path from `path` to `absolutePath`, split again, leads from one to the other. */
  lemma RelativePathLeads(path: string, absolutePath: string)
    requires IsAbsolutePath(path) && IsAbsolutePath(absolutePath)
    ensures Walk(Walk([], Parts(path)), Normalize(Parts(RelativePath(path, absolutePath)), false))
         == Walk([], Parts(absolutePath))
  {
    var from, to := Parts(path), Parts(absolutePath);
    PartsOfAbsolute(path);
    PartsOfAbsolute(absolutePath);
    JoinInvertsSplit(absolutePath, '/', 0);
    NormSlashFree(to, true, |to|);
    AbsoluteIsResolution(to);
    var base, dir, target := Normalize(from, false), Walk([], from), Walk([], to);
    BaseShape(path);
    if base == [""] + dir {
      BetweenRooted(dir, target);
    } else {
      var j: nat :| base == Dots(j) + dir;
      BetweenDots(j, dir, target);
    }
    var between := Between(base, AbsForm(target));
    BetweenDotsFirst(base, target);
    BetweenSlashFree(base, AbsForm(target));
    NormSlashFree(between, false, |between|);
    var ups := DotsFirstWalk(between, |base| - CommonCount(base, AbsForm(target)), dir);
    RejoinWalk(Normalize(between, false), ups, dir);
  }

  // ---- The relative path is the shortest ---------------------------------------

  /** Parts that hold no empty part nor ".", and no ".." behind a name, are normal already. */
  lemma {:induction false} NormalAlready(parts: seq<string>, ups: nat, n: nat)
    requires ups <= |parts| && n <= |parts|
    requires forall i | 0 <= i < n :: if i < ups then parts[i] == ".." else IsName(parts[i])
    ensures NormTo(parts, false, n) == parts[..n]
  {
    if n > 0 {
      NormalAlready(parts, ups, n - 1);
      assert parts[..n] == parts[..n - 1] + [parts[n - 1]];
    }
  }

  lemma NormalDots(ups: nat, names: seq<string>)
    requires AllNames(names)
    ensures Normalize(Dots(ups) + names, false) == Dots(ups) + names
    ensures names == [] ==> Normalize(Dots(ups) + [""], false) == Dots(ups)
  {
    var parts, top := Dots(ups) + names, Dots(ups) + [""];
    assert forall i | 0 <= i < |names| :: names[i] in names;
    NormalAlready(parts, ups, |parts|);
    assert parts[..|parts|] == parts;
    NormalAlready(top, ups, ups);
    assert top[..ups] == Dots(ups);
  }

  /** A base that does not climb past the root names its directory. */
  lemma NoClimb(path: string)
    requires IsAbsolutePath(path) && NetOf(Parts(path), |Parts(path)|).ups == 0
    ensures Normalize(Parts(path), false) == [""] + Walk([], Parts(path))
    ensures AllNames(Walk([], Parts(path)))
  {
    var from := Parts(path);
    PartsOfAbsolute(path);
    JoinInvertsSplit(path, '/', 0);
    assert |from| > 1 && NetOf(from, 0) == Net(0, []);
    ModeMeaning(from, |from|);
    RelativeTo(from, |from|);
    WalkIsNet([], from, |from|);
    assert from[..|from|] == from && [] + NetOf(from, |from|).down == NetOf(from, |from|).down;
  }

  lemma ToTheRoot(dir: seq<string>)
    requires AllNames(dir)
    ensures Normalize(Between([""] + dir, AbsForm([])), false) == Dots(|dir|)
  {
    assert AbsForm([]) == [""] + [""];
    BetweenCons("", dir, [""]);
    assert dir != [] ==> dir[0] in dir;
    NothingCommon(dir, [""]);
    NormalDots(|dir|, []);
  }

  lemma NormalBetween(dir: seq<string>, target: seq<string>)
    requires AllNames(target)
    ensures Normalize(Between(dir, target), false) == Between(dir, target)
  {
    SuffixNames(target, CommonCount(dir, target));
    NormalDots(|dir| - CommonCount(dir, target), target[CommonCount(dir, target)..]);
  }

  /** Up to the deepest directory that holds both, and down from there. */
  function Shortest(dir: seq<string>, target: seq<string>): seq<string> {
    var m := CommonCount(dir, target);
    Dots(|dir| - m) + target[m..]
  }

  lemma ShortestParts(dir: seq<string>, target: seq<string>)
    requires AllNames(dir) && AllNames(target)
    ensures Normalize(Between([""] + dir, AbsForm(target)), false) == Shortest(dir, target)
  {
    if target == [] {
      ToTheRoot(dir);
      assert Shortest(dir, []) == Dots(|dir|) + [];
    } else {
      BetweenCons("", dir, target);
      NormalBetween(dir, target);
    }
  }

  lemma RelativePathIsShortest(path: string, absolutePath: string)
    requires IsAbsolutePath(path) && IsAbsolutePath(absolutePath) && NetOf(Parts(path), |Parts(path)|).ups == 0
    ensures RelativePath(path, absolutePath) == Join(Shortest(Walk([], Parts(path)), Walk([], Parts(absolutePath))), "/")
  {
    NoClimb(path);
    PartsOfAbsolute(absolutePath);
    AbsoluteIsResolution(Parts(absolutePath));
    ShortestParts(Walk([], Parts(path)), Walk([], Parts(absolutePath)));
  }

  lemma BaseShape(path: string)
    requires IsAbsolutePath(path)
    ensures RootShape(Normalize(Parts(path), false), Walk([], Parts(path)))
  {
    var from := Parts(path);
    PartsOfAbsolute(path);
    JoinInvertsSplit(path, '/', 0);
    assert |from| > 1;
    RootShapeTo(from, |from|);
    assert from[..|from|] == from;
  }

  /** Absolute mode on a base followed by relative parts walks on from the base. */
  lemma Resolves(path: string, rel: seq<string>)
    requires IsAbsolutePath(path)
    ensures Normalize(Normalize(Parts(path), true) + rel, true) == AbsForm(Walk(Walk([], Parts(path)), rel))
  {
    var from := Parts(path);
    PartsOfAbsolute(path);
    AbsoluteIsResolution(from);
    WalkAbsForm(Walk([], from));
    WalkAppend([], Normalize(from, true), rel);
    AbsoluteIsResolution(Normalize(from, true) + rel);
  }

  /** Resolving the relative path against its base gives the normalised target back, for every
      base and target that start with a slash. */
  lemma RoundTrip(path: string, absolutePath: string, cwd: string)
    requires IsAbsolutePath(path) && IsAbsolutePath(absolutePath)
    ensures AbsolutePath(path, RelativePath(path, absolutePath), cwd) == Join(Normalize(Parts(absolutePath), true), "/")
  {
    RelativePathLeads(path, absolutePath);
    Resolves(path, Normalize(Parts(RelativePath(path, absolutePath)), false));
    PartsOfAbsolute(absolutePath);
    AbsoluteIsResolution(Parts(absolutePath));
  }

  /** The path of the directory that `relativePath` leads to from the base. */
  function Resolved(path: string, relativePath: string): string {
    Join(AbsForm(Walk(Walk([], Parts(path)), Parts(relativePath))), "/")
  }

  /** For any relative path on which relative mode does not go astray, the result names the
      directory reached from the base by following the path. */
  lemma AbsolutePathResolves(path: string, relativePath: string, cwd: string)
    requires IsAbsolutePath(path)
    requires ModeOf(Parts(relativePath), |Parts(relativePath)|) != Astray
    ensures AbsolutePath(path, relativePath, cwd) == Resolved(path, relativePath)
  {
    NotAstrayWalk(Parts(relativePath), Walk([], Parts(path)));
    Resolves(path, Normalize(Parts(relativePath), false));
  }

  /** An empty base stands for the current directory. */
  lemma EmptyBaseIsCwd(relativePath: string, cwd: string)
    requires IsAbsolutePath(cwd)
    requires ModeOf(Parts(relativePath), |Parts(relativePath)|) != Astray
    ensures AbsolutePath("", relativePath, cwd) == Resolved(cwd, relativePath)
  {
    AbsolutePathResolves(cwd, relativePath, cwd);
  }

  lemma AstrayIff(parts: seq<string>)
    ensures ModeOf(parts, |parts|) == Astray <==> EmptyAtOrigin(parts) && NetOf(parts, |parts|).ups > 0
  {
    ModeMeaning(parts, |parts|);
    RelativeTo(parts, |parts|);
  }

  /** Gone astray, relative mode leads a base that is one level deeper than the path climbs to a
      directory of another depth. */
  lemma AstrayDepth(parts: seq<string>, start: seq<string>)
    requires ModeOf(parts, |parts|) == Astray && |start| == NetOf(parts, |parts|).ups + 1
    ensures |Walk(start, Normalize(parts, false))| != |Walk(start, parts)|
  {
    var net, ret := NetOf(parts, |parts|), Normalize(parts, false);
    RelativeTo(parts, |parts|);
    NetWalk(start, parts);
    assert |Climb(start, net.ups)| == 1;
    if ret == [""] + net.down {
      WalkRooted(start, net.down);
    } else {
      var j: nat :| j < net.ups && ret == Dots(j) + net.down;
      WalkDots(start, j, net.down);
      assert |Climb(start, j)| == net.ups + 1 - j;
    }
  }

  lemma {:induction false} WalkSlashFree(dir: seq<string>, parts: seq<string>)
    requires SlashFree(dir) && SlashFree(parts)
    ensures SlashFree(Walk(dir, parts))
    decreases |parts|
  {
    if parts != [] {
      var last := parts[|parts| - 1];
      assert last in parts && SlashFree(parts[..|parts| - 1]);
      WalkSlashFree(dir, parts[..|parts| - 1]);
    }
  }

  /** Directories of different depth have different paths. */
  lemma DepthShows(dir: seq<string>, other: seq<string>)
    requires SlashFree(dir) && SlashFree(other) && |dir| != |other|
    requires AllNames(dir) && AllNames(other)
    ensures Join(AbsForm(dir), "/") != Join(AbsForm(other), "/")
  {
    SplitInvertsJoin(AbsForm(dir), '/');
    SplitInvertsJoin(AbsForm(other), '/');
    AbsFormInjective(dir, other);
  }

  lemma AbsFormInjective(dir: seq<string>, other: seq<string>)
    requires AllNames(dir) && AllNames(other) && |dir| != |other|
    ensures AbsForm(dir) != AbsForm(other)
  {
    WalkAbsForm(dir);
    WalkAbsForm(other);
  }

  /** A base of any depth. */
  function DeepBase(n: nat): string {
    "/" + Join(Copies(n), "/")
  }

  lemma DeepBaseLeads(n: nat)
    requires n > 0
    ensures IsAbsolutePath(DeepBase(n)) && Walk([], Parts(DeepBase(n))) == Copies(n)
    ensures AllNames(Copies(n)) && SlashFree(Copies(n))
  {
    var rest := Join(Copies(n), "/");
    assert DeepBase(n) == "" + ['/'] + rest;
    SplitCons("", rest, '/', false);
    SplitInvertsJoin(Copies(n), '/');
    assert Parts(DeepBase(n)) == AbsForm(Copies(n));
    WalkAbsForm(Copies(n));
  }

  lemma AstrayMisses(relativePath: string, cwd: string) returns (path: string)
    requires ModeOf(Parts(relativePath), |Parts(relativePath)|) == Astray
    ensures IsAbsolutePath(path) && AbsolutePath(path, relativePath, cwd) != Resolved(path, relativePath)
  {
    var parts := Parts(relativePath);
    var n := NetOf(parts, |parts|).ups + 1;
    path := DeepBase(n);
    DeepBaseLeads(n);
    Resolves(path, Normalize(parts, false));
    AstrayDepth(parts, Copies(n));
    JoinInvertsSplit(relativePath, '/', 0);
    NormSlashFree(parts, false, |parts|);
    WalkSlashFree(Copies(n), parts);
    WalkSlashFree(Copies(n), Normalize(parts, false));
    WalkNames(Copies(n), parts);
    WalkNames(Copies(n), Normalize(parts, false));
    DepthShows(Walk(Copies(n), Normalize(parts, false)), Walk(Copies(n), parts));
  }

  /** A relative path resolves correctly against every absolute base, exactly if it does not both
      hold an inner empty part at the origin and climb above its start. */
  lemma AbsolutePathIff(relativePath: string, cwd: string)
    ensures (forall path | IsAbsolutePath(path) :: AbsolutePath(path, relativePath, cwd) == Resolved(path, relativePath))
       <==> !(EmptyAtOrigin(Parts(relativePath)) && NetOf(Parts(relativePath), |Parts(relativePath)|).ups > 0)
  {
    AstrayIff(Parts(relativePath));
    if ModeOf(Parts(relativePath), |Parts(relativePath)|) == Astray {
      var path := AstrayMisses(relativePath, cwd);
    } else {
      forall path | IsAbsolutePath(path)
        ensures AbsolutePath(path, relativePath, cwd) == Resolved(path, relativePath)
      {
        AbsolutePathResolves(path, relativePath, cwd);
      }
    }
  }
}
