/** Lexical paths, as path/filepath treats them on a Unix host.  A cleaned path is the list
    of its names. */
module Paths {
  import opened Strings

  type Path = seq<string>

  /** What one more component does to the names so far; a rooted path has nothing above it. */
  function Push(names: Path, c: string, rooted: bool): Path {
    if c == "" || c == "." then names
    else if c == ".." then
      if names != [] && names[|names| - 1] != ".." then names[..|names| - 1]
      else if rooted then names
      else names + [".."]
    else names + [c]
  }

  function Walk(names: Path, comps: seq<string>, rooted: bool): Path
    decreases |comps|
  {
    if comps == [] then names else Walk(Push(names, comps[0], rooted), comps[1..], rooted)
  }

  function Components(p: string): seq<string> { Split(p, '/') }

  /** filepath.Clean of a relative path; the empty list is ".". */
  function Rel(p: string): Path { Walk([], Components(p), false) }

  /** filepath.Join of a cleaned absolute directory and any path. */
  function Under(root: Path, p: string): Path { Walk(root, Components(p), true) }

  predicate Climbs(names: Path) { names != [] && names[0] == ".." }

  /** filepath.IsLocal. */
  predicate IsLocal(p: string) {
    p != "" && p[0] != '/' && !Climbs(Rel(p))
  }

  lemma {:induction false} ClimbingStays(names: Path, comps: seq<string>)
    requires Climbs(names)
    ensures Climbs(Walk(names, comps, false))
    decreases |comps|
  {
    if comps != [] {
      ClimbingStays(Push(names, comps[0], false), comps[1..]);
    }
  }

  lemma {:induction false} WalkAlike(root: Path, names: Path, comps: seq<string>)
    requires ".." !in names && !Climbs(Walk(names, comps, false))
    ensures Walk(root + names, comps, true) == root + Walk(names, comps, false)
    ensures ".." !in Walk(names, comps, false)
    decreases |comps|
  {
    if comps != [] {
      var c := comps[0];
      var next := Push(names, c, false);
      if c == ".." && names == [] {
        assert next == [".."];
        ClimbingStays(next, comps[1..]);
        assert false;
      } else {
        assert Push(root + names, c, true) == root + next by {
          if c == ".." { assert (root + names)[..|root + names| - 1] == root + names[..|names| - 1]; }
          else { assert root + (names + [c]) == (root + names) + [c]; }
        }
        WalkAlike(root, next, comps[1..]);
      }
    }
  }

  lemma {:induction false} RootedNeverClimbs(names: Path, comps: seq<string>)
    requires ".." !in names
    ensures ".." !in Walk(names, comps, true)
    decreases |comps|
  {
    if comps != [] { RootedNeverClimbs(Push(names, comps[0], true), comps[1..]); }
  }

  /** A path that does not climb lands below the directory it is joined to, at its own
      cleaned name; one that climbs never lands at root + its cleaned name. */
  lemma {:induction false} JoinBelow(root: Path, p: string)
    requires ".." !in root
    ensures Under(root, p) == root + Rel(p) <==> !Climbs(Rel(p))
    ensures !Climbs(Rel(p)) ==> ".." !in Rel(p)
  {
    if !Climbs(Rel(p)) {
      assert root + [] == root;
      WalkAlike(root, [], Components(p));
    } else {
      RootedNeverClimbs(root, Components(p));
      assert (root + Rel(p))[|root|] == "..";
    }
  }

  // ------------------------------------------------------------ what local paths are

  /** How deep a path has got: each name a step down, each ".." a step up. */
  function Depth(comps: seq<string>): int {
    if comps == [] then 0 else
    var n := |comps| - 1;
    Depth(comps[..n]) + (if comps[n] == ".." then -1 else if comps[n] == "" || comps[n] == "." then 0 else 1)
  }

  lemma {:induction false} DepthFirst(c: string, rest: seq<string>)
    ensures Depth([c] + rest) == Depth([c]) + Depth(rest)
  {
    if rest == [] {
      assert [c] + rest == [c];
    } else {
      var n := |rest| - 1;
      DepthFirst(c, rest[..n]);
      assert ([c] + rest)[..n + 1] == [c] + rest[..n];
    }
  }

  /** After k components the path is above where it started. */
  predicate Dips(start: int, comps: seq<string>, k: nat) { k <= |comps| && start + Depth(comps[..k]) < 0 }

  /** From names below, a walk climbs exactly when it gets above where they start. */
  lemma {:induction false} ClimbsWhenAbove(names: Path, comps: seq<string>)
    requires ".." !in names
    ensures Climbs(Walk(names, comps, false)) <==> exists k: nat :: Dips(|names|, comps, k)
    decreases |comps|
  {
    if comps == [] {
      assert comps[..0] == [];
    } else {
      var c, rest, next := comps[0], comps[1..], Push(names, comps[0], false);
      StepDepth(names, c);
      forall k | 0 < k <= |comps| ensures Depth(comps[..k]) == Depth([c]) + Depth(rest[..k - 1]) {
        assert comps[..k] == [c] + rest[..k - 1];
        DepthFirst(c, rest[..k - 1]);
      }
      assert Depth(comps[..0]) == 0 && Depth(rest[..0]) == 0;
      if c == ".." && names == [] {
        ClimbingStays(next, rest);
        assert Dips(|names|, comps, 1);
      } else {
        ClimbsWhenAbove(next, rest);
        if k: nat :| Dips(|next|, rest, k) { assert Dips(|names|, comps, k + 1); }
        if k: nat :| Dips(|names|, comps, k) { assert Dips(|next|, rest, k - 1); }
      }
    }
  }

  lemma {:induction false} StepDepth(names: Path, c: string)
    requires ".." !in names
    ensures Depth([c]) == (if c == ".." then -1 else if c == "" || c == "." then 0 else 1)
    ensures c == ".." && names == [] ==> Push(names, c, false) == [".."]
    ensures !(c == ".." && names == []) ==>
      ".." !in Push(names, c, false) && |Push(names, c, false)| == |names| + Depth([c])
  {
    assert [c][..0] == [];
    if names != [] { assert names[|names| - 1] in names; }
  }

  /** MAIN RESULT.  A path is local exactly when it is not empty, does not start at "/", and never
      gets above where it starts. */
  lemma {:induction false} LocalExactly(p: string)
    ensures IsLocal(p) <==>
      p != "" && p[0] != '/' && forall k: nat :: !Dips(0, Split(p, '/'), k)
  {
    hide Walk, Split, Depth, Dips;
    var none: Path, comps := [], Components(p);
    ClimbsWhenAbove(none, comps);
    assert |none| == 0 && Rel(p) == Walk(none, comps, false);
    assert Climbs(Rel(p)) <==> exists k: nat :: Dips(0, comps, k);
    assert comps == Split(p, '/');
    assert (forall k: nat :: !Dips(0, Split(p, '/'), k)) <==> !Climbs(Rel(p));
    assert IsLocal(p) <==> p != "" && p[0] != '/' && !Climbs(Rel(p));
  }

  // ---------------------------------------------------- where a climbing path lands

  /** The leading ".." of a cleaned path. */
  function Ups(names: Path): nat { if Climbs(names) then 1 + Ups(names[1..]) else 0 }

  function Climb(n: nat): Path { seq(n, _ => "..") }

  /** The root without its last n names; there is nothing above "/". */
  function Ancestor(root: Path, n: nat): Path { if n <= |root| then root[..|root| - n] else [] }

  lemma {:induction false} UpsOf(n: nat, rest: Path)
    requires ".." !in rest
    ensures Ups(Climb(n) + rest) == n && (Climb(n) + rest)[n..] == rest
  {
    if n == 0 {
      assert Climb(0) + rest == rest;
    } else {
      UpsOf(n - 1, rest);
      assert (Climb(n) + rest)[1..] == Climb(n - 1) + rest;
    }
  }

  /** One component, seen from below and from the root. */
  lemma {:induction false} PushBoth(root: Path, n: nat, rest: Path, c: string) returns (m: nat, tail: Path)
    requires ".." !in root && ".." !in rest
    ensures ".." !in tail
    ensures Push(Climb(n) + rest, c, false) == Climb(m) + tail
    ensures Push(Ancestor(root, n) + rest, c, true) == Ancestor(root, m) + tail
  {
    var names, rooted := Climb(n) + rest, Ancestor(root, n) + rest;
    if c == "" || c == "." {
      m, tail := n, rest;
    } else if c != ".." {
      m, tail := n, rest + [c];
      assert names + [c] == Climb(n) + tail && rooted + [c] == Ancestor(root, n) + tail;
    } else if rest != [] {
      m, tail := n, rest[..|rest| - 1];
      assert names[..|names| - 1] == Climb(n) + tail && rooted[..|rooted| - 1] == Ancestor(root, n) + tail;
      assert names[|names| - 1] == rest[|rest| - 1] == rooted[|rooted| - 1];
    } else {
      m, tail := n + 1, [];
      assert names == Climb(n) && rooted == Ancestor(root, n);
      assert names + [".."] == Climb(n + 1) + tail;
      assert Ancestor(root, n + 1) + tail == if rooted == [] then [] else rooted[..|rooted| - 1];
    }
  }

  lemma {:induction false} WalkBoth(root: Path, n: nat, rest: Path, comps: seq<string>) returns (m: nat, tail: Path)
    requires ".." !in root && ".." !in rest
    ensures ".." !in tail
    ensures Walk(Climb(n) + rest, comps, false) == Climb(m) + tail
    ensures Walk(Ancestor(root, n) + rest, comps, true) == Ancestor(root, m) + tail
    decreases |comps|
  {
    hide Push;
    if comps == [] {
      m, tail := n, rest;
    } else {
      var k, next := PushBoth(root, n, rest, comps[0]);
      m, tail := WalkBoth(root, k, next, comps[1..]);
    }
  }

  /** MAIN RESULT.  A joined path is the root without as many names as the cleaned path climbs,
      followed by the rest of the cleaned path. */
  lemma {:induction false} JoinLands(root: Path, p: string)
    requires ".." !in root
    ensures var n := Ups(Rel(p));
            n <= |Rel(p)| && ".." !in Rel(p)[n..] && Under(root, p) == Ancestor(root, n) + Rel(p)[n..]
  {
    hide Walk, Components;
    var m, rest := WalkBoth(root, 0, [], Components(p));
    assert Climb(0) + [] == [] && Ancestor(root, 0) + [] == root;
    UpsOf(m, rest);
  }

  /** So it stays below the root exactly when the names it climbs past come right back. */
  lemma {:induction false} JoinStaysExactly(root: Path, p: string)
    requires ".." !in root
    ensures var n := Ups(Rel(p)); var kept := |Ancestor(root, n)|;
            n <= |Rel(p)| && (root <= Under(root, p) <==> root[kept..] <= Rel(p)[n..])
  {
    hide Rel, Under;
    JoinLands(root, p);
    var top := Ancestor(root, Ups(Rel(p)));
    assert root == top + root[|top|..];
    CommonStart(top, root[|top|..], Rel(p)[Ups(Rel(p))..]);
  }

  lemma {:induction false} CommonStart(top: Path, a: Path, b: Path)
    ensures top + a <= top + b <==> a <= b
  {
    if top + a <= top + b { assert a == (top + b)[..|top + a|][|top|..] == b[..|a|]; }
    if a <= b { assert top + a == (top + b)[..|top + a|]; }
  }

  /** A plain name is one directory entry: cleaning leaves it alone. */
  predicate IsName(p: string) { p != "" && p != "." && p != ".." && '/' !in p }

  lemma {:induction false} NameIsItself(p: string)
    requires IsName(p)
    ensures Rel(p) == [p]
  {
    SplitNone(p, '/');
    var comps := Components(p);
    assert comps == [p] && comps[1..] == [];
    assert Push([], p, false) == [p];
    assert Walk([], comps, false) == Walk([p], comps[1..], false);
  }
}
