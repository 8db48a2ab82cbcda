/** Staging of a request's files in a temporary directory: the files, then the code, each
    joined lexically to the input directory. */
module Workspaces {
  import opened Option
  import opened Paths
  import opened FileTrees

  const INPUT := "input"

  datatype WorkspaceFile = WorkspaceFile(path: string, content: string)

  /** The last writer of a cleaned path wins. */
  function Tree(files: seq<WorkspaceFile>): map<Path, string> {
    if files == [] then map[] else
    var n := |files| - 1;
    Tree(files[..n])[Rel(files[n].path) := files[n].content]
  }

  /** q is a directory on the way to p. */
  predicate Above(q: Path, p: Path) { q < p }

  /** No path is the input directory itself or lies below another one. */
  predicate PrefixFree(names: set<Path>) {
    [] !in names && forall a, b :: a in names && b in names ==> !Above(a, b)
  }

  predicate AllLocal(files: seq<WorkspaceFile>) { forall k :: 0 <= k < |files| ==> IsLocal(files[k].path) }

  /** What a caller can check beforehand: no path leaves the workspace, no name is both a file
      and a directory, and the code's directory is one of the files'. */
  predicate Stageable(files: seq<WorkspaceFile>, codeFilename: string) {
    && AllLocal(files)
    && PrefixFree(Tree(files).Keys + {Rel(codeFilename)})
    && HasDir(Tree(files).Keys, Rel(codeFilename))
  }

  predicate HasDir(names: set<Path>, k: Path) {
    k != [] && (|k| == 1 || exists q :: q in names && Above(Parent(k), q))
  }

  /** What is found at p when the files of m lie below root, and around them what base has. */
  ghost function At(base: FS, root: Path, m: map<Path, string>, p: Path): Option<Node> {
    if !Leads(root, p) || p == root then Lookup(base, p) else
    var r := p[|root|..];
    if r in m then Some(File(m[r]))
    else if exists k :: k in m && Above(r, k) then Some(Dir)
    else None
  }

  ghost predicate Represents(fs: FS, base: FS, root: Path, m: map<Path, string>) {
    WellFormed(fs) && forall p :: Lookup(fs, p) == At(base, root, m, p)
  }

  predicate Compatible(names: set<Path>, k: Path) {
    k != [] && forall q :: q in names ==> !Above(q, k) && !Above(k, q)
  }

  ghost predicate IsBase(base: FS, root: Path) {
    WellFormed(base) && Lookup(base, root) == Some(Dir) && root != [] && forall p :: p in base && Leads(root, p) ==> p == root
  }

  lemma {:induction false} Relative(root: Path, p: Path)
    requires Leads(root, p)
    ensures p == root + p[|root|..]
  {
  }

  /** What adding the file k means at every path. */
  lemma {:induction false} AtAfterPut(base: FS, root: Path, m: map<Path, string>, k: Path, content: string, p: Path)
    requires IsBase(base, root) && Compatible(m.Keys, k)
    ensures At(base, root, m[k := content], p) ==
      if p == root + k then Some(File(content)) else if Leads(p, root + k) then Some(Dir) else At(base, root, m, p)
  {
    if Leads(root, p) && p != root {
      var r := p[|root|..];
      Relative(root, p);
      assert p == root + k <==> r == k by { assert p == root + k ==> r == k; }
      assert Leads(p, root + k) <==> Leads(r, k) by { assert |r| <= |k| ==> (root + k)[..|p|] == root + k[..|r|]; }
      if Leads(r, k) && r != k {
        assert Above(r, k) && k in m[k := content];
        assert r !in m;
      } else if r != k {
        forall q ensures q in m[k := content] && Above(r, q) ==> q in m && Above(r, q) {}
        assert forall q :: q in m ==> q in m[k := content];
      }
    } else if Leads(p, root + k) && p != root + k {
      assert |p| <= |root| ==> p == (root + k)[..|p|] == root[..|p|];
      if |p| > |root| { assert Leads(root, root + k); OnOneLine(root, p, root + k); }
      if p != root { LeadsToDirs(base, p, root); }
    } else {
      assert Leads(root, root + k);
    }
  }

  /** Adding one file succeeds exactly when its path fits, and gives the tree with it. */
  lemma {:induction false} PutKeeps(fs: FS, base: FS, root: Path, m: map<Path, string>, k: Path, content: string)
    requires IsBase(base, root) && Represents(fs, base, root, m) && [] !in m
    ensures PutFile(fs, root + k, content).Some? <==> Compatible(m.Keys, k)
    ensures Compatible(m.Keys, k) ==> Represents(PutFile(fs, root + k, content).value, base, root, m[k := content])
  {
    hide WellFormed, PutFile, At;
    PutFilePuts(fs, root + k, content);
    FitsExactly(fs, base, root, m, k);
    if Compatible(m.Keys, k) {
      var g := PutFile(fs, root + k, content).value;
      forall p ensures Lookup(g, p) == At(base, root, m[k := content], p) { AtAfterPut(base, root, m, k, content, p); }
    }
  }

  lemma {:induction false} LeadsBelow(root: Path, q: Path, k: Path)
    requires Above(q, k)
    ensures Leads(root + q, root + k) && root + q != root + k
  {
    assert (root + k)[..|root + q|] == root + k[..|q|];
  }

  lemma {:induction false} FileThere(fs: FS, base: FS, root: Path, m: map<Path, string>, k: Path)
    requires Represents(fs, base, root, m) && k in m && k != []
    ensures Lookup(fs, root + k) == Some(File(m[k]))
  {
  }

  /** The path fits exactly when nothing of the tree is in the way. */
  lemma {:induction false} FitsExactly(fs: FS, base: FS, root: Path, m: map<Path, string>, k: Path)
    requires IsBase(base, root) && Represents(fs, base, root, m) && [] !in m
    ensures Compatible(m.Keys, k) <==>
      && Lookup(fs, root + k) != Some(Dir)
      && (forall q :: Leads(q, root + k) && q != root + k && q in fs ==> fs[q].Dir?)
  {
    hide At, WellFormed;
    if Compatible(m.Keys, k) {
      FitsWhenCompatible(fs, base, root, m, k);
    } else if k == [] {
      RootIsDir(fs, base, root, m);
      assert root + k == root;
    } else {
      var q :| q in m.Keys && (Above(q, k) || Above(k, q));
      FileThere(fs, base, root, m, q);
      if Above(q, k) {
        LeadsBelow(root, q, k);
      } else {
        LeadsBelow(root, k, q);
        LeadsToDirs(fs, root + k, root + q);
      }
    }
  }

  lemma {:induction false} RootIsDir(fs: FS, base: FS, root: Path, m: map<Path, string>)
    requires IsBase(base, root) && Represents(fs, base, root, m)
    ensures Lookup(fs, root) == Some(Dir)
  {
    assert Lookup(fs, root) == At(base, root, m, root);
  }

  lemma {:induction false} FitsWhenCompatible(fs: FS, base: FS, root: Path, m: map<Path, string>, k: Path)
    requires IsBase(base, root) && Represents(fs, base, root, m) && Compatible(m.Keys, k)
    ensures Lookup(fs, root + k) != Some(Dir)
    ensures forall q :: Leads(q, root + k) && q != root + k && q in fs ==> fs[q].Dir?
  {
    assert Lookup(fs, root + k) == At(base, root, m, root + k);
    assert (root + k)[|root|..] == k && Leads(root, root + k);
    forall q | Leads(q, root + k) && q != root + k && q in fs ensures fs[q].Dir? {
      assert Lookup(fs, q) == At(base, root, m, q);
      if |q| <= |root| {
        assert q == (root + k)[..|q|] == root[..|q|];
        if q != root { LeadsToDirs(base, q, root); }
      } else {
        var r := q[|root|..];
        assert q == (root + k)[..|q|] == root + k[..|r|];
        assert Above(r, k);
      }
    }
  }

  // ----------------------------------------------------------- the staging itself

  lemma {:induction false} OneMoreName(names: set<Path>, k: Path)
    ensures PrefixFree(names + {k}) <==> PrefixFree(names) && Compatible(names, k)
  {
  }

  lemma {:induction false} FewerNames(some: set<Path>, all: set<Path>)
    requires some <= all && PrefixFree(all)
    ensures PrefixFree(some)
  {
  }

  lemma {:induction false} TreeGrows(files: seq<WorkspaceFile>, k: nat)
    requires k <= |files|
    ensures Tree(files[..k]).Keys <= Tree(files).Keys
  {
    if k == |files| {
      assert files[..k] == files;
    } else {
      TreeGrows(files[..|files| - 1], k);
      assert files[..|files| - 1][..k] == files[..k];
    }
  }

  /** One more file: the tree, and what it takes to be stageable so far. */
  lemma {:induction false} TreeOfOneMore(files: seq<WorkspaceFile>, k: nat, codeFilename: string)
    requires k < |files|
    ensures Tree(files[..k + 1]) == Tree(files[..k])[Rel(files[k].path) := files[k].content]
    ensures PrefixFree(Tree(files[..k + 1]).Keys)
      <==> PrefixFree(Tree(files[..k]).Keys) && Compatible(Tree(files[..k]).Keys, Rel(files[k].path))
    ensures Stageable(files, codeFilename) ==> IsLocal(files[k].path) && PrefixFree(Tree(files[..k + 1]).Keys)
  {
    hide PrefixFree, Compatible, IsLocal, HasDir, Rel;
    assert files[..k + 1][..k] == files[..k];
    OneMoreName(Tree(files[..k]).Keys, Rel(files[k].path));
    assert Tree(files[..k + 1]).Keys == Tree(files[..k]).Keys + {Rel(files[k].path)};
    TreeGrows(files, k + 1);
    if Stageable(files, codeFilename) {
      FewerNames(Tree(files[..k + 1]).Keys, Tree(files).Keys + {Rel(codeFilename)});
    }
  }

  datatype StageError = TempDir | Chmod | InputDir | InvalidPath(path: string) | Mkdir | Write | CodeFile

  /** The at-th call to the operating system fails, having left debris in the workspace. */
  datatype Fault = Fault(at: nat, debris: FS)

  predicate Hits(fault: Option<Fault>, call: nat) { fault.Some? && fault.value.at == call }

  predicate HitsBy(fault: Option<Fault>, call: nat) { fault.Some? && fault.value.at <= call }

  ghost predicate SameOutside(f: FS, g: FS, dir: Path) {
    forall p :: !Leads(dir, p) ==> Lookup(f, p) == Lookup(g, p)
  }

  /** The same, except perhaps at one path. */
  ghost predicate SameBut(f: FS, g: FS, dir: Path, path: Path) {
    forall p :: !Leads(dir, p) && p != path ==> Lookup(f, p) == Lookup(g, p)
  }

  /** Debris is left in the workspace, or where the code goes when that is the call that fails. */
  ghost predicate Contained(fault: Option<Fault>, dir: Path, codePath: Path, last: nat) {
    fault.Some? ==> forall p :: p in fault.value.debris ==> Leads(dir, p) || (p == codePath && fault.value.at == last)
  }

  /** A name os.MkdirTemp can give: new, in an existing directory. */
  ghost predicate Fresh(fs: FS, dir: Path) {
    WellFormed(fs) && dir != [] && ".." !in dir && dir !in fs && Lookup(fs, Parent(dir)) == Some(Dir)
  }

  function InputRoot(dir: Path): Path { dir + [INPUT] }

  function Base(fs: FS, dir: Path): FS { fs[dir := Dir][InputRoot(dir) := Dir] }

  lemma {:induction false} NothingBelowFresh(fs: FS, dir: Path, p: Path)
    requires Fresh(fs, dir) && Leads(dir, p)
    ensures p !in fs
  {
    if p in fs && p != dir { LeadsToDirs(fs, dir, p); }
  }

  lemma {:induction false} BaseIsBase(fs: FS, dir: Path)
    requires Fresh(fs, dir)
    ensures MkdirAll(fs[dir := Dir], InputRoot(dir)) == Some(Base(fs, dir))
    ensures IsBase(Base(fs, dir), InputRoot(dir)) && SameOutside(Base(fs, dir), fs, dir)
    ensures Represents(Base(fs, dir), Base(fs, dir), InputRoot(dir), map[])
  {
    var root := InputRoot(dir);
    assert Parent(root) == dir && Leads(dir, root);
    forall p | Leads(dir, p) ensures p !in fs { NothingBelowFresh(fs, dir, p); }
    AddDir(fs, dir);
    AddDir(fs[dir := Dir], root);
    forall p | Leads(root, p) && p != root ensures p !in Base(fs, dir) {
      LeadsThrough(dir, root, p);
    }
  }

  /** os.RemoveAll; kept is what it could not remove. */
  function RemoveAll(fs: FS, dir: Path, kept: set<Path>): FS {
    map p | p in fs && (!Leads(dir, p) || p in kept) :: fs[p]
  }

  lemma {:induction false} RemovedIsBefore(fs: FS, before: FS, dir: Path)
    requires Fresh(before, dir) && SameOutside(fs, before, dir)
    ensures RemoveAll(fs, dir, {}) == before
  {
    var after := RemoveAll(fs, dir, {});
    forall p ensures Lookup(after, p) == Lookup(before, p) {
      if Leads(dir, p) { NothingBelowFresh(before, dir, p); }
    }
    forall p | p in after || p in before ensures p in after && p in before && after[p] == before[p] {
      assert Lookup(after, p) == Lookup(before, p);
    }
  }

  lemma {:induction false} RemovedBut(fs: FS, before: FS, dir: Path, path: Path)
    requires Fresh(before, dir) && SameBut(fs, before, dir, path)
    ensures forall p :: p != path ==> Lookup(RemoveAll(fs, dir, {}), p) == Lookup(before, p)
  {
    forall p | p != path ensures Lookup(RemoveAll(fs, dir, {}), p) == Lookup(before, p) {
      if Leads(dir, p) { NothingBelowFresh(before, dir, p); }
    }
  }
}
