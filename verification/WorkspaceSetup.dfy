/** setupWorkspace on a host: every step may fail, and a failure takes the directory away. */
module WorkspaceSetup {
  import opened Option
  import opened Paths
  import opened Strings
  import opened FileTrees
  import opened Workspaces

  /** A directory is there exactly when it is the root or some file lies below it. */
  lemma {:induction false} DirThere(fs: FS, base: FS, root: Path, m: map<Path, string>, k: Path)
    requires IsBase(base, root) && Represents(fs, base, root, m) && k != []
    ensures Lookup(fs, Parent(root + k)) == Some(Dir) <==>
      |k| == 1 || (Parent(k) !in m && exists q :: q in m.Keys && Above(Parent(k), q))
  {
    var up := Parent(k);
    assert Parent(root + k) == root + up;
    assert Lookup(fs, root + up) == At(base, root, m, root + up);
    if |k| > 1 {
      assert (root + up)[|root|..] == up && Leads(root, root + up) && root + up != root;
      assert forall q :: q in m <==> q in m.Keys;
    } else {
      assert root + up == root;
    }
  }

  lemma {:induction false} CodeWrite(fs: FS, base: FS, root: Path, m: map<Path, string>, k: Path, code: string)
    requires IsBase(base, root) && Represents(fs, base, root, m) && PrefixFree(m.Keys)
    ensures WriteFile(fs, root + k, code).Some? <==> Compatible(m.Keys, k) && HasDir(m.Keys, k)
    ensures WriteFile(fs, root + k, code).Some? ==> Represents(WriteFile(fs, root + k, code).value, base, root, m[k := code])
  {
    hide Represents, IsBase;
    if k == [] {
      RootIsDir(fs, base, root, m);
      assert root + k == root;
    } else {
      PutKeeps(fs, base, root, m, k, code);
      DirThere(fs, base, root, m, k);
      if Lookup(fs, Parent(root + k)) == Some(Dir) { assert MkdirAll(fs, Parent(root + k)) == Some(fs); }
      if Compatible(m.Keys, k) && HasDir(m.Keys, k) && |k| > 1 { assert Above(Parent(k), k); }
    }
  }

  /** Each name, as the code joins it, is below the input directory. */
  lemma {:induction false} TargetBelow(dir: Path, p: string)
    requires ".." !in dir && !Climbs(Rel(p))
    ensures Under(InputRoot(dir), p) == InputRoot(dir) + Rel(p)
  {
    JoinBelow(InputRoot(dir), p);
  }

  lemma {:induction false} RepresentedOutside(fs: FS, before: FS, dir: Path, m: map<Path, string>)
    requires Fresh(before, dir) && Represents(fs, Base(before, dir), InputRoot(dir), m)
    ensures SameOutside(fs, before, dir)
  {
  }

  /** The code is where its name leads, and apart from it nothing outside dir has changed. */
  ghost predicate CodeWritten(fs: FS, before: FS, dir: Path, codeFilename: string, code: string) {
    var target := CodePath(dir, codeFilename);
    Lookup(fs, target) == Some(File(code)) && forall p :: !Leads(dir, p) && p != target ==> Lookup(fs, p) == Lookup(before, p)
  }

  function CodePath(dir: Path, codeFilename: string): Path { Under(InputRoot(dir), codeFilename) }

  /** The last call of a staging is the writing of the code. */
  function LastCall(files: seq<WorkspaceFile>): nat { 3 + 2 * |files| }

  /** Nothing but the failed writing of a code name that leads out of the workspace reaches
      outside it. */
  predicate Harmless(fault: Option<Fault>, dir: Path, codeFilename: string, files: seq<WorkspaceFile>) {
    Leads(dir, CodePath(dir, codeFilename)) || !Hits(fault, LastCall(files))
  }

  class Host {
    var fs: FS

    constructor (fs: FS)
      ensures this.fs == fs
    {
      this.fs := fs;
    }

    /** A call that fails may leave something behind. */
    method Break(fault: Option<Fault>, ghost dir: Path, ghost codePath: Path, ghost last: nat)
      requires fault.Some? && Contained(fault, dir, codePath, last)
      modifies this
      ensures SameBut(fs, old(fs), dir, codePath)
      ensures fault.value.at != last || Leads(dir, codePath) ==> SameOutside(fs, old(fs), dir)
    {
      fs := fs + fault.value.debris;
    }

    /** Stages one workspace file; calls is the number of calls made before. */
    method StageFile(dir: Path, file: WorkspaceFile, fault: Option<Fault>, calls: nat,
                     ghost before: FS, ghost m: map<Path, string>, ghost codePath: Path, ghost last: nat)
      returns (err: Option<StageError>)
      requires Fresh(before, dir) && Contained(fault, dir, codePath, last) && calls + 1 < last
      requires Represents(fs, Base(before, dir), InputRoot(dir), m) && PrefixFree(m.Keys)
      modifies this
      ensures err.None? <==>
        && IsLocal(file.path) && Compatible(m.Keys, Rel(file.path))
        && !Hits(fault, calls) && !Hits(fault, calls + 1)
      ensures err.None? ==> Represents(fs, Base(before, dir), InputRoot(dir), m[Rel(file.path) := file.content])
      ensures err.Some? ==> SameOutside(fs, before, dir)
      ensures err.Some? && err.value.InvalidPath? ==> err.value.path == file.path && !IsLocal(file.path)
      ensures err != Some(TempDir)
    {
      hide Fresh, Represents, IsBase, PrefixFree, Compatible, WellFormed, MkdirAll, WriteFile, Base, Rel, Under;
      RepresentedOutside(fs, before, dir, m);
      if !IsLocal(file.path) { return Some(InvalidPath(file.path)); }
      var dst := Under(InputRoot(dir), file.path);
      Target(fs, before, dir, m, file);
      if Hits(fault, calls) {
        Break(fault, dir, codePath, last);
        return Some(Mkdir);
      }
      var made := MkdirAll(fs, Parent(dst));
      if made.None? { return Some(Mkdir); }
      fs := made.value;
      if Hits(fault, calls + 1) {
        Break(fault, dir, codePath, last);
        return Some(Write);
      }
      var written := WriteFile(fs, dst, file.content);
      if written.None? { return Some(Write); }
      fs := written.value;
      return None;
    }

    /** The staging itself, up to the first failure. */
    method Stage(dir: Path, code: string, codeFilename: string, files: seq<WorkspaceFile>, fault: Option<Fault>)
      returns (err: Option<StageError>)
      requires Fresh(fs, dir) && Contained(fault, dir, CodePath(dir, codeFilename), LastCall(files))
      modifies this
      ensures err == Some(TempDir) <==> Hits(fault, 0)
      ensures err.None? ==> CodeWritten(fs, old(fs), dir, codeFilename, code)
      ensures err == Some(TempDir) ==> fs == old(fs)
      ensures err.Some? ==> SameBut(fs, old(fs), dir, CodePath(dir, codeFilename))
      ensures err.Some? && Harmless(fault, dir, codeFilename, files) ==> SameOutside(fs, old(fs), dir)
      ensures err.Some? && err.value.InvalidPath? ==> !AllLocal(files)
      ensures !Climbs(Rel(codeFilename)) ==>
        (err.None? <==> Stageable(files, codeFilename) && !HitsBy(fault, LastCall(files)))
      ensures !Climbs(Rel(codeFilename)) && err.None? ==>
        Represents(fs, Base(old(fs), dir), InputRoot(dir), Tree(files)[Rel(codeFilename) := code])
    {
      hide Fresh, Represents, IsBase, PrefixFree, Compatible, WellFormed, MkdirAll, WriteFile, Base, Rel, Under, Tree, Stageable, HasDir;
      ghost var before := fs;
      if Hits(fault, 0) { return Some(TempDir); }
      fs := fs[dir := Dir];
      MadeDir(before, dir);
      if Hits(fault, 1) {
        Break(fault, dir, CodePath(dir, codeFilename), LastCall(files));
        return Some(Chmod);
      }
      if Hits(fault, 2) {
        Break(fault, dir, CodePath(dir, codeFilename), LastCall(files));
        return Some(InputDir);
      }
      var made := MkdirAll(fs, InputRoot(dir));
      BaseIsBase(before, dir);
      fs := made.value;
      NoFiles();
      for k := 0 to |files|
        invariant Represents(fs, Base(before, dir), InputRoot(dir), Tree(files[..k])) && PrefixFree(Tree(files[..k]).Keys)
        invariant AllLocal(files[..k])
        invariant !HitsBy(fault, 2 + 2 * k)
      {
        TreeOfOneMore(files, k, codeFilename);
        var failed := StageFile(dir, files[k], fault, 3 + 2 * k, before, Tree(files[..k]),
                                CodePath(dir, codeFilename), LastCall(files));
        if failed.Some? { return failed; }
      }
      assert files[..|files|] == files;
      RepresentedOutside(fs, before, dir, Tree(files));
      if !Climbs(Rel(codeFilename)) { CodeDecides(fs, before, dir, files, codeFilename, code); }
      if Hits(fault, LastCall(files)) {
        Break(fault, dir, CodePath(dir, codeFilename), LastCall(files));
        return Some(CodeFile);
      }
      var written := WriteFile(fs, CodePath(dir, codeFilename), code);
      if written.None? { return Some(CodeFile); }
      WroteOne(fs, CodePath(dir, codeFilename), code);
      fs := written.value;
      return None;
    }

    /** With the deferred clean-up; kept is what the removal leaves. */
    method SetupWorkspace(dir: Path, code: string, codeFilename: string, files: seq<WorkspaceFile>, fault: Option<Fault>, kept: set<Path>)
      returns (err: Option<StageError>)
      requires Fresh(fs, dir) && Contained(fault, dir, CodePath(dir, codeFilename), LastCall(files))
      modifies this
      ensures err.None? ==> CodeWritten(fs, old(fs), dir, codeFilename, code)
      ensures err.Some? ==> SameBut(fs, old(fs), dir, CodePath(dir, codeFilename))
      ensures err.Some? && kept == {} ==> forall p :: p != CodePath(dir, codeFilename) ==> Lookup(fs, p) == Lookup(old(fs), p)
      ensures err.Some? && Harmless(fault, dir, codeFilename, files) ==> SameOutside(fs, old(fs), dir)
      ensures err.Some? && Harmless(fault, dir, codeFilename, files) && kept == {} ==> fs == old(fs)
      ensures err == Some(TempDir) ==> fs == old(fs)
      ensures err.Some? && err.value.InvalidPath? ==> !AllLocal(files)
      ensures !Climbs(Rel(codeFilename)) ==>
        (err.None? <==> Stageable(files, codeFilename) && !HitsBy(fault, LastCall(files)))
      ensures !Climbs(Rel(codeFilename)) && err.None? ==>
        Represents(fs, Base(old(fs), dir), InputRoot(dir), Tree(files)[Rel(codeFilename) := code])
    {
      hide Fresh, Represents, Rel, Tree, Stageable, Base;
      err := Stage(dir, code, codeFilename, files, fault);
      if err.Some? && err != Some(TempDir) {
        if Harmless(fault, dir, codeFilename, files) { RemovedIsBefore(fs, old(fs), dir); }
        RemovedBut(fs, old(fs), dir, CodePath(dir, codeFilename));
        fs := RemoveAll(fs, dir, kept);
      }
    }
  }

  lemma {:induction false} WroteOne(fs: FS, p: Path, content: string)
    requires WriteFile(fs, p, content).Some?
    ensures forall q :: Lookup(WriteFile(fs, p, content).value, q) == if q == p then Some(File(content)) else Lookup(fs, q)
  {
  }

  lemma {:induction false} NoFiles()
    ensures PrefixFree(Tree([]).Keys) && Tree([]) == map[]
  {
  }

  lemma {:induction false} MadeDir(before: FS, dir: Path)
    ensures SameOutside(before[dir := Dir], before, dir)
  {
  }

  /** What the two calls for one file do. */
  lemma {:induction false} Target(fs: FS, before: FS, dir: Path, m: map<Path, string>, file: WorkspaceFile)
    requires Fresh(before, dir) && Represents(fs, Base(before, dir), InputRoot(dir), m) && PrefixFree(m.Keys)
    requires IsLocal(file.path)
    ensures Under(InputRoot(dir), file.path) != []
    ensures var dst := Under(InputRoot(dir), file.path);
            && (MkdirAll(fs, Parent(dst)).Some? ==> SameOutside(MkdirAll(fs, Parent(dst)).value, before, dir))
            && (PutFile(fs, dst, file.content).Some? <==> Compatible(m.Keys, Rel(file.path)))
            && (PutFile(fs, dst, file.content).Some? ==>
                  Represents(PutFile(fs, dst, file.content).value, Base(before, dir), InputRoot(dir), m[Rel(file.path) := file.content]))
  {
    hide Represents, Compatible, MkdirAll, WriteFile, Rel, Under, Base, IsBase;
    var dst := Under(InputRoot(dir), file.path);
    TargetBelow(dir, file.path);
    BaseIsBase(before, dir);
    PutKeeps(fs, Base(before, dir), InputRoot(dir), m, Rel(file.path), file.content);
    RepresentedOutside(fs, before, dir, m);
    DirsInside(fs, before, dir, m, Rel(file.path));
  }

  lemma {:induction false} DirsInside(fs: FS, before: FS, dir: Path, m: map<Path, string>, k: Path)
    requires Fresh(before, dir) && Represents(fs, Base(before, dir), InputRoot(dir), m) && SameOutside(fs, before, dir)
    ensures var up := Parent(InputRoot(dir) + k);
            MkdirAll(fs, up).Some? ==> SameOutside(MkdirAll(fs, up).value, before, dir)
  {
    hide MkdirAll;
    var up := Parent(InputRoot(dir) + k);
    BaseIsBase(before, dir);
    MkdirAllMakesTheWay(fs, up);
    if MkdirAll(fs, up).Some? {
      RootIsDir(fs, Base(before, dir), InputRoot(dir), m);
      var g := MkdirAll(fs, up).value;
      forall p | !Leads(dir, p) ensures Lookup(g, p) == Lookup(before, p) {
        if Leads(p, up) {
          assert Leads(dir, up);
          if |p| >= |dir| {
            OnOneLine(dir, p, up);
          } else {
            OnOneLine(p, dir, up);
            LeadsThrough(p, dir, InputRoot(dir));
            LeadsToDirs(fs, p, InputRoot(dir));
          }
        }
      }
    }
  }

  /** Whether the code file can be written, once the files are there. */
  lemma {:induction false} CodeDecides(fs: FS, before: FS, dir: Path, files: seq<WorkspaceFile>, codeFilename: string, code: string)
    requires Fresh(before, dir) && Represents(fs, Base(before, dir), InputRoot(dir), Tree(files))
    requires PrefixFree(Tree(files).Keys) && AllLocal(files) && !Climbs(Rel(codeFilename))
    ensures var target := CodePath(dir, codeFilename);
            && (WriteFile(fs, target, code).Some? <==> Stageable(files, codeFilename))
            && (WriteFile(fs, target, code).Some? ==>
                  Represents(WriteFile(fs, target, code).value, Base(before, dir), InputRoot(dir), Tree(files)[Rel(codeFilename) := code]))
  {
    hide Represents, Compatible, WriteFile, Rel, Under, Base, IsBase, PrefixFree, HasDir, Tree;
    TargetBelow(dir, codeFilename);
    BaseIsBase(before, dir);
    CodeWrite(fs, Base(before, dir), InputRoot(dir), Tree(files), Rel(codeFilename), code);
    OneMoreName(Tree(files).Keys, Rel(codeFilename));
  }

  // ------------------------------------------------------------------ its meaning

  /** The tree is the last-writer-wins map: a name is in it exactly when some file cleans to
      it, and has the content of the last such file. */
  lemma {:induction false} LastWriterWins(files: seq<WorkspaceFile>, name: Path, k: nat)
    requires k < |files| && Rel(files[k].path) == name
    requires forall j :: k < j < |files| ==> Rel(files[j].path) != name
    ensures name in Tree(files) && Tree(files)[name] == files[k].content
  {
    hide Rel;
    var n := |files| - 1;
    if k < n {
      assert forall j :: 0 <= j < n ==> files[..n][j] == files[j];
      LastWriterWins(files[..n], name, k);
    }
  }

  lemma {:induction false} OnlyWrittenNames(files: seq<WorkspaceFile>, name: Path)
    requires name in Tree(files)
    ensures exists k :: 0 <= k < |files| && Rel(files[k].path) == name
  {
    var n := |files| - 1;
    if Rel(files[n].path) != name {
      OnlyWrittenNames(files[..n], name);
      var k :| 0 <= k < n && Rel(files[..n][k].path) == name;
      assert Rel(files[k].path) == name;
    }
  }

  /** MAIN RESULT.  In a staged tree the code has its own name whatever the request sends, and
      everything staged is below the input directory: outside it nothing is new but the
      workspace and the input directory themselves. */
  lemma {:induction false} StagedTree(fs: FS, before: FS, dir: Path, files: seq<WorkspaceFile>, codeFilename: string, code: string, p: Path)
    requires Fresh(before, dir) && !Climbs(Rel(codeFilename)) && Rel(codeFilename) != []
    requires Represents(fs, Base(before, dir), InputRoot(dir), Tree(files)[Rel(codeFilename) := code])
    ensures Lookup(fs, CodePath(dir, codeFilename)) == Some(File(code))
    ensures p !in before && p in fs ==> p == dir || Leads(dir + ["input"], p)
    ensures p in before ==> Lookup(fs, p) == Lookup(before, p)
  {
    BaseIsBase(before, dir);
    TargetBelow(dir, codeFilename);
    FileThere(fs, Base(before, dir), InputRoot(dir), Tree(files)[Rel(codeFilename) := code], Rel(codeFilename));
    assert Lookup(fs, p) == At(Base(before, dir), InputRoot(dir), Tree(files)[Rel(codeFilename) := code], p);
    if Leads(InputRoot(dir), p) {
      LeadsThrough(dir, InputRoot(dir), p);
      NothingBelowFresh(before, dir, p);
    }
  }

  /** The configured code name is not checked like the request's paths.  It stays below the
      input directory exactly when it climbs past no name that it does not return to; a code
      name that does not climb is staged inside the workspace. */
  lemma {:induction false} CodeNameStaysExactly(dir: Path, codeFilename: string)
    requires ".." !in dir
    ensures var n := Ups(Rel(codeFilename)); var kept := |Ancestor(InputRoot(dir), n)|;
            && n <= |Rel(codeFilename)|
            && (Leads(InputRoot(dir), CodePath(dir, codeFilename)) <==> InputRoot(dir)[kept..] <= Rel(codeFilename)[n..])
    ensures !Climbs(Rel(codeFilename)) ==> Leads(InputRoot(dir), CodePath(dir, codeFilename)) && Leads(dir, CodePath(dir, codeFilename))
  {
    hide Rel, Under;
    JoinStaysExactly(InputRoot(dir), codeFilename);
    if Leads(InputRoot(dir), CodePath(dir, codeFilename)) { LeadsThrough(dir, InputRoot(dir), CodePath(dir, codeFilename)); }
  }

  /** A name that climbs once lands beside the input directory. */
  lemma {:induction false} CodeNameMayLeave(dir: Path, name: string)
    requires ".." !in dir && IsName(name)
    ensures !IsLocal("../" + name)
    ensures Under(InputRoot(dir), "../" + name) == dir + [name]
    ensures name != INPUT ==> !Leads(InputRoot(dir), dir + [name])
  {
    hide Split;
    ClimbOnce(name);
    var comps := ["..", name];
    assert comps[1..] == [name] && [name][1..] == [];
    assert Push([], "..", false) == [".."] && Push([".."], name, false) == comps;
    assert Walk([], comps, false) == Walk([".."], [name], false) == Walk(comps, [], false);
    assert Push(InputRoot(dir), "..", true) == dir;
    assert Walk(InputRoot(dir), comps, true) == Walk(dir, [name], true) == Walk(dir + [name], [], true);
    if name != INPUT { assert InputRoot(dir)[|dir|] != (dir + [name])[|dir|]; }
  }

  lemma {:induction false} ClimbOnce(name: string)
    requires '/' !in name
    ensures Components("../" + name) == ["..", name]
  {
    CutAt("..", name, '/');
    SplitNone(name, '/');
    assert ".." + ['/'] + name == "../" + name;
  }
}
