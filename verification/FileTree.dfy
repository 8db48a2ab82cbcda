/** A file tree by absolute path, with the two calls that make entries. */
module FileTrees {
  import opened Option
  import opened Paths

  datatype Node = Dir | File(content: string)

  type FS = map<Path, Node>

  function Lookup(fs: FS, p: Path): Option<Node> { if p in fs then Some(fs[p]) else None }

  function Parent(p: Path): Path
    requires p != []
  {
    p[..|p| - 1]
  }

  /** q is p or one of the directories p lies in. */
  predicate Leads(q: Path, p: Path) { q <= p }

  /** There is a root, and every entry is in a directory. */
  ghost predicate WellFormed(fs: FS) {
    && [] in fs && fs[[]].Dir?
    && (forall p :: p in fs && p != [] ==> Parent(p) in fs && fs[Parent(p)].Dir?)
  }

  /** os.MkdirAll; None is an error of the file system. */
  function MkdirAll(fs: FS, p: Path): Option<FS>
    decreases |p|
  {
    if p in fs then (if fs[p].Dir? then Some(fs) else None)
    else if p == [] then None
    else match MkdirAll(fs, Parent(p))
      case None => None
      case Some(g) => Some(g[p := Dir])
  }

  /** os.WriteFile. */
  function WriteFile(fs: FS, p: Path, content: string): Option<FS> {
    if p == [] || Lookup(fs, Parent(p)) != Some(Dir) || Lookup(fs, p) == Some(Dir) then None
    else Some(fs[p := File(content)])
  }

  /** The directories first, then the file. */
  function PutFile(fs: FS, p: Path, content: string): Option<FS>
    requires p != []
  {
    match MkdirAll(fs, Parent(p))
    case None => None
    case Some(g) => WriteFile(g, p, content)
  }

  lemma {:induction false} LeadsToDirs(fs: FS, q: Path, p: Path)
    requires WellFormed(fs) && p in fs && Leads(q, p) && q != p
    ensures q in fs && fs[q].Dir?
    decreases |p|
  {
    assert Leads(q, Parent(p));
    if q != Parent(p) { LeadsToDirs(fs, q, Parent(p)); }
  }

  lemma {:induction false} LeadsFurther(q: Path, p: Path)
    requires p != []
    ensures Leads(q, p) <==> q == p || Leads(q, Parent(p))
  {
    if Leads(q, p) && q != p { assert q == p[..|q|] == Parent(p)[..|q|]; }
  }

  lemma {:induction false} LeadsThrough(a: Path, b: Path, c: Path)
    requires Leads(a, b) && Leads(b, c)
    ensures Leads(a, c)
  {
    assert a == b[..|a|] == c[..|b|][..|a|];
  }

  /** Two directories on the way to one path lie on one line. */
  lemma {:induction false} OnOneLine(a: Path, b: Path, c: Path)
    requires Leads(a, c) && Leads(b, c) && |a| <= |b|
    ensures Leads(a, b)
  {
    assert a == c[..|b|][..|a|];
  }

  /** Creating a directory fails exactly when a file is in the way; otherwise everything on
      the way is a directory and nothing else changes. */
  lemma {:induction false} MkdirAllMakesTheWay(fs: FS, p: Path)
    requires WellFormed(fs)
    ensures MkdirAll(fs, p).Some? <==> (forall q :: Leads(q, p) && q in fs ==> fs[q].Dir?)
    ensures MkdirAll(fs, p).Some? ==>
      var g := MkdirAll(fs, p).value;
      WellFormed(g) && forall q :: Lookup(g, q) == if Leads(q, p) then Some(Dir) else Lookup(fs, q)
    decreases |p|
  {
    if p in fs {
      forall q | Leads(q, p) && q != p ensures q in fs && fs[q].Dir? { LeadsToDirs(fs, q, p); }
      assert Leads(p, p);
    } else {
      var up := Parent(p);
      MkdirAllMakesTheWay(fs, up);
      forall q ensures Leads(q, p) <==> q == p || Leads(q, up) { LeadsFurther(q, p); }
      if MkdirAll(fs, up).Some? { AddDir(MkdirAll(fs, up).value, p); }
    }
  }

  lemma {:induction false} AddDir(g: FS, p: Path)
    requires WellFormed(g) && p != [] && Lookup(g, p) != Some(Dir) && Lookup(g, Parent(p)) == Some(Dir)
    requires forall q :: q in g && q != [] ==> Parent(q) != p
    ensures WellFormed(g[p := Dir])
  {
  }

  /** Writing a file with its directories fails exactly when a file is in the way or the path
      itself is a directory. */
  lemma {:induction false} PutFilePuts(fs: FS, p: Path, content: string)
    requires WellFormed(fs) && p != []
    ensures PutFile(fs, p, content).Some? <==>
      && Lookup(fs, p) != Some(Dir)
      && (forall q :: Leads(q, p) && q != p && q in fs ==> fs[q].Dir?)
    ensures PutFile(fs, p, content).Some? ==>
      var g := PutFile(fs, p, content).value;
      WellFormed(g)
      && forall q :: Lookup(g, q) == if q == p then Some(File(content)) else if Leads(q, p) then Some(Dir) else Lookup(fs, q)
  {
    var up := Parent(p);
    MkdirAllMakesTheWay(fs, up);
    forall q ensures Leads(q, p) <==> q == p || Leads(q, up) { LeadsFurther(q, p); }
    assert Leads(up, up) && !Leads(p, up);
    if MkdirAll(fs, up).Some? && WriteFile(MkdirAll(fs, up).value, p, content).Some? {
      AddFile(MkdirAll(fs, up).value, p, content);
    }
  }

  lemma {:induction false} AddFile(g: FS, p: Path, content: string)
    requires WellFormed(g) && WriteFile(g, p, content).Some?
    ensures WellFormed(WriteFile(g, p, content).value)
  {
  }
}
