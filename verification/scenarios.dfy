/** Concrete file systems that show the walk's edge cases: a symlink cycle,
    a name with a trailing slash, and a missing name in an empty file
    system. */
module Scenarios {
  import opened Base
  import opened Modes
  import opened Paths
  import opened Tree
  import opened Resolve
  import opened ResolveFacts
  import opened Builder
  import opened Facade

  /** The names "x" and "y". */
  const X: Bytes := [0x78]
  const Y: Bytes := [0x79]

  /** A symlink called `name` whose target is the absolute name "/" + `to`. */
  function Link(name: Bytes, to: Bytes): Node
  {
    Node(name, ModeSymlink, None, Content([Slash] + to))
  }

  /** A root directory holding "/x -> /y" and "/y -> /x". */
  function CycleRoot(): Node
  {
    Node(RootName, ModeDir, None, Children([Link(X, Y), Link(Y, X)]))
  }

  /** The child `name` of the fault-free directory `root` is a symlink to
      the absolute name "/" + `to`. */
  predicate LinksTo(root: Node, name: Bytes, to: Bytes)
  {
    && IsDir(root.mode) && root.err.None?
    && var i := Lookup(Kids(root), name);
       i.Some? && IsSymlink(Kids(root)[i.value].mode) && Data(Kids(root)[i.value]) == [Slash] + to
  }

  /** A cursor on the root, with `links` links spent, whose remainder is
      `a` followed by a slash. */
  predicate AtRootOn(root: Node, c: Cursor, a: Bytes, links: nat)
  {
    c.addr == [] && c.node == root && c.rem == a + [Slash] && c.links == links
  }

  /** One iteration on a cycle with a link left: the walk jumps to the name
      the link points at, from the root. */
  lemma CycleFollow(root: Node, c: Cursor, c': Cursor, a: Bytes, b: Bytes)
    requires LinksTo(root, a, b) && c.links < MaxLinks
    requires a != [] && Slash !in a && !IsDotName(a)
    requires AtRootOn(root, c, a, c.links) && AtRootOn(root, c', b, c.links + 1)
    ensures Valid(root, c) && Valid(root, c')
    ensures Run(root, Checked, c) == Run(root, Checked, c')
  {
    LastWithSlash(a);
    var i := Lookup(Kids(root), a).value;
    ComponentStep(root, Checked, c, i);
    assert ([Slash] + b)[1..] + [Slash] + [] == b + [Slash];
    RunNext(root, Checked, c, c');
  }

  /** A name without slashes, followed by one slash, is a single component
      with nothing after it. */
  lemma LastWithSlash(a: Bytes)
    requires Slash !in a
    ensures Head(a + [Slash]) == a && Tail(a + [Slash]) == []
  {
    HeadTailJoin(a, []);
    assert a + [Slash] + [] == a + [Slash];
  }

  /** One iteration on a cycle with no link left: the walk fails with too
      many links, on the root and with nothing left to walk. */
  lemma CycleStop(root: Node, c: Cursor, a: Bytes, b: Bytes)
    requires LinksTo(root, a, b)
    requires a != [] && Slash !in a && !IsDotName(a)
    requires AtRootOn(root, c, a, MaxLinks)
    ensures Valid(root, c)
    ensures Run(root, Checked, c) == Ok(Walk([], root, [], Some(TooManyLinks)))
  {
    LastWithSlash(a);
    ComponentStep(root, Checked, c, Lookup(Kids(root), a).value);
    assert Iterate(root, Checked, c) == Done(Ok(Walk([], root, [], Some(TooManyLinks))));
  }

  /** Following a cycle of two symlinks, `a` pointing at `b` and `b` at `a`,
      from a cursor on the root over `a` with `k` links already spent, spends
      the remaining links and then fails with too many links, on the root and
      with nothing left to walk. */
  lemma {:induction false} CycleExhaustsLinks(root: Node, c: Cursor, a: Bytes, b: Bytes)
    requires LinksTo(root, a, b) && LinksTo(root, b, a) && c.links <= MaxLinks
    requires a != [] && Slash !in a && !IsDotName(a)
    requires b != [] && Slash !in b && !IsDotName(b)
    requires AtRootOn(root, c, a, c.links)
    ensures Valid(root, c)
    ensures Run(root, Checked, c) == Ok(Walk([], root, [], Some(TooManyLinks)))
    decreases MaxLinks - c.links, 1
  {
    if c.links < MaxLinks {
      CycleExhaustsFrom(root, c, a, b);
    } else {
      CycleStop(root, c, a, b);
    }
  }

  /** The step of `CycleExhaustsLinks` with a link left: one hop to `b`, and
      the rest of the cycle from there. */
  lemma {:induction false} CycleExhaustsFrom(root: Node, c: Cursor, a: Bytes, b: Bytes)
    requires LinksTo(root, a, b) && LinksTo(root, b, a) && c.links < MaxLinks
    requires a != [] && Slash !in a && !IsDotName(a)
    requires b != [] && Slash !in b && !IsDotName(b)
    requires AtRootOn(root, c, a, c.links)
    ensures Valid(root, c)
    ensures Run(root, Checked, c) == Ok(Walk([], root, [], Some(TooManyLinks)))
    decreases MaxLinks - c.links, 0
  {
    var c' := Cursor([], root, b + [Slash], c.links + 1);
    CycleFollow(root, c, c', a, b);
    CycleExhaustsLinks(root, c', b, a);
  }

  /** The first hop of a lookup of "/" + `a`, where `a` links to "/" + `b`:
      the walk jumps to `b`, from the root, with one link spent. */
  lemma FirstHop(root: Node, a: Bytes, b: Bytes)
    requires LinksTo(root, a, b)
    requires a != [] && Slash !in a && !IsDotName(a)
    ensures Run(root, Checked, Cursor([], root, a, 0)) == Run(root, Checked, Cursor([], root, b + [Slash], 1))
  {
    var c := Cursor([], root, a, 0);
    HeadTailSplit(a);
    assert ([Slash] + b)[1..] + [Slash] + [] == b + [Slash];
    assert Iterate(root, Checked, c) == Next(Cursor([], root, b + [Slash], 1));
  }

  /** The walk over `a` from the root, where `a` and `b` are symlinks to
      each other, fails with too many links. */
  lemma CycleFromRoot(root: Node, a: Bytes, b: Bytes)
    requires LinksTo(root, a, b) && LinksTo(root, b, a)
    requires a != [] && Slash !in a && !IsDotName(a)
    requires b != [] && Slash !in b && !IsDotName(b)
    ensures Run(root, Checked, Cursor([], root, a, 0)) == Ok(Walk([], root, [], Some(TooManyLinks)))
  {
    FirstHop(root, a, b);
    CycleExhaustsLinks(root, Cursor([], root, b + [Slash], 1), b, a);
  }

  /** Opening "/" + `a`, where `a` and `b` are symlinks to each other in the
      root, fails with too many links. */
  lemma OpenLinkCycle(root: Node, a: Bytes, b: Bytes)
    requires LinksTo(root, a, b) && LinksTo(root, b, a)
    requires a != [] && Slash !in a && !IsDotName(a)
    requires b != [] && Slash !in b && !IsDotName(b)
    ensures Open(FileSystem(root), [Slash] + a) == Fail(ErrTooManyLinks)
  {
    CycleFromRoot(root, a, b);
    assert Abs([Slash] + a)[1..] == a;
    FindIsRun(FileSystem(root), [Slash] + a, Checked);
  }

  /** Opening "/x" in the cycle fails with too many links. */
  lemma OpenCycle()
    ensures Open(FileSystem(CycleRoot()), [Slash] + X) == Fail(ErrTooManyLinks)
  {
    var root := CycleRoot();
    assert Lookup(Kids(root), X) == Some(0);
    assert Lookup(Kids(root), Y) == Some(1);
    OpenLinkCycle(root, X, Y);
  }

  /** The name "a". */
  const A: Bytes := [0x61]

  /** Setting "a/" on an empty file system makes "a" a default directory and
      drops the descriptor, whatever kind it describes. */
  lemma TrailingSlashMakesDirectory(vf: VirtualFile)
    requires ModeAccepted(vf.mode)
    ensures var empty := EmptyFileSystem();
            Set(empty, A + [Slash], vf) == Applied(FileSystem(DirAppend(empty.root, NewDirNode(ModeDir, A))), None)
  {
    var empty := EmptyFileSystem();
    var rem := A + [Slash];
    var c := Cursor([], empty.root, rem, 0);
    assert Abs(rem) == [Slash] + rem;
    assert Abs(rem)[1..] == rem;
    assert IndexByte(rem, Slash) == 1;
    assert Head(rem) == A && Tail(rem) == [];
    assert Iterate(empty.root, Plain, c) == Done(Ok(Walk([], empty.root, rem, Some(NotExist))));
    assert Find(empty, rem, Plain) == Ok(Walk([], empty.root, rem, Some(NotExist)));
    assert Graft(NewDirNode(ModeDir, A), [], vf) == Grafted(NewDirNode(ModeDir, A), None);
    assert Graft(empty.root, rem, vf) == Grafted(DirAppend(empty.root, NewDirNode(ModeDir, A)), None);
  }

  /** Opening or stating "/a/x" in an empty file system fails with
      `ErrNotExist`: the root has no child "a", so the walk stops there. */
  lemma OpenMissingInEmpty()
    ensures Open(EmptyFileSystem(), [Slash] + A + [Slash] + X) == Fail(ErrNotExist)
    ensures Stat(EmptyFileSystem(), [Slash] + A + [Slash] + X) == Fail(ErrNotExist)
  {
    var empty := EmptyFileSystem();
    var name := [Slash] + A + [Slash] + X;
    var c := Cursor([], empty.root, A + [Slash] + X, 0);
    assert Find(empty, name, Checked) == Run(empty.root, Checked, c) by {
      assert Abs(name)[1..] == c.rem;
      FindIsRun(empty, name, Checked);
    }
    assert Head(c.rem) == A by {
      assert IndexByte(c.rem, Slash) == 1;
    }
    RunMissingChild(empty.root, Checked, c);
  }
}
