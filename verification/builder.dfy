/** The tree builder: `VirtualFile`, `createChildren`, `Set` and
    `NewVirtualFileSystem`. */
module Builder {
  import opened Base
  import opened Modes
  import opened Paths
  import opened Tree
  import opened Resolve

  /** `VirtualFile`: the descriptor of one entry. For a regular file `content`
      is its content, for a symlink its target; a directory ignores it. */
  datatype VirtualFile = VirtualFile(content: Bytes, mode: FileMode, error: Option<Error>)

  /** What `Set` leaves behind: the file system afterwards and, if it panicked,
      why. A panic leaves the tree as it stood at that moment. */
  datatype Applied = Applied(fs: FileSystem, panic: Option<Panic>)

  /** A node after `createChildren` worked below it, and the panic that
      stopped it midway, if any. */
  datatype Grafted = Grafted(node: Node, panic: Option<Panic>)

  /** The node `createChildren` makes for the last component: the
      descriptor's mode and fault, and its content, or no children when the
      descriptor is a directory. */
  function NewLeaf(name: Bytes, vf: VirtualFile): Node
  {
    Node(name, vf.mode, vf.error, if IsDir(vf.mode) then Children([]) else Content(vf.content))
  }

  /** `createChildren(x, rem, vf)`: walks the components of `rem` below `x`.
      Empty components are skipped; "." and ".." panic; each component
      followed by a slash becomes a new default directory appended to the
      current node, which it then replaces; the component after the last
      slash, if any, becomes a leaf built from `vf`. So a remainder ending in
      a slash never applies `vf`. The grafted node keeps its name, mode and
      fault, and its old children come first. */
  function Graft(x: Node, rem: Bytes, vf: VirtualFile): (g: Grafted)
    ensures g.node.name == x.name && g.node.mode == x.mode && g.node.err == x.err
    ensures IsDir(x.mode) ==> Kids(x) <= Kids(g.node)
    ensures g.panic.Some? ==> g.panic.value == InvalidNameComponent
    decreases |rem|
  {
    var h := Head(rem);
    HeadTailSplit(rem);
    if h != [] then
      if IsDotName(h) then Grafted(x, Some(InvalidNameComponent))
      else if Slash !in rem then Grafted(DirAppend(x, NewLeaf(h, vf)), None)
      else
        var sub := Graft(NewDirNode(ModeDir, h), Tail(rem), vf);
        Grafted(DirAppend(x, sub.node), sub.panic)
    else if Slash !in rem then Grafted(x, None)
    else Graft(x, Tail(rem), vf)
  }

  /** The in-place update of an existing node: mode and fault come from the
      descriptor, and the content too unless the descriptor is a directory, in
      which case the children are kept. */
  function Update(x: Node, vf: VirtualFile): Node
  {
    x.(mode := vf.mode, err := vf.error, extra := if IsDir(vf.mode) then x.extra else Content(vf.content))
  }

  /** `Set`: validate the descriptor's mode, look the name up ignoring faults
      and without following symlinks, then graft the missing part below the
      node reached, or update that node in place. A bad mode panics first; a
      lookup that meets a non-directory, or an existing node whose directory
      bit disagrees with the descriptor, panics with the directory
      disagreement. None of these panics touches the tree; only a "." or ".."
      met while grafting leaves a partly grafted tree behind. */
  function Set(fs: FileSystem, name: Bytes, vf: VirtualFile): (r: Applied)
    ensures r.panic == Some(BadMode) <==> !ModeAccepted(vf.mode)
    ensures r.panic.Some? && r.fs != fs ==> r.panic == Some(InvalidNameComponent)
    ensures ModeAccepted(vf.mode) && Find(fs, name, Plain).Ok? && Find(fs, name, Plain).value.halt == Some(NotDir) ==>
              r == Applied(fs, Some(IsDirDisagreement))
  {
    if !ModeAccepted(vf.mode) then Applied(fs, Some(BadMode))
    else
      var f := Find(fs, name, Plain);
      if f.Panicked? then Applied(fs, Some(f.reason))
      else
        var w := f.value;
        if w.halt.Some? && w.halt.value.ToError() == ENotDir then
          Applied(fs, Some(IsDirDisagreement))
        else if w.rem != [] then
          var g := Graft(w.node, w.rem, vf);
          Applied(FileSystem(Replace(fs.root, w.addr, g.node)), g.panic)
        else if IsDir(w.node.mode) != IsDir(vf.mode) then
          Applied(fs, Some(IsDirDisagreement))
        else
          Applied(FileSystem(Replace(fs.root, w.addr, Update(w.node, vf))), None)
  }

  // ---- Well-formedness is preserved ----

  /** Putting a well-formed node with the same name at an address of a
      well-formed tree keeps the tree well-formed. */
  lemma {:induction false} ReplaceWf(t: Node, a: Addr, x: Node, y: Node)
    requires Wf(t) && At(t, a) == Some(x)
    requires Wf(y) && y.name == x.name
    ensures Wf(Replace(t, a, y))
    decreases |a|
  {
    if a != [] {
      var ks := Kids(t);
      var i := a[0];
      ReplaceWf(ks[i], a[1..], x, y);
      var ks' := ks[i := Replace(ks[i], a[1..], y)];
      assert ks == t.extra.kids;
      assert forall j :: 0 <= j < |ks'| ==> ks'[j].name == ks[j].name;
    }
  }

  /** The first non-empty component of a remainder is not yet a child of `x`
      (or `x` has no children at all), so grafting there adds no duplicate. */
  predicate Fresh(x: Node, rem: Bytes)
  {
    Kids(x) == [] || (rem != [] && rem[0] != Slash && Lookup(Kids(x), Head(rem)).None?)
  }

  /** Grafting below a well-formed directory at a fresh remainder gives a
      well-formed node, even when a "." or ".." stops it midway. */
  lemma {:induction false} GraftWf(x: Node, rem: Bytes, vf: VirtualFile)
    requires Wf(x) && IsDir(x.mode) && Fresh(x, rem)
    ensures Wf(Graft(x, rem, vf).node)
    decreases |rem|
  {
    var h := Head(rem);
    HeadTailSplit(rem);
    if h != [] {
      if !IsDotName(h) {
        var c := if Slash !in rem then NewLeaf(h, vf) else Graft(NewDirNode(ModeDir, h), Tail(rem), vf).node;
        if Slash in rem {
          GraftWf(NewDirNode(ModeDir, h), Tail(rem), vf);
        }
        AppendWf(x, c);
      }
    } else if Slash in rem {
      HeadNonEmptyOrKidless(x, rem);
      GraftWf(x, Tail(rem), vf);
    }
  }

  /** A remainder starting with a slash is only fresh for a node with no children. */
  lemma HeadNonEmptyOrKidless(x: Node, rem: Bytes)
    requires Fresh(x, rem) && Head(rem) == [] && Slash in rem
    ensures Kids(x) == [] && Fresh(x, Tail(rem))
  {
    assert IndexByte(rem, Slash) == 0;
  }

  /** Appending a well-formed child with a valid name that no sibling has. */
  lemma AppendWf(x: Node, c: Node)
    requires Wf(x) && IsDir(x.mode) && Wf(c) && ValidName(c.name)
    requires Lookup(Kids(x), c.name).None?
    ensures Wf(DirAppend(x, c))
  {
    var ks := Kids(x) + [c];
    LookupNone(Kids(x), c.name);
    assert Kids(x) == x.extra.kids;
    assert forall i :: 0 <= i < |Kids(x)| ==> ks[i] == Kids(x)[i];
  }

  /** The three ways `Set` can leave the tree: untouched; grafted below the
      node where the lookup found a child missing; or with the node the
      lookup found updated in place, when its directory bit agrees with an
      accepted descriptor. */
  lemma SetEffect(fs: FileSystem, name: Bytes, vf: VirtualFile)
    ensures var r, f := Set(fs, name, vf), Find(fs, name, Plain);
            || r.fs == fs
            || (&& f.Ok? && f.value.halt == Some(NotExist)
                && r.fs == FileSystem(Replace(fs.root, f.value.addr, Graft(f.value.node, f.value.rem, vf).node)))
            || (&& f.Ok? && f.value.halt.None? && ModeAccepted(vf.mode)
                && IsDir(f.value.node.mode) == IsDir(vf.mode)
                && r.fs == FileSystem(Replace(fs.root, f.value.addr, Update(f.value.node, vf))))
  {
    var f := Find(fs, name, Plain);
    if f.Ok? {
      PlainHalts(fs.root, f);
    }
  }

  /** `Set` keeps a well-formed file system well-formed, whatever it returns. */
  lemma SetPreservesWf(fs: FileSystem, name: Bytes, vf: VirtualFile)
    requires FsWf(fs)
    ensures FsWf(Set(fs, name, vf).fs)
  {
    var r, f := Set(fs, name, vf), Find(fs, name, Plain);
    SetEffect(fs, name, vf);
    if r.fs != fs {
      var w := f.value;
      if w.halt == Some(NotExist) {
        GraftKeepsWf(fs, w, vf);
      } else {
        UpdateKeepsWf(fs, w.addr, w.node, vf);
      }
    }
  }

  /** A walk that ignores faults and does not follow symlinks succeeds, or
      stops on a non-directory or a missing child. */
  lemma PlainHalts(root: Node, r: Outcome<Walk>)
    requires Sound(root, Plain, r) && r.Ok?
    ensures r.value.halt.None? || r.value.halt == Some(NotDir) || r.value.halt == Some(NotExist)
    ensures r.value.halt.None? <==> r.value.rem == []
  {
    if r.value.halt.Some? {
      assert Head(r.value.rem) != [];
    }
  }

  /** Grafting at the node a walk stopped on, for a missing child. */
  lemma GraftKeepsWf(fs: FileSystem, w: Walk, vf: VirtualFile)
    requires FsWf(fs) && At(fs.root, w.addr) == Some(w.node)
    requires Head(w.rem) != [] && IsDir(w.node.mode) && Lookup(Kids(w.node), Head(w.rem)).None?
    ensures FsWf(FileSystem(Replace(fs.root, w.addr, Graft(w.node, w.rem, vf).node)))
  {
    WfAt(fs.root, w.addr, w.node);
    HeadNonEmpty(w.rem);
    GraftWf(w.node, w.rem, vf);
    ReplaceWf(fs.root, w.addr, w.node, Graft(w.node, w.rem, vf).node);
  }

  /** Updating a node in place with a descriptor of the same kind and an
      accepted mode. */
  lemma UpdateKeepsWf(fs: FileSystem, a: Addr, x: Node, vf: VirtualFile)
    requires FsWf(fs) && At(fs.root, a) == Some(x)
    requires ModeAccepted(vf.mode) && IsDir(x.mode) == IsDir(vf.mode)
    ensures FsWf(FileSystem(Replace(fs.root, a, Update(x, vf))))
  {
    WfAt(fs.root, a, x);
    ReplaceWf(fs.root, a, x, Update(x, vf));
  }

  /** Every node of a well-formed tree is well-formed. */
  lemma {:induction false} WfAt(t: Node, a: Addr, x: Node)
    requires Wf(t) && At(t, a) == Some(x)
    ensures Wf(x)
    decreases |a|
  {
    if a != [] {
      WfAt(Kids(t)[a[0]], a[1..], x);
    }
  }

  // ---- Construction ----

  /** `Set` applied to each entry in turn, stopping at the first panic. */
  function Build(fs: FileSystem, data: seq<(Bytes, VirtualFile)>): (r: Applied)
    requires FsWf(fs)
    ensures FsWf(r.fs)
    ensures data == [] ==> r == Applied(fs, None)
    decreases |data|
  {
    if data == [] then Applied(fs, None)
    else
      var a := Set(fs, data[0].0, data[0].1);
      SetPreservesWf(fs, data[0].0, data[0].1);
      if a.panic.Some? then a else Build(a.fs, data[1..])
  }

  /** `NewVirtualFileSystem`: the entries applied with `Set` to an empty root
      directory. The entries are taken in the order given; a Go map would
      hand them over in an unspecified order. */
  function NewVirtualFileSystem(data: seq<(Bytes, VirtualFile)>): (r: Applied)
    ensures FsWf(r.fs)
    ensures data == [] ==> r == Applied(EmptyFileSystem(), None)
  {
    Build(EmptyFileSystem(), data)
  }
}
