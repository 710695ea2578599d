/** What `Set` guarantees about later lookups, and the shape of what
    `createChildren` grafts. */
module BuilderFacts {
  import opened Base
  import opened Modes
  import opened Paths
  import opened Tree
  import opened Resolve
  import opened ResolveFacts
  import opened Builder

  /** Appending a child named `name` to a list with no such name makes it the
      one `Lookup` finds. */
  lemma LookupAppend(ks: seq<Node>, c: Node, name: Bytes)
    requires Lookup(ks, name).None? && c.name == name
    ensures Lookup(ks + [c], name) == Some(|ks|)
  {
    var ks' := ks + [c];
    LookupNone(ks, name);
    LookupNone(ks', name);
    assert ks'[|ks|].name == name;
    assert forall j :: 0 <= j < |ks| ==> ks'[j].name == ks[j].name;
  }

  /** Replacing the node at `a` by one that looks the same to a walk without
      symlink following (same directory bit, compatible children, and, below
      the root, same name and symlink bit) leaves the path to `a` looking the
      same. */
  lemma {:induction false} ReplaceAlong(t: Node, a: Addr, x: Node, y: Node)
    requires At(t, a) == Some(x)
    requires (IsDir(x.mode) <==> IsDir(y.mode)) && KidsCompat(Kids(x), Kids(y))
    requires a != [] ==> x.name == y.name && (IsSymlink(x.mode) <==> IsSymlink(y.mode))
    ensures Along(t, Replace(t, a, y), a)
    decreases |a|
  {
    if a != [] {
      var i := a[0];
      var k := Kids(t)[i];
      var k' := Replace(k, a[1..], y);
      var t' := Replace(t, a, y);
      assert Kids(t') == Kids(t)[i := k'];
      ReplaceAlong(k, a[1..], x, y);
      assert a[1..] == [] ==> k' == y;
    }
  }

  /** Walking the remainder that `createChildren` grafted below `x`, in any
      tree holding the grafted node at `b`, goes down the new directories in
      lockstep and ends, successfully, on a new leaf built from the
      descriptor, provided the remainder does not end with a slash and the
      descriptor is not a symlink (a symlink leaf would be stepped over). */
  lemma {:induction false} GraftRun(t: Node, b: Addr, x: Node, rem: Bytes, vf: VirtualFile, links: nat)
    requires IsDir(x.mode) && Fresh(x, rem) && !IsSymlink(vf.mode)
    requires rem != [] && rem[|rem| - 1] != Slash
    requires Graft(x, rem, vf).panic.None?
    requires links <= MaxLinks && At(t, b) == Some(Graft(x, rem, vf).node)
    ensures var r := Run(t, Plain, Cursor(b, Graft(x, rem, vf).node, rem, links));
            r.Ok? && r.value.halt.None? && r.value.node == NewLeaf(r.value.node.name, vf)
    decreases |rem|, 1
  {
    var g := Graft(x, rem, vf).node;
    var rest := Tail(rem);
    HeadTailSplit(rem);
    if Head(rem) == [] {
      TailIsSuffix(rem);
      HeadNonEmptyOrKidless(x, rem);
      assert rest != [] && rest[|rest| - 1] == rem[|rem| - 1];
      assert g == Graft(x, rest, vf).node;
      assert Iterate(t, Plain, Cursor(b, g, rem, links)) == Next(Cursor(b, g, rest, links));
      GraftRun(t, b, x, rest, vf, links);
    } else if Slash !in rem {
      GraftRunLeaf(t, b, x, rem, vf, links);
    } else {
      GraftRunDir(t, b, x, rem, vf, links);
    }
  }

  /** `GraftRun` for a remainder whose head is a name: the walk enters the
      child grafted for it, the new leaf when no slash follows. */
  lemma GraftRunLeaf(t: Node, b: Addr, x: Node, rem: Bytes, vf: VirtualFile, links: nat)
    requires IsDir(x.mode) && Fresh(x, rem) && !IsSymlink(vf.mode)
    requires rem != [] && Slash !in rem
    requires Graft(x, rem, vf).panic.None?
    requires links <= MaxLinks && At(t, b) == Some(Graft(x, rem, vf).node)
    ensures var r := Run(t, Plain, Cursor(b, Graft(x, rem, vf).node, rem, links));
            r.Ok? && r.value.halt.None? && r.value.node == NewLeaf(r.value.node.name, vf)
  {
    HeadTailSplit(rem);
    var child := NewLeaf(rem, vf);
    assert Graft(x, rem, vf).node == DirAppend(x, child);
    DescendAppended(t, b, x, child, rem, links);
    var c' := Cursor(b + [|Kids(x)|], child, [], links);
    assert Iterate(t, Plain, c') == Done(Ok(Walk(c'.addr, child, [], None)));
  }

  /** `GraftRun` for a remainder whose head is a name followed by a slash:
      the walk enters the default directory grafted for it, and the rest of
      the remainder is walked below it. */
  lemma {:induction false} GraftRunDir(t: Node, b: Addr, x: Node, rem: Bytes, vf: VirtualFile, links: nat)
    requires IsDir(x.mode) && Fresh(x, rem) && !IsSymlink(vf.mode)
    requires rem != [] && rem[|rem| - 1] != Slash && Head(rem) != [] && Slash in rem
    requires Graft(x, rem, vf).panic.None?
    requires links <= MaxLinks && At(t, b) == Some(Graft(x, rem, vf).node)
    ensures var r := Run(t, Plain, Cursor(b, Graft(x, rem, vf).node, rem, links));
            r.Ok? && r.value.halt.None? && r.value.node == NewLeaf(r.value.node.name, vf)
    decreases |rem|, 0
  {
    var h, rest := Head(rem), Tail(rem);
    var d := NewDirNode(ModeDir, h);
    var child := Graft(d, rest, vf).node;
    var k := |Kids(x)|;
    GraftDirStep(x, rem, vf);
    assert At(t, b + [k]) == Some(child) &&
           Run(t, Plain, Cursor(b, Graft(x, rem, vf).node, rem, links)) == Run(t, Plain, Cursor(b + [k], child, rest, links)) by {
      DescendAppended(t, b, x, child, rem, links);
    }
    GraftRun(t, b + [k], d, rest, vf, links);
  }

  /** What `createChildren` does for a fresh name followed by a slash: it
      appends a default directory of that name, grafted with the rest. */
  lemma GraftDirStep(x: Node, rem: Bytes, vf: VirtualFile)
    requires IsDir(x.mode) && Fresh(x, rem)
    requires rem != [] && rem[|rem| - 1] != Slash && Head(rem) != [] && Slash in rem
    requires Graft(x, rem, vf).panic.None?
    ensures var d := NewDirNode(ModeDir, Head(rem));
            && IsDir(d.mode) && Kids(d) == [] && d.name == Head(rem)
            && !IsDotName(Head(rem)) && Lookup(Kids(x), Head(rem)).None?
            && |Tail(rem)| < |rem| && Tail(rem) != [] && Tail(rem)[|Tail(rem)| - 1] != Slash
            && Graft(d, Tail(rem), vf).panic.None?
            && Graft(x, rem, vf).node == DirAppend(x, Graft(d, Tail(rem), vf).node)
  {
    var h, rest := Head(rem), Tail(rem);
    TailShrinks(rem);
    assert rest != [] && rest[|rest| - 1] == rem[|rem| - 1] by {
      HeadTailSplit(rem);
    }
    var sub := Graft(NewDirNode(ModeDir, h), rest, vf);
    assert Graft(x, rem, vf) == Grafted(DirAppend(x, sub.node), sub.panic);
  }

  /** A walk on a directory whose last child was just appended, under the
      name at the head of the remainder, descends into that child. */
  lemma DescendAppended(t: Node, b: Addr, x: Node, child: Node, rem: Bytes, links: nat)
    requires links <= MaxLinks && At(t, b) == Some(DirAppend(x, child)) && IsDir(x.mode)
    requires Head(rem) != [] && !IsDotName(Head(rem)) && child.name == Head(rem) && !IsSymlink(child.mode)
    requires Lookup(Kids(x), Head(rem)).None?
    ensures At(t, b + [|Kids(x)|]) == Some(child)
    ensures Run(t, Plain, Cursor(b, DirAppend(x, child), rem, links)) ==
            Run(t, Plain, Cursor(b + [|Kids(x)|], child, Tail(rem), links))
  {
    var g := DirAppend(x, child);
    var c := Cursor(b, g, rem, links);
    var k := |Kids(x)|;
    HeadNonEmpty(rem);
    HeadTailSplit(rem);
    TailIsSuffix(rem);
    LookupAppend(Kids(x), child, Head(rem));
    AtExtend(t, b, g, k);
    assert Iterate(t, Plain, c) == FromChild(t, Plain, c, k, Tail(rem));
  }

  /** After a `Set` that did not panic, looking the same name up the way `Set`
      does finds a node carrying the descriptor's mode and fault, and, for a
      non-directory, its content. This needs a name that does not end with a
      slash (a trailing slash makes a default directory instead) and a
      descriptor that is not a symlink (a symlink is stepped over). */
  lemma SetThenFind(fs: FileSystem, name: Bytes, vf: VirtualFile)
    requires Set(fs, name, vf).panic.None?
    requires !IsSymlink(vf.mode)
    requires name == [] || name[|name| - 1] != Slash
    ensures var r := Find(Set(fs, name, vf).fs, name, Plain);
            && r.Ok? && r.value.halt.None?
            && r.value.node.mode == vf.mode && r.value.node.err == vf.error
            && (!IsDir(vf.mode) ==> r.value.node.extra == Content(vf.content))
  {
    var w := Find(fs, name, Plain).value;
    SetCases(fs, name, vf);
    if w.rem == [] {
      UpdateThenFind(fs, name, vf, w);
    } else {
      GraftThenFind(fs, name, vf, w);
    }
  }

  /** The two ways a `Set` can finish without panicking: the name existed,
      with the descriptor's kind, and was updated in place; or the lookup
      stopped on a missing child and the rest was grafted there. */
  lemma SetCases(fs: FileSystem, name: Bytes, vf: VirtualFile)
    requires Set(fs, name, vf).panic.None?
    ensures Find(fs, name, Plain).Ok? && ModeAccepted(vf.mode)
    ensures var w := Find(fs, name, Plain).value;
            if w.rem == [] then
              && w.halt.None? && (IsDir(w.node.mode) <==> IsDir(vf.mode))
              && Set(fs, name, vf).fs == FileSystem(Replace(fs.root, w.addr, Update(w.node, vf)))
            else
              && w.halt == Some(NotExist) && Graft(w.node, w.rem, vf).panic.None?
              && Set(fs, name, vf).fs == FileSystem(Replace(fs.root, w.addr, Graft(w.node, w.rem, vf).node))
  {
    PlainHalts(fs.root, Find(fs, name, Plain));
  }

  /** `SetThenFind` when the name already exists: the lookup reaches the
      updated node. */
  lemma UpdateThenFind(fs: FileSystem, name: Bytes, vf: VirtualFile, w: Walk)
    requires Find(fs, name, Plain) == Ok(w) && w.halt.None? && w.rem == []
    requires !IsSymlink(vf.mode) && (IsDir(w.node.mode) <==> IsDir(vf.mode))
    ensures var t' := Replace(fs.root, w.addr, Update(w.node, vf));
            Find(FileSystem(t'), name, Plain) == Ok(Walk(w.addr, Update(w.node, vf), [], None))
  {
    var y := Update(w.node, vf);
    var t' := Replace(fs.root, w.addr, y);
    assert At(t', w.addr) == Some(y);
    assert Find(FileSystem(t'), name, Plain) == Run(t', Plain, Cursor(w.addr, y, [], 0)) by {
      var c := Cursor([], fs.root, Abs(name)[1..], 0);
      assert Run(fs.root, Plain, c) == Ok(w);
      ReplaceAlong(fs.root, w.addr, w.node, y);
      WalkFrame(fs.root, t', c, t', w);
      FindIsRun(FileSystem(t'), name, Plain);
    }
    assert Iterate(t', Plain, Cursor(w.addr, y, [], 0)) == Done(Ok(Walk(w.addr, y, [], None)));
  }

  /** `SetThenFind` when the lookup stopped on a missing child: the lookup in
      the grafted tree reaches the same node, then walks down the grafted
      part to the new leaf. */
  lemma GraftThenFind(fs: FileSystem, name: Bytes, vf: VirtualFile, w: Walk)
    requires Find(fs, name, Plain) == Ok(w) && w.halt == Some(NotExist)
    requires Graft(w.node, w.rem, vf).panic.None?
    requires !IsSymlink(vf.mode) && name != [] && name[|name| - 1] != Slash
    ensures var t' := Replace(fs.root, w.addr, Graft(w.node, w.rem, vf).node);
            var r := Find(FileSystem(t'), name, Plain);
            r.Ok? && r.value.halt.None? && r.value.node == NewLeaf(r.value.node.name, vf)
  {
    var g := Graft(w.node, w.rem, vf).node;
    var t' := Replace(fs.root, w.addr, g);
    FindReachesGraft(fs, name, w, g);
    HeadNonEmpty(w.rem);
    assert Fresh(w.node, w.rem);
    assert w.rem[|w.rem| - 1] == name[|name| - 1];
    GraftRun(t', w.addr, w.node, w.rem, vf, 0);
  }

  /** A lookup that stopped on a missing child, repeated after the node it
      stopped on is replaced by one with the same name and mode and more
      children, reaches the replacement with the same remainder. */
  lemma FindReachesGraft(fs: FileSystem, name: Bytes, w: Walk, g: Node)
    requires Find(fs, name, Plain) == Ok(w) && w.halt == Some(NotExist)
    requires g.name == w.node.name && g.mode == w.node.mode && Kids(w.node) <= Kids(g)
    ensures var t' := Replace(fs.root, w.addr, g);
            Find(FileSystem(t'), name, Plain) == Run(t', Plain, Cursor(w.addr, g, w.rem, 0))
  {
    var t' := Replace(fs.root, w.addr, g);
    var c := Cursor([], fs.root, Abs(name)[1..], 0);
    assert Run(fs.root, Plain, c) == Ok(w);
    PrefixCompat(Kids(w.node), Kids(g));
    ReplaceAlong(fs.root, w.addr, w.node, g);
    assert w.addr[|c.addr|..] == w.addr;
    WalkFrame(fs.root, t', c, t', w);
    assert At(t', w.addr) == Some(g);
  }

  /** A list is compatible with any extension of it. */
  lemma PrefixCompat(ks: seq<Node>, ks': seq<Node>)
    requires ks <= ks'
    ensures KidsCompat(ks, ks')
  {
  }

  /** Setting the same regular file or directory twice is setting it once. */
  lemma SetIdempotent(fs: FileSystem, name: Bytes, vf: VirtualFile)
    requires Set(fs, name, vf).panic.None?
    requires !IsSymlink(vf.mode)
    requires name == [] || name[|name| - 1] != Slash
    ensures Set(Set(fs, name, vf).fs, name, vf) == Set(fs, name, vf)
  {
    var fs' := Set(fs, name, vf).fs;
    SetThenFind(fs, name, vf);
    var w := Find(fs', name, Plain).value;
    assert Update(w.node, vf) == w.node;
    ReplaceSame(fs'.root, w.addr, w.node);
  }

  /** A name below an existing non-directory is refused before anything
      changes: a bad mode panics as such, any other descriptor with the
      directory disagreement. */
  lemma SetUnderNonDirectoryPanics(fs: FileSystem, parent: Bytes, rest: Bytes, vf: VirtualFile)
    requires Find(fs, parent, Plain).Ok? && Find(fs, parent, Plain).value.halt.None?
    requires !IsDir(Find(fs, parent, Plain).value.node.mode)
    requires Head(rest) != [] && !IsDotName(Head(rest))
    ensures Set(fs, parent + [Slash] + rest, vf) ==
              Applied(fs, Some(if ModeAccepted(vf.mode) then IsDirDisagreement else BadMode))
  {
    var w := Find(fs, parent, Plain).value;
    FindConcat(fs, parent, rest, w);
    HeadNonEmpty(rest);
    assert Iterate(fs.root, Plain, Cursor(w.addr, w.node, rest, 0)) ==
           Done(Ok(Walk(w.addr, w.node, rest, Some(NotDir))));
  }

  /** A "." or ".." component right below an existing node panics with the
      invalid name component during the lookup, before anything changes. */
  lemma SetDotPanics(fs: FileSystem, parent: Bytes, rest: Bytes, vf: VirtualFile, w: Walk)
    requires ModeAccepted(vf.mode)
    requires Find(fs, parent, Plain) == Ok(w) && w.halt.None?
    requires IsDotName(Head(rest))
    ensures Set(fs, parent + [Slash] + rest, vf) == Applied(fs, Some(InvalidNameComponent))
  {
    FindConcat(fs, parent, rest, w);
    RunDotPanics(fs.root, Plain, Cursor(w.addr, w.node, rest, 0));
  }

  /** A "." or ".." component in the part of the name the lookup found
      missing makes `Set` panic with the invalid name component, after
      grafting the components before it. */
  lemma SetGraftDotPanics(fs: FileSystem, name: Bytes, vf: VirtualFile, w: Walk, j: nat)
    requires ModeAccepted(vf.mode)
    requires Find(fs, name, Plain) == Ok(w) && w.halt == Some(NotExist)
    requires j < |Components(w.rem)| && IsDotName(Components(w.rem)[j])
    ensures Set(fs, name, vf).panic == Some(InvalidNameComponent)
  {
    SetGrafts(fs, name, vf, w);
    GraftDotPanics(w.node, w.rem, vf, j);
  }

  /** With an accepted descriptor, a lookup that stops on a missing child
      makes `Set` graft the rest of the name below the node reached, and
      panic exactly as the graft does. */
  lemma SetGrafts(fs: FileSystem, name: Bytes, vf: VirtualFile, w: Walk)
    requires ModeAccepted(vf.mode)
    requires Find(fs, name, Plain) == Ok(w) && w.halt == Some(NotExist)
    ensures var g := Graft(w.node, w.rem, vf);
            Set(fs, name, vf) == Applied(FileSystem(Replace(fs.root, w.addr, g.node)), g.panic)
  {
    FindIsRun(fs, name, Plain);
    assert w.rem != [];
    assert NotExist.ToError() != ENotDir;
  }

  /** `Set` changes nothing off the path to the node its lookup reached:
      every node whose address is neither a prefix nor an extension of that
      node's address is the same before and after. */
  lemma SetFrame(fs: FileSystem, name: Bytes, vf: VirtualFile, w: Walk, b: Addr)
    requires Find(fs, name, Plain) == Ok(w)
    requires !(w.addr <= b) && !(b <= w.addr)
    ensures At(Set(fs, name, vf).fs.root, b) == At(fs.root, b)
  {
    SetEffect(fs, name, vf);
    FindIsRun(fs, name, Plain);
    if Set(fs, name, vf).fs != fs {
      if w.halt == Some(NotExist) {
        ReplaceFrame(fs.root, w.addr, Graft(w.node, w.rem, vf).node, b);
      } else {
        ReplaceFrame(fs.root, w.addr, Update(w.node, vf), b);
      }
    }
  }


  /** Without following, naming an existing symlink resolves to the
      directory that holds it, with nothing left to walk. */
  lemma FindStepsOverSymlink(fs: FileSystem, parent: Bytes, link: Bytes)
    requires Find(fs, parent, Plain).Ok? && Find(fs, parent, Plain).value.halt.None?
    requires var d := Find(fs, parent, Plain).value.node;
             IsDir(d.mode) && Lookup(Kids(d), link).Some? && IsSymlink(Kids(d)[Lookup(Kids(d), link).value].mode)
    requires ValidName(link)
    ensures var w := Find(fs, parent, Plain).value;
            Find(fs, parent + [Slash] + link, Plain) == Ok(Walk(w.addr, w.node, [], None))
  {
    var w := Find(fs, parent, Plain).value;
    var c := Cursor(w.addr, w.node, link, 0);
    FindConcat(fs, parent, link, w);
    HeadTailSplit(link);
    TailIsSuffix(link);
    var i := Lookup(Kids(w.node), link).value;
    assert Iterate(fs.root, Plain, c) == FromChild(fs.root, Plain, c, i, []) == Next(c.(rem := []));
    assert Iterate(fs.root, Plain, c.(rem := [])) == Done(Ok(Walk(w.addr, w.node, [], None)));
  }

  /** An existing symlink cannot be set again without following it: the walk
      steps over the link and stays on its directory, so a descriptor that is
      not a directory meets a directory and panics. */
  lemma SetOverSymlinkPanics(fs: FileSystem, parent: Bytes, link: Bytes, vf: VirtualFile)
    requires Find(fs, parent, Plain).Ok? && Find(fs, parent, Plain).value.halt.None?
    requires var d := Find(fs, parent, Plain).value.node;
             IsDir(d.mode) && Lookup(Kids(d), link).Some? && IsSymlink(Kids(d)[Lookup(Kids(d), link).value].mode)
    requires ValidName(link)
    requires ModeAccepted(vf.mode) && !IsDir(vf.mode)
    ensures Set(fs, parent + [Slash] + link, vf) == Applied(fs, Some(IsDirDisagreement))
  {
    FindStepsOverSymlink(fs, parent, link);
  }

  /** Setting the name of an existing symlink with a directory descriptor
      does not touch the link: the walk stays on the link's directory, whose
      mode and fault are overwritten in place. */
  lemma SetDirectoryOverSymlink(fs: FileSystem, parent: Bytes, link: Bytes, vf: VirtualFile)
    requires Find(fs, parent, Plain).Ok? && Find(fs, parent, Plain).value.halt.None?
    requires var d := Find(fs, parent, Plain).value.node;
             IsDir(d.mode) && Lookup(Kids(d), link).Some? && IsSymlink(Kids(d)[Lookup(Kids(d), link).value].mode)
    requires ValidName(link)
    requires ModeAccepted(vf.mode) && IsDir(vf.mode)
    ensures var w := Find(fs, parent, Plain).value;
            Set(fs, parent + [Slash] + link, vf) == Applied(FileSystem(Replace(fs.root, w.addr, Update(w.node, vf))), None)
  {
    FindStepsOverSymlink(fs, parent, link);
  }

  /** A name that already exists, as a directory where the descriptor is
      not one or the other way round, panics with the directory disagreement
      and leaves the tree alone. */
  lemma SetKindMismatch(fs: FileSystem, name: Bytes, vf: VirtualFile)
    requires ModeAccepted(vf.mode)
    requires Find(fs, name, Plain).Ok? && Find(fs, name, Plain).value.halt.None?
    requires IsDir(Find(fs, name, Plain).value.node.mode) != IsDir(vf.mode)
    ensures Set(fs, name, vf) == Applied(fs, Some(IsDirDisagreement))
  {
    PlainHalts(fs.root, Find(fs, name, Plain));
  }

  // ---- The shape of what createChildren grafts ----

  /** Independent description of the subtree grafted for the components
      `cs`: a chain of default directories, one per component but the last,
      each holding only the next; the last component becomes a leaf built from
      the descriptor, or one more default directory when the remainder ended
      with a slash. */
  function Chain(cs: seq<Bytes>, vf: VirtualFile, trailing: bool): Node
    requires cs != []
    decreases |cs|
  {
    if |cs| == 1 then
      if trailing then NewDirNode(ModeDir, cs[0]) else NewLeaf(cs[0], vf)
    else DirAppend(NewDirNode(ModeDir, cs[0]), Chain(cs[1..], vf, trailing))
  }

  /** A remainder without components is made of slashes only. */
  lemma {:induction false} NoComponentsAllSlashes(s: Bytes)
    requires Components(s) == []
    ensures forall j :: 0 <= j < |s| ==> s[j] == Slash
    decreases |s|
  {
    ComponentsHeadTail(s);
    if Slash in s {
      var t := Tail(s);
      assert Head(s) == [] && Components(t) == [];
      assert s[0] == Slash && t == s[1..];
      NoComponentsAllSlashes(t);
      assert forall j :: 1 <= j < |s| ==> s[j] == t[j - 1];
    }
  }

  /** With no component to create, `createChildren` changes nothing. */
  lemma {:induction false} GraftNothing(x: Node, rem: Bytes, vf: VirtualFile)
    requires Components(rem) == []
    ensures Graft(x, rem, vf) == Grafted(x, None)
    decreases |rem|
  {
    ComponentsHeadTail(rem);
    HeadTailSplit(rem);
    if Slash in rem {
      GraftNothing(x, Tail(rem), vf);
    }
  }

  /** `createChildren` below a directory `x`, for a remainder with at least
      one component and no "." or "..", appends exactly one child to `x`: the
      `Chain` of the remainder's components, ending in a leaf from the
      descriptor, or in a default directory when the remainder ends with a
      slash. It does not panic. */
  lemma {:induction false} GraftBuildsChain(x: Node, rem: Bytes, vf: VirtualFile)
    requires IsDir(x.mode)
    requires Components(rem) != []
    requires forall j :: 0 <= j < |Components(rem)| ==> !IsDotName(Components(rem)[j])
    ensures Graft(x, rem, vf) == Grafted(DirAppend(x, Chain(Components(rem), vf, EndsWithSlash(rem))), None)
    decreases |rem|, 2
  {
    ComponentsHeadTail(rem);
    HeadTailSplit(rem);
    if Slash !in rem {
      assert Components(rem) == [rem];
    } else if Head(rem) == [] {
      GraftSkipsSlash(x, rem, vf);
    } else if Components(Tail(rem)) == [] {
      assert Components(rem)[0] == Head(rem);
      GraftLastDirectory(x, rem, vf);
    } else {
      GraftChainStep(x, rem, vf);
    }
  }

  /** `createChildren` panics with the invalid name component as soon as
      any component of the remainder is "." or "..". */
  lemma {:induction false} GraftDotPanics(x: Node, rem: Bytes, vf: VirtualFile, j: nat)
    requires j < |Components(rem)| && IsDotName(Components(rem)[j])
    ensures Graft(x, rem, vf).panic == Some(InvalidNameComponent)
    decreases |rem|
  {
    ComponentsHeadTail(rem);
    HeadTailSplit(rem);
    var h := Head(rem);
    if Slash in rem {
      if h == [] {
        GraftDotPanics(x, Tail(rem), vf, j);
      } else if !IsDotName(h) {
        assert Components(rem)[0] == h;
        GraftDotPanics(NewDirNode(ModeDir, h), Tail(rem), vf, j - 1);
      }
    }
  }

  /** The step of `GraftBuildsChain` on a leading slash: it is skipped. */
  lemma {:induction false} GraftSkipsSlash(x: Node, rem: Bytes, vf: VirtualFile)
    requires IsDir(x.mode)
    requires Components(rem) != []
    requires forall j :: 0 <= j < |Components(rem)| ==> !IsDotName(Components(rem)[j])
    requires Slash in rem && Head(rem) == []
    ensures Graft(x, rem, vf) == Grafted(DirAppend(x, Chain(Components(rem), vf, EndsWithSlash(rem))), None)
    decreases |rem|, 1
  {
    var rest := Tail(rem);
    var cs := Components(rem);
    ComponentsHeadTail(rem);
    assert rem[0] == Slash && rest == rem[1..];
    assert Components(rest) == cs;
    assert forall j :: 0 <= j < |cs| ==> !IsDotName(cs[j]);
    assert Graft(x, rem, vf) == Graft(x, rest, vf);
    assert EndsWithSlash(rest) == EndsWithSlash(rem);
    GraftBuildsChain(x, rest, vf);
  }

  /** The step of `GraftBuildsChain` on the last component followed by
      slashes only: it becomes a default directory. */
  lemma GraftLastDirectory(x: Node, rem: Bytes, vf: VirtualFile)
    requires IsDir(x.mode)
    requires Slash in rem && Head(rem) != [] && !IsDotName(Head(rem))
    requires Components(Tail(rem)) == []
    ensures Components(rem) == [Head(rem)]
    ensures Graft(x, rem, vf) == Grafted(DirAppend(x, Chain(Components(rem), vf, EndsWithSlash(rem))), None)
  {
    var h, rest := Head(rem), Tail(rem);
    ComponentsHeadTail(rem);
    HeadTailSplit(rem);
    GraftNothing(NewDirNode(ModeDir, h), rest, vf);
    NoComponentsAllSlashes(rest);
    assert rem == h + [Slash] + rest;
    assert EndsWithSlash(rem) by {
      if rest != [] {
        assert rem[|rem| - 1] == rest[|rest| - 1];
      }
    }
  }

  /** The step of `GraftBuildsChain` on a component with more to come: a
      default directory holding the chain of the rest. */
  lemma {:induction false} GraftChainStep(x: Node, rem: Bytes, vf: VirtualFile)
    requires IsDir(x.mode)
    requires Components(rem) != []
    requires forall j :: 0 <= j < |Components(rem)| ==> !IsDotName(Components(rem)[j])
    requires Slash in rem && Head(rem) != [] && Components(Tail(rem)) != []
    ensures Graft(x, rem, vf) == Grafted(DirAppend(x, Chain(Components(rem), vf, EndsWithSlash(rem))), None)
    decreases |rem|, 1
  {
    var h, rest := Head(rem), Tail(rem);
    var cs := Components(rest);
    ComponentsHeadTail(rem);
    HeadTailSplit(rem);
    assert Components(rem) == [h] + cs;
    assert !IsDotName(Components(rem)[0]);
    assert forall j :: 0 <= j < |cs| ==> cs[j] == Components(rem)[j + 1];
    GraftBuildsChain(NewDirNode(ModeDir, h), rest, vf);
    assert rest != [];
    assert rem == h + [Slash] + rest;
    assert rem[|rem| - 1] == rest[|rest| - 1];
    assert Chain(Components(rem), vf, EndsWithSlash(rem)) ==
           DirAppend(NewDirNode(ModeDir, h), Chain(cs, vf, EndsWithSlash(rest)));
  }
}
