/** How `Set` and the read side fit together: what `Open` and `Stat` see of
    an entry that `Set` just wrote. */
module FacadeFacts {
  import opened Base
  import opened Modes
  import opened Paths
  import opened Tree
  import opened Resolve
  import opened ResolveFacts
  import opened Builder
  import opened BuilderFacts
  import opened Facade

  // ---- Faults: Set only adds the descriptor's fault ----

  /** A tree without faults has only `e` as fault, whatever `e` is. */
  lemma {:induction false} FaultFreeWithin(n: Node, e: Option<Error>)
    requires FaultFree(n)
    ensures FaultsWithin(n, e)
    decreases n
  {
    if n.extra.Children? {
      forall i | 0 <= i < |n.extra.kids|
        ensures FaultsWithin(n.extra.kids[i], e)
      {
        FaultFreeWithin(n.extra.kids[i], e);
      }
    }
  }

  /** Appending a child keeps the set of faults within `e` when the child's are. */
  lemma AppendFaultsWithin(x: Node, c: Node, e: Option<Error>)
    requires FaultsWithin(x, e) && FaultsWithin(c, e)
    ensures FaultsWithin(DirAppend(x, c), e)
  {
    var ks := Kids(x) + [c];
    assert Kids(x) != [] ==> Kids(x) == x.extra.kids;
    assert forall i :: 0 <= i < |Kids(x)| ==> ks[i] == Kids(x)[i];
  }

  /** Putting a node whose faults are within `e` into a tree whose faults are. */
  lemma {:induction false} ReplaceFaultsWithin(t: Node, a: Addr, y: Node, e: Option<Error>)
    requires FaultsWithin(t, e) && FaultsWithin(y, e)
    ensures FaultsWithin(Replace(t, a, y), e)
    decreases |a|
  {
    if a != [] && a[0] < |Kids(t)| {
      var ks := Kids(t);
      ReplaceFaultsWithin(ks[a[0]], a[1..], y, e);
      assert ks == t.extra.kids;
    }
  }

  /** What `createChildren` grafts carries no fault but the descriptor's. */
  lemma {:induction false} GraftFaultsWithin(x: Node, rem: Bytes, vf: VirtualFile, e: Option<Error>)
    requires FaultsWithin(x, e) && (vf.error.None? || vf.error == e)
    ensures FaultsWithin(Graft(x, rem, vf).node, e)
    decreases |rem|
  {
    var h := Head(rem);
    HeadTailSplit(rem);
    if h != [] {
      if !IsDotName(h) {
        if Slash !in rem {
          AppendFaultsWithin(x, NewLeaf(h, vf), e);
        } else {
          GraftFaultsWithin(NewDirNode(ModeDir, h), Tail(rem), vf, e);
          AppendFaultsWithin(x, Graft(NewDirNode(ModeDir, h), Tail(rem), vf).node, e);
        }
      }
    } else if Slash in rem {
      GraftFaultsWithin(x, Tail(rem), vf, e);
    }
  }

  /** `Set` adds no fault other than the descriptor's, whatever it returns. */
  lemma SetKeepsFaultsWithin(fs: FileSystem, name: Bytes, vf: VirtualFile, e: Option<Error>)
    requires FaultsWithin(fs.root, e) && (vf.error.None? || vf.error == e)
    ensures FaultsWithin(Set(fs, name, vf).fs.root, e)
  {
    var r, f := Set(fs, name, vf), Find(fs, name, Plain);
    SetEffect(fs, name, vf);
    if r.fs != fs {
      var w := f.value;
      FaultsWithinAt(fs.root, w.addr, w.node, e);
      if w.halt == Some(NotExist) {
        GraftFaultsWithin(w.node, w.rem, vf, e);
        ReplaceFaultsWithin(fs.root, w.addr, Graft(w.node, w.rem, vf).node, e);
      } else {
        ReplaceFaultsWithin(fs.root, w.addr, Update(w.node, vf), e);
      }
    }
  }

  // ---- Symlinks: Set adds none unless asked to ----

  /** Appending a child that is not a symlink and holds none. */
  lemma AppendNoSymlinks(x: Node, c: Node)
    requires NoSymlinks(x) && NoSymlinks(c) && !IsSymlink(c.mode)
    ensures NoSymlinks(DirAppend(x, c))
  {
    var ks := Kids(x) + [c];
    assert Kids(x) != [] ==> Kids(x) == x.extra.kids;
    assert forall i :: 0 <= i < |Kids(x)| ==> ks[i] == Kids(x)[i];
  }

  /** Putting a symlink-free node, itself no symlink below the root, into a
      symlink-free tree. */
  lemma {:induction false} ReplaceNoSymlinks(t: Node, a: Addr, y: Node)
    requires NoSymlinks(t) && NoSymlinks(y) && (a != [] ==> !IsSymlink(y.mode))
    ensures NoSymlinks(Replace(t, a, y))
    decreases |a|
  {
    if a != [] && a[0] < |Kids(t)| {
      var ks := Kids(t);
      ReplaceNoSymlinks(ks[a[0]], a[1..], y);
      assert ks == t.extra.kids;
    }
  }

  /** What `createChildren` grafts for a descriptor that is not a symlink
      holds no symlink. */
  lemma {:induction false} GraftNoSymlinks(x: Node, rem: Bytes, vf: VirtualFile)
    requires NoSymlinks(x) && !IsSymlink(vf.mode)
    ensures NoSymlinks(Graft(x, rem, vf).node)
    decreases |rem|
  {
    var h := Head(rem);
    HeadTailSplit(rem);
    if h != [] {
      if !IsDotName(h) {
        if Slash !in rem {
          AppendNoSymlinks(x, NewLeaf(h, vf));
        } else {
          GraftNoSymlinks(NewDirNode(ModeDir, h), Tail(rem), vf);
          AppendNoSymlinks(x, Graft(NewDirNode(ModeDir, h), Tail(rem), vf).node);
        }
      }
    } else if Slash in rem {
      GraftNoSymlinks(x, Tail(rem), vf);
    }
  }

  /** `Set` with a descriptor that is not a symlink adds no symlink. */
  lemma SetKeepsNoSymlinks(fs: FileSystem, name: Bytes, vf: VirtualFile)
    requires NoSymlinks(fs.root) && !IsSymlink(vf.mode)
    ensures NoSymlinks(Set(fs, name, vf).fs.root)
  {
    var r, f := Set(fs, name, vf), Find(fs, name, Plain);
    SetEffect(fs, name, vf);
    if r.fs != fs {
      var w := f.value;
      NoSymlinksAt(fs.root, w.addr, w.node);
      if w.halt == Some(NotExist) {
        GraftNoSymlinks(w.node, w.rem, vf);
        ReplaceNoSymlinks(fs.root, w.addr, Graft(w.node, w.rem, vf).node);
      } else {
        ReplaceNoSymlinks(fs.root, w.addr, Update(w.node, vf));
      }
    }
  }

  // ---- Set, then Open ----

  /** In a tree without symlinks, the lookup of `Open` and `Stat` is the
      walk that checks faults but does not follow symlinks. */
  lemma CheckedWithoutFollowing(fs: FileSystem, name: Bytes)
    requires NoSymlinks(fs.root)
    ensures var c := Cursor([], fs.root, Abs(name)[1..], 0);
            Find(fs, name, Checked) == Run(fs.root, Policy(false, false), c)
  {
    var c := Cursor([], fs.root, Abs(name)[1..], 0);
    FindIsRun(fs, name, Checked);
    SymlinkPolicyIrrelevant(fs.root, false, c);
  }

  /** After `Set` with a descriptor that is not a symlink, in a tree with no
      symlinks, the lookup of `Open` is the walk that checks faults and does
      not follow symlinks, and the walk that ignores faults reaches a node
      carrying the descriptor's mode, fault and, for a non-directory,
      content. */
  lemma OpenSeesSet(fs: FileSystem, name: Bytes, vf: VirtualFile)
    requires NoSymlinks(fs.root) && !IsSymlink(vf.mode)
    requires Set(fs, name, vf).panic.None?
    requires name == [] || name[|name| - 1] != Slash
    ensures var fs' := Set(fs, name, vf).fs;
            var c := Cursor([], fs'.root, Abs(name)[1..], 0);
            && Find(fs', name, Checked) == Run(fs'.root, Policy(false, false), c)
            && var w := Run(fs'.root, Plain, c);
               && w.Ok? && w.value.halt.None?
               && w.value.node.mode == vf.mode && w.value.node.err == vf.error
               && (!IsDir(vf.mode) ==> Data(w.value.node) == vf.content)
  {
    var fs' := Set(fs, name, vf).fs;
    SetKeepsNoSymlinks(fs, name, vf);
    SetThenFind(fs, name, vf);
    CheckedWithoutFollowing(fs', name);
    FindIsRun(fs', name, Plain);
  }

  /** A fault injected at the root makes every `Open` and `Stat` fail with
      it: the walk checks the root's fault before anything else. */
  lemma OpenFaultyRoot(fs: FileSystem, name: Bytes, e: Error)
    requires fs.root.err == Some(e)
    ensures Open(fs, name) == Fail(e) && Stat(fs, name) == Fail(e)
  {
    FindIsRun(fs, name, Checked);
    RunInjected(fs.root, Checked, Cursor([], fs.root, Abs(name)[1..], 0));
  }

  /** In a tree without symlinks whose only injected fault is `e`, a name
      below a directory carrying `e` cannot be opened or stated: the walk
      stops on that directory, or earlier, with `e`. */
  lemma OpenFaultyParent(fs: FileSystem, parent: Bytes, rest: Bytes, w: Walk, e: Error)
    requires NoSymlinks(fs.root) && FaultsWithin(fs.root, Some(e))
    requires Find(fs, parent, Plain) == Ok(w) && w.halt.None? && w.node.err == Some(e)
    ensures Open(fs, parent + [Slash] + rest) == Fail(e)
    ensures Stat(fs, parent + [Slash] + rest) == Fail(e)
  {
    var name := parent + [Slash] + rest;
    FindIsRun(fs, parent, Plain);
    if parent == [] {
      assert Iterate(fs.root, Plain, Cursor([], fs.root, [], 0)) == Done(Ok(Walk([], fs.root, [], None)));
      OpenFaultyRoot(fs, name, e);
    } else {
      var cp := Cursor([], fs.root, Abs(parent)[1..], 0);
      var checked := Policy(false, false);
      InjectedFaultsOnlyAdd(fs.root, false, cp);
      var wc := Run(fs.root, checked, cp).value;
      RunConcatInjected(fs.root, checked, cp, rest, wc);
      AbsConcat(parent, rest);
      CheckedWithoutFollowing(fs, name);
      FaultsWithinAt(fs.root, wc.addr, wc.node, Some(e));
    }
  }

  /** Setting the name of a symlink in the root with a directory descriptor
      overwrites the root itself, so a fault in the descriptor makes every
      later `Open` fail with it. */
  lemma SetOverRootSymlinkFaultsAll(fs: FileSystem, link: Bytes, vf: VirtualFile, e: Error, name: Bytes)
    requires IsDir(fs.root.mode)
    requires Lookup(Kids(fs.root), link).Some? && IsSymlink(Kids(fs.root)[Lookup(Kids(fs.root), link).value].mode)
    requires ValidName(link)
    requires ModeAccepted(vf.mode) && IsDir(vf.mode) && vf.error == Some(e)
    ensures Set(fs, [Slash] + link, vf) == Applied(FileSystem(Update(fs.root, vf)), None)
    ensures Open(Set(fs, [Slash] + link, vf).fs, name) == Fail(e)
  {
    FindIsRun(fs, [], Plain);
    assert Iterate(fs.root, Plain, Cursor([], fs.root, [], 0)) == Done(Ok(Walk([], fs.root, [], None)));
    SetDirectoryOverSymlink(fs, [], link, vf);
    assert [] + [Slash] + link == [Slash] + link;
    OpenFaultyRoot(FileSystem(Update(fs.root, vf)), name, e);
  }

  /** Opening "/." or "/.." panics with the invalid name component, unless
      the root's own fault stops the walk first. */
  lemma OpenDotPanics(fs: FileSystem, dots: Bytes)
    requires fs.root.err.None?
    requires dots == [Dot] || dots == [Dot, Dot]
    ensures Open(fs, [Slash] + dots) == Panicked(InvalidNameComponent)
    ensures Stat(fs, [Slash] + dots) == Panicked(InvalidNameComponent)
  {
    var c := Cursor([], fs.root, dots, 0);
    assert Find(fs, [Slash] + dots, Checked) == Run(fs.root, Checked, c) by {
      assert Abs([Slash] + dots)[1..] == dots;
      FindIsRun(fs, [Slash] + dots, Checked);
    }
    assert Head(dots) == dots by {
      assert IndexByte(dots, Slash) == -1;
    }
    RunDotPanics(fs.root, Checked, c);
  }

  /** In a fault-free tree without symlinks, opening or stating a name below
      a directory that lacks the next component fails with `ErrNotExist`. */
  lemma OpenMissingChild(fs: FileSystem, parent: Bytes, rest: Bytes, w: Walk)
    requires FaultFree(fs.root) && NoSymlinks(fs.root)
    requires Find(fs, parent, Plain) == Ok(w) && w.halt.None?
    requires IsDir(w.node.mode) && Head(rest) != [] && !IsDotName(Head(rest))
    requires Lookup(Kids(w.node), Head(rest)).None?
    ensures Open(fs, parent + [Slash] + rest) == Fail(ErrNotExist)
    ensures Stat(fs, parent + [Slash] + rest) == Fail(ErrNotExist)
  {
    var name := parent + [Slash] + rest;
    FindMissingChild(fs, parent, rest, w);
    CheckedAsPlain(fs, name);
  }

  /** In a fault-free tree without symlinks, opening or stating a name below
      a node that is not a directory fails with `ENotDir`. */
  lemma OpenUnderNonDirectory(fs: FileSystem, parent: Bytes, rest: Bytes, w: Walk)
    requires FaultFree(fs.root) && NoSymlinks(fs.root)
    requires Find(fs, parent, Plain) == Ok(w) && w.halt.None?
    requires !IsDir(w.node.mode) && Head(rest) != [] && !IsDotName(Head(rest))
    ensures Open(fs, parent + [Slash] + rest) == Fail(ENotDir)
    ensures Stat(fs, parent + [Slash] + rest) == Fail(ENotDir)
  {
    var name := parent + [Slash] + rest;
    FindUnderNonDirectory(fs, parent, rest, w);
    CheckedAsPlain(fs, name);
  }

  /** In a fault-free tree without symlinks, the lookup of `Open` is the
      plain one. */
  lemma CheckedAsPlain(fs: FileSystem, name: Bytes)
    requires FaultFree(fs.root) && NoSymlinks(fs.root)
    ensures Find(fs, name, Checked) == Find(fs, name, Plain)
  {
    var c := Cursor([], fs.root, Abs(name)[1..], 0);
    CheckedWithoutFollowing(fs, name);
    FindIsRun(fs, name, Plain);
    FaultPolicyIrrelevant(fs.root, false, c);
  }

  /** `Open` in a fault-free tree whose lookup, checking faults, is the walk
      `c` without following, when the walk that ignores faults succeeds. */
  lemma OpenFaultFree(fs: FileSystem, name: Bytes, c: Cursor)
    requires FaultFree(fs.root) && Valid(fs.root, c)
    requires Find(fs, name, Checked) == Run(fs.root, Policy(false, false), c)
    requires Run(fs.root, Plain, c).Ok? && Run(fs.root, Plain, c).value.halt.None?
    ensures Open(fs, name) == Ok(Descriptor(Run(fs.root, Plain, c).value.node, 0))
  {
    FaultPolicyIrrelevant(fs.root, false, c);
  }

  /** `Open` and `Stat` in a tree whose only fault is `e`, when the walk that
      ignores faults succeeds on a node carrying `e`: both fail with `e`. */
  lemma OpenFaulty(fs: FileSystem, name: Bytes, c: Cursor, e: Error)
    requires FaultsWithin(fs.root, Some(e)) && Valid(fs.root, c)
    requires Find(fs, name, Checked) == Run(fs.root, Policy(false, false), c)
    requires Run(fs.root, Plain, c).Ok? && Run(fs.root, Plain, c).value.halt.None?
    requires Run(fs.root, Plain, c).value.node.err == Some(e)
    ensures Open(fs, name) == Fail(e) && Stat(fs, name) == Fail(e)
  {
    InjectedFaultsOnlyAdd(fs.root, false, c);
    var r := Find(fs, name, Checked);
    assert IsInjected(r);
    FaultsWithinAt(fs.root, r.value.addr, r.value.node, Some(e));
    assert r.value.halt == Some(Injected(e));
  }

  /** Setting a fault-free entry that is not a symlink, in a tree with no
      faults or symlinks, and then opening the same name gives a descriptor at
      the start of a node with the descriptor's mode, no fault, and, for a
      non-directory, the descriptor's content. */
  lemma SetThenOpen(fs: FileSystem, name: Bytes, vf: VirtualFile)
    requires FaultFree(fs.root) && NoSymlinks(fs.root)
    requires vf.error.None? && !IsSymlink(vf.mode)
    requires Set(fs, name, vf).panic.None?
    requires name == [] || name[|name| - 1] != Slash
    ensures var r := Open(Set(fs, name, vf).fs, name);
            && r.Ok? && r.value.readPos == 0
            && r.value.node.mode == vf.mode && r.value.node.err.None?
            && (!IsDir(vf.mode) ==> Data(r.value.node) == vf.content)
  {
    var fs' := Set(fs, name, vf).fs;
    SetKeepsFaultsWithin(fs, name, vf, None);
    OpenSeesSet(fs, name, vf);
    OpenFaultFree(fs', name, Cursor([], fs'.root, Abs(name)[1..], 0));
  }

  /** Setting an entry with an injected fault `e`, in a tree with no faults or
      symlinks, makes `Open` and `Stat` of that name fail with exactly `e`. */
  lemma SetFaultThenOpen(fs: FileSystem, name: Bytes, vf: VirtualFile, e: Error)
    requires FaultFree(fs.root) && NoSymlinks(fs.root)
    requires vf.error == Some(e) && !IsSymlink(vf.mode)
    requires Set(fs, name, vf).panic.None?
    requires name == [] || name[|name| - 1] != Slash
    ensures Open(Set(fs, name, vf).fs, name) == Fail(e)
    ensures Stat(Set(fs, name, vf).fs, name) == Fail(e)
  {
    var fs' := Set(fs, name, vf).fs;
    FaultFreeWithin(fs.root, Some(e));
    SetKeepsFaultsWithin(fs, name, vf, Some(e));
    OpenSeesSet(fs, name, vf);
    OpenFaulty(fs', name, Cursor([], fs'.root, Abs(name)[1..], 0), e);
  }

  /** Sets a regular file, opens it and reads it to the end: the bytes read
      back are the content that was set. */
  method ReadBack(fs: FileSystem, name: Bytes, vf: VirtualFile, bufLen: nat) returns (out: Bytes)
    requires FaultFree(fs.root) && NoSymlinks(fs.root)
    requires vf.error.None? && IsRegular(vf.mode) && bufLen > 0
    requires Set(fs, name, vf).panic.None?
    requires name == [] || name[|name| - 1] != Slash
    ensures out == vf.content
  {
    var fs' := Set(fs, name, vf).fs;
    assert !IsSymlink(vf.mode) && !IsDir(vf.mode);
    SetThenOpen(fs, name, vf);
    var d := Open(fs', name).value;
    var last;
    out, last := ReadAll(d, bufLen);
  }

  // ---- Readdir ----

  /** In a well-formed tree, `Readdir` lists every child exactly once: looking
      up the name of the `i`-th entry finds entry `i`. */
  lemma ReaddirDistinct(d: Descriptor, n: int)
    requires Wf(d.node)
    requires Readdir(d, n).Ok? && Readdir(d, n).value.Some?
    ensures var es := Readdir(d, n).value.value;
            forall i :: 0 <= i < |es| ==> Lookup(es, es[i].name) == Some(i)
  {
    var es := Readdir(d, n).value.value;
    forall i | 0 <= i < |es|
      ensures Lookup(es, es[i].name) == Some(i)
    {
      LookupNone(es, es[i].name);
      var j := Lookup(es, es[i].name).value;
      assert es == d.node.extra.kids;
      assert es[j].name == es[i].name;
    }
  }
}
