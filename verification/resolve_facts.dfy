/** Properties of the resolution walk that relate several walks: what the
    fault and symlink policies change, how a walk composes, and which changes
    to a tree a walk cannot notice. */
module ResolveFacts {
  import opened Base
  import opened Modes
  import opened Paths
  import opened Tree
  import opened Resolve

  /** The walk is stopped by an injected fault. */
  predicate IsInjected(r: Outcome<Walk>)
  {
    r.Ok? && r.value.halt.Some? && r.value.halt.value.Injected?
  }

  /** Checking injected faults can only add a fault halt: a walk that checks
      faults either gives exactly the result of the same walk ignoring them, or
      stops on a fault. When the fault-ignoring walk succeeds on a node that
      carries a fault, the checking walk does stop on a fault (that node's, or
      one met earlier). */
  lemma {:induction false} InjectedFaultsOnlyAdd(root: Node, follow: bool, c: Cursor)
    requires Valid(root, c)
    ensures Run(root, Policy(false, follow), c) == Run(root, Policy(true, follow), c)
            || IsInjected(Run(root, Policy(false, follow), c))
    ensures var r1 := Run(root, Policy(true, follow), c);
            r1.Ok? && r1.value.halt.None? && r1.value.node.err.Some? ==>
              IsInjected(Run(root, Policy(false, follow), c))
    decreases MaxLinks + 1 - c.links, |c.rem|
  {
    var p0, p1 := Policy(false, follow), Policy(true, follow);
    if c.node.err.None? {
      assert Iterate(root, p0, c) == Iterate(root, p1, c);
      match Iterate(root, p1, c)
      case Done(_) =>
      case Next(c') => InjectedFaultsOnlyAdd(root, follow, c');
    }
  }

  /** Every injected fault in the tree is `e`: each node carries no fault or
      exactly that one. */
  predicate FaultsWithin(n: Node, e: Option<Error>)
    decreases n
  {
    && (n.err.None? || n.err == e)
    && (n.extra.Children? ==> forall i :: 0 <= i < |n.extra.kids| ==> FaultsWithin(n.extra.kids[i], e))
  }

  /** No node of the tree carries an injected fault. */
  predicate FaultFree(n: Node)
  {
    FaultsWithin(n, None)
  }

  /** Every node of a tree whose faults are all `e` has only `e` as fault. */
  lemma {:induction false} FaultsWithinAt(t: Node, a: Addr, x: Node, e: Option<Error>)
    requires FaultsWithin(t, e) && At(t, a) == Some(x)
    ensures FaultsWithin(x, e)
    decreases |a|
  {
    if a != [] {
      FaultsWithinAt(Kids(t)[a[0]], a[1..], x, e);
    }
  }

  /** In a tree without injected faults the fault policy makes no difference. */
  lemma FaultPolicyIrrelevant(root: Node, follow: bool, c: Cursor)
    requires Valid(root, c) && FaultFree(root)
    ensures Run(root, Policy(false, follow), c) == Run(root, Policy(true, follow), c)
  {
    InjectedFaultsOnlyAdd(root, follow, c);
    var r0 := Run(root, Policy(false, follow), c);
    if IsInjected(r0) {
      FaultsWithinAt(root, r0.value.addr, r0.value.node, None);
    }
  }

  /** No node below `n` is a symlink. */
  predicate NoSymlinks(n: Node)
    decreases n
  {
    n.extra.Children? ==>
      forall i :: 0 <= i < |n.extra.kids| ==> !IsSymlink(n.extra.kids[i].mode) && NoSymlinks(n.extra.kids[i])
  }

  /** Every node of a symlink-free tree is symlink-free. */
  lemma {:induction false} NoSymlinksAt(t: Node, a: Addr, x: Node)
    requires NoSymlinks(t) && At(t, a) == Some(x)
    ensures NoSymlinks(x)
    decreases |a|
  {
    if a != [] {
      NoSymlinksAt(Kids(t)[a[0]], a[1..], x);
    }
  }

  /** In a tree without symlinks the symlink policy makes no difference. */
  lemma {:induction false} SymlinkPolicyIrrelevant(root: Node, ignore: bool, c: Cursor)
    requires Valid(root, c) && NoSymlinks(root)
    ensures Run(root, Policy(ignore, true), c) == Run(root, Policy(ignore, false), c)
    decreases MaxLinks + 1 - c.links, |c.rem|
  {
    NoSymlinksAt(root, c.addr, c.node);
    assert Iterate(root, Policy(ignore, true), c) == Iterate(root, Policy(ignore, false), c);
    match Iterate(root, Policy(ignore, false), c)
    case Done(_) =>
    case Next(c') => SymlinkPolicyIrrelevant(root, ignore, c');
  }

  /** Symlink splicing, for a remainder whose first component names a symlink
      child of the current node: without following, the walk stays on the
      current node and drops the component; following with no link left fails
      with too many links, the remainder past the link consumed; otherwise
      the walk goes on with the target and a slash spliced in front of the
      rest, from the root and without the leading slash when the target is
      absolute, and from the current node when it is relative. */
  lemma SymlinkSplice(root: Node, p: Policy, c: Cursor, i: nat)
    requires Valid(root, c)
    requires p.ignoreInjectedFaults || c.node.err.None?
    requires IsDir(c.node.mode) && Head(c.rem) != [] && !IsDotName(Head(c.rem))
    requires Lookup(Kids(c.node), Head(c.rem)) == Some(i) && IsSymlink(Kids(c.node)[i].mode)
    ensures var rest, target := Tail(c.rem), Data(Kids(c.node)[i]);
            && (!p.resolveSymlinks ==> Run(root, p, c) == Run(root, p, c.(rem := rest)))
            && (p.resolveSymlinks && c.links == MaxLinks ==>
                  Run(root, p, c) == Ok(Walk(c.addr, c.node, rest, Some(TooManyLinks))))
            && (p.resolveSymlinks && c.links < MaxLinks && |target| > 0 && target[0] == Slash ==>
                  Run(root, p, c) == Run(root, p, Cursor([], root, target[1..] + [Slash] + rest, c.links + 1)))
            && (p.resolveSymlinks && c.links < MaxLinks && !(|target| > 0 && target[0] == Slash) ==>
                  Run(root, p, c) == Run(root, p, c.(rem := target + [Slash] + rest, links := c.links + 1)))
  {
    if p.resolveSymlinks {
      SymlinkFollowed(root, p, c, i);
    } else {
      SymlinkSkipped(root, p, c, i);
    }
  }

  /** `SymlinkSplice` without following: the component is dropped. */
  lemma SymlinkSkipped(root: Node, p: Policy, c: Cursor, i: nat)
    requires Valid(root, c) && !p.resolveSymlinks
    requires p.ignoreInjectedFaults || c.node.err.None?
    requires IsDir(c.node.mode) && Head(c.rem) != [] && !IsDotName(Head(c.rem))
    requires Lookup(Kids(c.node), Head(c.rem)) == Some(i) && IsSymlink(Kids(c.node)[i].mode)
    ensures Run(root, p, c) == Run(root, p, c.(rem := Tail(c.rem)))
  {
    ComponentStep(root, p, c, i);
    assert Iterate(root, p, c) == Next(c.(rem := Tail(c.rem)));
  }

  /** `SymlinkSplice` with following: too many links, or the target spliced
      in front of the rest. */
  lemma SymlinkFollowed(root: Node, p: Policy, c: Cursor, i: nat)
    requires Valid(root, c) && p.resolveSymlinks
    requires p.ignoreInjectedFaults || c.node.err.None?
    requires IsDir(c.node.mode) && Head(c.rem) != [] && !IsDotName(Head(c.rem))
    requires Lookup(Kids(c.node), Head(c.rem)) == Some(i) && IsSymlink(Kids(c.node)[i].mode)
    ensures var rest, target := Tail(c.rem), Data(Kids(c.node)[i]);
            && (c.links == MaxLinks ==>
                  Run(root, p, c) == Ok(Walk(c.addr, c.node, rest, Some(TooManyLinks))))
            && (c.links < MaxLinks && |target| > 0 && target[0] == Slash ==>
                  Run(root, p, c) == Run(root, p, Cursor([], root, target[1..] + [Slash] + rest, c.links + 1)))
            && (c.links < MaxLinks && !(|target| > 0 && target[0] == Slash) ==>
                  Run(root, p, c) == Run(root, p, c.(rem := target + [Slash] + rest, links := c.links + 1)))
  {
    var rest, target := Tail(c.rem), Data(Kids(c.node)[i]);
    ComponentStep(root, p, c, i);
    if c.links == MaxLinks {
      assert Iterate(root, p, c) == Done(Ok(Walk(c.addr, c.node, rest, Some(TooManyLinks))));
    } else if |target| > 0 && target[0] == Slash {
      assert Iterate(root, p, c) == Next(Cursor([], root, target[1..] + [Slash] + rest, c.links + 1));
    } else {
      assert Iterate(root, p, c) == Next(c.(rem := target + [Slash] + rest, links := c.links + 1));
    }
  }

  /** A walk that goes on from `c'` after one iteration returns what the
      walk from `c'` returns. */
  lemma RunNext(root: Node, p: Policy, c: Cursor, c': Cursor)
    requires Valid(root, c) && Iterate(root, p, c) == Next(c')
    ensures Valid(root, c') && Run(root, p, c) == Run(root, p, c')
  {
  }

  /** One iteration whose head names child `i` of the current node, checked
      for faults already: `FromChild` decides, with the head consumed. */
  lemma ComponentStep(root: Node, p: Policy, c: Cursor, i: nat)
    requires Valid(root, c)
    requires p.ignoreInjectedFaults || c.node.err.None?
    requires IsDir(c.node.mode) && Head(c.rem) != [] && !IsDotName(Head(c.rem))
    requires Lookup(Kids(c.node), Head(c.rem)) == Some(i)
    ensures |Tail(c.rem)| < |c.rem| && IsSuffix(Tail(c.rem), c.rem)
    ensures Iterate(root, p, c) == FromChild(root, p, c, i, Tail(c.rem))
  {
    HeadTailSplit(c.rem);
    TailIsSuffix(c.rem);
  }

  /** A walk that checks faults stops on the first faulty node it stands on,
      with that node's fault and whatever remainder is left, before looking
      at any component. */
  lemma RunInjected(root: Node, p: Policy, c: Cursor)
    requires Valid(root, c) && !p.ignoreInjectedFaults && c.node.err.Some?
    ensures Run(root, p, c) == Ok(Walk(c.addr, c.node, c.rem, Some(Injected(c.node.err.value))))
  {
  }

  /** Under any policy, a "." or ".." component panics with the invalid name
      component, once the current node's fault has not stopped the walk. */
  lemma RunDotPanics(root: Node, p: Policy, c: Cursor)
    requires Valid(root, c)
    requires p.ignoreInjectedFaults || c.node.err.None?
    requires IsDotName(Head(c.rem))
    ensures Run(root, p, c) == Panicked(InvalidNameComponent)
  {
    assert c.rem != [];
  }

  /** Under any policy, a component the current directory does not hold
      stops the walk there with `NotExist`, the component still at the head
      of the remainder. */
  lemma RunMissingChild(root: Node, p: Policy, c: Cursor)
    requires Valid(root, c)
    requires p.ignoreInjectedFaults || c.node.err.None?
    requires IsDir(c.node.mode) && Head(c.rem) != [] && !IsDotName(Head(c.rem))
    requires Lookup(Kids(c.node), Head(c.rem)).None?
    ensures Run(root, p, c) == Ok(Walk(c.addr, c.node, c.rem, Some(NotExist)))
  {
    HeadNonEmpty(c.rem);
  }

  /** Under any policy, a component met on a node that is not a directory
      stops the walk there with `NotDir`, the component still at the head of
      the remainder. */
  lemma RunNotDir(root: Node, p: Policy, c: Cursor)
    requires Valid(root, c)
    requires p.ignoreInjectedFaults || c.node.err.None?
    requires !IsDir(c.node.mode) && Head(c.rem) != [] && !IsDotName(Head(c.rem))
    ensures Run(root, p, c) == Ok(Walk(c.addr, c.node, c.rem, Some(NotDir)))
  {
    HeadNonEmpty(c.rem);
  }

  /** Without symlink following, resolving `r1 + "/" + r2` is resolving `r1`
      and then resolving `r2` from wherever `r1` led. */
  lemma {:induction false} RunConcat(root: Node, p: Policy, c: Cursor, r2: Bytes, w: Walk)
    requires Valid(root, c) && !p.resolveSymlinks
    requires Run(root, p, c) == Ok(w) && w.halt.None?
    ensures Run(root, p, c.(rem := c.rem + [Slash] + r2)) == Run(root, p, Cursor(w.addr, w.node, r2, c.links))
    decreases |c.rem|, 1
  {
    if c.rem == [] {
      HeadTailJoin(c.rem, r2);
      assert Iterate(root, p, c.(rem := c.rem + [Slash] + r2)) == Next(c.(rem := r2));
    } else {
      RunConcatStep(root, p, c, r2, w);
    }
  }

  /** The step of `RunConcat` for a non-empty `r1`: the first iteration over
      `r1 + "/" + r2` moves as the one over `r1` does. */
  lemma {:induction false} RunConcatStep(root: Node, p: Policy, c: Cursor, r2: Bytes, w: Walk)
    requires Valid(root, c) && !p.resolveSymlinks && c.rem != []
    requires Run(root, p, c) == Ok(w) && w.halt.None?
    ensures Run(root, p, c.(rem := c.rem + [Slash] + r2)) == Run(root, p, Cursor(w.addr, w.node, r2, c.links))
    decreases |c.rem|, 0
  {
    var c' := Iterate(root, p, c).cur;
    IterateConcat(root, p, c, r2);
    assert Run(root, p, c') == Ok(w);
    if Slash in c.rem {
      RunConcat(root, p, c', r2, w);
    } else {
      LastComponent(root, p, c, w);
    }
  }

  /** Without symlink following, a walk over `r1` that stops on an injected
      fault stops on the same node, with the same fault, over `r1 + "/" + r2`:
      the slash and `r2` are never reached. */
  lemma {:induction false} RunConcatInjected(root: Node, p: Policy, c: Cursor, r2: Bytes, w: Walk)
    requires Valid(root, c) && !p.resolveSymlinks
    requires Run(root, p, c) == Ok(w) && w.halt.Some? && w.halt.value.Injected?
    ensures var r := Run(root, p, c.(rem := c.rem + [Slash] + r2));
            r.Ok? && r.value.halt == w.halt && r.value.addr == w.addr && r.value.node == w.node
    decreases |c.rem|, 1
  {
    if !p.ignoreInjectedFaults && c.node.err.Some? {
      RunInjected(root, p, c);
      RunInjected(root, p, c.(rem := c.rem + [Slash] + r2));
    } else {
      RunConcatInjectedStep(root, p, c, r2, w);
    }
  }

  /** The step of `RunConcatInjected` on a node whose fault does not stop
      the walk: the first iteration over `r1 + "/" + r2` moves as the one
      over `r1` does, and the fault is met further on. */
  lemma {:induction false} RunConcatInjectedStep(root: Node, p: Policy, c: Cursor, r2: Bytes, w: Walk)
    requires Valid(root, c) && !p.resolveSymlinks
    requires p.ignoreInjectedFaults || c.node.err.None?
    requires Run(root, p, c) == Ok(w) && w.halt.Some? && w.halt.value.Injected?
    ensures var r := Run(root, p, c.(rem := c.rem + [Slash] + r2));
            r.Ok? && r.value.halt == w.halt && r.value.addr == w.addr && r.value.node == w.node
    decreases |c.rem|, 0
  {
    InjectedGoesOn(root, p, c, w);
    var c' := Iterate(root, p, c).cur;
    var c2 := c.(rem := c.rem + [Slash] + r2);
    RunNext(root, p, c, c');
    IterateConcat(root, p, c, r2);
    if Slash in c.rem {
      RunNext(root, p, c2, c'.(rem := c'.rem + [Slash] + r2));
      RunConcatInjected(root, p, c', r2, w);
    } else {
      RunNext(root, p, c2, c'.(rem := r2));
      LastComponentInjected(root, p, c, w);
      RunInjected(root, p, c'.(rem := r2));
    }
  }

  /** A walk that stops on an injected fault, standing on a node whose own
      fault does not stop it, has a component left and takes a step. */
  lemma InjectedGoesOn(root: Node, p: Policy, c: Cursor, w: Walk)
    requires Valid(root, c)
    requires p.ignoreInjectedFaults || c.node.err.None?
    requires Run(root, p, c) == Ok(w) && w.halt.Some? && w.halt.value.Injected?
    ensures c.rem != [] && Iterate(root, p, c).Next?
  {
  }

  /** When `r1` is a single component and the walk over it stops on an
      injected fault, the fault is that of the node the first iteration
      reached, with nothing left of `r1`. */
  lemma LastComponentInjected(root: Node, p: Policy, c: Cursor, w: Walk)
    requires Valid(root, c) && !p.resolveSymlinks && c.rem != [] && Slash !in c.rem
    requires Iterate(root, p, c).Next?
    requires Run(root, p, c) == Ok(w) && w.halt.Some? && w.halt.value.Injected?
    ensures var c' := Iterate(root, p, c).cur;
            && c'.rem == [] && c'.addr == w.addr && c'.node == w.node
            && !p.ignoreInjectedFaults && c'.node.err == Some(w.halt.value.fault)
  {
    var c' := Iterate(root, p, c).cur;
    assert c'.rem == [] by { HeadTailSplit(c.rem); }
    RunNext(root, p, c, c');
    assert Iterate(root, p, c') == Done(Ok(w));
  }

  /** When `r1` is a single component, the walk over it ends right after its
      first iteration, where that iteration left it. */
  lemma LastComponent(root: Node, p: Policy, c: Cursor, w: Walk)
    requires Valid(root, c) && !p.resolveSymlinks && c.rem != [] && Slash !in c.rem
    requires Run(root, p, c) == Ok(w) && w.halt.None?
    ensures Iterate(root, p, c).Next?
    ensures var c' := Iterate(root, p, c).cur;
            c'.addr == w.addr && c'.node == w.node && c'.links == c.links && c'.rem == []
  {
    var c' := Iterate(root, p, c).cur;
    assert c'.rem == [] by { HeadTailSplit(c.rem); }
    assert Run(root, p, c') == Ok(w);
    assert Iterate(root, p, c') == Done(Ok(w));
  }

  /** One iteration over `r1 + "/" + r2`, for a non-empty `r1` the walk goes
      on from: it moves as it does over `r1` alone, and the slash and `r2`
      stay behind the remainder, or become the whole remainder once `r1` is
      used up. */
  lemma IterateConcat(root: Node, p: Policy, c: Cursor, r2: Bytes)
    requires Valid(root, c) && !p.resolveSymlinks && c.rem != []
    requires Iterate(root, p, c).Next?
    ensures var c' := Iterate(root, p, c).cur;
            Iterate(root, p, c.(rem := c.rem + [Slash] + r2)) ==
              Next(if Slash in c.rem then c'.(rem := c'.rem + [Slash] + r2) else c'.(rem := r2))
  {
    var c2 := c.(rem := c.rem + [Slash] + r2);
    HeadTailJoin(c.rem, r2);
    HeadTailSplit(c.rem);
    assert Head(c2.rem) == Head(c.rem);
    if Slash in c.rem {
      assert Tail(c2.rem) == Tail(c.rem) + [Slash] + r2;
    } else {
      assert Tail(c2.rem) == r2;
    }
  }

  /** The children lists `ks` and `ks'` agree, as far as a walk without
      symlink following can tell, on every child of `ks`: same name, same
      symlink bit. `ks'` may have further children. */
  predicate KidsCompat(ks: seq<Node>, ks': seq<Node>)
  {
    && |ks| <= |ks'|
    && forall j :: 0 <= j < |ks| ==>
         ks[j].name == ks'[j].name && (IsSymlink(ks[j].mode) <==> IsSymlink(ks'[j].mode))
  }

  /** A lookup that succeeds among compatible children finds the same index. */
  lemma {:induction false} LookupCompat(ks: seq<Node>, ks': seq<Node>, name: Bytes)
    requires KidsCompat(ks, ks') && Lookup(ks, name).Some?
    ensures Lookup(ks', name) == Lookup(ks, name)
    decreases |ks|
  {
    if ks[0].name != name {
      assert KidsCompat(ks[1..], ks'[1..]);
      LookupCompat(ks[1..], ks'[1..], name);
    }
  }

  /** `x` and `x'` look the same to a walk without symlink following along the
      address `path` below them: at each node the directory bit agrees and the
      children are compatible. */
  predicate Along(x: Node, x': Node, path: Addr)
    decreases |path|
  {
    && (IsDir(x.mode) <==> IsDir(x'.mode))
    && KidsCompat(Kids(x), Kids(x'))
    && (path != [] ==>
          && path[0] < |Kids(x)|
          && Along(Kids(x)[path[0]], Kids(x')[path[0]], path[1..]))
  }

  /** The frame of a walk that ignores faults and does not follow symlinks:
      if it succeeds, or stops on a missing child, in tree `t`, then in any
      tree `t'` that looks the same along the way it reaches the same address
      and then carries on from there with the same remainder. */
  lemma {:induction false} WalkFrame(t: Node, t': Node, c: Cursor, n': Node, w: Walk)
    requires Valid(t, c) && Valid(t', c.(node := n'))
    requires Run(t, Plain, c) == Ok(w) && (w.halt.None? || w.halt == Some(NotExist))
    requires c.addr <= w.addr && Along(c.node, n', w.addr[|c.addr|..])
    ensures At(t', w.addr).Some?
    ensures Run(t', Plain, c.(node := n')) == Run(t', Plain, Cursor(w.addr, At(t', w.addr).value, w.rem, c.links))
    decreases |c.rem|, 1
  {
    var n := c.node;
    var c0 := c.(node := n');
    if c.rem != [] {
      var h, rest := Head(c.rem), Tail(c.rem);
      HeadTailSplit(c.rem);
      TailIsSuffix(c.rem);
      if h == [] {
        assert Iterate(t, Plain, c) == Next(c.(rem := rest));
        assert Iterate(t', Plain, c0) == Next(c0.(rem := rest));
        WalkFrame(t, t', c.(rem := rest), n', w);
      } else if IsDir(n.mode) && !IsDotName(h) && Lookup(Kids(n), h).Some? {
        var i := Lookup(Kids(n), h).value;
        LookupCompat(Kids(n), Kids(n'), h);
        assert Iterate(t, Plain, c) == FromChild(t, Plain, c, i, rest);
        assert Iterate(t', Plain, c0) == FromChild(t', Plain, c0, i, rest);
        if IsSymlink(Kids(n)[i].mode) {
          assert Iterate(t, Plain, c) == Next(c.(rem := rest));
          assert Iterate(t', Plain, c0) == Next(c0.(rem := rest));
          WalkFrame(t, t', c.(rem := rest), n', w);
        } else {
          WalkFrameDescend(t, t', c, n', w, i);
        }
      }
    }
  }

  /** The step of `WalkFrame` that descends into the non-symlink child `i`
      named by the head of the remainder. */
  lemma {:induction false} WalkFrameDescend(t: Node, t': Node, c: Cursor, n': Node, w: Walk, i: nat)
    requires Valid(t, c) && Valid(t', c.(node := n'))
    requires Run(t, Plain, c) == Ok(w) && (w.halt.None? || w.halt == Some(NotExist))
    requires c.addr <= w.addr && Along(c.node, n', w.addr[|c.addr|..])
    requires c.rem != [] && Head(c.rem) != [] && IsDir(c.node.mode) && !IsDotName(Head(c.rem))
    requires Lookup(Kids(c.node), Head(c.rem)) == Some(i) && !IsSymlink(Kids(c.node)[i].mode)
    ensures At(t', w.addr).Some?
    ensures Run(t', Plain, c.(node := n')) == Run(t', Plain, Cursor(w.addr, At(t', w.addr).value, w.rem, c.links))
    decreases |c.rem|, 0
  {
    DescendLeft(t, c, n', w, i);
    DescendRight(t', c.(node := n'), c.node, i);
    var c' := c.(addr := c.addr + [i], node := Kids(c.node)[i], rem := Tail(c.rem));
    WalkFrame(t, t', c', Kids(n')[i], w);
  }

  /** The walk in the old tree descends into child `i`, still ends in `w`,
      and the children look the same along the rest of the way. */
  lemma DescendLeft(t: Node, c: Cursor, n': Node, w: Walk, i: nat)
    requires Valid(t, c) && Run(t, Plain, c) == Ok(w)
    requires c.addr <= w.addr && Along(c.node, n', w.addr[|c.addr|..])
    requires c.rem != [] && Head(c.rem) != [] && IsDir(c.node.mode) && !IsDotName(Head(c.rem))
    requires Lookup(Kids(c.node), Head(c.rem)) == Some(i) && !IsSymlink(Kids(c.node)[i].mode)
    ensures var c' := c.(addr := c.addr + [i], node := Kids(c.node)[i], rem := Tail(c.rem));
            && i < |Kids(n')| && Valid(t, c')
            && Run(t, Plain, c') == Ok(w) && c'.addr <= w.addr
            && Along(Kids(c.node)[i], Kids(n')[i], w.addr[|c'.addr|..])
  {
    DescendStep(t, c, i);
    var c' := c.(addr := c.addr + [i], node := Kids(c.node)[i], rem := Tail(c.rem));
    assert Run(t, Plain, c) == Run(t, Plain, c');
    assert w.addr[|c.addr|..][1..] == w.addr[|c'.addr|..];
  }

  /** The walk in the new tree, whose current node looks like `n`, descends
      into the same child `i` and keeps the same remainder. */
  lemma DescendRight(t': Node, c0: Cursor, n: Node, i: nat)
    requires Valid(t', c0) && IsDir(c0.node.mode) && KidsCompat(Kids(n), Kids(c0.node))
    requires c0.rem != [] && Head(c0.rem) != [] && !IsDotName(Head(c0.rem))
    requires Lookup(Kids(n), Head(c0.rem)) == Some(i) && !IsSymlink(Kids(n)[i].mode)
    ensures i < |Kids(c0.node)|
    ensures var c' := c0.(addr := c0.addr + [i], node := Kids(c0.node)[i], rem := Tail(c0.rem));
            Valid(t', c') && Run(t', Plain, c0) == Run(t', Plain, c')
  {
    LookupCompat(Kids(n), Kids(c0.node), Head(c0.rem));
    DescendStep(t', c0, i);
  }

  /** One iteration, ignoring faults, whose head names a child that is not a
      symlink: the walk moves onto that child with the head consumed. */
  lemma DescendStep(t: Node, c: Cursor, i: nat)
    requires Valid(t, c) && c.rem != [] && Head(c.rem) != [] && IsDir(c.node.mode) && !IsDotName(Head(c.rem))
    requires Lookup(Kids(c.node), Head(c.rem)) == Some(i) && !IsSymlink(Kids(c.node)[i].mode)
    ensures Iterate(t, Plain, c) == Next(c.(addr := c.addr + [i], node := Kids(c.node)[i], rem := Tail(c.rem)))
  {
    HeadTailSplit(c.rem);
    TailIsSuffix(c.rem);
    AtExtend(t, c.addr, c.node, i);
  }

  /** Prefixing a non-empty name and absolutizing commute. */
  lemma AbsAppend(p: Bytes, x: Bytes)
    requires p != []
    ensures Abs(p + x) == Abs(p) + x
  {
    assert (p + x)[0] == p[0];
    assert Cwd + (p + x) == (Cwd + p) + x;
  }

  /** Without symlink following, finding `parent + "/" + rest` is finding
      `parent` and then walking `rest` from the node found. */
  lemma FindConcat(fs: FileSystem, parent: Bytes, rest: Bytes, w: Walk)
    requires Find(fs, parent, Plain) == Ok(w) && w.halt.None?
    ensures Find(fs, parent + [Slash] + rest, Plain) == Run(fs.root, Plain, Cursor(w.addr, w.node, rest, 0))
  {
    FindIsRun(fs, parent, Plain);
    FindIsRun(fs, parent + [Slash] + rest, Plain);
    if parent == [] {
      assert Abs(parent + [Slash] + rest)[1..] == rest;
      assert Iterate(fs.root, Plain, Cursor([], fs.root, [], 0)) == Done(Ok(Walk([], fs.root, [], None)));
    } else {
      var c := Cursor([], fs.root, Abs(parent)[1..], 0);
      AbsConcat(parent, rest);
      RunConcat(fs.root, Plain, c, rest, w);
    }
  }

  /** Resolving `parent + "/" + rest`, where `parent` names a directory
      without a child called `Head(rest)`, ends on that directory with
      `NotExist` and `rest` still to walk. */
  lemma FindMissingChild(fs: FileSystem, parent: Bytes, rest: Bytes, w: Walk)
    requires Find(fs, parent, Plain) == Ok(w) && w.halt.None?
    requires IsDir(w.node.mode) && Head(rest) != [] && !IsDotName(Head(rest))
    requires Lookup(Kids(w.node), Head(rest)).None?
    ensures Find(fs, parent + [Slash] + rest, Plain) == Ok(Walk(w.addr, w.node, rest, Some(NotExist)))
  {
    FindConcat(fs, parent, rest, w);
    RunMissingChild(fs.root, Plain, Cursor(w.addr, w.node, rest, 0));
  }

  /** Resolving `parent + "/" + rest`, where `parent` names a node that is
      not a directory, ends on that node with `NotDir` and `rest` still to
      walk. */
  lemma FindUnderNonDirectory(fs: FileSystem, parent: Bytes, rest: Bytes, w: Walk)
    requires Find(fs, parent, Plain) == Ok(w) && w.halt.None?
    requires !IsDir(w.node.mode) && Head(rest) != [] && !IsDotName(Head(rest))
    ensures Find(fs, parent + [Slash] + rest, Plain) == Ok(Walk(w.addr, w.node, rest, Some(NotDir)))
  {
    FindConcat(fs, parent, rest, w);
    RunNotDir(fs.root, Plain, Cursor(w.addr, w.node, rest, 0));
  }

  /** The walked part of `parent + "/" + rest` is that of `parent`, a slash
      and `rest`. */
  lemma AbsConcat(parent: Bytes, rest: Bytes)
    requires parent != []
    ensures Abs(parent + [Slash] + rest)[1..] == Abs(parent)[1..] + [Slash] + rest
  {
    assert parent + [Slash] + rest == parent + ([Slash] + rest);
    AbsAppend(parent, [Slash] + rest);
  }

  /** `find` is the walk from the root over the absolutized name without its
      leading slash. */
  lemma FindIsRun(fs: FileSystem, name: Bytes, p: Policy)
    ensures Find(fs, name, p) == Run(fs.root, p, Cursor([], fs.root, Abs(name)[1..], 0))
  {
  }
}
