/** The path resolver: `abs`, `find` and the `findHelper` walk, which moves
    through the tree one slash-separated component at a time. */
module Resolve {
  import opened Base
  import opened Modes
  import opened Paths
  import opened Tree

  /** The number of symlink redirections one walk may follow; the next one fails. */
  const MaxLinks: nat := 255

  /** How a walk treats injected faults and symlinks. */
  datatype Policy = Policy(ignoreInjectedFaults: bool, resolveSymlinks: bool)

  /** The lookup `Set` makes: faults ignored, symlinks not followed. */
  const Plain: Policy := Policy(true, false)

  /** The lookup `Open` and `Stat` make: faults checked, symlinks followed. */
  const Checked: Policy := Policy(false, true)

  /** Why a walk stopped early: a fault injected on the node it stands on, or
      one of the walk's own errors. */
  datatype Halt = Injected(fault: Error) | NotDir | NotExist | TooManyLinks {
    /** The Go error value `find` returns for this halt. */
    function ToError(): Error
    {
      match this
      case Injected(e) => e
      case NotDir => ENotDir
      case NotExist => ErrNotExist
      case TooManyLinks => ErrTooManyLinks
    }
  }

  /** What `find` returns: the address and value of the node the walk stands
      on, the part of the path it did not consume, and why it stopped (None on
      success). */
  datatype Walk = Walk(addr: Addr, node: Node, rem: Bytes, halt: Option<Halt>)

  /** `abs`: an empty or relative name is prefixed with the working directory.
      The result always starts with a slash, ends with the name, and an
      absolute name is left alone. */
  function Abs(name: Bytes): (r: Bytes)
    ensures |r| > 0 && r[0] == Slash
    ensures IsSuffix(name, r) && |r| <= |name| + 1
    ensures |name| > 0 && name[0] == Slash ==> r == name
  {
    if name == [] || name[0] != Slash then Cwd + name else name
  }

  /** The state of the `findHelper` between two iterations: the current node
      `node` at address `addr`, the unconsumed remainder `rem`, and the number
      of symlink redirections followed so far. */
  datatype Cursor = Cursor(addr: Addr, node: Node, rem: Bytes, links: nat)

  /** A cursor that describes a node of `root` and has links left to count. */
  predicate Valid(root: Node, c: Cursor)
  {
    c.links <= MaxLinks && At(root, c.addr) == Some(c.node)
  }

  /** After one iteration the walk is over, or goes on from a new cursor. */
  datatype Stepped = Done(result: Outcome<Walk>) | Next(cur: Cursor)

  /** What a walk that finishes at cursor `c` returns: never a plain error;
      a panic only for an invalid name component; otherwise the walk stays on the current
      node. Success leaves nothing unconsumed and, with faults checked, means
      the node has no fault; a non-directory or a missing child leaves the
      offending component at the head of the remainder; an injected fault is
      the current node's and needs faults to be checked; too many links needs
      symlinks to be followed; without following, the remainder is left as it
      was. */
  predicate Halted(p: Policy, c: Cursor, r: Outcome<Walk>)
  {
    && !r.Fail?
    && (r.Panicked? ==> r.reason == InvalidNameComponent)
    && (r.Ok? ==> r.value.addr == c.addr && r.value.node == c.node)
    && (r.Ok? && r.value.halt.None? ==>
          r.value.rem == [] && (!p.ignoreInjectedFaults ==> c.node.err.None?))
    && (r.Ok? && r.value.halt == Some(NotDir) ==>
          var h := Head(r.value.rem);
          h != [] && !IsDotName(h) && !IsDir(c.node.mode))
    && (r.Ok? && r.value.halt == Some(NotExist) ==>
          var h := Head(r.value.rem);
          h != [] && !IsDotName(h) && IsDir(c.node.mode) && Lookup(Kids(c.node), h).None?)
    && (r.Ok? && r.value.halt.Some? && r.value.halt.value.Injected? ==>
          !p.ignoreInjectedFaults && c.node.err == Some(r.value.halt.value.fault))
    && (r.Ok? && r.value.halt == Some(TooManyLinks) ==> p.resolveSymlinks)
    && (r.Ok? && !p.resolveSymlinks ==> r.value.rem == c.rem)
  }

  /** One iteration of the `findHelper.run` loop, together with the check
      after the loop (the same check, reached with an empty remainder).
      It first surfaces the current node's injected fault; an empty remainder
      ends the walk; otherwise `Component` handles the next component. */
  function Iterate(root: Node, p: Policy, c: Cursor): (s: Stepped)
    requires Valid(root, c)
    ensures s.Done? ==> Halted(p, c, s.result)
    ensures s.Next? ==> Valid(root, s.cur)
    ensures s.Next? ==> s.cur.links == c.links + 1 || (s.cur.links == c.links && |s.cur.rem| < |c.rem|)
    ensures s.Next? && !p.resolveSymlinks ==>
              s.cur.links == c.links && IsSuffix(s.cur.rem, c.rem) && c.addr <= s.cur.addr
    ensures s.Next? ==> s.cur.addr == c.addr || s.cur.addr == [] || !IsSymlink(s.cur.node.mode)
    ensures s.Done? && s.result.Panicked? ==> IsDotName(Head(c.rem))
  {
    var n := c.node;
    if !p.ignoreInjectedFaults && n.err.Some? then
      Done(Ok(Walk(c.addr, n, c.rem, Some(Injected(n.err.value)))))
    else if c.rem == [] then
      Done(Ok(Walk(c.addr, n, [], None)))
    else
      Component(root, p, c)
  }

  /** The rest of an iteration, on a node whose fault does not stop the walk
      and a non-empty remainder: take the first component (`getNameComp`).
      An empty component is skipped; "." and ".." panic (`validateNameComp`);
      a non-directory or a missing child stops the walk with the remainder
      still holding that component (`getChildN`). Otherwise the component is
      consumed (`updateNameRemFromSlashPos`) and `FromChild` decides where
      the walk goes on. */
  function Component(root: Node, p: Policy, c: Cursor): (s: Stepped)
    requires Valid(root, c) && c.rem != []
    requires p.ignoreInjectedFaults || c.node.err.None?
    ensures s.Done? ==> Halted(p, c, s.result)
    ensures s.Next? ==> Valid(root, s.cur)
    ensures s.Next? ==> s.cur.links == c.links + 1 || (s.cur.links == c.links && |s.cur.rem| < |c.rem|)
    ensures s.Next? && !p.resolveSymlinks ==>
              s.cur.links == c.links && IsSuffix(s.cur.rem, c.rem) && c.addr <= s.cur.addr
    ensures s.Next? ==> s.cur.addr == c.addr || s.cur.addr == [] || !IsSymlink(s.cur.node.mode)
    ensures s.Done? && s.result.Panicked? ==> IsDotName(Head(c.rem))
  {
    var n := c.node;
    var h := Head(c.rem);
    var rest := Tail(c.rem);
    TailShrinks(c.rem);
    if h == [] then
      Next(c.(rem := rest))
    else if IsDotName(h) then
      Done(Panicked(InvalidNameComponent))
    else if !IsDir(n.mode) then
      Done(Ok(Walk(c.addr, n, c.rem, Some(NotDir))))
    else match Lookup(Kids(n), h)
      case None => Done(Ok(Walk(c.addr, n, c.rem, Some(NotExist))))
      case Some(i) => FromChild(root, p, c, i, rest)
  }

  /** `updateFromChildN` for the child at index `i` of the current node, once
      its name has been consumed and `rest` is what remains. A symlink child
      that is not followed is stepped over, leaving the walk on its parent; a
      followed one costs a link (the 256th fails) and splices its target and a
      slash in front of the remainder, restarting from the root, without the
      target's leading slash, when the target is absolute; any other child
      becomes the current node. */
  function FromChild(root: Node, p: Policy, c: Cursor, i: nat, rest: Bytes): (s: Stepped)
    requires Valid(root, c) && i < |Kids(c.node)|
    requires |rest| < |c.rem| && IsSuffix(rest, c.rem)
    ensures s.Done? ==> p.resolveSymlinks && s.result == Ok(Walk(c.addr, c.node, rest, Some(TooManyLinks)))
    ensures s.Done? ==> IsSymlink(Kids(c.node)[i].mode) && c.links == MaxLinks
    ensures s.Next? ==> Valid(root, s.cur)
    ensures s.Next? ==> s.cur.links == c.links + 1 || (s.cur.links == c.links && |s.cur.rem| < |c.rem|)
    ensures s.Next? && !p.resolveSymlinks ==>
              s.cur.links == c.links && IsSuffix(s.cur.rem, c.rem) && c.addr <= s.cur.addr
    ensures s.Next? ==> s.cur.addr == c.addr || s.cur.addr == [] || !IsSymlink(s.cur.node.mode)
  {
    var child := Kids(c.node)[i];
    if IsSymlink(child.mode) then
      if !p.resolveSymlinks then
        Next(c.(rem := rest))
      else if c.links + 1 > MaxLinks then
        Done(Ok(Walk(c.addr, c.node, rest, Some(TooManyLinks))))
      else
        var target := Data(child);
        if |target| > 0 && target[0] == Slash then
          Next(Cursor([], root, target[1..] + [Slash] + rest, c.links + 1))
        else
          Next(c.(rem := target + [Slash] + rest, links := c.links + 1))
    else
      AtExtend(root, c.addr, c.node, i);
      Next(c.(addr := c.addr + [i], node := child, rem := rest))
  }

  /** What every finished walk satisfies: it never returns a plain error; its
      only panic is the invalid-name-component one; it ends on a node of the tree;
      success leaves nothing unconsumed (and, with faults checked, a node with
      no fault); a non-directory or a missing child leaves the offending
      component at the head of the remainder; an injected fault is the fault
      of the node the walk stopped on and is never reported when faults are
      ignored; too many links needs symlinks to be followed. */
  predicate Sound(root: Node, p: Policy, r: Outcome<Walk>)
  {
    && !r.Fail?
    && (r.Panicked? ==> r.reason == InvalidNameComponent)
    && (r.Ok? ==> At(root, r.value.addr) == Some(r.value.node))
    && (r.Ok? && r.value.halt.None? ==>
          r.value.rem == [] && (!p.ignoreInjectedFaults ==> r.value.node.err.None?))
    && (r.Ok? && r.value.halt == Some(NotDir) ==>
          var h := Head(r.value.rem);
          h != [] && !IsDotName(h) && !IsDir(r.value.node.mode))
    && (r.Ok? && r.value.halt == Some(NotExist) ==>
          var h := Head(r.value.rem);
          h != [] && !IsDotName(h) && IsDir(r.value.node.mode) && Lookup(Kids(r.value.node), h).None?)
    && (r.Ok? && r.value.halt.Some? && r.value.halt.value.Injected? ==>
          !p.ignoreInjectedFaults && r.value.node.err == Some(r.value.halt.value.fault))
    && (r.Ok? && r.value.halt == Some(TooManyLinks) ==> p.resolveSymlinks)
  }

  /** The `findHelper.run` loop from cursor `c` to the end of the walk. It
      always terminates: the measure is lexicographic, since a followed link
      spends one of the 256 allowed increments of `links` and every other
      iteration shortens the remainder. The result is `Sound`; without
      following, the walk only descends and the remainder is a suffix of the
      one it started from. */
  function Run(root: Node, p: Policy, c: Cursor): (r: Outcome<Walk>)
    requires Valid(root, c)
    ensures Sound(root, p, r)
    ensures r.Ok? && !p.resolveSymlinks ==> IsSuffix(r.value.rem, c.rem) && c.addr <= r.value.addr
    ensures r.Ok? ==> r.value.addr == c.addr || r.value.addr == [] || !IsSymlink(r.value.node.mode)
    decreases MaxLinks + 1 - c.links, |c.rem|
  {
    match Iterate(root, p, c)
    case Done(r) => r
    case Next(c') =>
      var r := Run(root, p, c');
      RemSuffix(r, p, c'.rem, c.rem);
      r
  }

  /** A remainder left by a walk over a suffix of `rem` is itself a suffix of `rem`. */
  lemma RemSuffix(w: Outcome<Walk>, p: Policy, rest: Bytes, rem: Bytes)
    requires !p.resolveSymlinks ==> IsSuffix(rest, rem)
    requires w.Ok? && !p.resolveSymlinks ==> IsSuffix(w.value.rem, rest)
    ensures w.Ok? && !p.resolveSymlinks ==> IsSuffix(w.value.rem, rem)
  {
    if w.Ok? && !p.resolveSymlinks {
      SuffixTrans(w.value.rem, rest, rem);
    }
  }

  /** `find`: absolutize the name, drop its leading slash and walk from the
      root with no link followed yet. */
  function Find(fs: FileSystem, name: Bytes, p: Policy): (r: Outcome<Walk>)
    ensures Sound(fs.root, p, r)
    ensures r.Ok? && !p.resolveSymlinks ==> IsSuffix(r.value.rem, name)
    ensures r.Ok? ==> r.value.addr == [] || !IsSymlink(r.value.node.mode)
  {
    var path := Abs(name)[1..];
    var r := Run(fs.root, p, Cursor([], fs.root, path, 0));
    RemSuffix(r, p, path, name);
    r
  }
}
