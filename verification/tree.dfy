/** The node tree of the virtual file system: entries, their payloads, the
    errors and panics the file system can produce, and index-path addressing. */
module Tree {
  import opened Base
  import opened Modes
  import opened Paths

  /** The Go error values the virtual file system hands back. `Other` stands
      for any other error a caller injects as a fault. */
  datatype Error =
    | ENotDir        // syscall.ENOTDIR
    | ErrNotExist    // os.ErrNotExist
    | ErrTooManyLinks
    | ErrBadMode
    | EOF            // io.EOF
    | Other(code: nat)

  /** Why an operation panicked instead of returning. */
  datatype Panic =
    | InvalidNameComponent   // a path component "." or ".."
    | BadMode                // Set: more than one type bit in the descriptor's mode
    | IsDirDisagreement      // Set: a directory where a non-directory is wanted, or the converse
    | NotSupported           // Readdir: a positive entry count

  /** The result of an operation that returns a value or an error, or panics. */
  datatype Outcome<+T> = Ok(value: T) | Fail(error: Error) | Panicked(reason: Panic)

  /** A node's `extra` field: the child list of a directory, or the bytes of a
      regular file (its content) or of a symlink (its target). */
  datatype Payload = Children(kids: seq<Node>) | Content(bytes: Bytes)

  /** One entry of the tree. The payload kind follows the directory bit of
      `mode` in every tree `Set` builds (see `Wf`). */
  datatype Node = Node(name: Bytes, mode: FileMode, err: Option<Error>, extra: Payload)

  /** A path from the root to a node: the index of each child taken, in order. */
  type Addr = seq<nat>

  /** The children of a node in insertion order. Only a node whose mode has the
      directory bit is ever asked for its children. */
  function Kids(n: Node): seq<Node>
  {
    if IsDir(n.mode) && n.extra.Children? then n.extra.kids else []
  }

  /** The bytes of a regular file or the target of a symlink. */
  function Data(n: Node): Bytes
  {
    if n.extra.Content? then n.extra.bytes else []
  }

  /** `newDirNode`: an empty directory with no injected fault; the directory
      bit is always added to the given mode. */
  function NewDirNode(mode: FileMode, name: Bytes): (d: Node)
    ensures IsDir(d.mode) && (IsSymlink(d.mode) <==> IsSymlink(mode))
    ensures d.name == name && d.err.None? && Kids(d) == []
  {
    Node(name, mode | ModeDir, None, Children([]))
  }

  /** `dirLookup`: the first child whose name is exactly `name`. The index
      found holds that name; `LookupFirst` and `LookupNone` say the rest. */
  function Lookup(ks: seq<Node>, name: Bytes): (r: Option<nat>)
    ensures r.Some? ==> r.value < |ks| && ks[r.value].name == name
  {
    if ks == [] then None
    else if ks[0].name == name then Some(0)
    else match Lookup(ks[1..], name)
      case None => None
      case Some(i) => Some(i + 1)
  }

  /** No child before the one `Lookup` finds has the name. */
  lemma {:induction false} LookupFirst(ks: seq<Node>, name: Bytes)
    requires Lookup(ks, name).Some?
    ensures forall j :: 0 <= j < Lookup(ks, name).value ==> ks[j].name != name
  {
    if ks != [] && ks[0].name != name {
      LookupFirst(ks[1..], name);
      assert forall j :: 1 <= j < |ks| ==> ks[j] == ks[1..][j - 1];
    }
  }

  /** `Lookup` finds nothing exactly when no child has the name. */
  lemma {:induction false} LookupNone(ks: seq<Node>, name: Bytes)
    ensures Lookup(ks, name).None? <==> forall j :: 0 <= j < |ks| ==> ks[j].name != name
  {
    if ks != [] && ks[0].name != name {
      LookupNone(ks[1..], name);
      assert forall j :: 1 <= j < |ks| ==> ks[j] == ks[1..][j - 1];
    }
  }

  /** `dirAppend`: adds `c` after the existing children of directory `n`. */
  function DirAppend(n: Node, c: Node): (r: Node)
    ensures r.name == n.name && r.mode == n.mode && r.err == n.err
    ensures IsDir(n.mode) ==> Kids(r) == Kids(n) + [c]
  {
    n.(extra := Children(Kids(n) + [c]))
  }

  /** The node at address `a` below `t`, if every index is in range. */
  function At(t: Node, a: Addr): Option<Node>
    decreases |a|
  {
    if a == [] then Some(t)
    else if a[0] < |Kids(t)| then At(Kids(t)[a[0]], a[1..])
    else None
  }

  /** Replaces the node at address `a` below `t` by `y`, rebuilding the
      directories above it. Every node off the path is untouched, and a node
      on the path keeps its name, mode and fault. */
  function Replace(t: Node, a: Addr, y: Node): (r: Node)
    ensures a != [] ==> r.name == t.name && r.mode == t.mode && r.err == t.err
    ensures At(t, a).Some? ==> At(r, a) == Some(y)
    decreases |a|
  {
    if a == [] then y
    else if a[0] < |Kids(t)| then
      t.(extra := Children(Kids(t)[a[0] := Replace(Kids(t)[a[0]], a[1..], y)]))
    else t
  }

  /** `Replace` leaves alone every node whose address is neither a prefix
      nor an extension of the replaced one. */
  lemma {:induction false} ReplaceFrame(t: Node, a: Addr, y: Node, b: Addr)
    requires At(t, a).Some?
    requires !(a <= b) && !(b <= a)
    ensures At(Replace(t, a, y), b) == At(t, b)
    decreases |a|
  {
    var r := Replace(t, a, y);
    assert Kids(r) == Kids(t)[a[0] := Replace(Kids(t)[a[0]], a[1..], y)];
    if a[0] == b[0] {
      assert a[1..] <= b[1..] ==> a <= b;
      assert b[1..] <= a[1..] ==> b <= a;
      ReplaceFrame(Kids(t)[a[0]], a[1..], y, b[1..]);
    }
  }

  /** Stepping from a node to one of its children extends the address. */
  lemma {:induction false} AtExtend(t: Node, a: Addr, x: Node, i: nat)
    requires At(t, a) == Some(x)
    requires i < |Kids(x)|
    ensures At(t, a + [i]) == Some(Kids(x)[i])
    decreases |a|
  {
    if a != [] {
      assert (a + [i])[1..] == a[1..] + [i];
      AtExtend(Kids(t)[a[0]], a[1..], x, i);
    }
  }

  /** Putting back the node that is already there changes nothing. */
  lemma {:induction false} ReplaceSame(t: Node, a: Addr, x: Node)
    requires At(t, a) == Some(x)
    ensures Replace(t, a, x) == t
    decreases |a|
  {
    if a != [] {
      ReplaceSame(Kids(t)[a[0]], a[1..], x);
      assert Kids(t)[a[0] := Kids(t)[a[0]]] == Kids(t);
    }
  }

  /** A name `createChildren` can give a new child: non-empty, without a slash,
      and neither "." nor "..". */
  predicate ValidName(c: Bytes)
  {
    c != [] && Slash !in c && !IsDotName(c)
  }

  /** Well-formedness of a tree: every payload matches its node's directory
      bit, and within each directory the children have valid, distinct names. */
  predicate Wf(n: Node)
    decreases n
  {
    && (IsDir(n.mode) <==> n.extra.Children?)
    && (n.extra.Children? ==>
          var ks := n.extra.kids;
          && (forall i :: 0 <= i < |ks| ==> ValidName(ks[i].name) && Wf(ks[i]))
          && (forall i, j :: 0 <= i < j < |ks| ==> ks[i].name != ks[j].name))
  }

  /** The name of the root directory. */
  const RootName: Bytes := [Slash]

  /** The virtual file system: the root directory of the node tree. Its
      working directory is the constant `Cwd`. */
  datatype FileSystem = FileSystem(root: Node)

  /** The working directory every relative name is resolved against. */
  const Cwd: Bytes := [Slash]

  /** A well-formed file system: a well-formed tree whose root is a directory
      and not a symlink. */
  predicate FsWf(fs: FileSystem)
  {
    Wf(fs.root) && IsDir(fs.root.mode) && !IsSymlink(fs.root.mode)
  }

  /** The file system `NewVirtualFileSystem` starts from: an empty root
      directory created with mode 0. */
  function EmptyFileSystem(): (fs: FileSystem)
    ensures FsWf(fs) && Kids(fs.root) == [] && fs.root.err.None?
  {
    FileSystem(NewDirNode(0, RootName))
  }
}
