/** The read side of the virtual file system: `Open` and `Stat`, and the
    descriptor `Open` hands out with its `Read` and `Readdir`. */
module Facade {
  import opened Base
  import opened Modes
  import opened Tree
  import opened Resolve

  /** `virtualFileDescriptor`: the node that was opened and how many of its
      bytes have been read. */
  datatype Descriptor = Descriptor(node: Node, readPos: nat)

  /** What one `Read` call leaves behind: the descriptor afterwards, the bytes
      copied into the caller's buffer (their count is the `n` returned), and
      the error. */
  datatype ReadResult = ReadResult(desc: Descriptor, bytes: Bytes, err: Option<Error>)

  function Min(a: nat, b: nat): nat
  {
    if a <= b then a else b
  }

  /** `Read` into a buffer of `bufLen` bytes. Only a regular file can be read:
      any other node gives the bad-mode error and nothing else. An empty buffer
      copies nothing and reports nothing. Otherwise the bytes not yet read are
      copied, as many as fit, and the position moves past them; when none are
      left, end of file is reported. The position never passes the end of the
      content. */
  function Read(d: Descriptor, bufLen: nat): (r: ReadResult)
    requires d.readPos <= |Data(d.node)|
    ensures !IsRegular(d.node.mode) ==> r == ReadResult(d, [], Some(ErrBadMode))
    ensures IsRegular(d.node.mode) ==>
              var left := Data(d.node)[d.readPos..];
              && |r.bytes| == Min(bufLen, |left|)
              && r.bytes <= left
              && r.desc == d.(readPos := d.readPos + |r.bytes|)
              && (r.err.Some? <==> bufLen > 0 && left == [])
              && (r.err.Some? ==> r.err == Some(EOF))
    ensures r.desc.readPos <= |Data(r.desc.node)|
  {
    if !IsRegular(d.node.mode) then ReadResult(d, [], Some(ErrBadMode))
    else if bufLen == 0 then ReadResult(d, [], None)
    else
      var content := Data(d.node);
      var n := Min(bufLen, |content| - d.readPos);
      ReadResult(d.(readPos := d.readPos + n), content[d.readPos..d.readPos + n], if n == 0 then Some(EOF) else None)
  }

  /** Reading a regular file to the end with a buffer of `bufLen` bytes: the
      pieces read, put together, are the content from the current position
      on, and the read that stops the loop reports end of file. */
  method ReadAll(d: Descriptor, bufLen: nat) returns (out: Bytes, last: ReadResult)
    requires IsRegular(d.node.mode) && bufLen > 0 && d.readPos <= |Data(d.node)|
    ensures out == Data(d.node)[d.readPos..]
    ensures last.err == Some(EOF) && last.bytes == [] && last.desc.readPos == |Data(d.node)|
  {
    var cur := d;
    out := [];
    while true
      invariant cur.node == d.node && d.readPos <= cur.readPos <= |Data(d.node)|
      invariant out == Data(d.node)[d.readPos..cur.readPos]
      decreases |Data(d.node)| - cur.readPos
    {
      var r := Read(cur, bufLen);
      if r.err.Some? {
        last := r;
        return;
      }
      assert Data(d.node)[d.readPos..r.desc.readPos] == out + r.bytes;
      out := out + r.bytes;
      cur := r.desc;
    }
  }

  /** `Readdir(n)`: a non-directory gives the not-a-directory error; a
      positive count is not supported and panics; an empty directory gives no
      list and no error; any other directory gives its children, all of them,
      in the order they were added. */
  function Readdir(d: Descriptor, n: int): (r: Outcome<Option<seq<Node>>>)
    ensures r.Fail? <==> !IsDir(d.node.mode)
    ensures r.Fail? ==> r.error == ENotDir
    ensures r.Panicked? <==> IsDir(d.node.mode) && n > 0
    ensures r.Panicked? ==> r.reason == NotSupported
    ensures r.Ok? ==> (r.value.None? <==> Kids(d.node) == [])
    ensures r.Ok? && r.value.Some? ==> r.value.value == Kids(d.node)
  {
    if !IsDir(d.node.mode) then Fail(ENotDir)
    else if n > 0 then Panicked(NotSupported)
    else if Kids(d.node) == [] then Ok(None)
    else Ok(Some(Kids(d.node)))
  }

  /** `Open`: look the name up checking injected faults and following
      symlinks; any halt is returned as its error, and success gives a
      descriptor on the node found, positioned at the start. */
  function Open(fs: FileSystem, name: Bytes): (r: Outcome<Descriptor>)
    ensures var f := Find(fs, name, Checked);
            && (r.Panicked? <==> f.Panicked?)
            && (r.Ok? <==> f.Ok? && f.value.halt.None?)
            && (r.Ok? ==> r.value == Descriptor(f.value.node, 0) && At(fs.root, f.value.addr) == Some(r.value.node))
            && (r.Fail? ==> f.Ok? && f.value.halt.Some? && r.error == f.value.halt.value.ToError())
  {
    match Find(fs, name, Checked)
    case Ok(w) => if w.halt.Some? then Fail(w.halt.value.ToError()) else Ok(Descriptor(w.node, 0))
    case Fail(e) => Fail(e)
    case Panicked(p) => Panicked(p)
  }

  /** `Stat`: the same lookup as `Open`; success gives the node found, whose
      name, mode and fault serve as its file information. */
  function Stat(fs: FileSystem, name: Bytes): (r: Outcome<Node>)
    ensures r.Ok? ==> Open(fs, name) == Ok(Descriptor(r.value, 0))
    ensures r.Fail? <==> Open(fs, name).Fail?
    ensures r.Fail? ==> r.error == Open(fs, name).error
    ensures r.Panicked? <==> Open(fs, name).Panicked?
  {
    match Find(fs, name, Checked)
    case Ok(w) => if w.halt.Some? then Fail(w.halt.value.ToError()) else Ok(w.node)
    case Fail(e) => Fail(e)
    case Panicked(p) => Panicked(p)
  }
}
