/** Splitting a slash-separated remainder one component at a time, the way the
    resolution walk and the tree builder consume a path. */
module Paths {
  import opened Base

  /** The path separator '/'. */
  const Slash: byte := 0x2F
  /** The byte '.'. */
  const Dot: byte := 0x2E

  /** Go's `strings.IndexByte`: the position of the first `b` in `s`, or -1 when there is none. */
  function IndexByte(s: Bytes, b: byte): (r: int)
    ensures -1 <= r < |s|
    ensures r == -1 <==> b !in s
    ensures 0 <= r ==> s[r] == b && b !in s[..r]
  {
    if s == [] then -1
    else if s[0] == b then 0
    else
      var k := IndexByte(s[1..], b);
      assert s == [s[0]] + s[1..];
      if k < 0 then -1
      else
        assert s[..k + 1] == [s[0]] + s[1..][..k];
        k + 1
  }

  /** The first component of a remainder: everything before its first slash
      (`getNameComp`). It is empty when the remainder starts with a slash. */
  function Head(rem: Bytes): Bytes
  {
    var k := IndexByte(rem, Slash);
    if k < 0 then rem else rem[..k]
  }

  /** What is left once the first component and the slash after it are consumed
      (`updateNameRemFromSlashPos`); empty when there is no slash. */
  function Tail(rem: Bytes): Bytes
  {
    var k := IndexByte(rem, Slash);
    if k < 0 then [] else rem[k + 1..]
  }

  /** `Head` and `Tail` split a remainder without losing or adding a byte:
      the head holds no slash, and the remainder is the head, then (when there
      was a slash) the slash and the tail. Consuming a non-empty remainder
      always makes it strictly shorter. */
  lemma HeadTailSplit(rem: Bytes)
    ensures Slash !in Head(rem)
    ensures Slash in rem ==> rem == Head(rem) + [Slash] + Tail(rem)
    ensures Slash !in rem ==> rem == Head(rem) && Tail(rem) == []
    ensures rem != [] ==> |Tail(rem)| < |rem|
  {
    var k := IndexByte(rem, Slash);
    if 0 <= k {
      assert rem == rem[..k] + [Slash] + rem[k + 1..];
    }
  }

  /** A non-empty head means the remainder does not start with a slash. */
  lemma HeadNonEmpty(rem: Bytes)
    requires Head(rem) != []
    ensures rem != [] && rem[0] != Slash
    ensures |Head(rem)| <= |rem| && rem[..|Head(rem)|] == Head(rem)
  {
  }

  /** Splitting `r1 + "/" + r2`: when `r1` has a slash the split happens inside
      `r1`, otherwise `r1` is the whole head and `r2` is the tail. */
  lemma {:induction false} HeadTailJoin(r1: Bytes, r2: Bytes)
    ensures Slash in r1 ==> Head(r1 + [Slash] + r2) == Head(r1) && Tail(r1 + [Slash] + r2) == Tail(r1) + [Slash] + r2
    ensures Slash !in r1 ==> Head(r1 + [Slash] + r2) == r1 && Tail(r1 + [Slash] + r2) == r2
  {
    var s := r1 + [Slash] + r2;
    var k := IndexByte(r1, Slash);
    var k' := IndexByte(s, Slash);
    if k < 0 {
      assert s[|r1|] == Slash;
      assert s[..|r1|] == r1;
      assert s[|r1| + 1..] == r2;
    } else {
      assert s[..k] == r1[..k];
      assert s[k] == Slash;
      assert s[k + 1..] == r1[k + 1..] + [Slash] + r2;
    }
  }

  /** Splitting a remainder whose first byte is not a slash: that byte joins
      the head of the rest, and the tail is unaffected. */
  lemma HeadTailCons(b: byte, s: Bytes)
    requires b != Slash
    ensures Head([b] + s) == [b] + Head(s)
    ensures Tail([b] + s) == Tail(s)
  {
    var t := [b] + s;
    assert t[0] == b && t[1..] == s;
    var k := IndexByte(s, Slash);
    assert IndexByte(t, Slash) == if k < 0 then -1 else k + 1;
    if 0 <= k {
      assert t[..k + 1] == [b] + s[..k];
      assert t[k + 2..] == s[k + 1..];
    }
  }

  /** Independent reference definition of splitting on '/': every field of
      `s`, including the empty ones between adjacent slashes and at either end. */
  function Fields(s: Bytes): (fs: seq<Bytes>)
    ensures |fs| >= 1
  {
    if s == [] then [[]]
    else
      var rest := Fields(s[1..]);
      if s[0] == Slash then [[]] + rest
      else [[s[0]] + rest[0]] + rest[1..]
  }

  /** The step-by-step split of the walk agrees with the reference split:
      the head is the first field and the tail holds all the others. */
  lemma {:induction false} FieldsHeadTail(s: Bytes)
    ensures Slash in s ==> Fields(s) == [Head(s)] + Fields(Tail(s))
    ensures Slash !in s ==> Fields(s) == [s]
  {
    if s == [] {
    } else if s[0] == Slash {
      assert IndexByte(s, Slash) == 0;
    } else {
      FieldsHeadTail(s[1..]);
      HeadTailCons(s[0], s[1..]);
      assert s == [s[0]] + s[1..];
    }
  }

  /** The non-empty fields of `s`: the names a path really mentions. */
  function Components(s: Bytes): seq<Bytes>
  {
    NonEmpty(Fields(s))
  }

  /** The elements of `fs` that are not empty, in order. */
  function NonEmpty(fs: seq<Bytes>): (r: seq<Bytes>)
    ensures forall i :: 0 <= i < |r| ==> r[i] != []
    ensures |r| <= |fs|
  {
    if fs == [] then []
    else (if fs[0] == [] then [] else [fs[0]]) + NonEmpty(fs[1..])
  }

  /** Components of a remainder, one split at a time: the head (if it is not
      empty) followed by the components of the tail. */
  lemma ComponentsHeadTail(s: Bytes)
    ensures Slash in s ==> Components(s) == (if Head(s) == [] then [] else [Head(s)]) + Components(Tail(s))
    ensures Slash !in s ==> Components(s) == (if s == [] then [] else [s])
  {
    FieldsHeadTail(s);
    if Slash in s {
      assert ([Head(s)] + Fields(Tail(s)))[1..] == Fields(Tail(s));
    }
  }

  /** `a` is a suffix of `b`. */
  predicate IsSuffix(a: Bytes, b: Bytes)
  {
    |a| <= |b| && b[|b| - |a|..] == a
  }

  /** The tail of a remainder is a suffix of it. */
  lemma TailIsSuffix(rem: Bytes)
    ensures IsSuffix(Tail(rem), rem)
  {
    HeadTailSplit(rem);
  }

  /** Consuming a component of a non-empty remainder leaves a strictly
      shorter suffix of it. */
  lemma TailShrinks(rem: Bytes)
    requires rem != []
    ensures |Tail(rem)| < |rem| && IsSuffix(Tail(rem), rem)
  {
    HeadTailSplit(rem);
  }

  /** Being a suffix is transitive. */
  lemma SuffixTrans(a: Bytes, b: Bytes, c: Bytes)
    requires IsSuffix(a, b) && IsSuffix(b, c)
    ensures IsSuffix(a, c)
  {
    assert c[|c| - |a|..] == c[|c| - |b|..][|b| - |a|..];
  }

  /** A slash-terminated string: its last component is empty. */
  predicate EndsWithSlash(s: Bytes)
  {
    |s| > 0 && s[|s| - 1] == Slash
  }

  /** The component names that `validateNameComp` rejects: "." and "..". */
  predicate IsDotName(c: Bytes)
  {
    c == [Dot] || c == [Dot, Dot]
  }
}
