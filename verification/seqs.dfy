/** Facts about sequences grown at the end, one element or one block at a time, as
    the generator grows the static-file registry. Each lemma states one equality of
    sequences, so that the proofs using them never need to compare sequences
    element by element. */
module Seqs {

  /** The first `p + 1` elements, then the first `p` of those. */
  lemma TakeOneMore<T>(s: seq<T>, p: int)
    requires 0 <= p < |s|
    ensures s[..p + 1][..p] == s[..p]
    ensures s[..p + 1][p] == s[p]
    ensures s[..p + 1] == s[..p] + [s[p]]
  {
  }

  /** Indexing a sequence grown by one element. */
  lemma SnocAt<T>(xs: seq<T>, x: T, k: int)
    requires 0 <= k <= |xs|
    ensures |xs + [x]| == |xs| + 1
    ensures (xs + [x])[k] == if k < |xs| then xs[k] else x
  {
  }

  /** The parts of a sequence grown by one element. */
  lemma SnocParts<T>(xs: seq<T>, x: T)
    ensures (xs + [x])[..|xs|] == xs
    ensures (xs + [x])[|xs|] == x
  {
  }

  lemma AppendAssoc<T>(a: seq<T>, b: seq<T>, c: seq<T>)
    ensures (a + b) + c == a + (b + c)
  {
  }

  /** The front of `a + b` is `a` and its back is `b`. */
  lemma AppendParts<T>(a: seq<T>, b: seq<T>)
    ensures (a + b)[..|a|] == a
    ensures (a + b)[|a|..] == b
  {
  }

  /** What ends `m + c` ends `a + (m + c)`. */
  lemma EndOfAppend<T>(a: seq<T>, m: seq<T>, c: seq<T>)
    ensures |c| <= |a + (m + c)|
    ensures (a + (m + c))[|a + (m + c)| - |c|..] == c
  {
    assert (a + (m + c))[|a + (m + c)| - |c|..] == (m + c)[|m|..];
  }

  /** `m` between `a` and `c`: begins with `a` and ends with `c`. */
  function Enclose<T>(a: seq<T>, m: seq<T>, c: seq<T>): (r: seq<T>)
    ensures |r| == |a| + |m| + |c|
    ensures r[..|a|] == a && r[|r| - |c|..] == c
  {
    AppendParts(a, m + c);
    EndOfAppend(a, m, c);
    a + (m + c)
  }

  /** The whole sequence is its first `|s|` elements. */
  lemma TakeAll<T>(s: seq<T>)
    ensures s[..|s|] == s
  {
  }

  /** `f(c, x)` for each `x` of `xs`, in order. */
  function MapWith<C, A, B>(f: (C, A) -> B, c: C, xs: seq<A>): seq<B>
    decreases |xs|
  {
    if |xs| == 0 then []
    else
      var n := |xs| - 1;
      MapWith(f, c, xs[..n]) + [f(c, xs[n])]
  }

  /** Mapping a sequence grown by one element grows the result by its image. */
  lemma MapWithSnoc<C, A, B>(f: (C, A) -> B, c: C, xs: seq<A>, x: A)
    ensures MapWith(f, c, xs + [x]) == MapWith(f, c, xs) + [f(c, x)]
  {
    SnocParts(xs, x);
  }

  /** The blocks of `blocks`, one after another. */
  function Concat<T>(blocks: seq<seq<T>>): seq<T>
    decreases |blocks|
  {
    if |blocks| == 0 then [] else Concat(blocks[..|blocks| - 1]) + blocks[|blocks| - 1]
  }

  /** Adding a block adds its contents at the end. */
  lemma ConcatSnoc<T>(blocks: seq<seq<T>>, b: seq<T>)
    ensures Concat(blocks + [b]) == Concat(blocks) + b
  {
    assert (blocks + [b])[..|blocks|] == blocks;
  }

  /** Dropping the last element of `a + b` drops it from `b`. */
  lemma DropLastOfAppend<T>(a: seq<T>, b: seq<T>)
    requires |b| > 0
    ensures (a + b)[..|a + b| - 1] == a + b[..|b| - 1]
    ensures (a + b)[|a + b| - 1] == b[|b| - 1]
  {
  }

  lemma {:induction false} ConcatAppend<T>(a: seq<seq<T>>, b: seq<seq<T>>)
    ensures Concat(a + b) == Concat(a) + Concat(b)
    decreases |b|
  {
    if |b| == 0 {
      assert a + b == a;
    } else {
      var n := |b| - 1;
      DropLastOfAppend(a, b);
      ConcatAppend(a, b[..n]);
      AppendAssoc(Concat(a), Concat(b[..n]), b[n]);
    }
  }

  /** A sequence is its part before `i`, element `i`, and its part after `i`. */
  lemma SplitAround<T>(s: seq<T>, i: int)
    requires 0 <= i < |s|
    ensures s == (s[..i] + [s[i]]) + s[i + 1..]
  {
  }

}
