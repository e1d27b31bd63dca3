/**
  The number of entries a tree holds: the sum of its leaves' children
  counts.  The tree's `count` variable is kept equal to it, and it is the
  number of pairs `processMappings` offers below the root.
*/
module Sizes {
  import opened Words
  import opened Pages
  import opened HashLeaf
  import opened Shapes
  import opened Split
  import opened Mappings

  /** The sum of the children counts of the leaf pages of `s`. */
  ghost function Size(s: Shape, file: File): int
    decreases s
  {
    match s
    case Leaf(a) => if a in file && |file[a]| > 0 && IsInt32(file[a][0]) then Count(file[a]) else 0
    case Node(_, kids) => SizeAll(kids, file)
  }

  /** The sum of the sizes of `kids`. */
  ghost function SizeAll(kids: seq<Shape>, file: File): int
    decreases kids
  {
    if |kids| == 0 then 0 else Size(kids[0], file) + SizeAll(kids[1..], file)
  }

  /** The size of two runs of children is the sum of their sizes. */
  lemma {:induction false} SizeAllAppend(xs: seq<Shape>, ys: seq<Shape>, file: File)
    ensures SizeAll(xs + ys, file) == SizeAll(xs, file) + SizeAll(ys, file)
    decreases |xs|
  {
    if |xs| == 0 {
      assert xs + ys == ys;
    } else {
      assert (xs + ys)[0] == xs[0];
      assert (xs + ys)[1..] == xs[1..] + ys;
      SizeAllAppend(xs[1..], ys, file);
    }
  }

  /** A shape whose pages are the same in both files has the same size in both. */
  lemma {:induction false} SizeSame(s: Shape, file: File, file': File)
    requires Same(s, file, file')
    ensures Size(s, file') == Size(s, file)
    decreases s
  {
    if s.Node? {
      SizeAllSame(s.kids, file, file');
    }
  }

  /** Children whose pages are the same in both files have the same size in both. */
  lemma {:induction false} SizeAllSame(kids: seq<Shape>, file: File, file': File)
    requires forall i :: 0 <= i < |kids| ==> Same(kids[i], file, file')
    ensures SizeAll(kids, file') == SizeAll(kids, file)
    decreases kids
  {
    if |kids| > 0 {
      SizeSame(kids[0], file, file');
      SizeAllSame(kids[1..], file, file');
    }
  }

  /**
    Replacing child `i` by `x`, the other children keeping their pages,
    changes the size by the difference of the two.
  */
  lemma {:induction false} SizeAllUpdate(kids: seq<Shape>, i: int, x: Shape, file: File, file': File)
    requires 0 <= i < |kids|
    requires forall j :: 0 <= j < |kids| && j != i ==> Same(kids[j], file, file')
    ensures SizeAll(kids[i := x], file') == SizeAll(kids, file) - Size(kids[i], file) + Size(x, file')
  {
    var pre, post := kids[..i], kids[i + 1..];
    assert kids == pre + [kids[i]] + post;
    assert kids[i := x] == pre + [x] + post;
    SizeAllAppend(pre + [kids[i]], post, file);
    SizeAllAppend(pre, [kids[i]], file);
    SizeAllAppend(pre + [x], post, file');
    SizeAllAppend(pre, [x], file');
    assert forall j :: 0 <= j < |pre| ==> pre[j] == kids[j];
    assert forall j :: 0 <= j < |post| ==> post[j] == kids[i + 1 + j];
    SizeAllSame(pre, file, file');
    SizeAllSame(post, file, file');
  }

  /**
    Replacing the sub-shape at the end of `p` by `t`, every page off the
    path kept, changes the size by the difference of the two.
  */
  lemma {:induction false} SizeReplace(s: Shape, p: seq<nat>, t: Shape, file: File, file': File)
    requires ValidPath(s, p) && SameOff(s, p, file, file')
    ensures Size(ReplaceAt(s, p, t), file') == Size(s, file) - Size(At(s, p), file) + Size(t, file')
    decreases |p|
  {
    if |p| > 0 {
      var i := p[0];
      SizeReplace(s.kids[i], p[1..], t, file, file');
      SizeAllUpdate(s.kids, i, ReplaceAt(s.kids[i], p[1..], t), file, file');
    }
  }

  /** One child has its own size. */
  lemma {:induction false} SizeAllOne(x: Shape, file: File)
    ensures SizeAll([x], file) == Size(x, file)
  {
    assert [x][1..] == [];
  }

  /** Two children have the sum of their sizes. */
  lemma {:induction false} SizeAllPair(x: Shape, y: Shape, file: File)
    ensures SizeAll([x, y], file) == Size(x, file) + Size(y, file)
  {
    SizeAllOne(x, file);
    SizeAllOne(y, file);
    assert [x, y] == [x] + [y];
    SizeAllAppend([x], [y], file);
  }

  /** The size of three runs of children is the sum of their sizes. */
  lemma {:induction false} SizeAllSplice(pre: seq<Shape>, mid: seq<Shape>, post: seq<Shape>, file: File)
    ensures SizeAll(pre + mid + post, file) == SizeAll(pre, file) + SizeAll(mid, file) + SizeAll(post, file)
  {
    SizeAllAppend(pre + mid, post, file);
    SizeAllAppend(pre, mid, file);
  }

  /**
    A parent whose child `c` is split into `l` and `r`, the other children
    keeping their pages, changes size by the halves' sizes less the child's.
  */
  lemma {:induction false} SizeWithHalves(kids: seq<Shape>, c: int, l: Shape, r: Shape, file: File, file': File)
    requires 0 <= c < |kids|
    requires forall j :: 0 <= j < |kids| && j != c ==> Same(kids[j], file, file')
    ensures SizeAll(WithHalves(kids, c, l, r), file') == SizeAll(kids, file) - Size(kids[c], file) + Size(l, file') + Size(r, file')
  {
    var pre, post := kids[..c], kids[c + 1..];
    assert SizeAll(kids, file) == SizeAll(pre, file) + Size(kids[c], file) + SizeAll(post, file) by {
      assert kids == pre + [kids[c]] + post;
      SizeAllSplice(pre, [kids[c]], post, file);
      SizeAllOne(kids[c], file);
    }
    assert SizeAll(WithHalves(kids, c, l, r), file') == SizeAll(pre, file') + Size(l, file') + Size(r, file') + SizeAll(post, file') by {
      SizeAllSplice(pre, [l, r], post, file');
      SizeAllPair(l, r, file');
    }
    assert SizeAll(pre, file') == SizeAll(pre, file) by {
      assert forall j :: 0 <= j < |pre| ==> pre[j] == kids[j];
      SizeAllSame(pre, file, file');
    }
    assert SizeAll(post, file') == SizeAll(post, file) by {
      assert forall j :: 0 <= j < |post| ==> post[j] == kids[c + 1 + j];
      SizeAllSame(post, file, file');
    }
  }

  /** Splitting the children at `mi`, with their pages kept, splits their size. */
  lemma {:induction false} SizeAllSplit(kids: seq<Shape>, mi: int, file: File, file': File)
    requires 0 <= mi <= |kids|
    requires forall j :: 0 <= j < |kids| ==> Same(kids[j], file, file')
    ensures SizeAll(kids[..mi], file') + SizeAll(kids[mi..], file') == SizeAll(kids, file)
  {
    assert kids == kids[..mi] + kids[mi..];
    SizeAllAppend(kids[..mi], kids[mi..], file');
    SizeAllSame(kids, file, file');
  }

  // ---------------------------------------------------------------------------
  // The size is the number of pairs visited

  /** The pairs of the table from slot `i` on, with the live keys below `i`, are all the live keys. */
  lemma {:induction false} LivePairsCount(cfg: Config, page: seq<int>, i: int)
    requires TableOk(cfg, page) && 0 <= i <= cfg.hashPageCapacity
    ensures |LivePairsFrom(cfg, page, i)| + |LiveKeys(cfg, page, i)| == LiveCount(cfg, page)
    decreases cfg.hashPageCapacity - i
  {
    if i < cfg.hashPageCapacity {
      LivePairsCount(cfg, page, i + 1);
    }
  }

  /** A well-formed leaf offers as many pairs as its children count. */
  lemma {:induction false} LeafPairsCount(cfg: Cfg, page: seq<int>, lo: int, hi: int)
    requires TableOk(cfg, page) && LeafOk(cfg, page, lo, hi)
    ensures |LeafPairs(cfg, page)| == Count(page)
  {
    if IsHashedLeaf(page) {
      LivePairsCount(cfg, page, 0);
    }
  }

  /** Children that each offer as many pairs as their size offer together the sum of their sizes. */
  lemma {:induction false} KidsPairsCount(cfg: Cfg, kids: seq<Shape>, file: File)
    requires forall i :: 0 <= i < |kids| ==> |TreePairs(cfg, kids[i], file)| == Size(kids[i], file)
    ensures |KidsPairs(cfg, kids, file)| == SizeAll(kids, file)
    decreases |kids|
  {
    if |kids| > 0 {
      KidsPairsCount(cfg, kids[1..], file);
    }
  }

  /** A well-formed shape offers as many pairs as its size. */
  lemma {:induction false} TreePairsCount(cfg: Cfg, s: Shape, file: File, lo: int, hi: int, d: nat)
    requires Wf(cfg, s, file, lo, hi, d)
    ensures |TreePairs(cfg, s, file)| == Size(s, file)
    decreases s
  {
    match s
    case Leaf(a) =>
      LeafPairsCount(cfg, file[a], lo, hi);
    case Node(a, kids) =>
      NodeParts(cfg, s, file, lo, hi, d);
      var page := file[a];
      forall i | 0 <= i < |kids|
        ensures |TreePairs(cfg, kids[i], file)| == Size(kids[i], file)
      {
        TreePairsCount(cfg, kids[i], file, KidLo(page, i, lo), KidHi(page, Count(page), i, hi), d - 1);
      }
      KidsPairsCount(cfg, kids, file);
  }
}
