/**
  Splitting a full node, on the shapes: a full node becomes two halves at a
  median key, the halves are well formed on either side of the median and
  together store what the node stored; the parent (or a new root) takes the
  median with a pointer to the new half right after the old one.
*/
module Split {
  import opened Wrappers
  import opened Words
  import opened Pages
  import opened HashLeaf
  import opened SortedNode
  import opened Shapes

  /**
    A node `x` split at `m` into `l` (keys below `m`) and `r` (keys from `m`
    on): both halves are well formed in their parts of `x`'s range, and
    together they hold what `x` held.
  */
  ghost predicate Halves(cfg: Cfg, x: Shape, file: File, lo: int, hi: int, d: nat, l: Shape, r: Shape, m: int, file': File) {
    && lo < m < hi
    && Wf(cfg, l, file', lo, m, d)
    && Wf(cfg, r, file', m, hi, d)
    && forall k :: lo <= k < hi ==> Get(cfg, x, file, k) == if k < m then Get(cfg, l, file', k) else Get(cfg, r, file', k)
  }

  // ---------------------------------------------------------------------------
  // Interior split

  /**
    `putBytes(newIndexNode.indexToOffset(0), getBytes(indexToOffset(from), n * INTERIOR_SIZE))`:
    slots `[from, from + n)` of `src` copied onto slots `[0, n)` of `dst`.
  */
  function CopySlots(src: seq<int>, dst: seq<int>, from: int, n: int): (r: seq<int>)
    requires 0 <= from && 0 <= n && 2 * (from + n) + 2 <= |src| && 2 * n + 2 <= |dst|
    ensures |r| == |dst| && r[0] == dst[0] && r[1] == dst[1]
    ensures forall j :: 0 <= j < n ==> KeyAt(r, j) == KeyAt(src, from + j) && AddressAt(r, j) == AddressAt(src, from + j)
    ensures forall j :: n <= j && 2 * j + 3 < |dst| ==> KeyAt(r, j) == KeyAt(dst, j) && AddressAt(r, j) == AddressAt(dst, j)
  {
    var r := dst[..2] + src[ValueWord(from)..ValueWord(from + n)] + dst[ValueWord(n)..];
    assert forall w :: 2 <= w < ValueWord(n) ==> r[w] == src[w - 2 + ValueWord(from)];
    assert forall w :: ValueWord(n) <= w < |dst| ==> r[w] == dst[w];
    r
  }

  /**
    The pages of an interior split: `page` had `n` keys; the old page `left`
    keeps keys `[0, mi - 1)` and pointers `[0, mi)`, the new page `right`
    gets keys `[mi, n)` and pointers `[mi, n]`; key `mi - 1` is the median.
  */
  ghost predicate InteriorSplitPages(cfg: Cfg, page: seq<int>, left: seq<int>, right: seq<int>, mi: int)
    requires TableOk(cfg, page) && TableOk(cfg, left) && TableOk(cfg, right)
    requires 1 <= mi <= Count(page) && Count(page) + 1 <= cfg.maxInteriorNodes
  {
    var n := Count(page);
    && !IsIndexLeaf(left) && Count(left) == mi - 1
    && (forall j :: 0 <= j < mi - 1 ==> KeyAt(left, j) == KeyAt(page, j))
    && (forall j :: 0 <= j < mi ==> AddressAt(left, j) == AddressAt(page, j))
    && !IsIndexLeaf(right) && Count(right) == n - mi
    && (forall j :: 0 <= j < n - mi ==> KeyAt(right, j) == KeyAt(page, mi + j))
    && (forall j :: 0 <= j <= n - mi ==> AddressAt(right, j) == AddressAt(page, mi + j))
  }

  /**
    A full or non-full interior node `x` of a well-formed shape, its page
    split into `file'[x.addr]` and the new page at `a'` at slot `mi`, its
    children's pages untouched.
  */
  ghost predicate InteriorSplit(cfg: Cfg, x: Shape, file: File, lo: int, hi: int, d: nat, a': int, file': File, mi: int) {
    && Wf(cfg, x, file, lo, hi, d) && x.Node? && a' != 0
    && |x.kids| == Count(file[x.addr]) + 1 && Count(file[x.addr]) + 1 <= cfg.maxInteriorNodes
    && 1 <= mi <= Count(file[x.addr])
    && x.addr in file' && a' in file' && TableOk(cfg, file'[x.addr]) && TableOk(cfg, file'[a'])
    && InteriorSplitPages(cfg, file[x.addr], file'[x.addr], file'[a'], mi)
    && forall i :: 0 <= i < |x.kids| ==> Same(x.kids[i], file, file')
  }

  /** The left half of an interior split is well formed below the median. */
  lemma InteriorLeftWf(cfg: Cfg, x: Shape, file: File, lo: int, hi: int, d: nat, a': int, file': File, mi: int)
    requires InteriorSplit(cfg, x, file, lo, hi, d, a', file', mi)
    ensures Wf(cfg, Node(x.addr, x.kids[..mi]), file', lo, KeyAt(file[x.addr], mi - 1), d)
  {
    var page, left := file[x.addr], file'[x.addr];
    var n := Count(page);
    var m := KeyAt(page, mi - 1);
    var kids := x.kids[..mi];
    NodeParts(cfg, x, file, lo, hi, d);
    forall i | 0 <= i < mi
      ensures Wf(cfg, kids[i], file', KidLo(left, i, lo), KidHi(left, mi - 1, i, m), d - 1)
    {
      assert KidLo(left, i, lo) == KidLo(page, i, lo);
      assert KidHi(left, mi - 1, i, m) == KidHi(page, n, i, hi);
      Frame(cfg, x.kids[i], file, file', KidLo(page, i, lo), KidHi(page, n, i, hi), d - 1);
    }
    assert NodeOk(cfg, left, mi, lo, m);
    assert NodeWf(cfg, left, kids, file', lo, m, d);
  }

  /** The right half of an interior split is well formed from the median on. */
  lemma InteriorRightWf(cfg: Cfg, x: Shape, file: File, lo: int, hi: int, d: nat, a': int, file': File, mi: int)
    requires InteriorSplit(cfg, x, file, lo, hi, d, a', file', mi)
    ensures Wf(cfg, Node(a', x.kids[mi..]), file', KeyAt(file[x.addr], mi - 1), hi, d)
  {
    var page, right := file[x.addr], file'[a'];
    var n := Count(page);
    var m := KeyAt(page, mi - 1);
    var kids := x.kids[mi..];
    NodeParts(cfg, x, file, lo, hi, d);
    forall j | 0 <= j < n - mi + 1
      ensures Wf(cfg, kids[j], file', KidLo(right, j, m), KidHi(right, n - mi, j, hi), d - 1)
    {
      assert KidLo(right, j, m) == KidLo(page, mi + j, lo);
      assert KidHi(right, n - mi, j, hi) == KidHi(page, n, mi + j, hi);
      Frame(cfg, x.kids[mi + j], file, file', KidLo(page, mi + j, lo), KidHi(page, n, mi + j, hi), d - 1);
    }
    assert NodeOk(cfg, right, n - mi + 1, m, hi);
    assert NodeWf(cfg, right, kids, file', m, hi, d);
  }

  /** A key below the median is looked up in the left half of an interior split. */
  lemma InteriorGetLeft(cfg: Cfg, x: Shape, file: File, lo: int, hi: int, d: nat, a': int, file': File, mi: int, k: int)
    requires InteriorSplit(cfg, x, file, lo, hi, d, a', file', mi) && lo <= k < KeyAt(file[x.addr], mi - 1)
    ensures Get(cfg, x, file, k) == Get(cfg, Node(x.addr, x.kids[..mi]), file', k)
  {
    var page, left := file[x.addr], file'[x.addr];
    var n := Count(page);
    var c := ChildIndex(page, n, k);
    NodeParts(cfg, x, file, lo, hi, d);
    ChildIndexSplits(page, n, k);
    assert c < mi;
    ChildIndexIs(left, mi - 1, k, c);
    var kid := x.kids[c];
    assert x.kids[..mi][c] == kid;
    GetKid(cfg, x.addr, x.kids, file, k, c);
    assert Get(cfg, Node(x.addr, x.kids[..mi]), file', k) == Get(cfg, kid, file', k) by {
      assert Count(left) == mi - 1;
      GetKid(cfg, x.addr, x.kids[..mi], file', k, c);
    }
    FrameGet(cfg, kid, file, file', k);
  }

  /** A key from the median on is looked up in the right half of an interior split. */
  lemma InteriorGetRight(cfg: Cfg, x: Shape, file: File, lo: int, hi: int, d: nat, a': int, file': File, mi: int, k: int)
    requires InteriorSplit(cfg, x, file, lo, hi, d, a', file', mi) && KeyAt(file[x.addr], mi - 1) <= k
    ensures Get(cfg, x, file, k) == Get(cfg, Node(a', x.kids[mi..]), file', k)
  {
    var page, right := file[x.addr], file'[a'];
    var n := Count(page);
    var c := ChildIndex(page, n, k);
    NodeParts(cfg, x, file, lo, hi, d);
    ChildIndexSplits(page, n, k);
    assert c >= mi;
    ChildIndexIs(right, n - mi, k, c - mi);
    var kid := x.kids[c];
    assert x.kids[mi..][c - mi] == kid;
    GetKid(cfg, x.addr, x.kids, file, k, c);
    assert Get(cfg, Node(a', x.kids[mi..]), file', k) == Get(cfg, kid, file', k) by {
      assert Count(right) == n - mi;
      GetKid(cfg, a', x.kids[mi..], file', k, c - mi);
    }
    FrameGet(cfg, kid, file, file', k);
  }

  /** An interior split yields two halves at the median. */
  lemma InteriorHalves(cfg: Cfg, x: Shape, file: File, lo: int, hi: int, d: nat, a': int, file': File, mi: int)
    requires InteriorSplit(cfg, x, file, lo, hi, d, a', file', mi)
    ensures Halves(cfg, x, file, lo, hi, d, Node(x.addr, x.kids[..mi]), Node(a', x.kids[mi..]), KeyAt(file[x.addr], mi - 1), file')
  {
    NodeParts(cfg, x, file, lo, hi, d);
    InteriorLeftWf(cfg, x, file, lo, hi, d, a', file', mi);
    InteriorRightWf(cfg, x, file, lo, hi, d, a', file', mi);
    forall k | lo <= k < hi
      ensures Get(cfg, x, file, k) ==
              if k < KeyAt(file[x.addr], mi - 1) then Get(cfg, Node(x.addr, x.kids[..mi]), file', k)
              else Get(cfg, Node(a', x.kids[mi..]), file', k)
    {
      if k < KeyAt(file[x.addr], mi - 1) {
        InteriorGetLeft(cfg, x, file, lo, hi, d, a', file', mi, k);
      } else {
        InteriorGetRight(cfg, x, file, lo, hi, d, a', file', mi, k);
      }
    }
  }

  // ---------------------------------------------------------------------------
  // Hashed leaf split

  /**
    A hashed leaf page holding exactly the mappings of `page` whose keys lie
    in `[lo, hi)`, with a consistent table within the hashed-leaf limit.
  */
  ghost predicate LeafHalf(cfg: Cfg, page: seq<int>, half: seq<int>, lo: int, hi: int)
    requires TableOk(cfg, page) && TableOk(cfg, half)
  {
    && IsIndexLeaf(half) && IsHashedLeaf(half) && HashWf(cfg, half)
    && Count(half) == LiveCount(cfg, half) <= cfg.maxLeafNodesInHash
    && forall k :: HashGet(cfg, half, k) == if lo <= k < hi then HashGet(cfg, page, k) else None
  }

  /** The stored keys of a leaf half lie in its range. */
  lemma LeafHalfOk(cfg: Cfg, page: seq<int>, half: seq<int>, lo: int, hi: int)
    requires TableOk(cfg, page) && TableOk(cfg, half) && LeafHalf(cfg, page, half, lo, hi)
    ensures LeafOk(cfg, half, lo, hi)
  {
    forall s | 0 <= s < cfg.hashPageCapacity && KeyAt(half, s) != HASH_FREE
      ensures lo <= KeyAt(half, s) < hi
    {
      HashGetSlot(cfg, half, s);
    }
  }

  /**
    A hashed leaf split at `m`: the old page keeps the mappings below `m`,
    the new page at `a'` those from `m` on.
  */
  lemma LeafHalves(cfg: Cfg, a: int, file: File, lo: int, hi: int, a': int, file': File, m: int)
    requires Wf(cfg, Leaf(a), file, lo, hi, 1) && IsHashedLeaf(file[a]) && lo < m < hi
    requires a in file' && a' in file' && TableOk(cfg, file'[a]) && TableOk(cfg, file'[a'])
    requires LeafHalf(cfg, file[a], file'[a], lo, m) && LeafHalf(cfg, file[a], file'[a'], m, hi)
    ensures Halves(cfg, Leaf(a), file, lo, hi, 1, Leaf(a), Leaf(a'), m, file')
  {
    LeafHalfOk(cfg, file[a], file'[a], lo, m);
    LeafHalfOk(cfg, file[a], file'[a'], m, hi);
  }

  // ---------------------------------------------------------------------------
  // The median goes up

  /** The median of a child's split is where the parent's binary search would insert it: at the child's index. */
  lemma MedianInsertionPoint(page: seq<int>, n: int, c: int, lo: int, hi: int, m: int)
    requires 0 <= c <= n && 2 * n + 1 < |page| && SortedKeys(page, n)
    requires KidLo(page, c, lo) < m < KidHi(page, n, c, hi)
    ensures InsertionPoint(page, n, m, c)
  {
  }

  /**
    The parent's page after `parent.insert(medianKey, -newIndexNode.address)`
    for a split of child `c`: `n + 1` keys, the median at `c`, the pointer to
    the right half at `c + 1`.
  */
  ghost predicate ParentPage(cfg: Cfg, page: seq<int>, page': seq<int>, c: int, m: int, right: int)
    requires TableOk(cfg, page) && TableOk(cfg, page')
    requires 0 <= c <= Count(page) && Count(page) + 2 <= cfg.maxInteriorNodes
  {
    && !IsIndexLeaf(page') && Count(page') == Count(page) + 1
    && InteriorInserted(page, page', Count(page), c, m, -right)
  }

  /** The parent of a split, with the two halves in place of the old child. */
  function WithHalves(kids: seq<Shape>, c: int, l: Shape, r: Shape): (kids': seq<Shape>)
    requires 0 <= c < |kids|
    ensures |kids'| == |kids| + 1
    ensures forall j :: 0 <= j < c ==> kids'[j] == kids[j]
    ensures kids'[c] == l && kids'[c + 1] == r
    ensures forall j :: c + 1 < j < |kids'| ==> kids'[j] == kids[j - 1]
  {
    kids[..c] + [l, r] + kids[c + 1..]
  }

  /**
    The preconditions of a parent insertion: a well-formed non-full parent
    whose child `c` split into halves at `m`, the parent page updated, the
    other children's pages untouched.
  */
  ghost predicate ParentInsert(cfg: Cfg, p: Shape, file: File, lo: int, hi: int, d: nat, c: int, l: Shape, r: Shape, m: int, file': File) {
    && Wf(cfg, p, file, lo, hi, d) && p.Node? && 0 <= c < |p.kids|
    && |p.kids| == Count(file[p.addr]) + 1 && Count(file[p.addr]) + 2 <= cfg.maxInteriorNodes
    && (var page := file[p.addr]; var n := Count(page);
        && Halves(cfg, p.kids[c], file, KidLo(page, c, lo), KidHi(page, n, c, hi), d - 1, l, r, m, file')
        && l.addr == p.kids[c].addr
        && p.addr in file' && TableOk(cfg, file'[p.addr])
        && ParentPage(cfg, page, file'[p.addr], c, m, r.addr))
    && forall j :: 0 <= j < |p.kids| && j != c ==> Same(p.kids[j], file, file')
  }

  /**
    The key ranges of the parent's children after the insertion: those
    before `c` and after `c + 1` are the old ones (shifted by one after),
    the halves at `c` and `c + 1` meet at the median.
  */
  lemma InsertedBounds(page: seq<int>, page': seq<int>, n: int, c: int, m: int, child: int, lo: int, hi: int, j: int)
    requires 0 <= c <= n && 2 * n + 5 < |page| && |page'| == |page|
    requires InteriorInserted(page, page', n, c, m, child) && 0 <= j <= n + 1
    ensures j < c ==> KidLo(page', j, lo) == KidLo(page, j, lo) && KidHi(page', n + 1, j, hi) == KidHi(page, n, j, hi)
    ensures j == c ==> KidLo(page', j, lo) == KidLo(page, c, lo) && KidHi(page', n + 1, j, hi) == m
    ensures j == c + 1 ==> KidLo(page', j, lo) == m && KidHi(page', n + 1, j, hi) == KidHi(page, n, c, hi)
    ensures j > c + 1 ==> KidLo(page', j, lo) == KidLo(page, j - 1, lo) && KidHi(page', n + 1, j, hi) == KidHi(page, n, j - 1, hi)
  {
  }

  /** Child `j` of the parent after the insertion is well formed in its new range, on the pages alone. */
  lemma ParentKidWf(cfg: Cfg, kids: seq<Shape>, page: seq<int>, page': seq<int>, file: File, file': File, n: int, c: int, l: Shape, r: Shape, m: int, lo: int, hi: int, d: nat, j: int)
    requires 0 <= c <= n && 2 * n + 5 < |page| && |page'| == |page| && |kids| == n + 1 && 0 <= j <= n + 1 && d > 1
    requires InteriorInserted(page, page', n, c, m, -r.addr)
    requires Wf(cfg, l, file', KidLo(page, c, lo), m, d - 1) && Wf(cfg, r, file', m, KidHi(page, n, c, hi), d - 1)
    requires forall i :: 0 <= i <= n && i != c ==> Wf(cfg, kids[i], file, KidLo(page, i, lo), KidHi(page, n, i, hi), d - 1)
    requires forall i :: 0 <= i <= n && i != c ==> Same(kids[i], file, file')
    ensures Wf(cfg, WithHalves(kids, c, l, r)[j], file', KidLo(page', j, lo), KidHi(page', n + 1, j, hi), d - 1)
  {
    InsertedBounds(page, page', n, c, m, -r.addr, lo, hi, j);
    if j < c {
      Frame(cfg, kids[j], file, file', KidLo(page, j, lo), KidHi(page, n, j, hi), d - 1);
    } else if j > c + 1 {
      Frame(cfg, kids[j - 1], file, file', KidLo(page, j - 1, lo), KidHi(page, n, j - 1, hi), d - 1);
    }
  }

  /** The parent's page after the insertion is a well-formed interior page whose pointers are the new children's. */
  lemma ParentPageOk(cfg: Cfg, page: seq<int>, page': seq<int>, kids: seq<Shape>, c: int, l: Shape, r: Shape, m: int, lo: int, hi: int)
    requires TableOk(cfg, page) && TableOk(cfg, page')
    requires NodeOk(cfg, page, |kids|, lo, hi) && 0 <= c < |kids| && Count(page) + 2 <= cfg.maxInteriorNodes
    requires KidLo(page, c, lo) < m < KidHi(page, Count(page), c, hi)
    requires ParentPage(cfg, page, page', c, m, r.addr)
    requires forall i :: 0 <= i < |kids| ==> AddressAt(page, i) == -kids[i].addr
    requires l.addr == kids[c].addr
    ensures NodeOk(cfg, page', |kids| + 1, lo, hi)
    ensures forall j :: 0 <= j < |kids| + 1 ==> AddressAt(page', j) == -WithHalves(kids, c, l, r)[j].addr
  {
    var n := Count(page);
    KidBoundsNested(cfg, page, n + 1, lo, hi, c);
    MedianInsertionPoint(page, n, c, lo, hi, m);
    InsertKeepsOrder(page, page', n, c, m);
  }

  /** After a parent insertion the parent is well formed with the halves as children. */
  lemma ParentInsertWf(cfg: Cfg, p: Shape, file: File, lo: int, hi: int, d: nat, c: int, l: Shape, r: Shape, m: int, file': File)
    requires ParentInsert(cfg, p, file, lo, hi, d, c, l, r, m, file')
    ensures Wf(cfg, Node(p.addr, WithHalves(p.kids, c, l, r)), file', lo, hi, d)
  {
    var page, page' := file[p.addr], file'[p.addr];
    var n := Count(page);
    var kids := p.kids;
    var kids' := WithHalves(kids, c, l, r);
    assert NodeOk(cfg, page', n + 2, lo, hi) && forall j :: 0 <= j < n + 2 ==> AddressAt(page', j) == -kids'[j].addr by {
      NodeParts(cfg, p, file, lo, hi, d);
      ParentPageOk(cfg, page, page', kids, c, l, r, m, lo, hi);
    }
    assert forall j :: 0 <= j < n + 2 ==> Wf(cfg, kids'[j], file', KidLo(page', j, lo), KidHi(page', n + 1, j, hi), d - 1) by {
      NodeParts(cfg, p, file, lo, hi, d);
      forall j | 0 <= j < n + 2
        ensures Wf(cfg, kids'[j], file', KidLo(page', j, lo), KidHi(page', n + 1, j, hi), d - 1)
      {
        ParentKidWf(cfg, kids, page, page', file, file', n, c, l, r, m, lo, hi, d, j);
      }
    }
    assert p.addr != 0 && d > 1 by {
      NodeParts(cfg, p, file, lo, hi, d);
    }
    NodeFromParts(cfg, p.addr, kids', file', lo, hi, d);
  }

  /** Where the parent routes a key after the insertion: the old child, shifted past the halves, or the half on its side of the median. */
  lemma InsertedRoute(page: seq<int>, page': seq<int>, n: int, c: int, m: int, child: int, k: int)
    requires 0 <= c <= n && 2 * n + 5 < |page| && |page'| == |page|
    requires SortedKeys(page, n) && InsertionPoint(page, n, m, c) && SortedKeys(page', n + 1)
    requires InteriorInserted(page, page', n, c, m, child)
    ensures var c0 := ChildIndex(page, n, k);
      ChildIndex(page', n + 1, k) == if c0 < c then c0 else if c0 > c then c0 + 1 else if k < m then c else c + 1
  {
    var c0 := ChildIndex(page, n, k);
    ChildIndexSplits(page, n, k);
    var c1 := if c0 < c then c0 else if c0 > c then c0 + 1 else if k < m then c else c + 1;
    assert c0 < c ==> k < m by {
      if c0 < c {
        assert k < KeyAt(page, c0) < m;
      }
    }
    assert c < c0 ==> m <= k by {
      if c < c0 {
        assert m < KeyAt(page, c) <= k;
      }
    }
    assert forall i :: 0 <= i < c1 ==> KeyAt(page', i) <= k by {
      forall i | 0 <= i < c1
        ensures KeyAt(page', i) <= k
      {
        if i > c {
          assert KeyAt(page', i) == KeyAt(page, i - 1);
        }
      }
    }
    assert forall i :: c1 <= i < n + 1 ==> k < KeyAt(page', i) by {
      forall i | c1 <= i < n + 1
        ensures k < KeyAt(page', i)
      {
        if i > c {
          assert KeyAt(page', i) == KeyAt(page, i - 1);
        }
      }
    }
    ChildIndexIs(page', n + 1, k, c1);
  }

  /** The routing step of `ParentInsertGet`, on the pages alone. */
  lemma ParentRouteGet(cfg: Cfg, a: int, kids: seq<Shape>, file: File, file': File, n: int, c: int, l: Shape, r: Shape, m: int, k: int)
    requires a in file && a in file' && TableOk(cfg, file[a]) && TableOk(cfg, file'[a])
    requires Count(file[a]) == n && Count(file'[a]) == n + 1 && 0 <= c <= n && 2 * n + 5 < |file[a]| && |kids| == n + 1
    requires SortedKeys(file[a], n) && InsertionPoint(file[a], n, m, c) && SortedKeys(file'[a], n + 1)
    requires InteriorInserted(file[a], file'[a], n, c, m, -r.addr)
    requires ChildIndex(file[a], n, k) == c ==> Get(cfg, kids[c], file, k) == if k < m then Get(cfg, l, file', k) else Get(cfg, r, file', k)
    requires ChildIndex(file[a], n, k) != c ==> Same(kids[ChildIndex(file[a], n, k)], file, file')
    ensures Get(cfg, Node(a, WithHalves(kids, c, l, r)), file', k) == Get(cfg, Node(a, kids), file, k)
  {
    var page, page' := file[a], file'[a];
    var c0 := ChildIndex(page, n, k);
    InsertedRoute(page, page', n, c, m, -r.addr, k);
    var c1 := if c0 < c then c0 else if c0 > c then c0 + 1 else if k < m then c else c + 1;
    GetKid(cfg, a, kids, file, k, c0);
    GetKid(cfg, a, WithHalves(kids, c, l, r), file', k, c1);
    if c0 != c {
      FrameGet(cfg, kids[c0], file, file', k);
    }
  }

  /** A lookup after a parent insertion finds what it found before. */
  lemma ParentInsertGet(cfg: Cfg, p: Shape, file: File, lo: int, hi: int, d: nat, c: int, l: Shape, r: Shape, m: int, file': File, k: int)
    requires ParentInsert(cfg, p, file, lo, hi, d, c, l, r, m, file') && lo <= k < hi
    ensures Get(cfg, Node(p.addr, WithHalves(p.kids, c, l, r)), file', k) == Get(cfg, p, file, k)
  {
    var page, page' := file[p.addr], file'[p.addr];
    var n := Count(page);
    var c0 := ChildIndex(page, n, k);
    assert SortedKeys(page, n) && InsertionPoint(page, n, m, c) && SortedKeys(page', n + 1) by {
      NodeParts(cfg, p, file, lo, hi, d);
      KidBoundsNested(cfg, page, n + 1, lo, hi, c);
      MedianInsertionPoint(page, n, c, lo, hi, m);
      InsertKeepsOrder(page, page', n, c, m);
    }
    if c0 == c {
      assert KidLo(page, c, lo) <= k < KidHi(page, n, c, hi) by {
        RoutedInRange(page, n, k, lo, hi);
      }
    }
    ParentRouteGet(cfg, p.addr, p.kids, file, file', n, c, l, r, m, k);
  }

  // ---------------------------------------------------------------------------
  // A new root

  /**
    The new root page of a root split: an interior page with one key, the
    median, and the pointers to the two halves.
  */
  ghost predicate RootPage(cfg: Cfg, page: seq<int>, m: int, left: int, right: int)
    requires TableOk(cfg, page)
  {
    && !IsIndexLeaf(page) && Count(page) == 1
    && KeyAt(page, 0) == m && AddressAt(page, 0) == -left && AddressAt(page, 1) == -right
  }

  /** A new root over the halves of the old root is well formed, one level deeper, and stores what the old root stored. */
  lemma NewRoot(cfg: Cfg, x: Shape, file: File, lo: int, hi: int, d: nat, l: Shape, r: Shape, m: int, ra: int, file': File)
    requires Halves(cfg, x, file, lo, hi, d, l, r, m, file')
    requires ra != 0 && ra in file' && TableOk(cfg, file'[ra]) && RootPage(cfg, file'[ra], m, l.addr, r.addr)
    ensures Wf(cfg, Node(ra, [l, r]), file', lo, hi, d + 1)
    ensures forall k :: lo <= k < hi ==> Get(cfg, Node(ra, [l, r]), file', k) == Get(cfg, x, file, k)
  {
    var page := file'[ra];
    assert NodeOk(cfg, page, 2, lo, hi);
    assert NodeWf(cfg, page, [l, r], file', lo, hi, d + 1);
    forall k | lo <= k < hi
      ensures Get(cfg, Node(ra, [l, r]), file', k) == Get(cfg, x, file, k)
    {
      var c := if k < m then 0 else 1;
      ChildInRange(page, 1, k, c, lo, hi);
      GetKid(cfg, ra, [l, r], file', k, c);
    }
  }
}
