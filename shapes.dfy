/**
  The page graph of the tree as a ghost shape, its well-formedness, and the
  map it stores.

  A shape mirrors the pages reachable from the root: a leaf page, or an
  interior page with one sub-shape per child pointer.  `Wf` ties a shape to
  the pages of the file (flags, counts, sorted separator keys, child
  pointers, key ranges, a uniform depth); `Get` is the lookup the tree
  implements, routing a key through the separator keys down to a leaf and
  reading the leaf's hash table.
*/
module Shapes {
  import opened Wrappers
  import opened Words
  import opened Pages
  import opened HashLeaf
  import opened SortedNode

  /** The key range of the whole tree: every 32-bit key. */
  const MinKey: int := -0x8000_0000
  const KeyBound: int := 0x8000_0000

  datatype Shape = Leaf(addr: int) | Node(addr: int, kids: seq<Shape>)

  /** The pages of the file, by byte address. */
  type File = map<int, seq<int>>

  /** The page addresses a shape occupies. */
  ghost function Addrs(s: Shape): set<int>
    decreases s
  {
    match s
    case Leaf(a) => {a}
    case Node(a, kids) => {a} + (set i, x | 0 <= i < |kids| && x in Addrs(kids[i]) :: x)
  }

  /** No page occurs twice in a shape. */
  ghost predicate Distinct(s: Shape)
    decreases s
  {
    match s
    case Leaf(_) => true
    case Node(a, kids) =>
      && (forall i :: 0 <= i < |kids| ==> Distinct(kids[i]) && a !in Addrs(kids[i]))
      && (forall i, j :: 0 <= i < j < |kids| ==> Addrs(kids[i]) !! Addrs(kids[j]))
  }

  /** The two files hold the same pages at every address of `addrs`. */
  ghost predicate Agree(file: File, file': File, addrs: set<int>) {
    forall a :: a in addrs ==> a in file && a in file' && file'[a] == file[a]
  }

  /** Files that agree on a set of addresses agree on each part of it. */
  lemma AgreeOnPart(file: File, file': File, addrs: set<int>, part: set<int>)
    requires Agree(file, file', addrs) && part <= addrs
    ensures Agree(file, file', part)
  {
  }

  // ---------------------------------------------------------------------------
  // Routing through an interior page

  /**
    The child a search for `k` descends to among `n` separator keys: the
    number of keys at most `k`.
  */
  function ChildIndex(page: seq<int>, n: int, k: int): (c: int)
    requires 0 <= n && 2 * n + 1 < |page|
    ensures 0 <= c <= n
  {
    if n == 0 then 0 else ChildIndex(page, n - 1, k) + (if KeyAt(page, n - 1) <= k then 1 else 0)
  }

  /** The lower bound of the keys under child `i`. */
  function KidLo(page: seq<int>, i: int, lo: int): int
    requires 0 <= i && 2 * i + 1 < |page|
  {
    if i == 0 then lo else KeyAt(page, i - 1)
  }

  /** The (exclusive) upper bound of the keys under child `i` of `n + 1`. */
  function KidHi(page: seq<int>, n: int, i: int, hi: int): int
    requires 0 <= i <= n && 2 * n + 1 < |page|
  {
    if i == n then hi else KeyAt(page, i)
  }

  /** Sorted separators split at the child index: keys before it are at most `k`, keys after it exceed `k`. */
  lemma {:induction false} ChildIndexSplits(page: seq<int>, n: int, k: int)
    requires 0 <= n && 2 * n + 1 < |page| && SortedKeys(page, n)
    ensures forall i :: 0 <= i < ChildIndex(page, n, k) ==> KeyAt(page, i) <= k
    ensures forall i :: ChildIndex(page, n, k) <= i < n ==> k < KeyAt(page, i)
  {
    if n > 0 {
      ChildIndexSplits(page, n - 1, k);
    }
  }

  /** The child index is the only split point of the sorted separators. */
  lemma ChildIndexIs(page: seq<int>, n: int, k: int, c: int)
    requires 0 <= n && 2 * n + 1 < |page| && SortedKeys(page, n) && 0 <= c <= n
    requires forall i :: 0 <= i < c ==> KeyAt(page, i) <= k
    requires forall i :: c <= i < n ==> k < KeyAt(page, i)
    ensures ChildIndex(page, n, k) == c
  {
    ChildIndexSplits(page, n, k);
  }

  /** A key inside the range of child `c` is routed to child `c`. */
  lemma ChildInRange(page: seq<int>, n: int, k: int, c: int, lo: int, hi: int)
    requires 0 <= n && 2 * n + 1 < |page| && SortedKeys(page, n) && 0 <= c <= n
    requires KidLo(page, c, lo) <= k < KidHi(page, n, c, hi)
    ensures ChildIndex(page, n, k) == c
  {
    ChildIndexIs(page, n, k, c);
  }

  /** A key in the node's range lies in the range of the child it is routed to. */
  lemma RoutedInRange(page: seq<int>, n: int, k: int, lo: int, hi: int)
    requires 0 <= n && 2 * n + 1 < |page| && SortedKeys(page, n) && lo <= k < hi
    ensures var c := ChildIndex(page, n, k); KidLo(page, c, lo) <= k < KidHi(page, n, c, hi)
  {
    ChildIndexSplits(page, n, k);
  }

  /** The binary search's answer names the child the key is routed to. */
  lemma SearchRoute(page: seq<int>, n: int, k: int, r: int)
    requires 0 <= n && 2 * n + 1 < |page| && SortedKeys(page, n)
    requires 0 <= r ==> r < n && KeyAt(page, r) == k
    requires r < 0 ==> InsertionPoint(page, n, k, -r - 1)
    ensures ChildIndex(page, n, k) == if r >= 0 then r + 1 else -r - 1
  {
    if r >= 0 {
      ChildIndexIs(page, n, k, r + 1);
    } else {
      ChildIndexIs(page, n, k, -r - 1);
    }
  }

  // ---------------------------------------------------------------------------
  // Well-formedness

  /**
    A leaf page: the leaf flag is set; a hashed leaf keeps a consistent table
    whose count is its number of live slots, at most the hashed-leaf limit,
    with every key in the leaf's range; a leaf that is not hashed yet is
    empty.
  */
  ghost predicate LeafOk(cfg: Cfg, page: seq<int>, lo: int, hi: int)
    requires TableOk(cfg, page)
  {
    && IsIndexLeaf(page)
    && if IsHashedLeaf(page) then
         && HashWf(cfg, page)
         && Count(page) == LiveCount(cfg, page) <= cfg.maxLeafNodesInHash
         && forall s :: 0 <= s < cfg.hashPageCapacity && KeyAt(page, s) != HASH_FREE ==> lo <= KeyAt(page, s) < hi
       else
         && Count(page) == 0
         && forall s :: 0 <= s < cfg.hashPageCapacity ==> KeyAt(page, s) == HASH_FREE
  }

  /**
    An interior page with `nkids` children: the leaf flag is clear, the page
    has room for its `count + 1` child pointers, and its separator keys
    increase strictly and lie strictly above `lo` and below `hi`.
  */
  ghost predicate NodeOk(cfg: Cfg, page: seq<int>, nkids: int, lo: int, hi: int)
    requires TableOk(cfg, page)
  {
    && !IsIndexLeaf(page)
    && 0 <= Count(page) && Count(page) + 1 <= cfg.maxInteriorNodes
    && nkids == Count(page) + 1
    && SortedKeys(page, Count(page))
    && forall i :: 0 <= i < Count(page) ==> lo < KeyAt(page, i) < hi
  }

  /** A shape whose pages are well formed, with keys in `[lo, hi)` and every leaf at depth `d`. */
  ghost predicate Wf(cfg: Cfg, s: Shape, file: File, lo: int, hi: int, d: nat)
    decreases s
  {
    && s.addr in file
    && TableOk(cfg, file[s.addr])
    && match s
       case Leaf(a) => d == 1 && LeafOk(cfg, file[a], lo, hi)
       case Node(a, kids) => a != 0 && d > 1 && NodeWf(cfg, file[a], kids, file, lo, hi, d)
  }

  /**
    Interior page `page` with sub-shapes `kids`: the page is well formed,
    child pointer `i` is the negated address of `kids[i]`, and each child is
    well formed in the range its separators give it, one level lower.
  */
  ghost predicate NodeWf(cfg: Cfg, page: seq<int>, kids: seq<Shape>, file: File, lo: int, hi: int, d: nat)
    decreases kids
  {
    && d > 1
    && TableOk(cfg, page)
    && NodeOk(cfg, page, |kids|, lo, hi)
    && (forall i :: 0 <= i < |kids| ==> AddressAt(page, i) == -kids[i].addr)
    && (forall i :: 0 <= i < |kids| ==>
          Wf(cfg, kids[i], file, KidLo(page, i, lo), KidHi(page, |kids| - 1, i, hi), d - 1))
  }

  // ---------------------------------------------------------------------------
  // The stored map

  /** What a leaf page maps `k` to. */
  ghost function LeafGet(cfg: Cfg, page: seq<int>, k: int): Option<int>
    requires TableOk(cfg, page)
  {
    if IsHashedLeaf(page) then HashGet(cfg, page, k) else None
  }

  /** The lookup: route `k` through the separators to a leaf and look it up there. */
  ghost function Get(cfg: Cfg, s: Shape, file: File, k: int): Option<int>
    decreases s
  {
    if s.addr !in file || !TableOk(cfg, file[s.addr]) then None
    else match s
      case Leaf(a) => LeafGet(cfg, file[a], k)
      case Node(a, kids) => NodeGet(cfg, file[a], kids, file, k)
  }

  /** The lookup below interior page `page`: in the child the separators route `k` to. */
  ghost function NodeGet(cfg: Cfg, page: seq<int>, kids: seq<Shape>, file: File, k: int): Option<int>
    decreases kids
  {
    if !TableOk(cfg, page) || Count(page) < 0 || 2 * Count(page) + 1 >= |page| then None
    else
      var c := ChildIndex(page, Count(page), k);
      if c < |kids| then Get(cfg, kids[c], file, k) else None
  }

  /** The lookup in an interior page whose separators route `k` to child `c` is the lookup in that child. */
  lemma GetKid(cfg: Cfg, a: int, kids: seq<Shape>, file: File, k: int, c: int)
    requires a in file && TableOk(cfg, file[a])
    requires 0 <= Count(file[a]) && 2 * Count(file[a]) + 1 < |file[a]| && |kids| == Count(file[a]) + 1
    requires 0 <= c < |kids| && ChildIndex(file[a], |kids| - 1, k) == c
    ensures Get(cfg, Node(a, kids), file, k) == Get(cfg, kids[c], file, k)
  {
    GetNode(cfg, a, kids, file, k);
  }

  /** What a well-formed interior node states about its page and children, spelled out. */
  lemma NodeParts(cfg: Cfg, s: Shape, file: File, lo: int, hi: int, d: nat)
    requires Wf(cfg, s, file, lo, hi, d) && s.Node?
    ensures var page := file[s.addr]; var n := Count(page);
      && TableOk(cfg, page) && s.addr != 0 && d > 1
      && !IsIndexLeaf(page) && 0 <= n && n + 1 <= cfg.maxInteriorNodes && |s.kids| == n + 1
      && SortedKeys(page, n)
      && (forall i :: 0 <= i < n ==> lo < KeyAt(page, i) < hi)
      && (forall i :: 0 <= i < |s.kids| ==> AddressAt(page, i) == -s.kids[i].addr)
      && (forall i :: 0 <= i < |s.kids| ==> Wf(cfg, s.kids[i], file, KidLo(page, i, lo), KidHi(page, n, i, hi), d - 1))
  {
    assert NodeWf(cfg, file[s.addr], s.kids, file, lo, hi, d);
  }

  /** An interior node is well formed once its page and its children are (the converse of `NodeParts`). */
  lemma NodeFromParts(cfg: Cfg, a: int, kids: seq<Shape>, file: File, lo: int, hi: int, d: nat)
    requires a in file && TableOk(cfg, file[a]) && a != 0 && d > 1
    requires NodeOk(cfg, file[a], |kids|, lo, hi)
    requires forall i :: 0 <= i < |kids| ==> AddressAt(file[a], i) == -kids[i].addr
    requires forall i :: 0 <= i < |kids| ==> Wf(cfg, kids[i], file, KidLo(file[a], i, lo), KidHi(file[a], |kids| - 1, i, hi), d - 1)
    ensures Wf(cfg, Node(a, kids), file, lo, hi, d)
  {
    assert NodeWf(cfg, file[a], kids, file, lo, hi, d);
  }

  /** The lookup in an interior page is the lookup in the child the key is routed to. */
  lemma GetNode(cfg: Cfg, a: int, kids: seq<Shape>, file: File, k: int)
    requires a in file && TableOk(cfg, file[a])
    requires 0 <= Count(file[a]) && 2 * Count(file[a]) + 1 < |file[a]| && |kids| == Count(file[a]) + 1
    ensures Get(cfg, Node(a, kids), file, k) == Get(cfg, kids[ChildIndex(file[a], Count(file[a]), k)], file, k)
  {
  }

  /** Nothing is stored outside a shape's key range. */
  lemma {:induction false} GetOutside(cfg: Cfg, s: Shape, file: File, lo: int, hi: int, d: nat, k: int)
    requires Wf(cfg, s, file, lo, hi, d)
    requires k < lo || hi <= k
    ensures Get(cfg, s, file, k) == None
    decreases s
  {
    var page := file[s.addr];
    match s
    case Leaf(a) =>
    case Node(a, kids) =>
      var n := Count(page);
      var c := ChildIndex(page, n, k);
      GetOutside(cfg, kids[c], file, KidLo(page, c, lo), KidHi(page, n, c, hi), d - 1, k);
  }

  /** Every page of `s` is the same in both files. */
  ghost predicate Same(s: Shape, file: File, file': File)
    decreases s
  {
    && s.addr in file && s.addr in file' && file'[s.addr] == file[s.addr]
    && (s.Node? ==> forall i :: 0 <= i < |s.kids| ==> Same(s.kids[i], file, file'))
  }

  /** Well-formedness only reads the pages a shape occupies. */
  lemma {:induction false} Frame(cfg: Cfg, s: Shape, file: File, file': File, lo: int, hi: int, d: nat)
    requires Wf(cfg, s, file, lo, hi, d)
    requires Same(s, file, file')
    ensures Wf(cfg, s, file', lo, hi, d)
    decreases s
  {
    match s
    case Leaf(a) =>
    case Node(a, kids) =>
      var page := file[a];
      forall i | 0 <= i < |kids|
        ensures Wf(cfg, kids[i], file', KidLo(page, i, lo), KidHi(page, |kids| - 1, i, hi), d - 1)
      {
        Frame(cfg, kids[i], file, file', KidLo(page, i, lo), KidHi(page, |kids| - 1, i, hi), d - 1);
      }
  }

  /** A lookup only reads the pages along its route. */
  lemma {:induction false} FrameGet(cfg: Cfg, s: Shape, file: File, file': File, k: int)
    requires Same(s, file, file')
    ensures Get(cfg, s, file', k) == Get(cfg, s, file, k)
    decreases s
  {
    if s.Node? {
      var page := file[s.addr];
      if TableOk(cfg, page) && 0 <= Count(page) && 2 * Count(page) + 1 < |page| {
        var c := ChildIndex(page, Count(page), k);
        if c < |s.kids| {
          FrameGet(cfg, s.kids[c], file, file', k);
        }
      }
    }
  }

  /** The children's ranges lie inside the parent's. */
  lemma KidBoundsNested(cfg: Cfg, page: seq<int>, nkids: int, lo: int, hi: int, i: int)
    requires TableOk(cfg, page) && NodeOk(cfg, page, nkids, lo, hi) && 0 <= i < nkids
    ensures lo <= KidLo(page, i, lo) && KidHi(page, nkids - 1, i, hi) <= hi
  {
  }

  // ---------------------------------------------------------------------------
  // Paths from the root

  /** A sequence of child indices that leads from the root of `s` to one of its sub-shapes. */
  ghost predicate ValidPath(s: Shape, p: seq<nat>)
    decreases |p|
  {
    |p| == 0 || (s.Node? && p[0] < |s.kids| && ValidPath(s.kids[p[0]], p[1..]))
  }

  /** The sub-shape at the end of a path. */
  ghost function At(s: Shape, p: seq<nat>): Shape
    requires ValidPath(s, p)
    decreases |p|
  {
    if |p| == 0 then s else At(s.kids[p[0]], p[1..])
  }

  /** `s` with the sub-shape at the end of `p` replaced by `t`. */
  ghost function ReplaceAt(s: Shape, p: seq<nat>, t: Shape): (r: Shape)
    requires ValidPath(s, p)
    ensures |p| > 0 ==> r.addr == s.addr
    decreases |p|
  {
    if |p| == 0 then t else Node(s.addr, s.kids[p[0] := ReplaceAt(s.kids[p[0]], p[1..], t)])
  }

  /** The key range of the sub-shape at the end of `p`, when the root's is `[lo, hi)`. */
  ghost function BoundsAt(cfg: Cfg, s: Shape, file: File, p: seq<nat>, lo: int, hi: int): (int, int)
    requires ValidPath(s, p)
    decreases |p|
  {
    if |p| == 0 then (lo, hi)
    else if s.addr !in file || !TableOk(cfg, file[s.addr]) || 2 * |s.kids| >= |file[s.addr]| then (lo, hi)
    else
      var page := file[s.addr];
      BoundsAt(cfg, s.kids[p[0]], file, p[1..], KidLo(page, p[0], lo), KidHi(page, |s.kids| - 1, p[0], hi))
  }

  /**
    The pages of `s` off path `p` are the same in both files: those of the
    nodes above the path's end and of every sub-shape beside the path.
  */
  ghost predicate SameOff(s: Shape, p: seq<nat>, file: File, file': File)
    requires ValidPath(s, p)
    decreases |p|
  {
    |p| == 0 ||
    (&& s.addr in file && s.addr in file' && file'[s.addr] == file[s.addr]
     && (forall j :: 0 <= j < |s.kids| && j != p[0] ==> Same(s.kids[j], file, file'))
     && SameOff(s.kids[p[0]], p[1..], file, file'))
  }

  /** The path follows the separators' routing of key `k` at every step. */
  ghost predicate OnRoute(cfg: Cfg, s: Shape, file: File, k: int, p: seq<nat>)
    decreases |p|
  {
    |p| == 0 ||
    (&& s.Node? && s.addr in file && TableOk(cfg, file[s.addr])
     && 0 <= Count(file[s.addr]) && 2 * Count(file[s.addr]) + 1 < |file[s.addr]|
     && p[0] == ChildIndex(file[s.addr], Count(file[s.addr]), k) && p[0] < |s.kids|
     && OnRoute(cfg, s.kids[p[0]], file, k, p[1..]))
  }

  /** A route is a path. */
  lemma {:induction false} RouteIsPath(cfg: Cfg, s: Shape, file: File, k: int, p: seq<nat>)
    requires OnRoute(cfg, s, file, k, p)
    ensures ValidPath(s, p)
    decreases |p|
  {
    if |p| > 0 {
      RouteIsPath(cfg, s.kids[p[0]], file, k, p[1..]);
    }
  }

  /**
    The sub-shape at the end of a path is well formed in the path's range,
    one level lower per step, inside the root's range.
  */
  lemma {:induction false} AtWf(cfg: Cfg, s: Shape, file: File, lo: int, hi: int, d: nat, p: seq<nat>)
    requires Wf(cfg, s, file, lo, hi, d) && ValidPath(s, p)
    ensures var b := BoundsAt(cfg, s, file, p, lo, hi);
      && |p| < d
      && Wf(cfg, At(s, p), file, b.0, b.1, d - |p|)
      && lo <= b.0 && b.1 <= hi
    decreases |p|
  {
    if |p| > 0 {
      var page := file[s.addr];
      var i := p[0];
      var kids := s.kids;
      KidBoundsNested(cfg, page, |kids|, lo, hi, i);
      AtWf(cfg, kids[i], file, KidLo(page, i, lo), KidHi(page, |kids| - 1, i, hi), d - 1, p[1..]);
    }
  }

  /** Inside the range of a sub-shape, the lookup of the whole equals the lookup of the sub-shape. */
  lemma {:induction false} AtGet(cfg: Cfg, s: Shape, file: File, lo: int, hi: int, d: nat, p: seq<nat>, k: int)
    requires Wf(cfg, s, file, lo, hi, d) && ValidPath(s, p)
    requires var b := BoundsAt(cfg, s, file, p, lo, hi); b.0 <= k < b.1
    ensures Get(cfg, s, file, k) == Get(cfg, At(s, p), file, k)
    decreases |p|
  {
    if |p| > 0 {
      var page := file[s.addr];
      var i := p[0];
      var kids := s.kids;
      var n := |kids| - 1;
      var klo, khi := KidLo(page, i, lo), KidHi(page, n, i, hi);
      assert Wf(cfg, kids[i], file, klo, khi, d - 1);
      assert BoundsAt(cfg, s, file, p, lo, hi) == BoundsAt(cfg, kids[i], file, p[1..], klo, khi);
      AtWf(cfg, kids[i], file, klo, khi, d - 1, p[1..]);
      ChildInRange(page, n, k, i, lo, hi);
      assert Get(cfg, s, file, k) == Get(cfg, kids[i], file, k);
      AtGet(cfg, kids[i], file, klo, khi, d - 1, p[1..], k);
    }
  }

  /** A key in the root's range lies in the range of every sub-shape on its route. */
  lemma {:induction false} RouteBounds(cfg: Cfg, s: Shape, file: File, lo: int, hi: int, d: nat, k: int, p: seq<nat>)
    requires Wf(cfg, s, file, lo, hi, d) && OnRoute(cfg, s, file, k, p) && lo <= k < hi
    ensures ValidPath(s, p)
    ensures var b := BoundsAt(cfg, s, file, p, lo, hi); b.0 <= k < b.1
    decreases |p|
  {
    RouteIsPath(cfg, s, file, k, p);
    if |p| > 0 {
      var page := file[s.addr];
      var i := p[0];
      var kids := s.kids;
      var n := |kids| - 1;
      ChildIndexSplits(page, n, k);
      RouteBounds(cfg, kids[i], file, KidLo(page, i, lo), KidHi(page, n, i, hi), d - 1, k, p[1..]);
    }
  }

  /** Every page a well-formed shape occupies is in the file. */
  lemma {:induction false} AddrsInFile(cfg: Cfg, s: Shape, file: File, lo: int, hi: int, d: nat)
    requires Wf(cfg, s, file, lo, hi, d)
    ensures forall a :: a in Addrs(s) ==> a in file
    decreases s
  {
    match s
    case Leaf(_) =>
    case Node(a, kids) =>
      var page := file[a];
      forall i | 0 <= i < |kids|
        ensures forall x :: x in Addrs(kids[i]) ==> x in file
      {
        AddrsInFile(cfg, kids[i], file, KidLo(page, i, lo), KidHi(page, |kids| - 1, i, hi), d - 1);
      }
  }

  /** The sub-shape at the end of a path below child `i` is the one at the end of the rest of the path. */
  lemma AtStep(s: Shape, p: seq<nat>)
    requires ValidPath(s, p) && |p| > 0
    ensures At(s, p) == At(s.kids[p[0]], p[1..])
    ensures ReplaceAt(s, p, At(s, p)).addr == s.addr
  {
  }

  /** One step down a path: the range and the replacement of the rest of the path below child `p[0]`. */
  lemma PathStep(cfg: Cfg, s: Shape, file: File, p: seq<nat>, lo: int, hi: int, t: Shape)
    requires ValidPath(s, p) && |p| > 0
    requires s.addr in file && TableOk(cfg, file[s.addr]) && 2 * |s.kids| < |file[s.addr]|
    ensures var page := file[s.addr];
      BoundsAt(cfg, s, file, p, lo, hi) ==
      BoundsAt(cfg, s.kids[p[0]], file, p[1..], KidLo(page, p[0], lo), KidHi(page, |s.kids| - 1, p[0], hi))
    ensures ReplaceAt(s, p, t) == Node(s.addr, s.kids[p[0] := ReplaceAt(s.kids[p[0]], p[1..], t)])
  {
  }

  /** Replacing the sub-shape at the end of a path by itself changes nothing. */
  lemma {:induction false} ReplaceBySelf(s: Shape, p: seq<nat>)
    requires ValidPath(s, p)
    ensures ReplaceAt(s, p, At(s, p)) == s
    decreases |p|
  {
    if |p| > 0 {
      ReplaceBySelf(s.kids[p[0]], p[1..]);
      assert s.kids[p[0] := s.kids[p[0]]] == s.kids;
    }
  }

  /** Every page of a child is a page of its parent. */
  lemma KidAddrsWithin(s: Shape, i: int)
    requires s.Node? && 0 <= i < |s.kids|
    ensures Addrs(s.kids[i]) <= Addrs(s)
  {
  }

  /**
    Replacing one child of a distinct node by a distinct shape whose pages
    are disjoint from the rest of the node keeps the node distinct; its pages
    become the rest plus the replacement's.
  */
  lemma ReplaceKidAddrs(s: Shape, i: int, kid': Shape)
    requires s.Node? && Distinct(s) && 0 <= i < |s.kids|
    requires Distinct(kid') && Addrs(kid') !! (Addrs(s) - Addrs(s.kids[i]))
    ensures var s' := Node(s.addr, s.kids[i := kid']);
      && Distinct(s')
      && Addrs(s') == (Addrs(s) - Addrs(s.kids[i])) + Addrs(kid')
  {
    var a := s.addr;
    var kids := s.kids;
    var kids' := kids[i := kid'];
    var s' := Node(a, kids');
    assert a in Addrs(s) && a !in Addrs(kids[i]);
    forall x
      ensures x in Addrs(s') <==> x in (Addrs(s) - Addrs(kids[i])) + Addrs(kid')
    {
      if x in Addrs(s') && x != a && x !in Addrs(kid') {
        var j :| 0 <= j < |kids'| && x in Addrs(kids'[j]);
        KidAddrsWithin(s, j);
      }
      if x in Addrs(s) && x !in Addrs(kids[i]) && x != a {
        var j :| 0 <= j < |kids| && x in Addrs(kids[j]);
        assert x in Addrs(kids'[j]);
      }
      if x in Addrs(kid') {
        assert x in Addrs(kids'[i]);
      }
    }
    forall j1, j2 | 0 <= j1 < j2 < |kids'|
      ensures Addrs(kids'[j1]) !! Addrs(kids'[j2])
    {
      if j1 == i || j2 == i {
        KidAddrsWithin(s, if j1 == i then j2 else j1);
      }
    }
  }

  /**
    Replacing one child of a well-formed node by a shape that is well formed
    in the child's range and has the child's address, while the node's own
    page and its other children's pages stay as they are, gives a
    well-formed node.
  */
  lemma ReplaceKidWf(cfg: Cfg, s: Shape, file: File, lo: int, hi: int, d: nat, i: int, kid': Shape, file': File)
    requires Wf(cfg, s, file, lo, hi, d) && s.Node? && 0 <= i < |s.kids|
    requires var b := BoundsAt(cfg, s, file, [i], lo, hi); Wf(cfg, kid', file', b.0, b.1, d - 1)
    requires kid'.addr == s.kids[i].addr
    requires SameOff(s, [i], file, file')
    ensures Wf(cfg, Node(s.addr, s.kids[i := kid']), file', lo, hi, d)
  {
    var a := s.addr;
    var page := file[a];
    var kids := s.kids;
    var n := |kids| - 1;
    var kids' := kids[i := kid'];
    assert BoundsAt(cfg, s, file, [i], lo, hi) == (KidLo(page, i, lo), KidHi(page, n, i, hi));
    forall j | 0 <= j < |kids| && j != i
      ensures Wf(cfg, kids[j], file', KidLo(page, j, lo), KidHi(page, n, j, hi), d - 1)
    {
      Frame(cfg, kids[j], file, file', KidLo(page, j, lo), KidHi(page, n, j, hi), d - 1);
    }
    assert NodeWf(cfg, page, kids', file', lo, hi, d);
  }

  /**
    Replacing the sub-shape at the end of a path of a distinct shape by a
    distinct shape whose pages are disjoint from the rest keeps the whole
    distinct; its pages become the rest plus the replacement's.
  */
  lemma {:induction false} ReplaceAddrs(s: Shape, p: seq<nat>, t: Shape)
    requires Distinct(s) && ValidPath(s, p)
    requires Distinct(t) && Addrs(t) !! (Addrs(s) - Addrs(At(s, p)))
    ensures Distinct(ReplaceAt(s, p, t))
    ensures Addrs(ReplaceAt(s, p, t)) == (Addrs(s) - Addrs(At(s, p))) + Addrs(t)
    decreases |p|
  {
    if |p| > 0 {
      var i := p[0];
      var kid := s.kids[i];
      AtStep(s, p);
      KidAddrsWithin(s, i);
      AtAddrs(kid, p[1..]);
      ReplaceAddrs(kid, p[1..], t);
      ReplaceKidAddrs(s, i, ReplaceAt(kid, p[1..], t));
    }
  }

  /** The sub-shape at the end of a path occupies a part of the shape's pages. */
  lemma {:induction false} AtAddrs(s: Shape, p: seq<nat>)
    requires ValidPath(s, p)
    ensures Addrs(At(s, p)) <= Addrs(s)
    ensures Distinct(s) ==> Distinct(At(s, p))
    decreases |p|
  {
    if |p| > 0 {
      KidAddrsWithin(s, p[0]);
      AtAddrs(s.kids[p[0]], p[1..]);
    }
  }

  /**
    Replacing the sub-shape at the end of a path by a shape that is well
    formed in that sub-shape's range and has its address, while the pages off
    the path stay as they are, keeps the whole well formed.
  */
  lemma {:induction false} ReplaceWf(cfg: Cfg, s: Shape, file: File, lo: int, hi: int, d: nat, p: seq<nat>, t: Shape, file': File)
    requires Wf(cfg, s, file, lo, hi, d) && ValidPath(s, p) && |p| < d
    requires var b := BoundsAt(cfg, s, file, p, lo, hi); Wf(cfg, t, file', b.0, b.1, d - |p|)
    requires t.addr == At(s, p).addr
    requires SameOff(s, p, file, file')
    ensures Wf(cfg, ReplaceAt(s, p, t), file', lo, hi, d)
    decreases |p|
  {
    if |p| > 0 {
      var kb := BoundsAt(cfg, s, file, [p[0]], lo, hi);
      ReplaceDown(cfg, s, file, lo, hi, d, p, t, file');
      ReplaceWf(cfg, s.kids[p[0]], file, kb.0, kb.1, d - 1, p[1..], t, file');
      ReplaceUpWf(cfg, s, file, lo, hi, d, p, t, file');
    }
  }

  /** Inside the range of the replaced sub-shape, the lookup is the replacement's. */
  lemma {:induction false} ReplaceGetInside(cfg: Cfg, s: Shape, file: File, lo: int, hi: int, d: nat, p: seq<nat>, t: Shape, file': File, k: int)
    requires Wf(cfg, s, file, lo, hi, d) && ValidPath(s, p) && SameOff(s, p, file, file')
    requires var b := BoundsAt(cfg, s, file, p, lo, hi); b.0 <= k < b.1
    ensures Get(cfg, ReplaceAt(s, p, t), file', k) == Get(cfg, t, file', k)
    decreases |p|
  {
    if |p| > 0 {
      var page := file[s.addr];
      var i := p[0];
      var n := |s.kids| - 1;
      var kid := s.kids[i];
      var klo, khi := KidLo(page, i, lo), KidHi(page, n, i, hi);
      PathStep(cfg, s, file, p, lo, hi, t);
      AtWf(cfg, kid, file, klo, khi, d - 1, p[1..]);
      ChildInRange(page, n, k, i, lo, hi);
      GetNode(cfg, s.addr, s.kids[i := ReplaceAt(kid, p[1..], t)], file', k);
      ReplaceGetInside(cfg, kid, file, klo, khi, d - 1, p[1..], t, file', k);
    }
  }

  /** Outside the range of the replaced sub-shape, the lookup of a key in the root's range is unchanged. */
  lemma {:induction false} ReplaceGetBeside(cfg: Cfg, s: Shape, file: File, lo: int, hi: int, d: nat, p: seq<nat>, t: Shape, file': File, k: int)
    requires Wf(cfg, s, file, lo, hi, d) && ValidPath(s, p) && SameOff(s, p, file, file') && lo <= k < hi
    requires var b := BoundsAt(cfg, s, file, p, lo, hi); !(b.0 <= k < b.1)
    ensures Get(cfg, ReplaceAt(s, p, t), file', k) == Get(cfg, s, file, k)
    decreases |p|
  {
    var page := file[s.addr];
    var i := p[0];
    var n := |s.kids| - 1;
    var kid := s.kids[i];
    var klo, khi := KidLo(page, i, lo), KidHi(page, n, i, hi);
    PathStep(cfg, s, file, p, lo, hi, t);
    var c := ChildIndex(page, n, k);
    RoutedInRange(page, n, k, lo, hi);
    GetNode(cfg, s.addr, s.kids, file, k);
    GetNode(cfg, s.addr, s.kids[i := ReplaceAt(kid, p[1..], t)], file', k);
    if c == i {
      ReplaceGetBeside(cfg, kid, file, klo, khi, d - 1, p[1..], t, file', k);
    } else {
      FrameGet(cfg, s.kids[c], file, file', k);
    }
  }

  /**
    Replacing the sub-shape at the end of a path, while the pages off the
    path stay as they are, changes the lookups of keys in the shape's range
    only inside the sub-shape's range, where they become the replacement's.
  */
  lemma ReplaceGet(cfg: Cfg, s: Shape, file: File, lo: int, hi: int, d: nat, p: seq<nat>, t: Shape, file': File, k: int)
    requires Wf(cfg, s, file, lo, hi, d) && ValidPath(s, p) && SameOff(s, p, file, file') && lo <= k < hi
    ensures Get(cfg, ReplaceAt(s, p, t), file', k) ==
            (var b := BoundsAt(cfg, s, file, p, lo, hi);
             if b.0 <= k < b.1 then Get(cfg, t, file', k) else Get(cfg, s, file, k))
  {
    var b := BoundsAt(cfg, s, file, p, lo, hi);
    if b.0 <= k < b.1 {
      ReplaceGetInside(cfg, s, file, lo, hi, d, p, t, file', k);
    } else {
      ReplaceGetBeside(cfg, s, file, lo, hi, d, p, t, file', k);
    }
  }

  /** The step of `Replace` into the first child on the path: its preconditions hold there. */
  lemma ReplaceDown(cfg: Cfg, s: Shape, file: File, lo: int, hi: int, d: nat, p: seq<nat>, t: Shape, file': File)
    requires Wf(cfg, s, file, lo, hi, d) && ValidPath(s, p) && 0 < |p| < d
    requires var b := BoundsAt(cfg, s, file, p, lo, hi); Wf(cfg, t, file', b.0, b.1, d - |p|)
    requires t.addr == At(s, p).addr
    requires SameOff(s, p, file, file')
    ensures var kid := s.kids[p[0]]; var kb := BoundsAt(cfg, s, file, [p[0]], lo, hi);
      && Wf(cfg, kid, file, kb.0, kb.1, d - 1) && ValidPath(kid, p[1..]) && |p[1..]| < d - 1
      && (var b := BoundsAt(cfg, kid, file, p[1..], kb.0, kb.1); Wf(cfg, t, file', b.0, b.1, d - 1 - |p[1..]|))
      && t.addr == At(kid, p[1..]).addr
      && SameOff(kid, p[1..], file, file')
  {
    var page := file[s.addr];
    var i := p[0];
    var kids := s.kids;
    var klo, khi := KidLo(page, i, lo), KidHi(page, |kids| - 1, i, hi);
    var kid := kids[i];
    assert BoundsAt(cfg, s, file, p, lo, hi) == BoundsAt(cfg, kid, file, p[1..], klo, khi);
    assert BoundsAt(cfg, s, file, [i], lo, hi) == (klo, khi);
    AtStep(s, p);
  }

  /** The well-formedness step of `ReplaceWf` back up from the first child on the path. */
  lemma ReplaceUpWf(cfg: Cfg, s: Shape, file: File, lo: int, hi: int, d: nat, p: seq<nat>, t: Shape, file': File)
    requires Wf(cfg, s, file, lo, hi, d) && ValidPath(s, p) && 0 < |p| < d
    requires t.addr == At(s, p).addr
    requires SameOff(s, p, file, file')
    requires var kb := BoundsAt(cfg, s, file, [p[0]], lo, hi);
      Wf(cfg, ReplaceAt(s.kids[p[0]], p[1..], t), file', kb.0, kb.1, d - 1)
    ensures Wf(cfg, ReplaceAt(s, p, t), file', lo, hi, d)
  {
    var i := p[0];
    var kid := s.kids[i];
    AtStep(s, p);
    ReplaceKidWf(cfg, s, file, lo, hi, d, i, ReplaceAt(kid, p[1..], t), file');
  }

  /** Files that agree on every page of a shape hold the same shape. */
  lemma {:induction false} SameFromAgree(s: Shape, file: File, file': File)
    requires Agree(file, file', Addrs(s))
    ensures Same(s, file, file')
    decreases s
  {
    if s.Node? {
      forall i | 0 <= i < |s.kids|
        ensures Same(s.kids[i], file, file')
      {
        KidAddrsWithin(s, i);
        AgreeOnPart(file, file', Addrs(s), Addrs(s.kids[i]));
        SameFromAgree(s.kids[i], file, file');
      }
    }
  }

  /**
    In a distinct shape, files that agree on every page outside the
    sub-shape at the end of `p` hold the same pages off the path.
  */
  lemma {:induction false} SameOffPath(s: Shape, p: seq<nat>, file: File, file': File)
    requires Distinct(s) && ValidPath(s, p)
    requires Agree(file, file', Addrs(s) - Addrs(At(s, p)))
    ensures SameOff(s, p, file, file')
    decreases |p|
  {
    if |p| > 0 {
      var i := p[0];
      var kid := s.kids[i];
      AtStep(s, p);
      AtAddrs(kid, p[1..]);
      KidAddrsWithin(s, i);
      assert s.addr in Addrs(s) - Addrs(At(s, p));
      forall j | 0 <= j < |s.kids| && j != i
        ensures Same(s.kids[j], file, file')
      {
        KidAddrsWithin(s, j);
        AgreeOnPart(file, file', Addrs(s) - Addrs(At(s, p)), Addrs(s.kids[j]));
        SameFromAgree(s.kids[j], file, file');
      }
      AgreeOnPart(file, file', Addrs(s) - Addrs(At(s, p)), Addrs(kid) - Addrs(At(kid, p[1..])));
      SameOffPath(kid, p[1..], file, file');
    }
  }
}
