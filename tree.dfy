/**
  The whole tree on values: the invariant a tree keeps between operations
  (a well-formed shape whose pages are all distinct) and the steps the
  tree's methods take on it — an update of the leaf a key is routed to, and
  the split of a full node on that route, under a non-full parent or as a
  new root.  Each step keeps the invariant and the stored map.
*/
module Tree {
  import opened Wrappers
  import opened Words
  import opened Pages
  import opened HashLeaf
  import opened SortedNode
  import opened Shapes
  import opened Split
  import opened Sorting

  /** The tree invariant on values: a well-formed shape over the whole key range, no page used twice. */
  ghost predicate TreeOk(cfg: Cfg, s: Shape, file: File, d: nat) {
    Wf(cfg, s, file, MinKey, KeyBound, d) && Distinct(s)
  }

  // ---------------------------------------------------------------------------
  // Paths

  /** Extending a path by one step goes to a child of the node the path ends at. */
  lemma {:induction false} AtSnoc(s: Shape, q: seq<nat>, c: nat)
    requires ValidPath(s, q) && At(s, q).Node? && c < |At(s, q).kids|
    ensures ValidPath(s, q + [c]) && At(s, q + [c]) == At(s, q).kids[c]
    decreases |q|
  {
    if |q| > 0 {
      assert (q + [c])[0] == q[0] && (q + [c])[1..] == q[1..] + [c];
      AtSnoc(s.kids[q[0]], q[1..], c);
    }
  }

  /** The range of a child is cut from its parent's range by the parent's separators. */
  lemma {:induction false} BoundsSnoc(cfg: Cfg, s: Shape, file: File, lo: int, hi: int, d: nat, q: seq<nat>, c: nat)
    requires Wf(cfg, s, file, lo, hi, d) && ValidPath(s, q) && At(s, q).Node? && c < |At(s, q).kids|
    requires var p := At(s, q); p.addr in file && TableOk(cfg, file[p.addr]) && 2 * |p.kids| < |file[p.addr]|
    ensures ValidPath(s, q + [c])
    ensures var p := At(s, q); var b := BoundsAt(cfg, s, file, q, lo, hi);
            BoundsAt(cfg, s, file, q + [c], lo, hi) ==
              (KidLo(file[p.addr], c, b.0), KidHi(file[p.addr], |p.kids| - 1, c, b.1))
    decreases |q|
  {
    AtSnoc(s, q, c);
    NodeParts(cfg, s, file, lo, hi, d);
    if |q| > 0 {
      var page := file[s.addr];
      assert (q + [c])[0] == q[0] && (q + [c])[1..] == q[1..] + [c];
      BoundsSnoc(cfg, s.kids[q[0]], file, KidLo(page, q[0], lo), KidHi(page, |s.kids| - 1, q[0], hi), d - 1, q[1..], c);
    }
  }

  /** A route can be extended by the child the separators pick. */
  lemma {:induction false} RouteSnoc(cfg: Cfg, s: Shape, file: File, k: int, q: seq<nat>, c: nat)
    requires OnRoute(cfg, s, file, k, q) && ValidPath(s, q)
    requires var p := At(s, q);
             && p.Node? && p.addr in file && TableOk(cfg, file[p.addr])
             && 0 <= Count(file[p.addr]) && 2 * Count(file[p.addr]) + 1 < |file[p.addr]|
             && c == ChildIndex(file[p.addr], Count(file[p.addr]), k) && c < |p.kids|
    ensures OnRoute(cfg, s, file, k, q + [c])
    decreases |q|
  {
    if |q| > 0 {
      assert (q + [c])[0] == q[0] && (q + [c])[1..] == q[1..] + [c];
      RouteSnoc(cfg, s.kids[q[0]], file, k, q[1..], c);
    }
  }

  /** The node a path ends at is a child of the node at the end of the path's prefix. */
  lemma {:induction false} PathParent(s: Shape, pp: seq<nat>)
    requires ValidPath(s, pp) && |pp| > 0
    ensures var q := pp[..|pp| - 1];
      && ValidPath(s, q) && At(s, q).Node? && pp[|pp| - 1] < |At(s, q).kids|
      && At(s, q).kids[pp[|pp| - 1]] == At(s, pp)
    decreases |pp|
  {
    if |pp| > 1 {
      assert pp[1..][..|pp| - 2] == pp[..|pp| - 1][1..];
      PathParent(s.kids[pp[0]], pp[1..]);
    }
  }

  /** A prefix of a route is a route. */
  lemma {:induction false} RoutePrefix(cfg: Cfg, s: Shape, file: File, k: int, q: seq<nat>, c: nat)
    requires OnRoute(cfg, s, file, k, q + [c])
    ensures OnRoute(cfg, s, file, k, q)
    ensures ValidPath(s, q) && At(s, q).Node?
    decreases |q|
  {
    assert (q + [c])[0] == (if |q| > 0 then q[0] else c);
    if |q| > 0 {
      assert (q + [c])[1..] == q[1..] + [c];
      RoutePrefix(cfg, s.kids[q[0]], file, k, q[1..], c);
    }
  }

  /** Replacing the end of a path leaves the path in place and puts the new sub-shape at its end. */
  lemma {:induction false} ReplaceAtAt(s: Shape, q: seq<nat>, t: Shape)
    requires ValidPath(s, q)
    ensures ValidPath(ReplaceAt(s, q, t), q) && At(ReplaceAt(s, q, t), q) == t
    decreases |q|
  {
    if |q| > 0 {
      ReplaceAtAt(s.kids[q[0]], q[1..], t);
    }
  }

  /** A route to the end of a path stays a route when only the end is replaced and the pages above it are kept. */
  lemma {:induction false} RouteAfterReplace(cfg: Cfg, s: Shape, file: File, file': File, k: int, q: seq<nat>, t: Shape)
    requires OnRoute(cfg, s, file, k, q) && ValidPath(s, q) && SameOff(s, q, file, file')
    ensures OnRoute(cfg, ReplaceAt(s, q, t), file', k, q)
    decreases |q|
  {
    if |q| > 0 {
      RouteAfterReplace(cfg, s.kids[q[0]], file, file', k, q[1..], t);
    }
  }

  /** Interior nodes never live at address 0, which the tree uses for "no parent". */
  lemma NodeNotAtZero(cfg: Cfg, s: Shape, file: File, d: nat, p: seq<nat>)
    requires TreeOk(cfg, s, file, d) && ValidPath(s, p) && At(s, p).Node?
    ensures At(s, p).addr != 0
  {
    AtWf(cfg, s, file, MinKey, KeyBound, d, p);
  }

  // ---------------------------------------------------------------------------
  // Updating a leaf

  /**
    `page'` is `page` with `key` mapped to `value`: a consistent hashed leaf
    within the hashed-leaf limit, agreeing with `page` on every other key.
  */
  ghost predicate LeafStore(cfg: Cfg, page: seq<int>, page': seq<int>, key: int, value: int)
    requires TableOk(cfg, page) && TableOk(cfg, page')
  {
    && IsIndexLeaf(page') && IsHashedLeaf(page') && HashWf(cfg, page')
    && Count(page') == LiveCount(cfg, page') <= cfg.maxLeafNodesInHash
    && forall k :: HashGet(cfg, page', k) == if k == key then Some(value) else LeafGet(cfg, page, k)
  }

  /** A leaf page updated at a key routed to it stays well formed in the leaf's range. */
  lemma LeafStoreOk(cfg: Cfg, page: seq<int>, page': seq<int>, key: int, value: int, lo: int, hi: int)
    requires TableOk(cfg, page) && TableOk(cfg, page') && LeafOk(cfg, page, lo, hi) && lo <= key < hi
    requires LeafStore(cfg, page, page', key, value)
    ensures LeafOk(cfg, page', lo, hi)
  {
    forall s | 0 <= s < cfg.hashPageCapacity && KeyAt(page', s) != HASH_FREE
      ensures lo <= KeyAt(page', s) < hi
    {
      var k := KeyAt(page', s);
      HashGetSlot(cfg, page', s);
      if k != key {
        assert HashGet(cfg, page, k).Some?;
      }
    }
  }

  /**
    Storing `key -> value` in the leaf at the end of the key's route keeps
    the tree invariant, maps `key` to `value` and leaves every other key as
    it was.
  */
  lemma LeafUpdate(cfg: Cfg, s: Shape, file: File, d: nat, p: seq<nat>, key: int, value: int, page': seq<int>)
    requires TreeOk(cfg, s, file, d) && OnRoute(cfg, s, file, key, p) && MinKey <= key < KeyBound
    requires ValidPath(s, p) && At(s, p).Leaf?
    requires var a := At(s, p).addr; a in file && TableOk(cfg, file[a]) && TableOk(cfg, page') && LeafStore(cfg, file[a], page', key, value)
    ensures TreeOk(cfg, s, file[At(s, p).addr := page'], d)
    ensures forall k :: Get(cfg, s, file[At(s, p).addr := page'], k) == if k == key then Some(value) else Get(cfg, s, file, k)
  {
    var a := At(s, p).addr;
    var file' := file[a := page'];
    var b := BoundsAt(cfg, s, file, p, MinKey, KeyBound);
    AtWf(cfg, s, file, MinKey, KeyBound, d, p);
    RouteBounds(cfg, s, file, MinKey, KeyBound, d, key, p);
    AtAddrs(s, p);
    AddrsInFile(cfg, s, file, MinKey, KeyBound, d);
    SameOffPath(s, p, file, file');
    assert Wf(cfg, Leaf(a), file', b.0, b.1, 1) by {
      LeafStoreOk(cfg, file[a], page', key, value, b.0, b.1);
    }
    ReplaceWf(cfg, s, file, MinKey, KeyBound, d, p, Leaf(a), file');
    ReplaceBySelf(s, p);
    forall k
      ensures Get(cfg, s, file', k) == if k == key then Some(value) else Get(cfg, s, file, k)
    {
      if MinKey <= k < KeyBound {
        ReplaceGet(cfg, s, file, MinKey, KeyBound, d, p, Leaf(a), file', k);
        if b.0 <= k < b.1 {
          AtGet(cfg, s, file, MinKey, KeyBound, d, p, k);
        }
      } else {
        GetOutside(cfg, s, file, MinKey, KeyBound, d, k);
        GetOutside(cfg, s, file', MinKey, KeyBound, d, k);
      }
    }
  }

  // ---------------------------------------------------------------------------
  // Splits

  /** The pages of the halves of a split: those of the old node and the new page, each used once. */
  ghost predicate SplitAddrs(x: Shape, l: Shape, r: Shape, a': int) {
    && Distinct(l) && Distinct(r) && Addrs(l) !! Addrs(r)
    && Addrs(l) + Addrs(r) == Addrs(x) + {a'}
  }

  /** A page of a node is the node's own or one of a child's. */
  lemma NodeAddr(a: int, kids: seq<Shape>, y: int) returns (i: int)
    requires y in Addrs(Node(a, kids)) && y != a
    ensures 0 <= i < |kids| && y in Addrs(kids[i])
  {
    i :| 0 <= i < |kids| && y in Addrs(kids[i]);
  }

  /** The halves of an interior split are distinct. */
  lemma InteriorHalvesDistinct(x: Shape, mi: int, a': int)
    requires x.Node? && Distinct(x) && a' !in Addrs(x) && 1 <= mi < |x.kids|
    ensures Distinct(Node(x.addr, x.kids[..mi])) && Distinct(Node(a', x.kids[mi..]))
  {
    var kids := x.kids;
    forall i | 0 <= i < |kids|
      ensures Addrs(kids[i]) <= Addrs(x)
    {
      KidAddrsWithin(x, i);
    }
    assert forall i :: 0 <= i < mi ==> kids[..mi][i] == kids[i];
    assert forall i :: 0 <= i < |kids| - mi ==> kids[mi..][i] == kids[mi + i];
  }

  /** The pages of the left half of an interior split: the old page and those of the first `mi` children. */
  lemma LeftHalfAddrs(x: Shape, mi: int, y: int)
    requires x.Node? && 1 <= mi < |x.kids|
    ensures y in Addrs(Node(x.addr, x.kids[..mi])) <==> y == x.addr || exists i :: 0 <= i < mi && y in Addrs(x.kids[i])
  {
    var l := Node(x.addr, x.kids[..mi]);
    if y in Addrs(l) && y != x.addr {
      var i := NodeAddr(x.addr, x.kids[..mi], y);
      assert x.kids[..mi][i] == x.kids[i];
    }
    if exists i :: 0 <= i < mi && y in Addrs(x.kids[i]) {
      var i :| 0 <= i < mi && y in Addrs(x.kids[i]);
      assert l.kids[i] == x.kids[i];
    }
  }

  /** The pages of the right half of an interior split: the new page and those of the children from `mi` on. */
  lemma RightHalfAddrs(x: Shape, mi: int, a': int, y: int)
    requires x.Node? && 1 <= mi < |x.kids|
    ensures y in Addrs(Node(a', x.kids[mi..])) <==> y == a' || exists i :: mi <= i < |x.kids| && y in Addrs(x.kids[i])
  {
    var r := Node(a', x.kids[mi..]);
    if y in Addrs(r) && y != a' {
      var i := NodeAddr(a', x.kids[mi..], y);
      assert x.kids[mi..][i] == x.kids[mi + i];
    }
    if exists i :: mi <= i < |x.kids| && y in Addrs(x.kids[i]) {
      var i :| mi <= i < |x.kids| && y in Addrs(x.kids[i]);
      assert r.kids[i - mi] == x.kids[i];
    }
  }

  /** The halves of an interior split use the old node's pages plus the new one, each once. */
  lemma InteriorSplitAddrs(x: Shape, mi: int, a': int)
    requires x.Node? && Distinct(x) && a' !in Addrs(x) && 1 <= mi < |x.kids|
    ensures SplitAddrs(x, Node(x.addr, x.kids[..mi]), Node(a', x.kids[mi..]), a')
  {
    var l := Node(x.addr, x.kids[..mi]);
    var r := Node(a', x.kids[mi..]);
    InteriorHalvesDistinct(x, mi, a');
    forall y
      ensures y in Addrs(l) + Addrs(r) <==> y in Addrs(x) + {a'}
      ensures !(y in Addrs(l) && y in Addrs(r))
    {
      LeftHalfAddrs(x, mi, y);
      RightHalfAddrs(x, mi, a', y);
      if y in Addrs(x) && y != x.addr {
        var i := NodeAddr(x.addr, x.kids, y);
      }
      if y in Addrs(l) {
        KidAddrsWithin(x, 0);
        if y != x.addr {
          var i :| 0 <= i < mi && y in Addrs(x.kids[i]);
          KidAddrsWithin(x, i);
          assert forall j :: mi <= j < |x.kids| ==> y !in Addrs(x.kids[j]);
        }
      }
      if exists i :: 0 <= i < |x.kids| && y in Addrs(x.kids[i]) {
        var i :| 0 <= i < |x.kids| && y in Addrs(x.kids[i]);
        assert i < mi || mi <= i;
      }
    }
  }

  /** The children of a node with one child replaced by the two halves of its split. */
  lemma WithHalvesAddrs(p: Shape, c: int, l: Shape, r: Shape, a': int)
    requires p.Node? && Distinct(p) && 0 <= c < |p.kids| && a' !in Addrs(p)
    requires SplitAddrs(p.kids[c], l, r, a')
    ensures Distinct(Node(p.addr, WithHalves(p.kids, c, l, r)))
    ensures Addrs(Node(p.addr, WithHalves(p.kids, c, l, r))) == Addrs(p) + {a'}
  {
    var kids := p.kids;
    var kids' := WithHalves(kids, c, l, r);
    var t := Node(p.addr, kids');
    forall i | 0 <= i < |kids|
      ensures Addrs(kids[i]) <= Addrs(p)
    {
      KidAddrsWithin(p, i);
    }
    assert Addrs(l) + Addrs(r) == Addrs(kids[c]) + {a'};
    forall j | 0 <= j < |kids'|
      ensures Distinct(kids'[j]) && p.addr !in Addrs(kids'[j])
      ensures Addrs(kids'[j]) <= Addrs(p) + {a'}
    {
      if j == c || j == c + 1 {
        assert Addrs(kids'[j]) <= Addrs(kids[c]) + {a'};
      }
    }
    forall j1, j2 | 0 <= j1 < j2 < |kids'|
      ensures Addrs(kids'[j1]) !! Addrs(kids'[j2])
    {
      if j1 == c && j2 == c + 1 {
      } else if j1 == c || j1 == c + 1 {
        assert Addrs(kids'[j1]) <= Addrs(kids[c]) + {a'};
        assert kids'[j2] == kids[j2 - 1];
      } else if j2 == c || j2 == c + 1 {
        assert Addrs(kids'[j2]) <= Addrs(kids[c]) + {a'};
      } else {
        var i1 := if j1 < c then j1 else j1 - 1;
        var i2 := if j2 < c then j2 else j2 - 1;
        assert kids'[j1] == kids[i1] && kids'[j2] == kids[i2];
      }
    }
    assert Distinct(t);
    forall y
      ensures y in Addrs(t) <==> y in Addrs(p) || y == a'
    {
      if y in Addrs(t) && y != p.addr {
        var j := NodeAddr(p.addr, kids', y);
      }
      if y in Addrs(p) && y != p.addr {
        var i := NodeAddr(p.addr, kids, y);
        if i < c {
          assert kids'[i] == kids[i];
        } else if i == c {
          assert y in Addrs(kids'[c]) || y in Addrs(kids'[c + 1]);
        } else {
          assert kids'[i + 1] == kids[i];
        }
      }
      if y == a' {
        assert y in Addrs(kids'[c]) || y in Addrs(kids'[c + 1]);
      }
    }
  }

  /** The preconditions `ChildSplit` places on the parent's page and on the halves. */
  ghost predicate SplitUnder(cfg: Cfg, s: Shape, file: File, d: nat, q: seq<nat>, c: nat, l: Shape, r: Shape, m: int, file': File) {
    && TreeOk(cfg, s, file, d) && ValidPath(s, q) && At(s, q).Node? && c < |At(s, q).kids| && |q| + 1 < d
    && (var p := At(s, q);
        && p.addr in file && TableOk(cfg, file[p.addr]) && p.addr in file' && TableOk(cfg, file'[p.addr])
        && c <= Count(file[p.addr]) && Count(file[p.addr]) + 2 <= cfg.maxInteriorNodes
        && ParentPage(cfg, file[p.addr], file'[p.addr], c, m, r.addr))
    && (var x := At(s, q).kids[c];
        && r.addr !in file && l.addr == x.addr && SplitAddrs(x, l, r, r.addr)
        && (forall y :: y in file && y != x.addr && y != At(s, q).addr ==> y in file' && file'[y] == file[y]))
    && ValidPath(s, q + [c])
    && (var b := BoundsAt(cfg, s, file, q + [c], MinKey, KeyBound);
        Halves(cfg, At(s, q).kids[c], file, b.0, b.1, d - |q| - 1, l, r, m, file'))
  }

  /** The range of child `c` of the node at the end of `q`, from the node's page. */
  lemma ParentBounds(cfg: Cfg, s: Shape, file: File, d: nat, q: seq<nat>, c: nat)
    requires TreeOk(cfg, s, file, d) && ValidPath(s, q) && At(s, q).Node? && c < |At(s, q).kids|
    ensures var p := At(s, q); var b := BoundsAt(cfg, s, file, q, MinKey, KeyBound);
      && p.addr in file && TableOk(cfg, file[p.addr]) && |p.kids| == Count(file[p.addr]) + 1
      && |p.kids| <= cfg.maxInteriorNodes && ValidPath(s, q + [c])
      && BoundsAt(cfg, s, file, q + [c], MinKey, KeyBound) ==
           (KidLo(file[p.addr], c, b.0), KidHi(file[p.addr], |p.kids| - 1, c, b.1))
  {
    var p := At(s, q);
    var b := BoundsAt(cfg, s, file, q, MinKey, KeyBound);
    AtWf(cfg, s, file, MinKey, KeyBound, d, q);
    NodeParts(cfg, p, file, b.0, b.1, d - |q|);
    BoundsSnoc(cfg, s, file, MinKey, KeyBound, d, q, c);
  }

  /** The parent of a split meets the preconditions of the parent insertion. */
  lemma SplitParentInsert(cfg: Cfg, s: Shape, file: File, d: nat, q: seq<nat>, c: nat, l: Shape, r: Shape, m: int, file': File)
    requires SplitUnder(cfg, s, file, d, q, c, l, r, m, file')
    ensures var b := BoundsAt(cfg, s, file, q, MinKey, KeyBound);
            ParentInsert(cfg, At(s, q), file, b.0, b.1, d - |q|, c, l, r, m, file')
    ensures Distinct(At(s, q)) && r.addr !in Addrs(At(s, q))
  {
    var p := At(s, q);
    var b := BoundsAt(cfg, s, file, q, MinKey, KeyBound);
    assert Wf(cfg, p, file, b.0, b.1, d - |q|) by {
      AtWf(cfg, s, file, MinKey, KeyBound, d, q);
    }
    assert Distinct(p) && forall y :: y in Addrs(p) ==> y in file by {
      AtAddrs(s, q);
      AddrsInFile(cfg, s, file, MinKey, KeyBound, d);
    }
    ParentBounds(cfg, s, file, d, q, c);
    OtherKidsSame(p, c, file, file');
  }

  /** The children beside a split child keep their pages when only the child's and the parent's pages change. */
  lemma OtherKidsSame(p: Shape, c: int, file: File, file': File)
    requires p.Node? && Distinct(p) && 0 <= c < |p.kids| && forall y :: y in Addrs(p) ==> y in file
    requires forall y :: y in file && y != p.kids[c].addr && y != p.addr ==> y in file' && file'[y] == file[y]
    ensures forall j :: 0 <= j < |p.kids| && j != c ==> Same(p.kids[j], file, file')
  {
    KidAddrsWithin(p, c);
    forall j | 0 <= j < |p.kids| && j != c
      ensures Same(p.kids[j], file, file')
    {
      KidAddrsWithin(p, j);
      SameFromAgree(p.kids[j], file, file');
    }
  }

  /** The parent of a split with the halves in place of the child: well formed in its range, holding what it held. */
  lemma SplitParent(cfg: Cfg, s: Shape, file: File, d: nat, q: seq<nat>, c: nat, l: Shape, r: Shape, m: int, file': File)
    requires SplitUnder(cfg, s, file, d, q, c, l, r, m, file')
    ensures var p := At(s, q); var b := BoundsAt(cfg, s, file, q, MinKey, KeyBound);
            var t := Node(p.addr, WithHalves(p.kids, c, l, r));
      && Wf(cfg, t, file', b.0, b.1, d - |q|)
      && (forall k :: b.0 <= k < b.1 ==> Get(cfg, t, file', k) == Get(cfg, p, file, k))
      && Distinct(t) && Addrs(t) == Addrs(p) + {r.addr}
  {
    var p := At(s, q);
    var b := BoundsAt(cfg, s, file, q, MinKey, KeyBound);
    SplitParentInsert(cfg, s, file, d, q, c, l, r, m, file');
    ParentInsertWf(cfg, p, file, b.0, b.1, d - |q|, c, l, r, m, file');
    forall k | b.0 <= k < b.1
      ensures Get(cfg, Node(p.addr, WithHalves(p.kids, c, l, r)), file', k) == Get(cfg, p, file, k)
    {
      ParentInsertGet(cfg, p, file, b.0, b.1, d - |q|, c, l, r, m, file', k);
    }
    WithHalvesAddrs(p, c, l, r, r.addr);
  }

  /**
    Replacing the sub-shape at the end of `q` by a well-formed `t` on the
    same page that stores the same keys, with pages of its own and every
    page off the path kept, keeps the tree invariant and the stored map.
  */
  lemma ReplaceStep(cfg: Cfg, s: Shape, file: File, d: nat, q: seq<nat>, t: Shape, file': File, key: int)
    requires TreeOk(cfg, s, file, d) && ValidPath(s, q) && |q| < d && t.addr == At(s, q).addr
    requires var b := BoundsAt(cfg, s, file, q, MinKey, KeyBound);
      && Wf(cfg, t, file', b.0, b.1, d - |q|)
      && (forall k :: b.0 <= k < b.1 ==> Get(cfg, t, file', k) == Get(cfg, At(s, q), file, k))
    requires Distinct(t) && Addrs(t) !! (Addrs(s) - Addrs(At(s, q)))
    requires Agree(file, file', Addrs(s) - Addrs(At(s, q)))
    ensures var s' := ReplaceAt(s, q, t);
      && TreeOk(cfg, s', file', d)
      && (forall k :: Get(cfg, s', file', k) == Get(cfg, s, file, k))
      && ValidPath(s', q) && At(s', q) == t
      && (OnRoute(cfg, s, file, key, q) ==> OnRoute(cfg, s', file', key, q))
  {
    var b := BoundsAt(cfg, s, file, q, MinKey, KeyBound);
    ReplaceAddrs(s, q, t);
    SameOffPath(s, q, file, file');
    ReplaceWf(cfg, s, file, MinKey, KeyBound, d, q, t, file');
    ReplaceAtAt(s, q, t);
    var s' := ReplaceAt(s, q, t);
    forall k
      ensures Get(cfg, s', file', k) == Get(cfg, s, file, k)
    {
      if MinKey <= k < KeyBound {
        ReplaceGet(cfg, s, file, MinKey, KeyBound, d, q, t, file', k);
        if b.0 <= k < b.1 {
          AtGet(cfg, s, file, MinKey, KeyBound, d, q, k);
        }
      } else {
        GetOutside(cfg, s, file, MinKey, KeyBound, d, k);
        GetOutside(cfg, s', file', MinKey, KeyBound, d, k);
      }
    }
    if OnRoute(cfg, s, file, key, q) {
      RouteAfterReplace(cfg, s, file, file', key, q, t);
    }
  }

  /** A split under the node at the end of `q` changes no page off the path and takes a page the tree did not use. */
  lemma SplitFrame(cfg: Cfg, s: Shape, file: File, d: nat, q: seq<nat>, c: nat, a': int, file': File)
    requires TreeOk(cfg, s, file, d) && ValidPath(s, q) && At(s, q).Node? && c < |At(s, q).kids| && a' !in file
    requires forall y :: y in file && y != At(s, q).kids[c].addr && y != At(s, q).addr ==> y in file' && file'[y] == file[y]
    ensures Agree(file, file', Addrs(s) - Addrs(At(s, q)))
    ensures a' !in Addrs(s)
  {
    AtAddrs(s, q);
    AddrsInFile(cfg, s, file, MinKey, KeyBound, d);
    KidAddrsWithin(At(s, q), c);
  }

  /**
    Child `c` of the node at the end of `q` split into `l` (on the old page)
    and `r` (on a new page) at the median `m`, and the median inserted into
    the node's page, which had room for it: the tree with the halves in
    place of the child keeps the invariant and stores what it stored.
  */
  lemma ChildSplit(cfg: Cfg, s: Shape, file: File, d: nat, q: seq<nat>, c: nat, l: Shape, r: Shape, m: int, file': File, key: int)
    requires SplitUnder(cfg, s, file, d, q, c, l, r, m, file')
    ensures var s' := ReplaceAt(s, q, Node(At(s, q).addr, WithHalves(At(s, q).kids, c, l, r)));
      && TreeOk(cfg, s', file', d)
      && (forall k :: Get(cfg, s', file', k) == Get(cfg, s, file, k))
      && ValidPath(s', q) && At(s', q) == Node(At(s, q).addr, WithHalves(At(s, q).kids, c, l, r))
      && (OnRoute(cfg, s, file, key, q) ==> OnRoute(cfg, s', file', key, q))
  {
    var p := At(s, q);
    var t := Node(p.addr, WithHalves(p.kids, c, l, r));
    SplitParent(cfg, s, file, d, q, c, l, r, m, file');
    SplitFrame(cfg, s, file, d, q, c, r.addr, file');
    ReplaceStep(cfg, s, file, d, q, t, file', key);
  }

  /**
    The root split into `l` (on the old page) and `r` (on a new page) at
    `m`, under a new root page at `ra`: the tree grows by one level, keeps
    the invariant and stores what it stored.
  */
  lemma RootSplit(cfg: Cfg, s: Shape, file: File, d: nat, l: Shape, r: Shape, m: int, ra: int, file': File)
    requires TreeOk(cfg, s, file, d) && r.addr !in file && ra !in file && ra != r.addr && ra != 0
    requires l.addr == s.addr && SplitAddrs(s, l, r, r.addr)
    requires Halves(cfg, s, file, MinKey, KeyBound, d, l, r, m, file')
    requires ra in file' && TableOk(cfg, file'[ra]) && RootPage(cfg, file'[ra], m, l.addr, r.addr)
    ensures TreeOk(cfg, Node(ra, [l, r]), file', d + 1)
    ensures forall k :: Get(cfg, Node(ra, [l, r]), file', k) == Get(cfg, s, file, k)
  {
    NewRoot(cfg, s, file, MinKey, KeyBound, d, l, r, m, ra, file');
    AddrsInFile(cfg, s, file, MinKey, KeyBound, d);
    assert ra !in Addrs(l) + Addrs(r);
    var t := Node(ra, [l, r]);
    assert Distinct(t) by {
      assert forall i :: 0 <= i < 2 ==> t.kids[i] == if i == 0 then l else r;
    }
    forall k | !(MinKey <= k < KeyBound)
      ensures Get(cfg, t, file', k) == Get(cfg, s, file, k)
    {
      GetOutside(cfg, s, file, MinKey, KeyBound, d, k);
      GetOutside(cfg, t, file', MinKey, KeyBound, d + 1, k);
    }
  }

  /** The last step of a route is the separators' choice in the page at its end. */
  lemma {:induction false} RouteLast(cfg: Cfg, s: Shape, file: File, k: int, q: seq<nat>, c: nat)
    requires OnRoute(cfg, s, file, k, q + [c])
    ensures ValidPath(s, q)
    ensures var p := At(s, q);
      && p.Node? && p.addr in file && TableOk(cfg, file[p.addr])
      && 0 <= Count(file[p.addr]) && 2 * Count(file[p.addr]) + 1 < |file[p.addr]|
      && c == ChildIndex(file[p.addr], Count(file[p.addr]), k) && c < |p.kids|
    decreases |q|
  {
    assert (q + [c])[0] == (if |q| > 0 then q[0] else c);
    if |q| > 0 {
      assert (q + [c])[1..] == q[1..] + [c];
      RouteLast(cfg, s.kids[q[0]], file, k, q[1..], c);
    }
  }

  /** After a split on a key's route, the parent routes the key to the half on its side of the median. */
  lemma SplitRoute(cfg: Cfg, s: Shape, file: File, d: nat, q: seq<nat>, c: nat, l: Shape, r: Shape, m: int, file': File, key: int)
    requires SplitUnder(cfg, s, file, d, q, c, l, r, m, file') && OnRoute(cfg, s, file, key, q + [c])
    ensures var pa := At(s, q).addr;
      && Count(file'[pa]) == Count(file[pa]) + 1 && 2 * Count(file'[pa]) + 1 < |file'[pa]|
      && ChildIndex(file'[pa], Count(file'[pa]), key) == if key < m then c else c + 1
  {
    var p := At(s, q);
    var page := file[p.addr];
    var n := Count(page);
    var b := BoundsAt(cfg, s, file, q, MinKey, KeyBound);
    RouteLast(cfg, s, file, key, q, c);
    ParentBounds(cfg, s, file, d, q, c);
    assert SortedKeys(page, n) by {
      AtWf(cfg, s, file, MinKey, KeyBound, d, q);
      NodeParts(cfg, p, file, b.0, b.1, d - |q|);
    }
    MedianInsertionPoint(page, n, c, b.0, b.1, m);
    InsertKeepsOrder(page, file'[p.addr], n, c, m);
    InsertedRoute(page, file'[p.addr], n, c, m, -r.addr, key);
  }

  /** The first half of a strictly sorted sequence holds its elements below the median, the second half the rest. */
  lemma SortedHalves(keys: seq<int>, avg: int, k: int)
    requires StrictlySorted(keys) && 0 <= avg < |keys|
    ensures k in keys[..avg] <==> k in keys && k < keys[avg]
    ensures k in keys[avg..] <==> k in keys && keys[avg] <= k
  {
    if k in keys {
      var i :| 0 <= i < |keys| && keys[i] == k;
      if i < avg {
        assert k == keys[..avg][i];
      } else {
        assert k == keys[avg..][i - avg];
      }
    }
  }

  /**
    The pages of a hashed leaf split, as `splitNode` leaves them: `keys`
    are the leaf's keys in increasing order; `left` holds the mappings of
    the first half of them, `right` those of the second half, each a
    consistent hashed leaf, and the two counts add up to the leaf's.
  */
  ghost predicate LeafSplitPages(cfg: Cfg, page: seq<int>, left: seq<int>, right: seq<int>, keys: seq<int>)
    requires TableOk(cfg, page) && TableOk(cfg, left) && TableOk(cfg, right)
  {
    var avg := |keys| / 2;
    && StrictlySorted(keys) && |keys| == LiveCount(cfg, page)
    && (forall k :: k in keys <==> HashGet(cfg, page, k).Some?)
    && IsIndexLeaf(left) && IsHashedLeaf(left) && HashWf(cfg, left)
    && Count(left) == LiveCount(cfg, left) <= cfg.maxLeafNodesInHash
    && IsIndexLeaf(right) && IsHashedLeaf(right) && HashWf(cfg, right)
    && Count(right) == LiveCount(cfg, right) <= cfg.maxLeafNodesInHash
    && Count(left) + Count(right) == |keys|
    && (forall k :: HashGet(cfg, left, k) == if k in keys[..avg] then HashGet(cfg, page, k) else None)
    && (forall k :: HashGet(cfg, right, k) == if k in keys[avg..] then HashGet(cfg, page, k) else None)
  }

  /** The keys stored in a leaf lie in its range. */
  lemma StoredKeyInRange(cfg: Cfg, page: seq<int>, lo: int, hi: int, k: int)
    requires TableOk(cfg, page) && LeafOk(cfg, page, lo, hi) && LeafGet(cfg, page, k).Some?
    ensures lo <= k < hi
  {
    var sl :| 0 <= sl < cfg.hashPageCapacity && KeyAt(page, sl) == k;
  }

  /** The pages of a full leaf's split are the halves of the leaf below and from its median. */
  lemma LeafSplitHalf(cfg: Cfg, page: seq<int>, left: seq<int>, right: seq<int>, keys: seq<int>, lo: int, hi: int)
    requires TableOk(cfg, page) && TableOk(cfg, left) && TableOk(cfg, right)
    requires LeafOk(cfg, page, lo, hi) && IsFull(cfg, page) && LeafSplitPages(cfg, page, left, right, keys)
    ensures 0 < |keys| / 2 < |keys| == cfg.maxLeafNodesInHash && IsHashedLeaf(page)
    ensures lo < keys[|keys| / 2] < hi
    ensures LeafHalf(cfg, page, left, lo, keys[|keys| / 2]) && LeafHalf(cfg, page, right, keys[|keys| / 2], hi)
  {
    assert IsHashedLeaf(page) && |keys| == cfg.maxLeafNodesInHash;
    var avg := |keys| / 2;
    var m := keys[avg];
    assert keys[0] in keys && m in keys && keys[0] < m;
    StoredKeyInRange(cfg, page, lo, hi, keys[0]);
    StoredKeyInRange(cfg, page, lo, hi, m);
    forall k
      ensures HashGet(cfg, left, k) == if lo <= k < m then HashGet(cfg, page, k) else None
      ensures HashGet(cfg, right, k) == if m <= k < hi then HashGet(cfg, page, k) else None
    {
      SortedHalves(keys, avg, k);
      if HashGet(cfg, page, k).Some? {
        StoredKeyInRange(cfg, page, lo, hi, k);
      }
    }
  }

  /**
    A full hashed leaf at the end of `pp` split into the old page and the
    new page at `a'` as `LeafSplitPages` describes makes two halves of the
    leaf, split at the median `keys[|keys| / 2]`.
  */
  lemma LeafSplitHalves(cfg: Cfg, s: Shape, file: File, d: nat, pp: seq<nat>, keys: seq<int>, a': int, file': File)
    requires TreeOk(cfg, s, file, d) && ValidPath(s, pp) && At(s, pp).Leaf? && |pp| < d
    requires a' !in file && At(s, pp).addr in file && At(s, pp).addr in file' && a' in file'
    requires var xa := At(s, pp).addr;
      && TableOk(cfg, file[xa]) && TableOk(cfg, file'[xa]) && TableOk(cfg, file'[a'])
      && IsFull(cfg, file[xa]) && LeafSplitPages(cfg, file[xa], file'[xa], file'[a'], keys)
    ensures var xa := At(s, pp).addr; var b := BoundsAt(cfg, s, file, pp, MinKey, KeyBound);
      && 0 < |keys| / 2 < |keys| == cfg.maxLeafNodesInHash
      && Halves(cfg, Leaf(xa), file, b.0, b.1, d - |pp|, Leaf(xa), Leaf(a'), keys[|keys| / 2], file')
      && SplitAddrs(Leaf(xa), Leaf(xa), Leaf(a'), a')
  {
    var xa := At(s, pp).addr;
    var b := BoundsAt(cfg, s, file, pp, MinKey, KeyBound);
    AtWf(cfg, s, file, MinKey, KeyBound, d, pp);
    LeafSplitHalf(cfg, file[xa], file'[xa], file'[a'], keys, b.0, b.1);
    LeafHalves(cfg, xa, file, b.0, b.1, a', file', keys[|keys| / 2]);
  }

  /**
    The children of the node at the end of `pp` keep their pages when only
    that node's page, its parent's (or a page the tree does not use) and a
    new page change.
  */
  lemma KidsUntouched(cfg: Cfg, s: Shape, file: File, d: nat, pp: seq<nat>, a': int, o: int, file': File)
    requires TreeOk(cfg, s, file, d) && ValidPath(s, pp) && At(s, pp).Node? && a' !in file
    requires |pp| > 0 ==> ValidPath(s, pp[..|pp| - 1]) && o == At(s, pp[..|pp| - 1]).addr
    requires |pp| == 0 ==> o !in file
    requires forall y :: y in file && y != At(s, pp).addr && y != o ==> y in file' && file'[y] == file[y]
    ensures Distinct(At(s, pp)) && a' !in Addrs(At(s, pp))
    ensures forall i :: 0 <= i < |At(s, pp).kids| ==> Same(At(s, pp).kids[i], file, file')
  {
    var x := At(s, pp);
    AtAddrs(s, pp);
    AddrsInFile(cfg, s, file, MinKey, KeyBound, d);
    assert o !in Addrs(x) by {
      if |pp| > 0 {
        PathParent(s, pp);
        AtAddrs(s, pp[..|pp| - 1]);
      }
    }
    forall i | 0 <= i < |x.kids|
      ensures Same(x.kids[i], file, file')
    {
      KidAddrsWithin(x, i);
      SameFromAgree(x.kids[i], file, file');
    }
  }

  /**
    A full interior node at the end of `pp` split at slot `mi`: the old page
    keeping the first `mi` children and the new page at `a'` the rest, with
    the children's pages untouched, makes two halves of the node.
  */
  lemma InteriorSplitHalves(cfg: Cfg, s: Shape, file: File, d: nat, pp: seq<nat>, a': int, o: int, file': File, mi: int)
    requires TreeOk(cfg, s, file, d) && ValidPath(s, pp) && At(s, pp).Node? && a' !in file && a' != 0 && |pp| < d
    requires var x := At(s, pp);
      && x.addr in file && TableOk(cfg, file[x.addr])
      && 1 <= mi <= Count(file[x.addr]) && Count(file[x.addr]) + 1 <= cfg.maxInteriorNodes && |x.kids| == Count(file[x.addr]) + 1
      && x.addr in file' && a' in file' && TableOk(cfg, file'[x.addr]) && TableOk(cfg, file'[a'])
      && InteriorSplitPages(cfg, file[x.addr], file'[x.addr], file'[a'], mi)
    requires |pp| > 0 ==> ValidPath(s, pp[..|pp| - 1]) && o == At(s, pp[..|pp| - 1]).addr
    requires |pp| == 0 ==> o !in file
    requires forall y :: y in file && y != At(s, pp).addr && y != o ==> y in file' && file'[y] == file[y]
    ensures var x := At(s, pp); var b := BoundsAt(cfg, s, file, pp, MinKey, KeyBound);
      && Halves(cfg, x, file, b.0, b.1, d - |pp|, Node(x.addr, x.kids[..mi]), Node(a', x.kids[mi..]), KeyAt(file[x.addr], mi - 1), file')
      && SplitAddrs(x, Node(x.addr, x.kids[..mi]), Node(a', x.kids[mi..]), a')
  {
    var x := At(s, pp);
    var b := BoundsAt(cfg, s, file, pp, MinKey, KeyBound);
    AtWf(cfg, s, file, MinKey, KeyBound, d, pp);
    KidsUntouched(cfg, s, file, d, pp, a', o, file');
    assert InteriorSplit(cfg, x, file, b.0, b.1, d - |pp|, a', file', mi);
    InteriorHalves(cfg, x, file, b.0, b.1, d - |pp|, a', file', mi);
    InteriorSplitAddrs(x, mi, a');
  }
}
