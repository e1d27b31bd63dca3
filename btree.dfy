/**
  `IntToIntBtree`: a B-tree from 32-bit keys to 32-bit values over a paged
  storage.  The class keeps the storage (`file`, page address to page
  words), the persisted variables, the one reusable node view that `get`
  and `put` descend with, and the last key `get` missed, which lets a
  following `put` of that key insert without a second descent.

  Ghost state ties the pages to the tree they form: `shape` and `depth`
  satisfy `TreeOk`, and the map the class stores is `Lookup`: key 0 in two
  fields of its own, every other key in the leaf its route ends at.
*/
module Btree {
  import opened Wrappers
  import opened Words
  import opened Primes
  import opened Probing
  import opened Pages
  import opened Sorting
  import opened HashLeaf
  import opened SortedNode
  import opened Shapes
  import Persist
  import opened Split
  import opened Tree
  import opened Mappings
  import opened Sizes

  // ---------------------------------------------------------------------------
  // Page facts the node operations rely on

  /** A leaf page `insert` can take entries into: a consistent hashed table, or an empty page not hashed yet. */
  ghost predicate LeafReady(cfg: Cfg, page: seq<int>)
    requires TableOk(cfg, page)
  {
    if IsHashedLeaf(page) then HashWf(cfg, page) && Count(page) == LiveCount(cfg, page)
    else Count(page) == 0 && forall s :: 0 <= s < cfg.hashPageCapacity ==> KeyAt(page, s) == HASH_FREE
  }

  /**
    What `insert(key, value)` needs of its page: a leaf with room for one
    more entry that does not hold `key` (which is not the free marker), or
    an interior page with room for one more key, its keys sorted and `key`
    not among them.
  */
  ghost predicate Insertable(cfg: Cfg, page: seq<int>, key: int)
    requires TableOk(cfg, page)
  {
    if IsIndexLeaf(page) then
      && key != HASH_FREE && LeafReady(cfg, page) && LeafGet(cfg, page, key) == None
      && Count(page) < cfg.maxLeafNodesInHash
    else
      && 0 <= Count(page) && Count(page) + 2 <= cfg.maxInteriorNodes
      && SortedKeys(page, Count(page))
      && forall i :: 0 <= i < Count(page) ==> KeyAt(page, i) != key
  }

  /** Pages that agree from word `k` on agree on every word from `k` on. */
  lemma SameFrom(p: seq<int>, q: seq<int>, k: int)
    requires |p| == |q| && 0 <= k <= |p| && p[k..] == q[k..]
    ensures forall w :: k <= w < |p| ==> p[w] == q[w]
  {
    forall w | k <= w < |p|
      ensures p[w] == q[w]
    {
      assert p[w] == p[k..][w - k];
    }
  }

  /** A write to the header or the next-page word leaves every slot in place. */
  lemma MetaWriteKeepsSlots(p: seq<int>, q: seq<int>)
    requires |p| == |q| && |p| >= 2 && q[2..] == p[2..]
    ensures forall i :: 0 <= i && 2 * i + 3 < |p| ==> KeyAt(q, i) == KeyAt(p, i) && AddressAt(q, i) == AddressAt(p, i)
  {
    SameFrom(p, q, 2);
  }

  /** A write to the header word leaves the table and what it stores in place. */
  lemma HeaderWriteKeepsTable(cfg: Cfg, p: seq<int>, q: seq<int>)
    requires TableOk(cfg, p) && TableOk(cfg, q) && q[1..] == p[1..]
    ensures SameTable(cfg, p, q)
    ensures HashWf(cfg, p) <==> HashWf(cfg, q)
    ensures UniqueKeys(cfg, p) ==> forall k :: HashGet(cfg, p, k) == HashGet(cfg, q, k)
    ensures LiveCount(cfg, p) == LiveCount(cfg, q)
  {
    assert q[2..] == p[2..] by {
      assert q[2..] == q[1..][1..];
      assert p[2..] == p[1..][1..];
    }
    MetaWriteKeepsTable(cfg, p, q);
    SameTableSameContents(cfg, p, q);
  }

  /**
    A page fresh from `nextPage` (all zero), with its leaf flag set to
    `leaf` and its next-page word to `next`: an empty page, not hashed, all
    keys free.
  */
  lemma FreshPage(cfg: Cfg, leaf: bool, next: int)
    ensures var page := SetNextPage(SetFlag(ZeroPage(cfg), INDEX_LEAF_MASK, leaf), next);
      && TableOk(cfg, page) && Count(page) == 0 && IsIndexLeaf(page) == leaf && !IsHashedLeaf(page)
      && forall i :: 0 <= i < Slots(cfg) ==> KeyAt(page, i) == HASH_FREE
  {
    ZeroHeader();
    var z := ZeroPage(cfg);
    var f := SetFlag(z, INDEX_LEAF_MASK, leaf);
    var page := SetNextPage(f, next);
    SameFrom(f, z, 1);
    SameFrom(page, f, 2);
    assert forall i :: 0 <= i < Slots(cfg) ==> KeyAt(page, i) == z[2 * i + 3];
  }

  /** The root `doAllocateRoot` makes: a zero page with its leaf flag set is an empty leaf of the whole key range. */
  lemma EmptyRootLeaf(cfg: Cfg)
    ensures var page := SetFlag(ZeroPage(cfg), INDEX_LEAF_MASK, true);
      && TableOk(cfg, page) && IsIndexLeaf(page) && !IsHashedLeaf(page) && Count(page) == 0
      && LeafOk(cfg, page, MinKey, KeyBound)
      && forall k :: LeafGet(cfg, page, k) == None
  {
    ZeroHeader();
    var z := ZeroPage(cfg);
    var page := SetFlag(z, INDEX_LEAF_MASK, true);
    SameFrom(page, z, 1);
    assert forall s :: 0 <= s < cfg.hashPageCapacity ==> KeyAt(page, s) == z[2 * s + 3];
  }

  /**
    The first entry of a leaf: `insert` sets the hashed flag of an empty
    leaf, which makes it an empty consistent table.
  */
  lemma HashEmptyLeaf(cfg: Cfg, page: seq<int>)
    requires TableOk(cfg, page) && LeafReady(cfg, page) && Count(page) == 0
    ensures var page' := SetFlag(page, HASHED_LEAF_MASK, true);
      && TableOk(cfg, page') && IsIndexLeaf(page') == IsIndexLeaf(page) && IsHashedLeaf(page') && Count(page') == 0
      && HashWf(cfg, page') && LiveCount(cfg, page') == 0
      && forall k :: HashGet(cfg, page', k) == None && LeafGet(cfg, page, k) == None
  {
    var cap := cfg.hashPageCapacity;
    var page' := SetFlag(page, HASHED_LEAF_MASK, true);
    forall s | 0 <= s < cap
      ensures KeyAt(page, s) == HASH_FREE
    {
      if IsHashedLeaf(page) {
        LiveKeysMembership(cfg, page, cap, KeyAt(page, s));
        assert KeyAt(page, s) !in LiveKeys(cfg, page, cap);
      }
    }
    SameFrom(page', page, 1);
    assert forall s :: 0 <= s < cap ==> KeyAt(page', s) == KeyAt(page, s);
    EmptyTable(cfg, page);
    EmptyTable(cfg, page');
  }

  /** The page a leaf insertion probes: the leaf itself, hashed first when it is still empty. */
  function HashedForInsert(page: seq<int>): (r: seq<int>)
    requires |page| > 1 && IsInt32(page[0])
    ensures |r| == |page| && IsInt32(r[0]) && r[1..] == page[1..] && Count(r) == Count(page)
  {
    if Count(page) == 0 then SetFlag(page, HASHED_LEAF_MASK, true) else page
  }

  /**
    The table a leaf insertion probes is consistent, holds what the leaf
    held (without the new key) and has a free slot, so the probe ends at a
    free slot.
  */
  lemma HashedLeafReady(cfg: Cfg, page: seq<int>, key: int)
    requires TableOk(cfg, page) && IsIndexLeaf(page) && Insertable(cfg, page, key)
    ensures var page1 := HashedForInsert(page);
      && TableOk(cfg, page1) && IsIndexLeaf(page1) && IsHashedLeaf(page1) && HashWf(cfg, page1)
      && LiveCount(cfg, page1) == Count(page) && HasFreeSlot(cfg, page1) && HashGet(cfg, page1, key) == None
  {
    var page1 := HashedForInsert(page);
    if Count(page) == 0 {
      HashEmptyLeaf(cfg, page);
    }
    FreeSlotExists(cfg, page1);
  }

  /**
    A leaf insertion that found the free slot at probe `t`: the key and
    value written there and the count raised by one store `key -> value` in
    the leaf on top of what it held.
  */
  lemma HashedLeafStore(cfg: Cfg, page: seq<int>, key: int, value: int, t: nat, r: seq<int>)
    requires TableOk(cfg, page) && IsIndexLeaf(page) && Insertable(cfg, page, key)
    requires TableOk(cfg, HashedForInsert(page)) && ProbesOccupied(cfg, HashedForInsert(page), key, t)
    requires KeyAt(HashedForInsert(page), Probe(key, cfg.hashPageCapacity, t)) == HASH_FREE
    requires r == SetChildrenCount(PutSlot(HashedForInsert(page), Probe(key, cfg.hashPageCapacity, t), key, value), Count(page) + 1)
    ensures TableOk(cfg, r) && LeafStore(cfg, page, r, key, value)
  {
    var page1 := HashedForInsert(page);
    var i := Probe(key, cfg.hashPageCapacity, t);
    var r1 := PutSlot(page1, i, key, value);
    HashedLeafReady(cfg, page, key);
    if Count(page) == 0 {
      HashEmptyLeaf(cfg, page);
    }
    assert forall k :: LeafGet(cfg, page, k) == HashGet(cfg, page1, k);
    InsertIntoTable(cfg, page1, key, value, t);
    HeaderWriteKeepsTable(cfg, r1, r);
  }

  /**
    The leaf half of `insert`: an empty leaf is turned into a hash table
    first, then the entry goes into the free slot the probe ends at and the
    count grows by one. Also returns the probe's outcome for the search
    statistics.
  */
  method InsertIntoHashedLeaf(cfg: Cfg, page: seq<int>, key: int, value: int)
    returns (r: seq<int>, status: Status, total: nat)
    requires TableOk(cfg, page) && IsInt32(key) && IsIndexLeaf(page)
    requires Insertable(cfg, page, key)
    ensures |r| == |page| && IsInt32(r[0]) && r[1] == page[1] && TableOk(cfg, r)
    ensures Count(r) == Count(page) + 1 && IsIndexLeaf(r)
    ensures LeafStore(cfg, page, r, key, value)
    ensures status.Ok? && total <= cfg.hashPageCapacity
  {
    r := page;
    var recordCount := Count(page);
    if recordCount == 0 {
      r := SetFlag(r, HASHED_LEAF_MASK, true);
    }
    assert r == HashedForInsert(page);
    // a leaf holding entries is hashed, so the sorted-leaf path is never taken
    var index;
    status, index, total := HashIndex(cfg, r, key);
    assert status.Ok? && index < 0 by {
      HashedLeafReady(cfg, page, key);
      HashIndexAgreesWithScan(cfg, r, key, index, total);
    }
    if index < 0 {
      index := -index - 1;
    }
    ghost var r1 := r;
    assert index == Probe(key, cfg.hashPageCapacity, total) && KeyAt(r1, index) == HASH_FREE;
    r := SetKeyAt(r, index, key);
    r := SetAddressAt(r, index, value);
    r := SetChildrenCount(r, recordCount + 1);
    assert r == SetChildrenCount(PutSlot(r1, index, key, value), recordCount + 1);
    HashedLeafStore(cfg, page, key, value, total, r);
  }

  /**
    The new page of an interior split: its count, then the keys and pointers
    from slot `maxIndex` of the full page, then the full page's last pointer.
  */
  method MoveUpperHalf(cfg: Cfg, page: seq<int>, newPage: seq<int>, maxIndex: int) returns (right: seq<int>)
    requires TableOk(cfg, page) && TableOk(cfg, newPage)
    requires !IsIndexLeaf(page) && IsFull(cfg, page) && !IsIndexLeaf(newPage)
    requires maxIndex == MaxChildrenCount(cfg, page) / 2
    ensures TableOk(cfg, right) && right[1] == newPage[1] && !IsIndexLeaf(right)
    ensures Count(right) == Count(page) - maxIndex
    ensures forall j :: 0 <= j < Count(page) - maxIndex ==> KeyAt(right, j) == KeyAt(page, maxIndex + j)
    ensures forall j :: 0 <= j <= Count(page) - maxIndex ==> AddressAt(right, j) == AddressAt(page, maxIndex + j)
  {
    var recordCount := Count(page);
    var recordCountInNewNode := recordCount - maxIndex;
    right := SetChildrenCount(newPage, recordCountInNewNode);
    right := CopySlots(page, right, maxIndex, recordCountInNewNode);
    ghost var copied := right;
    right := SetAddressAt(right, recordCountInNewNode, AddressAt(page, recordCount));
    forall j | 0 <= j < recordCountInNewNode
      ensures KeyAt(right, j) == KeyAt(page, maxIndex + j) && AddressAt(right, j) == AddressAt(page, maxIndex + j)
    {
      assert KeyAt(right, j) == KeyAt(copied, j) && AddressAt(right, j) == AddressAt(copied, j);
    }
  }

  /**
    The interior half of `splitNode`: the keys and pointers from slot
    `maxIndex` on move to `newPage` (with the last pointer), the key just
    before them goes up as the median, and the old page keeps the rest.
  */
  method SplitInterior(cfg: Cfg, page: seq<int>, newPage: seq<int>)
    returns (left: seq<int>, right: seq<int>, medianKey: int, ghost mi: int)
    requires TableOk(cfg, page) && TableOk(cfg, newPage)
    requires !IsIndexLeaf(page) && IsFull(cfg, page) && !IsIndexLeaf(newPage)
    ensures TableOk(cfg, left) && TableOk(cfg, right) && left[1] == page[1] && right[1] == newPage[1]
    ensures 1 <= mi <= Count(page) && Count(page) + 1 <= cfg.maxInteriorNodes && mi == cfg.maxInteriorNodes / 2
    ensures InteriorSplitPages(cfg, page, left, right, mi) && medianKey == KeyAt(page, mi - 1)
  {
    var maxIndex := MaxChildrenCount(cfg, page) / 2;
    right := MoveUpperHalf(cfg, page, newPage, maxIndex);
    mi := maxIndex;
    maxIndex := maxIndex - 1;
    medianKey := KeyAt(page, maxIndex);
    left := SetChildrenCount(page, maxIndex);
    assert left[2..] == page[2..] by {
      assert left[2..] == left[1..][1..];
      assert page[2..] == page[1..][1..];
    }
    MetaWriteKeepsSlots(page, left);
  }

  /** `setNextPage(a)` leaves the header, every slot and what the table stores in place. */
  lemma LinkKeepsPage(cfg: Cfg, p: seq<int>, a: int)
    requires TableOk(cfg, p)
    ensures var q := SetNextPage(p, a);
      && TableOk(cfg, q) && q[0] == p[0] && SameTable(cfg, p, q)
      && (forall i :: 0 <= i && 2 * i + 3 < |p| ==> KeyAt(q, i) == KeyAt(p, i) && AddressAt(q, i) == AddressAt(p, i))
      && (HashWf(cfg, p) <==> HashWf(cfg, q)) && LiveCount(cfg, p) == LiveCount(cfg, q)
      && (UniqueKeys(cfg, p) ==> forall k :: HashGet(cfg, p, k) == HashGet(cfg, q, k))
  {
    var q := SetNextPage(p, a);
    MetaWriteKeepsSlots(p, q);
    MetaWriteKeepsTable(cfg, p, q);
    SameTableSameContents(cfg, p, q);
  }

  /** A full leaf of the tree, relinked, is a full consistent hashed leaf with its keys in the key range. */
  lemma LinkedFullLeaf(cfg: Cfg, page: seq<int>, a: int)
    requires TableOk(cfg, page) && IsIndexLeaf(page) && IsFull(cfg, page) && LeafReady(cfg, page)
    requires forall k :: LeafGet(cfg, page, k).Some? ==> MinKey <= k < KeyBound
    ensures var q := SetNextPage(page, a);
      && TableOk(cfg, q) && IsIndexLeaf(q) && IsHashedLeaf(q) && HashWf(cfg, q)
      && Count(q) == LiveCount(cfg, q) == cfg.maxLeafNodesInHash
      && forall k :: LeafGet(cfg, q, k).Some? ==> MinKey <= k < KeyBound
  {
    LinkKeepsPage(cfg, page, a);
    var q := SetNextPage(page, a);
    forall k | LeafGet(cfg, q, k).Some?
      ensures MinKey <= k < KeyBound
    {
      assert LeafGet(cfg, page, k) == LeafGet(cfg, q, k);
    }
  }

  /** The split of a relinked leaf is a split of the leaf: the two agree on every stored key. */
  lemma LinkedLeafSplit(cfg: Cfg, page: seq<int>, a: int, left: seq<int>, right: seq<int>, keys: seq<int>)
    requires TableOk(cfg, page) && HashWf(cfg, page) && TableOk(cfg, left) && TableOk(cfg, right)
    requires TableOk(cfg, SetNextPage(page, a)) && LeafSplitPages(cfg, SetNextPage(page, a), left, right, keys)
    ensures LeafSplitPages(cfg, page, left, right, keys)
  {
    LinkKeepsPage(cfg, page, a);
  }

  /** The split of a relinked interior page is a split of the page: the two agree on every slot. */
  lemma LinkedInteriorSplit(cfg: Cfg, page: seq<int>, a: int, left: seq<int>, right: seq<int>, mi: int)
    requires TableOk(cfg, page) && TableOk(cfg, left) && TableOk(cfg, right)
    requires 1 <= mi <= Count(page) && Count(page) + 1 <= cfg.maxInteriorNodes
    requires TableOk(cfg, SetNextPage(page, a)) && InteriorSplitPages(cfg, SetNextPage(page, a), left, right, mi)
    ensures InteriorSplitPages(cfg, page, left, right, mi)
    ensures KeyAt(SetNextPage(page, a), mi - 1) == KeyAt(page, mi - 1)
  {
    LinkKeepsPage(cfg, page, a);
  }

  /** Leaf `page` holds exactly the mappings of `page0` whose keys are among `ks`. */
  ghost predicate HoldsKeys(cfg: Cfg, page0: seq<int>, page: seq<int>, ks: seq<int>)
    requires TableOk(cfg, page0) && TableOk(cfg, page)
  {
    forall k :: LeafGet(cfg, page, k) == if k in ks then HashGet(cfg, page0, k) else None
  }

  /**
    One step of refilling a split leaf: a page holding the keys
    `keys[lo..lo + i]` does not hold the next key of the strictly sorted
    snapshot, and once that key is stored with its snapshot value the page
    holds `keys[lo..lo + i + 1]`.
  */
  lemma RefillStep(cfg: Cfg, page0: seq<int>, keys: seq<int>, lo: int, i: int, prev: seq<int>, next: seq<int>, value: int)
    requires TableOk(cfg, page0) && TableOk(cfg, prev) && TableOk(cfg, next)
    requires StrictlySorted(keys) && 0 <= lo && 0 <= i && lo + i < |keys|
    requires HoldsKeys(cfg, page0, prev, keys[lo..lo + i])
    requires HashGet(cfg, page0, keys[lo + i]) == Some(value)
    ensures LeafGet(cfg, prev, keys[lo + i]) == None
    ensures LeafStore(cfg, prev, next, keys[lo + i], value) ==> HoldsKeys(cfg, page0, next, keys[lo..lo + i + 1])
  {
    var key := keys[lo + i];
    assert key !in keys[lo..lo + i];
    assert keys[lo..lo + i + 1] == keys[lo..lo + i] + [key];
  }

  /** What the snapshot of a consistent full leaf says about it. */
  ghost predicate SnapshotOf(cfg: Cfg, page: seq<int>, keys: seq<int>, values: map<int, int>)
    requires TableOk(cfg, page)
  {
    && StrictlySorted(keys) && |keys| == LiveCount(cfg, page)
    && (forall k :: k in keys <==> HashGet(cfg, page, k).Some?)
    && (forall k :: k in keys ==> k in values && HashGet(cfg, page, k) == Some(values[k]))
  }

  /** An entry of the snapshot of a leaf whose keys are in range: a 32-bit key, not the free marker, with its value. */
  lemma SnapshotKey(cfg: Cfg, page: seq<int>, keys: seq<int>, values: map<int, int>, j: int)
    requires TableOk(cfg, page) && IsHashedLeaf(page) && SnapshotOf(cfg, page, keys, values) && 0 <= j < |keys|
    requires forall k :: LeafGet(cfg, page, k).Some? ==> MinKey <= k < KeyBound
    ensures IsInt32(keys[j]) && keys[j] != HASH_FREE && keys[j] in values
    ensures HashGet(cfg, page, keys[j]) == Some(values[keys[j]])
  {
    assert keys[j] in keys;
    assert LeafGet(cfg, page, keys[j]).Some?;
  }

  /** The refilled halves of a split leaf are the pages `LeafSplitPages` describes. */
  lemma RefillDone(cfg: Cfg, page: seq<int>, left: seq<int>, right: seq<int>, keys: seq<int>, values: map<int, int>)
    requires TableOk(cfg, page) && TableOk(cfg, left) && TableOk(cfg, right) && SnapshotOf(cfg, page, keys, values)
    requires 0 < |keys| && |keys| % 2 == 0 && |keys| <= 2 * cfg.maxLeafNodesInHash
    requires IsIndexLeaf(left) && IsHashedLeaf(left) && LeafReady(cfg, left) && Count(left) == |keys| / 2
    requires IsIndexLeaf(right) && IsHashedLeaf(right) && LeafReady(cfg, right) && Count(right) == |keys| / 2
    requires HoldsKeys(cfg, page, left, keys[..|keys| / 2])
    requires HoldsKeys(cfg, page, right, keys[|keys| / 2..][..|keys| / 2])
    ensures LeafSplitPages(cfg, page, left, right, keys)
  {
    assert keys[|keys| / 2..][..|keys| / 2] == keys[|keys| / 2..];
  }

  /** The split leaf after `clean()` and `setChildrenCount(0)`: an empty consistent table holding nothing. */
  lemma CleanedLeaf(cfg: Cfg, page0: seq<int>, cleaned: seq<int>)
    requires TableOk(cfg, page0) && IsIndexLeaf(page0) && IsHashedLeaf(page0)
    requires |cleaned| == |page0| && cleaned[0] == page0[0] && cleaned[1] == page0[1]
    requires forall s :: 0 <= s < cfg.hashPageCapacity ==> KeyAt(cleaned, s) == HASH_FREE
    ensures var r := SetChildrenCount(cleaned, 0);
      && TableOk(cfg, r) && IsIndexLeaf(r) && IsHashedLeaf(r) && Count(r) == 0 && r[1] == page0[1]
      && LeafReady(cfg, r) && HoldsKeys(cfg, page0, r, [])
  {
    var r := SetChildrenCount(cleaned, 0);
    assert r[2..] == cleaned[2..] by {
      assert r[2..] == r[1..][1..];
      assert cleaned[2..] == cleaned[1..][1..];
    }
    MetaWriteKeepsSlots(cleaned, r);
    EmptyTable(cfg, r);
  }

  /** The new leaf after `setChildrenCount(0)`: still an empty leaf, not hashed, holding nothing. */
  lemma EmptiedLeaf(cfg: Cfg, page0: seq<int>, page: seq<int>)
    requires TableOk(cfg, page0) && TableOk(cfg, page) && IsIndexLeaf(page) && !IsHashedLeaf(page) && LeafReady(cfg, page)
    ensures var r := SetChildrenCount(page, 0);
      && TableOk(cfg, r) && IsIndexLeaf(r) && !IsHashedLeaf(r) && Count(r) == 0 && r[1] == page[1]
      && LeafReady(cfg, r) && HoldsKeys(cfg, page0, r, [])
  {
    var r := SetChildrenCount(page, 0);
    assert r[2..] == page[2..] by {
      assert r[2..] == r[1..][1..];
      assert page[2..] == page[1..][1..];
    }
    MetaWriteKeepsSlots(page, r);
  }

  /** Two insertion points of one key are the same. */
  lemma InsertionPointUnique(page: seq<int>, n: int, key: int, ip: int, ip': int)
    requires 0 <= n && 2 * n + 1 < |page|
    requires InsertionPoint(page, n, key, ip) && InsertionPoint(page, n, key, ip')
    ensures ip == ip'
  {
    // the keys at both points, which the two descriptions order in opposite ways unless the points agree
    var k1 := if ip < n then KeyAt(page, ip) else key;
    var k2 := if ip' < n then KeyAt(page, ip') else key;
  }

  /**
    What the tree invariant says of the page at the end of a path: a leaf
    page is ready for entries and holds keys of the whole key range only;
    an interior page has sorted keys, room for its children's pointers, and
    those pointers are the children's negated addresses.
  */
  lemma PageAt(cfg: Cfg, s: Shape, file: File, d: nat, p: seq<nat>)
    requires TreeOk(cfg, s, file, d) && ValidPath(s, p)
    ensures |p| < d
    ensures At(s, p).addr in file && TableOk(cfg, file[At(s, p).addr])
    ensures IsIndexLeaf(file[At(s, p).addr]) <==> At(s, p).Leaf?
    ensures At(s, p).Leaf? ==> var page := file[At(s, p).addr];
      && |p| + 1 == d && LeafReady(cfg, page) && Count(page) <= cfg.maxLeafNodesInHash
      && forall k :: LeafGet(cfg, page, k).Some? ==> MinKey <= k < KeyBound
    ensures At(s, p).Node? ==> var x := At(s, p); var page := file[x.addr];
      && x.addr != 0 && 0 <= Count(page) && Count(page) + 1 <= cfg.maxInteriorNodes
      && |x.kids| == Count(page) + 1 && SortedKeys(page, Count(page))
      && forall i :: 0 <= i < |x.kids| ==> AddressAt(page, i) == -x.kids[i].addr
  {
    var b := BoundsAt(cfg, s, file, p, MinKey, KeyBound);
    AtWf(cfg, s, file, MinKey, KeyBound, d, p);
    var x := At(s, p);
    if x.Node? {
      NodeParts(cfg, x, file, b.0, b.1, d - |p|);
    } else {
      forall k | LeafGet(cfg, file[x.addr], k).Some?
        ensures MinKey <= k < KeyBound
      {
        StoredKeyInRange(cfg, file[x.addr], b.0, b.1, k);
      }
    }
  }

  /** The lookup of a key is the lookup in the leaf its route ends at. */
  lemma RouteGet(cfg: Cfg, s: Shape, file: File, d: nat, p: seq<nat>, k: int)
    requires TreeOk(cfg, s, file, d) && OnRoute(cfg, s, file, k, p) && MinKey <= k < KeyBound
    requires ValidPath(s, p) && At(s, p).Leaf? && At(s, p).addr in file && TableOk(cfg, file[At(s, p).addr])
    ensures Get(cfg, s, file, k) == LeafGet(cfg, file[At(s, p).addr], k)
  {
    RouteBounds(cfg, s, file, MinKey, KeyBound, d, k, p);
    AtGet(cfg, s, file, MinKey, KeyBound, d, p, k);
  }

  /** Writing a leaf's page changes the tree's size by the change in the leaf's children count. */
  lemma LeafWriteSize(cfg: Cfg, s: Shape, file: File, d: nat, p: seq<nat>, page: seq<int>)
    requires TreeOk(cfg, s, file, d) && ValidPath(s, p) && At(s, p).Leaf?
    requires |page| > 0 && IsInt32(page[0])
    ensures At(s, p).addr in file && TableOk(cfg, file[At(s, p).addr])
    ensures Size(s, file[At(s, p).addr := page]) == Size(s, file) - Count(file[At(s, p).addr]) + Count(page)
  {
    var a := At(s, p).addr;
    var file' := file[a := page];
    PageAt(cfg, s, file, d, p);
    AtAddrs(s, p);
    AddrsInFile(cfg, s, file, MinKey, KeyBound, d);
    assert Agree(file, file', Addrs(s) - Addrs(At(s, p)));
    SameOffPath(s, p, file, file');
    SizeReplace(s, p, At(s, p), file, file');
    ReplaceBySelf(s, p);
  }

  // ---------------------------------------------------------------------------
  // Splitting a full node of the tree

  /**
    `left` and `right` are the pages a split of the full node page `page`
    leaves, with median `m`: a hashed leaf split by its sorted keys `keys`,
    or an interior page split at slot `mi`.  Neither half is full.
  */
  ghost predicate SplitOf(cfg: Cfg, page: seq<int>, left: seq<int>, right: seq<int>, m: int, keys: seq<int>, mi: int) {
    && TableOk(cfg, page) && IsFull(cfg, page) && TableOk(cfg, left) && TableOk(cfg, right)
    && !IsFull(cfg, left) && !IsFull(cfg, right)
    && (IsIndexLeaf(page) ==> 0 < |keys| && LeafSplitPages(cfg, page, left, right, keys) && m == keys[|keys| / 2])
    && (!IsIndexLeaf(page) ==>
          && 1 <= mi <= Count(page) && Count(page) + 1 <= cfg.maxInteriorNodes
          && InteriorSplitPages(cfg, page, left, right, mi) && m == KeyAt(page, mi - 1))
  }

  /**
    `parent'` is the parent page `parent` with the median `m` of a split
    child inserted at the child's index `c`, and the pointer to the new
    page `right` after it.
  */
  ghost predicate ParentAfterSplit(cfg: Cfg, parent: seq<int>, parent': seq<int>, c: int, m: int, right: int) {
    && TableOk(cfg, parent) && TableOk(cfg, parent')
    && 0 <= c <= Count(parent) && Count(parent) + 2 <= cfg.maxInteriorNodes
    && ParentPage(cfg, parent, parent', c, m, right)
  }

  /**
    The node at the end of `q` lies on the route of `key`, and the child it
    sends `key` to has room for one more entry.
  */
  ghost predicate RoutesToRoom(cfg: Cfg, s: Shape, file: File, q: seq<nat>, key: int) {
    && ValidPath(s, q) && At(s, q).Node? && OnRoute(cfg, s, file, key, q)
    && At(s, q).addr in file && TableOk(cfg, file[At(s, q).addr])
    && (var page := file[At(s, q).addr];
        && 0 <= Count(page) && 2 * Count(page) + 1 < |page|
        && var c := ChildIndex(page, Count(page), key);
           && c < |At(s, q).kids| && At(s, q).kids[c].addr in file
           && TableOk(cfg, file[At(s, q).kids[c].addr]) && !IsFull(cfg, file[At(s, q).kids[c].addr]))
  }

  /** The median of a split of the node at the end of `pp` lies strictly inside the node's range. */
  lemma SplitMedian(cfg: Cfg, s: Shape, file: File, d: nat, pp: seq<nat>, left: seq<int>, right: seq<int>, m: int, keys: seq<int>, mi: int)
    requires TreeOk(cfg, s, file, d) && ValidPath(s, pp) && At(s, pp).addr in file
    requires SplitOf(cfg, file[At(s, pp).addr], left, right, m, keys, mi)
    ensures var b := BoundsAt(cfg, s, file, pp, MinKey, KeyBound); MinKey <= b.0 < m < b.1 <= KeyBound
  {
    var x := At(s, pp);
    var b := BoundsAt(cfg, s, file, pp, MinKey, KeyBound);
    AtWf(cfg, s, file, MinKey, KeyBound, d, pp);
    if x.Leaf? {
      LeafSplitHalf(cfg, file[x.addr], left, right, keys, b.0, b.1);
    } else {
      NodeParts(cfg, x, file, b.0, b.1, d - |pp|);
    }
  }

  /**
    The parent of the node at the end of `q + [c]`, when it is not full,
    has room for a median from the child's range, which goes in at slot `c`.
  */
  lemma ParentRoom(cfg: Cfg, s: Shape, file: File, d: nat, q: seq<nat>, c: nat, m: int)
    requires TreeOk(cfg, s, file, d) && ValidPath(s, q + [c])
    requires var b := BoundsAt(cfg, s, file, q + [c], MinKey, KeyBound); b.0 < m < b.1
    ensures ValidPath(s, q) && At(s, q).Node? && c < |At(s, q).kids| && At(s, q).kids[c] == At(s, q + [c])
    ensures var pa := At(s, q).addr;
      && pa in file && TableOk(cfg, file[pa]) && pa != At(s, q + [c]).addr && pa != 0
      && !IsIndexLeaf(file[pa]) && 0 <= c <= Count(file[pa]) && Count(file[pa]) + 1 <= cfg.maxInteriorNodes
      && 2 * Count(file[pa]) + 1 < |file[pa]|
      && InsertionPoint(file[pa], Count(file[pa]), m, c)
      && (!IsFull(cfg, file[pa]) ==> Insertable(cfg, file[pa], m))
  {
    assert (q + [c])[..|q|] == q;
    PathParent(s, q + [c]);
    var p := At(s, q);
    var b := BoundsAt(cfg, s, file, q, MinKey, KeyBound);
    ParentBounds(cfg, s, file, d, q, c);
    PageAt(cfg, s, file, d, q);
    var page := file[p.addr];
    MedianInsertionPoint(page, Count(page), c, b.0, b.1, m);
    assert p.addr != p.kids[c].addr by {
      AtAddrs(s, q);
    }
  }

  /** A split of the node at the end of `pp` into pages laid out as `SplitOf` says makes two halves of the node. */
  lemma SplitHalvesOf(cfg: Cfg, s: Shape, file: File, d: nat, pp: seq<nat>, a': int, o: int, file': File, m: int, keys: seq<int>, mi: int)
    returns (l: Shape, r: Shape)
    requires TreeOk(cfg, s, file, d) && ValidPath(s, pp) && |pp| < d && a' !in file && a' != 0
    requires var xa := At(s, pp).addr;
      && xa in file && xa in file' && a' in file' && SplitOf(cfg, file[xa], file'[xa], file'[a'], m, keys, mi)
    requires |pp| > 0 ==> ValidPath(s, pp[..|pp| - 1]) && o == At(s, pp[..|pp| - 1]).addr
    requires |pp| == 0 ==> o !in file
    requires forall y :: y in file && y != At(s, pp).addr && y != o ==> y in file' && file'[y] == file[y]
    ensures l.addr == At(s, pp).addr && r.addr == a' && SplitAddrs(At(s, pp), l, r, a')
    ensures var b := BoundsAt(cfg, s, file, pp, MinKey, KeyBound); Halves(cfg, At(s, pp), file, b.0, b.1, d - |pp|, l, r, m, file')
    ensures Size(l, file') + Size(r, file') == Size(At(s, pp), file)
  {
    var x := At(s, pp);
    PageAt(cfg, s, file, d, pp);
    if x.Leaf? {
      LeafSplitHalves(cfg, s, file, d, pp, keys, a', file');
      l, r := Leaf(x.addr), Leaf(a');
      assert Count(file[x.addr]) == |keys| by {
        AtWf(cfg, s, file, MinKey, KeyBound, d, pp);
      }
    } else {
      InteriorSplitHalves(cfg, s, file, d, pp, a', o, file', mi);
      l, r := Node(x.addr, x.kids[..mi]), Node(a', x.kids[mi..]);
      KidsUntouched(cfg, s, file, d, pp, a', o, file');
      SizeAllSplit(x.kids, mi, file, file');
    }
  }

  /**
    The split of a full child `c` of the node at the end of `q`, on the
    route of `key`, with the median inserted into the parent's page: the
    tree with the two halves in place of the child keeps the invariant and
    the stored map, and the parent routes `key` to a half, which has room.
  */
  lemma SplitChildTree(cfg: Cfg, s: Shape, file: File, d: nat, q: seq<nat>, c: nat, key: int, a': int, m: int, keys: seq<int>, mi: int, file': File)
    returns (s': Shape)
    requires TreeOk(cfg, s, file, d) && OnRoute(cfg, s, file, key, q + [c]) && a' !in file && a' != 0
    requires ValidPath(s, q + [c]) && ValidPath(s, q)
    requires var xa := At(s, q + [c]).addr;
      && xa in file && xa in file' && a' in file' && SplitOf(cfg, file[xa], file'[xa], file'[a'], m, keys, mi)
    requires var pa := At(s, q).addr;
      && At(s, q).Node? && pa in file && TableOk(cfg, file[pa]) && pa in file' && TableOk(cfg, file'[pa])
      && 0 <= c <= Count(file[pa]) && Count(file[pa]) + 2 <= cfg.maxInteriorNodes
      && ParentPage(cfg, file[pa], file'[pa], c, m, a')
    requires forall y :: y in file && y != At(s, q + [c]).addr && y != At(s, q).addr ==> y in file' && file'[y] == file[y]
    ensures TreeOk(cfg, s', file', d) && s'.addr == s.addr
    ensures forall k :: Get(cfg, s', file', k) == Get(cfg, s, file, k)
    ensures RoutesToRoom(cfg, s', file', q, key) && At(s', q).addr == At(s, q).addr
    ensures Size(s', file') == Size(s, file)
  {
    assert (q + [c])[..|q|] == q;
    PathParent(s, q + [c]);
    var p := At(s, q);
    PageAt(cfg, s, file, d, q + [c]);
    var l, r := SplitHalvesOf(cfg, s, file, d, q + [c], a', p.addr, file', m, keys, mi);
    s' := SplitUnderTree(cfg, s, file, d, q, c, l, r, m, file', key);
  }

  /**
    `SplitChildTree` once the halves `l` and `r` of child `c` are laid out:
    the tree with them in place of the child, whose pages have room.
  */
  lemma SplitUnderTree(cfg: Cfg, s: Shape, file: File, d: nat, q: seq<nat>, c: nat, l: Shape, r: Shape, m: int, file': File, key: int)
    returns (s': Shape)
    requires SplitUnder(cfg, s, file, d, q, c, l, r, m, file') && OnRoute(cfg, s, file, key, q + [c])
    requires l.addr in file' && TableOk(cfg, file'[l.addr]) && !IsFull(cfg, file'[l.addr])
    requires r.addr in file' && TableOk(cfg, file'[r.addr]) && !IsFull(cfg, file'[r.addr])
    requires Size(l, file') + Size(r, file') == Size(At(s, q).kids[c], file)
    ensures TreeOk(cfg, s', file', d) && s'.addr == s.addr
    ensures forall k :: Get(cfg, s', file', k) == Get(cfg, s, file, k)
    ensures RoutesToRoom(cfg, s', file', q, key) && At(s', q).addr == At(s, q).addr
    ensures Size(s', file') == Size(s, file)
  {
    var p := At(s, q);
    var t := Node(p.addr, WithHalves(p.kids, c, l, r));
    RoutePrefix(cfg, s, file, key, q, c);
    ChildSplit(cfg, s, file, d, q, c, l, r, m, file', key);
    SplitRoute(cfg, s, file, d, q, c, l, r, m, file', key);
    s' := ReplaceAt(s, q, t);
    if |q| == 0 {
      assert s' == t;
    }
    SplitUnderSize(cfg, s, file, d, q, c, l, r, m, file');
  }

  /** A split of child `c` into halves holding what it held leaves the tree holding as many entries. */
  lemma SplitUnderSize(cfg: Cfg, s: Shape, file: File, d: nat, q: seq<nat>, c: nat, l: Shape, r: Shape, m: int, file': File)
    requires SplitUnder(cfg, s, file, d, q, c, l, r, m, file')
    requires Size(l, file') + Size(r, file') == Size(At(s, q).kids[c], file)
    ensures Size(ReplaceAt(s, q, Node(At(s, q).addr, WithHalves(At(s, q).kids, c, l, r))), file') == Size(s, file)
  {
    var p := At(s, q);
    SplitFrame(cfg, s, file, d, q, c, r.addr, file');
    SameOffPath(s, q, file, file');
    AtAddrs(s, q);
    AddrsInFile(cfg, s, file, MinKey, KeyBound, d);
    OtherKidsSame(p, c, file, file');
    SizeWithHalves(p.kids, c, l, r, file, file');
    SizeReplace(s, q, Node(p.addr, WithHalves(p.kids, c, l, r)), file, file');
  }

  /** The page `splitNode` writes for a new root: one key, the median, between the pointers to the two halves. */
  function NewRootPage(cfg: Cfg, m: int, left: int, right: int): (r: seq<int>)
    requires 3 <= cfg.hashPageCapacity <= Slots(cfg)
    ensures TableOk(cfg, r) && RootPage(cfg, r, m, left, right)
  {
    ZeroHeader();
    var page := SetChildrenCount(ZeroPage(cfg), 1);
    SetAddressAt(SetAddressAt(SetKeyAt(page, 0, m), 0, -left), 1, -right)
  }

  /**
    The split of a full root on the route of `key` under a new root page at
    `ra`: the tree grows by one level, keeps the invariant and the stored
    map, and the new root routes `key` to a half, which has room.
  */
  lemma SplitRootTree(cfg: Cfg, s: Shape, file: File, d: nat, key: int, a': int, ra: int, m: int, keys: seq<int>, mi: int, file': File)
    returns (s': Shape)
    requires TreeOk(cfg, s, file, d) && a' !in file && ra !in file && a' != ra && a' != 0 && ra != 0
    requires s.addr in file && s.addr in file' && a' in file' && SplitOf(cfg, file[s.addr], file'[s.addr], file'[a'], m, keys, mi)
    requires ra in file' && file'[ra] == NewRootPage(cfg, m, s.addr, a')
    requires forall y :: y in file && y != s.addr ==> y in file' && file'[y] == file[y]
    ensures TreeOk(cfg, s', file', d + 1) && s'.addr == ra
    ensures forall k :: Get(cfg, s', file', k) == Get(cfg, s, file, k)
    ensures RoutesToRoom(cfg, s', file', [], key)
    ensures Size(s', file') == Size(s, file)
  {
    PageAt(cfg, s, file, d, []);
    var l, r := SplitHalvesOf(cfg, s, file, d, [], a', ra, file', m, keys, mi);
    RootSplit(cfg, s, file, d, l, r, m, ra, file');
    s' := Node(ra, [l, r]);
    SizeAllPair(l, r, file');
  }

  /**
    The storage invariant of the tree, on the values of its fields: pages
    are whole, consecutive and below the storage's length; the storage is
    empty until the root is allocated, and from then on its pages form the
    tree `s` of depth `d` rooted at `root`.
  */
  ghost predicate StoreInv(cfg: Cfg, file: File, len: int, pages: int, height: int, root: int, s: Shape, d: nat) {
    && 0 <= pages && len == pages * cfg.pageSize
    && (forall a :: a in file ==> 0 <= a < len)
    && 0 <= height
    && (root == UNDEFINED_ADDRESS ==> file == map[] && pages == 0)
    && (root != UNDEFINED_ADDRESS ==> TreeOk(cfg, s, file, d) && s.addr == root)
  }

  /** One page more is one page size more bytes. */
  lemma OnePageMore(pages: int, size: int)
    ensures (pages + 1) * size == pages * size + size
  {
  }

  /**
    `SplitChildTree` for the storage as `splitNode` leaves it.  `file`, of
    length `len` in `pages` pages, is the storage before the split; the
    new page `nextPage` gives is at `len`, and the halves and the parent's
    page with the median inserted are written over the split node, the new
    page and the parent's page.
  */
  lemma ChildSplitStore(cfg: Cfg, s: Shape, file: File, d: nat, len: int, pages: int, height: int, q: seq<nat>, c: nat, key: int,
                        m: int, keys: seq<int>, mi: int, left: seq<int>, right: seq<int>, parentPage: seq<int>)
    returns (s': Shape)
    requires StoreInv(cfg, file, len, pages, height, s.addr, s, d) && s.addr != UNDEFINED_ADDRESS
    requires ValidPath(s, q + [c]) && OnRoute(cfg, s, file, key, q + [c]) && ValidPath(s, q)
    requires var xa := At(s, q + [c]).addr; xa in file && SplitOf(cfg, file[xa], left, right, m, keys, mi)
    requires var pa := At(s, q).addr;
      && At(s, q).Node? && pa in file && TableOk(cfg, file[pa]) && TableOk(cfg, parentPage) && pa != At(s, q + [c]).addr
      && 0 <= c <= Count(file[pa]) && Count(file[pa]) + 2 <= cfg.maxInteriorNodes
      && ParentPage(cfg, file[pa], parentPage, c, m, len)
    ensures var file' := file[len := ZeroPage(cfg)][At(s, q + [c]).addr := left][len := right][At(s, q).addr := parentPage];
      && StoreInv(cfg, file', len + cfg.pageSize, pages + 1, height, s.addr, s', d)
      && (forall k :: Get(cfg, s', file', k) == Get(cfg, s, file, k))
      && RoutesToRoom(cfg, s', file', q, key) && At(s', q).addr == At(s, q).addr
      && Size(s', file') == Size(s, file)
  {
    var xa, pa := At(s, q + [c]).addr, At(s, q).addr;
    assert 0 <= xa < len && 0 <= pa < len && 0 < cfg.pageSize;
    OnePageMore(pages, cfg.pageSize);
    var file' := file[len := ZeroPage(cfg)][xa := left][len := right][pa := parentPage];
    assert file'.Keys == file.Keys + {len};
    s' := SplitChildTree(cfg, s, file, d, q, c, key, len, m, keys, mi, file');
    assert forall a :: a in file' ==> 0 <= a < len + cfg.pageSize;
  }

  /**
    `SplitRootTree` for the storage as `splitNode` leaves it.  `file`, of
    length `len` in `pages` pages, is the storage before the split; the
    first `nextPage` gives the new page at `len`, the second the new
    root's page after it, and the halves and the new root page are written
    over the old root, the new page and the new root's page.
  */
  lemma SplitRootStore(cfg: Cfg, s: Shape, file: File, d: nat, len: int, pages: int, height: int, key: int,
                       m: int, keys: seq<int>, mi: int, left: seq<int>, right: seq<int>)
    returns (s': Shape)
    requires StoreInv(cfg, file, len, pages, height, s.addr, s, d) && s.addr != UNDEFINED_ADDRESS
    requires SplitOf(cfg, file[s.addr], left, right, m, keys, mi)
    ensures var ra := len + cfg.pageSize;
      var file' := file[len := ZeroPage(cfg)][ra := ZeroPage(cfg)][s.addr := left][len := right][ra := NewRootPage(cfg, m, s.addr, len)];
      && StoreInv(cfg, file', ra + cfg.pageSize, pages + 2, height, ra, s', d + 1)
      && (forall k :: Get(cfg, s', file', k) == Get(cfg, s, file, k))
      && RoutesToRoom(cfg, s', file', [], key) && ra != 0
      && Size(s', file') == Size(s, file)
  {
    var ra := len + cfg.pageSize;
    assert 0 <= s.addr < len && 0 < cfg.pageSize;
    OnePageMore(pages, cfg.pageSize);
    OnePageMore(pages + 1, cfg.pageSize);
    var file' := file[len := ZeroPage(cfg)][ra := ZeroPage(cfg)][s.addr := left][len := right][ra := NewRootPage(cfg, m, s.addr, len)];
    assert file'.Keys == file.Keys + {len, ra};
    s' := SplitRootTree(cfg, s, file, d, key, len, ra, m, keys, mi, file');
    assert forall a :: a in file' ==> 0 <= a < ra + cfg.pageSize;
  }

  // ---------------------------------------------------------------------------
  // The descent

  /**
    The search on the page at the end of `p` can run: a hashed leaf's table
    is consistent and below capacity, and any other page's keys are sorted.
  */
  lemma SearchReady(cfg: Cfg, s: Shape, file: File, d: nat, p: seq<nat>)
    requires TreeOk(cfg, s, file, d) && ValidPath(s, p)
    ensures At(s, p).addr in file && TableOk(cfg, file[At(s, p).addr]) && |p| < d
    ensures var page := file[At(s, p).addr];
      && (IsIndexLeaf(page) && IsHashedLeaf(page) ==> HashWf(cfg, page) && LiveCount(cfg, page) < cfg.hashPageCapacity)
      && (!(IsIndexLeaf(page) && IsHashedLeaf(page)) ==>
            0 <= Count(page) && 2 * Count(page) + 1 < |page| && SortedKeys(page, Count(page)))
      && (!IsIndexLeaf(page) ==> 2 * Count(page) + 3 < |page|)
  {
    PageAt(cfg, s, file, d, p);
  }

  /**
    One step down the route of `key`: the search's answer `i` on the
    interior page at the end of `p` names the child the route goes on to,
    whose address is the negated pointer in that slot.
  */
  lemma RouteStep(cfg: Cfg, s: Shape, file: File, d: nat, p: seq<nat>, key: int, i: int) returns (c: nat)
    requires TreeOk(cfg, s, file, d) && ValidPath(s, p) && OnRoute(cfg, s, file, key, p)
    requires At(s, p).addr in file && TableOk(cfg, file[At(s, p).addr]) && !IsIndexLeaf(file[At(s, p).addr])
    requires var page := file[At(s, p).addr];
      && 0 <= Count(page) && 2 * Count(page) + 3 < |page|
      && (0 <= i ==> i < Count(page) && KeyAt(page, i) == key)
      && (i < 0 ==> InsertionPoint(page, Count(page), key, -i - 1))
    ensures c == if i < 0 then -i - 1 else i + 1
    ensures var page := file[At(s, p).addr]; 0 <= Count(page) && c == ChildIndex(page, Count(page), key)
    ensures At(s, p).Node? && c < |At(s, p).kids| && |p| + 1 < d
    ensures ValidPath(s, p + [c]) && At(s, p + [c]) == At(s, p).kids[c] && (p + [c])[..|p|] == p
    ensures OnRoute(cfg, s, file, key, p + [c])
    ensures At(s, p + [c]).addr == -AddressAt(file[At(s, p).addr], c)
    ensures At(s, p + [c]).addr in file && TableOk(cfg, file[At(s, p + [c]).addr])
  {
    PageAt(cfg, s, file, d, p);
    var page := file[At(s, p).addr];
    SearchRoute(page, Count(page), key, i);
    c := if i < 0 then -i - 1 else i + 1;
    AtSnoc(s, p, c);
    RouteSnoc(cfg, s, file, key, p, c);
    PageAt(cfg, s, file, d, p + [c]);
    assert (p + [c])[..|p|] == p;
  }

  /** The search's answer on the leaf at the end of the route of `key` answers the lookup of `key`. */
  lemma LeafSearch(cfg: Cfg, s: Shape, file: File, d: nat, p: seq<nat>, key: int, i: int)
    requires TreeOk(cfg, s, file, d) && ValidPath(s, p) && OnRoute(cfg, s, file, key, p) && MinKey <= key < KeyBound
    requires At(s, p).addr in file && TableOk(cfg, file[At(s, p).addr]) && IsIndexLeaf(file[At(s, p).addr])
    requires var page := file[At(s, p).addr];
      && (IsHashedLeaf(page) ==>
            && (0 <= i <==> HashGet(cfg, page, key).Some?)
            && (0 <= i ==> i < cfg.hashPageCapacity && KeyAt(page, i) == key && HashGet(cfg, page, key) == Some(AddressAt(page, i))))
      && (!IsHashedLeaf(page) ==> 0 <= Count(page) && 2 * Count(page) + 1 < |page| && (0 <= i ==> i < Count(page) && KeyAt(page, i) == key))
    ensures At(s, p).Leaf? && |p| + 1 == d
    ensures 0 <= i <==> Get(cfg, s, file, key).Some?
    ensures 0 <= i ==> i < cfg.hashPageCapacity && KeyAt(file[At(s, p).addr], i) == key
                       && Get(cfg, s, file, key) == Some(AddressAt(file[At(s, p).addr], i))
  {
    PageAt(cfg, s, file, d, p);
    RouteGet(cfg, s, file, d, p, key);
  }

  // ---------------------------------------------------------------------------
  // The tree

  class IntToIntBtree {
    /** The page size and the node limits derived from it. */
    const cfg: Cfg

    /** The paged storage: each page's words by the page's byte address; its length in bytes and in pages. */
    var file: File
    var storageLength: int
    var pagesCount: int

    /** The persisted variables. */
    var height: int
    var hasZeroKey: bool
    var zeroKeyValue: int
    var rootAddress: int
    var count: int
    var movedMembersCount: int
    var hashedPagesCount: int
    var maxStepsSearchedInHash: int
    var totalHashStepsSearched: int
    var hashSearchRequests: int

    /** The access node view: the page it is on, and whether its last descent passed a full page. */
    var accessAddress: int
    var hasFullPagesAlongPath: bool

    /** The key of the last `get` that missed, and whether `put` may still use the view it left. */
    var lastGetKey: int
    var optimizedInserts: int
    var canUseLastKey: bool

    /** The tree the pages form, its depth, and the route the access view took to its page. */
    ghost var shape: Shape
    ghost var depth: nat
    ghost var accessPath: seq<nat>

    // Groups of fields, for stating what an operation leaves alone.

    function Storage(): (File, int, int)
      reads this
    {
      (file, storageLength, pagesCount)
    }

    function Layout(): (int, int)
      reads this
    {
      (rootAddress, height)
    }

    ghost function Ghosts(): (Shape, nat, seq<nat>)
      reads this
    {
      (shape, depth, accessPath)
    }

    function Entries(): (int, bool, int)
      reads this
    {
      (count, hasZeroKey, zeroKeyValue)
    }

    function LastGet(): (int, int, bool)
      reads this
    {
      (lastGetKey, optimizedInserts, canUseLastKey)
    }

    function View(): (int, bool)
      reads this
    {
      (accessAddress, hasFullPagesAlongPath)
    }

    /** Pages are whole, consecutive, and below the storage's length. */
    ghost predicate StorageOk()
      reads this
    {
      && 0 <= pagesCount && storageLength == pagesCount * cfg.pageSize
      && forall a :: a in file ==> 0 <= a < storageLength
    }

    /** The storage is empty until the root is allocated; from then on the pages form the tree `shape`. */
    ghost predicate StoreOk()
      reads this
    {
      StoreInv(cfg, file, storageLength, pagesCount, height, rootAddress, shape, depth)
    }

    /**
      What a missed `get` leaves for `put`: the view is on the leaf at the
      end of the missed key's route, the key is not stored, and when no full
      page was passed that leaf has room.
    */
    ghost predicate CacheOk()
      reads this
    {
      && rootAddress != UNDEFINED_ADDRESS
      && lastGetKey != 0 && IsInt32(lastGetKey)
      && ValidPath(shape, accessPath) && OnRoute(cfg, shape, file, lastGetKey, accessPath)
      && At(shape, accessPath).Leaf? && At(shape, accessPath).addr == accessAddress
      && accessAddress in file && TableOk(cfg, file[accessAddress])
      && Shapes.Get(cfg, shape, file, lastGetKey) == None
      && (!hasFullPagesAlongPath ==> !IsFull(cfg, file[accessAddress]))
    }

    /**
      The class invariant.  `height` counts the levels a descent has seen;
      it can lag one behind the depth, since a descent that splits the root
      counts the new level one short.  `count` is the number of entries
      the leaves hold, the zero key aside.
    */
    ghost predicate Valid()
      reads this
    {
      && StoreOk() && depth <= height + 1 && (canUseLastKey ==> CacheOk())
      && count == (if rootAddress == UNDEFINED_ADDRESS then 0 else Size(shape, file))
    }

    /** The map the tree stores. */
    ghost function Lookup(k: int): Option<int>
      reads this
    {
      if k == 0 then (if hasZeroKey then Some(zeroKeyValue) else None)
      else if rootAddress == UNDEFINED_ADDRESS then None
      else Shapes.Get(cfg, shape, file, k)
    }

    /** A new, empty tree: no root page yet, nothing stored. */
    constructor (pageSize: int)
      requires 2 <= (pageSize - RESERVED_META_PAGE_LEN) / INTERIOR_SIZE - 1 < 0x7FFF
      requires ((pageSize - RESERVED_META_PAGE_LEN) / INTERIOR_SIZE - 1) % 2 == 0
      ensures Valid() && cfg.pageSize == pageSize
      ensures rootAddress == UNDEFINED_ADDRESS && pagesCount == 0 && count == 0 && height == 0
      ensures forall k :: Lookup(k) == None
    {
      var c := MakeConfig(pageSize);
      cfg := c;
      file := map[];
      storageLength := 0;
      pagesCount := 0;
      height := 0;
      hasZeroKey := false;
      zeroKeyValue := 0;
      rootAddress := UNDEFINED_ADDRESS;
      count := 0;
      movedMembersCount := 0;
      hashedPagesCount := 0;
      maxStepsSearchedInHash := 0;
      totalHashStepsSearched := 0;
      hashSearchRequests := 0;
      accessAddress := UNDEFINED_ADDRESS;
      hasFullPagesAlongPath := false;
      lastGetKey := 0;
      optimizedInserts := 0;
      canUseLastKey := false;
      shape := Leaf(UNDEFINED_ADDRESS);
      depth := 0;
      accessPath := [];
    }

    /** `nextPage`: a new zero page at the end of the storage. */
    method NextPage() returns (pageStart: int)
      modifies this
      requires StorageOk()
      ensures StorageOk()
      ensures pageStart == old(storageLength) && pageStart !in old(file) && 0 <= pageStart
      ensures file == old(file)[pageStart := ZeroPage(cfg)]
      ensures storageLength == old(storageLength) + cfg.pageSize && pagesCount == old(pagesCount) + 1
      ensures Layout() == old(Layout()) && Ghosts() == old(Ghosts()) && Entries() == old(Entries())
      ensures LastGet() == old(LastGet()) && View() == old(View())
      ensures movedMembersCount == old(movedMembersCount) && hashedPagesCount == old(hashedPagesCount)
    {
      pageStart := storageLength;
      file := file[pageStart := ZeroPage(cfg)];
      storageLength := storageLength + cfg.pageSize;
      pagesCount := pagesCount + 1;
    }

    /** The persisted variables, in header order. */
    function PersistedVars(): Persist.Vars
      reads this
    {
      Persist.Vars(height, hasZeroKey, pagesCount, movedMembersCount, maxStepsSearchedInHash, count,
                   hashSearchRequests, totalHashStepsSearched, hashedPagesCount, rootAddress, zeroKeyValue)
    }

    /**
      `persistVars(storage, toDisk)`: the variables take the answers of the
      storage's `persistInt` calls, so a write leaves them as they were when
      the height fits the header, and a read loads them from it.
    */
    method PersistVars(region: Persist.Region, toDisk: bool) returns (region': Persist.Region)
      modifies this
      requires Persist.Int32Vars(PersistedVars())
      requires !toDisk ==> Persist.Readable(region)
      ensures toDisk ==> region' == Persist.Write(region, old(PersistedVars()))
      ensures !toDisk ==> region' == region
      ensures Persist.Readable(region') && PersistedVars() == Persist.Read(region')
      ensures toDisk && Persist.Persistable(old(PersistedVars())) ==> PersistedVars() == old(PersistedVars())
      ensures file == old(file) && storageLength == old(storageLength) && Ghosts() == old(Ghosts())
      ensures LastGet() == old(LastGet()) && View() == old(View())
    {
      var v;
      region', v := Persist.PersistAll(region, PersistedVars(), toDisk);
      LoadTreeVars(v);
      LoadStatistics(v);
    }

    /** The variables of the tree's layout and contents take the values of `v`. */
    method LoadTreeVars(v: Persist.Vars)
      modifies this
      ensures height == v.height && hasZeroKey == v.hasZeroKey && pagesCount == v.pagesCount
      ensures count == v.count && rootAddress == v.rootAddress && zeroKeyValue == v.zeroKeyValue
      ensures movedMembersCount == old(movedMembersCount) && maxStepsSearchedInHash == old(maxStepsSearchedInHash)
      ensures hashSearchRequests == old(hashSearchRequests) && totalHashStepsSearched == old(totalHashStepsSearched)
      ensures hashedPagesCount == old(hashedPagesCount)
      ensures file == old(file) && storageLength == old(storageLength) && Ghosts() == old(Ghosts())
      ensures LastGet() == old(LastGet()) && View() == old(View())
    {
      height, hasZeroKey, pagesCount := v.height, v.hasZeroKey, v.pagesCount;
      count, rootAddress, zeroKeyValue := v.count, v.rootAddress, v.zeroKeyValue;
    }

    /** The statistics take the values of `v`. */
    method LoadStatistics(v: Persist.Vars)
      modifies this
      ensures movedMembersCount == v.movedMembersCount && maxStepsSearchedInHash == v.maxStepsSearchedInHash
      ensures hashSearchRequests == v.hashSearchRequests && totalHashStepsSearched == v.totalHashStepsSearched
      ensures hashedPagesCount == v.hashedPagesCount
      ensures Storage() == old(Storage()) && Layout() == old(Layout()) && Entries() == old(Entries())
      ensures Ghosts() == old(Ghosts()) && LastGet() == old(LastGet()) && View() == old(View())
    {
      movedMembersCount, maxStepsSearchedInHash := v.movedMembersCount, v.maxStepsSearchedInHash;
      hashSearchRequests, totalHashStepsSearched, hashedPagesCount := v.hashSearchRequests, v.totalHashStepsSearched, v.hashedPagesCount;
    }

    /** The search statistics `hashIndex` keeps: one more request, and the probe length when it ended. */
    method RecordHashSearch(status: Status, total: nat)
      modifies this
      ensures Storage() == old(Storage()) && Layout() == old(Layout()) && Ghosts() == old(Ghosts())
      ensures Entries() == old(Entries()) && LastGet() == old(LastGet()) && View() == old(View())
      ensures movedMembersCount == old(movedMembersCount) && hashedPagesCount == old(hashedPagesCount)
      ensures hashSearchRequests == old(hashSearchRequests) + 1
      ensures status.Ok? ==>
                && maxStepsSearchedInHash == (if old(maxStepsSearchedInHash) < total then total else old(maxStepsSearchedInHash))
                && totalHashStepsSearched == old(totalHashStepsSearched) + total
      ensures !status.Ok? ==>
                maxStepsSearchedInHash == old(maxStepsSearchedInHash) && totalHashStepsSearched == old(totalHashStepsSearched)
    {
      hashSearchRequests := hashSearchRequests + 1;
      if status.Ok? {
        maxStepsSearchedInHash := if maxStepsSearchedInHash < total then total else maxStepsSearchedInHash;
        totalHashStepsSearched := totalHashStepsSearched + total;
      }
    }

    /** `hashIndex` on a page of the tree, with the search statistics it keeps. */
    method HashIndexOn(page: seq<int>, key: int) returns (status: Status, index: int, total: nat)
      modifies this
      requires TableOk(cfg, page) && IsInt32(key)
      ensures Storage() == old(Storage()) && Layout() == old(Layout()) && Ghosts() == old(Ghosts())
      ensures Entries() == old(Entries()) && LastGet() == old(LastGet()) && View() == old(View())
      ensures movedMembersCount == old(movedMembersCount) && hashedPagesCount == old(hashedPagesCount)
      ensures status.Ok? ==> total <= cfg.hashPageCapacity && ProbesOccupied(cfg, page, key, total)
      ensures status.Ok? && index >= 0 ==>
                index == Probe(key, cfg.hashPageCapacity, total) && KeyAt(page, index) == key && key != HASH_FREE
      ensures status.Ok? && index < 0 ==>
                -index - 1 == Probe(key, cfg.hashPageCapacity, total) && KeyAt(page, -index - 1) == HASH_FREE
      ensures IsPrimeNumber(cfg.hashPageCapacity) && HasFreeSlot(cfg, page) ==> status.Ok?
      ensures hashSearchRequests == old(hashSearchRequests) + 1
    {
      status, index, total := HashIndex(cfg, page, key);
      RecordHashSearch(status, total);
    }

    /**
      `search` on the page at `a`: in a hashed leaf the slot of `key` (or a
      negative number when it is not stored), elsewhere the binary search
      among the page's keys.
    */
    method Search(a: int, key: int) returns (i: int)
      modifies this
      requires a in file && TableOk(cfg, file[a]) && IsInt32(key)
      requires IsIndexLeaf(file[a]) && IsHashedLeaf(file[a]) ==>
                 HashWf(cfg, file[a]) && LiveCount(cfg, file[a]) < cfg.hashPageCapacity
      requires !(IsIndexLeaf(file[a]) && IsHashedLeaf(file[a])) ==>
                 0 <= Count(file[a]) && 2 * Count(file[a]) + 1 < |file[a]| && SortedKeys(file[a], Count(file[a]))
      ensures Storage() == old(Storage()) && Layout() == old(Layout()) && Ghosts() == old(Ghosts())
      ensures Entries() == old(Entries()) && LastGet() == old(LastGet()) && View() == old(View())
      ensures movedMembersCount == old(movedMembersCount) && hashedPagesCount == old(hashedPagesCount)
      ensures IsIndexLeaf(file[a]) && IsHashedLeaf(file[a]) ==>
                && (0 <= i <==> HashGet(cfg, file[a], key).Some?)
                && (0 <= i ==> i < cfg.hashPageCapacity && KeyAt(file[a], i) == key
                               && HashGet(cfg, file[a], key) == Some(AddressAt(file[a], i)))
      ensures !(IsIndexLeaf(file[a]) && IsHashedLeaf(file[a])) ==>
                && (0 <= i ==> i < Count(file[a]) && KeyAt(file[a], i) == key)
                && (i < 0 ==> InsertionPoint(file[a], Count(file[a]), key, -i - 1))
    {
      if IsIndexLeaf(file[a]) && IsHashedLeaf(file[a]) {
        FreeSlotExists(cfg, file[a]);
        var status, index, total := HashIndexOn(file[a], key);
        // a consistent table below capacity has a free slot, so probing never gives up
        assert status.Ok?;
        HashIndexAgreesWithScan(cfg, file[a], key, index, total);
        return index;
      }
      i := BinarySearch(file[a], Count(file[a]), key);
    }

    /**
      `insert(key, value)` into the page at `a`, which has room and does not
      hold `key`.  A leaf takes its first entry by becoming hashed and then
      stores the entry in its table; an interior page takes the key at its
      insertion point with the child pointer `value` after it.
    */
    method Insert(page: seq<int>, key: int, value: int) returns (r: seq<int>)
      modifies this
      requires TableOk(cfg, page) && IsInt32(key) && Insertable(cfg, page, key)
      ensures TableOk(cfg, r) && r[1] == page[1] && Count(r) == Count(page) + 1
      ensures IsIndexLeaf(r) == IsIndexLeaf(page)
      ensures IsIndexLeaf(page) ==> LeafStore(cfg, page, r, key, value)
      ensures IsIndexLeaf(page) ==> movedMembersCount == old(movedMembersCount)
      ensures !IsIndexLeaf(page) ==>
                && SortedKeys(r, Count(r))
                && forall ip :: InsertionPoint(page, Count(page), key, ip) ==>
                     && InteriorInserted(page, r, Count(page), ip, key, value)
                     && movedMembersCount == old(movedMembersCount) + Count(page) - ip
      ensures hashedPagesCount == old(hashedPagesCount) + (if IsIndexLeaf(page) && Count(page) == 0 then 1 else 0)
      ensures Storage() == old(Storage()) && Layout() == old(Layout()) && Ghosts() == old(Ghosts())
      ensures Entries() == old(Entries()) && LastGet() == old(LastGet()) && View() == old(View())
    {
      var recordCount := Count(page);
      var indexLeaf := IsIndexLeaf(page);
      if indexLeaf {
        if recordCount == 0 {
          hashedPagesCount := hashedPagesCount + 1;
        }
        var status, total;
        r, status, total := InsertIntoHashedLeaf(cfg, page, key, value);
        RecordHashSearch(status, total);
        return;
      }
      var itemsToMove;
      r, itemsToMove := InsertIntoSortedNode(page, key, value);
      movedMembersCount := movedMembersCount + itemsToMove;
      forall ip | InsertionPoint(page, recordCount, key, ip)
        ensures ip == recordCount - itemsToMove
      {
        InsertionPointUnique(page, recordCount, key, ip, recordCount - itemsToMove);
      }
    }

    /**
      One `insert(key, map.get(key))` of a leaf split's refill: the next key
      of the snapshot, with its value, into the half holding the snapshot's
      keys `keys[lo..lo + i]`.
    */
    method RefillOne(page: seq<int>, keys: seq<int>, values: map<int, int>, lo: int, i: int, half: seq<int>)
      returns (half': seq<int>)
      modifies this
      requires TableOk(cfg, page) && IsHashedLeaf(page) && SnapshotOf(cfg, page, keys, values)
      requires forall k :: LeafGet(cfg, page, k).Some? ==> MinKey <= k < KeyBound
      requires 0 <= lo && 0 <= i && lo + i < |keys| && i < cfg.maxLeafNodesInHash
      requires TableOk(cfg, half) && IsIndexLeaf(half) && LeafReady(cfg, half) && Count(half) == i
      requires HoldsKeys(cfg, page, half, keys[lo..][..i])
      ensures TableOk(cfg, half') && IsIndexLeaf(half') && IsHashedLeaf(half') && LeafReady(cfg, half')
      ensures Count(half') == i + 1 && half'[1] == half[1]
      ensures HoldsKeys(cfg, page, half', keys[lo..][..i + 1])
      ensures hashedPagesCount == old(hashedPagesCount) + (if i == 0 then 1 else 0)
      ensures movedMembersCount == old(movedMembersCount)
      ensures Storage() == old(Storage()) && Layout() == old(Layout()) && Ghosts() == old(Ghosts())
      ensures Entries() == old(Entries()) && LastGet() == old(LastGet()) && View() == old(View())
    {
      var key := keys[lo + i];
      assert keys[lo..][..i] == keys[lo..lo + i] && keys[lo..][..i + 1] == keys[lo..lo + i + 1];
      SnapshotKey(cfg, page, keys, values, lo + i);
      RefillStep(cfg, page, keys, lo, i, half, half, values[key]);
      half' := Insert(half, key, values[key]);
      RefillStep(cfg, page, keys, lo, i, half, half', values[key]);
    }

    /**
      The refill loop of a leaf split: key `i` of the snapshot and key
      `avg + i` go into the two emptied halves in turn, so the first half
      ends up with the lower half of the keys and the second with the upper.
    */
    method Refill(page: seq<int>, keys: seq<int>, values: map<int, int>, left0: seq<int>, right0: seq<int>)
      returns (left: seq<int>, right: seq<int>)
      modifies this
      requires TableOk(cfg, page) && IsHashedLeaf(page) && SnapshotOf(cfg, page, keys, values)
      requires forall k :: LeafGet(cfg, page, k).Some? ==> MinKey <= k < KeyBound
      requires |keys| == cfg.maxLeafNodesInHash
      requires TableOk(cfg, left0) && IsIndexLeaf(left0) && LeafReady(cfg, left0) && Count(left0) == 0
      requires TableOk(cfg, right0) && IsIndexLeaf(right0) && LeafReady(cfg, right0) && Count(right0) == 0
      requires HoldsKeys(cfg, page, left0, []) && HoldsKeys(cfg, page, right0, [])
      ensures TableOk(cfg, left) && TableOk(cfg, right) && left[1] == left0[1] && right[1] == right0[1]
      ensures LeafSplitPages(cfg, page, left, right, keys)
      ensures Count(left) == Count(right) == |keys| / 2
      ensures hashedPagesCount == old(hashedPagesCount) + 2
      ensures Storage() == old(Storage()) && Layout() == old(Layout()) && Ghosts() == old(Ghosts())
      ensures Entries() == old(Entries()) && LastGet() == old(LastGet()) && View() == old(View())
    {
      var avg := |keys| / 2;
      left, right := left0, right0;
      for i := 0 to avg
        invariant TableOk(cfg, left) && TableOk(cfg, right) && IsIndexLeaf(left) && IsIndexLeaf(right)
        invariant LeafReady(cfg, left) && LeafReady(cfg, right) && Count(left) == i && Count(right) == i
        invariant left[1] == left0[1] && right[1] == right0[1]
        invariant HoldsKeys(cfg, page, left, keys[..i])
        invariant HoldsKeys(cfg, page, right, keys[avg..][..i])
        invariant i > 0 ==> IsHashedLeaf(left) && IsHashedLeaf(right)
        invariant hashedPagesCount == old(hashedPagesCount) + (if i > 0 then 2 else 0)
        invariant Storage() == old(Storage()) && Layout() == old(Layout()) && Ghosts() == old(Ghosts())
        invariant Entries() == old(Entries()) && LastGet() == old(LastGet()) && View() == old(View())
      {
        left := RefillOne(page, keys, values, 0, i, left);
        right := RefillOne(page, keys, values, avg, i, right);
      }
      RefillDone(cfg, page, left, right, keys, values);
    }

    /**
      The hashed-leaf half of `splitNode`: the full leaf `page` is
      snapshotted, cleaned and refilled with the lower half of its sorted
      keys, while the empty leaf `newPage` takes the upper half; the median
      is the first key of the upper half.
    */
    method SplitLeaf(page: seq<int>, newPage: seq<int>) returns (left: seq<int>, right: seq<int>, medianKey: int, ghost keys: seq<int>)
      modifies this
      requires TableOk(cfg, page) && TableOk(cfg, newPage)
      requires IsIndexLeaf(page) && IsHashedLeaf(page) && HashWf(cfg, page)
      requires Count(page) == LiveCount(cfg, page) == cfg.maxLeafNodesInHash
      requires forall k :: LeafGet(cfg, page, k).Some? ==> MinKey <= k < KeyBound
      requires IsIndexLeaf(newPage) && !IsHashedLeaf(newPage) && LeafReady(cfg, newPage)
      ensures TableOk(cfg, left) && TableOk(cfg, right) && left[1] == page[1] && right[1] == newPage[1]
      ensures LeafSplitPages(cfg, page, left, right, keys)
      ensures 0 < |keys| && medianKey == keys[|keys| / 2]
      ensures |keys| == cfg.maxLeafNodesInHash && Count(left) == Count(right) == |keys| / 2
      ensures hashedPagesCount == old(hashedPagesCount) + 1
      ensures Storage() == old(Storage()) && Layout() == old(Layout()) && Ghosts() == old(Ghosts())
      ensures Entries() == old(Entries()) && LastGet() == old(LastGet()) && View() == old(View())
    {
      var recordCount := Count(page);
      var status, ks, values := Snapshot(cfg, page, recordCount);
      assert status.Ok? && SnapshotOf(cfg, page, ks, values) by {
        SnapshotOfConsistentLeaf(cfg, page, ks, values);
      }
      keys := ks;
      var cleaned := Clean(cfg, page);
      var avg := |ks| / 2;
      medianKey := ks[avg];
      hashedPagesCount := hashedPagesCount - 1;
      left := SetChildrenCount(cleaned, 0);
      right := SetChildrenCount(newPage, 0);
      assert && TableOk(cfg, left) && IsIndexLeaf(left) && LeafReady(cfg, left) && Count(left) == 0
             && TableOk(cfg, right) && IsIndexLeaf(right) && LeafReady(cfg, right) && Count(right) == 0
             && HoldsKeys(cfg, page, left, []) && HoldsKeys(cfg, page, right, [])
             && left[1] == page[1] && right[1] == newPage[1] by {
        CleanedLeaf(cfg, page, cleaned);
        EmptiedLeaf(cfg, page, newPage);
      }
      left, right := Refill(page, ks, values, left, right);
    }

    /**
      The page work of `splitNode` on the full node `page`, once `nextPage`
      has given the new node the address `newAddr`: the new page takes the
      node's leaf flag and its place in the chain of pages after it, and the
      two pages are split as a hashed leaf or as an interior node.  Neither
      half is full.
    */
    method SplitFull(page: seq<int>, newAddr: int) returns (left: seq<int>, right: seq<int>, medianKey: int, ghost keys: seq<int>, ghost mi: int)
      modifies this
      requires TableOk(cfg, page) && IsFull(cfg, page)
      requires IsIndexLeaf(page) ==> LeafReady(cfg, page) && forall k :: LeafGet(cfg, page, k).Some? ==> MinKey <= k < KeyBound
      ensures SplitOf(cfg, page, left, right, medianKey, keys, mi)
      ensures NextPageOf(left) == newAddr && NextPageOf(right) == NextPageOf(page)
      ensures hashedPagesCount == old(hashedPagesCount) + (if IsIndexLeaf(page) then 1 else 0)
      ensures Storage() == old(Storage()) && Layout() == old(Layout()) && Ghosts() == old(Ghosts())
      ensures Entries() == old(Entries()) && LastGet() == old(LastGet()) && View() == old(View())
    {
      var indexLeaf := IsIndexLeaf(page);
      var hashedLeaf := IsHashedLeaf(page);
      var newPage := SetFlag(ZeroPage(cfg), INDEX_LEAF_MASK, indexLeaf);
      var nextPage := NextPageOf(page);
      var linked := SetNextPage(page, newAddr);
      newPage := SetNextPage(newPage, nextPage);
      FreshPage(cfg, indexLeaf, nextPage);
      keys, mi := [], 0;
      if indexLeaf && hashedLeaf {
        LinkedFullLeaf(cfg, page, newAddr);
        left, right, medianKey, keys := SplitLeaf(linked, newPage);
        LinkedLeafSplit(cfg, page, newAddr, left, right, keys);
      } else {
        // a leaf that is not hashed is empty, so only an interior node is full here
        assert !indexLeaf;
        LinkKeepsPage(cfg, page, newAddr);
        left, right, medianKey, mi := SplitInterior(cfg, linked, newPage);
        LinkedInteriorSplit(cfg, page, newAddr, left, right, mi);
      }
    }

    /**
      The first half of `splitNode`, common to both cases: a new page from
      `nextPage`, and the full node the view is on, at the end of `pp`,
      split into two halves and a median, which lies strictly inside the
      node's key range.
    */
    method SplitPages(ghost pp: seq<nat>)
      returns (newIndexNode: int, left: seq<int>, right: seq<int>, medianKey: int, ghost keys: seq<int>, ghost mi: int)
      modifies this
      requires StoreOk() && rootAddress != UNDEFINED_ADDRESS
      requires ValidPath(shape, pp) && At(shape, pp).addr == accessAddress && accessAddress in file
      requires TableOk(cfg, file[accessAddress]) && IsFull(cfg, file[accessAddress])
      ensures StorageOk() && newIndexNode == old(storageLength) && newIndexNode != 0
      ensures file == old(file)[newIndexNode := ZeroPage(cfg)]
      ensures storageLength == old(storageLength) + cfg.pageSize && pagesCount == old(pagesCount) + 1
      ensures SplitOf(cfg, old(file[accessAddress]), left, right, medianKey, keys, mi)
      ensures var b := old(BoundsAt(cfg, shape, file, pp, MinKey, KeyBound)); MinKey <= b.0 < medianKey < b.1 <= KeyBound
      ensures NextPageOf(left) == newIndexNode && NextPageOf(right) == old(NextPageOf(file[accessAddress]))
      ensures hashedPagesCount == old(hashedPagesCount) + (if old(IsIndexLeaf(file[accessAddress])) then 1 else 0)
      ensures Layout() == old(Layout()) && Ghosts() == old(Ghosts()) && Entries() == old(Entries())
      ensures LastGet() == old(LastGet()) && View() == old(View())
    {
      ghost var file0 := file;
      var page := file[accessAddress];
      PageAt(cfg, shape, file, depth, pp);
      newIndexNode := NextPage();
      left, right, medianKey, keys, mi := SplitFull(page, newIndexNode);
      SplitMedian(cfg, shape, file0, depth, pp, left, right, medianKey, keys, mi);
    }

    /**
      The parent half of `splitNode`: `parent.insert(medianKey, -newIndexNode.address)`
      into the parent of the split node `x` (child `c` of the node at the end
      of `q`), with the halves written to their pages.  `file0`, of length
      `len0` in `pages0` pages, is the storage before the split.
    */
    method SplitUnderParent(x: int, newIndexNode: int, parentAddress: int, left: seq<int>, right: seq<int>, medianKey: int,
                            ghost file0: File, ghost len0: int, ghost pages0: int,
                            ghost q: seq<nat>, ghost c: nat, ghost key: int, ghost keys: seq<int>, ghost mi: int)
      returns (parentPage: seq<int>)
      modifies this
      requires StoreInv(cfg, file0, len0, pages0, height, rootAddress, shape, depth) && rootAddress != UNDEFINED_ADDRESS
      requires newIndexNode == len0 && file == file0[newIndexNode := ZeroPage(cfg)]
      requires storageLength == len0 + cfg.pageSize && pagesCount == pages0 + 1
      requires ValidPath(shape, q + [c]) && OnRoute(cfg, shape, file0, key, q + [c])
      requires At(shape, q + [c]).addr == x && x in file0 && SplitOf(cfg, file0[x], left, right, medianKey, keys, mi)
      requires var b := BoundsAt(cfg, shape, file0, q + [c], MinKey, KeyBound); MinKey <= b.0 < medianKey < b.1 <= KeyBound
      requires ValidPath(shape, q) && parentAddress == At(shape, q).addr
      requires parentAddress in file0 && TableOk(cfg, file0[parentAddress]) && !IsFull(cfg, file0[parentAddress])
      ensures StoreOk() && rootAddress == old(rootAddress) && depth == old(depth)
      ensures forall k :: Shapes.Get(cfg, shape, file, k) == Shapes.Get(cfg, old(shape), file0, k)
      ensures RoutesToRoom(cfg, shape, file, q, key) && At(shape, q).addr == parentAddress
      ensures x in file && file[x] == left && newIndexNode in file && file[newIndexNode] == right
      ensures file == file0[newIndexNode := ZeroPage(cfg)][x := left][newIndexNode := right][parentAddress := parentPage]
      ensures ParentAfterSplit(cfg, file0[parentAddress], parentPage, c, medianKey, newIndexNode)
      ensures Size(shape, file) == Size(old(shape), file0)
      ensures storageLength == old(storageLength) && pagesCount == old(pagesCount)
      ensures hashedPagesCount == old(hashedPagesCount) && height == old(height) && accessPath == old(accessPath)
      ensures Entries() == old(Entries()) && LastGet() == old(LastGet()) && View() == old(View())
    {
      ghost var s0, d0, h0 := shape, depth, height;
      ParentRoom(cfg, s0, file0, d0, q, c, medianKey);
      var parent := file[parentAddress];
      assert parent == file0[parentAddress];
      parentPage := InsertMedian(parent, medianKey, newIndexNode, c);
      ghost var s' := ChildSplitStore(cfg, s0, file0, d0, len0, pages0, h0, q, c, key,
                                      medianKey, keys, mi, left, right, parentPage);
      WriteChildSplit(x, newIndexNode, parentAddress, left, right, parentPage, s');
    }

    /**
      `parent.insert(medianKey, -newIndexNode.address)`: the median goes in at
      its insertion point `c` in the parent's page, which is not full, with
      the pointer to the new page after it.
    */
    method InsertMedian(parent: seq<int>, medianKey: int, newIndexNode: int, ghost c: nat) returns (parentPage: seq<int>)
      modifies this
      requires TableOk(cfg, parent) && !IsIndexLeaf(parent) && !IsFull(cfg, parent) && IsInt32(medianKey)
      requires 0 <= c <= Count(parent) && Count(parent) + 1 <= cfg.maxInteriorNodes
      requires InsertionPoint(parent, Count(parent), medianKey, c) && Insertable(cfg, parent, medianKey)
      ensures TableOk(cfg, parentPage) && Count(parent) + 2 <= cfg.maxInteriorNodes
      ensures ParentPage(cfg, parent, parentPage, c, medianKey, newIndexNode)
      ensures movedMembersCount == old(movedMembersCount) + Count(parent) - c
      ensures hashedPagesCount == old(hashedPagesCount)
      ensures Storage() == old(Storage()) && Layout() == old(Layout()) && Ghosts() == old(Ghosts())
      ensures Entries() == old(Entries()) && LastGet() == old(LastGet()) && View() == old(View())
    {
      parentPage := Insert(parent, medianKey, -newIndexNode);
    }

    /**
      The writes that end the parent half of `splitNode`: the halves over the
      split node `x` and the new page, the parent's new page over the parent.
      `s'` is the tree these pages form, as `ChildSplitStore` gives it.
    */
    method WriteChildSplit(x: int, newIndexNode: int, parentAddress: int, left: seq<int>, right: seq<int>, parentPage: seq<int>,
                           ghost s': Shape)
      modifies this
      requires StoreInv(cfg, file[x := left][newIndexNode := right][parentAddress := parentPage],
                        storageLength, pagesCount, height, rootAddress, s', depth)
      ensures StoreOk() && shape == s'
      ensures file == old(file)[x := left][newIndexNode := right][parentAddress := parentPage]
      ensures Storage().1 == old(Storage().1) && Storage().2 == old(Storage().2)
      ensures Layout() == old(Layout()) && depth == old(depth) && accessPath == old(accessPath)
      ensures hashedPagesCount == old(hashedPagesCount)
      ensures Entries() == old(Entries()) && LastGet() == old(LastGet()) && View() == old(View())
    {
      file := file[x := left][newIndexNode := right][parentAddress := parentPage];
      shape := s';
    }

    /**
      The root half of `splitNode`: a new root page from `nextPage` holding
      the median between pointers to the old root `x` and the new page, with
      the halves written to their pages.  `s'` is the tree these pages form,
      as `SplitRootStore` gives it.
    */
    method SplitRoot(x: int, newIndexNode: int, left: seq<int>, right: seq<int>, medianKey: int,
                     ghost s': Shape, ghost ra: int, ghost pages': int)
      returns (newRootAddress: int)
      modifies this
      requires StorageOk() && ra == storageLength && pages' == pagesCount + 1
      requires StoreInv(cfg, file[ra := ZeroPage(cfg)][x := left][newIndexNode := right][ra := NewRootPage(cfg, medianKey, x, newIndexNode)],
                        ra + cfg.pageSize, pages', height, ra, s', depth + 1)
      ensures newRootAddress == old(storageLength) && rootAddress == newRootAddress && shape == s' && depth == old(depth) + 1
      ensures file == old(file)[newRootAddress := ZeroPage(cfg)][x := left][newIndexNode := right][newRootAddress := NewRootPage(cfg, medianKey, x, newIndexNode)]
      ensures StoreOk() && storageLength == old(storageLength) + cfg.pageSize && pagesCount == old(pagesCount) + 1
      ensures hashedPagesCount == old(hashedPagesCount) && height == old(height) && accessPath == old(accessPath)
      ensures Entries() == old(Entries()) && LastGet() == old(LastGet()) && View() == old(View())
    {
      newRootAddress := NextPage();
      file := file[x := left][newIndexNode := right][newRootAddress := NewRootPage(cfg, medianKey, x, newIndexNode)];
      rootAddress := newRootAddress;
      shape, depth := s', depth + 1;
    }

    /**
      `splitNode` on a node below the root, child `c` of the node at the end
      of `q`, whose page is at `parentAddress`.
    */
    method SplitChild(parentAddress: int, ghost pp: seq<nat>, ghost key: int)
      returns (ghost q: seq<nat>, ghost newAddr: int, ghost left: seq<int>, ghost right: seq<int>, ghost parentPage: seq<int>,
               ghost medianKey: int, ghost keys: seq<int>, ghost mi: int)
      modifies this
      requires StoreOk() && rootAddress != UNDEFINED_ADDRESS && MinKey <= key < KeyBound
      requires ValidPath(shape, pp) && At(shape, pp).addr == accessAddress && OnRoute(cfg, shape, file, key, pp)
      requires accessAddress in file && TableOk(cfg, file[accessAddress]) && IsFull(cfg, file[accessAddress])
      requires |pp| > 0 && ValidPath(shape, pp[..|pp| - 1]) && parentAddress == At(shape, pp[..|pp| - 1]).addr
      requires parentAddress in file && TableOk(cfg, file[parentAddress]) && !IsFull(cfg, file[parentAddress])
      ensures StoreOk() && rootAddress == old(rootAddress) && depth == old(depth)
      ensures forall k :: Shapes.Get(cfg, shape, file, k) == old(Shapes.Get(cfg, shape, file, k))
      ensures q == pp[..|pp| - 1] && RoutesToRoom(cfg, shape, file, q, key) && At(shape, q).addr == parentAddress
      ensures newAddr == old(storageLength) && accessAddress in file && newAddr in file
      ensures TableOk(cfg, file[accessAddress]) && TableOk(cfg, file[newAddr])
      ensures NextPageOf(file[accessAddress]) == newAddr && NextPageOf(file[newAddr]) == old(NextPageOf(file[accessAddress]))
      ensures hashedPagesCount == old(hashedPagesCount) + (if old(IsIndexLeaf(file[accessAddress])) then 1 else 0)
      ensures SplitOf(cfg, old(file[accessAddress]), left, right, medianKey, keys, mi)
      ensures ParentAfterSplit(cfg, old(file[parentAddress]), parentPage, pp[|pp| - 1], medianKey, newAddr)
      ensures file == old(file)[newAddr := ZeroPage(cfg)][accessAddress := left][newAddr := right][parentAddress := parentPage]
      ensures pagesCount == old(pagesCount) + 1 && file.Keys == old(file.Keys) + {newAddr}
      ensures file[accessAddress] == left && file[newAddr] == right && parentAddress in file && file[parentAddress] == parentPage
      ensures forall a :: a in old(file) && a != accessAddress && a != parentAddress ==> file[a] == old(file[a])
      ensures Size(shape, file) == old(Size(shape, file))
      ensures height == old(height) && accessPath == old(accessPath)
      ensures Entries() == old(Entries()) && LastGet() == old(LastGet()) && View() == old(View())
    {
      ghost var file0, len0, pages0 := file, storageLength, pagesCount;
      q := pp[..|pp| - 1];
      ghost var c := pp[|pp| - 1];
      assert pp == q + [c];
      var x := accessAddress;
      var newIndexNode, l, r, m;
      newIndexNode, l, r, m, keys, mi := SplitPages(pp);
      newAddr, left, right, medianKey := newIndexNode, l, r, m;
      parentPage := SplitUnderParent(x, newIndexNode, parentAddress, l, r, m, file0, len0, pages0, q, c, key, keys, mi);
    }

    /**
      `splitNode(0)` on the root: the new root is above the two halves.
    */
    method SplitAtRoot(ghost key: int)
      returns (newRoot: int, ghost newAddr: int, ghost left: seq<int>, ghost right: seq<int>,
               ghost medianKey: int, ghost keys: seq<int>, ghost mi: int)
      modifies this
      requires StoreOk() && rootAddress != UNDEFINED_ADDRESS && MinKey <= key < KeyBound
      requires shape.addr == accessAddress
      requires accessAddress in file && TableOk(cfg, file[accessAddress]) && IsFull(cfg, file[accessAddress])
      ensures StoreOk() && rootAddress != UNDEFINED_ADDRESS
      ensures forall k :: Shapes.Get(cfg, shape, file, k) == old(Shapes.Get(cfg, shape, file, k))
      ensures RoutesToRoom(cfg, shape, file, [], key) && shape.addr == newRoot && newRoot != 0
      ensures newRoot == rootAddress && depth == old(depth) + 1
      ensures newAddr == old(storageLength) && accessAddress in file && newAddr in file
      ensures TableOk(cfg, file[accessAddress]) && TableOk(cfg, file[newAddr])
      ensures NextPageOf(file[accessAddress]) == newAddr && NextPageOf(file[newAddr]) == old(NextPageOf(file[accessAddress]))
      ensures hashedPagesCount == old(hashedPagesCount) + (if old(IsIndexLeaf(file[accessAddress])) then 1 else 0)
      ensures SplitOf(cfg, old(file[accessAddress]), left, right, medianKey, keys, mi)
      ensures newRoot == newAddr + cfg.pageSize && pagesCount == old(pagesCount) + 2
      ensures file == old(file)[newAddr := ZeroPage(cfg)][newRoot := ZeroPage(cfg)][accessAddress := left][newAddr := right]
                                [newRoot := NewRootPage(cfg, medianKey, accessAddress, newAddr)]
      ensures file.Keys == old(file.Keys) + {newAddr, newRoot}
      ensures file[accessAddress] == left && file[newAddr] == right && file[newRoot] == NewRootPage(cfg, medianKey, accessAddress, newAddr)
      ensures forall a :: a in old(file) && a != accessAddress ==> file[a] == old(file[a])
      ensures Size(shape, file) == old(Size(shape, file))
      ensures height == old(height) && accessPath == old(accessPath)
      ensures Entries() == old(Entries()) && LastGet() == old(LastGet()) && View() == old(View())
    {
      ghost var file0, len0, pages0 := file, storageLength, pagesCount;
      var x := accessAddress;
      var newIndexNode, l, r, m;
      newIndexNode, l, r, m, keys, mi := SplitPages([]);
      newAddr, left, right, medianKey := newIndexNode, l, r, m;
      newRoot := GrowRoot(x, newIndexNode, l, r, m, file0, len0, pages0, key, keys, mi);
    }

    /**
      The root half of `splitNode`, once the root `x` is split into `left`
      and `right` with the new page at `newIndexNode`: a new root above the
      halves.  `file0`, of length `len0` in `pages0` pages, is the storage
      before the split.
    */
    method GrowRoot(x: int, newIndexNode: int, left: seq<int>, right: seq<int>, medianKey: int,
                    ghost file0: File, ghost len0: int, ghost pages0: int, ghost key: int, ghost keys: seq<int>, ghost mi: int)
      returns (newRoot: int)
      modifies this
      requires StoreInv(cfg, file0, len0, pages0, height, rootAddress, shape, depth) && rootAddress != UNDEFINED_ADDRESS
      requires newIndexNode == len0 && file == file0[newIndexNode := ZeroPage(cfg)]
      requires storageLength == len0 + cfg.pageSize && pagesCount == pages0 + 1
      requires StorageOk() && shape.addr == x && SplitOf(cfg, file0[x], left, right, medianKey, keys, mi)
      ensures StoreOk() && rootAddress != UNDEFINED_ADDRESS
      ensures forall k :: Shapes.Get(cfg, shape, file, k) == Shapes.Get(cfg, old(shape), file0, k)
      ensures RoutesToRoom(cfg, shape, file, [], key) && shape.addr == newRoot && newRoot != 0
      ensures newRoot == rootAddress && depth == old(depth) + 1
      ensures x in file && file[x] == left && newIndexNode in file && file[newIndexNode] == right
      ensures newRoot == len0 + cfg.pageSize && pagesCount == pages0 + 2
      ensures Size(shape, file) == Size(old(shape), file0)
      ensures file == file0[newIndexNode := ZeroPage(cfg)][newRoot := ZeroPage(cfg)][x := left][newIndexNode := right]
                          [newRoot := NewRootPage(cfg, medianKey, x, newIndexNode)]
      ensures hashedPagesCount == old(hashedPagesCount) && height == old(height) && accessPath == old(accessPath)
      ensures Entries() == old(Entries()) && LastGet() == old(LastGet()) && View() == old(View())
    {
      ghost var s' := SplitRootStore(cfg, shape, file0, depth, len0, pages0, height, key, medianKey, keys, mi, left, right);
      newRoot := SplitRoot(x, newIndexNode, left, right, medianKey, s', len0 + cfg.pageSize, pages0 + 2);
    }

    /**
      `splitNode(parentAddress)` on the full node the view is on, at the end
      of `pp` on the route of `key`: a new page from `nextPage` takes the
      upper half of the node and the place after it in the chain of pages;
      the median goes into the parent, or, when the node is the root (the
      parent address is 0), into a new root page above the two halves.  The
      result is the parent's address, the node the descent goes on from;
      it routes `key` to a half, which has room.
    */
    method SplitNode(parentAddress: int, ghost pp: seq<nat>, ghost key: int)
      returns (newParent: int, ghost q: seq<nat>, ghost newAddr: int, ghost medianKey: int, ghost keys: seq<int>, ghost mi: int)
      modifies this
      requires StoreOk() && rootAddress != UNDEFINED_ADDRESS && MinKey <= key < KeyBound
      requires ValidPath(shape, pp) && At(shape, pp).addr == accessAddress && OnRoute(cfg, shape, file, key, pp)
      requires accessAddress in file && TableOk(cfg, file[accessAddress]) && IsFull(cfg, file[accessAddress])
      requires |pp| == 0 ==> parentAddress == 0
      requires |pp| > 0 ==>
                 && ValidPath(shape, pp[..|pp| - 1]) && parentAddress == At(shape, pp[..|pp| - 1]).addr
                 && parentAddress in file && TableOk(cfg, file[parentAddress]) && !IsFull(cfg, file[parentAddress])
      ensures StoreOk() && rootAddress != UNDEFINED_ADDRESS
      ensures forall k :: Shapes.Get(cfg, shape, file, k) == old(Shapes.Get(cfg, shape, file, k))
      ensures q == if |pp| > 0 then pp[..|pp| - 1] else []
      ensures RoutesToRoom(cfg, shape, file, q, key) && At(shape, q).addr == newParent && newParent != 0
      ensures |pp| > 0 ==> newParent == parentAddress && rootAddress == old(rootAddress) && depth == old(depth)
      ensures |pp| == 0 ==> newParent == rootAddress && depth == old(depth) + 1
      ensures newAddr == old(storageLength) && accessAddress in file && newAddr in file
      ensures TableOk(cfg, file[accessAddress]) && TableOk(cfg, file[newAddr])
      ensures NextPageOf(file[accessAddress]) == newAddr && NextPageOf(file[newAddr]) == old(NextPageOf(file[accessAddress]))
      ensures hashedPagesCount == old(hashedPagesCount) + (if old(IsIndexLeaf(file[accessAddress])) then 1 else 0)
      ensures SplitOf(cfg, old(file[accessAddress]), file[accessAddress], file[newAddr], medianKey, keys, mi)
      ensures |pp| > 0 ==>
                && pagesCount == old(pagesCount) + 1 && parentAddress in file
                && ParentAfterSplit(cfg, old(file[parentAddress]), file[parentAddress], pp[|pp| - 1], medianKey, newAddr)
      ensures |pp| == 0 ==>
                && pagesCount == old(pagesCount) + 2 && rootAddress == newAddr + cfg.pageSize
                && file[rootAddress] == NewRootPage(cfg, medianKey, accessAddress, newAddr)
      ensures |pp| > 0 ==> file.Keys == old(file.Keys) + {newAddr}
      ensures |pp| == 0 ==> file.Keys == old(file.Keys) + {newAddr, rootAddress}
      ensures forall a :: a in old(file) && a != accessAddress && (|pp| == 0 || a != parentAddress) ==> file[a] == old(file[a])
      ensures Size(shape, file) == old(Size(shape, file))
      ensures height == old(height) && accessPath == old(accessPath)
      ensures Entries() == old(Entries()) && LastGet() == old(LastGet()) && View() == old(View())
    {
      if |pp| > 0 {
        PathParent(shape, pp);
        NodeNotAtZero(cfg, shape, file, depth, pp[..|pp| - 1]);
      }
      if parentAddress != 0 {
        ghost var left, right, parentPage;
        q, newAddr, left, right, parentPage, medianKey, keys, mi := SplitChild(parentAddress, pp, key);
        newParent := parentAddress;
      } else {
        ghost var left, right;
        newParent, newAddr, left, right, medianKey, keys, mi := SplitAtRoot(key);
        q := [];
      }
    }

    /** The view is on a page of the route of `key`, reached by the path `p`. */
    ghost predicate Descent(key: int, p: seq<nat>)
      reads this
    {
      && StoreOk() && rootAddress != UNDEFINED_ADDRESS && MinKey <= key < KeyBound
      && ValidPath(shape, p) && OnRoute(cfg, shape, file, key, p) && At(shape, p).addr == accessAddress
      && accessAddress in file && TableOk(cfg, file[accessAddress])
    }

    /** `parentAddress` is the page above the end of `p`, or 0 at the root. */
    ghost predicate ParentOn(p: seq<nat>, parentAddress: int)
      reads this
    {
      && (|p| == 0 ==> parentAddress == 0)
      && (|p| > 0 ==>
            && ValidPath(shape, p[..|p| - 1]) && parentAddress == At(shape, p[..|p| - 1]).addr
            && parentAddress in file && TableOk(cfg, file[parentAddress]))
    }

    /**
      The search on the view's page during a descent: on a leaf it answers
      the lookup of `key`; on an interior page it finds `key` among the keys
      or gives its insertion point.
    */
    method SearchOnRoute(ghost p: seq<nat>, key: int) returns (i: int)
      modifies this
      requires Descent(key, p)
      ensures Storage() == old(Storage()) && Layout() == old(Layout()) && Ghosts() == old(Ghosts())
      ensures Entries() == old(Entries()) && LastGet() == old(LastGet()) && View() == old(View())
      ensures |p| < depth
      ensures IsIndexLeaf(file[accessAddress]) ==>
                && At(shape, p).Leaf? && |p| + 1 == depth
                && (0 <= i <==> Shapes.Get(cfg, shape, file, key).Some?)
                && (0 <= i ==> i < cfg.hashPageCapacity && KeyAt(file[accessAddress], i) == key
                               && Shapes.Get(cfg, shape, file, key) == Some(AddressAt(file[accessAddress], i)))
      ensures !IsIndexLeaf(file[accessAddress]) ==>
                && 0 <= Count(file[accessAddress]) && 2 * Count(file[accessAddress]) + 3 < |file[accessAddress]|
                && (0 <= i ==> i < Count(file[accessAddress]) && KeyAt(file[accessAddress], i) == key)
                && (i < 0 ==> InsertionPoint(file[accessAddress], Count(file[accessAddress]), key, -i - 1))
    {
      SearchReady(cfg, shape, file, depth, p);
      i := Search(accessAddress, key);
      if IsIndexLeaf(file[accessAddress]) {
        LeafSearch(cfg, shape, file, depth, p, key, i);
      }
    }

    /**
      The step down from an interior page: the child the search answer `i`
      names becomes the view's page, and the page left is returned as the
      parent.
    */
    method StepDown(ghost p: seq<nat>, key: int, i: int) returns (parentAddress: int, ghost c: nat)
      modifies this
      requires Descent(key, p) && !IsIndexLeaf(file[accessAddress])
      requires 0 <= Count(file[accessAddress]) && 2 * Count(file[accessAddress]) + 3 < |file[accessAddress]|
      requires 0 <= i ==> i < Count(file[accessAddress]) && KeyAt(file[accessAddress], i) == key
      requires i < 0 ==> InsertionPoint(file[accessAddress], Count(file[accessAddress]), key, -i - 1)
      ensures Descent(key, p + [c]) && ParentOn(p + [c], parentAddress) && |p| + 1 < depth
      ensures parentAddress == old(accessAddress) && c == if i < 0 then -i - 1 else i + 1
      ensures accessAddress == -AddressAt(file[old(accessAddress)], c)
      ensures RoutesToRoom(cfg, shape, file, p, key) ==> !IsFull(cfg, file[accessAddress])
      ensures Storage() == old(Storage()) && Layout() == old(Layout()) && Ghosts() == old(Ghosts())
      ensures Entries() == old(Entries()) && LastGet() == old(LastGet())
      ensures hasFullPagesAlongPath == old(hasFullPagesAlongPath)
    {
      c := RouteStep(cfg, shape, file, depth, p, key, i);
      var address := if i < 0 then AddressAt(file[accessAddress], -i - 1) else AddressAt(file[accessAddress], i + 1);
      parentAddress := accessAddress;
      accessAddress := -address;
    }

    /**
      The check of a full page at the top of each step of the descent.  With
      `split` the page is split, and the view goes to the page the split
      returns, the parent (a new root when the page was the root) whose route
      child now has room; without, the view records that it passed a full page.
    */
    method MakeRoom(split: bool, parentAddress: int, ghost p: seq<nat>, key: int) returns (newParent: int, didSplit: bool, ghost q: seq<nat>)
      modifies this
      requires Descent(key, p) && ParentOn(p, parentAddress)
      requires split && |p| > 0 && IsFull(cfg, file[accessAddress]) ==> !IsFull(cfg, file[parentAddress])
      ensures Descent(key, q)
      ensures forall k :: Shapes.Get(cfg, shape, file, k) == old(Shapes.Get(cfg, shape, file, k))
      ensures didSplit == (split && old(IsFull(cfg, file[accessAddress])))
      ensures Size(shape, file) == old(Size(shape, file))
      ensures didSplit ==> RoutesToRoom(cfg, shape, file, q, key) && q == (if |p| > 0 then p[..|p| - 1] else [])
      ensures didSplit && |p| > 0 ==> depth == old(depth) && rootAddress == old(rootAddress)
      ensures didSplit && |p| == 0 ==> depth == old(depth) + 1
      ensures !didSplit ==> && q == p && newParent == parentAddress
                            && Storage() == old(Storage()) && Ghosts() == old(Ghosts()) && rootAddress == old(rootAddress)
                            && accessAddress == old(accessAddress)
      ensures hasFullPagesAlongPath == (old(hasFullPagesAlongPath) || (!split && old(IsFull(cfg, file[accessAddress]))))
      ensures height == old(height) && accessPath == old(accessPath)
      ensures Entries() == old(Entries()) && LastGet() == old(LastGet())
    {
      newParent, didSplit, q := parentAddress, false, p;
      if IsFull(cfg, file[accessAddress]) {
        if split {
          ghost var newAddr, medianKey, keys, mi;
          newParent, q, newAddr, medianKey, keys, mi := SplitNode(parentAddress, p, key);
          if newParent != 0 {
            accessAddress := newParent;
          }
          didSplit := true;
        } else {
          hasFullPagesAlongPath := true;
        }
      }
    }

    /** The end of a descent: `height` is raised to the count of pages searched, and the view's route is `p`. */
    method RecordDescent(searched: int, ghost key: int, ghost p: seq<nat>)
      modifies this
      requires Descent(key, p)
      ensures Descent(key, accessPath) && accessPath == p
      ensures height == if old(height) < searched then searched else old(height)
      ensures Storage() == old(Storage()) && rootAddress == old(rootAddress) && shape == old(shape) && depth == old(depth)
      ensures Entries() == old(Entries()) && LastGet() == old(LastGet()) && View() == old(View())
    {
      height := if height < searched then searched else height;
      accessPath := p;
    }

    /**
      `locate(key, split)`: the descent from the root, where the view starts,
      to the leaf on the route of `key`, searching each page on the way.
      With `split`, a full page met is split first and the descent goes on
      from the page the split returns (a split root grows a level the count
      of searched pages does not see); without, a full page only marks the
      view.  `height` is raised to the count of pages searched, which the
      descent checks against one more than the height it started with.  The
      result is the leaf's search answer: the slot holding `key`, or a
      negative number when the tree does not hold it.
    */
    method Locate(key: int, split: bool) returns (index: int)
      modifies this
      requires StoreOk() && rootAddress != UNDEFINED_ADDRESS && depth <= height + 1
      requires key != 0 && IsInt32(key)
      requires accessAddress == rootAddress && !hasFullPagesAlongPath
      ensures Descent(key, accessPath) && At(shape, accessPath).Leaf? && depth <= height + 1
      ensures forall k :: Shapes.Get(cfg, shape, file, k) == old(Shapes.Get(cfg, shape, file, k))
      ensures Size(shape, file) == old(Size(shape, file))
      ensures 0 <= index <==> Shapes.Get(cfg, shape, file, key).Some?
      ensures 0 <= index ==> index < cfg.hashPageCapacity && KeyAt(file[accessAddress], index) == key
                             && Shapes.Get(cfg, shape, file, key) == Some(AddressAt(file[accessAddress], index))
      ensures IsFull(cfg, file[accessAddress]) ==> !split && hasFullPagesAlongPath
      ensures !split ==> Storage() == old(Storage()) && shape == old(shape) && depth == old(depth) && rootAddress == old(rootAddress)
      ensures depth == old(depth) || (split && depth == old(depth) + 1)
      ensures var searched := |accessPath| + 1 - (depth - old(depth));
        height == if old(height) < searched then searched else old(height)
      ensures Entries() == old(Entries()) && LastGet() == old(LastGet())
    {
      ghost var s0, f0, d0, r0, st0, e0, g0 := shape, file, depth, rootAddress, Storage(), Entries(), LastGet();
      var searched := 0;
      var parentAddress := 0;
      var maxHeight := height + 1;
      ghost var p: seq<nat> := [];
      ghost var rs := 0;
      PageAt(cfg, shape, file, depth, []);
      while true
        invariant Descent(key, p) && ParentOn(p, parentAddress)
        invariant 0 <= rs <= 1 && depth == d0 + rs && (!split ==> rs == 0)
        invariant height == old(height) && maxHeight == height + 1 && d0 <= maxHeight
        invariant searched == |p| - rs
        invariant split && |p| > 0 && IsFull(cfg, file[accessAddress]) ==> !IsFull(cfg, file[parentAddress])
        invariant forall k :: Shapes.Get(cfg, shape, file, k) == Shapes.Get(cfg, s0, f0, k)
        invariant Size(shape, file) == Size(s0, f0)
        invariant !split ==> Storage() == st0 && shape == s0 && rootAddress == r0
        invariant Entries() == e0 && LastGet() == g0
        decreases depth - |p|, if split && IsFull(cfg, file[accessAddress]) then 1 else 0
      {
        var didSplit;
        ghost var q;
        parentAddress, didSplit, q := MakeRoom(split, parentAddress, p, key);
        if didSplit {
          searched := searched - 1;
          if |p| == 0 {
            rs := 1;
          }
        }
        p := q;
        var i := SearchOnRoute(p, key);
        searched := searched + 1;
        if searched > maxHeight {
          assert false;
        }
        if IsIndexLeaf(file[accessAddress]) {
          RecordDescent(searched, key, p);
          return i;
        }
        ghost var c;
        parentAddress, c := StepDown(p, key, i);
        p := p + [c];
      }
    }

    /** `initAccessNodeView`: the view starts a traversal at the root, with no full page passed yet. */
    method InitAccessNodeView()
      modifies this
      ensures accessAddress == rootAddress && !hasFullPagesAlongPath && accessPath == []
      ensures Storage() == old(Storage()) && Layout() == old(Layout()) && shape == old(shape) && depth == old(depth)
      ensures Entries() == old(Entries()) && LastGet() == old(LastGet())
    {
      hasFullPagesAlongPath := false;
      accessAddress := rootAddress;
      accessPath := [];
    }

    /** `doAllocateRoot`: the first page of the storage, set to be a leaf, becomes the root; the tree maps nothing. */
    method DoAllocateRoot()
      modifies this
      requires StoreOk() && rootAddress == UNDEFINED_ADDRESS
      ensures StoreOk() && rootAddress == 0 && depth == 1 && pagesCount == 1
      ensures forall k :: Shapes.Get(cfg, shape, file, k) == None
      ensures Size(shape, file) == 0
      ensures height == old(height) && Entries() == old(Entries()) && LastGet() == old(LastGet()) && View() == old(View())
    {
      var pageStart := NextPage();
      rootAddress := 0;
      EmptyRootLeaf(cfg);
      file := file[rootAddress := SetFlag(file[rootAddress], INDEX_LEAF_MASK, true)];
      shape := Leaf(rootAddress);
      depth := 1;
    }

    /**
      `insert(key, value)` on the view's page, the leaf on the route of
      `key`, which does not hold `key` and has room: the tree then maps
      `key` to `value` and every other key as before.
    */
    method InsertAtView(key: int, value: int)
      modifies this
      requires Descent(key, accessPath) && At(shape, accessPath).Leaf? && key != 0 && IsInt32(value)
      requires Shapes.Get(cfg, shape, file, key) == None && !IsFull(cfg, file[accessAddress])
      ensures StoreOk() && rootAddress == old(rootAddress) && depth == old(depth)
      ensures forall k :: Shapes.Get(cfg, shape, file, k) == if k == key then Some(value) else old(Shapes.Get(cfg, shape, file, k))
      ensures Size(shape, file) == old(Size(shape, file)) + 1
      ensures height == old(height) && storageLength == old(storageLength) && pagesCount == old(pagesCount)
      ensures Entries() == old(Entries()) && LastGet() == old(LastGet()) && View() == old(View())
    {
      PageAt(cfg, shape, file, depth, accessPath);
      RouteGet(cfg, shape, file, depth, accessPath, key);
      var page := Insert(file[accessAddress], key, value);
      LeafUpdate(cfg, shape, file, depth, accessPath, key, value, page);
      LeafWriteSize(cfg, shape, file, depth, accessPath, page);
      file := file[accessAddress := page];
    }

    /**
      `setAddressAt(index, value)` on the view's page, the leaf on the route
      of `key` whose slot `index` holds `key`: the tree then maps `key` to
      `value` and every other key as before.
    */
    method SetAddressAtView(index: int, value: int, ghost key: int)
      modifies this
      requires Descent(key, accessPath) && At(shape, accessPath).Leaf? && IsInt32(value)
      requires 0 <= index < cfg.hashPageCapacity && KeyAt(file[accessAddress], index) == key
      requires Shapes.Get(cfg, shape, file, key) == Some(AddressAt(file[accessAddress], index))
      ensures StoreOk() && rootAddress == old(rootAddress) && depth == old(depth)
      ensures forall k :: Shapes.Get(cfg, shape, file, k) == if k == key then Some(value) else old(Shapes.Get(cfg, shape, file, k))
      ensures Size(shape, file) == old(Size(shape, file))
      ensures height == old(height) && storageLength == old(storageLength) && pagesCount == old(pagesCount)
      ensures Entries() == old(Entries()) && LastGet() == old(LastGet()) && View() == old(View())
    {
      PageAt(cfg, shape, file, depth, accessPath);
      RouteGet(cfg, shape, file, depth, accessPath, key);
      var page := file[accessAddress];
      UpdateInTable(cfg, page, index, value);
      LeafUpdate(cfg, shape, file, depth, accessPath, key, value, SetAddressAt(page, index, value));
      LeafWriteSize(cfg, shape, file, depth, accessPath, SetAddressAt(page, index, value));
      file := file[accessAddress := SetAddressAt(page, index, value)];
    }

    /**
      `get(key)`: whether the tree maps `key`, and to what.  A miss below
      the root leaves the view on the key's leaf and remembers the key, so
      that a `put` of it can insert there without a second descent.
    */
    method Get(key: int) returns (found: bool, result: int)
      modifies this
      requires Valid() && IsInt32(key)
      ensures Valid()
      ensures found <==> old(Lookup(key)).Some?
      ensures found ==> old(Lookup(key)) == Some(result)
      ensures forall k :: Lookup(k) == old(Lookup(k))
      ensures Entries() == old(Entries())
    {
      if key == 0 {
        if hasZeroKey {
          return true, zeroKeyValue;
        }
        return false, 0;
      }
      if rootAddress == UNDEFINED_ADDRESS {
        return false, 0;
      }
      InitAccessNodeView();
      var index := Locate(key, false);
      if index < 0 {
        canUseLastKey := true;
        lastGetKey := key;
        return false, 0;
      }
      canUseLastKey := false;
      result := AddressAt(file[accessAddress], index);
      found := true;
    }

    /**
      `put(key, value)`: afterwards the tree maps `key` to `value` and every
      other key as before; a new key other than 0 is counted.  Right after
      a `get` of the same key missed, with no full page on its route, the
      entry goes straight into the leaf that `get` found.
    */
    method Put(key: int, value: int)
      modifies this
      requires Valid() && IsInt32(key) && IsInt32(value)
      ensures Valid()
      ensures Lookup(key) == Some(value)
      ensures forall k :: k != key ==> Lookup(k) == old(Lookup(k))
      ensures count == old(count) + (if key != 0 && old(Lookup(key)).None? then 1 else 0)
      ensures key == 0 ==> Storage() == old(Storage()) && Layout() == old(Layout()) && Ghosts() == old(Ghosts())
      ensures key == 0 ==> LastGet() == old(LastGet()) && View() == old(View())
      ensures key != 0 ==> !canUseLastKey
    {
      if key == 0 {
        hasZeroKey := true;
        zeroKeyValue := value;
        return;
      }
      var canUseLastKey' := canUseLastKey;
      if canUseLastKey' {
        canUseLastKey := false;
        if key == lastGetKey && !hasFullPagesAlongPath {
          optimizedInserts := optimizedInserts + 1;
          count := count + 1;
          InsertAtView(key, value);
          return;
        }
      }
      DoPut(key, value);
    }

    /** `doPut(key, value)`: the descent that splits full pages, then the store into the leaf it ends at. */
    method DoPut(key: int, value: int)
      modifies this
      requires Valid() && !canUseLastKey && key != 0 && IsInt32(key) && IsInt32(value)
      ensures Valid() && !canUseLastKey && rootAddress != UNDEFINED_ADDRESS
      ensures forall k :: k != 0 ==> Lookup(k) == if k == key then Some(value) else old(Lookup(k))
      ensures count == old(count) + (if old(Lookup(key)).None? then 1 else 0)
      ensures hasZeroKey == old(hasZeroKey) && zeroKeyValue == old(zeroKeyValue)
    {
      if rootAddress == UNDEFINED_ADDRESS {
        DoAllocateRoot();
      }
      InitAccessNodeView();
      var index := Locate(key, true);
      if index < 0 {
        count := count + 1;
        InsertAtView(key, value);
      } else {
        SetAddressAtView(index, value, key);
      }
    }

    /**
      The view's `processMappings` on the leaf page at `a`: the pairs of its
      table in slot order (of its sorted slots when it is not hashed),
      offered to the processor until it refuses one.
    */
    method ProcessLeaf(a: int, accept: (int, int) -> bool) returns (ok: bool, calls: seq<Pair>)
      requires a in file && TableOk(cfg, file[a]) && IsIndexLeaf(file[a])
      ensures (ok, calls) == Visit(LeafPairs(cfg, file[a]), accept)
    {
      var page := file[a];
      calls := [];
      if IsHashedLeaf(page) {
        ResumeStart(LivePairsFrom(cfg, page, 0), accept);
        for i := 0 to cfg.hashPageCapacity
          invariant Visit(LeafPairs(cfg, page), accept) == Resume(calls, LivePairsFrom(cfg, page, i), accept)
        {
          var key := KeyAt(page, i);
          if key != HASH_FREE {
            ResumeStep(calls, (key, AddressAt(page, i)), LivePairsFrom(cfg, page, i + 1), accept);
            calls := calls + [(key, AddressAt(page, i))];
            if !accept(key, AddressAt(page, i)) {
              return false, calls;
            }
          }
        }
        ResumeEnd(calls, accept);
        return true, calls;
      }
      if !CountFits(page) {
        return true, calls;
      }
      var childrenCount := Count(page);
      ResumeStart(SlotPairsFrom(page, 0, childrenCount), accept);
      for i := 0 to childrenCount
        invariant Visit(LeafPairs(cfg, page), accept) == Resume(calls, SlotPairsFrom(page, i, childrenCount), accept)
      {
        ResumeStep(calls, (KeyAt(page, i), AddressAt(page, i)), SlotPairsFrom(page, i + 1, childrenCount), accept);
        calls := calls + [(KeyAt(page, i), AddressAt(page, i))];
        if !accept(KeyAt(page, i), AddressAt(page, i)) {
          return false, calls;
        }
      }
      ResumeEnd(calls, accept);
      return true, calls;
    }

    /**
      `processLeafPages` from the page at `a`, the root of the well-formed
      shape `s`: a leaf offers its pairs, an interior page its children's
      pairs child by child, until the processor refuses one.
    */
    method ProcessLeafPages(a: int, ghost s: Shape, ghost lo: int, ghost hi: int, ghost d: nat, accept: (int, int) -> bool)
      returns (ok: bool, calls: seq<Pair>)
      requires Wf(cfg, s, file, lo, hi, d) && s.addr == a
      ensures (ok, calls) == Visit(TreePairs(cfg, s, file), accept)
      decreases s
    {
      var page := file[a];
      if IsIndexLeaf(page) {
        ok, calls := ProcessLeaf(a, accept);
        return;
      }
      NodeParts(cfg, s, file, lo, hi, d);
      var childrenAddresses := seq(Count(page) + 1, i requires 0 <= i <= Count(page) => -AddressAt(page, i));
      calls := [];
      ResumeStart(KidsPairs(cfg, s.kids, file), accept);
      assert s.kids[0..] == s.kids;
      for i := 0 to |childrenAddresses|
        invariant Visit(TreePairs(cfg, s, file), accept) == Resume(calls, KidsPairs(cfg, s.kids[i..], file), accept)
      {
        var ok', calls' := ProcessLeafPages(childrenAddresses[i], s.kids[i], KidLo(page, i, lo),
                                            KidHi(page, Count(page), i, hi), d - 1, accept);
        assert s.kids[i..][1..] == s.kids[i + 1..];
        ResumeAppend(calls, TreePairs(cfg, s.kids[i], file), KidsPairs(cfg, s.kids[i + 1..], file), accept);
        calls := calls + calls';
        if !ok' {
          return false, calls;
        }
      }
      ResumeEnd(calls, accept);
      return true, calls;
    }

    /** Everything `processMappings` can offer: the zero key's pair first, then the tree's pairs. */
    ghost function AllPairs(): seq<Pair>
      reads this
    {
      (if hasZeroKey then [(0, zeroKeyValue)] else [])
      + (if rootAddress == UNDEFINED_ADDRESS then [] else TreePairs(cfg, shape, file))
    }

    /** The pairs `processMappings` can offer are exactly the pairs the tree maps. */
    lemma AllPairsAreLookup()
      requires Valid()
      ensures forall p :: p in AllPairs() ==> Lookup(p.0) == Some(p.1)
      ensures forall k :: Lookup(k).Some? ==> (k, Lookup(k).value) in AllPairs()
    {
      if rootAddress != UNDEFINED_ADDRESS {
        TreePairsAreStored(cfg, shape, file, MinKey, KeyBound, depth);
      }
    }

    /** `count` is the number of pairs `processMappings` offers besides the zero key's. */
    lemma AllPairsCount()
      requires Valid()
      ensures |AllPairs()| == count + (if hasZeroKey then 1 else 0)
    {
      if rootAddress != UNDEFINED_ADDRESS {
        TreePairsCount(cfg, shape, file, MinKey, KeyBound, depth);
      }
    }

    /**
      `processMappings`: the zero key's pair when there is one, then the
      pairs of the leaves in depth-first order, offered to the processor
      until it refuses one; the result is whether none was refused.
    */
    method ProcessMappings(accept: (int, int) -> bool) returns (ok: bool, calls: seq<Pair>)
      requires Valid()
      ensures (ok, calls) == Visit(AllPairs(), accept)
    {
      ghost var rest: seq<Pair> := if rootAddress == UNDEFINED_ADDRESS then [] else TreePairs(cfg, shape, file);
      ResumeStart(AllPairs(), accept);
      calls := [];
      if hasZeroKey {
        assert AllPairs() == [(0, zeroKeyValue)] + rest;
        ResumeStep([], (0, zeroKeyValue), rest, accept);
        calls := [(0, zeroKeyValue)];
        if !accept(0, zeroKeyValue) {
          return false, calls;
        }
      } else {
        assert AllPairs() == rest;
      }
      if rootAddress == UNDEFINED_ADDRESS {
        ResumeEnd(calls, accept);
        return true, calls;
      }
      var ok', calls' := ProcessLeafPages(rootAddress, shape, MinKey, KeyBound, depth, accept);
      assert rest == rest + [];
      ResumeAppend(calls, rest, [], accept);
      ResumeEnd(calls + calls', accept);
      return ok', calls + calls';
    }
  }
}
