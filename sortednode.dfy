/**
  Sorted nodes: interior pages (and leaves that never became hashed) keep
  their keys in strictly increasing order in slots `0 .. count - 1`.  An
  interior page has `count + 1` child pointers, the last one in the value
  word of slot `count`; child `i` leads to the keys from key `i - 1`
  (inclusive) up to key `i` (exclusive).
*/
module SortedNode {
  import opened Words
  import opened Pages

  /** The first `n` keys of a page are strictly increasing. */
  ghost predicate SortedKeys(page: seq<int>, n: int)
    requires 0 <= n && 2 * n + 1 < |page|
  {
    forall i, j :: 0 <= i < j < n ==> KeyAt(page, i) < KeyAt(page, j)
  }

  /** `ip` is where `key` belongs among the first `n` keys, and it is not one of them. */
  ghost predicate InsertionPoint(page: seq<int>, n: int, key: int, ip: int)
    requires 0 <= n && 2 * n + 1 < |page|
  {
    && 0 <= ip <= n
    && (forall i :: 0 <= i < ip ==> KeyAt(page, i) < key)
    && (forall i :: ip <= i < n ==> key < KeyAt(page, i))
  }

  /**
    `ObjectUtils.binarySearch(0, n, mid -> compare(keyAt(mid), key))`: the
    index of `key` among the first `n` keys, or minus the insertion point
    minus one.
  */
  method BinarySearch(page: seq<int>, n: int, key: int) returns (r: int)
    requires 0 <= n && 2 * n + 1 < |page| && SortedKeys(page, n)
    ensures 0 <= r ==> r < n && KeyAt(page, r) == key
    ensures r < 0 ==> InsertionPoint(page, n, key, -r - 1)
  {
    var low, high := 0, n - 1;
    while low <= high
      invariant 0 <= low <= high + 1 <= n
      invariant forall i :: 0 <= i < low ==> KeyAt(page, i) < key
      invariant forall i :: high < i < n ==> key < KeyAt(page, i)
    {
      var mid := (low + high) / 2;
      var midKey := KeyAt(page, mid);
      if midKey < key {
        low := mid + 1;
      } else if midKey > key {
        high := mid - 1;
      } else {
        return mid;
      }
    }
    r := -(low + 1);
  }

  /** Two pages with the same meta words and the same slots are equal. */
  lemma SlotsDetermine(p: seq<int>, q: seq<int>)
    requires |p| == |q| && |p| >= 2 && |p| % 2 == 0 && p[0] == q[0] && p[1] == q[1]
    requires forall j :: 0 <= j && 2 * j + 3 < |p| ==> KeyAt(p, j) == KeyAt(q, j) && AddressAt(p, j) == AddressAt(q, j)
    ensures p == q
  {
    forall w | 2 <= w < |p|
      ensures p[w] == q[w]
    {
      var j := (w - 2) / 2;
      assert KeyAt(p, j) == KeyAt(q, j) && AddressAt(p, j) == AddressAt(q, j);
    }
  }

  /**
    The element-by-element shift in `insert`: from the last slot down to
    `index`, each slot is copied one slot up.  It produces exactly the page
    the bulk move of the same slots produces.
  */
  method ShiftSlotsUp(page: seq<int>, index: int, recordCount: int) returns (r: seq<int>)
    requires |page| % 2 == 0 && 0 <= index <= recordCount && 2 * recordCount + 3 < |page|
    ensures r == MoveSlots(page, index, index + 1, recordCount - index)
  {
    r := page;
    var i := recordCount - 1;
    while i >= index
      invariant index - 1 <= i <= recordCount - 1
      invariant |r| == |page| && r[0] == page[0] && r[1] == page[1]
      invariant forall j :: i + 2 <= j <= recordCount ==>
                  KeyAt(r, j) == KeyAt(page, j - 1) && AddressAt(r, j) == AddressAt(page, j - 1)
      invariant forall j :: 0 <= j && 2 * j + 3 < |page| && !(i + 2 <= j <= recordCount) ==>
                  KeyAt(r, j) == KeyAt(page, j) && AddressAt(r, j) == AddressAt(page, j)
    {
      r := SetKeyAt(r, i + 1, KeyAt(r, i));
      r := SetAddressAt(r, i + 1, AddressAt(r, i));
      i := i - 1;
    }
    SlotsDetermine(r, MoveSlots(page, index, index + 1, recordCount - index));
  }

  /** Leaf slots after inserting `(key, value)` at `ip` among `n` entries. */
  ghost predicate LeafInserted(page: seq<int>, r: seq<int>, n: int, ip: int, key: int, value: int)
    requires 0 <= ip <= n && 2 * n + 3 < |page| && |r| == |page|
  {
    && (forall j :: 0 <= j < ip ==> KeyAt(r, j) == KeyAt(page, j) && AddressAt(r, j) == AddressAt(page, j))
    && KeyAt(r, ip) == key && AddressAt(r, ip) == value
    && (forall j :: ip < j <= n ==> KeyAt(r, j) == KeyAt(page, j - 1) && AddressAt(r, j) == AddressAt(page, j - 1))
  }

  /**
    Interior slots after inserting `key` at `ip` among `n` keys, with the new
    child pointer right after it: pointers up to `ip` stay, later ones move
    up one slot.
  */
  ghost predicate InteriorInserted(page: seq<int>, r: seq<int>, n: int, ip: int, key: int, child: int)
    requires 0 <= ip <= n && 2 * n + 5 < |page| && |r| == |page|
  {
    && (forall j :: 0 <= j < ip ==> KeyAt(r, j) == KeyAt(page, j))
    && KeyAt(r, ip) == key
    && (forall j :: ip < j <= n ==> KeyAt(r, j) == KeyAt(page, j - 1))
    && (forall j :: 0 <= j <= ip ==> AddressAt(r, j) == AddressAt(page, j))
    && AddressAt(r, ip + 1) == child
    && (forall j :: ip + 1 < j <= n + 1 ==> AddressAt(r, j) == AddressAt(page, j - 1))
  }

  /** Inserting at the insertion point keeps the keys strictly increasing. */
  lemma InsertKeepsOrder(page: seq<int>, r: seq<int>, n: int, ip: int, key: int)
    requires 0 <= ip <= n && 2 * n + 3 < |page| && |r| == |page|
    requires SortedKeys(page, n) && InsertionPoint(page, n, key, ip)
    requires forall j :: 0 <= j < ip ==> KeyAt(r, j) == KeyAt(page, j)
    requires KeyAt(r, ip) == key
    requires forall j :: ip < j <= n ==> KeyAt(r, j) == KeyAt(page, j - 1)
    ensures SortedKeys(r, n + 1)
  {
  }

  /**
    Leaf slots of `insert`: everything from `index` moves up one slot (bulk
    move when more than `LARGE_MOVE_THRESHOLD` slots move, slot by slot
    otherwise), then the entry is written at `index`.
  */
  method LeafInsertSlots(page: seq<int>, recordCount: int, index: int, key: int, value: int) returns (r: seq<int>)
    requires |page| % 2 == 0 && 0 <= index <= recordCount && 2 * recordCount + 3 < |page|
    ensures |r| == |page| && r[0] == page[0] && r[1] == page[1]
    ensures LeafInserted(page, r, recordCount, index, key, value)
  {
    var itemsToMove := recordCount - index;
    if itemsToMove > LARGE_MOVE_THRESHOLD {
      r := MoveSlots(page, index, index + 1, itemsToMove);
    } else {
      r := ShiftSlotsUp(page, index, recordCount);
    }
    r := SetKeyAt(r, index, key);
    r := SetAddressAt(r, index, value);
  }

  /**
    Interior slots of `insert`: the last child pointer moves to the new last
    slot, the slots after `index` move up one (bulk or slot by slot), the key
    at `index` moves up, and the new key and the child pointer after it are
    written.
  */
  method InteriorInsertSlots(page: seq<int>, recordCount: int, index: int, key: int, child: int) returns (r: seq<int>)
    requires |page| % 2 == 0 && 0 <= index <= recordCount && 2 * recordCount + 5 < |page|
    ensures |r| == |page| && r[0] == page[0] && r[1] == page[1]
    ensures InteriorInserted(page, r, recordCount, index, key, child)
  {
    var itemsToMove := recordCount - index;
    r := SetAddressAt(page, recordCount + 1, AddressAt(page, recordCount));
    ghost var shifted := MoveSlots(r, index + 1, index + 2, AfterIndex(recordCount, index));
    if itemsToMove > LARGE_MOVE_THRESHOLD {
      var elementsAfterIndex := recordCount - index - 1;
      if elementsAfterIndex > 0 {
        r := MoveSlots(r, index + 1, index + 2, elementsAfterIndex);
      } else {
        EmptyMove(r, index + 1, index + 2);
      }
    } else if index + 1 <= recordCount {
      r := ShiftSlotsUp(r, index + 1, recordCount);
    } else {
      EmptyMove(r, index + 1, index + 2);
    }
    assert r == shifted;
    r := InteriorWrites(page, r, recordCount, index, key, child);
  }

  /** The number of keys after `index` among `recordCount`. */
  function AfterIndex(recordCount: int, index: int): (n: nat)
    requires index <= recordCount
    ensures index < recordCount ==> n == recordCount - index - 1
  {
    if index < recordCount then recordCount - index - 1 else 0
  }

  /** Moving no slots changes nothing. */
  lemma EmptyMove(page: seq<int>, from: int, to: int)
    requires 0 <= from && 0 <= to && 2 * from + 2 <= |page| && 2 * to + 2 <= |page|
    requires |page| % 2 == 0
    ensures MoveSlots(page, from, to, 0) == page
  {
    SlotsDetermine(page, MoveSlots(page, from, to, 0));
  }

  /** The writes that finish an interior insertion, once the later slots have moved up. */
  function InteriorWrites(page: seq<int>, shifted: seq<int>, recordCount: int, index: int, key: int, child: int): (r: seq<int>)
    requires |page| % 2 == 0 && 0 <= index <= recordCount && 2 * recordCount + 5 < |page|
    requires shifted == MoveSlots(SetAddressAt(page, recordCount + 1, AddressAt(page, recordCount)),
                                  index + 1, index + 2, AfterIndex(recordCount, index))
    ensures |r| == |page| && r[0] == page[0] && r[1] == page[1]
    ensures InteriorInserted(page, r, recordCount, index, key, child)
  {
    var moved := if index < recordCount then SetKeyAt(shifted, index + 1, KeyAt(shifted, index)) else shifted;
    var r := SetAddressAt(SetKeyAt(moved, index, key), index + 1, child);
    InteriorWritesKeys(page, shifted, moved, r, recordCount, index, key, child);
    InteriorWritesAddresses(page, shifted, moved, r, recordCount, index, key, child);
    r
  }

  /** The keys after the writes of `InteriorWrites`. */
  lemma InteriorWritesKeys(page: seq<int>, shifted: seq<int>, moved: seq<int>, r: seq<int>,
                           recordCount: int, index: int, key: int, child: int)
    requires |page| % 2 == 0 && 0 <= index <= recordCount && 2 * recordCount + 5 < |page|
    requires shifted == MoveSlots(SetAddressAt(page, recordCount + 1, AddressAt(page, recordCount)),
                                  index + 1, index + 2, AfterIndex(recordCount, index))
    requires moved == if index < recordCount then SetKeyAt(shifted, index + 1, KeyAt(shifted, index)) else shifted
    requires r == SetAddressAt(SetKeyAt(moved, index, key), index + 1, child)
    ensures |r| == |page| && r[0] == page[0] && r[1] == page[1]
    ensures forall j :: 0 <= j < index ==> KeyAt(r, j) == KeyAt(page, j)
    ensures KeyAt(r, index) == key
    ensures forall j :: index < j <= recordCount ==> KeyAt(r, j) == KeyAt(page, j - 1)
  {
    var base := SetAddressAt(page, recordCount + 1, AddressAt(page, recordCount));
    forall j | index < j <= recordCount
      ensures KeyAt(r, j) == KeyAt(page, j - 1)
    {
      if j == index + 1 {
        assert KeyAt(r, j) == KeyAt(shifted, index) == KeyAt(base, index);
      } else {
        assert KeyAt(r, j) == KeyAt(shifted, j) == KeyAt(base, j - 1);
      }
    }
  }

  /** The child addresses after the writes of `InteriorWrites`. */
  lemma InteriorWritesAddresses(page: seq<int>, shifted: seq<int>, moved: seq<int>, r: seq<int>,
                                recordCount: int, index: int, key: int, child: int)
    requires |page| % 2 == 0 && 0 <= index <= recordCount && 2 * recordCount + 5 < |page|
    requires shifted == MoveSlots(SetAddressAt(page, recordCount + 1, AddressAt(page, recordCount)),
                                  index + 1, index + 2, AfterIndex(recordCount, index))
    requires moved == if index < recordCount then SetKeyAt(shifted, index + 1, KeyAt(shifted, index)) else shifted
    requires r == SetAddressAt(SetKeyAt(moved, index, key), index + 1, child)
    ensures forall j :: 0 <= j <= index ==> AddressAt(r, j) == AddressAt(page, j)
    ensures AddressAt(r, index + 1) == child
    ensures forall j :: index + 1 < j <= recordCount + 1 ==> AddressAt(r, j) == AddressAt(page, j - 1)
  {
    var base := SetAddressAt(page, recordCount + 1, AddressAt(page, recordCount));
    forall j | index + 1 < j <= recordCount + 1
      ensures AddressAt(r, j) == AddressAt(page, j - 1)
    {
      if j == recordCount + 1 {
        assert AddressAt(r, j) == AddressAt(shifted, j) == AddressAt(base, j);
      } else {
        assert AddressAt(r, j) == AddressAt(shifted, j) == AddressAt(base, j - 1);
      }
    }
  }

  /**
    The sorted-node path of `insert`: the count goes up by one and the key
    goes to its insertion point (found by binary search), in a leaf with its
    value, in an interior page with the new child pointer after it.  Returns
    the new page and the number of slots that moved (`movedMembersCount`'s
    increment).
  */
  method InsertIntoSortedNode(page: seq<int>, key: int, value: int) returns (r: seq<int>, itemsToMove: int)
    requires |page| % 2 == 0 && |page| > 1 && IsInt32(page[0])
    requires 0 <= Count(page) && Count(page) + 1 < 0x8000
    requires IsIndexLeaf(page) ==> 2 * Count(page) + 3 < |page|
    requires !IsIndexLeaf(page) ==> 2 * Count(page) + 5 < |page|
    requires SortedKeys(page, Count(page))
    requires forall i :: 0 <= i < Count(page) ==> KeyAt(page, i) != key
    ensures |r| == |page| && IsInt32(r[0]) && r[1] == page[1]
    ensures Count(r) == Count(page) + 1
    ensures IsIndexLeaf(r) == IsIndexLeaf(page) && IsHashedLeaf(r) == IsHashedLeaf(page)
    ensures SortedKeys(r, Count(r))
    ensures 0 <= itemsToMove <= Count(page)
    ensures InsertionPoint(page, Count(page), key, Count(page) - itemsToMove)
    ensures IsIndexLeaf(page) ==> LeafInserted(page, r, Count(page), Count(page) - itemsToMove, key, value)
    ensures !IsIndexLeaf(page) ==> InteriorInserted(page, r, Count(page), Count(page) - itemsToMove, key, value)
  {
    var recordCount := Count(page);
    var found := BinarySearch(page, recordCount, key);
    var index := -found - 1;
    var counted := SetChildrenCount(page, recordCount + 1);
    assert counted[1..] == page[1..];
    SlotsFromSecondWord(page, counted);
    itemsToMove := recordCount - index;
    if IsIndexLeaf(page) {
      r := LeafInsertSlots(counted, recordCount, index, key, value);
    } else {
      r := InteriorInsertSlots(counted, recordCount, index, key, value);
    }
    MetaOfSlotWrites(counted, r);
    InsertKeepsOrder(page, r, recordCount, index, key);
  }

  /** Pages that agree from the second word on have the same slots. */
  lemma SlotsFromSecondWord(p: seq<int>, q: seq<int>)
    requires |p| == |q| && |p| > 1 && q[1..] == p[1..]
    ensures q[1] == p[1]
    ensures forall j :: 0 <= j && 2 * j + 3 < |p| ==> KeyAt(q, j) == KeyAt(p, j) && AddressAt(q, j) == AddressAt(p, j)
  {
    assert q[1] == q[1..][0];
    forall j | 0 <= j && 2 * j + 3 < |p|
      ensures KeyAt(q, j) == KeyAt(p, j) && AddressAt(q, j) == AddressAt(p, j)
    {
      assert q[2 * j + 3] == q[1..][2 * j + 2] && q[2 * j + 2] == q[1..][2 * j + 1];
    }
  }

  /** Slot writes keep the header, so the count and flags read the same. */
  lemma MetaOfSlotWrites(p: seq<int>, q: seq<int>)
    requires |p| > 1 && |q| == |p| && q[0] == p[0] && IsInt32(p[0])
    ensures Count(q) == Count(p) && IsIndexLeaf(q) == IsIndexLeaf(p) && IsHashedLeaf(q) == IsHashedLeaf(p)
  {
  }
}
