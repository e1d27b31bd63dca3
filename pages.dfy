/**
  The layout of one node page of the B-tree file and the configuration the
  tree derives from its page size.

  A page is a sequence of 32-bit words: word 0 is the header (children count
  in bits 8..23, flags in bits 24..31), word 1 the address of the next page,
  and from byte offset 8 on come 8-byte slots; slot `i` holds a value or a
  negated child address in its first word and a key in its second.
*/
module Pages {
  import opened Words
  import opened Primes

  const INTERIOR_SIZE: int := 8
  const KEY_OFFSET: int := 4
  const RESERVED_META_PAGE_LEN: int := 8
  const NEXT_PAGE_OFFSET: int := 4
  const LARGE_MOVE_THRESHOLD: int := 5
  const HASH_FREE: int := 0
  const UNDEFINED_ADDRESS: int := -1

  /** Outcome of an operation that raises `CorruptedException` on an inconsistent page. */
  datatype Status = Ok | Corrupted

  /** The sizes the constructor derives from the page size. */
  datatype Config = Config(
    pageSize: int,
    maxInteriorNodes: int,
    maxLeafNodes: int,
    hashPageCapacity: int,
    maxLeafNodesInHash: int)

  /** Number of 8-byte slots after the page's meta data. */
  function Slots(cfg: Config): int {
    (cfg.pageSize - RESERVED_META_PAGE_LEN) / INTERIOR_SIZE
  }

  /** Number of words a page holds: header, next-page word and two per slot. */
  function PageWords(cfg: Config): int {
    2 * Slots(cfg) + 2
  }

  /**
    The constraints the constructor's assertions place on the sizes: an even
    node limit of at least 2 that fits a short, a prime hash capacity that
    fits the slots, and an even hashed-leaf limit below that capacity.
  */
  ghost predicate ValidConfig(cfg: Config) {
    && cfg.maxLeafNodes == Slots(cfg) - 1
    && cfg.maxInteriorNodes == cfg.maxLeafNodes
    && 2 <= cfg.maxLeafNodes < 0x7FFF && cfg.maxLeafNodes % 2 == 0
    && 3 <= cfg.hashPageCapacity <= Slots(cfg) && IsPrimeNumber(cfg.hashPageCapacity)
    && 2 <= cfg.maxLeafNodesInHash < cfg.hashPageCapacity && cfg.maxLeafNodesInHash % 2 == 0
  }

  /** A configuration the constructor can derive. */
  type Cfg = cfg: Config | ValidConfig(cfg) witness Config(RESERVED_META_PAGE_LEN + 3 * INTERIOR_SIZE, 2, 2, 3, 2)

  /**
    `(int)(hashPageCapacity * 0.9)`, rounded up to an even number.  The
    product is taken as `9 * capacity / 10`, which is the same integer for
    every odd capacity that fits a short.
  */
  function MaxLeafNodesInHash(capacity: int): (m: int)
    requires capacity >= 3 && capacity % 2 == 1
    ensures m % 2 == 0 && 2 <= m < capacity
    ensures m - 1 <= capacity * 9 / 10 <= m
  {
    var i := capacity * 9 / 10;
    if i % 2 == 1 then i + 1 else i
  }

  /** The capacity arithmetic of the constructor. */
  method MakeConfig(pageSize: int) returns (cfg: Config)
    requires 2 <= (pageSize - RESERVED_META_PAGE_LEN) / INTERIOR_SIZE - 1 < 0x7FFF
    requires ((pageSize - RESERVED_META_PAGE_LEN) / INTERIOR_SIZE - 1) % 2 == 0
    ensures ValidConfig(cfg) && cfg.pageSize == pageSize
    ensures cfg.maxLeafNodes == (pageSize - RESERVED_META_PAGE_LEN) / INTERIOR_SIZE - 1
    ensures forall n :: cfg.hashPageCapacity < n <= cfg.maxLeafNodes + 1 && n % 2 == 1 ==> !IsPrimeNumber(n)
    ensures cfg.hashPageCapacity % 2 == 1
    ensures cfg.maxLeafNodesInHash == MaxLeafNodesInHash(cfg.hashPageCapacity)
  {
    var i := (pageSize - RESERVED_META_PAGE_LEN) / INTERIOR_SIZE - 1;
    var capacity := HashPageCapacity(i);
    cfg := Config(pageSize, i, i, capacity, MaxLeafNodesInHash(capacity));
  }

  /** `indexToOffset`: the byte offset of slot `i` within its page. */
  function IndexToOffset(i: int): (offset: int)
    ensures offset == RESERVED_META_PAGE_LEN + INTERIOR_SIZE * i
  {
    i * INTERIOR_SIZE + RESERVED_META_PAGE_LEN
  }

  /** The word holding the 4 bytes at a byte offset. */
  function WordIndex(offset: int): (w: int)
    requires offset % 4 == 0
    ensures 4 * w == offset
  {
    offset / 4
  }

  /** The word of slot `i` that holds its value or child address. */
  function ValueWord(i: int): int
  {
    2 * i + 2
  }

  /** The word of slot `i` that holds its key. */
  function KeyWord(i: int): int
  {
    2 * i + 3
  }

  /** The two words of slot `i` are the 4-byte words at its byte offset and at the key offset after it. */
  lemma SlotWords(i: int)
    ensures IndexToOffset(i) == 4 * ValueWord(i) && IndexToOffset(i) + KEY_OFFSET == 4 * KeyWord(i)
    ensures ValueWord(i) == WordIndex(IndexToOffset(i))
    ensures KeyWord(i) == WordIndex(IndexToOffset(i) + KEY_OFFSET)
  {
  }

  /** Every slot of a page lies after the meta data and inside the page. */
  lemma SlotWithinPage(cfg: Config, i: int)
    requires ValidConfig(cfg) && 0 <= i < Slots(cfg)
    ensures RESERVED_META_PAGE_LEN <= IndexToOffset(i)
    ensures IndexToOffset(i) + INTERIOR_SIZE <= cfg.pageSize
    ensures KeyWord(i) < PageWords(cfg) && ValueWord(i) < PageWords(cfg)
  {
  }

  /** A page of the right length whose header is a 32-bit word. */
  predicate PageOk(cfg: Config, page: seq<int>) {
    |page| == PageWords(cfg) && |page| > 1 && IsInt32(page[0])
  }

  /** A freshly appended page: all words zero. */
  function ZeroPage(cfg: Config): (page: seq<int>)
    requires Slots(cfg) >= 0
    ensures PageOk(cfg, page)
    ensures forall w :: 0 <= w < |page| ==> page[w] == 0
  {
    seq(PageWords(cfg), _ => 0)
  }

  // ---------------------------------------------------------------------------
  // Reading a page

  /** `getChildrenCount`: the count field of the header. */
  function Count(page: seq<int>): int
    requires |page| > 0 && IsInt32(page[0])
  {
    ChildrenCountOf(page[0])
  }

  /** `isIndexLeaf`: the leaf flag of the header. */
  predicate IsIndexLeaf(page: seq<int>)
    requires |page| > 0 && IsInt32(page[0])
  {
    IsSet(FlagsOf(page[0]), INDEX_LEAF_MASK)
  }

  /** `isHashedLeaf`: the hashed flag of the header. */
  predicate IsHashedLeaf(page: seq<int>)
    requires |page| > 0 && IsInt32(page[0])
  {
    IsSet(FlagsOf(page[0]), HASHED_LEAF_MASK)
  }

  /** `getNextPage`: the word at byte offset 4. */
  function NextPageOf(page: seq<int>): int
    requires |page| > 1
  {
    page[WordIndex(NEXT_PAGE_OFFSET)]
  }

  /** `keyAt(i)`. */
  function KeyAt(page: seq<int>, i: int): int
    requires 0 <= i && 2 * i + 3 < |page|
  {
    page[KeyWord(i)]
  }

  /** `addressAt(i)`: the value of a leaf slot or the negated address of a child. */
  function AddressAt(page: seq<int>, i: int): int
    requires 0 <= i && 2 * i + 3 < |page|
  {
    page[ValueWord(i)]
  }

  /** `getMaxChildrenCount`. */
  function MaxChildrenCount(cfg: Config, page: seq<int>): (m: int)
    requires |page| > 0 && IsInt32(page[0])
    ensures m == cfg.maxLeafNodesInHash || m == cfg.maxLeafNodes || m == cfg.maxInteriorNodes
  {
    if IsIndexLeaf(page) then
      if IsHashedLeaf(page) then cfg.maxLeafNodesInHash else cfg.maxLeafNodes
    else cfg.maxInteriorNodes
  }

  /** `isFull`: an interior node counts its extra child pointer. */
  predicate IsFull(cfg: Config, page: seq<int>)
    requires |page| > 0 && IsInt32(page[0])
  {
    Count(page) + (if IsIndexLeaf(page) then 0 else 1) == MaxChildrenCount(cfg, page)
  }

  // ---------------------------------------------------------------------------
  // Writing a page

  /** `setKeyAt(i, v)`: only the key word of slot `i` changes. */
  function SetKeyAt(page: seq<int>, i: int, v: int): (r: seq<int>)
    requires 0 <= i && 2 * i + 3 < |page|
    ensures |r| == |page| && r[0] == page[0] && r[1] == page[1]
    ensures KeyAt(r, i) == v
    ensures forall j :: 0 <= j && 2 * j + 3 < |page| && j != i ==> KeyAt(r, j) == KeyAt(page, j)
    ensures forall j :: 0 <= j && 2 * j + 3 < |page| ==> AddressAt(r, j) == AddressAt(page, j)
  {
    page[KeyWord(i) := v]
  }

  /** `setAddressAt(i, v)`: only the value word of slot `i` changes. */
  function SetAddressAt(page: seq<int>, i: int, v: int): (r: seq<int>)
    requires 0 <= i && 2 * i + 3 < |page|
    ensures |r| == |page| && r[0] == page[0] && r[1] == page[1]
    ensures AddressAt(r, i) == v
    ensures forall j :: 0 <= j && 2 * j + 3 < |page| && j != i ==> AddressAt(r, j) == AddressAt(page, j)
    ensures forall j :: 0 <= j && 2 * j + 3 < |page| ==> KeyAt(r, j) == KeyAt(page, j)
  {
    page[ValueWord(i) := v]
  }

  /** `setChildrenCount(c)`: rewrites the count field and keeps the flags and slots. */
  function SetChildrenCount(page: seq<int>, c: int): (r: seq<int>)
    requires |page| > 1 && IsInt32(page[0]) && 0 <= c < 0x8000
    ensures |r| == |page| && IsInt32(r[0]) && r[1..] == page[1..]
    ensures Count(r) == c
    ensures IsIndexLeaf(r) == IsIndexLeaf(page) && IsHashedLeaf(r) == IsHashedLeaf(page)
  {
    page[0 := WithChildrenCount(page[0], c)]
  }

  /** `setFlag(mask, flag)`: rewrites one flag and keeps the count and slots. */
  function SetFlag(page: seq<int>, mask: int, flag: bool): (r: seq<int>)
    requires |page| > 1 && IsInt32(page[0])
    requires mask == INDEX_LEAF_MASK || mask == HASHED_LEAF_MASK
    ensures |r| == |page| && IsInt32(r[0]) && r[1..] == page[1..]
    ensures Count(r) == Count(page)
    ensures IsIndexLeaf(r) == (if mask == INDEX_LEAF_MASK then flag else IsIndexLeaf(page))
    ensures IsHashedLeaf(r) == (if mask == HASHED_LEAF_MASK then flag else IsHashedLeaf(page))
  {
    page[0 := WithFlag(page[0], mask, flag)]
  }

  /** `setNextPage(a)`: only the next-page word changes. */
  function SetNextPage(page: seq<int>, a: int): (r: seq<int>)
    requires |page| > 1
    ensures |r| == |page| && r[0] == page[0] && NextPageOf(r) == a
    ensures r[2..] == page[2..]
  {
    page[WordIndex(NEXT_PAGE_OFFSET) := a]
  }

  /**
    `putBytes(indexToOffset(to), getBytes(indexToOffset(from), n * INTERIOR_SIZE))`:
    slots `[from, from + n)` copied onto slots `[to, to + n)` as by memmove
    (every slot is read before any is written).
  */
  function MoveSlots(page: seq<int>, from: int, to: int, n: int): (r: seq<int>)
    requires 0 <= from && 0 <= to && 0 <= n
    requires 2 * (from + n) + 2 <= |page| && 2 * (to + n) + 2 <= |page|
    ensures |r| == |page| && r[0] == page[0] && r[1] == page[1]
    ensures forall j :: to <= j < to + n ==>
              KeyAt(r, j) == KeyAt(page, j - to + from) && AddressAt(r, j) == AddressAt(page, j - to + from)
    ensures forall j :: 0 <= j && 2 * j + 3 < |page| && !(to <= j < to + n) ==>
              KeyAt(r, j) == KeyAt(page, j) && AddressAt(r, j) == AddressAt(page, j)
  {
    var r := page[..ValueWord(to)] + page[ValueWord(from)..ValueWord(from + n)] + page[ValueWord(to + n)..];
    assert forall w :: ValueWord(to) <= w < ValueWord(to + n) ==> r[w] == page[w - ValueWord(to) + ValueWord(from)];
    assert forall w :: 0 <= w < |page| && !(ValueWord(to) <= w < ValueWord(to + n)) ==> r[w] == page[w];
    r
  }
}
