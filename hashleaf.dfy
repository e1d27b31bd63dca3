/**
  A hashed leaf: the first `hashPageCapacity` slots of a leaf page used as an
  open-addressing table with double hashing.  A slot whose key is
  `HASH_FREE` (0) is empty, which is why the tree keeps key 0 outside its
  pages.
*/
module HashLeaf {
  import opened Wrappers
  import opened Words
  import opened Primes
  import opened Probing
  import opened Pages
  import opened Sorting

  /** A page whose first `hashPageCapacity` slots can serve as a table. */
  predicate TableOk(cfg: Config, page: seq<int>) {
    PageOk(cfg, page) && 3 <= cfg.hashPageCapacity <= Slots(cfg)
  }

  /** Some slot of the table is free. */
  ghost predicate HasFreeSlot(cfg: Config, page: seq<int>)
    requires TableOk(cfg, page)
  {
    exists s :: 0 <= s < cfg.hashPageCapacity && KeyAt(page, s) == HASH_FREE
  }

  /** The probes of `key` numbered below `n` all hit a slot holding another key. */
  ghost predicate ProbesOccupied(cfg: Config, page: seq<int>, key: int, n: nat)
    requires TableOk(cfg, page)
  {
    forall u: nat :: u < n ==>
      KeyAt(page, Probe(key, cfg.hashPageCapacity, u)) != key &&
      KeyAt(page, Probe(key, cfg.hashPageCapacity, u)) != HASH_FREE
  }

  /** Probing every slot of a prime-sized table without finding a free one means the table is full. */
  lemma FullAfterAllProbes(cfg: Config, page: seq<int>, key: int)
    requires TableOk(cfg, page) && ProbesOccupied(cfg, page, key, cfg.hashPageCapacity)
    ensures IsPrimeNumber(cfg.hashPageCapacity) ==> !HasFreeSlot(cfg, page)
  {
    if IsPrimeNumber(cfg.hashPageCapacity) {
      forall s | 0 <= s < cfg.hashPageCapacity
        ensures KeyAt(page, s) != HASH_FREE
      {
        var t := ProbesCoverTable(key, cfg.hashPageCapacity, s);
      }
    }
  }

  /**
    `hashIndex`: probes from the key's home slot, stepping down, until a
    slot holds the key (its index is returned) or is free (minus its index
    minus one is returned).  More than `capacity` steps raise a corruption
    error; with a prime capacity and a free slot that never happens.
    `total` is the number of steps taken, for the search statistics.
  */
  method HashIndex(cfg: Config, page: seq<int>, key: int) returns (status: Status, index: int, total: nat)
    requires TableOk(cfg, page) && IsInt32(key)
    ensures status.Ok? ==> total <= cfg.hashPageCapacity && ProbesOccupied(cfg, page, key, total)
    ensures status.Ok? && index >= 0 ==>
              index == Probe(key, cfg.hashPageCapacity, total) && KeyAt(page, index) == key && key != HASH_FREE
    ensures status.Ok? && index < 0 ==>
              -index - 1 == Probe(key, cfg.hashPageCapacity, total) && KeyAt(page, -index - 1) == HASH_FREE
    ensures status.Corrupted? ==> ProbesOccupied(cfg, page, key, cfg.hashPageCapacity + 1)
    ensures IsPrimeNumber(cfg.hashPageCapacity) && HasFreeSlot(cfg, page) ==> status.Ok?
  {
    var length := cfg.hashPageCapacity;
    var hash := HashOf(key);
    index := hash % length;
    var keyAtIndex := KeyAt(page, index);
    total := 0;
    status := Ok;
    if keyAtIndex != key && keyAtIndex != HASH_FREE {
      var probe := 1 + hash % (length - 2);
      while true
        invariant 0 <= index < length && index == Probe(key, length, total)
        invariant keyAtIndex == KeyAt(page, index)
        invariant keyAtIndex != key && keyAtIndex != HASH_FREE
        invariant total <= length
        invariant ProbesOccupied(cfg, page, key, total + 1)
        decreases length - total
      {
        index := index - probe;
        if index < 0 {
          index := index + length;
        }
        keyAtIndex := KeyAt(page, index);
        total := total + 1;
        if total > length {
          status := Corrupted;
          FullAfterAllProbes(cfg, page, key);
          return;
        }
        if keyAtIndex == key || keyAtIndex == HASH_FREE {
          break;
        }
      }
    }
    index := if keyAtIndex == HASH_FREE then -index - 1 else index;
  }

  // ---------------------------------------------------------------------------
  // The table invariant and the reference lookup

  /** No key occupies two slots. */
  ghost predicate UniqueKeys(cfg: Config, page: seq<int>)
    requires TableOk(cfg, page)
  {
    forall s1, s2 ::
      (0 <= s1 < cfg.hashPageCapacity && 0 <= s2 < cfg.hashPageCapacity &&
       KeyAt(page, s1) != HASH_FREE && KeyAt(page, s1) == KeyAt(page, s2)) ==> s1 == s2
  }

  /** The key in slot `s` lies on its own probe sequence, after occupied slots only. */
  ghost predicate Reachable(cfg: Config, page: seq<int>, s: int)
    requires TableOk(cfg, page) && 0 <= s < cfg.hashPageCapacity
  {
    var key := KeyAt(page, s);
    exists t: nat :: Probe(key, cfg.hashPageCapacity, t) == s &&
      forall u: nat :: u < t ==> KeyAt(page, Probe(key, cfg.hashPageCapacity, u)) != HASH_FREE
  }

  /** The table invariant: keys are unique and each is found by probing. */
  ghost predicate HashWf(cfg: Config, page: seq<int>) {
    && TableOk(cfg, page)
    && UniqueKeys(cfg, page)
    && forall s :: 0 <= s < cfg.hashPageCapacity && KeyAt(page, s) != HASH_FREE ==> Reachable(cfg, page, s)
  }

  /** Reference lookup by scanning: the value in the slot that holds `key`. */
  ghost function HashGet(cfg: Config, page: seq<int>, key: int): Option<int>
    requires TableOk(cfg, page)
  {
    if key != HASH_FREE && exists s :: 0 <= s < cfg.hashPageCapacity && KeyAt(page, s) == key then
      var s :| 0 <= s < cfg.hashPageCapacity && KeyAt(page, s) == key;
      Some(AddressAt(page, s))
    else None
  }

  /** With unique keys, the scan finds a stored key in its slot. */
  lemma HashGetSlot(cfg: Config, page: seq<int>, s: int)
    requires TableOk(cfg, page) && UniqueKeys(cfg, page)
    requires 0 <= s < cfg.hashPageCapacity && KeyAt(page, s) != HASH_FREE
    ensures HashGet(cfg, page, KeyAt(page, s)) == Some(AddressAt(page, s))
  {
  }

  /**
    The probing lookup agrees with the scan: `hashIndex` reports a slot
    exactly when the key is stored, and that slot holds its value.
  */
  lemma HashIndexAgreesWithScan(cfg: Config, page: seq<int>, key: int, index: int, total: nat)
    requires HashWf(cfg, page)
    requires ProbesOccupied(cfg, page, key, total)
    requires index >= 0 ==> index == Probe(key, cfg.hashPageCapacity, total) && KeyAt(page, index) == key && key != HASH_FREE
    requires index < 0 ==> -index - 1 == Probe(key, cfg.hashPageCapacity, total) && KeyAt(page, -index - 1) == HASH_FREE
    ensures index >= 0 <==> HashGet(cfg, page, key).Some?
    ensures index >= 0 ==> HashGet(cfg, page, key) == Some(AddressAt(page, index))
  {
    var cap := cfg.hashPageCapacity;
    if index >= 0 {
      HashGetSlot(cfg, page, index);
    }
  }

  // ---------------------------------------------------------------------------
  // Live slots

  /** The keys of the non-free slots below `n`, in slot order. */
  function LiveKeys(cfg: Config, page: seq<int>, n: int): (keys: seq<int>)
    requires TableOk(cfg, page) && 0 <= n <= cfg.hashPageCapacity
    ensures |keys| <= n
    ensures forall k :: k in keys ==> k != HASH_FREE
  {
    if n == 0 then []
    else LiveKeys(cfg, page, n - 1) + (if KeyAt(page, n - 1) != HASH_FREE then [KeyAt(page, n - 1)] else [])
  }

  /** Number of non-free slots of the table. */
  function LiveCount(cfg: Config, page: seq<int>): (c: nat)
    requires TableOk(cfg, page)
    ensures c <= cfg.hashPageCapacity
  {
    |LiveKeys(cfg, page, cfg.hashPageCapacity)|
  }

  /** A key is among the live keys below `n` exactly when a slot below `n` holds it. */
  lemma {:induction false} LiveKeysMembership(cfg: Config, page: seq<int>, n: int, k: int)
    requires TableOk(cfg, page) && 0 <= n <= cfg.hashPageCapacity
    ensures k in LiveKeys(cfg, page, n) <==> k != HASH_FREE && exists s :: 0 <= s < n && KeyAt(page, s) == k
  {
    if n > 0 {
      LiveKeysMembership(cfg, page, n - 1, k);
      if k != HASH_FREE && exists s :: 0 <= s < n && KeyAt(page, s) == k {
        var s :| 0 <= s < n && KeyAt(page, s) == k;
        if s < n - 1 {
          assert k in LiveKeys(cfg, page, n - 1);
        }
      }
    }
  }

  /** Fewer live keys than slots below `n` leaves a free slot below `n`. */
  lemma {:induction false} FreeSlotBelow(cfg: Config, page: seq<int>, n: int) returns (s: int)
    requires TableOk(cfg, page) && 0 <= n <= cfg.hashPageCapacity
    requires |LiveKeys(cfg, page, n)| < n
    ensures 0 <= s < n && KeyAt(page, s) == HASH_FREE
  {
    if KeyAt(page, n - 1) == HASH_FREE {
      s := n - 1;
    } else {
      s := FreeSlotBelow(cfg, page, n - 1);
    }
  }

  /** A table with fewer live keys than its capacity has a free slot. */
  lemma FreeSlotExists(cfg: Config, page: seq<int>)
    requires TableOk(cfg, page) && LiveCount(cfg, page) < cfg.hashPageCapacity
    ensures HasFreeSlot(cfg, page)
  {
    var s := FreeSlotBelow(cfg, page, cfg.hashPageCapacity);
  }

  /** The live keys below `n` are a prefix of those below `m`. */
  lemma {:induction false} LiveKeysGrow(cfg: Config, page: seq<int>, n: int, m: int)
    requires TableOk(cfg, page) && 0 <= n <= m <= cfg.hashPageCapacity
    ensures |LiveKeys(cfg, page, n)| <= |LiveKeys(cfg, page, m)|
    decreases m
  {
    if n < m {
      LiveKeysGrow(cfg, page, n, m - 1);
    }
  }

  /** With unique keys no live key is listed twice. */
  lemma {:induction false} LiveKeysDistinct(cfg: Config, page: seq<int>, n: int)
    requires TableOk(cfg, page) && UniqueKeys(cfg, page) && 0 <= n <= cfg.hashPageCapacity
    ensures NoDuplicates(LiveKeys(cfg, page, n))
  {
    if n > 0 {
      LiveKeysDistinct(cfg, page, n - 1);
      var k := KeyAt(page, n - 1);
      if k != HASH_FREE {
        var before := LiveKeys(cfg, page, n - 1);
        assert k !in before by {
          LiveKeysMembership(cfg, page, n - 1, k);
        }
        assert LiveKeys(cfg, page, n) == before + [k];
        assert multiset(LiveKeys(cfg, page, n)) == multiset(before) + multiset{k};
      }
    }
  }

  // ---------------------------------------------------------------------------
  // Pages that agree on their table slots

  /** Two pages hold the same keys and values in their table slots. */
  ghost predicate SameTable(cfg: Config, p: seq<int>, q: seq<int>)
    requires TableOk(cfg, p) && TableOk(cfg, q)
  {
    forall s :: 0 <= s < cfg.hashPageCapacity ==> KeyAt(p, s) == KeyAt(q, s) && AddressAt(p, s) == AddressAt(q, s)
  }

  /** Everything about a table is determined by its slots. */
  lemma {:induction false} SameTableSameContents(cfg: Config, p: seq<int>, q: seq<int>)
    requires TableOk(cfg, p) && TableOk(cfg, q) && SameTable(cfg, p, q)
    ensures HashWf(cfg, p) <==> HashWf(cfg, q)
    ensures UniqueKeys(cfg, p) ==> forall k :: HashGet(cfg, p, k) == HashGet(cfg, q, k)
    ensures LiveCount(cfg, p) == LiveCount(cfg, q)
  {
    var cap := cfg.hashPageCapacity;
    forall s | 0 <= s < cap && KeyAt(p, s) != HASH_FREE
      ensures Reachable(cfg, p, s) <==> Reachable(cfg, q, s)
    {
      var key := KeyAt(p, s);
      if Reachable(cfg, p, s) {
        var t: nat :| Probe(key, cap, t) == s && forall u: nat :: u < t ==> KeyAt(p, Probe(key, cap, u)) != HASH_FREE;
        assert forall u: nat :: u < t ==> KeyAt(q, Probe(key, cap, u)) != HASH_FREE;
      }
      if Reachable(cfg, q, s) {
        var t: nat :| Probe(key, cap, t) == s && forall u: nat :: u < t ==> KeyAt(q, Probe(key, cap, u)) != HASH_FREE;
        assert forall u: nat :: u < t ==> KeyAt(p, Probe(key, cap, u)) != HASH_FREE;
      }
    }
    if UniqueKeys(cfg, p) {
      forall k
        ensures HashGet(cfg, p, k) == HashGet(cfg, q, k)
      {
        if k != HASH_FREE && exists s :: 0 <= s < cap && KeyAt(p, s) == k {
          var s :| 0 <= s < cap && KeyAt(p, s) == k;
          HashGetSlot(cfg, p, s);
          HashGetSlot(cfg, q, s);
        }
      }
    }
    SameLiveKeys(cfg, p, q, cap);
  }

  lemma {:induction false} SameLiveKeys(cfg: Config, p: seq<int>, q: seq<int>, n: int)
    requires TableOk(cfg, p) && TableOk(cfg, q) && SameTable(cfg, p, q) && 0 <= n <= cfg.hashPageCapacity
    ensures LiveKeys(cfg, p, n) == LiveKeys(cfg, q, n)
  {
    if n > 0 {
      SameLiveKeys(cfg, p, q, n - 1);
    }
  }

  /** Header and next-page writes leave the table slots alone. */
  lemma MetaWriteKeepsTable(cfg: Config, p: seq<int>, q: seq<int>)
    requires TableOk(cfg, p) && TableOk(cfg, q) && q[2..] == p[2..]
    ensures SameTable(cfg, p, q)
  {
    forall s | 0 <= s < cfg.hashPageCapacity
      ensures KeyAt(p, s) == KeyAt(q, s) && AddressAt(p, s) == AddressAt(q, s)
    {
      assert p[KeyWord(s)] == p[2..][KeyWord(s) - 2];
      assert q[KeyWord(s)] == q[2..][KeyWord(s) - 2];
      assert p[ValueWord(s)] == p[2..][ValueWord(s) - 2];
      assert q[ValueWord(s)] == q[2..][ValueWord(s) - 2];
    }
  }

  // ---------------------------------------------------------------------------
  // Writing into a table

  /** `setKeyAt(i, key); setAddressAt(i, value)`. */
  function PutSlot(page: seq<int>, i: int, key: int, value: int): (r: seq<int>)
    requires 0 <= i && 2 * i + 3 < |page|
    ensures |r| == |page| && r[0] == page[0] && r[1] == page[1]
    ensures KeyAt(r, i) == key && AddressAt(r, i) == value
    ensures forall j :: 0 <= j && 2 * j + 3 < |page| && j != i ==> KeyAt(r, j) == KeyAt(page, j) && AddressAt(r, j) == AddressAt(page, j)
  {
    SetAddressAt(SetKeyAt(page, i, key), i, value)
  }

  /** Making a free slot live adds exactly one live key below `n` when the slot is below `n`. */
  lemma {:induction false} LiveKeysAfterFill(cfg: Config, page: seq<int>, r: seq<int>, i: int, n: int)
    requires TableOk(cfg, page) && TableOk(cfg, r) && 0 <= i < cfg.hashPageCapacity && 0 <= n <= cfg.hashPageCapacity
    requires KeyAt(page, i) == HASH_FREE && KeyAt(r, i) != HASH_FREE
    requires forall j :: 0 <= j < cfg.hashPageCapacity && j != i ==> KeyAt(r, j) == KeyAt(page, j)
    ensures |LiveKeys(cfg, r, n)| == |LiveKeys(cfg, page, n)| + (if i < n then 1 else 0)
  {
    if n > 0 {
      LiveKeysAfterFill(cfg, page, r, i, n - 1);
    }
  }

  /**
    Storing an absent key in the free slot where its probe sequence stopped
    keeps the table invariant, maps the key to its value, leaves every other
    key's value alone and adds one live slot.
  */
  lemma InsertIntoTable(cfg: Config, page: seq<int>, key: int, value: int, t: nat)
    requires HashWf(cfg, page) && key != HASH_FREE && HashGet(cfg, page, key) == None
    requires ProbesOccupied(cfg, page, key, t)
    requires KeyAt(page, Probe(key, cfg.hashPageCapacity, t)) == HASH_FREE
    ensures var r := PutSlot(page, Probe(key, cfg.hashPageCapacity, t), key, value);
      && TableOk(cfg, r)
      && HashWf(cfg, r)
      && (forall k :: HashGet(cfg, r, k) == if k == key then Some(value) else HashGet(cfg, page, k))
      && LiveCount(cfg, r) == LiveCount(cfg, page) + 1
  {
    var cap := cfg.hashPageCapacity;
    var i := Probe(key, cap, t);
    var r := PutSlot(page, i, key, value);
    assert TableOk(cfg, r);
    InsertKeepsUnique(cfg, page, key, value, i);
    InsertKeepsReachable(cfg, page, key, value, t);
    forall k
      ensures HashGet(cfg, r, k) == if k == key then Some(value) else HashGet(cfg, page, k)
    {
      InsertGet(cfg, page, key, value, i, k);
    }
    LiveKeysAfterFill(cfg, page, r, i, cap);
  }

  /** Storing an absent key in a free slot keeps the keys unique. */
  lemma InsertKeepsUnique(cfg: Config, page: seq<int>, key: int, value: int, i: int)
    requires TableOk(cfg, page) && UniqueKeys(cfg, page) && key != HASH_FREE && HashGet(cfg, page, key) == None
    requires 0 <= i < cfg.hashPageCapacity && KeyAt(page, i) == HASH_FREE
    ensures TableOk(cfg, PutSlot(page, i, key, value)) && UniqueKeys(cfg, PutSlot(page, i, key, value))
  {
    var r := PutSlot(page, i, key, value);
    assert TableOk(cfg, r);
    forall s1, s2 | 0 <= s1 < cfg.hashPageCapacity && 0 <= s2 < cfg.hashPageCapacity && KeyAt(r, s1) != HASH_FREE && KeyAt(r, s1) == KeyAt(r, s2)
      ensures s1 == s2
    {
    }
  }

  /** Storing a key where its probes stopped leaves every stored key reachable, the new one included. */
  lemma InsertKeepsReachable(cfg: Config, page: seq<int>, key: int, value: int, t: nat)
    requires HashWf(cfg, page) && key != HASH_FREE
    requires ProbesOccupied(cfg, page, key, t)
    requires KeyAt(page, Probe(key, cfg.hashPageCapacity, t)) == HASH_FREE
    ensures var r := PutSlot(page, Probe(key, cfg.hashPageCapacity, t), key, value);
      TableOk(cfg, r) && forall s :: 0 <= s < cfg.hashPageCapacity && KeyAt(r, s) != HASH_FREE ==> Reachable(cfg, r, s)
  {
    var cap := cfg.hashPageCapacity;
    var i := Probe(key, cap, t);
    var r := PutSlot(page, i, key, value);
    assert TableOk(cfg, r);
    forall s | 0 <= s < cap && KeyAt(r, s) != HASH_FREE
      ensures Reachable(cfg, r, s)
    {
      if s == i {
        assert forall u: nat :: u < t ==> KeyAt(r, Probe(key, cap, u)) != HASH_FREE;
      } else {
        var k := KeyAt(page, s);
        assert Reachable(cfg, page, s);
        var t': nat :| Probe(k, cap, t') == s && forall u: nat :: u < t' ==> KeyAt(page, Probe(k, cap, u)) != HASH_FREE;
        assert forall u: nat :: u < t' ==> KeyAt(r, Probe(k, cap, u)) != HASH_FREE;
      }
    }
  }

  /** After storing an absent key in a free slot, the lookup of `k` gives the new value for that key and the old one otherwise. */
  lemma InsertGet(cfg: Config, page: seq<int>, key: int, value: int, i: int, k: int)
    requires TableOk(cfg, page) && UniqueKeys(cfg, page) && key != HASH_FREE && HashGet(cfg, page, key) == None
    requires 0 <= i < cfg.hashPageCapacity && KeyAt(page, i) == HASH_FREE
    requires TableOk(cfg, PutSlot(page, i, key, value)) && UniqueKeys(cfg, PutSlot(page, i, key, value))
    ensures HashGet(cfg, PutSlot(page, i, key, value), k) == if k == key then Some(value) else HashGet(cfg, page, k)
  {
    var cap := cfg.hashPageCapacity;
    var r := PutSlot(page, i, key, value);
    if k == key {
      HashGetSlot(cfg, r, i);
    } else if k != HASH_FREE && exists s :: 0 <= s < cap && KeyAt(page, s) == k {
      var s :| 0 <= s < cap && KeyAt(page, s) == k;
      HashGetSlot(cfg, page, s);
      HashGetSlot(cfg, r, s);
    }
  }

  /**
    `setAddressAt(i, value)` on the slot that holds a key: the table
    invariant and the live slots are kept, and only that key's value changes.
  */
  lemma UpdateInTable(cfg: Config, page: seq<int>, i: int, value: int)
    requires HashWf(cfg, page) && 0 <= i < cfg.hashPageCapacity && KeyAt(page, i) != HASH_FREE
    ensures var r := SetAddressAt(page, i, value);
      && TableOk(cfg, r)
      && HashWf(cfg, r)
      && (forall k :: HashGet(cfg, r, k) == if k == KeyAt(page, i) then Some(value) else HashGet(cfg, page, k))
      && LiveCount(cfg, r) == LiveCount(cfg, page)
  {
    var cap := cfg.hashPageCapacity;
    var r := SetAddressAt(page, i, value);
    assert TableOk(cfg, r);
    forall s | 0 <= s < cap && KeyAt(r, s) != HASH_FREE
      ensures Reachable(cfg, r, s)
    {
      var k := KeyAt(page, s);
      assert Reachable(cfg, page, s);
      var t: nat :| Probe(k, cap, t) == s && forall u: nat :: u < t ==> KeyAt(page, Probe(k, cap, u)) != HASH_FREE;
      assert forall u: nat :: u < t ==> KeyAt(r, Probe(k, cap, u)) != HASH_FREE;
    }
    forall k
      ensures HashGet(cfg, r, k) == if k == KeyAt(page, i) then Some(value) else HashGet(cfg, page, k)
    {
      if k == KeyAt(page, i) {
        HashGetSlot(cfg, r, i);
      } else if k != HASH_FREE && exists s :: 0 <= s < cap && KeyAt(page, s) == k {
        var s :| 0 <= s < cap && KeyAt(page, s) == k;
        HashGetSlot(cfg, page, s);
        HashGetSlot(cfg, r, s);
      }
    }
    SameLiveKeysOnKeys(cfg, page, r, cap);
  }

  lemma {:induction false} SameLiveKeysOnKeys(cfg: Config, p: seq<int>, q: seq<int>, n: int)
    requires TableOk(cfg, p) && TableOk(cfg, q) && 0 <= n <= cfg.hashPageCapacity
    requires forall s :: 0 <= s < cfg.hashPageCapacity ==> KeyAt(p, s) == KeyAt(q, s)
    ensures LiveKeys(cfg, p, n) == LiveKeys(cfg, q, n)
  {
    if n > 0 {
      SameLiveKeysOnKeys(cfg, p, q, n - 1);
    }
  }

  /** `clean`: every table slot's key set to `HASH_FREE`; nothing else changes. */
  method Clean(cfg: Config, page: seq<int>) returns (r: seq<int>)
    requires TableOk(cfg, page)
    ensures |r| == |page| && r[0] == page[0] && r[1] == page[1]
    ensures forall s :: 0 <= s < cfg.hashPageCapacity ==> KeyAt(r, s) == HASH_FREE
    ensures forall s :: 0 <= s && 2 * s + 3 < |page| ==> AddressAt(r, s) == AddressAt(page, s)
    ensures forall s :: cfg.hashPageCapacity <= s && 2 * s + 3 < |page| ==> KeyAt(r, s) == KeyAt(page, s)
  {
    r := page;
    for i := 0 to cfg.hashPageCapacity
      invariant |r| == |page| && r[0] == page[0] && r[1] == page[1]
      invariant forall s :: 0 <= s < i ==> KeyAt(r, s) == HASH_FREE
      invariant forall s :: 0 <= s && 2 * s + 3 < |page| ==> AddressAt(r, s) == AddressAt(page, s)
      invariant forall s :: i <= s && 2 * s + 3 < |page| ==> KeyAt(r, s) == KeyAt(page, s)
    {
      r := SetKeyAt(r, i, HASH_FREE);
    }
  }

  /** A table without live slots satisfies the invariant and maps no key. */
  lemma EmptyTable(cfg: Config, page: seq<int>)
    requires TableOk(cfg, page)
    requires forall s :: 0 <= s < cfg.hashPageCapacity ==> KeyAt(page, s) == HASH_FREE
    ensures HashWf(cfg, page)
    ensures forall k :: HashGet(cfg, page, k) == None
    ensures LiveCount(cfg, page) == 0
  {
    EmptyLiveKeys(cfg, page, cfg.hashPageCapacity);
  }

  lemma {:induction false} EmptyLiveKeys(cfg: Config, page: seq<int>, n: int)
    requires TableOk(cfg, page) && 0 <= n <= cfg.hashPageCapacity
    requires forall s :: 0 <= s < cfg.hashPageCapacity ==> KeyAt(page, s) == HASH_FREE
    ensures LiveKeys(cfg, page, n) == []
  {
    if n > 0 {
      EmptyLiveKeys(cfg, page, n - 1);
    }
  }

  // ---------------------------------------------------------------------------
  // HashLeafData: the sorted snapshot a hashed leaf takes before it splits

  /** The `values` map the snapshot builds from the slots below `n`. */
  function ValuesUpTo(cfg: Config, page: seq<int>, n: int): map<int, int>
    requires TableOk(cfg, page) && 0 <= n <= cfg.hashPageCapacity
  {
    if n == 0 then map[]
    else
      var m := ValuesUpTo(cfg, page, n - 1);
      if KeyAt(page, n - 1) != HASH_FREE then m[KeyAt(page, n - 1) := AddressAt(page, n - 1)] else m
  }

  /** A sequence of `n` zeros (the unfilled tail of `new int[n]`). */
  function Zeros(n: nat): (z: seq<int>)
    ensures |z| == n && forall i :: 0 <= i < n ==> z[i] == 0
  {
    seq(n, _ => 0)
  }

  /** Writing the next entry of a partly filled array extends its filled prefix by that entry. */
  lemma WriteNext(ks: seq<int>, n: int, x: int)
    requires 0 <= n < |ks|
    ensures ks[n := x][..n + 1] == ks[..n] + [x]
    ensures forall j :: n < j < |ks| ==> ks[n := x][j] == ks[j]
  {
  }

  /** An array whose entries from `n` on are zero is its first `n` entries followed by zeros. */
  lemma ZeroTail(ks: seq<int>, n: int)
    requires 0 <= n <= |ks| && forall j :: n <= j < |ks| ==> ks[j] == 0
    ensures ks == ks[..n] + Zeros(|ks| - n)
  {
  }

  /**
    `HashLeafData`: collects the live keys (in slot order) into an array of
    `recordCount` entries and their values into a map, then sorts the keys.
    More live keys than `recordCount` is a corruption error; fewer leave
    zeros in the array, which are sorted in with the keys.
  */
  method Snapshot(cfg: Config, page: seq<int>, recordCount: int) returns (status: Status, keys: seq<int>, values: map<int, int>)
    requires TableOk(cfg, page) && 0 <= recordCount
    ensures status.Corrupted? <==> LiveCount(cfg, page) > recordCount
    ensures status.Ok? ==> values == ValuesUpTo(cfg, page, cfg.hashPageCapacity)
    ensures status.Ok? ==>
              keys == Sort(LiveKeys(cfg, page, cfg.hashPageCapacity) + Zeros(recordCount - LiveCount(cfg, page)))
  {
    var ks := Zeros(recordCount);
    var keyNumber := 0;
    values := map[];
    for i := 0 to cfg.hashPageCapacity
      invariant keyNumber == |LiveKeys(cfg, page, i)| <= recordCount
      invariant |ks| == recordCount
      invariant ks[..keyNumber] == LiveKeys(cfg, page, i)
      invariant forall j :: keyNumber <= j < recordCount ==> ks[j] == 0
      invariant values == ValuesUpTo(cfg, page, i)
    {
      var key := KeyAt(page, i);
      if key != HASH_FREE {
        var value := AddressAt(page, i);
        if keyNumber == |ks| {
          status, keys := Corrupted, [];
          LiveKeysGrow(cfg, page, i + 1, cfg.hashPageCapacity);
          return;
        }
        WriteNext(ks, keyNumber, key);
        ks := ks[keyNumber := key];
        keyNumber := keyNumber + 1;
        values := values[key := value];
      }
    }
    ZeroTail(ks, keyNumber);
    keys := Sort(ks);
    status := Ok;
  }

  /** The snapshot's map holds exactly the stored keys, with their values. */
  lemma {:induction false} ValuesUpToAgree(cfg: Config, page: seq<int>, n: int)
    requires TableOk(cfg, page) && UniqueKeys(cfg, page) && 0 <= n <= cfg.hashPageCapacity
    ensures forall k :: k in ValuesUpTo(cfg, page, n) <==> k != HASH_FREE && exists s :: 0 <= s < n && KeyAt(page, s) == k
    ensures forall s :: 0 <= s < n && KeyAt(page, s) != HASH_FREE ==> ValuesUpTo(cfg, page, n)[KeyAt(page, s)] == AddressAt(page, s)
  {
    if n > 0 {
      ValuesUpToAgree(cfg, page, n - 1);
    }
  }

  /**
    The snapshot of a consistent leaf: when the recorded count is the number
    of live slots, the keys are the stored keys in strictly increasing order
    and the map gives each its stored value.
  */
  lemma SnapshotOfConsistentLeaf(cfg: Config, page: seq<int>, keys: seq<int>, values: map<int, int>)
    requires HashWf(cfg, page)
    requires values == ValuesUpTo(cfg, page, cfg.hashPageCapacity)
    requires keys == Sort(LiveKeys(cfg, page, cfg.hashPageCapacity) + Zeros(0))
    ensures |keys| == LiveCount(cfg, page)
    ensures StrictlySorted(keys)
    ensures forall k :: k in keys <==> HashGet(cfg, page, k).Some?
    ensures forall k :: k in keys ==> k in values && HashGet(cfg, page, k) == Some(values[k])
  {
    var cap := cfg.hashPageCapacity;
    var live := LiveKeys(cfg, page, cap);
    assert live + Zeros(0) == live;
    SortSpec(live);
    LiveKeysDistinct(cfg, page, cap);
    SortedDistinctIsStrict(keys);
    forall k
      ensures k in keys <==> HashGet(cfg, page, k).Some?
      ensures k in keys ==> k in values && HashGet(cfg, page, k) == Some(values[k])
    {
      SortMembers(live, k);
      LiveKeysMembership(cfg, page, cap, k);
      if k in keys {
        SnapshotValue(cfg, page, k);
      }
    }
  }

  /** A stored key is in the snapshot's map, with the value the lookup finds. */
  lemma SnapshotValue(cfg: Config, page: seq<int>, k: int)
    requires HashWf(cfg, page)
    requires k != HASH_FREE && exists s :: 0 <= s < cfg.hashPageCapacity && KeyAt(page, s) == k
    ensures var values := ValuesUpTo(cfg, page, cfg.hashPageCapacity);
      k in values && HashGet(cfg, page, k) == Some(values[k])
  {
    var s :| 0 <= s < cfg.hashPageCapacity && KeyAt(page, s) == k;
    ValuesUpToAgree(cfg, page, cfg.hashPageCapacity);
    HashGetSlot(cfg, page, s);
  }
}
