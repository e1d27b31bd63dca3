/**
  The persisted variables of the tree (`persistVars`): ten 32-bit words at
  byte offsets 0, 4, ..., 36 of a header region the caller provides.  The
  first word packs the height (bits 0..23) with the has-zero-key mask
  `0xFF000000`; the others hold the page count, the statistics, the entry
  count, the root address and the zero key's value, one per word.

  The caller's `BtreeDataStorage` is modelled as a map from byte offset to
  word: `persistInt(offset, value, true)` stores `value` there and returns
  it, `persistInt(offset, value, false)` returns the stored word.
*/
module Persist {
  import opened Words

  /** `HAS_ZERO_KEY_MASK`, read as an unsigned pattern: the top byte. */
  const HAS_ZERO_KEY_MASK_BITS: int := 0xFF00_0000

  /** The header region of the caller's storage: words by byte offset. */
  type Region = map<int, int>

  /** The values `persistVars` writes, or reads back, in field order. */
  datatype Vars = Vars(
    height: int,
    hasZeroKey: bool,
    pagesCount: int,
    movedMembersCount: int,
    maxStepsSearchedInHash: int,
    count: int,
    hashSearchRequests: int,
    totalHashStepsSearched: int,
    hashedPagesCount: int,
    rootAddress: int,
    zeroKeyValue: int)

  /** Every field fits a Java `int`. */
  predicate Int32Vars(v: Vars) {
    && IsInt32(v.height) && IsInt32(v.pagesCount) && IsInt32(v.movedMembersCount)
    && IsInt32(v.maxStepsSearchedInHash) && IsInt32(v.count) && IsInt32(v.hashSearchRequests)
    && IsInt32(v.totalHashStepsSearched) && IsInt32(v.hashedPagesCount)
    && IsInt32(v.rootAddress) && IsInt32(v.zeroKeyValue)
  }

  /** The fields survive the header: they fit, and the height leaves the mask's byte clear. */
  predicate Persistable(v: Vars) {
    Int32Vars(v) && 0 <= v.height < TwoTo24
  }

  // ---------------------------------------------------------------------------
  // The first word

  /**
    `height | (hasZeroKey ? HAS_ZERO_KEY_MASK : 0)`: with the flag, the top
    byte is all ones and the low 24 bits are the height's; without it, the
    height's word unchanged.
  */
  function PackHeight(height: Int32, hasZeroKey: bool): (w: Int32)
    ensures hasZeroKey ==> Unsigned(w) / TwoTo24 == 0xFF && Unsigned(w) % TwoTo24 == Unsigned(height) % TwoTo24
    ensures !hasZeroKey ==> w == height
  {
    if hasZeroKey then Signed(HAS_ZERO_KEY_MASK_BITS + Unsigned(height) % TwoTo24) else height
  }

  /** `(i & HAS_ZERO_KEY_MASK) != 0`: some bit of the top byte is set. */
  predicate ZeroKeyFlagOf(w: Int32) {
    Unsigned(w) / TwoTo24 != 0
  }

  /** `i & ~HAS_ZERO_KEY_MASK`: the low 24 bits. */
  function HeightOf(w: Int32): (h: int)
    ensures 0 <= h < TwoTo24
  {
    Unsigned(w) % TwoTo24
  }

  /** A height below 2^24 and the flag come back out of the first word. */
  lemma PackHeightRoundTrip(height: Int32, hasZeroKey: bool)
    requires 0 <= height < TwoTo24
    ensures ZeroKeyFlagOf(PackHeight(height, hasZeroKey)) == hasZeroKey
    ensures HeightOf(PackHeight(height, hasZeroKey)) == height
  {
    var w := PackHeight(height, hasZeroKey);
    if hasZeroKey {
      assert Unsigned(w) / TwoTo24 == 0xFF;
    } else {
      assert Unsigned(w) == height;
      assert Unsigned(w) / TwoTo24 == 0;
    }
  }

  /**
    Without the bound the header is not faithful: a height of 2^24 with no
    zero key reads back as height 0 with a zero key.
  */
  lemma HeightCollidesWithMask()
    ensures ZeroKeyFlagOf(PackHeight(TwoTo24, false)) && HeightOf(PackHeight(TwoTo24, false)) == 0
  {
    assert Unsigned(PackHeight(TwoTo24, false)) == TwoTo24;
  }

  // ---------------------------------------------------------------------------
  // The ten words

  /** The byte offsets of the header words, in field order. */
  const Offsets: seq<int> := [0, 4, 8, 12, 16, 20, 24, 28, 32, 36]

  /** The words `persistVars(storage, true)` writes, in the order of `Offsets`. */
  function HeaderWords(v: Vars): (ws: seq<int>)
    requires Int32Vars(v)
    ensures |ws| == |Offsets| && forall j :: 0 <= j < |ws| ==> IsInt32(ws[j])
  {
    [PackHeight(v.height, v.hasZeroKey), v.pagesCount, v.movedMembersCount, v.maxStepsSearchedInHash,
     v.count, v.hashSearchRequests, v.totalHashStepsSearched, v.hashedPagesCount,
     v.rootAddress, v.zeroKeyValue]
  }

  /** The region after `persistVars(storage, true)`: the header words at their offsets, nothing else touched. */
  function Write(region: Region, v: Vars): (r: Region)
    requires Int32Vars(v)
    ensures r.Keys == region.Keys + {0, 4, 8, 12, 16, 20, 24, 28, 32, 36}
    ensures forall j :: 0 <= j < |Offsets| ==> r[Offsets[j]] == HeaderWords(v)[j]
    ensures forall a :: a in region && a !in Offsets ==> r[a] == region[a]
  {
    var ws := HeaderWords(v);
    region[0 := ws[0]][4 := ws[1]][8 := ws[2]][12 := ws[3]][16 := ws[4]]
          [20 := ws[5]][24 := ws[6]][28 := ws[7]][32 := ws[8]][36 := ws[9]]
  }

  /**
    `persistInt(offset, value, toDisk)` of the caller's storage: a write
    stores `value` at `offset` and answers it, a read answers the stored word.
  */
  method PersistInt(region: Region, offset: int, value: int, toDisk: bool) returns (region': Region, r: int)
    requires !toDisk ==> offset in region
    ensures toDisk ==> region' == region[offset := value] && r == value
    ensures !toDisk ==> region' == region && r == region[offset]
  {
    if toDisk {
      region', r := region[offset := value], value;
    } else {
      region', r := region, region[offset];
    }
  }

  /** The region holds a 32-bit word at every header offset. */
  predicate Readable(region: Region) {
    forall a :: a in Offsets ==> a in region && IsInt32(region[a])
  }

  /** The fields `persistVars(storage, false)` reads back. */
  function Read(region: Region): (v: Vars)
    requires Readable(region)
    ensures Int32Vars(v) && 0 <= v.height < TwoTo24
    ensures v.hasZeroKey == ZeroKeyFlagOf(region[0]) && v.height == HeightOf(region[0])
    ensures v.pagesCount == region[4] && v.count == region[16] && v.rootAddress == region[32]
    ensures v.zeroKeyValue == region[36]
  {
    assert Offsets[0] == 0 && Offsets[1] == 4 && Offsets[4] == 16 && Offsets[8] == 32 && Offsets[9] == 36;
    assert Offsets[2] == 8 && Offsets[3] == 12 && Offsets[5] == 20 && Offsets[6] == 24 && Offsets[7] == 28;
    Vars(HeightOf(region[0]), ZeroKeyFlagOf(region[0]), region[4], region[8], region[12], region[16],
         region[20], region[24], region[28], region[32], region[36])
  }


  /**
    Writing the variables and reading them back, on this tree or a fresh
    one over the same storage, restores every field when the height fits
    in 24 bits.
  */
  lemma {:induction false} ReadAfterWrite(region: Region, v: Vars)
    requires Persistable(v)
    ensures Readable(Write(region, v)) && Read(Write(region, v)) == v
  {
    var r := Write(region, v);
    assert Offsets[0] == 0;
    assert r[0] == PackHeight(v.height, v.hasZeroKey);
    PackHeightRoundTrip(v.height, v.hasZeroKey);
  }

  /**
    The calls of `persistVars`: each variable of `v` goes through
    `persistInt` at its offset, and the answers are the variables after it;
    the first word is split back into the flag and the height either way.
  */
  method PersistAll(region: Region, v: Vars, toDisk: bool) returns (region': Region, v': Vars)
    requires Int32Vars(v)
    requires !toDisk ==> Readable(region)
    ensures toDisk ==> region' == Write(region, v)
    ensures !toDisk ==> region' == region
    ensures Readable(region') && v' == Read(region')
    ensures toDisk && Persistable(v) ==> v' == v
  {
    assert Offsets == [0, 4, 8, 12, 16, 20, 24, 28, 32, 36];
    var r, i := PersistInt(region, 0, PackHeight(v.height, v.hasZeroKey), toDisk);
    var hasZeroKey, height := ZeroKeyFlagOf(i), HeightOf(i);
    var pagesCount, movedMembersCount, maxStepsSearchedInHash, count, hashSearchRequests;
    var totalHashStepsSearched, hashedPagesCount, rootAddress, zeroKeyValue;
    r, pagesCount := PersistInt(r, 4, v.pagesCount, toDisk);
    r, movedMembersCount := PersistInt(r, 8, v.movedMembersCount, toDisk);
    r, maxStepsSearchedInHash := PersistInt(r, 12, v.maxStepsSearchedInHash, toDisk);
    r, count := PersistInt(r, 16, v.count, toDisk);
    r, hashSearchRequests := PersistInt(r, 20, v.hashSearchRequests, toDisk);
    r, totalHashStepsSearched := PersistInt(r, 24, v.totalHashStepsSearched, toDisk);
    r, hashedPagesCount := PersistInt(r, 28, v.hashedPagesCount, toDisk);
    r, rootAddress := PersistInt(r, 32, v.rootAddress, toDisk);
    r, zeroKeyValue := PersistInt(r, 36, v.zeroKeyValue, toDisk);
    if toDisk {
      assert r == Write(region, v);
      if Persistable(v) {
        ReadAfterWrite(region, v);
      }
    }
    region' := r;
    v' := Vars(height, hasZeroKey, pagesCount, movedMembersCount, maxStepsSearchedInHash, count,
               hashSearchRequests, totalHashStepsSearched, hashedPagesCount, rootAddress, zeroKeyValue);
  }
}
