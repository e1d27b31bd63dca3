/**
  32-bit words as the page storage holds them, and the bit fields packed into
  them: the page header (children count in bits 8..23, flag byte in bits
  24..31).

  Words are Dafny integers in the signed 32-bit range; the bit operations of
  `IntToIntBtree` are written as arithmetic on the unsigned reading of a word.
*/
module Words {
  const TwoTo8: int := 0x100
  const TwoTo16: int := 0x1_0000
  const TwoTo24: int := 0x100_0000
  const TwoTo31: int := 0x8000_0000
  const TwoTo32: int := 0x1_0000_0000

  predicate IsInt32(x: int) {
    -0x8000_0000 <= x < 0x8000_0000
  }

  type Int32 = x: int | -0x8000_0000 <= x < 0x8000_0000

  /** The unsigned reading of a 32-bit word (what `>>>` and masks see). */
  function Unsigned(x: Int32): (u: nat)
    ensures u < 0x1_0000_0000 && (x < 0 ==> u == x + 0x1_0000_0000) && (0 <= x ==> u == x)
  {
    if x < 0 then x + 0x1_0000_0000 else x
  }

  /** Truncation of an unsigned 32-bit pattern to the signed word it denotes. */
  function Signed(u: nat): (x: Int32)
    requires u < 0x1_0000_0000
    ensures Unsigned(x) == u
  {
    if u < 0x8000_0000 then u else u - 0x1_0000_0000
  }

  /** Java's `(short)` cast of a 16-bit field. */
  function ToShort(x: nat): (s: int)
    requires x < TwoTo16
    ensures -0x8000 <= s < 0x8000
    ensures x < 0x8000 ==> s == x
  {
    if x < 0x8000 then x else x - TwoTo16
  }

  // ---------------------------------------------------------------------------
  // Page header word: flags << 24 | childrenCount << 8

  const FLAGS_SHIFT_FACTOR: int := TwoTo24
  const LENGTH_SHIFT_FACTOR: int := TwoTo8
  const INDEX_LEAF_MASK: int := 1
  const HASHED_LEAF_MASK: int := 2

  /** `(short)((header >>> 8) & 0xFFFF)`: the children count field. */
  function ChildrenCountOf(header: Int32): int {
    ToShort((Unsigned(header) / TwoTo8) % TwoTo16)
  }

  /** `(header >> 24) & 0xFF`: the flag byte. */
  function FlagsOf(header: Int32): (f: nat)
    ensures f < 0x100
  {
    Unsigned(header) / TwoTo24
  }

  /** Whether bit `mask` (1 or 2) is set in a flag byte. */
  predicate IsSet(flags: nat, mask: int)
    requires mask == INDEX_LEAF_MASK || mask == HASHED_LEAF_MASK
  {
    if mask == INDEX_LEAF_MASK then flags % 2 == 1 else (flags / 2) % 2 == 1
  }

  /**
    `setChildrenCount` clears with `~LENGTH_MASK << LENGTH_SHIFT`, that is
    `(~0xFFFF) << 8`, which keeps only the flag byte (`header & 0xFF000000`:
    the complement binds before the shift); the new count is or-ed in at bit 8.
  */
  function WithChildrenCount(header: Int32, count: int): (h: Int32)
    requires 0 <= count < 0x8000
    ensures ChildrenCountOf(h) == count
    ensures FlagsOf(h) == FlagsOf(header)
  {
    ByteSplit(FlagsOf(header), count * 0x100);
    CountField(FlagsOf(header), count * 0x100);
    Signed(FlagsOf(header) * 0x100_0000 + count * 0x100)
  }

  /** Splitting an unsigned word into its flag byte and its low 24 bits, and back. */
  lemma ByteSplit(f: nat, low: nat)
    requires f < 0x100 && low < 0x100_0000
    ensures (f * 0x100_0000 + low) / 0x100_0000 == f
    ensures (f * 0x100_0000 + low) % 0x100_0000 == low
  {
  }

  /** The count field of a word depends only on its low 24 bits. */
  lemma CountField(f: nat, low: nat)
    requires f < 0x100 && low < 0x100_0000
    ensures ((f * 0x100_0000 + low) / 0x100) % 0x1_0000 == low / 0x100
  {
    assert f * 0x100_0000 + low == (f * 0x1_0000 + low / 0x100) * 0x100 + low % 0x100;
    assert (f * 0x100_0000 + low) / 0x100 == f * 0x1_0000 + low / 0x100;
  }

  /** Sets or clears bit `mask` of a flag byte. */
  function SetBit(flags: nat, mask: int, flag: bool): (f: nat)
    requires flags < 0x100
    requires mask == INDEX_LEAF_MASK || mask == HASHED_LEAF_MASK
    ensures f < 0x100
    ensures IsSet(f, mask) == flag
    ensures forall other :: (other == INDEX_LEAF_MASK || other == HASHED_LEAF_MASK) && other != mask ==>
              IsSet(f, other) == IsSet(flags, other)
  {
    if flag == IsSet(flags, mask) then flags else if flag then flags + mask else flags - mask
  }

  /** `setFlag(mask, flag)`: sets or clears one bit of the flag byte, keeping the rest of the word. */
  function WithFlag(header: Int32, mask: int, flag: bool): (h: Int32)
    requires mask == INDEX_LEAF_MASK || mask == HASHED_LEAF_MASK
    ensures FlagsOf(h) == SetBit(FlagsOf(header), mask, flag)
    ensures ChildrenCountOf(h) == ChildrenCountOf(header)
  {
    var u := Unsigned(header);
    ByteSplit(u / 0x100_0000, u % 0x100_0000);
    CountField(u / 0x100_0000, u % 0x100_0000);
    var f' := SetBit(u / 0x100_0000, mask, flag);
    ByteSplit(f', u % 0x100_0000);
    CountField(f', u % 0x100_0000);
    Signed(f' * 0x100_0000 + u % 0x100_0000)
  }

  /** The header of a freshly appended (zero-filled) page: an interior, non-hashed node without children. */
  lemma ZeroHeader()
    ensures ChildrenCountOf(0) == 0 && !IsSet(FlagsOf(0), INDEX_LEAF_MASK) && !IsSet(FlagsOf(0), HASHED_LEAF_MASK)
  {
  }
}
