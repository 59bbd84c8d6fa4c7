/** The allocator's constants and the 64-bit size word of a block tag.

    A block's header and footer each begin with a size word: the usable size of the
    block, a multiple of 8, with the free flag packed into its low bit. Words are
    modelled as integers; uint64_t wrap-around is written out with Wrap64 wherever
    the allocator stores a computed size. */
module Words {

  const TWO_32: int := 0x1_0000_0000
  const TWO_64: int := 0x1_0000_0000_0000_0000

  /** sizeof(uint64_t): the header as the address helpers count it (the size word) */
  const HEADER_SIZE: int := 8
  /** sizeof(struct block_header_t): the size word and the two free-list links */
  const HEADER_STRUCT_SIZE: int := 24
  /** sizeof(struct block_footer_t) */
  const FOOTER_SIZE: int := 8
  /** Offsets of the free-list links inside a header */
  const NEXT_OFFSET: int := 8
  const PREV_OFFSET: int := 16

  const INITIAL_HEAP_SIZE: int := 1024
  const ALLOC_SIZE: int := 1024
  const MINIMUM_ALLOC_SIZE: int := 16
  const MINIMUM_BLOCK_SIZE: int := HEADER_SIZE + MINIMUM_ALLOC_SIZE + FOOTER_SIZE

  /** What uint64_t arithmetic keeps of an integer result. */
  function Wrap64(x: int): (r: int)
    ensures 0 <= r < TWO_64
    ensures (x - r) % TWO_64 == 0
    ensures 0 <= x < TWO_64 ==> r == x
  {
    x % TWO_64
  }

  /** is_free: the low bit of the size word */
  predicate IsFreeWord(w: int) {
    w % 2 == 1
  }

  /** get_size: the size word with the low bit masked off */
  function SizeOfWord(w: int): (r: int)
    ensures r % 2 == 0 && r <= w < r + 2
  {
    w - w % 2
  }

  /** set_free: sets the low bit of the size word */
  function SetFreeWord(w: int): (r: int)
    ensures IsFreeWord(r) && SizeOfWord(r) == SizeOfWord(w)
    ensures IsFreeWord(w) ==> r == w
  {
    if w % 2 == 1 then w else w + 1
  }

  /** set_used: clears the low bit of the size word */
  function SetUsedWord(w: int): (r: int)
    ensures !IsFreeWord(r) && SizeOfWord(r) == SizeOfWord(w)
    ensures !IsFreeWord(w) ==> r == w
  {
    w - w % 2
  }

  /** A size that is a multiple of 8 carries no flag: it is its own size word. */
  lemma AlignedSizeWord(w: int)
    requires w % 8 == 0
    ensures !IsFreeWord(w) && SizeOfWord(w) == w && SetUsedWord(w) == w
  {
    assert w == 2 * (4 * (w / 8));
  }

  /** round(): up to a multiple of 8 in uint64_t, then truncated to the `unsigned int`
      it is declared to return. */
  function Round(size: int): (r: int)
    requires 0 <= size < TWO_64
    ensures 0 <= r < TWO_32 && r % 8 == 0
    ensures size + 7 < TWO_32 ==> size <= r < size + 8
  {
    var x := Wrap64(size + 7);
    AlignedTruncation(x);
    (x - x % 8) % TWO_32
  }

  /** Clearing the low three bits, then truncating to 32 bits, leaves a multiple
      of 8, and leaves a value below 2^32 as the cleared value. */
  lemma AlignedTruncation(x: int)
    requires 0 <= x
    ensures ((x - x % 8) % TWO_32) % 8 == 0
    ensures x < TWO_32 ==> (x - x % 8) % TWO_32 == x - x % 8
    ensures x - 7 <= x - x % 8 <= x
  {
    ClearLow(x);
    TruncAligned(x / 8);
    if x < TWO_32 {
      TruncKeepsSmall(x - x % 8);
    }
  }

  /** The truncation of round(): a size of 2^32 bytes or more comes back smaller
      than itself, as the size 2^32 bytes below it would (or as 0, when adding 7
      wraps uint64_t); round(2^32) is 0. */
  lemma RoundTruncates(size: int)
    requires TWO_32 <= size < TWO_64
    ensures Round(size) < size
    ensures size + 7 < TWO_64 ==> Round(size) == Round(size - TWO_32)
    ensures TWO_64 <= size + 7 ==> Round(size) == 0
    ensures size == TWO_32 ==> Round(size) == 0
  {
    var x := size + 7;
    if x < TWO_64 {
      var y := x - TWO_32;
      assert Wrap64(x) == x && Wrap64(y) == y;
      ShiftMod8(y);
      TruncShift(y - y % 8);
      ClearLow(y);
    } else {
      assert Wrap64(x) == x - TWO_64;
    }
  }

  // Single steps of the modular arithmetic above, each kept to one fact.

  lemma ClearLow(x: int)
    requires 0 <= x
    ensures x - x % 8 == 8 * (x / 8) && 0 <= x / 8 && x - 7 <= x - x % 8 <= x
  {
  }

  lemma TruncKeepsSmall(a: int)
    requires 0 <= a < TWO_32
    ensures a % TWO_32 == a
  {
  }

  lemma TruncAligned(k: int)
    requires 0 <= k
    ensures ((8 * k) % TWO_32) % 8 == 0
  {
    var q, r := (8 * k) / TWO_32, (8 * k) % TWO_32;
    assert 8 * k == TWO_32 * q + r;
    assert r == 8 * (k - (TWO_32 / 8) * q);
  }

  lemma TruncShift(a: int)
    requires 0 <= a
    ensures (a + TWO_32) % TWO_32 == a % TWO_32
  {
    var q, r := a / TWO_32, a % TWO_32;
    assert a == TWO_32 * q + r && 0 <= r < TWO_32;
    assert a + TWO_32 == TWO_32 * (q + 1) + r;
  }

  lemma ShiftMod8(y: int)
    requires 0 <= y
    ensures (y + TWO_32) % 8 == y % 8
  {
    var qy := y / 8;
    assert y == 8 * qy + y % 8;
    assert y + TWO_32 == 8 * (qy + TWO_32 / 8) + y % 8;
  }
}
