/** What Malloc promises (and, where malloc.c does not do what its comments and
    driver expect, what it does instead), proved about the functions of module
    Alloc. */
module MallocLemmas {
  import opened Words
  import opened Region
  import opened FreeList
  import opened FreeListLemmas
  import opened Alloc

  /** The index of word `a` of the region. */
  function Index(s: State, a: int): int {
    (a - s.base) / 8
  }

  // ---------------------------------------------------------------- the returned block

  /** A block in use at `h`: its header holds `size`, flag clear, and the footer
      that size places lies in the heap with its flag clear too. */
  ghost predicate InUse(s: State, h: int, size: int) {
    && Load(s, h) == Done(size)
    && Addressable(s, h + HEADER_SIZE + size)
    && !IsFreeWord(Word(s, h + HEADER_SIZE + size))
  }

  /** What a hit with room to split leaves in `r`, block m of `s` having been found
      for `request`: the remainder at RemainderAt(m, request) heads the free list
      and the list behind it is `nodes` as before, block m included; m is in use
      at the request; the remainder's header holds RemainderSize with the free
      flag; the word that size places as its footer, rf, has only gained the flag;
      and no word changed but those, m's new footer and the links the push wrote. */
  ghost predicate SplitLeaves(s: State, r: State, nodes: seq<int>, m: int, request: int) {
    && Addressable(s, m)
    && var size := SizeOfWord(Word(s, m));
    && var nb, rf := RemainderAt(m, request), m + size + HEADER_STRUCT_SIZE;
    && Addressable(s, rf)
    && r == s.(mem := r.mem, freeList := nb)
    && ListWF(r, [nb] + nodes)
    && InUse(r, m, request)
    && Load(r, nb) == Done(SetFreeWord(RemainderSize(size, request)))
    && Load(r, rf) == Done(SetFreeWord(Word(s, rf)))
    && KeepsWordsBut(s, r, {m, m + HEADER_SIZE + request, nb, rf, nb + NEXT_OFFSET, nb + PREV_OFFSET, s.freeList + PREV_OFFSET})
  }

  /** A free-list hit hands back block m shrunk to the request, its header and
      footer flagged used and the footer inside the heap. */
  lemma ReuseBlock(s: State, m: int, request: int)
    requires Valid(s) && s.initialized && 0 <= request && request % 8 == 0
    requires Reuse(s, m, request).Done?
    ensures Reuse(s, m, request).value.ptr == DataAddr(m)
    ensures InUse(Reuse(s, m, request).value.state, m, request)
  {
    assert SizeAt(s, m).Done?;
    var t := SplitIfRoom(s, m, request, SizeOfWord(Word(s, m))).value;
    ReuseAfterSplit(s, m, request, t);
    ResizeInUse(t, m, request);
  }

  /** A resize to an aligned size that succeeds leaves the block in use at it. */
  lemma ResizeInUse(t: State, m: int, request: int)
    requires 0 <= request && request % 8 == 0 && Resize(t, m, request).Done?
    ensures InUse(Resize(t, m, request).value, m, request)
  {
    AlignedSizeWord(request);
  }

  /** A hit is the resize of the block found, in the state the split test leaves. */
  lemma ReuseAfterSplit(s: State, m: int, request: int, t: State)
    requires Valid(s) && s.initialized && 0 <= request && Addressable(s, m)
    requires SplitIfRoom(s, m, request, SizeOfWord(Word(s, m))) == Done(t)
    requires Resize(t, m, request).Done?
    ensures Reuse(s, m, request) == Done(Reply(Resize(t, m, request).value, DataAddr(m)))
  {
    assert SizeAt(s, m) == Done(SizeOfWord(Word(s, m)));
  }

  /** Where a carve of block `h` at `request` leaves the globals, `r` being the
      state it leaves: the footer lies below the break, which moved (if at all)
      only as far as needed, `last` is the block, `first` is set if it was NULL,
      and nothing else but the words changes. */
  ghost predicate CarvePlaced(s: State, r: State, h: int, request: int) {
    && var footer := h + HEADER_SIZE + request;
    && footer + FOOTER_SIZE <= r.heapEnd
    && (r.heapEnd > s.heapEnd ==> r.heapEnd - ALLOC_SIZE < footer + FOOTER_SIZE)
    && (r.heapEnd - s.heapEnd) % ALLOC_SIZE == 0
    && r == s.(mem := r.mem, heapEnd := r.heapEnd, first := if s.first == NULL then h else s.first, last := h)
  }

  /** Where Carve puts a fresh block, as CarvePlaced says, and the pointer it returns. */
  lemma CarvePlace(s: State, request: int)
    requires Valid(s) && s.initialized && 0 <= request && request % 8 == 0
    requires Carve(s, request).Done? && Carve(s, request).value.ptr != NULL
    ensures NextAvailable(s).Done?
    ensures Carve(s, request).value.ptr == DataAddr(NextAvailable(s).value)
    ensures CarvePlaced(s, Carve(s, request).value.state, NextAvailable(s).value, request)
  {
    CarveSteps(s, request);
    var h := NextAvailable(s).value;
    var (g, ok) := Grow(s, h + HEADER_SIZE + request + FOOTER_SIZE);
    var s1 := Resize(g, h, request).value;
    CarvePath(s, request, h, g, s1);
    GrownPlaced(s, g, s1, h, request);
  }

  /** CarvePlaced for a carve of block `h`: `g` is the heap grown far enough, `s1`
      the state after the resize, before the updates of first and last. */
  lemma GrownPlaced(s: State, g: State, s1: State, h: int, request: int)
    requires Valid(s) && s.initialized && 0 <= request
    requires var (g', ok) := Grow(s, h + HEADER_SIZE + request + FOOTER_SIZE); ok && g' == g
    requires Resize(g, h, request) == Done(s1)
    ensures CarvePlaced(s, (if s1.first == NULL then s1.(first := h) else s1).(last := h), h, request)
  {
    GrowSpec(s, h + HEADER_SIZE + request + FOOTER_SIZE);
  }

  /** A carve that returns a block found its place, grew the heap far enough and
      resized the block. */
  lemma CarveSteps(s: State, request: int)
    requires Valid(s) && s.initialized && 0 <= request
    requires Carve(s, request).Done? && Carve(s, request).value.ptr != NULL
    ensures NextAvailable(s).Done?
    ensures var h := NextAvailable(s).value;
      var (g, ok) := Grow(s, h + HEADER_SIZE + request + FOOTER_SIZE);
      ok && Resize(g, h, request).Done?
  {
  }

  /** Carve, once the block is found, the heap grown and the block resized. */
  lemma CarvePath(s: State, request: int, h: int, g: State, s1: State)
    requires Valid(s) && s.initialized && 0 <= request
    requires NextAvailable(s) == Done(h)
    requires var (g', ok) := Grow(s, h + HEADER_SIZE + request + FOOTER_SIZE); ok && g' == g
    requires Resize(g, h, request) == Done(s1)
    ensures Carve(s, request) == Done(Reply((if s1.first == NULL then s1.(first := h) else s1).(last := h), DataAddr(h)))
  {
  }

  /** The words a carve of block `h` at `request` writes, `r` being the state it
      leaves: the header gets the request, the footer that places lies in the
      grown heap and only loses its flag, and no other word changes. */
  ghost predicate CarveWrites(s: State, r: State, h: int, request: int) {
    && var footer := h + HEADER_SIZE + request;
    && var grown := s.(heapEnd := r.heapEnd);
    && Load(r, h) == Done(request)
    && Addressable(grown, footer)
    && Load(r, footer) == Done(SetUsedWord(Word(grown, footer)))
    && KeepsWordsBut(grown, r, {h, footer})
  }

  /** The words Carve writes, as CarveWrites says. */
  lemma CarveWords(s: State, request: int)
    requires Valid(s) && s.initialized && 0 <= request && request % 8 == 0
    requires Carve(s, request).Done? && Carve(s, request).value.ptr != NULL
    ensures NextAvailable(s).Done?
    ensures CarveWrites(s, Carve(s, request).value.state, NextAvailable(s).value, request)
  {
    CarveSteps(s, request);
    var h := NextAvailable(s).value;
    var (g, ok) := Grow(s, h + HEADER_SIZE + request + FOOTER_SIZE);
    var s1 := Resize(g, h, request).value;
    CarvePath(s, request, h, g, s1);
    GrownWrites(s, g, s1, h, request);
  }

  /** CarveWrites for a carve of block `h`, with `g` and `s1` as in GrownPlaced. */
  lemma GrownWrites(s: State, g: State, s1: State, h: int, request: int)
    requires Valid(s) && s.initialized && 0 <= request && request % 8 == 0
    requires var (g', ok) := Grow(s, h + HEADER_SIZE + request + FOOTER_SIZE); ok && g' == g
    requires Resize(g, h, request) == Done(s1)
    ensures CarveWrites(s, (if s1.first == NULL then s1.(first := h) else s1).(last := h), h, request)
  {
    GrowSpec(s, h + HEADER_SIZE + request + FOOTER_SIZE);
    ResizedFresh(s, g, (if s1.first == NULL then s1.(first := h) else s1).(last := h), h, request);
  }

  /** The resize of a carve, on the grown state `g`, whatever globals are then set. */
  lemma ResizedFresh(s: State, g: State, r: State, h: int, request: int)
    requires 0 <= request && request % 8 == 0 && g == s.(heapEnd := g.heapEnd)
    requires Resize(g, h, request).Done?
    requires r == Resize(g, h, request).value.(first := r.first, last := r.last)
    ensures CarveWrites(s, r, h, request)
  {
    AlignedSizeWord(request);
    LoadIgnoresGlobals(Resize(g, h, request).value, r);
  }

  /** When the system refuses to grow the heap far enough, Carve answers NULL and
      only the break has moved, by whole increments, as far as the system allowed. */
  lemma CarveRefused(s: State, request: int)
    requires Valid(s) && s.initialized && 0 <= request
    requires Carve(s, request).Done? && Carve(s, request).value.ptr == NULL
    ensures NextAvailable(s).Done?
    ensures var r, h := Carve(s, request).value.state, NextAvailable(s).value;
      && r == s.(heapEnd := r.heapEnd)
      && (r.heapEnd - s.heapEnd) % ALLOC_SIZE == 0
      && r.heapEnd < h + HEADER_SIZE + request + FOOTER_SIZE
      && !BreakMayRise(r, ALLOC_SIZE)
  {
    var h := NextAvailable(s).value;
    GrowSpec(s, h + HEADER_SIZE + request + FOOTER_SIZE);
  }

  // ---------------------------------------------------------------- Malloc as a whole

  /** The state Malloc works on: the heap set up first if it was not. */
  function Started(s: State): (t: State)
    requires Valid(s)
    ensures Valid(t)
  {
    if !s.initialized then Init(s) else s
  }

  /** The first-fit scan Malloc runs, on the state it works on. */
  function ScanFor(s: State, size: int): Outcome<int>
    requires Valid(s) && 0 <= size < TWO_64
  {
    var s1 := Started(s);
    Scan(s1, s1.freeList, Request(size), ScanFuel(s1))
  }

  /** Malloc on a free-list hit. */
  lemma MallocHitPath(s: State, size: int)
    requires Valid(s) && 0 <= size < TWO_64 && Started(s).initialized
    requires ScanFor(s, size).Done? && ScanFor(s, size).value != NULL
    ensures Malloc(s, size) == Reuse(Started(s), ScanFor(s, size).value, Request(size))
  {
  }

  /** Malloc on a miss. */
  lemma MallocCarvePath(s: State, size: int)
    requires Valid(s) && 0 <= size < TWO_64 && Started(s).initialized
    requires ScanFor(s, size) == Done(NULL)
    ensures Malloc(s, size) == Carve(Started(s), Request(size))
  {
  }

  /** Whatever path Malloc takes, a non-NULL answer is the data address of a header
      holding round(max(size, 16)) with the free flag clear, whose footer lies in
      the heap, also flagged used. */
  lemma MallocBlock(s: State, size: int)
    requires Valid(s) && 0 <= size < TWO_64
    requires Malloc(s, size).Done? && Malloc(s, size).value.ptr != NULL
    ensures InUse(Malloc(s, size).value.state, HeadAddr(Malloc(s, size).value.ptr), Request(size))
  {
    assert Started(s).initialized && ScanFor(s, size).Done?;
    if ScanFor(s, size).value != NULL {
      MallocHitBlock(s, size);
    } else {
      MallocCarveBlock(s, size);
    }
  }

  /** The size Malloc looks for, when asked for 2^32 bytes or more: fewer bytes
      than were asked for, the rounding of the size 2^32 bytes smaller (none at
      all for 2^32, or when adding 7 wraps uint64_t). */
  lemma RequestTruncates(size: int)
    requires TWO_32 <= size < TWO_64
    ensures Request(size) < size
    ensures size + 7 < TWO_64 ==> Request(size) == Round(size - TWO_32)
    ensures size == TWO_32 || TWO_64 <= size + 7 ==> Request(size) == 0
  {
    RoundTruncates(size);
  }

  /** The truncation seen from Malloc: asked for 2^32 bytes or more, a non-NULL
      Malloc hands out a block whose header holds fewer bytes than were asked for. */
  lemma MallocShortBlock(s: State, size: int)
    requires Valid(s) && TWO_32 <= size < TWO_64
    requires Malloc(s, size).Done? && Malloc(s, size).value.ptr != NULL
    ensures InUse(Malloc(s, size).value.state, HeadAddr(Malloc(s, size).value.ptr), Request(size))
    ensures Request(size) < size
  {
    MallocBlock(s, size);
    RequestTruncates(size);
  }

  /** A non-NULL answer on a free-list hit. */
  lemma MallocHitBlock(s: State, size: int)
    requires Valid(s) && 0 <= size < TWO_64 && Started(s).initialized
    requires ScanFor(s, size).Done? && ScanFor(s, size).value != NULL
    requires Malloc(s, size).Done?
    ensures InUse(Malloc(s, size).value.state, HeadAddr(Malloc(s, size).value.ptr), Request(size))
  {
    MallocHitPath(s, size);
    ReuseBlock(Started(s), ScanFor(s, size).value, Request(size));
  }

  /** A non-NULL answer on a miss. */
  lemma MallocCarveBlock(s: State, size: int)
    requires Valid(s) && 0 <= size < TWO_64 && Started(s).initialized
    requires ScanFor(s, size) == Done(NULL)
    requires Malloc(s, size).Done? && Malloc(s, size).value.ptr != NULL
    ensures InUse(Malloc(s, size).value.state, HeadAddr(Malloc(s, size).value.ptr), Request(size))
  {
    MallocCarvePath(s, size);
    CarveInUse(Started(s), Request(size));
  }

  /** A block Carve hands out is in use at the request. */
  lemma CarveInUse(s: State, request: int)
    requires Valid(s) && s.initialized && 0 <= request && request % 8 == 0
    requires Carve(s, request).Done? && Carve(s, request).value.ptr != NULL
    ensures InUse(Carve(s, request).value.state, HeadAddr(Carve(s, request).value.ptr), request)
  {
    CarvePlace(s, request);
    CarveWords(s, request);
    CarvedInUse(s, Carve(s, request).value.state, NextAvailable(s).value, request);
  }

  /** What CarvePlaced and CarveWrites say together: the block is in use. */
  lemma CarvedInUse(s: State, r: State, h: int, request: int)
    requires CarvePlaced(s, r, h, request) && CarveWrites(s, r, h, request)
    ensures InUse(r, h, request)
  {
  }

  /** Once init has failed, every Malloc answers NULL and changes nothing, so the
      next one fails the same way. */
  lemma InitFailureSticks(s: State, size: int)
    requires Valid(s) && 0 <= size < TWO_64
    requires !s.initialized && s.capacity < INITIAL_HEAP_SIZE
    ensures Malloc(s, size) == Done(Reply(s, NULL))
  {
  }

  /** Malloc answers NULL only when init fails, leaving the state as it was, or when
      the system refuses to grow the heap: then only the break has moved, by whole
      increments, and it can move no further. */
  lemma MallocNull(s: State, size: int)
    requires Valid(s) && 0 <= size < TWO_64
    requires Malloc(s, size).Done? && Malloc(s, size).value.ptr == NULL
    ensures var r := Malloc(s, size).value.state;
      || (!s.initialized && s.capacity < INITIAL_HEAP_SIZE && r == s)
      || (&& r.initialized
          && r == Started(s).(heapEnd := r.heapEnd)
          && Started(s).heapEnd <= r.heapEnd
          && (r.heapEnd - Started(s).heapEnd) % ALLOC_SIZE == 0
          && !BreakMayRise(r, ALLOC_SIZE))
  {
    var s1 := Started(s);
    if s1.initialized {
      var request := Request(size);
      var m := Scan(s1, s1.freeList, request, ScanFuel(s1)).value;
      if m != NULL {
        ReuseBlock(s1, m, request);
      } else {
        CarveRefused(s1, request);
      }
    }
  }

  /** What carving leaves when the free list was empty: in `r`, the block `h` comes
      right after the last one (at the heap base when there is none), it is `last`,
      `first` is set only if it was NULL, and only the new header and the footer
      `request` places are written; the footer keeps whatever size word it held. */
  ghost predicate CarvedAfterLast(s: State, r: State, h: int, request: int) {
    && (s.last != NULL ==> SizeAt(s, s.last).Done?)
    && var footer := h + HEADER_SIZE + request;
    && var grown := s.(initialized := true, heapEnd := r.heapEnd);
    && h == (if s.last == NULL then s.base else s.last + HEADER_SIZE + SizeAt(s, s.last).value + FOOTER_SIZE)
    && r == grown.(mem := r.mem, first := if s.first == NULL then h else s.first, last := h)
    && Addressable(grown, footer)
    && Load(r, footer) == Done(SetUsedWord(Word(grown, footer)))
    && KeepsWordsBut(grown, r, {h, footer})
  }

  /** With an empty free list a non-NULL Malloc carves a fresh block right after the
      last one, as CarvedAfterLast describes. */
  lemma MallocFresh(s: State, size: int)
    requires Valid(s) && 0 <= size < TWO_64 && s.freeList == NULL
    requires Malloc(s, size).Done? && Malloc(s, size).value.ptr != NULL
    ensures CarvedAfterLast(s, Malloc(s, size).value.state, HeadAddr(Malloc(s, size).value.ptr), Request(size))
  {
    var s1, request := Started(s), Request(size);
    MallocCarvePath(s, size);
    CarvePlace(s1, request);
    CarveWords(s1, request);
    FreshAfterLast(s, s1, Carve(s1, request).value.state, NextAvailable(s1).value, request);
  }

  /** A carve on the state Malloc works on, seen from the state before the call. */
  lemma FreshAfterLast(s: State, s1: State, r: State, h: int, request: int)
    requires Valid(s) && s1 == Started(s) && s1.initialized && NextAvailable(s1) == Done(h)
    requires CarvePlaced(s1, r, h, request) && CarveWrites(s1, r, h, request)
    ensures CarvedAfterLast(s, r, h, request)
  {
  }

  /** A carve after the last block changes no word in front of the new block. */
  lemma CarveKeepsBelow(s: State, r: State, h: int, request: int, a: int)
    requires CarvedAfterLast(s, r, h, request) && 0 <= request
    requires Addressable(s, a) && a < h
    ensures Load(r, a) == Load(s, a)
  {
    var grown := s.(initialized := true, heapEnd := r.heapEnd);
    assert Addressable(grown, a);
  }

  /** The check of the driver's first loop (malloc.c:248-259): with the free list
      empty, the block of a second Malloc starts right after the footer of the
      first, as the first block's size word places it, and that size word still
      holds the request once the second Malloc is done, when the driver reads it. */
  lemma SuccessiveBlocksAdjoin(s: State, a: int, b: int)
    requires Valid(s) && 0 <= a < TWO_64 && 0 <= b < TWO_64 && s.freeList == NULL
    requires Malloc(s, a).Done? && Malloc(s, a).value.ptr != NULL
    requires Malloc(Malloc(s, a).value.state, b).Done? && Malloc(Malloc(s, a).value.state, b).value.ptr != NULL
    ensures var r1 := Malloc(s, a).value;
      && var h1, h2 := HeadAddr(r1.ptr), HeadAddr(Malloc(r1.state, b).value.ptr);
      && Load(r1.state, h1) == Done(Request(a))
      && h2 == h1 + HEADER_SIZE + SizeOfWord(Word(r1.state, h1)) + FOOTER_SIZE
      && h2 == h1 + HEADER_SIZE + Request(a) + FOOTER_SIZE
      && Load(Malloc(r1.state, b).value.state, h1) == Done(Request(a))
  {
    var r1 := Malloc(s, a).value;
    MallocFresh(s, a);
    MallocBlock(s, a);
    AlignedSizeWord(Request(a));
    MallocFresh(r1.state, b);
    var h1, h2 := HeadAddr(r1.ptr), HeadAddr(Malloc(r1.state, b).value.ptr);
    CarveKeepsBelow(r1.state, Malloc(r1.state, b).value.state, h2, Request(b), h1);
  }
}
