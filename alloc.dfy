/** Malloc and Free as functions of the allocator state: what each call returns
    and the state it leaves, step for step as malloc.c takes those steps. */
module Alloc {
  import opened Words
  import opened Region
  import opened FreeList

  /** What Malloc hands back: the new state and the pointer (NULL on failure). */
  datatype Reply = Reply(state: State, ptr: int)

  function Max(a: int, b: int): int {
    if a < b then b else a
  }

  /** The size Malloc looks for: the request raised to MINIMUM_ALLOC_SIZE, then
      rounded (and truncated, as round() does). */
  function Request(size: int): (r: int)
    requires 0 <= size < TWO_64
    ensures 0 <= r < TWO_32 && r % 8 == 0
  {
    Round(Max(size, MINIMUM_ALLOC_SIZE))
  }

  // ---------------------------------------------------------------- the first-fit scan

  /** One more than the number of words below the break: a walk of the free list
      that takes this many steps without leaving the heap has visited some header
      twice, and so goes round a cycle for ever. */
  function ScanFuel(s: State): nat {
    if s.heapEnd <= s.base then 1 else (s.heapEnd - s.base) / 8 + 1
  }

  /** The loop of malloc.c:149-167: the first block from `m` on whose size is at least
      `request`, or NULL when the walk reaches NULL. */
  function Scan(s: State, m: int, request: int, fuel: nat): (r: Outcome<int>)
    ensures r.Done? && r.value != NULL ==> SizeAt(s, r.value).Done? && SizeAt(s, r.value).value >= request
    decreases fuel
  {
    if m == NULL then Done(NULL)
    else if fuel == 0 then Hang
    else
      var size :- SizeAt(s, m);
      if size >= request then Done(m)
      else
        var next :- Load(s, m + NEXT_OFFSET);
        Scan(s, next, request, fuel - 1)
  }

  // ---------------------------------------------------------------- Malloc

  /** The split of malloc.c:155-159: the header at `remainder` gets `size`, goes on
      the free list, and is flagged free, header and footer. */
  function Split(s: State, remainder: int, size: int): (r: Outcome<State>)
    ensures r.Done? ==> Shape(r.value) == Shape(s)
  {
    var s1 :- Store(s, remainder, size);
    var s2 :- AddToFreeList(s1, remainder);
    MarkFree(s2, remainder)
  }

  /** Where the split puts the remainder's header: past the request and a footer
      (malloc.c:155). */
  function RemainderAt(m: int, request: int): int {
    m + HEADER_SIZE + request + FOOTER_SIZE
  }

  /** The size the split gives the remainder (malloc.c:156), in uint64_t arithmetic. */
  function RemainderSize(size: int, request: int): int {
    var total := Wrap64(size + HEADER_STRUCT_SIZE + FOOTER_SIZE);
    var needed := Wrap64(request + HEADER_SIZE + FOOTER_SIZE);
    Wrap64(total - needed - FOOTER_SIZE - HEADER_SIZE)
  }

  /** The test of malloc.c:152-154 on block `m` of `size` bytes, in uint64_t
      arithmetic, and the split it calls for (malloc.c:155-159); the state is
      left alone when the test fails. */
  function SplitIfRoom(s: State, m: int, request: int, size: int): (r: Outcome<State>)
    ensures r.Done? ==> Shape(r.value) == Shape(s)
  {
    var total := Wrap64(size + HEADER_STRUCT_SIZE + FOOTER_SIZE);
    var needed := Wrap64(request + HEADER_SIZE + FOOTER_SIZE);
    if Wrap64(total - needed) >= MINIMUM_BLOCK_SIZE
    then Split(s, RemainderAt(m, request), RemainderSize(size, request))
    else Done(s)
  }

  /** A free-list hit (malloc.c:150-164) on block `m`: split off the tail if big
      enough, then shrink `m` to the request and flag it used. */
  function Reuse(s: State, m: int, request: int): (r: Outcome<Reply>)
    requires Valid(s) && s.initialized && 0 <= request
    ensures r.Done? ==> Valid(r.value.state)
  {
    var size :- SizeAt(s, m);
    var s1 :- SplitIfRoom(s, m, request, size);
    var s2 :- Resize(s1, m, request);
    ValidWhenShaped(s, s2);
    Done(Reply(s2, DataAddr(m)))
  }

  /** The block's size word gets `size`, then header and footer lose the free flag
      (malloc.c:161-163, and again 174-176). The footer is the one `size` places;
      its own size word is not written. */
  function Resize(s: State, block: int, size: int): (r: Outcome<State>)
    requires 0 <= size
    ensures var footer := block + HEADER_SIZE + SizeOfWord(size);
      && (r.Done? <==> Addressable(s, block) && Addressable(s, footer))
      && (r.Done? ==> r.value == s.(mem := r.value.mem))
      && (r.Done? ==> Load(r.value, block) == Done(SetUsedWord(size)))
      && (r.Done? ==> Load(r.value, footer) == Done(SetUsedWord(Word(s, footer))))
      && (r.Done? ==> forall b :: b != block && b != footer ==> Load(r.value, b) == Load(s, b))
  {
    var s1 :- Store(s, block, size);
    assert FooterAt(s1, block) == block + HEADER_SIZE + SizeOfWord(size);
    MarkUsed(s1, block)
  }

  /** A miss (malloc.c:168-181): carve a block at the next free spot, growing the
      heap until it fits; NULL when the system refuses more. */
  function Carve(s: State, request: int): (r: Outcome<Reply>)
    requires Valid(s) && s.initialized && 0 <= request
    ensures r.Done? ==> Valid(r.value.state)
  {
    var block :- NextAvailable(s);
    GrowSpec(s, block + HEADER_SIZE + request + FOOTER_SIZE);
    var (g, ok) := Grow(s, block + HEADER_SIZE + request + FOOTER_SIZE);
    if !ok then Done(Reply(g, NULL))
    else
      var s1 :- Resize(g, block, request);
      var s2 := if s1.first == NULL then s1.(first := block) else s1;
      var s3 := s2.(last := block);
      ValidWhenShaped(g, s3);
      Done(Reply(s3, DataAddr(block)))
  }

  /** Malloc(size) */
  function Malloc(s: State, size: int): (r: Outcome<Reply>)
    requires Valid(s) && 0 <= size < TWO_64
    ensures r.Done? ==> Valid(r.value.state)
  {
    var s1 := if !s.initialized then Init(s) else s;
    if !s1.initialized then Done(Reply(s1, NULL))
    else
      var request := Request(size);
      var m :- Scan(s1, s1.freeList, request, ScanFuel(s1));
      if m != NULL then Reuse(s1, m, request) else Carve(s1, request)
  }

  // ---------------------------------------------------------------- Free

  /** The common tail of the three merges (malloc.c:208-212 and the like): the
      surviving block is retagged, then goes on the free list. */
  function Coalesce(s: State, block: int, usable: int): (r: Outcome<State>)
    ensures r.Done? ==> Shape(r.value) == Shape(s)
  {
    var s1 :- Retag(s, block, usable);
    AddToFreeList(s1, block)
  }

  /** The surviving header gets the merged size and the free flag, and so does the
      footer that size places (malloc.c:208-211). */
  function Retag(s: State, block: int, usable: int): (r: Outcome<State>)
    ensures r.Done? ==> Shape(r.value) == Shape(s)
  {
    var s1 :- Store(s, block, usable);
    var s2 :- SetFreeAt(s1, block);
    var footer :- FooterFromHeader(s2, block);
    var s3 :- Store(s2, footer, usable);
    var footer' :- FooterFromHeader(s3, block);
    SetFreeAt(s3, footer')
  }

  /** usable_size of a merge of two blocks of sizes `a` and `b` (malloc.c:218-219,
      230-231): their sizes plus two headers and two footers, less one of each, in
      uint64_t arithmetic; one header and one footer more than the sum when
      nothing wraps. */
  function UsableSize2(a: int, b: int): (r: int)
    ensures 0 <= r < TWO_64
    ensures 0 <= a && 0 <= b && a + b + HEADER_SIZE + FOOTER_SIZE < TWO_64 ==>
      r == a + b + HEADER_SIZE + FOOTER_SIZE
    ensures 0 <= a && 0 <= b && a + b + HEADER_SIZE + FOOTER_SIZE < TWO_64 && a % 2 == 0 && b % 2 == 0 ==>
      MINIMUM_ALLOC_SIZE <= r && r % 2 == 0
  {
    var total := Wrap64(a + b + 2 * HEADER_SIZE + 2 * FOOTER_SIZE);
    Wrap64(total - HEADER_SIZE - FOOTER_SIZE)
  }

  /** usable_size of a merge of three blocks (malloc.c:206-207): two headers and
      two footers more than the sum when nothing wraps. */
  function UsableSize3(a: int, b: int, c: int): (r: int)
    ensures 0 <= r < TWO_64
    ensures 0 <= a && 0 <= b && 0 <= c && a + b + c + 2 * (HEADER_SIZE + FOOTER_SIZE) < TWO_64 ==>
      r == a + b + c + 2 * (HEADER_SIZE + FOOTER_SIZE)
    ensures 0 <= a && 0 <= b && 0 <= c && a + b + c + 2 * (HEADER_SIZE + FOOTER_SIZE) < TWO_64
            && a % 2 == 0 && b % 2 == 0 && c % 2 == 0 ==>
      MINIMUM_ALLOC_SIZE <= r && r % 2 == 0
  {
    var total := Wrap64(a + b + c + 3 * HEADER_SIZE + 3 * FOOTER_SIZE);
    Wrap64(total - HEADER_SIZE - FOOTER_SIZE)
  }

  /** Both neighbours free (malloc.c:199-212) */
  function MergeAll(s: State, m: int, prev: int, next: int): (r: Outcome<State>)
    ensures r.Done? ==> Shape(r.value) == Shape(s) && s.initialized
  {
    var s1 :- RemoveFromFreeList(s, next);
    var s2 :- RemoveFromFreeList(s1, prev);
    var s3 := if next == s2.last then s2.(last := prev) else s2;
    var sp :- SizeAt(s3, prev);
    var sm :- SizeAt(s3, m);
    var sn :- SizeAt(s3, next);
    Coalesce(s3, prev, UsableSize3(sp, sm, sn))
  }

  /** Only the block before free (malloc.c:213-224) */
  function MergeWithPrev(s: State, m: int, prev: int): (r: Outcome<State>)
    ensures r.Done? ==> Shape(r.value) == Shape(s) && s.initialized
  {
    var s1 :- RemoveFromFreeList(s, prev);
    var s2 := if m == s1.last then s1.(last := prev) else s1;
    var sp :- SizeAt(s2, prev);
    var sm :- SizeAt(s2, m);
    Coalesce(s2, prev, UsableSize2(sp, sm))
  }

  /** Only the block after free (malloc.c:225-236) */
  function MergeWithNext(s: State, m: int, next: int): (r: Outcome<State>)
    ensures r.Done? ==> Shape(r.value) == Shape(s) && s.initialized
  {
    var s1 :- RemoveFromFreeList(s, next);
    var s2 := if next == s1.last then s1.(last := m) else s1;
    var sm :- SizeAt(s2, m);
    var sn :- SizeAt(s2, next);
    Coalesce(s2, m, UsableSize2(sm, sn))
  }

  /** Neither neighbour free (malloc.c:237-241) */
  function Release(s: State, m: int): (r: Outcome<State>)
    ensures r.Done? ==> Shape(r.value) == Shape(s) && s.initialized
  {
    var s1 :- MarkFree(s, m);
    AddToFreeList(s1, m)
  }

  /** The block physically before `m`, found through the footer in front of it, or
      NULL for the first block (malloc.c:192-195). */
  function PrevBlock(s: State, m: int): Outcome<int> {
    if m == s.first then Done(NULL) else HeaderFromFooter(s, m - FOOTER_SIZE)
  }

  /** The block physically after `m`, or NULL for the last block (malloc.c:196-198). */
  function NextBlock(s: State, m: int): Outcome<int> {
    if m == s.last then Done(NULL)
    else
      var size :- SizeAt(s, m);
      Done(m + HEADER_SIZE + size + FOOTER_SIZE)
  }

  /** is_free on a neighbour that exists; false for NULL */
  function NeighbourFree(s: State, block: int): Outcome<bool> {
    if block == NULL then Done(false) else IsFreeAt(s, block)
  }

  /** Free(p) */
  function Free(s: State, p: int): (r: Outcome<State>)
    requires Valid(s)
    ensures r.Done? ==> Valid(r.value)
  {
    if p == NULL then Done(s)
    else
      var m := HeadAddr(p);
      var prev :- PrevBlock(s, m);
      var next :- NextBlock(s, m);
      var nextFree :- NeighbourFree(s, next);
      var prevFree :- NeighbourFree(s, prev);
      var r :- Dispatch(s, m, prev, next, prevFree, nextFree);
      ValidWhenShaped(s, r);
      Done(r)
  }

  /** The four cases of malloc.c:199-241, given which neighbours are free. */
  function Dispatch(s: State, m: int, prev: int, next: int, prevFree: bool, nextFree: bool): (r: Outcome<State>)
    ensures r.Done? ==> Shape(r.value) == Shape(s) && s.initialized
  {
    if nextFree && prevFree then MergeAll(s, m, prev, next)
    else if prevFree then MergeWithPrev(s, m, prev)
    else if nextFree then MergeWithNext(s, m, next)
    else Release(s, m)
  }
}
