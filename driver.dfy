/** The driver's second loop (malloc.c:260-268) on a fresh heap: Malloc, Free,
    Malloc and Free of 16 bytes, then Malloc of 24 bytes. The two 16-byte Mallocs
    hand out the same pointer, as the loop checks, but the second Free puts the
    block on the free list a second time, making it its own successor, and the
    24-byte Malloc then walks that cycle for ever. */
module Driver {
  import opened Words
  import opened Region
  import opened FreeList
  import opened FreeListLemmas
  import opened Alloc
  import opened MallocLemmas

  /** A first-fit walk that reaches a block too small for the request whose `next`
      is the block itself never ends. */
  lemma {:induction false} ScanCycles(s: State, m: int, request: int, fuel: nat)
    requires m != NULL && SizeAt(s, m).Done? && SizeAt(s, m).value < request
    requires Load(s, m + NEXT_OFFSET) == Done(m)
    ensures Scan(s, m, request, fuel) == Hang
    decreases fuel
  {
    if fuel > 0 {
      ScanCycles(s, m, request, fuel - 1);
    }
  }

  /** The heap holds the one block at `b`, first and last, whose header word is
      `size` and whose footer word, 24 bytes on, is `footer`; the free list is
      `list`, and when that is not NULL the block's links are `next` and `prev`. */
  ghost predicate OneBlock(s: State, b: int, size: int, footer: int, list: int, next: int, prev: int) {
    && Valid(s) && s.initialized && s.base == b && s.heapEnd == b + INITIAL_HEAP_SIZE
    && s.first == b && s.last == b && s.freeList == list
    && Load(s, b) == Done(size)
    && Load(s, b + 24) == Done(footer)
    && (list != NULL ==> Load(s, b + NEXT_OFFSET) == Done(next) && Load(s, b + PREV_OFFSET) == Done(prev))
  }

  /** Malloc(16) on a fresh heap carves the first block at the base. */
  lemma FirstMalloc(b: int, c: int)
    requires NULL + HEADER_STRUCT_SIZE <= b && INITIAL_HEAP_SIZE <= c && b + c < TWO_64
    ensures var r := Malloc(Fresh(b, c), 16);
      && r.Done? && r.value.ptr == DataAddr(b)
      && OneBlock(r.value.state, b, 16, 0, NULL, NULL, NULL)
  {
    var s := Fresh(b, c);
    assert Request(16) == 16;
    assert ScanFor(s, 16) == Done(NULL);
    MallocCarvePath(s, 16);
    FirstCarve(Started(s), b);
  }

  /** The carve of that first Malloc, on the heap init has just set up. */
  lemma FirstCarve(s: State, b: int)
    requires Valid(s) && s.initialized && s.base == b && s.heapEnd == b + INITIAL_HEAP_SIZE
    requires s.first == NULL && s.last == NULL && s.freeList == NULL && s.mem == map[]
    ensures var r := Carve(s, 16);
      && r.Done? && r.value.ptr == DataAddr(b)
      && OneBlock(r.value.state, b, 16, 0, NULL, NULL, NULL)
  {
    assert NextAvailable(s) == Done(b);
    assert Carve(s, 16).Done? && Carve(s, 16).value.ptr != NULL;
    CarvePlace(s, 16);
    CarveWords(s, 16);
    CarvedFirst(s, Carve(s, 16).value.state, b);
  }

  /** What CarvePlaced and CarveWrites say of the first block. */
  lemma CarvedFirst(s: State, r: State, b: int)
    requires Valid(s) && s.initialized && s.base == b && s.heapEnd == b + INITIAL_HEAP_SIZE
    requires s.first == NULL && s.last == NULL && s.freeList == NULL && s.mem == map[]
    requires CarvePlaced(s, r, b, 16) && CarveWrites(s, r, b, 16)
    ensures OneBlock(r, b, 16, 0, NULL, NULL, NULL)
  {
    assert r.heapEnd == s.heapEnd;
    assert Word(s, b + 24) == 0;
    ValidWhenShaped(s, r);
  }

  /** On a fresh heap a second Malloc(16) carves the block right after the first,
      whose footer size word was never written and so reads 0. Free of that second
      block then takes the header in front of it to lie 16 bytes past the first
      header, at the first block's second data word: malloc.c:193-194 lands inside
      the first block's data. */
  lemma PrevOfSecondBlock(b: int, c: int)
    requires NULL + HEADER_STRUCT_SIZE <= b && INITIAL_HEAP_SIZE <= c && b + c < TWO_64
    ensures var r1 := Malloc(Fresh(b, c), 16);
      && r1.Done?
      && var r2 := Malloc(r1.value.state, 16);
      && r2.Done? && r2.value.ptr == DataAddr(b + 32)
      && Load(r2.value.state, b + 24) == Done(0)
      && PrevBlock(r2.value.state, HeadAddr(r2.value.ptr)) == Done(b + 16)
  {
    FirstMalloc(b, c);
    SecondBlockPrev(Malloc(Fresh(b, c), 16).value.state, b);
  }

  /** Malloc(16) on the heap holding only the first block, never freed, carves the
      second block, whose physical predecessor Free computes as b + 16. */
  lemma SecondBlockPrev(s: State, b: int)
    requires OneBlock(s, b, 16, 0, NULL, NULL, NULL)
    ensures var r := Malloc(s, 16);
      && r.Done? && r.value.ptr == DataAddr(b + 32)
      && Load(r.value.state, b + 24) == Done(0)
      && PrevBlock(r.value.state, HeadAddr(r.value.ptr)) == Done(b + 16)
  {
    assert Request(16) == 16;
    assert ScanFor(s, 16) == Done(NULL);
    MallocCarvePath(s, 16);
    SecondCarve(s, b);
  }

  /** The carve of that second Malloc, on the heap holding the first block. */
  lemma SecondCarve(s: State, b: int)
    requires OneBlock(s, b, 16, 0, NULL, NULL, NULL)
    ensures var r := Carve(s, 16);
      && r.Done? && r.value.ptr == DataAddr(b + 32) && r.value.state.first == b
      && Load(r.value.state, b + 24) == Done(0)
  {
    assert NextAvailable(s) == Done(b + 32);
    assert Carve(s, 16).Done? && Carve(s, 16).value.ptr != NULL;
    CarvePlace(s, 16);
    CarveWords(s, 16);
  }

  /** Free of that block, with no neighbours, flags it free and makes it the list. */
  lemma FirstFree(s: State, b: int)
    requires OneBlock(s, b, 16, 0, NULL, NULL, NULL)
    ensures var r := Free(s, DataAddr(b));
      && r.Done? && OneBlock(r.value, b, 17, 1, b, NULL, NULL)
  {
    FreeOnlyBlock(s, b);
    var s1 := MarkFree(s, b).value;
    AddToFreeListWords(s1, b);
    PushFrontWords(s1, b);
  }

  /** Malloc(16) again finds the block, too small to split, and hands out the same
      pointer, leaving the block on the free list. */
  lemma SecondMalloc(s: State, b: int)
    requires OneBlock(s, b, 17, 1, b, NULL, NULL)
    ensures var r := Malloc(s, 16);
      && r.Done? && r.value.ptr == DataAddr(b)
      && OneBlock(r.value.state, b, 16, 0, b, NULL, NULL)
  {
    assert Request(16) == 16;
    assert ScanFor(s, 16) == Done(b);
    MallocHitPath(s, 16);
    assert SizeAt(s, b) == Done(16);
    assert SplitIfRoom(s, b, 16, 16) == Done(s);
  }

  /** Free of it again pushes the block on the list it already heads: it becomes
      its own `next` and `prev`. */
  lemma SecondFree(s: State, b: int)
    requires OneBlock(s, b, 16, 0, b, NULL, NULL)
    ensures var r := Free(s, DataAddr(b));
      && r.Done? && OneBlock(r.value, b, 17, 1, b, b, b)
  {
    FreeOnlyBlock(s, b);
    AddHeadAgain(MarkFree(s, b).value, b);
  }

  /** Free of the only block in the heap releases it: neither neighbour exists. */
  lemma FreeOnlyBlock(s: State, b: int)
    requires Valid(s) && s.initialized && NULL < b && s.first == b && s.last == b
    ensures Free(s, DataAddr(b)) == Release(s, b)
  {
  }

  /** Malloc(24) then never returns. */
  lemma ThirdMalloc(s: State, b: int)
    requires OneBlock(s, b, 17, 1, b, b, b)
    ensures Malloc(s, 24) == Hang
  {
    ScanCycles(s, b, Request(24), ScanFuel(s));
  }

  /** The whole sequence: both 16-byte Mallocs answer the same pointer, and the 24-byte
      Malloc after them never returns. */
  lemma ReuseLoopHangs(b: int, c: int)
    requires NULL + HEADER_STRUCT_SIZE <= b && INITIAL_HEAP_SIZE <= c && b + c < TWO_64
    ensures var r1 := Malloc(Fresh(b, c), 16);
      && r1.Done? && r1.value.ptr == DataAddr(b)
      && var f1 := Free(r1.value.state, r1.value.ptr);
      && f1.Done?
      && var r2 := Malloc(f1.value, 16);
      && r2.Done? && r2.value.ptr == r1.value.ptr
      && var f2 := Free(r2.value.state, r2.value.ptr);
      && f2.Done?
      && Malloc(f2.value, 24) == Hang
  {
    FirstMalloc(b, c);
    var s1 := Malloc(Fresh(b, c), 16).value.state;
    FirstFree(s1, b);
    var s2 := Free(s1, DataAddr(b)).value;
    SecondMalloc(s2, b);
    var s3 := Malloc(s2, 16).value.state;
    SecondFree(s3, b);
    ThirdMalloc(Free(s3, DataAddr(b)).value, b);
  }
}
