/** The allocator as the C program runs it: one object holding the heap's words and
    the five globals, updated in place statement by statement. Each method is
    proved to leave exactly the state, and answer exactly the value, that the
    function of the same name in Region, FreeList or Alloc computes from the state
    before the call; all the properties proved of those functions therefore hold of
    these methods. The methods require the function's outcome to be Done: a call
    whose C counterpart would make an undefined access, or loop for ever, is not
    one they can be given. */
module HeapObject {
  import opened Words
  import opened Region
  import opened FreeList
  import Alloc
  import MallocLemmas

  class Heap {
    /** sbrk(0) when the heap is set up, and how far the break may then rise */
    const base: int
    const capacity: int
    /** the words written so far, by address */
    var mem: map<int, int>
    /** whether the heap has been set up */
    var initialized: bool
    var heapEnd: int
    var first: int
    var last: int
    var freeList: int

    /** The object's fields as a State value. */
    function Snapshot(): State
      reads this
    {
      State(base, capacity, mem, initialized, heapEnd, first, last, freeList)
    }

    /** A process before its first Malloc: nothing written, no heap yet. */
    constructor(base: int, capacity: int)
      requires NULL + HEADER_STRUCT_SIZE <= base && 0 <= capacity && base + capacity < TWO_64
      ensures Snapshot() == Fresh(base, capacity)
    {
      this.base := base;
      this.capacity := capacity;
      mem := map[];
      initialized := false;
      heapEnd := -1;
      first := NULL;
      last := NULL;
      freeList := NULL;
    }

    // ------------------------------------------------------------ words

    /** Read the word at `a`. */
    method Get(a: int) returns (w: int)
      requires Addressable(Snapshot(), a)
      ensures Load(Snapshot(), a) == Done(w)
    {
      w := if a in mem then mem[a] else 0;
    }

    /** Write `v` to the word at `a`. */
    method Put(a: int, v: int)
      requires Addressable(Snapshot(), a)
      modifies this
      ensures Store(old(Snapshot()), a, v) == Done(Snapshot())
    {
      mem := mem[a := v];
    }

    /** get_size */
    method GetSize(a: int) returns (size: int)
      requires Addressable(Snapshot(), a)
      ensures SizeAt(Snapshot(), a) == Done(size)
    {
      var w := Get(a);
      size := w - w % 2;
    }

    /** is_free */
    method IsFree(a: int) returns (free: bool)
      requires Addressable(Snapshot(), a)
      ensures IsFreeAt(Snapshot(), a) == Done(free)
    {
      var w := Get(a);
      free := w % 2 == 1;
    }

    /** set_free */
    method SetFree(a: int)
      requires Addressable(Snapshot(), a)
      modifies this
      ensures SetFreeAt(old(Snapshot()), a) == Done(Snapshot())
    {
      var w := Get(a);
      Put(a, if w % 2 == 1 then w else w + 1);
    }

    /** set_used */
    method SetUsed(a: int)
      requires Addressable(Snapshot(), a)
      modifies this
      ensures SetUsedAt(old(Snapshot()), a) == Done(Snapshot())
    {
      var w := Get(a);
      Put(a, w - w % 2);
    }

    /** get_footer_from_header */
    method FooterOf(header: int) returns (footer: int)
      requires Addressable(Snapshot(), header)
      ensures FooterFromHeader(Snapshot(), header) == Done(footer)
    {
      var size := GetSize(header);
      footer := header + size + HEADER_SIZE;
    }

    /** get_header_from_footer */
    method HeaderOf(footer: int) returns (header: int)
      requires Addressable(Snapshot(), footer)
      ensures HeaderFromFooter(Snapshot(), footer) == Done(header)
    {
      var size := GetSize(footer);
      header := footer - size - HEADER_SIZE;
    }

    /** next_available_block */
    method NextAvailableBlock() returns (block: int)
      requires NextAvailable(Snapshot()).Done?
      ensures NextAvailable(Snapshot()) == Done(block)
    {
      if last == NULL {
        block := base;
      } else {
        var size := GetSize(last);
        block := last + HEADER_SIZE + size + FOOTER_SIZE;
      }
    }

    // ------------------------------------------------------------ the break

    /** Sbrk(): the break rises by ALLOC_SIZE unless the system refuses. */
    method Sbrk() returns (failed: bool)
      modifies this
      ensures Region.Sbrk(old(Snapshot())) == (Snapshot(), failed)
    {
      if heapEnd + ALLOC_SIZE <= base + capacity {
        heapEnd := heapEnd + ALLOC_SIZE;
        failed := false;
      } else {
        failed := true;
      }
    }

    /** init() */
    method Init()
      requires Valid(Snapshot())
      modifies this
      ensures Snapshot() == Region.Init(old(Snapshot()))
    {
      if !initialized {
        if INITIAL_HEAP_SIZE <= capacity {
          initialized := true;
          heapEnd := base + INITIAL_HEAP_SIZE;
        } else {
          initialized := false;
          heapEnd := -1;
        }
      }
    }

    /** The growth loop of Malloc (malloc.c:169-173): Sbrk until `need` fits below
        heap_end; false at the first refusal. */
    method GrowTo(need: int) returns (ok: bool)
      requires Valid(Snapshot()) && initialized
      modifies this
      ensures Grow(old(Snapshot()), need) == (Snapshot(), ok)
    {
      while need > heapEnd
        invariant Valid(Snapshot()) && initialized
        invariant Grow(Snapshot(), need) == Grow(old(Snapshot()), need)
        decreases base + capacity - heapEnd
      {
        var failed := Sbrk();
        if failed {
          return false;
        }
      }
      return true;
    }

    // ------------------------------------------------------------ the free list

    /** The free flag goes up on the header of `block` and on the footer it places. */
    method MarkFree(block: int)
      requires FreeList.MarkFree(Snapshot(), block).Done?
      modifies this
      ensures FreeList.MarkFree(old(Snapshot()), block) == Done(Snapshot())
    {
      SetFree(block);
      var footer := FooterOf(block);
      SetFree(footer);
    }

    /** The free flag goes down on the header of `block` and on the footer it places. */
    method MarkUsed(block: int)
      requires FreeList.MarkUsed(Snapshot(), block).Done?
      modifies this
      ensures FreeList.MarkUsed(old(Snapshot()), block) == Done(Snapshot())
    {
      SetUsed(block);
      var footer := FooterOf(block);
      SetUsed(footer);
    }

    /** The linking half of add_to_free_list */
    method PushFront(block: int)
      requires FreeList.PushFront(Snapshot(), block).Done?
      modifies this
      ensures FreeList.PushFront(old(Snapshot()), block) == Done(Snapshot())
    {
      Put(block + NEXT_OFFSET, freeList);
      Put(block + PREV_OFFSET, NULL);
      if freeList != NULL {
        Put(freeList + PREV_OFFSET, block);
      }
      freeList := block;
    }

    /** add_to_free_list */
    method AddToFreeList(block: int)
      requires FreeList.AddToFreeList(Snapshot(), block).Done?
      modifies this
      ensures FreeList.AddToFreeList(old(Snapshot()), block) == Done(Snapshot())
    {
      PushFront(block);
      MarkFree(block);
    }

    /** The successor of `block`, when there is one, takes over its predecessor link. */
    method UnlinkFromNext(block: int)
      requires FreeList.UnlinkFromNext(Snapshot(), block).Done?
      modifies this
      ensures FreeList.UnlinkFromNext(old(Snapshot()), block) == Done(Snapshot())
    {
      var next := Get(block + NEXT_OFFSET);
      if next != NULL {
        var prev := Get(block + PREV_OFFSET);
        Put(next + PREV_OFFSET, prev);
      }
    }

    /** The predecessor of `block`, when there is one, takes over its successor link. */
    method UnlinkFromPrev(block: int)
      requires FreeList.UnlinkFromPrev(Snapshot(), block).Done?
      modifies this
      ensures FreeList.UnlinkFromPrev(old(Snapshot()), block) == Done(Snapshot())
    {
      var prev := Get(block + PREV_OFFSET);
      if prev != NULL {
        var next := Get(block + NEXT_OFFSET);
        Put(prev + NEXT_OFFSET, next);
      }
    }

    /** When `block` heads the list, its successor becomes the head. */
    method AdvanceHead(block: int)
      requires FreeList.AdvanceHead(Snapshot(), block).Done?
      modifies this
      ensures FreeList.AdvanceHead(old(Snapshot()), block) == Done(Snapshot())
    {
      if block == freeList {
        freeList := Get(block + NEXT_OFFSET);
      }
    }

    /** remove_from_free_list */
    method RemoveFromFreeList(block: int)
      requires FreeList.RemoveFromFreeList(Snapshot(), block).Done?
      modifies this
      ensures FreeList.RemoveFromFreeList(old(Snapshot()), block) == Done(Snapshot())
    {
      UnlinkFromNext(block);
      UnlinkFromPrev(block);
      AdvanceHead(block);
      MarkUsed(block);
    }

    // ------------------------------------------------------------ Malloc

    /** The first-fit walk of malloc.c:149-167, from the head of the free list. */
    method FindFit(request: int) returns (m: int)
      requires Alloc.Scan(Snapshot(), freeList, request, Alloc.ScanFuel(Snapshot())).Done?
      ensures Alloc.Scan(Snapshot(), freeList, request, Alloc.ScanFuel(Snapshot())) == Done(m)
    {
      m := freeList;
      ghost var fuel := Alloc.ScanFuel(Snapshot());
      while m != NULL
        invariant Alloc.Scan(Snapshot(), m, request, fuel) == Alloc.Scan(Snapshot(), freeList, request, Alloc.ScanFuel(Snapshot()))
        decreases fuel
      {
        var size := GetSize(m);
        if size >= request {
          return;
        }
        m := Get(m + NEXT_OFFSET);
        fuel := fuel - 1;
      }
    }

    /** The split of malloc.c:155-159 at `remainder`, which gets `size`. */
    method Split(remainder: int, size: int)
      requires Alloc.Split(Snapshot(), remainder, size).Done?
      modifies this
      ensures Alloc.Split(old(Snapshot()), remainder, size) == Done(Snapshot())
    {
      Put(remainder, size);
      AddToFreeList(remainder);
      MarkFree(remainder);
    }

    /** The test of malloc.c:152-154 on block `m` of `size` bytes, and the split it
        calls for. */
    method SplitIfRoom(m: int, request: int, size: int)
      requires Alloc.SplitIfRoom(Snapshot(), m, request, size).Done?
      modifies this
      ensures Alloc.SplitIfRoom(old(Snapshot()), m, request, size) == Done(Snapshot())
    {
      var total := Wrap64(size + HEADER_STRUCT_SIZE + FOOTER_SIZE);
      var needed := Wrap64(request + HEADER_SIZE + FOOTER_SIZE);
      if Wrap64(total - needed) >= MINIMUM_BLOCK_SIZE {
        Split(Alloc.RemainderAt(m, request), Alloc.RemainderSize(size, request));
      }
    }

    /** The size store and the used flags of malloc.c:161-163 and 174-176. */
    method Resize(block: int, size: int)
      requires 0 <= size && Alloc.Resize(Snapshot(), block, size).Done?
      modifies this
      ensures Alloc.Resize(old(Snapshot()), block, size) == Done(Snapshot())
    {
      Put(block, size);
      MarkUsed(block);
    }

    /** A free-list hit on block `m` (malloc.c:150-164). */
    method Reuse(m: int, request: int) returns (ptr: int)
      requires Valid(Snapshot()) && initialized && 0 <= request
      requires Alloc.Reuse(Snapshot(), m, request).Done?
      modifies this
      ensures Alloc.Reuse(old(Snapshot()), m, request) == Done(Alloc.Reply(Snapshot(), ptr))
    {
      var size := GetSize(m);
      SplitIfRoom(m, request, size);
      Resize(m, request);
      ptr := m + HEADER_SIZE;
    }

    /** A miss (malloc.c:168-181): a fresh block past the last one, the heap grown
        until it fits. */
    method Carve(request: int) returns (ptr: int)
      requires Valid(Snapshot()) && initialized && 0 <= request
      requires Alloc.Carve(Snapshot(), request).Done?
      modifies this
      ensures Alloc.Carve(old(Snapshot()), request) == Done(Alloc.Reply(Snapshot(), ptr))
    {
      var block := NextAvailableBlock();
      var ok := GrowTo(block + HEADER_SIZE + request + FOOTER_SIZE);
      if !ok {
        return NULL;
      }
      Resize(block, request);
      if first == NULL {
        first := block;
      }
      last := block;
      ptr := block + HEADER_SIZE;
    }

    /** Malloc(size) */
    method Malloc(size: int) returns (ptr: int)
      requires Valid(Snapshot()) && 0 <= size < TWO_64
      requires Alloc.Malloc(Snapshot(), size).Done?
      modifies this
      ensures Alloc.Malloc(old(Snapshot()), size) == Done(Alloc.Reply(Snapshot(), ptr))
      ensures ptr != NULL ==> MallocLemmas.InUse(Snapshot(), HeadAddr(ptr), Alloc.Request(size))
    {
      if !initialized {
        Init();
      }
      if !initialized {
        return NULL;
      }
      var request := if size < MINIMUM_ALLOC_SIZE then MINIMUM_ALLOC_SIZE else size;
      request := Round(request);
      var m := FindFit(request);
      if m != NULL {
        ptr := Reuse(m, request);
      } else {
        ptr := Carve(request);
      }
      if ptr != NULL {
        MallocLemmas.MallocBlock(old(Snapshot()), size);
      }
    }

    // ------------------------------------------------------------ Free

    /** The surviving header and the footer its new size places get that size and
        the free flag (malloc.c:208-211). */
    method Retag(block: int, usable: int)
      requires Alloc.Retag(Snapshot(), block, usable).Done?
      modifies this
      ensures Alloc.Retag(old(Snapshot()), block, usable) == Done(Snapshot())
    {
      Put(block, usable);
      SetFree(block);
      var footer := FooterOf(block);
      Put(footer, usable);
      footer := FooterOf(block);
      SetFree(footer);
    }

    /** Retag, then onto the free list (malloc.c:208-212). */
    method Coalesce(block: int, usable: int)
      requires Alloc.Coalesce(Snapshot(), block, usable).Done?
      modifies this
      ensures Alloc.Coalesce(old(Snapshot()), block, usable) == Done(Snapshot())
    {
      Retag(block, usable);
      AddToFreeList(block);
    }

    /** Both neighbours free (malloc.c:199-212). */
    method MergeAll(m: int, prev: int, next: int)
      requires Alloc.MergeAll(Snapshot(), m, prev, next).Done?
      modifies this
      ensures Alloc.MergeAll(old(Snapshot()), m, prev, next) == Done(Snapshot())
    {
      RemoveFromFreeList(next);
      RemoveFromFreeList(prev);
      if next == last {
        last := prev;
      }
      var sp := GetSize(prev);
      var sm := GetSize(m);
      var sn := GetSize(next);
      Coalesce(prev, Alloc.UsableSize3(sp, sm, sn));
    }

    /** Only the block before free (malloc.c:213-224). */
    method MergeWithPrev(m: int, prev: int)
      requires Alloc.MergeWithPrev(Snapshot(), m, prev).Done?
      modifies this
      ensures Alloc.MergeWithPrev(old(Snapshot()), m, prev) == Done(Snapshot())
    {
      RemoveFromFreeList(prev);
      if m == last {
        last := prev;
      }
      var sp := GetSize(prev);
      var sm := GetSize(m);
      Coalesce(prev, Alloc.UsableSize2(sp, sm));
    }

    /** Only the block after free (malloc.c:225-236). */
    method MergeWithNext(m: int, next: int)
      requires Alloc.MergeWithNext(Snapshot(), m, next).Done?
      modifies this
      ensures Alloc.MergeWithNext(old(Snapshot()), m, next) == Done(Snapshot())
    {
      RemoveFromFreeList(next);
      if next == last {
        last := m;
      }
      var sm := GetSize(m);
      var sn := GetSize(next);
      Coalesce(m, Alloc.UsableSize2(sm, sn));
    }

    /** Neither neighbour free (malloc.c:237-241). */
    method Release(m: int)
      requires Alloc.Release(Snapshot(), m).Done?
      modifies this
      ensures Alloc.Release(old(Snapshot()), m) == Done(Snapshot())
    {
      MarkFree(m);
      AddToFreeList(m);
    }

    /** The block physically before `m`, or NULL for the first (malloc.c:192-195). */
    method PrevBlock(m: int) returns (prev: int)
      requires Alloc.PrevBlock(Snapshot(), m).Done?
      ensures Alloc.PrevBlock(Snapshot(), m) == Done(prev)
    {
      prev := NULL;
      if m != first {
        prev := HeaderOf(m - FOOTER_SIZE);
      }
    }

    /** The block physically after `m`, or NULL for the last (malloc.c:196-198). */
    method NextBlock(m: int) returns (next: int)
      requires Alloc.NextBlock(Snapshot(), m).Done?
      ensures Alloc.NextBlock(Snapshot(), m) == Done(next)
    {
      next := NULL;
      if m != last {
        var size := GetSize(m);
        next := m + HEADER_SIZE + size + FOOTER_SIZE;
      }
    }

    /** Whether a neighbour exists and carries the free flag. */
    method NeighbourFree(block: int) returns (free: bool)
      requires Alloc.NeighbourFree(Snapshot(), block).Done?
      ensures Alloc.NeighbourFree(Snapshot(), block) == Done(free)
    {
      free := false;
      if block != NULL {
        free := IsFree(block);
      }
    }

    /** The four cases of malloc.c:199-241. */
    method Dispatch(m: int, prev: int, next: int, prevFree: bool, nextFree: bool)
      requires Alloc.Dispatch(Snapshot(), m, prev, next, prevFree, nextFree).Done?
      modifies this
      ensures Alloc.Dispatch(old(Snapshot()), m, prev, next, prevFree, nextFree) == Done(Snapshot())
    {
      if nextFree && prevFree {
        MergeAll(m, prev, next);
      } else if prevFree {
        MergeWithPrev(m, prev);
      } else if nextFree {
        MergeWithNext(m, next);
      } else {
        Release(m);
      }
    }

    /** Free(p) */
    method Free(p: int)
      requires Valid(Snapshot()) && Alloc.Free(Snapshot(), p).Done?
      modifies this
      ensures Alloc.Free(old(Snapshot()), p) == Done(Snapshot())
    {
      if p == NULL {
        return;
      }
      var m := HeadAddr(p);
      var prev := PrevBlock(m);
      var next := NextBlock(m);
      var nextFree := NeighbourFree(next);
      var prevFree := NeighbourFree(prev);
      Dispatch(m, prev, next, prevFree, nextFree);
    }
  }
}
