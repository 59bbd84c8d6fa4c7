/** The heap region and the allocator's globals, as a value.

    Addresses are the byte addresses the C code computes. The region starts at
    `base`, the program break `sbrk(0)` reports when the heap is set up, and may grow
    by `capacity` bytes before the system refuses more; NULL is address 0, which lies
    below every block. `mem` maps the address of each 8-byte word written so far
    to its value; a word never written reads 0, as fresh pages do.

    Every access the allocator makes goes through Load and Store. One outside the
    current break, or not on a word boundary of the region, is undefined behaviour
    in C; the model answers Fault for it instead of a value. */
module Region {
  import opened Words

  const NULL: int := 0

  /** The result of running a piece of the allocator: a value, an access the C code
      leaves undefined (Fault), or a loop that never ends (Hang). */
  datatype Outcome<T> = Done(value: T) | Fault | Hang {
    predicate IsFailure() {
      !Done?
    }

    /** Only called on a failure; the Done case is never reached. */
    function PropagateFailure<U>(): Outcome<U> {
      if Fault? then Fault else Hang
    }

    function Extract(): T
      requires Done?
    {
      value
    }
  }

  /** The five globals of malloc.c and the memory they point into. `initialized`
      says whether the heap pointer has been set; `heapEnd` is `heap_end`, -1 until
      initialisation. */
  datatype State = State(
    base: int,
    capacity: int,
    mem: map<int, int>,
    initialized: bool,
    heapEnd: int,
    first: int,
    last: int,
    freeList: int)

  /** The part of a state the block and free-list operations never change. */
  function Shape(s: State): (int, int, bool, int) {
    (s.base, s.capacity, s.initialized, s.heapEnd)
  }

  /** What holds of every state the allocator reaches: the heap, once there, spans
      the initial 1024 bytes plus whole growth increments, never past the capacity,
      and before initialisation no global points anywhere. */
  ghost predicate Valid(s: State) {
    && NULL + HEADER_STRUCT_SIZE <= s.base
    && 0 <= s.capacity
    && s.base + s.capacity < TWO_64
    && (s.initialized ==>
          && s.base + INITIAL_HEAP_SIZE <= s.heapEnd <= s.base + s.capacity
          && (s.heapEnd - s.base) % ALLOC_SIZE == 0)
    && (!s.initialized ==>
          s.heapEnd == -1 && s.first == NULL && s.last == NULL && s.freeList == NULL)
  }

  /** Validity rests on the shape alone once the heap exists. */
  lemma ValidWhenShaped(s: State, t: State)
    requires Valid(s) && Shape(t) == Shape(s) && t.initialized
    ensures Valid(t)
  {
  }

  /** The globals other than the heap bounds play no part in loading a word. */
  lemma LoadIgnoresGlobals(s: State, t: State)
    requires Shape(t) == Shape(s) && t.mem == s.mem
    ensures forall a :: Load(t, a) == Load(s, a)
  {
  }

  /** The state before the first call: nothing initialised, no word written. */
  function Fresh(base: int, capacity: int): (s: State)
    requires NULL + HEADER_STRUCT_SIZE <= base && 0 <= capacity && base + capacity < TWO_64
    ensures Valid(s)
  {
    State(base, capacity, map[], false, -1, NULL, NULL, NULL)
  }

  // ---------------------------------------------------------------- memory words

  /** `a` names a whole word of the region below the current break. The region
      lies above the header NULL would have, so no link word a NULL pointer names
      is ever addressable. */
  predicate Addressable(s: State, a: int) {
    && s.initialized
    && NULL + HEADER_STRUCT_SIZE <= s.base
    && s.base <= a
    && (a - s.base) % 8 == 0
    && a + 8 <= s.heapEnd
  }

  function Word(s: State, a: int): int
    requires Addressable(s, a)
  {
    if a in s.mem then s.mem[a] else 0
  }

  function Load(s: State, a: int): (r: Outcome<int>)
    ensures r.Done? <==> Addressable(s, a)
    ensures r.Done? ==> r.value == Word(s, a)
  {
    if Addressable(s, a) then Done(Word(s, a)) else Fault
  }

  /** Writing one word changes that word and nothing else. */
  function Store(s: State, a: int, v: int): (r: Outcome<State>)
    ensures r.Done? <==> Addressable(s, a)
    ensures r.Done? ==> Shape(r.value) == Shape(s)
    ensures r.Done? ==> r.value.first == s.first && r.value.last == s.last
    ensures r.Done? ==> r.value.freeList == s.freeList
    ensures r.Done? ==> Load(r.value, a) == Done(v)
    ensures r.Done? ==> forall b :: b != a ==> Load(r.value, b) == Load(s, b)
  {
    if Addressable(s, a) then Done(s.(mem := s.mem[a := v])) else Fault
  }

  // ---------------------------------------------------------------- block words

  /** is_free(block) */
  function IsFreeAt(s: State, a: int): Outcome<bool> {
    var w :- Load(s, a);
    Done(IsFreeWord(w))
  }

  /** get_size(block) */
  function SizeAt(s: State, a: int): Outcome<int> {
    var w :- Load(s, a);
    Done(SizeOfWord(w))
  }

  /** set_free(block): the flag goes up, the size stays (SetFreeWord), no other word
      changes. */
  function SetFreeAt(s: State, a: int): (r: Outcome<State>)
    ensures r.Done? <==> Addressable(s, a)
    ensures r.Done? ==> Shape(r.value) == Shape(s)
    ensures r.Done? ==> r.value.first == s.first && r.value.last == s.last
    ensures r.Done? ==> r.value.freeList == s.freeList
    ensures r.Done? ==> Load(r.value, a) == Done(SetFreeWord(Word(s, a)))
    ensures r.Done? ==> forall b :: b != a ==> Load(r.value, b) == Load(s, b)
  {
    var w :- Load(s, a);
    Store(s, a, SetFreeWord(w))
  }

  /** set_used(block): the flag goes down, the size stays (SetUsedWord), no other word
      changes. */
  function SetUsedAt(s: State, a: int): (r: Outcome<State>)
    ensures r.Done? <==> Addressable(s, a)
    ensures r.Done? ==> Shape(r.value) == Shape(s)
    ensures r.Done? ==> r.value.first == s.first && r.value.last == s.last
    ensures r.Done? ==> r.value.freeList == s.freeList
    ensures r.Done? ==> Load(r.value, a) == Done(SetUsedWord(Word(s, a)))
    ensures r.Done? ==> forall b :: b != a ==> Load(r.value, b) == Load(s, b)
  {
    var w :- Load(s, a);
    Store(s, a, SetUsedWord(w))
  }

  // ---------------------------------------------------------------- address helpers

  /** Where get_footer_from_header places the footer of the block at `header`. */
  function FooterAt(s: State, header: int): int
    requires Addressable(s, header)
  {
    header + SizeOfWord(Word(s, header)) + HEADER_SIZE
  }

  /** get_footer_from_header, which reads the header's size word */
  function FooterFromHeader(s: State, header: int): Outcome<int> {
    if Addressable(s, header) then Done(FooterAt(s, header)) else Fault
  }

  /** get_header_from_footer */
  function HeaderFromFooter(s: State, footer: int): Outcome<int> {
    var size :- SizeAt(s, footer);
    Done(footer - size - HEADER_SIZE)
  }

  /** head_addr */
  function HeadAddr(data: int): int {
    data - HEADER_SIZE
  }

  /** data_addr: the inverse of head_addr */
  function DataAddr(header: int): (data: int)
    ensures HeadAddr(data) == header
  {
    header + HEADER_SIZE
  }

  /** next_available_block: the address just past the footer of the last block, or
      the heap base while there is none. */
  function NextAvailable(s: State): Outcome<int> {
    if s.last == NULL then Done(s.base)
    else
      var size :- SizeAt(s, s.last);
      Done(s.last + HEADER_SIZE + size + FOOTER_SIZE)
  }

  /** The footer lookup undoes the header lookup whenever the footer's size word
      holds the header's size. */
  lemma FooterHeaderRoundTrip(s: State, header: int)
    requires Addressable(s, header)
    requires Addressable(s, FooterAt(s, header))
    requires SizeOfWord(Word(s, FooterAt(s, header))) == SizeOfWord(Word(s, header))
    ensures FooterFromHeader(s, header).Done?
    ensures HeaderFromFooter(s, FooterFromHeader(s, header).value) == Done(header)
  {
  }

  // ---------------------------------------------------------------- the program break

  /** The system's break is `heapEnd` once the heap exists; it may rise by `n` bytes
      exactly when that stays within the capacity. */
  predicate BreakMayRise(s: State, n: int) {
    s.heapEnd + n <= s.base + s.capacity
  }

  /** Sbrk(): asks for ALLOC_SIZE more bytes; answers whether the request failed. */
  function Sbrk(s: State): (r: (State, bool))
    ensures r.1 == !BreakMayRise(s, ALLOC_SIZE)
    ensures r.0 == if r.1 then s else s.(heapEnd := s.heapEnd + ALLOC_SIZE)
  {
    if BreakMayRise(s, ALLOC_SIZE) then (s.(heapEnd := s.heapEnd + ALLOC_SIZE), false)
    else (s, true)
  }

  /** init(): records the heap base and asks for the initial 1024 bytes; on refusal
      the heap stays unset. */
  function Init(s: State): (r: State)
    requires Valid(s)
    ensures Valid(r)
    ensures !s.initialized ==> r.initialized == (INITIAL_HEAP_SIZE <= s.capacity)
    ensures r.initialized ==> r.heapEnd - r.base == if s.initialized then s.heapEnd - s.base else INITIAL_HEAP_SIZE
    ensures r.mem == s.mem && r.first == s.first && r.last == s.last && r.freeList == s.freeList
  {
    if s.initialized then s
    else if INITIAL_HEAP_SIZE <= s.capacity then
      s.(initialized := true, heapEnd := s.base + INITIAL_HEAP_SIZE)
    else
      s.(initialized := false, heapEnd := -1)
  }

  /** The growth loop of Malloc: Sbrk until `need` fits below heap_end. The answer
      says whether it came to fit; what was granted before a refusal is kept. */
  function Grow(s: State, need: int): (r: (State, bool))
    decreases s.base + s.capacity - s.heapEnd
  {
    if need <= s.heapEnd then (s, true)
    else
      var (s', failed) := Sbrk(s);
      if failed then (s, false) else Grow(s', need)
  }

  /** Growth only moves the break, by whole increments; it succeeds exactly when the
      need fits below the new break, and it stops at the first refusal. */
  lemma {:induction false} GrowSpec(s: State, need: int)
    requires Valid(s) && s.initialized
    ensures var (r, ok) := Grow(s, need);
      && Valid(r)
      && r == s.(heapEnd := r.heapEnd)
      && s.heapEnd <= r.heapEnd
      && (r.heapEnd - s.heapEnd) % ALLOC_SIZE == 0
      && (ok <==> need <= r.heapEnd)
      && (!ok ==> !BreakMayRise(r, ALLOC_SIZE))
      && (r.heapEnd > s.heapEnd ==> r.heapEnd - ALLOC_SIZE < need)
    decreases s.base + s.capacity - s.heapEnd
  {
    if need > s.heapEnd {
      var (s', failed) := Sbrk(s);
      if !failed {
        GrowSpec(s', need);
      }
    }
  }
}
