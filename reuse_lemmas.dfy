/** The free-list walk of Malloc and what a hit does to the list: first fit over a
    well-formed list, the hit block left on the list, the block shrunk to the
    request, and a split whose remainder runs past the block it came from. */
module ReuseLemmas {
  import opened Words
  import opened Region
  import opened FreeList
  import opened FreeListLemmas
  import opened Alloc
  import opened MallocLemmas

  // ---------------------------------------------------------------- first fit

  /** The index of the first size from position i on that is at least `request`,
      or |sizes| when there is none. */
  function FirstFit(sizes: seq<int>, i: nat, request: int): (k: nat)
    requires i <= |sizes|
    ensures i <= k <= |sizes|
    ensures forall j :: i <= j < k ==> sizes[j] < request
    ensures k < |sizes| ==> sizes[k] >= request
    decreases |sizes| - i
  {
    if i == |sizes| then i
    else if sizes[i] >= request then i
    else FirstFit(sizes, i + 1, request)
  }

  /** get_size of a header, 0 where there is none to read. */
  function SizeOr0(s: State, a: int): int {
    match SizeAt(s, a)
    case Done(v) => v
    case _ => 0
  }

  /** The sizes of the list's nodes, in list order. */
  function Sizes(s: State, nodes: seq<int>): (r: seq<int>)
    ensures |r| == |nodes|
    ensures forall j :: 0 <= j < |nodes| ==> r[j] == SizeOr0(s, nodes[j])
  {
    seq(|nodes|, j requires 0 <= j < |nodes| => SizeOr0(s, nodes[j]))
  }

  /** Node k of the list, NULL past its end. */
  function NodeAt(nodes: seq<int>, k: int): int {
    if 0 <= k < |nodes| then nodes[k] else NULL
  }

  /** One step of the walk at node i: stop there if it is large enough, else go on
      to its successor. */
  lemma ScanStep(s: State, nodes: seq<int>, i: int, request: int, fuel: nat)
    requires ListWF(s, nodes) && 0 <= i < |nodes| && fuel >= 1
    ensures SizeAt(s, nodes[i]) == Done(Sizes(s, nodes)[i])
    ensures Sizes(s, nodes)[i] >= request ==> Scan(s, nodes[i], request, fuel) == Done(nodes[i])
    ensures Sizes(s, nodes)[i] < request ==>
      Scan(s, nodes[i], request, fuel) == Scan(s, NodeAt(nodes, i + 1), request, fuel - 1)
  {
    assert Linked(s, nodes, i);
  }

  /** A walk started at node i with enough fuel stops at the first node from i on
      that is large enough, or at NULL. */
  lemma {:induction false} ScanFromNode(s: State, nodes: seq<int>, i: nat, request: int, fuel: nat)
    requires ListWF(s, nodes) && i <= |nodes| && fuel >= |nodes| - i
    ensures Scan(s, NodeAt(nodes, i), request, fuel) == Done(NodeAt(nodes, FirstFit(Sizes(s, nodes), i, request)))
    decreases |nodes| - i
  {
    if i < |nodes| {
      assert NodeAt(nodes, i) == nodes[i];
      ScanStep(s, nodes, i, request, fuel);
      if Sizes(s, nodes)[i] < request {
        ScanFromNode(s, nodes, i + 1, request, fuel - 1);
      }
    }
  }

  /** Distinct naturals below n number at most n. */
  lemma {:induction false} DistinctBelow(xs: seq<int>, n: nat)
    requires forall i :: 0 <= i < |xs| ==> 0 <= xs[i] < n
    requires forall i, j :: 0 <= i < j < |xs| ==> xs[i] != xs[j]
    ensures |xs| <= n
    decreases n
  {
    if xs != [] {
      assert 0 <= xs[0] < n;
      if k :| 0 <= k < |xs| && xs[k] == n - 1 {
        var rest := xs[..k] + xs[k + 1..];
        forall i | 0 <= i < |rest| ensures 0 <= rest[i] < n - 1 {
          var i' := if i < k then i else i + 1;
          assert rest[i] == xs[i'] && i' != k;
        }
        forall i, j | 0 <= i < j < |rest| ensures rest[i] != rest[j] {
          var i' := if i < k then i else i + 1;
          var j' := if j < k then j else j + 1;
          assert rest[i] == xs[i'] && rest[j] == xs[j'];
        }
        DistinctBelow(rest, n - 1);
      } else {
        DistinctBelow(xs, n - 1);
      }
    }
  }

  /** A well-formed list has fewer nodes than the walk has fuel: its headers are
      distinct words of the region. */
  lemma ListFitsFuel(s: State, nodes: seq<int>)
    requires ListWF(s, nodes)
    ensures |nodes| < ScanFuel(s)
  {
    var words := if s.heapEnd <= s.base then 0 else (s.heapEnd - s.base) / 8;
    var idx := seq(|nodes|, i requires 0 <= i < |nodes| => Index(s, nodes[i]));
    forall i | 0 <= i < |nodes| ensures 0 <= idx[i] < words {
      assert Linked(s, nodes, i);
      var k := (nodes[i] - s.base) / 8;
      assert nodes[i] - s.base == 8 * k;
    }
    forall i, j | 0 <= i < j < |nodes| ensures idx[i] != idx[j] {
      assert Linked(s, nodes, i) && Linked(s, nodes, j) && Apart(nodes[i], nodes[j]);
    }
    DistinctBelow(idx, words);
  }

  /** Malloc's walk over a well-formed free list picks the first node whose size
      is at least the rounded request, and NULL when there is none: it never
      hangs on a well-formed list. */
  lemma MallocFirstFit(s: State, nodes: seq<int>, size: int)
    requires Valid(s) && 0 <= size < TWO_64 && ListWF(Started(s), nodes)
    ensures ScanFor(s, size) == Done(NodeAt(nodes, FirstFit(Sizes(Started(s), nodes), 0, Request(size))))
  {
    var s1 := Started(s);
    ListFitsFuel(s1, nodes);
    ScanFromNode(s1, nodes, 0, Request(size), ScanFuel(s1));
    assert NodeAt(nodes, 0) == s1.freeList;
  }

  // ---------------------------------------------------------------- the split test

  /** The split test of a hit on a block of usable size S, as malloc.c:152-154
      computes it in uint64_t: it passes exactly when S exceeds the request by 16
      bytes or more, and the remainder is then given S - request bytes. The
      remainder's own header and footer take 16 of the spare S - request bytes, so
      a remainder that is a block of MINIMUM_BLOCK_SIZE (a header, 16 usable bytes
      and a footer, 32 bytes in all) needs S - request >= 32, and its usable size is
      S - request - 16. */
  lemma SplitTestMeaning(S: int, request: int)
    requires 0 <= request <= S && S + HEADER_STRUCT_SIZE + FOOTER_SIZE < TWO_64
    ensures var total := Wrap64(S + HEADER_STRUCT_SIZE + FOOTER_SIZE);
      && var needed := Wrap64(request + HEADER_SIZE + FOOTER_SIZE);
      && (Wrap64(total - needed) >= MINIMUM_BLOCK_SIZE <==> request + 16 <= S)
      && (request + 16 <= S ==> Wrap64(total - needed - FOOTER_SIZE - HEADER_SIZE) == S - request)
  {
  }

  // ---------------------------------------------------------------- a hit without a split

  /** Node k of a list whose headers are apart is no link word of any node. */
  lemma NodeOffLinks(nodes: seq<int>, k: int)
    requires 0 <= k < |nodes|
    requires forall i, j :: 0 <= i < j < |nodes| ==> Apart(nodes[i], nodes[j])
    ensures LinksAvoid(nodes, {nodes[k]})
  {
    forall i, a | 0 <= i < |nodes| && a in {nodes[k]} ensures OffLinks(a, nodes[k]) && OffLinks(a, nodes[i]) {
      if i < k {
        assert Apart(nodes[i], nodes[k]);
      } else if i > k {
        assert Apart(nodes[k], nodes[i]);
      }
    }
  }

  /** A hit on node k of a well-formed list whose size S is less than 16 bytes above
      the request is not split: the header is overwritten with the request, so up to
      8 bytes drop out of every block's reach, and the footer the request places
      loses its flag. remove_from_free_list is never called, so the list keeps every
      node, the block just handed out among them. */
  lemma ReuseNoSplit(s: State, nodes: seq<int>, k: int, request: int)
    requires Valid(s) && s.initialized && ListWF(s, nodes) && 0 <= k < |nodes|
    requires 0 <= request && request % 8 == 0
    requires Addressable(s, nodes[k]) && request <= SizeOfWord(Word(s, nodes[k])) < request + 16
    requires Addressable(s, nodes[k] + HEADER_SIZE + request)
    requires LinksAvoid(nodes, {nodes[k] + HEADER_SIZE + request})
    ensures Reuse(s, nodes[k], request).Done?
    ensures var r, m := Reuse(s, nodes[k], request).value.state, nodes[k];
      && r == s.(mem := r.mem)
      && ListWF(r, nodes)
      && InUse(r, m, request)
      && KeepsWordsBut(s, r, {m, m + HEADER_SIZE + request})
  {
    var m := nodes[k];
    var footer := m + HEADER_SIZE + request;
    SplitTestMeaning(SizeOfWord(Word(s, m)), request);
    AlignedSizeWord(request);
    var t := Resize(s, m, request);
    assert t.Done?;
    assert Reuse(s, m, request) == Done(Reply(t.value, DataAddr(m)));
    NodeOffLinks(nodes, k);
    assert LinksAvoid(nodes, {m, footer});
    ListWFFrame(s, t.value, nodes, {m, footer});
  }

  /** On an initialised heap whose free list is `nodes`, Malloc is the hit on the
      first listed block big enough for the request, when there is one. */
  lemma MallocHitIsReuse(s: State, nodes: seq<int>, size: int, k: int)
    requires Valid(s) && s.initialized && 0 <= size < TWO_64 && ListWF(s, nodes)
    requires k == FirstFit(Sizes(s, nodes), 0, Request(size)) && k < |nodes|
    ensures Malloc(s, size) == Reuse(s, nodes[k], Request(size))
  {
    MallocFirstFit(s, nodes, size);
    ScanStep(s, nodes, k, Request(size), 1);
    assert ScanFor(s, size) == Done(nodes[k]);
    MallocHitPath(s, size);
  }

  /** The first defect, seen from Malloc: when the first fit has less than 16 spare
      bytes, Malloc hands out its data address while the block stays on the free
      list, linked exactly as before, so a later walk can pick it again. */
  lemma MallocHitStaysListed(s: State, nodes: seq<int>, size: int)
    requires Valid(s) && s.initialized && 0 <= size < TWO_64 && ListWF(s, nodes)
    requires FirstFit(Sizes(s, nodes), 0, Request(size)) < |nodes|
    requires var m := nodes[FirstFit(Sizes(s, nodes), 0, Request(size))];
      && Addressable(s, m)
      && SizeOfWord(Word(s, m)) < Request(size) + 16
      && Addressable(s, m + HEADER_SIZE + Request(size))
      && LinksAvoid(nodes, {m + HEADER_SIZE + Request(size)})
    ensures Malloc(s, size).Done?
    ensures var r, m := Malloc(s, size).value, nodes[FirstFit(Sizes(s, nodes), 0, Request(size))];
      && r.ptr == DataAddr(m)
      && ListWF(r.state, nodes)
      && InUse(r.state, m, Request(size))
  {
    var k := FirstFit(Sizes(s, nodes), 0, Request(size));
    MallocHitIsReuse(s, nodes, size, k);
    ReuseNoSplit(s, nodes, k, Request(size));
    ReuseBlock(s, nodes[k], Request(size));
  }

  // ---------------------------------------------------------------- a hit with a split

  /** Headers apart from `nb` have no link word at `nb`. */
  lemma ApartOffLinks(nodes: seq<int>, nb: int)
    requires forall i :: 0 <= i < |nodes| ==> Apart(nb, nodes[i])
    ensures LinksAvoid(nodes, {nb})
  {
    forall i, a | 0 <= i < |nodes| && a in {nb} ensures OffLinks(a, nodes[i]) {
      assert Apart(nb, nodes[i]);
    }
  }

  /** The split's second set_free of the remainder's header and footer repeats
      what add_to_free_list did: the split is a size store followed by the push. */
  lemma SplitIsPush(s: State, nb: int, size: int)
    requires Store(s, nb, size).Done? && AddToFreeList(Store(s, nb, size).value, nb).Done?
    ensures Split(s, nb, size).Done?
    ensures var t, u := AddToFreeList(Store(s, nb, size).value, nb).value, Split(s, nb, size).value;
      u == t.(mem := u.mem) && KeepsWordsBut(t, u, {})
  {
    MarkFreeAfterAdd(Store(s, nb, size).value, nb);
  }

  /** A split at a header apart from every node of a well-formed list, whose
      footer is no link word, puts the header at the front of the list with the
      given size and the free flag; the footer that size places only gains the flag,
      its size word is not written. */
  lemma SplitPushes(s: State, nodes: seq<int>, nb: int, size: int, rf: int)
    requires ListWF(s, nodes) && MINIMUM_ALLOC_SIZE <= size && size % 2 == 0
    requires Addressable(s, nb) && Addressable(s, nb + NEXT_OFFSET) && Addressable(s, nb + PREV_OFFSET)
    requires rf == nb + size + HEADER_SIZE && Addressable(s, rf)
    requires forall i :: 0 <= i < |nodes| ==> Apart(nb, nodes[i])
    requires LinksAvoid([nb] + nodes, {rf})
    ensures Split(s, nb, size).Done?
    ensures var t := Split(s, nb, size).value;
      && t == s.(mem := t.mem, freeList := nb)
      && ListWF(t, [nb] + nodes)
      && Load(t, nb) == Done(SetFreeWord(size))
      && Load(t, rf) == Done(SetFreeWord(Word(s, rf)))
      && KeepsWordsBut(s, t, {nb, rf, nb + NEXT_OFFSET, nb + PREV_OFFSET, s.freeList + PREV_OFFSET})
  {
    var s1 := Store(s, nb, size).value;
    if nodes != [] {
      assert Linked(s, nodes, 0) && Apart(nb, nodes[0]);
      assert OffLinks(nb + size + HEADER_SIZE, ([nb] + nodes)[1]);
    }
    PushRemainderWords(s, s1, nb, size);
    PushRemainderList(s, s1, nodes, nb, size);
    SplitIsPush(s, nb, size);
    SplitTail(s, AddToFreeList(s1, nb).value, Split(s, nb, size).value, nodes, nb, size, rf);
  }

  /** The split's state carries over what the push left, word for word. */
  lemma SplitTail(s: State, t: State, u: State, nodes: seq<int>, nb: int, size: int, rf: int)
    requires rf == nb + size + HEADER_SIZE && Addressable(s, rf)
    requires t == s.(mem := t.mem, freeList := nb) && ListWF(t, [nb] + nodes)
    requires Load(t, nb) == Done(SetFreeWord(size)) && Load(t, rf) == Done(SetFreeWord(Word(s, rf)))
    requires KeepsWordsBut(s, t, {nb, rf, nb + NEXT_OFFSET, nb + PREV_OFFSET, s.freeList + PREV_OFFSET})
    requires u == t.(mem := u.mem) && KeepsWordsBut(t, u, {})
    ensures u == s.(mem := u.mem, freeList := nb)
    ensures ListWF(u, [nb] + nodes)
    ensures Load(u, nb) == Done(SetFreeWord(size)) && Load(u, rf) == Done(SetFreeWord(Word(s, rf)))
    ensures KeepsWordsBut(s, u, {nb, rf, nb + NEXT_OFFSET, nb + PREV_OFFSET, s.freeList + PREV_OFFSET})
  {
    ListWFFrame(t, u, [nb] + nodes, {});
    var holes := {nb, rf, nb + NEXT_OFFSET, nb + PREV_OFFSET, s.freeList + PREV_OFFSET};
    KeepsTrans(s, t, u, holes, {});
    assert holes + {} == holes;
  }

  /** The words the push half of the split writes, on a state that differs from
      `s` at most in the remainder header, which holds its size. */
  lemma PushRemainderWords(s: State, s1: State, nb: int, size: int)
    requires MINIMUM_ALLOC_SIZE <= size && size % 2 == 0
    requires Addressable(s, nb) && Addressable(s, nb + NEXT_OFFSET) && Addressable(s, nb + PREV_OFFSET)
    requires Addressable(s, nb + size + HEADER_SIZE)
    requires s.freeList != NULL ==>
      && Addressable(s, s.freeList + PREV_OFFSET) && Apart(nb, s.freeList)
      && nb + size + HEADER_SIZE != s.freeList + PREV_OFFSET
    requires s1 == s.(mem := s1.mem) && Shape(s1) == Shape(s)
    requires Load(s1, nb) == Done(size) && KeepsWordsBut(s, s1, {nb})
    ensures AddToFreeList(s1, nb).Done?
    ensures var t, rf := AddToFreeList(s1, nb).value, nb + size + HEADER_SIZE;
      && t == s.(mem := t.mem, freeList := nb)
      && Load(t, nb) == Done(SetFreeWord(size))
      && Load(t, rf) == Done(SetFreeWord(Word(s, rf)))
      && KeepsWordsBut(s, t, {nb, rf, nb + NEXT_OFFSET, nb + PREV_OFFSET, s.freeList + PREV_OFFSET})
  {
    var rf := nb + size + HEADER_SIZE;
    SameShapeSameAddresses(s, s1);
    assert FooterAt(s1, nb) == rf;
    assert Load(s1, rf) == Load(s, rf);
    assert s.freeList != NULL ==> Load(s1, s.freeList + PREV_OFFSET) == Load(s, s.freeList + PREV_OFFSET);
    AddToFreeListWords(s1, nb);
    PushedRemainder(s, s1, AddToFreeList(s1, nb).value, nb, size);
  }

  /** The step from the words add_to_free_list(remainder) writes to what they
      mean for the state before the size store. */
  lemma PushedRemainder(s: State, s1: State, t: State, nb: int, size: int)
    requires MINIMUM_ALLOC_SIZE <= size && Addressable(s, nb + size + HEADER_SIZE)
    requires s1 == s.(mem := s1.mem) && Load(s1, nb) == Done(size) && KeepsWordsBut(s, s1, {nb})
    requires FooterAt(s1, nb) == nb + size + HEADER_SIZE
    requires t == s1.(mem := t.mem, freeList := nb)
    requires Load(t, nb) == Done(SetFreeWord(Word(s1, nb)))
    requires Load(t, FooterAt(s1, nb)) == Done(SetFreeWord(Word(s1, FooterAt(s1, nb))))
    requires KeepsWordsBut(s1, t, {nb, FooterAt(s1, nb), nb + NEXT_OFFSET, nb + PREV_OFFSET, s1.freeList + PREV_OFFSET})
    ensures var rf := nb + size + HEADER_SIZE;
      && t == s.(mem := t.mem, freeList := nb)
      && Load(t, nb) == Done(SetFreeWord(size))
      && Load(t, rf) == Done(SetFreeWord(Word(s, rf)))
      && KeepsWordsBut(s, t, {nb, rf, nb + NEXT_OFFSET, nb + PREV_OFFSET, s.freeList + PREV_OFFSET})
  {
    var rf := nb + size + HEADER_SIZE;
    var holes := {nb, FooterAt(s1, nb), nb + NEXT_OFFSET, nb + PREV_OFFSET, s1.freeList + PREV_OFFSET};
    assert Word(s1, nb) == size;
    assert Load(s1, rf) == Load(s, rf);
    KeepsTrans(s, s1, t, {nb}, holes);
    assert {nb} + holes == holes;
  }

  /** The list the push half of the split leaves: the remainder in front. */
  lemma PushRemainderList(s: State, s1: State, nodes: seq<int>, nb: int, size: int)
    requires ListWF(s, nodes) && 0 <= size && size % 2 == 0
    requires Addressable(s, nb) && Addressable(s, nb + NEXT_OFFSET) && Addressable(s, nb + PREV_OFFSET)
    requires Addressable(s, nb + size + HEADER_SIZE)
    requires forall i :: 0 <= i < |nodes| ==> Apart(nb, nodes[i])
    requires LinksAvoid([nb] + nodes, {nb + size + HEADER_SIZE})
    requires s1 == s.(mem := s1.mem) && Shape(s1) == Shape(s)
    requires Load(s1, nb) == Done(size) && KeepsWordsBut(s, s1, {nb})
    ensures AddToFreeList(s1, nb).Done? && ListWF(AddToFreeList(s1, nb).value, [nb] + nodes)
  {
    ApartOffLinks(nodes, nb);
    ListWFFrame(s, s1, nodes, {nb});
    SameShapeSameAddresses(s, s1);
    assert FooterAt(s1, nb) == nb + size + HEADER_SIZE;
    AddToFreeListPushes(s1, nodes, nb);
  }

  /** Resize on a block of a well-formed list whose header and new footer are no
      link word: the list stays as it was, the block is in use at the new size. */
  lemma ResizeKeepsList(t: State, nodes: seq<int>, m: int, request: int)
    requires ListWF(t, nodes) && 0 <= request && request % 8 == 0
    requires Addressable(t, m) && Addressable(t, m + HEADER_SIZE + request)
    requires LinksAvoid(nodes, {m, m + HEADER_SIZE + request})
    ensures Resize(t, m, request).Done?
    ensures var u := Resize(t, m, request).value;
      && u == t.(mem := u.mem)
      && ListWF(u, nodes)
      && InUse(u, m, request)
      && KeepsWordsBut(t, u, {m, m + HEADER_SIZE + request})
  {
    AlignedSizeWord(request);
    ListWFFrame(t, Resize(t, m, request).value, nodes, {m, m + HEADER_SIZE + request});
  }

  /** With room to split, the test passes and the remainder gets size - request. */
  lemma SplitIfRoomSplits(s: State, m: int, request: int, size: int)
    requires 0 <= request && request + MINIMUM_ALLOC_SIZE <= size && size + HEADER_STRUCT_SIZE + FOOTER_SIZE < TWO_64
    ensures RemainderSize(size, request) == size - request
    ensures RemainderAt(m, request) + HEADER_SIZE + RemainderSize(size, request) == m + HEADER_SIZE + size + 16
    ensures SplitIfRoom(s, m, request, size) == Split(s, RemainderAt(m, request), RemainderSize(size, request))
  {
    SplitTestMeaning(size, request);
  }

  /** The other defects, seen on a hit with room to split: the remainder goes on
      the free list in front while the block found stays listed too; the
      remainder's header claims size - request bytes although only
      size - request - 16 lie before the end of the block found, so the footer
      that claim places sits 16 bytes past that end; and that footer only gains
      the free flag, its size word never being written. */
  lemma ReuseSplit(s: State, nodes: seq<int>, k: int, request: int)
    requires Valid(s) && s.initialized && ListWF(s, nodes) && 0 <= k < |nodes|
    requires 0 <= request && request % 8 == 0
    requires Addressable(s, nodes[k]) && request + MINIMUM_ALLOC_SIZE <= SizeOfWord(Word(s, nodes[k]))
    requires var m, size := nodes[k], SizeOfWord(Word(s, nodes[k]));
      && var nb, rf := RemainderAt(m, request), m + size + HEADER_STRUCT_SIZE;
      && Addressable(s, rf)
      && (forall i :: 0 <= i < |nodes| ==> Apart(nb, nodes[i]))
      && LinksAvoid([nb] + nodes, {rf, m + HEADER_SIZE + request})
    ensures var m, size := nodes[k], SizeOfWord(Word(s, nodes[k]));
      && RemainderSize(size, request) == size - request
      && RemainderAt(m, request) + HEADER_SIZE + RemainderSize(size, request) == m + HEADER_SIZE + size + 16
      && Reuse(s, m, request).Done?
      && SplitLeaves(s, Reuse(s, m, request).value.state, nodes, m, request)
  {
    var m, size := nodes[k], SizeOfWord(Word(s, nodes[k]));
    var nb, rf := RemainderAt(m, request), m + size + HEADER_STRUCT_SIZE;
    assert Addressable(s, rf);
    SplitIfRoomSplits(s, m, request, size);
    var footer, rest := m + HEADER_SIZE + request, RemainderSize(size, request);
    ReuseSplitParts(s, nodes, k, request, m, size, nb, rf, footer, rest);
    var t := Split(s, nb, rest).value;
    ReuseAfterSplit(s, m, request, t);
    SplitThenResize(s, t, Resize(t, m, request).value, nodes, m, request, nb, rest, rf, footer);
  }

  /** The split and the resize of a hit with room to split, each on its own. */
  lemma ReuseSplitParts(s: State, nodes: seq<int>, k: int, request: int,
                        m: int, size: int, nb: int, rf: int, footer: int, rest: int)
    requires Valid(s) && s.initialized && ListWF(s, nodes) && 0 <= k < |nodes|
    requires 0 <= request && request % 8 == 0
    requires m == nodes[k] && Addressable(s, m) && size == SizeOfWord(Word(s, m))
    requires request + MINIMUM_ALLOC_SIZE <= size && rest == size - request
    requires nb == m + HEADER_SIZE + request + FOOTER_SIZE && rf == m + size + HEADER_STRUCT_SIZE
    requires footer == m + HEADER_SIZE + request
    requires Addressable(s, rf)
    requires forall i :: 0 <= i < |nodes| ==> Apart(nb, nodes[i])
    requires LinksAvoid([nb] + nodes, {rf, footer})
    ensures Split(s, nb, rest).Done?
    ensures var t := Split(s, nb, rest).value;
      && t == s.(mem := t.mem, freeList := nb)
      && ListWF(t, [nb] + nodes)
      && Load(t, nb) == Done(SetFreeWord(rest))
      && Load(t, rf) == Done(SetFreeWord(Word(s, rf)))
      && KeepsWordsBut(s, t, {nb, rf, nb + NEXT_OFFSET, nb + PREV_OFFSET, s.freeList + PREV_OFFSET})
    ensures Resize(Split(s, nb, rest).value, m, request).Done?
    ensures var t := Split(s, nb, rest).value;
      && var u := Resize(t, m, request).value;
      && u == t.(mem := u.mem)
      && ListWF(u, [nb] + nodes)
      && InUse(u, m, request)
      && KeepsWordsBut(t, u, {m, footer})
  {
    SplitAddresses(s, m, request, Word(s, m), nb, rf, footer, rest);
    assert LinksAvoid([nb] + nodes, {rf}) && LinksAvoid([nb] + nodes, {footer});
    SplitPushes(s, nodes, nb, rest, rf);
    ResizeAfterPush(s, Split(s, nb, rest).value, nodes, k, request, nb, footer);
  }

  /** The resize of block m once the remainder is on the list, stated on the
      state the push leaves. */
  lemma ResizeAfterPush(s: State, t: State, nodes: seq<int>, k: int, request: int, nb: int, footer: int)
    requires 0 <= k < |nodes| && forall i, j :: 0 <= i < j < |nodes| ==> Apart(nodes[i], nodes[j])
    requires 0 <= request && request % 8 == 0
    requires Addressable(s, nodes[k]) && Addressable(s, footer)
    requires footer == nodes[k] + HEADER_SIZE + request && nb == footer + FOOTER_SIZE && Apart(nb, nodes[k])
    requires t == s.(mem := t.mem, freeList := nb) && ListWF(t, [nb] + nodes)
    requires LinksAvoid([nb] + nodes, {footer})
    ensures Resize(t, nodes[k], request).Done?
    ensures var u := Resize(t, nodes[k], request).value;
      && u == t.(mem := u.mem)
      && ListWF(u, [nb] + nodes)
      && InUse(u, nodes[k], request)
      && KeepsWordsBut(t, u, {nodes[k], footer})
  {
    SameShapeSameAddresses(s, t);
    BlockOffPushedLinks(nodes, k, nb, footer);
    ResizeKeepsList(t, [nb] + nodes, nodes[k], request);
  }

  /** Where the words of a split lie, relative to the block found. */
  lemma SplitAddresses(s: State, m: int, request: int, w: int, nb: int, rf: int, footer: int, rest: int)
    requires Addressable(s, m) && 0 <= request && request % 8 == 0
    requires request + MINIMUM_ALLOC_SIZE <= SizeOfWord(w) && rest == SizeOfWord(w) - request
    requires nb == m + HEADER_SIZE + request + FOOTER_SIZE && footer == m + HEADER_SIZE + request
    requires rf == m + SizeOfWord(w) + HEADER_STRUCT_SIZE && Addressable(s, rf)
    ensures MINIMUM_ALLOC_SIZE <= rest && rest % 2 == 0 && rf == nb + rest + HEADER_SIZE
    ensures Addressable(s, footer) && Addressable(s, nb) && Addressable(s, nb + NEXT_OFFSET) && Addressable(s, nb + PREV_OFFSET)
  {
    EightApart(m - s.base, request + HEADER_SIZE);
    EightApart(footer - s.base, FOOTER_SIZE);
    EvenApart(SizeOfWord(w), request);
  }

  lemma EightApart(a: int, d: int)
    requires a % 8 == 0 && d % 8 == 0
    ensures (a + d) % 8 == 0
  {
    assert a == 8 * (a / 8) && d == 8 * (d / 8);
    assert a + d == 8 * (a / 8 + d / 8);
  }

  lemma EvenApart(a: int, d: int)
    requires a % 2 == 0 && d % 8 == 0
    ensures (a - d) % 2 == 0
  {
    assert a == 2 * (a / 2) && d == 8 * (d / 8);
    assert a - d == 2 * (a / 2 - 4 * (d / 8));
  }

  /** A resized block m of a well-formed list and its new footer, which sits just
      before the remainder pushed in front, are no link word of the new list. */
  lemma BlockOffPushedLinks(nodes: seq<int>, k: int, nb: int, footer: int)
    requires 0 <= k < |nodes| && forall i, j :: 0 <= i < j < |nodes| ==> Apart(nodes[i], nodes[j])
    requires nodes[k] + HEADER_STRUCT_SIZE <= nb && footer == nb - FOOTER_SIZE
    requires LinksAvoid([nb] + nodes, {footer})
    ensures LinksAvoid([nb] + nodes, {nodes[k], footer})
  {
    NodeOffLinks(nodes, k);
    forall i, a | 0 <= i < |[nb] + nodes| && a in {nodes[k], footer} ensures OffLinks(a, ([nb] + nodes)[i]) {
      if i > 0 {
        assert ([nb] + nodes)[i] == nodes[i - 1];
        assert OffLinks(nodes[k], nodes[i - 1]);
      }
    }
  }

  /** What the split and the resize leave between them, stated on the states
      alone: `t` after the split, `u` after the resize of block m. */
  lemma SplitThenResize(s: State, t: State, u: State, nodes: seq<int>, m: int, request: int,
                        nb: int, rest: int, rf: int, footer: int)
    requires Addressable(s, m)
    requires nb == RemainderAt(m, request) && rest == RemainderSize(SizeOfWord(Word(s, m)), request)
    requires rf == m + SizeOfWord(Word(s, m)) + HEADER_STRUCT_SIZE && footer == m + HEADER_SIZE + request
    requires 0 <= request && MINIMUM_ALLOC_SIZE <= rest && rf == nb + HEADER_SIZE + rest
    requires Addressable(s, rf)
    requires t == s.(mem := t.mem, freeList := nb)
    requires Load(t, nb) == Done(SetFreeWord(rest))
    requires Load(t, rf) == Done(SetFreeWord(Word(s, rf)))
    requires KeepsWordsBut(s, t, {nb, rf, nb + NEXT_OFFSET, nb + PREV_OFFSET, s.freeList + PREV_OFFSET})
    requires u == t.(mem := u.mem) && KeepsWordsBut(t, u, {m, footer})
    requires ListWF(u, [nb] + nodes) && InUse(u, m, request)
    ensures SplitLeaves(s, u, nodes, m, request)
  {
    var holes := {nb, rf, nb + NEXT_OFFSET, nb + PREV_OFFSET, s.freeList + PREV_OFFSET};
    assert nb != m && nb != footer && rf != m && rf != footer;
    KeepsTrans(s, t, u, holes, {m, footer});
    assert holes + {m, footer} == {m, footer, nb, rf, nb + NEXT_OFFSET, nb + PREV_OFFSET, s.freeList + PREV_OFFSET};
  }
}
