/** The doubly linked free list: `next` at header + 8, `prev` at header + 16, the
    head in the global `free_list`. */
module FreeList {
  import opened Words
  import opened Region

  /** The free flag goes up on the header of `block` and on the footer it places. */
  function MarkFree(s: State, block: int): (r: Outcome<State>)
    ensures r.Done? <==> Addressable(s, block) && Addressable(s, FooterAt(s, block))
    ensures r.Done? ==> Shape(r.value) == Shape(s)
    ensures r.Done? ==> r.value.first == s.first && r.value.last == s.last
    ensures r.Done? ==> r.value.freeList == s.freeList
    ensures r.Done? ==> Load(r.value, block) == Done(SetFreeWord(Word(s, block)))
    ensures r.Done? ==> Load(r.value, FooterAt(s, block)) == Done(SetFreeWord(Word(s, FooterAt(s, block))))
    ensures r.Done? ==> forall b :: b != block && b != FooterAt(s, block) ==> Load(r.value, b) == Load(s, b)
  {
    var s1 :- SetFreeAt(s, block);
    var footer :- FooterFromHeader(s1, block);
    assert footer == FooterAt(s, block);
    SetFreeAt(s1, footer)
  }

  /** The free flag goes down on the header of `block` and on the footer it places. */
  function MarkUsed(s: State, block: int): (r: Outcome<State>)
    ensures r.Done? <==> Addressable(s, block) && Addressable(s, FooterAt(s, block))
    ensures r.Done? ==> Shape(r.value) == Shape(s)
    ensures r.Done? ==> r.value.first == s.first && r.value.last == s.last
    ensures r.Done? ==> r.value.freeList == s.freeList
    ensures r.Done? ==> Load(r.value, block) == Done(SetUsedWord(Word(s, block)))
    ensures r.Done? ==> Load(r.value, FooterAt(s, block)) == Done(SetUsedWord(Word(s, FooterAt(s, block))))
    ensures r.Done? ==> forall b :: b != block && b != FooterAt(s, block) ==> Load(r.value, b) == Load(s, b)
  {
    var s1 :- SetUsedAt(s, block);
    var footer :- FooterFromHeader(s1, block);
    assert footer == FooterAt(s, block);
    SetUsedAt(s1, footer)
  }

  /** The linking half of add_to_free_list: the block's successor link gets the old
      head, its predecessor link NULL, the old head (when there is one) gets the block
      as predecessor, and the block becomes the head. */
  function PushFront(s: State, block: int): (r: Outcome<State>)
    ensures r.Done? ==> Shape(r.value) == Shape(s)
    ensures r.Done? ==> r.value.first == s.first && r.value.last == s.last
    ensures r.Done? ==> r.value.freeList == block
  {
    var s1 :- Store(s, block + NEXT_OFFSET, s.freeList);
    var s2 :- Store(s1, block + PREV_OFFSET, NULL);
    var s3 :- if s2.freeList != NULL then Store(s2, s2.freeList + PREV_OFFSET, block) else Done(s2);
    Done(s3.(freeList := block))
  }

  /** add_to_free_list(block): push at the front, then flag header and footer free. */
  function AddToFreeList(s: State, block: int): (r: Outcome<State>)
    ensures r.Done? ==> Shape(r.value) == Shape(s)
    ensures r.Done? ==> r.value.first == s.first && r.value.last == s.last
    ensures r.Done? ==> r.value.freeList == block
  {
    var s1 :- PushFront(s, block);
    MarkFree(s1, block)
  }

  /** The successor of `block`, when there is one, takes over its predecessor link. */
  function UnlinkFromNext(s: State, block: int): (r: Outcome<State>)
    ensures r.Done? ==> Shape(r.value) == Shape(s)
    ensures r.Done? ==> r.value.first == s.first && r.value.last == s.last
    ensures r.Done? ==> r.value.freeList == s.freeList
  {
    var next :- Load(s, block + NEXT_OFFSET);
    if next == NULL then Done(s)
    else
      var prev :- Load(s, block + PREV_OFFSET);
      Store(s, next + PREV_OFFSET, prev)
  }

  /** The predecessor of `block`, when there is one, takes over its successor link. */
  function UnlinkFromPrev(s: State, block: int): (r: Outcome<State>)
    ensures r.Done? ==> Shape(r.value) == Shape(s)
    ensures r.Done? ==> r.value.first == s.first && r.value.last == s.last
    ensures r.Done? ==> r.value.freeList == s.freeList
  {
    var prev :- Load(s, block + PREV_OFFSET);
    if prev == NULL then Done(s)
    else
      var next :- Load(s, block + NEXT_OFFSET);
      Store(s, prev + NEXT_OFFSET, next)
  }

  /** When `block` heads the list, its successor becomes the head. */
  function AdvanceHead(s: State, block: int): (r: Outcome<State>)
    ensures r.Done? ==> Shape(r.value) == Shape(s) && r.value.mem == s.mem
    ensures r.Done? ==> r.value.first == s.first && r.value.last == s.last
  {
    if block != s.freeList then Done(s)
    else
      var next :- Load(s, block + NEXT_OFFSET);
      Done(s.(freeList := next))
  }

  /** remove_from_free_list(block): unlink, then flag header and footer used. */
  function RemoveFromFreeList(s: State, block: int): (r: Outcome<State>)
    ensures r.Done? ==> Shape(r.value) == Shape(s)
    ensures r.Done? ==> r.value.first == s.first && r.value.last == s.last
  {
    var s1 :- UnlinkFromNext(s, block);
    var s2 :- UnlinkFromPrev(s1, block);
    var s3 :- AdvanceHead(s2, block);
    MarkUsed(s3, block)
  }

  // ---------------------------------------------------------------- well-formed lists

  /** Two headers whose three words do not overlap. */
  predicate Apart(x: int, y: int) {
    x + HEADER_STRUCT_SIZE <= y || y + HEADER_STRUCT_SIZE <= x
  }

  /** A word of memory that is neither link of node x. */
  predicate OffLinks(a: int, x: int) {
    a != x + NEXT_OFFSET && a != x + PREV_OFFSET
  }

  /** Node i of `nodes` has its header in the heap and links to its neighbours in
      `nodes`: `next` to its successor (NULL at the end), `prev` to its predecessor
      (NULL at the head). */
  ghost predicate Linked(s: State, nodes: seq<int>, i: int)
    requires 0 <= i < |nodes|
  {
    && Addressable(s, nodes[i])
    && Load(s, nodes[i] + NEXT_OFFSET) == Done(NextOf(nodes, i))
    && Load(s, nodes[i] + PREV_OFFSET) == Done(PrevOf(nodes, i))
  }

  /** `nodes` with its k-th element taken out. */
  function Without(nodes: seq<int>, k: int): (r: seq<int>)
    requires 0 <= k < |nodes|
    ensures |r| == |nodes| - 1
    ensures forall j :: 0 <= j < k ==> r[j] == nodes[j]
    ensures forall j :: k <= j < |r| ==> r[j] == nodes[j + 1]
  {
    nodes[..k] + nodes[k + 1..]
  }

  /** The successor of node k in `nodes`, NULL for the last. */
  function NextOf(nodes: seq<int>, k: int): int
    requires 0 <= k < |nodes|
  {
    if k + 1 < |nodes| then nodes[k + 1] else NULL
  }

  /** The predecessor of node k in `nodes`, NULL for the head. */
  function PrevOf(nodes: seq<int>, k: int): int
    requires 0 <= k < |nodes|
  {
    if k == 0 then NULL else nodes[k - 1]
  }

  /** `free_list` heads a doubly linked list whose nodes, in order, are `nodes`, and
      no two nodes share a header word. */
  ghost predicate ListWF(s: State, nodes: seq<int>) {
    && (forall i :: 0 <= i < |nodes| ==> Linked(s, nodes, i))
    && (forall i, j :: 0 <= i < j < |nodes| ==> Apart(nodes[i], nodes[j]))
    && s.freeList == (if nodes == [] then NULL else nodes[0])
  }

  /** `r` is `s` with block taken out of the list as remove_from_free_list does it,
      block's links being `next` and `prev`: each neighbour's link bypasses block,
      the head moves on if it was block, and no word changes except those links and
      block's header and footer. */
  ghost predicate Bypassed(s: State, r: State, block: int, next: int, prev: int) {
    && Addressable(s, block)
    && Shape(r) == Shape(s)
    && r == s.(mem := r.mem, freeList := if block == s.freeList then next else s.freeList)
    && (next != NULL ==> Load(r, next + PREV_OFFSET) == Done(prev))
    && (prev != NULL ==> Load(r, prev + NEXT_OFFSET) == Done(next))
    && KeepsWordsBut(s, r, {block, FooterAt(s, block), next + PREV_OFFSET, prev + NEXT_OFFSET})
  }

  /** No address in `holes` is a link word of any node. */
  predicate LinksAvoid(nodes: seq<int>, holes: set<int>) {
    forall i, a :: 0 <= i < |nodes| && a in holes ==> OffLinks(a, nodes[i])
  }

  /** `t` holds every word of `s` except perhaps those at the addresses in `holes`. */
  ghost predicate KeepsWordsBut(s: State, t: State, holes: set<int>) {
    forall a :: a !in holes ==> Load(t, a) == Load(s, a)
  }
}

module FreeListLemmas {
  import opened Words
  import opened Region
  import opened FreeList

  /** States of one shape address the same words. */
  lemma SameShapeSameAddresses(s: State, t: State)
    requires Shape(s) == Shape(t)
    ensures forall a :: Addressable(s, a) <==> Addressable(t, a)
  {
  }

  /** The words PushFront writes: block's two links and the old head's `prev`. */
  lemma PushFrontWords(s: State, block: int)
    requires Addressable(s, block + NEXT_OFFSET) && Addressable(s, block + PREV_OFFSET)
    requires s.freeList != NULL ==> Addressable(s, s.freeList + PREV_OFFSET) && Apart(block, s.freeList)
    ensures var r := PushFront(s, block);
      && r.Done?
      && r.value == s.(mem := r.value.mem, freeList := block)
      && Load(r.value, block + NEXT_OFFSET) == Done(s.freeList)
      && Load(r.value, block + PREV_OFFSET) == Done(NULL)
      && (s.freeList != NULL ==> Load(r.value, s.freeList + PREV_OFFSET) == Done(block))
      && KeepsWordsBut(s, r.value, {block + NEXT_OFFSET, block + PREV_OFFSET, s.freeList + PREV_OFFSET})
  {
  }

  /** Node k of `nodes` stays linked, one place further down, once `block` is
      pushed in front of it. */
  lemma PushFrontNode(s: State, r: State, nodes: seq<int>, block: int, k: int)
    requires 0 <= k < |nodes| && Linked(s, nodes, k) && Shape(s) == Shape(r)
    requires Apart(block, nodes[k]) && (k > 0 ==> Apart(nodes[0], nodes[k]))
    requires KeepsWordsBut(s, r, {block + NEXT_OFFSET, block + PREV_OFFSET, nodes[0] + PREV_OFFSET})
    requires Load(r, nodes[0] + PREV_OFFSET) == Done(block)
    ensures Linked(r, [block] + nodes, k + 1)
  {
    SameShapeSameAddresses(s, r);
    var all := [block] + nodes;
    assert all[k + 1] == nodes[k];
    if k > 0 {
      assert all[k] == nodes[k - 1];
    }
  }

  /** Every node stays linked, one place further down, once `block` is pushed in
      front of a non-empty well-formed list. */
  lemma PushFrontNodes(s: State, r: State, nodes: seq<int>, block: int)
    requires ListWF(s, nodes) && nodes != [] && Shape(s) == Shape(r)
    requires forall i :: 0 <= i < |nodes| ==> Apart(block, nodes[i])
    requires KeepsWordsBut(s, r, {block + NEXT_OFFSET, block + PREV_OFFSET, nodes[0] + PREV_OFFSET})
    requires Load(r, nodes[0] + PREV_OFFSET) == Done(block)
    ensures forall i :: 1 <= i < |nodes| + 1 ==> Linked(r, [block] + nodes, i)
  {
    forall i | 1 <= i < |nodes| + 1 ensures Linked(r, [block] + nodes, i) {
      PushFrontNode(s, r, nodes, block, i - 1);
    }
  }

  /** Prepending a header apart from every node keeps the nodes pairwise apart. */
  lemma PrependApart(nodes: seq<int>, block: int)
    requires forall i, j :: 0 <= i < j < |nodes| ==> Apart(nodes[i], nodes[j])
    requires forall i :: 0 <= i < |nodes| ==> Apart(block, nodes[i])
    ensures forall i, j :: 0 <= i < j < |[block] + nodes| ==> Apart(([block] + nodes)[i], ([block] + nodes)[j])
  {
    var all := [block] + nodes;
    forall i, j | 0 <= i < j < |all| ensures Apart(all[i], all[j]) {
      if i > 0 {
        assert all[i] == nodes[i - 1] && all[j] == nodes[j - 1];
      } else {
        assert all[j] == nodes[j - 1];
      }
    }
  }

  /** Any state that writes PushFront's three words over a well-formed list holds
      the list with `block` in front. */
  lemma PushFrontWF(s: State, r: State, nodes: seq<int>, block: int)
    requires ListWF(s, nodes) && Addressable(s, block) && Shape(s) == Shape(r)
    requires forall i :: 0 <= i < |nodes| ==> Apart(block, nodes[i])
    requires r.freeList == block
    requires Load(r, block + NEXT_OFFSET) == Done(s.freeList)
    requires Load(r, block + PREV_OFFSET) == Done(NULL)
    requires s.freeList != NULL ==> Load(r, s.freeList + PREV_OFFSET) == Done(block)
    requires KeepsWordsBut(s, r, {block + NEXT_OFFSET, block + PREV_OFFSET, s.freeList + PREV_OFFSET})
    ensures ListWF(r, [block] + nodes)
  {
    SameShapeSameAddresses(s, r);
    var all := [block] + nodes;
    assert Linked(r, all, 0);
    if nodes != [] {
      assert Linked(s, nodes, 0);
      PushFrontNodes(s, r, nodes, block);
    }
    PrependApart(nodes, block);
  }

  /** The linking half of add_to_free_list, on a block apart from every node of a
      well-formed list: the list becomes [block] + nodes, and only block's two links
      and the old head's `prev` change. */
  lemma PushFrontLinks(s: State, nodes: seq<int>, block: int)
    requires ListWF(s, nodes) && Addressable(s, block)
    requires Addressable(s, block + NEXT_OFFSET) && Addressable(s, block + PREV_OFFSET)
    requires forall i :: 0 <= i < |nodes| ==> Apart(block, nodes[i])
    ensures var r := PushFront(s, block);
      && r.Done?
      && ListWF(r.value, [block] + nodes)
      && r.value == s.(mem := r.value.mem, freeList := block)
      && KeepsWordsBut(s, r.value, {block + NEXT_OFFSET, block + PREV_OFFSET, s.freeList + PREV_OFFSET})
  {
    if nodes != [] {
      assert Linked(s, nodes, 0);
    }
    PushFrontWords(s, block);
    PushFrontWF(s, PushFront(s, block).value, nodes, block);
  }

  /** Moving the head of the list changes no word. */
  lemma HeadMoveKeepsWords(s: State, t: State)
    requires t == s.(freeList := t.freeList)
    ensures KeepsWordsBut(s, t, {})
  {
  }

  /** Keeping words composes: the holes add up. */
  lemma KeepsTrans(s: State, t: State, u: State, h1: set<int>, h2: set<int>)
    requires KeepsWordsBut(s, t, h1) && KeepsWordsBut(t, u, h2)
    ensures KeepsWordsBut(s, u, h1 + h2)
  {
  }

  /** A well-formed list survives any change of shape-preserving state that keeps
      the head and leaves the link words alone. */
  lemma ListWFFrame(s: State, t: State, nodes: seq<int>, holes: set<int>)
    requires ListWF(s, nodes) && Shape(s) == Shape(t) && t.freeList == s.freeList
    requires KeepsWordsBut(s, t, holes) && LinksAvoid(nodes, holes)
    ensures ListWF(t, nodes)
  {
    SameShapeSameAddresses(s, t);
    forall i | 0 <= i < |nodes| ensures Linked(t, nodes, i) {
      assert Linked(s, nodes, i);
      assert forall a :: a in holes ==> OffLinks(a, nodes[i]);
    }
  }

  /** Flagging a block free or used keeps a well-formed list whose link words are
      neither the block's header nor its footer. */
  lemma MarkKeepsList(s: State, nodes: seq<int>, block: int, free: bool)
    requires ListWF(s, nodes) && Addressable(s, block) && Addressable(s, FooterAt(s, block))
    requires LinksAvoid(nodes, {block, FooterAt(s, block)})
    ensures var r := if free then MarkFree(s, block) else MarkUsed(s, block);
      r.Done? && ListWF(r.value, nodes)
  {
    var r := if free then MarkFree(s, block).value else MarkUsed(s, block).value;
    ListWFFrame(s, r, nodes, {block, FooterAt(s, block)});
  }

  /** Flagging free a block whose header and footer are free already changes no
      word: set_free is idempotent. */
  lemma MarkFreeAgain(s: State, block: int)
    requires Addressable(s, block) && IsFreeWord(Word(s, block))
    requires Addressable(s, FooterAt(s, block)) && IsFreeWord(Word(s, FooterAt(s, block)))
    ensures MarkFree(s, block).Done?
    ensures var r := MarkFree(s, block).value;
      r == s.(mem := r.mem) && KeepsWordsBut(s, r, {})
  {
  }

  /** add_to_free_list(block) on the block already at the head of the list makes it
      its own `next` and its own `prev`: free_list then heads no list at all, only
      a cycle through `block`. */
  lemma AddHeadAgain(s: State, block: int)
    requires block != NULL && block == s.freeList && Addressable(s, block)
    requires Addressable(s, block + NEXT_OFFSET) && Addressable(s, block + PREV_OFFSET)
    requires Addressable(s, FooterAt(s, block)) && OffLinks(FooterAt(s, block), block)
    ensures AddToFreeList(s, block).Done?
    ensures var r := AddToFreeList(s, block).value;
      && r.freeList == block
      && Load(r, block + NEXT_OFFSET) == Done(block)
      && Load(r, block + PREV_OFFSET) == Done(block)
      && forall nodes :: !ListWF(r, nodes)
  {
    var p := PushFront(s, block).value;
    assert Load(p, block + NEXT_OFFSET) == Done(block);
    assert Load(p, block + PREV_OFFSET) == Done(block);
    SameShapeSameAddresses(s, p);
    assert Load(p, block) == Load(s, block);
    assert FooterAt(p, block) == FooterAt(s, block);
    var r := AddToFreeList(s, block).value;
    assert Load(r, block + NEXT_OFFSET) == Done(block);
    forall nodes ensures !ListWF(r, nodes) {
      if ListWF(r, nodes) {
        HeadLinksOn(r, nodes);
      }
    }
  }

  /** The head of a well-formed list is never its own successor. */
  lemma HeadLinksOn(r: State, nodes: seq<int>)
    requires ListWF(r, nodes) && r.freeList != NULL
    ensures Load(r, r.freeList + NEXT_OFFSET) != Done(r.freeList)
  {
    assert Linked(r, nodes, 0);
  }

  /** set_free on a block just added to the free list changes no word. */
  lemma MarkFreeAfterAdd(s: State, block: int)
    requires AddToFreeList(s, block).Done?
    ensures var t := AddToFreeList(s, block).value;
      && MarkFree(t, block).Done?
      && MarkFree(t, block).value == t.(mem := MarkFree(t, block).value.mem)
      && KeepsWordsBut(t, MarkFree(t, block).value, {})
  {
    var p := PushFront(s, block).value;
    var t := AddToFreeList(s, block).value;
    assert AddToFreeList(s, block) == MarkFree(p, block);
    assert FooterAt(t, block) == FooterAt(p, block);
    MarkFreeAgain(t, block);
  }

  /** A header apart from every node of a list is no link word of the list. */
  lemma ApartAvoids(nodes: seq<int>, block: int, footer: int)
    requires forall i :: 0 <= i < |nodes| ==> Apart(block, nodes[i])
    requires LinksAvoid([block] + nodes, {footer})
    ensures LinksAvoid([block] + nodes, {block, footer})
  {
    var all := [block] + nodes;
    forall i, a | 0 <= i < |all| && a in {block, footer} ensures OffLinks(a, all[i]) {
      assert a == footer ==> OffLinks(footer, all[i]);
      if i > 0 {
        assert all[i] == nodes[i - 1];
        assert Apart(block, nodes[i - 1]);
      }
    }
  }

  /** The words add_to_free_list(block) writes, when the footer is none of the links
      that PushFront writes: block's links, the old head's `prev`, and the flags of
      block's header and footer. */
  lemma AddToFreeListWords(s: State, block: int)
    requires Addressable(s, block)
    requires Addressable(s, block + NEXT_OFFSET) && Addressable(s, block + PREV_OFFSET)
    requires s.freeList != NULL ==> Addressable(s, s.freeList + PREV_OFFSET) && Apart(block, s.freeList)
    requires Addressable(s, FooterAt(s, block)) && OffLinks(FooterAt(s, block), block)
    requires s.freeList != NULL ==> FooterAt(s, block) != s.freeList + PREV_OFFSET
    ensures var r := AddToFreeList(s, block);
      && r.Done?
      && r.value == s.(mem := r.value.mem, freeList := block)
      && r.value == MarkFree(PushFront(s, block).value, block).value
      && Load(r.value, block) == Done(SetFreeWord(Word(s, block)))
      && Load(r.value, FooterAt(s, block)) == Done(SetFreeWord(Word(s, FooterAt(s, block))))
      && KeepsWordsBut(s, r.value, {block, FooterAt(s, block), block + NEXT_OFFSET, block + PREV_OFFSET, s.freeList + PREV_OFFSET})
  {
    var footer := FooterAt(s, block);
    PushFrontWords(s, block);
    var s1 := PushFront(s, block).value;
    SameShapeSameAddresses(s, s1);
    assert Load(s1, block) == Load(s, block);
    assert FooterAt(s1, block) == footer;
    assert Load(s1, footer) == Load(s, footer);
  }

  /** add_to_free_list(block) on a block apart from every node of a well-formed
      list, whose footer is no link word of the new list: the list becomes
      [block] + nodes, block's header and footer carry the free flag, and the only
      other word that changes is the old head's `prev`. */
  lemma AddToFreeListPushes(s: State, nodes: seq<int>, block: int)
    requires ListWF(s, nodes) && Addressable(s, block)
    requires Addressable(s, block + NEXT_OFFSET) && Addressable(s, block + PREV_OFFSET)
    requires forall i :: 0 <= i < |nodes| ==> Apart(block, nodes[i])
    requires Addressable(s, FooterAt(s, block))
    requires LinksAvoid([block] + nodes, {FooterAt(s, block)})
    ensures var r := AddToFreeList(s, block);
      && r.Done?
      && ListWF(r.value, [block] + nodes)
      && r.value == s.(mem := r.value.mem, freeList := block)
      && Load(r.value, block) == Done(SetFreeWord(Word(s, block)))
      && Load(r.value, FooterAt(s, block)) == Done(SetFreeWord(Word(s, FooterAt(s, block))))
      && KeepsWordsBut(s, r.value, {block, FooterAt(s, block), block + NEXT_OFFSET, block + PREV_OFFSET, s.freeList + PREV_OFFSET})
  {
    var footer := FooterAt(s, block);
    assert OffLinks(footer, ([block] + nodes)[0]);
    if nodes != [] {
      assert Linked(s, nodes, 0) && Apart(block, nodes[0]);
      assert ([block] + nodes)[1] == nodes[0];
      assert OffLinks(footer, ([block] + nodes)[1]);
    }
    AddToFreeListWords(s, block);
    PushFrontLinks(s, nodes, block);
    var s1 := PushFront(s, block).value;
    SameShapeSameAddresses(s, s1);
    assert FooterAt(s1, block) == footer;
    ApartAvoids(nodes, block, footer);
    MarkKeepsList(s1, [block] + nodes, block, true);
  }

  /** UnlinkFromNext writes the successor's `prev` and nothing else. */
  lemma UnlinkFromNextWords(s: State, block: int, next: int, prev: int)
    requires Load(s, block + NEXT_OFFSET) == Done(next) && Load(s, block + PREV_OFFSET) == Done(prev)
    requires next != NULL ==> Addressable(s, next + PREV_OFFSET)
    ensures var r := UnlinkFromNext(s, block);
      && r.Done?
      && r.value == s.(mem := r.value.mem)
      && (next != NULL ==> Load(r.value, next + PREV_OFFSET) == Done(prev))
      && KeepsWordsBut(s, r.value, {next + PREV_OFFSET})
  {
  }

  /** UnlinkFromPrev writes the predecessor's `next` and nothing else. */
  lemma UnlinkFromPrevWords(s: State, block: int, next: int, prev: int)
    requires Load(s, block + NEXT_OFFSET) == Done(next) && Load(s, block + PREV_OFFSET) == Done(prev)
    requires prev != NULL ==> Addressable(s, prev + NEXT_OFFSET)
    ensures var r := UnlinkFromPrev(s, block);
      && r.Done?
      && r.value == s.(mem := r.value.mem)
      && (prev != NULL ==> Load(r.value, prev + NEXT_OFFSET) == Done(next))
      && KeepsWordsBut(s, r.value, {prev + NEXT_OFFSET})
  {
  }

  /** Both unlink steps together bypass block in both directions. */
  lemma UnlinkWords(s: State, block: int, next: int, prev: int)
    requires Load(s, block + NEXT_OFFSET) == Done(next) && Load(s, block + PREV_OFFSET) == Done(prev)
    requires next != NULL ==> Addressable(s, next + PREV_OFFSET) && Apart(block, next)
    requires prev != NULL ==> Addressable(s, prev + NEXT_OFFSET) && Apart(block, prev)
    requires next != NULL && prev != NULL ==> Apart(next, prev)
    ensures UnlinkFromNext(s, block).Done?
    ensures var r := UnlinkFromPrev(UnlinkFromNext(s, block).value, block);
      && r.Done?
      && r.value == s.(mem := r.value.mem)
      && Load(r.value, block + NEXT_OFFSET) == Done(next)
      && (next != NULL ==> Load(r.value, next + PREV_OFFSET) == Done(prev))
      && (prev != NULL ==> Load(r.value, prev + NEXT_OFFSET) == Done(next))
      && KeepsWordsBut(s, r.value, {next + PREV_OFFSET, prev + NEXT_OFFSET})
  {
    UnlinkFromNextWords(s, block, next, prev);
    var s1 := UnlinkFromNext(s, block).value;
    assert Load(s1, block + PREV_OFFSET) == Done(prev);
    assert Load(s1, block + NEXT_OFFSET) == Done(next);
    assert prev != NULL ==> Load(s1, prev + NEXT_OFFSET) == Load(s, prev + NEXT_OFFSET);
    UnlinkFromPrevWords(s1, block, next, prev);
  }

  /** The unlinking half of remove_from_free_list, up to the flag updates. */
  lemma UnlinkAndAdvance(s: State, block: int, next: int, prev: int)
    requires Load(s, block + NEXT_OFFSET) == Done(next) && Load(s, block + PREV_OFFSET) == Done(prev)
    requires next != NULL ==> Addressable(s, next + PREV_OFFSET) && Apart(block, next)
    requires prev != NULL ==> Addressable(s, prev + NEXT_OFFSET) && Apart(block, prev)
    requires next != NULL && prev != NULL ==> Apart(next, prev)
    ensures UnlinkFromNext(s, block).Done?
    ensures UnlinkFromPrev(UnlinkFromNext(s, block).value, block).Done?
    ensures var r := AdvanceHead(UnlinkFromPrev(UnlinkFromNext(s, block).value, block).value, block);
      && r.Done?
      && r.value == s.(mem := r.value.mem, freeList := if block == s.freeList then next else s.freeList)
      && (next != NULL ==> Load(r.value, next + PREV_OFFSET) == Done(prev))
      && (prev != NULL ==> Load(r.value, prev + NEXT_OFFSET) == Done(next))
      && KeepsWordsBut(s, r.value, {next + PREV_OFFSET, prev + NEXT_OFFSET})
  {
    UnlinkWords(s, block, next, prev);
    var s2 := UnlinkFromPrev(UnlinkFromNext(s, block).value, block).value;
    var s3 := AdvanceHead(s2, block).value;
    HeadMoveKeepsWords(s2, s3);
    KeepsTrans(s, s2, s3, {next + PREV_OFFSET, prev + NEXT_OFFSET}, {});
    assert {next + PREV_OFFSET, prev + NEXT_OFFSET} + {} == {next + PREV_OFFSET, prev + NEXT_OFFSET};
  }

  /** The words remove_from_free_list(block) writes, for a block whose links are
      `next` and `prev` and whose footer is neither link it rewrites: the
      neighbours' links that bypass block, and the flags of block's header and
      footer. */
  lemma RemoveFromFreeListWords(s: State, block: int, next: int, prev: int)
    requires Addressable(s, block) && Addressable(s, FooterAt(s, block))
    requires Load(s, block + NEXT_OFFSET) == Done(next) && Load(s, block + PREV_OFFSET) == Done(prev)
    requires next != NULL ==> Addressable(s, next + PREV_OFFSET) && Apart(block, next)
    requires prev != NULL ==> Addressable(s, prev + NEXT_OFFSET) && Apart(block, prev)
    requires next != NULL && prev != NULL ==> Apart(next, prev)
    requires FooterAt(s, block) != next + PREV_OFFSET && FooterAt(s, block) != prev + NEXT_OFFSET
    ensures var r := RemoveFromFreeList(s, block);
      && r.Done?
      && Bypassed(s, r.value, block, next, prev)
      && Load(r.value, block) == Done(SetUsedWord(Word(s, block)))
      && Load(r.value, FooterAt(s, block)) == Done(SetUsedWord(Word(s, FooterAt(s, block))))
  {
    var footer := FooterAt(s, block);
    UnlinkAndAdvance(s, block, next, prev);
    var s3 := AdvanceHead(UnlinkFromPrev(UnlinkFromNext(s, block).value, block).value, block).value;
    MarkUsedAfterUnlink(s, s3, block, next, prev);
    assert RemoveFromFreeList(s, block) == MarkUsed(s3, block);
  }

  /** The flag updates at the end of remove_from_free_list, on the unlinked state. */
  lemma MarkUsedAfterUnlink(s: State, s3: State, block: int, next: int, prev: int)
    requires Addressable(s, block) && Addressable(s, FooterAt(s, block))
    requires next != NULL ==> Apart(block, next)
    requires prev != NULL ==> Apart(block, prev)
    requires FooterAt(s, block) != next + PREV_OFFSET && FooterAt(s, block) != prev + NEXT_OFFSET
    requires Shape(s3) == Shape(s)
    requires next != NULL ==> Load(s3, next + PREV_OFFSET) == Done(prev)
    requires prev != NULL ==> Load(s3, prev + NEXT_OFFSET) == Done(next)
    requires KeepsWordsBut(s, s3, {next + PREV_OFFSET, prev + NEXT_OFFSET})
    ensures var r := MarkUsed(s3, block);
      && r.Done?
      && r.value == s3.(mem := r.value.mem)
      && (next != NULL ==> Load(r.value, next + PREV_OFFSET) == Done(prev))
      && (prev != NULL ==> Load(r.value, prev + NEXT_OFFSET) == Done(next))
      && Load(r.value, block) == Done(SetUsedWord(Word(s, block)))
      && Load(r.value, FooterAt(s, block)) == Done(SetUsedWord(Word(s, FooterAt(s, block))))
      && KeepsWordsBut(s, r.value, {block, FooterAt(s, block), next + PREV_OFFSET, prev + NEXT_OFFSET})
  {
    var footer := FooterAt(s, block);
    SameShapeSameAddresses(s, s3);
    assert Load(s3, block) == Load(s, block);
    assert FooterAt(s3, block) == footer;
    assert Load(s3, footer) == Load(s, footer);
    var r := MarkUsed(s3, block).value;
    KeepsTrans(s, s3, r, {next + PREV_OFFSET, prev + NEXT_OFFSET}, {block, footer});
    assert {next + PREV_OFFSET, prev + NEXT_OFFSET} + {block, footer} == {block, footer, next + PREV_OFFSET, prev + NEXT_OFFSET};
  }

  /** Node j of the list without node k is still linked once node k's neighbours
      bypass it. */
  lemma RemoveNode(s: State, r: State, nodes: seq<int>, k: int, j: int, footer: int)
    requires 0 <= k < |nodes| && 0 <= j < |nodes| - 1 && Shape(s) == Shape(r)
    requires var idx := if j < k then j else j + 1;
      && Linked(s, nodes, idx)
      && Apart(nodes[idx], nodes[k])
      && (k > 0 && idx != k - 1 ==> Apart(nodes[idx], nodes[k - 1]))
      && (k + 1 < |nodes| && idx != k + 1 ==> Apart(nodes[idx], nodes[k + 1]))
      && OffLinks(footer, nodes[idx])
    requires k + 1 < |nodes| ==> Load(r, nodes[k + 1] + PREV_OFFSET) == Done(PrevOf(nodes, k))
    requires k > 0 ==> Load(r, nodes[k - 1] + NEXT_OFFSET) == Done(NextOf(nodes, k))
    requires KeepsWordsBut(s, r, {nodes[k], footer, NextOf(nodes, k) + PREV_OFFSET, PrevOf(nodes, k) + NEXT_OFFSET})
    ensures Linked(r, Without(nodes, k), j)
  {
    SameShapeSameAddresses(s, r);
    var rest := Without(nodes, k);
    var idx := if j < k then j else j + 1;
    var x := nodes[idx];
    assert rest[j] == x;
    if j + 1 < |rest| {
      assert rest[j + 1] == if j + 1 < k then nodes[j + 1] else nodes[j + 2];
    }
    if j > 0 {
      assert rest[j - 1] == if j - 1 < k then nodes[j - 1] else nodes[j];
    }
  }

  /** Taking a node out keeps the others pairwise apart. */
  lemma WithoutApart(nodes: seq<int>, k: int)
    requires 0 <= k < |nodes|
    requires forall i, j :: 0 <= i < j < |nodes| ==> Apart(nodes[i], nodes[j])
    ensures var rest := Without(nodes, k);
      forall i, j :: 0 <= i < j < |rest| ==> Apart(rest[i], rest[j])
  {
    var rest := Without(nodes, k);
    forall i, j | 0 <= i < j < |rest| ensures Apart(rest[i], rest[j]) {
      var i' := if i < k then i else i + 1;
      var j' := if j < k then j else j + 1;
      assert rest[i] == nodes[i'] && rest[j] == nodes[j'];
    }
  }

  /** Any state that bypasses node k the way remove_from_free_list does holds the
      list without node k. */
  lemma RemoveWF(s: State, r: State, nodes: seq<int>, k: int, next: int, prev: int)
    requires ListWF(s, nodes) && 0 <= k < |nodes|
    requires next == NextOf(nodes, k) && prev == PrevOf(nodes, k)
    requires (nodes[k] == s.freeList <==> k == 0) && (k > 0 ==> prev != NULL) && (k + 1 < |nodes| ==> next != NULL)
    requires Bypassed(s, r, nodes[k], next, prev)
    requires LinksAvoid(Without(nodes, k), {FooterAt(s, nodes[k])})
    ensures ListWF(r, Without(nodes, k))
  {
    var rest := Without(nodes, k);
    var footer := FooterAt(s, nodes[k]);
    forall j | 0 <= j < |rest| ensures Linked(r, rest, j) {
      var idx := if j < k then j else j + 1;
      assert Linked(s, nodes, idx);
      assert rest[j] == nodes[idx];
      assert OffLinks(footer, rest[j]);
      if idx < k {
        assert Apart(nodes[idx], nodes[k]);
      } else {
        assert Apart(nodes[k], nodes[idx]);
      }
      RemoveNode(s, r, nodes, k, j, footer);
    }
    WithoutApart(nodes, k);
    if rest != [] && k > 0 {
      assert rest[0] == nodes[0];
    }
    if rest != [] && k == 0 {
      assert rest[0] == nodes[1];
    }
  }

  /** The neighbours of node k in a well-formed list, as remove_from_free_list
      finds them through its links. */
  lemma Neighbours(s: State, nodes: seq<int>, k: int, footer: int)
    requires ListWF(s, nodes) && 0 <= k < |nodes|
    requires Addressable(s, footer) && LinksAvoid(Without(nodes, k), {footer})
    ensures var block, next, prev := nodes[k], NextOf(nodes, k), PrevOf(nodes, k);
      && Load(s, block + NEXT_OFFSET) == Done(next) && Load(s, block + PREV_OFFSET) == Done(prev)
      && (next != NULL ==> Addressable(s, next + PREV_OFFSET) && Apart(block, next))
      && (prev != NULL ==> Addressable(s, prev + NEXT_OFFSET) && Apart(block, prev))
      && (next != NULL && prev != NULL ==> Apart(next, prev))
      && footer != next + PREV_OFFSET && footer != prev + NEXT_OFFSET
      && (block == s.freeList <==> k == 0)
      && (k > 0 ==> prev != NULL) && (k + 1 < |nodes| ==> next != NULL)
  {
    var block := nodes[k];
    var next, prev := NextOf(nodes, k), PrevOf(nodes, k);
    var rest := Without(nodes, k);
    assert Linked(s, nodes, k);
    if next != NULL {
      assert Linked(s, nodes, k + 1) && Apart(block, next);
      assert rest[k] == next && OffLinks(footer, rest[k]);
    }
    if prev != NULL {
      assert Linked(s, nodes, k - 1) && Apart(block, prev);
      assert rest[k - 1] == prev && OffLinks(footer, rest[k - 1]);
      assert Apart(nodes[0], block) || k - 1 == 0;
    }
    if next != NULL && prev != NULL {
      assert Apart(prev, next);
    }
    if k > 0 {
      assert Linked(s, nodes, k - 1);
    }
    if k + 1 < |nodes| {
      assert Linked(s, nodes, k + 1);
    }
  }

  /** remove_from_free_list on node k of a well-formed list whose footer is no link
      word of the other nodes: the list loses node k, and the head advances exactly
      when k is the head; the neighbours' links bypass the node, and its header and
      footer lose the free flag. */
  lemma RemoveFromFreeListUnlinks(s: State, nodes: seq<int>, k: int)
    requires ListWF(s, nodes) && 0 <= k < |nodes| && Addressable(s, nodes[k])
    requires Addressable(s, FooterAt(s, nodes[k]))
    requires LinksAvoid(Without(nodes, k), {FooterAt(s, nodes[k])})
    ensures var r := RemoveFromFreeList(s, nodes[k]);
      && r.Done?
      && ListWF(r.value, Without(nodes, k))
      && r.value.freeList == (if k == 0 then NextOf(nodes, k) else s.freeList)
      && Bypassed(s, r.value, nodes[k], NextOf(nodes, k), PrevOf(nodes, k))
      && Load(r.value, nodes[k]) == Done(SetUsedWord(Word(s, nodes[k])))
      && Load(r.value, FooterAt(s, nodes[k])) == Done(SetUsedWord(Word(s, FooterAt(s, nodes[k]))))
  {
    var block := nodes[k];
    var footer := FooterAt(s, block);
    Neighbours(s, nodes, k, footer);
    RemoveFromFreeListWords(s, block, NextOf(nodes, k), PrevOf(nodes, k));
    RemoveWF(s, RemoveFromFreeList(s, block).value, nodes, k, NextOf(nodes, k), PrevOf(nodes, k));
  }
}
