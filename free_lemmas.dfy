/** What Free does, branch by branch (malloc.c:184-241), proved about the
    functions of module Alloc. */
module FreeLemmas {
  import opened Words
  import opened Region
  import opened FreeList
  import opened FreeListLemmas
  import opened Alloc

  /** Free(NULL) changes nothing (malloc.c:185-187). */
  lemma FreeNull(s: State)
    requires Valid(s)
    ensures Free(s, NULL) == Done(s)
  {
  }

  /** The two neighbour lookups of Free (malloc.c:192-198) undo each other: the
      block after `m` starts past m's footer, and when that footer's size word
      holds m's size, the lookup backwards from the block after `m` finds `m`. */
  lemma NeighbourRoundTrip(s: State, m: int)
    requires Addressable(s, m) && m != s.last
    requires Addressable(s, FooterAt(s, m)) && FooterAt(s, m) + FOOTER_SIZE != s.first
    requires SizeOfWord(Word(s, FooterAt(s, m))) == SizeOfWord(Word(s, m))
    ensures NextBlock(s, m) == Done(FooterAt(s, m) + FOOTER_SIZE)
    ensures PrevBlock(s, NextBlock(s, m).value) == Done(m)
  {
    FooterHeaderRoundTrip(s, m);
  }

  /** The free test Free applies to a neighbour (malloc.c:199-200): false for NULL,
      the header's flag for one that can be read, and a fault otherwise. */
  lemma NeighbourFreeMeans(s: State, block: int)
    ensures block == NULL ==> NeighbourFree(s, block) == Done(false)
    ensures block != NULL ==> (NeighbourFree(s, block).Done? <==> Addressable(s, block))
    ensures block != NULL && Addressable(s, block) ==>
      NeighbourFree(s, block) == Done(IsFreeWord(Word(s, block)))
  {
  }

  /** Free(p) of a block whose neighbours Free finds as `prev` and `next`
      (malloc.c:188-198), NULL where there is none, takes the branch their free
      flags select (malloc.c:199-241). */
  lemma FreeDispatches(s: State, p: int, prev: int, next: int, prevFree: bool, nextFree: bool)
    requires Valid(s) && p != NULL
    requires PrevBlock(s, HeadAddr(p)) == Done(prev) && NextBlock(s, HeadAddr(p)) == Done(next)
    requires NeighbourFree(s, prev) == Done(prevFree) && NeighbourFree(s, next) == Done(nextFree)
    ensures Free(s, p) == Dispatch(s, HeadAddr(p), prev, next, prevFree, nextFree)
  {
  }

  /** Free(p) when neither neighbour is free: Release (malloc.c:237-241). */
  lemma FreeAlone(s: State, nodes: seq<int>, p: int, prev: int, next: int)
    requires Valid(s) && p != NULL
    requires PrevBlock(s, HeadAddr(p)) == Done(prev) && NextBlock(s, HeadAddr(p)) == Done(next)
    requires NeighbourFree(s, prev) == Done(false) && NeighbourFree(s, next) == Done(false)
    requires var m := HeadAddr(p);
      && ListWF(s, nodes) && Addressable(s, m)
      && Addressable(s, m + NEXT_OFFSET) && Addressable(s, m + PREV_OFFSET)
      && Addressable(s, FooterAt(s, m))
      && (forall i :: 0 <= i < |nodes| ==> Apart(m, nodes[i]))
      && LinksAvoid([m] + nodes, {FooterAt(s, m)})
    ensures Free(s, p).Done?
    ensures Released(s, Free(s, p).value, nodes, HeadAddr(p))
  {
    FreeDispatches(s, p, prev, next, false, false);
    ReleasePushes(s, nodes, HeadAddr(p));
  }

  // ---------------------------------------------------------------- the common tail

  /** The tail of every merge on a header `block` apart from the list head: the
      header and the footer `usable` places both get `usable` with the free flag,
      and the block goes in front of the list, `next` the old head and `prev`
      NULL, the old head's `prev` pointing back at it. No other word changes. */
  lemma CoalesceWords(s: State, block: int, usable: int)
    requires MINIMUM_ALLOC_SIZE <= usable && usable % 2 == 0
    requires Addressable(s, block) && Addressable(s, block + NEXT_OFFSET) && Addressable(s, block + PREV_OFFSET)
    requires Addressable(s, block + HEADER_SIZE + usable)
    requires s.freeList != NULL ==>
      && Addressable(s, s.freeList + PREV_OFFSET) && Apart(block, s.freeList)
      && block + HEADER_SIZE + usable != s.freeList + PREV_OFFSET
    ensures Coalesce(s, block, usable).Done?
    ensures Coalesced(s, Coalesce(s, block, usable).value, block, usable)
  {
    RetagWords(s, block, usable);
    var t := Retag(s, block, usable).value;
    SameShapeSameAddresses(s, t);
    assert FooterAt(t, block) == block + HEADER_SIZE + usable;
    AddToFreeListWords(t, block);
    PushFrontWords(t, block);
    AddAfterRetag(s, t, AddToFreeList(t, block).value, block, usable);
  }

  /** The tail of a merge on a block apart from every node of a well-formed list,
      whose new footer is no link word: the list gains the block at its head. */
  lemma CoalescePushes(s: State, nodes: seq<int>, block: int, usable: int)
    requires ListWF(s, nodes)
    requires MINIMUM_ALLOC_SIZE <= usable && usable % 2 == 0
    requires Addressable(s, block) && Addressable(s, block + NEXT_OFFSET) && Addressable(s, block + PREV_OFFSET)
    requires Addressable(s, block + HEADER_SIZE + usable)
    requires forall i :: 0 <= i < |nodes| ==> Apart(block, nodes[i])
    requires LinksAvoid([block] + nodes, {block + HEADER_SIZE + usable})
    ensures Coalesce(s, block, usable).Done?
    ensures Coalesced(s, Coalesce(s, block, usable).value, block, usable)
    ensures ListWF(Coalesce(s, block, usable).value, [block] + nodes)
  {
    if nodes != [] {
      assert Linked(s, nodes, 0);
      assert ([block] + nodes)[1] == nodes[0];
    }
    CoalesceWords(s, block, usable);
    RetagWords(s, block, usable);
    var t := Retag(s, block, usable).value;
    RetagThenPush(s, t, nodes, block, usable);
    assert Coalesce(s, block, usable) == AddToFreeList(t, block);
  }

  /** The list half of CoalescePushes, on the retagged state `t`. */
  lemma RetagThenPush(s: State, t: State, nodes: seq<int>, block: int, usable: int)
    requires ListWF(s, nodes)
    requires MINIMUM_ALLOC_SIZE <= usable
    requires Addressable(s, block) && Addressable(s, block + NEXT_OFFSET) && Addressable(s, block + PREV_OFFSET)
    requires forall i :: 0 <= i < |nodes| ==> Apart(block, nodes[i])
    requires LinksAvoid([block] + nodes, {block + HEADER_SIZE + usable})
    requires var footer := block + HEADER_SIZE + usable;
      && t == s.(mem := t.mem)
      && Load(t, block) == Done(SetFreeWord(usable))
      && Load(t, footer) == Done(SetFreeWord(usable))
      && KeepsWordsBut(s, t, {block, footer})
    requires Addressable(s, block + HEADER_SIZE + usable)
    ensures AddToFreeList(t, block).Done?
    ensures ListWF(AddToFreeList(t, block).value, [block] + nodes)
  {
    var footer := block + HEADER_SIZE + usable;
    ApartAvoids(nodes, block, footer);
    LinksAvoidTail(nodes, block, {block, footer});
    ListWFFrame(s, t, nodes, {block, footer});
    SameShapeSameAddresses(s, t);
    assert FooterAt(t, block) == footer;
    AddToFreeListPushes(t, nodes, block);
  }

  /** The words the retag and push of a merge write: the surviving header and its
      links, the footer that ends its `usable` bytes, and the `prev` link of
      `head`, the old head of the list. */
  function PushedWords(block: int, usable: int, head: int): set<int> {
    {block, block + HEADER_SIZE + usable, block + NEXT_OFFSET, block + PREV_OFFSET, head + PREV_OFFSET}
  }

  /** What the tail of a merge leaves in `r`, as CoalesceWords describes it. */
  ghost predicate Coalesced(s: State, r: State, block: int, usable: int) {
    && var footer := block + HEADER_SIZE + usable;
    && r == s.(mem := r.mem, freeList := block)
    && Load(r, block) == Done(SetFreeWord(usable))
    && Load(r, footer) == Done(SetFreeWord(usable))
    && Load(r, block + NEXT_OFFSET) == Done(s.freeList)
    && Load(r, block + PREV_OFFSET) == Done(NULL)
    && (s.freeList != NULL ==> Load(r, s.freeList + PREV_OFFSET) == Done(block))
    && KeepsWordsBut(s, r, PushedWords(block, usable, s.freeList))
  }

  /** The retagging half: header and footer get `usable` with the free flag. */
  lemma RetagWords(s: State, block: int, usable: int)
    requires MINIMUM_ALLOC_SIZE <= usable && usable % 2 == 0
    requires Addressable(s, block) && Addressable(s, block + HEADER_SIZE + usable)
    ensures Retag(s, block, usable).Done?
    ensures var t, footer := Retag(s, block, usable).value, block + HEADER_SIZE + usable;
      && t == s.(mem := t.mem)
      && Load(t, block) == Done(SetFreeWord(usable))
      && Load(t, footer) == Done(SetFreeWord(usable))
      && KeepsWordsBut(s, t, {block, footer})
  {
    var footer := block + HEADER_SIZE + usable;
    var s1 := Store(s, block, usable).value;
    var s2 := SetFreeAt(s1, block).value;
    assert Word(s2, block) == SetFreeWord(usable);
    assert FooterAt(s2, block) == footer;
    var s3 := Store(s2, footer, usable).value;
    assert Word(s3, block) == SetFreeWord(usable);
  }

  /** The list half, on the retagged state `t`, seen from the state `s` before. */
  lemma AddAfterRetag(s: State, t: State, r: State, block: int, usable: int)
    requires MINIMUM_ALLOC_SIZE <= usable
    requires var footer := block + HEADER_SIZE + usable;
      && t == s.(mem := t.mem)
      && Load(t, block) == Done(SetFreeWord(usable))
      && Load(t, footer) == Done(SetFreeWord(usable))
      && KeepsWordsBut(s, t, {block, footer})
    requires Addressable(t, block) && FooterAt(t, block) == block + HEADER_SIZE + usable
    requires r == t.(mem := r.mem, freeList := block)
    requires Load(r, block) == Done(SetFreeWord(Word(t, block)))
    requires Load(r, FooterAt(t, block)) == Done(SetFreeWord(Word(t, FooterAt(t, block))))
    requires Load(r, block + NEXT_OFFSET) == Done(t.freeList) && Load(r, block + PREV_OFFSET) == Done(NULL)
    requires t.freeList != NULL ==> Load(r, t.freeList + PREV_OFFSET) == Done(block)
    requires KeepsWordsBut(t, r, {block, FooterAt(t, block), block + NEXT_OFFSET, block + PREV_OFFSET, t.freeList + PREV_OFFSET})
    ensures Coalesced(s, r, block, usable)
  {
    var holes := {block, block + HEADER_SIZE + usable, block + NEXT_OFFSET, block + PREV_OFFSET, s.freeList + PREV_OFFSET};
    KeepsTrans(s, t, r, {block, block + HEADER_SIZE + usable}, holes);
    assert {block, block + HEADER_SIZE + usable} + holes == holes;
  }
  // ---------------------------------------------------------------- neither neighbour free

  /** Release (malloc.c:237-241) on a block apart from every node of a well-formed
      list, whose footer is no link word: the list gains the block at its head, and
      the block's header and footer get the free flag with their sizes kept. No
      other word changes but the block's links and the old head's `prev`. */
  lemma ReleasePushes(s: State, nodes: seq<int>, m: int)
    requires ListWF(s, nodes) && Addressable(s, m)
    requires Addressable(s, m + NEXT_OFFSET) && Addressable(s, m + PREV_OFFSET)
    requires Addressable(s, FooterAt(s, m))
    requires forall i :: 0 <= i < |nodes| ==> Apart(m, nodes[i])
    requires LinksAvoid([m] + nodes, {FooterAt(s, m)})
    ensures Release(s, m).Done?
    ensures Released(s, Release(s, m).value, nodes, m)
  {
    var footer := FooterAt(s, m);
    ApartAvoids(nodes, m, footer);
    LinksAvoidTail(nodes, m, {m, footer});
    MarkKeepsList(s, nodes, m, true);
    var s1 := MarkFree(s, m).value;
    SameShapeSameAddresses(s, s1);
    assert FooterAt(s1, m) == footer;
    assert KeepsWordsBut(s, s1, {m, footer});
    AddToFreeListPushes(s1, nodes, m);
    ReleaseTail(s, s1, AddToFreeList(s1, m).value, nodes, m, footer);
  }

  /** The push after the free flags, stated for the state before the flags. */
  lemma ReleaseTail(s: State, s1: State, r: State, nodes: seq<int>, m: int, footer: int)
    requires Addressable(s, m) && footer == FooterAt(s, m) && Addressable(s, footer)
    requires s1 == s.(mem := s1.mem) && FooterAt(s1, m) == footer
    requires Load(s1, m) == Done(SetFreeWord(Word(s, m)))
    requires Load(s1, footer) == Done(SetFreeWord(Word(s, footer)))
    requires KeepsWordsBut(s, s1, {m, footer})
    requires Addressable(s1, m) && Addressable(s1, footer)
    requires ListWF(r, [m] + nodes) && r == s1.(mem := r.mem, freeList := m)
    requires Load(r, m) == Done(SetFreeWord(Word(s1, m)))
    requires Load(r, FooterAt(s1, m)) == Done(SetFreeWord(Word(s1, FooterAt(s1, m))))
    requires KeepsWordsBut(s1, r, {m, FooterAt(s1, m), m + NEXT_OFFSET, m + PREV_OFFSET, s1.freeList + PREV_OFFSET})
    ensures Released(s, r, nodes, m)
  {
    assert Word(s1, m) == SetFreeWord(Word(s, m));
    assert Word(s1, footer) == SetFreeWord(Word(s, footer));
    KeepsTrans(s, s1, r, {m, footer}, {m, footer, m + NEXT_OFFSET, m + PREV_OFFSET, s.freeList + PREV_OFFSET});
    assert {m, footer} + {m, footer, m + NEXT_OFFSET, m + PREV_OFFSET, s.freeList + PREV_OFFSET}
        == {m, footer, m + NEXT_OFFSET, m + PREV_OFFSET, s.freeList + PREV_OFFSET};
  }

  /** What Release leaves in `r`, as ReleasePushes describes it. */
  ghost predicate Released(s: State, r: State, nodes: seq<int>, m: int)
    requires Addressable(s, m)
  {
    && var footer := FooterAt(s, m);
    && ListWF(r, [m] + nodes)
    && r == s.(mem := r.mem, freeList := m)
    && Load(r, m) == Done(SetFreeWord(Word(s, m)))
    && Addressable(s, footer)
    && Load(r, footer) == Done(SetFreeWord(Word(s, footer)))
    && KeepsWordsBut(s, r, {m, footer, m + NEXT_OFFSET, m + PREV_OFFSET, s.freeList + PREV_OFFSET})
  }

  /** Holes no link word of `[m] + nodes` meets are no link word of `nodes`. */
  lemma LinksAvoidTail(nodes: seq<int>, m: int, holes: set<int>)
    requires LinksAvoid([m] + nodes, holes)
    ensures LinksAvoid(nodes, holes)
  {
    forall i, a | 0 <= i < |nodes| && a in holes ensures OffLinks(a, nodes[i]) {
      assert ([m] + nodes)[i + 1] == nodes[i];
    }
  }
  // ---------------------------------------------------------------- merges

  /** What a merge leaves in `r`: the free list is `list`, headed by the surviving
      `block`; header and footer of `block` carry the merged size `usable` with the
      free flag; `last` is `last`; no global but those changes; and no word of
      memory changes outside `holes`. */
  ghost predicate Merged(s: State, r: State, list: seq<int>, block: int, usable: int, last: int, holes: set<int>) {
    && ListWF(r, list) && list != [] && list[0] == block
    && r == s.(mem := r.mem, freeList := block, last := last)
    && Load(r, block) == Done(SetFreeWord(usable))
    && Load(r, block + HEADER_SIZE + usable) == Done(SetFreeWord(usable))
    && KeepsWordsBut(s, r, holes)
  }

  /** The head a well-formed list of `nodes` has. */
  function HeadOf(nodes: seq<int>): int {
    if nodes == [] then NULL else nodes[0]
  }

  /** The words remove_from_free_list(nodes[k]) may write: the node's header and
      footer, and the links of its neighbours that bypass it. */
  function UnlinkedWords(s: State, nodes: seq<int>, k: int): set<int>
    requires 0 <= k < |nodes| && Addressable(s, nodes[k])
  {
    {nodes[k], FooterAt(s, nodes[k]), NextOf(nodes, k) + PREV_OFFSET, PrevOf(nodes, k) + NEXT_OFFSET}
  }


  /** Taking a node out of the list keeps clear of holes the list kept clear of. */
  lemma LinksAvoidWithout(nodes: seq<int>, k: int, holes: set<int>)
    requires 0 <= k < |nodes| && LinksAvoid(nodes, holes)
    ensures LinksAvoid(Without(nodes, k), holes)
    ensures LinksAvoid([nodes[k]] + Without(nodes, k), holes)
  {
    var rest := Without(nodes, k);
    forall i, a | 0 <= i < |rest| && a in holes ensures OffLinks(a, rest[i]) {
      var i' := if i < k then i else i + 1;
      assert rest[i] == nodes[i'];
    }
    var all := [nodes[k]] + rest;
    forall i, a | 0 <= i < |all| && a in holes ensures OffLinks(a, all[i]) {
      if i > 0 {
        assert all[i] == rest[i - 1];
      }
    }
  }

  /** Node k of a list is apart from every other node. */
  lemma ApartFromRest(nodes: seq<int>, k: int)
    requires 0 <= k < |nodes|
    requires forall i, j :: 0 <= i < j < |nodes| ==> Apart(nodes[i], nodes[j])
    ensures var rest := Without(nodes, k);
      forall i :: 0 <= i < |rest| ==> Apart(nodes[k], rest[i])
  {
    var rest := Without(nodes, k);
    forall i | 0 <= i < |rest| ensures Apart(nodes[k], rest[i]) {
      var i' := if i < k then i else i + 1;
      assert rest[i] == nodes[i'];
    }
  }

  /** What remove_from_free_list(nodes[k]) leaves in `s1`: the list without node k,
      that node's header flagged used, no word changed but UnlinkedWords, and the
      words at `keep` as they were. */
  ghost predicate Unlinked(s: State, s1: State, nodes: seq<int>, k: int, keep: set<int>)
    requires 0 <= k < |nodes|
  {
    && ListWF(s1, Without(nodes, k))
    && s1 == s.(mem := s1.mem, freeList := s1.freeList)
    && Addressable(s, nodes[k])
    && Load(s1, nodes[k]) == Done(SetUsedWord(Word(s, nodes[k])))
    && KeepsWordsBut(s, s1, UnlinkedWords(s, nodes, k))
    && forall a :: a in keep ==> Load(s1, a) == Load(s, a)
  }

  /** Taking node k out of a well-formed list whose footer and the words at `keep`
      are none of its link words, nor node k's header or footer. */
  lemma UnlinkNode(s: State, nodes: seq<int>, k: int, keep: set<int>)
    requires ListWF(s, nodes) && 0 <= k < |nodes|
    requires Addressable(s, nodes[k]) && Addressable(s, FooterAt(s, nodes[k]))
    requires LinksAvoid(nodes, {FooterAt(s, nodes[k])})
    requires LinksAvoid(nodes, keep) && nodes[k] !in keep && FooterAt(s, nodes[k]) !in keep
    requires forall a :: a in keep ==> Addressable(s, a)
    ensures RemoveFromFreeList(s, nodes[k]).Done?
    ensures Unlinked(s, RemoveFromFreeList(s, nodes[k]).value, nodes, k, keep)
  {
    LinksAvoidWithout(nodes, k, {FooterAt(s, nodes[k])});
    RemoveFromFreeListUnlinks(s, nodes, k);
    var s1 := RemoveFromFreeList(s, nodes[k]).value;
    var next, before := NextOf(nodes, k), PrevOf(nodes, k);
    KeptByUnlink(s, s1, nodes, k, keep);
  }

  /** The words at `keep` survive the unlinking of node k when they are none of the
      list's link words, nor node k's header or footer. */
  lemma KeptByUnlink(s: State, s1: State, nodes: seq<int>, k: int, keep: set<int>)
    requires 0 <= k < |nodes| && Addressable(s, nodes[k])
    requires Bypassed(s, s1, nodes[k], NextOf(nodes, k), PrevOf(nodes, k))
    requires LinksAvoid(nodes, keep) && nodes[k] !in keep && FooterAt(s, nodes[k]) !in keep
    requires forall a :: a in keep ==> Addressable(s, a)
    ensures forall a :: a in keep ==> Load(s1, a) == Load(s, a)
  {
    var next, before := NextOf(nodes, k), PrevOf(nodes, k);
    var holes := {nodes[k], FooterAt(s, nodes[k]), next + PREV_OFFSET, before + NEXT_OFFSET};
    forall a | a in keep ensures a !in holes {
      if k + 1 < |nodes| {
        assert OffLinks(a, nodes[k + 1]);
      }
      if k > 0 {
        assert OffLinks(a, nodes[k - 1]);
      }
    }
  }

  /** An aligned address between two addressable ones is addressable. */
  lemma Between(s: State, a: int, c: int, b: int)
    requires Addressable(s, a) && Addressable(s, b) && a <= c <= b && (c - a) % 8 == 0
    ensures Addressable(s, c)
  {
  }

  /** The retag and push of a merge, on the state `s2` after the unlinking: Merged,
      with `last` left as it is in `s2`. */
  lemma MergedTail(s: State, s2: State, rest: seq<int>, block: int, usable: int, footer: int)
    requires ListWF(s2, rest) && Shape(s2) == Shape(s)
    requires MINIMUM_ALLOC_SIZE <= usable && usable % 2 == 0 && footer == block + HEADER_SIZE + usable
    requires Addressable(s, block) && Addressable(s, block + NEXT_OFFSET) && Addressable(s, block + PREV_OFFSET)
    requires Addressable(s, footer)
    requires forall i :: 0 <= i < |rest| ==> Apart(block, rest[i])
    requires LinksAvoid([block] + rest, {footer})
    ensures Coalesce(s2, block, usable).Done?
    ensures Merged(s2, Coalesce(s2, block, usable).value, [block] + rest, block, usable, s2.last,
                   PushedWords(block, usable, HeadOf(rest)))
  {
    SameShapeSameAddresses(s, s2);
    CoalescePushes(s2, rest, block, usable);
    assert s2.freeList == HeadOf(rest);
  }

  /** Everything a merge does after the unlinking, on the state `s1` it leaves:
      `last` moves to `block` when it was `x`, the sizes read stay as they are,
      and the retag and push leave Merged, the unlinking having changed no word
      outside `holes`. */
  lemma MergeAfterUnlink(s: State, s1: State, rest: seq<int>, block: int, x: int, usable: int, footer: int,
                         holes: set<int>)
    requires ListWF(s1, rest) && s1 == s.(mem := s1.mem, freeList := s1.freeList)
    requires KeepsWordsBut(s, s1, holes)
    requires MINIMUM_ALLOC_SIZE <= usable && usable % 2 == 0 && footer == block + HEADER_SIZE + usable
    requires Addressable(s, block) && Addressable(s, block + NEXT_OFFSET) && Addressable(s, block + PREV_OFFSET)
    requires Addressable(s, footer)
    requires forall i :: 0 <= i < |rest| ==> Apart(block, rest[i])
    requires LinksAvoid([block] + rest, {footer})
    ensures var s2 := if x == s1.last then s1.(last := block) else s1;
      && (forall a :: SizeAt(s2, a) == SizeAt(s1, a))
      && Coalesce(s2, block, usable).Done?
      && Merged(s, Coalesce(s2, block, usable).value, [block] + rest, block, usable,
                if x == s.last then block else s.last, holes + PushedWords(block, usable, HeadOf(rest)))
  {
    var s2 := if x == s1.last then s1.(last := block) else s1;
    LoadIgnoresGlobals(s1, s2);
    ListWFFrame(s1, s2, rest, {});
    assert KeepsWordsBut(s, s2, holes);
    MergedTail(s, s2, rest, block, usable, footer);
    MergedFrom(s, s2, Coalesce(s2, block, usable).value, [block] + rest, block, usable,
               if x == s.last then block else s.last, holes, PushedWords(block, usable, HeadOf(rest)));
  }

  /** Merged seen from before the unlinking: `s2` differs from `s` in memory, the
      head of the list and `last` only, and in memory only at `h1`. */
  lemma MergedFrom(s: State, s2: State, r: State, list: seq<int>, block: int, usable: int, last: int,
                   h1: set<int>, h2: set<int>)
    requires s2 == s.(mem := s2.mem, freeList := s2.freeList, last := last)
    requires KeepsWordsBut(s, s2, h1)
    requires Merged(s2, r, list, block, usable, s2.last, h2)
    ensures Merged(s, r, list, block, usable, last, h1 + h2)
  {
    KeepsTrans(s, s2, r, h1, h2);
  }

  /** The merge with the free block before (malloc.c:213-224), `prev` being node k
      of a well-formed list and `m` (the block freed), `prev`'s footer and the
      merged footer none of its link words: `prev` leaves the list and comes back
      at its head; its header and the footer past `m` both carry usable_size, the
      two sizes plus one header and one footer (16 bytes), with the free flag;
      `last` moves to `prev` exactly when `m` was last; and no word changes but
      those the unlinking and the push write. */
  lemma MergeWithPrevMerges(s: State, nodes: seq<int>, k: int, m: int)
    requires Valid(s) && ListWF(s, nodes) && 0 <= k < |nodes|
    requires Addressable(s, nodes[k]) && Addressable(s, FooterAt(s, nodes[k]))
    requires Addressable(s, m) && m != nodes[k] && m != FooterAt(s, nodes[k])
    requires 0 <= SizeOfWord(Word(s, nodes[k])) && 0 <= SizeOfWord(Word(s, m))
    requires var prev := nodes[k];
      var footer := prev + HEADER_SIZE + SizeOfWord(Word(s, prev)) + SizeOfWord(Word(s, m)) + HEADER_SIZE + FOOTER_SIZE;
      && Addressable(s, footer)
      && LinksAvoid(nodes, {m, FooterAt(s, prev), footer})
    ensures var prev, sp, sm := nodes[k], SizeOfWord(Word(s, nodes[k])), SizeOfWord(Word(s, m));
      && UsableSize2(sp, sm) == sp + sm + HEADER_SIZE + FOOTER_SIZE
      && MergeWithPrev(s, m, prev).Done?
      && Merged(s, MergeWithPrev(s, m, prev).value, [prev] + Without(nodes, k), prev, UsableSize2(sp, sm),
                if m == s.last then prev else s.last,
                UnlinkedWords(s, nodes, k) + PushedWords(prev, UsableSize2(sp, sm), HeadOf(Without(nodes, k))))
  {
    var prev, sp, sm := nodes[k], SizeOfWord(Word(s, nodes[k])), SizeOfWord(Word(s, m));
    var footer := prev + HEADER_SIZE + sp + sm + HEADER_SIZE + FOOTER_SIZE;
    var rest := Without(nodes, k);
    assert Linked(s, nodes, k);
    assert Addressable(s, prev + NEXT_OFFSET) && Addressable(s, prev + PREV_OFFSET);
    assert Addressable(s, footer) && footer < TWO_64;
    assert UsableSize2(sp, sm) == sp + sm + HEADER_SIZE + FOOTER_SIZE;
    assert MINIMUM_ALLOC_SIZE <= UsableSize2(sp, sm) && UsableSize2(sp, sm) % 2 == 0;
    assert footer == prev + HEADER_SIZE + UsableSize2(sp, sm);
    ApartFromRest(nodes, k);
    LinksAvoidSubset(nodes, {m, FooterAt(s, prev), footer}, {FooterAt(s, prev)});
    LinksAvoidSubset(nodes, {m, FooterAt(s, prev), footer}, {m});
    LinksAvoidSubset(nodes, {m, FooterAt(s, prev), footer}, {footer});
    LinksAvoidWithout(nodes, k, {footer});
    UnlinkNode(s, nodes, k, {m});
    var s1 := RemoveFromFreeList(s, prev).value;
    assert SizeAt(s1, prev) == Done(sp) && SizeAt(s1, m) == Done(sm);
    MergeAfterUnlink(s, s1, rest, prev, m, UsableSize2(sp, sm), footer, UnlinkedWords(s, nodes, k));
    var s2 := if m == s1.last then s1.(last := prev) else s1;
    MergeWithPrevPath(s, m, prev, s1, s2, sp, sm);
  }

  /** MergeWithPrev once the removal of `prev` and the two size reads are done. */
  lemma MergeWithPrevPath(s: State, m: int, prev: int, s1: State, s2: State, sp: int, sm: int)
    requires RemoveFromFreeList(s, prev) == Done(s1)
    requires s2 == if m == s1.last then s1.(last := prev) else s1
    requires SizeAt(s2, prev) == Done(sp) && SizeAt(s2, m) == Done(sm)
    ensures MergeWithPrev(s, m, prev) == Coalesce(s2, prev, UsableSize2(sp, sm))
  {
  }

  /** The merge with the free block after (malloc.c:225-236), `next` being node k
      of a well-formed list and `m` (the block freed) apart from every node, with
      `next`'s footer and the merged footer none of the list's link words: `next`
      leaves the list and `m` goes on at its head; the header of `m` and the footer
      `next` ended with both carry usable_size, the two sizes plus one header and
      one footer, with the free flag; `last` moves to `m` exactly when `next` was
      last; and no word changes but those the unlinking and the push write. */
  lemma MergeWithNextMerges(s: State, nodes: seq<int>, k: int, m: int)
    requires Valid(s) && ListWF(s, nodes) && 0 <= k < |nodes|
    requires Addressable(s, nodes[k]) && Addressable(s, FooterAt(s, nodes[k]))
    requires Addressable(s, m) && m != FooterAt(s, nodes[k])
    requires forall i :: 0 <= i < |nodes| ==> Apart(m, nodes[i])
    requires 0 <= SizeOfWord(Word(s, m)) && 0 <= SizeOfWord(Word(s, nodes[k]))
    requires var next := nodes[k];
      var footer := m + HEADER_SIZE + SizeOfWord(Word(s, m)) + SizeOfWord(Word(s, next)) + HEADER_SIZE + FOOTER_SIZE;
      && Addressable(s, footer)
      && LinksAvoid(nodes, {FooterAt(s, next), footer})
    ensures var next, sm, sn := nodes[k], SizeOfWord(Word(s, m)), SizeOfWord(Word(s, nodes[k]));
      && UsableSize2(sm, sn) == sm + sn + HEADER_SIZE + FOOTER_SIZE
      && MergeWithNext(s, m, next).Done?
      && Merged(s, MergeWithNext(s, m, next).value, [m] + Without(nodes, k), m, UsableSize2(sm, sn),
                if next == s.last then m else s.last,
                UnlinkedWords(s, nodes, k) + PushedWords(m, UsableSize2(sm, sn), HeadOf(Without(nodes, k))))
  {
    var next, sm, sn := nodes[k], SizeOfWord(Word(s, m)), SizeOfWord(Word(s, nodes[k]));
    var footer := m + HEADER_SIZE + sm + sn + HEADER_SIZE + FOOTER_SIZE;
    var rest := Without(nodes, k);
    assert Addressable(s, footer);
    MergeWithNextReady(s, nodes, k, m);
    UnlinkNode(s, nodes, k, {m});
    var s1 := RemoveFromFreeList(s, next).value;
    assert SizeAt(s1, m) == Done(sm) && SizeAt(s1, next) == Done(sn);
    MergeAfterUnlink(s, s1, rest, m, next, UsableSize2(sm, sn), footer, UnlinkedWords(s, nodes, k));
    var s2 := if next == s1.last then s1.(last := m) else s1;
    MergeWithNextPath(s, m, next, s1, s2, sm, sn);
  }

  /** The facts about `s` that MergeWithNextMerges passes on to the unlinking and
      to the retag. */
  lemma MergeWithNextReady(s: State, nodes: seq<int>, k: int, m: int)
    requires Valid(s) && ListWF(s, nodes) && 0 <= k < |nodes|
    requires Addressable(s, nodes[k]) && Addressable(s, FooterAt(s, nodes[k]))
    requires Addressable(s, m) && m != FooterAt(s, nodes[k])
    requires forall i :: 0 <= i < |nodes| ==> Apart(m, nodes[i])
    requires 0 <= SizeOfWord(Word(s, m)) && 0 <= SizeOfWord(Word(s, nodes[k]))
    requires var next := nodes[k];
      var footer := m + HEADER_SIZE + SizeOfWord(Word(s, m)) + SizeOfWord(Word(s, next)) + HEADER_SIZE + FOOTER_SIZE;
      && Addressable(s, footer)
      && LinksAvoid(nodes, {FooterAt(s, next), footer})
    ensures var next, sm, sn := nodes[k], SizeOfWord(Word(s, m)), SizeOfWord(Word(s, nodes[k]));
      var footer, rest := m + HEADER_SIZE + sm + sn + HEADER_SIZE + FOOTER_SIZE, Without(nodes, k);
      && m != next
      && UsableSize2(sm, sn) == sm + sn + HEADER_SIZE + FOOTER_SIZE
      && MINIMUM_ALLOC_SIZE <= UsableSize2(sm, sn) && UsableSize2(sm, sn) % 2 == 0
      && footer == m + HEADER_SIZE + UsableSize2(sm, sn)
      && Addressable(s, m + NEXT_OFFSET) && Addressable(s, m + PREV_OFFSET)
      && LinksAvoid(nodes, {m}) && LinksAvoid(nodes, {FooterAt(s, next)})
      && (forall i :: 0 <= i < |rest| ==> Apart(m, rest[i]))
      && LinksAvoid([m] + rest, {footer})
  {
    var next, sm, sn := nodes[k], SizeOfWord(Word(s, m)), SizeOfWord(Word(s, nodes[k]));
    var footer := m + HEADER_SIZE + sm + sn + HEADER_SIZE + FOOTER_SIZE;
    var rest := Without(nodes, k);
    assert Apart(m, next);
    assert footer < TWO_64;
    Usable2Fits(sm, sn, m, footer);
    Between(s, m, m + NEXT_OFFSET, footer);
    Between(s, m, m + PREV_OFFSET, footer);
    assert OffLinks(footer, m);
    ApartAvoidsAll(nodes, m);
    ApartWithout(nodes, k, m);
    LinksAvoidSubset(nodes, {FooterAt(s, next), footer}, {FooterAt(s, next)});
    LinksAvoidSubset(nodes, {FooterAt(s, next), footer}, {footer});
    LinksAvoidWithout(nodes, k, {footer});
    LinksAvoidCons(rest, m, {footer});
  }

  /** MergeWithNext once the removal of `next` and the two size reads are done. */
  lemma MergeWithNextPath(s: State, m: int, next: int, s1: State, s2: State, sm: int, sn: int)
    requires RemoveFromFreeList(s, next) == Done(s1)
    requires s2 == if next == s1.last then s1.(last := m) else s1
    requires SizeAt(s2, m) == Done(sm) && SizeAt(s2, next) == Done(sn)
    ensures MergeWithNext(s, m, next) == Coalesce(s2, m, UsableSize2(sm, sn))
  {
  }

  /** The merge with both neighbours free (malloc.c:199-212), `next` being node k of
      a well-formed list and `prev` node j of what is left once `next` is out,
      with `m` (the block freed) apart from every node, and the two old footers
      and the merged one none of the list's link words nor the headers involved:
      `next` and `prev` leave the list and `prev` comes back at its head; its
      header and the footer `next` ended with both carry usable_size, the three
      sizes plus two headers and two footers (32 bytes), with the free flag;
      `last` moves to `prev` exactly when `next` was last; and no word changes but
      those the two unlinkings and the push write. */
  lemma MergeAllMerges(s: State, nodes: seq<int>, k: int, j: int, m: int)
    requires Valid(s) && ListWF(s, nodes) && 0 <= k < |nodes| && 0 <= j < |nodes| - 1
    requires var next, prev := nodes[k], Without(nodes, k)[j];
      && Addressable(s, next) && Addressable(s, FooterAt(s, next))
      && Addressable(s, prev) && Addressable(s, FooterAt(s, prev))
      && Addressable(s, m) && (forall i :: 0 <= i < |nodes| ==> Apart(m, nodes[i]))
      && FooterAt(s, next) !in {m, prev} && FooterAt(s, prev) !in {m, next}
      && 0 <= SizeOfWord(Word(s, prev)) && 0 <= SizeOfWord(Word(s, m)) && 0 <= SizeOfWord(Word(s, next))
    requires var next, prev := nodes[k], Without(nodes, k)[j];
      var footer := prev + HEADER_SIZE + SizeOfWord(Word(s, prev)) + SizeOfWord(Word(s, m)) + SizeOfWord(Word(s, next))
                    + 2 * (HEADER_SIZE + FOOTER_SIZE);
      && Addressable(s, footer)
      && LinksAvoid(nodes, {FooterAt(s, next), FooterAt(s, prev), footer})
    ensures var next, prev := nodes[k], Without(nodes, k)[j];
      var sp, sm, sn := SizeOfWord(Word(s, prev)), SizeOfWord(Word(s, m)), SizeOfWord(Word(s, next));
      && UsableSize3(sp, sm, sn) == sp + sm + sn + 2 * (HEADER_SIZE + FOOTER_SIZE)
      && MergeAll(s, m, prev, next).Done?
      && Merged(s, MergeAll(s, m, prev, next).value, [prev] + Without(Without(nodes, k), j), prev,
                UsableSize3(sp, sm, sn), if next == s.last then prev else s.last,
                UnlinkedWords(s, nodes, k) + UnlinkedWords(s, Without(nodes, k), j)
                  + PushedWords(prev, UsableSize3(sp, sm, sn), HeadOf(Without(Without(nodes, k), j))))
  {
    var next, prev := nodes[k], Without(nodes, k)[j];
    var sp, sm, sn := SizeOfWord(Word(s, prev)), SizeOfWord(Word(s, m)), SizeOfWord(Word(s, next));
    UnlinkBoth(s, nodes, k, j, m);
    var s1 := RemoveFromFreeList(s, next).value;
    var s2 := RemoveFromFreeList(s1, prev).value;
    MergeAllAfter(s, s2, nodes, k, j, m, UnlinkedWords(s, nodes, k) + UnlinkedWords(s, Without(nodes, k), j));
    var s3 := if next == s2.last then s2.(last := prev) else s2;
    MergeAllPath(s, m, prev, next, s1, s2, s3, sp, sm, sn);
  }

  /** MergeAllFrom on the nodes left once `next` and `prev` are out, the unlinkings
      having changed no word outside `holes`. */
  lemma MergeAllAfter(s: State, s2: State, nodes: seq<int>, k: int, j: int, m: int, holes: set<int>)
    requires Valid(s) && ListWF(s, nodes) && 0 <= k < |nodes| && 0 <= j < |nodes| - 1
    requires var next, prev := nodes[k], Without(nodes, k)[j];
      && Addressable(s, next) && Addressable(s, FooterAt(s, next))
      && Addressable(s, prev) && Addressable(s, FooterAt(s, prev))
      && Addressable(s, m) && (forall i :: 0 <= i < |nodes| ==> Apart(m, nodes[i]))
      && FooterAt(s, next) !in {m, prev} && FooterAt(s, prev) !in {m, next}
      && 0 <= SizeOfWord(Word(s, prev)) && 0 <= SizeOfWord(Word(s, m)) && 0 <= SizeOfWord(Word(s, next))
    requires var next, prev := nodes[k], Without(nodes, k)[j];
      var footer := prev + HEADER_SIZE + SizeOfWord(Word(s, prev)) + SizeOfWord(Word(s, m)) + SizeOfWord(Word(s, next))
                    + 2 * (HEADER_SIZE + FOOTER_SIZE);
      && Addressable(s, footer)
      && LinksAvoid(nodes, {FooterAt(s, next), FooterAt(s, prev), footer})
    requires var next, prev := nodes[k], Without(nodes, k)[j];
      && ListWF(s2, Without(Without(nodes, k), j))
      && s2 == s.(mem := s2.mem, freeList := s2.freeList)
      && SizeAt(s2, prev) == Done(SizeOfWord(Word(s, prev)))
      && SizeAt(s2, m) == Done(SizeOfWord(Word(s, m)))
      && SizeAt(s2, next) == Done(SizeOfWord(Word(s, next)))
    requires KeepsWordsBut(s, s2, holes)
    ensures var next, prev := nodes[k], Without(nodes, k)[j];
      var sp, sm, sn := SizeOfWord(Word(s, prev)), SizeOfWord(Word(s, m)), SizeOfWord(Word(s, next));
      && UsableSize3(sp, sm, sn) == sp + sm + sn + 2 * (HEADER_SIZE + FOOTER_SIZE)
      && var s3 := if next == s2.last then s2.(last := prev) else s2;
      && SizeAt(s3, prev) == Done(sp) && SizeAt(s3, m) == Done(sm) && SizeAt(s3, next) == Done(sn)
      && Coalesce(s3, prev, UsableSize3(sp, sm, sn)).Done?
      && Merged(s, Coalesce(s3, prev, UsableSize3(sp, sm, sn)).value, [prev] + Without(Without(nodes, k), j), prev,
                UsableSize3(sp, sm, sn), if next == s.last then prev else s.last,
                holes + PushedWords(prev, UsableSize3(sp, sm, sn), HeadOf(Without(Without(nodes, k), j))))
  {
    var next, prev := nodes[k], Without(nodes, k)[j];
    var sp, sm, sn := SizeOfWord(Word(s, prev)), SizeOfWord(Word(s, m)), SizeOfWord(Word(s, next));
    var footer := prev + HEADER_SIZE + sp + sm + sn + 2 * (HEADER_SIZE + FOOTER_SIZE);
    assert Addressable(s, footer);
    MergeAllReady(s, nodes, k, j, m);
    LinksAvoidSubset(nodes, {FooterAt(s, next), FooterAt(s, prev), footer}, {footer});
    TwoOutApart(nodes, k, j, footer);
    MergeAllFrom(s, s2, Without(Without(nodes, k), j), m, prev, next, holes);
  }

  /** The retag and push of the state both unlinkings leave make the merged block. */
  lemma MergeAllFrom(s: State, s2: State, rest2: seq<int>, m: int, prev: int, next: int, holes: set<int>)
    requires Addressable(s, prev) && Addressable(s, m) && Addressable(s, next)
    requires var sp, sm, sn := SizeOfWord(Word(s, prev)), SizeOfWord(Word(s, m)), SizeOfWord(Word(s, next));
      var footer := prev + HEADER_SIZE + sp + sm + sn + 2 * (HEADER_SIZE + FOOTER_SIZE);
      && UsableSize3(sp, sm, sn) == sp + sm + sn + 2 * (HEADER_SIZE + FOOTER_SIZE)
      && MINIMUM_ALLOC_SIZE <= UsableSize3(sp, sm, sn) && UsableSize3(sp, sm, sn) % 2 == 0
      && footer == prev + HEADER_SIZE + UsableSize3(sp, sm, sn)
      && Addressable(s, footer)
      && Addressable(s, prev + NEXT_OFFSET) && Addressable(s, prev + PREV_OFFSET)
      && (forall i :: 0 <= i < |rest2| ==> Apart(prev, rest2[i]))
      && LinksAvoid([prev] + rest2, {footer})
    requires ListWF(s2, rest2) && s2 == s.(mem := s2.mem, freeList := s2.freeList)
    requires SizeAt(s2, prev) == Done(SizeOfWord(Word(s, prev)))
    requires SizeAt(s2, m) == Done(SizeOfWord(Word(s, m)))
    requires SizeAt(s2, next) == Done(SizeOfWord(Word(s, next)))
    requires KeepsWordsBut(s, s2, holes)
    ensures var sp, sm, sn := SizeOfWord(Word(s, prev)), SizeOfWord(Word(s, m)), SizeOfWord(Word(s, next));
      && var s3 := if next == s2.last then s2.(last := prev) else s2;
      && SizeAt(s3, prev) == Done(sp) && SizeAt(s3, m) == Done(sm) && SizeAt(s3, next) == Done(sn)
      && Coalesce(s3, prev, UsableSize3(sp, sm, sn)).Done?
      && Merged(s, Coalesce(s3, prev, UsableSize3(sp, sm, sn)).value, [prev] + rest2, prev,
                UsableSize3(sp, sm, sn), if next == s.last then prev else s.last,
                holes + PushedWords(prev, UsableSize3(sp, sm, sn), HeadOf(rest2)))
  {
    var sp, sm, sn := SizeOfWord(Word(s, prev)), SizeOfWord(Word(s, m)), SizeOfWord(Word(s, next));
    var footer := prev + HEADER_SIZE + sp + sm + sn + 2 * (HEADER_SIZE + FOOTER_SIZE);
    MergeAfterUnlink(s, s2, rest2, prev, next, UsableSize3(sp, sm, sn), footer, holes);
  }

  /** The facts about `s` that MergeAllMerges passes on to the unlinkings and to
      the retag. */
  lemma MergeAllReady(s: State, nodes: seq<int>, k: int, j: int, m: int)
    requires Valid(s) && ListWF(s, nodes) && 0 <= k < |nodes| && 0 <= j < |nodes| - 1
    requires var next, prev := nodes[k], Without(nodes, k)[j];
      && Addressable(s, next) && Addressable(s, prev)
      && Addressable(s, m) && (forall i :: 0 <= i < |nodes| ==> Apart(m, nodes[i]))
      && 0 <= SizeOfWord(Word(s, prev)) && 0 <= SizeOfWord(Word(s, m)) && 0 <= SizeOfWord(Word(s, next))
    requires var next, prev := nodes[k], Without(nodes, k)[j];
      var footer := prev + HEADER_SIZE + SizeOfWord(Word(s, prev)) + SizeOfWord(Word(s, m)) + SizeOfWord(Word(s, next))
                    + 2 * (HEADER_SIZE + FOOTER_SIZE);
      Addressable(s, footer)
    ensures var next, prev := nodes[k], Without(nodes, k)[j];
      var sp, sm, sn := SizeOfWord(Word(s, prev)), SizeOfWord(Word(s, m)), SizeOfWord(Word(s, next));
      var footer := prev + HEADER_SIZE + sp + sm + sn + 2 * (HEADER_SIZE + FOOTER_SIZE);
      && UsableSize3(sp, sm, sn) == sp + sm + sn + 2 * (HEADER_SIZE + FOOTER_SIZE)
      && MINIMUM_ALLOC_SIZE <= UsableSize3(sp, sm, sn) && UsableSize3(sp, sm, sn) % 2 == 0
      && footer == prev + HEADER_SIZE + UsableSize3(sp, sm, sn)
      && Addressable(s, prev + NEXT_OFFSET) && Addressable(s, prev + PREV_OFFSET)
  {
    var next, prev := nodes[k], Without(nodes, k)[j];
    var sp, sm, sn := SizeOfWord(Word(s, prev)), SizeOfWord(Word(s, m)), SizeOfWord(Word(s, next));
    var footer := prev + HEADER_SIZE + sp + sm + sn + 2 * (HEADER_SIZE + FOOTER_SIZE);
    assert Addressable(s, footer) && footer < TWO_64;
    Usable3Fits(sp, sm, sn, prev, footer);
    LinkWordsOf(s, nodes, k, j);
  }

  /** A node left after taking out another has addressable link words. */
  lemma LinkWordsOf(s: State, nodes: seq<int>, k: int, j: int)
    requires ListWF(s, nodes) && 0 <= k < |nodes| && 0 <= j < |nodes| - 1
    ensures var prev := Without(nodes, k)[j];
      Addressable(s, prev + NEXT_OFFSET) && Addressable(s, prev + PREV_OFFSET)
  {
    var j' := if j < k then j else j + 1;
    assert Without(nodes, k)[j] == nodes[j'];
    assert Linked(s, nodes, j');
  }

  /** The two-way merged size, once the footer it places has an address. */
  lemma Usable2Fits(sm: int, sn: int, m: int, footer: int)
    requires 0 <= sm && 0 <= sn && sm % 2 == 0 && sn % 2 == 0 && 0 <= m
    requires footer == m + HEADER_SIZE + sm + sn + HEADER_SIZE + FOOTER_SIZE && footer < TWO_64
    ensures UsableSize2(sm, sn) == sm + sn + HEADER_SIZE + FOOTER_SIZE
    ensures MINIMUM_ALLOC_SIZE <= UsableSize2(sm, sn) && UsableSize2(sm, sn) % 2 == 0
    ensures footer == m + HEADER_SIZE + UsableSize2(sm, sn)
  {
  }

  /** The three-way merged size, once the footer it places has an address. */
  lemma Usable3Fits(sp: int, sm: int, sn: int, prev: int, footer: int)
    requires 0 <= sp && 0 <= sm && 0 <= sn && sp % 2 == 0 && sm % 2 == 0 && sn % 2 == 0 && 0 <= prev
    requires footer == prev + HEADER_SIZE + sp + sm + sn + 2 * (HEADER_SIZE + FOOTER_SIZE) && footer < TWO_64
    ensures UsableSize3(sp, sm, sn) == sp + sm + sn + 2 * (HEADER_SIZE + FOOTER_SIZE)
    ensures MINIMUM_ALLOC_SIZE <= UsableSize3(sp, sm, sn) && UsableSize3(sp, sm, sn) % 2 == 0
    ensures footer == prev + HEADER_SIZE + UsableSize3(sp, sm, sn)
  {
  }

  /** Taking out the k-th node and then the j-th of what is left: the j-th is
      apart from what remains, and link words avoided stay avoided. */
  lemma TwoOutApart(nodes: seq<int>, k: int, j: int, footer: int)
    requires 0 <= k < |nodes| && 0 <= j < |nodes| - 1
    requires forall i, j :: 0 <= i < j < |nodes| ==> Apart(nodes[i], nodes[j])
    requires LinksAvoid(nodes, {footer})
    ensures var rest1 := Without(nodes, k);
      var rest2 := Without(rest1, j);
      && (forall i :: 0 <= i < |rest2| ==> Apart(rest1[j], rest2[i]))
      && LinksAvoid([rest1[j]] + rest2, {footer})
  {
    var rest1 := Without(nodes, k);
    WithoutApart(nodes, k);
    ApartFromRest(rest1, j);
    LinksAvoidWithout(nodes, k, {footer});
    LinksAvoidWithout(rest1, j, {footer});
  }

  /** Both unlinkings of MergeAll: `next`, then `prev` from what is left. The sizes
      read afterwards are those of the three blocks before. */
  lemma UnlinkBoth(s: State, nodes: seq<int>, k: int, j: int, m: int)
    requires ListWF(s, nodes) && 0 <= k < |nodes| && 0 <= j < |nodes| - 1
    requires var next, prev := nodes[k], Without(nodes, k)[j];
      && Addressable(s, next) && Addressable(s, FooterAt(s, next))
      && Addressable(s, prev) && Addressable(s, FooterAt(s, prev))
      && Addressable(s, m) && (forall i :: 0 <= i < |nodes| ==> Apart(m, nodes[i]))
      && FooterAt(s, next) !in {m, prev} && FooterAt(s, prev) !in {m, next}
      && LinksAvoid(nodes, {FooterAt(s, next), FooterAt(s, prev)})
    ensures var next, prev := nodes[k], Without(nodes, k)[j];
      && RemoveFromFreeList(s, next).Done?
      && RemoveFromFreeList(RemoveFromFreeList(s, next).value, prev).Done?
      && var s2 := RemoveFromFreeList(RemoveFromFreeList(s, next).value, prev).value;
      && ListWF(s2, Without(Without(nodes, k), j))
      && s2 == s.(mem := s2.mem, freeList := s2.freeList)
      && SizeAt(s2, prev) == Done(SizeOfWord(Word(s, prev)))
      && SizeAt(s2, m) == Done(SizeOfWord(Word(s, m)))
      && SizeAt(s2, next) == Done(SizeOfWord(Word(s, next)))
      && KeepsWordsBut(s, s2, UnlinkedWords(s, nodes, k) + UnlinkedWords(s, Without(nodes, k), j))
  {
    var next, prev := nodes[k], Without(nodes, k)[j];
    var rest1 := Without(nodes, k);
    var j' := if j < k then j else j + 1;
    assert prev == nodes[j'];
    ApartAvoidsAll(nodes, m);
    HeaderAvoidsLinks(s, nodes, j');
    LinksAvoidUnion(nodes, {m}, {prev});
    assert {m} + {prev} == {m, prev};
    LinksAvoidSubset(nodes, {FooterAt(s, next), FooterAt(s, prev)}, {FooterAt(s, next)});
    LinksAvoidSubset(nodes, {FooterAt(s, next), FooterAt(s, prev)}, {FooterAt(s, prev)});
    assert Apart(m, next) && Apart(m, prev);
    UnlinkNode(s, nodes, k, {m, prev});
    var s1 := RemoveFromFreeList(s, next).value;
    UnlinkSecond(s, s1, nodes, k, j, m);
  }

  /** The second unlinking of UnlinkBoth, on the state `s1` the first leaves. */
  lemma UnlinkSecond(s: State, s1: State, nodes: seq<int>, k: int, j: int, m: int)
    requires ListWF(s, nodes) && 0 <= k < |nodes| && 0 <= j < |nodes| - 1
    requires var next, prev := nodes[k], Without(nodes, k)[j];
      && Addressable(s, next) && Addressable(s, FooterAt(s, next))
      && Addressable(s, prev) && Addressable(s, FooterAt(s, prev))
      && Addressable(s, m) && (forall i :: 0 <= i < |nodes| ==> Apart(m, nodes[i]))
      && FooterAt(s, prev) !in {m, next} && m != next && prev != next
      && LinksAvoid(nodes, {FooterAt(s, prev)})
    requires Unlinked(s, s1, nodes, k, {m, Without(nodes, k)[j]})
    ensures var next, prev := nodes[k], Without(nodes, k)[j];
      && RemoveFromFreeList(s1, prev).Done?
      && var s2 := RemoveFromFreeList(s1, prev).value;
      && ListWF(s2, Without(Without(nodes, k), j))
      && s2 == s.(mem := s2.mem, freeList := s2.freeList)
      && SizeAt(s2, prev) == Done(SizeOfWord(Word(s, prev)))
      && SizeAt(s2, m) == Done(SizeOfWord(Word(s, m)))
      && SizeAt(s2, next) == Done(SizeOfWord(Word(s, next)))
      && KeepsWordsBut(s, s2, UnlinkedWords(s, nodes, k) + UnlinkedWords(s, Without(nodes, k), j))
  {
    var next, prev := nodes[k], Without(nodes, k)[j];
    var rest1 := Without(nodes, k);
    assert Load(s1, prev) == Load(s, prev) && Load(s1, m) == Load(s, m);
    SameShapeSameAddresses(s, s1);
    assert FooterAt(s1, prev) == FooterAt(s, prev);
    ApartFromRest(nodes, k);
    ApartAvoidsAll(rest1, next);
    ApartWithout(nodes, k, m);
    ApartAvoidsAll(rest1, m);
    LinksAvoidUnion(rest1, {m}, {next});
    assert {m} + {next} == {m, next};
    LinksAvoidWithout(nodes, k, {FooterAt(s, prev)});
    assert Apart(m, prev);
    UnlinkNode(s1, rest1, j, {m, next});
    var s2 := RemoveFromFreeList(s1, prev).value;
    assert UnlinkedWords(s1, rest1, j) == UnlinkedWords(s, rest1, j);
    KeepsTrans(s, s1, s2, UnlinkedWords(s, nodes, k), UnlinkedWords(s, rest1, j));
  }

  /** MergeAll once both removals and the three size reads are done. */
  lemma MergeAllPath(s: State, m: int, prev: int, next: int, s1: State, s2: State, s3: State, sp: int, sm: int, sn: int)
    requires RemoveFromFreeList(s, next) == Done(s1) && RemoveFromFreeList(s1, prev) == Done(s2)
    requires s3 == if next == s2.last then s2.(last := prev) else s2
    requires SizeAt(s3, prev) == Done(sp) && SizeAt(s3, m) == Done(sm) && SizeAt(s3, next) == Done(sn)
    ensures MergeAll(s, m, prev, next) == Coalesce(s3, prev, UsableSize3(sp, sm, sn))
  {
  }

  /** A node's header is no link word of any node of a well-formed list. */
  lemma HeaderAvoidsLinks(s: State, nodes: seq<int>, j: int)
    requires ListWF(s, nodes) && 0 <= j < |nodes|
    ensures LinksAvoid(nodes, {nodes[j]})
  {
    forall i, a | 0 <= i < |nodes| && a in {nodes[j]} ensures OffLinks(a, nodes[i]) {
      if i < j {
        assert Apart(nodes[i], nodes[j]);
      } else if j < i {
        assert Apart(nodes[j], nodes[i]);
      }
    }
  }

  /** Avoiding two sets of holes is avoiding their union. */
  lemma LinksAvoidUnion(nodes: seq<int>, h1: set<int>, h2: set<int>)
    requires LinksAvoid(nodes, h1) && LinksAvoid(nodes, h2)
    ensures LinksAvoid(nodes, h1 + h2)
  {
  }

  /** A header apart from every node is none of their link words. */
  lemma ApartAvoidsAll(nodes: seq<int>, m: int)
    requires forall i :: 0 <= i < |nodes| ==> Apart(m, nodes[i])
    ensures LinksAvoid(nodes, {m})
  {
  }

  /** Apart from every node, apart from every node but one. */
  lemma ApartWithout(nodes: seq<int>, k: int, m: int)
    requires 0 <= k < |nodes| && forall i :: 0 <= i < |nodes| ==> Apart(m, nodes[i])
    ensures var rest := Without(nodes, k);
      forall i :: 0 <= i < |rest| ==> Apart(m, rest[i])
  {
    var rest := Without(nodes, k);
    forall i | 0 <= i < |rest| ensures Apart(m, rest[i]) {
      var i' := if i < k then i else i + 1;
      assert rest[i] == nodes[i'];
    }
  }

  /** A new head whose links the holes miss keeps the list clear of them. */
  lemma LinksAvoidCons(rest: seq<int>, m: int, holes: set<int>)
    requires LinksAvoid(rest, holes) && forall a :: a in holes ==> OffLinks(a, m)
    ensures LinksAvoid([m] + rest, holes)
  {
    var all := [m] + rest;
    forall i, a | 0 <= i < |all| && a in holes ensures OffLinks(a, all[i]) {
      if i > 0 {
        assert all[i] == rest[i - 1];
      }
    }
  }

  /** Fewer holes are avoided as well. */
  lemma LinksAvoidSubset(nodes: seq<int>, holes: set<int>, fewer: set<int>)
    requires LinksAvoid(nodes, holes) && fewer <= holes
    ensures LinksAvoid(nodes, fewer)
  {
  }
}
