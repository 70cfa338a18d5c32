/**
  The allocator's headers and jumps are the flat map that the two-level index stands for.
*/
module IndexedHeap {
  import opened FreeLists
  import opened HeapSpace
  import opened HeaderIndex

  /** The header of a run, its size in bytes. */
  function BlkOf(x: Hdr): BlkHdr {
    BlkHdr(x.sz * HBLKSIZE, x.free)
  }

  function BlocksOf(h: map<nat, Hdr>): map<nat, BlkHdr> {
    map b | b in h :: BlkOf(h[b])
  }

  /** The index entry of heap block a. */
  function EntryOf(h: map<nat, Hdr>, counts: map<nat, nat>, a: nat): Slot {
    if a in h then Head(BlkOf(h[a])) else if a in counts then Slot.Jump(counts[a]) else Nil
  }

  /** The index holds the allocator's headers and jumps, and nothing else. */
  ghost predicate Stands(h: map<nat, Hdr>, counts: map<nat, nat>, slots: map<nat, seq<Slot>>) {
    forall a: nat :: SlotAt(slots, a) == EntryOf(h, counts, a)
  }

  lemma SpanOf(x: Hdr)
    ensures Span(BlkOf(x)) == x.sz
  {
  }

  lemma TilingIsFlat(h: map<nat, Hdr>, owner: map<nat, nat>)
    requires Tiling(h, owner)
    ensures FlatOk(BlocksOf(h))
  {
    forall b | b in h ensures b > 0 && BlkOk(BlkOf(h[b])) && Span(BlkOf(h[b])) == h[b].sz {
      SpanOf(h[b]);
    }
    hide Span, BlkOk;
    forall b, c | b in h && c in h && b < c ensures b + Span(BlkOf(h[b])) <= c {
      assert InRun(h, c, c);
      assert InRun(h, b, c) <==> c < b + h[b].sz;
    }
  }

  /** An entry is inside an allocated block exactly if the allocator has a jump for it. */
  lemma InsideRun(h: map<nat, Hdr>, owner: map<nat, nat>, counts: map<nat, nat>, b: nat, a: nat)
    requires Tiling(h, owner) && CountsOk(h, owner, counts, 0)
    ensures Inside(BlocksOf(h), b, a) <==> a in counts && owner[a] == b
    ensures a in counts ==> a !in h && counts[a] == HeapSpace.Jump(a - owner[a]) && Inside(BlocksOf(h), owner[a], a)
  {
    if b in h { SpanOf(h[b]); }
    hide Span;
    if a in counts {
      assert CountOk(h, owner, counts, 0, a);
      SpanOf(h[owner[a]]);
      assert InRun(h, owner[a], a);
      assert InRun(h, a, a) <==> a in h;
    }
    if Inside(BlocksOf(h), b, a) {
      assert InRun(h, b, a);
      assert CountOk(h, owner, counts, 0, a);
    }
  }

  lemma EntryIsRight(h: map<nat, Hdr>, owner: map<nat, nat>, counts: map<nat, nat>, a: nat)
    requires Tiling(h, owner) && CountsOk(h, owner, counts, 0)
    ensures SlotOk(BlocksOf(h), a, EntryOf(h, counts, a))
  {
    forall b: nat ensures Inside(BlocksOf(h), b, a) <==> a in counts && owner[a] == b {
      InsideRun(h, owner, counts, b, a);
    }
    if a in counts {
      InsideRun(h, owner, counts, owner[a], a);
      assert Inside(BlocksOf(h), owner[a], a) && counts[a] == HeapSpace.Jump(a - owner[a]);
    }
    hide Inside, HeapSpace.Jump;
  }

  /** The map of blocks determines every entry. */
  lemma OneEntry(blocks: map<nat, BlkHdr>, a: nat, s: Slot, t: Slot)
    requires FlatOk(blocks) && SlotOk(blocks, a, s) && SlotOk(blocks, a, t)
    ensures s == t
  {
    if s.Jump? && t.Jump? {
      var b: nat :| Inside(blocks, b, a) && s.n == HeapSpace.Jump(a - b);
      var c: nat :| Inside(blocks, c, a) && t.n == HeapSpace.Jump(a - c);
      OneOwner(blocks, b, c, a);
    }
  }

  /** An index stands for the allocator's blocks exactly if it holds its headers and its jumps. */
  lemma IndexRefinesHeap(h: map<nat, Hdr>, owner: map<nat, nat>, counts: map<nat, nat>, mapped: set<nat>,
                         slots: map<nat, seq<Slot>>)
    requires SpaceOk(h, owner, counts, mapped, 0)
    ensures FlatOk(BlocksOf(h))
    ensures Refines(BlocksOf(h), slots) <==> Stands(h, counts, slots)
  {
    TilingIsFlat(h, owner);
    hide FlatOk, SlotOk, SlotAt, EntryOf, MapOk, Tiling, CountsOk;
    forall a: nat ensures SlotOk(BlocksOf(h), a, SlotAt(slots, a)) <==> SlotAt(slots, a) == EntryOf(h, counts, a) {
      EntryIsRight(h, owner, counts, a);
      if SlotOk(BlocksOf(h), a, SlotAt(slots, a)) {
        OneEntry(BlocksOf(h), a, SlotAt(slots, a), EntryOf(h, counts, a));
      }
    }
  }

  /** The allocator's search for the nearest header downwards is that of the index. */
  lemma SamePrevious(h: map<nat, Hdr>, a: nat, p: nat, r: int)
    requires (p != 0 ==> p <= a && p in h) && (forall c :: p < c <= a ==> c !in h) && 0 !in h
    requires r == -1 ==> NoneIn(BlocksOf(h), true, 0, a + 1)
    requires r != -1 ==> 0 <= r <= a && r in BlocksOf(h) && NoneIn(BlocksOf(h), true, r + 1, a + 1)
    ensures if p == 0 then r == -1 else r == p
  {
    if p != 0 { assert Wanted(BlocksOf(h), true, p); }
  }
}
