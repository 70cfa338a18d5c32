/**
  What the allocation of a heap block does to Invariant I while marking is under way.
*/
module MarkAllocation {
  import opened MarkHeap
  import opened MarkInvariant

  function Pages(b: nat, span: nat): set<nat> {
    if span == 0 then {} else Pages(b, span - 1) + {b + span - 1}
  }

  /** The heap after block number b has been allocated, and the values in names' have
      become pointers to its objects. */
  function WithBlock(h: Heap, b: nat, block: Block, names': map<nat, nat>): Heap {
    h.(blocks := h.blocks[b := block],
       objs := h.objs + (map o | o in block.objects :: b),
       names := h.names + names')
  }

  /** Exactly the block, its objects and the names are new; memory is as it was. */
  lemma WithBlockHas(h: Heap, b: nat, block: Block, names': map<nat, nat>)
    ensures var h' := WithBlock(h, b, block, names');
      && h'.blocks == h.blocks[b := block] && h'.names == h.names + names'
      && h'.mem == h.mem && h'.least == h.least && h'.greatest == h.greatest
      && (forall o :: o in h'.objs <==> o in h.objs || o in block.objects)
      && (forall o :: o in h'.objs ==> h'.objs[o] == if o in block.objects then b else h.objs[o])
  {
  }

  /** The block fits between the others and its objects fit into the block. */
  ghost predicate PlaceOk(h: Heap, b: nat, block: Block) {
    && 0 < b < h.greatest && b !in h.blocks
    && 1 <= block.span && |block.objects| <= HBLK_MAX_OBJECTS
    && (forall c :: c in h.blocks ==> b + block.span <= c || c + h.blocks[c].span <= b)
    && (forall o :: o in block.objects ==> o !in h.objs)
  }

  ghost predicate NewWordsOk(b: nat, block: Block) {
    forall o, a: nat :: o in block.objects && o <= a < o + block.descr ==> NewWord(b, block, a)
  }

  /** a is the address of a word in the pages of the new block. */
  ghost predicate NewWord(b: nat, block: Block, a: nat) {
    b <= PageOf(a) < b + block.span
  }

  ghost predicate NewNamesOk(h: Heap, block: Block, names': map<nat, nat>) {
    forall v :: v in names' ==> v !in h.names && names'[v] in block.objects && h.Plausible(v)
  }

  ghost predicate NewBlockOk(h: Heap, b: nat, block: Block, names': map<nat, nat>) {
    PlaceOk(h, b, block) && NewWordsOk(b, block) && NewNamesOk(h, block, names')
  }

  /** No clean word of a marked object that counts as dealt with holds a value of names',
      except those that lead to the pre-marked objects. */
  ghost predicate NoStaleWord(h: Heap, m: set<nat>, pre: set<nat>, s: seq<Mse>, st: MarkState, scan: nat,
                              dirty: set<nat>, grungy: set<nat>, names': map<nat, nat>)
  {
    forall o, a: nat :: o in m && h.WordOf(o, a) && h.Read(a) in names' && names'[h.Read(a)] !in pre ==>
      PageOf(a) in dirty || Pending(s, a) || Exempt(h, st, scan, grungy, o, a)
  }

  lemma OldObject(h: Heap, b: nat, block: Block, names': map<nat, nat>, o: nat)
    requires h.ObjectsOk() && PlaceOk(h, b, block) && o in h.objs
    ensures o !in block.objects
    ensures var h' := WithBlock(h, b, block, names');
      h'.BlockOf(o) == h.BlockOf(o) != b && h'.Descr(o) == h.Descr(o) && (h'.Uncollectable(o) <==> h.Uncollectable(o))
    ensures forall a: nat :: WithBlock(h, b, block, names').WordOf(o, a) <==> h.WordOf(o, a)
  {
  }

  lemma WithBlockValid(h: Heap, b: nat, block: Block, names': map<nat, nat>)
    requires h.Valid() && NewBlockOk(h, b, block, names')
    ensures WithBlock(h, b, block, names').Valid()
  {
    WithBlockBlocks(h, b, block, names');
    WithBlockObjects(h, b, block, names');
    WithBlockNames(h, b, block, names');
    WithBlockListing(h, b, block, names');
  }

  lemma WithBlockBlocks(h: Heap, b: nat, block: Block, names': map<nat, nat>)
    requires h.BlocksOk() && PlaceOk(h, b, block)
    ensures WithBlock(h, b, block, names').BlocksOk()
  {
  }

  lemma WithBlockObjects(h: Heap, b: nat, block: Block, names': map<nat, nat>)
    requires h.ObjectsOk() && PlaceOk(h, b, block) && NewWordsOk(b, block)
    ensures WithBlock(h, b, block, names').ObjectsOk()
  {
    var h' := WithBlock(h, b, block, names');
    forall o, a | h'.WordOf(o, a)
      ensures h'.objs[o] <= PageOf(a) < h'.objs[o] + h'.blocks[h'.objs[o]].span
    {
      if o in h.objs {
        OldObject(h, b, block, names', o);
        assert h.WordOf(o, a);
      } else {
        assert NewWord(b, block, a);
      }
    }
  }

  lemma WithBlockNames(h: Heap, b: nat, block: Block, names': map<nat, nat>)
    requires h.NamesOk() && NewNamesOk(h, block, names')
    ensures WithBlock(h, b, block, names').NamesOk()
  {
  }

  lemma WithBlockListing(h: Heap, b: nat, block: Block, names': map<nat, nat>)
    requires h.Valid() && PlaceOk(h, b, block)
    ensures var h' := WithBlock(h, b, block, names');
      forall c, o :: c in h'.blocks && o in h'.blocks[c].objects ==> o in h'.objs && h'.objs[o] == c
  {
  }

  lemma WithBlockMarks(h: Heap, b: nat, block: Block, names': map<nat, nat>, m: set<nat>, pre: set<nat>)
    requires h.Valid() && PlaceOk(h, b, block) && m <= h.objs.Keys
    requires (forall o :: o in pre ==> o in block.objects) && (pre != {} ==> block.uncollectable)
    ensures m + pre <= WithBlock(h, b, block, names').objs.Keys
    ensures (forall o :: o in m ==> h.Uncollectable(o)) ==>
      forall o :: o in m + pre ==> WithBlock(h, b, block, names').Uncollectable(o)
  {
    forall o | o in m ensures WithBlock(h, b, block, names').Uncollectable(o) <==> h.Uncollectable(o) {
      OldObject(h, b, block, names', o);
    }
  }

  lemma InPages(b: nat, span: nat, p: nat)
    ensures p in Pages(b, span) <==> b <= p < b + span
  {
  }

  /** The words of an old object are in other pages than the new block. */
  lemma OldPage(h: Heap, b: nat, block: Block, o: nat, a: nat)
    requires h.Valid() && PlaceOk(h, b, block) && h.WordOf(o, a)
    ensures PageOf(a) !in Pages(b, block.span)
  {
    InPages(b, block.span, PageOf(a));
  }

  /** Given that there is no stale word, an allocation that dirties the pages of the new block
      keeps Invariant I, whatever the block's memory holds. */
  lemma WithBlockInvariant(h: Heap, b: nat, block: Block, names': map<nat, nat>, m: set<nat>, pre: set<nat>,
                           s: seq<Mse>, st: MarkState, scan: nat, dirty: set<nat>, grungy: set<nat>)
    requires h.Valid() && NewBlockOk(h, b, block, names') && m <= h.objs.Keys
    requires forall o :: o in pre ==> o in block.objects
    requires InvariantI(h, m, s, st, scan, dirty, grungy)
    requires NoStaleWord(h, m, pre, s, st, scan, dirty, grungy, names')
    ensures InvariantI(WithBlock(h, b, block, names'), m + pre, s, st, scan, dirty + Pages(b, block.span), grungy)
  {
    hide Heap.Valid, NewBlockOk, NoStaleWord, WordOk, Exempt, WithBlock, Heap.WordOf, Pages;
    forall o, a: nat | o in m + pre && WithBlock(h, b, block, names').WordOf(o, a)
      ensures PageOf(a) in dirty + Pages(b, block.span) || WordOk(WithBlock(h, b, block, names'), m + pre, s, a)
           || Exempt(WithBlock(h, b, block, names'), st, scan, grungy, o, a)
    {
      if o in m {
        OldWord(h, b, block, names', m, pre, s, st, scan, dirty, grungy, o, a);
      } else {
        FreshWord(h, b, block, names', o, a);
      }
    }
  }

  lemma OldWord(h: Heap, b: nat, block: Block, names': map<nat, nat>, m: set<nat>, pre: set<nat>, s: seq<Mse>,
                st: MarkState, scan: nat, dirty: set<nat>, grungy: set<nat>, o: nat, a: nat)
    requires h.Valid() && NewBlockOk(h, b, block, names') && m <= h.objs.Keys && o in m
    requires InvariantI(h, m, s, st, scan, dirty, grungy)
    requires NoStaleWord(h, m, pre, s, st, scan, dirty, grungy, names')
    requires WithBlock(h, b, block, names').WordOf(o, a)
    ensures PageOf(a) in dirty || WordOk(WithBlock(h, b, block, names'), m + pre, s, a)
         || Exempt(WithBlock(h, b, block, names'), st, scan, grungy, o, a)
  {
    OldObject(h, b, block, names', o);
    hide Heap.Valid, NewBlockOk;
    assert h.WordOf(o, a);
  }

  lemma FreshWord(h: Heap, b: nat, block: Block, names': map<nat, nat>, o: nat, a: nat)
    requires NewBlockOk(h, b, block, names')
    requires o in block.objects && WithBlock(h, b, block, names').WordOf(o, a)
    ensures PageOf(a) in Pages(b, block.span)
  {
    assert NewWord(b, block, a);
    InPages(b, block.span, PageOf(a));
  }

  /** The condition is exact: if a clean word that has been dealt with already held a value that
      becomes a pointer to an unmarked object of the block, that object goes unnoticed. */
  lemma StaleWordBreaks(h: Heap, b: nat, block: Block, names': map<nat, nat>, m: set<nat>, pre: set<nat>,
                        s: seq<Mse>, st: MarkState, scan: nat, dirty: set<nat>, grungy: set<nat>)
    requires h.Valid() && NewBlockOk(h, b, block, names') && m <= h.objs.Keys
    requires forall o :: o in pre ==> o in block.objects
    requires InvariantI(h, m, s, st, scan, dirty, grungy)
    ensures InvariantI(WithBlock(h, b, block, names'), m + pre, s, st, scan, dirty + Pages(b, block.span), grungy)
       <==> NoStaleWord(h, m, pre, s, st, scan, dirty, grungy, names')
  {
    if NoStaleWord(h, m, pre, s, st, scan, dirty, grungy, names') {
      WithBlockInvariant(h, b, block, names', m, pre, s, st, scan, dirty, grungy);
    } else {
      var o, a: nat :| o in m && h.WordOf(o, a) && h.Read(a) in names' && names'[h.Read(a)] !in pre &&
        !(PageOf(a) in dirty || Pending(s, a) || Exempt(h, st, scan, grungy, o, a));
      StaleWord(h, b, block, names', m, pre, s, st, scan, dirty, grungy, o, a);
      hide Heap.Valid, NewBlockOk, WordOk, Exempt, Heap.WordOf, WithBlock, NoStaleWord;
    }
  }

  lemma StaleWord(h: Heap, b: nat, block: Block, names': map<nat, nat>, m: set<nat>, pre: set<nat>, s: seq<Mse>,
                  st: MarkState, scan: nat, dirty: set<nat>, grungy: set<nat>, o: nat, a: nat)
    requires h.Valid() && NewBlockOk(h, b, block, names') && m <= h.objs.Keys && o in m && h.WordOf(o, a)
    requires h.Read(a) in names' && names'[h.Read(a)] !in pre
    requires !(PageOf(a) in dirty || Pending(s, a) || Exempt(h, st, scan, grungy, o, a))
    ensures var h' := WithBlock(h, b, block, names');
      h'.WordOf(o, a) && PageOf(a) !in dirty + Pages(b, block.span) && !WordOk(h', m + pre, s, a)
      && !Exempt(h', st, scan, grungy, o, a)
  {
    OldPage(h, b, block, o, a);
    OldObject(h, b, block, names', o);
    StaleTarget(h, b, block, names', m, pre, a);
    hide Heap.Valid, NewBlockOk, Pages;
  }

  lemma StaleTarget(h: Heap, b: nat, block: Block, names': map<nat, nat>, m: set<nat>, pre: set<nat>, a: nat)
    requires m <= h.objs.Keys && PlaceOk(h, b, block) && NewNamesOk(h, block, names')
    requires h.Read(a) in names' && names'[h.Read(a)] !in pre
    ensures !Lands(WithBlock(h, b, block, names'), WithBlock(h, b, block, names').Read(a), m + pre)
  {
    var h' := WithBlock(h, b, block, names');
    assert h'.names[h'.Read(a)] in block.objects;
  }

  /** One object of two words, at word 512; its first word holds the address 8192. */
  function ExampleHeap(): Heap {
    Heap(map[1 := Block(1, 2, false, [512])], map[512 := 1], map[4096 := 512], map[512 := 8192], 4096, 16384)
  }

  function ExampleBlock(): Block {
    Block(1, 2, false, [1024])
  }

  lemma ExampleOk()
    ensures ExampleHeap().Valid() && NewBlockOk(ExampleHeap(), 2, ExampleBlock(), map[8192 := 1024])
    ensures InvariantI(ExampleHeap(), {512}, [], MsNone, 0, {}, {})
  {
    var block := ExampleBlock();
    forall o, a: nat | o in block.objects && o <= a < o + block.descr ensures NewWord(2, block, a) {
      assert a == 1024 || a == 1025;
    }
  }

  /** A stale word is possible. The marked object at word 512 holds 8192, the address of a block
      that is not allocated, and its page is clean. Then that block is allocated: its object at
      word 1024 is unmarked although a marked object points to it. */
  lemma StaleWordExample()
    ensures var h, h' := ExampleHeap(), WithBlock(ExampleHeap(), 2, ExampleBlock(), map[8192 := 1024]);
      && h.Valid() && NewBlockOk(h, 2, ExampleBlock(), map[8192 := 1024])
      && InvariantI(h, {512}, [], MsNone, 0, {}, {})
      && !InvariantI(h', {512}, [], MsNone, 0, Pages(2, 1), {})
  {
    ExampleOk();
    var h, none: set<nat> := ExampleHeap(), {};
    assert h.WordOf(512, 512) && h.Read(512) == 8192;
    hide Heap.Valid, NewBlockOk, InvariantI, WithBlock, Pages;
    assert !NoStaleWord(h, {512}, {}, [], MsNone, 0, {}, {}, map[8192 := 1024]);
    StaleWordBreaks(h, 2, ExampleBlock(), map[8192 := 1024], {512}, {}, [], MsNone, 0, {}, {});
    assert {512} + none == {512} && none + Pages(2, 1) == Pages(2, 1);
  }
}
