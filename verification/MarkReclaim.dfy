/**
  What reclaiming does to the heap after marking: blocks without any marked object are freed.
  The unmarked objects of other blocks become free objects, which are still laid out there.
*/
module MarkReclaim {
  import opened MarkHeap
  import opened MarkInvariant

  /** Block b has a marked object. */
  predicate InUse(h: Heap, m: set<nat>, b: nat) {
    b in h.blocks && exists o :: o in h.blocks[b].objects && o in m
  }

  /** The heap after the blocks without marked objects have been freed, with mem left in memory. */
  function Reclaimed(h: Heap, m: set<nat>, mem: map<nat, nat>): Heap {
    h.(blocks := map b | b in h.blocks && InUse(h, m, b) :: h.blocks[b],
       objs := map o | o in h.objs && InUse(h, m, h.objs[o]) :: h.objs[o],
       names := map v | v in h.names && InUse(h, m, h.BlockOf(h.names[v])) :: h.names[v],
       mem := mem)
  }

  /** Sweeping links free objects with each other; it writes to no marked object and to no root. */
  ghost predicate SweepsOnly(h: Heap, r: Roots, m: set<nat>, mem: map<nat, nat>) {
    && (forall o, a: nat :: o in m && h.WordOf(o, a) ==> h.(mem := mem).Read(a) == h.Read(a))
    && (forall a: nat :: Pending(r.ranges, a) ==> h.(mem := mem).Read(a) == h.Read(a))
  }

  lemma MarkedInUse(h: Heap, m: set<nat>, o: nat)
    requires h.ObjectsOk() && o in m && o in h.objs
    ensures InUse(h, m, h.objs[o]) && h.BlockOf(o) == h.objs[o]
  {
  }

  /** A marked object lies in the block of o. */
  ghost predicate Beside(h: Heap, m: set<nat>, o: nat) {
    exists k :: k in m && h.BlockOf(k) == h.BlockOf(o)
  }

  /** Between h and h', exactly those objects and names have stayed that have a marked object in
      their block. */
  ghost predicate KeptBeside(h: Heap, m: set<nat>, h': Heap) {
    && h'.least == h.least && h'.greatest == h.greatest
    && (forall o :: o in h'.objs <==> o in h.objs && Beside(h, m, o))
    && (forall o :: o in h'.objs ==> h'.objs[o] == h.objs[o])
    && (forall v :: v in h'.names <==> v in h.names && h.names[v] in h'.objs)
    && (forall v :: v in h'.names ==> h'.names[v] == h.names[v])
  }

  /** A block is kept exactly if it holds a marked object. */
  lemma ReclaimedExactly(h: Heap, m: set<nat>, mem: map<nat, nat>)
    requires h.Valid() && m <= h.objs.Keys
    ensures var h' := Reclaimed(h, m, mem);
      && (forall b :: b in h'.blocks <==> b in h.blocks && exists o :: o in h.blocks[b].objects && o in m)
      && (forall b :: b in h'.blocks ==> h'.blocks[b] == h.blocks[b])
      && h'.mem == mem && KeptBeside(h, m, h')
  {
    ReclaimedBeside(h, m, mem);
    hide Heap.Valid, KeptBeside;
  }

  lemma ReclaimedBeside(h: Heap, m: set<nat>, mem: map<nat, nat>)
    requires h.Valid() && m <= h.objs.Keys
    ensures KeptBeside(h, m, Reclaimed(h, m, mem))
  {
    hide InUse, Beside, Heap.Valid;
    var h' := Reclaimed(h, m, mem);
    forall o ensures o in h'.objs <==> o in h.objs && Beside(h, m, o) {
      if o in h.objs { MarkedBeside(h, m, o); }
    }
    forall v ensures v in h'.names <==> v in h.names && h.names[v] in h'.objs {
      ReclaimedName(h, m, mem, v);
    }
  }

  lemma ReclaimedName(h: Heap, m: set<nat>, mem: map<nat, nat>, v: nat)
    requires h.Valid()
    ensures var h' := Reclaimed(h, m, mem); v in h'.names <==> v in h.names && h.names[v] in h'.objs
  {
    assert h.NamesOk();
    hide InUse, Heap.Valid;
  }

  lemma MarkedBeside(h: Heap, m: set<nat>, o: nat)
    requires h.Valid() && m <= h.objs.Keys && o in h.objs
    ensures InUse(h, m, h.objs[o]) <==> Beside(h, m, o)
  {
    var b := h.objs[o];
    if InUse(h, m, b) {
      var k :| k in h.blocks[b].objects && k in m;
      assert h.BlockOf(k) == b;
    }
    if k :| k in m && h.BlockOf(k) == h.BlockOf(o) {
      MarkedInUse(h, m, k);
    }
  }

  /** A marked object keeps its place, its words and its kind. */
  lemma MarkedStays(h: Heap, m: set<nat>, mem: map<nat, nat>, o: nat)
    requires h.ObjectsOk() && o in m && o in h.objs
    ensures var h' := Reclaimed(h, m, mem);
      o in h'.objs && h'.objs[o] == h.objs[o] && h'.Descr(o) == h.Descr(o)
      && (h'.Uncollectable(o) <==> h.Uncollectable(o))
    ensures forall a: nat :: Reclaimed(h, m, mem).WordOf(o, a) <==> h.WordOf(o, a)
  {
    MarkedInUse(h, m, o);
  }

  lemma ReclaimedBlocks(h: Heap, m: set<nat>, mem: map<nat, nat>)
    requires h.Valid()
    ensures Reclaimed(h, m, mem).BlocksOk()
  {
  }

  lemma ReclaimedObjects(h: Heap, m: set<nat>, mem: map<nat, nat>)
    requires h.Valid()
    ensures Reclaimed(h, m, mem).ObjectsOk()
  {
    var h' := Reclaimed(h, m, mem);
    forall o, a | h'.WordOf(o, a) ensures h'.objs[o] <= PageOf(a) < h'.objs[o] + h'.blocks[h'.objs[o]].span {
      assert h.WordOf(o, a);
    }
  }

  lemma ReclaimedValid(h: Heap, m: set<nat>, mem: map<nat, nat>)
    requires h.Valid()
    ensures Reclaimed(h, m, mem).Valid()
  {
    ReclaimedBlocks(h, m, mem);
    ReclaimedObjects(h, m, mem);
    ReclaimedNames(h, m, mem);
    ReclaimedListing(h, m, mem);
    hide Heap.BlocksOk, Heap.ObjectsOk, Heap.NamesOk, Reclaimed;
  }

  lemma ReclaimedNames(h: Heap, m: set<nat>, mem: map<nat, nat>)
    requires h.ObjectsOk() && h.NamesOk()
    ensures Reclaimed(h, m, mem).NamesOk()
  {
  }

  lemma ReclaimedListing(h: Heap, m: set<nat>, mem: map<nat, nat>)
    requires h.Valid()
    ensures var h' := Reclaimed(h, m, mem);
      forall b, o :: b in h'.blocks && o in h'.blocks[b].objects ==> o in h'.objs && h'.objs[o] == b
  {
  }

  /** Closed marks that hold the root targets stay so. */
  lemma ReclaimedClosed(h: Heap, r: Roots, m: set<nat>, mem: map<nat, nat>)
    requires h.Valid() && Closed(h, m) && RootsLand(h, r, m) && SweepsOnly(h, r, m, mem)
    ensures Closed(Reclaimed(h, m, mem), m) && RootsLand(Reclaimed(h, m, mem), r, m)
  {
    var h' := Reclaimed(h, m, mem);
    assert h.ObjectsOk();
    hide Heap.Valid, Heap.ObjectsOk, InUse;
    forall o | o in m ensures o in h'.objs { MarkedStays(h, m, mem, o); }
    forall o, a: nat | o in m && h'.WordOf(o, a) ensures Lands(h', h'.Read(a), m) {
      MarkedStays(h, m, mem, o);
      assert h'.Read(a) == h.(mem := mem).Read(a) == h.Read(a);
    }
    forall a: nat | Pending(r.ranges, a) ensures Lands(h', h'.Read(a), m) {
      assert h'.Read(a) == h.(mem := mem).Read(a) == h.Read(a);
    }
  }

  /** A value leads to the same object as before, if that object is marked. */
  lemma SameNames(h: Heap, m: set<nat>, mem: map<nat, nat>, v: nat, o: nat)
    requires h.Valid() && o in m && m <= h.objs.Keys
    ensures Names(Reclaimed(h, m, mem), v, o) <==> Names(h, v, o)
  {
    MarkedInUse(h, m, o);
  }

  lemma SamePointers(h: Heap, r: Roots, m: set<nat>, mem: map<nat, nat>, o: nat, t: nat)
    requires h.Valid() && o in m && t in m && m <= h.objs.Keys && SweepsOnly(h, r, m, mem)
    ensures Points(Reclaimed(h, m, mem), o, t) <==> Points(h, o, t)
  {
    var h' := Reclaimed(h, m, mem);
    MarkedStays(h, m, mem, o);
    assert h.ObjectsOk();
    hide Heap.Valid, Heap.ObjectsOk, InUse, Names, Reclaimed;
    forall a: nat | h.WordOf(o, a)
      ensures Names(h', h'.Read(a), t) <==> Names(h, h.Read(a), t)
    {
      SweptRead(h, m, mem, a);
      assert h.(mem := mem).Read(a) == h.Read(a);
      SameNames(h, m, mem, h.Read(a), t);
    }
  }

  lemma SweptRead(h: Heap, m: set<nat>, mem: map<nat, nat>, a: nat)
    ensures Reclaimed(h, m, mem).Read(a) == h.(mem := mem).Read(a)
  {
  }

  lemma SameRootTarget(h: Heap, r: Roots, m: set<nat>, mem: map<nat, nat>, o: nat)
    requires h.Valid() && o in m && m <= h.objs.Keys && SweepsOnly(h, r, m, mem)
    ensures IsRootTarget(Reclaimed(h, m, mem), r, o) <==> IsRootTarget(h, r, o)
  {
    var h' := Reclaimed(h, m, mem);
    hide Heap.Valid, InUse, Names, Reclaimed;
    forall a: nat | Pending(r.ranges, a)
      ensures Names(h', h'.Read(a), o) <==> Names(h, h.Read(a), o)
    {
      SweptRead(h, m, mem, a);
      assert h.(mem := mem).Read(a) == h.Read(a);
      SameNames(h, m, mem, h.Read(a), o);
    }
    forall v | v in r.registers ensures Names(h', v, o) <==> Names(h, v, o) { SameNames(h, m, mem, v, o); }
  }

  /** A path that starts from the roots or from marked objects is a path before exactly if it is one
      afterwards: all its objects are marked. */
  lemma SamePath(h: Heap, r: Roots, m: set<nat>, mem: map<nat, nat>, seeds: set<nat>, path: seq<nat>)
    requires h.Valid() && Closed(h, m) && RootsLand(h, r, m) && SweepsOnly(h, r, m, mem) && seeds <= m
    ensures PathFrom(Reclaimed(h, m, mem), r, seeds, path) <==> PathFrom(h, r, seeds, path)
  {
    var h' := Reclaimed(h, m, mem);
    ReclaimedClosed(h, r, m, mem);
    hide Heap.Valid, SweepsOnly, Points, IsRootTarget, Reclaimed, Lands;
    if PathFrom(h, r, seeds, path) || PathFrom(h', r, seeds, path) {
      forall i: nat | i < |path| ensures path[i] in m {
        if PathFrom(h, r, seeds, path) { PathStaysIn(h, r, seeds, m, path, i); }
        else { PathStaysIn(h', r, seeds, m, path, i); }
      }
      SameRootTarget(h, r, m, mem, path[0]);
      forall i | 0 < i < |path| ensures Points(h', path[i - 1], path[i]) <==> Points(h, path[i - 1], path[i]) {
        SamePointers(h, r, m, mem, path[i - 1], path[i]);
      }
    }
  }

  /** Reclaiming changes nothing about what can be reached. */
  lemma SameReachable(h: Heap, r: Roots, m: set<nat>, mem: map<nat, nat>, seeds: set<nat>)
    requires h.Valid() && Closed(h, m) && RootsLand(h, r, m) && SweepsOnly(h, r, m, mem) && seeds <= m
    ensures ReachableSet(Reclaimed(h, m, mem), r, seeds) == ReachableSet(h, r, seeds) <= m
  {
    var h' := Reclaimed(h, m, mem);
    forall o ensures Reachable(h', r, seeds, o) <==> Reachable(h, r, seeds, o) {
      ReachableAlike(h, r, m, mem, seeds, o);
    }
    forall o | Reachable(h, r, seeds, o) ensures o in m { ClosedHoldsReachable(h, r, seeds, m, o); }
    assert h.ObjectsOk();
    forall o | o in m ensures o in h'.objs { MarkedStays(h, m, mem, o); }
    hide Heap.Valid, Reachable, SweepsOnly, Heap.ObjectsOk;
  }

  lemma ReachableAlike(h: Heap, r: Roots, m: set<nat>, mem: map<nat, nat>, seeds: set<nat>, o: nat)
    requires h.Valid() && Closed(h, m) && RootsLand(h, r, m) && SweepsOnly(h, r, m, mem) && seeds <= m
    ensures Reachable(Reclaimed(h, m, mem), r, seeds, o) <==> Reachable(h, r, seeds, o)
  {
    hide Heap.Valid, Closed, RootsLand, SweepsOnly, IsRootTarget, Points, Reclaimed;
    if Reachable(h, r, seeds, o) {
      var path :| PathFrom(h, r, seeds, path) && path[|path| - 1] == o;
      SamePath(h, r, m, mem, seeds, path);
    }
    if Reachable(Reclaimed(h, m, mem), r, seeds, o) {
      var path :| PathFrom(Reclaimed(h, m, mem), r, seeds, path) && path[|path| - 1] == o;
      SamePath(h, r, m, mem, seeds, path);
    }
  }
}
