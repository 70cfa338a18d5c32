/**
  The end of a collection: finalization, reclaiming, and the state the next cycle starts from.
*/
module CollectionEnd {
  import opened MarkHeap
  import opened MarkInvariant
  import opened MarkReclaim
  import opened Marker
  import opened CycleDriver
  import opened FinalizerMarking
  import opened Finalizer
  import opened HashTables

  /** GC_finish_collection without its counters: finalizes, and frees the blocks without marked
      objects. sweep gives what sweeping leaves in memory. */
  method FinalizeAndReclaim(fin: Finalization, memory: nat -> bool, sweep: (Heap, set<nat>) -> map<nat, nat>)
    returns (ghost e: Enqueuing, ghost h: Heap)
    requires fin.gc.Quiet() && fin.Ready()
    requires forall h, m :: SweepsOnly(h, fin.gc.roots, m, sweep(h, m))
    modifies fin`queue, fin`bytesFinalized, fin.fo`entries, fin.fo`view, fin.fo.head
    modifies fin.dl`entries, fin.dl`view, fin.dl.head, fin.ll`entries, fin.ll`view, fin.ll.head, fin.gc,
             fin.gc.markStack
    ensures fin.Ready() && fin.gc.Idle() && old(fin.gc.marked) <= fin.gc.marked <= fin.gc.heap.objs.Keys
    ensures fin.gc.markStack == old(fin.gc.markStack) || fresh(fin.gc.markStack)
    ensures fin.gc.heap == Reclaimed(h, fin.gc.marked, sweep(h, fin.gc.marked)) && h.objs == old(fin.gc.heap.objs)
    ensures forall b :: b in fin.gc.heap.blocks <==>
      b in h.blocks && exists o :: o in h.blocks[b].objects && o in fin.gc.marked
    ensures h.blocks == old(fin.gc.heap.blocks) && KeptBeside(h, fin.gc.marked, fin.gc.heap)
    ensures e.view0 == old(fin.fo.view) && e.queue0 == old(fin.queue) && fin.gc.roots == old(fin.gc.roots)
    ensures AllKept(old(fin.fo.view), old(fin.queue), fin.fo.view, fin.queue)
    ensures fin.java || NoOrderSafe(h, e.view0, e.m) ==> fin.gc.Quiet()
    ensures fin.gc.Quiet() && (fin.java || NoOrderSafe(h, e.view0, e.m)) ==>
      ReachableSet(fin.gc.heap, fin.gc.roots, Keys(fin.queue)) == ReachableSet(h, fin.gc.roots, Keys(fin.queue))
      <= fin.gc.marked
  {
    hide Collector.Quiet, Collector.Idle, NoOrderSafe, Enqueuing.Ok, Enqueuing.Moved, Finalization.Keeps, Table.Valid,
         Finalization.KeptLinks, ReachableSet, SweepsOnly, Traced, WordsCleared, AllKept, Reclaimed, AllHidden,
         AllRevealed, Lonely, NoneUnreachable, KeptBeside;
    var overflow;
    ghost var m3, h1;
    overflow, e, m3, h1 := fin.Finalize(memory);
    h := fin.gc.heap;
    fin.gc.Reclaim(sweep(fin.gc.heap, fin.gc.marked));
    FewerNames(h, fin.gc.marked, sweep(h, fin.gc.marked));
    QueueMarked(fin.queue, fin.gc.marked);
  }

  /** GC_finish_collection: the next cycle can start from the state it leaves. */
  method FinishCollection(cycle: Cycle, fin: Finalization, memory: nat -> bool,
                          sweep: (Heap, set<nat>) -> map<nat, nat>,
                          wantFull: bool)
    returns (ghost e: Enqueuing, ghost h: Heap)
    requires cycle.gc == fin.gc && cycle.Ready() && fin.gc.Quiet() && fin.Ready()
    requires forall h, m :: SweepsOnly(h, fin.gc.roots, m, sweep(h, m))
    modifies cycle`attempts, cycle`fullGc, cycle`needFullGc
    modifies fin`queue, fin`bytesFinalized, fin.fo`entries, fin.fo`view, fin.fo.head
    modifies fin.dl`entries, fin.dl`view, fin.dl.head, fin.ll`entries, fin.ll`view, fin.ll.head, fin.gc,
             fin.gc.markStack
    ensures fin.Ready() && e.view0 == old(fin.fo.view)
    ensures AllKept(old(fin.fo.view), old(fin.queue), fin.fo.view, fin.queue)
    ensures forall b :: b in fin.gc.heap.blocks <==>
      b in old(fin.gc.heap.blocks) && exists o :: o in old(fin.gc.heap.blocks)[b].objects && o in fin.gc.marked
    ensures cycle.attempts == 0 && !cycle.fullGc && cycle.needFullGc == (!old(cycle.fullGc) && wantFull)
    ensures fin.java || NoOrderSafe(h, e.view0, e.m) ==> fin.gc.Quiet() && cycle.Ready()
  {
    hide Collector.Quiet, Collector.Idle, Collector.Valid, Finalization.Ready, NoOrderSafe, ReachableSet, SweepsOnly,
         AllKept, Reclaimed;
    e, h := FinalizeAndReclaim(fin, memory, sweep);
    cycle.FinishCollection(wantFull);
    if fin.java || NoOrderSafe(h, e.view0, e.m) {
      fin.gc.QuietIsValid();
    }
  }

  lemma FewerNames(h: Heap, m: set<nat>, mem: map<nat, nat>)
    ensures Reclaimed(h, m, mem).names.Keys <= h.names.Keys
  {
  }

  lemma QueueMarked(queue: seq<Item<Fo>>, m: set<nat>)
    ensures (forall p :: 0 <= p < |queue| ==> queue[p].key in m) ==> Keys(queue) <= m
  {
  }
}
