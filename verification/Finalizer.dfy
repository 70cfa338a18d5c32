/**
  Finalization: which objects are enqueued, which links are cleared, and what stays marked.
*/
module Finalizer {
  import opened MarkHeap
  import opened MarkInvariant
  import opened Marker
  import opened HashTables
  import opened FinalizerMarking

  /** A finalizable object's entry; its object is the key it is stored under. */
  datatype Fo = Fo(fn: nat, data: nat, size: nat, proc: MarkProc, hidden: bool)

  /** What the mark procedures of the unmarked objects of view lead to. */
  ghost function AllKids(h: Heap, view: map<nat, Fo>, m: set<nat>): set<nat> {
    set o, t | o in view && o !in m && t in Kids(h, o, view[o].proc) :: t
  }

  /** The marks after tracing from all finalizable objects, in whatever order. */
  ghost function Traced(h: Heap, r: Roots, view: map<nat, Fo>, m: set<nat>): set<nat> {
    ReachableSet(h, r, m + AllKids(h, view, m))
  }

  lemma TracedClosed(h: Heap, r: Roots, view: map<nat, Fo>, m: set<nat>)
    requires h.Valid() && m <= h.objs.Keys
    ensures Closed(h, Traced(h, r, view, m)) && RootsLand(h, r, Traced(h, r, view, m))
    ensures m + AllKids(h, view, m) <= Traced(h, r, view, m)
  {
    forall t | t in AllKids(h, view, m) ensures t in h.objs {
      var o :| o in view && t in Kids(h, o, view[o].proc);
    }
    ReachableSetClosed(h, r, m + AllKids(h, view, m));
  }

  /** The kids of the unmarked objects of seen are marked. */
  ghost predicate KidsMarked(h: Heap, seen: map<nat, Fo>, m0: set<nat>, m: set<nat>) {
    forall o :: o in seen && o !in m0 ==> Kids(h, o, seen[o].proc) <= m
  }

  lemma OneTraced(h: Heap, r: Roots, view: map<nat, Fo>, m0: set<nat>, m: set<nat>, o: nat)
    requires h.Valid() && m0 <= h.objs.Keys && o in view && o !in m0 && m <= Traced(h, r, view, m0)
    ensures ReachableSet(h, r, m + Kids(h, o, view[o].proc)) <= Traced(h, r, view, m0)
  {
    TracedClosed(h, r, view, m0);
    assert Kids(h, o, view[o].proc) <= AllKids(h, view, m0);
    ReachableLeast(h, r, m + Kids(h, o, view[o].proc), Traced(h, r, view, m0));
  }

  lemma KidsOfMarked(h: Heap, o: nat, proc: MarkProc, m: set<nat>)
    requires Closed(h, m) && o in m
    ensures Kids(h, o, proc) <= m
  {
    TargetsInClosed(h, o, m);
  }

  lemma AllTraced(h: Heap, r: Roots, view: map<nat, Fo>, m0: set<nat>, m: set<nat>)
    requires h.Valid() && Closed(h, m) && RootsLand(h, r, m) && m0 <= m && KidsMarked(h, view, m0, m)
    ensures Traced(h, r, view, m0) <= m && AllKids(h, view, m0) <= m
  {
    ReachableLeast(h, r, m0 + AllKids(h, view, m0), m);
  }

  class Finalization {
    const gc: Collector
    const dl: Table<nat>
    const ll: Table<nat>
    const fo: Table<Fo>
    const base: map<nat, nat>          // GC_base: the object that holds an address
    var queue: seq<Item<Fo>>           // finalize_now
    var java: bool
    var needUnreachable: bool
    var bytesFinalized: int

    constructor (gc: Collector, base: map<nat, nat>, java: bool)
      requires gc.Quiet() && 0 !in gc.heap.names
      ensures this.gc == gc && this.base == base && this.java == java && fresh(dl) && fresh(ll) && fresh(fo)
      ensures Ready() && queue == [] && fo.view == map[] && dl.view == map[] && ll.view == map[]
    {
      this.gc, this.base, this.java := gc, base, java;
      dl := new Table();
      ll := new Table();
      fo := new Table();
      queue, needUnreachable, bytesFinalized := [], false, 0;
    }

    /** Marks through one finalizable object, unless it is marked already. */
    method TraceOne(e: Item<Fo>, memory: nat -> bool, ghost t: Trace, overflow0: bool) returns (overflow: bool)
      requires gc.Quiet() && t.Ok(gc.heap, gc.roots) && t.Holds(gc.marked, overflow0)
      requires e.key in t.view && e.val == t.view[e.key] && e.key in gc.heap.objs
      modifies gc`marked, gc`top, gc`state, gc`tooSmall, gc`objectsAreMarked, gc`scanPtr, gc`rootsFresh, gc`markStack,
               gc.markStack
      ensures gc.Quiet() && t.See(e).Holds(gc.marked, overflow)
      ensures gc.markStack == old(gc.markStack) || fresh(gc.markStack)
    {
      hide ReachableSet, Kids, Traced, AllKids, Heap.Valid, Closed, RootsLand;
      overflow := overflow0;
      if e.key !in gc.marked {
        ghost var m := gc.marked;
        var more := MarkFo(gc, e.key, e.val.proc, memory);
        overflow := overflow || more;
        if !overflow {
          OneTraced(t.h, t.r, t.view, t.m0, m, e.key);
        }
      } else {
        KidsOfMarked(t.h, e.key, e.val.proc, gc.marked);
      }
    }

    /** Marks through the finalizable objects of chain c. */
    method TraceChain(c: seq<Item<Fo>>, memory: nat -> bool, ghost i: nat, ghost log: nat, ghost t0: Trace,
                      overflow0: bool)
      returns (overflow: bool, ghost t: Trace)
      requires gc.Quiet() && Bucket(c, t0.view, i, log) && t0.view.Keys <= gc.heap.objs.Keys
      requires t0.Ok(gc.heap, gc.roots) && t0.Holds(gc.marked, overflow0) && Moving(t0.view, t0.seen, log, i, [])
      modifies gc`marked, gc`top, gc`state, gc`tooSmall, gc`objectsAreMarked, gc`scanPtr, gc`rootsFresh, gc`markStack,
               gc.markStack
      ensures gc.Quiet() && (gc.markStack == old(gc.markStack) || fresh(gc.markStack))
      ensures t.Ok(gc.heap, gc.roots) && t.Holds(gc.marked, overflow)
      ensures t == t0.(seen := t.seen) && Moving(t.view, t.seen, log, i + 1, [])
    {
      hide Collector.Quiet, Trace.Holds, Bucket, Moving, Heap.Valid;
      overflow, t := overflow0, t0;
      var p := 0;
      assert c[..0] == [];
      while p < |c|
        invariant p <= |c|
        invariant gc.Quiet() && t.Ok(gc.heap, gc.roots) && t.Holds(gc.marked, overflow)
        invariant t == t0.(seen := t.seen) && Moving(t.view, t.seen, log, i, c[..p])
        invariant gc.markStack == old(gc.markStack) || fresh(gc.markStack)
      {
        InBucket(c, t.view, i, log, p);
        MoveOne(c, t.view, t.seen, log, i, p);
        overflow := TraceOne(c[p], memory, t, overflow);
        t := t.See(c[p]);
        p := p + 1;
      }
      BucketMoved(c, t.view, t.seen, log, i);
    }

    /** Marks everything reachable through the unmarked finalizable objects. */
    method TraceFinalizable(memory: nat -> bool) returns (overflow: bool)
      requires gc.Quiet() && fo.Valid() && fo.view.Keys <= gc.heap.objs.Keys
      modifies gc`marked, gc`top, gc`state, gc`tooSmall, gc`objectsAreMarked, gc`scanPtr, gc`rootsFresh, gc`markStack,
               gc.markStack
      ensures gc.Quiet() && (gc.markStack == old(gc.markStack) || fresh(gc.markStack))
      ensures old(gc.marked) + AllKids(gc.heap, fo.view, old(gc.marked)) <= gc.marked
      ensures !overflow ==> gc.marked == Traced(gc.heap, gc.roots, fo.view, old(gc.marked))
    {
      hide Collector.Quiet, Trace.Holds, Traced, AllKids, Bucket, Heap.Valid;
      overflow := false;
      ghost var t := Trace(gc.heap, gc.roots, gc.marked, fo.view, map[]);
      TraceStart(gc, t);
      for i := 0 to fo.head.Length
        invariant gc.Quiet() && t.Ok(gc.heap, gc.roots) && t.Holds(gc.marked, overflow)
        invariant t.m0 == old(gc.marked) && t.view == fo.view && Moving(fo.view, t.seen, fo.log, i, [])
        invariant gc.markStack == old(gc.markStack) || fresh(gc.markStack)
      {
        overflow, t := TraceChain(fo.head[i], memory, i, fo.log, t, overflow);
      }
      AllMoved(fo.view, t.seen, fo.log, fo.head.Length);
      TraceEnd(gc, t, overflow);
    }

    /** Moves the p-th entry of bucket i to the front of the queue and reveals its object. */
    method MoveToQueue(i: nat, p: nat, ghost e: Enqueuing)
      requires fo.Valid() && i < fo.head.Length && p < |fo.head[i]| && fo.head[i][p].key !in gc.marked
      requires e.Ok(fo.view, queue) && e.Marks(java, gc.marked)
      modifies this`queue, this`bytesFinalized, gc`marked, fo`entries, fo`view, fo.head
      ensures fo.Valid() && fo.view == Minus(old(fo.view), old(fo.head[i])[p].key)
      ensures fo.head[..] == old(fo.head[..])[i := WithoutAt(old(fo.head[i]), p)]
      ensures e.Add(old(fo.head[i])[p]).Ok(fo.view, queue) && e.Add(old(fo.head[i])[p]).Marks(java, gc.marked)
      ensures bytesFinalized == old(bytesFinalized) + old(fo.head[i])[p].val.size + SIZEOF_FO
    {
      hide Bucket, Enqueuing.Ok, Enqueuing.Marks;
      var curr := fo.head[i][p];
      InBucket(fo.head[i], fo.view, i, fo.log, p);
      e.StillThere(fo.view, queue, java, gc.marked, curr.key);
      e.AddOk(fo.view, queue, curr);
      e.AddMarks(java, gc.marked, curr);
      if !java {
        gc.marked := gc.marked + {curr.key};
      }
      fo.RemoveAt(i, p);
      queue := [Item(curr.key, curr.val.(hidden := false))] + queue;
      bytesFinalized := bytesFinalized + curr.val.size + SIZEOF_FO;
    }

    /** Moves the unmarked finalizable objects of bucket i to the queue. */
    method EnqueueBucket(i: nat, ghost e0: Enqueuing) returns (ghost e: Enqueuing)
      requires fo.Valid() && i < fo.head.Length && e0.Ok(fo.view, queue) && e0.Marks(java, gc.marked)
      requires MarkedBelow(fo.view, fo.log, i, [], e0.m)
      modifies this`queue, this`bytesFinalized, gc`marked, fo`entries, fo`view, fo.head
      ensures fo.Valid() && e.Ok(fo.view, queue) && e.Marks(java, gc.marked)
      ensures e == e0.(added := e.added) && MarkedBelow(fo.view, fo.log, i + 1, [], e.m)
      ensures bytesFinalized - Bytes(e.added) == old(bytesFinalized) - Bytes(e0.added)
    {
      hide Bucket, Enqueuing.Ok, Enqueuing.Marks, MarkedBelow, Table.Valid;
      e := e0;
      var p := 0;
      assert fo.head[i][..0] == [];
      while p < |fo.head[i]|
        invariant fo.Valid() && p <= |fo.head[i]| && e.Ok(fo.view, queue) && e.Marks(java, gc.marked)
        invariant e == e0.(added := e.added) && MarkedBelow(fo.view, fo.log, i, fo.head[i][..p], e.m)
        invariant bytesFinalized - Bytes(e.added) == old(bytesFinalized) - Bytes(e0.added)
        decreases |fo.head[i]| - p
      {
        fo.ItemAt(i, p);
        e.StillThere(fo.view, queue, java, gc.marked, fo.head[i][p].key);
        if fo.head[i][p].key !in gc.marked {
          ghost var curr, c := fo.head[i][p], fo.head[i];
          FewerMarked(fo.view, fo.log, i, c[..p], e.m, curr.key);
          MoveToQueue(i, p, e);
          e := e.Add(curr);
          assert WithoutAt(c, p)[..p] == c[..p];
        } else {
          MarkedOne(fo.head[i], fo.view, fo.log, i, p, e.m);
          p := p + 1;
        }
      }
      fo.ChainOf(i);
      MarkedBucket(fo.head[i], fo.view, fo.log, i, e.m);
    }

    /** Moves every finalizable object that is still unmarked to the queue. */
    method Enqueue() returns (ghost e: Enqueuing)
      requires fo.Valid()
      modifies this`queue, this`bytesFinalized, gc`marked, fo`entries, fo`view, fo.head
      ensures fo.Valid() && e.view0 == old(fo.view) && e.queue0 == old(queue) && e.m == old(gc.marked)
      ensures e.Ok(fo.view, queue) && e.Marks(java, gc.marked)
      ensures queue == e.added + old(queue) && fo.view == Restrict(old(fo.view), old(gc.marked))
      ensures bytesFinalized == Bytes(e.added)
    {
      hide Bucket;
      e := Enqueuing(fo.view, queue, gc.marked, []);
      bytesFinalized := 0;
      for i := 0 to fo.head.Length
        invariant fo.Valid() && e.Ok(fo.view, queue) && e.Marks(java, gc.marked)
        invariant e == Enqueuing(old(fo.view), old(queue), old(gc.marked), e.added)
        invariant MarkedBelow(fo.view, fo.log, i, [], e.m) && bytesFinalized == Bytes(e.added)
      {
        e := EnqueueBucket(i, e);
      }
    }

    // ------------------------------------------------------------ Java mode

    /** Marks what is reachable from one queued object that is still unmarked. */
    method MarkQueued(e: Item<Fo>, memory: nat -> bool, ghost k: set<nat>)
      requires gc.Quiet() && EntryReady(gc.heap, e, gc.marked) && e.key !in gc.marked
      requires Closed(gc.heap, k) && RootsLand(gc.heap, gc.roots, k) && gc.marked <= k
      requires e.val.proc != Unreachable ==> e.key in k
      modifies gc`marked, gc`top, gc`state, gc`tooSmall, gc`objectsAreMarked, gc`scanPtr, gc`rootsFresh, gc`markStack,
               gc.markStack
      ensures gc.Quiet() && old(gc.marked) <= gc.marked <= k
      ensures gc.markStack == old(gc.markStack) || fresh(gc.markStack)
      ensures e.val.proc != Unreachable ==> e.key in gc.marked
    {
      hide Collector.Quiet, ReachableSet, Closed, RootsLand, Targets;
      if e.val.proc == NoOrder {
        TargetsInClosed(gc.heap, e.key, k);
        ghost var m := gc.marked;
        var overflow := MarkFo(gc, e.key, Normal, memory);
        ReachableLeast(gc.heap, gc.roots, m + (if overflow then {e.key} else Targets(gc.heap, e.key)), k);
      }
      if e.val.proc != Unreachable {
        SetMark(gc, e.key);
      }
    }

    /** Marks everything reachable from the queue, and the queued objects themselves unless they
        were registered to be finalized when unreachable. */
    method MarkQueue(memory: nat -> bool)
      requires gc.Quiet() && QueueReady(gc.heap, queue, gc.marked)
      modifies gc`marked, gc`top, gc`state, gc`tooSmall, gc`objectsAreMarked, gc`scanPtr, gc`rootsFresh, gc`markStack,
               gc.markStack
      ensures gc.Quiet() && old(gc.marked) <= gc.marked && QueueReady(gc.heap, queue, gc.marked)
      ensures (gc.markStack == old(gc.markStack) || fresh(gc.markStack))
      ensures gc.marked == ReachableSet(gc.heap, gc.roots, old(gc.marked) + Certain(queue))
      ensures forall p :: 0 <= p < |queue| && queue[p].val.proc != Unreachable ==> queue[p].key in gc.marked
    {
      hide Collector.Quiet, EntryReady, ReachableSet, Closed, RootsLand;
      ghost var k := ReachableSet(gc.heap, gc.roots, gc.marked + Certain(queue));
      QueueCloses(gc, queue);
      var p := 0;
      while p < |queue|
        invariant p <= |queue| && gc.Quiet() && old(gc.marked) <= gc.marked <= k
        invariant QueueReady(gc.heap, queue, gc.marked)
        invariant gc.markStack == old(gc.markStack) || fresh(gc.markStack)
        invariant forall q :: 0 <= q < p && queue[q].val.proc != Unreachable ==> queue[q].key in gc.marked
      {
        if queue[p].key !in gc.marked {
          ghost var m := gc.marked;
          MarkQueued(queue[p], memory, k);
          ReadyMore(gc.heap, queue, m, gc.marked);
        }
        p := p + 1;
      }
      gc.QuietIsClosed();
      ReachableLeast(gc.heap, gc.roots, old(gc.marked) + Certain(queue), gc.marked);
    }

    /** Takes the p-th entry off the queue, hides its object again and puts it back into the table. */
    method Revive(p: nat)
      requires fo.Valid() && fo.head.Length > 0 && p < |queue| && queue[p].key !in fo.view
      modifies this`queue, this`bytesFinalized, fo`entries, fo`view, fo.head
      ensures fo.Valid() && queue == old(queue)[..p] + old(queue)[p + 1..]
      ensures fo.view == old(fo.view)[old(queue)[p].key := old(queue)[p].val.(hidden := true)]
      ensures bytesFinalized == old(bytesFinalized) - (old(queue)[p].val.size + SIZEOF_FO)
    {
      var e := queue[p];
      queue := queue[..p] + queue[p + 1..];
      bytesFinalized := bytesFinalized - (e.val.size + SIZEOF_FO);
      fo.Insert(e.key, e.val.(hidden := true));
    }

    /** Deals with the p-th entry of the queue; returns the place to go on from. */
    method ReviveStep(p: nat, ghost m: set<nat>) returns (p': nat)
      requires gc.Quiet() && fo.Valid() && fo.head.Length > 0 && p < |queue| && m <= gc.marked
      requires QueueReady(gc.heap, queue, gc.marked) && Lonely(queue, fo.view) && MarkedSince(m, gc.marked, queue[..p])
      modifies this`queue, this`bytesFinalized, gc`marked, fo`entries, fo`view, fo.head
      ensures gc.Quiet() && fo.Valid() && p' <= |queue| && |queue| - p' < old(|queue|) - p
      ensures QueueReady(gc.heap, queue, gc.marked) && Lonely(queue, fo.view) && MarkedSince(m, gc.marked, queue[..p'])
      ensures queue[..p'] + Survivors(queue[p'..], m) == old(queue)[..p] + Survivors(old(queue)[p..], m)
      ensures Revived(fo.view, queue[p'..], m) == Revived(old(fo.view), old(queue)[p..], m)
      ensures old(gc.marked) <= gc.marked && bytesFinalized - Bytes(queue) == old(bytesFinalized - Bytes(queue))
      ensures forall r :: p <= r < p' ==> queue[r].val.proc == Unreachable ==> queue[r].key in gc.marked
      ensures p <= p' <= p + 1 && queue[..p] == old(queue)[..p]
    {
      hide Collector.Quiet, EntryReady, Survivors, Revived, Table.Valid, Lonely;
      var e := queue[p];
      StepQueue(fo.view, queue, p, m);
      FreshKey(queue, p, m, gc.marked, fo.view);
      p' := p + 1;
      if e.val.proc == Unreachable {
        if e.key !in gc.marked {
          ghost var m1 := gc.marked;
          ReadyTargets(gc.heap, queue, gc.marked, p);
          SetMark(gc, e.key);
          ReadyMore(gc.heap, queue, m1, gc.marked);
        } else {
          ghost var q := queue;
          LonelyWithout(q, p, fo.view, gc.heap, gc.marked, e.val.(hidden := true));
          BytesWithout(q, p);
          Revive(p);
          assert queue[p..] == q[p + 1..] && queue[..p] == q[..p];
          p' := p;
        }
      }
    }

    /** Goes through the queued objects that are to be finalized only when unreachable: those still
        unmarked are marked, the others go back to the table. */
    method ReviveUnreachable()
      requires gc.Quiet() && fo.Valid() && (queue != [] ==> fo.head.Length > 0)
      requires QueueReady(gc.heap, queue, gc.marked) && Lonely(queue, fo.view)
      modifies this`queue, this`bytesFinalized, gc`marked, fo`entries, fo`view, fo.head
      ensures gc.Quiet() && fo.Valid() && gc.marked == old(gc.marked) + Uncertain(queue)
      ensures bytesFinalized - Bytes(queue) == old(bytesFinalized - Bytes(queue))
      ensures queue == Survivors(old(queue), old(gc.marked)) &&
        fo.view == Revived(old(fo.view), old(queue), old(gc.marked))
      ensures forall p :: 0 <= p < |queue| && queue[p].val.proc == Unreachable ==> queue[p].key in gc.marked
    {
      hide Collector.Quiet, QueueReady, Survivors, Revived, Table.Valid, Lonely, MarkedSince;
      ghost var m := gc.marked;
      var p := 0;
      assert queue[0..] == queue;
      NothingMarked(m, queue[..0]);
      while p < |queue|
        invariant p <= |queue| && gc.Quiet() && fo.Valid() && (queue != [] ==> fo.head.Length > 0)
        invariant QueueReady(gc.heap, queue, gc.marked) && Lonely(queue, fo.view) &&
          MarkedSince(m, gc.marked, queue[..p])
        invariant queue[..p] + Survivors(queue[p..], m) == Survivors(old(queue), m)
        invariant Revived(fo.view, queue[p..], m) == Revived(old(fo.view), old(queue), m)
        invariant m <= gc.marked && bytesFinalized - Bytes(queue) == old(bytesFinalized - Bytes(queue))
        invariant forall r :: 0 <= r < p && queue[r].val.proc == Unreachable ==> queue[r].key in gc.marked
        decreases |queue| - p
      {
        ghost var q, p0 := queue, p;
        p := ReviveStep(p, m);
        forall r | 0 <= r < p0 ensures queue[r] == q[r] { assert queue[..p0][r] == q[..p0][r]; }
      }
      QueueDone(fo.view, queue, p, m);
      OnlyUncertain(queue, m, gc.marked);
    }

    // ------------------------------------------------------------ links

    /** Whether a link entry stays: its object is marked, or, when dangling links are removed, the
        link is outside the heap or in a marked object. */
    predicate Keeps(dangling: bool, link: nat, obj: nat)
      reads gc`marked
    {
      if dangling then link !in base || base[link] in gc.marked else obj in gc.marked
    }

    ghost function KeptLinks(view: map<nat, nat>, dangling: bool): set<nat>
      reads gc`marked
    {
      set k | k in view && Keeps(dangling, k, view[k])
    }

    /** Goes through the links of bucket i. */
    method LinksOfBucket(tbl: Table<nat>, i: nat, dangling: bool, ghost l0: map<nat, nat>, ghost h0: Heap)
      requires tbl.Valid() && i < tbl.head.Length && Pruned(l0, tbl.view, KeptLinks(l0, dangling))
      requires gc.heap == WordsCleared(h0, dangling, l0, tbl.view)
      requires MarkedBelow(tbl.view, tbl.log, i, [], KeptLinks(l0, dangling))
      modifies tbl`entries, tbl`view, tbl.head, gc`heap
      ensures tbl.Valid() && Pruned(l0, tbl.view, KeptLinks(l0, dangling))
      ensures gc.heap == WordsCleared(h0, dangling, l0, tbl.view)
      ensures MarkedBelow(tbl.view, tbl.log, i + 1, [], KeptLinks(l0, dangling))
    {
      hide Bucket, MarkedBelow, Table.Valid, WordsCleared, Pruned;
      var p := 0;
      assert tbl.head[i][..0] == [];
      while p < |tbl.head[i]|
        invariant tbl.Valid() && p <= |tbl.head[i]| && Pruned(l0, tbl.view, KeptLinks(l0, dangling))
        invariant gc.heap == WordsCleared(h0, dangling, l0, tbl.view)
        invariant MarkedBelow(tbl.view, tbl.log, i, tbl.head[i][..p], KeptLinks(l0, dangling))
        decreases |tbl.head[i]| - p
      {
        var curr := tbl.head[i][p];
        tbl.ItemAt(i, p);
        PrunedAt(l0, tbl.view, KeptLinks(l0, dangling), curr.key);
        if Keeps(dangling, curr.key, curr.val) {
          MarkedOne(tbl.head[i], tbl.view, tbl.log, i, p, KeptLinks(l0, dangling));
          p := p + 1;
        } else {
          ghost var c := tbl.head[i];
          FewerMarked(tbl.view, tbl.log, i, c[..p], KeptLinks(l0, dangling), curr.key);
          PrunedMore(l0, tbl.view, KeptLinks(l0, dangling), curr.key);
          ClearedMore(h0, dangling, l0, tbl.view, KeptLinks(l0, dangling), curr.key);
          if !dangling {
            gc.heap := gc.heap.(mem := gc.heap.mem[curr.key := 0]);
          }
          tbl.RemoveAt(i, p);
          assert WithoutAt(c, p)[..p] == c[..p];
        }
      }
      tbl.ChainOf(i);
      MarkedBucket(tbl.head[i], tbl.view, tbl.log, i, KeptLinks(l0, dangling));
    }

    /** Drops the links whose objects are unmarked after clearing them, or else the dangling ones. */
    method MakeLinksDisappear(tbl: Table<nat>, dangling: bool)
      requires tbl.Valid()
      modifies tbl`entries, tbl`view, tbl.head, gc`heap
      ensures tbl.Valid() && tbl.view == Restrict(old(tbl.view), KeptLinks(old(tbl.view), dangling))
      ensures gc.heap == WordsCleared(old(gc.heap), dangling, old(tbl.view), tbl.view)
    {
      hide Bucket, WordsCleared;
      ghost var l0, h0 := tbl.view, gc.heap;
      NothingCleared(h0, dangling, l0);
      for i := 0 to tbl.head.Length
        invariant tbl.Valid() && Pruned(l0, tbl.view, KeptLinks(l0, dangling))
        invariant gc.heap == WordsCleared(h0, dangling, l0, tbl.view)
        invariant MarkedBelow(tbl.view, tbl.log, i, [], KeptLinks(l0, dangling))
      {
        LinksOfBucket(tbl, i, dangling, l0, h0);
      }
      AllPruned(l0, tbl.view, KeptLinks(l0, dangling), tbl.log, tbl.head.Length);
    }

    // ------------------------------------------------------------ the whole

    /** Table entries are hidden and queued ones are not; all of them name objects, and one that is
        queued to be finalized when unreachable is in one place only. */
    ghost predicate Tidy()
      reads this, fo, gc
    {
      && fo.view.Keys <= gc.heap.objs.Keys && AllHidden(fo.view) && AllRevealed(queue)
      && (forall p :: 0 <= p < |queue| ==> queue[p].key in gc.heap.objs)
      && Lonely(queue, fo.view)
      && (!needUnreachable ==> NoneUnreachable(fo.view, queue))
    }

    /** What is queued already was marked from the roots. */
    ghost predicate EntriesOk()
      reads this, fo, gc
    {
      Tidy() && forall p :: 0 <= p < |queue| ==> queue[p].key in gc.marked
    }

    /** Java mode, after objects have been queued: everything reachable from the queue is marked,
        and objects to be finalized when unreachable that turn out to be reachable go back. */
    method JavaPhase(memory: nat -> bool) returns (ghost m3: set<nat>)
      requires gc.Quiet() && fo.Valid() && (queue != [] ==> fo.head.Length > 0)
      requires QueueReady(gc.heap, queue, gc.marked) && Lonely(queue, fo.view)
      requires !needUnreachable ==> NoneUnreachable(fo.view, queue)
      modifies this`queue, this`bytesFinalized, fo`entries, fo`view, fo.head
      modifies gc`marked, gc`top, gc`state, gc`tooSmall, gc`objectsAreMarked, gc`scanPtr, gc`rootsFresh, gc`markStack,
               gc.markStack
      ensures gc.Quiet() && fo.Valid() && old(gc.marked) <= m3 <= gc.marked
      ensures gc.markStack == old(gc.markStack) || fresh(gc.markStack)
      ensures m3 == ReachableSet(gc.heap, gc.roots, old(gc.marked) + Certain(old(queue)))
      ensures gc.marked == m3 + Uncertain(queue)
      ensures bytesFinalized - Bytes(queue) == old(bytesFinalized - Bytes(queue))
      ensures queue == Survivors(old(queue), m3) && fo.view == Revived(old(fo.view), old(queue), m3)
      ensures forall x :: x in queue <==> x in old(queue) && !(x.val.proc == Unreachable && x.key in m3)
      ensures forall k :: k in fo.view <==>
        k in old(fo.view) || exists x :: x in old(queue) && x.key == k && x.val.proc == Unreachable && k in m3
      ensures forall p :: 0 <= p < |queue| ==> queue[p].key in gc.marked
    {
      hide Collector.Quiet, Survivors, Revived, QueueReady, Lonely, Table.Valid, ReachableSet, Certain;
      ghost var q, v := queue, fo.view;
      MarkQueue(memory);
      m3 := gc.marked;
      if needUnreachable {
        ReviveUnreachable();
        SurvivorsAreOld(q, m3);
      } else {
        NoRevival(fo.view, queue, m3);
        assert Uncertain(queue) == {};
      }
      RevivalMeans(v, q, m3);
    }

    /** Marks through finalizable objects and moves those that stay unmarked to the queue. */
    method TraceAndEnqueue(memory: nat -> bool) returns (overflow: bool, ghost e: Enqueuing)
      requires gc.Quiet() && fo.Valid() && EntriesOk()
      modifies this`queue, this`bytesFinalized, fo`entries, fo`view, fo.head
      modifies gc`marked, gc`top, gc`state, gc`tooSmall, gc`objectsAreMarked, gc`scanPtr, gc`rootsFresh, gc`markStack,
               gc.markStack
      ensures fo.Valid() && old(gc.marked) <= e.m <= gc.marked
      ensures gc.markStack == old(gc.markStack) || fresh(gc.markStack)
      ensures e.view0 == old(fo.view) && e.queue0 == old(queue) && e.Ok(fo.view, queue)
      ensures bytesFinalized == Bytes(queue) - Bytes(e.queue0)
      ensures queue == e.added + e.queue0 && fo.view == Restrict(e.view0, e.m)
      ensures e.m >= AllKids(gc.heap, e.view0, old(gc.marked))
      ensures !overflow ==> e.m == Traced(gc.heap, gc.roots, e.view0, old(gc.marked))
      ensures gc.Idle() && Closed(gc.heap, e.m) && RootsLand(gc.heap, gc.roots, e.m)
      ensures java ==> gc.Quiet() && gc.marked == e.m
      ensures !java ==> gc.marked == e.m + e.view0.Keys
      ensures !java ==> forall p :: 0 <= p < |queue| ==> queue[p].key in gc.marked
    {
      hide Traced, AllKids, Enqueuing.Ok, Enqueuing.Marks, Kids, Restrict, Closed, RootsLand, Lonely,
           Heap.Valid, AllHidden, AllRevealed, NoneUnreachable, NoOrderSafe;
      ghost var m1 := gc.marked;
      overflow := TraceFinalizable(memory);
      hide Collector.Idle, Table.Valid;
      label Traced: e := Enqueue();
      BytesAppend(e.added, e.queue0);
      if java {
        e.SameMarks(gc.marked);
      } else {
        e.QueueMarked(queue, gc.marked, m1);
        e.AllMarked(gc.marked);
      }
      StaysIdle@Traced(gc);
    }

    /** Marks through finalizable objects, moves those that stay unmarked to the queue and, in
        Java mode, marks from the queue and revives objects that turn out to be reachable. */
    method FinalizeObjects(memory: nat -> bool) returns (overflow: bool, ghost e: Enqueuing, ghost m3: set<nat>)
      requires gc.Quiet() && fo.Valid() && EntriesOk() && (queue != [] ==> fo.head.Length > 0)
      modifies this`queue, this`bytesFinalized, fo`entries, fo`view, fo.head
      modifies gc`marked, gc`top, gc`state, gc`tooSmall, gc`objectsAreMarked, gc`scanPtr, gc`rootsFresh, gc`markStack,
               gc.markStack
      ensures fo.Valid() && old(gc.marked) <= e.m <= m3 <= gc.marked
      ensures gc.markStack == old(gc.markStack) || fresh(gc.markStack)
      ensures e.view0 == old(fo.view) && e.queue0 == old(queue) && e.Ok(Restrict(e.view0, e.m), e.added + e.queue0)
      ensures e.m >= AllKids(gc.heap, e.view0, old(gc.marked))
      ensures !overflow ==> e.m == Traced(gc.heap, gc.roots, e.view0, old(gc.marked))
      ensures bytesFinalized == Bytes(queue) - Bytes(e.queue0)
      ensures m3 == if java then ReachableSet(gc.heap, gc.roots, e.m + Certain(e.added + e.queue0)) else e.m
      ensures java ==> gc.marked == m3 + Uncertain(queue)
      ensures e.Moved(java, m3, fo.view, queue)
      ensures gc.Idle() && Closed(gc.heap, e.m) && RootsLand(gc.heap, gc.roots, e.m)
      ensures if java then gc.Quiet() else gc.marked == e.m + e.view0.Keys
      ensures !java ==> (gc.Quiet() <==> NoOrderSafe(gc.heap, e.view0, e.m))
      ensures forall p :: 0 <= p < |queue| ==> queue[p].key in gc.marked
    {
      hide Traced, AllKids, Enqueuing.Ok, Enqueuing.Marks, Survivors, Revived, Kids, Restrict, Closed, RootsLand,
           Lonely, Heap.Valid, AllHidden, AllRevealed, NoneUnreachable, QueueReady, NoOrderSafe, Collector.Quiet,
           Collector.Idle, ReachableSet, Certain, Uncertain;
      ghost var m1 := gc.marked;
      gc.IdleIsQuiet();
      IdleHeap(gc);
      overflow, e := TraceAndEnqueue(memory);
      m3 := e.m;
      if java {
        e.ReadyToMark(gc.heap, m1, fo.view, queue);
        e.LonelyStill(m1, fo.view, queue);
        m3 := JavaPhase(memory);
      } else {
        e.EnqueuedClosed(gc.heap, gc.roots, m1);
      }
      gc.IdleIsQuiet();
    }

    ghost predicate Ready()
      reads this, fo, fo.head, dl, dl.head, ll, ll.head, gc
    {
      && fo.Valid() && dl.Valid() && ll.Valid() && dl != ll && dl.head != ll.head
      && EntriesOk() && (queue != [] ==> fo.head.Length > 0)
      && 0 !in gc.heap.names
    }

    /** Clears and drops the short links whose objects are unmarked. */
    method ClearShortLinks()
      requires dl.Valid() && gc.Quiet() && EntriesOk() && 0 !in gc.heap.names
      modifies dl`entries, dl`view, dl.head, gc`heap
      ensures dl.Valid() && dl.view == Restrict(old(dl.view), KeptLinks(old(dl.view), false))
      ensures gc.heap == WordsCleared(old(gc.heap), false, old(dl.view), dl.view)
      ensures gc.Quiet() && EntriesOk() && 0 !in gc.heap.names
    {
      hide Table.Valid, Closed, RootsLand, Heap.Valid, Lonely, AllHidden, AllRevealed, NoneUnreachable;
      MakeLinksDisappear(dl, false);
      ClearedStaysClosed(old(gc.heap), gc.roots, gc.marked, old(dl.view), dl.view);
    }

    /** Removes the links whose objects are gone, and those that are gone themselves. */
    method PruneLongLinks()
      requires dl.Valid() && ll.Valid() && dl != ll && dl.head != ll.head && gc.Idle() && 0 !in gc.heap.names
      modifies dl`entries, dl`view, dl.head, ll`entries, ll`view, ll.head, gc`heap
      ensures dl.Valid() && ll.Valid()
      ensures dl.view == Restrict(old(dl.view), KeptLinks(old(dl.view), true))
      ensures forall k :: k in ll.view <==>
        k in old(ll.view) && Keeps(false, k, old(ll.view)[k]) && Keeps(true, k, old(ll.view)[k])
      ensures forall k :: k in ll.view ==> ll.view[k] == old(ll.view)[k]
      ensures gc.heap == WordsCleared(old(gc.heap), false, old(ll.view),
        Restrict(old(ll.view), KeptLinks(old(ll.view), false)))
      ensures gc.Idle() && gc.heap == old(gc.heap).(mem := gc.heap.mem) && 0 !in gc.heap.names
      ensures (old(gc.Quiet()) ==> gc.Quiet()) && (old(EntriesOk()) ==> EntriesOk())
    {
      hide AllHidden, AllRevealed, Lonely, NoneUnreachable, Table.Valid, WordsCleared, Closed, RootsLand, Heap.Valid;
      MakeLinksDisappear(dl, true);
      assert gc.heap == old(gc.heap) by { DanglingClearsNothing(old(gc.heap), old(dl.view), dl.view); }
      MakeLinksDisappear(ll, false);
      ghost var h, l := gc.heap, ll.view;
      MakeLinksDisappear(ll, true);
      assert gc.heap == h by { DanglingClearsNothing(h, l, ll.view); }
      ClearedValid(old(gc.heap), old(ll.view), l);
      ClearedSame(old(gc.heap), old(ll.view), l);
      if old(gc.Quiet()) {
        ClearedStaysClosed(old(gc.heap), gc.roots, gc.marked, old(ll.view), l);
      }
    }

    /** GC_finalize up to the removal of dangling links. */
    method FinalizeEntries(memory: nat -> bool) returns (overflow: bool, ghost e: Enqueuing, ghost m3: set<nat>)
      requires gc.Quiet() && Ready()
      modifies this`queue, this`bytesFinalized, fo`entries, fo`view, fo.head
      modifies dl`entries, dl`view, dl.head
      modifies gc`heap, gc`marked, gc`top, gc`state, gc`tooSmall, gc`objectsAreMarked, gc`scanPtr, gc`rootsFresh
      modifies gc`markStack, gc.markStack
      ensures fo.Valid() && dl.Valid() && EntriesOk() && old(gc.marked) <= e.m <= m3 <= gc.marked
      ensures gc.markStack == old(gc.markStack) || fresh(gc.markStack)
      ensures gc.heap == WordsCleared(old(gc.heap), false, old(dl.view), dl.view) && 0 !in gc.heap.names
      ensures gc.heap.objs == old(gc.heap.objs) && gc.heap.blocks == old(gc.heap.blocks)
      ensures dl.view == Restrict(old(dl.view), old(KeptLinks(dl.view, false)))
      ensures e.view0 == old(fo.view) && e.queue0 == old(queue) && e.Ok(Restrict(e.view0, e.m), e.added + e.queue0)
      ensures !overflow ==> e.m == Traced(gc.heap, gc.roots, e.view0, old(gc.marked))
      ensures AllKids(gc.heap, e.view0, old(gc.marked)) <= e.m && e.view0.Keys <= gc.heap.objs.Keys
      ensures bytesFinalized == Bytes(queue) - Bytes(e.queue0)
      ensures m3 == if java then ReachableSet(gc.heap, gc.roots, e.m + Certain(e.added + e.queue0)) else e.m
      ensures java ==> gc.marked == m3 + Uncertain(queue)
      ensures e.Moved(java, m3, fo.view, queue) && fo.view.Keys <= gc.marked && (queue != [] ==> fo.head.Length > 0)
      ensures AllKept(old(fo.view), old(queue), fo.view, queue) && |fo.view| + |queue| == old(|fo.view| + |queue|)
      ensures gc.Idle() && Closed(gc.heap, e.m) && RootsLand(gc.heap, gc.roots, e.m)
      ensures if java then gc.Quiet() else gc.marked == e.m + e.view0.Keys
    {
      hide Collector.Quiet, Collector.Idle, Table.Valid, WordsCleared, Traced, AllKids, Enqueuing.Ok, Enqueuing.Moved,
           NoOrderSafe, Closed, RootsLand, Restrict, AllKept, KeptLinks, AllHidden, AllRevealed, Lonely,
           NoneUnreachable, ReachableSet, Certain, Uncertain;
      ghost var m1 := gc.marked;
      if fo.head.Length == 0 { fo.EmptyTable(); }
      ClearShortLinks();
      ClearedSame(old(gc.heap), old(dl.view), dl.view);
      overflow, e, m3 := FinalizeObjects(memory);
      FinalEntries(e, java, m1, m3, fo.view, queue, gc.heap.objs.Keys);
    }

    /** GC_finalize: clears short links to unmarked objects, queues what has become finalizable,
        and prunes the tables of links. Outside Java mode the marks are closed afterwards exactly if
        the condition NoOrderSafe holds of the table and of the marks that tracing leads to. */
    method Finalize(memory: nat -> bool)
      returns (overflow: bool, ghost e: Enqueuing, ghost m3: set<nat>, ghost h1: Heap)
      requires gc.Quiet() && Ready()
      modifies this`queue, this`bytesFinalized, fo`entries, fo`view, fo.head
      modifies dl`entries, dl`view, dl.head, ll`entries, ll`view, ll.head
      modifies gc`heap, gc`marked, gc`top, gc`state, gc`tooSmall, gc`objectsAreMarked, gc`scanPtr, gc`rootsFresh
      modifies gc`markStack, gc.markStack
      ensures Ready() && gc.Idle() && old(gc.marked) <= e.m <= m3 <= gc.marked && fo.view.Keys <= gc.marked
      ensures gc.markStack == old(gc.markStack) || fresh(gc.markStack)
      ensures h1 == WordsCleared(old(gc.heap), false, old(dl.view),
        Restrict(old(dl.view), old(KeptLinks(dl.view, false))))
      ensures e.view0 == old(fo.view) && e.queue0 == old(queue) && e.Ok(Restrict(e.view0, e.m), e.added + e.queue0)
      ensures !overflow ==> e.m == Traced(h1, gc.roots, e.view0, old(gc.marked))
      ensures bytesFinalized == Bytes(queue) - Bytes(e.queue0)
      ensures m3 == if java then ReachableSet(h1, gc.roots, e.m + Certain(e.added + e.queue0)) else e.m
      ensures java ==> gc.marked == m3 + Uncertain(queue)
      ensures e.Moved(java, m3, fo.view, queue)
      ensures AllKept(old(fo.view), old(queue), fo.view, queue) && |fo.view| + |queue| == old(|fo.view| + |queue|)
      ensures if java then gc.Quiet() else gc.marked == e.m + e.view0.Keys
      ensures !java ==> (gc.Quiet() <==> NoOrderSafe(gc.heap, e.view0, e.m))
      ensures forall k :: k in dl.view <==>
        k in old(dl.view) && old(dl.view)[k] in old(gc.marked) && (k in base ==> base[k] in gc.marked)
      ensures forall k :: k in ll.view <==>
        k in old(ll.view) && old(ll.view)[k] in gc.marked && (k in base ==> base[k] in gc.marked)
      ensures forall a: nat ::
        gc.heap.Read(a) == (if Dead(old(dl.view), old(gc.marked), a) || Dead(old(ll.view), gc.marked, a) then 0
                            else old(gc.heap).Read(a))
      ensures gc.heap == WordsCleared(h1, false, old(ll.view), Restrict(old(ll.view), KeptLinks(old(ll.view), false)))
      ensures gc.heap.objs == old(gc.heap.objs) && gc.heap.blocks == old(gc.heap.blocks)
    {
      hide Collector.Quiet, Collector.Idle, Table.Valid, WordsCleared, Traced, AllKids, Enqueuing.Ok, Enqueuing.Moved,
           NoOrderSafe, Closed, RootsLand, AllKept, EntriesOk, ReachableSet, Certain, Uncertain;
      ghost var m1 := gc.marked;
      overflow, e, m3 := FinalizeEntries(memory);
      h1 := gc.heap;
      IdleHeap(gc);
      PruneLongLinks();
      TwiceCleared(old(gc.heap), old(dl.view), old(gc.marked), h1, old(ll.view), gc.marked, gc.heap,
                   old(KeptLinks(dl.view, false)), KeptLinks(old(ll.view), false));
      if !java {
        LinksCleared(h1, gc.roots, e, m1, old(ll.view), Restrict(old(ll.view), KeptLinks(old(ll.view), false)));
        gc.IdleIsQuiet();
      }
    }

    /** The queue is marked again by a collection whose roots hold it. */
    lemma ReadyAgain()
      requires gc.Quiet() && Tidy() && fo.Valid() && dl.Valid() && ll.Valid() && dl != ll && dl.head != ll.head
      requires (queue != [] ==> fo.head.Length > 0) && 0 !in gc.heap.names
      requires forall p :: 0 <= p < |queue| ==> IsRootTarget(gc.heap, gc.roots, queue[p].key)
      ensures Ready()
    {
    }

    /** With the marks closed, everything reachable from the queue is marked. */
    lemma QueueIsKept(o: nat)
      requires gc.Quiet() && forall p :: 0 <= p < |queue| ==> queue[p].key in gc.marked
      requires Reachable(gc.heap, gc.roots, Keys(queue), o)
      ensures o in gc.marked
    {
      hide Reachable;
      ClosedHoldsReachable(gc.heap, gc.roots, Keys(queue), gc.marked, o);
    }

    // ------------------------------------------------------------ registration

    method RegisterLink(tbl: Table<nat>, link: nat, obj: nat) returns (st: Status)
      requires tbl.Valid()
      modifies tbl, tbl.head
      ensures tbl.Valid() && (tbl.head == old(tbl.head) || fresh(tbl.head))
      ensures tbl.view == old(tbl.view)[link := obj] && st == if link in old(tbl.view) then Duplicate else Success
      ensures old(Ready()) && (tbl == dl || tbl == ll) ==> Ready()
    {
      hide EntriesOk, Table.Valid;
      tbl.MakeRoom();
      var found, p := tbl.Find(link);
      if found {
        tbl.SetAt(Hash(link, tbl.log), p, obj);
        return Duplicate;
      }
      tbl.Insert(link, obj);
      st := Success;
    }

    method UnregisterLink(tbl: Table<nat>, link: nat) returns (found: bool)
      requires tbl.Valid()
      modifies tbl`entries, tbl`view, tbl.head
      ensures tbl.Valid() && tbl.view == Minus(old(tbl.view), link) && found == (link in old(tbl.view))
      ensures old(Ready()) && (tbl == dl || tbl == ll) ==> Ready()
    {
      hide Table.Valid, Minus, Hash, EntriesOk;
      MinusNothing(tbl.view, link);
      if tbl.head.Length == 0 {
        tbl.EmptyTable();
        return false;
      }
      var p;
      found, p := tbl.Find(link);
      if found {
        tbl.RemoveAt(Hash(link, tbl.log), p);
      }
    }

    /** Moves an entry to another link, unless that one is registered already. */
    method MoveLink(tbl: Table<nat>, link: nat, newLink: nat) returns (st: Status)
      requires tbl.Valid()
      modifies tbl`entries, tbl`view, tbl.head
      ensures tbl.Valid()
      ensures st == if link !in old(tbl.view) then NotFound
                    else if link != newLink && newLink in old(tbl.view) then Duplicate else Success
      ensures tbl.view ==
        if st == Success && link != newLink then Minus(old(tbl.view), link)[newLink := old(tbl.view)[link]]
        else old(tbl.view)
      ensures old(Ready()) && (tbl == dl || tbl == ll) ==> Ready()
    {
      hide Table.Valid, EntriesOk;
      if tbl.head.Length == 0 {
        tbl.EmptyTable();
        return NotFound;
      }
      var found, p := tbl.Find(link);
      if !found {
        return NotFound;
      }
      if link == newLink {
        return Success;
      }
      var taken, q := tbl.Find(newLink);
      if taken {
        return Duplicate;
      }
      var obj := tbl.head[Hash(link, tbl.log)][p].val;
      tbl.RemoveAt(Hash(link, tbl.log), p);
      tbl.Insert(newLink, obj);
      st := Success;
    }

    /** Sets, changes or, if fn is 0, removes the finalizer of obj; returns the one it had. The tables
        stay ready for finalization unless obj is waiting in the queue to become unreachable. */
    method RegisterFinalizer(obj: nat, fn: nat, data: nat, size: nat, proc: MarkProc, inHeap: bool)
      returns (ofn: nat, odata: nat)
      requires fo.Valid()
      modifies fo, fo.head, this`needUnreachable
      ensures fo.Valid() && (fo.head == old(fo.head) || fresh(fo.head))
      ensures (ofn, odata) == if obj in old(fo.view) then (old(fo.view)[obj].fn, old(fo.view)[obj].data) else (0, 0)
      ensures fn != 0 && (obj in old(fo.view) || inHeap) ==>
        && obj in fo.view && fo.view[obj].fn == fn && fo.view[obj].data == data && fo.view[obj].proc == proc
        && fo.view[obj].size == (if obj in old(fo.view) then old(fo.view)[obj].size else size)
        && (if obj in old(fo.view) then fo.view[obj].hidden == old(fo.view)[obj].hidden else fo.view[obj].hidden)
      ensures fn == 0 || (obj !in old(fo.view) && !inHeap) ==> obj !in fo.view
      ensures forall k :: k != obj ==> (k in fo.view <==> k in old(fo.view))
      ensures forall k :: k != obj && k in fo.view ==> fo.view[k] == old(fo.view)[k]
      ensures old(AllHidden(fo.view)) ==> AllHidden(fo.view)
      ensures needUnreachable == (old(needUnreachable) || proc == Unreachable)
      ensures old(Ready()) && inHeap && obj in gc.heap.objs && !Waits(queue, obj) ==> Ready()
    {
      hide Table.Valid, AllHidden, AllRevealed, NoneUnreachable, Lonely, Waits, Registered;
      if Ready() && inHeap && obj in gc.heap.objs && !Waits(queue, obj) {
        RegisteredOk(fo.view, queue, obj, fn, data, size, proc);
      }
      if proc == Unreachable {
        needUnreachable := true;
      }
      RegisteredEntry(fo.view, obj, fn, data, size, proc, inHeap);
      ofn, odata := UpdateEntry(obj, fn, data, size, proc, inHeap);
    }

    /** The part of a registration that concerns the table. */
    method UpdateEntry(obj: nat, fn: nat, data: nat, size: nat, proc: MarkProc, inHeap: bool)
      returns (ofn: nat, odata: nat)
      requires fo.Valid()
      modifies fo, fo.head
      ensures fo.Valid() && (fo.head == old(fo.head) || fresh(fo.head)) && fo.head.Length > 0
      ensures (ofn, odata) == if obj in old(fo.view) then (old(fo.view)[obj].fn, old(fo.view)[obj].data) else (0, 0)
      ensures fo.view == Registered(old(fo.view), obj, fn, data, size, proc, inHeap)
    {
      hide Table.Valid;
      MinusNothing(fo.view, obj);
      fo.MakeRoom();
      ghost var v := fo.view;
      var i := Hash(obj, fo.log);
      var found, p := fo.Find(obj);
      if found {
        var curr := fo.head[i][p].val;
        ofn, odata := curr.fn, curr.data;
        if fn == 0 {
          fo.RemoveAt(i, p);
        } else {
          fo.SetAt(i, p, curr.(fn := fn, data := data, proc := proc));
        }
        return;
      }
      ofn, odata := 0, 0;
      if fn == 0 || !inHeap {
        return;
      }
      fo.Insert(obj, Fo(fn, data, size, proc, true));
    }

    /** Runs the finalizers of all queued objects, in the order of the queue. */
    method InvokeFinalizers() returns (count: nat, calls: seq<(nat, nat, nat)>)
      modifies this`queue
      ensures old(Ready()) ==> Ready()
      ensures queue == [] && count == |old(queue)| == |calls|
      ensures forall p :: 0 <= p < |calls| ==>
        calls[p] == (old(queue)[p].val.fn, old(queue)[p].key, old(queue)[p].val.data)
    {
      count, calls := 0, [];
      ghost var q := queue;
      while queue != []
        invariant count == |calls| <= |q| && queue == q[count..]
        invariant forall p :: 0 <= p < |calls| ==> calls[p] == (q[p].val.fn, q[p].key, q[p].val.data)
        decreases |queue|
      {
        var curr := queue[0];
        queue := queue[1..];
        calls := calls + [(curr.val.fn, curr.key, curr.val.data)];
        count := count + 1;
      }
    }
  }

  /** The table after a registration. */
  function Registered(view: map<nat, Fo>, obj: nat, fn: nat, data: nat, size: nat, proc: MarkProc, inHeap: bool):
    map<nat, Fo>
  {
    if fn == 0 then Minus(view, obj)
    else if obj in view then view[obj := view[obj].(fn := fn, data := data, proc := proc)]
    else if inHeap then view[obj := Fo(fn, data, size, proc, true)]
    else view
  }

  /** A registration gives obj exactly this finalizer, and leaves every other entry alone. */
  lemma RegisteredEntry(view: map<nat, Fo>, obj: nat, fn: nat, data: nat, size: nat, proc: MarkProc, inHeap: bool)
    ensures var view' := Registered(view, obj, fn, data, size, proc, inHeap);
      && (fn != 0 && (obj in view || inHeap) ==>
            obj in view' && view'[obj] == (if obj in view then Fo(fn, data, view[obj].size, proc, view[obj].hidden)
                                           else Fo(fn, data, size, proc, true)))
      && (fn == 0 || (obj !in view && !inHeap) ==> obj !in view')
      && (forall k :: k != obj ==> (k in view' <==> k in view))
      && (forall k :: k != obj && k in view' ==> view'[k] == view[k])
      && (AllHidden(view) ==> AllHidden(view'))
  {
  }

  /** A registration leaves entries hidden and the waiting objects alone. */
  lemma RegisteredOk(view: map<nat, Fo>, queue: seq<Item<Fo>>, obj: nat, fn: nat, data: nat, size: nat, proc: MarkProc)
    requires AllHidden(view) && Lonely(queue, view) && !Waits(queue, obj)
    ensures var view' := Registered(view, obj, fn, data, size, proc, true);
      && AllHidden(view') && Lonely(queue, view') && view'.Keys <= view.Keys + {obj}
      && (NoneUnreachable(view, queue) && proc != Unreachable ==> NoneUnreachable(view', queue))
  {
  }

  /** How far tracing from the finalizable objects of view has come. */
  datatype Trace = Trace(h: Heap, r: Roots, m0: set<nat>, view: map<nat, Fo>, seen: map<nat, Fo>) {
    ghost predicate Ok(heap: Heap, roots: Roots) {
      h == heap && r == roots && h.Valid() && m0 <= h.objs.Keys
    }

    ghost predicate Holds(m: set<nat>, overflow: bool) {
      m0 <= m && KidsMarked(h, seen, m0, m) && (!overflow ==> m <= Traced(h, r, view, m0))
    }

    ghost function See(e: Item<Fo>): Trace {
      Trace(h, r, m0, view, seen[e.key := e.val])
    }
  }

  /** More marks leave the collector idle. */
  twostate lemma StaysIdle(gc: Collector)
    requires old(gc.Idle()) && gc.marked <= gc.heap.objs.Keys
    requires gc.heap == old(gc.heap) && gc.roots == old(gc.roots) && gc.dirty == old(gc.dirty)
    requires gc.state == old(gc.state) && gc.top == old(gc.top) && gc.scanPtr == old(gc.scanPtr)
    requires gc.markStack == old(gc.markStack) && gc.tracked == old(gc.tracked)
    requires gc.rootsFresh == old(gc.rootsFresh) && gc.objectsAreMarked == old(gc.objectsAreMarked)
    ensures gc.Idle()
  {
  }

  lemma IdleHeap(gc: Collector)
    requires gc.Idle()
    ensures gc.heap.Valid()
  {
  }

  lemma TraceStart(gc: Collector, t: Trace)
    requires gc.Quiet() && t.h == gc.heap && t.r == gc.roots && t.m0 == gc.marked && t.seen == map[]
    ensures t.Ok(gc.heap, gc.roots) && t.Holds(gc.marked, false)
  {
    TracedClosed(t.h, t.r, t.view, t.m0);
  }

  lemma TraceEnd(gc: Collector, t: Trace, overflow: bool)
    requires gc.Quiet() && t.Ok(gc.heap, gc.roots) && t.Holds(gc.marked, overflow) && t.seen == t.view
    ensures t.m0 + AllKids(t.h, t.view, t.m0) <= gc.marked
    ensures !overflow ==> gc.marked == Traced(t.h, t.r, t.view, t.m0)
  {
    hide Heap.Valid, Closed, RootsLand, Traced, AllKids;
    AllTraced(t.h, t.r, t.view, t.m0, gc.marked);
  }

  const SIZEOF_FO: nat := 48

  function Bytes(l: seq<Item<Fo>>): nat {
    if l == [] then 0 else l[0].val.size + SIZEOF_FO + Bytes(l[1..])
  }

  lemma {:induction false} BytesAppend(q: seq<Item<Fo>>, r: seq<Item<Fo>>)
    ensures Bytes(q + r) == Bytes(q) + Bytes(r)
  {
    if q == [] {
      assert q + r == r;
    } else {
      BytesAppend(q[1..], r);
      assert (q + r)[1..] == q[1..] + r;
    }
  }

  lemma BytesWithout(q: seq<Item<Fo>>, p: nat)
    requires p < |q|
    ensures Bytes(q) == Bytes(q[..p] + q[p + 1..]) + q[p].val.size + SIZEOF_FO
  {
    BytesAppend(q[..p], q[p + 1..]);
    BytesAppend(q[..p], q[p..]);
    assert q == q[..p] + q[p..] && q[p..][1..] == q[p + 1..];
  }

  /** Entries that have been moved from a table with contents view0 to the front of queue0,
      because their objects were not in m. */
  datatype Enqueuing = Enqueuing(view0: map<nat, Fo>, queue0: seq<Item<Fo>>, m: set<nat>, added: seq<Item<Fo>>) {
    ghost predicate Ok(view: map<nat, Fo>, queue: seq<Item<Fo>>) {
      && queue == added + queue0 && Distinct(added)
      && (forall k :: k in view ==> k in view0 && view[k] == view0[k])
      && (forall k :: k in view0 ==> k in view || HasKey(added, k))
      && (forall p :: 0 <= p < |added| ==> && added[p].key in view0 && added[p].key !in view && added[p].key !in m
                                           && added[p].val == view0[added[p].key].(hidden := false))
    }

    /** Outside Java mode the moved objects are marked themselves. */
    ghost predicate Marks(java: bool, marked: set<nat>) {
      && m <= marked
      && forall k :: k in marked <==> k in m || (!java && HasKey(added, k))
    }

    function Add(curr: Item<Fo>): Enqueuing {
      Enqueuing(view0, queue0, m, [Item(curr.key, curr.val.(hidden := false))] + added)
    }

    lemma StillThere(view: map<nat, Fo>, queue: seq<Item<Fo>>, java: bool, marked: set<nat>, k: nat)
      requires Ok(view, queue) && Marks(java, marked) && k in view
      ensures !HasKey(added, k) && (k in marked <==> k in m)
    {
    }

    lemma AddOk(view: map<nat, Fo>, queue: seq<Item<Fo>>, curr: Item<Fo>)
      requires Ok(view, queue) && curr.key in view && curr.val == view[curr.key] && curr.key !in m
      ensures Add(curr).Ok(Minus(view, curr.key), [Item(curr.key, curr.val.(hidden := false))] + queue)
    {
      var n := Item(curr.key, curr.val.(hidden := false));
      forall k | k in view0 ensures k in Minus(view, curr.key) || HasKey([n] + added, k) {
        HasKeyCons(n, added, k);
      }
    }

    lemma SameMarks(marked: set<nat>)
      requires Marks(true, marked)
      ensures marked == m
    {
    }

    lemma QueueMarked(queue: seq<Item<Fo>>, marked: set<nat>, m1: set<nat>)
      requires queue == added + queue0 && Marks(false, marked) && m1 <= m
      requires forall p :: 0 <= p < |queue0| ==> queue0[p].key in m1
      ensures m <= marked
      ensures forall p :: 0 <= p < |queue| ==> queue[p].key in marked
    {
      forall p | 0 <= p < |queue| ensures queue[p].key in marked {
        if p < |added| {
          assert queue[p] == added[p];
          assert HasKey(added, added[p].key);
        } else {
          assert queue[p] == queue0[p - |added|];
        }
      }
    }

    /** Where the entries of view0 and queue0 are in the end. */
    ghost predicate Moved(java: bool, m3: set<nat>, view: map<nat, Fo>, queue: seq<Item<Fo>>) {
      if java then
        && queue == Survivors(added + queue0, m3)
        && view == Revived(Restrict(view0, m), added + queue0, m3)
      else queue == added + queue0 && view == Restrict(view0, m)
    }

    /** Outside Java mode all finalizable objects are marked in the end. */
    lemma AllMarked(marked: set<nat>)
      requires Ok(Restrict(view0, m), added + queue0) && Marks(false, marked)
      ensures marked == m + view0.Keys
    {
      NewlyQueued(this);
    }

    /** Outside Java mode the marks are closed exactly if what the unmarked objects of the table
        without ordering point to is marked or finalizable itself. */
    lemma EnqueuedClosed(h: Heap, r: Roots, m1: set<nat>)
      requires h.Valid() && Closed(h, m) && RootsLand(h, r, m) && m1 <= m && AllKids(h, view0, m1) <= m
      requires view0.Keys <= h.objs.Keys
      ensures Closed(h, m + view0.Keys) <==> NoOrderSafe(h, view0, m)
      ensures RootsLand(h, r, m + view0.Keys) && m + view0.Keys <= h.objs.Keys
    {
      var all := m + view0.Keys;
      forall x | x in all && NoOrderSafe(h, view0, m) ensures Targets(h, x) <= all {
        FinalTargets(h, m1, x);
      }
      forall x | x in view0 && Closed(h, all) ensures Targets(h, x) <= all {
        TargetsInClosed(h, x, all);
      }
      assert h.NamesOk();
      hide Heap.Valid, Targets, Kids, AllKids;
      forall x, a: nat | NoOrderSafe(h, view0, m) && x in all && h.WordOf(x, a) ensures Lands(h, h.Read(a), all) {
        if h.Read(a) in h.names { TargetIn(h, x, a); }
      }
    }

    lemma FinalTargets(h: Heap, m1: set<nat>, x: nat)
      requires Closed(h, m) && m1 <= m && AllKids(h, view0, m1) <= m && x in m + view0.Keys
      requires NoOrderSafe(h, view0, m)
      ensures Targets(h, x) <= m + view0.Keys
    {
      if x in m {
        TargetsInClosed(h, x, m);
      } else {
        assert Kids(h, x, view0[x].proc) <= AllKids(h, view0, m1);
      }
    }

    lemma ReadyToMark(h: Heap, m1: set<nat>, view: map<nat, Fo>, queue: seq<Item<Fo>>)
      requires m1 <= m && AllKids(h, view0, m1) <= m && Ok(view, queue) && view0.Keys <= h.objs.Keys
      requires forall p :: 0 <= p < |queue0| ==> queue0[p].key in m1 && queue0[p].key in h.objs
      ensures QueueReady(h, queue, m)
    {
      forall p | 0 <= p < |queue| ensures EntryReady(h, queue[p], m) {
        if p < |added| {
          assert queue[p] == added[p];
          assert Kids(h, added[p].key, view0[added[p].key].proc) <= AllKids(h, view0, m1);
        } else {
          assert queue[p] == queue0[p - |added|];
        }
      }
    }

    lemma LonelyStill(m1: set<nat>, view: map<nat, Fo>, queue: seq<Item<Fo>>)
      requires Ok(view, queue) && Lonely(queue0, view0) && m1 <= m
      requires forall p :: 0 <= p < |queue0| ==> queue0[p].key in m1
      ensures Lonely(queue, view)
      ensures NoneUnreachable(view0, queue0) ==> NoneUnreachable(view, queue)
      ensures queue != [] ==> queue0 != [] || view0 != map[]
    {
      forall p | 0 <= p < |queue| ensures queue[p] == if p < |added| then added[p] else queue0[p - |added|] {}
      if queue != [] && queue0 == [] { assert added[0].key in view0; }
    }

    lemma AddMarks(java: bool, marked: set<nat>, curr: Item<Fo>)
      requires Marks(java, marked)
      ensures Add(curr).Marks(java, if java then marked else marked + {curr.key})
    {
      forall k: nat ensures HasKey(Add(curr).added, k) <==> k == curr.key || HasKey(added, k) {
        HasKeyCons(Item(curr.key, curr.val.(hidden := false)), added, k);
      }
    }
  }

  lemma HasKeyCons<V>(x: Item<V>, c: seq<Item<V>>, k: nat)
    ensures HasKey([x] + c, k) <==> x.key == k || HasKey(c, k)
  {
    var r := [x] + c;
    if HasKey(r, k) && x.key != k {
      var p :| 0 <= p < |r| && r[p].key == k;
      assert c[p - 1].key == k;
    }
    if HasKey(c, k) {
      var p :| 0 <= p < |c| && c[p].key == k;
      assert r[p + 1].key == k;
    }
    assert r[0] == x;
  }

  /** The entries of the buckets below i, and those of done, have marked objects. */
  ghost predicate MarkedBelow<V>(view: map<nat, V>, log: nat, i: nat, done: seq<Item<V>>, m: set<nat>) {
    forall k :: k in view && (Hash(k, log) < i || (Hash(k, log) == i && HasKey(done, k))) ==> k in m
  }

  lemma FewerMarked<V>(view: map<nat, V>, log: nat, i: nat, done: seq<Item<V>>, m: set<nat>, k: nat)
    requires MarkedBelow(view, log, i, done, m)
    ensures MarkedBelow(Minus(view, k), log, i, done, m)
  {
  }

  lemma MarkedOne<V>(c: seq<Item<V>>, view: map<nat, V>, log: nat, i: nat, p: nat, m: set<nat>)
    requires p < |c| && MarkedBelow(view, log, i, c[..p], m) && c[p].key in m
    ensures MarkedBelow(view, log, i, c[..p + 1], m)
  {
    forall k | HasKey(c[..p + 1], k) && k != c[p].key ensures HasKey(c[..p], k) {
      var q :| 0 <= q < p + 1 && c[..p + 1][q].key == k;
      assert c[..p][q].key == k;
    }
  }

  lemma MarkedBucket<V>(c: seq<Item<V>>, view: map<nat, V>, log: nat, i: nat, m: set<nat>)
    requires Bucket(c, view, i, log) && MarkedBelow(view, log, i, c[..|c|], m)
    ensures MarkedBelow(view, log, i + 1, [], m)
  {
    assert c[..|c|] == c;
  }

  // ---------------------------------------------------------------- links

  function Restrict<V>(view: map<nat, V>, good: set<nat>): map<nat, V> {
    map k | k in view && k in good :: view[k]
  }

  /** view is what is left of l0; nothing in good has gone. */
  ghost predicate Pruned(l0: map<nat, nat>, view: map<nat, nat>, good: set<nat>) {
    && (forall k :: k in view ==> k in l0 && view[k] == l0[k])
    && (forall k :: k in l0 && k in good ==> k in view)
  }

  /** Unless only dangling links are removed, the words of the links that have gone are cleared. */
  ghost function WordsCleared(h: Heap, dangling: bool, l0: map<nat, nat>, view: map<nat, nat>): Heap {
    if dangling then h
    else h.(mem := map a | a in h.mem.Keys + (l0.Keys - view.Keys) :: if a in l0 && a !in view then 0 else h.mem[a])
  }

  /** Link a is registered, and its object is not marked. */
  predicate Dead(links: map<nat, nat>, m: set<nat>, a: nat) {
    a in links && links[a] !in m
  }

  /** Clearing the dead links of two tables leaves every other word as it was. */
  lemma TwiceCleared(h0: Heap, l1: map<nat, nat>, m1: set<nat>, h1: Heap, l2: map<nat, nat>, m2: set<nat>, h2: Heap,
                     kept1: set<nat>, kept2: set<nat>)
    requires h1 == WordsCleared(h0, false, l1, Restrict(l1, kept1))
    requires h2 == WordsCleared(h1, false, l2, Restrict(l2, kept2))
    requires forall k :: k in l1 ==> (k in kept1 <==> l1[k] in m1)
    requires forall k :: k in l2 ==> (k in kept2 <==> l2[k] in m2)
    ensures forall a: nat :: h2.Read(a) == (if Dead(l1, m1, a) || Dead(l2, m2, a) then 0 else h0.Read(a))
  {
    forall a: nat ensures h2.Read(a) == (if Dead(l1, m1, a) || Dead(l2, m2, a) then 0 else h0.Read(a)) {
      ClearedRead(h0, l1, m1, kept1, a);
      ClearedRead(h1, l2, m2, kept2, a);
    }
  }

  lemma ClearedRead(h: Heap, l: map<nat, nat>, m: set<nat>, kept: set<nat>, a: nat)
    requires a in l ==> (a in kept <==> l[a] in m)
    ensures WordsCleared(h, false, l, Restrict(l, kept)).Read(a) == if Dead(l, m, a) then 0 else h.Read(a)
  {
  }

  lemma DanglingClearsNothing(h: Heap, l0: map<nat, nat>, view: map<nat, nat>)
    ensures WordsCleared(h, true, l0, view) == h
  {
  }

  lemma ClearedSame(h: Heap, l0: map<nat, nat>, view: map<nat, nat>)
    ensures var h' := WordsCleared(h, false, l0, view);
      && h' == h.(mem := h'.mem)
      && forall a: nat :: h'.Read(a) == h.Read(a) || h'.Read(a) == 0
  {
  }

  lemma ClearedValid(h: Heap, l0: map<nat, nat>, view: map<nat, nat>)
    requires h.Valid()
    ensures WordsCleared(h, false, l0, view).Valid()
  {
    ClearedSame(h, l0, view);
    hide WordsCleared;
    var h' := WordsCleared(h, false, l0, view);
    forall o, a | h'.WordOf(o, a) ensures h'.objs[o] <= PageOf(a) < h'.objs[o] + h'.blocks[h'.objs[o]].span {
      assert h.WordOf(o, a);
    }
  }

  /** Clearing words takes no object's marks away and leaves no new pointer behind. */
  lemma ClearedStaysClosed(h: Heap, r: Roots, m: set<nat>, l0: map<nat, nat>, view: map<nat, nat>)
    requires h.Valid() && 0 !in h.names && Closed(h, m) && RootsLand(h, r, m)
    ensures WordsCleared(h, false, l0, view).Valid() && 0 !in WordsCleared(h, false, l0, view).names
    ensures Closed(WordsCleared(h, false, l0, view), m) && RootsLand(WordsCleared(h, false, l0, view), r, m)
    ensures WordsCleared(h, false, l0, view).objs == h.objs
  {
    ClearedValid(h, l0, view);
    ClearedSame(h, l0, view);
    hide WordsCleared, Heap.Valid;
    var h' := WordsCleared(h, false, l0, view);
    forall o, a | o in m && h'.WordOf(o, a) ensures Lands(h', h'.Read(a), m) {
      assert h.WordOf(o, a);
      assert Lands(h, h.Read(a), m);
    }
  }

  lemma PrunedAt(l0: map<nat, nat>, view: map<nat, nat>, good: set<nat>, k: nat)
    requires Pruned(l0, view, good) && k in view
    ensures k in l0 && view[k] == l0[k]
  {
  }

  lemma PrunedMore(l0: map<nat, nat>, view: map<nat, nat>, good: set<nat>, k: nat)
    requires Pruned(l0, view, good) && k !in good
    ensures Pruned(l0, Minus(view, k), good)
  {
  }

  lemma ClearedMore(h: Heap, dangling: bool, l0: map<nat, nat>, view: map<nat, nat>, good: set<nat>, k: nat)
    requires Pruned(l0, view, good) && k in view
    ensures WordsCleared(h, dangling, l0, Minus(view, k)) ==
      (if dangling then WordsCleared(h, dangling, l0, view)
       else WordsCleared(h, dangling, l0, view).(mem := WordsCleared(h, dangling, l0, view).mem[k := 0]))
  {
    if !dangling {
      var a, b := WordsCleared(h, dangling, l0, Minus(view, k)).mem, WordsCleared(h, dangling, l0, view).mem[k := 0];
      assert a == b;
    }
  }

  lemma NothingCleared(h: Heap, dangling: bool, l0: map<nat, nat>)
    ensures WordsCleared(h, dangling, l0, l0) == h
  {
    assert WordsCleared(h, false, l0, l0).mem == h.mem;
  }

  lemma AllPruned(l0: map<nat, nat>, view: map<nat, nat>, good: set<nat>, log: nat, n: nat)
    requires Pruned(l0, view, good) && MarkedBelow(view, log, n, [], good) && (n == Pow2(log) || view == map[])
    ensures view == Restrict(l0, good)
  {
    forall k | k in view ensures k in good {}
  }

  // ---------------------------------------------------------------- the queue

  /** A queued object is an object of the heap; if it is still unmarked, all that its mark
      procedure leads to is marked. */
  ghost predicate EntryReady(h: Heap, e: Item<Fo>, m: set<nat>) {
    e.key in h.objs && (e.key !in m ==> Kids(h, e.key, e.val.proc) <= m)
  }

  ghost predicate QueueReady(h: Heap, queue: seq<Item<Fo>>, m: set<nat>) {
    forall p :: 0 <= p < |queue| ==> EntryReady(h, queue[p], m)
  }

  lemma ReadyMore(h: Heap, queue: seq<Item<Fo>>, m: set<nat>, m': set<nat>)
    requires QueueReady(h, queue, m) && m <= m'
    ensures QueueReady(h, queue, m')
  {
    hide Kids;
    forall p | 0 <= p < |queue| ensures EntryReady(h, queue[p], m') { assert EntryReady(h, queue[p], m); }
  }

  lemma ReadyTargets(h: Heap, queue: seq<Item<Fo>>, m: set<nat>, p: nat)
    requires QueueReady(h, queue, m) && p < |queue| && queue[p].val.proc == Unreachable && queue[p].key !in m
    ensures queue[p].key in h.objs && Targets(h, queue[p].key) <= m
  {
    assert EntryReady(h, queue[p], m);
  }

  lemma ClosedWith(h: Heap, m: set<nat>, o: nat)
    requires h.NamesOk() && Closed(h, m) && o in h.objs && Targets(h, o) <= m + {o}
    ensures Closed(h, m + {o})
  {
    forall x, a | x in m + {o} && h.WordOf(x, a) ensures Lands(h, h.Read(a), m + {o}) {
      if h.Read(a) in h.names {
        TargetIn(h, x, a);
        if x in m { TargetsInClosed(h, x, m); }
      }
    }
  }

  /** Sets one mark bit; everything the object points to is marked already. */
  method SetMark(gc: Collector, o: nat)
    requires gc.Quiet() && o in gc.heap.objs && Targets(gc.heap, o) <= gc.marked + {o}
    modifies gc`marked
    ensures gc.Quiet() && gc.marked == old(gc.marked) + {o}
  {
    ClosedWith(gc.heap, gc.marked, o);
    gc.marked := gc.marked + {o};
  }

  /** The queued objects that are to be finalized in any case. */
  ghost function Certain(q: seq<Item<Fo>>): set<nat> {
    set p | 0 <= p < |q| && q[p].val.proc != Unreachable :: q[p].key
  }

  /** The queued objects that are to be finalized only when unreachable. */
  ghost function Uncertain(q: seq<Item<Fo>>): set<nat> {
    set p | 0 <= p < |q| && q[p].val.proc == Unreachable :: q[p].key
  }

  lemma OnlyUncertain(q: seq<Item<Fo>>, m: set<nat>, m': set<nat>)
    requires m <= m' && MarkedSince(m, m', q[..|q|])
    requires forall p :: 0 <= p < |q| && q[p].val.proc == Unreachable ==> q[p].key in m'
    ensures m' == m + Uncertain(q)
  {
    assert q[..|q|] == q;
    forall k | k in m' && k !in m ensures k in Uncertain(q) {
      var p :| 0 <= p < |q| && q[p].val.proc == Unreachable && q[p].key == k;
    }
  }

  /** Exactly the entries of reachable objects that were to be finalized when unreachable have left
      the queue for the table. */
  lemma {:induction false} RevivalMeans(view: map<nat, Fo>, q: seq<Item<Fo>>, m: set<nat>)
    ensures forall x :: x in Survivors(q, m) <==> x in q && !(x.val.proc == Unreachable && x.key in m)
    ensures forall k :: k in Revived(view, q, m) <==>
      k in view || exists x :: x in q && x.key == k && x.val.proc == Unreachable && k in m
    decreases |q|
  {
    if q != [] {
      var view1 := if Goes(q[0], m) then view[q[0].key := q[0].val.(hidden := true)] else view;
      RevivalMeans(view1, q[1..], m);
      forall x ensures x in q <==> x == q[0] || x in q[1..] {}
    }
  }

  lemma QueueCloses(gc: Collector, queue: seq<Item<Fo>>)
    requires gc.Quiet() && QueueReady(gc.heap, queue, gc.marked)
    ensures var k := ReachableSet(gc.heap, gc.roots, gc.marked + Certain(queue));
      Closed(gc.heap, k) && RootsLand(gc.heap, gc.roots, k) && gc.marked + Certain(queue) <= k
    ensures forall p :: 0 <= p < |queue| && queue[p].val.proc != Unreachable ==> queue[p].key in Certain(queue)
  {
    assert gc.heap.Valid() && gc.marked <= gc.heap.objs.Keys;
    forall o | o in Certain(queue) ensures o in gc.heap.objs {
      var p :| 0 <= p < |queue| && queue[p].key == o;
      assert EntryReady(gc.heap, queue[p], gc.marked);
    }
    ReachableSetClosed(gc.heap, gc.roots, gc.marked + Certain(queue));
  }

  ghost predicate Goes(e: Item<Fo>, m: set<nat>) {
    e.val.proc == Unreachable && e.key in m
  }

  /** The queue without the revived entries. */
  ghost function Survivors(q: seq<Item<Fo>>, m: set<nat>): seq<Item<Fo>> {
    if q == [] then []
    else (if Goes(q[0], m) then [] else [q[0]]) + Survivors(q[1..], m)
  }

  /** The table with the revived entries, hidden again. */
  ghost function Revived(view: map<nat, Fo>, q: seq<Item<Fo>>, m: set<nat>): map<nat, Fo>
    decreases |q|
  {
    if q == [] then view
    else Revived(if Goes(q[0], m) then view[q[0].key := q[0].val.(hidden := true)] else view, q[1..], m)
  }

  /** An object that is queued to be finalized when unreachable is not in the table and not
      queued twice. */
  ghost predicate Lonely(q: seq<Item<Fo>>, view: map<nat, Fo>) {
    && (forall p :: 0 <= p < |q| && q[p].val.proc == Unreachable ==> q[p].key !in view)
    && (forall p, r :: 0 <= p < r < |q| && q[p].val.proc == Unreachable && q[r].val.proc == Unreachable ==>
        q[p].key != q[r].key)
  }

  ghost predicate Waits(done: seq<Item<Fo>>, k: nat) {
    exists p :: 0 <= p < |done| && done[p].val.proc == Unreachable && done[p].key == k
  }

  /** What has been marked since m are objects of done that wait to become unreachable. */
  ghost predicate MarkedSince(m: set<nat>, m': set<nat>, done: seq<Item<Fo>>) {
    forall k :: k in m' && k !in m ==> Waits(done, k)
  }

  lemma NothingMarked(m: set<nat>, done: seq<Item<Fo>>)
    ensures MarkedSince(m, m, done)
  {
  }

  lemma QueueDone(view: map<nat, Fo>, q: seq<Item<Fo>>, p: nat, m: set<nat>)
    requires p == |q|
    ensures q[..p] + Survivors(q[p..], m) == q && Revived(view, q[p..], m) == view
  {
  }

  lemma StepQueue(view: map<nat, Fo>, q: seq<Item<Fo>>, p: nat, m: set<nat>)
    requires p < |q|
    ensures Survivors(q[p..], m) == (if Goes(q[p], m) then [] else [q[p]]) + Survivors(q[p + 1..], m)
    ensures Revived(view, q[p..], m) ==
      Revived(if Goes(q[p], m) then view[q[p].key := q[p].val.(hidden := true)] else view, q[p + 1..], m)
    ensures !Goes(q[p], m) ==> q[..p] + Survivors(q[p..], m) == q[..p + 1] + Survivors(q[p + 1..], m)
    ensures Goes(q[p], m) ==> q[..p] + Survivors(q[p..], m) == q[..p] + Survivors(q[p + 1..], m)
  {
    assert q[p..][1..] == q[p + 1..];
    assert q[..p + 1] == q[..p] + [q[p]];
  }

  lemma WaitsMore(q: seq<Item<Fo>>, p: nat, k: nat)
    requires p < |q|
    ensures Waits(q[..p + 1], k) <==> Waits(q[..p], k) || (q[p].val.proc == Unreachable && q[p].key == k)
  {
    if Waits(q[..p], k) {
      var r :| 0 <= r < p && q[..p][r].val.proc == Unreachable && q[..p][r].key == k;
      assert q[..p + 1][r] == q[r];
    }
    if Waits(q[..p + 1], k) && !(q[p].val.proc == Unreachable && q[p].key == k) {
      var r :| 0 <= r < p + 1 && q[..p + 1][r].val.proc == Unreachable && q[..p + 1][r].key == k;
      assert q[..p][r] == q[r];
    }
    assert q[..p + 1][p] == q[p];
  }

  lemma FreshKey(q: seq<Item<Fo>>, p: nat, m: set<nat>, m': set<nat>, view: map<nat, Fo>)
    requires p < |q| && Lonely(q, view) && MarkedSince(m, m', q[..p])
    ensures q[p].val.proc == Unreachable ==> q[p].key !in view && (q[p].key in m' ==> q[p].key in m)
    ensures q[p].val.proc == Unreachable ==> MarkedSince(m, m' + {q[p].key}, q[..p + 1])
    ensures MarkedSince(m, m', q[..p + 1])
  {
    forall k: nat
      ensures Waits(q[..p + 1], k) <==> Waits(q[..p], k) || (q[p].val.proc == Unreachable && q[p].key == k)
    {
      WaitsMore(q, p, k);
    }
  }

  /** Moving the p-th entry back to the table leaves no other entry of its object behind. */
  lemma LonelyWithout(q: seq<Item<Fo>>, p: nat, view: map<nat, Fo>, h: Heap, m: set<nat>, v: Fo)
    requires p < |q| && q[p].val.proc == Unreachable && QueueReady(h, q, m) && Lonely(q, view)
    ensures Lonely(q[..p] + q[p + 1..], view[q[p].key := v]) && QueueReady(h, q[..p] + q[p + 1..], m)
  {
    var q' := q[..p] + q[p + 1..];
    forall r | 0 <= r < |q'| ensures q'[r] == q[if r < p then r else r + 1] {}
    hide EntryReady;
  }

  ghost predicate AllHidden(view: map<nat, Fo>) {
    forall k :: k in view ==> view[k].hidden
  }

  ghost predicate AllRevealed(q: seq<Item<Fo>>) {
    forall p :: 0 <= p < |q| ==> !q[p].val.hidden
  }

  ghost predicate NoneUnreachable(view: map<nat, Fo>, q: seq<Item<Fo>>) {
    && (forall k :: k in view ==> view[k].proc != Unreachable)
    && (forall p :: 0 <= p < |q| ==> q[p].val.proc != Unreachable)
  }

  /** What an unmarked object registered without ordering points to is marked or registered too. */
  ghost predicate NoOrderSafe(h: Heap, view: map<nat, Fo>, m: set<nat>) {
    forall o :: o in view && o !in m && view[o].proc == NoOrder ==> Targets(h, o) <= m + view.Keys
  }

  function ExampleHeap(): Heap {
    Heap(map[1 := Block(1, 2, false, [512, 514])], map[512 := 1, 514 := 1], map[4096 := 512, 4112 := 514],
         map[512 := 4112], 4096, 8192)
  }

  function ExampleTable(): map<nat, Fo> {
    map[512 := Fo(1, 0, 0, NoOrder, true)]
  }

  /** An unsafe table is possible: of two objects that nothing reaches, the one at word 512 is
      registered without ordering and points to the other. Tracing marks neither. Finalization
      then marks the first, so that the marks are no longer closed. */
  lemma NoOrderExample()
    ensures var h, view, none, m := ExampleHeap(), ExampleTable(), Roots([], []), {512};
      && h.Valid() && Closed(h, {}) && RootsLand(h, none, {}) && AllHidden(view) && view.Keys <= h.objs.Keys
      && Traced(h, none, view, {}) == {}
      && !NoOrderSafe(h, view, Traced(h, none, view, {})) && !Closed(h, {} + view.Keys)
  {
    var h, view, none: set<nat> := ExampleHeap(), ExampleTable(), {};
    ExampleValid();
    ExamplePointer();
    hide ExampleHeap, Closed, Heap.Valid;
    assert Kids(h, 512, NoOrder) == {};
    assert AllKids(h, view, none) == {};
    assert none + AllKids(h, view, none) == none;
    ReachableLeast(h, Roots([], []), none, none);
    if Closed(h, none + view.Keys) { TargetsInClosed(h, 512, none + view.Keys); }
  }

  lemma ExampleValid()
    ensures ExampleHeap().Valid() && Closed(ExampleHeap(), {}) && ExampleHeap().objs.Keys == {512, 514}
  {
  }

  lemma ExamplePointer()
    ensures 514 in Targets(ExampleHeap(), 512)
  {
    var h := ExampleHeap();
    assert h.WordOf(512, 512) && h.Read(512) == 4112 && Names(h, 4112, 514);
    assert Points(h, 512, 514);
  }

  // ---------------------------------------------------------------- where entries end up

  /** No entry is lost: each is in the table, hidden, or in the queue, revealed. */
  ghost predicate AllKept(view: map<nat, Fo>, queue: seq<Item<Fo>>, view': map<nat, Fo>, queue': seq<Item<Fo>>) {
    && (forall k :: k in view ==> (k in view' && view'[k] == view[k]) || Item(k, view[k].(hidden := false)) in queue')
    && (forall p :: 0 <= p < |queue| ==>
          queue[p] in queue' || (queue[p].key in view' && view'[queue[p].key] == queue[p].val.(hidden := true)))
  }

  /** The table holds nothing after revival but what it held before and what has been revived. */
  lemma {:induction false} RevivedKeys(view: map<nat, Fo>, q: seq<Item<Fo>>, m: set<nat>, k: nat)
    requires k in Revived(view, q, m)
    ensures k in view || exists p :: 0 <= p < |q| && q[p].key == k && Goes(q[p], m)
    decreases |q|
  {
    if q != [] {
      var view1 := if Goes(q[0], m) then view[q[0].key := q[0].val.(hidden := true)] else view;
      RevivedKeys(view1, q[1..], m, k);
      if k !in view1 {
        var p :| 0 <= p < |q[1..]| && q[1..][p].key == k && Goes(q[1..][p], m);
        assert q[p + 1].key == k && Goes(q[p + 1], m);
      } else if k !in view {
        assert q[0].key == k && Goes(q[0], m);
      }
    }
  }

  /** After revival, too, an object queued to be finalized when unreachable is in one place only. */
  lemma {:induction false} LonelySurvives(view: map<nat, Fo>, q: seq<Item<Fo>>, m: set<nat>)
    requires Lonely(q, view)
    ensures Lonely(Survivors(q, m), Revived(view, q, m))
    decreases |q|
  {
    if q != [] {
      var view1 := if Goes(q[0], m) then view[q[0].key := q[0].val.(hidden := true)] else view;
      LonelySurvives(view1, q[1..], m);
      if !Goes(q[0], m) && q[0].val.proc == Unreachable {
        if q[0].key in Revived(view1, q[1..], m) { RevivedKeys(view1, q[1..], m, q[0].key); }
        SurvivorsAreOld(q[1..], m);
        LonelyCons(q, Survivors(q[1..], m), Revived(view, q, m));
      }
    }
  }

  lemma LonelyCons(q: seq<Item<Fo>>, rest: seq<Item<Fo>>, view: map<nat, Fo>)
    requires q != [] && Lonely(rest, view) && q[0].key !in view && Lonely(q, map[])
    requires forall p :: 0 <= p < |rest| ==> rest[p] in q[1..]
    ensures q[0].val.proc == Unreachable ==> Lonely([q[0]] + rest, view)
  {
    var s := [q[0]] + rest;
    forall p, r | 0 <= p < r < |s| && s[p].val.proc == Unreachable && s[r].val.proc == Unreachable
      ensures s[p].key != s[r].key
    {
      assert s[r] == rest[r - 1];
      if p == 0 {
        var t :| 0 <= t < |q[1..]| && q[1..][t] == rest[r - 1];
        assert q[t + 1] == rest[r - 1];
      } else {
        assert s[p] == rest[p - 1];
      }
    }
  }

  /** Where each entry is after finalization: the entries of objects that tracing has not reached
      are queued as they were registered, but revealed; in Java mode those to be finalized when
      unreachable go back if their objects turn out to be reachable from the others. */
  lemma WhereEntriesGo(e: Enqueuing, java: bool, m3: set<nat>, view: map<nat, Fo>, queue: seq<Item<Fo>>)
    requires e.Ok(Restrict(e.view0, e.m), e.added + e.queue0) && e.Moved(java, m3, view, queue)
    ensures forall x :: x in queue <==>
      && (x in e.queue0 || (x.key in e.view0 && x.key !in e.m && x.val == e.view0[x.key].(hidden := false)))
      && !(java && x.val.proc == Unreachable && x.key in m3)
    ensures forall k :: k in view <==>
      || (k in e.view0 && k in e.m)
      || (java && k in m3 && exists x :: x in e.added + e.queue0 && x.key == k && x.val.proc == Unreachable)
  {
    var v, q := Restrict(e.view0, e.m), e.added + e.queue0;
    forall x
      ensures x in q <==>
        x in e.queue0 || (x.key in e.view0 && x.key !in e.m && x.val == e.view0[x.key].(hidden := false))
    {
      QueuedItem(e, x);
    }
    if java { RevivalMeans(v, q, m3); }
    hide Enqueuing.Ok, Survivors, Revived;
  }

  lemma QueuedItem(e: Enqueuing, x: Item<Fo>)
    requires e.Ok(Restrict(e.view0, e.m), e.added + e.queue0)
    ensures x in e.added + e.queue0 <==>
      x in e.queue0 || (x.key in e.view0 && x.key !in e.m && x.val == e.view0[x.key].(hidden := false))
  {
    if x.key in e.view0 && x.key !in e.m {
      assert x.key !in Restrict(e.view0, e.m);
      var p :| 0 <= p < |e.added| && e.added[p].key == x.key;
      assert (e.added + e.queue0)[p] == e.added[p];
    }
  }

  /** What finalization has done to the entries as a whole. */
  lemma FinalEntries(e: Enqueuing, java: bool, m1: set<nat>, m3: set<nat>, view: map<nat, Fo>, queue: seq<Item<Fo>>,
                     objs: set<nat>)
    requires e.Ok(Restrict(e.view0, e.m), e.added + e.queue0) && e.Moved(java, m3, view, queue) && m1 <= e.m <= m3
    requires AllHidden(e.view0) && AllRevealed(e.queue0) && Lonely(e.queue0, e.view0) && e.view0.Keys <= objs
    requires forall p :: 0 <= p < |e.queue0| ==> e.queue0[p].key in m1 && e.queue0[p].key in objs
    ensures AllHidden(view) && AllRevealed(queue) && Lonely(queue, view) && |view| + |queue| == |e.view0| + |e.queue0|
    ensures AllKept(e.view0, e.queue0, view, queue)
    ensures view.Keys <= objs && view.Keys <= m3 && forall p :: 0 <= p < |queue| ==> queue[p].key in objs
    ensures NoneUnreachable(e.view0, e.queue0) ==> NoneUnreachable(view, queue)
    ensures queue != [] ==> e.queue0 != [] || e.view0 != map[]
  {
    var v, q := Restrict(e.view0, e.m), e.added + e.queue0;
    QueueingConserves(e, m1);
    e.LonelyStill(m1, v, q);
    QueuedAreObjects(e, objs);
    QueuedAreKept(e);
    hide Enqueuing.Ok, Lonely, AllHidden, AllRevealed, Restrict, NoneUnreachable, AllKept, Survivors, Revived;
    if java {
      RevivalConserves(v, q, m3);
      LonelySurvives(v, q, m3);
      SurvivorsAreOld(q, m3);
      forall k | k in view ensures k in objs && k in m3 { RevivedKeys(v, q, m3, k); RestrictedKeys(e.view0, e.m); }
      RevivedAreKept(v, q, m3, e.view0, e.queue0);
      if NoneUnreachable(v, q) { NothingRevived(v, q, m3); }
    } else {
      RestrictedKeys(e.view0, e.m);
    }
  }

  lemma RestrictedKeys<V>(view: map<nat, V>, m: set<nat>)
    ensures Restrict(view, m).Keys <= view.Keys && Restrict(view, m).Keys <= m
  {
  }

  lemma NothingRevived(view: map<nat, Fo>, q: seq<Item<Fo>>, m: set<nat>)
    requires NoneUnreachable(view, q)
    ensures Survivors(q, m) == q && Revived(view, q, m) == view
  {
    NoRevival(view, q, m);
  }

  lemma QueuedAreObjects(e: Enqueuing, objs: set<nat>)
    requires e.Ok(Restrict(e.view0, e.m), e.added + e.queue0) && e.view0.Keys <= objs
    requires forall p :: 0 <= p < |e.queue0| ==> e.queue0[p].key in objs
    ensures forall p :: 0 <= p < |e.added + e.queue0| ==> (e.added + e.queue0)[p].key in objs
  {
  }

  lemma QueuedAreKept(e: Enqueuing)
    requires e.Ok(Restrict(e.view0, e.m), e.added + e.queue0)
    ensures AllKept(e.view0, e.queue0, Restrict(e.view0, e.m), e.added + e.queue0)
  {
    var q := e.added + e.queue0;
    forall k | k in e.view0 && k !in e.m ensures Item(k, e.view0[k].(hidden := false)) in q {
      assert k !in Restrict(e.view0, e.m);
      var p :| 0 <= p < |e.added| && e.added[p].key == k;
      assert q[p] == Item(k, e.view0[k].(hidden := false));
    }
    forall p | 0 <= p < |e.queue0| ensures e.queue0[p] in q { assert q[|e.added| + p] == e.queue0[p]; }
  }

  lemma RevivedAreKept(view: map<nat, Fo>, q: seq<Item<Fo>>, m: set<nat>, view0: map<nat, Fo>, queue0: seq<Item<Fo>>)
    requires Lonely(q, view) && AllHidden(view) && AllRevealed(q) && AllHidden(view0) && AllKept(view0, queue0, view, q)
    ensures AllKept(view0, queue0, Revived(view, q, m), Survivors(q, m))
  {
    RevivalConserves(view, q, m);
    var view', q' := Revived(view, q, m), Survivors(q, m);
    forall x: Item<Fo> | x in q
      ensures x in q' || (x.key in view' && view'[x.key] == x.val.(hidden := true))
    {
      var p :| 0 <= p < |q| && q[p] == x;
    }
    hide Lonely, Survivors, Revived;
    forall k | k in view0
      ensures (k in view' && view'[k] == view0[k]) || Item(k, view0[k].(hidden := false)) in q'
    {
      if !(k in view && view[k] == view0[k]) {
        var x := Item(k, view0[k].(hidden := false));
        assert x in q;
        assert x.val.(hidden := true) == view0[k];
      }
    }
  }

  /** Clearing the words of long links does not change when the marks are closed. */
  lemma LinksCleared(h: Heap, r: Roots, e: Enqueuing, m1: set<nat>, l0: map<nat, nat>, view: map<nat, nat>)
    requires h.Valid() && 0 !in h.names && Closed(h, e.m) && RootsLand(h, r, e.m)
    requires m1 <= e.m && AllKids(h, e.view0, m1) <= e.m && e.view0.Keys <= h.objs.Keys
    ensures var h' := WordsCleared(h, false, l0, view);
      && (Closed(h', e.m + e.view0.Keys) <==> NoOrderSafe(h', e.view0, e.m))
      && RootsLand(h', r, e.m + e.view0.Keys)
  {
    var h' := WordsCleared(h, false, l0, view);
    ClearedStaysClosed(h, r, e.m, l0, view);
    ClearedSame(h, l0, view);
    hide WordsCleared, Heap.Valid, Closed, RootsLand, NoOrderSafe;
    FewerKids(h, h', e.view0, m1);
    e.EnqueuedClosed(h', r, m1);
  }

  lemma FewerKids(h: Heap, h': Heap, view: map<nat, Fo>, m: set<nat>)
    requires h'.objs == h.objs && h'.names == h.names && h'.blocks == h.blocks && 0 !in h.names
    requires forall a: nat :: h'.Read(a) == h.Read(a) || h'.Read(a) == 0
    ensures AllKids(h', view, m) <= AllKids(h, view, m)
  {
    forall o, t | t in Targets(h', o) ensures t in Targets(h, o) { FewerTargets(h, h', o, t); }
    hide Targets;
    forall t | t in AllKids(h', view, m) ensures t in AllKids(h, view, m) {
      var o :| o in view && o !in m && t in Kids(h', o, view[o].proc);
      assert t in Kids(h, o, view[o].proc);
    }
  }

  lemma FewerTargets(h: Heap, h': Heap, o: nat, t: nat)
    requires h'.objs == h.objs && h'.names == h.names && h'.blocks == h.blocks && 0 !in h.names
    requires forall a: nat :: h'.Read(a) == h.Read(a) || h'.Read(a) == 0
    requires t in Targets(h', o)
    ensures t in Targets(h, o)
  {
    var a: nat :| h'.WordOf(o, a) && Names(h', h'.Read(a), t);
    assert h.WordOf(o, a) && Names(h, h.Read(a), t);
  }

  lemma {:induction false} NoRevival(view: map<nat, Fo>, q: seq<Item<Fo>>, m: set<nat>)
    requires forall p :: 0 <= p < |q| ==> q[p].val.proc != Unreachable
    ensures Survivors(q, m) == q && Revived(view, q, m) == view
  {
    if q != [] { NoRevival(view, q[1..], m); }
  }

  lemma {:induction false} SurvivorsAreOld(q: seq<Item<Fo>>, m: set<nat>)
    ensures forall p :: 0 <= p < |Survivors(q, m)| ==> Survivors(q, m)[p] in q
  {
    if q != [] { SurvivorsAreOld(q[1..], m); }
  }

  datatype Status = Success | Duplicate | NotFound

  lemma MinusNothing<V>(view: map<nat, V>, k: nat)
    ensures k !in view ==> Minus(view, k) == view
  {
  }

  ghost function Keys(q: seq<Item<Fo>>): set<nat> {
    set p | 0 <= p < |q| :: q[p].key
  }

  /** Exactly the finalizable objects outside m have been queued. */
  lemma NewlyQueued(e: Enqueuing)
    requires e.Ok(Restrict(e.view0, e.m), e.added + e.queue0)
    ensures forall k :: HasKey(e.added, k) <==> k in e.view0 && k !in e.m
  {
    forall k | k in e.view0 && k !in e.m ensures HasKey(e.added, k) {
      assert k !in Restrict(e.view0, e.m);
    }
  }

  /** Revival moves entries from the queue to the table and loses none: each is in one of the two,
      hidden in the table only. */
  lemma {:induction false} RevivalConserves(view: map<nat, Fo>, q: seq<Item<Fo>>, m: set<nat>)
    requires Lonely(q, view) && AllHidden(view) && AllRevealed(q)
    ensures |Revived(view, q, m)| + |Survivors(q, m)| == |view| + |q|
    ensures AllHidden(Revived(view, q, m)) && AllRevealed(Survivors(q, m))
    ensures forall p :: 0 <= p < |q| ==>
      if Goes(q[p], m) then
        q[p].key in Revived(view, q, m) && Revived(view, q, m)[q[p].key] == q[p].val.(hidden := true)
      else q[p] in Survivors(q, m)
    ensures forall k :: k in view ==> k in Revived(view, q, m) && Revived(view, q, m)[k] == view[k]
    decreases |q|
  {
    if q != [] {
      var view1 := if Goes(q[0], m) then view[q[0].key := q[0].val.(hidden := true)] else view;
      if Goes(q[0], m) { PlusSize(view, q[0].key, q[0].val.(hidden := true)); }
      RevivalConserves(view1, q[1..], m);
    }
  }

  lemma {:induction false} DistinctSize(c: seq<Item<Fo>>)
    requires Distinct(c)
    ensures |Keys(c)| == |c|
  {
    if c != [] {
      DistinctSize(c[1..]);
      KeysCons(c);
      assert c[0].key !in Keys(c[1..]);
    }
  }

  lemma KeysCons(c: seq<Item<Fo>>)
    requires c != []
    ensures Keys(c) == Keys(c[1..]) + {c[0].key}
  {
    forall k | k in Keys(c) ensures k in Keys(c[1..]) + {c[0].key} {
      var p :| 0 <= p < |c| && c[p].key == k;
      if p > 0 { assert c[1..][p - 1].key == k; }
    }
    forall k | k in Keys(c[1..]) ensures k in Keys(c) {
      var p :| 0 <= p < |c[1..]| && c[1..][p].key == k;
      assert c[p + 1].key == k;
    }
  }

  /** Queueing moves entries from the table to the queue and loses none; what is in the table is
      hidden and what is queued is not. */
  lemma QueueingConserves(e: Enqueuing, m1: set<nat>)
    requires e.Ok(Restrict(e.view0, e.m), e.added + e.queue0) && m1 <= e.m
    requires AllHidden(e.view0) && AllRevealed(e.queue0) && Lonely(e.queue0, e.view0)
    requires forall p :: 0 <= p < |e.queue0| ==> e.queue0[p].key in m1
    ensures |Restrict(e.view0, e.m)| + |e.added| == |e.view0|
    ensures AllHidden(Restrict(e.view0, e.m)) && AllRevealed(e.added + e.queue0)
    ensures Lonely(e.added + e.queue0, Restrict(e.view0, e.m))
  {
    e.LonelyStill(m1, Restrict(e.view0, e.m), e.added + e.queue0);
    NewlyQueued(e);
    DistinctSize(e.added);
    hide Lonely;
    SplitKeys(e.view0, e.m, e.added);
  }

  lemma SplitKeys(view: map<nat, Fo>, m: set<nat>, added: seq<Item<Fo>>)
    requires forall k :: HasKey(added, k) <==> k in view && k !in m
    ensures |view| == |Restrict(view, m)| + |Keys(added)|
  {
    forall k: nat ensures k in Keys(added) <==> HasKey(added, k) {}
    assert view.Keys == Restrict(view, m).Keys + Keys(added);
  }
}
