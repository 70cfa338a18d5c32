/**
  Marking from a finalizable object with the mark procedure it was registered with.
*/
module FinalizerMarking {
  import opened MarkHeap
  import opened MarkInvariant
  import opened Marker

  datatype MarkProc = Normal | IgnoreSelf | NoOrder | Unreachable

  ghost function Targets(h: Heap, o: nat): set<nat> {
    set t | t in h.objs && Points(h, o, t)
  }

  /** The objects that a mark procedure marks and traces from. */
  ghost function Kids(h: Heap, o: nat, proc: MarkProc): set<nat> {
    match proc
    case Normal => Targets(h, o)
    case Unreachable => Targets(h, o)
    case IgnoreSelf => Targets(h, o) - {o}
    case NoOrder => {}
  }

  lemma KidsByProc(h: Heap, o: nat, proc: MarkProc)
    ensures Kids(h, o, proc) ==
      if proc == NoOrder then {} else if proc == IgnoreSelf then Targets(h, o) - {o} else Targets(h, o)
  {
  }

  lemma TargetIn(h: Heap, o: nat, a: nat)
    requires h.NamesOk() && h.WordOf(o, a) && h.Read(a) in h.names
    ensures h.names[h.Read(a)] in Targets(h, o)
  {
    assert Names(h, h.Read(a), h.names[h.Read(a)]);
  }

  /** Every word of o that leads to one of kids has been dealt with. */
  ghost predicate Owed(h: Heap, o: nat, kids: set<nat>, m: set<nat>, s: seq<Mse>) {
    forall a :: h.WordOf(o, a) && h.Read(a) in h.names && h.names[h.Read(a)] in kids ==> WordOk(h, m, s, a)
  }

  lemma OwedExtends(h: Heap, o: nat, kids: set<nat>, m: set<nat>, s: seq<Mse>, m': set<nat>, s': seq<Mse>)
    requires Owed(h, o, kids, m, s) && Extends(h, m, s, m', s')
    ensures Owed(h, o, kids, m', s')
  {
  }

  lemma OwedPaid(h: Heap, o: nat, proc: MarkProc, m: set<nat>)
    requires Owed(h, o, Kids(h, o, proc), m, [])
    ensures Kids(h, o, proc) <= m
  {
    forall t | t in Kids(h, o, proc) ensures t in m {
      assert Points(h, o, t);
      var a :| h.WordOf(o, a) && Names(h, h.Read(a), t);
      assert WordOk(h, m, [], a);
    }
  }

  /** The whole object as one stack entry. */
  method PushWholeObject(gc: Collector, o: nat, ghost k: set<nat>)
    requires gc.Quiet() && o in gc.heap.objs && Closed(gc.heap, k) && gc.marked <= k && Targets(gc.heap, o) <= k
    modifies gc`top, gc`state, gc`tooSmall, gc.markStack
    ensures gc.Shape() && gc.Confined(k) && gc.state == MsNone
    ensures Extends(gc.heap, gc.marked, [], gc.marked, gc.Stk())
    ensures Owed(gc.heap, o, Targets(gc.heap, o), gc.marked, gc.Stk())
  {
    if gc.heap.Descr(o) != 0 {
      var overflow := gc.PushEntry(Mse(o, gc.heap.Descr(o)));
    }
    assert gc.Stk() == EntryOf(gc.heap, o);
    forall a: nat
      ensures Pending(gc.Stk(), a) <==> gc.heap.WordOf(o, a)
      ensures Pending(gc.Stk(), a) ==> Lands(gc.heap, gc.heap.Read(a), k)
    {
      EntryCovers(gc.heap, o, a);
      if gc.heap.WordOf(o, a) && gc.heap.Read(a) in gc.heap.names { TargetIn(gc.heap, o, a); }
    }
  }

  /** Every pointer out of the object as a candidate of its own. */
  method PushPointersOut(gc: Collector, o: nat, ghost k: set<nat>) returns (overflow: bool)
    requires gc.Quiet() && o in gc.heap.objs && Closed(gc.heap, k) && gc.marked <= k && Targets(gc.heap, o) - {o} <= k
    modifies gc`marked, gc`top, gc`state, gc`tooSmall, gc.markStack
    ensures gc.Shape() && gc.Confined(k) && gc.Pushed(old(gc.marked), [], MsNone, overflow)
    ensures !overflow ==> Owed(gc.heap, o, Targets(gc.heap, o) - {o}, gc.marked, gc.Stk())
  {
    overflow := false;
    assert gc.Stk() == [];
    ghost var m := gc.marked;
    var a := o;
    while a < o + gc.heap.Descr(o)
      invariant o <= a <= o + gc.heap.Descr(o)
      invariant gc.Shape() && gc.Confined(k) && gc.Pushed(m, [], MsNone, overflow)
      invariant forall b :: o <= b < a && gc.heap.Read(b) in gc.heap.names ==>
        gc.heap.names[gc.heap.Read(b)] == o || gc.heap.names[gc.heap.Read(b)] in gc.marked
    {
      var r := gc.heap.Read(a);
      if !(r in gc.heap.names && gc.heap.names[r] == o) {
        if gc.heap.Plausible(r) {
          if r in gc.heap.names { TargetIn(gc.heap, o, a); }
          overflow := gc.PushNext(r, k, m, [], MsNone, overflow);
        }
      }
      a := a + 1;
    }
  }

  method PushByProc(gc: Collector, o: nat, proc: MarkProc, ghost k: set<nat>) returns (overflow: bool)
    requires gc.Quiet() && o in gc.heap.objs && Closed(gc.heap, k) && gc.marked <= k && Kids(gc.heap, o, proc) <= k
    modifies gc`marked, gc`top, gc`state, gc`tooSmall, gc.markStack
    ensures gc.Shape() && gc.Confined(k) && gc.Marked(old(gc.marked), [], MsNone, overflow)
    ensures overflow ==> gc.top >= 0
    ensures !overflow ==> Owed(gc.heap, o, Kids(gc.heap, o, proc), gc.marked, gc.Stk())
  {
    overflow := false;
    match proc {
      case Normal => PushWholeObject(gc, o, k);
      case Unreachable => PushWholeObject(gc, o, k);
      case IgnoreSelf => overflow := PushPointersOut(gc, o, k);
      case NoOrder => assert gc.Stk() == [];
    }
  }

  /** Marks until the stack is empty, whatever overflows happen. */
  method EmptyStack(gc: Collector, ghost k: set<nat>, ghost m: set<nat>, ghost o: nat, ghost kids: set<nat>,
                    overflow0: bool)
    returns (overflow: bool)
    requires gc.Shape() && gc.Confined(k) && gc.heap.NamesOk() && gc.Marked(m, [], MsNone, overflow0)
    requires overflow0 ==> gc.top >= 0
    requires !overflow0 ==> Owed(gc.heap, o, kids, gc.marked, gc.Stk())
    modifies gc`marked, gc`top, gc`state, gc`tooSmall, gc`objectsAreMarked, gc.markStack
    ensures gc.Shape() && gc.Confined(k) && gc.top == -1 && gc.Marked(m, [], MsNone, overflow)
    ensures if overflow then gc.objectsAreMarked else Owed(gc.heap, o, kids, gc.marked, [])
    ensures old(gc.objectsAreMarked) ==> gc.objectsAreMarked
    decreases |gc.heap.objs.Keys - gc.marked|, StackWords(gc.Stk())
  {
    hide Heap.NamesOk, Extends, Closed, Bounded, StackWords, Owed;
    overflow := overflow0;
    while gc.top >= 0
      invariant gc.Shape() && gc.Confined(k) && gc.Marked(m, [], MsNone, overflow)
      invariant if overflow then gc.top >= 0 || gc.objectsAreMarked else Owed(gc.heap, o, kids, gc.marked, gc.Stk())
      invariant old(gc.objectsAreMarked) ==> gc.objectsAreMarked
      decreases |gc.heap.objs.Keys - gc.marked|, StackWords(gc.Stk())
    {
      ghost var m1, s1 := gc.marked, gc.Stk();
      var more;
      ghost var considered;
      more, considered := gc.MarkFrom(k);
      ConfinedAreObjects(gc.heap, gc.marked, gc.Stk(), k);
      if gc.marked != m1 { FewerLeft(gc.heap.objs.Keys, m1, gc.marked); }
      if !overflow && !more {
        ExtendsTransitive(gc.heap, m, [], m1, s1, gc.marked, gc.Stk());
        OwedExtends(gc.heap, o, kids, m1, s1, gc.marked, gc.Stk());
      }
      overflow := overflow || more;
    }
    assert gc.Stk() == [];
  }

  lemma FewerLeft(all: set<nat>, m: set<nat>, m': set<nat>)
    requires m <= m' <= all && m != m'
    ensures |all - m'| < |all - m|
  {
    var x :| x in m' && x !in m;
    SubsetSize(all - m', all - m - {x});
  }

  /** What is reachable from seeds is the least closed set that holds them and the roots' targets. */
  lemma ReachableLeast(h: Heap, r: Roots, seeds: set<nat>, k: set<nat>)
    requires Closed(h, k) && RootsLand(h, r, k) && seeds <= k
    ensures ReachableSet(h, r, seeds) <= k
  {
    hide Closed, RootsLand, Reachable;
    forall o | o in ReachableSet(h, r, seeds) ensures o in k { ClosedHoldsReachable(h, r, seeds, k, o); }
  }

  lemma TargetsInClosed(h: Heap, o: nat, k: set<nat>)
    requires Closed(h, k) && o in k
    ensures Targets(h, o) <= k
  {
    forall t | t in Targets(h, o) ensures t in k {
      var a :| h.WordOf(o, a) && Names(h, h.Read(a), t);
    }
  }

  lemma FoClosures(h: Heap, r: Roots, m: set<nat>, o: nat, proc: MarkProc)
    requires h.Valid() && m <= h.objs.Keys && o in h.objs
    ensures ReachableSet(h, r, m + Kids(h, o, proc)) <= ReachableSet(h, r, m + {o})
    ensures Closed(h, ReachableSet(h, r, m + Kids(h, o, proc))) &&
      m + Kids(h, o, proc) <= ReachableSet(h, r, m + Kids(h, o, proc))
    ensures Closed(h, ReachableSet(h, r, m + {o})) && RootsLand(h, r, ReachableSet(h, r, m + {o}))
    ensures m + {o} <= ReachableSet(h, r, m + {o})
    ensures Kids(h, o, proc) <= Targets(h, o) <= h.objs.Keys
  {
    hide Closed, RootsLand, ReachableSet, Heap.Valid;
    ReachableSetClosed(h, r, m + Kids(h, o, proc));
    ReachableSetClosed(h, r, m + {o});
    TargetsInClosed(h, o, ReachableSet(h, r, m + {o}));
    ReachableLeast(h, r, m + Kids(h, o, proc), ReachableSet(h, r, m + {o}));
  }

  lemma BoundedLarger(h: Heap, m: set<nat>, s: seq<Mse>, k: set<nat>, k2: set<nat>)
    requires Bounded(h, m, s, k) && k <= k2
    ensures Bounded(h, m, s, k2)
  {
  }

  /** Without overflow the marks are closed again as soon as the stack is empty. */
  lemma ClosedAgain(h: Heap, r: Roots, m: set<nat>, m': set<nat>)
    requires Closed(h, m) && RootsLand(h, r, m) && Extends(h, m, [], m', []) && m' <= h.objs.Keys
    ensures Closed(h, m') && RootsLand(h, r, m')
  {
    forall o, a | o in m' && h.WordOf(o, a) ensures Lands(h, h.Read(a), m') {
      assert o in m ==> WordOk(h, m, [], a);
      assert WordOk(h, m', [], a);
    }
    forall a | Pending(r.ranges, a) ensures Lands(h, h.Read(a), m') {
      assert WordOk(h, m, [], a);
      assert WordOk(h, m', [], a);
    }
  }

  /** After an overflow: the object is marked, and marking starts over from all marked objects. */
  method StartOver(gc: Collector, o: nat, memory: nat -> bool, ghost k: set<nat>)
    requires gc.Basic() && gc.Confined(k) && RootsLand(gc.heap, gc.roots, k) && o in k && o in gc.heap.objs
    requires gc.state == MsInvalid && gc.top == -1 && gc.scanPtr == 0 && gc.dirty == {}
    requires gc.tracked && gc.rootsFresh && gc.objectsAreMarked
    modifies gc`marked, gc`top, gc`state, gc`tooSmall, gc`objectsAreMarked, gc`scanPtr, gc`rootsFresh, gc`markStack,
             gc.markStack
    ensures gc.Quiet() && gc.marked <= k && old(gc.marked) + {o} <= gc.marked
    ensures gc.markStack == old(gc.markStack) || fresh(gc.markStack)
  {
    hide Collector.Valid, Collector.Quiet, Heap.Valid, InvariantI, Closed, RootsLand, RootsDone, Collector.Remaining;
    gc.marked := gc.marked + {o};
    ghost var m := gc.marked;
    InvalidIsValid(gc);
    var i: nat := 0;
    while true
      invariant gc.Valid() && gc.Confined(k) && gc.tracked && RootsLand(gc.heap, gc.roots, k)
      invariant gc.markStack == old(gc.markStack) || fresh(gc.markStack)
      invariant m <= gc.marked && gc.rootsFresh && gc.state != MsNone
      decreases gc.Remaining().unmarked, gc.Remaining().phase, gc.Remaining().blocks, gc.Remaining().words
    {
      var done := gc.MarkSome(memory(i), k);
      if done {
        break;
      }
      i := i + 1;
    }
    gc.FinishedIsQuiet();
  }

  lemma InvalidIsValid(gc: Collector)
    requires gc.Basic() && gc.state == MsInvalid && gc.top == -1 && gc.scanPtr == 0 && gc.dirty == {}
    requires gc.tracked && gc.objectsAreMarked
    ensures gc.Valid()
  {
    hide Heap.Valid, InvariantI;
    InvalidHolds(gc.heap, gc.marked, gc.Stk(), gc.scanPtr, gc.dirty, gc.grungy);
  }

  /** The first half of GC_MARK_FO: runs the mark procedure and empties the stack. */
  method TraceByProc(gc: Collector, o: nat, proc: MarkProc, ghost k: set<nat>) returns (overflow: bool)
    requires gc.Quiet() && o in gc.heap.objs && Closed(gc.heap, k) && gc.marked <= k && Kids(gc.heap, o, proc) <= k
    modifies gc`marked, gc`top, gc`state, gc`tooSmall, gc`objectsAreMarked, gc.markStack
    ensures gc.Basic() && gc.Confined(k) && gc.top == -1 && gc.objectsAreMarked
    ensures old(gc.marked) <= gc.marked <= k && (gc.state != MsNone <==> overflow)
    ensures overflow ==> gc.state == MsInvalid
    ensures !overflow ==>
      Closed(gc.heap, gc.marked) && RootsLand(gc.heap, gc.roots, gc.marked) && Kids(gc.heap, o, proc) <= gc.marked
  {
    assert gc.heap.NamesOk();
    hide Heap.Valid, Heap.NamesOk, Closed, Bounded, RootsLand, Kids, Extends, Owed;
    ghost var h, m, kids := gc.heap, gc.marked, Kids(gc.heap, o, proc);
    overflow := PushByProc(gc, o, proc, k);
    overflow := EmptyStack(gc, k, m, o, kids, overflow);
    ConfinedAreObjects(h, gc.marked, gc.Stk(), k);
    assert gc.Stk() == [];
    if !overflow {
      ClosedAgain(h, gc.roots, m, gc.marked);
      OwedPaid(h, o, proc, gc.marked);
    }
  }

  /** GC_MARK_FO: marks what the mark procedure leads to. If the stack overflows on the way,
      the object itself is marked as well, and marking starts over from all marked objects. */
  method MarkFo(gc: Collector, o: nat, proc: MarkProc, memory: nat -> bool) returns (overflow: bool)
    requires gc.Quiet() && o in gc.heap.objs
    modifies gc`marked, gc`top, gc`state, gc`tooSmall, gc`objectsAreMarked, gc`scanPtr, gc`rootsFresh, gc`markStack,
             gc.markStack
    ensures gc.Quiet() && (gc.markStack == old(gc.markStack) || fresh(gc.markStack))
    ensures gc.marked == ReachableSet(gc.heap, gc.roots,
                                      old(gc.marked) + (if overflow then {o} else Kids(gc.heap, o, proc)))
    ensures old(gc.marked) + Kids(gc.heap, o, proc) <= gc.marked
    ensures !overflow ==>
      gc.marked == ReachableSet(gc.heap, gc.roots,
                                old(gc.marked) + (if proc == NoOrder then {}
                                                  else if proc == IgnoreSelf then Targets(gc.heap, o) - {o}
                                                  else Targets(gc.heap, o)))
  {
    hide Heap.Valid, Closed, Bounded, RootsLand, ReachableSet, Kids, Targets;
    KidsByProc(gc.heap, o, proc);
    ghost var h, r, m, kids := gc.heap, gc.roots, gc.marked, Kids(gc.heap, o, proc);
    ghost var k, k2 := ReachableSet(h, r, m + kids), ReachableSet(h, r, m + {o});
    FoClosures(h, r, m, o, proc);
    overflow := TraceByProc(gc, o, proc, k);
    if gc.state != MsNone {
      BoundedLarger(h, gc.marked, gc.Stk(), k, k2);
      StartOver(gc, o, memory, k2);
      ReachableLeast(h, r, m + {o}, gc.marked);
      TargetsInClosed(h, o, gc.marked);
    } else {
      ReachableLeast(h, r, m + kids, gc.marked);
    }
  }
}
