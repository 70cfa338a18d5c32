/**
  The collection cycle: when phases are started, how far they are carried, and when a
  collection counts as complete.
*/
module CycleDriver {
  import opened MarkHeap
  import opened MarkInvariant
  import opened Marker

  /** What the outside decides during a call: whether the i-th poll asks to stop, whether
      the i-th request for a larger mark stack succeeds, and, before the i-th marking step
      while the world is running, which words other threads write and what their registers
      and stacks hold afterwards. */
  datatype World = World(stop: nat -> bool, memory: nat -> bool, stores: nat -> seq<(nat, nat)>,
                         registers: nat -> seq<nat>)

  predicate NeverStop(i: nat) { false }

  /** Memory after some stores. */
  function Written(mem: map<nat, nat>, stores: seq<(nat, nat)>): map<nat, nat> {
    if stores == [] then mem
    else Written(mem, stores[..|stores| - 1])[stores[|stores| - 1].0 := stores[|stores| - 1].1]
  }

  /** A word holds what was last stored there, by store i; or, if i is -1, what it held before. */
  lemma {:induction false} LastStore(mem: map<nat, nat>, stores: seq<(nat, nat)>, a: nat, i: int)
    requires -1 <= i < |stores| && (i >= 0 ==> stores[i].0 == a)
    requires forall j :: i < j < |stores| ==> stores[j].0 != a
    ensures var mem' := Written(mem, stores);
      if i >= 0 then a in mem' && mem'[a] == stores[i].1
      else (a in mem' <==> a in mem) && (a in mem ==> mem'[a] == mem[a])
  {
    if i < |stores| - 1 {
      LastStore(mem, stores[..|stores| - 1], a, i);
    }
  }

  /** What other threads do to memory before the steps from i up to n. */
  function WrittenBetween(mem: map<nat, nat>, world: World, i: nat, n: nat): map<nat, nat>
    requires i <= n
  {
    if i == n then mem else Written(WrittenBetween(mem, world, i, n - 1), world.stores(n - 1))
  }

  class Cycle {
    const gc: Collector
    const maxPriorAttempts: nat
    const rate: nat
    const fullFreq: nat
    const timeLimited: bool        // GC_time_limit != GC_TIME_UNLIMITED

    var fullGc: bool
    var needFullGc: bool
    var attempts: nat
    var deficit: nat
    var partialGcs: nat
    var gcNo: nat

    constructor (gc: Collector, maxPriorAttempts: nat, rate: nat, fullFreq: nat, timeLimited: bool)
      requires gc.Valid() && gc.state == MsNone && 1 <= rate
      ensures this.gc == gc && Ready() && gcNo == 0
    {
      this.gc := gc;
      this.maxPriorAttempts, this.rate, this.fullFreq := maxPriorAttempts, rate, fullFreq;
      this.timeLimited := timeLimited;
      fullGc, needFullGc, attempts, deficit, partialGcs, gcNo := false, false, 0, 0, 0, 0;
    }

    ghost predicate Ready()
      reads this, gc, gc.markStack
    {
      && 1 <= rate
      && gc.Valid()
      && (gc.incremental || gc.state == MsNone || gc.state == MsInvalid)
    }

    /** Every live object is marked: the marks are closed and hold the root targets. */
    ghost predicate Complete()
      reads gc
    {
      gc.state == MsNone && Closed(gc.heap, gc.marked) && RootsLand(gc.heap, gc.roots, gc.marked)
    }

    /** Marks with the world stopped until done or told to stop. */
    method StoppedMark(world: World, ghost k: set<nat>) returns (done: bool)
      requires gc.Valid() && gc.Confined(k) && RootsLand(gc.heap, gc.roots, k)
      requires gc.state == MsInvalid || (gc.state == MsNone && gc.incremental)
      requires gc.state == MsInvalid && !gc.objectsAreMarked ==> gc.top == -1
      modifies this`deficit, this`gcNo, gc, gc.markStack
      ensures gc.Valid() && gc.Confined(k) && gc.tracked
      ensures gc.markStack == old(gc.markStack) || fresh(gc.markStack)
      ensures gc.heap == old(gc.heap) && gc.roots == old(gc.roots) && old(gc.marked) <= gc.marked
      ensures done ==> Complete() && gc.Quiet() && gcNo == old(gcNo) + 1 && deficit == old(deficit)
      ensures !done ==> gc.state != MsNone && gcNo == old(gcNo)
      ensures !done ==> world.stop(deficit) && forall i: nat :: i < deficit ==> !world.stop(i)
      ensures done ==> !world.stop(0)
    {
      hide Collector.Valid, Collector.Quiet, Heap.Valid, InvariantI, Closed, Bounded, RootsLand, RootsDone,
           Collector.Remaining;
      gc.InitiateGc();
      var i: nat := 0;
      while true
        invariant gc.Valid() && gc.Confined(k) && gc.tracked && RootsLand(gc.heap, gc.roots, k)
        invariant gc.markStack == old(gc.markStack) || fresh(gc.markStack)
        invariant gc.heap == old(gc.heap) && gc.roots == old(gc.roots) && gc.dirty == {} && old(gc.marked) <= gc.marked
        invariant gc.state != MsNone && (gc.state == MsRootsPushed ==> gc.rootsFresh)
        invariant gcNo == old(gcNo) && deficit == old(deficit)
        invariant forall j: nat :: j < i ==> !world.stop(j)
        decreases gc.Remaining().unmarked, gc.Remaining().phase, gc.Remaining().blocks, gc.Remaining().words
      {
        if world.stop(i) {
          deficit := i;
          return false;
        }
        var finished := gc.MarkSome(world.memory(i), k);
        if finished {
          break;
        }
        i := i + 1;
      }
      gc.FinishedIsComplete();
      gc.FinishedIsQuiet();
      gcNo := gcNo + 1;
      done := true;
    }

    /** The counters of the next cycle. */
    method FinishCollection(wantFull: bool)
      modifies this`attempts, this`fullGc, this`needFullGc
      ensures attempts == 0 && !fullGc && needFullGc == (!old(fullGc) && wantFull)
    {
      needFullGc := !fullGc && wantFull;
      attempts := 0;
      fullGc := false;
    }

    /** Other threads write while the world is running, and end up with the given registers. */
    method RunMutators(stores: seq<(nat, nat)>, registers: seq<nat>)
      requires gc.Valid() && gc.incremental
      modifies gc
      ensures gc.Valid() && gc.markStack == old(gc.markStack)
      ensures gc.marked == old(gc.marked) && gc.state == old(gc.state) && gc.scanPtr == old(gc.scanPtr)
      ensures gc.objectsAreMarked == old(gc.objectsAreMarked) && gc.top == old(gc.top)
      ensures gc.heap == old(gc.heap).(mem := Written(old(gc.heap.mem), stores))
      ensures gc.roots == Roots(old(gc.roots).ranges, registers)
      ensures gc.Remaining() == old(gc.Remaining())
    {
      hide Heap.Valid, InvariantI, RootsDone, StackWords;
      gc.SetRegisters(registers);
      var i := 0;
      while i < |stores|
        invariant 0 <= i <= |stores| && gc.Valid()
        invariant gc.markStack == old(gc.markStack) && gc.top == old(gc.top)
        invariant gc.marked == old(gc.marked) && gc.state == old(gc.state) && gc.scanPtr == old(gc.scanPtr)
        invariant gc.objectsAreMarked == old(gc.objectsAreMarked)
        invariant gc.heap == old(gc.heap).(mem := Written(old(gc.heap.mem), stores[..i]))
        invariant gc.roots == Roots(old(gc.roots).ranges, registers)
        invariant gc.Stk() == old(gc.Stk())
      {
        assert stores[..i + 1][..i] == stores[..i];
        gc.Store(stores[i].0, stores[i].1);
        i := i + 1;
      }
      assert stores[..|stores|] == stores;
    }

    ghost function AttemptsLeft(): nat
      reads this
    {
      if attempts < maxPriorAttempts then maxPriorAttempts - attempts else 0
    }

    /** Marks in small steps with the world running, other threads writing in between.
        True when the phase has ended. */
    method MarkALittle(world: World, maxDeficit: nat) returns (i: nat)
      requires Ready() && gc.incremental && gc.state != MsNone && deficit < maxDeficit
      modifies gc, gc.markStack
      ensures gc.Valid() && (gc.markStack == old(gc.markStack) || fresh(gc.markStack))
      ensures i < maxDeficit <==> gc.state == MsNone
      ensures old(gc.marked) <= gc.marked
      ensures deficit <= i <= maxDeficit
      ensures var steps := if i < maxDeficit then i + 1 else maxDeficit;
        && gc.heap == old(gc.heap).(mem := WrittenBetween(old(gc.heap.mem), world, deficit, steps))
        && gc.roots == Roots(old(gc.roots).ranges, world.registers(steps - 1))
      ensures i == maxDeficit ==> gc.Remaining().Less(old(gc.Remaining()))
    {
      hide Collector.Valid, Heap.Valid, InvariantI, Closed, Bounded, RootsLand, RootsDone, Collector.Remaining;
      ghost var effort := gc.Remaining();
      i := deficit;
      while i < maxDeficit
        invariant deficit <= i <= maxDeficit
        invariant gc.Valid() && gc.state != MsNone && old(gc.marked) <= gc.marked
        invariant gc.markStack == old(gc.markStack) || fresh(gc.markStack)
        invariant gc.heap == old(gc.heap).(mem := WrittenBetween(old(gc.heap.mem), world, deficit, i))
        invariant i > deficit ==> gc.roots == Roots(old(gc.roots).ranges, world.registers(i - 1))
        invariant i == deficit ==> gc.roots == old(gc.roots)
        invariant if i == deficit then gc.Remaining() == effort else gc.Remaining().Less(effort)
      {
        RunMutators(world.stores(i), world.registers(i));
        gc.ConfinedByAll();
        var finished := gc.MarkSome(world.memory(i), gc.heap.objs.Keys);
        if finished {
          return;
        }
        i := i + 1;
      }
    }

    /** The poll asks to stop for the first time after some steps; of these, left are still to be
        made up for after n of them. */
    static ghost predicate GivesUp(timeout: World, n: nat, left: nat) {
      exists d: nat :: timeout.stop(d) && (forall i: nat :: i < d ==> !timeout.stop(i)) &&
        left == (if d < n then 0 else d - n)
    }

    /** One unit of work on a phase that is under way; once the phase has ended, the
        collection is finished with the world stopped, if time allows. */
    method ContinueMarking(world: World, timeout: World, maxDeficit: nat, dontGc: bool, wantFull: bool)
      requires Ready() && gc.incremental && gc.state != MsNone && 1 <= maxDeficit
      modifies this`deficit, this`gcNo, this`attempts, this`fullGc, this`needFullGc, gc, gc.markStack
      ensures Ready() && (gc.markStack == old(gc.markStack) || fresh(gc.markStack))
      ensures gcNo == old(gcNo) || (gcNo == old(gcNo) + 1 && Complete())
      ensures old(gc.marked) <= gc.marked
      ensures gc.state == MsNone ==> dontGc || gcNo == old(gcNo) + 1
      ensures gcNo == old(gcNo) + 1 ==>
        !dontGc && attempts == 0 && !fullGc && needFullGc == (!old(fullGc) && wantFull)
      ensures gcNo == old(gcNo) ==> fullGc == old(fullGc) && needFullGc == old(needFullGc)
      ensures gcNo == old(gcNo) && (dontGc || !timeLimited || old(attempts) >= maxPriorAttempts) ==>
        attempts == old(attempts)
      ensures gcNo == old(gcNo) && attempts != old(attempts) ==>
        attempts == old(attempts) + 1 && GivesUp(timeout, maxDeficit, deficit)
      ensures gcNo > old(gcNo) || attempts == old(attempts) ==>
        deficit == if old(deficit) < maxDeficit then 0 else old(deficit) - maxDeficit
      ensures timeLimited && old(attempts) < maxPriorAttempts && timeout.stop(0) ==> gcNo == old(gcNo)
      ensures gc.state != MsNone ==>
        || AttemptsLeft() < old(AttemptsLeft())
        || (AttemptsLeft() == old(AttemptsLeft()) && gc.Remaining().Less(old(gc.Remaining())))
        || (AttemptsLeft() == old(AttemptsLeft()) && gc.Remaining() == old(gc.Remaining()) && deficit < old(deficit))
    {
      hide Collector.Valid, Heap.Valid, InvariantI, Closed, Bounded, RootsLand, RootsDone, Collector.Remaining;
      var i := deficit;
      if i < maxDeficit {
        i := MarkALittle(world, maxDeficit);
      }
      if i < maxDeficit && !dontGc {
        gc.ConfinedByAll();
        if attempts < maxPriorAttempts && timeLimited {
          var done := StoppedMark(timeout, gc.heap.objs.Keys);
          if done {
            FinishCollection(wantFull);
          } else {
            attempts := attempts + 1;
          }
        } else {
          var done := StoppedMark(timeout.(stop := NeverStop), gc.heap.objs.Keys);
          FinishCollection(wantFull);
        }
      }
      if deficit > 0 {
        deficit := if deficit < maxDeficit then 0 else deficit - maxDeficit;
      }
    }

    /** A full collection with the world stopped, given up when stop says so. */
    method TryToCollectInner(world: World, timeout: World, dontGc: bool, reclaimed: bool, wantFull: bool)
      returns (done: bool, ghost seeds: set<nat>)
      requires Ready()
      modifies this, gc, gc.markStack
      ensures Ready() && (gc.markStack == old(gc.markStack) || fresh(gc.markStack))
      ensures done ==> Complete() && gc.Quiet() && gcNo > old(gcNo)
      ensures !done && !gc.incremental ==> gcNo == old(gcNo)
      ensures done ==> gc.marked == ReachableSet(gc.heap, gc.roots, seeds)
      ensures done ==> forall o :: o in seeds ==> gc.heap.Uncollectable(o)
      ensures done && (old(gc.state) == MsNone || !gc.incremental) ==>
        gc.heap == old(gc.heap) && gc.roots == old(gc.roots) &&
            seeds == (set o | o in old(gc.marked) && gc.heap.Uncollectable(o))
      ensures (forall i :: !world.stop(i)) && !dontGc && reclaimed ==> done
      ensures done ==> !dontGc && reclaimed && !world.stop(0) && !fullGc && attempts == 0 && !needFullGc
      ensures dontGc ==> !done && gc.marked == old(gc.marked) && gc.state == old(gc.state) && gcNo == old(gcNo)
      ensures !gc.incremental ==> gcNo <= old(gcNo) + 1 && gc.heap == old(gc.heap) && gc.roots == old(gc.roots)
    {
      hide Collector.Valid, Heap.Valid, InvariantI, Closed, Bounded, RootsLand, RootsDone, Collector.Remaining;
      seeds := {};
      if dontGc || world.stop(0) {
        return false, seeds;
      }
      var i := 1;
      while gc.incremental && gc.state != MsNone
        invariant Ready() && gcNo >= old(gcNo) && (!gc.incremental ==> gcNo == old(gcNo))
        invariant gc.markStack == old(gc.markStack) || fresh(gc.markStack)
        invariant old(gc.state) == MsNone || !gc.incremental ==>
          gc.heap == old(gc.heap) && gc.roots == old(gc.roots) && gc.marked == old(gc.marked) &&
              gc.state == old(gc.state)
        decreases gc.state != MsNone, AttemptsLeft(), gc.Remaining().unmarked, gc.Remaining().phase,
                  gc.Remaining().blocks, gc.Remaining().words, deficit
      {
        if world.stop(i) {
          return false, seeds;
        }
        ContinueMarking(world, timeout, rate, false, wantFull);
        i := i + 1;
      }
      if !reclaimed {
        return false, seeds;
      }
      gc.InvalidateMarkState();
      gc.ClearMarks();
      seeds := gc.marked;
      fullGc := true;
      ghost var k := ReachableSet(gc.heap, gc.roots, seeds);
      gc.StartConfined();
      done := StoppedMark(world, k);
      if !done {
        if !gc.incremental {
          gc.InvalidateMarkState();
        }
        return;
      }
      MarkedIsReachable(seeds, k);
      FinishCollection(wantFull);
    }

    lemma MarkedIsReachable(seeds: set<nat>, k: set<nat>)
      requires Complete() && gc.Shape() && gc.Confined(k) && k == ReachableSet(gc.heap, gc.roots, seeds)
      requires seeds <= gc.marked
      ensures gc.marked == k
    {
      forall o | o in k ensures o in gc.marked {
        ClosedHoldsReachable(gc.heap, gc.roots, seeds, gc.marked, o);
      }
    }

    /** Starts a collection when the pacing rule asks for one. A full collection marks afresh, a
        partial one adds to the old marks; either may be left to be finished in small steps. */
    method MaybeGc(world: World, timeout: World, shouldCollect: bool, dontGc: bool, wantFull: bool)
      requires Ready() && (gc.incremental ==> gc.state == MsNone)
      modifies this, gc, gc.markStack
      ensures Ready() && (gc.markStack == old(gc.markStack) || fresh(gc.markStack))
      ensures gc.heap == old(gc.heap) && gc.roots == old(gc.roots)
      ensures gcNo == old(gcNo) || (gcNo == old(gcNo) + 1 && Complete() && gc.Quiet())
      ensures !shouldCollect || (!gc.incremental && dontGc) ==>
        gcNo == old(gcNo) && gc.marked == old(gc.marked) && gc.state == old(gc.state)
      ensures !shouldCollect ==> partialGcs == old(partialGcs)
      ensures shouldCollect && !gc.incremental ==> partialGcs == 0 && (gcNo > old(gcNo) <==> !dontGc)
      ensures shouldCollect && gc.incremental ==>
        if gcNo == old(gcNo) then gc.state != MsNone && timeLimited && timeout.stop(deficit)
        else attempts == 0 && !(timeLimited && timeout.stop(0))
      ensures shouldCollect && gc.incremental && gcNo == old(gcNo) ==>
        attempts == old(attempts) + if fullGc then 0 else 1
      ensures shouldCollect && gc.incremental && old(needFullGc || partialGcs >= fullFreq) ==>
        partialGcs == 0 && (gcNo == old(gcNo) ==> fullGc)
      ensures shouldCollect && gc.incremental && !old(needFullGc || partialGcs >= fullFreq) ==>
        partialGcs == old(partialGcs) + 1 && old(gc.marked) <= gc.marked
      ensures gcNo > old(gcNo) ==>
        gc.marked == ReachableSet(gc.heap, gc.roots,
                                  if gc.incremental && !old(needFullGc || partialGcs >= fullFreq) then old(gc.marked)
                                  else set o | o in old(gc.marked) && gc.heap.Uncollectable(o))
    {
      hide Collector.Valid, Heap.Valid, InvariantI, Closed, Bounded, RootsLand, RootsDone, Collector.Remaining,
           ReachableSet, Collector.Quiet;
      if !shouldCollect {
        return;
      }
      if !gc.incremental {
        var done, seeds := TryToCollectInner(timeout.(stop := NeverStop), timeout, dontGc, true, wantFull);
        partialGcs := 0;
        return;
      }
      gc.IdleStack();
      if needFullGc || partialGcs >= fullFreq {
        gc.ClearMarksWhenIdle();
        partialGcs := 0;
        fullGc := true;
      } else {
        partialGcs := partialGcs + 1;
      }
      ghost var seeds := gc.marked;
      ghost var k := ReachableSet(gc.heap, gc.roots, seeds);
      gc.StartConfined();
      var done := StoppedMark(if timeLimited then timeout else timeout.(stop := NeverStop), k);
      if done {
        MarkedIsReachable(seeds, k);
        FinishCollection(wantFull);
      } else if !fullGc {
        attempts := attempts + 1;
      }
    }

    /** A small step: more marking when a phase is under way, or else perhaps a new collection. */
    method CollectALittleInner(n: nat, world: World, timeout: World, shouldCollect: bool, dontGc: bool, wantFull: bool)
      requires Ready() && 1 <= n
      modifies this, gc, gc.markStack
      ensures Ready() && (gc.markStack == old(gc.markStack) || fresh(gc.markStack))
      ensures gcNo == old(gcNo) || (gcNo == old(gcNo) + 1 && Complete())
      ensures dontGc ==> gcNo == old(gcNo) && old(gc.marked) <= gc.marked
      ensures old(gc.incremental && gc.state != MsNone) && gc.state == MsNone ==> dontGc || gcNo == old(gcNo) + 1
      ensures old(gc.incremental && gc.state != MsNone) && gc.state != MsNone ==>
        || AttemptsLeft() < old(AttemptsLeft())
        || (AttemptsLeft() == old(AttemptsLeft()) && gc.Remaining().Less(old(gc.Remaining())))
        || (AttemptsLeft() == old(AttemptsLeft()) && gc.Remaining() == old(gc.Remaining()) && deficit < old(deficit))
      ensures !old(gc.incremental && gc.state != MsNone) && (dontGc || !shouldCollect) ==>
        gcNo == old(gcNo) && gc.marked == old(gc.marked) && gc.state == old(gc.state)
      ensures !old(gc.incremental && gc.state != MsNone) && !dontGc && shouldCollect ==>
        (gcNo == old(gcNo) ==> gc.incremental && timeLimited && gc.state != MsNone)
      ensures old(gc.incremental && gc.state != MsNone) && (gcNo > old(gcNo) || attempts == old(attempts)) ==>
        deficit == if old(deficit) < rate * n then 0 else old(deficit) - rate * n
    {
      if gc.incremental && gc.state != MsNone {
        assert rate * n >= 1;
        ContinueMarking(world, timeout, rate * n, dontGc, wantFull);
      } else if !dontGc {
        MaybeGc(world, timeout, shouldCollect, dontGc, wantFull);
      }
    }
  }
}
