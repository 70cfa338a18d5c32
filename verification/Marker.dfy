/**
  The sequential marker: the mark stack with its overflow rule, the range scan,
  and the GC_mark_some state machine.
*/
module Marker {
  import opened MarkHeap
  import opened MarkInvariant
  import opened MarkAllocation
  import opened MarkReclaim
  import opened ScanCounts

  datatype Effort = Effort(unmarked: nat, phase: nat, blocks: nat, words: nat) {
    predicate Less(e: Effort) {
      || unmarked < e.unmarked
      || (unmarked == e.unmarked && phase < e.phase)
      || (unmarked == e.unmarked && phase == e.phase && blocks < e.blocks)
      || (unmarked == e.unmarked && phase == e.phase && blocks == e.blocks && words < e.words)
    }
  }

  class Collector {
    const incremental: bool

    // What the mutator owns.
    var heap: Heap
    var roots: Roots

    // What the marker owns.
    var marked: set<nat>
    var state: MarkState
    var scanPtr: nat               // block number; 0 stands for NULL
    var markStack: array<Mse>
    var top: int                   // index of the top entry; -1 when empty
    var tooSmall: bool
    var objectsAreMarked: bool

    // Pages written since the dirty bits were last read, and the bits last read.
    var dirty: set<nat>
    var grungy: set<nat>

    ghost var tracked: bool        // every store since the phase began is covered by Invariant I
    ghost var rootsFresh: bool     // the mutator has not run since the roots were pushed

    // ------------------------------------------------------------ invariants

    ghost predicate Shape()
      reads this, markStack
    {
      && INITIAL_MARK_STACK_SIZE <= markStack.Length
      && -1 <= top < markStack.Length
      && (forall i :: 0 <= i <= top ==> 1 <= markStack[i].len)
    }

    ghost function Stk(): seq<Mse>
      requires Shape()
      reads this, markStack
    {
      markStack[..top + 1]
    }

    ghost predicate Basic()
      reads this, markStack
    {
      && Shape()
      && heap.Valid()
      && marked <= heap.objs.Keys
      && |roots.ranges| <= INITIAL_MARK_STACK_SIZE / 2
      && (forall i :: 0 <= i < |roots.ranges| ==> 1 <= roots.ranges[i].len)
    }

    ghost predicate RootsOk()
      requires Shape()
      reads this, markStack
    {
      RootsDone(heap, roots, marked, Stk())
    }

    /** Confined(k): k is closed under pointers, and nothing outside k is marked or stacked. */
    ghost predicate Confined(k: set<nat>)
      requires Shape()
      reads this, markStack
    {
      Closed(heap, k) && Bounded(heap, marked, Stk(), k)
    }

    ghost predicate Valid()
      reads this, markStack
      ensures Valid() ==> Shape() && (incremental ==> tracked)
    {
      && Basic()
      && (incremental ==> tracked)
      && (state != MsNone && state != MsInvalid ==> tracked)
      && (tracked ==> InvariantI(heap, marked, Stk(), state, scanPtr, dirty, grungy))
      && (tracked && state == MsInvalid && !objectsAreMarked ==> top == -1 && scanPtr == 0)
      && (rootsFresh && (state == MsNone || state == MsRootsPushed) ==> RootsOk())
      && (state == MsNone ==> top == -1)
      && (state == MsNone || state == MsRootsPushed ==> scanPtr == 0)
      && (state == MsPartiallyInvalid ==> scanPtr != 0 && objectsAreMarked)
      && (state == MsRootsPushed ==> objectsAreMarked)
      && (state == MsPushRescuers ==> incremental)
      && (!objectsAreMarked ==> forall o :: o in marked ==> heap.Uncollectable(o))
      && (!incremental ==> dirty == {})
    }

    constructor (incremental: bool, ranges: seq<Mse>, least: nat, greatest: nat)
      requires |ranges| <= INITIAL_MARK_STACK_SIZE / 2
      requires forall i :: 0 <= i < |ranges| ==> 1 <= ranges[i].len
      ensures Valid() && this.incremental == incremental
      ensures state == MsNone && fresh(markStack)
      ensures heap == Heap(map[], map[], map[], map[], least, greatest)
    {
      this.incremental := incremental;
      heap := Heap(map[], map[], map[], map[], least, greatest);
      roots := Roots(ranges, []);
      marked, dirty, grungy := {}, {}, {};
      state, scanPtr := MsNone, 0;
      markStack := new Mse[INITIAL_MARK_STACK_SIZE](_ => Mse(0, 1));
      top := -1;
      tooSmall, objectsAreMarked := false, false;
      tracked, rootsFresh := true, false;
    }

    // ------------------------------------------------------------ pushing

    /** Pushes entry e. When the stack is full its top entries are discarded and
        the new entry takes the place of the lowest discarded one. */
    method PushEntry(e: Mse) returns (overflow: bool)
      requires Shape() && 1 <= e.len
      modifies this`top, this`state, this`tooSmall, markStack
      ensures Shape()
      ensures overflow <==> old(top) + 1 == markStack.Length
      ensures !overflow ==> Stk() == old(Stk()) + [e] && state == old(state) && tooSmall == old(tooSmall)
      ensures overflow ==> state == MsInvalid && tooSmall
      ensures old(tooSmall) ==> tooSmall
      ensures overflow ==> Stk() == old(Stk())[..markStack.Length - MARK_STACK_DISCARDS] + [e]
    {
      overflow := false;
      top := top + 1;
      if top >= markStack.Length {
        overflow := true;
        state := MsInvalid;
        tooSmall := true;
        top := top - MARK_STACK_DISCARDS;
      }
      markStack[top] := e;
    }

    /** Treats v as a candidate pointer: marks and pushes the object it points to,
        unless there is none or it is already marked. */
    method PushContents(v: nat, ghost k: set<nat>) returns (overflow: bool)
      requires Shape() && Confined(k) && Lands(heap, v, k)
      modifies this`marked, this`top, this`state, this`tooSmall, markStack
      ensures Shape() && Confined(k)
      ensures marked == old(marked) + (if v in heap.names then {heap.names[v]} else {})
      ensures !overflow ==> Extends(heap, old(marked), old(Stk()), marked, Stk()) && state == old(state)
      ensures !overflow ==> StacksNew(heap, old(marked), old(Stk()), marked, Stk())
      ensures overflow ==> state == MsInvalid
      ensures overflow || old(tooSmall) ==> tooSmall
      ensures marked == old(marked) ==> !overflow && Stk() == old(Stk())
      ensures if overflow then top >= 0 else top >= old(top)
    {
      hide StacksNew;
      overflow := false;
      StacksNone(heap, marked, Stk());
      if v in heap.names {
        var o := heap.names[v];
        if o !in marked {
          ghost var s := Stk();
          BoundedPush(heap, marked, s, k, o);
          PushExtends(heap, marked, s, o);
          PushStacks(heap, marked, s, o);
          ghost var keep := markStack.Length - MARK_STACK_DISCARDS;
          if keep <= |s| {
            BoundedPrefix(heap, marked, s, k, keep);
            BoundedPush(heap, marked, s[..keep], k, o);
          }
          marked := marked + {o};
          if heap.Descr(o) != 0 {
            overflow := PushEntry(Mse(o, heap.Descr(o)));
          }
          assert !overflow ==> Stk() == s + EntryOf(heap, o);
        }
      }
    }

    // ------------------------------------------------------------ scanning

    /** Overflow, marks and stack after some pushes, compared with marks m, stack s
        and state st before them. */
    ghost predicate Pushed(m: set<nat>, s: seq<Mse>, st: MarkState, overflow: bool)
      requires Shape()
      reads this, markStack
    {
      && m <= marked
      && (!overflow ==> Extends(heap, m, s, marked, Stk()) && state == st)
      && (overflow ==> state == MsInvalid && top >= 0)
      && (marked == m ==> !overflow && Stk() == s)
    }

    /** One more candidate after a run of pushes. */
    method PushNext(v: nat, ghost k: set<nat>, ghost m: set<nat>, ghost s: seq<Mse>, ghost st: MarkState,
                    overflow: bool)
      returns (overflow': bool)
      requires Shape() && Confined(k) && Lands(heap, v, k)
      requires Pushed(m, s, st, overflow)
      modifies this`marked, this`top, this`state, this`tooSmall, markStack
      ensures Shape() && Confined(k) && old(marked) <= marked && Lands(heap, v, marked)
      ensures Pushed(m, s, st, overflow') && (overflow ==> overflow')
      ensures (overflow' && !overflow) || old(tooSmall) ==> tooSmall
      ensures !overflow' ==> StacksNew(heap, old(marked), old(Stk()), marked, Stk())
    {
      hide StacksNew;
      ghost var m1, s1 := marked, Stk();
      var o := PushContents(v, k);
      overflow' := overflow || o;
      if !overflow' {
        ExtendsTransitive(heap, m, s, m1, s1, marked, Stk());
      }
    }

    /** The descending search: the highest plausible word of [start, start + n). */
    method LastPlausible(start: nat, n: nat) returns (found: bool, a: nat)
      requires 1 <= n
      ensures found ==> start <= a < start + n && heap.Plausible(heap.Read(a))
      ensures forall b :: (if found then a else start - 1) < b < start + n ==> !heap.Plausible(heap.Read(b))
    {
      var limit: int := start + n - 1;
      while true
        invariant start <= limit < start + n
        invariant forall b :: limit < b < start + n ==> !heap.Plausible(heap.Read(b))
        decreases limit
      {
        var deferred := heap.Read(limit);
        limit := limit - 1;
        if heap.Plausible(deferred) {
          return true, limit + 1;
        }
        if start > limit {
          return false, start;
        }
      }
    }

    ghost predicate EachOnce(considered: multiset<nat>, lo: nat, hi: nat)
      reads this
    {
      forall a :: considered[a] == if lo <= a < hi && heap.Plausible(heap.Read(a)) then 1 else 0
    }

    /** The ascending loop over [start, last). */
    method ScanUp(start: nat, last: nat, ghost k: set<nat>) returns (overflow: bool, ghost considered: multiset<nat>)
      requires start <= last && Shape() && Confined(k) && heap.NamesOk()
      requires forall a :: start <= a < last ==> Lands(heap, heap.Read(a), k)
      modifies this`marked, this`top, this`state, this`tooSmall, markStack
      ensures Shape() && Confined(k)
      ensures forall a :: start <= a < last ==> Lands(heap, heap.Read(a), marked)
      ensures EachOnce(considered, start, last) && |considered| <= last - start
      ensures Pushed(old(marked), old(Stk()), old(state), overflow) && (overflow || old(tooSmall) ==> tooSmall)
      ensures !overflow ==> StacksNew(heap, old(marked), old(Stk()), marked, Stk())
    {
      hide StacksNew, Extends;
      overflow := false;
      StacksNone(heap, marked, Stk());
      ExtendsNone(heap, marked, Stk());
      considered := multiset{};
      ghost var m, s, st := marked, Stk(), state;
      var current := start;
      while current < last
        invariant start <= current <= last
        invariant Shape() && Confined(k)
        invariant forall a :: start <= a < current ==> Lands(heap, heap.Read(a), marked)
        invariant EachOnce(considered, start, current) && |considered| <= current - start
        invariant Pushed(m, s, st, overflow) && (overflow || old(tooSmall) ==> tooSmall)
        invariant !overflow ==> StacksNew(heap, m, s, marked, Stk())
      {
        if heap.Plausible(heap.Read(current)) {
          considered := considered + multiset{current};
          ghost var m1, s1 := marked, Stk();
          overflow := PushNext(heap.Read(current), k, m, s, st, overflow);
          if !overflow { StacksThen(heap, m, s, m1, s1, marked, Stk()); }
        }
        current := current + 1;
      }
    }

    /** Scans the words [start, start + n): the highest plausible word is found first
        and treated last. Every plausible word is considered exactly once. */
    method ScanRange(start: nat, n: nat, ghost k: set<nat>) returns (overflow: bool, ghost considered: multiset<nat>)
      requires 1 <= n && Shape() && Confined(k) && heap.NamesOk()
      requires forall a :: start <= a < start + n ==> Lands(heap, heap.Read(a), k)
      modifies this`marked, this`top, this`state, this`tooSmall, markStack
      ensures Shape() && Confined(k)
      ensures forall a :: start <= a < start + n ==> Lands(heap, heap.Read(a), marked)
      ensures EachOnce(considered, start, start + n) && |considered| <= n
      ensures Pushed(old(marked), old(Stk()), old(state), overflow) && (overflow || old(tooSmall) ==> tooSmall)
      ensures !overflow ==> StacksNew(heap, old(marked), old(Stk()), marked, Stk())
    {
      hide StacksNew, Extends;
      overflow := false;
      considered := multiset{};
      StacksNone(heap, marked, Stk());
      ExtendsNone(heap, marked, Stk());
      var found, last := LastPlausible(start, n);
      if found {
        ghost var m, s, st := marked, Stk(), state;
        overflow, considered := ScanUp(start, last, k);
        considered := considered + multiset{last};
        ghost var m1, s1 := marked, Stk();
        overflow := PushNext(heap.Read(last), k, m, s, st, overflow);
        if !overflow { StacksThen(heap, m, s, m1, s1, marked, Stk()); }
      }
    }

    /** Marks from the stack until it is empty or the credit is used up. Long ranges
        are taken SPLIT_RANGE_WORDS - 1 words at a time. Without overflow, every plausible word
        is considered once for each time it was or is stacked. */
    method MarkFrom(ghost k: set<nat>) returns (overflow: bool, ghost considered: multiset<nat>)
      requires Shape() && Confined(k) && heap.NamesOk()
      modifies this`marked, this`top, this`state, this`tooSmall, this`objectsAreMarked, markStack
      ensures Shape() && Confined(k) && objectsAreMarked
      ensures Marked(old(marked), old(Stk()), old(state), overflow) && (overflow || old(tooSmall) ==> tooSmall)
      ensures !overflow ==> Conserves(heap, considered, old(marked), old(Stk()), marked, Stk())
      ensures |considered| <= HBLK_WORDS + SPLIT_RANGE_WORDS - 1
      ensures old(top) >= 0 && marked == old(marked) ==> StackWords(Stk()) < StackWords(old(Stk()))
    {
      hide Conserves, Extends, Closed, Bounded, StackWords;
      overflow, considered := false, multiset{};
      objectsAreMarked := true;
      var credit: int := HBLK_WORDS;
      ghost var m, s, st := marked, Stk(), state;
      ConservesNone(heap, m, s);
      ExtendsNone(heap, m, s);
      while top >= 0 && credit >= 0
        invariant Shape() && Confined(k)
        invariant Marked(m, s, st, overflow) && objectsAreMarked && (overflow || old(tooSmall) ==> tooSmall)
        invariant !overflow ==> Conserves(heap, considered, m, s, marked, Stk())
        invariant marked == m ==> StackWords(Stk()) <= StackWords(s)
        invariant marked == m && credit < HBLK_WORDS ==> StackWords(Stk()) < StackWords(s)
        invariant credit <= HBLK_WORDS && |considered| <= HBLK_WORDS - credit <= HBLK_WORDS + SPLIT_RANGE_WORDS - 1
        invariant credit == HBLK_WORDS ==> top == old(top)
        decreases credit
      {
        ghost var m1, s1 := marked, Stk();
        var n, o;
        ghost var c;
        n, o, c := ScanTop(k, m, s, st, overflow);
        overflow := o;
        if !overflow { ConservesThen(heap, considered, c, m, s, m1, s1, marked, Stk()); }
        considered := considered + c;
        credit := credit - n;
      }
    }

    ghost predicate Marked(m: set<nat>, s: seq<Mse>, st: MarkState, overflow: bool)
      requires Shape()
      reads this, markStack
    {
      && m <= marked
      && (!overflow ==> Extends(heap, m, s, marked, Stk()) && state == st)
      && (overflow ==> state == MsInvalid)
      && (marked == m ==> !overflow)
    }

    /** One round of the marking loop: scans the top entry if it is less than 128 words long, and its
        first 127 words otherwise. */
    method ScanTop(ghost k: set<nat>, ghost m: set<nat>, ghost s: seq<Mse>, ghost st: MarkState, overflow: bool)
      returns (n: nat, overflow': bool, ghost considered: multiset<nat>)
      requires Shape() && Confined(k) && heap.NamesOk() && top >= 0
      requires Marked(m, s, st, overflow)
      modifies this`marked, this`top, this`state, this`tooSmall, markStack
      ensures Shape() && Confined(k)
      ensures n == if old(markStack[top]).len < 128 then old(markStack[top]).len else 127
      ensures EachOnce(considered, old(markStack[top]).start, old(markStack[top]).start + n) && |considered| <= n
      ensures old(marked) <= marked
      ensures Marked(m, s, st, overflow') && (overflow ==> overflow')
      ensures (overflow' && !overflow) || old(tooSmall) ==> tooSmall
      ensures !overflow' ==> Conserves(heap, considered, old(marked), old(Stk()), marked, Stk())
      ensures marked == old(marked) ==> StackWords(Stk()) < StackWords(old(Stk()))
    {
      hide Conserves, Extends, Closed, Bounded, StacksNew, StackWords, Lands;
      ghost var m0, s0, below := marked, Stk(), markStack[..top];
      var e := markStack[top];
      assert s0 == below + [e];
      if SPLIT_RANGE_WORDS <= e.len {
        n := SPLIT_RANGE_WORDS - 1;
        markStack[top] := Mse(e.start + n, e.len - n);
      } else {
        n := e.len;
        top := top - 1;
      }
      assert Stk() == below + Rest(e, n);
      BoundedChunk(heap, marked, below, k, e, n);
      StackWordsChunk(below, e, n);
      overflow', considered := ScanRange(e.start, n, k);
      if !overflow' {
        ChunkExtends(heap, m0, below, e, n, marked, Stk());
        ChunkConserves(heap, considered, m0, below, e, n, marked, Stk());
        if !overflow {
          ExtendsTransitive(heap, m, s, m0, s0, marked, Stk());
        }
      }
      overflow' := overflow' || overflow;
    }

    // ------------------------------------------------------------ pushing blocks

    /** Pushes the marked objects of block b. The block's objects fit in the room left. */
    method PushMarked(b: nat, ghost k: set<nat>)
      requires Shape() && heap.Valid() && Confined(k)
      requires b in heap.blocks && top + HBLK_MAX_OBJECTS < markStack.Length
      modifies this`top, this`state, this`tooSmall, this`objectsAreMarked, markStack
      ensures Shape() && Confined(k)
      ensures state == old(state) && tooSmall == old(tooSmall)
      ensures objectsAreMarked <==>
        old(objectsAreMarked) || (heap.blocks[b].descr != 0 && exists o :: o in heap.blocks[b].objects && o in marked)
      ensures forall a :: Pending(old(Stk()), a) ==> Pending(Stk(), a)
      ensures forall o, a :: o in marked && heap.BlockOf(o) == b && heap.WordOf(o, a) ==> Pending(Stk(), a)
    {
      hide Closed, Bounded, Heap.BlocksOk, Heap.NamesOk;
      assert |heap.blocks[b].objects| <= HBLK_MAX_OBJECTS by { BlockHolds(b); }
      var block := heap.blocks[b];
      if block.descr == 0 || (forall o | o in block.objects :: o !in marked) {
        return;
      }
      objectsAreMarked := true;
      ghost var s := Stk();
      var i := 0;
      while i < |block.objects|
        invariant 0 <= i <= |block.objects|
        invariant Shape() && Confined(k)
        invariant top <= old(top) + i
        invariant state == old(state) && tooSmall == old(tooSmall) && objectsAreMarked
        invariant forall a :: Pending(s, a) ==> Pending(Stk(), a)
        invariant forall j, a ::
          0 <= j < i && block.objects[j] in marked && heap.WordOf(block.objects[j], a) ==> Pending(Stk(), a)
      {
        var o := block.objects[i];
        if o in marked {
          PushWhole(o, k);
        }
        i := i + 1;
      }
    }

    lemma BlockHolds(b: nat)
      requires heap.Valid() && b in heap.blocks
      ensures |heap.blocks[b].objects| <= HBLK_MAX_OBJECTS
    {
    }

    /** Pushes a marked object; the caller has seen to it that there is room. */
    method PushWhole(o: nat, ghost k: set<nat>)
      requires Shape() && Confined(k) && o in marked && heap.Descr(o) != 0
      requires top + 1 < markStack.Length
      modifies this`top, this`state, this`tooSmall, markStack
      ensures Shape() && Confined(k) && top == old(top) + 1
      ensures state == old(state) && tooSmall == old(tooSmall)
      ensures forall a :: Pending(old(Stk()), a) ==> Pending(Stk(), a)
      ensures forall a :: heap.WordOf(o, a) ==> Pending(Stk(), a)
    {
      ghost var s := Stk();
      BoundedPush(heap, marked, s, k, o);
      assert marked + {o} == marked;
      var overflow := PushEntry(Mse(o, heap.Descr(o)));
      forall a
        ensures Pending(s, a) || heap.WordOf(o, a) ==> Pending(Stk(), a)
      {
        PendingAppend(s, EntryOf(heap, o), a);
        EntryCovers(heap, o, a);
      }
    }

    /** Pushes the next allocated block at or after h; returns the block after it, or 0. */
    method PushNextMarked(h: nat, ghost k: set<nat>) returns (next: nat)
      requires Shape() && heap.Valid() && Confined(k)
      requires top + HBLK_MAX_OBJECTS < markStack.Length
      modifies this`top, this`state, this`tooSmall, this`objectsAreMarked, markStack
      ensures Shape() && Confined(k)
      ensures state == old(state) && tooSmall == old(tooSmall) && (old(objectsAreMarked) ==> objectsAreMarked)
      ensures Extends(heap, marked, old(Stk()), marked, Stk())
      ensures next == 0 ==> Stk() == old(Stk())
      ensures Swept(heap, marked, Stk(), MsPartiallyInvalid, h, next, grungy)
      ensures next != 0 ==> h < next && BlocksFrom(next) < BlocksFrom(h)
    {
      hide Closed, Bounded, Heap.NamesOk;
      var b := heap.NextBlock(h);
      if b == 0 {
        return 0;
      }
      PushMarked(b, k);
      next := b + heap.blocks[b].span;
      FewerBlocks(h, next, b);
    }

    predicate BlockWasDirty(b: nat)
      requires b in heap.blocks
      reads this
    {
      exists p :: b <= p < b + heap.blocks[b].span && p in grungy
    }

    /** The same for the next block with a grungy page. */
    method PushNextMarkedDirty(h0: nat, ghost k: set<nat>) returns (next: nat)
      requires Shape() && heap.Valid() && Confined(k) && incremental
      requires top + HBLK_MAX_OBJECTS < markStack.Length
      modifies this`top, this`state, this`tooSmall, this`objectsAreMarked, markStack
      ensures Shape() && Confined(k)
      ensures state == old(state) && tooSmall == old(tooSmall) && (old(objectsAreMarked) ==> objectsAreMarked)
      ensures Extends(heap, marked, old(Stk()), marked, Stk())
      ensures next == 0 ==> Stk() == old(Stk())
      ensures Swept(heap, marked, Stk(), MsPushRescuers, h0, next, grungy)
      ensures next != 0 ==> h0 < next && BlocksFrom(next) < BlocksFrom(h0)
    {
      hide Closed, Bounded, Heap.NamesOk;
      var h := h0;
      var b := heap.NextBlock(h);
      while b != 0 && !BlockWasDirty(b)
        invariant b != 0 ==> b in heap.blocks && h0 <= h <= b
        invariant forall c :: c in heap.blocks && h0 <= c && BlockWasDirty(c) ==> h0 <= b <= c && b != 0
        decreases heap.greatest - h, heap.greatest - b
      {
        h := b + heap.blocks[b].span;
        b := heap.NextBlock(h);
      }
      if b == 0 {
        return 0;
      }
      PushMarked(b, k);
      next := b + heap.blocks[b].span;
      FewerBlocks(h0, next, b);
    }

    /** The same for the next block of an uncollectable kind. */
    method PushNextMarkedUncollectable(h0: nat, ghost k: set<nat>) returns (next: nat)
      requires Shape() && heap.Valid() && Confined(k)
      requires top + HBLK_MAX_OBJECTS < markStack.Length
      modifies this`top, this`state, this`tooSmall, this`objectsAreMarked, markStack
      ensures Shape() && Confined(k)
      ensures state == old(state) && tooSmall == old(tooSmall) && (old(objectsAreMarked) ==> objectsAreMarked)
      ensures Extends(heap, marked, old(Stk()), marked, Stk())
      ensures next == 0 ==> Stk() == old(Stk())
      ensures Swept(heap, marked, Stk(), MsPushUncollectable, h0, next, grungy)
      ensures next != 0 ==> h0 < next && BlocksFrom(next) < BlocksFrom(h0)
    {
      hide Closed, Bounded, Heap.NamesOk;
      var h := h0;
      var b := heap.NextBlock(h);
      while b != 0 && !heap.blocks[b].uncollectable
        invariant b != 0 ==> b in heap.blocks && h0 <= h <= b
        invariant forall c :: c in heap.blocks && h0 <= c && heap.blocks[c].uncollectable ==> h0 <= b <= c && b != 0
        decreases heap.greatest - h, heap.greatest - b
      {
        h := b + heap.blocks[b].span;
        b := heap.NextBlock(h);
      }
      if b == 0 {
        return 0;
      }
      PushMarked(b, k);
      next := b + heap.blocks[b].span;
      FewerBlocks(h0, next, b);
    }

    ghost function BlocksFrom(h: nat): nat
      reads this
    {
      |heap.BlockSet(h)|
    }

    lemma FewerBlocks(h: nat, next: nat, b: nat)
      requires b in heap.blocks && h <= b < next
      ensures BlocksFrom(next) < BlocksFrom(h)
    {
      SubsetSize(heap.BlockSet(next), heap.BlockSet(h) - {b});
    }

    // ------------------------------------------------------------ pushing roots

    /** Pushes every static root segment; the caller has seen to it that they fit. */
    method PushRootRanges(ghost k: set<nat>)
      requires Basic() && Confined(k) && RootsLand(heap, roots, k)
      requires top + |roots.ranges| < markStack.Length
      modifies this`top, this`state, this`tooSmall, markStack
      ensures Shape() && Confined(k)
      ensures state == old(state) && tooSmall == old(tooSmall)
      ensures Stk() == old(Stk()) + roots.ranges
    {
      ghost var s := Stk();
      var i := 0;
      while i < |roots.ranges|
        invariant 0 <= i <= |roots.ranges|
        invariant Shape() && top == old(top) + i
        invariant state == old(state) && tooSmall == old(tooSmall)
        invariant Stk() == s + roots.ranges[..i]
      {
        var overflow := PushEntry(roots.ranges[i]);
        i := i + 1;
      }
      assert roots.ranges[..i] == roots.ranges;
      forall a | Pending(Stk(), a)
        ensures Lands(heap, heap.Read(a), k)
      {
        PendingAppend(s, roots.ranges, a);
      }
    }

    /** Treats each register and stack word as a candidate pointer at once. */
    method PushRegisters(ghost k: set<nat>) returns (overflow: bool)
      requires Shape() && Confined(k) && heap.NamesOk()
      requires forall v :: v in roots.registers ==> Lands(heap, v, k)
      modifies this`marked, this`top, this`state, this`tooSmall, markStack
      ensures Shape() && Confined(k)
      ensures forall v :: v in roots.registers ==> Lands(heap, v, marked)
      ensures Pushed(old(marked), old(Stk()), old(state), overflow) && (overflow || old(tooSmall) ==> tooSmall)
    {
      overflow := false;
      ghost var m, s, st := marked, Stk(), state;
      var i := 0;
      while i < |roots.registers|
        invariant 0 <= i <= |roots.registers|
        invariant Shape() && Confined(k)
        invariant forall j :: 0 <= j < i ==> Lands(heap, roots.registers[j], marked)
        invariant Pushed(m, s, st, overflow) && (overflow || old(tooSmall) ==> tooSmall)
      {
        if heap.Plausible(roots.registers[i]) {
          overflow := PushNext(roots.registers[i], k, m, s, st, overflow);
        }
        i := i + 1;
      }
    }

    method PushRoots(ghost k: set<nat>) returns (overflow: bool)
      requires Basic() && Confined(k) && RootsLand(heap, roots, k)
      requires top + |roots.ranges| < markStack.Length
      modifies this`marked, this`top, this`state, this`tooSmall, markStack
      ensures Shape() && Confined(k)
      ensures Marked(old(marked), old(Stk()), old(state), overflow) && (overflow || old(tooSmall) ==> tooSmall)
      ensures !overflow ==> RootsOk()
    {
      ghost var m, s := marked, Stk();
      PushRootRanges(k);
      ghost var s1 := Stk();
      forall a
        ensures Pending(s, a) || Pending(roots.ranges, a) ==> Pending(s1, a)
      {
        PendingAppend(s, roots.ranges, a);
      }
      overflow := PushRegisters(k);
      if !overflow {
        assert Extends(heap, m, s, m, s1);
        ExtendsTransitive(heap, m, s, m, s1, marked, Stk());
        assert forall a :: Pending(roots.ranges, a) ==> WordOk(heap, m, s1, a);
      }
    }

    /** Replaces the mark stack by one of n entries, if memory for it can be had.
        Must only be called while the stack is empty. */
    method AllocMarkStack(n: nat, available: bool)
      requires Shape() && top == -1 && INITIAL_MARK_STACK_SIZE <= n
      modifies this`markStack, this`top, this`tooSmall
      ensures Shape() && top == -1 && !tooSmall
      ensures markStack == old(markStack) || fresh(markStack)
      ensures markStack.Length == if available then n else old(markStack.Length)
    {
      tooSmall := false;
      if available {
        markStack := new Mse[n](_ => Mse(0, 1));
      }
      top := -1;
    }

    // ------------------------------------------------------------ the state machine

    ghost function Unmarked(): nat
      reads this
    {
      |heap.objs.Keys - marked|
    }

    static function Rank(st: MarkState, flag: bool): nat {
      match st
      case MsInvalid => if flag then 3 else 5
      case MsPushRescuers => 4
      case MsPushUncollectable => 4
      case MsPartiallyInvalid => 2
      case MsRootsPushed => 1
      case MsNone => 0
    }

    ghost function ScanLeft(): nat
      reads this
    {
      if scanPtr == 0 && state == MsInvalid then 0 else BlocksFrom(scanPtr) + 1
    }

    /** What is left to do: unmarked objects, phase, blocks ahead of the scan, words stacked. */
    ghost function Remaining(): Effort
      requires Shape()
      reads this, markStack
    {
      Effort(Unmarked(), Rank(state, objectsAreMarked), ScanLeft(), StackWords(Stk()))
    }

    lemma FewerUnmarked(m: set<nat>)
      requires m <= marked <= heap.objs.Keys && m != marked
      ensures Unmarked() < |heap.objs.Keys - m|
    {
      var o :| o in marked && o !in m;
      SubsetSize(heap.objs.Keys - marked, heap.objs.Keys - m - {o});
    }

    /** What a step achieves, compared with marks m, phase st, scan position scan and w
        words on the stack before it: new marks, or a later phase, or progress in the
        phase. */
    ghost predicate Advanced(m: set<nat>, st: MarkState, flag: bool, scan: nat, w: nat)
      requires Shape()
      reads this, markStack
    {
      && (flag ==> objectsAreMarked)
      && (|| marked != m
          || Rank(state, objectsAreMarked) < Rank(st, flag)
          || (state == st && scanPtr != 0 && (st == MsInvalid ==> scan != 0) && BlocksFrom(scanPtr) < BlocksFrom(scan))
          || (state == st == MsInvalid && scanPtr == 0 && scan != 0)
          || (state == st && scanPtr == scan && StackWords(Stk()) < w))
    }

    /** Marks from a non-empty stack, in whatever phase. */
    method Drain(ghost k: set<nat>)
      requires Valid() && Confined(k) && top >= 0
      modifies this`marked, this`top, this`state, this`tooSmall, this`objectsAreMarked, markStack
      ensures Valid() && Confined(k)
      ensures old(marked) <= marked && objectsAreMarked && state != MsNone &&
        (state == MsInvalid || state == old(state))
      ensures state != old(state) || old(tooSmall) ==> tooSmall
      ensures marked != old(marked) || (state == old(state) && StackWords(Stk()) < StackWords(old(Stk())))
    {
      hide Heap.BlocksOk, Heap.ObjectsOk, Heap.NamesOk, InvariantI, Extends, Closed, Bounded, RootsDone, RootsLand,
           StackWords, Swept;
      ghost var m, s := marked, Stk();
      var overflow;
      ghost var considered;
      overflow, considered := MarkFrom(k);
      ConfinedAreObjects(heap, marked, Stk(), k);
      if overflow {
        InvalidHolds(heap, marked, Stk(), scanPtr, dirty, grungy);
      } else {
        if tracked {
          InvariantExtends(heap, m, s, marked, Stk(), state, scanPtr, dirty, grungy);
        }
        if rootsFresh && state == MsRootsPushed {
          RootsDoneExtends(heap, roots, m, s, marked, Stk());
        }
      }
    }

    /** The end of a sweep in a tracked phase: pushes the roots and leaves the phase. */
    method FinishSweep(ghost k: set<nat>)
      requires Basic() && Confined(k) && RootsLand(heap, roots, k)
      requires tracked && InvariantI(heap, marked, Stk(), MsRootsPushed, 0, dirty, grungy)
      requires top + |roots.ranges| < markStack.Length && scanPtr == 0
      requires state == MsPushRescuers || state == MsPushUncollectable || state == MsPartiallyInvalid
      requires incremental || dirty == {}
      modifies this`marked, this`top, this`state, this`tooSmall, this`objectsAreMarked, this`rootsFresh, markStack
      ensures Valid() && Confined(k)
      ensures old(marked) <= marked && objectsAreMarked && rootsFresh
      ensures state == MsInvalid || old(tooSmall) ==> tooSmall
      ensures state == MsRootsPushed || (state == MsInvalid && marked != old(marked))
    {
      hide Heap.BlocksOk, Heap.ObjectsOk, Heap.NamesOk, InvariantI, Extends, Closed, Bounded, RootsDone, RootsLand,
           StackWords, Swept;
      ghost var m, s := marked, Stk();
      var overflow := PushRoots(k);
      objectsAreMarked := true;
      rootsFresh := true;
      ConfinedAreObjects(heap, marked, Stk(), k);
      if overflow {
        InvalidHolds(heap, marked, Stk(), scanPtr, dirty, grungy);
      } else {
        InvariantExtends(heap, m, s, marked, Stk(), MsRootsPushed, 0, dirty, grungy);
      }
      if state != MsInvalid {
        state := MsRootsPushed;
      }
    }

    method StepRescuers(ghost k: set<nat>)
      requires Valid() && Confined(k) && RootsLand(heap, roots, k) && state == MsPushRescuers
      modifies this`marked, this`top, this`state, this`tooSmall, this`objectsAreMarked, this`scanPtr, this`rootsFresh,
               markStack
      ensures Valid() && Confined(k)
      ensures old(marked) <= marked && state != MsNone
      ensures state == MsInvalid || old(tooSmall) ==> tooSmall
      ensures old(top) >= old(markStack.Length) - 2048 ==> scanPtr == old(scanPtr) && tooSmall
      ensures old(top) < old(markStack.Length) - 2048 ==> scanPtr == 0 || old(scanPtr) < scanPtr
      ensures (old(rootsFresh) ==> rootsFresh) && (state == MsRootsPushed ==> rootsFresh)
      ensures Advanced(old(marked), old(state), old(objectsAreMarked), old(scanPtr), StackWords(old(Stk())))
    {
      hide Heap.BlocksOk, Heap.ObjectsOk, Heap.NamesOk, InvariantI, Extends, Closed, Bounded, RootsDone, RootsLand,
           StackWords, Swept;
      if top >= markStack.Length - INITIAL_MARK_STACK_SIZE / 2 {
        tooSmall := true;
        Drain(k);
      } else {
        ghost var s, from := Stk(), scanPtr;
        scanPtr := PushNextMarkedDirty(scanPtr, k);
        SweepAdvances(heap, marked, s, Stk(), state, from, scanPtr, dirty, grungy);
        if scanPtr == 0 {
          FinishSweep(k);
        }
      }
    }

    method StepUncollectable(ghost k: set<nat>)
      requires Valid() && Confined(k) && RootsLand(heap, roots, k) && state == MsPushUncollectable
      modifies this`marked, this`top, this`state, this`tooSmall, this`objectsAreMarked, this`scanPtr, this`rootsFresh,
               markStack
      ensures Valid() && Confined(k)
      ensures old(marked) <= marked && state != MsNone
      ensures state == MsInvalid || old(tooSmall) ==> tooSmall
      ensures old(top) >= old(markStack.Length) / 4 ==> scanPtr == old(scanPtr)
      ensures old(top) < old(markStack.Length) / 4 ==> scanPtr == 0 || old(scanPtr) < scanPtr
      ensures (old(rootsFresh) ==> rootsFresh) && (state == MsRootsPushed ==> rootsFresh)
      ensures Advanced(old(marked), old(state), old(objectsAreMarked), old(scanPtr), StackWords(old(Stk())))
    {
      hide Heap.BlocksOk, Heap.ObjectsOk, Heap.NamesOk, InvariantI, Extends, Closed, Bounded, RootsDone, RootsLand,
           StackWords, Swept;
      if top >= markStack.Length / 4 {
        Drain(k);
      } else {
        ghost var s, from := Stk(), scanPtr;
        scanPtr := PushNextMarkedUncollectable(scanPtr, k);
        SweepAdvances(heap, marked, s, Stk(), state, from, scanPtr, dirty, grungy);
        if scanPtr == 0 {
          FinishSweep(k);
        }
      }
    }

    /** One block of the sweep for marked objects, or its end. */
    method SweepInvalid(ghost k: set<nat>)
      requires Basic() && Confined(k) && RootsLand(heap, roots, k) && objectsAreMarked && top == -1
      requires state == MsPartiallyInvalid || (state == MsInvalid && scanPtr != 0)
      requires (incremental || state == MsPartiallyInvalid ==> tracked) && (incremental || dirty == {})
      requires tracked ==> InvariantI(heap, marked, Stk(), state, scanPtr, dirty, grungy)
      modifies this`marked, this`top, this`state, this`tooSmall, this`objectsAreMarked, this`scanPtr, this`rootsFresh,
               markStack
      ensures Valid() && Confined(k)
      ensures old(marked) <= marked && objectsAreMarked && state != MsNone
      ensures state == MsInvalid && old(state) != MsInvalid ==> tooSmall
      ensures (old(rootsFresh) ==> rootsFresh) && (state == MsRootsPushed ==> rootsFresh)
      ensures Advanced(old(marked), old(state), old(objectsAreMarked), old(scanPtr), 0)
    {
      hide Heap.BlocksOk, Heap.ObjectsOk, Heap.NamesOk, InvariantI, Extends, Closed, Bounded, RootsDone, RootsLand,
           StackWords, Swept;
      ghost var s, from := Stk(), scanPtr;
      scanPtr := PushNextMarked(scanPtr, k);
      if state == MsPartiallyInvalid {
        SweepAdvances(heap, marked, s, Stk(), state, from, scanPtr, dirty, grungy);
        if scanPtr == 0 {
          FinishSweep(k);
        }
      } else {
        InvalidHolds(heap, marked, Stk(), scanPtr, dirty, grungy);
      }
    }

    /** The first step after the marks were cleared: only uncollectable objects are marked. */
    method StartUncollectable()
      requires Valid() && tracked && state == MsInvalid && !objectsAreMarked
      modifies this`state
      ensures Valid() && state == MsPushUncollectable
    {
      hide Heap.BlocksOk, Heap.ObjectsOk, Heap.NamesOk;
      state := MsPushUncollectable;
    }

    /** The start of a sweep: every marked object is still ahead of the scan. */
    method StartPartial(available: bool)
      requires Valid() && tracked && state == MsInvalid && objectsAreMarked && scanPtr == 0 && top == -1
      modifies this`state, this`markStack, this`top, this`tooSmall
      ensures Basic() && top == -1 && state == MsPartiallyInvalid
      ensures markStack == old(markStack) || fresh(markStack)
      ensures markStack.Length == (if old(tooSmall) && available then 2 else 1) * old(markStack.Length) && !tooSmall
      ensures InvariantI(heap, marked, Stk(), state, scanPtr, dirty, grungy)
      ensures Stk() == old(Stk()) == []
    {
      hide Heap.BlocksOk, Heap.ObjectsOk, Heap.NamesOk;
      if tooSmall {
        AllocMarkStack(2 * markStack.Length, available);
      }
      state := MsPartiallyInvalid;
    }

    /** MS_INVALID and MS_PARTIALLY_INVALID: the heap is swept for marked objects, and
        swept again from its start if an overflow happened under way. */
    method StepInvalid(available: bool, ghost k: set<nat>)
      requires Valid() && tracked && Confined(k) && RootsLand(heap, roots, k)
      requires state == MsInvalid || state == MsPartiallyInvalid
      modifies this`marked, this`top, this`state, this`tooSmall, this`objectsAreMarked, this`scanPtr, this`rootsFresh,
               this`markStack, markStack
      ensures Valid() && Confined(k)
      ensures markStack == old(markStack) || fresh(markStack)
      ensures old(marked) <= marked && state != MsNone
      ensures state == MsInvalid && old(state) != MsInvalid ==> tooSmall
      ensures var grows := old(objectsAreMarked && top == -1 && scanPtr == 0 && state == MsInvalid && tooSmall);
        markStack.Length == (if grows && available then 2 else 1) * old(markStack.Length)
      ensures (old(rootsFresh) ==> rootsFresh) && (state == MsRootsPushed ==> rootsFresh)
      ensures Advanced(old(marked), old(state), old(objectsAreMarked), old(scanPtr), StackWords(old(Stk())))
    {
      hide Heap.BlocksOk, Heap.ObjectsOk, Heap.NamesOk, InvariantI, Extends, Closed, Bounded, RootsDone, RootsLand,
           StackWords, Swept;
      if !objectsAreMarked {
        StartUncollectable();
      } else if top >= 0 {
        Drain(k);
      } else {
        if scanPtr == 0 && state == MsInvalid {
          StartPartial(available);
        }
        SweepInvalid(k);
      }
    }

    method StepRootsPushed(available: bool, ghost k: set<nat>) returns (done: bool)
      requires Valid() && Confined(k) && state == MsRootsPushed
      modifies this`marked, this`top, this`state, this`tooSmall, this`objectsAreMarked, this`markStack, markStack
      ensures Valid() && Confined(k)
      ensures markStack == old(markStack) || fresh(markStack)
      ensures old(marked) <= marked
      ensures markStack.Length == (if done && old(tooSmall) && available then 2 else 1) * old(markStack.Length)
      ensures if done then !tooSmall else state == MsInvalid ==> tooSmall
      ensures done <==> old(top) == -1
      ensures done ==> state == MsNone && marked == old(marked) && objectsAreMarked
      ensures !done ==> state != MsNone
      ensures !done ==> Advanced(old(marked), old(state), old(objectsAreMarked), old(scanPtr), StackWords(old(Stk())))
    {
      hide Heap.BlocksOk, Heap.ObjectsOk, Heap.NamesOk, InvariantI, Extends, Closed, Bounded, RootsDone, RootsLand,
           StackWords, Swept;
      if top >= 0 {
        Drain(k);
        done := false;
      } else {
        ghost var s := Stk();
        PhaseDone(heap, marked, s, scanPtr, dirty, grungy);
        state := MsNone;
        if tooSmall {
          AllocMarkStack(2 * markStack.Length, available);
        }
        assert Stk() == s;
        done := true;
      }
    }

    method Step(available: bool, ghost k: set<nat>) returns (done: bool)
      requires Valid() && tracked && Confined(k) && RootsLand(heap, roots, k) && state != MsNone
      modifies this`marked, this`top, this`state, this`tooSmall, this`objectsAreMarked, this`scanPtr, this`rootsFresh,
               this`markStack, markStack
      ensures Valid() && Confined(k)
      ensures markStack == old(markStack) || fresh(markStack)
      ensures old(marked) <= marked
      ensures state == MsInvalid && old(state) != MsInvalid ==> tooSmall
      ensures markStack.Length == old(markStack.Length) ||
        (old(tooSmall) && available && markStack.Length == 2 * old(markStack.Length))
      ensures done && old(tooSmall) && available ==> markStack.Length == 2 * old(markStack.Length)
      ensures done ==> state == MsNone && old(state) == MsRootsPushed && objectsAreMarked
      ensures done ==> marked == old(marked) && rootsFresh == old(rootsFresh)
      ensures (old(rootsFresh) ==> rootsFresh) && (old(state) != MsRootsPushed && state == MsRootsPushed ==> rootsFresh)
      ensures !done ==> state != MsNone
      ensures !done ==> Advanced(old(marked), old(state), old(objectsAreMarked), old(scanPtr), StackWords(old(Stk())))
    {
      hide Heap.BlocksOk, Heap.ObjectsOk, Heap.NamesOk, InvariantI, Extends, Closed, Bounded, RootsDone, RootsLand,
           StackWords, Swept;
      done := false;
      match state {
        case MsPushRescuers => StepRescuers(k);
        case MsPushUncollectable => StepUncollectable(k);
        case MsRootsPushed => done := StepRootsPushed(available, k);
        case MsInvalid => StepInvalid(available, k);
        case MsPartiallyInvalid => StepInvalid(available, k);
      }
    }

    /** Performs a small amount of marking; true when a mark phase has just finished. */
    method MarkSome(available: bool, ghost k: set<nat>) returns (done: bool)
      requires Valid() && tracked && Confined(k) && RootsLand(heap, roots, k)
      modifies this`marked, this`top, this`state, this`tooSmall, this`objectsAreMarked, this`scanPtr, this`rootsFresh,
               this`markStack, markStack
      ensures Valid() && Confined(k)
      ensures markStack == old(markStack) || fresh(markStack)
      ensures old(marked) <= marked
      ensures state == MsInvalid && old(state) != MsInvalid ==> tooSmall
      ensures markStack.Length == old(markStack.Length) ||
        (old(tooSmall) && available && markStack.Length == 2 * old(markStack.Length))
      ensures done && old(tooSmall) && available ==> markStack.Length == 2 * old(markStack.Length)
      ensures done ==> state == MsNone && old(state) == MsRootsPushed && objectsAreMarked
      ensures done ==> marked == old(marked) && rootsFresh == old(rootsFresh)
      ensures old(state) == MsNone ==> state == MsNone && !done
      ensures (old(rootsFresh) ==> rootsFresh) && (old(state) != MsRootsPushed && state == MsRootsPushed ==> rootsFresh)
      ensures old(state) != MsNone && !done ==> state != MsNone && Remaining().Less(old(Remaining()))
    {
      hide Heap.BlocksOk, Heap.ObjectsOk, Heap.NamesOk, InvariantI, Extends, Closed, Bounded, RootsDone, RootsLand,
           StackWords, Swept;
      done := false;
      if state != MsNone {
        ghost var m, st, flag, scan, w := marked, state, objectsAreMarked, scanPtr, StackWords(Stk());
        done := Step(available, k);
        if !done {
          ConfinedAreObjects(heap, marked, Stk(), k);
          AdvancedBelow(m, st, flag, scan, w);
        }
      }
    }

    lemma AdvancedBelow(m: set<nat>, st: MarkState, flag: bool, scan: nat, w: nat)
      requires Shape() && m <= marked <= heap.objs.Keys && st != MsNone
      requires Advanced(m, st, flag, scan, w)
      ensures Remaining().Less(Effort(|heap.objs.Keys - m|, Rank(st, flag),
                                      if scan == 0 && st == MsInvalid then 0 else BlocksFrom(scan) + 1, w))
    {
      if marked != m {
        FewerUnmarked(m);
      }
    }

    lemma FinishedIsComplete()
      requires Valid() && state == MsNone && tracked && rootsFresh && dirty == {}
      ensures Closed(heap, marked) && RootsLand(heap, roots, marked)
    {
      hide Heap.Valid, InvariantI, Closed, RootsLand, RootsDone;
      assert Stk() == [];
      FinishedIsClosed(heap, roots, marked, grungy);
    }

    /** No phase is under way: nothing is stacked or dirty. */
    ghost predicate Idle()
      reads this, markStack
    {
      && Basic()
      && state == MsNone && top == -1 && scanPtr == 0 && dirty == {}
      && tracked && rootsFresh && objectsAreMarked
    }

    /** The state in which a completed mark phase leaves the collector: nothing stacked or
        dirty, and the marks are closed and hold the root targets. */
    ghost predicate Quiet()
      reads this, markStack
      ensures Quiet() ==> Shape() && state == MsNone
    {
      Idle() && Closed(heap, marked) && RootsLand(heap, roots, marked)
    }

    lemma IdleIsQuiet()
      ensures Idle() && Closed(heap, marked) && RootsLand(heap, roots, marked) <==> Quiet()
    {
    }

    lemma FinishedIsQuiet()
      requires Valid() && state == MsNone && tracked && rootsFresh && dirty == {} && objectsAreMarked
      ensures Quiet()
    {
      FinishedIsComplete();
      hide InvariantI, Closed, RootsLand, RootsDone, Heap.Valid;
    }

    lemma QuietIsValid()
      requires Quiet()
      ensures Valid()
    {
      hide Heap.BlocksOk, Heap.ObjectsOk, Heap.NamesOk;
      ClosedIsDone(heap, roots, marked, grungy);
      assert Stk() == [];
    }

    lemma ConfinedByAll()
      requires Valid()
      ensures Confined(heap.objs.Keys) && RootsLand(heap, roots, heap.objs.Keys)
    {
      hide InvariantI, RootsDone;
      AllObjectsConfine(heap, roots, marked, Stk());
    }

    // ------------------------------------------------------------ starting a phase

    /** Starts a mark phase: from valid marks with the grungy pages, or from scratch when
        the marks are invalid. Entered in no other state. */
    method InitiateGc()
      requires Valid() && (state == MsInvalid || (state == MsNone && incremental))
      requires state == MsInvalid && !objectsAreMarked ==> top == -1
      modifies this`state, this`scanPtr, this`dirty, this`grungy, this`tracked
      ensures Valid() && tracked && dirty == {}
      ensures state == if old(state) == MsNone then MsPushRescuers else MsInvalid
      ensures old(state) == MsNone ==> grungy == old(dirty)
    {
      hide Heap.BlocksOk, Heap.ObjectsOk, Heap.NamesOk, InvariantI, RootsDone;
      if state == MsNone {
        GrungyStandsForDirty();
      }
      if incremental {
        if state != MsInvalid {
          grungy := dirty;
        }
        dirty := {};
      }
      if state == MsNone {
        state := MsPushRescuers;
      } else {
        InvalidHolds(heap, marked, Stk(), 0, dirty, grungy);
        tracked := true;
      }
      scanPtr := 0;
    }

    /** Dirty pages of a finished phase become the rescuers of the next one. */
    lemma GrungyStandsForDirty()
      requires Shape() && InvariantI(heap, marked, Stk(), MsNone, scanPtr, dirty, grungy)
      ensures InvariantI(heap, marked, Stk(), MsPushRescuers, 0, {}, dirty)
    {
    }

    /** Flushes the mark stack and gives up the current phase. */
    method InvalidateMarkState()
      requires Valid()
      modifies this`state, this`top, this`tracked
      ensures Basic() && state == MsInvalid && top == -1
      ensures if incremental then tracked else Valid() && dirty == {}
    {
      hide Heap.BlocksOk, Heap.ObjectsOk, Heap.NamesOk, InvariantI, RootsDone;
      state := MsInvalid;
      top := -1;
      if !incremental {
        tracked := false;
      }
    }

    /** Clears every mark except those of uncollectable objects. */
    method ClearMarks()
      requires Basic() && top == -1 && (incremental ==> tracked) && (!incremental ==> dirty == {})
      modifies this`marked, this`state, this`scanPtr, this`objectsAreMarked
      ensures Valid() && state == MsInvalid && top == -1 && !objectsAreMarked
      ensures marked == set o | o in old(marked) && heap.Uncollectable(o)
    {
      hide Heap.BlocksOk, Heap.ObjectsOk, Heap.NamesOk, RootsDone;
      marked := set o | o in marked && heap.Uncollectable(o);
      objectsAreMarked := false;
      state := MsInvalid;
      scanPtr := 0;
    }

    method ClearMarksWhenIdle()
      requires Valid() && incremental && state == MsNone
      modifies this`marked, this`state, this`scanPtr, this`objectsAreMarked
      ensures Valid() && state == MsInvalid && top == -1 && !objectsAreMarked
      ensures marked == set o | o in old(marked) && heap.Uncollectable(o)
    {
      hide Heap.BlocksOk, Heap.ObjectsOk, Heap.NamesOk, RootsDone, InvariantI;
      ClearMarks();
    }

    lemma IdleStack()
      requires Valid() && state == MsNone
      ensures top == -1
    {
    }

    // ------------------------------------------------------------ reclaiming

    /** Frees exactly the blocks without marked objects, and leaves mem in memory. With closed
        marks, everything reachable stays, and stays marked. */
    method Reclaim(mem: map<nat, nat>)
      requires Idle() && SweepsOnly(heap, roots, marked, mem)
      modifies this`heap
      ensures Idle() && heap == Reclaimed(old(heap), marked, mem) && marked <= heap.objs.Keys
      ensures heap.mem == mem && KeptBeside(old(heap), marked, heap)
      ensures forall b :: b in heap.blocks <==>
        b in old(heap.blocks) && exists o :: o in old(heap.blocks)[b].objects && o in marked
      ensures forall b :: b in heap.blocks ==> heap.blocks[b] == old(heap.blocks)[b]
      ensures old(Quiet()) ==> Quiet()
      ensures old(Quiet()) ==>
        forall seeds: set<nat> :: seeds <= marked ==>
          ReachableSet(heap, roots, seeds) == old(ReachableSet(heap, roots, seeds)) <= marked
    {
      ghost var h := heap;
      assert h.Valid() && marked <= h.objs.Keys;
      hide Idle, Quiet, Heap.Valid, Reclaimed, ReachableSet, SweepsOnly, KeptBeside;
      if Quiet() {
        QuietIsClosed();
        forall seeds: set<nat> | seeds <= marked
          ensures ReachableSet(Reclaimed(h, marked, mem), roots, seeds) == ReachableSet(h, roots, seeds) <= marked
        {
          SameReachable(h, roots, marked, mem, seeds);
        }
      }
      DropBlocks(mem);
      ReclaimedExactly(h, marked, mem);
    }

    lemma QuietIsClosed()
      requires Quiet()
      ensures Closed(heap, marked) && RootsLand(heap, roots, marked)
    {
    }

    method DropBlocks(mem: map<nat, nat>)
      requires Idle() && SweepsOnly(heap, roots, marked, mem)
      modifies this`heap
      ensures Idle() && heap == Reclaimed(old(heap), marked, mem) && marked <= heap.objs.Keys
      ensures old(Quiet()) ==> Quiet()
    {
      ReclaimedValid(heap, marked, mem);
      forall o | o in marked ensures o in Reclaimed(heap, marked, mem).objs { MarkedStays(heap, marked, mem, o); }
      hide Heap.Valid, Closed, RootsLand, Reclaimed, SweepsOnly;
      if Quiet() {
        ReclaimedClosed(heap, roots, marked, mem);
      }
      heap := Reclaimed(heap, marked, mem);
    }

    /** With an empty stack, the marks are confined to what can be reached from them. */
    lemma StartConfined()
      requires Valid() && top == -1
      ensures Confined(ReachableSet(heap, roots, marked)) && RootsLand(heap, roots, ReachableSet(heap, roots, marked))
    {
      hide InvariantI, RootsDone, Closed, RootsLand;
      ReachableSetClosed(heap, roots, marked);
      assert Stk() == [];
    }

    // ------------------------------------------------------------ the mutator

    /** Writes v to the word at a. In incremental mode the page becomes dirty; otherwise
        the mutator only runs while no marking is under way. */
    method Store(a: nat, v: nat)
      requires Valid() && (incremental || state == MsNone || state == MsInvalid)
      modifies this`heap, this`dirty, this`tracked, this`rootsFresh
      ensures Valid() && heap == old(heap).(mem := old(heap).mem[a := v])
      ensures dirty == if incremental then old(dirty) + {PageOf(a)} else old(dirty)
    {
      hide Heap.BlocksOk, Heap.ObjectsOk, Heap.NamesOk, Heap.Valid, InvariantI, RootsDone;
      StoreKeepsInvariant(a, v);
      StoreKeepsHeap(heap, a, v);
      heap := heap.(mem := heap.mem[a := v]);
      rootsFresh := false;
      if incremental {
        dirty := dirty + {PageOf(a)};
      } else {
        tracked := false;
      }
    }

    lemma StoreKeepsInvariant(a: nat, v: nat)
      requires Shape()
      ensures InvariantI(heap, marked, Stk(), state, scanPtr, dirty, grungy) ==>
        InvariantI(heap.(mem := heap.mem[a := v]), marked, Stk(), state, scanPtr, dirty + {PageOf(a)}, grungy)
    {
      var h' := heap.(mem := heap.mem[a := v]);
      forall o, b: nat |
        InvariantI(heap, marked, Stk(), state, scanPtr, dirty, grungy) && o in marked && h'.WordOf(o, b) && b != a
        ensures PageOf(b) in dirty || WordOk(h', marked, Stk(), b) || Exempt(h', state, scanPtr, grungy, o, b)
      {
        assert heap.WordOf(o, b);
        assert h'.Read(b) == heap.Read(b);
      }
    }

    static lemma StoreKeepsHeap(h: Heap, a: nat, v: nat)
      requires h.Valid()
      ensures h.(mem := h.mem[a := v]).Valid()
    {
    }

    /** The mutator's registers and stacks change freely. */
    method SetRegisters(r: seq<nat>)
      requires Valid() && (incremental || state == MsNone || state == MsInvalid)
      modifies this`roots, this`rootsFresh
      ensures Valid() && roots == Roots(old(roots.ranges), r)
    {
      hide Heap.BlocksOk, Heap.ObjectsOk, Heap.NamesOk, InvariantI, RootsDone;
      roots := Roots(roots.ranges, r);
      rootsFresh := false;
    }

    /** A block is allocated, whatever its memory holds; its pages count as dirty, and objects of
        uncollectable kinds may come marked. In incremental mode everything stays in order exactly
        if no clean word of a marked object already holds a value that now becomes a pointer to
        an unmarked object of the block. */
    method AllocateBlock(b: nat, block: Block, names': map<nat, nat>, preMarked: set<nat>)
      requires Valid() && (incremental || state == MsNone || state == MsInvalid)
      requires NewBlockOk(heap, b, block, names')
      requires (forall o :: o in preMarked ==> o in block.objects) && (preMarked != {} ==> block.uncollectable)
      modifies this`heap, this`marked, this`dirty, this`tracked, this`rootsFresh
      ensures Basic()
      ensures Valid() <==>
        (incremental ==> old(NoStaleWord(heap, marked, preMarked, Stk(), state, scanPtr, dirty, grungy, names')))
      ensures heap.blocks == old(heap.blocks)[b := block] && heap.names == old(heap.names) + names'
      ensures heap.mem == old(heap.mem) && heap.least == old(heap.least) && heap.greatest == old(heap.greatest)
      ensures forall o :: o in heap.objs <==> o in old(heap.objs) || o in block.objects
      ensures forall o :: o in heap.objs ==> heap.objs[o] == if o in block.objects then b else old(heap.objs)[o]
      ensures marked == old(marked) + preMarked
      ensures dirty == if incremental then old(dirty) + Pages(b, block.span) else old(dirty)
    {
      hide Heap.BlocksOk, Heap.ObjectsOk, Heap.NamesOk, Heap.Valid, InvariantI, RootsDone, NoStaleWord, PlaceOk,
           NewNamesOk, NewWordsOk, WithBlock;
      WithBlockValid(heap, b, block, names');
      WithBlockHas(heap, b, block, names');
      WithBlockMarks(heap, b, block, names', marked, preMarked);
      if incremental {
        StaleWordBreaks(heap, b, block, names', marked, preMarked, Stk(), state, scanPtr, dirty, grungy);
      }
      heap := WithBlock(heap, b, block, names');
      marked := marked + preMarked;
      rootsFresh := false;
      if incremental {
        dirty := dirty + Pages(b, block.span);
      } else {
        tracked := false;
      }
    }
  }

  lemma {:induction false} SubsetSize(x: set<nat>, y: set<nat>)
    requires x <= y
    ensures |x| <= |y|
  {
    if x != {} {
      var e :| e in x;
      SubsetSize(x - {e}, y - {e});
    }
  }
}
