/**
  How often each word is scanned: counts of stack entries and of objects that stand for a word.
*/
module ScanCounts {
  import opened MarkHeap
  import opened MarkInvariant

  /** How many entries of s stand for word a. */
  function Stacked(s: seq<Mse>, a: nat): nat {
    if s == [] then 0 else Stacked(s[..|s| - 1], a) + (if InRange(s[|s| - 1], a) then 1 else 0)
  }

  /** How many objects of os have word a. */
  ghost function Held(h: Heap, os: set<nat>, a: nat): nat {
    |set o | o in os && h.WordOf(o, a)|
  }

  /** From marks m and stack s to m' and s', each word of each newly marked object has been stacked
      once, and nothing else. */
  ghost predicate StacksNew(h: Heap, m: set<nat>, s: seq<Mse>, m': set<nat>, s': seq<Mse>) {
    m <= m' && forall a: nat :: Stacked(s', a) == Stacked(s, a) + Held(h, m' - m, a)
  }

  /** Nothing is scanned twice or left out: of the plausible words, those considered and those still
      stacked are together those stacked before and those of the newly marked objects. */
  ghost predicate Conserves(h: Heap, considered: multiset<nat>, m: set<nat>, s: seq<Mse>, m': set<nat>, s': seq<Mse>) {
    && m <= m'
    && forall a: nat ::
         if h.Plausible(h.Read(a)) then considered[a] + Stacked(s', a) == Stacked(s, a) + Held(h, m' - m, a)
         else considered[a] == 0
  }

  lemma StackedAppend(s: seq<Mse>, e: Mse, a: nat)
    ensures Stacked(s + [e], a) == Stacked(s, a) + (if InRange(e, a) then 1 else 0)
  {
    assert (s + [e])[..|s|] == s;
  }

  lemma StackedRest(s: seq<Mse>, e: Mse, n: nat, a: nat)
    requires n <= e.len
    ensures Stacked(s + [e], a) == Stacked(s + Rest(e, n), a) + (if e.start <= a < e.start + n then 1 else 0)
  {
    StackedAppend(s, e, a);
    if n < e.len {
      StackedAppend(s, Rest(e, n)[0], a);
    } else {
      assert s + Rest(e, n) == s;
    }
  }

  lemma HeldNone(h: Heap, m: set<nat>, a: nat)
    ensures Held(h, m - m, a) == 0
  {
    assert (set o | o in m - m && h.WordOf(o, a)) == {};
  }

  lemma HeldSum(h: Heap, m0: set<nat>, m1: set<nat>, m2: set<nat>, a: nat)
    requires m0 <= m1 <= m2
    ensures Held(h, m2 - m0, a) == Held(h, m1 - m0, a) + Held(h, m2 - m1, a)
  {
    var x, y := set o | o in m1 - m0 && h.WordOf(o, a), set o | o in m2 - m1 && h.WordOf(o, a);
    assert (set o | o in m2 - m0 && h.WordOf(o, a)) == x + y;
  }

  lemma HeldOne(h: Heap, m: set<nat>, o: nat, a: nat)
    requires o !in m
    ensures Held(h, (m + {o}) - m, a) == if h.WordOf(o, a) then 1 else 0
  {
    var x := set p | p in (m + {o}) - m && h.WordOf(p, a);
    assert x == if h.WordOf(o, a) then {o} else {};
  }

  lemma StacksNone(h: Heap, m: set<nat>, s: seq<Mse>)
    ensures StacksNew(h, m, s, m, s)
  {
    forall a: nat ensures Held(h, m - m, a) == 0 { HeldNone(h, m, a); }
  }

  lemma StacksThen(h: Heap, m0: set<nat>, s0: seq<Mse>, m1: set<nat>, s1: seq<Mse>, m2: set<nat>, s2: seq<Mse>)
    requires StacksNew(h, m0, s0, m1, s1) && StacksNew(h, m1, s1, m2, s2)
    ensures StacksNew(h, m0, s0, m2, s2)
  {
    forall a: nat ensures Stacked(s2, a) == Stacked(s0, a) + Held(h, m2 - m0, a) {
      HeldSum(h, m0, m1, m2, a);
      assert Stacked(s1, a) == Stacked(s0, a) + Held(h, m1 - m0, a);
    }
  }

  lemma PushStacks(h: Heap, m: set<nat>, s: seq<Mse>, o: nat)
    requires o in h.objs && o !in m
    ensures StacksNew(h, m, s, m + {o}, s + EntryOf(h, o))
  {
    forall a: nat ensures Stacked(s + EntryOf(h, o), a) == Stacked(s, a) + Held(h, (m + {o}) - m, a) {
      HeldOne(h, m, o, a);
      if h.Descr(o) == 0 {
        assert s + EntryOf(h, o) == s;
      } else {
        StackedAppend(s, EntryOf(h, o)[0], a);
      }
    }
  }

  /** The first n words of entry e have each been considered once if plausible. */
  lemma ChunkConserves(h: Heap, considered: multiset<nat>, m: set<nat>, s: seq<Mse>, e: Mse, n: nat,
                       m': set<nat>, s': seq<Mse>)
    requires n <= e.len && StacksNew(h, m, s + Rest(e, n), m', s')
    requires forall a: nat ::
      considered[a] == if e.start <= a < e.start + n && h.Plausible(h.Read(a)) then 1 else 0
    ensures Conserves(h, considered, m, s + [e], m', s')
  {
    forall a: nat | h.Plausible(h.Read(a))
      ensures considered[a] + Stacked(s', a) == Stacked(s + [e], a) + Held(h, m' - m, a)
    {
      StackedRest(s, e, n, a);
    }
  }

  lemma ConservesNone(h: Heap, m: set<nat>, s: seq<Mse>)
    ensures Conserves(h, multiset{}, m, s, m, s)
  {
    StacksNone(h, m, s);
  }

  lemma ConservesThen(h: Heap, c1: multiset<nat>, c2: multiset<nat>, m0: set<nat>, s0: seq<Mse>, m1: set<nat>,
                      s1: seq<Mse>, m2: set<nat>, s2: seq<Mse>)
    requires Conserves(h, c1, m0, s0, m1, s1) && Conserves(h, c2, m1, s1, m2, s2)
    ensures Conserves(h, c1 + c2, m0, s0, m2, s2)
  {
    forall a: nat | h.Plausible(h.Read(a))
      ensures (c1 + c2)[a] + Stacked(s2, a) == Stacked(s0, a) + Held(h, m2 - m0, a)
    {
      HeldSum(h, m0, m1, m2, a);
      assert c1[a] + Stacked(s1, a) == Stacked(s0, a) + Held(h, m1 - m0, a);
    }
  }

  /** When the stack has been emptied from nothing but one entry, every plausible word of its range
      has been considered exactly once, and then once more for each newly marked object it is in. */
  lemma DrainedOnce(h: Heap, considered: multiset<nat>, m: set<nat>, e: Mse, m': set<nat>, a: nat)
    requires Conserves(h, considered, m, [e], m', []) && h.Plausible(h.Read(a))
    ensures considered[a] == (if InRange(e, a) then 1 else 0) + Held(h, m' - m, a)
  {
    StackedAppend([], e, a);
    assert [] + [e] == [e];
  }
}
