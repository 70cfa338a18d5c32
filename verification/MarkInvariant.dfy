/**
  Invariant I of the marker and its phase-by-phase weakenings, stated on values,
  with the lemmas that say how pushing, scanning and discarding affect it.
*/
module MarkInvariant {
  import opened MarkHeap

  datatype MarkState =
    | MsNone | MsPushRescuers | MsPushUncollectable | MsRootsPushed | MsPartiallyInvalid | MsInvalid

  predicate InRange(e: Mse, a: nat) {
    e.start <= a < e.start + e.len
  }

  ghost predicate Pending(s: seq<Mse>, a: nat) {
    exists i :: 0 <= i < |s| && InRange(s[i], a)
  }

  /** The object that v points to, if there is one, is in m. */
  predicate Lands(h: Heap, v: nat, m: set<nat>) {
    v in h.names ==> h.names[v] in m
  }

  /** The word at a has been dealt with: its target is marked, or it is still on the stack. */
  ghost predicate WordOk(h: Heap, m: set<nat>, s: seq<Mse>, a: nat) {
    Pending(s, a) || Lands(h, h.Read(a), m)
  }

  /** What the phase allows to be missing from Invariant I for word a of object o. */
  ghost predicate Exempt(h: Heap, st: MarkState, scan: nat, grungy: set<nat>, o: nat, a: nat) {
    match st
    case MsNone => false
    case MsRootsPushed => false
    case MsPushRescuers => PageOf(a) in grungy && h.BlockOf(o) >= scan
    case MsPushUncollectable => h.Uncollectable(o) && h.BlockOf(o) >= scan
    case MsPartiallyInvalid => h.BlockOf(o) >= scan
    case MsInvalid => true
  }

  /** Every marked object's words are dirty, dealt with, or exempt in this phase. */
  ghost predicate InvariantI(h: Heap, m: set<nat>, s: seq<Mse>, st: MarkState, scan: nat,
                             dirty: set<nat>, grungy: set<nat>)
  {
    forall o, a: nat :: o in m && h.WordOf(o, a) ==>
      PageOf(a) in dirty || WordOk(h, m, s, a) || Exempt(h, st, scan, grungy, o, a)
  }

  /** All words of every new object are dealt with, and no word got worse. */
  ghost predicate Extends(h: Heap, m: set<nat>, s: seq<Mse>, m': set<nat>, s': seq<Mse>) {
    && m <= m' <= m + h.objs.Keys
    && (forall a :: WordOk(h, m, s, a) ==> WordOk(h, m', s', a))
    && (forall o, a :: o in m' && o !in m && h.WordOf(o, a) ==> WordOk(h, m', s', a))
  }

  lemma ExtendsNone(h: Heap, m: set<nat>, s: seq<Mse>)
    ensures Extends(h, m, s, m, s)
  {
  }

  lemma ExtendsTransitive(h: Heap, m0: set<nat>, s0: seq<Mse>, m1: set<nat>, s1: seq<Mse>, m2: set<nat>, s2: seq<Mse>)
    requires Extends(h, m0, s0, m1, s1) && Extends(h, m1, s1, m2, s2)
    ensures Extends(h, m0, s0, m2, s2)
  {
  }

  /** Invariant I survives every extension, whatever the phase. */
  lemma InvariantExtends(h: Heap, m: set<nat>, s: seq<Mse>, m': set<nat>, s': seq<Mse>,
                         st: MarkState, scan: nat, dirty: set<nat>, grungy: set<nat>)
    requires InvariantI(h, m, s, st, scan, dirty, grungy)
    requires Extends(h, m, s, m', s')
    ensures InvariantI(h, m', s', st, scan, dirty, grungy)
  {
  }

  /** Everything exempt at scan position from is stacked, or exempt at scan position to;
      position 0 means that the sweep is over. */
  ghost predicate Swept(h: Heap, m: set<nat>, s: seq<Mse>, st: MarkState, from: nat, to: nat, grungy: set<nat>) {
    forall o, a: nat :: o in m && h.WordOf(o, a) && Exempt(h, st, from, grungy, o, a) ==>
      Pending(s, a) || (to != 0 && Exempt(h, st, to, grungy, o, a))
  }

  lemma SweepAdvances(h: Heap, m: set<nat>, s: seq<Mse>, s': seq<Mse>, st: MarkState, from: nat, to: nat,
                      dirty: set<nat>, grungy: set<nat>)
    requires InvariantI(h, m, s, st, from, dirty, grungy)
    requires Extends(h, m, s, m, s') && Swept(h, m, s', st, from, to, grungy)
    ensures to != 0 ==> InvariantI(h, m, s', st, to, dirty, grungy)
    ensures to == 0 ==> InvariantI(h, m, s', MsRootsPushed, 0, dirty, grungy)
  {
  }

  lemma PendingAppend(s: seq<Mse>, t: seq<Mse>, a: nat)
    ensures Pending(s + t, a) <==> Pending(s, a) || Pending(t, a)
  {
    if Pending(s, a) {
      var i :| 0 <= i < |s| && InRange(s[i], a);
      assert InRange((s + t)[i], a);
    }
    if Pending(t, a) {
      var i :| 0 <= i < |t| && InRange(t[i], a);
      assert InRange((s + t)[|s| + i], a);
    }
  }

  lemma PendingPrefix(s: seq<Mse>, n: nat, a: nat)
    requires n <= |s| && Pending(s[..n], a)
    ensures Pending(s, a)
  {
    var i :| 0 <= i < n && InRange(s[..n][i], a);
    assert InRange(s[i], a);
  }

  /** The stack entry that stands for object o; pointer-free objects need none. */
  function EntryOf(h: Heap, o: nat): seq<Mse> {
    if h.Descr(o) == 0 then [] else [Mse(o, h.Descr(o))]
  }

  lemma EntryCovers(h: Heap, o: nat, a: nat)
    requires o in h.objs
    ensures Pending(EntryOf(h, o), a) <==> h.WordOf(o, a)
  {
    if h.WordOf(o, a) {
      assert InRange(EntryOf(h, o)[0], a);
    }
  }

  /** Marking o and pushing it extends the marked set and the stack. */
  lemma PushExtends(h: Heap, m: set<nat>, s: seq<Mse>, o: nat)
    requires o in h.objs
    ensures Extends(h, m, s, m + {o}, s + EntryOf(h, o))
  {
    var m', s' := m + {o}, s + EntryOf(h, o);
    forall a: nat
      ensures WordOk(h, m, s, a) ==> WordOk(h, m', s', a)
      ensures h.WordOf(o, a) ==> WordOk(h, m', s', a)
    {
      PendingAppend(s, EntryOf(h, o), a);
      EntryCovers(h, o, a);
    }
  }

  /** The first n words of a range have been scanned; rest still stands for the others. */
  function Rest(e: Mse, n: nat): seq<Mse>
    requires n <= e.len
  {
    if n == e.len then [] else [Mse(e.start + n, e.len - n)]
  }

  lemma RestCovers(e: Mse, n: nat, a: nat)
    requires n <= e.len
    ensures Pending([e], a) <==> e.start <= a < e.start + n || Pending(Rest(e, n), a)
  {
    if Pending([e], a) {
      assert [e][0] == e;
      if e.start + n <= a {
        assert InRange(Rest(e, n)[0], a);
      }
    } else {
      assert !InRange([e][0], a);
    }
  }

  /** Scanning the first n words of the top entry loses nothing. */
  lemma ChunkExtends(h: Heap, m: set<nat>, s: seq<Mse>, e: Mse, n: nat, m': set<nat>, s': seq<Mse>)
    requires n <= e.len
    requires Extends(h, m, s + Rest(e, n), m', s')
    requires forall a :: e.start <= a < e.start + n ==> Lands(h, h.Read(a), m')
    ensures Extends(h, m, s + [e], m', s')
  {
    forall a: nat | WordOk(h, m, s + [e], a)
      ensures WordOk(h, m', s', a)
    {
      PendingAppend(s, [e], a);
      PendingAppend(s, Rest(e, n), a);
      RestCovers(e, n, a);
      assert WordOk(h, m, s + Rest(e, n), a) || e.start <= a < e.start + n;
    }
  }

  // ---------------------------------------------------------------- termination measure

  function StackWords(s: seq<Mse>): nat {
    if s == [] then 0 else StackWords(s[..|s| - 1]) + s[|s| - 1].len
  }

  lemma StackWordsAppend(s: seq<Mse>, e: Mse)
    ensures StackWords(s + [e]) == StackWords(s) + e.len
  {
    assert (s + [e])[..|s|] == s;
  }

  lemma StackWordsChunk(s: seq<Mse>, e: Mse, n: nat)
    requires n <= e.len
    ensures StackWords(s + Rest(e, n)) + n == StackWords(s + [e])
  {
    StackWordsAppend(s, e);
    if n < e.len {
      StackWordsAppend(s, Rest(e, n)[0]);
    } else {
      assert s + Rest(e, n) == s;
    }
  }

  // ---------------------------------------------------------------- confinement

  /** K is closed: whatever a word of one of its objects points to is in K. */
  ghost predicate Closed(h: Heap, k: set<nat>) {
    && k <= h.objs.Keys
    && (forall o, a :: o in k && h.WordOf(o, a) ==> Lands(h, h.Read(a), k))
  }

  /** Nothing outside K is marked or will be found on the stack. */
  ghost predicate Bounded(h: Heap, m: set<nat>, s: seq<Mse>, k: set<nat>) {
    && m <= k
    && (forall a :: Pending(s, a) ==> Lands(h, h.Read(a), k))
  }

  lemma BoundedPush(h: Heap, m: set<nat>, s: seq<Mse>, k: set<nat>, o: nat)
    requires Closed(h, k) && Bounded(h, m, s, k) && o in k
    ensures Bounded(h, m + {o}, s + EntryOf(h, o), k)
  {
    forall a | Pending(s + EntryOf(h, o), a)
      ensures Lands(h, h.Read(a), k)
    {
      PendingAppend(s, EntryOf(h, o), a);
      EntryCovers(h, o, a);
    }
  }

  /** Discarding entries keeps the stack bounded. */
  lemma BoundedPrefix(h: Heap, m: set<nat>, s: seq<Mse>, k: set<nat>, n: nat)
    requires Bounded(h, m, s, k) && n <= |s|
    ensures Bounded(h, m, s[..n], k)
  {
    forall a | Pending(s[..n], a) ensures Lands(h, h.Read(a), k) {
      PendingPrefix(s, n, a);
    }
  }

  lemma BoundedChunk(h: Heap, m: set<nat>, s: seq<Mse>, k: set<nat>, e: Mse, n: nat)
    requires n <= e.len && Bounded(h, m, s + [e], k)
    ensures Bounded(h, m, s + Rest(e, n), k)
    ensures forall a :: e.start <= a < e.start + n ==> Lands(h, h.Read(a), k)
  {
    forall a: nat
      ensures Pending(s + Rest(e, n), a) || e.start <= a < e.start + n ==> Lands(h, h.Read(a), k)
    {
      PendingAppend(s, [e], a);
      PendingAppend(s, Rest(e, n), a);
      RestCovers(e, n, a);
    }
  }

  // ---------------------------------------------------------------- reachability

  /** The words and register values a collection starts from. */
  datatype Roots = Roots(ranges: seq<Mse>, registers: seq<nat>)

  ghost predicate RootsLand(h: Heap, r: Roots, k: set<nat>) {
    && (forall a :: Pending(r.ranges, a) ==> Lands(h, h.Read(a), k))
    && (forall v :: v in r.registers ==> Lands(h, v, k))
  }

  /** Invariant I for the roots: every root word and register has been dealt with. */
  ghost predicate RootsDone(h: Heap, r: Roots, m: set<nat>, s: seq<Mse>) {
    && (forall a :: Pending(r.ranges, a) ==> WordOk(h, m, s, a))
    && (forall v :: v in r.registers ==> Lands(h, v, m))
  }

  lemma RootsDoneExtends(h: Heap, r: Roots, m: set<nat>, s: seq<Mse>, m': set<nat>, s': seq<Mse>)
    requires RootsDone(h, r, m, s) && Extends(h, m, s, m', s')
    ensures RootsDone(h, r, m', s')
  {
  }

  lemma ConfinedAreObjects(h: Heap, m: set<nat>, s: seq<Mse>, k: set<nat>)
    requires Closed(h, k) && Bounded(h, m, s, k)
    ensures m <= h.objs.Keys && m <= k
  {
  }

  /** MS_INVALID promises nothing. */
  lemma InvalidHolds(h: Heap, m: set<nat>, s: seq<Mse>, scan: nat, dirty: set<nat>, grungy: set<nat>)
    ensures InvariantI(h, m, s, MsInvalid, scan, dirty, grungy)
  {
  }

  lemma PhaseDone(h: Heap, m: set<nat>, s: seq<Mse>, scan: nat, dirty: set<nat>, grungy: set<nat>)
    requires InvariantI(h, m, s, MsRootsPushed, scan, dirty, grungy)
    ensures InvariantI(h, m, s, MsNone, scan, dirty, grungy)
  {
  }

  ghost predicate Names(h: Heap, v: nat, o: nat) {
    v in h.names && h.names[v] == o
  }

  ghost predicate IsRootTarget(h: Heap, r: Roots, o: nat) {
    || (exists a :: Pending(r.ranges, a) && Names(h, h.Read(a), o))
    || (exists v :: v in r.registers && Names(h, v, o))
  }

  ghost predicate Points(h: Heap, o: nat, t: nat) {
    exists a :: h.WordOf(o, a) && Names(h, h.Read(a), t)
  }

  /** path leads from a root target or a member of seeds along pointers. */
  ghost predicate PathFrom(h: Heap, r: Roots, seeds: set<nat>, path: seq<nat>) {
    && path != []
    && (path[0] in seeds || IsRootTarget(h, r, path[0]))
    && (forall i :: 0 < i < |path| ==> Points(h, path[i - 1], path[i]))
  }

  ghost predicate Reachable(h: Heap, r: Roots, seeds: set<nat>, o: nat) {
    exists path :: PathFrom(h, r, seeds, path) && path[|path| - 1] == o
  }

  /** A closed set that holds the root targets and the seeds holds all that is reachable. */
  lemma ClosedHoldsReachable(h: Heap, r: Roots, seeds: set<nat>, k: set<nat>, o: nat)
    requires Closed(h, k) && RootsLand(h, r, k) && seeds <= k
    requires Reachable(h, r, seeds, o)
    ensures o in k
  {
    var path :| PathFrom(h, r, seeds, path) && path[|path| - 1] == o;
    PathStaysIn(h, r, seeds, k, path, |path| - 1);
  }

  lemma {:induction false} PathStaysIn(h: Heap, r: Roots, seeds: set<nat>, k: set<nat>, path: seq<nat>, i: nat)
    requires Closed(h, k) && RootsLand(h, r, k) && seeds <= k
    requires PathFrom(h, r, seeds, path) && i < |path|
    ensures path[i] in k
  {
    if i > 0 {
      PathStaysIn(h, r, seeds, k, path, i - 1);
      assert Points(h, path[i - 1], path[i]);
    }
  }

  ghost function ReachableSet(h: Heap, r: Roots, seeds: set<nat>): set<nat> {
    set o | o in h.objs && Reachable(h, r, seeds, o)
  }

  /** The reachable objects form a closed set that holds the root targets. */
  lemma ReachableSetClosed(h: Heap, r: Roots, seeds: set<nat>)
    requires h.Valid() && seeds <= h.objs.Keys
    ensures Closed(h, ReachableSet(h, r, seeds))
    ensures RootsLand(h, r, ReachableSet(h, r, seeds))
    ensures seeds <= ReachableSet(h, r, seeds)
  {
    var k := ReachableSet(h, r, seeds);
    forall o, a | o in k && h.WordOf(o, a) ensures Lands(h, h.Read(a), k) {
      StepReachable(h, r, seeds, o, a);
    }
    forall v | v in r.registers && v in h.names ensures h.names[v] in k {
      assert Names(h, v, h.names[v]);
      StartReachable(h, r, seeds, h.names[v]);
    }
    forall a | Pending(r.ranges, a) && h.Read(a) in h.names ensures h.names[h.Read(a)] in k {
      assert Names(h, h.Read(a), h.names[h.Read(a)]);
      StartReachable(h, r, seeds, h.names[h.Read(a)]);
    }
    forall o | o in seeds ensures o in k { StartReachable(h, r, seeds, o); }
  }

  lemma StepReachable(h: Heap, r: Roots, seeds: set<nat>, o: nat, a: nat)
    requires h.Valid() && o in ReachableSet(h, r, seeds) && h.WordOf(o, a)
    ensures Lands(h, h.Read(a), ReachableSet(h, r, seeds))
  {
    if h.Read(a) in h.names {
      var t := h.names[h.Read(a)];
      var path :| PathFrom(h, r, seeds, path) && path[|path| - 1] == o;
      assert Names(h, h.Read(a), t);
      assert Points(h, o, t);
      var longer := path + [t];
      assert PathFrom(h, r, seeds, longer) && longer[|longer| - 1] == t;
    }
  }

  lemma StartReachable(h: Heap, r: Roots, seeds: set<nat>, o: nat)
    requires o in h.objs && (o in seeds || IsRootTarget(h, r, o))
    ensures o in ReachableSet(h, r, seeds)
  {
    var path := [o];
    assert PathFrom(h, r, seeds, path) && path[|path| - 1] == o;
  }

  /** With an empty stack and no dirty page, a finished phase has a closed set of marks. */
  lemma FinishedIsClosed(h: Heap, r: Roots, m: set<nat>, grungy: set<nat>)
    requires m <= h.objs.Keys
    requires InvariantI(h, m, [], MsNone, 0, {}, grungy) && RootsDone(h, r, m, [])
    ensures Closed(h, m) && RootsLand(h, r, m)
  {
    forall o, a | o in m && h.WordOf(o, a) ensures Lands(h, h.Read(a), m) {
      assert WordOk(h, m, [], a);
    }
    forall a | Pending(r.ranges, a) ensures Lands(h, h.Read(a), m) {
      assert WordOk(h, m, [], a);
    }
  }

  lemma ClosedIsDone(h: Heap, r: Roots, m: set<nat>, grungy: set<nat>)
    requires Closed(h, m) && RootsLand(h, r, m)
    ensures InvariantI(h, m, [], MsNone, 0, {}, grungy) && RootsDone(h, r, m, [])
  {
  }

  lemma AllObjectsConfine(h: Heap, r: Roots, m: set<nat>, s: seq<Mse>)
    requires h.NamesOk() && m <= h.objs.Keys
    ensures Closed(h, h.objs.Keys) && Bounded(h, m, s, h.objs.Keys) && RootsLand(h, r, h.objs.Keys)
  {
  }
}
