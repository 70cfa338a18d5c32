/**
  What an operation of the block allocator does to the heap as a whole: which blocks are
  free, which used runs stay as they are, and whether free runs are fully coalesced.
*/
module HeapChanges {
  import opened FreeLists
  import opened HeapSpace

  /** The blocks that belong to free runs. */
  function FreeCells(h: map<nat, Hdr>, owner: map<nat, nat>): set<nat> {
    set k | k in owner && owner[k] in h && h[owner[k]].free
  }

  predicate UsedRun(h: map<nat, Hdr>, b: nat) {
    b in h && !h[b].free
  }

  /** Only the blocks of gone, all of them free before, are no longer free; used runs stay
      as they are, and new ones start in gone. */
  ghost predicate Consumed(h: map<nat, Hdr>, owner: map<nat, nat>, h': map<nat, Hdr>, owner': map<nat, nat>,
                           gone: set<nat>) {
    && owner'.Keys == owner.Keys
    && gone <= FreeCells(h, owner)
    && FreeCells(h', owner') == FreeCells(h, owner) - gone
    && (forall b: nat :: UsedRun(h, b) ==> UsedRun(h', b) && SameRun(h[b], h'[b]))
    && (forall b: nat :: UsedRun(h', b) ==> UsedRun(h, b) || b in gone)
  }

  lemma ConsumedThen(h: map<nat, Hdr>, owner: map<nat, nat>, h1: map<nat, Hdr>, owner1: map<nat, nat>, gone1: set<nat>,
                     h2: map<nat, Hdr>, owner2: map<nat, nat>, gone2: set<nat>)
    requires Consumed(h, owner, h1, owner1, gone1) && Consumed(h1, owner1, h2, owner2, gone2)
    ensures Consumed(h, owner, h2, owner2, gone1 + gone2)
    ensures gone1 !! gone2
  {
    hide FreeCells;
  }

  lemma ConsumedAgain(h: map<nat, Hdr>, owner: map<nat, nat>, h1: map<nat, Hdr>, owner1: map<nat, nat>,
                      h2: map<nat, Hdr>, owner2: map<nat, nat>)
    requires Consumed(h, owner, h1, owner1, {}) && Consumed(h1, owner1, h2, owner2, {})
    ensures Consumed(h, owner, h2, owner2, {})
  {
    ConsumedThen(h, owner, h1, owner1, {}, h2, owner2, {});
    var none: set<nat> := {};
    assert none + none == none;
  }

  lemma SameConsumes(h: map<nat, Hdr>, h': map<nat, Hdr>, owner: map<nat, nat>)
    requires SameRuns(h, h')
    ensures Consumed(h, owner, h', owner, {})
  {
  }

  lemma SplitConsumes(h: map<nat, Hdr>, h': map<nat, Hdr>, owner: map<nat, nat>, b: nat, t: nat)
    requires Tiling(h, owner) && SplitRun(h, h', b, t)
    ensures Consumed(h, owner, h', Reown(owner, t, b + h[b].sz, t), {})
  {
    SplitTiling(h, h', owner, b, t);
    hide Tiling;
    forall k | k in owner ensures owner[k] in h && (t <= k < b + h[b].sz ==> owner[k] == b) {
      Belonging(h, owner, k);
      if t <= k < b + h[b].sz { Belongs(h, owner, b, k); }
    }
  }

  lemma MergeConsumes(h: map<nat, Hdr>, h': map<nat, Hdr>, owner: map<nat, nat>, b: nat, n: nat)
    requires Tiling(h, owner) && MergeRun(h, h', b, n)
    ensures Consumed(h, owner, h', Reown(owner, b, n + h[n].sz, b), {})
  {
    hide Tiling;
    forall k | k in owner
      ensures owner[k] in h && if b <= k < n + h[n].sz then owner[k] == b || owner[k] == n else owner[k] != n
    {
      Belonging(h, owner, k);
      if b <= k < n { Belongs(h, owner, b, k); }
      if n <= k < n + h[n].sz { Belongs(h, owner, n, k); }
    }
  }

  lemma TakeConsumes(h: map<nat, Hdr>, h': map<nat, Hdr>, owner: map<nat, nat>, b: nat)
    requires Tiling(h, owner) && SameExcept(h, h', b) && h[b].free && !h'[b].free
    ensures Consumed(h, owner, h', owner, Blocks(b, h[b].sz))
  {
    RunBlocks(h, owner, b);
    Positive(h, owner, b);
    hide Tiling;
  }

  lemma RunBlocks(h: map<nat, Hdr>, owner: map<nat, nat>, b: nat)
    requires Tiling(h, owner) && b in h
    ensures forall k :: k in Blocks(b, h[b].sz) <==> k in owner && owner[k] == b
  {
    hide Tiling;
    forall k | k in Blocks(b, h[b].sz) ensures k in owner && owner[k] == b { Belongs(h, owner, b, k); }
    forall k | k in owner && owner[k] == b ensures k in Blocks(b, h[b].sz) { Belonging(h, owner, k); }
  }

  lemma ShatterConsumes(h: map<nat, Hdr>, owner: map<nat, nat>, b: nat)
    requires Tiling(h, owner) && b in h && h[b].free
    ensures Consumed(h, owner, Shattered(h, b, h[b].sz), Solo(owner, b, h[b].sz), Blocks(b, h[b].sz))
  {
    hide Tiling, FreeCells;
    var n := h[b].sz;
    var h', owner' := Shattered(h, b, n), Solo(owner, b, n);
    ShatterFreeCells(h, owner, b);
    ShatterUsed(h, owner, b);
    assert owner'.Keys == owner.Keys by { SoloKeys(owner, b, n); }
    hide Shattered, Solo, Blocks;
  }

  lemma ShatterFreeCells(h: map<nat, Hdr>, owner: map<nat, nat>, b: nat)
    requires Tiling(h, owner) && b in h && h[b].free
    ensures Blocks(b, h[b].sz) <= FreeCells(h, owner)
    ensures FreeCells(Shattered(h, b, h[b].sz), Solo(owner, b, h[b].sz)) == FreeCells(h, owner) - Blocks(b, h[b].sz)
  {
    RunBlocks(h, owner, b);
    hide Tiling, Shattered, Solo;
    var n := h[b].sz;
    var h', owner' := Shattered(h, b, n), Solo(owner, b, n);
    assert owner'.Keys == owner.Keys by { SoloKeys(owner, b, n); }
    forall k | k in owner ensures k in FreeCells(h', owner') <==> k in FreeCells(h, owner) - Blocks(b, n) {
      ShatterCell(h, owner, b, k);
    }
  }

  lemma SoloKeys(owner: map<nat, nat>, b: nat, n: nat)
    ensures Solo(owner, b, n).Keys == owner.Keys
  {
  }

  lemma ShatterUsed(h: map<nat, Hdr>, owner: map<nat, nat>, b: nat)
    requires Tiling(h, owner) && b in h && h[b].free
    ensures forall c: nat ::
      UsedRun(h, c) ==> UsedRun(Shattered(h, b, h[b].sz), c) && Shattered(h, b, h[b].sz)[c] == h[c]
    ensures forall c: nat :: UsedRun(Shattered(h, b, h[b].sz), c) ==> UsedRun(h, c) || c in Blocks(b, h[b].sz)
  {
    hide Tiling;
    forall c: nat | UsedRun(h, c) ensures !(b <= c < b + h[b].sz) {
      Apart(h, owner, b, c);
      Positive(h, owner, c);
    }
  }

  lemma ShatterCell(h: map<nat, Hdr>, owner: map<nat, nat>, b: nat, k: nat)
    requires Tiling(h, owner) && b in h && k in owner
    ensures owner[k] in h
    ensures owner[k] == b ==> Shattered(h, b, h[b].sz)[Solo(owner, b, h[b].sz)[k]] == Hdr(0, 0, 1, false, false)
    ensures owner[k] != b ==>
      Solo(owner, b, h[b].sz)[k] == owner[k] && Shattered(h, b, h[b].sz)[owner[k]] == h[owner[k]]
  {
    hide Tiling;
    Belonging(h, owner, k);
    if owner[k] != b { Apart(h, owner, b, owner[k]); }
  }

  // ---------------------------------------------------------------- adjacency

  /** A free run directly in front of another one. */
  predicate FreePair(h: map<nat, Hdr>, b: nat) {
    b in h && h[b].free && b + h[b].sz in h && h[b + h[b].sz].free
  }

  /** No two free runs are adjacent, except for a pair that starts with z or ends with w. */
  ghost predicate Coalesced(h: map<nat, Hdr>, z: nat, w: nat) {
    forall b: nat {:trigger FreePair(h, b)} :: FreePair(h, b) ==> b == z || b + h[b].sz == w
  }

  lemma SameCoalesced(h: map<nat, Hdr>, h': map<nat, Hdr>, z: nat, w: nat)
    requires Coalesced(h, z, w) && SameRuns(h, h')
    ensures Coalesced(h', z, w)
  {
    forall b: nat | FreePair(h', b) ensures FreePair(h, b) {}
  }

  /** Splitting makes one new pair. */
  lemma SplitCoalesced(h: map<nat, Hdr>, h': map<nat, Hdr>, owner: map<nat, nat>, b: nat, t: nat, w: nat)
    requires Tiling(h, owner) && SplitRun(h, h', b, t) && Coalesced(h, 0, w)
    ensures Coalesced(h', b, w)
    ensures w == 0 ==> Coalesced(h', 0, t)
  {
    SplitTiling(h, h', owner, b, t);
    Positive(h, owner, b);
    hide Tiling;
    forall c: nat | FreePair(h', c) ensures c == b || c + h'[c].sz == w
      ensures w == 0 ==> c + h'[c].sz == t
    {
      if c == t {
        assert t + h'[t].sz == b + h[b].sz != t;
        assert FreePair(h, b);
      } else if c != b {
        if c + h'[c].sz == t { Apart(h, owner, b, c); Positive(h, owner, c); }
        assert FreePair(h, c);
      }
    }
  }

  lemma TailPair(h: map<nat, Hdr>, h': map<nat, Hdr>, b: nat, n: nat)
    requires MergeRun(h, h', b, n) && h[n].sz > 0 && FreePair(h', b)
    ensures FreePair(h, n) && FreePair(h, b)
  {
  }

  /** Merging removes the pairs at the merged runs. */
  lemma MergeCoalesced(h: map<nat, Hdr>, h': map<nat, Hdr>, owner: map<nat, nat>, b: nat, n: nat, z: nat, w: nat)
    requires Tiling(h, owner) && MergeRun(h, h', b, n) && Coalesced(h, z, w) && z != n && (z == 0 || (z == b && w == b))
    ensures Coalesced(h', 0, if w == n then 0 else w)
  {
    Positive(h, owner, n);
    hide Tiling;
    forall c: nat | FreePair(h', c) ensures c + h'[c].sz == w && w != n {
      if c == b {
        TailPair(h, h', b, n);
        assert false;
      }
      assert FreePair(h, c);
    }
  }

  lemma TakeCoalesced(h: map<nat, Hdr>, h': map<nat, Hdr>, b: nat, w: nat)
    requires SameExcept(h, h', b) && !h'[b].free && Coalesced(h, b, w) && (w == 0 || w == b) && 0 !in h
    ensures Coalesced(h', 0, 0)
  {
    forall c: nat | FreePair(h', c) ensures false { assert FreePair(h, c); }
  }

  lemma ReleaseCoalesced(h: map<nat, Hdr>, h': map<nat, Hdr>, b: nat)
    requires SameExcept(h, h', b) && h'[b].free && Coalesced(h, 0, 0) && 0 !in h
    ensures Coalesced(h', b, b)
  {
    forall c: nat | FreePair(h', c) && c != b && c + h'[c].sz != b ensures false { assert FreePair(h, c); }
  }

  lemma ShatterCoalesced(h: map<nat, Hdr>, owner: map<nat, nat>, b: nat)
    requires Tiling(h, owner) && b in h && Coalesced(h, 0, 0)
    ensures Coalesced(Shattered(h, b, h[b].sz), 0, 0)
  {
    hide Tiling;
    var h' := Shattered(h, b, h[b].sz);
    forall c: nat | FreePair(h', c) ensures FreePair(h, c) {}
  }

  // ---------------------------------------------------------------- taking the front of a run

  /** The first n blocks of the free mapped run at b become a used run; the rest stays free. */
  ghost predicate Carved(h: map<nat, Hdr>, h': map<nat, Hdr>, b: nat, n: nat) {
    && b in h && h[b].free && !h[b].unmapped && 0 < n <= h[b].sz
    && h'.Keys == h.Keys + (if n < h[b].sz then {b + n} else {})
    && h'[b].sz == n && !h'[b].free && !h'[b].unmapped
    && (n < h[b].sz ==> h'[b + n].sz == h[b].sz - n && h'[b + n].free && !h'[b + n].unmapped)
    && (forall c :: c in h && c != b && c != b + n ==> SameRun(h[c], h'[c]))
    && (n == h[b].sz ==> forall c :: c in h && c != b ==> SameRun(h[c], h'[c]))
  }

  function CarvedOwner(h: map<nat, Hdr>, owner: map<nat, nat>, b: nat, n: nat): map<nat, nat>
    requires b in h
  {
    if n < h[b].sz then Reown(owner, b + n, b + h[b].sz, b + n) else owner
  }

  /** Carving is splitting and then taking the first part. */
  function Halfway(h': map<nat, Hdr>, b: nat): map<nat, Hdr>
    requires b in h'
  {
    h'[b := h'[b].(free := true)]
  }

  lemma CarveSteps(h: map<nat, Hdr>, h': map<nat, Hdr>, b: nat, n: nat)
    requires Carved(h, h', b, n)
    ensures b in h && b in h' && 0 < n <= h[b].sz && SameExcept(Halfway(h', b), h', b)
    ensures n < h[b].sz ==> SplitRun(h, Halfway(h', b), b, b + n)
    ensures n == h[b].sz ==> SameRuns(h, Halfway(h', b))
    ensures Halfway(h', b)[b] == h'[b].(free := true) && !h'[b].free && h'[b].sz == n && !h'[b].unmapped
  {
  }

  lemma HalfwaySpace(h: map<nat, Hdr>, h': map<nat, Hdr>, owner: map<nat, nat>, counts: map<nat, nat>, mapped: set<nat>,
                     b: nat, n: nat)
    requires SpaceOk(h, owner, counts, mapped, 0) && Carved(h, h', b, n)
    ensures SpaceOk(Halfway(h', b), CarvedOwner(h, owner, b, n), counts, mapped, 0)
    ensures FreeSet(Halfway(h', b)) == FreeSet(h) + (if n < h[b].sz then {b + n} else {})
  {
    CarveSteps(h, h', b, n);
    hide SpaceOk, SplitRun, SameRuns, SameExcept, Halfway, FreeSet, Carved, Reown;
    if n < h[b].sz {
      SpaceSplit(h, Halfway(h', b), owner, counts, mapped, b, b + n);
    } else {
      SpaceSame(h, Halfway(h', b), owner, counts, mapped, 0);
    }
  }

  lemma CarveSpace(h: map<nat, Hdr>, h': map<nat, Hdr>, owner: map<nat, nat>, counts: map<nat, nat>, mapped: set<nat>,
                   b: nat, n: nat)
    requires SpaceOk(h, owner, counts, mapped, 0) && Carved(h, h', b, n)
    ensures SpaceOk(h', CarvedOwner(h, owner, b, n), CountsWith(counts, b, n), mapped, 0)
    ensures FreeSet(h') == FreeSet(h) - {b} + (if n < h[b].sz then {b + n} else {})
  {
    CarveSteps(h, h', b, n);
    HalfwaySpace(h, h', owner, counts, mapped, b, n);
    hide SpaceOk, SameExcept, Halfway, FreeSet, Carved, CarvedOwner, CountsWith;
    SpaceTake(Halfway(h', b), h', CarvedOwner(h, owner, b, n), counts, mapped, b);
    if n < h[b].sz { assert FreeSet(h) + {b + n} - {b} == FreeSet(h) - {b} + {b + n}; }
  }

  lemma HalfwayConsumes(h: map<nat, Hdr>, h': map<nat, Hdr>, owner: map<nat, nat>, b: nat, n: nat)
    requires Tiling(h, owner) && Carved(h, h', b, n)
    ensures Tiling(Halfway(h', b), CarvedOwner(h, owner, b, n))
    ensures Consumed(h, owner, Halfway(h', b), CarvedOwner(h, owner, b, n), {})
  {
    CarveSteps(h, h', b, n);
    hide Tiling, Consumed, SplitRun, SameRuns, SameExcept, Halfway, Carved, Reown;
    if n < h[b].sz {
      SplitTiling(h, Halfway(h', b), owner, b, b + n);
      SplitConsumes(h, Halfway(h', b), owner, b, b + n);
    } else {
      SameTiling(h, Halfway(h', b), owner);
      SameConsumes(h, Halfway(h', b), owner);
    }
  }

  lemma CarveConsumes(h: map<nat, Hdr>, h': map<nat, Hdr>, owner: map<nat, nat>, b: nat, n: nat)
    requires Tiling(h, owner) && Carved(h, h', b, n)
    ensures Consumed(h, owner, h', CarvedOwner(h, owner, b, n), Blocks(b, n))
  {
    CarveSteps(h, h', b, n);
    HalfwayConsumes(h, h', owner, b, n);
    hide Tiling, Consumed, SameExcept, Halfway, Carved, CarvedOwner, Blocks;
    var owner' := CarvedOwner(h, owner, b, n);
    TakeConsumes(Halfway(h', b), h', owner', b);
    ConsumedThen(h, owner, Halfway(h', b), owner', {}, h', owner', Blocks(b, n));
    assert {} + Blocks(b, n) == Blocks(b, n);
  }

  lemma SameTiling(h: map<nat, Hdr>, h': map<nat, Hdr>, owner: map<nat, nat>)
    requires Tiling(h, owner) && SameRuns(h, h')
    ensures Tiling(h', owner)
  {
    TilingSame(h, h', owner);
  }

  lemma CarveCoalesced(h: map<nat, Hdr>, h': map<nat, Hdr>, owner: map<nat, nat>, b: nat, n: nat, w: nat)
    requires Tiling(h, owner) && Carved(h, h', b, n) && Coalesced(h, 0, w) && (w == 0 || w == b)
    ensures Coalesced(h', 0, 0)
  {
    CarveSteps(h, h', b, n);
    hide Tiling, SplitRun, SameRuns, SameExcept, Halfway;
    var h1 := Halfway(h', b);
    if n < h[b].sz {
      SplitTiling(h, h1, owner, b, b + n);
      SplitCoalesced(h, h1, owner, b, b + n, w);
      NoNull(h1, Reown(owner, b + n, b + h[b].sz, b + n));
    } else {
      SameCoalesced(h, h1, 0, w);
      SameTiling(h, h1, owner);
      NoNull(h1, owner);
    }
    TakeCoalesced(h1, h', b, w);
  }

  lemma NoNull(h: map<nat, Hdr>, owner: map<nat, nat>)
    requires Tiling(h, owner)
    ensures 0 !in h
  {
  }

  /** Changing only whether a free run is mapped changes nothing else. */
  lemma RemapChanges(h: map<nat, Hdr>, h': map<nat, Hdr>, owner: map<nat, nat>, b: nat, z: nat, w: nat)
    requires SameExcept(h, h', b) && h[b].free && h'[b].free
    ensures Consumed(h, owner, h', owner, {})
    ensures Coalesced(h, z, w) ==> Coalesced(h', z, w)
  {
    forall c: nat | FreePair(h', c) ensures FreePair(h, c) {}
  }

  // ---------------------------------------------------------------- sizes

  lemma SubsetSize(a: set<nat>, b: set<nat>)
    requires a <= b
    ensures |a| <= |b|
  {
    if a != {} {
      var x :| x in a;
      SubsetSize(a - {x}, b - {x});
    }
  }

  /** Two runs together are no larger than the heap. */
  lemma PairFits(h: map<nat, Hdr>, owner: map<nat, nat>, b: nat, n: nat)
    requires Tiling(h, owner) && b in h && n in h && n == b + h[b].sz
    ensures h[b].sz + h[n].sz <= |owner|
  {
    forall k | k in Blocks(b, h[b].sz + h[n].sz) ensures k in owner {
      if k < n { Belongs(h, owner, b, k); } else { Belongs(h, owner, n, k); }
    }
    SubsetSize(Blocks(b, h[b].sz + h[n].sz), owner.Keys);
  }
}
