/**
  How runs of blocks tile the heap: every heap block belongs to exactly one run, the
  header of a run is at its first block, and the other blocks of a used run hold
  capped backward jumps. Addresses and sizes count heap blocks; 0 is NULL.
*/
module HeapSpace {
  import opened FreeLists

  const MAX_JUMP: nat := 4095

  /** The jump stored in a block that is i blocks into its run. */
  function Jump(i: nat): nat {
    if i > MAX_JUMP then MAX_JUMP else i
  }

  /** Block k lies in the run whose header is at b. */
  predicate InRun(h: map<nat, Hdr>, b: nat, k: nat) {
    b in h && b <= k < b + h[b].sz
  }

  /** owner maps every heap block to the first block of its run. */
  ghost predicate Tiling(h: map<nat, Hdr>, owner: map<nat, nat>) {
    && (forall b :: b in h ==> b != 0 && h[b].sz > 0)
    && (forall b: nat, k: nat :: InRun(h, b, k) ==> k in owner && owner[k] == b)
    && (forall k :: k in owner ==> InRun(h, owner[k], k))
  }

  /** Block k holds a jump exactly if it is an inner block of a used run other than bare. */
  ghost predicate CountOk(h: map<nat, Hdr>, owner: map<nat, nat>, counts: map<nat, nat>, bare: nat, k: nat) {
    && k in owner && owner[k] in h
    && (k in counts <==> owner[k] < k && !h[owner[k]].free && owner[k] != bare)
    && (k in counts ==> counts[k] == Jump(k - owner[k]))
  }

  /** Exactly the inner blocks of used runs hold jumps; run bare has none yet, or no more. */
  ghost predicate CountsOk(h: map<nat, Hdr>, owner: map<nat, nat>, counts: map<nat, nat>, bare: nat) {
    && counts.Keys <= owner.Keys
    && (forall k :: k in owner ==> CountOk(h, owner, counts, bare, k))
  }

  /** A run is mapped as a whole or not at all, and used runs are mapped. */
  ghost predicate MapOk(h: map<nat, Hdr>, owner: map<nat, nat>, mapped: set<nat>) {
    && (forall k :: k in owner ==> owner[k] in h && (k in mapped <==> !h[owner[k]].unmapped))
    && (forall b :: b in h && !h[b].free ==> !h[b].unmapped)
  }

  ghost predicate SpaceOk(h: map<nat, Hdr>, owner: map<nat, nat>, counts: map<nat, nat>, mapped: set<nat>, bare: nat) {
    Tiling(h, owner) && CountsOk(h, owner, counts, bare) && MapOk(h, owner, mapped)
  }

  /** The blocks from lo up to hi now belong to the run that starts at o. */
  function Reown(owner: map<nat, nat>, lo: nat, hi: nat, o: nat): map<nat, nat> {
    map k | k in owner :: if lo <= k < hi then o else owner[k]
  }

  function FreeSet(h: map<nat, Hdr>): set<nat> {
    set b | b in h && h[b].free
  }

  /** Headers that describe the same runs. */
  ghost predicate SameRuns(h: map<nat, Hdr>, h': map<nat, Hdr>) {
    h.Keys == h'.Keys && forall b :: b in h ==> SameRun(h[b], h'[b])
  }

  lemma SpaceSame(h: map<nat, Hdr>, h': map<nat, Hdr>, owner: map<nat, nat>, counts: map<nat, nat>, mapped: set<nat>,
                  bare: nat)
    requires SpaceOk(h, owner, counts, mapped, bare) && SameRuns(h, h')
    ensures SpaceOk(h', owner, counts, mapped, bare) && FreeSet(h') == FreeSet(h)
  {
    TilingSame(h, h', owner);
    forall k | k in owner ensures CountOk(h', owner, counts, bare, k) {
      assert CountOk(h, owner, counts, bare, k);
    }
  }

  lemma TilingSame(h: map<nat, Hdr>, h': map<nat, Hdr>, owner: map<nat, nat>)
    requires Tiling(h, owner) && h.Keys == h'.Keys
    requires forall b :: b in h ==> h'[b].sz == h[b].sz
    ensures Tiling(h', owner)
  {
    forall b: nat, k: nat | InRun(h', b, k) ensures k in owner && owner[k] == b {
      assert InRun(h, b, k);
    }
    forall k | k in owner ensures InRun(h', owner[k], k) {
      assert InRun(h, owner[k], k);
    }
  }

  // ---------------------------------------------------------------- splitting

  /** The free mapped run at b loses its blocks from t on to a new run at t. */
  ghost predicate SplitRun(h: map<nat, Hdr>, h': map<nat, Hdr>, b: nat, t: nat) {
    && InRun(h, b, t) && b < t
    && h'.Keys == h.Keys + {t}
    && h'[b].sz == t - b && h'[t].sz == b + h[b].sz - t
    && h[b].free && h'[b].free && h'[t].free
    && !h[b].unmapped && !h'[b].unmapped && !h'[t].unmapped
    && (forall c :: c in h && c != b && c != t ==> SameRun(h[c], h'[c]))
  }

  lemma SplitTiling(h: map<nat, Hdr>, h': map<nat, Hdr>, owner: map<nat, nat>, b: nat, t: nat)
    requires Tiling(h, owner) && SplitRun(h, h', b, t)
    ensures t !in h
    ensures Tiling(h', Reown(owner, t, b + h[b].sz, t))
  {
    if t in h { assert InRun(h, t, t); assert false; }
    var owner' := Reown(owner, t, b + h[b].sz, t);
    forall c: nat, k: nat | InRun(h', c, k) ensures k in owner' && owner'[k] == c {
      assert InRun(h, if c == t then b else c, k);
      assert c != b && c != t ==> !InRun(h, b, k);
    }
    forall k | k in owner' ensures InRun(h', owner'[k], k) {
      assert InRun(h, owner[k], k);
      assert t <= k < b + h[b].sz ==> InRun(h, b, k);
    }
  }

  lemma SpaceSplit(h: map<nat, Hdr>, h': map<nat, Hdr>, owner: map<nat, nat>, counts: map<nat, nat>, mapped: set<nat>,
                   b: nat, t: nat)
    requires SpaceOk(h, owner, counts, mapped, 0) && SplitRun(h, h', b, t)
    ensures t !in h && FreeSet(h') == FreeSet(h) + {t}
    ensures SpaceOk(h', Reown(owner, t, b + h[b].sz, t), counts, mapped, 0)
  {
    SplitTiling(h, h', owner, b, t);
    var owner' := Reown(owner, t, b + h[b].sz, t);
    forall k | k in owner' ensures CountOk(h', owner', counts, 0, k) && (k in mapped <==> !h'[owner'[k]].unmapped) {
      assert CountOk(h, owner, counts, 0, k);
      assert t <= k < b + h[b].sz ==> InRun(h, b, k);
    }
  }

  // ---------------------------------------------------------------- merging

  /** The free run at b takes over the free run n behind it. */
  ghost predicate MergeRun(h: map<nat, Hdr>, h': map<nat, Hdr>, b: nat, n: nat) {
    && b in h && n == b + h[b].sz && n in h && b < n
    && h'.Keys == h.Keys - {n}
    && h'[b].sz == h[b].sz + h[n].sz
    && h[b].free && h[n].free && h'[b].free
    && (forall c :: c in h' && c != b ==> SameRun(h[c], h'[c]))
  }

  lemma MergeTiling(h: map<nat, Hdr>, h': map<nat, Hdr>, owner: map<nat, nat>, b: nat, n: nat)
    requires Tiling(h, owner) && MergeRun(h, h', b, n)
    ensures Tiling(h', Reown(owner, b, n + h[n].sz, b))
  {
    var owner' := Reown(owner, b, n + h[n].sz, b);
    forall c: nat, k: nat | InRun(h', c, k) ensures k in owner' && owner'[k] == c {
      assert InRun(h, if c == b && n <= k then n else c, k);
      assert c != b ==> !InRun(h, b, k) && !InRun(h, n, k);
    }
    forall k | k in owner' ensures InRun(h', owner'[k], k) {
      assert InRun(h, owner[k], k);
      assert b <= k < n ==> InRun(h, b, k);
      assert n <= k < n + h[n].sz ==> InRun(h, n, k);
    }
  }

  /** Memory changes only from b up to end, which is afterwards mapped or not as flagged. */
  ghost predicate Remapped(mapped: set<nat>, mapped': set<nat>, b: nat, end: nat, unmapped: bool) {
    forall k :: k in mapped' <==> if b <= k < end then !unmapped else k in mapped
  }

  lemma SpaceMerge(h: map<nat, Hdr>, h': map<nat, Hdr>, owner: map<nat, nat>, counts: map<nat, nat>, mapped: set<nat>,
                   mapped': set<nat>, b: nat, n: nat)
    requires SpaceOk(h, owner, counts, mapped, 0) && MergeRun(h, h', b, n)
    requires Remapped(mapped, mapped', b, n + h[n].sz, h'[b].unmapped)
    ensures FreeSet(h') == FreeSet(h) - {n}
    ensures SpaceOk(h', Reown(owner, b, n + h[n].sz, b), counts, mapped', 0)
  {
    MergeTiling(h, h', owner, b, n);
    var owner' := Reown(owner, b, n + h[n].sz, b);
    forall k | k in owner' ensures CountOk(h', owner', counts, 0, k) && (k in mapped' <==> !h'[owner'[k]].unmapped) {
      assert CountOk(h, owner, counts, 0, k);
      assert b <= k < n ==> InRun(h, b, k);
      assert n <= k < n + h[n].sz ==> InRun(h, n, k);
      assert InRun(h, owner[k], k);
    }
  }

  /** Headers that describe the same runs, except perhaps for the run at b. */
  ghost predicate SameExcept(h: map<nat, Hdr>, h': map<nat, Hdr>, b: nat) {
    && b in h && h'.Keys == h.Keys && h'[b].sz == h[b].sz
    && (forall c :: c in h && c != b ==> SameRun(h[c], h'[c]))
  }

  /** Mapping a free run again, or unmapping it. */
  lemma SpaceRemap(h: map<nat, Hdr>, h': map<nat, Hdr>, owner: map<nat, nat>, counts: map<nat, nat>, mapped: set<nat>,
                   mapped': set<nat>, b: nat)
    requires SpaceOk(h, owner, counts, mapped, 0) && SameExcept(h, h', b) && h[b].free && h'[b].free
    requires Remapped(mapped, mapped', b, b + h[b].sz, h'[b].unmapped)
    ensures SpaceOk(h', owner, counts, mapped', 0) && FreeSet(h') == FreeSet(h)
  {
    TilingSame(h, h', owner);
    forall k | k in owner ensures CountOk(h', owner, counts, 0, k) && (k in mapped' <==> !h'[owner[k]].unmapped) {
      assert CountOk(h, owner, counts, 0, k);
      assert InRun(h, owner[k], k);
      assert b <= k < b + h[b].sz ==> InRun(h, b, k);
    }
  }

  // ---------------------------------------------------------------- taking and releasing

  function Blocks(lo: nat, n: nat): (r: set<nat>)
    ensures forall k: nat :: k in r <==> lo <= k < lo + n
    ensures |r| == n
  {
    if n == 0 then {} else Blocks(lo, n - 1) + {lo + n - 1}
  }

  /** counts with a jump installed in every inner block of the n blocks at b. */
  function CountsWith(counts: map<nat, nat>, b: nat, n: nat): map<nat, nat> {
    map k | k in counts.Keys + (Blocks(b, n) - {b}) :: if b < k < b + n then Jump(k - b) else counts[k]
  }

  lemma CountsWithStep(counts: map<nat, nat>, b: nat, n: nat)
    requires 1 <= n
    ensures CountsWith(counts, b, n + 1) == CountsWith(counts, b, n)[b + n := Jump(n)]
  {
  }

  lemma CountsWithNone(counts: map<nat, nat>, b: nat, n: nat)
    requires n <= 1
    ensures CountsWith(counts, b, n) == counts
  {
  }

  function CountsWithout(counts: map<nat, nat>, b: nat, n: nat): map<nat, nat> {
    map k | k in counts && !(b < k < b + n) :: counts[k]
  }

  /** A free run becomes a used one, with its jumps installed. */
  lemma SpaceTake(h: map<nat, Hdr>, h': map<nat, Hdr>, owner: map<nat, nat>, counts: map<nat, nat>, mapped: set<nat>,
                  b: nat)
    requires SpaceOk(h, owner, counts, mapped, 0) && SameExcept(h, h', b)
    requires h[b].free && !h[b].unmapped && !h'[b].free && !h'[b].unmapped
    ensures SpaceOk(h', owner, CountsWith(counts, b, h[b].sz), mapped, 0) && FreeSet(h') == FreeSet(h) - {b}
  {
    TilingSame(h, h', owner);
    var counts' := CountsWith(counts, b, h[b].sz);
    forall k | b < k < b + h[b].sz ensures k in owner { assert InRun(h, b, k); }
    forall k | k in owner ensures CountOk(h', owner, counts', 0, k) && (k in mapped <==> !h'[owner[k]].unmapped) {
      assert CountOk(h, owner, counts, 0, k);
      assert InRun(h, owner[k], k);
      assert b <= k < b + h[b].sz ==> InRun(h, b, k);
    }
  }

  /** The jumps of a used run are removed. */
  lemma SpaceBare(h: map<nat, Hdr>, owner: map<nat, nat>, counts: map<nat, nat>, mapped: set<nat>, b: nat)
    requires SpaceOk(h, owner, counts, mapped, 0) && b in h
    ensures SpaceOk(h, owner, CountsWithout(counts, b, h[b].sz), mapped, b)
  {
    var counts' := CountsWithout(counts, b, h[b].sz);
    forall k | k in owner ensures CountOk(h, owner, counts', b, k) {
      assert CountOk(h, owner, counts, 0, k);
      assert InRun(h, owner[k], k);
      assert b <= k < b + h[b].sz ==> InRun(h, b, k);
    }
  }

  /** A used run without jumps becomes a free one. */
  lemma SpaceRelease(h: map<nat, Hdr>, h': map<nat, Hdr>, owner: map<nat, nat>, counts: map<nat, nat>,
                     mapped: set<nat>, b: nat)
    requires SpaceOk(h, owner, counts, mapped, b) && SameExcept(h, h', b)
    requires !h[b].free && h'[b].free && h'[b].unmapped == h[b].unmapped
    ensures SpaceOk(h', owner, counts, mapped, 0) && FreeSet(h') == FreeSet(h) + {b}
  {
    TilingSame(h, h', owner);
    forall k | k in owner ensures CountOk(h', owner, counts, 0, k) && (k in mapped <==> !h'[owner[k]].unmapped) {
      assert CountOk(h, owner, counts, b, k);
      assert InRun(h, owner[k], k);
    }
  }

  // ---------------------------------------------------------------- growing

  function Owned(owner: map<nat, nat>, p: nat, n: nat): map<nat, nat> {
    map k | k in owner.Keys + Blocks(p, n) :: if p <= k < p + n then p else owner[k]
  }

  lemma OwnedSize(owner: map<nat, nat>, p: nat, n: nat)
    requires forall k :: p <= k < p + n ==> k !in owner
    ensures |Owned(owner, p, n)| == |owner| + n
  {
    assert Owned(owner, p, n).Keys == owner.Keys + Blocks(p, n);
  }

  lemma ExtendTiling(h: map<nat, Hdr>, owner: map<nat, nat>, p: nat, n: nat)
    requires Tiling(h, owner) && p != 0 && n > 0
    requires forall k :: p <= k < p + n ==> k !in owner
    ensures p !in h
    ensures Tiling(h[p := Hdr(0, 0, n, false, false)], Owned(owner, p, n))
  {
    hide Tiling, Owned, Blocks;
    if p in h { Positive(h, owner, p); Belongs(h, owner, p, p); assert false; }
    OwnedBlocks(owner, p, n);
    var h', owner' := h[p := Hdr(0, 0, n, false, false)], Owned(owner, p, n);
    forall c | c in h' ensures c > 0 && h'[c].sz > 0 {
      if c != p { Positive(h, owner, c); }
    }
    forall c: nat, k: nat | InRun(h', c, k) ensures k in owner' && owner'[k] == c {
      if c != p { Belongs(h, owner, c, k); }
    }
    forall k | k in owner' ensures InRun(h', owner'[k], k) {
      if k in owner { Belonging(h, owner, k); }
    }
    TilingIntro(h', owner');
  }

  /** New blocks join the heap as one used run without jumps. */
  lemma SpaceExtend(h: map<nat, Hdr>, owner: map<nat, nat>, counts: map<nat, nat>, mapped: set<nat>, p: nat, n: nat)
    requires SpaceOk(h, owner, counts, mapped, 0) && p != 0 && n > 0
    requires forall k :: p <= k < p + n ==> k !in owner
    ensures p !in h && FreeSet(h[p := Hdr(0, 0, n, false, false)]) == FreeSet(h)
    ensures SpaceOk(h[p := Hdr(0, 0, n, false, false)], Owned(owner, p, n), counts, mapped + Blocks(p, n), p)
  {
    ExtendTiling(h, owner, p, n);
    ExtendMap(h, owner, mapped, p, n);
    ExtendCounts(h, owner, counts, p, n);
    hide Tiling, CountsOk, Owned, MapOk, Blocks;
  }

  lemma ExtendCounts(h: map<nat, Hdr>, owner: map<nat, nat>, counts: map<nat, nat>, p: nat, n: nat)
    requires Tiling(h, owner) && CountsOk(h, owner, counts, 0) && n > 0 && p !in h
    requires forall k :: p <= k < p + n ==> k !in owner
    ensures CountsOk(h[p := Hdr(0, 0, n, false, false)], Owned(owner, p, n), counts, p)
  {
    OwnedBlocks(owner, p, n);
    hide Tiling, CountOk, Owned, Blocks;
    forall k | k in Owned(owner, p, n)
      ensures CountOk(h[p := Hdr(0, 0, n, false, false)], Owned(owner, p, n), counts, p, k)
    {
      if k in owner {
        Belonging(h, owner, k);
        Positive(h, owner, owner[k]);
      }
      ExtendBlock(h, owner, counts, p, n, k);
    }
  }

  lemma ExtendMap(h: map<nat, Hdr>, owner: map<nat, nat>, mapped: set<nat>, p: nat, n: nat)
    requires MapOk(h, owner, mapped) && p !in h
    requires forall k :: p <= k < p + n ==> k !in owner
    ensures MapOk(h[p := Hdr(0, 0, n, false, false)], Owned(owner, p, n), mapped + Blocks(p, n))
  {
    hide Owned, Blocks;
    forall k | k in Owned(owner, p, n)
      ensures var c := Owned(owner, p, n)[k]; var h' := h[p := Hdr(0, 0, n, false, false)];
        c in h' && (k in mapped + Blocks(p, n) <==> !h'[c].unmapped)
    {
      ExtendMapAt(h, owner, mapped, p, n, k);
    }
  }

  lemma ExtendMapAt(h: map<nat, Hdr>, owner: map<nat, nat>, mapped: set<nat>, p: nat, n: nat, k: nat)
    requires MapOk(h, owner, mapped) && p !in h && k in Owned(owner, p, n)
    requires forall k :: p <= k < p + n ==> k !in owner
    ensures var c := Owned(owner, p, n)[k]; var h' := h[p := Hdr(0, 0, n, false, false)];
      c in h' && (k in mapped + Blocks(p, n) <==> !h'[c].unmapped)
  {
    OwnedAt(owner, p, n, k);
    hide MapOk, Owned, Blocks;
    if k in owner { Mapping(h, owner, mapped, k); }
  }

  lemma Mapping(h: map<nat, Hdr>, owner: map<nat, nat>, mapped: set<nat>, k: nat)
    requires MapOk(h, owner, mapped) && k in owner
    ensures owner[k] in h && (k in mapped <==> !h[owner[k]].unmapped)
  {
  }

  lemma OwnedAt(owner: map<nat, nat>, p: nat, n: nat, k: nat)
    requires k in Owned(owner, p, n)
    ensures p <= k < p + n <==> k in Blocks(p, n)
    ensures Owned(owner, p, n)[k] == if p <= k < p + n then p else owner[k]
    ensures p <= k < p + n || k in owner
  {
  }

  lemma OwnedBlocks(owner: map<nat, nat>, p: nat, n: nat)
    ensures Owned(owner, p, n).Keys == owner.Keys + Blocks(p, n)
    ensures forall k :: k in Owned(owner, p, n) ==> Owned(owner, p, n)[k] == if p <= k < p + n then p else owner[k]
  {
  }

  lemma ExtendBlock(h: map<nat, Hdr>, owner: map<nat, nat>, counts: map<nat, nat>, p: nat, n: nat, k: nat)
    requires p !in h && n > 0 && k in Owned(owner, p, n) && (p <= k < p + n ==> k !in counts)
    requires !(p <= k < p + n) ==> k in owner && CountOk(h, owner, counts, 0, k) && owner[k] != 0
    ensures CountOk(h[p := Hdr(0, 0, n, false, false)], Owned(owner, p, n), counts, p, k)
  {
  }

  // ---------------------------------------------------------------- dropping

  /** h after the n blocks at b have become used runs of one block each. */
  function Shattered(h: map<nat, Hdr>, b: nat, n: nat): map<nat, Hdr> {
    map k | k in h.Keys + Blocks(b, n) :: if b <= k < b + n then Hdr(0, 0, 1, false, false) else h[k]
  }

  function Solo(owner: map<nat, nat>, b: nat, n: nat): map<nat, nat> {
    map k | k in owner :: if b <= k < b + n then k else owner[k]
  }

  /** Two different runs do not meet. */
  lemma Apart(h: map<nat, Hdr>, owner: map<nat, nat>, b: nat, c: nat)
    requires Tiling(h, owner) && b in h && c in h && b != c
    ensures c + h[c].sz <= b || b + h[b].sz <= c
  {
    assert InRun(h, b, b) && InRun(h, c, c);
    assert !(InRun(h, b, c)) && !(InRun(h, c, b));
  }

  lemma ShatterTiling(h: map<nat, Hdr>, owner: map<nat, nat>, b: nat)
    requires Tiling(h, owner) && b in h
    ensures Tiling(Shattered(h, b, h[b].sz), Solo(owner, b, h[b].sz))
  {
    hide Tiling;
    var n := h[b].sz;
    var h', owner' := Shattered(h, b, n), Solo(owner, b, n);
    Positive(h, owner, b);
    forall c | c in h' ensures c > 0 && h'[c].sz > 0 {
      if c in h { Positive(h, owner, c); }
    }
    forall c: nat, k: nat | InRun(h', c, k) ensures k in owner' && owner'[k] == c {
      if b <= c < b + n {
        Belongs(h, owner, b, k);
      } else {
        Apart(h, owner, b, c);
        Belongs(h, owner, c, k);
      }
    }
    forall k | k in owner' ensures InRun(h', owner'[k], k) {
      Belonging(h, owner, k);
      if owner[k] != b { Apart(h, owner, b, owner[k]); }
    }
    TilingIntro(h', owner');
  }

  lemma TilingIntro(h: map<nat, Hdr>, owner: map<nat, nat>)
    requires forall b :: b in h ==> b > 0 && h[b].sz > 0
    requires forall b: nat, k: nat :: InRun(h, b, k) ==> k in owner && owner[k] == b
    requires forall k :: k in owner ==> InRun(h, owner[k], k)
    ensures Tiling(h, owner)
  {
  }

  lemma Belongs(h: map<nat, Hdr>, owner: map<nat, nat>, b: nat, k: nat)
    requires Tiling(h, owner) && InRun(h, b, k)
    ensures k in owner && owner[k] == b
  {
  }

  lemma Belonging(h: map<nat, Hdr>, owner: map<nat, nat>, k: nat)
    requires Tiling(h, owner) && k in owner
    ensures InRun(h, owner[k], k)
  {
  }

  lemma ShatterFree(h: map<nat, Hdr>, owner: map<nat, nat>, b: nat)
    requires Tiling(h, owner) && b in h
    ensures FreeSet(Shattered(h, b, h[b].sz)) == FreeSet(h) - {b}
  {
    hide Tiling;
    Positive(h, owner, b);
    forall c | c in h && c != b ensures !(b <= c < b + h[b].sz) {
      Apart(h, owner, b, c);
      Positive(h, owner, c);
    }
  }

  /** A free mapped run becomes used block by block. */
  lemma SpaceShatter(h: map<nat, Hdr>, owner: map<nat, nat>, counts: map<nat, nat>, mapped: set<nat>, b: nat)
    requires SpaceOk(h, owner, counts, mapped, 0) && b in h && h[b].free && !h[b].unmapped
    ensures SpaceOk(Shattered(h, b, h[b].sz), Solo(owner, b, h[b].sz), counts, mapped, 0)
    ensures FreeSet(Shattered(h, b, h[b].sz)) == FreeSet(h) - {b}
  {
    hide Tiling, CountOk;
    ShatterTiling(h, owner, b);
    ShatterFree(h, owner, b);
    var n := h[b].sz;
    var h', owner' := Shattered(h, b, n), Solo(owner, b, n);
    forall k | k in owner' ensures CountOk(h', owner', counts, 0, k) {
      ShatterBlock(h, owner, counts, b, k);
    }
    forall k | k in owner' ensures owner'[k] in h' && (k in mapped <==> !h'[owner'[k]].unmapped) {
      ShatterBlock(h, owner, counts, b, k);
    }
  }

  lemma ShatterBlock(h: map<nat, Hdr>, owner: map<nat, nat>, counts: map<nat, nat>, b: nat, k: nat)
    requires Tiling(h, owner) && b in h && h[b].free && k in owner && CountOk(h, owner, counts, 0, k)
    ensures CountOk(Shattered(h, b, h[b].sz), Solo(owner, b, h[b].sz), counts, 0, k)
    ensures owner[k] == b ==> Shattered(h, b, h[b].sz)[Solo(owner, b, h[b].sz)[k]] == Hdr(0, 0, 1, false, false)
    ensures owner[k] != b ==>
      Solo(owner, b, h[b].sz)[k] == owner[k] && Shattered(h, b, h[b].sz)[owner[k]] == h[owner[k]]
  {
    hide Tiling;
    Belonging(h, owner, k);
    if owner[k] != b { Apart(h, owner, b, owner[k]); }
  }

  lemma Positive(h: map<nat, Hdr>, owner: map<nat, nat>, c: nat)
    requires Tiling(h, owner) && c in h
    ensures c > 0 && h[c].sz > 0
  {
  }
}
