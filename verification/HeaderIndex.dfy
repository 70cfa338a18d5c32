/**
  The two-level index from heap blocks to their headers. Addresses count heap blocks; the
  bottom indices are hashed by their high-order address bits and linked in address order.
*/
module HeaderIndex {
  import HeapSpace

  const BOTTOM_SZ: nat := 1024
  const TOP_SZ: nat := 2048
  const HBLKSIZE: nat := 4096
  const WORDSZ: nat := 8

  /** hb_sz in bytes, and whether the block is free. */
  datatype BlkHdr = BlkHdr(bytes: nat, free: bool)

  /** What an index entry holds: nothing, a backward jump, or a header. */
  datatype Slot = Nil | Jump(n: nat) | Head(hdr: BlkHdr)

  // ---------------------------------------------------------------- linked keys

  /** The element of l at place p, or -1 (NULL) outside. */
  function At(l: seq<nat>, p: int): int {
    if 0 <= p < |l| then l[p] else -1
  }

  ghost predicate Increasing(l: seq<nat>) {
    forall p, q :: 0 <= p < q < |l| ==> l[p] < l[q]
  }

  /** The links of the keys of l lead to their neighbours. */
  ghost predicate Links(l: seq<nat>, next: map<nat, int>, step: int) {
    forall p :: 0 <= p < |l| ==> l[p] in next && next[l[p]] == At(l, p + step)
  }

  ghost predicate Holds(l: seq<nat>, keys: set<nat>) {
    forall k :: k in l <==> k in keys
  }

  lemma LinkAt(l: seq<nat>, next: map<nat, int>, step: int, p: nat)
    requires Links(l, next, step) && p < |l|
    ensures l[p] in next && next[l[p]] == At(l, p + step)
  {
  }

  function InsertAt(l: seq<nat>, p: nat, k: nat): seq<nat>
    requires p <= |l|
  {
    l[..p] + [k] + l[p..]
  }

  lemma InsertedAt(l: seq<nat>, p: nat, k: nat, q: int)
    requires p <= |l|
    ensures At(InsertAt(l, p, k), q) == if q < p then At(l, q) else if q == p then k else At(l, q - 1)
  {
  }

  lemma InsertMembers(l: seq<nat>, p: nat, k: nat)
    requires p <= |l|
    ensures forall x :: x in InsertAt(l, p, k) <==> x in l || x == k
  {
    var r := InsertAt(l, p, k);
    assert r[p] == k;
    forall x | x in l ensures x in r {
      var q :| 0 <= q < |l| && l[q] == x;
      assert r[if q < p then q else q + 1] == x;
    }
  }

  lemma InsertIncreasing(l: seq<nat>, p: nat, k: nat)
    requires p <= |l| && Increasing(l) && (forall q :: 0 <= q < p ==> l[q] < k) && (p < |l| ==> k < l[p])
    ensures Increasing(InsertAt(l, p, k))
  {
    var r := InsertAt(l, p, k);
    forall q, s | 0 <= q < s < |r| ensures r[q] < r[s] {
      InsertedAt(l, p, k, q);
      InsertedAt(l, p, k, s);
    }
  }

  /** Links after k has been put behind side (if there is one) and before far. */
  function Relinked(next: map<nat, int>, side: int, k: nat, far: int): map<nat, int> {
    if side >= 0 then next[k := far][side := k] else next[k := far]
  }

  lemma NotNull(l: seq<nat>, p: int)
    ensures At(l, p) >= 0 <==> 0 <= p < |l|
    ensures At(l, p) >= -1
    ensures At(l, p) >= 0 ==> At(l, p) in l
  {
  }

  /** Inserting k at place p of a list only touches the link of the key on one side. */
  lemma InsertLinks(l: seq<nat>, next: map<nat, int>, step: int, p: nat, k: nat)
    requires p <= |l| && Links(l, next, step) && (step == 1 || step == -1) && Increasing(l) && k !in l
    ensures var before, after := At(l, p - 1), At(l, p);
      Links(InsertAt(l, p, k),
            if step == 1 then Relinked(next, before, k, after) else Relinked(next, after, k, before), step)
  {
    var r := InsertAt(l, p, k);
    var before, after := At(l, p - 1), At(l, p);
    var next' := if step == 1 then Relinked(next, before, k, after) else Relinked(next, after, k, before);
    forall q | 0 <= q < |r| ensures r[q] in next' && next'[r[q]] == At(r, q + step) {
      InsertedAt(l, p, k, q);
      InsertedAt(l, p, k, q + step);
      if q < p { assert l[q] in l; } else if q > p { assert l[q - 1] in l; }
    }
  }

  /** Where the entry of block a is found. */
  function KeyOf(a: nat): nat {
    a / BOTTOM_SZ
  }

  function Offset(a: nat): nat {
    a % BOTTOM_SZ
  }

  /** The entry of block a in the flat map that the index stands for. */
  function SlotAt(slots: map<nat, seq<Slot>>, a: nat): Slot {
    if KeyOf(a) in slots && Offset(a) < |slots[KeyOf(a)]| then slots[KeyOf(a)][Offset(a)] else Nil
  }

  ghost predicate Sized(slots: map<nat, seq<Slot>>) {
    forall k :: k in slots ==> |slots[k]| == BOTTOM_SZ
  }

  /** The chain of hash bucket i holds the keys that hash to it. */
  ghost predicate ChainOk(slots: map<nat, seq<Slot>>, hash: map<nat, int>, head: int, chain: seq<nat>, i: nat) {
    && head == At(chain, 0) && Links(chain, hash, 1)
    && forall k :: k in chain <==> k in slots && k % TOP_SZ == i
  }

  // ---------------------------------------------------------------- the map of blocks

  /** The number of heap blocks that a header describes. */
  function Span(x: BlkHdr): nat {
    (x.bytes + HBLKSIZE - 1) / HBLKSIZE
  }

  /** The blocks that have a header: not empty, apart from each other, in whole words; the size
      of a free one is in heap blocks. */
  ghost predicate FlatOk(blocks: map<nat, BlkHdr>) {
    && (forall b :: b in blocks ==> b > 0 && BlkOk(blocks[b]))
    && (forall b, c :: b in blocks && c in blocks && b < c ==> b + Span(blocks[b]) <= c)
  }

  predicate BlkOk(x: BlkHdr) {
    x.bytes > 0 && x.bytes % WORDSZ == 0 && (x.free ==> x.bytes % HBLKSIZE == 0)
  }

  /** Heap block a is behind the first one of the allocated block b. */
  predicate Inside(blocks: map<nat, BlkHdr>, b: nat, a: nat) {
    b in blocks && !blocks[b].free && b < a < b + Span(blocks[b])
  }

  ghost predicate SlotOk(blocks: map<nat, BlkHdr>, a: nat, s: Slot) {
    match s
    case Head(x) => a in blocks && blocks[a] == x
    case Jump(n) => a !in blocks && exists b: nat :: Inside(blocks, b, a) && n == HeapSpace.Jump(a - b)
    case Nil => a !in blocks && forall b: nat :: !Inside(blocks, b, a)
  }

  /** The index stands for these blocks. */
  ghost predicate Refines(blocks: map<nat, BlkHdr>, slots: map<nat, seq<Slot>>) {
    forall a: nat :: SlotOk(blocks, a, SlotAt(slots, a))
  }

  /** The entry of a after block h has been given header x and, if in use, its counts. */
  function SlotAfter(s: Slot, h: nat, x: BlkHdr, a: nat): Slot {
    if a == h then Head(x)
    else if h < a < h + Span(x) then (if x.free then Nil else Jump(HeapSpace.Jump(a - h)))
    else s
  }

  /** An entry is right again after its block has changed, if no count of an earlier allocated
      block is left behind. */
  lemma SlotChange(blocks: map<nat, BlkHdr>, s: Slot, h: nat, x: BlkHdr, a: nat)
    requires FlatOk(blocks[h := x]) && SlotOk(blocks, a, s)
    requires h in blocks ==> blocks[h].free || Span(blocks[h]) <= Span(x)
    ensures SlotOk(blocks[h := x], a, SlotAfter(s, h, x, a))
  {
    var blocks' := blocks[h := x];
    hide Span, BlkOk;
    if a == h {
    } else if h < a < h + Span(x) {
      assert h in blocks' && blocks'[h] == x;
      assert a !in blocks';
      if !x.free { assert Inside(blocks', h, a); }
    } else {
      forall b: nat ensures Inside(blocks, b, a) <==> Inside(blocks', b, a) {}
    }
  }

  lemma BlockChange(blocks: map<nat, BlkHdr>, slots: map<nat, seq<Slot>>, slots': map<nat, seq<Slot>>, h: nat,
                    x: BlkHdr)
    requires Refines(blocks, slots) && FlatOk(blocks[h := x])
    requires h in blocks ==> blocks[h].free || Span(blocks[h]) <= Span(x)
    requires forall a: nat :: SlotAt(slots', a) == SlotAfter(SlotAt(slots, a), h, x, a)
    ensures Refines(blocks[h := x], slots')
  {
    hide FlatOk, SlotAt, SlotAfter, SlotOk, Span;
    forall a: nat ensures SlotOk(blocks[h := x], a, SlotAt(slots', a)) {
      SlotChange(blocks, SlotAt(slots, a), h, x, a);
    }
  }

  lemma BlockForgotten(blocks: map<nat, BlkHdr>, slots: map<nat, seq<Slot>>, slots': map<nat, seq<Slot>>, h: nat)
    requires Refines(blocks, slots) && h in blocks && blocks[h].free && FlatOk(blocks)
    requires forall a: nat :: SlotAt(slots', a) == if a == h then Nil else SlotAt(slots, a)
    ensures Refines(blocks - {h}, slots') && FlatOk(blocks - {h})
  {
    hide SlotAt, Span, BlkOk;
    forall a: nat ensures SlotOk(blocks - {h}, a, SlotAt(slots', a)) {
      assert SlotOk(blocks, a, SlotAt(slots, a));
      forall b: nat ensures Inside(blocks, b, a) <==> Inside(blocks - {h}, b, a) {}
    }
  }

  /** Where a jump from a leads: to the start of the block of a, or 4095 blocks nearer to it. */
  lemma JumpBack(blocks: map<nat, BlkHdr>, slots: map<nat, seq<Slot>>, a: nat) returns (b: nat)
    requires Refines(blocks, slots) && FlatOk(blocks) && SlotAt(slots, a).Jump?
    ensures Inside(blocks, b, a)
    ensures var n := SlotAt(slots, a).n;
      0 < n == (if a - b <= 4095 then a - b else 4095) && (a - n == b || Inside(blocks, b, a - n))
    ensures forall c :: b < c <= a ==> c !in blocks
  {
    assert SlotOk(blocks, a, SlotAt(slots, a));
    b :| Inside(blocks, b, a) && SlotAt(slots, a).n == HeapSpace.Jump(a - b);
    hide SlotAt, Span;
  }

  lemma StartSlot(blocks: map<nat, BlkHdr>, slots: map<nat, seq<Slot>>, a: nat)
    requires Refines(blocks, slots)
    ensures SlotAt(slots, a).Head? <==> a in blocks
    ensures a in blocks ==> SlotAt(slots, a) == Head(blocks[a])
    ensures SlotAt(slots, a).Jump? <==> exists b: nat :: Inside(blocks, b, a) && a !in blocks
    ensures a in blocks ==> KeyOf(a) in slots
  {
    assert SlotOk(blocks, a, SlotAt(slots, a));
  }

  /** A heap block belongs to at most one allocated block. */
  lemma OneOwner(blocks: map<nat, BlkHdr>, b: nat, c: nat, a: nat)
    requires FlatOk(blocks) && (b == a || Inside(blocks, b, a)) && (c == a || Inside(blocks, c, a)) && b in blocks &&
      c in blocks
    ensures b == c
  {
    hide Span, BlkOk;
  }

  // ---------------------------------------------------------------- objects

  /** The k-th object of the allocated block b. */
  ghost predicate ObjectOf(blocks: map<nat, BlkHdr>, b: nat, k: nat, o: nat) {
    && b in blocks && !blocks[b].free
    && o == b * HBLKSIZE + k * blocks[b].bytes
    && (k == 0 || (k + 1) * blocks[b].bytes <= HBLKSIZE)
  }

  /** An allocated object starts at o and holds the byte p. */
  ghost predicate ObjectHolds(blocks: map<nat, BlkHdr>, o: nat, p: nat) {
    exists b: nat, k: nat :: ObjectOf(blocks, b, k, o) && o <= p < o + blocks[b].bytes
  }

  /** An object lies in the heap blocks of its block. */
  lemma ObjectFits(blocks: map<nat, BlkHdr>, b: nat, k: nat, o: nat, p: nat)
    requires FlatOk(blocks) && ObjectOf(blocks, b, k, o) && o <= p < o + blocks[b].bytes
    ensures p / HBLKSIZE == b || Inside(blocks, b, p / HBLKSIZE)
    ensures k > 0 ==> p / HBLKSIZE == b
  {
    if k == 0 {
      SpanCovers(b, p, blocks[b]);
    } else {
      KthFits(b, k, blocks[b].bytes);
    }
  }

  lemma SpanCovers(b: nat, p: nat, x: BlkHdr)
    requires b * HBLKSIZE <= p < b * HBLKSIZE + x.bytes
    ensures b <= p / HBLKSIZE < b + Span(x)
  {
  }

  lemma KthFits(h: nat, k: nat, sz: nat)
    ensures h * HBLKSIZE + k * sz + sz <= (h + 1) * HBLKSIZE <==> (k + 1) * sz <= HBLKSIZE
    ensures k * sz >= 0
  {
    assert (k + 1) * sz == k * sz + sz;
  }

  /** The start that GC_base computes from word-aligned offset q of a block of objects of sz bytes. */
  lemma WholeObjects(q: nat, sz: nat)
    requires 0 < sz
    ensures q - q % sz == (q / sz) * sz && 0 <= q - q % sz <= q < q - q % sz + sz
  {
  }

  lemma Multiple(k: nat, sz: nat)
    requires sz % WORDSZ == 0
    ensures (k * sz) % WORDSZ == 0
  {
    if k > 0 {
      Multiple(k - 1, sz);
      assert k * sz == (k - 1) * sz + sz;
    }
  }

  lemma SameQuotient(q: nat, sz: nat, k: nat)
    requires 0 < sz && k * sz <= q < k * sz + sz
    ensures q / sz == k && q - q % sz == k * sz
  {
    var d := q / sz;
    assert q == d * sz + q % sz;
    Ordered(d, k, sz);
    Ordered(k, d, sz);
  }

  lemma Ordered(d: nat, k: nat, sz: nat)
    ensures d < k ==> d * sz + sz <= k * sz
  {
    if d + 1 < k { Ordered(d, k - 1, sz); }
    if d < k { assert k * sz == (k - 1) * sz + sz; }
  }


  lemma ValidBytes(blocks: map<nat, BlkHdr>, h: nat)
    requires FlatOk(blocks) && h in blocks
    ensures h > 0 && BlkOk(blocks[h]) && blocks[h].bytes > 0
  {
  }

  lemma WholeBlocks(x: BlkHdr, free: bool)
    ensures Span(BlkHdr(HBLKSIZE * Span(x), free)) == Span(x)
    ensures x.bytes > 0 ==> Span(x) > 0
  {
  }

  /** The counts of a block in use are all there. */
  lemma CountsThere(blocks: map<nat, BlkHdr>, slots: map<nat, seq<Slot>>, h: nat)
    requires Refines(blocks, slots) && FlatOk(blocks) && h in blocks && !blocks[h].free
    ensures forall a: nat :: h < a < h + Span(blocks[h]) ==> SlotAt(slots, a) != Nil && KeyOf(a) in slots
  {
    hide Span;
    forall a: nat | h < a < h + Span(blocks[h]) ensures SlotAt(slots, a) != Nil && KeyOf(a) in slots {
      assert SlotOk(blocks, a, SlotAt(slots, a));
      assert Inside(blocks, h, a);
    }
  }

  lemma FreeBlkOk(n: nat)
    requires n > 0
    ensures BlkOk(BlkHdr(HBLKSIZE * n, true))
  {
  }

  lemma FreedOk(blocks: map<nat, BlkHdr>, h: nat)
    requires FlatOk(blocks) && h in blocks
    ensures FlatOk(blocks[h := BlkHdr(HBLKSIZE * Span(blocks[h]), true)])
  {
    var x := BlkHdr(HBLKSIZE * Span(blocks[h]), true);
    WholeBlocks(blocks[h], true);
    assert BlkOk(blocks[h]);
    FreeBlkOk(Span(blocks[h]));
    hide Span, BlkOk;
    var blocks' := blocks[h := x];
    forall b, c | b in blocks' && c in blocks' && b < c ensures b + Span(blocks'[b]) <= c {
      assert b in blocks && c in blocks;
    }
  }

  // ---------------------------------------------------------------- following jumps

  /** Heap block h is on the way from a back to the start of its block. */
  ghost predicate OnTheWay(blocks: map<nat, BlkHdr>, a: nat, h: nat) {
    h == a || exists b: nat :: Inside(blocks, b, a) && (h == b || Inside(blocks, b, h))
  }

  lemma StillOnTheWay(blocks: map<nat, BlkHdr>, a: nat, h0: nat, h: nat, b: nat)
    requires FlatOk(blocks) && OnTheWay(blocks, a, h0) && h0 !in blocks
    requires Inside(blocks, b, h0) && (h == b || Inside(blocks, b, h))
    ensures OnTheWay(blocks, a, h) && (h in blocks || exists c: nat :: Inside(blocks, c, h))
  {
    if h0 != a {
      var c: nat :| Inside(blocks, c, a) && (h0 == c || Inside(blocks, c, h0));
      OneOwner(blocks, b, c, h0);
    }
    hide Span, FlatOk;
  }

  lemma Arrived(blocks: map<nat, BlkHdr>, a: nat, h: nat)
    requires FlatOk(blocks) && OnTheWay(blocks, a, h) && h in blocks
    ensures h == a || Inside(blocks, h, a)
  {
    if h != a {
      var b: nat :| Inside(blocks, b, a) && (h == b || Inside(blocks, b, h));
      if h != b { OneOwner(blocks, b, h, h); }
    }
  }

  lemma NoObject(blocks: map<nat, BlkHdr>, slots: map<nat, seq<Slot>>, p: nat)
    requires Refines(blocks, slots) && FlatOk(blocks) && SlotAt(slots, p / HBLKSIZE) == Nil
    ensures forall o: nat :: !ObjectHolds(blocks, o, p)
  {
    assert SlotOk(blocks, p / HBLKSIZE, Nil);
    hide FlatOk, Inside, SlotAt;
    forall o: nat ensures !ObjectHolds(blocks, o, p) {
      if ObjectHolds(blocks, o, p) {
        var b: nat, k: nat :| ObjectOf(blocks, b, k, o) && o <= p < o + blocks[b].bytes;
        ObjectFits(blocks, b, k, o, p);
        assert false;
      }
    }
  }

  lemma FreeHoldsNone(blocks: map<nat, BlkHdr>, h: nat, p: nat)
    requires FlatOk(blocks) && h in blocks && blocks[h].free && h == p / HBLKSIZE
    ensures forall o: nat :: !ObjectHolds(blocks, o, p)
  {
    forall o: nat ensures !ObjectHolds(blocks, o, p) {
      if ObjectHolds(blocks, o, p) {
        var b: nat, k: nat :| ObjectOf(blocks, b, k, o) && o <= p < o + blocks[b].bytes;
        ObjectFits(blocks, b, k, o, p);
        OneOwner(blocks, b, h, h);
        assert false;
      }
    }
  }

  /** Where GC_base puts the start of the object, for a pointer at or moved to r. */
  function BaseFrom(r: nat, sz: nat): int
    requires sz > 0
  {
    var w := r - r % WORDSZ;
    w - (w % HBLKSIZE) % sz
  }

  /** The aligned word that holds byte p. */
  lemma WordOf(p: nat, h: nat)
    requires h == p / HBLKSIZE
    ensures var w := p - p % WORDSZ;
      w == h * HBLKSIZE + w % HBLKSIZE && w % HBLKSIZE % WORDSZ == 0 && w <= p < w + WORDSZ
  {
  }

  /** A byte in the word at q of block h is in the same object, of sz bytes at d, as that word. */
  lemma WordWithin(h: nat, p: nat, q: nat, d: nat, sz: nat)
    requires h * HBLKSIZE + q <= p < h * HBLKSIZE + q + WORDSZ
    requires sz % WORDSZ == 0 && d % WORDSZ == 0 && q % WORDSZ == 0
    ensures h * HBLKSIZE + d <= p < h * HBLKSIZE + d + sz <==> d <= q < d + sz
  {
  }

  /** In the first heap block of a block: byte p is at or after the base, in the same object. */
  lemma BaseInFirst(h: nat, p: nat, sz: nat)
    requires h == p / HBLKSIZE && sz > 0 && sz % WORDSZ == 0
    ensures var k := (p - p % WORDSZ) % HBLKSIZE / sz;
      BaseFrom(p, sz) == h * HBLKSIZE + k * sz && BaseFrom(p, sz) <= p < BaseFrom(p, sz) + sz
  {
    var q := (p - p % WORDSZ) % HBLKSIZE;
    WordOf(p, h);
    WholeObjects(q, sz);
    Multiple(q / sz, sz);
    WordWithin(h, p, q, q - q % sz, sz);
  }

  /** No other object of that block holds p. */
  lemma BaseUnique(h: nat, p: nat, sz: nat, k: nat)
    requires h == p / HBLKSIZE && sz > 0 && sz % WORDSZ == 0
    requires h * HBLKSIZE + k * sz <= p < h * HBLKSIZE + k * sz + sz
    ensures k == (p - p % WORDSZ) % HBLKSIZE / sz
  {
    var q := (p - p % WORDSZ) % HBLKSIZE;
    WordOf(p, h);
    Multiple(k, sz);
    WordWithin(h, p, q, k * sz, sz);
    SameQuotient(q, sz, k);
  }

  /** The object of block h that byte p of its first heap block would be in. */
  function ObjectIndex(p: nat, sz: nat): nat
    requires sz > 0
  {
    (p - p % WORDSZ) % HBLKSIZE / sz
  }

  lemma OnlyObject(blocks: map<nat, BlkHdr>, p: nat, h: nat, o: nat)
    requires FlatOk(blocks) && h in blocks && h == p / HBLKSIZE && ObjectHolds(blocks, o, p)
    ensures blocks[h].bytes > 0 && ObjectOf(blocks, h, ObjectIndex(p, blocks[h].bytes), o)
  {
    var b: nat, m: nat :| ObjectOf(blocks, b, m, o) && o <= p < o + blocks[b].bytes;
    ValidBytes(blocks, b);
    ObjectFits(blocks, b, m, o, p);
    OneOwner(blocks, b, h, h);
    BaseUnique(h, p, blocks[h].bytes, m);
  }

  /** A byte is in at most one object. */
  lemma OneObject(blocks: map<nat, BlkHdr>, o: nat, o': nat, p: nat)
    requires FlatOk(blocks) && ObjectHolds(blocks, o, p) && ObjectHolds(blocks, o', p)
    ensures o == o'
  {
    var b: nat, k: nat :| ObjectOf(blocks, b, k, o) && o <= p < o + blocks[b].bytes;
    var b': nat, k': nat :| ObjectOf(blocks, b', k', o') && o' <= p < o' + blocks[b'].bytes;
    ObjectFits(blocks, b, k, o, p);
    ObjectFits(blocks, b', k', o', p);
    OneOwner(blocks, b, b', p / HBLKSIZE);
    ValidBytes(blocks, b);
    if k > 0 || k' > 0 {
      BaseUnique(b, p, blocks[b].bytes, k);
      BaseUnique(b, p, blocks[b].bytes, k');
    }
  }

  lemma BaseFirstRight(blocks: map<nat, BlkHdr>, p: nat, h: nat)
    requires FlatOk(blocks) && h in blocks && !blocks[h].free && h == p / HBLKSIZE
    ensures blocks[h].bytes > 0 && BaseFrom(p, blocks[h].bytes) > 0
    ensures var sz := blocks[h].bytes; var r := BaseFrom(p, sz);
      p < r + sz && if r + sz > (h + 1) * HBLKSIZE && sz <= HBLKSIZE then forall o: nat :: !ObjectHolds(blocks, o, p)
      else ObjectHolds(blocks, r, p)
  {
    ValidBytes(blocks, h);
    var sz := blocks[h].bytes;
    var r, k := BaseFrom(p, sz), ObjectIndex(p, sz);
    BaseInFirst(h, p, sz);
    KthFits(h, k, sz);
    if sz > HBLKSIZE { LargeFirst(p, sz); }
    hide BaseFrom, FlatOk, ObjectIndex;
    if r + sz > (h + 1) * HBLKSIZE && sz <= HBLKSIZE {
      forall o: nat ensures !ObjectHolds(blocks, o, p) {
        if ObjectHolds(blocks, o, p) {
          OnlyObject(blocks, p, h, o);
        }
      }
    } else {
      assert ObjectOf(blocks, h, k, r);
    }
  }

  lemma LargeFirst(p: nat, sz: nat)
    requires sz > HBLKSIZE
    ensures ObjectIndex(p, sz) == 0
  {
  }

  lemma BaseLaterRight(blocks: map<nat, BlkHdr>, p: nat, h: nat)
    requires FlatOk(blocks) && Inside(blocks, h, p / HBLKSIZE)
    ensures blocks[h].bytes > HBLKSIZE && BaseFrom(h * HBLKSIZE, blocks[h].bytes) == h * HBLKSIZE > 0
    ensures if p >= h * HBLKSIZE + blocks[h].bytes then forall o: nat :: !ObjectHolds(blocks, o, p)
      else ObjectHolds(blocks, h * HBLKSIZE, p)
  {
    ValidBytes(blocks, h);
    LateBase(h, blocks[h].bytes);
    if p >= h * HBLKSIZE + blocks[h].bytes {
      forall o: nat ensures !ObjectHolds(blocks, o, p) {
        if ObjectHolds(blocks, o, p) {
          var b: nat, m: nat :| ObjectOf(blocks, b, m, o) && o <= p < o + blocks[b].bytes;
          ObjectFits(blocks, b, m, o, p);
          OneOwner(blocks, b, h, p / HBLKSIZE);
          assert false;
        }
      }
    } else {
      assert ObjectOf(blocks, h, 0, h * HBLKSIZE);
    }
  }

  lemma LateBase(h: nat, sz: nat)
    requires sz > 0
    ensures BaseFrom(h * HBLKSIZE, sz) == h * HBLKSIZE
  {
    assert 0 % sz == 0;
  }


  // ---------------------------------------------------------------- walking over the blocks

  /** A block that GC_next_block may return. */
  predicate Wanted(blocks: map<nat, BlkHdr>, allowFree: bool, b: nat) {
    b in blocks && (allowFree || !blocks[b].free)
  }

  ghost predicate NoneIn(blocks: map<nat, BlkHdr>, allowFree: bool, lo: int, hi: int) {
    forall b: nat :: lo <= b < hi ==> !Wanted(blocks, allowFree, b)
  }

  ghost predicate NoneFrom(blocks: map<nat, BlkHdr>, allowFree: bool, lo: int) {
    forall b: nat :: lo <= b ==> !Wanted(blocks, allowFree, b)
  }

  lemma WantedMeans(blocks: map<nat, BlkHdr>, allowFree: bool, h: nat)
    ensures forall b: nat :: Wanted(blocks, allowFree, b) <==> b in blocks && (allowFree || !blocks[b].free)
    ensures NoneFrom(blocks, allowFree, h) ==> forall b: nat :: b in blocks && h <= b ==> blocks[b].free && !allowFree
    ensures forall r: int :: NoneIn(blocks, allowFree, h, r) ==>
      forall b: nat :: b in blocks && h <= b < r ==> blocks[b].free && !allowFree
  {
  }

  lemma AnyWanted(blocks: map<nat, BlkHdr>, hi: int)
    ensures forall lo: int :: NoneIn(blocks, true, lo, hi) ==> forall b: nat :: b in blocks && b < hi ==> b < lo
  {
    forall lo: int, b: nat | NoneIn(blocks, true, lo, hi) && b in blocks && b < hi ensures b < lo {
      assert Wanted(blocks, true, b);
    }
  }

  /** A free block has no other block in it. */
  lemma FreeSkip(blocks: map<nat, BlkHdr>, a: nat)
    requires FlatOk(blocks) && a in blocks && blocks[a].free
    ensures blocks[a].bytes / HBLKSIZE > 0
    ensures forall b: nat :: a < b < a + blocks[a].bytes / HBLKSIZE ==> b !in blocks
  {
  }

  /** The blocks lie under the linked keys, none of which is between a key and the next. */
  lemma KeysOfBlocks(blocks: map<nat, BlkHdr>, slots: map<nat, seq<Slot>>, order: seq<nat>)
    requires Refines(blocks, slots) && Holds(order, slots.Keys)
    ensures forall b: nat :: b in blocks ==> KeyOf(b) in order
  {
    hide SlotAt, KeyOf;
    forall b: nat | b in blocks ensures KeyOf(b) in order { StartSlot(blocks, slots, b); }
  }

  /** From the end of bottom index k to the start of the next one there is no block. */
  lemma GapAfter(blocks: map<nat, BlkHdr>, allowFree: bool, order: seq<nat>, q: nat, lo: nat, cur: nat)
    requires Increasing(order) && q < |order| && (forall b: nat :: b in blocks ==> KeyOf(b) in order)
    requires NoneIn(blocks, allowFree, lo, cur) && cur >= (order[q] + 1) * BOTTOM_SZ
    ensures if q + 1 < |order| then NoneIn(blocks, allowFree, lo, order[q + 1] * BOTTOM_SZ)
      else NoneFrom(blocks, allowFree, lo)
  {
    forall b: nat | lo <= b && Wanted(blocks, allowFree, b) ensures q + 1 < |order| && b >= order[q + 1] * BOTTOM_SZ {
      var s: nat :| s < |order| && order[s] == KeyOf(b);
      assert b >= cur;
      assert KeyOf(b) > order[q];
      assert s > q;
    }
  }

  /** From lo to the first bottom index at or after it there is no block. */
  lemma GapBefore(blocks: map<nat, BlkHdr>, allowFree: bool, order: seq<nat>, q: nat, lo: nat)
    requires Increasing(order) && q <= |order| && (forall b: nat :: b in blocks ==> KeyOf(b) in order)
    requires forall r :: 0 <= r < q ==> order[r] < KeyOf(lo)
    ensures if q < |order| then NoneIn(blocks, allowFree, lo, order[q] * BOTTOM_SZ) else NoneFrom(blocks, allowFree, lo)
  {
    forall b: nat | lo <= b && Wanted(blocks, allowFree, b) ensures q < |order| && b >= order[q] * BOTTOM_SZ {
      var s: nat :| s < |order| && order[s] == KeyOf(b);
      assert KeyOf(b) >= KeyOf(lo);
      assert s >= q;
    }
  }

  /** Going down: from the start of bottom index k to the end of the one before there is no block. */
  lemma GapDown(blocks: map<nat, BlkHdr>, order: seq<nat>, q: nat, cur: int, hi: int)
    requires Increasing(order) && q < |order| && (forall b: nat :: b in blocks ==> KeyOf(b) in order)
    requires NoneIn(blocks, true, cur + 1, hi) && cur < order[q] * BOTTOM_SZ
    ensures NoneIn(blocks, true, if q > 0 then order[q - 1] * BOTTOM_SZ + BOTTOM_SZ else 0, hi)
  {
    forall b: nat | b < hi && b in blocks ensures q > 0 && b < order[q - 1] * BOTTOM_SZ + BOTTOM_SZ {
      var s: nat :| s < |order| && order[s] == KeyOf(b);
      assert Wanted(blocks, true, b);
      assert b <= cur;
      assert KeyOf(b) < order[q];
      assert s < q;
    }
  }

  lemma GapAbove(blocks: map<nat, BlkHdr>, order: seq<nat>, q: int, h: nat)
    requires Increasing(order) && -1 <= q < |order| && (forall b: nat :: b in blocks ==> KeyOf(b) in order)
    requires KeyOf(h) !in order && forall r :: q < r < |order| ==> order[r] > KeyOf(h)
    ensures NoneIn(blocks, true, if q >= 0 then order[q] * BOTTOM_SZ + BOTTOM_SZ else 0, h + 1)
  {
    forall b: nat | b < h + 1 && b in blocks ensures q >= 0 && b < order[q] * BOTTOM_SZ + BOTTOM_SZ {
      var s: nat :| s < |order| && order[s] == KeyOf(b);
      assert KeyOf(b) <= KeyOf(h);
      assert s <= q;
    }
  }

  /** The entry at place j of the bottom index with key k. */
  lemma EntryAt(slots: map<nat, seq<Slot>>, k: nat, j: nat)
    requires Sized(slots) && k in slots && j < BOTTOM_SZ
    ensures KeyOf(k * BOTTOM_SZ + j) == k && Offset(k * BOTTOM_SZ + j) == j
    ensures |slots[k]| == BOTTOM_SZ && slots[k][j] == SlotAt(slots, k * BOTTOM_SZ + j)
  {
  }

  /** visited lists, once each, the allocated blocks of the bottom indices before k and those of k
      from place j on. */
  ghost predicate VisitedTo(blocks: map<nat, BlkHdr>, visited: seq<nat>, k: int, j: int) {
    && (forall b: nat :: b in visited <==>
        b in blocks && !blocks[b].free && (KeyOf(b) < k || (KeyOf(b) == k && Offset(b) >= j)))
    && (forall m, n :: 0 <= m < n < |visited| ==> visited[m] != visited[n])
  }

  lemma PlaceOf(h: nat)
    ensures h == KeyOf(h) * BOTTOM_SZ + Offset(h) && Offset(h) < BOTTOM_SZ
  {
  }

  /** The bottom indices from place q on are all after block h. */
  lemma KeyBelow(h: nat, order: seq<nat>, q: nat)
    requires q < |order| ==> KeyOf(h) < order[q]
    ensures q < |order| ==> h <= order[q] * BOTTOM_SZ
  {
  }

  lemma KeyAbove(h: nat, k: int)
    ensures k < KeyOf(h) ==> k * BOTTOM_SZ + BOTTOM_SZ - 1 <= h
  {
  }

  lemma VisitOne(blocks: map<nat, BlkHdr>, visited: seq<nat>, visited': seq<nat>, k: nat, j: nat)
    requires VisitedTo(blocks, visited, k, j + 1) && j < BOTTOM_SZ && k * BOTTOM_SZ + j in blocks
    requires visited' == if blocks[k * BOTTOM_SZ + j].free then visited else visited + [k * BOTTOM_SZ + j]
    ensures VisitedTo(blocks, visited', k, j)
  {
    var a := k * BOTTOM_SZ + j;
    PlaceOf(a);
    assert KeyOf(a) == k && Offset(a) == j;
    forall b: nat | KeyOf(b) == k && Offset(b) == j ensures b == a { PlaceOf(b); }
    hide KeyOf, Offset;
  }

  /** There is nothing to visit where no block starts. */
  lemma VisitNone(blocks: map<nat, BlkHdr>, visited: seq<nat>, k: nat, j: nat, j': int)
    requires VisitedTo(blocks, visited, k, j + 1) && j < BOTTOM_SZ && j' < j
    requires forall b: nat :: k * BOTTOM_SZ + j' < b <= k * BOTTOM_SZ + j ==> b !in blocks
    ensures VisitedTo(blocks, visited, k, if j' < 0 then 0 else j' + 1)
  {
    forall b: nat | KeyOf(b) == k ensures b == k * BOTTOM_SZ + Offset(b) { PlaceOf(b); }
    hide KeyOf, Offset;
  }

  lemma NoneVisited(blocks: map<nat, BlkHdr>, order: seq<nat>)
    requires order != [] && Increasing(order) && forall b: nat :: b in blocks ==> KeyOf(b) in order
    ensures VisitedTo(blocks, [], order[0], BOTTOM_SZ)
  {
    forall b: nat | b in blocks ensures KeyOf(b) >= order[0] && Offset(b) < BOTTOM_SZ {
      PlaceOf(b);
      var s: nat :| s < |order| && order[s] == KeyOf(b);
    }
    hide KeyOf, Offset;
  }

  lemma VisitNext(blocks: map<nat, BlkHdr>, visited: seq<nat>, order: seq<nat>, q: nat)
    requires q + 1 < |order| && Increasing(order) && (forall b: nat :: b in blocks ==> KeyOf(b) in order)
    requires VisitedTo(blocks, visited, order[q], 0)
    ensures VisitedTo(blocks, visited, order[q + 1], BOTTOM_SZ)
  {
    forall b: nat | b in blocks ensures (KeyOf(b) <= order[q] || KeyOf(b) >= order[q + 1]) && Offset(b) < BOTTOM_SZ {
      PlaceOf(b);
      var s: nat :| s < |order| && order[s] == KeyOf(b);
      assert s <= q || s >= q + 1;
    }
    hide KeyOf, Offset;
  }

  lemma VisitEnd(blocks: map<nat, BlkHdr>, visited: seq<nat>, order: seq<nat>)
    requires order != [] && Increasing(order) && (forall b: nat :: b in blocks ==> KeyOf(b) in order)
    requires VisitedTo(blocks, visited, order[|order| - 1], 0)
    ensures forall b: nat :: b in visited <==> b in blocks && !blocks[b].free
    ensures forall m, n :: 0 <= m < n < |visited| ==> visited[m] != visited[n]
  {
    forall b: nat | b in blocks ensures KeyOf(b) <= order[|order| - 1] {
      var s: nat :| s < |order| && order[s] == KeyOf(b);
    }
    hide KeyOf, Offset;
  }

  /** The bottom indices are linked in address order, both ways. */
  ghost predicate ListOk(order: seq<nat>, asc: map<nat, int>, desc: map<nat, int>, first: int, last: int) {
    && Increasing(order) && Links(order, asc, 1) && Links(order, desc, -1)
    && first == At(order, 0) && last == At(order, |order| - 1)
  }

  class Index {
    const top: array<int>
    var slots: map<nat, seq<Slot>>
    var hash: map<nat, int>
    var asc: map<nat, int>
    var desc: map<nat, int>
    var first: int
    var last: int
    ghost var order: seq<nat>
    ghost var chains: seq<seq<nat>>

    ghost predicate Valid()
      reads this, top
    {
      && top.Length == TOP_SZ && |chains| == TOP_SZ
      && Sized(slots)
      && (forall i :: 0 <= i < TOP_SZ ==> ChainOk(slots, hash, top[i], chains[i], i))
      && ListOk(order, asc, desc, first, last) && Holds(order, slots.Keys)
    }

    constructor ()
      ensures Valid() && slots == map[] && fresh(top)
    {
      top := new int[TOP_SZ](_ => -1);
      slots, hash, asc, desc, first, last, order := map[], map[], map[], map[], -1, -1, [];
      chains := seq(TOP_SZ, _ => []);
    }

    /** GET_BI: the bottom index with high-order bits hi, or -1 (GC_all_nils). */
    method GetBi(hi: nat) returns (bi: int)
      requires Valid()
      ensures bi == if hi in slots then hi else -1
    {
      var i := hi % TOP_SZ;
      ghost var c := chains[i];
      assert ChainOk(slots, hash, top[i], c, i);
      bi := WalkChain(top[i], hi, c);
    }

    /** Follows a hash chain to hi or to its end. */
    method WalkChain(head: int, hi: nat, ghost c: seq<nat>) returns (bi: int)
      requires Links(c, hash, 1) && head == At(c, 0)
      ensures bi == if hi in c then hi else -1
    {
      hide Links;
      bi := head;
      ghost var p := 0;
      while bi != -1 && bi != hi
        invariant 0 <= p <= |c| && bi == At(c, p)
        invariant hi !in c[..p]
        decreases |c| - p
      {
        LinkAt(c, hash, 1, p);
        assert c[..p + 1] == c[..p] + [c[p]];
        bi := hash[bi];
        p := p + 1;
      }
      if bi == -1 { assert c[..p] == c; }
    }

    /** HDR: the entry of block a. */
    method Lookup(a: nat) returns (r: Slot)
      requires Valid()
      ensures r == SlotAt(slots, a)
    {
      var bi := GetBi(KeyOf(a));
      r := if bi == -1 then Nil else slots[bi][Offset(a)];
    }

    /** SET_HDR; the bottom index of a exists. */
    method SetSlot(a: nat, v: Slot)
      requires Valid() && KeyOf(a) in slots
      modifies this`slots
      ensures Valid() && slots.Keys == old(slots).Keys
      ensures forall b: nat :: SlotAt(slots, b) == if b == a then v else SlotAt(old(slots), b)
    {
      hide SlotAt, Increasing, Links, Offset, KeyOf;
      SlotUpdate(slots, a, v);
      var bi := GetBi(KeyOf(a));
      ghost var s0 := slots;
      slots := slots[bi := slots[bi][Offset(a) := v]];
      forall i | 0 <= i < TOP_SZ ensures ChainOk(slots, hash, top[i], chains[i], i) {
        assert ChainOk(s0, hash, top[i], chains[i], i);
      }
    }

    /** The place of hi in the list of bottom indices: its neighbours there. */
    method FindPlace(hi: nat) returns (pi: int, p: int, ghost q: nat)
      requires ListOk(order, asc, desc, first, last) && hi !in order
      ensures q <= |order| && pi == At(order, q - 1) && p == At(order, q)
      ensures (forall r :: 0 <= r < q ==> order[r] < hi) && (q < |order| ==> hi < order[q])
    {
      hide Links;
      pi, p, q := -1, first, 0;
      while p != -1 && p < hi
        invariant q <= |order| && pi == At(order, q - 1) && p == At(order, q)
        invariant forall r :: 0 <= r < q ==> order[r] < hi
        decreases |order| - q
      {
        LinkAt(order, asc, 1, q);
        pi, p, q := p, asc[p], q + 1;
      }
      if q < |order| { assert order[q] in order; }
    }

    /** Links hi into the list of bottom indices. */
    method LinkIn(hi: nat)
      requires ListOk(order, asc, desc, first, last) && hi !in order
      modifies this`asc, this`desc, this`first, this`last, this`order
      ensures ListOk(order, asc, desc, first, last)
      ensures forall x :: x in order <==> x in old(order) || x == hi
    {
      var pi, p;
      ghost var q: nat;
      pi, p, q := FindPlace(hi);
      NotNull(order, q - 1);
      NotNull(order, q);
      hide ListOk, InsertAt;
      InsertList(order, asc, desc, first, last, hi, q, InsertAt(order, q, hi), pi, p);
      InsertMembers(order, q, hi);
      desc := desc[hi := pi];
      if p == -1 {
        last := hi;
      } else {
        desc := desc[p := hi];
      }
      asc := asc[hi := p];
      if pi == -1 {
        first := hi;
      } else {
        asc := asc[pi := hi];
      }
      order := InsertAt(order, q, hi);
    }

    /** Makes sure that there is a bottom index for block a. */
    method GetIndex(a: nat)
      requires Valid()
      modifies this, top
      ensures Valid() && slots.Keys == old(slots).Keys + {KeyOf(a)}
      ensures forall b: nat :: SlotAt(slots, b) == SlotAt(old(slots), b)
    {
      hide ListOk, ChainOk, SlotAt, KeyOf, Sized;
      var hi := KeyOf(a);
      var i := hi % TOP_SZ;
      var bi := GetBi(hi);
      if bi == -1 {
        NewIndex(hi, i);
      }
    }

    method NewIndex(hi: nat, i: nat)
      requires Valid() && hi !in slots && i == hi % TOP_SZ
      modifies this, top
      ensures Valid() && slots.Keys == old(slots).Keys + {hi}
      ensures forall b: nat :: SlotAt(slots, b) == SlotAt(old(slots), b)
    {
      hide ListOk, KeyOf, ChainOk, SlotAt, Nils, Sized;
      EmptyIndex(slots, hi);
      ghost var slots0, hash0, top0, chains0 := slots, hash, top[..], chains;
      slots := slots[hi := Nils()];
      hash := hash[hi := top[i]];
      LinkIn(hi);
      top[i] := hi;
      chains := chains[i := [hi] + chains[i]];
      forall j | 0 <= j < TOP_SZ ensures ChainOk(slots, hash, top[j], chains[j], j) {
        assert ChainOk(slots0, hash0, top0[j], chains0[j], j);
        if j == i {
          ChainPush(slots0, hash0, top0[j], chains0[j], j, hi);
        } else {
          ChainFrame(slots0, hash0, top0[j], chains0[j], j, hi, top0[i]);
        }
      }
    }

    /** GC_install_header. */
    method InstallHeader(h: nat, x: BlkHdr)
      requires Valid()
      modifies this, top
      ensures Valid() && slots.Keys == old(slots).Keys + {KeyOf(h)}
      ensures forall a: nat :: SlotAt(slots, a) == if a == h then Head(x) else SlotAt(old(slots), a)
    {
      hide ListOk, ChainOk, SlotAt, KeyOf, Sized;
      GetIndex(h);
      SetSlot(h, Head(x));
    }

    /** The first part of GC_install_counts: there is a bottom index for every heap block of h. */
    method IndexAll(h: nat, span: nat)
      requires Valid() && span > 0
      modifies this, top
      ensures Valid() && old(slots).Keys <= slots.Keys
      ensures forall a: nat :: h <= a < h + span ==> KeyOf(a) in slots
      ensures forall a: nat :: SlotAt(slots, a) == SlotAt(old(slots), a)
    {
      hide ListOk, ChainOk, SlotAt, Sized;
      var m := 0;
      while m * BOTTOM_SZ < span
        invariant Valid() && old(slots).Keys <= slots.Keys
        invariant forall k: nat :: KeyOf(h) <= k < KeyOf(h) + m ==> k in slots
        invariant forall a: nat :: SlotAt(slots, a) == SlotAt(old(slots), a)
        decreases span - m * BOTTOM_SZ
      {
        GetIndex(h + m * BOTTOM_SZ);
        m := m + 1;
      }
      GetIndex(h + span - 1);
    }

    /** GC_install_counts, for a block of the given size. */
    method InstallCounts(h: nat, bytes: nat)
      requires Valid() && bytes > 0
      modifies this, top
      ensures Valid() && old(slots).Keys <= slots.Keys
      ensures var end := h + Span(BlkHdr(bytes, false));
        forall a: nat :: SlotAt(slots, a) == if h < a < end then Jump(HeapSpace.Jump(a - h)) else SlotAt(old(slots), a)
    {
      hide ListOk, ChainOk, SlotAt, Sized, KeyOf;
      var span := Span(BlkHdr(bytes, false));
      IndexAll(h, span);
      var a := h + 1;
      while a < h + span
        invariant h < a <= h + span && Valid() && old(slots).Keys <= slots.Keys
        invariant forall b: nat :: h <= b < h + span ==> KeyOf(b) in slots
        invariant forall b: nat ::
          SlotAt(slots, b) == if h < b < a then Jump(HeapSpace.Jump(b - h)) else SlotAt(old(slots), b)
      {
        SetSlot(a, Jump(HeapSpace.Jump(a - h)));
        a := a + 1;
      }
    }

    /** GC_remove_header. */
    method RemoveHeader(h: nat)
      requires Valid() && KeyOf(h) in slots
      modifies this`slots
      ensures Valid() && slots.Keys == old(slots).Keys
      ensures forall a: nat :: SlotAt(slots, a) == if a == h then Nil else SlotAt(old(slots), a)
    {
      SetSlot(h, Nil);
    }

    /** GC_remove_counts; the counts are all there, or none is. */
    method RemoveCounts(h: nat, bytes: nat)
      requires Valid() && bytes > 0
      requires var span := Span(BlkHdr(bytes, false));
        if SlotAt(slots, h + 1) == Nil then forall a: nat :: h < a < h + span ==> SlotAt(slots, a) == Nil
        else forall a: nat :: h < a < h + span ==> KeyOf(a) in slots
      modifies this`slots
      ensures Valid() && slots.Keys == old(slots).Keys
      ensures forall a: nat ::
        SlotAt(slots, a) == if h < a < h + Span(BlkHdr(bytes, false)) then Nil else SlotAt(old(slots), a)
    {
      hide ListOk, ChainOk, SlotAt, Sized, KeyOf;
      if bytes <= HBLKSIZE {
        return;
      }
      var next := Lookup(h + 1);
      if next == Nil {
        return;
      }
      var span := Span(BlkHdr(bytes, false));
      var a := h + 1;
      while a < h + span
        invariant h < a <= h + span && Valid() && slots.Keys == old(slots).Keys
        invariant forall b: nat :: SlotAt(slots, b) == if h < b < a then Nil else SlotAt(old(slots), b)
      {
        SetSlot(a, Nil);
        a := a + 1;
      }
    }

    /** Makes h a block in use: a new one, or a free one that is large enough. */
    method UseBlock(h: nat, x: BlkHdr, ghost blocks: map<nat, BlkHdr>)
      requires Valid() && Refines(blocks, slots) && FlatOk(blocks[h := x]) && !x.free
      requires h in blocks ==> blocks[h].free
      modifies this, top
      ensures Valid() && Refines(blocks[h := x], slots)
    {
      hide ListOk, ChainOk, SlotAt, Sized, KeyOf, FlatOk, Refines, SlotOk, Span, HeapSpace.Jump;
      ghost var slots0 := slots;
      ValidBytes(blocks[h := x], h);
      InstallHeader(h, x);
      InstallCounts(h, x.bytes);
      assert x == BlkHdr(x.bytes, false);
      BlockChange(blocks, slots0, slots, h, x);
    }

    /** Frees the block in use at h. */
    method FreeBlock(h: nat, ghost blocks: map<nat, BlkHdr>)
      requires Valid() && Refines(blocks, slots) && FlatOk(blocks) && h in blocks && !blocks[h].free
      modifies this, top
      ensures Valid()
      ensures var x := BlkHdr(HBLKSIZE * Span(blocks[h]), true);
        Refines(blocks[h := x], slots) && FlatOk(blocks[h := x])
    {
      hide ListOk, ChainOk, SlotAt, Sized, KeyOf, FlatOk, Refines, SlotOk, Span, HeapSpace.Jump;
      StartSlot(blocks, slots, h);
      ghost var slots0 := slots;
      var s := Lookup(h);
      var size := HBLKSIZE * Span(s.hdr);
      CountsThere(blocks, slots, h);
      ValidBytes(blocks, h);
      WholeBlocks(s.hdr, false);
      WholeBlocks(s.hdr, true);
      RemoveCounts(h, size);
      InstallHeader(h, BlkHdr(size, true));
      FreedOk(blocks, h);
      BlockChange(blocks, slots0, slots, h, BlkHdr(size, true));
    }

    /** Removes the header of the free block h, which has become part of another. */
    method ForgetBlock(h: nat, ghost blocks: map<nat, BlkHdr>)
      requires Valid() && Refines(blocks, slots) && FlatOk(blocks) && h in blocks && blocks[h].free
      modifies this`slots
      ensures Valid() && Refines(blocks - {h}, slots) && FlatOk(blocks - {h})
    {
      hide ListOk, ChainOk, SlotAt, Sized, KeyOf, FlatOk, Refines, SlotOk;
      ghost var slots0 := slots;
      StartSlot(blocks, slots, h);
      RemoveHeader(h);
      BlockForgotten(blocks, slots0, slots, h);
    }

    /** GC_base: the start of the allocated object that holds byte p, or 0. */
    method GcBase(p: nat, ghost blocks: map<nat, BlkHdr>) returns (r: nat)
      requires Valid() && Refines(blocks, slots) && FlatOk(blocks)
      ensures r == 0 ==> forall o: nat :: !ObjectHolds(blocks, o, p)
      ensures r != 0 ==> ObjectHolds(blocks, r, p)
    {
      hide ListOk, ChainOk, SlotAt, Sized, KeyOf, FlatOk, Refines, SlotOk, Span, ObjectHolds;
      var h: nat := p / HBLKSIZE;
      var s := Lookup(h);
      if s == Nil {
        NoObject(blocks, slots, p);
        return 0;
      }
      r := p;
      ghost var a := h;
      StartSlot(blocks, slots, h);
      while s.Jump?
        invariant s == SlotAt(slots, h) && s != Nil && OnTheWay(blocks, a, h)
        invariant h <= a && if h == a then r == p else r == h * HBLKSIZE
        invariant s.Head? ==> h in blocks && blocks[h] == s.hdr
        decreases h
      {
        StartSlot(blocks, slots, h);
        ghost var b := JumpBack(blocks, slots, h);
        StillOnTheWay(blocks, a, h, h - s.n, b);
        h := h - s.n;
        r := h * HBLKSIZE;
        s := Lookup(h);
        StartSlot(blocks, slots, h);
      }
      Arrived(blocks, a, h);
      if s.hdr.free {
        FreeHoldsNone(blocks, h, p);
        return 0;
      }
      if h == a { BaseFirstRight(blocks, p, h); } else { BaseLaterRight(blocks, p, h); }
      var sz := s.hdr.bytes;
      r := BaseFrom(r, sz);
      var limit := r + sz;
      if limit > (h + 1) * HBLKSIZE && sz <= HBLKSIZE {
        return 0;
      }
      if p >= limit {
        return 0;
      }
    }

    /** One bottom index of GC_next_block: the first wanted block at place j or later in it. */
    method ScanUp(k: nat, j0: nat, allowFree: bool, ghost lo: nat, ghost blocks: map<nat, BlkHdr>) returns (j: nat)
      requires Valid() && Refines(blocks, slots) && FlatOk(blocks) && k in slots && j0 < BOTTOM_SZ
      requires NoneIn(blocks, allowFree, lo, k * BOTTOM_SZ + j0) && lo <= k * BOTTOM_SZ + j0
      ensures j >= j0 && NoneIn(blocks, allowFree, lo, k * BOTTOM_SZ + j)
      ensures j < BOTTOM_SZ ==> Wanted(blocks, allowFree, k * BOTTOM_SZ + j)
    {
      hide ListOk, ChainOk, SlotAt, KeyOf, Offset, FlatOk, Refines, SlotOk, Inside;
      j := j0;
      while j < BOTTOM_SZ
        invariant j >= j0 && NoneIn(blocks, allowFree, lo, k * BOTTOM_SZ + j)
        decreases BOTTOM_SZ - j
      {
        EntryAt(slots, k, j);
        StartSlot(blocks, slots, k * BOTTOM_SZ + j);
        var s := slots[k][j];
        if !s.Head? {
          j := j + 1;
        } else if allowFree || !s.hdr.free {
          return;
        } else {
          FreeSkip(blocks, k * BOTTOM_SZ + j);
          j := j + s.hdr.bytes / HBLKSIZE;
        }
      }
    }

    /** Where GC_next_block starts to look. */
    method StartUp(h: nat, allowFree: bool, ghost blocks: map<nat, BlkHdr>) returns (bi: int, j: nat, ghost q: nat)
      requires Valid() && Refines(blocks, slots) && FlatOk(blocks) && forall b: nat :: b in blocks ==> KeyOf(b) in order
      ensures q <= |order| && bi == At(order, q) && j < BOTTOM_SZ
      ensures if bi == -1 then NoneFrom(blocks, allowFree, h)
        else NoneIn(blocks, allowFree, h, bi * BOTTOM_SZ + j) && h <= bi * BOTTOM_SZ + j
    {
      hide ChainOk, SlotAt, KeyOf, Offset, FlatOk, Refines, SlotOk, Wanted, Sized, Links;
      bi := GetBi(KeyOf(h));
      j := Offset(h);
      PlaceOf(h);
      if bi == -1 {
        var pi;
        pi, bi, q := FindPlace(KeyOf(h));
        GapBefore(blocks, allowFree, order, q, h);
        j := 0;
        KeyBelow(h, order, q);
      } else {
        q :| q < |order| && order[q] == bi;
      }
    }

    /** GC_next_block: the nearest block at h or after it that may be returned, or -1. */
    method NextBlock(h: nat, allowFree: bool, ghost blocks: map<nat, BlkHdr>) returns (r: int)
      requires Valid() && Refines(blocks, slots) && FlatOk(blocks)
      ensures r == -1 || (r >= h && r in blocks && (allowFree || !blocks[r].free))
      ensures forall b :: b in blocks && h <= b && (r == -1 || b < r) ==> blocks[b].free && !allowFree
    {
      WantedMeans(blocks, allowFree, h);
      hide ChainOk, SlotAt, KeyOf, FlatOk, Refines, SlotOk, Wanted, Sized, Links, NoneIn, NoneFrom;
      KeysOfBlocks(blocks, slots, order);
      var bi: int, j: nat;
      ghost var q;
      bi, j, q := StartUp(h, allowFree, blocks);
      while bi != -1
        invariant q <= |order| && bi == At(order, q) && j < BOTTOM_SZ
        invariant if bi == -1 then NoneFrom(blocks, allowFree, h)
          else NoneIn(blocks, allowFree, h, bi * BOTTOM_SZ + j) && h <= bi * BOTTOM_SZ + j
        decreases |order| - q
      {
        assert bi in order;
        j := ScanUp(bi, j, allowFree, h, blocks);
        if j < BOTTOM_SZ {
          return bi * BOTTOM_SZ + j;
        }
        GapAfter(blocks, allowFree, order, q, h, bi * BOTTOM_SZ + j);
        LinkAt(order, asc, 1, q);
        bi, j, q := asc[bi], 0, q + 1;
      }
      return -1;
    }

    /** One bottom index of GC_prev_block: the last block at place j or before it, or below -1. */
    method ScanDown(k: nat, j0: nat, ghost hi: nat, ghost blocks: map<nat, BlkHdr>) returns (j: int)
      requires Valid() && Refines(blocks, slots) && FlatOk(blocks) && k in slots && j0 < BOTTOM_SZ
      requires NoneIn(blocks, true, k * BOTTOM_SZ + j0 + 1, hi)
      ensures j <= j0 && NoneIn(blocks, true, k * BOTTOM_SZ + j + 1, hi)
      ensures j >= 0 ==> k * BOTTOM_SZ + j in blocks
    {
      hide ListOk, ChainOk, SlotAt, KeyOf, Offset, FlatOk, Refines, SlotOk, Inside;
      j := j0;
      while j >= 0
        invariant j <= j0 && NoneIn(blocks, true, k * BOTTOM_SZ + j + 1, hi)
        decreases j
      {
        EntryAt(slots, k, j);
        var s := slots[k][j];
        if s == Nil {
          StartSlot(blocks, slots, k * BOTTOM_SZ + j);
          j := j - 1;
        } else if s.Jump? {
          ghost var b := JumpBack(blocks, slots, k * BOTTOM_SZ + j);
          j := j - s.n;
        } else {
          StartSlot(blocks, slots, k * BOTTOM_SZ + j);
          return;
        }
      }
    }

    /** The last bottom index whose key is at most hi. */
    method FindLast(hi: nat) returns (bi: int, ghost q: int)
      requires ListOk(order, asc, desc, first, last)
      ensures -1 <= q < |order| && bi == At(order, q)
      ensures (q >= 0 ==> order[q] <= hi) && forall r :: q < r < |order| ==> order[r] > hi
    {
      hide Links;
      bi, q := last, |order| - 1;
      while bi != -1 && bi > hi
        invariant -1 <= q < |order| && bi == At(order, q)
        invariant forall r :: q < r < |order| ==> order[r] > hi
        decreases q
      {
        LinkAt(order, desc, -1, q);
        bi, q := desc[bi], q - 1;
      }
    }

    /** Where GC_prev_block starts to look. */
    method StartDown(h: nat, ghost blocks: map<nat, BlkHdr>) returns (bi: int, j: nat, ghost q: int)
      requires Valid() && Refines(blocks, slots) && FlatOk(blocks) && forall b: nat :: b in blocks ==> KeyOf(b) in order
      ensures -1 <= q < |order| && bi == At(order, q) && j < BOTTOM_SZ
      ensures NoneIn(blocks, true, if bi == -1 then 0 else bi * BOTTOM_SZ + j + 1, h + 1)
      ensures bi != -1 ==> bi * BOTTOM_SZ + j <= h
    {
      hide ChainOk, SlotAt, KeyOf, Offset, FlatOk, Refines, SlotOk, Wanted, Sized, Links;
      bi := GetBi(KeyOf(h));
      j := Offset(h);
      PlaceOf(h);
      if bi == -1 {
        bi, q := FindLast(KeyOf(h));
        GapAbove(blocks, order, q, h);
        KeyAbove(h, bi);
        j := BOTTOM_SZ - 1;
      } else {
        q :| 0 <= q < |order| && order[q] == bi;
      }
    }

    /** GC_prev_block: the nearest block at h or before it, or -1. */
    method PrevBlock(h: nat, ghost blocks: map<nat, BlkHdr>) returns (r: int)
      requires Valid() && Refines(blocks, slots) && FlatOk(blocks)
      ensures r == -1 || (0 <= r <= h && r in blocks)
      ensures forall b :: b in blocks && b <= h ==> b <= r
    {
      AnyWanted(blocks, h + 1);
      hide ChainOk, SlotAt, KeyOf, FlatOk, Refines, SlotOk, Wanted, Sized, Links, NoneIn;
      KeysOfBlocks(blocks, slots, order);
      var bi, j: int;
      ghost var q: int;
      bi, j, q := StartDown(h, blocks);
      while bi != -1
        invariant -1 <= q < |order| && bi == At(order, q) && 0 <= j < BOTTOM_SZ
        invariant NoneIn(blocks, true, if bi == -1 then 0 else bi * BOTTOM_SZ + j + 1, h + 1)
        invariant bi != -1 ==> bi * BOTTOM_SZ + j <= h
        decreases q
      {
        assert bi in order;
        j := ScanDown(bi, j, h + 1, blocks);
        if j >= 0 {
          return bi * BOTTOM_SZ + j;
        }
        GapDown(blocks, order, q, bi * BOTTOM_SZ + j, h + 1);
        LinkAt(order, desc, -1, q);
        bi, j, q := desc[bi], BOTTOM_SZ - 1, q - 1;
      }
      return -1;
    }

    /** One bottom index of GC_apply_to_all_blocks: its allocated blocks, the last first. */
    method VisitIndex(k: nat, visited0: seq<nat>, ghost blocks: map<nat, BlkHdr>) returns (visited: seq<nat>)
      requires Valid() && Refines(blocks, slots) && FlatOk(blocks) && k in slots
      requires VisitedTo(blocks, visited0, k, BOTTOM_SZ)
      ensures VisitedTo(blocks, visited, k, 0)
    {
      hide ListOk, ChainOk, SlotAt, KeyOf, Offset, FlatOk, Refines, SlotOk, Inside, VisitedTo;
      visited := visited0;
      var j: int := BOTTOM_SZ - 1;
      while j >= 0
        invariant j < BOTTOM_SZ && VisitedTo(blocks, visited, k, if j < 0 then 0 else j + 1)
        decreases j
      {
        EntryAt(slots, k, j);
        ghost var a: nat := k * BOTTOM_SZ + j;
        StartSlot(blocks, slots, a);
        var s := slots[k][j];
        if s.Head? {
          ghost var v := visited;
          if !s.hdr.free {
            visited := visited + [k * BOTTOM_SZ + j];
          }
          VisitOne(blocks, v, visited, k, j);
          j := j - 1;
        } else if s == Nil {
          VisitNone(blocks, visited, k, j, j - 1);
          j := j - 1;
        } else {
          ghost var b := JumpBack(blocks, slots, a);
          VisitNone(blocks, visited, k, j, j - s.n);
          j := j - s.n;
        }
      }
    }

    /** GC_apply_to_all_blocks: the blocks to which the function is applied, in order. */
    method ApplyToAllBlocks(ghost blocks: map<nat, BlkHdr>) returns (visited: seq<nat>)
      requires Valid() && Refines(blocks, slots) && FlatOk(blocks)
      ensures forall b: nat :: b in visited <==> b in blocks && !blocks[b].free
      ensures forall m, n :: 0 <= m < n < |visited| ==> visited[m] != visited[n]
    {
      hide ChainOk, SlotAt, KeyOf, FlatOk, Refines, SlotOk, Sized, Links, VisitedTo;
      KeysOfBlocks(blocks, slots, order);
      visited := [];
      var bi := first;
      ghost var q := 0;
      if bi != -1 { NoneVisited(blocks, order); }
      while bi != -1
        invariant q <= |order| && bi == At(order, q)
        invariant bi != -1 ==> VisitedTo(blocks, visited, bi, BOTTOM_SZ)
        invariant bi == -1 ==> (q > 0 && VisitedTo(blocks, visited, order[q - 1], 0)) || (order == [] && visited == [])
        decreases |order| - q
      {
        assert bi in order;
        visited := VisitIndex(bi, visited, blocks);
        if q + 1 < |order| { VisitNext(blocks, visited, order, q); }
        LinkAt(order, asc, 1, q);
        bi, q := asc[bi], q + 1;
      }
      if q > 0 { VisitEnd(blocks, visited, order); }
    }
  }

  lemma InsertList(order: seq<nat>, asc: map<nat, int>, desc: map<nat, int>, first: int, last: int, hi: nat, q: nat,
                   order': seq<nat>, pi: int, p: int)
    requires ListOk(order, asc, desc, first, last) && hi !in order && q <= |order|
    requires (forall r :: 0 <= r < q ==> order[r] < hi) && (q < |order| ==> hi < order[q])
    requires order' == InsertAt(order, q, hi) && pi == At(order, q - 1) && p == At(order, q)
    ensures ListOk(order', Relinked(asc, pi, hi, p), Relinked(desc, p, hi, pi),
                   if pi == -1 then hi else first, if p == -1 then hi else last)
  {
    assert |order'| == |order| + 1;
    hide Links, Increasing, Relinked, InsertAt;
    InsertLinks(order, asc, 1, q, hi);
    InsertLinks(order, desc, -1, q, hi);
    InsertIncreasing(order, q, hi);
    InsertedAt(order, q, hi, 0);
    InsertedAt(order, q, hi, |order|);
  }

  /** A bottom index without entries. */
  function Nils(): seq<Slot> {
    seq(BOTTOM_SZ, _ => Nil)
  }

  lemma EmptyIndex(slots: map<nat, seq<Slot>>, hi: nat)
    requires Sized(slots) && hi !in slots
    ensures Sized(slots[hi := Nils()])
    ensures forall b: nat :: SlotAt(slots[hi := Nils()], b) == SlotAt(slots, b)
  {
  }

  lemma LinksFrame(l: seq<nat>, next: map<nat, int>, step: int, k: nat, v: int)
    requires Links(l, next, step) && k !in l
    ensures Links(l, next[k := v], step)
  {
  }

  lemma LinksPush(l: seq<nat>, next: map<nat, int>, k: nat)
    requires Links(l, next, 1) && k !in l
    ensures Links([k] + l, next[k := At(l, 0)], 1)
  {
    var r := [k] + l;
    forall q | 0 <= q < |r| ensures r[q] in next[k := At(l, 0)] && next[k := At(l, 0)][r[q]] == At(r, q + 1) {
      if q > 0 { assert l[q - 1] in l; }
    }
  }

  /** A new bottom index leaves the chains of the other buckets as they are. */
  lemma ChainFrame(slots: map<nat, seq<Slot>>, hash: map<nat, int>, head: int, chain: seq<nat>, i: nat, hi: nat,
                   tail: int)
    requires ChainOk(slots, hash, head, chain, i) && hi !in slots && hi % TOP_SZ != i
    ensures ChainOk(slots[hi := Nils()], hash[hi := tail], head, chain, i)
  {
    hide Links;
    LinksFrame(chain, hash, 1, hi, tail);
  }

  lemma ChainPush(slots: map<nat, seq<Slot>>, hash: map<nat, int>, head: int, chain: seq<nat>, i: nat, hi: nat)
    requires ChainOk(slots, hash, head, chain, i) && hi !in slots && hi % TOP_SZ == i
    ensures ChainOk(slots[hi := Nils()], hash[hi := head], hi, [hi] + chain, i)
  {
    hide Links;
    LinksPush(chain, hash, hi);
  }

  lemma SlotUpdate(slots: map<nat, seq<Slot>>, a: nat, v: Slot)
    requires Sized(slots) && KeyOf(a) in slots
    ensures Offset(a) < |slots[KeyOf(a)]|
    ensures Sized(slots[KeyOf(a) := slots[KeyOf(a)][Offset(a) := v]])
    ensures forall b: nat ::
      SlotAt(slots[KeyOf(a) := slots[KeyOf(a)][Offset(a) := v]], b) == if b == a then v else SlotAt(slots, b)
  {
    OffsetFits(a);
    var slots' := slots[KeyOf(a) := slots[KeyOf(a)][Offset(a) := v]];
    forall b: nat ensures SlotAt(slots', b) == if b == a then v else SlotAt(slots, b) {
      OffsetFits(b);
      if KeyOf(b) == KeyOf(a) && Offset(b) == Offset(a) { SameAddress(a, b); }
    }
  }

  lemma OffsetFits(a: nat)
    ensures Offset(a) < BOTTOM_SZ
  {
  }

  lemma SameAddress(a: nat, b: nat)
    requires KeyOf(a) == KeyOf(b) && Offset(a) == Offset(b)
    ensures a == b
  {
  }
}
