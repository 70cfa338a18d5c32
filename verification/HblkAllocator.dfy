/**
  The heap block allocator: segregated free lists, first-fit search that avoids
  black-listed blocks, splitting and coalescing. Addresses and sizes count heap blocks.
*/
module HblkAllocator {
  import opened FreeLists
  import opened HeapSpace
  import opened HeapChanges
  import opened BlackLists

  /** Half the address space. */
  const SIGN_BLOCKS: nat := 0x8_0000_0000_0000

  /** Larger pointer-free requests are subject to black-listing as well. */
  const MAX_BLACK_LIST_ALLOC: nat := 2

  /** The whole address space. */
  const WORD_BLOCKS: nat := 0x10_0000_0000_0000

  /** What GC_allochblk may do with blocks that are larger than requested. */
  datatype Split = Never | Always | AvoidRemapped

  /** A request for needed blocks. Unless checked is false the first eff of them must not be
      black-listed. */
  datatype Request = Request(needed: nat, eff: nat, checked: bool)

  datatype Verdict = Skip | Take(start: nat) | Full

  /** A very large request in an even larger block is not held up by black-listing. */
  predicate Punts(rq: Request, size: nat, limit: nat) {
    rq.needed > limit && size > limit + rq.needed
  }

  /** Everything that decides whether a free block is good for a request. */
  datatype Search = Search(view: Sets, rq: Request, split: Split, limit: nat) {
    ghost predicate HasStart(b: nat, size: nat) {
      exists s: nat :: b <= s && s + rq.needed <= b + size && !view.Listed(s, rq.eff)
    }

    lemma NoStart(b: nat, size: nat, last: nat)
      requires forall s: nat :: b <= s < last ==> view.Listed(s, rq.eff)
      requires b + size < last + rq.needed
      ensures !HasStart(b, size)
    {
      hide Sets.Listed;
    }

    ghost predicate Acceptable(b: nat, hd: Hdr) {
      && rq.needed <= hd.sz && (rq.needed == hd.sz || split != Never)
      && (|| !rq.checked
          || !view.Listed(b, rq.eff)
          || (if HasStart(b, hd.sz) then !(split == AvoidRemapped && hd.unmapped) else Punts(rq, hd.sz, limit)))
    }

    /** A start inside the block, not black-listed unless there is no such start in a block
        for which the request is let through. */
    ghost predicate GoodStart(b: nat, hd: Hdr, s: nat) {
      && b <= s && s + rq.needed <= b + hd.sz
      && (rq.checked ==> !view.Listed(s, rq.eff) || (s == b && !HasStart(b, hd.sz) && Punts(rq, hd.sz, limit)))
    }

    /** Not acceptable, however blocks may be split: black-listed at every start. */
    ghost predicate Refused(b: nat, hd: Hdr) {
      rq.checked && view.Listed(b, rq.eff) && !HasStart(b, hd.sz) && !Punts(rq, hd.sz, limit)
    }

    /** Only black-listed blocks are dropped, and only for small requests. */
    ghost predicate MayDrop(dropped: set<nat>) {
      && (dropped != {} ==> rq.needed == 1 && rq.checked)
      && forall k :: k in dropped ==> view.Listed(k, 1)
    }

    lemma BothMayDrop(d1: set<nat>, d2: set<nat>)
      requires MayDrop(d1) && MayDrop(d2)
      ensures MayDrop(d1 + d2)
    {
    }

    /** A mapped block all of which is black-listed, for a request of one block. */
    ghost predicate Hopeless(b: nat, hd: Hdr) {
      && rq.needed == 1 && rq.checked && !hd.unmapped
      && forall s: nat :: b <= s < b + hd.sz ==> view.Listed(s, 1)
    }
  }

  /** A block is dropped each time the counter reaches a multiple of four; it rests when looking for leaks. */
  ghost predicate DropsCounted(count: nat, count': nat, findLeak: bool, dropped: set<nat>, dropped': set<nat>) {
    && count <= count' && (findLeak ==> count' == count) && dropped <= dropped'
    && (dropped' == dropped <==> count' / 4 == count / 4)
  }

  lemma DropsNone(count: nat, findLeak: bool, dropped: set<nat>)
    ensures DropsCounted(count, count, findLeak, dropped, dropped)
  {
  }

  lemma DropsThen(c0: nat, c1: nat, c2: nat, findLeak: bool, d0: set<nat>, d1: set<nat>, d2: set<nat>)
    requires DropsCounted(c0, c1, findLeak, d0, d1) && DropsCounted(c1, c2, findLeak, d1, d2)
    ensures DropsCounted(c0, c2, findLeak, d0, d2)
  {
  }

  datatype Snap = Snap(h: map<nat, Hdr>, lists: seq<seq<nat>>, owner: map<nat, nat>)

  /** Between s and t a search has only dropped blocks, none of them any good. */
  ghost predicate Passed(q: Search, s: Snap, t: Snap, dropped: set<nat>) {
    && |s.lists| == |t.lists|
    && (forall k, b :: 0 <= k < |s.lists| && b in t.lists[k] ==> b in s.lists[k])
    && (forall k, b :: 0 <= k < |s.lists| && b in s.lists[k] ==> b in t.lists[k] || RefusedIn(q, s, b))
    && SameFree(s.h, t.h)
    && Consumed(s.h, s.owner, t.h, t.owner, dropped)
  }

  /** What a verdict on the free block b means. A block may be skipped in favour of the next one. */
  ghost predicate Judged(q: Search, h: map<nat, Hdr>, b: nat, v: Verdict) {
    && b in h
    && (v.Take? ==> q.Acceptable(b, h[b]) && q.GoodStart(b, h[b], v.start))
    && (v.Skip? && q.Acceptable(b, h[b]) ==>
          h[b].next != 0 && h[b].next in h && q.Acceptable(h[b].next, h[h[b].next]))
    && (v.Full? ==> !q.Acceptable(b, h[b]) && q.Refused(b, h[b]) && q.Hopeless(b, h[b]) && !h[b].unmapped)
  }

  ghost predicate RefusedIn(q: Search, s: Snap, b: nat) {
    b in s.h && q.Refused(b, s.h[b])
  }

  ghost predicate AcceptedIn(q: Search, s: Snap, b: nat) {
    b in s.h && q.Acceptable(b, s.h[b])
  }

  /** The blocks before place j are no good, unless the one at place j is. */
  ghost predicate Seen(q: Search, s: Snap, t: Snap, n: nat, j: nat) {
    && n < |s.lists| == |t.lists| && j <= |t.lists[n]|
    && (|| (forall b :: b in s.lists[n] ==> b in t.lists[n][j..] || !AcceptedIn(q, s, b))
        || (j < |t.lists[n]| && AcceptedIn(q, t, t.lists[n][j])))
  }

  ghost predicate NoneOn(q: Search, s: Snap, n: nat) {
    n < |s.lists| && forall b :: b in s.lists[n] ==> !AcceptedIn(q, s, b)
  }

  /** The blocks at r were taken from an acceptable run of list n, after dropping others. */
  ghost predicate Found(q: Search, s: Snap, t: Snap, n: nat, dropped: set<nat>, r: nat, from: nat) {
    && n < |s.lists| && from in s.lists[n] && AcceptedIn(q, s, from) && q.GoodStart(from, s.h[from], r)
    && UsedRun(t.h, r) && t.h[r].sz == q.rq.needed
    && Consumed(s.h, s.owner, t.h, t.owner, dropped + Blocks(r, q.rq.needed))
    && dropped !! Blocks(r, q.rq.needed)
  }

  /** Like Found, whatever list the run was on. */
  ghost predicate Got(q: Search, s: Snap, t: Snap, dropped: set<nat>, r: nat, from: nat) {
    && AcceptedIn(q, s, from) && s.h[from].free && q.GoodStart(from, s.h[from], r)
    && UsedRun(t.h, r) && t.h[r].sz == q.rq.needed
    && Consumed(s.h, s.owner, t.h, t.owner, dropped + Blocks(r, q.rq.needed))
    && dropped !! Blocks(r, q.rq.needed)
  }

  ghost predicate NoneBetween(q: Search, s: Snap, first: nat, last: int) {
    forall k :: first <= k <= last ==> NoneOn(q, s, k)
  }

  /** No free run has an acceptable start. */
  ghost predicate NothingFor(q: Search, s: Snap) {
    forall b: nat :: b in s.h && s.h[b].free ==> !AcceptedIn(q, s, b)
  }

  /** Everything on the lists is on the list its size selects. */
  ghost predicate OnOwnLists(s: Snap) {
    forall k: nat, b :: k < |s.lists| && b in s.lists[k] ==> b in s.h && FlFromBlocks(s.h[b].sz) == k
  }

  /** Run b is on a list from first up to last. */
  ghost predicate ListedBetween(s: Snap, b: nat, first: nat, last: nat) {
    exists n: nat :: first <= n <= last && n < |s.lists| && b in s.lists[n]
  }

  /** No free run of exactly the requested size is acceptable. */
  ghost predicate NothingExact(q: Search, s: Snap) {
    forall b: nat :: b in s.h && s.h[b].free && s.h[b].sz == q.rq.needed ==> !q.(split := Never).Acceptable(b, s.h[b])
  }

  /** Every free run is on the list its size selects. */
  ghost predicate FreeOnLists(s: Snap) {
    && |s.lists| == N_HBLK_FLS + 1
    && forall b: nat :: b in s.h && s.h[b].free ==> b in s.lists[FlFromBlocks(s.h[b].sz)]
  }

  /** Everything on the lists is free. */
  ghost predicate AllFree(s: Snap) {
    forall k, b :: 0 <= k < |s.lists| && b in s.lists[k] ==> b in s.h && s.h[b].free
  }

  lemma PassedStart(q: Search, s: Snap, n: nat)
    requires n < |s.lists|
    ensures Passed(q, s, s, {}) && Seen(q, s, s, n, 0)
    ensures q.MayDrop({})
  {
    SameConsumes(s.h, s.h, s.owner);
    assert s.lists[n][0..] == s.lists[n];
  }

  /** Being acceptable does not change for runs that stay free. */
  lemma StillAccepted(q: Search, s: Snap, t: Snap, dropped: set<nat>, b: nat)
    requires Passed(q, s, t, dropped) && b in t.h && t.h[b].free
    ensures b in s.h && SameRun(s.h[b], t.h[b])
    ensures AcceptedIn(q, s, b) <==> AcceptedIn(q, t, b)
    ensures RefusedIn(q, s, b) <==> RefusedIn(q, t, b)
  {
    hide Search.HasStart, Sets.Listed;
  }

  lemma SeenSkip(q: Search, s: Snap, t: Snap, n: nat, j: nat, dropped: set<nat>)
    requires Passed(q, s, t, dropped) && AllFree(t) && Seen(q, s, t, n, j) && j < |t.lists[n]|
    requires !AcceptedIn(q, t, t.lists[n][j]) || (j + 1 < |t.lists[n]| && AcceptedIn(q, t, t.lists[n][j + 1]))
    ensures Seen(q, s, t, n, j + 1)
  {
    hide Passed, AcceptedIn;
    var l := t.lists[n];
    var b := l[j];
    assert b in l;
    StillAccepted(q, s, t, dropped, b);
    assert l[j..] == [b] + l[j + 1..];
  }

  lemma SeenAll(q: Search, s: Snap, t: Snap, n: nat, j: nat, dropped: set<nat>)
    requires Seen(q, s, t, n, j) && j == |t.lists[n]|
    ensures NoneOn(q, s, n)
  {
  }

  lemma ListedMore(view: Sets, h: nat, m: nat, n: nat)
    requires 1 <= m <= n
    ensures view.Listed(h, m) ==> view.Listed(h, n)
  {
    if view.Listed(h, m) && h !in view.normal {
      var k :| h <= k < h + Max1(m) && k in view.stack;
      assert h <= k < h + Max1(n) && k in view.stack;
    }
  }

  const PTRFREE: nat := 0
  const UNCOLLECTABLE: nat := 2

  predicate IsUncollectable(kind: nat) {
    kind / 2 * 2 == UNCOLLECTABLE
  }

  /** Kinds 2 and 3 are uncollectable. */
  lemma CheckedKinds(kind: nat, needed: nat)
    ensures !IsUncollectable(kind) && (kind != PTRFREE || needed > MAX_BLACK_LIST_ALLOC) <==>
      kind != 2 && kind != 3 && (kind != 0 || needed > 2)
  {
  }

  lemma DropsMean(count: nat, count': nat, findLeak: bool, dropped: set<nat>)
    requires DropsCounted(count, count', findLeak, {}, dropped)
    ensures (findLeak ==> dropped == {}) && (dropped == {} <==> count' / 4 == count / 4)
  {
  }

  /** How far the allocator goes before it gives up and lets its caller collect or grow the heap. */
  datatype Policy = WholeHeap | CollectSooner | LargeBlocksLeft(allocd: nat, maxAllocd: nat)

  predicate Within(lo: nat, n: nat, k: nat) {
    lo <= k < lo + n
  }

  function Sum(s: seq<nat>): nat {
    if s == [] then 0 else s[0] + Sum(s[1..])
  }

  lemma {:induction false} SumUpdate(s: seq<nat>, i: nat, v: nat)
    requires i < |s|
    ensures Sum(s[i := v]) + s[i] == Sum(s) + v
  {
    if i == 0 {
      assert s[0 := v][1..] == s[1..];
    } else {
      SumUpdate(s[1..], i - 1, v);
      assert s[i := v][1..] == s[1..][i - 1 := v];
    }
  }

  lemma {:induction false} SumZero(s: seq<nat>)
    requires forall i :: 0 <= i < |s| ==> s[i] == 0
    ensures Sum(s) == 0
  {
    if s != [] { SumZero(s[1..]); }
  }

  lemma {:induction false} SumElement(s: seq<nat>, i: nat)
    requires i < |s|
    ensures s[i] <= Sum(s)
  {
    if i > 0 { SumElement(s[1..], i - 1); }
  }

  class Allocator {
    const bl: Lists
    const freelist: array<nat>      // first block of each list
    const freeBytes: array<nat>     // size of each list, in blocks
    var hdrs: map<nat, Hdr>
    var counts: map<nat, nat>
    var mapped: set<nat>            // blocks the operating system has mapped
    var largeFree: nat
    var heapSize: nat
    var bytesDropped: nat
    var dropCount: nat
    var blLimit: nat                // GC_black_list_spacing
    var findLeak: bool

    ghost var lists: seq<seq<nat>>
    ghost var owner: map<nat, nat>

    ghost predicate Arrays() {
      freelist != freeBytes && freelist.Length == freeBytes.Length == N_HBLK_FLS + 1
    }

    /** The free lists hold exactly the blocks of listed. */
    ghost predicate Listing(listed: set<nat>, x: nat, xi: nat)
      reads this`hdrs, this`lists, freelist, freeBytes
    {
      FreeListsOk(hdrs, freelist[..], freeBytes[..], lists, listed, x, xi)
    }

    ghost predicate Space(bare: nat)
      reads this`hdrs, this`owner, this`counts, this`mapped
    {
      SpaceOk(hdrs, owner, counts, mapped, bare)
    }

    /** Everything in order except perhaps heapSize; run bare has no jumps. */
    ghost predicate Base(bare: nat)
      reads this`hdrs, this`owner, this`counts, this`mapped, this`lists, this`largeFree, freelist, freeBytes, bl
      ensures Base(bare) ==> Arrays() && bl.Valid()
    {
      Arrays() && bl.Valid() && Space(bare) && Listing(FreeSet(hdrs), 0, 0) && largeFree == Sum(freeBytes[..])
    }

    ghost predicate Valid()
      reads this`hdrs, this`owner, this`counts, this`mapped, this`lists, this`largeFree, this`heapSize, freelist,
            freeBytes, bl
    {
      Base(0) && heapSize == |owner|
    }

    /** An allocator without any heap. */
    constructor (bl: Lists, blLimit: nat, findLeak: bool)
      requires bl.Valid()
      ensures Valid() && this.bl == bl && owner == map[] && fresh(freelist) && fresh(freeBytes)
    {
      this.bl, this.blLimit, this.findLeak := bl, blLimit, findLeak;
      freelist := new nat[N_HBLK_FLS + 1](_ => 0);
      freeBytes := new nat[N_HBLK_FLS + 1](_ => 0);
      hdrs, counts, mapped, owner := map[], map[], {}, map[];
      largeFree, heapSize, bytesDropped, dropCount := 0, 0, 0, 0;
      lists := seq(N_HBLK_FLS + 1, _ => []);
      new;
      SumZero(freeBytes[..]);
      NothingListed(freelist[..], freeBytes[..], lists);
      hide FreeListsOk;
    }

    /** Takes the j-th block of a list off that list. */
    method RemoveFromFlAt(b: nat, index: nat, ghost listed: set<nat>, ghost x: nat, ghost xi: nat, ghost j: nat)
      requires Arrays() && Listing(listed, x, xi)
      requires b in listed && b in hdrs && index == Place(hdrs, b, x, xi) && index < |lists|
      requires j < |lists[index]| && lists[index][j] == b
      modifies this`hdrs, this`lists, freelist, freeBytes
      ensures Listing(listed - {b}, x, xi)
      ensures SameRuns(old(hdrs), hdrs)
      ensures lists == old(lists)[index := Without(old(lists)[index], j)]
      ensures Sum(freeBytes[..]) + old(hdrs)[b].sz == old(Sum(freeBytes[..]))
      ensures NoMore(old(freeBytes[..]), freeBytes[..])
    {
      hide FreeListsOk, Linked, Without;
      ghost var h := hdrs;
      ListNeighbours(h, freelist[..], freeBytes[..], lists, listed, x, xi, b, index, j);
      FreeListsRemove(h, freelist[..], freeBytes[..], lists, listed, x, xi, b, index, j);
      UnlinkKeeps(h, b);
      SumUpdate(freeBytes[..], index, freeBytes[index] - h[b].sz);
      ghost var heads, bytes := freelist[..], freeBytes[..];
      var hb := hdrs[b];
      if hb.prev == 0 {
        freelist[index] := hb.next;
      } else {
        hdrs := hdrs[hb.prev := hdrs[hb.prev].(next := hb.next)];
      }
      freeBytes[index] := freeBytes[index] - hb.sz;
      if hb.next != 0 {
        hdrs := hdrs[hb.next := hdrs[hb.next].(prev := hb.prev)];
      }
      lists := lists[index := Without(lists[index], j)];
      assert hdrs == Unlink(h, b);
      assert freelist[..] == heads[index := if h[b].prev == 0 then h[b].next else heads[index]];
      assert freeBytes[..] == bytes[index := bytes[index] - h[b].sz];
    }

    /** Takes a block off the list its size selects. */
    method RemoveFromFl(b: nat, ghost listed: set<nat>)
      requires Arrays() && Listing(listed, 0, 0)
      requires b in listed && b in hdrs
      modifies this`hdrs, this`lists, freelist, freeBytes
      ensures Listing(listed - {b}, 0, 0)
      ensures SameRuns(old(hdrs), hdrs)
      ensures Fewer(old(lists), lists)
      ensures Sum(freeBytes[..]) + old(hdrs)[b].sz == old(Sum(freeBytes[..]))
    {
      ghost var j := Position(hdrs, freelist[..], freeBytes[..], lists, listed, b);
      FewerWithout(hdrs, freelist[..], freeBytes[..], lists, listed, FlFromBlocks(hdrs[b].sz), j);
      RemoveFromFlAt(b, FlFromBlocks(hdrs[b].sz), listed, 0, 0, j);
    }

    /** Puts a block at the front of the list its size selects. */
    method AddToFl(b: nat, ghost listed: set<nat>, ghost x: nat, ghost xi: nat)
      requires Arrays() && Listing(listed, x, xi)
      requires b in hdrs && b != 0 && b !in listed && b != x
      modifies this`hdrs, this`lists, freelist, freeBytes
      ensures Listing(listed + {b}, x, xi)
      ensures hdrs.Keys == old(hdrs).Keys &&
        hdrs[b] == old(hdrs)[b].(next := hdrs[b].next, prev := hdrs[b].prev, free := true)
      ensures forall c :: c in hdrs && c != b ==> SameRun(old(hdrs)[c], hdrs[c])
      ensures lists == old(lists)[FlFromBlocks(hdrs[b].sz) := [b] + old(lists)[FlFromBlocks(hdrs[b].sz)]]
      ensures Sum(freeBytes[..]) == old(Sum(freeBytes[..])) + hdrs[b].sz
    {
      hide FreeListsOk, Linked;
      var index := FlFromBlocks(hdrs[b].sz);
      var second := freelist[index];
      ghost var h, heads, bytes := hdrs, freelist[..], freeBytes[..];
      HeadInList(h, heads, bytes, lists, listed, x, xi, index);
      FreeListsAdd(h, heads, bytes, lists, listed, x, xi, b, index);
      LinkKeeps(h, b, second);
      SumUpdate(bytes, index, bytes[index] + h[b].sz);
      freelist[index] := b;
      freeBytes[index] := freeBytes[index] + hdrs[b].sz;
      hdrs := hdrs[b := hdrs[b].(next := second, prev := 0)];
      if second != 0 {
        hdrs := hdrs[second := hdrs[second].(prev := b)];
      }
      hdrs := hdrs[b := hdrs[b].(free := true)];
      lists := lists[index := [b] + lists[index]];
      assert hdrs == Link(h, b, second);
      assert freelist[..] == heads[index := b];
      assert freeBytes[..] == bytes[index := bytes[index] + h[b].sz];
    }

    // ------------------------------------------------------------ carving

    /** Maps the blocks of an unmapped run again. */
    method Remap(b: nat)
      requires Valid() && b in hdrs && hdrs[b].free
      modifies this`hdrs, this`mapped
      ensures Valid() && hdrs == old(hdrs)[b := old(hdrs)[b].(unmapped := false)]
      ensures Consumed(old(hdrs), owner, hdrs, owner, {})
      ensures old(Coalesced(hdrs, 0, 0)) ==> Coalesced(hdrs, 0, 0)
    {
      hide FreeListsOk, SpaceOk, Consumed, Coalesced;
      ghost var h, old1 := hdrs, mapped;
      mapped := mapped + Blocks(b, hdrs[b].sz);
      hdrs := hdrs[b := hdrs[b].(unmapped := false)];
      SpaceRemap(h, hdrs, owner, counts, old1, mapped, b);
      RemapChanges(h, hdrs, owner, b, 0, 0);
      FreeListsFrame(h, hdrs, freelist[..], freeBytes[..], lists, FreeSet(h), 0, 0);
    }

    /** A new header at t takes the place of the j-th block b of a list, whatever its size. */
    method ReplaceOnList(b: nat, t: nat, index: nat, ghost listed: set<nat>, ghost j: nat)
      requires Arrays() && Listing(listed, 0, 0)
      requires b in listed && b in hdrs && b != 0 && index == FlFromBlocks(hdrs[b].sz) && index < |lists|
      requires j < |lists[index]| && lists[index][j] == b
      requires b < t < b + hdrs[b].sz && t !in hdrs
      modifies this`hdrs, this`lists, freelist, freeBytes
      ensures Listing(listed - {b} + {t}, t, index)
      ensures listed <= old(hdrs).Keys && hdrs.Keys == old(hdrs).Keys + {t} && hdrs[t].sz == b + old(hdrs)[b].sz - t
      ensures !hdrs[t].free && !hdrs[t].unmapped
      ensures forall c :: c in old(hdrs) ==> SameRun(old(hdrs)[c], hdrs[c])
      ensures Sum(freeBytes[..]) + (t - b) == old(Sum(freeBytes[..]))
      ensures lists == old(lists)[index := With(old(lists)[index], j, t)]
    {
      hide FreeListsOk, Linked;
      ghost var h, heads, bytes := hdrs, freelist[..], freeBytes[..];
      ListNeighbours(h, heads, bytes, lists, listed, 0, 0, b, index, j);
      var size := b + hdrs[b].sz - t;
      FreeListsReplace(h, heads, bytes, lists, listed, b, index, j, t, size);
      ReplaceKeeps(h, b, t, size);
      ListedKeys(h, heads, bytes, lists, listed, 0, 0);
      SumUpdate(bytes, index, bytes[index] - (t - b));
      var prev, next := hdrs[b].prev, hdrs[b].next;
      hdrs := hdrs[t := Hdr(next, prev, size, false, false)];
      if prev != 0 {
        hdrs := hdrs[prev := hdrs[prev].(next := t)];
      } else {
        freelist[index] := t;
      }
      if next != 0 {
        hdrs := hdrs[next := hdrs[next].(prev := t)];
      }
      freeBytes[index] := freeBytes[index] - (t - b);
      lists := lists[index := With(lists[index], j, t)];
      assert hdrs == Replace(h, b, t, size);
      assert freelist[..] == heads[index := if h[b].prev == 0 then t else heads[index]];
      assert freeBytes[..] == bytes[index := bytes[index] - h[b].sz + size];
    }

    /** Splits the j-th block of a list at t. The new block takes the place of b on that list,
        whatever its size; what is left of b goes to the list its size selects. */
    method SplitBlock(b: nat, t: nat, index: nat, ghost listed: set<nat>, ghost j: nat) returns (ghost j': nat)
      requires Arrays() && Listing(listed, 0, 0)
      requires b in listed && b in hdrs && b != 0 && index == FlFromBlocks(hdrs[b].sz) && index < |lists|
      requires j < |lists[index]| && lists[index][j] == b
      requires b < t < b + hdrs[b].sz && t !in hdrs && !hdrs[b].unmapped && hdrs[b].free
      modifies this`hdrs, this`lists, freelist, freeBytes
      ensures Listing(listed + {t}, t, index)
      ensures SplitRun(old(hdrs), hdrs, b, t)
      ensures Sum(freeBytes[..]) == old(Sum(freeBytes[..]))
      ensures |lists| == old(|lists|) && j' < |lists[index]| && lists[index][j'] == t
    {
      hide FreeListsOk, Linked;
      ReplaceOnList(b, t, index, listed, j);
      ghost var h1, listed1 := hdrs, listed - {b} + {t};
      hdrs := hdrs[b := hdrs[b].(sz := t - b)];
      FreeListsFrame(h1, hdrs, freelist[..], freeBytes[..], lists, listed1, t, index);
      assert lists[index][j] == t;
      AddToFl(b, listed1, t, index);
      ghost var h2 := hdrs;
      hdrs := hdrs[t := hdrs[t].(free := true)];
      assert listed1 + {b} == listed + {t};
      FreeListsFrame(h2, hdrs, freelist[..], freeBytes[..], lists, listed + {t}, t, index);
      j' := if FlFromBlocks(t - b) == index then j + 1 else j;
    }

    /** Takes the j-th block of a list off that list and returns all but its first n blocks to
        the list their size selects. The header of b is completed by the caller. */
    method GetFirstPart(b: nat, n: nat, index: nat, ghost listed: set<nat>, ghost x: nat, ghost xi: nat, ghost j: nat)
      requires Arrays() && Listing(listed, x, xi) && (x == b || x == 0)
      requires b in listed && b in hdrs && index == Place(hdrs, b, x, xi) && index < |lists|
      requires j < |lists[index]| && lists[index][j] == b
      requires 0 < n <= hdrs[b].sz && (n < hdrs[b].sz ==> b + n !in hdrs)
      modifies this`hdrs, this`lists, freelist, freeBytes
      ensures Listing(listed - {b} + (if n < old(hdrs)[b].sz then {b + n} else {}), 0, 0)
      ensures listed <= old(hdrs).Keys && hdrs.Keys == old(hdrs).Keys + (if n < old(hdrs)[b].sz then {b + n} else {})
      ensures n < old(hdrs)[b].sz ==> hdrs[b + n].sz == old(hdrs)[b].sz - n && hdrs[b + n].free && !hdrs[b + n].unmapped
      ensures forall c :: c in old(hdrs) ==> SameRun(old(hdrs)[c], hdrs[c])
      ensures Sum(freeBytes[..]) + n == old(Sum(freeBytes[..]))
    {
      hide FreeListsOk, Linked, Without, FlFromBlocks;
      ListedKeys(hdrs, freelist[..], freeBytes[..], lists, listed, x, xi);
      var total := hdrs[b].sz;
      RemoveFromFlAt(b, index, listed, x, xi, j);
      FreeListsFrame(hdrs, hdrs, freelist[..], freeBytes[..], lists, listed - {b}, x, xi);
      if total == n {
        assert listed - {b} + {} == listed - {b};
        return;
      }
      var rest := b + n;
      ghost var h := hdrs;
      hdrs := hdrs[rest := Hdr(0, 0, total - n, false, false)];
      FreeListsFrame(h, hdrs, freelist[..], freeBytes[..], lists, listed - {b}, 0, 0);
      AddToFl(rest, listed - {b}, 0, 0);
    }

    /** Installs the backward jumps of a run of n blocks at h. */
    method InstallCounts(h: nat, n: nat)
      modifies this`counts
      ensures counts == CountsWith(old(counts), h, n)
    {
      hide CountsWith, Blocks;
      CountsWithNone(counts, h, 1);
      CountsWithNone(counts, h, 0);
      var k := h + 1;
      while k < h + n
        invariant h + 1 <= k && (k <= h + n || (n == 0 && k == h + 1))
        invariant counts == CountsWith(old(counts), h, k - h)
      {
        CountsWithStep(old(counts), h, k - h);
        counts := counts[k := Jump(k - h)];
        k := k + 1;
      }
    }

    /** Removes the backward jumps of a run of n blocks at h, which has all of them or none. */
    method RemoveCounts(h: nat, n: nat)
      requires (forall k :: h < k < h + n ==> k in counts) || (forall k :: h < k < h + n ==> k !in counts)
      requires forall k :: h < k < h + n ==> k !in hdrs
      modifies this`counts
      ensures counts == CountsWithout(old(counts), h, n)
    {
      if n <= 1 || (h + 1 !in hdrs && h + 1 !in counts) {
        return;
      }
      var k := h + 1;
      while k < h + n
        invariant h + 1 <= k <= h + n
        invariant counts == CountsWithout(old(counts), h, k - h)
      {
        counts := counts - {k};
        k := k + 1;
      }
    }

    ghost predicate Counted()
      reads this, freelist, freeBytes, bl
    {
      Arrays() && bl.Valid() && Space(0) && largeFree == Sum(freeBytes[..]) && heapSize == |owner|
    }

    /** Makes t, an address in the j-th block b of a list, the start of a mapped block on that list. */
    method CutAt(b: nat, t: nat, index: nat, ghost j: nat) returns (ghost x: nat, ghost xi: nat, ghost j': nat)
      requires Valid() && b in hdrs && hdrs[b].free && index == FlFromBlocks(hdrs[b].sz) && index < |lists|
      requires j < |lists[index]| && lists[index][j] == b
      requires b <= t < b + hdrs[b].sz
      modifies this`hdrs, this`mapped, this`lists, this`owner, freelist, freeBytes
      ensures Counted() && Listing(FreeSet(hdrs), x, xi) && (x == 0 || x == t)
      ensures t in hdrs && hdrs[t].free && !hdrs[t].unmapped && hdrs[t].sz == b + old(hdrs)[b].sz - t
      ensures |lists| == old(|lists|) && j' < |lists[index]| && lists[index][j'] == t && index == Place(hdrs, t, x, xi)
      ensures Consumed(old(hdrs), old(owner), hdrs, owner, {})
      ensures old(Coalesced(hdrs, 0, 0)) ==> Coalesced(hdrs, 0, x)
    {
      hide FreeListsOk, SpaceOk, Consumed, Coalesced, FlFromBlocks, Reown, Tiling;
      SpaceTiling(hdrs, owner, counts, mapped, 0);
      Positive(hdrs, owner, b);
      SameConsumes(hdrs, hdrs, owner);
      if hdrs[b].unmapped {
        Remap(b);
        SpaceTiling(hdrs, owner, counts, mapped, 0);
      }
      x, xi, j' := 0, 0, j;
      if t != b {
        ghost var h, owner0 := hdrs, owner;
        NoStartInside(h, owner0, b, t);
        j' := SplitBlock(b, t, index, FreeSet(h), j);
        x, xi := t, index;
        owner := Reown(owner, t, b + h[b].sz, t);
        SplitChanges(h, hdrs, owner0, counts, mapped, b, t);
        ConsumedAgain(old(hdrs), old(owner), h, owner0, hdrs, owner);
      }
    }

    /** Allocates the first n blocks of the mapped block b at place j of a list. */
    method TakeFront(b: nat, n: nat, index: nat, ghost x: nat, ghost xi: nat, ghost j: nat)
      requires Counted() && Listing(FreeSet(hdrs), x, xi) && (x == 0 || x == b)
      requires b in hdrs && hdrs[b].free && !hdrs[b].unmapped && 0 < n <= hdrs[b].sz && index == Place(hdrs, b, x, xi)
      requires index < |lists| && j < |lists[index]| && lists[index][j] == b
      modifies this`hdrs, this`counts, this`lists, this`owner, this`largeFree, freelist, freeBytes
      ensures Valid() && largeFree + n == old(largeFree)
      ensures UsedRun(hdrs, b) && hdrs[b].sz == n
      ensures Consumed(old(hdrs), old(owner), hdrs, owner, Blocks(b, n))
      ensures old(Coalesced(hdrs, 0, x)) ==> Coalesced(hdrs, 0, 0)
    {
      hide FreeListsOk, SpaceOk, Consumed, Coalesced, CarvedOwner, Blocks, FreeSet, Carved, CountsWith, SameRun;
      ghost var h, owner0, counts0 := hdrs, owner, counts;
      InFreeSet(h, b);
      RestIsNew(h, owner0, counts, mapped, b, n);
      GetFirstPart(b, n, index, FreeSet(h), x, xi, j);
      InstallCounts(b, n);
      ghost var h1 := hdrs;
      hdrs := hdrs[b := hdrs[b].(sz := n, free := false)];
      largeFree := largeFree - n;
      owner := CarvedOwner(h, owner0, b, n);
      CarvedIntro(h, h1, hdrs, b, n);
      CarveChanges(h, hdrs, owner0, counts0, mapped, b, n, x);
      ChangeUnlisted(h1, hdrs, freelist[..], freeBytes[..], lists, FreeSet(hdrs), b);
    }

    /** Allocates n blocks at t out of the j-th block b of a list. */
    method Carve(b: nat, t: nat, n: nat, index: nat, ghost j: nat)
      requires Valid() && b in hdrs && hdrs[b].free && index == FlFromBlocks(hdrs[b].sz) && index < |lists|
      requires j < |lists[index]| && lists[index][j] == b
      requires b <= t && 0 < n && t + n <= b + hdrs[b].sz
      modifies this`hdrs, this`counts, this`mapped, this`lists, this`owner, this`largeFree, freelist, freeBytes
      ensures Valid() && largeFree + n == old(largeFree)
      ensures UsedRun(hdrs, t) && hdrs[t].sz == n
      ensures Consumed(old(hdrs), old(owner), hdrs, owner, Blocks(t, n))
      ensures old(Coalesced(hdrs, 0, 0)) ==> Coalesced(hdrs, 0, 0)
    {
      hide FreeListsOk, SpaceOk, Consumed, Coalesced, FlFromBlocks, Blocks, FreeSet;
      ghost var x, xi, j' := CutAt(b, t, index, j);
      ghost var h, owner0 := hdrs, owner;
      TakeFront(t, n, index, x, xi, j');
      ConsumedThen(old(hdrs), old(owner), h, owner0, {}, hdrs, owner, Blocks(t, n));
      assert {} + Blocks(t, n) == Blocks(t, n);
    }

    // ------------------------------------------------------------ freeing

    /** The nearest header at or below h, or 0. */
    method PrevBlock(h: nat) returns (p: nat)
      ensures p != 0 ==> p <= h && p in hdrs
      ensures forall c :: p < c <= h ==> c !in hdrs
    {
      p := h;
      while p != 0 && p !in hdrs
        invariant p <= h && forall c :: p < c <= h ==> c !in hdrs
      {
        p := p - 1;
      }
    }

    /** The first block of the run that ends just before h, or 0 if there is none. */
    method GetBlockEndingAt(h: nat) returns (p: nat)
      requires Space(0) && h > 0 && h in hdrs
      ensures p != 0 <==> h - 1 in owner
      ensures p != 0 ==> p < h && p in hdrs && p + hdrs[p].sz == h && p == owner[h - 1]
    {
      hide Tiling, CountOk;
      SpaceTiling(hdrs, owner, counts, mapped, 0);
      p := h - 1;
      if h - 1 in owner {
        RunBefore(hdrs, owner, h);
      }
      while p in counts
        invariant p <= h - 1
        invariant h - 1 in owner ==> p in owner && owner[p] == owner[h - 1]
        invariant h - 1 !in owner ==> p == h - 1
        decreases p
      {
        JumpBack(hdrs, owner, counts, p);
        p := p - counts[p];
      }
      if h - 1 in owner {
        Belonging(hdrs, owner, p);
        if p in hdrs { Belongs(hdrs, owner, p, p); }
      } else if p in hdrs {
        Belongs(hdrs, owner, p, p);
      }
      if p in hdrs {
        return p;
      }
      p := PrevBlock(h - 1);
      if h - 1 in owner && owner[h - 1] < p {
        NoStartInside(hdrs, owner, owner[h - 1], p);
      }
      if p != 0 {
        Belongs(hdrs, owner, p, p);
        if p + hdrs[p].sz == h {
          Belongs(hdrs, owner, p, h - 1);
          return p;
        }
      }
      p := 0;
    }

    /** The free run that ends just before h, or 0. */
    method FreeBlockEndingAt(h: nat) returns (p: nat)
      requires Space(0) && h > 0 && h in hdrs
      ensures p != 0 ==> p < h && p in hdrs && hdrs[p].free && p + hdrs[p].sz == h
      ensures p == 0 ==> forall c: nat :: FreePair(hdrs, c) ==> c + hdrs[c].sz != h
    {
      hide SpaceOk;
      p := GetBlockEndingAt(h);
      SpaceTiling(hdrs, owner, counts, mapped, 0);
      OneRunBefore(hdrs, owner, h);
      if p != 0 && hdrs[p].free {
        return p;
      }
      p := 0;
    }

    /** All blocks but the free mapped b are where they belong; b is on no list. */
    ghost predicate Loose(b: nat)
      reads this, freelist, freeBytes, bl
    {
      && Arrays() && bl.Valid() && Space(0)
      && b in hdrs && b != 0 && hdrs[b].free && !hdrs[b].unmapped
      && Listing(FreeSet(hdrs) - {b}, 0, 0)
    }

    /** Run b takes over the run n behind it; neither is on a list. */
    method Absorb(b: nat, n: nat)
      requires Arrays() && Space(0) && b in hdrs && n in hdrs && n == b + hdrs[b].sz && b != n
      requires hdrs[b].free && hdrs[n].free && hdrs[b].unmapped == hdrs[n].unmapped
      requires Listing(FreeSet(hdrs) - {b} - {n}, 0, 0)
      modifies this`hdrs, this`owner
      ensures Space(0) && Listing(FreeSet(hdrs) - {b}, 0, 0)
      ensures Tiling(old(hdrs), old(owner)) && MergeRun(old(hdrs), hdrs, b, n) &&
        hdrs[b].unmapped == old(hdrs)[b].unmapped
      ensures Consumed(old(hdrs), old(owner), hdrs, owner, {}) && |owner| == old(|owner|)
    {
      hide FreeListsOk, SpaceOk, Consumed, FreeSet;
      ghost var h, owner0 := hdrs, owner;
      hdrs := hdrs[b := hdrs[b].(sz := hdrs[b].sz + hdrs[n].sz)];
      hdrs := hdrs - {n};
      owner := Reown(owner, b, n + h[n].sz, b);
      MergeChanges(h, hdrs, owner0, counts, mapped, mapped, b, n);
      ListedKeys(h, freelist[..], freeBytes[..], lists, FreeSet(h) - {b} - {n}, 0, 0);
      FreeListsFrame(h, hdrs, freelist[..], freeBytes[..], lists, FreeSet(h) - {b} - {n}, 0, 0);
      assert FreeSet(hdrs) - {b} == FreeSet(h) - {b} - {n};
    }

    /** Merges the adjacent runs b and n, of which one is loose and the other is still on its list. */
    method TakeOver(b: nat, n: nat, onList: nat, ghost loose: nat)
      requires Loose(loose) && ((onList == n && loose == b) || (onList == b && loose == n))
      requires b in hdrs && n in hdrs && n == b + hdrs[b].sz && b != n && b != 0
      requires hdrs[onList].free && !hdrs[onList].unmapped
      modifies this`hdrs, this`owner, this`lists, freelist, freeBytes
      ensures Loose(b) && MergeRun(old(hdrs), hdrs, b, n)
      ensures Sum(freeBytes[..]) + hdrs[b].sz == old(Sum(freeBytes[..])) + old(hdrs)[loose].sz
      ensures Consumed(old(hdrs), old(owner), hdrs, owner, {}) && |owner| == old(|owner|)
    {
      hide FreeListsOk, SpaceOk, Consumed, FreeSet, Tiling, MergeRun;
      ghost var h, owner0 := hdrs, owner;
      InFreeSet(h, onList);
      RemoveFromFl(onList, FreeSet(h) - {loose});
      ghost var h1 := hdrs;
      SpaceSame(h, h1, owner, counts, mapped, 0);
      assert FreeSet(h1) - {loose} - {onList} == FreeSet(h1) - {b} - {n};
      Absorb(b, n);
      SameThenMerge(h, h1, hdrs, owner0, owner, b, n);
      MergedSize(h, hdrs, b, n);
    }

    /** Coalesces the loose run b with its successor, if possible. */
    method CoalesceNext(b: nat)
      requires Loose(b)
      modifies this`hdrs, this`owner, this`lists, freelist, freeBytes
      ensures Loose(b)
      ensures Sum(freeBytes[..]) + hdrs[b].sz == old(Sum(freeBytes[..])) + old(hdrs)[b].sz
      ensures Consumed(old(hdrs), old(owner), hdrs, owner, {}) && |owner| == old(|owner|)
      ensures SameBelow(old(hdrs), hdrs, b)
      ensures old(AllMapped(hdrs)) ==> AllMapped(hdrs)
      ensures old(Coalesced(hdrs, b, b)) && old(AllMapped(hdrs)) && |owner| < SIGN_BLOCKS ==> Coalesced(hdrs, 0, b)
    {
      hide FreeListsOk, SpaceOk, Consumed, Coalesced, FreeSet, Tiling, AllMapped, SameBelow;
      ghost var h, owner0 := hdrs, owner;
      SpaceTiling(h, owner, counts, mapped, 0);
      SameConsumes(h, h, owner);
      BothMapped(h);
      var n := b + hdrs[b].sz;
      if n in hdrs && hdrs[n].free && !hdrs[n].unmapped && hdrs[b].sz + hdrs[n].sz < SIGN_BLOCKS {
        Positive(h, owner, b);
        TakeOver(b, n, n, b);
        MergeSame(h, hdrs, b, n);
        if Coalesced(h, b, b) { MergeCoalesced(h, hdrs, owner0, b, n, b, b); }
      } else {
        if n in hdrs { PairFits(h, owner, b, n); }
        if Coalesced(h, b, b) && AllMapped(h) && |owner| < SIGN_BLOCKS { NoPairAt(h, b); }
      }
    }

    /** Coalesces the loose run b with the free run prev in front of it, if possible. */
    method CoalescePrev(b: nat, prev: nat) returns (r: nat)
      requires Loose(b)
      requires prev != 0 ==> prev in hdrs && hdrs[prev].free && prev + hdrs[prev].sz == b
      requires prev == 0 ==> forall c: nat :: FreePair(hdrs, c) ==> c + hdrs[c].sz != b
      modifies this`hdrs, this`owner, this`lists, freelist, freeBytes
      ensures Loose(r)
      ensures Sum(freeBytes[..]) + hdrs[r].sz == old(Sum(freeBytes[..])) + old(hdrs)[b].sz
      ensures Consumed(old(hdrs), old(owner), hdrs, owner, {}) && |owner| == old(|owner|)
      ensures old(AllMapped(hdrs)) ==> AllMapped(hdrs)
      ensures old(Coalesced(hdrs, 0, b)) && old(AllMapped(hdrs)) && |owner| < SIGN_BLOCKS ==> Coalesced(hdrs, 0, 0)
    {
      hide FreeListsOk, SpaceOk, Consumed, Coalesced, FreeSet, Tiling, AllMapped, SameBelow;
      ghost var h, owner0 := hdrs, owner;
      SpaceTiling(h, owner, counts, mapped, 0);
      SameConsumes(h, h, owner);
      BothMapped(h);
      r := b;
      if prev != 0 && !hdrs[prev].unmapped && hdrs[b].sz + hdrs[prev].sz < SIGN_BLOCKS {
        Positive(h, owner, prev);
        TakeOver(prev, b, prev, b);
        MergeSame(h, hdrs, prev, b);
        if Coalesced(h, 0, b) { MergeCoalesced(h, hdrs, owner0, prev, b, 0, b); }
        r := prev;
      } else {
        if prev != 0 { PairFits(h, owner, prev, b); }
        if prev == 0 && Coalesced(h, 0, b) { NoPairTo(h, b); }
      }
    }

    /** Marks a used run as free; it is not on a list yet. */
    method Release(b: nat, size: nat, ghost bare: nat)
      requires Base(bare) && (bare == 0 || bare == b) && UsedRun(hdrs, b) && size == hdrs[b].sz
      modifies this`hdrs, this`counts
      ensures Loose(b) && hdrs == old(hdrs)[b := old(hdrs)[b].(free := true)]
      ensures Freed(old(hdrs), owner, hdrs, owner, Blocks(b, size))
      ensures old(Coalesced(hdrs, 0, 0)) ==> Coalesced(hdrs, b, b)
      ensures old(AllMapped(hdrs)) ==> AllMapped(hdrs)
    {
      hide FreeListsOk, Coalesced, SpaceOk, Freed, FreeSet, Blocks, AllMapped, CountsWithout;
      ghost var h, counts0 := hdrs, counts;
      RunCounts(h, owner, counts, mapped, bare, b);
      RemoveCounts(b, size);
      hdrs := hdrs[b := hdrs[b].(free := true)];
      ReleaseChanges(h, hdrs, owner, counts0, mapped, bare, b);
      InFreeSet(h, b);
      assert FreeSet(hdrs) - {b} == FreeSet(h);
      ChangeUnlisted(h, hdrs, freelist[..], freeBytes[..], lists, FreeSet(h), b);
    }

    /** Coalesces the loose run b with its free neighbours. */
    method Coalesce(b: nat) returns (r: nat)
      requires Loose(b)
      modifies this`hdrs, this`owner, this`lists, freelist, freeBytes
      ensures Loose(r)
      ensures Sum(freeBytes[..]) + hdrs[r].sz == old(Sum(freeBytes[..])) + old(hdrs)[b].sz
      ensures Consumed(old(hdrs), old(owner), hdrs, owner, {}) && |owner| == old(|owner|)
      ensures old(AllMapped(hdrs)) ==> AllMapped(hdrs)
      ensures old(Coalesced(hdrs, b, b)) && old(AllMapped(hdrs)) && |owner| < SIGN_BLOCKS ==> Coalesced(hdrs, 0, 0)
    {
      hide FreeListsOk, SpaceOk, Coalesced, Consumed, AllMapped, SameBelow, FreeSet;
      var prev := FreeBlockEndingAt(b);
      CoalesceNext(b);
      ghost var h, owner1 := hdrs, owner;
      PrevStays(old(hdrs), old(owner), h, owner1, counts, mapped, b, prev);
      r := CoalescePrev(b, prev);
      ConsumedAgain(old(hdrs), old(owner), h, owner1, hdrs, owner);
    }

    /** Frees a used run, coalescing it with its free neighbours. */
    method Freehblk(b: nat, ghost bare: nat) returns (aborted: bool)
      requires b in hdrs && Base(bare) && (bare == 0 || (bare == b && !hdrs[b].free))
      modifies this`hdrs, this`counts, this`lists, this`owner, this`largeFree, freelist, freeBytes
      ensures aborted <==> old(hdrs)[b].free || old(hdrs)[b].sz >= SIGN_BLOCKS
      ensures !aborted ==> Base(0) && |owner| == old(|owner|) && largeFree == old(largeFree) + old(hdrs)[b].sz
      ensures !aborted ==> Freed(old(hdrs), old(owner), hdrs, owner, Blocks(b, old(hdrs)[b].sz))
      ensures !aborted && old(Tidy(hdrs)) && |owner| < SIGN_BLOCKS ==> Tidy(hdrs)
    {
      hide FreeListsOk, SpaceOk, Coalesced, Consumed, AllMapped, Blocks, Freed, FreeSet;
      var size := hdrs[b].sz;
      if size >= SIGN_BLOCKS || hdrs[b].free {
        return true;
      }
      Release(b, size, bare);
      ghost var h1, owner1 := hdrs, owner;
      var r := Coalesce(b);
      ghost var h2, owner2 := hdrs, owner;
      FreedThen(old(hdrs), old(owner), h1, owner1, Blocks(b, size), h2, owner2);
      largeFree := largeFree + size;
      AddToFl(r, FreeSet(hdrs) - {r}, 0, 0);
      BackOnList(h2, hdrs, owner2, counts, mapped, r);
      FreedThen(old(hdrs), old(owner), h2, owner2, Blocks(b, size), hdrs, owner);
      InFreeSet(hdrs, r);
      assert FreeSet(hdrs) == FreeSet(h2) - {r} + {r};
      aborted := false;
    }

    // ------------------------------------------------------------ growing

    /** The blocks of a new section that can become heap: not near NULL, and not up to the end
        of memory, where addresses wrap around. */
    static method TrimSection(p: nat, n: nat) returns (b: nat, size: nat)
      requires 0 < n && p + n <= WORD_BLOCKS
      ensures forall k: nat :: Within(b, size, k) <==> Within(p, n, k) && 1 < k < WORD_BLOCKS - 1
    {
      b, size := p, n;
      while b <= 1
        invariant b + size == p + n && size > 0 && (b == p || (p < b <= 2))
      {
        b := b + 1;
        size := size - 1;
        if size == 0 {
          return;
        }
      }
      var endp := (b + size) % WORD_BLOCKS;
      while endp <= b
        invariant size > 0 && b > 1 && b + size <= p + n && (b == p || (p < b <= 2))
        invariant endp == (b + size) % WORD_BLOCKS
        invariant b + size == p + n || (p + n == WORD_BLOCKS && b + size == WORD_BLOCKS - 1)
        decreases size
      {
        size := size - 1;
        if size == 0 {
          return;
        }
        endp := (endp + WORD_BLOCKS - 1) % WORD_BLOCKS;
      }
    }

    /** Makes the n new blocks at b one used run, without jumps. */
    method InstallSection(b: nat, n: nat)
      requires Base(0) && b != 0 && 0 < n && forall k :: b <= k < b + n ==> k !in owner
      modifies this`hdrs, this`mapped, this`owner
      ensures Base(b) && b in hdrs && hdrs[b] == Hdr(0, 0, n, false, false)
      ensures Extended(old(hdrs), old(owner), hdrs, owner, b, n) && |owner| == old(|owner|) + n
      ensures old(Tidy(hdrs)) ==> Tidy(hdrs)
    {
      hide FreeListsOk, SpaceOk, Coalesced, AllMapped, Blocks, Owned, FreeSet;
      ghost var h := hdrs;
      ExtendChanges(h, owner, counts, mapped, b, n);
      ListedKeys(h, freelist[..], freeBytes[..], lists, FreeSet(h), 0, 0);
      hdrs := hdrs[b := Hdr(0, 0, n, false, false)];
      mapped := mapped + Blocks(b, n);
      owner := Owned(owner, b, n);
      FreeListsFrame(h, hdrs, freelist[..], freeBytes[..], lists, FreeSet(h), 0, 0);
    }

    /** Adds the n new blocks at b to the heap. */
    method AddSection(b: nat, n: nat) returns (aborted: bool)
      requires Valid() && b != 0 && 0 < n && forall k :: b <= k < b + n ==> k !in owner
      modifies this`hdrs, this`counts, this`mapped, this`lists, this`owner, this`largeFree, this`heapSize, freelist,
               freeBytes
      ensures aborted <==> n >= SIGN_BLOCKS
      ensures !aborted ==> Valid() && Grown(old(hdrs), old(owner), hdrs, owner, Blocks(b, n))
      ensures !aborted ==> heapSize == old(heapSize) + n && largeFree == old(largeFree) + n
      ensures !aborted && old(Tidy(hdrs)) && heapSize < SIGN_BLOCKS ==> Tidy(hdrs)
    {
      hide Base, Coalesced, AllMapped, Blocks, Freed, Grown, FreeCells, Extended;
      InstallSection(b, n);
      ghost var h1, owner1 := hdrs, owner;
      aborted := Freehblk(b, b);
      heapSize := heapSize + n;
      if !aborted {
        GrownIntro(old(hdrs), old(owner), h1, owner1, hdrs, owner, b, n);
      }
    }

    /** Adds the usable part of n new blocks at p to the heap. */
    method AddToHeap(p: nat, n: nat) returns (aborted: bool, ghost b: nat, ghost added: nat)
      requires Valid() && 0 < n && p + n <= WORD_BLOCKS
      requires forall k: nat :: Within(p, n, k) ==> k !in owner
      modifies this`hdrs, this`counts, this`mapped, this`lists, this`owner, this`largeFree, this`heapSize, freelist,
               freeBytes
      ensures forall k: nat :: Within(b, added, k) <==> Within(p, n, k) && 1 < k < WORD_BLOCKS - 1
      ensures aborted <==> added >= SIGN_BLOCKS
      ensures !aborted ==> Valid() && Grown(old(hdrs), old(owner), hdrs, owner, Blocks(b, added))
      ensures !aborted ==> heapSize == old(heapSize) + added && largeFree == old(largeFree) + added
      ensures !aborted && old(Tidy(hdrs)) && heapSize < SIGN_BLOCKS ==> Tidy(hdrs)
    {
      hide Base, Blocks, Grown, Tidy;
      var start, size := TrimSection(p, n);
      b, added := start, size;
      if size == 0 {
        GrownNothing(hdrs, owner, b);
        return false, b, added;
      }
      assert Within(b, size, b);
      forall k | b <= k < b + size ensures k !in owner { assert Within(b, size, k); }
      aborted := AddSection(start, size);
    }

    // ------------------------------------------------------------ searching

    /** The first start in run b, or the first address behind all starts, that is not black-listed. */
    method FindStart(b: nat, size: nat, rq: Request) returns (last: nat)
      requires bl.Valid() && 1 <= rq.eff <= rq.needed <= size
      ensures b <= last <= b + size
      ensures forall s: nat :: b <= s < last ==> bl.View().Listed(s, rq.eff)
      ensures last + rq.needed <= b + size ==> !bl.View().Listed(last, rq.eff)
    {
      last := b;
      while last <= b + size - rq.needed
        invariant b <= last <= b + size
        invariant forall s: nat :: b <= s < last ==> bl.View().Listed(s, rq.eff)
        decreases b + size - last
      {
        var r := bl.IsBlackListed(last, rq.eff);
        bl.ViewListed(last, rq.eff);
        if r == 0 {
          return;
        }
        forall s: nat | last <= s < r ensures bl.View().Listed(s, rq.eff) { bl.ViewListed(s, rq.eff); }
        last := r;
      }
    }

    /** Whether and where to take the request out of the free block b. */
    method Consider(b: nat, rq: Request, split: Split) returns (v: Verdict)
      requires bl.Valid() && 1 <= rq.eff <= rq.needed
      requires b in hdrs && (hdrs[b].next != 0 ==> hdrs[b].next in hdrs)
      ensures Judged(Search(bl.View(), rq, split, blLimit), hdrs, b, v)
      ensures v.Take? ==> forall s: nat :: b <= s < v.start ==> bl.View().Listed(s, rq.eff)
      ensures v.Take? && split == AvoidRemapped && hdrs[b].unmapped ==> v.start == b
      ensures v.Take? && hdrs[b].next != 0 && rq.needed <= hdrs[hdrs[b].next].sz < hdrs[b].sz ==>
        hdrs[b].sz == rq.needed || bl.View().Listed(hdrs[b].next, rq.needed)
      ensures v.Skip? && Search(bl.View(), rq, split, blLimit).Acceptable(b, hdrs[b]) ==>
        hdrs[b].next in hdrs && rq.needed <= hdrs[hdrs[b].next].sz < hdrs[b].sz
      ensures
        (&& v.Skip? && rq.needed == 1 && rq.checked && !hdrs[b].unmapped && (split != Never || hdrs[b].sz == 1)
         && hdrs[b].sz >= 1 && forall s: nat :: b <= s < b + hdrs[b].sz ==> bl.View().Listed(s, 1)) ==>
        hdrs[b].next != 0 && 1 <= hdrs[hdrs[b].next].sz < hdrs[b].sz && !bl.View().Listed(hdrs[b].next, 1)
    {
      hide Sets.Listed;
      ghost var q := Search(bl.View(), rq, split, blLimit);
      var size := hdrs[b].sz;
      if size < rq.needed {
        return Skip;
      }
      if size != rq.needed {
        if split == Never {
          return Skip;
        }
        var next := hdrs[b].next;
        if next != 0 && rq.needed <= hdrs[next].sz < size {
          var r := bl.IsBlackListed(next, rq.needed);
          bl.ViewListed(next, rq.needed);
          if r == 0 {
            ListedMore(bl.View(), next, rq.eff, rq.needed);
            return Skip;
          }
        }
      }
      if !rq.checked {
        return Take(b);
      }
      var last := FindStart(b, size, rq);
      if last + rq.needed <= b + size {
        assert q.HasStart(b, size);
        if last != b && split == AvoidRemapped && hdrs[b].unmapped {
          return Skip;
        }
        return Take(last);
      }
      assert bl.View() == q.view;
      q.NoStart(b, size, last);
      if Punts(rq, size, blLimit) {
        return Take(b);
      }
      if last == b + size && rq.needed == 1 && !hdrs[b].unmapped {
        return Full;
      }
      return Skip;
    }

    /** Gives each of the n blocks at b a header of its own. */
    method Shatter(b: nat, n: nat)
      modifies this`hdrs
      ensures hdrs == Shattered(old(hdrs), b, n)
    {
      hide Shattered;
      ShatteredNone(hdrs, b);
      var limit := b + n;
      var h := b;
      while h < limit
        invariant b <= h <= limit && hdrs == Shattered(old(hdrs), b, h - b)
      {
        ShatteredStep(old(hdrs), b, h - b);
        hdrs := hdrs[h := Hdr(0, 0, 1, false, false)];
        h := h + 1;
      }
    }

    /** Takes the mapped free block b out of circulation: all of it becomes used one-block runs. */
    method DropBlock(b: nat, index: nat, ghost j: nat)
      requires Valid() && b in hdrs && b != 0 && hdrs[b].free && !hdrs[b].unmapped && index == FlFromBlocks(hdrs[b].sz)
      requires index < |lists| && j < |lists[index]| && lists[index][j] == b && largeFree >= hdrs[b].sz
      modifies this`hdrs, this`lists, this`owner, this`largeFree, this`bytesDropped, freelist, freeBytes
      ensures Valid() && bytesDropped == old(bytesDropped) + old(hdrs)[b].sz > old(bytesDropped)
      ensures Consumed(old(hdrs), old(owner), hdrs, owner, Blocks(b, old(hdrs)[b].sz))
      ensures old(Coalesced(hdrs, 0, 0)) ==> Coalesced(hdrs, 0, 0)
      ensures lists == old(lists)[index := Without(old(lists)[index], j)]
      ensures FreeSet(hdrs) == old(FreeSet(hdrs)) - {b} && SameFree(old(hdrs), hdrs)
      ensures NoMore(old(freeBytes[..]), freeBytes[..])
    {
      hide FreeListsOk, SpaceOk, Consumed, Coalesced, FreeSet, Blocks, Without, Shattered, SameFree, SameRuns, Solo;
      ghost var h, owner0 := hdrs, owner;
      InFreeSet(h, b);
      SpaceTiling(h, owner, counts, mapped, 0);
      Positive(h, owner, b);
      hide Tiling;
      var total := hdrs[b].sz;
      largeFree := largeFree - total;
      bytesDropped := bytesDropped + total;
      RemoveFromFlAt(b, index, FreeSet(h), 0, 0, j);
      ghost var h1 := hdrs;
      Shatter(b, total);
      owner := Solo(owner, b, total);
      DropChanges(h, h1, owner0, counts, mapped, b);
      ListedKeys(h1, freelist[..], freeBytes[..], lists, FreeSet(h) - {b}, 0, 0);
      FreeListsFrame(h1, hdrs, freelist[..], freeBytes[..], lists, FreeSet(h) - {b}, 0, 0);
    }

    ghost function Now(): Snap
      reads this`hdrs, this`lists, this`owner
    {
      Snap(hdrs, lists, owner)
    }

    /** What is known of the j-th block of a list. */
    lemma PlaceFacts(n: nat, j: nat)
      requires Valid() && n < |lists| && j < |lists[n]|
      ensures var b := lists[n][j];
        && b != 0 && b in hdrs && hdrs[b].free && n == FlFromBlocks(hdrs[b].sz)
        && hdrs[b].prev == Before(lists[n], j) && hdrs[b].next == After(lists[n], j)
        && (hdrs[b].next != 0 ==> hdrs[b].next in hdrs)
        && largeFree >= hdrs[b].sz
    {
      var b := lists[n][j];
      ListNeighbours(hdrs, freelist[..], freeBytes[..], lists, FreeSet(hdrs), 0, 0, b, n, j);
      Separate(hdrs, lists, FreeSet(hdrs), 0, 0, n, n);
      assert b in lists[n];
      assert n == Place(hdrs, b, 0, 0);
      SumElement(freeBytes[..], n);
    }

    lemma HeadFacts(n: nat)
      requires Valid() && n <= N_HBLK_FLS
      ensures freelist.Length == |lists| == N_HBLK_FLS + 1
      ensures freelist[n] == if lists[n] == [] then 0 else lists[n][0]
      ensures AllFree(Now()) && NoDup(lists[n])
    {
      HeadInList(hdrs, freelist[..], freeBytes[..], lists, FreeSet(hdrs), 0, 0, n);
      ListsAreFree(hdrs, freelist[..], freeBytes[..], lists, owner);
    }

    lemma ListCount()
      requires Valid()
      ensures |lists| == N_HBLK_FLS + 1
    {
    }

    /** A search that began in state s has come to block hbp, at place j of list n. */
    ghost predicate At(q: Search, s: Snap, n: nat, j: nat, hbp: nat, dropped: set<nat>)
      reads this`hdrs, this`owner, this`counts, this`mapped, this`lists, this`largeFree, this`heapSize, this`blLimit
      reads freelist, freeBytes, bl, bl.oldNormal, bl.incompleteNormal, bl.oldStack, bl.incompleteStack
      ensures At(q, s, n, j, hbp, dropped) ==> Valid() && bl.View() == q.view && n < |lists| && j <= |lists[n]|
    {
      && Valid() && bl.View() == q.view && blLimit == q.limit
      && n < |lists| && j <= |lists[n]| && hbp == (if j < |lists[n]| then lists[n][j] else 0)
      && Passed(q, s, Now(), dropped) && Seen(q, s, Now(), n, j) && q.MayDrop(dropped)
    }

    lemma BlockAt(q: Search, s: Snap, n: nat, j: nat, hbp: nat, dropped: set<nat>)
      requires At(q, s, n, j, hbp, dropped)
      ensures hbp == 0 <==> j == |lists[n]|
      ensures hbp != 0 ==> hbp == lists[n][j] && hbp in hdrs && hdrs[hbp].free && n == FlFromBlocks(hdrs[hbp].sz)
      ensures hbp != 0 && hdrs[hbp].next != 0 ==> hdrs[hbp].next in hdrs
      ensures q.MayDrop(dropped)
      ensures hbp == 0 ==> Passed(q, s, Now(), dropped) && NoneOn(q, s, n)
    {
      hide Base, Passed, Search.MayDrop, AcceptedIn;
      if j < |lists[n]| {
        PlaceFacts(n, j);
      } else {
        SeenAll(q, s, Now(), n, j, dropped);
      }
    }

    lemma Advance(q: Search, s: Snap, n: nat, j: nat, hbp: nat, dropped: set<nat>, v: Verdict)
      requires At(q, s, n, j, hbp, dropped) && hbp != 0 && Judged(q, hdrs, hbp, v) && !v.Take? && hbp in hdrs
      ensures j < |lists[n]| && At(q, s, n, j + 1, hdrs[hbp].next, dropped)
    {
      hide Base, Passed, Seen, AllFree, Search.MayDrop, Search.Acceptable, Search.Refused, Search.Hopeless;
      PlaceFacts(n, j);
      HeadFacts(n);
      SeenSkip(q, s, Now(), n, j, dropped);
    }

    lemma StartAt(q: Search, n: nat)
      requires Valid() && n < |lists| && q.view == bl.View() && blLimit == q.limit && n <= N_HBLK_FLS
      ensures n < freelist.Length && At(q, Now(), n, 0, freelist[n], {})
    {
      hide Base, Passed, Seen, Search.MayDrop, AllFree;
      HeadFacts(n);
      PassedStart(q, Now(), n);
    }

    method TakeAt(hbp: nat, start: nat, rq: Request, n: nat, ghost q: Search, ghost s: Snap, ghost j: nat,
                  ghost dropped: set<nat>)
      requires At(q, s, n, j, hbp, dropped) && hbp != 0 && 0 < rq.needed && q.rq == rq && hbp in hdrs
      requires Judged(q, hdrs, hbp, Take(start))
      modifies this`hdrs, this`counts, this`mapped, this`lists, this`owner, this`largeFree, freelist, freeBytes
      ensures Valid() && (old(Coalesced(hdrs, 0, 0)) ==> Coalesced(hdrs, 0, 0))
      ensures start != 0 && Found(q, s, Now(), n, dropped, start, hbp)
    {
      hide Base, Passed, Seen, Search.Acceptable, Search.MayDrop, Search.HasStart, Consumed, Coalesced, Blocks,
           Sets.Listed;
      ghost var t := Now();
      BlockAt(q, s, n, j, hbp, dropped);
      Carve(hbp, start, rq.needed, n, j);
      FoundIntro(q, s, t, Now(), n, j, dropped, start);
    }

    /** Drops the block hbp at place j of list n in the course of a search that began in state s. */
    method DropAt(hbp: nat, n: nat, ghost q: Search, ghost s: Snap, ghost j: nat, ghost dropped: set<nat>)
      returns (prev: nat, ghost dropped': set<nat>)
      requires At(q, s, n, j, hbp, dropped) && hbp != 0 && Judged(q, hdrs, hbp, Full)
      modifies this`hdrs, this`lists, this`owner, this`largeFree, this`bytesDropped, freelist, freeBytes
      ensures Valid() && (old(Coalesced(hdrs, 0, 0)) ==> Coalesced(hdrs, 0, 0)) && bl.View() == q.view
      ensures n < |lists| == old(|lists|) && |lists[n]| == old(|lists[n]|) - 1
      ensures bytesDropped - old(bytesDropped) == |dropped'| - |dropped| && dropped <= dropped' != dropped
      ensures prev == 0 ==> Passed(q, s, Now(), dropped') && Seen(q, s, Now(), n, 0) && q.MayDrop(dropped')
      ensures prev != 0 ==> prev in hdrs && At(q, s, n, j, hdrs[prev].next, dropped')
      ensures NoMore(old(freeBytes[..]), freeBytes[..])
    {
      hide Base, Coalesced, Passed, Seen, AllFree, FlFromBlocks, Consumed, NoDup, SameFree,
           Search.MayDrop, Search.Acceptable, Search.Refused, Search.Hopeless, Without, Blocks, FreeSet, Lists.View;
      ghost var t := Now();
      BlockAt(q, s, n, j, hbp, dropped);
      PlaceFacts(n, j);
      if j > 0 { PlaceFacts(n, j - 1); }
      ListCount();
      HeadFacts(n);
      prev := hdrs[hbp].prev;
      DropBlock(hbp, n, j);
      PassedDrop(q, s, t, Now(), n, j, dropped);
      dropped' := dropped + Blocks(hbp, t.h[hbp].sz);
      WithoutAt(t.lists[n], j);
      if j > 0 { PlaceFacts(n, j - 1); }
    }

    /** Goes past the fully black-listed block hbp, which is dropped every fourth time. After the first
        block of the list has been dropped, the search starts again. */
    method PassFull(hbp: nat, n: nat, ghost q: Search, ghost s: Snap, ghost j: nat, ghost dropped: set<nat>)
      returns (again: bool, next: nat, ghost j': nat, ghost dropped': set<nat>)
      requires At(q, s, n, j, hbp, dropped) && hbp != 0 && Judged(q, hdrs, hbp, Full)
      modifies this`hdrs, this`lists, this`owner, this`largeFree, this`bytesDropped, this`dropCount, freelist, freeBytes
      ensures Valid() && (old(Coalesced(hdrs, 0, 0)) ==> Coalesced(hdrs, 0, 0)) && bl.View() == q.view
      ensures bytesDropped - old(bytesDropped) == |dropped'| - |dropped| && dropped <= dropped'
      ensures dropCount == old(dropCount) + if findLeak then 0 else 1
      ensures DropsCounted(old(dropCount), dropCount, findLeak, dropped, dropped')
      ensures dropped' != dropped <==> !findLeak && dropCount % 4 == 0
      ensures n < |lists| == old(|lists|) && |lists[n]| <= old(|lists[n]|) && (again ==> |lists[n]| < old(|lists[n]|))
      ensures if again then Passed(q, s, Now(), dropped') && Seen(q, s, Now(), n, 0) && q.MayDrop(dropped')
        else At(q, s, n, j', next, dropped') && |lists[n]| - j' < old(|lists[n]|) - j
      ensures NoMore(old(freeBytes[..]), freeBytes[..])
    {
      hide Base, At, Judged, Coalesced, Passed, Seen, AllFree, FlFromBlocks, Consumed, NoDup,
           Search.MayDrop, Search.Acceptable, Search.Refused, Search.HasStart, Search.Hopeless, Sets.Listed,
           Lists.View, Without, Blocks;
      again, next, j', dropped' := false, 0, j, dropped;
      BlockAt(q, s, n, j, hbp, dropped);
      if !findLeak {
        dropCount := dropCount + 1;
      }
      if !findLeak && dropCount % 4 == 0 {
        var prev;
        prev, dropped' := DropAt(hbp, n, q, s, j, dropped);
        if prev == 0 {
          again := true;
        } else {
          next := hdrs[prev].next;
        }
      } else {
        Advance(q, s, n, j, hbp, dropped, Full);
        next, j' := hdrs[hbp].next, j + 1;
      }
    }

    /** Searches the n-th list. Fully black-listed blocks are dropped now and then on the way. */
    method AllochblkNth(rq: Request, n: nat, split: Split, ghost q: Search)
      returns (r: nat, ghost dropped: set<nat>, ghost from: nat)
      requires Valid() && n <= N_HBLK_FLS && 1 <= rq.eff <= rq.needed && q == Search(bl.View(), rq, split, blLimit)
      modifies this`hdrs, this`counts, this`mapped, this`lists, this`owner, this`largeFree, this`bytesDropped,
               this`dropCount, freelist, freeBytes
      ensures Valid() && bl.View() == old(bl.View())
      ensures old(Coalesced(hdrs, 0, 0)) ==> Coalesced(hdrs, 0, 0)
      ensures bytesDropped == old(bytesDropped) + |dropped| && q.MayDrop(dropped)
      ensures DropsCounted(old(dropCount), dropCount, findLeak, {}, dropped)
      ensures r == 0 ==> NoMore(old(freeBytes[..]), freeBytes[..])
      ensures r == 0 ==> Passed(q, old(Now()), Now(), dropped) && NoneOn(q, old(Now()), n)
      ensures r != 0 ==> Found(q, old(Now()), Now(), n, dropped, r, from)
      decreases if n < |lists| then |lists[n]| else 0, 0
    {
      hide Base, At, Judged, Coalesced, Passed, Seen, NoneOn, Found, AllFree, FlFromBlocks, Consumed, NoDup,
           Search.MayDrop, Search.Acceptable, Search.Refused, Search.HasStart, Search.Hopeless, Sets.Listed,
           Lists.View, Without, Blocks, DropsCounted, NoMore;
      ghost var s := Now();
      HeadFacts(n);
      r, dropped, from := 0, {}, 0;
      DropsNone(dropCount, findLeak, {});
      StartAt(q, n);
      var hbp: nat := freelist[n];
      ghost var j: nat := 0;
      NoMoreNone(freeBytes[..]);
      while true
        invariant NoMore(old(freeBytes[..]), freeBytes[..])
        invariant At(q, s, n, j, hbp, dropped)
        invariant old(Coalesced(hdrs, 0, 0)) ==> Coalesced(hdrs, 0, 0)
        invariant bytesDropped == old(bytesDropped) + |dropped| && |lists[n]| <= old(|lists[n]|)
        invariant DropsCounted(old(dropCount), dropCount, findLeak, {}, dropped)
        decreases |lists[n]| - j
      {
        BlockAt(q, s, n, j, hbp, dropped);
        if hbp == 0 {
          return;
        }
        var v := Consider(hbp, rq, split);
        match v
        case Take(start) =>
          TakeAt(hbp, start, rq, n, q, s, j, dropped);
          r, from := start, hbp;
          return;
        case Skip =>
          Advance(q, s, n, j, hbp, dropped, v);
          hbp := hdrs[hbp].next;
          j := j + 1;
        case Full =>
          ghost var c, d, bytes := dropCount, dropped, freeBytes[..];
          var again;
          again, hbp, j, dropped := PassFull(hbp, n, q, s, j, dropped);
          DropsThen(old(dropCount), c, dropCount, findLeak, {}, d, dropped);
          NoMoreThen(old(freeBytes[..]), bytes, freeBytes[..]);
          if again {
            c, d, bytes := dropCount, dropped, freeBytes[..];
            r, dropped, from := Again(rq, n, split, q, s, dropped);
            DropsThen(old(dropCount), c, dropCount, findLeak, {}, d, dropped);
            if r == 0 { NoMoreThen(old(freeBytes[..]), bytes, freeBytes[..]); }
            return;
          }
      }
    }

    /** Searches the n-th list from its start once more, after dropping its first block. */
    method Again(rq: Request, n: nat, split: Split, ghost q: Search, ghost s: Snap, ghost d1: set<nat>)
      returns (r: nat, ghost dropped: set<nat>, ghost from: nat)
      requires Valid() && n <= N_HBLK_FLS && 1 <= rq.eff <= rq.needed && q == Search(bl.View(), rq, split, blLimit)
      requires Passed(q, s, Now(), d1) && Seen(q, s, Now(), n, 0) && q.MayDrop(d1)
      modifies this`hdrs, this`counts, this`mapped, this`lists, this`owner, this`largeFree, this`bytesDropped,
               this`dropCount, freelist, freeBytes
      ensures Valid() && bl.View() == old(bl.View())
      ensures old(Coalesced(hdrs, 0, 0)) ==> Coalesced(hdrs, 0, 0)
      ensures bytesDropped - old(bytesDropped) == |dropped| - |d1| && q.MayDrop(dropped) && d1 <= dropped
      ensures DropsCounted(old(dropCount), dropCount, findLeak, d1, dropped)
      ensures r == 0 ==> NoMore(old(freeBytes[..]), freeBytes[..])
      ensures r == 0 ==> Passed(q, s, Now(), dropped) && NoneOn(q, s, n)
      ensures r != 0 ==> Found(q, s, Now(), n, dropped, r, from)
      decreases if n < |lists| then |lists[n]| else 0, 1
    {
      hide Base, Coalesced, Passed, Seen, NoneOn, Found, AllFree, Consumed, Search.MayDrop, Lists.View;
      HeadFacts(n);
      ghost var u := Now();
      ghost var d2;
      r, d2, from := AllochblkNth(rq, n, split, q);
      dropped := d1 + d2;
      q.BothMayDrop(d1, d2);
      if r == 0 {
        PassedThen(q, s, u, Now(), n, d1, d2);
      } else {
        FoundThen(q, s, u, Now(), n, d1, d2, r, from);
      }
    }

    /** The largest n such that lists n and up hold enough to make up for the large blocks freed
        since their total was largest; 0 if there is none. */
    method EnoughLargeBytesLeft(allocd: nat, maxAllocd: nat) returns (n: nat)
      requires Arrays()
      ensures n <= N_HBLK_FLS
      ensures allocd + SumFrom(freeBytes[..], n) >= maxAllocd || n == 0
      ensures forall k :: n < k <= N_HBLK_FLS ==> allocd + SumFrom(freeBytes[..], k) < maxAllocd
    {
      ghost var s := freeBytes[..];
      var bytes := allocd;
      var i := N_HBLK_FLS as int;
      SumFromEnd(s);
      hide SumFrom;
      while i >= 0
        invariant -1 <= i <= N_HBLK_FLS && bytes == allocd + SumFrom(s, i + 1)
        invariant forall k :: i < k <= N_HBLK_FLS ==> allocd + SumFrom(s, k) < maxAllocd
      {
        SumFromNext(s, i);
        bytes := bytes + freeBytes[i];
        if bytes >= maxAllocd {
          return i;
        }
        i := i - 1;
      }
      return 0;
    }

    lemma AllOnLists()
      requires Valid()
      ensures FreeOnLists(Now()) && AllFree(Now()) && OnOwnLists(Now())
    {
      HeadFacts(0);
      forall k: nat, b | k < |lists| && b in lists[k] ensures b in hdrs && FlFromBlocks(hdrs[b].sz) == k {
        var j: nat :| j < |lists[k]| && lists[k][j] == b;
        PlaceFacts(k, j);
      }
      forall b: nat | b in hdrs && hdrs[b].free ensures b in lists[FlFromBlocks(hdrs[b].sz)] {
        assert b in FreeSet(hdrs);
        assert b in lists[Place(hdrs, b, 0, 0)];
      }
    }

    /** Searches the lists from first up to last. */
    method SearchLists(rq: Request, split: Split, first: nat, last: nat, ghost q: Search, ghost s: Snap,
                       ghost d0: set<nat>)
      returns (r: nat, ghost dropped: set<nat>, ghost from: nat)
      requires Valid() && last <= N_HBLK_FLS && 1 <= rq.eff <= rq.needed && q == Search(bl.View(), rq, split, blLimit)
      requires Passed(q, s, Now(), d0) && q.MayDrop(d0)
      modifies this`hdrs, this`counts, this`mapped, this`lists, this`owner, this`largeFree, this`bytesDropped,
               this`dropCount, freelist, freeBytes
      ensures Valid() && bl.View() == old(bl.View()) && (old(Coalesced(hdrs, 0, 0)) ==> Coalesced(hdrs, 0, 0))
      ensures bytesDropped - old(bytesDropped) == |dropped| - |d0| && q.MayDrop(dropped) && d0 <= dropped
      ensures DropsCounted(old(dropCount), dropCount, findLeak, d0, dropped)
      ensures r == 0 ==> Passed(q, s, Now(), dropped) && NoneBetween(q, s, first, last)
      ensures r != 0 ==> Got(q, s, Now(), dropped, r, from)
      ensures r != 0 ==> first <= last && ListedBetween(s, from, first, last)
    {
      hide Base, Coalesced, Passed, NoneOn, Found, Got, AllFree, Search.MayDrop, Lists.View, NoMore, ListedBetween;
      r, dropped, from := 0, d0, 0;
      DropsNone(dropCount, findLeak, d0);
      var n := first;
      while n <= last
        invariant first <= n
        invariant Valid() && bl.View() == q.view && blLimit == q.limit &&
          (old(Coalesced(hdrs, 0, 0)) ==> Coalesced(hdrs, 0, 0))
        invariant bytesDropped - old(bytesDropped) == |dropped| - |d0| && q.MayDrop(dropped) && d0 <= dropped
        invariant DropsCounted(old(dropCount), dropCount, findLeak, d0, dropped)
        invariant Passed(q, s, Now(), dropped) && NoneBetween(q, s, first, n - 1)
      {
        HeadFacts(n);
        ghost var t := Now();
        ghost var d;
        r, d, from := AllochblkNth(rq, n, split, q);
        q.BothMayDrop(dropped, d);
        if r != 0 {
          FoundThen(q, s, t, Now(), n, dropped, d, r, from);
          FoundOn(q, s, Now(), n, dropped + d, r, from);
          GotIntro(q, s, t, Now(), n, dropped, d, r, from);
          dropped := dropped + d;
          break;
        }
        PassedPassed(q, s, t, Now(), dropped, d);
        NoneBefore(q, s, t, n, dropped);
        dropped := dropped + d;
        n := n + 1;
      }
    }

    /** Searches for a request. An exact fit is tried first; larger blocks are split as far as the
        policy allows. */
    method SearchFor(rq: Request, policy: Policy)
      returns (r: nat, ghost q: Search, ghost dropped: set<nat>, ghost from: nat)
      requires Valid() && 1 <= rq.eff <= rq.needed
      modifies this`hdrs, this`counts, this`mapped, this`lists, this`owner, this`largeFree, this`bytesDropped,
               this`dropCount, freelist, freeBytes
      ensures Valid() && (old(Coalesced(hdrs, 0, 0)) ==> Coalesced(hdrs, 0, 0))
      ensures q.view == old(bl.View()) && q.rq == rq && q.limit == blLimit
      ensures policy.WholeHeap? ==> q.split == Always
      ensures bytesDropped == old(bytesDropped) + |dropped| && q.MayDrop(dropped)
      ensures DropsCounted(old(dropCount), dropCount, findLeak, {}, dropped)
      ensures r != 0 ==> Got(q, old(Now()), Now(), dropped, r, from)
      ensures r == 0 ==> Consumed(old(hdrs), old(owner), hdrs, owner, dropped)
      ensures r != 0 && policy.CollectSooner? ==> from in old(hdrs) && old(hdrs)[from].sz == rq.needed
      ensures rq.needed >= SIGN_BLOCKS ==> r == 0
      ensures r != 0 && policy.LargeBlocksLeft? && from in old(hdrs) && old(hdrs)[from].sz != rq.needed ==>
        policy.allocd + SumFrom(old(freeBytes[..]), FlFromBlocks(old(hdrs)[from].sz)) >= policy.maxAllocd
      ensures policy.WholeHeap? && rq.needed < SIGN_BLOCKS ==> (r == 0 <==> NothingFor(q, old(Now())))
      ensures r == 0 && rq.needed < SIGN_BLOCKS ==> NothingExact(q, old(Now()))
    {
      hide Base, Coalesced, Passed, NoneOn, Found, Got, AllFree, FreeOnLists, OnOwnLists, NoMore, SumFrom, NothingFor,
           NothingExact, Search.MayDrop, Lists.View, Consumed, FlFromBlocks;
      ghost var s, q0 := Now(), Search(bl.View(), rq, Never, blLimit);
      q := q0.(split := Always);
      r, dropped, from := 0, {}, 0;
      NothingDropped(q, s);
      if rq.needed >= SIGN_BLOCKS {
        return;
      }
      AllOnLists();
      var startList := FlFromBlocks(rq.needed);
      r, dropped, from := AllochblkNth(rq, startList, Never, q0);
      if r != 0 {
        ExactIsEnough(q0, q, s, Now(), startList, dropped, r, from);
        return;
      }
      r, q, dropped, from := SearchLarger(rq, policy, q0, s, dropped, old(freeBytes[..]));
    }

    /** The second part of a search, in which larger blocks are split. */
    method SearchLarger(rq: Request, policy: Policy, ghost q0: Search, ghost s: Snap, ghost d0: set<nat>,
                        ghost bytes: seq<nat>)
      returns (r: nat, ghost q: Search, ghost dropped: set<nat>, ghost from: nat)
      requires Valid() && 1 <= rq.eff <= rq.needed && q0 == Search(bl.View(), rq, Never, blLimit)
      requires Passed(q0, s, Now(), d0) && q0.MayDrop(d0) && NoneOn(q0, s, FlFromBlocks(rq.needed))
      requires FreeOnLists(s) && OnOwnLists(s) && NoMore(bytes, freeBytes[..]) && |bytes| == N_HBLK_FLS + 1
      modifies this`hdrs, this`counts, this`mapped, this`lists, this`owner, this`largeFree, this`bytesDropped,
               this`dropCount, freelist, freeBytes
      ensures Valid() && (old(Coalesced(hdrs, 0, 0)) ==> Coalesced(hdrs, 0, 0)) && q == q0.(split := q.split)
      ensures policy.WholeHeap? ==> q.split == Always
      ensures bytesDropped - old(bytesDropped) == |dropped| - |d0| && q.MayDrop(dropped) && d0 <= dropped
      ensures DropsCounted(old(dropCount), dropCount, findLeak, d0, dropped)
      ensures r != 0 ==> Got(q, s, Now(), dropped, r, from) && !NothingFor(q, s)
      ensures r == 0 ==> Consumed(s.h, s.owner, hdrs, owner, dropped) && NothingExact(q, s)
      ensures r == 0 && policy.WholeHeap? ==> NothingFor(q, s)
      ensures policy.CollectSooner? ==> r == 0
      ensures r != 0 && policy.LargeBlocksLeft? && from in s.h ==>
        policy.allocd + SumFrom(bytes, FlFromBlocks(s.h[from].sz)) >= policy.maxAllocd
    {
      hide Base, Coalesced, Passed, NoneOn, Found, Got, AllFree, FreeOnLists, OnOwnLists, ListedBetween, NoMore,
           SumFrom, NothingFor, NothingExact, NoneBetween, Search.MayDrop, Lists.View, Consumed, FlFromBlocks;
      var split, splitLimit := SplitLimit(policy);
      ghost var bytes1 := freeBytes[..];
      q := q0.(split := split);
      OtherSplit(q0, q, s, Now(), d0);
      var startList := FlFromBlocks(rq.needed);
      ghost var first := startList;
      if startList < UNIQUE_THRESHOLD {
        startList := startList + 1;
      }
      ListAbove(rq.needed);
      r, dropped, from := SearchLists(rq, split, startList, splitLimit, q, s, d0);
      if r == 0 {
        SearchedAll(q0, q, s, first, startList, splitLimit);
      } else if policy.LargeBlocksLeft? {
        WithinLimit(s, bytes, bytes1, from, startList, splitLimit, policy);
      }
      Conclusion(q, s, Now(), dropped, r, from);
    }

    /** Which larger blocks may be split, and up to which list. */
    method SplitLimit(policy: Policy) returns (split: Split, limit: nat)
      requires Arrays()
      ensures limit <= N_HBLK_FLS && split != Never
      ensures policy.WholeHeap? ==> split == Always && limit == N_HBLK_FLS
      ensures policy.CollectSooner? ==> limit == 0
      ensures policy.LargeBlocksLeft? ==>
        && (policy.allocd + SumFrom(freeBytes[..], limit) >= policy.maxAllocd || limit == 0)
        && forall k :: limit < k <= N_HBLK_FLS ==> policy.allocd + SumFrom(freeBytes[..], k) < policy.maxAllocd
      ensures policy.LargeBlocksLeft? && limit > 0 ==> split == AvoidRemapped
    {
      split, limit := Always, N_HBLK_FLS;
      if policy.CollectSooner? {
        limit := 0;
      } else if policy.LargeBlocksLeft? {
        limit := EnoughLargeBytesLeft(policy.allocd, policy.maxAllocd);
        if limit > 0 {
          split := AvoidRemapped;
        }
      }
    }

    /** Takes needed blocks of one free run, which are not black-listed: no object of them may start at a
        normal entry or, if its interior pointers count, touch a stack entry. Exempt are uncollectable
        kinds, pointer-free blocks of at most two heap blocks, and very large requests in much larger runs that
        have no better place. Fails only if the heap has no such place, or the policy forbids it. */
    method Allochblk(needed: nat, kind: nat, ignoreOffPage: bool, policy: Policy)
      returns (r: nat, ghost dropped: set<nat>, ghost from: nat)
      requires Valid() && 1 <= needed
      modifies this`hdrs, this`counts, this`mapped, this`lists, this`owner, this`largeFree, this`bytesDropped,
               this`dropCount, freelist, freeBytes
      ensures Valid() && (old(Coalesced(hdrs, 0, 0)) ==> Coalesced(hdrs, 0, 0))
      ensures r != 0 ==> UsedRun(hdrs, r) && hdrs[r].sz == needed
      ensures r != 0 ==> from in old(hdrs) && old(hdrs)[from].free
      ensures r != 0 ==> from <= r <= r + needed <= from + old(hdrs)[from].sz
      ensures r != 0 && policy.CollectSooner? ==> old(hdrs)[from].sz == needed
      ensures r != 0 && policy.LargeBlocksLeft? && old(hdrs)[from].sz != needed ==>
        policy.allocd + SumFrom(old(freeBytes[..]), FlFromBlocks(old(hdrs)[from].sz)) >= policy.maxAllocd
      ensures needed >= SIGN_BLOCKS ==> r == 0
      ensures r != 0 && kind != 2 && kind != 3 && (kind != 0 || needed > 2) ==>
        || (!old(bl.NormalListed(r))
            && forall k :: r <= k < r + (if ignoreOffPage then 1 else needed) ==> !old(bl.StackListed(k)))
        || (needed > blLimit && old(hdrs)[from].sz > blLimit + needed && r == from)
      ensures r == 0 && policy.WholeHeap? && needed < SIGN_BLOCKS ==>
        forall b: nat :: b in old(hdrs) && old(hdrs)[b].free && needed <= old(hdrs)[b].sz ==>
          && kind != 2 && kind != 3 && (kind != 0 || needed > 2)
          && (needed <= blLimit || old(hdrs)[b].sz <= blLimit + needed)
      ensures r == 0 && policy.WholeHeap? && needed < SIGN_BLOCKS ==>
        var eff: nat := if ignoreOffPage then 1 else needed;
        forall b: nat, s: nat :: b in old(hdrs) && old(hdrs)[b].free && b <= s && s + needed <= b + old(hdrs)[b].sz ==>
          old(bl.Listed(s, eff))
      ensures r == 0 && needed < SIGN_BLOCKS ==>
        var eff: nat := if ignoreOffPage then 1 else needed;
        forall b: nat :: b in old(hdrs) && old(hdrs)[b].free && old(hdrs)[b].sz == needed ==>
          && kind != 2 && kind != 3 && (kind != 0 || needed > 2)
          && old(bl.Listed(b, eff))
      ensures Consumed(old(hdrs), old(owner), hdrs, owner, if r == 0 then dropped else dropped + Blocks(r, needed))
      ensures bytesDropped == old(bytesDropped) + |dropped| && (r != 0 ==> dropped !! Blocks(r, needed))
      ensures findLeak ==> dropped == {}
      ensures dropped == {} <==> dropCount / 4 == old(dropCount) / 4
      ensures dropped != {} ==> needed == 1 && kind != 2 && kind != 3 && kind != 0
      ensures forall k :: k in dropped ==> old(bl.NormalListed(k)) || old(bl.StackListed(k))
    {
      hide Base, Coalesced, Got, NothingFor, NothingExact, Search.MayDrop, Lists.View, Consumed, Lists.NormalListed,
           Lists.StackListed, Lists.Listed, Sets.Listed;
      var eff := if ignoreOffPage then 1 else needed;
      var checked := !IsUncollectable(kind) && (kind != PTRFREE || needed > MAX_BLACK_LIST_ALLOC);
      CheckedKinds(kind, needed);
      hide IsUncollectable, Blocks, DropsCounted;
      var rq := Request(needed, eff, checked);
      bl.ViewMeans();
      ghost var s := Now();
      ghost var q;
      r, q, dropped, from := SearchFor(rq, policy);
      if r != 0 {
        GotMeans(q, s, Now(), dropped, r, from);
      } else if needed < SIGN_BLOCKS {
        forall b: nat, st: nat |
          policy.WholeHeap? && b in old(hdrs) && old(hdrs)[b].free && b <= st && st + needed <= b + old(hdrs)[b].sz
          ensures old(bl.Listed(st, eff))
        {
          NothingMeans(q, s, b, st);
        }
        forall b: nat | policy.WholeHeap? && b in s.h && s.h[b].free && needed <= s.h[b].sz
          ensures rq.checked && (needed <= blLimit || s.h[b].sz <= blLimit + needed)
        {
          NothingMeans(q, s, b, b);
        }
        forall b: nat | b in s.h && s.h[b].free && s.h[b].sz == needed
          ensures rq.checked && old(bl.Listed(b, eff))
        {
          NothingExactMeans(q, s, b);
        }
      }
      MayDropMeans(q, dropped);
      DropsMean(old(dropCount), dropCount, findLeak, dropped);
    }

    // ------------------------------------------------------------ merging unmapped blocks

    /** Maps or unmaps the smaller of the adjacent free runs b and n if they differ. */
    method MapAlike(b: nat, n: nat)
      requires Space(0) && b in hdrs && n in hdrs && n == b + hdrs[b].sz && b < n
      modifies this`hdrs, this`mapped
      ensures b in hdrs && n in hdrs && hdrs == old(hdrs)[b := old(hdrs)[b].(unmapped := hdrs[b].unmapped)]
      ensures hdrs[b].unmapped ==
        if old(hdrs)[b].sz > old(hdrs)[n].sz then old(hdrs)[b].unmapped else old(hdrs)[n].unmapped
      ensures Remapped(old(mapped), mapped, b, n + old(hdrs)[n].sz, hdrs[b].unmapped)
    {
      hide Tiling, CountsOk, Blocks;
      RunsMapped(hdrs, owner, mapped, b);
      RunsMapped(hdrs, owner, mapped, n);
      var size, nextsize := hdrs[b].sz, hdrs[n].sz;
      if !hdrs[b].unmapped && hdrs[n].unmapped {
        if size > nextsize {
          mapped := mapped + Blocks(n, nextsize);
        } else {
          mapped := mapped - Blocks(b, size);
          hdrs := hdrs[b := hdrs[b].(unmapped := true)];
        }
      } else if !hdrs[n].unmapped && hdrs[b].unmapped {
        if size > nextsize {
          mapped := mapped - Blocks(n, nextsize);
        } else {
          mapped := mapped + Blocks(b, size);
          hdrs := hdrs[b := hdrs[b].(unmapped := false)];
        }
      }
    }

    /** Takes block b, at place j of list i, and the free block n behind it off their lists and
        makes them one run, which is on no list yet. */
    method JoinPair(b: nat, n: nat, i: nat, ghost listed: set<nat>, ghost j: nat)
      requires Arrays() && Listing(listed, 0, 0) && i < |lists| && j < |lists[i]| && lists[i][j] == b
      requires b in listed && n in listed && b != n && b in hdrs && n in hdrs && b != 0 && i == FlFromBlocks(hdrs[b].sz)
      modifies this`hdrs, this`lists, freelist, freeBytes
      ensures Listing(listed - {b} - {n}, 0, 0)
      ensures hdrs.Keys == old(hdrs).Keys - {n} && b in hdrs
      ensures hdrs[b].sz == old(hdrs)[b].sz + old(hdrs)[n].sz
      ensures hdrs[b].free == old(hdrs)[b].free && hdrs[b].unmapped == old(hdrs)[b].unmapped
      ensures forall c :: c in hdrs && c != b ==> SameRun(old(hdrs)[c], hdrs[c])
      ensures Fewer(old(lists), lists)
      ensures Sum(freeBytes[..]) + hdrs[b].sz == old(Sum(freeBytes[..]))
    {
      hide FreeListsOk, Without, FlFromBlocks;
      FewerWithout(hdrs, freelist[..], freeBytes[..], lists, listed, i, j);
      RemoveFromFlAt(b, i, listed, 0, 0, j);
      RemoveFromFl(n, listed - {b});
      ListedKeys(hdrs, freelist[..], freeBytes[..], lists, listed - {b} - {n}, 0, 0);
      ghost var h := hdrs;
      hdrs := hdrs[b := hdrs[b].(sz := hdrs[b].sz + hdrs[n].sz)];
      hdrs := hdrs - {n};
      FreeListsFrame(h, hdrs, freelist[..], freeBytes[..], lists, listed - {b} - {n}, 0, 0);
    }

    /** Merges block b, at place j of list i, with the free block n behind it. */
    method MergePair(b: nat, n: nat, i: nat, ghost j: nat)
      requires Valid() && i < |lists| && j < |lists[i]| && lists[i][j] == b
      requires b in hdrs && n == b + hdrs[b].sz && n in hdrs && hdrs[n].free
      modifies this`hdrs, this`mapped, this`lists, this`owner, freelist, freeBytes
      ensures n in old(hdrs) && b in hdrs
      ensures hdrs[b].unmapped ==
        if old(hdrs)[b].sz > old(hdrs)[n].sz then old(hdrs)[b].unmapped else old(hdrs)[n].unmapped
      ensures Valid() && MergeRun(old(hdrs), hdrs, b, n)
      ensures Consumed(old(hdrs), old(owner), hdrs, owner, {})
      ensures FreeSet(hdrs) == old(FreeSet(hdrs)) - {n}
      ensures FewerBelow(old(lists), lists, i, b)
    {
      hide FreeListsOk, SpaceOk, Consumed, Remapped, FlFromBlocks, FreeSet, MergeRun, FewerBelow;
      ghost var h, mapped0 := hdrs, mapped;
      Relist(b, n, i, j);
      MergeChanges(h, hdrs, owner, counts, mapped0, mapped, b, n);
      owner := Reown(owner, b, n + h[n].sz, b);
    }

    /** The part of a merge that concerns headers, mapping and lists. */
    method Relist(b: nat, n: nat, i: nat, ghost j: nat)
      requires Valid() && i < |lists| && j < |lists[i]| && lists[i][j] == b
      requires b in hdrs && n == b + hdrs[b].sz && n in hdrs && hdrs[n].free
      modifies this`hdrs, this`mapped, this`lists, freelist, freeBytes
      ensures n in old(hdrs) && b in hdrs
      ensures hdrs[b].unmapped ==
        if old(hdrs)[b].sz > old(hdrs)[n].sz then old(hdrs)[b].unmapped else old(hdrs)[n].unmapped
      ensures MergeRun(old(hdrs), hdrs, b, n) && n in old(hdrs) && b in hdrs
      ensures Remapped(old(mapped), mapped, b, n + old(hdrs)[n].sz, hdrs[b].unmapped)
      ensures Listing(old(FreeSet(hdrs)) - {n}, 0, 0) && Sum(freeBytes[..]) == old(Sum(freeBytes[..]))
      ensures FewerBelow(old(lists), lists, i, b)
    {
      hide FreeListsOk, SpaceOk, Remapped, Tiling, FlFromBlocks, FreeSet, SameRun, SameLinks, MergeRun;
      ghost var h0, listed := hdrs, FreeSet(hdrs);
      ListCount();
      PlaceFacts(i, j);
      SpaceTiling(hdrs, owner, counts, mapped, 0);
      Positive(hdrs, owner, b);
      InFreeSet(hdrs, b);
      InFreeSet(hdrs, n);
      MapAlike(b, n);
      ghost var h1 := hdrs;
      FlagFrame(h0, h1, freelist[..], freeBytes[..], lists, listed, b);
      JoinPair(b, n, i, listed, j);
      ghost var h2 := hdrs;
      FlMonotone(h0[b].sz, hdrs[b].sz);
      OnlyListed(hdrs, freelist[..], freeBytes[..], lists, listed - {b} - {n}, b);
      AddToFl(b, listed - {b} - {n}, 0, 0);
      JoinedRun(h0, h1, h2, hdrs, b, n);
      assert listed - {b} - {n} + {b} == listed - {n};
    }

    lemma Unmergeable(b: nat)
      requires Valid() && b in hdrs
      requires b + hdrs[b].sz in hdrs && hdrs[b + hdrs[b].sz].free ==>
        hdrs[b].sz + hdrs[b + hdrs[b].sz].sz >= SIGN_BLOCKS
      ensures heapSize < SIGN_BLOCKS ==> !FreePair(hdrs, b)
    {
      NotMergeable(hdrs, owner, counts, mapped, b);
    }

    /** A merge that leaves the lists below i settled and takes one block off the lists. */
    method MergeSettled(b: nat, n: nat, i: nat, ghost j: nat)
      requires Valid() && i < |lists| && j < |lists[i]| && lists[i][j] == b
      requires b in hdrs && n == b + hdrs[b].sz && n in hdrs && hdrs[n].free
      modifies this`hdrs, this`mapped, this`lists, this`owner, freelist, freeBytes
      ensures Valid() && Consumed(old(hdrs), old(owner), hdrs, owner, {})
      ensures |FreeSet(hdrs)| < old(|FreeSet(hdrs)|)
      ensures old(SettledBelow(Now(), i)) ==> SettledBelow(Now(), i)
    {
      hide Base, Consumed, MergeRun, FreePair, FewerBelow, FreeSet, FlFromBlocks, SettledBelow;
      ghost var s := Now();
      InFreeSet(hdrs, n);
      MergePair(b, n, i, j);
      StillSettled(s, Now(), i, b, n);
    }

    /** Merges the blocks of list i with free successors; the list is searched from its start
        again after every merge. */
    method MergeList(i: nat)
      requires Valid() && i <= N_HBLK_FLS && (heapSize < SIGN_BLOCKS ==> SettledBelow(Now(), i))
      modifies this`hdrs, this`mapped, this`lists, this`owner, freelist, freeBytes
      ensures Valid() && Consumed(old(hdrs), old(owner), hdrs, owner, {})
      ensures heapSize < SIGN_BLOCKS ==> SettledBelow(Now(), i + 1)
    {
      hide Base, Consumed, MergeRun, FreePair, FewerBelow, FreeSet, FlFromBlocks;
      SameConsumes(hdrs, hdrs, owner);
      HeadFacts(i);
      var b := freelist[i];
      ghost var j := 0;
      while b != 0
        invariant Valid() && Consumed(old(hdrs), old(owner), hdrs, owner, {})
        invariant |lists| == N_HBLK_FLS + 1 && j <= |lists[i]| && b == (if j < |lists[i]| then lists[i][j] else 0)
        invariant heapSize < SIGN_BLOCKS ==> SettledBelow(Now(), i) && SettledOn(hdrs, lists[i][..j])
        decreases |FreeSet(hdrs)|, |lists[i]| - j
      {
        PlaceFacts(i, j);
        var n := b + hdrs[b].sz;
        if n in hdrs && hdrs[n].free && hdrs[b].sz + hdrs[n].sz < SIGN_BLOCKS {
          ghost var h, owner0 := hdrs, owner;
          MergeSettled(b, n, i, j);
          ConsumedAgain(old(hdrs), old(owner), h, owner0, hdrs, owner);
          HeadFacts(i);
          b, j := freelist[i], 0;
        } else {
          Unmergeable(b);
          assert lists[i][..j + 1] == lists[i][..j] + [b];
          b := hdrs[b].next;
          j := j + 1;
        }
      }
      if j < |lists[i]| { PlaceFacts(i, j); }
      assert lists[i][..j] == lists[i];
    }

    /** Merges adjacent free runs, whether mapped or not. */
    method MergeUnmapped()
      requires Valid()
      modifies this`hdrs, this`mapped, this`lists, this`owner, freelist, freeBytes
      ensures Valid() && Consumed(old(hdrs), old(owner), hdrs, owner, {})
      ensures heapSize < SIGN_BLOCKS ==> Coalesced(hdrs, 0, 0)
    {
      hide Base, Consumed, Coalesced, FreeOnLists, AllFree;
      SameConsumes(hdrs, hdrs, owner);
      AllOnLists();
      for i := 0 to N_HBLK_FLS + 1
        invariant Valid() && Consumed(old(hdrs), old(owner), hdrs, owner, {})
        invariant heapSize < SIGN_BLOCKS ==> SettledBelow(Now(), i)
      {
        ghost var s := Now();
        MergeList(i);
        ConsumedAgain(old(hdrs), old(owner), s.h, s.owner, hdrs, owner);
      }
      AllOnLists();
      if heapSize < SIGN_BLOCKS { AllSettled(Now()); }
    }

    /** Unmaps the mapped free run b. */
    method Unmap(b: nat)
      requires Valid() && b in hdrs && hdrs[b].free
      modifies this`hdrs, this`mapped
      ensures Valid() && hdrs == old(hdrs)[b := old(hdrs)[b].(unmapped := true)]
      ensures Consumed(old(hdrs), owner, hdrs, owner, {})
    {
      hide FreeListsOk, SpaceOk, Consumed;
      ghost var h, old1 := hdrs, mapped;
      mapped := mapped - Blocks(b, hdrs[b].sz);
      hdrs := hdrs[b := hdrs[b].(unmapped := true)];
      SpaceRemap(h, hdrs, owner, counts, old1, mapped, b);
      RemapChanges(h, hdrs, owner, b, 0, 0);
      FreeListsFrame(h, hdrs, freelist[..], freeBytes[..], lists, FreeSet(h), 0, 0);
    }

    /** Unmaps the free run b if it is mapped and in stale. */
    method UnmapStale(b: nat, stale: set<nat>)
      requires Valid() && b in hdrs && hdrs[b].free
      modifies this`hdrs, this`mapped
      ensures Valid() && Consumed(old(hdrs), owner, hdrs, owner, {})
      ensures hdrs == old(hdrs)[b := old(hdrs)[b].(unmapped := old(hdrs)[b].unmapped || b in stale)]
    {
      hide Base, Consumed;
      SameConsumes(hdrs, hdrs, owner);
      if !hdrs[b].unmapped && b in stale {
        Unmap(b);
      }
    }

    lemma AllVisited(visited: set<nat>)
      requires Valid() && Visited(lists, N_HBLK_FLS + 1, visited)
      ensures forall b :: b in hdrs && hdrs[b].free ==> b in visited
    {
      AllOnLists();
    }

    /** Unmaps the free blocks of stale on list i. */
    method UnmapList(i: nat, stale: set<nat>, ghost h0: map<nat, Hdr>, ghost v0: set<nat>)
      returns (ghost visited: set<nat>)
      requires Valid() && i <= N_HBLK_FLS && UnmappedOf(h0, hdrs, stale * v0) && Visited(lists, i, v0)
      modifies this`hdrs, this`mapped
      ensures Valid() && Consumed(old(hdrs), owner, hdrs, owner, {})
      ensures UnmappedOf(h0, hdrs, stale * visited) && Visited(lists, i + 1, visited)
    {
      hide Base, Consumed, FlFromBlocks, AllFree, UnmappedOf;
      SameConsumes(hdrs, hdrs, owner);
      HeadFacts(i);
      visited := v0;
      var b := freelist[i];
      ghost var j := 0;
      while b != 0
        invariant Valid() && Consumed(old(hdrs), owner, hdrs, owner, {})
        invariant UnmappedOf(h0, hdrs, stale * visited)
        invariant j <= |lists[i]| && b == (if j < |lists[i]| then lists[i][j] else 0)
        invariant v0 <= visited && forall m :: 0 <= m < j ==> lists[i][m] in visited
        decreases |lists[i]| - j
      {
        PlaceFacts(i, j);
        ghost var h := hdrs;
        UnmapStale(b, stale);
        ConsumedAgain(old(hdrs), owner, h, owner, hdrs, owner);
        UnmappedStep(h0, h, hdrs, b, stale, visited);
        visited := visited + {b};
        b := hdrs[b].next;
        j := j + 1;
      }
      if j < |lists[i]| { PlaceFacts(i, j); }
    }

    /** Unmaps exactly the free runs that were last in use more than threshold collections ago; ages
        are kept modulo 2^16. last gives the collection in which a run was freed. */
    method UnmapOld(last: map<nat, nat>, gcNo: nat, threshold: nat)
      requires Valid() && forall b :: b in hdrs ==> b in last
      modifies this`hdrs, this`mapped
      ensures Valid() && Consumed(old(hdrs), owner, hdrs, owner, {})
      ensures hdrs.Keys == old(hdrs).Keys
      ensures forall b :: b in hdrs ==>
        hdrs[b] == if old(hdrs)[b].free && threshold != 0 && (gcNo - last[b]) % 65536 > threshold % 65536
                   then old(hdrs)[b].(unmapped := true) else old(hdrs)[b]
      ensures forall b :: b in hdrs && old(hdrs)[b].free && last[b] <= gcNo < last[b] + 65536 && threshold < 65536 ==>
        (hdrs[b].unmapped <==> old(hdrs)[b].unmapped || (threshold != 0 && gcNo - last[b] > threshold))
      ensures forall b :: b in hdrs && !old(hdrs)[b].free ==> hdrs[b] == old(hdrs)[b]
    {
      forall b | b in hdrs && last[b] <= gcNo < last[b] + 65536 && threshold < 65536
        ensures (gcNo - last[b]) % 65536 > threshold % 65536 <==> gcNo - last[b] > threshold
      {
        ShortAge(last[b], gcNo, threshold);
      }
      hide Base, Consumed;
      ghost var h0 := hdrs;
      SameConsumes(hdrs, hdrs, owner);
      if threshold == 0 {
        return;
      }
      var stale := set b | b in hdrs && (gcNo - last[b]) % 65536 > threshold % 65536;
      HeadFacts(0);
      ghost var visited: set<nat> := {};
      for i := 0 to N_HBLK_FLS + 1
        invariant Valid() && Consumed(h0, owner, hdrs, owner, {})
        invariant UnmappedOf(h0, hdrs, stale * visited) && Visited(lists, i, visited)
      {
        ghost var h := hdrs;
        visited := UnmapList(i, stale, h0, visited);
        ConsumedAgain(h0, owner, h, owner, hdrs, owner);
      }
      AllVisited(visited);
    }

    // ------------------------------------------------------------ accounts

    /** The counters are true: free bytes are the blocks of free runs, and together with the
        blocks in use they make up the heap. */
    lemma TrueCounts()
      requires Valid()
      ensures largeFree == |FreeCells(hdrs, owner)|
      ensures heapSize == |FreeCells(hdrs, owner)| + |owner.Keys - FreeCells(hdrs, owner)|
    {
      hide FreeListsOk, SpaceOk, AllFree, FreeOnLists, FreeCells, AllCells, FreeSet;
      SpaceTiling(hdrs, owner, counts, mapped, 0);
      AllOnLists();
      ListedCells(hdrs, owner, freelist[..], freeBytes[..], lists, FreeSet(hdrs));
      CellsAreFree(hdrs, owner, lists);
      PartSizes(owner.Keys, FreeCells(hdrs, owner));
    }
  }

  // ---------------------------------------------------------------- counting free blocks

  /** The blocks of the runs of l. */
  ghost function Cells(h: map<nat, Hdr>, l: seq<nat>): set<nat>
    requires AllIn(h, l)
  {
    if l == [] then {} else Blocks(l[0], h[l[0]].sz) + Cells(h, l[1..])
  }

  lemma {:induction false} CellsOwned(h: map<nat, Hdr>, owner: map<nat, nat>, l: seq<nat>)
    requires Tiling(h, owner) && AllIn(h, l)
    ensures forall k :: k in Cells(h, l) <==> k in owner && owner[k] in l
  {
    if l != [] {
      CellsOwned(h, owner, l[1..]);
      RunBlocks(h, owner, l[0]);
    }
  }

  lemma {:induction false} CellsSize(h: map<nat, Hdr>, owner: map<nat, nat>, l: seq<nat>)
    requires Tiling(h, owner) && AllIn(h, l) && NoDup(l)
    ensures |Cells(h, l)| == SizeSum(h, l)
  {
    if l != [] {
      CellsSize(h, owner, l[1..]);
      CellsOwned(h, owner, l[1..]);
      RunBlocks(h, owner, l[0]);
      assert Blocks(l[0], h[l[0]].sz) !! Cells(h, l[1..]);
    }
  }

  /** The blocks of all lists from i on. */
  ghost function AllCells(h: map<nat, Hdr>, lists: seq<seq<nat>>, i: nat): set<nat>
    requires i <= |lists| && forall k :: 0 <= k < |lists| ==> AllIn(h, lists[k])
    decreases |lists| - i
  {
    if i == |lists| then {} else Cells(h, lists[i]) + AllCells(h, lists, i + 1)
  }

  /** Cell k belongs to a run on one of the lists from i on. */
  ghost predicate OnListFrom(owner: map<nat, nat>, lists: seq<seq<nat>>, i: nat, k: nat) {
    k in owner && exists m :: i <= m < |lists| && owner[k] in lists[m]
  }

  lemma {:induction false} AllCellsOwned(h: map<nat, Hdr>, owner: map<nat, nat>, lists: seq<seq<nat>>, i: nat)
    requires Tiling(h, owner) && i <= |lists| && forall k :: 0 <= k < |lists| ==> AllIn(h, lists[k])
    ensures forall k :: k in AllCells(h, lists, i) <==> OnListFrom(owner, lists, i, k)
    decreases |lists| - i
  {
    if i < |lists| {
      AllCellsOwned(h, owner, lists, i + 1);
      CellsOwned(h, owner, lists[i]);
      hide Tiling, AllIn, OnListFrom, Cells;
      forall k ensures k in AllCells(h, lists, i) <==> OnListFrom(owner, lists, i, k) {
        OnListOrLater(owner, lists, i, k);
      }
    }
  }

  lemma OnListOrLater(owner: map<nat, nat>, lists: seq<seq<nat>>, i: nat, k: nat)
    requires i < |lists|
    ensures OnListFrom(owner, lists, i, k) <==>
      (k in owner && owner[k] in lists[i]) || OnListFrom(owner, lists, i + 1, k)
  {
  }

  /** One number per list, from i on, is the size of the blocks of those lists. */
  ghost predicate Apiece(h: map<nat, Hdr>, bytes: seq<nat>, lists: seq<seq<nat>>) {
    && |bytes| == |lists|
    && (forall k :: 0 <= k < |lists| ==> AllIn(h, lists[k]) && NoDup(lists[k]) && bytes[k] == SizeSum(h, lists[k]))
    && (forall k, m, b :: 0 <= k < m < |lists| && b in lists[k] ==> b !in lists[m])
  }

  lemma {:induction false} AllCellsSize(h: map<nat, Hdr>, owner: map<nat, nat>, bytes: seq<nat>, lists: seq<seq<nat>>,
                                        i: nat)
    requires Tiling(h, owner) && i <= |lists| && Apiece(h, bytes, lists)
    ensures |AllCells(h, lists, i)| == Sum(bytes[i..])
    decreases |lists| - i
  {
    if i < |lists| {
      AllCellsSize(h, owner, bytes, lists, i + 1);
      CellsSize(h, owner, lists[i]);
      CellsOwned(h, owner, lists[i]);
      AllCellsOwned(h, owner, lists, i + 1);
      hide Tiling, Cells;
      assert Cells(h, lists[i]) !! AllCells(h, lists, i + 1);
      assert bytes[i..][1..] == bytes[i + 1..];
    }
  }

  lemma ListedCells(h: map<nat, Hdr>, owner: map<nat, nat>, heads: seq<nat>, bytes: seq<nat>, lists: seq<seq<nat>>,
                    listed: set<nat>)
    requires FreeListsOk(h, heads, bytes, lists, listed, 0, 0) && Tiling(h, owner)
    ensures forall k :: 0 <= k < |lists| ==> AllIn(h, lists[k])
    ensures |AllCells(h, lists, 0)| == Sum(bytes)
  {
    forall k | 0 <= k < |lists| ensures AllIn(h, lists[k]) && NoDup(lists[k]) && bytes[k] == SizeSum(h, lists[k]) {
      assert ListOk(h, heads[k], bytes[k], lists[k]);
    }
    forall k, m, b | 0 <= k < m < |lists| && b in lists[k] ensures b !in lists[m] {
      Separate(h, lists, listed, 0, 0, k, m);
    }
    AllCellsSize(h, owner, bytes, lists, 0);
    assert bytes[0..] == bytes;
  }

  lemma PartSizes(a: set<nat>, b: set<nat>)
    requires b <= a
    ensures |a| == |b| + |a - b|
  {
    assert a == b + (a - b);
  }

  lemma CellsAreFree(h: map<nat, Hdr>, owner: map<nat, nat>, lists: seq<seq<nat>>)
    requires Tiling(h, owner) && forall k :: 0 <= k < |lists| ==> AllIn(h, lists[k])
    requires AllFree(Snap(h, lists, owner)) && FreeOnLists(Snap(h, lists, owner))
    ensures AllCells(h, lists, 0) == FreeCells(h, owner) <= owner.Keys
  {
    AllCellsOwned(h, owner, lists, 0);
    hide Tiling;
    forall k | k in owner ensures k in AllCells(h, lists, 0) <==> k in FreeCells(h, owner) {
      Belonging(h, owner, k);
      if h[owner[k]].free { assert owner[k] in lists[FlFromBlocks(h[owner[k]].sz)]; }
    }
  }

  // ---------------------------------------------------------------- the search step by step

  lemma PassedDrop(q: Search, s: Snap, t: Snap, u: Snap, n: nat, j: nat, dropped: set<nat>)
    requires Passed(q, s, t, dropped) && AllFree(t) && Seen(q, s, t, n, j) && j < |t.lists[n]| && q.MayDrop(dropped)
    requires NoDup(t.lists[n]) && t.lists[n][j] in t.h
    requires !AcceptedIn(q, t, t.lists[n][j]) && RefusedIn(q, t, t.lists[n][j]) &&
      q.Hopeless(t.lists[n][j], t.h[t.lists[n][j]])
    requires u.lists == t.lists[n := Without(t.lists[n], j)] && SameFree(t.h, u.h)
    requires Consumed(t.h, t.owner, u.h, u.owner, Blocks(t.lists[n][j], t.h[t.lists[n][j]].sz))
    ensures Passed(q, s, u, dropped + Blocks(t.lists[n][j], t.h[t.lists[n][j]].sz)) && Seen(q, s, u, n, j)
    ensures q.MayDrop(dropped + Blocks(t.lists[n][j], t.h[t.lists[n][j]].sz))
    ensures |dropped + Blocks(t.lists[n][j], t.h[t.lists[n][j]].sz)| == |dropped| + t.h[t.lists[n][j]].sz
  {
    DropPassed(q, t, u, n, j);
    DropSeen(q, s, t, u, n, j, dropped);
    hide Passed, Consumed, Seen, AcceptedIn, RefusedIn, NoDup, Without, AllFree, SameFree, Blocks;
    PassedPassed(q, s, t, u, dropped, Blocks(t.lists[n][j], t.h[t.lists[n][j]].sz));
  }

  lemma DropPassed(q: Search, t: Snap, u: Snap, n: nat, j: nat)
    requires n < |t.lists| && j < |t.lists[n]| && NoDup(t.lists[n]) && t.lists[n][j] in t.h
    requires RefusedIn(q, t, t.lists[n][j])
    requires u.lists == t.lists[n := Without(t.lists[n], j)] && SameFree(t.h, u.h)
    requires Consumed(t.h, t.owner, u.h, u.owner, Blocks(t.lists[n][j], t.h[t.lists[n][j]].sz))
    ensures Passed(q, t, u, Blocks(t.lists[n][j], t.h[t.lists[n][j]].sz))
  {
    WithoutMembers(t.lists[n], j);
    hide Consumed, SameFree, Without, NoDup, RefusedIn, Blocks;
  }

  lemma DropSeen(q: Search, s: Snap, t: Snap, u: Snap, n: nat, j: nat, dropped: set<nat>)
    requires Passed(q, s, t, dropped) && AllFree(t) && Seen(q, s, t, n, j) && j < |t.lists[n]|
    requires !AcceptedIn(q, t, t.lists[n][j]) && u.lists == t.lists[n := Without(t.lists[n], j)]
    ensures Seen(q, s, u, n, j)
  {
    hide Passed, AcceptedIn;
    var l := t.lists[n];
    var b := l[j];
    assert b in l;
    StillAccepted(q, s, t, dropped, b);
    assert l[j..] == [b] + l[j + 1..];
    assert Without(l, j)[j..] == l[j + 1..];
  }

  lemma WithoutAt(l: seq<nat>, j: nat)
    requires j < |l|
    ensures |Without(l, j)| == |l| - 1 && (j > 0 ==> Without(l, j)[j - 1] == l[j - 1])
  {
  }

  lemma FoundIntro(q: Search, s: Snap, t: Snap, u: Snap, n: nat, j: nat, dropped: set<nat>, r: nat)
    requires Passed(q, s, t, dropped) && n < |t.lists| && j < |t.lists[n]|
    requires t.lists[n][j] in t.h && t.h[t.lists[n][j]].free
    requires AcceptedIn(q, t, t.lists[n][j]) && q.GoodStart(t.lists[n][j], t.h[t.lists[n][j]], r)
    requires UsedRun(u.h, r) && u.h[r].sz == q.rq.needed
    requires Consumed(t.h, t.owner, u.h, u.owner, Blocks(r, q.rq.needed))
    ensures Found(q, s, u, n, dropped, r, t.lists[n][j])
  {
    assert t.lists[n][j] in t.lists[n];
    StillAccepted(q, s, t, dropped, t.lists[n][j]);
    hide Search.HasStart, Search.Acceptable, Search.Refused, Sets.Listed, Blocks;
    ConsumedThen(s.h, s.owner, t.h, t.owner, dropped, u.h, u.owner, Blocks(r, q.rq.needed));
    hide Consumed;
  }

  lemma NothingListed(heads: seq<nat>, bytes: seq<nat>, lists: seq<seq<nat>>)
    requires |heads| == |bytes| == |lists| == N_HBLK_FLS + 1
    requires forall i :: 0 <= i < |lists| ==> heads[i] == 0 && bytes[i] == 0 && lists[i] == []
    ensures FreeListsOk(map[], heads, bytes, lists, {}, 0, 0)
  {
  }

  lemma ListsAreFree(h: map<nat, Hdr>, heads: seq<nat>, bytes: seq<nat>, lists: seq<seq<nat>>, owner: map<nat, nat>)
    requires FreeListsOk(h, heads, bytes, lists, FreeSet(h), 0, 0)
    ensures AllFree(Snap(h, lists, owner))
    ensures forall k :: 0 <= k < |lists| ==> NoDup(lists[k])
  {
    hide ListOk;
    forall k | 0 <= k < |lists| ensures NoDup(lists[k]) {
      assert ListOk(h, heads[k], bytes[k], lists[k]);
      ListNoDup(h, heads[k], bytes[k], lists[k]);
    }
    hide NoDup;
    forall k, b | 0 <= k < |lists| && b in lists[k] ensures b in h && h[b].free {
      Separate(h, lists, FreeSet(h), 0, 0, k, k);
    }
  }

  lemma PassedPassed(q: Search, s: Snap, t: Snap, u: Snap, d1: set<nat>, d2: set<nat>)
    requires Passed(q, s, t, d1) && AllFree(t) && Passed(q, t, u, d2)
    ensures Passed(q, s, u, d1 + d2) && |d1 + d2| == |d1| + |d2|
  {
    ConsumedThen(s.h, s.owner, t.h, t.owner, d1, u.h, u.owner, d2);
    forall k, b | 0 <= k < |s.lists| && b in s.lists[k] ensures b in u.lists[k] || RefusedIn(q, s, b) {
      if b in t.lists[k] { StillAccepted(q, s, t, d1, b); }
    }
    hide Consumed, RefusedIn;
  }

  lemma PassedThen(q: Search, s: Snap, t: Snap, u: Snap, n: nat, d1: set<nat>, d2: set<nat>)
    requires Passed(q, s, t, d1) && AllFree(t) && Seen(q, s, t, n, 0)
    requires Passed(q, t, u, d2) && NoneOn(q, t, n)
    ensures Passed(q, s, u, d1 + d2) && NoneOn(q, s, n) && |d1 + d2| == |d1| + |d2|
  {
    PassedPassed(q, s, t, u, d1, d2);
    forall b | b in t.lists[n] ensures !AcceptedIn(q, s, b) { StillAccepted(q, s, t, d1, b); }
    hide AcceptedIn, Passed;
  }

  lemma GotIntro(q: Search, s: Snap, t: Snap, u: Snap, n: nat, d1: set<nat>, d2: set<nat>, r: nat, from: nat)
    requires Passed(q, s, t, d1) && AllFree(t) && Found(q, t, u, n, d2, r, from) && Found(q, s, u, n, d1 + d2, r, from)
    ensures Got(q, s, u, d1 + d2, r, from)
  {
    StillAccepted(q, s, t, d1, from);
    hide Search.HasStart, Search.Acceptable, Sets.Listed, Blocks, SameFree, Consumed;
  }

  lemma NoneBefore(q: Search, s: Snap, t: Snap, n: nat, dropped: set<nat>)
    requires Passed(q, s, t, dropped) && AllFree(t) && NoneOn(q, t, n)
    ensures NoneOn(q, s, n)
  {
    hide Search.HasStart, Sets.Listed;
    forall b | b in s.lists[n] ensures !AcceptedIn(q, s, b) {
      if b in t.lists[n] {
        StillAccepted(q, s, t, dropped, b);
      } else {
        assert RefusedIn(q, s, b);
      }
    }
  }

  lemma NothingDropped(q: Search, s: Snap)
    ensures q.MayDrop({}) && Consumed(s.h, s.owner, s.h, s.owner, {})
  {
    SameConsumes(s.h, s.h, s.owner);
  }

  /** What is acceptable without splitting is acceptable with it. */
  lemma ExactIsEnough(q0: Search, q: Search, s: Snap, u: Snap, n: nat, dropped: set<nat>, r: nat, from: nat)
    requires q == q0.(split := Always) && AllFree(s) && Found(q0, s, u, n, dropped, r, from) && q0.MayDrop(dropped)
    ensures Got(q, s, u, dropped, r, from) && q.MayDrop(dropped) && !NothingFor(q, s)
    ensures q0.split == Never ==> from in s.h && s.h[from].sz == q.rq.needed
  {
    SameStarts(q0, q);
    hide Search.HasStart, Sets.Listed, Blocks, Consumed;
    assert AcceptedIn(q, s, from);
  }

  lemma SameStarts(q0: Search, q: Search)
    requires q == q0.(split := q.split)
    ensures forall b: nat, size: nat :: q0.HasStart(b, size) <==> q.HasStart(b, size)
  {
  }

  lemma OtherSplit(q0: Search, q: Search, s: Snap, t: Snap, dropped: set<nat>)
    requires q == q0.(split := q.split) && Passed(q0, s, t, dropped) && q0.MayDrop(dropped)
    ensures Passed(q, s, t, dropped) && q.MayDrop(dropped)
  {
    SameStarts(q0, q);
    hide Search.HasStart, Sets.Listed, Consumed;
    forall b: nat ensures RefusedIn(q, s, b) <==> RefusedIn(q0, s, b) {}
    hide RefusedIn;
  }

  /** The exact pass and the passes over the larger lists together have seen every free run
      that is large enough. */
  lemma SearchedAll(q0: Search, q: Search, s: Snap, first: nat, next: nat, last: nat)
    requires q0.split == Never && q == q0.(split := q.split) && FreeOnLists(s) && NoneOn(q0, s, first)
    requires first == FlFromBlocks(q.rq.needed) && next == (if first < UNIQUE_THRESHOLD then first + 1 else first)
    requires NoneBetween(q, s, next, last)
    ensures NothingExact(q, s)
    ensures last == N_HBLK_FLS && q.split == Always ==> NothingFor(q, s)
  {
    SameStarts(q0, q);
    hide Search.HasStart, Sets.Listed;
    forall b: nat | b in s.h && s.h[b].free && q.rq.needed <= s.h[b].sz && FlFromBlocks(s.h[b].sz) <= last
      ensures !AcceptedIn(q, s, b)
    {
      FlMonotone(q.rq.needed, s.h[b].sz);
      if FlFromBlocks(s.h[b].sz) < next {
        FlUnique(s.h[b].sz, q.rq.needed);
        assert !AcceptedIn(q0, s, b);
      } else {
        assert NoneOn(q, s, FlFromBlocks(s.h[b].sz));
      }
    }
  }

  lemma Conclusion(q: Search, s: Snap, t: Snap, dropped: set<nat>, r: nat, from: nat)
    requires r == 0 ==> Passed(q, s, t, dropped)
    requires r != 0 ==> Got(q, s, t, dropped, r, from)
    ensures r == 0 ==> Consumed(s.h, s.owner, t.h, t.owner, dropped)
    ensures r != 0 ==> !NothingFor(q, s)
  {
    if r != 0 { assert AcceptedIn(q, s, from); }
  }

  /** All of what the search found, in terms of the black lists. */
  lemma GotMeans(q: Search, s: Snap, t: Snap, dropped: set<nat>, r: nat, from: nat)
    requires Got(q, s, t, dropped, r, from) && 1 <= q.rq.eff
    ensures from in s.h && s.h[from].free && from <= r <= r + q.rq.needed <= from + s.h[from].sz
    ensures UsedRun(t.h, r) && t.h[r].sz == q.rq.needed && dropped !! Blocks(r, q.rq.needed)
    ensures Consumed(s.h, s.owner, t.h, t.owner, dropped + Blocks(r, q.rq.needed))
    ensures q.rq.checked ==>
      || (r !in q.view.normal && forall k :: r <= k < r + q.rq.eff ==> k !in q.view.stack)
      || (q.rq.needed > q.limit && s.h[from].sz > q.limit + q.rq.needed && r == from)
  {
    hide Consumed, Blocks, Search.HasStart;
  }

  /** No place at all: every start is black-listed, and the request is not let through. */
  lemma NothingMeans(q: Search, s: Snap, b: nat, st: nat)
    requires NothingFor(q, s) && q.split == Always && 1 <= q.rq.eff
    requires b in s.h && s.h[b].free && b <= st && st + q.rq.needed <= b + s.h[b].sz
    ensures q.rq.checked && q.view.Listed(st, q.rq.eff)
    ensures q.rq.needed <= q.limit || s.h[b].sz <= q.limit + q.rq.needed
  {
    hide Sets.Listed;
    assert !q.Acceptable(b, s.h[b]) by { assert !AcceptedIn(q, s, b); }
    assert q.HasStart(b, s.h[b].sz) || q.view.Listed(st, q.rq.eff);
  }

  lemma NothingExactMeans(q: Search, s: Snap, b: nat)
    requires NothingExact(q, s) && 1 <= q.rq.eff
    requires b in s.h && s.h[b].free && s.h[b].sz == q.rq.needed
    ensures q.rq.checked && q.view.Listed(b, q.rq.eff)
  {
    hide Sets.Listed;
    assert !q.(split := Never).Acceptable(b, s.h[b]);
  }

  lemma MayDropMeans(q: Search, dropped: set<nat>)
    requires q.MayDrop(dropped)
    ensures dropped != {} ==> q.rq.needed == 1 && q.rq.checked
    ensures forall k :: k in dropped ==> k in q.view.normal || k in q.view.stack
  {
    forall k | k in dropped ensures k in q.view.normal || k in q.view.stack {
      assert q.view.Listed(k, 1);
    }
  }

  lemma ListAbove(needed: nat)
    ensures needed > 0 ==> 0 < FlFromBlocks(needed)
  {
  }

  lemma FoundOn(q: Search, s: Snap, t: Snap, n: nat, dropped: set<nat>, r: nat, from: nat)
    requires Found(q, s, t, n, dropped, r, from)
    ensures forall first: nat, last: nat :: first <= n <= last ==> ListedBetween(s, from, first, last)
  {
  }

  /** A run that was found up to the split limit comes from the lists that hold enough from there on. */
  lemma WithinLimit(s: Snap, bytes: seq<nat>, bytes': seq<nat>, from: nat, first: nat, last: nat, policy: Policy)
    requires OnOwnLists(s) && ListedBetween(s, from, first, last) && NoMore(bytes, bytes') && last < |bytes|
    requires policy.LargeBlocksLeft? && 0 < first
    requires policy.allocd + SumFrom(bytes', last) >= policy.maxAllocd || last == 0
    ensures from in s.h && FlFromBlocks(s.h[from].sz) <= |bytes|
    ensures policy.allocd + SumFrom(bytes, FlFromBlocks(s.h[from].sz)) >= policy.maxAllocd
  {
    var n: nat :| first <= n <= last && n < |s.lists| && from in s.lists[n];
    SumFromLess(bytes, bytes', n, last);
  }

  lemma FoundThen(q: Search, s: Snap, t: Snap, u: Snap, n: nat, d1: set<nat>, d2: set<nat>, r: nat, from: nat)
    requires Passed(q, s, t, d1) && AllFree(t) && Found(q, t, u, n, d2, r, from)
    ensures Found(q, s, u, n, d1 + d2, r, from) && |d1 + d2| == |d1| + |d2|
  {
    StillAccepted(q, s, t, d1, from);
    hide Search.HasStart, Search.Acceptable, Sets.Listed, Blocks, SameFree, AllFree;
    ConsumedThen(s.h, s.owner, t.h, t.owner, d1, u.h, u.owner, d2 + Blocks(r, q.rq.needed));
    assert d1 + (d2 + Blocks(r, q.rq.needed)) == d1 + d2 + Blocks(r, q.rq.needed);
    hide Consumed;
  }

  lemma Position(h: map<nat, Hdr>, heads: seq<nat>, bytes: seq<nat>, lists: seq<seq<nat>>, listed: set<nat>, b: nat)
    returns (j: nat)
    requires FreeListsOk(h, heads, bytes, lists, listed, 0, 0) && b in listed
    ensures b in h && b != 0 && Place(h, b, 0, 0) == FlFromBlocks(h[b].sz) < |lists|
    ensures j < |lists[FlFromBlocks(h[b].sz)]| && lists[FlFromBlocks(h[b].sz)][j] == b
  {
    j := InSeq(lists[Place(h, b, 0, 0)], b);
  }

  lemma SpaceTiling(h: map<nat, Hdr>, owner: map<nat, nat>, counts: map<nat, nat>, mapped: set<nat>, bare: nat)
    requires SpaceOk(h, owner, counts, mapped, bare)
    ensures Tiling(h, owner)
  {
  }

  lemma NoStartInside(h: map<nat, Hdr>, owner: map<nat, nat>, b: nat, t: nat)
    requires Tiling(h, owner) && b in h && b < t < b + h[b].sz
    ensures t !in h
  {
    if t in h {
      Apart(h, owner, b, t);
      assert false;
    }
  }

  lemma ReownSize(owner: map<nat, nat>, lo: nat, hi: nat, o: nat)
    ensures |Reown(owner, lo, hi, o)| == |owner|
  {
    assert Reown(owner, lo, hi, o).Keys == owner.Keys;
  }

  lemma SplitChanges(h: map<nat, Hdr>, h': map<nat, Hdr>, owner: map<nat, nat>, counts: map<nat, nat>, mapped: set<nat>,
                     b: nat, t: nat)
    requires SpaceOk(h, owner, counts, mapped, 0) && SplitRun(h, h', b, t)
    ensures SpaceOk(h', Reown(owner, t, b + h[b].sz, t), counts, mapped, 0)
    ensures FreeSet(h') == FreeSet(h) + {t}
    ensures |Reown(owner, t, b + h[b].sz, t)| == |owner|
    ensures Consumed(h, owner, h', Reown(owner, t, b + h[b].sz, t), {})
    ensures Coalesced(h, 0, 0) ==> Coalesced(h', 0, t)
  {
    SpaceTiling(h, owner, counts, mapped, 0);
    hide SpaceOk, Tiling, SplitRun, Consumed, Coalesced, Reown;
    SpaceSplit(h, h', owner, counts, mapped, b, t);
    SplitConsumes(h, h', owner, b, t);
    ReownSize(owner, t, b + h[b].sz, t);
    if Coalesced(h, 0, 0) {
      SplitCoalesced(h, h', owner, b, t, 0);
    }
  }

  lemma InFreeSet(h: map<nat, Hdr>, b: nat)
    requires b in h
    ensures b in FreeSet(h) <==> h[b].free
  {
  }

  lemma RestIsNew(h: map<nat, Hdr>, owner: map<nat, nat>, counts: map<nat, nat>, mapped: set<nat>, b: nat, n: nat)
    requires SpaceOk(h, owner, counts, mapped, 0) && b in h && 0 < n
    ensures n < h[b].sz ==> b + n !in h
    ensures b != 0
  {
    if n < h[b].sz { NoStartInside(h, owner, b, b + n); }
  }

  lemma CarvedIntro(h: map<nat, Hdr>, h1: map<nat, Hdr>, h': map<nat, Hdr>, b: nat, n: nat)
    requires b in h && h[b].free && !h[b].unmapped && 0 < n <= h[b].sz && (n < h[b].sz ==> b + n !in h)
    requires h1.Keys == h.Keys + (if n < h[b].sz then {b + n} else {})
    requires n < h[b].sz ==> h1[b + n].sz == h[b].sz - n && h1[b + n].free && !h1[b + n].unmapped
    requires forall c :: c in h ==> SameRun(h[c], h1[c])
    requires h' == h1[b := h1[b].(sz := n, free := false)]
    ensures Carved(h, h', b, n)
  {
  }

  lemma CarveChanges(h: map<nat, Hdr>, h': map<nat, Hdr>, owner: map<nat, nat>, counts: map<nat, nat>, mapped: set<nat>,
                     b: nat, n: nat, w: nat)
    requires SpaceOk(h, owner, counts, mapped, 0) && Carved(h, h', b, n) && (w == 0 || w == b)
    ensures b in h
    ensures SpaceOk(h', CarvedOwner(h, owner, b, n), CountsWith(counts, b, n), mapped, 0)
    ensures FreeSet(h') == FreeSet(h) - {b} + (if n < h[b].sz then {b + n} else {})
    ensures |CarvedOwner(h, owner, b, n)| == |owner|
    ensures Consumed(h, owner, h', CarvedOwner(h, owner, b, n), Blocks(b, n))
    ensures Coalesced(h, 0, w) ==> Coalesced(h', 0, 0)
  {
    SpaceTiling(h, owner, counts, mapped, 0);
    CarveSteps(h, h', b, n);
    hide SpaceOk, Tiling, Carved, Consumed, Coalesced, Reown, SplitRun, SameRuns, SameExcept, Halfway, Blocks,
         CountsWith;
    CarveSpace(h, h', owner, counts, mapped, b, n);
    CarveConsumes(h, h', owner, b, n);
    ReownSize(owner, b + n, b + h[b].sz, b + n);
    if Coalesced(h, 0, w) {
      CarveCoalesced(h, h', owner, b, n, w);
    }
  }

  lemma ChangeUnlisted(h: map<nat, Hdr>, h': map<nat, Hdr>, heads: seq<nat>, bytes: seq<nat>, lists: seq<seq<nat>>,
                       listed: set<nat>, b: nat)
    requires FreeListsOk(h, heads, bytes, lists, listed, 0, 0) && b !in listed
    requires b in h && h'.Keys == h.Keys && forall c :: c in h && c != b ==> h'[c] == h[c]
    ensures FreeListsOk(h', heads, bytes, lists, listed, 0, 0)
  {
    ListedKeys(h, heads, bytes, lists, listed, 0, 0);
    hide FreeListsOk;
    FreeListsFrame(h, h', heads, bytes, lists, listed, 0, 0);
  }

  /** A run that holds the block before the start of another run ends there. */
  lemma RunBefore(h: map<nat, Hdr>, owner: map<nat, nat>, b: nat)
    requires Tiling(h, owner) && b in h && b > 0 && b - 1 in owner
    ensures owner[b - 1] in h && owner[b - 1] != 0 && owner[b - 1] + h[owner[b - 1]].sz == b
  {
    Belonging(h, owner, b - 1);
    Apart(h, owner, owner[b - 1], b);
  }

  /** A jump stays in its run. */
  lemma JumpBack(h: map<nat, Hdr>, owner: map<nat, nat>, counts: map<nat, nat>, k: nat)
    requires Tiling(h, owner) && CountsOk(h, owner, counts, 0) && k in counts
    ensures 0 < counts[k] <= k && k - counts[k] in owner && owner[k - counts[k]] == owner[k]
  {
    assert CountOk(h, owner, counts, 0, k);
    Belonging(h, owner, k);
    Belongs(h, owner, owner[k], k - counts[k]);
  }

  lemma OneRunBefore(h: map<nat, Hdr>, owner: map<nat, nat>, b: nat)
    requires Tiling(h, owner) && b in h
    ensures forall c :: c in h && c + h[c].sz == b ==> b > 0 && b - 1 in owner && owner[b - 1] == c
  {
    forall c | c in h && c + h[c].sz == b ensures b > 0 && b - 1 in owner && owner[b - 1] == c {
      Positive(h, owner, c);
      Belongs(h, owner, c, b - 1);
    }
  }

  lemma MergeChanges(h: map<nat, Hdr>, h': map<nat, Hdr>, owner: map<nat, nat>, counts: map<nat, nat>, mapped: set<nat>,
                     mapped': set<nat>, b: nat, n: nat)
    requires SpaceOk(h, owner, counts, mapped, 0) && MergeRun(h, h', b, n)
    requires (mapped' == mapped && h[b].unmapped == h[n].unmapped == h'[b].unmapped)
             || Remapped(mapped, mapped', b, n + h[n].sz, h'[b].unmapped)
    ensures Tiling(h, owner)
    ensures FreeSet(h') == FreeSet(h) - {n}
    ensures SpaceOk(h', Reown(owner, b, n + h[n].sz, b), counts, mapped', 0)
    ensures |Reown(owner, b, n + h[n].sz, b)| == |owner|
    ensures Consumed(h, owner, h', Reown(owner, b, n + h[n].sz, b), {})
  {
    SpaceTiling(h, owner, counts, mapped, 0);
    ReownSize(owner, b, n + h[n].sz, b);
    if mapped' == mapped && h[b].unmapped == h[n].unmapped {
      RunsMapped(h, owner, mapped, b);
      RunsMapped(h, owner, mapped, n);
    }
    hide SpaceOk, Tiling, Consumed, Reown;
    SpaceMerge(h, h', owner, counts, mapped, mapped', b, n);
    MergeConsumes(h, h', owner, b, n);
  }

  lemma RunsMapped(h: map<nat, Hdr>, owner: map<nat, nat>, mapped: set<nat>, b: nat)
    requires Tiling(h, owner) && MapOk(h, owner, mapped) && b in h
    ensures forall k :: b <= k < b + h[b].sz ==> (k in mapped <==> !h[b].unmapped)
  {
    forall k | b <= k < b + h[b].sz ensures k in mapped <==> !h[b].unmapped {
      Belongs(h, owner, b, k);
    }
  }

  /** Without unmapped runs, no two free runs are adjacent. */
  ghost predicate Tidy(h: map<nat, Hdr>) {
    AllMapped(h) && Coalesced(h, 0, 0)
  }

  ghost predicate AllMapped(h: map<nat, Hdr>) {
    forall b :: b in h ==> !h[b].unmapped
  }

  /** The runs that start below b are the same. */
  ghost predicate SameBelow(h: map<nat, Hdr>, h': map<nat, Hdr>, b: nat) {
    forall p: nat :: p < b ==> (p in h <==> p in h') && (p in h ==> SameRun(h[p], h'[p]))
  }

  lemma MergedSize(h: map<nat, Hdr>, h': map<nat, Hdr>, b: nat, n: nat)
    requires MergeRun(h, h', b, n)
    ensures b in h && n in h && b in h' && h'[b].sz == h[b].sz + h[n].sz && h'[b].free
  {
  }

  lemma MergeSame(h: map<nat, Hdr>, h': map<nat, Hdr>, b: nat, n: nat)
    requires MergeRun(h, h', b, n)
    ensures SameBelow(h, h', b)
    ensures AllMapped(h) && !h'[b].unmapped ==> AllMapped(h')
  {
  }

  lemma BothMapped(h: map<nat, Hdr>)
    ensures forall b :: b in h && AllMapped(h) ==> !h[b].unmapped
    ensures forall b :: SameBelow(h, h, b)
  {
  }

  lemma NoPairAt(h: map<nat, Hdr>, b: nat)
    requires Coalesced(h, b, b) && !FreePair(h, b)
    ensures Coalesced(h, 0, b)
  {
  }

  lemma NoPairTo(h: map<nat, Hdr>, b: nat)
    requires Coalesced(h, 0, b) && forall c: nat :: FreePair(h, c) ==> c + h[c].sz != b
    ensures Coalesced(h, 0, 0)
  {
  }

  lemma SameThenMerge(h: map<nat, Hdr>, h1: map<nat, Hdr>, h2: map<nat, Hdr>, owner: map<nat, nat>,
                      owner2: map<nat, nat>,
                      b: nat, n: nat)
    requires SameRuns(h, h1) && MergeRun(h1, h2, b, n) && Consumed(h1, owner, h2, owner2, {})
    ensures MergeRun(h, h2, b, n) && Consumed(h, owner, h2, owner2, {})
  {
    SameConsumes(h, h1, owner);
    ConsumedThen(h, owner, h1, owner, {}, h2, owner2, {});
    ghost var none: set<nat> := {};
    assert none + none == none;
  }

  /** The blocks of cells, and no others, have become free; no other used run has changed. */
  ghost predicate Freed(h: map<nat, Hdr>, owner: map<nat, nat>, h': map<nat, Hdr>, owner': map<nat, nat>,
                        cells: set<nat>) {
    && owner'.Keys == owner.Keys
    && FreeCells(h', owner') == FreeCells(h, owner) + cells
    && (forall c: nat :: UsedRun(h', c) ==> UsedRun(h, c) && c !in cells && SameRun(h[c], h'[c]))
    && (forall c: nat :: UsedRun(h, c) && c !in cells ==> UsedRun(h', c))
  }

  lemma FreedThen(h: map<nat, Hdr>, owner: map<nat, nat>, h1: map<nat, Hdr>, owner1: map<nat, nat>, cells: set<nat>,
                  h2: map<nat, Hdr>, owner2: map<nat, nat>)
    requires Freed(h, owner, h1, owner1, cells) && Consumed(h1, owner1, h2, owner2, {})
    ensures Freed(h, owner, h2, owner2, cells)
  {
    hide FreeCells;
  }

  lemma ReleaseFrees(h: map<nat, Hdr>, h': map<nat, Hdr>, owner: map<nat, nat>, b: nat)
    requires Tiling(h, owner) && SameExcept(h, h', b) && !h[b].free && h'[b].free
    ensures Freed(h, owner, h', owner, Blocks(b, h[b].sz))
  {
    ReleaseCells(h, h', owner, b);
    ReleaseUsed(h, h', owner, b);
    hide Tiling, Blocks, FreeCells, UsedRun, SameRun, SameExcept;
  }

  lemma ReleaseUsed(h: map<nat, Hdr>, h': map<nat, Hdr>, owner: map<nat, nat>, b: nat)
    requires Tiling(h, owner) && SameExcept(h, h', b) && h'[b].free
    ensures forall c: nat :: UsedRun(h', c) ==> UsedRun(h, c) && c !in Blocks(b, h[b].sz) && SameRun(h[c], h'[c])
    ensures forall c: nat :: UsedRun(h, c) && c !in Blocks(b, h[b].sz) ==> UsedRun(h', c)
  {
    OwnBlocksOnly(h, owner, b);
    hide Tiling, Blocks;
  }

  lemma OwnBlocksOnly(h: map<nat, Hdr>, owner: map<nat, nat>, b: nat)
    requires Tiling(h, owner) && b in h
    ensures forall c :: c in h ==> (c in Blocks(b, h[b].sz) <==> c == b)
  {
    hide Tiling, Blocks;
    forall c | c in h && c != b ensures c !in Blocks(b, h[b].sz) {
      Positive(h, owner, c);
      Apart(h, owner, b, c);
    }
    Positive(h, owner, b);
  }

  lemma ReleaseCells(h: map<nat, Hdr>, h': map<nat, Hdr>, owner: map<nat, nat>, b: nat)
    requires Tiling(h, owner) && SameExcept(h, h', b) && !h[b].free && h'[b].free
    ensures FreeCells(h', owner) == FreeCells(h, owner) + Blocks(b, h[b].sz)
  {
    RunBlocks(h, owner, b);
    hide Tiling, Blocks;
    forall k | k in owner ensures owner[k] in h { Belonging(h, owner, k); }
  }

  lemma ReleaseChanges(h: map<nat, Hdr>, h': map<nat, Hdr>, owner: map<nat, nat>, counts: map<nat, nat>,
                       mapped: set<nat>,
                       bare: nat, b: nat)
    requires SpaceOk(h, owner, counts, mapped, bare) && b in h && !h[b].free && (bare == 0 || bare == b)
    requires h' == h[b := h[b].(free := true)]
    ensures SpaceOk(h', owner, CountsWithout(counts, b, h[b].sz), mapped, 0)
    ensures b != 0 && !h'[b].unmapped && FreeSet(h') == FreeSet(h) + {b}
    ensures Freed(h, owner, h', owner, Blocks(b, h[b].sz))
    ensures Coalesced(h, 0, 0) ==> Coalesced(h', b, b)
    ensures AllMapped(h) ==> AllMapped(h')
  {
    SpaceTiling(h, owner, counts, mapped, bare);
    Positive(h, owner, b);
    NoNull(h, owner);
    UsedIsMapped(h, owner, mapped, b);
    BareEither(h, owner, counts, mapped, bare, b);
    hide SpaceOk, Tiling, Freed, Coalesced, FreeSet, Blocks;
    SpaceRelease(h, h', owner, CountsWithout(counts, b, h[b].sz), mapped, b);
    ReleaseFrees(h, h', owner, b);
    if Coalesced(h, 0, 0) { ReleaseCoalesced(h, h', b); }
  }

  lemma RunCounts(h: map<nat, Hdr>, owner: map<nat, nat>, counts: map<nat, nat>, mapped: set<nat>, bare: nat, b: nat)
    requires SpaceOk(h, owner, counts, mapped, bare) && b in h && !h[b].free && (bare == 0 || bare == b)
    ensures forall k :: b < k < b + h[b].sz ==> k !in h && (k in counts <==> bare == 0)
  {
    hide Tiling;
    Positive(h, owner, b);
    forall k | b < k < b + h[b].sz ensures k !in h && (k in counts <==> bare == 0) {
      NoStartInside(h, owner, b, k);
      Belongs(h, owner, b, k);
      assert CountOk(h, owner, counts, bare, k);
    }
  }

  lemma BareEither(h: map<nat, Hdr>, owner: map<nat, nat>, counts: map<nat, nat>, mapped: set<nat>, bare: nat, b: nat)
    requires SpaceOk(h, owner, counts, mapped, bare) && b in h && !h[b].free && (bare == 0 || bare == b)
    ensures SpaceOk(h, owner, CountsWithout(counts, b, h[b].sz), mapped, b)
  {
    if bare == 0 {
      SpaceBare(h, owner, counts, mapped, b);
    } else {
      RunCounts(h, owner, counts, mapped, bare, b);
      assert CountsWithout(counts, b, h[b].sz) == counts;
    }
  }

  lemma UsedIsMapped(h: map<nat, Hdr>, owner: map<nat, nat>, mapped: set<nat>, b: nat)
    requires MapOk(h, owner, mapped) && UsedRun(h, b)
    ensures !h[b].unmapped
  {
  }

  lemma PairBelow(h: map<nat, Hdr>, h': map<nat, Hdr>, owner': map<nat, nat>, b: nat, c: nat)
    requires SameBelow(h, h', b) && Tiling(h', owner') && b in h && h[b].free && FreePair(h', c) && c + h'[c].sz == b
    ensures FreePair(h, c) && c + h[c].sz == b
  {
    Positive(h', owner', c);
  }

  lemma PrevStays(h: map<nat, Hdr>, owner: map<nat, nat>, h': map<nat, Hdr>, owner': map<nat, nat>,
                  counts: map<nat, nat>, mapped: set<nat>, b: nat, prev: nat)
    requires SameBelow(h, h', b) && b in h && b in h' && h[b].free && h'[b].free
    requires SpaceOk(h', owner', counts, mapped, 0)
    requires prev != 0 ==> prev < b && prev in h && h[prev].free && prev + h[prev].sz == b
    requires prev == 0 ==> forall c: nat :: FreePair(h, c) ==> c + h[c].sz != b
    ensures prev != 0 ==> prev in h' && h'[prev].free && prev + h'[prev].sz == b
    ensures prev == 0 ==> forall c: nat :: FreePair(h', c) ==> c + h'[c].sz != b
  {
    SpaceTiling(h', owner', counts, mapped, 0);
    hide SpaceOk, Tiling;
    if prev == 0 {
      forall c: nat | FreePair(h', c) && c + h'[c].sz == b ensures false {
        PairBelow(h, h', owner', b, c);
      }
    }
  }

  lemma BackOnList(h: map<nat, Hdr>, h': map<nat, Hdr>, owner: map<nat, nat>, counts: map<nat, nat>, mapped: set<nat>,
                   b: nat)
    requires SpaceOk(h, owner, counts, mapped, 0)
    requires b in h && h'.Keys == h.Keys && h[b].free && SameRun(h[b], h'[b])
    requires forall c :: c in h' && c != b ==> SameRun(h[c], h'[c])
    ensures SpaceOk(h', owner, counts, mapped, 0) && FreeSet(h') == FreeSet(h)
    ensures Consumed(h, owner, h', owner, {})
    ensures Coalesced(h, 0, 0) ==> Coalesced(h', 0, 0)
    ensures AllMapped(h) ==> AllMapped(h')
  {
    SameRunsIntro(h, h', b);
    SpaceSame(h, h', owner, counts, mapped, 0);
    SameConsumes(h, h', owner);
    hide SpaceOk, Consumed, FreeSet;
    if Coalesced(h, 0, 0) { SameCoalesced(h, h', 0, 0); }
  }

  lemma SameRunsIntro(h: map<nat, Hdr>, h': map<nat, Hdr>, b: nat)
    requires b in h && h'.Keys == h.Keys && h[b].free && SameRun(h[b], h'[b])
    requires forall c :: c in h' && c != b ==> SameRun(h[c], h'[c])
    ensures SameRuns(h, h')
  {
  }

  /** The blocks of cells have joined the heap as free ones; used runs are as before. */
  ghost predicate Grown(h: map<nat, Hdr>, owner: map<nat, nat>, h': map<nat, Hdr>, owner': map<nat, nat>,
                        cells: set<nat>) {
    && owner'.Keys == owner.Keys + cells
    && FreeCells(h', owner') == FreeCells(h, owner) + cells
    && (forall c: nat :: UsedRun(h', c) <==> UsedRun(h, c))
    && (forall c: nat :: UsedRun(h', c) ==> SameRun(h[c], h'[c]))
  }

  lemma GrownNothing(h: map<nat, Hdr>, owner: map<nat, nat>, b: nat)
    ensures Grown(h, owner, h, owner, Blocks(b, 0))
  {
  }

  lemma ExtendChanges(h: map<nat, Hdr>, owner: map<nat, nat>, counts: map<nat, nat>, mapped: set<nat>, p: nat, n: nat)
    requires SpaceOk(h, owner, counts, mapped, 0) && p != 0 && n > 0
    requires forall k :: p <= k < p + n ==> k !in owner
    ensures var h' := h[p := Hdr(0, 0, n, false, false)];
      && p !in h && FreeSet(h') == FreeSet(h)
      && SpaceOk(h', Owned(owner, p, n), counts, mapped + Blocks(p, n), p)
      && |Owned(owner, p, n)| == |owner| + n
      && Extended(h, owner, h', Owned(owner, p, n), p, n)
      && (Coalesced(h, 0, 0) ==> Coalesced(h', 0, 0))
      && (AllMapped(h) ==> AllMapped(h'))
  {
    hide SpaceOk, Owned, Blocks, Tiling, Coalesced, FreeCells, OwnBlocks;
    var h' := h[p := Hdr(0, 0, n, false, false)];
    OwnedSize(owner, p, n);
    OwnedBlocks(owner, p, n);
    SpaceExtend(h, owner, counts, mapped, p, n);
    SpaceTiling(h, owner, counts, mapped, 0);
    ExtendFree(h, owner, p, n);
    ExtendApart(h, owner, p, n);
    assert p !in h by { NotBelonging(h, owner, p); }
    hide AllMapped;
    ExtendMapped(h, p, n);
    if Coalesced(h, 0, 0) { ExtendCoalesced(h, h', p, n); }
  }

  lemma NotBelonging(h: map<nat, Hdr>, owner: map<nat, nat>, p: nat)
    requires Tiling(h, owner) && p !in owner
    ensures p !in h
  {
    if p in h {
      Positive(h, owner, p);
      Belongs(h, owner, p, p);
    }
  }

  lemma ExtendMapped(h: map<nat, Hdr>, p: nat, n: nat)
    requires p !in h
    ensures AllMapped(h) ==> AllMapped(h[p := Hdr(0, 0, n, false, false)])
    ensures FreeSet(h[p := Hdr(0, 0, n, false, false)]) == FreeSet(h)
  {
  }

  lemma ExtendApart(h: map<nat, Hdr>, owner: map<nat, nat>, p: nat, n: nat)
    requires Tiling(h, owner) && forall k :: p <= k < p + n ==> k !in owner
    ensures OwnBlocks(h, p, n)
  {
    forall c | c in h ensures c !in Blocks(p, n) {
      Positive(h, owner, c);
      Belongs(h, owner, c, c);
    }
  }

  /** No run of h starts in the n blocks at p. */
  ghost predicate OwnBlocks(h: map<nat, Hdr>, p: nat, n: nat) {
    forall c :: c in h ==> c !in Blocks(p, n)
  }

  lemma ExtendFree(h: map<nat, Hdr>, owner: map<nat, nat>, p: nat, n: nat)
    requires Tiling(h, owner) && p !in h
    requires forall k :: p <= k < p + n ==> k !in owner
    ensures FreeCells(h[p := Hdr(0, 0, n, false, false)], Owned(owner, p, n)) == FreeCells(h, owner)
  {
    OwnedBlocks(owner, p, n);
    hide Tiling, Blocks, Owned;
    forall k | k in owner ensures owner[k] in h && !(p <= k < p + n) { Belonging(h, owner, k); }
  }

  lemma ExtendCoalesced(h: map<nat, Hdr>, h': map<nat, Hdr>, p: nat, n: nat)
    requires p !in h && h' == h[p := Hdr(0, 0, n, false, false)] && Coalesced(h, 0, 0)
    ensures Coalesced(h', 0, 0)
  {
    forall c: nat | FreePair(h', c) ensures FreePair(h, c) {}
  }

  /** The new blocks of cells form one used run, and nothing else has changed. */
  ghost predicate Extended(h: map<nat, Hdr>, owner: map<nat, nat>, h1: map<nat, Hdr>, owner1: map<nat, nat>, p: nat,
                           n: nat) {
    && p !in h && h1 == h[p := Hdr(0, 0, n, false, false)]
    && owner1.Keys == owner.Keys + Blocks(p, n) && FreeCells(h1, owner1) == FreeCells(h, owner)
    && OwnBlocks(h, p, n)
  }

  lemma GrownIntro(h: map<nat, Hdr>, owner: map<nat, nat>, h1: map<nat, Hdr>, owner1: map<nat, nat>,
                   h': map<nat, Hdr>, owner': map<nat, nat>, p: nat, n: nat)
    requires n > 0 && Extended(h, owner, h1, owner1, p, n) && Freed(h1, owner1, h', owner', Blocks(p, n))
    ensures Grown(h, owner, h', owner', Blocks(p, n))
  {
    hide FreeCells, Blocks;
    assert p in Blocks(p, n);
  }

  /** Free runs that remain free are the same as before. */
  ghost predicate SameFree(h: map<nat, Hdr>, h': map<nat, Hdr>) {
    forall c: nat :: c in h' && h'[c].free ==> c in h && SameRun(h[c], h'[c])
  }

  lemma ShatteredNone(h: map<nat, Hdr>, b: nat)
    ensures Shattered(h, b, 0) == h
  {
  }

  lemma ShatteredStep(h: map<nat, Hdr>, b: nat, i: nat)
    ensures Shattered(h, b, i + 1) == Shattered(h, b, i)[b + i := Hdr(0, 0, 1, false, false)]
  {
    hide Shattered, Blocks;
    StepKeys(h, b, i);
    var x, y := Shattered(h, b, i + 1), Shattered(h, b, i)[b + i := Hdr(0, 0, 1, false, false)];
    forall k | k in x ensures x[k] == y[k] {
      ShatteredAt(h, b, i + 1, k);
      if k != b + i { ShatteredAt(h, b, i, k); }
    }
  }

  lemma StepKeys(h: map<nat, Hdr>, b: nat, i: nat)
    ensures Shattered(h, b, i + 1).Keys == Shattered(h, b, i).Keys + {b + i}
  {
    ShatteredKeys(h, b, i);
    ShatteredKeys(h, b, i + 1);
    hide Shattered;
    UnionPlus(h.Keys, Blocks(b, i), b + i);
  }

  lemma UnionPlus(a: set<nat>, b: set<nat>, x: nat)
    ensures a + (b + {x}) == a + b + {x}
  {
  }

  lemma ShatteredKeys(h: map<nat, Hdr>, b: nat, n: nat)
    ensures Shattered(h, b, n).Keys == h.Keys + Blocks(b, n)
  {
  }

  lemma ShatteredAt(h: map<nat, Hdr>, b: nat, n: nat, k: nat)
    requires k in Shattered(h, b, n)
    ensures !(b <= k < b + n) ==> k in h
    ensures Shattered(h, b, n)[k] == if b <= k < b + n then Hdr(0, 0, 1, false, false) else h[k]
  {
  }

  lemma SoloSize(owner: map<nat, nat>, b: nat, n: nat)
    ensures |Solo(owner, b, n)| == |owner|
  {
    assert Solo(owner, b, n).Keys == owner.Keys;
  }

  lemma DropChanges(h: map<nat, Hdr>, h1: map<nat, Hdr>, owner: map<nat, nat>, counts: map<nat, nat>, mapped: set<nat>,
                    b: nat)
    requires SpaceOk(h, owner, counts, mapped, 0) && SameRuns(h, h1) && b in h && h[b].free && !h[b].unmapped
    ensures b in h1 && h1[b].sz == h[b].sz
    ensures var h' := Shattered(h1, b, h[b].sz);
      && SpaceOk(h', Solo(owner, b, h[b].sz), counts, mapped, 0)
      && FreeSet(h') == FreeSet(h) - {b} && SameFree(h, h') && SameListed(h1, h', FreeSet(h) - {b})
      && |Solo(owner, b, h[b].sz)| == |owner|
      && Consumed(h, owner, h', Solo(owner, b, h[b].sz), Blocks(b, h[b].sz))
      && (Coalesced(h, 0, 0) ==> Coalesced(h', 0, 0))
  {
    SpaceSame(h, h1, owner, counts, mapped, 0);
    SpaceTiling(h1, owner, counts, mapped, 0);
    var n := h1[b].sz;
    assert n == h[b].sz && h1[b].free && !h1[b].unmapped;
    SameConsumes(h, h1, owner);
    hide SpaceOk, Tiling, Consumed, Coalesced, Shattered, Solo, FreeSet, Blocks, SameFree;
    SpaceShatter(h1, owner, counts, mapped, b);
    SoloSize(owner, b, n);
    ShatterConsumes(h1, owner, b);
    ConsumedThen(h, owner, h1, owner, {}, Shattered(h1, b, n), Solo(owner, b, n), Blocks(b, n));
    assert {} + Blocks(b, n) == Blocks(b, n);
    ShatterKeepsFree(h, h1, owner, b);
    if Coalesced(h, 0, 0) {
      SameCoalesced(h, h1, 0, 0);
      ShatterCoalesced(h1, owner, b);
    }
  }

  ghost predicate SameListed(h: map<nat, Hdr>, h': map<nat, Hdr>, listed: set<nat>) {
    forall c :: c in listed && c in h ==> c in h' && h'[c] == h[c]
  }

  lemma ShatterKeepsFree(h: map<nat, Hdr>, h1: map<nat, Hdr>, owner: map<nat, nat>, b: nat)
    requires Tiling(h1, owner) && SameRuns(h, h1) && b in h1
    ensures SameFree(h, Shattered(h1, b, h1[b].sz))
    ensures SameListed(h1, Shattered(h1, b, h1[b].sz), FreeSet(h) - {b})
  {
    OwnBlocksOnly(h1, owner, b);
    hide Tiling, FreeSet;
    forall c | c in h1 && c != b ensures !(b <= c < b + h1[b].sz) {
      assert c !in Blocks(b, h1[b].sz);
    }
  }

  lemma FlagFrame(h: map<nat, Hdr>, h': map<nat, Hdr>, heads: seq<nat>, bytes: seq<nat>, lists: seq<seq<nat>>,
                  listed: set<nat>, b: nat)
    requires FreeListsOk(h, heads, bytes, lists, listed, 0, 0) && b in h && b in h'
    requires h' == h[b := h[b].(unmapped := h'[b].unmapped)]
    ensures FreeListsOk(h', heads, bytes, lists, listed, 0, 0)
  {
    ListedKeys(h, heads, bytes, lists, listed, 0, 0);
    hide FreeListsOk;
    FreeListsFrame(h, h', heads, bytes, lists, listed, 0, 0);
  }

  lemma JoinedRun(h0: map<nat, Hdr>, h1: map<nat, Hdr>, h2: map<nat, Hdr>, h3: map<nat, Hdr>, b: nat, n: nat)
    requires b in h0 && n in h0 && n == b + h0[b].sz && b < n && h0[b].free && h0[n].free
    requires b in h1 && h1 == h0[b := h0[b].(unmapped := h1[b].unmapped)]
    requires h2.Keys == h1.Keys - {n} && h2[b].sz == h1[b].sz + h1[n].sz && h2[b].unmapped == h1[b].unmapped
    requires forall c :: c in h2 && c != b ==> SameRun(h1[c], h2[c])
    requires h3.Keys == h2.Keys && h3[b].sz == h2[b].sz && h3[b].free && h3[b].unmapped == h2[b].unmapped
    requires forall c :: c in h3 && c != b ==> SameRun(h2[c], h3[c])
    ensures MergeRun(h0, h3, b, n) && h3[b].unmapped == h1[b].unmapped
  {
  }

  /** Every list has lost blocks at most. */
  ghost predicate Fewer(lists: seq<seq<nat>>, lists': seq<seq<nat>>) {
    |lists| == |lists'| && forall k, c :: 0 <= k < |lists| && c in lists'[k] ==> c in lists[k]
  }

  /** The lists below i have lost blocks at most, and do not hold b. */
  ghost predicate FewerBelow(lists: seq<seq<nat>>, lists': seq<seq<nat>>, i: nat, b: nat) {
    && |lists| == |lists'| && i <= |lists|
    && forall k, c :: 0 <= k < i && c in lists'[k] ==> c in lists[k] && c != b
  }

  /** The free runs of stale are unmapped now, and nothing else has changed. */
  ghost predicate UnmappedOf(h: map<nat, Hdr>, h': map<nat, Hdr>, stale: set<nat>) {
    && h'.Keys == h.Keys
    && forall b :: b in h ==> h'[b] == if h[b].free && b in stale then h[b].(unmapped := true) else h[b]
  }

  /** The 16-bit age is the true one unless the run has been free for very long. */
  lemma ShortAge(last: nat, gcNo: nat, threshold: nat)
    requires last <= gcNo < last + 65536 && threshold < 65536
    ensures (gcNo - last) % 65536 > threshold % 65536 <==> gcNo - last > threshold
  {
  }

  /** All blocks on the lists below i have been visited. */
  ghost predicate Visited(lists: seq<seq<nat>>, i: nat, visited: set<nat>) {
    i <= |lists| && forall k, c :: 0 <= k < i && c in lists[k] ==> c in visited
  }

  /** None of the runs of l has a free run behind it. */
  ghost predicate SettledOn(h: map<nat, Hdr>, l: seq<nat>) {
    forall b :: b in l ==> !FreePair(h, b)
  }

  ghost predicate SettledBelow(s: Snap, i: nat) {
    i <= |s.lists| && forall k :: 0 <= k < i ==> SettledOn(s.h, s.lists[k])
  }

  /** A merge on list i leaves the lists below i settled, for the merged run is too large for them. */
  lemma StillSettled(s: Snap, t: Snap, i: nat, b: nat, n: nat)
    requires MergeRun(s.h, t.h, b, n) && FewerBelow(s.lists, t.lists, i, b)
    ensures SettledBelow(s, i) ==> SettledBelow(t, i)
  {
    forall c: nat | c != b && !FreePair(s.h, c) ensures !FreePair(t.h, c) {}
    hide FreePair, MergeRun;
  }

  lemma NotMergeable(h: map<nat, Hdr>, owner: map<nat, nat>, counts: map<nat, nat>, mapped: set<nat>, b: nat)
    requires SpaceOk(h, owner, counts, mapped, 0) && b in h
    requires b + h[b].sz in h && h[b + h[b].sz].free ==> h[b].sz + h[b + h[b].sz].sz >= SIGN_BLOCKS
    ensures |owner| < SIGN_BLOCKS ==> !FreePair(h, b)
  {
    SpaceTiling(h, owner, counts, mapped, 0);
    hide SpaceOk, Tiling;
    if FreePair(h, b) { PairFits(h, owner, b, b + h[b].sz); }
  }

  lemma AllSettled(s: Snap)
    requires FreeOnLists(s) && SettledBelow(s, N_HBLK_FLS + 1)
    ensures Coalesced(s.h, 0, 0)
  {
    forall b: nat ensures !FreePair(s.h, b) {
      if b in s.h && s.h[b].free { assert SettledOn(s.h, s.lists[FlFromBlocks(s.h[b].sz)]); }
    }
  }

  lemma FewerWithout(h: map<nat, Hdr>, heads: seq<nat>, bytes: seq<nat>, lists: seq<seq<nat>>, listed: set<nat>,
                     i: nat, j: nat)
    requires FreeListsOk(h, heads, bytes, lists, listed, 0, 0) && i < |lists| && j < |lists[i]|
    ensures Fewer(lists, lists[i := Without(lists[i], j)])
  {
    assert ListOk(h, heads[i], bytes[i], lists[i]);
    ListNoDup(h, heads[i], bytes[i], lists[i]);
    WithoutMembers(lists[i], j);
  }

  lemma OnlyListed(h: map<nat, Hdr>, heads: seq<nat>, bytes: seq<nat>, lists: seq<seq<nat>>, listed: set<nat>, b: nat)
    requires FreeListsOk(h, heads, bytes, lists, listed, 0, 0) && b !in listed
    ensures forall k :: 0 <= k < |lists| ==> b !in lists[k]
  {
    hide ListOk, Place;
    assert OnLists(h, lists, listed, 0, 0);
  }

  /** No element of s' is larger than that of s. */
  ghost predicate NoMore(s: seq<nat>, s': seq<nat>) {
    |s| == |s'| && forall i :: 0 <= i < |s| ==> s'[i] <= s[i]
  }

  lemma NoMoreNone(s: seq<nat>)
    ensures NoMore(s, s)
  {
  }

  lemma NoMoreThen(s: seq<nat>, s1: seq<nat>, s2: seq<nat>)
    requires NoMore(s, s1) && NoMore(s1, s2)
    ensures NoMore(s, s2)
  {
  }

  /** From place i on there is at least as much as from place j on, if there was at least as much in each place. */
  lemma {:induction false} SumFromLess(s: seq<nat>, s': seq<nat>, i: nat, j: nat)
    requires NoMore(s, s') && i <= j <= |s|
    ensures SumFrom(s, i) >= SumFrom(s', j)
    decreases |s| - i
  {
    if i < j {
      SumFromNext(s, i);
      SumFromLess(s, s', i + 1, j);
    } else if i < |s| {
      SumFromNext(s, i);
      SumFromNext(s', i);
      SumFromLess(s, s', i + 1, i + 1);
    }
  }

  /** The sum of the elements of s from place i on. */
  ghost function SumFrom(s: seq<nat>, i: nat): nat
    requires i <= |s|
  {
    Sum(s[i..])
  }

  lemma SumFromNext(s: seq<nat>, i: nat)
    requires i < |s|
    ensures SumFrom(s, i) == s[i] + SumFrom(s, i + 1)
  {
    assert s[i..] == [s[i]] + s[i + 1..];
  }

  lemma SumFromEnd(s: seq<nat>)
    ensures SumFrom(s, |s|) == 0
  {
  }

  /** Visiting one more block. */
  lemma UnmappedStep(h0: map<nat, Hdr>, h: map<nat, Hdr>, h': map<nat, Hdr>, b: nat, stale: set<nat>, visited: set<nat>)
    requires UnmappedOf(h0, h, stale * visited) && b in h && h[b].free && b in h' && h' == h[b := h'[b]]
    requires h'[b] == h[b].(unmapped := h[b].unmapped || b in stale)
    ensures UnmappedOf(h0, h', stale * (visited + {b}))
  {
  }

  lemma ListedKeys(h: map<nat, Hdr>, heads: seq<nat>, bytes: seq<nat>, lists: seq<seq<nat>>, listed: set<nat>, x: nat,
                   xi: nat)
    requires FreeListsOk(h, heads, bytes, lists, listed, x, xi)
    ensures listed <= h.Keys && 0 !in listed && |lists| == N_HBLK_FLS + 1
  {
  }

  lemma ListNeighbours(h: map<nat, Hdr>, heads: seq<nat>, bytes: seq<nat>, lists: seq<seq<nat>>, listed: set<nat>,
                       x: nat, xi: nat,
                       b: nat, i: nat, j: nat)
    requires FreeListsOk(h, heads, bytes, lists, listed, x, xi)
    requires i < |lists| && j < |lists[i]| && lists[i][j] == b
    ensures |heads| == |bytes| == |lists| && b in h && bytes[i] >= h[b].sz
    ensures h[b].prev != 0 ==> h[b].prev in h && h[b].prev != h[b].next
    ensures h[b].next != 0 ==> h[b].next in h
    ensures h[b].prev == Before(lists[i], j) && h[b].next == After(lists[i], j)
  {
    assert ListOk(h, heads[i], bytes[i], lists[i]);
    Neighbours(h, heads[i], lists[i], j);
    RemoveOwnList(h, heads[i], bytes[i], lists[i], j);
  }

  lemma HeadInList(h: map<nat, Hdr>, heads: seq<nat>, bytes: seq<nat>, lists: seq<seq<nat>>, listed: set<nat>, x: nat,
                   xi: nat, i: nat)
    requires FreeListsOk(h, heads, bytes, lists, listed, x, xi) && i <= N_HBLK_FLS
    ensures |heads| == |bytes| == |lists|
    ensures heads[i] == if lists[i] == [] then 0 else lists[i][0]
    ensures heads[i] != 0 ==> heads[i] in h && heads[i] in listed
  {
    assert ListOk(h, heads[i], bytes[i], lists[i]);
    Separate(h, lists, listed, x, xi, i, i);
  }
}
