/**
  Doubly linked lists of free heap blocks, threaded through block headers, and the map
  from block sizes to list indices. Addresses and sizes count heap blocks; 0 is NULL.
*/
module FreeLists {

  const UNIQUE_THRESHOLD: nat := 32
  const HUGE_THRESHOLD: nat := 256
  const FL_COMPRESSION: nat := 8
  const N_HBLK_FLS: nat := (HUGE_THRESHOLD - UNIQUE_THRESHOLD) / FL_COMPRESSION + UNIQUE_THRESHOLD

  /** Header of the first block of a free or used run of blocks. The links only mean
      something while the run is free. */
  datatype Hdr = Hdr(next: nat, prev: nat, sz: nat, free: bool, unmapped: bool)

  /** The index of the free list for runs of the given size. */
  function FlFromBlocks(blocks: nat): (i: nat)
    ensures i <= N_HBLK_FLS
  {
    if blocks <= UNIQUE_THRESHOLD then blocks
    else if blocks >= HUGE_THRESHOLD then N_HBLK_FLS
    else (blocks - UNIQUE_THRESHOLD) / FL_COMPRESSION + UNIQUE_THRESHOLD
  }

  lemma FlMonotone(a: nat, b: nat)
    requires a <= b
    ensures FlFromBlocks(a) <= FlFromBlocks(b)
  {
  }

  /** Small runs share their list only with runs of the same size. */
  lemma FlUnique(a: nat, b: nat)
    requires FlFromBlocks(a) == FlFromBlocks(b) < UNIQUE_THRESHOLD
    ensures a == b
  {
  }

  function Before(l: seq<nat>, j: nat): nat
    requires j < |l|
  {
    if j == 0 then 0 else l[j - 1]
  }

  function After(l: seq<nat>, j: nat): nat
    requires j < |l|
  {
    if j == |l| - 1 then 0 else l[j + 1]
  }

  /** The list that starts at head runs through exactly the blocks of l, in order. */
  ghost predicate Linked(h: map<nat, Hdr>, head: nat, l: seq<nat>) {
    && head == (if l == [] then 0 else l[0])
    && (forall j :: 0 <= j < |l| ==> l[j] != 0 && l[j] in h)
    && (forall j :: 0 <= j < |l| ==> h[l[j]].prev == Before(l, j))
    && (forall j :: 0 <= j < |l| ==> h[l[j]].next == After(l, j))
  }

  ghost predicate NoDup(l: seq<nat>) {
    forall i, j :: 0 <= i < j < |l| ==> l[i] != l[j]
  }

  function Without(l: seq<nat>, j: nat): seq<nat>
    requires j < |l|
  {
    l[..j] + l[j + 1..]
  }

  lemma WithoutMembers(l: seq<nat>, j: nat)
    requires j < |l| && NoDup(l)
    ensures NoDup(Without(l, j))
    ensures forall x :: x in Without(l, j) <==> x in l && x != l[j]
  {
    var r := Without(l, j);
    forall x | x in l && x != l[j] ensures x in r {
      var i :| 0 <= i < |l| && l[i] == x;
      assert r[if i < j then i else i - 1] == x;
    }
    forall x | x in r ensures x in l && x != l[j] {
      var i :| 0 <= i < |r| && r[i] == x;
      assert l[if i < j then i else i + 1] == x;
    }
  }

  /** What unlinking b does to the headers of its neighbours. */
  function Unlink(h: map<nat, Hdr>, b: nat): map<nat, Hdr>
    requires b in h
  {
    var p, n := h[b].prev, h[b].next;
    var h1 := if p != 0 && p in h then h[p := h[p].(next := n)] else h;
    if n != 0 && n in h1 then h1[n := h1[n].(prev := p)] else h1
  }

  lemma UnlinkKeeps(h: map<nat, Hdr>, b: nat)
    requires b in h
    ensures Unlink(h, b).Keys == h.Keys
    ensures forall c :: c in h ==> SameRun(h[c], Unlink(h, b)[c])
  {
  }

  /** Headers that differ at most in their links. */
  predicate SameRun(x: Hdr, y: Hdr) {
    x.sz == y.sz && x.free == y.free && x.unmapped == y.unmapped
  }

  /** Unlinking b changes one link of each neighbour and nothing else. */
  lemma UnlinkEffect(h: map<nat, Hdr>, b: nat, x: nat)
    requires b in h && x in h && x != b && x != 0
    requires h[b].prev != 0 ==> h[b].prev in h && h[b].prev != h[b].next
    requires h[b].next != 0 ==> h[b].next in h
    ensures x in Unlink(h, b)
    ensures Unlink(h, b)[x].next == if x == h[b].prev then h[b].next else h[x].next
    ensures Unlink(h, b)[x].prev == if x == h[b].next then h[b].prev else h[x].prev
  {
  }

  lemma Neighbours(h: map<nat, Hdr>, head: nat, l: seq<nat>, j: nat)
    requires Linked(h, head, l) && NoDup(l) && j < |l|
    ensures l[j] in h && h[l[j]].prev == Before(l, j) && h[l[j]].next == After(l, j)
    ensures Before(l, j) != 0 ==> Before(l, j) in h && Before(l, j) != After(l, j)
    ensures After(l, j) != 0 ==> After(l, j) in h
    ensures forall o :: 0 <= o < |l| && o != j ==> l[o] != l[j]
    ensures forall o :: 0 <= o < |l| ==> (l[o] == Before(l, j) <==> o + 1 == j)
    ensures forall o :: 0 <= o < |l| ==> (l[o] == After(l, j) <==> o == j + 1)
  {
    assert h[l[j]].prev == Before(l, j) && h[l[j]].next == After(l, j);
    if j > 0 { assert l[j - 1] in h; }
    if j + 1 < |l| { assert l[j + 1] in h; }
  }

  lemma UnlinkLinked(h: map<nat, Hdr>, head: nat, l: seq<nat>, j: nat)
    requires Linked(h, head, l) && NoDup(l) && j < |l|
    ensures Linked(Unlink(h, l[j]), if h[l[j]].prev == 0 then h[l[j]].next else head, Without(l, j))
  {
    hide Unlink, NoDup;
    Neighbours(h, head, l, j);
    var r, h' := Without(l, j), Unlink(h, l[j]);
    forall i | 0 <= i < |r|
      ensures r[i] != 0 && r[i] in h'
      ensures h'[r[i]].prev == Before(r, i)
      ensures h'[r[i]].next == After(r, i)
    {
      var o := if i < j then i else i + 1;
      assert r[i] == l[o];
      assert i > 0 ==> r[i - 1] == l[if i - 1 < j then i - 1 else i];
      assert i + 1 < |r| ==> r[i + 1] == l[if i + 1 < j then i + 1 else i + 2];
      UnlinkEffect(h, l[j], l[o]);
    }
  }

  lemma UnlinkOther(h: map<nat, Hdr>, head: nat, l: seq<nat>, b: nat)
    requires Linked(h, head, l) && b in h && h[b].prev !in l && h[b].next !in l
    ensures Linked(Unlink(h, b), head, l)
  {
    forall i | 0 <= i < |l| ensures l[i] in Unlink(h, b) && Unlink(h, b)[l[i]] == h[l[i]] {
      assert l[i] in l;
    }
  }

  /** What putting b at the front of the list with first element second does. */
  function Link(h: map<nat, Hdr>, b: nat, second: nat): map<nat, Hdr>
    requires b in h
  {
    var h1 := h[b := h[b].(next := second, prev := 0, free := true)];
    if second != 0 && second in h1 then h1[second := h1[second].(prev := b)] else h1
  }

  lemma LinkLinked(h: map<nat, Hdr>, head: nat, l: seq<nat>, b: nat)
    requires Linked(h, head, l) && NoDup(l) && b in h && b != 0 && b !in l
    ensures Linked(Link(h, b, head), b, [b] + l) && NoDup([b] + l)
  {
    var h' := Link(h, b, head);
    var r := [b] + l;
    assert forall i :: 0 < i < |r| ==> r[i] == l[i - 1];
    if l != [] { assert l[0] in l; }
    forall i | 0 < i < |r| ensures r[i] in h' && h'[r[i]].next == h[r[i]].next {
      assert r[i] in l;
    }
  }

  lemma LinkOther(h: map<nat, Hdr>, head: nat, l: seq<nat>, b: nat, second: nat)
    requires Linked(h, head, l) && b in h && b !in l && second !in l
    ensures Linked(Link(h, b, second), head, l)
  {
    forall i | 0 <= i < |l| ensures l[i] in Link(h, b, second) && Link(h, b, second)[l[i]] == h[l[i]] {
      assert l[i] in l;
    }
  }

  // ---------------------------------------------------------------- sizes

  function SizeSum(h: map<nat, Hdr>, l: seq<nat>): nat
    requires forall x :: x in l ==> x in h
  {
    if l == [] then 0 else h[l[0]].sz + SizeSum(h, l[1..])
  }

  lemma {:induction false} SizeSumSame(h: map<nat, Hdr>, h': map<nat, Hdr>, l: seq<nat>)
    requires forall x :: x in l ==> x in h && x in h' && h[x].sz == h'[x].sz
    ensures SizeSum(h, l) == SizeSum(h', l)
  {
    if l != [] {
      SizeSumSame(h, h', l[1..]);
    }
  }

  lemma {:induction false} SizeSumWithout(h: map<nat, Hdr>, l: seq<nat>, j: nat)
    requires j < |l| && forall x :: x in l ==> x in h
    ensures forall x :: x in Without(l, j) ==> x in h
    ensures SizeSum(h, l) == SizeSum(h, Without(l, j)) + h[l[j]].sz
  {
    if j == 0 {
      assert Without(l, 0) == l[1..];
    } else {
      SizeSumWithout(h, l[1..], j - 1);
      assert Without(l, j) == [l[0]] + Without(l[1..], j - 1);
      assert Without(l, j)[1..] == Without(l[1..], j - 1);
    }
  }

  // ---------------------------------------------------------------- all lists together

  ghost predicate AllIn(h: map<nat, Hdr>, l: seq<nat>) {
    forall x :: x in l ==> x in h
  }

  /** One list: linked from its head, without repetition, with the right byte count. */
  ghost predicate ListOk(h: map<nat, Hdr>, head: nat, bytes: nat, l: seq<nat>) {
    Linked(h, head, l) && NoDup(l) && AllIn(h, l) && bytes == SizeSum(h, l)
  }

  /** Where block b belongs: on the list its size selects, except that x is on list xi. */
  function Place(h: map<nat, Hdr>, b: nat, x: nat, xi: nat): nat
    requires b in h
  {
    if b == x then xi else FlFromBlocks(h[b].sz)
  }

  /** The lists hold exactly the blocks of listed, each where it belongs. */
  ghost predicate OnLists(h: map<nat, Hdr>, lists: seq<seq<nat>>, listed: set<nat>, x: nat, xi: nat) {
    && listed <= h.Keys && 0 !in listed
    && |lists| == N_HBLK_FLS + 1 && xi <= N_HBLK_FLS
    && (forall b :: b in listed ==> b in lists[Place(h, b, x, xi)])
    && (forall i, b :: 0 <= i < |lists| && b in lists[i] ==> b in listed && i == Place(h, b, x, xi))
  }

  ghost predicate FreeListsOk(h: map<nat, Hdr>, heads: seq<nat>, bytes: seq<nat>, lists: seq<seq<nat>>,
                              listed: set<nat>, x: nat, xi: nat)
  {
    && |heads| == |bytes| == |lists| == N_HBLK_FLS + 1
    && OnLists(h, lists, listed, x, xi)
    && (forall i :: 0 <= i < |lists| ==> ListOk(h, heads[i], bytes[i], lists[i]))
  }

  lemma InSeq(l: seq<nat>, b: nat) returns (j: nat)
    requires b in l
    ensures j < |l| && l[j] == b
  {
    j :| 0 <= j < |l| && l[j] == b;
  }

  /** Headers that differ at most in their flags. */
  predicate SameLinks(x: Hdr, y: Hdr) {
    x.next == y.next && x.prev == y.prev && x.sz == y.sz
  }

  /** Only the links and sizes of the listed blocks matter, and an unlisted exception does not. */
  lemma FreeListsFrame(h: map<nat, Hdr>, h': map<nat, Hdr>, heads: seq<nat>, bytes: seq<nat>, lists: seq<seq<nat>>,
                       listed: set<nat>, x: nat, xi: nat)
    requires FreeListsOk(h, heads, bytes, lists, listed, x, xi)
    requires forall b :: b in listed ==> b in h' && SameLinks(h[b], h'[b])
    ensures FreeListsOk(h', heads, bytes, lists, listed, x, xi)
    ensures x !in listed ==> FreeListsOk(h', heads, bytes, lists, listed, 0, 0)
  {
    MembershipFrame(h, h', lists, listed, x, xi);
    if x !in listed { NoException(h', lists, listed, x, xi); }
    hide ListOk;
    forall i | 0 <= i < |lists|
      ensures ListOk(h', heads[i], bytes[i], lists[i])
    {
      Separate(h, lists, listed, x, xi, i, i);
      ListFrame(h, h', heads[i], bytes[i], lists[i]);
    }
  }

  lemma MembershipFrame(h: map<nat, Hdr>, h': map<nat, Hdr>, lists: seq<seq<nat>>, listed: set<nat>, x: nat, xi: nat)
    requires OnLists(h, lists, listed, x, xi)
    requires forall b :: b in listed ==> b in h' && h'[b].sz == h[b].sz
    ensures OnLists(h', lists, listed, x, xi)
  {
    forall b | b in listed ensures b in lists[Place(h', b, x, xi)] {
      assert b in lists[Place(h, b, x, xi)];
    }
    forall i, b | 0 <= i < |lists| && b in lists[i] ensures b in listed && i == Place(h', b, x, xi) {
      assert b in listed && i == Place(h, b, x, xi);
    }
  }

  lemma NoException(h: map<nat, Hdr>, lists: seq<seq<nat>>, listed: set<nat>, x: nat, xi: nat)
    requires OnLists(h, lists, listed, x, xi) && x !in listed
    ensures OnLists(h, lists, listed, 0, 0)
  {
    forall b | b in listed ensures Place(h, b, 0, 0) == Place(h, b, x, xi) {}
    forall i, b | 0 <= i < |lists| && b in lists[i] ensures b in listed && i == Place(h, b, 0, 0) {
      assert b in listed && i == Place(h, b, x, xi);
    }
  }

  /** Lists hold no NULL and no unlisted block, and no block is on two of them. */
  lemma Separate(h: map<nat, Hdr>, lists: seq<seq<nat>>, listed: set<nat>, x: nat, xi: nat, i: nat, k: nat)
    requires OnLists(h, lists, listed, x, xi) && i < |lists| && k < |lists|
    ensures 0 !in lists[k]
    ensures forall b :: b in lists[k] ==> b in listed
    ensures i != k ==> forall b :: b in lists[i] ==> b !in lists[k]
  {
    forall b | b in lists[i] ensures i == Place(h, b, x, xi) {}
    forall b | b in lists[k] ensures k == Place(h, b, x, xi) {}
  }

  lemma ListFrame(h: map<nat, Hdr>, h': map<nat, Hdr>, head: nat, bytes: nat, l: seq<nat>)
    requires ListOk(h, head, bytes, l)
    requires forall b :: b in l ==> b in h' && SameLinks(h[b], h'[b])
    ensures ListOk(h', head, bytes, l)
  {
    SizeSumSame(h, h', l);
    forall j | 0 <= j < |l| ensures l[j] in h' && SameLinks(h[l[j]], h'[l[j]]) { assert l[j] in l; }
  }

  lemma RemoveOwnList(h: map<nat, Hdr>, head: nat, bytes: nat, l: seq<nat>, j: nat)
    requires ListOk(h, head, bytes, l) && j < |l|
    ensures bytes >= h[l[j]].sz
    ensures ListOk(Unlink(h, l[j]), if h[l[j]].prev == 0 then h[l[j]].next else head, bytes - h[l[j]].sz, Without(l, j))
  {
    var h', r := Unlink(h, l[j]), Without(l, j);
    WithoutMembers(l, j);
    UnlinkLinked(h, head, l, j);
    UnlinkKeeps(h, l[j]);
    SizeSumWithout(h, l, j);
    SizeSumSame(h, h', r);
  }

  lemma RemoveOtherList(h: map<nat, Hdr>, head: nat, bytes: nat, l: seq<nat>, b: nat)
    requires ListOk(h, head, bytes, l) && b in h && h[b].prev !in l && h[b].next !in l
    ensures ListOk(Unlink(h, b), head, bytes, l)
  {
    UnlinkOther(h, head, l, b);
    UnlinkKeeps(h, b);
    SizeSumSame(h, Unlink(h, b), l);
  }

  /** Removing a listed block from its list. */
  lemma FreeListsRemove(h: map<nat, Hdr>, heads: seq<nat>, bytes: seq<nat>, lists: seq<seq<nat>>,
                        listed: set<nat>, x: nat, xi: nat, b: nat, i: nat, j: nat)
    requires FreeListsOk(h, heads, bytes, lists, listed, x, xi)
    requires b in listed && i == Place(h, b, x, xi) && j < |lists[i]| && lists[i][j] == b
    ensures bytes[i] >= h[b].sz
    ensures FreeListsOk(Unlink(h, b), heads[i := if h[b].prev == 0 then h[b].next else heads[i]],
                        bytes[i := bytes[i] - h[b].sz], lists[i := Without(lists[i], j)], listed - {b}, x, xi)
  {
    assert ListOk(h, heads[i], bytes[i], lists[i]);
    ListNoDup(h, heads[i], bytes[i], lists[i]);
    hide ListOk, Unlink, Without;
    RemoveOwnList(h, heads[i], bytes[i], lists[i], j);
    UnlinkKeeps(h, b);
    WithoutMembers(lists[i], j);
    RemoveMembership(h, lists, listed, x, xi, b, i, j);
    forall k | 0 <= k < |lists| && k != i
      ensures ListOk(Unlink(h, b), heads[k], bytes[k], lists[k])
    {
      assert ListOk(h, heads[k], bytes[k], lists[k]);
      NeighboursElsewhere(h, heads, bytes, lists, listed, x, xi, i, j, k);
      RemoveOtherList(h, heads[k], bytes[k], lists[k], b);
    }
  }

  lemma ListNoDup(h: map<nat, Hdr>, head: nat, bytes: nat, l: seq<nat>)
    requires ListOk(h, head, bytes, l)
    ensures NoDup(l)
  {
  }

  lemma RemoveMembership(h: map<nat, Hdr>, lists: seq<seq<nat>>, listed: set<nat>, x: nat, xi: nat, b: nat, i: nat,
                         j: nat)
    requires OnLists(h, lists, listed, x, xi)
    requires b in listed && i == Place(h, b, x, xi) && j < |lists[i]| && lists[i][j] == b && NoDup(lists[i])
    ensures OnLists(Unlink(h, b), lists[i := Without(lists[i], j)], listed - {b}, x, xi)
  {
    hide Unlink, Without, NoDup;
    UnlinkKeeps(h, b);
    WithoutMembers(lists[i], j);
    var h', lists' := Unlink(h, b), lists[i := Without(lists[i], j)];
    forall c | c in listed - {b} ensures c in lists'[Place(h', c, x, xi)] {
      assert Place(h', c, x, xi) == Place(h, c, x, xi);
    }
    forall k, c | 0 <= k < |lists'| && c in lists'[k] ensures c in listed - {b} && k == Place(h', c, x, xi) {
      assert c in lists[k];
    }
  }

  /** The neighbours of a block are on its own list. */
  lemma NeighboursElsewhere(h: map<nat, Hdr>, heads: seq<nat>, bytes: seq<nat>, lists: seq<seq<nat>>,
                            listed: set<nat>, x: nat, xi: nat, i: nat, j: nat, k: nat)
    requires FreeListsOk(h, heads, bytes, lists, listed, x, xi)
    requires i < |lists| && j < |lists[i]| && k < |lists| && k != i
    ensures lists[i][j] in h
    ensures h[lists[i][j]].prev !in lists[k] && h[lists[i][j]].next !in lists[k]
  {
    NeighbourMembers(h, heads[i], bytes[i], lists[i], j);
    hide ListOk, Place;
    Separate(h, lists, listed, x, xi, i, k);
  }

  lemma NeighbourMembers(h: map<nat, Hdr>, head: nat, bytes: nat, l: seq<nat>, j: nat)
    requires ListOk(h, head, bytes, l) && j < |l|
    ensures l[j] in h
    ensures h[l[j]].prev == 0 || h[l[j]].prev in l
    ensures h[l[j]].next == 0 || h[l[j]].next in l
  {
    Neighbours(h, head, l, j);
  }

  /** Adding a block at the front of the list its size selects. */
  lemma FreeListsAdd(h: map<nat, Hdr>, heads: seq<nat>, bytes: seq<nat>, lists: seq<seq<nat>>,
                     listed: set<nat>, x: nat, xi: nat, b: nat, i: nat)
    requires FreeListsOk(h, heads, bytes, lists, listed, x, xi)
    requires b in h && b !in listed && b != 0 && b != x && i == FlFromBlocks(h[b].sz)
    ensures FreeListsOk(Link(h, b, heads[i]), heads[i := b], bytes[i := bytes[i] + h[b].sz],
                        lists[i := [b] + lists[i]], listed + {b}, x, xi)
  {
    hide ListOk, Link;
    var h' := Link(h, b, heads[i]);
    assert ListOk(h, heads[i], bytes[i], lists[i]);
    LinkKeeps(h, b, heads[i]);
    HeadMember(h, heads[i], bytes[i], lists[i]);
    AddOwnList(h, heads[i], bytes[i], lists[i], b);
    AddMembership(h, lists, listed, x, xi, b, i, heads[i]);
    forall k | 0 <= k < |lists| && k != i
      ensures ListOk(h', heads[k], bytes[k], lists[k])
    {
      assert ListOk(h, heads[k], bytes[k], lists[k]);
      Separate(h, lists, listed, x, xi, i, k);
      AddOtherList(h, heads[k], bytes[k], lists[k], b, heads[i]);
    }
  }

  lemma HeadMember(h: map<nat, Hdr>, head: nat, bytes: nat, l: seq<nat>)
    requires ListOk(h, head, bytes, l)
    ensures head == 0 || head in l
  {
  }

  lemma LinkKeeps(h: map<nat, Hdr>, b: nat, second: nat)
    requires b in h
    ensures Link(h, b, second).Keys == h.Keys
    ensures forall c :: c in h && c != b ==> SameRun(h[c], Link(h, b, second)[c])
    ensures h[b].sz == Link(h, b, second)[b].sz && h[b].unmapped == Link(h, b, second)[b].unmapped
    ensures Link(h, b, second)[b].free
  {
  }

  lemma AddOwnList(h: map<nat, Hdr>, head: nat, bytes: nat, l: seq<nat>, b: nat)
    requires ListOk(h, head, bytes, l) && b in h && b != 0 && b !in l
    ensures ListOk(Link(h, b, head), b, bytes + h[b].sz, [b] + l)
  {
    LinkLinked(h, head, l, b);
    LinkKeeps(h, b, head);
    SizeSumSame(h, Link(h, b, head), l);
    assert ([b] + l)[1..] == l;
  }

  lemma AddOtherList(h: map<nat, Hdr>, head: nat, bytes: nat, l: seq<nat>, b: nat, second: nat)
    requires ListOk(h, head, bytes, l) && b in h && b !in l && second !in l
    ensures ListOk(Link(h, b, second), head, bytes, l)
  {
    LinkOther(h, head, l, b, second);
    LinkKeeps(h, b, second);
    SizeSumSame(h, Link(h, b, second), l);
  }

  lemma AddMembership(h: map<nat, Hdr>, lists: seq<seq<nat>>, listed: set<nat>, x: nat, xi: nat, b: nat, i: nat,
                      second: nat)
    requires OnLists(h, lists, listed, x, xi)
    requires b in h && b !in listed && b != 0 && b != x && i == FlFromBlocks(h[b].sz)
    ensures OnLists(Link(h, b, second), lists[i := [b] + lists[i]], listed + {b}, x, xi)
  {
    LinkKeeps(h, b, second);
  }

  // ---------------------------------------------------------------- replacing

  function With(l: seq<nat>, j: nat, t: nat): seq<nat>
    requires j < |l|
  {
    l[j := t]
  }

  /** What putting a new header at t in the place of b does to the links. */
  function Replace(h: map<nat, Hdr>, b: nat, t: nat, size: nat): map<nat, Hdr>
    requires b in h
  {
    var p, n := h[b].prev, h[b].next;
    var h1 := h[t := Hdr(n, p, size, false, false)];
    var h2 := if p != 0 && p in h1 then h1[p := h1[p].(next := t)] else h1;
    if n != 0 && n in h2 then h2[n := h2[n].(prev := t)] else h2
  }

  lemma ReplaceEffect(h: map<nat, Hdr>, b: nat, t: nat, size: nat, x: nat)
    requires b in h && t !in h && x in h && x != 0
    requires h[b].prev != 0 ==> h[b].prev in h && h[b].prev != h[b].next
    requires h[b].next != 0 ==> h[b].next in h
    ensures x in Replace(h, b, t, size)
    ensures Replace(h, b, t, size)[x].next == if x == h[b].prev then t else h[x].next
    ensures Replace(h, b, t, size)[x].prev == if x == h[b].next then t else h[x].prev
  {
  }

  lemma ReplaceKeeps(h: map<nat, Hdr>, b: nat, t: nat, size: nat)
    requires b in h && t !in h && (h[b].prev != 0 ==> h[b].prev in h) && (h[b].next != 0 ==> h[b].next in h)
    ensures Replace(h, b, t, size).Keys == h.Keys + {t}
    ensures Replace(h, b, t, size)[t] == Hdr(h[b].next, h[b].prev, size, false, false)
    ensures forall c :: c in h ==> SameRun(h[c], Replace(h, b, t, size)[c])
  {
  }

  lemma ReplaceLinked(h: map<nat, Hdr>, head: nat, l: seq<nat>, j: nat, t: nat, size: nat)
    requires Linked(h, head, l) && NoDup(l) && j < |l| && t !in h && t != 0
    ensures Linked(Replace(h, l[j], t, size), if h[l[j]].prev == 0 then t else head, With(l, j, t))
  {
    hide Replace, NoDup;
    Neighbours(h, head, l, j);
    var r, h' := With(l, j, t), Replace(h, l[j], t, size);
    ReplaceKeeps(h, l[j], t, size);
    forall i | 0 <= i < |r|
      ensures r[i] != 0 && r[i] in h'
      ensures h'[r[i]].prev == Before(r, i)
      ensures h'[r[i]].next == After(r, i)
    {
      if i != j { ReplaceEffect(h, l[j], t, size, l[i]); }
    }
  }

  lemma {:induction false} SizeSumReplace(h: map<nat, Hdr>, h': map<nat, Hdr>, l: seq<nat>, j: nat, t: nat)
    requires j < |l| && NoDup(l) && t in h' && forall x :: x in l ==> x in h && x in h' && h[x].sz == h'[x].sz
    ensures forall x :: x in With(l, j, t) ==> x in h'
    ensures SizeSum(h', With(l, j, t)) + h[l[j]].sz == SizeSum(h, l) + h'[t].sz
  {
    if j == 0 {
      assert With(l, 0, t)[1..] == l[1..];
      SizeSumSame(h, h', l[1..]);
    } else {
      SizeSumReplace(h, h', l[1..], j - 1, t);
      assert With(l, j, t)[1..] == With(l[1..], j - 1, t);
    }
  }

  lemma ReplaceOwnList(h: map<nat, Hdr>, head: nat, bytes: nat, l: seq<nat>, j: nat, t: nat, size: nat)
    requires ListOk(h, head, bytes, l) && j < |l| && t !in h && t != 0
    requires l[j] in h && size <= h[l[j]].sz
    ensures bytes >= h[l[j]].sz
    ensures ListOk(Replace(h, l[j], t, size), if h[l[j]].prev == 0 then t else head,
                   bytes - h[l[j]].sz + size, With(l, j, t))
  {
    NeighbourMembers(h, head, bytes, l, j);
    RemoveOwnList(h, head, bytes, l, j);
    ReplaceLinked(h, head, l, j, t, size);
    ReplaceKeeps(h, l[j], t, size);
    hide Replace, Linked;
    SizeSumReplace(h, Replace(h, l[j], t, size), l, j, t);
  }

  lemma ReplaceOtherList(h: map<nat, Hdr>, head: nat, bytes: nat, l: seq<nat>, b: nat, t: nat, size: nat)
    requires ListOk(h, head, bytes, l) && b in h && h[b].prev !in l && h[b].next !in l && t !in h
    ensures ListOk(Replace(h, b, t, size), head, bytes, l)
  {
    ListFrame(h, Replace(h, b, t, size), head, bytes, l);
  }

  /** Putting t in the place of the j-th block of list i, whatever its size. */
  lemma FreeListsReplace(h: map<nat, Hdr>, heads: seq<nat>, bytes: seq<nat>, lists: seq<seq<nat>>,
                         listed: set<nat>, b: nat, i: nat, j: nat, t: nat, size: nat)
    requires FreeListsOk(h, heads, bytes, lists, listed, 0, 0)
    requires b in listed && i == Place(h, b, 0, 0) && j < |lists[i]| && lists[i][j] == b
    requires t !in h && t != 0 && size <= h[b].sz
    ensures bytes[i] >= h[b].sz
    ensures FreeListsOk(Replace(h, b, t, size), heads[i := if h[b].prev == 0 then t else heads[i]],
                        bytes[i := bytes[i] - h[b].sz + size], lists[i := With(lists[i], j, t)],
                        listed - {b} + {t}, t, i)
  {
    assert ListOk(h, heads[i], bytes[i], lists[i]);
    ListNoDup(h, heads[i], bytes[i], lists[i]);
    NeighbourMembers(h, heads[i], bytes[i], lists[i], j);
    ReplaceMembership(h, lists, listed, b, i, j, t, size);
    hide ListOk, Replace;
    ReplaceOwnList(h, heads[i], bytes[i], lists[i], j, t, size);
    forall k | 0 <= k < |lists| && k != i
      ensures ListOk(Replace(h, b, t, size), heads[k], bytes[k], lists[k])
    {
      assert ListOk(h, heads[k], bytes[k], lists[k]);
      NeighboursElsewhere(h, heads, bytes, lists, listed, 0, 0, i, j, k);
      ReplaceOtherList(h, heads[k], bytes[k], lists[k], b, t, size);
    }
  }

  lemma ReplaceMembership(h: map<nat, Hdr>, lists: seq<seq<nat>>, listed: set<nat>, b: nat, i: nat, j: nat, t: nat,
                          size: nat)
    requires OnLists(h, lists, listed, 0, 0)
    requires b in listed && i == Place(h, b, 0, 0) && j < |lists[i]| && lists[i][j] == b && NoDup(lists[i])
    requires (h[b].prev != 0 ==> h[b].prev in h) && (h[b].next != 0 ==> h[b].next in h)
    requires t !in h && t != 0
    ensures OnLists(Replace(h, b, t, size), lists[i := With(lists[i], j, t)], listed - {b} + {t}, t, i)
  {
    ReplaceKeeps(h, b, t, size);
    UpdatedMembers(lists[i], j, t);
    hide Replace, NoDup;
    var h', lists' := Replace(h, b, t, size), lists[i := With(lists[i], j, t)];
    forall c | c in listed - {b} + {t} ensures c in lists'[Place(h', c, t, i)] {
      if c != t { assert c in lists[Place(h, c, 0, 0)]; }
    }
    forall k, c | 0 <= k < |lists'| && c in lists'[k] ensures c in listed - {b} + {t} && k == Place(h', c, t, i) {
      assert c != t ==> c in lists[k];
      assert t !in lists[k];
    }
  }

  lemma UpdatedMembers(l: seq<nat>, j: nat, t: nat)
    requires j < |l| && NoDup(l)
    ensures forall x :: x in With(l, j, t) <==> x == t || (x in l && x != l[j])
  {
    var r := With(l, j, t);
    assert r[j] == t;
    forall x | x in l && x != l[j] ensures x in r {
      var i :| 0 <= i < |l| && l[i] == x;
      assert r[i] == x;
    }
  }
}
