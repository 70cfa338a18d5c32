/**
  Black lists of heap blocks: hash tables with one bit per bucket, scanned a word of
  buckets at a time. Addresses and lengths count heap blocks.
*/
module BlackLists {

  const WORDSZ: nat := 64
  const PHT_ENTRIES: nat := 262144
  const PHT_SIZE: nat := 4096

  /** The bucket of block number h. */
  function PhtHash(h: nat): nat {
    h % PHT_ENTRIES
  }

  predicate BitSet(w: bv64, k: nat)
    requires k < WORDSZ
  {
    (w >> k) & 1 == 1
  }

  /** One bit per bucket. */
  predicate Entry(table: seq<bv64>, index: nat)
    requires |table| == PHT_SIZE && index < PHT_ENTRIES
  {
    BitSet(table[index / WORDSZ], index % WORDSZ)
  }

  /** No bucket of an all-zero word is set. */
  lemma ZeroWord(table: seq<bv64>, index: nat)
    requires |table| == PHT_SIZE && index < PHT_ENTRIES && table[index / WORDSZ] == 0
    ensures !Entry(table, index)
  {
  }

  function WithBit(w: bv64, k: nat): bv64
    requires k < WORDSZ
  {
    w | ((1 as bv64) << k)
  }

  lemma SetBit(w: bv64, k: nat, j: nat)
    requires k < WORDSZ && j < WORDSZ
    ensures BitSet(WithBit(w, k), j) <==> j == k || BitSet(w, j)
  {
    BitOfOr(w, (1 as bv64) << k, j);
    OneBit(k, j);
    EitherBit(w >> j, if j == k then 1 else 0);
  }

  lemma EitherBit(v: bv64, b: bv64)
    requires b <= 1
    ensures (v & 1) | b == 1 <==> v & 1 == 1 || b == 1
  {
  }

  lemma BitOfOr(v: bv64, w: bv64, j: nat)
    requires j < WORDSZ
    ensures ((v | w) >> j) & 1 == ((v >> j) & 1) | ((w >> j) & 1)
  {
  }

  lemma OneBit(k: nat, j: nat)
    requires k < WORDSZ && j < WORDSZ
    ensures (((1 as bv64) << k) >> j) & 1 == if j == k then 1 else 0
  {
    if j < k {
      if k < 32 { LowerBit(k, j); } else { LowerBitOfHigh(k, j); }
    } else if j > k {
      if j < 32 { HigherBit(k, j); } else { HighBit(k, j); }
    }
  }

  lemma LowerBit(k: nat, j: nat)
    requires j < k < 32
    ensures (((1 as bv64) << k) >> j) & 1 == 0
  {
  }

  lemma LowerBitOfHigh(k: nat, j: nat)
    requires j < k && 32 <= k < 64
    ensures (((1 as bv64) << k) >> j) & 1 == 0
  {
  }

  lemma HigherBit(k: nat, j: nat)
    requires k < j < 32
    ensures (((1 as bv64) << k) >> j) & 1 == 0
  {
  }

  lemma HighBit(k: nat, j: nat)
    requires k < j && 32 <= j < 64
    ensures (((1 as bv64) << k) >> j) & 1 == 0
  {
  }

  /** Setting a bit sets exactly one bucket. */
  lemma SetEntry(table: seq<bv64>, index: nat, other: nat)
    requires |table| == PHT_SIZE && index < PHT_ENTRIES && other < PHT_ENTRIES
    ensures var table' := table[index / WORDSZ := WithBit(table[index / WORDSZ], index % WORDSZ)];
      Entry(table', other) <==> other == index || Entry(table, other)
  {
    SetBit(table[index / WORDSZ], index % WORDSZ, other % WORDSZ);
    hide BitSet, WithBit;
  }

  /** A section of the heap: its first block and its length. */
  datatype Section = Section(start: nat, len: nat)

  /** The blocks of a range that a table lists. */
  ghost function ListedIn(table: seq<bv64>, start: nat, n: nat): set<nat>
    requires |table| == PHT_SIZE
  {
    set h: nat | start <= h < start + n && Entry(table, PhtHash(h))
  }

  ghost function ListedInAll(table: seq<bv64>, sects: seq<Section>): nat
    requires |table| == PHT_SIZE
  {
    if sects == [] then 0
    else ListedInAll(table, sects[..|sects| - 1])
         + |ListedIn(table, sects[|sects| - 1].start, sects[|sects| - 1].len)|
  }

  lemma ListedNext(table: seq<bv64>, start: nat, n: nat)
    requires |table| == PHT_SIZE
    ensures |ListedIn(table, start, n + 1)|
         == |ListedIn(table, start, n)| + (if Entry(table, PhtHash(start + n)) then 1 else 0)
  {
    assert ListedIn(table, start, n + 1) ==
      ListedIn(table, start, n) + (if Entry(table, PhtHash(start + n)) then {start + n} else {});
  }

  const MINHINCR: nat := 16
  const MAXHINCR: nat := 2048

  /** The distance, in blocks, at which black-listed blocks are to be expected: an estimate from a
      heap of size blocks of which total are listed, between 3 and MAXHINCR. */
  function Spacing(before: nat, size: nat, total: nat): (r: nat)
    ensures 3 <= r <= MAXHINCR
    ensures total == 0 && 3 <= before <= MAXHINCR ==> r == before
    ensures total != 0 && size < 3 * total ==> r == 3
    ensures total != 0 && size >= MAXHINCR * total ==> r == MAXHINCR
    ensures total != 0 && 3 * total <= size < MAXHINCR * total ==> r * total <= size < (r + 1) * total
  {
    var r := if total != 0 then SpacingBounds(size, total); size / total else before;
    if r < 3 then 3 else if r > MAXHINCR then MAXHINCR else r
  }

  lemma SpacingBounds(size: nat, total: nat)
    requires total != 0
    ensures (size / total) * total <= size < (size / total + 1) * total
    ensures size < 3 * total <==> size / total < 3
    ensures size < MAXHINCR * total <==> size / total < MAXHINCR
  {
    QuotientBounds(size, total, size / total);
    QuotientBelow(size, total, 3);
    QuotientBelow(size, total, MAXHINCR);
  }

  lemma QuotientBelow(size: nat, total: nat, n: nat)
    requires total != 0
    ensures size < n * total <==> size / total < n
  {
    QuotientBounds(size, total, size / total);
    Times(size / total + 1, n, total);
    Times(n, size / total, total);
  }

  lemma QuotientBounds(size: nat, total: nat, q: nat)
    requires total != 0 && q == size / total
    ensures q * total <= size < (q + 1) * total
  {
    assert size == q * total + size % total;
  }

  lemma Times(a: nat, b: nat, total: nat)
    ensures a <= b ==> a * total <= b * total
  {
  }

  function Max1(n: nat): nat {
    if n == 0 then 1 else n
  }

  /** The black lists as sets: blocks at which no object may start, and blocks that no object may touch. */
  datatype Sets = Sets(normal: iset<nat>, stack: iset<nat>) {
    ghost predicate Listed(h: nat, n: nat) {
      h in normal || exists k :: h <= k < h + Max1(n) && k in stack
    }
  }

  class Lists {
    const allInteriorPointers: bool
    var oldNormal: array<bv64>
    var incompleteNormal: array<bv64>
    var oldStack: array<bv64>
    var incompleteStack: array<bv64>
    var spacing: nat               // GC_black_list_spacing, in blocks

    ghost predicate Valid()
      reads this
    {
      && oldNormal.Length == incompleteNormal.Length == oldStack.Length == incompleteStack.Length == PHT_SIZE
      && oldNormal != incompleteNormal && oldStack != incompleteStack
      && oldNormal != oldStack && oldNormal != incompleteStack
      && incompleteNormal != oldStack && incompleteNormal != incompleteStack
    }

    /** A block at which no object may start. */
    ghost predicate NormalListed(h: nat)
      requires Valid()
      reads this, oldNormal, incompleteNormal, oldStack, incompleteStack
    {
      !allInteriorPointers && (Entry(oldNormal[..], PhtHash(h)) || Entry(incompleteNormal[..], PhtHash(h)))
    }

    /** A block that no object may touch. */
    ghost predicate StackListed(h: nat)
      requires Valid()
      reads this, oldNormal, incompleteNormal, oldStack, incompleteStack
    {
      Entry(oldStack[..], PhtHash(h)) || Entry(incompleteStack[..], PhtHash(h))
    }

    /** The block-by-block definition: the run of n blocks at h, at least one of them, is
        black-listed if it starts on a normal bucket or touches a stack bucket. */
    ghost predicate Listed(h: nat, n: nat)
      requires Valid()
      reads this, oldNormal, incompleteNormal, oldStack, incompleteStack
    {
      NormalListed(h) || exists k :: h <= k < h + Max1(n) && StackListed(k)
    }

    ghost function View(): Sets
      requires Valid()
      reads this, oldNormal, incompleteNormal, oldStack, incompleteStack
    {
      Sets(iset h: nat | NormalListed(h), iset h: nat | StackListed(h))
    }

    lemma ViewMeans()
      requires Valid()
      ensures forall h: nat :: h in View().normal <==> NormalListed(h)
      ensures forall h: nat :: h in View().stack <==> StackListed(h)
      ensures forall h: nat, n: nat :: View().Listed(h, n) <==> Listed(h, n)
    {
      forall h: nat, n: nat ensures View().Listed(h, n) <==> Listed(h, n) { ViewListed(h, n); }
    }

    lemma ViewListed(h: nat, n: nat)
      requires Valid()
      ensures View().Listed(h, n) <==> Listed(h, n)
    {
      assert h in View().normal <==> NormalListed(h);
      assert forall k: nat :: k in View().stack <==> StackListed(k);
    }

    /** 0 if the n blocks at h are not black-listed, or else the next start to try: every
        start before it is black-listed as well. Skips words without any set bucket. */
    method IsBlackListed(h: nat, n: nat) returns (r: nat)
      requires Valid()
      ensures r != 0 <==> Listed(h, n)
      ensures r != 0 ==> h < r <= h + Max1(n) && (NormalListed(r - 1) || StackListed(r - 1))
      ensures forall s :: h <= s < r ==> Listed(s, n)
    {
      var index := PhtHash(h);
      if !allInteriorPointers && (Entry(oldNormal[..], index) || Entry(incompleteNormal[..], index)) {
        return h + 1;
      }
      var i := 0;
      while true
        invariant 0 <= i < Max1(n) && index == PhtHash(h + i)
        invariant !NormalListed(h)
        invariant forall k :: h <= k < h + i ==> !StackListed(k)
        decreases Max1(n) - i
      {
        if oldStack[index / WORDSZ] == 0 && incompleteStack[index / WORDSZ] == 0 {
          SkipWord(h + i, index);
          i := i + (WORDSZ - index % WORDSZ);
        } else {
          if Entry(oldStack[..], index) || Entry(incompleteStack[..], index) {
            assert StackListed(h + i);
            return h + i + 1;
          }
          i := i + 1;
        }
        if i >= n {
          break;
        }
        index := PhtHash(h + i);
      }
      r := 0;
    }

    /** Up to the end of a zero word no block is on a stack list. */
    lemma SkipWord(g: nat, index: nat)
      requires Valid() && index == PhtHash(g)
      requires oldStack[index / WORDSZ] == 0 && incompleteStack[index / WORDSZ] == 0
      ensures forall j :: g <= j < g + (WORDSZ - index % WORDSZ) ==> !StackListed(j)
    {
      forall j | g <= j < g + (WORDSZ - index % WORDSZ)
        ensures !StackListed(j)
      {
        SameWord(g, j);
        ZeroWord(oldStack[..], PhtHash(j));
        ZeroWord(incompleteStack[..], PhtHash(j));
      }
    }

    static lemma SameWord(g: nat, j: nat)
      requires g <= j < g + (WORDSZ - PhtHash(g) % WORDSZ)
      ensures PhtHash(j) / WORDSZ == PhtHash(g) / WORDSZ
    {
      assert PhtHash(g) + (j - g) < PHT_ENTRIES;
      assert j % PHT_ENTRIES == PhtHash(g) + (j - g);
    }

    /** Sets the bucket of block h in a table. */
    static method SetPhtEntry(table: array<bv64>, h: nat)
      requires table.Length == PHT_SIZE
      modifies table
      ensures forall index :: 0 <= index < PHT_ENTRIES ==>
        (Entry(table[..], index) <==> index == PhtHash(h) || old(Entry(table[..], index)))
    {
      hide Entry, WithBit;
      var index := PhtHash(h);
      ghost var t := table[..];
      forall other | 0 <= other < PHT_ENTRIES
        ensures Entry(t[index / WORDSZ := WithBit(t[index / WORDSZ], index % WORDSZ)], other) <==>
          other == index || Entry(t, other)
      {
        SetEntry(t, index, other);
      }
      table[index / WORDSZ] := WithBit(table[index / WORDSZ], index % WORDSZ);
      assert table[..] == t[index / WORDSZ := WithBit(t[index / WORDSZ], index % WORDSZ)];
    }

    /** A false pointer into block h has been seen in the heap; an address in a block with a header
        counts only if its bucket is on the old list. */
    method AddNormal(h: nat, hasHeader: bool, validOffset: bool)
      requires Valid()
      modifies incompleteNormal
      ensures Valid()
      ensures forall b: nat :: Entry(incompleteNormal[..], PhtHash(b)) <==>
        || old(Entry(incompleteNormal[..], PhtHash(b)))
        || (PhtHash(b) == PhtHash(h) && validOffset && (hasHeader ==> Entry(oldNormal[..], PhtHash(h))))
      ensures forall b: nat :: NormalListed(b) <==>
        old(NormalListed(b)) || (PhtHash(b) == PhtHash(h) && validOffset && !hasHeader && !allInteriorPointers)
      ensures forall b: nat :: StackListed(b) <==> old(StackListed(b))
    {
      hide Entry;
      if validOffset && (!hasHeader || Entry(oldNormal[..], PhtHash(h))) {
        SetPhtEntry(incompleteNormal, h);
      }
    }

    /** The same for a false pointer from a stack. */
    method AddStack(h: nat, hasHeader: bool)
      requires Valid()
      modifies incompleteStack
      ensures Valid()
      ensures forall b: nat :: Entry(incompleteStack[..], PhtHash(b)) <==>
        || old(Entry(incompleteStack[..], PhtHash(b)))
        || (PhtHash(b) == PhtHash(h) && (hasHeader ==> Entry(oldStack[..], PhtHash(h))))
      ensures forall b: nat :: StackListed(b) <==> old(StackListed(b)) || (PhtHash(b) == PhtHash(h) && !hasHeader)
      ensures forall b: nat :: NormalListed(b) <==> old(NormalListed(b))
    {
      hide Entry;
      if !hasHeader || Entry(oldStack[..], PhtHash(h)) {
        SetPhtEntry(incompleteStack, h);
      }
    }

    /** The number of blocks of a range that are on the old stack list. */
    method NumberStackListed(start: nat, n: nat) returns (r: nat)
      requires Valid()
      ensures r == |ListedIn(oldStack[..], start, n)|
    {
      r := 0;
      assert ListedIn(oldStack[..], start, 0) == {};
      for i := 0 to n
        invariant r == |ListedIn(oldStack[..], start, i)|
      {
        ListedNext(oldStack[..], start, i);
        if Entry(oldStack[..], PhtHash(start + i)) {
          r := r + 1;
        }
      }
    }

    method TotalStackListed(sects: seq<Section>) returns (total: nat)
      requires Valid()
      ensures total == ListedInAll(oldStack[..], sects)
    {
      total := 0;
      for i := 0 to |sects|
        invariant total == ListedInAll(oldStack[..], sects[..i])
      {
        assert sects[..i + 1][..i] == sects[..i];
        var n := NumberStackListed(sects[i].start, sects[i].len);
        total := total + n;
      }
      assert sects[..|sects|] == sects;
    }

    /** The incomplete lists become the old ones; new incomplete lists start empty. The spacing is
        estimated anew for a heap of these sections. */
    method Promote(sects: seq<Section>, heapSize: nat)
      requires Valid()
      modifies this, oldNormal, oldStack
      ensures Valid()
      ensures oldStack == old(incompleteStack) && oldNormal == old(incompleteNormal)
      ensures incompleteStack == old(oldStack) && incompleteNormal == old(oldNormal)
      ensures forall h :: StackListed(h) <==> old(Entry(incompleteStack[..], PhtHash(h)))
      ensures forall h :: NormalListed(h) <==> !allInteriorPointers && old(Entry(incompleteNormal[..], PhtHash(h)))
      ensures spacing == Spacing(old(spacing), heapSize, ListedInAll(oldStack[..], sects))
    {
      hide Entry;
      var veryOldNormal, veryOldStack := oldNormal, oldStack;
      oldNormal := incompleteNormal;
      oldStack := incompleteStack;
      if !allInteriorPointers {
        Clear(veryOldNormal);
      }
      Clear(veryOldStack);
      incompleteNormal := veryOldNormal;
      incompleteStack := veryOldStack;
      var total := TotalStackListed(sects);
      spacing := Spacing(spacing, heapSize, total);
      forall h: nat
        ensures !Entry(incompleteStack[..], PhtHash(h))
        ensures !allInteriorPointers ==> !Entry(incompleteNormal[..], PhtHash(h))
      {
        ZeroWord(incompleteStack[..], PhtHash(h));
        if !allInteriorPointers {
          ZeroWord(incompleteNormal[..], PhtHash(h));
        }
      }
    }

    static method Clear(doomed: array<bv64>)
      modifies doomed
      ensures forall i :: 0 <= i < doomed.Length ==> doomed[i] == 0
    {
      for i := 0 to doomed.Length
        invariant forall j :: 0 <= j < i ==> doomed[j] == 0
      {
        doomed[i] := 0;
      }
    }

    constructor (allInteriorPointers: bool)
      ensures Valid() && this.allInteriorPointers == allInteriorPointers && spacing == MINHINCR
      ensures forall h :: !NormalListed(h) && !StackListed(h)
    {
      this.allInteriorPointers, spacing := allInteriorPointers, MINHINCR;
      oldNormal := new bv64[PHT_SIZE](_ => 0);
      incompleteNormal := new bv64[PHT_SIZE](_ => 0);
      oldStack := new bv64[PHT_SIZE](_ => 0);
      incompleteStack := new bv64[PHT_SIZE](_ => 0);
      new;
      forall h: nat
        ensures !Entry(oldStack[..], PhtHash(h)) && !Entry(incompleteStack[..], PhtHash(h))
        ensures !Entry(oldNormal[..], PhtHash(h)) && !Entry(incompleteNormal[..], PhtHash(h))
      {
        ZeroWord(oldStack[..], PhtHash(h));
        ZeroWord(incompleteStack[..], PhtHash(h));
        ZeroWord(oldNormal[..], PhtHash(h));
        ZeroWord(incompleteNormal[..], PhtHash(h));
      }
    }
  }
}
