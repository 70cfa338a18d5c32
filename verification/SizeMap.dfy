/**
  The map from small request sizes in bytes to object sizes in granules: filled for the tiny
  sizes at the start, and section by section on demand.
*/
module SizeMap {

  const GRANULE_BYTES: nat := 16
  const MAXOBJBYTES: nat := 2048
  const MAXOBJGRANULES: nat := 128
  const HBLK_GRANULES: nat := 256
  const TINY_FREELISTS: nat := 25

  /** The granules that a request of n bytes takes, with the extra bytes at its end. */
  function RoundedUpGranules(n: nat, extra: nat): nat {
    (n + GRANULE_BYTES - 1 + extra) / GRANULE_BYTES
  }

  function Even(n: nat): nat {
    n / 2 * 2
  }

  predicate Filled(s: seq<nat>, n: int) {
    0 <= n < |s| && s[n] != 0
  }

  /** Every filled entry is large enough for its size, and not too large for the free lists. */
  ghost predicate Fits(s: seq<nat>, extra: nat) {
    forall n: nat :: Filled(s, n) ==> s[n] * GRANULE_BYTES >= n + extra && s[n] <= MAXOBJGRANULES
  }

  predicate Tiny(n: nat, extra: nat) {
    n + extra <= (TINY_FREELISTS - 1) * GRANULE_BYTES
  }

  ghost predicate TinyFilled(s: seq<nat>, extra: nat) {
    forall n: nat :: Tiny(n, extra) ==> Filled(s, n)
  }

  /** Whatever fits in the object size of a filled entry is filled as well, from that entry on. */
  ghost predicate Reaches(s: seq<nat>, extra: nat) {
    forall a: nat, n: nat :: Filled(s, a) && a <= n && n + extra <= s[a] * GRANULE_BYTES ==> Filled(s, n)
  }

  /** A larger request never gets a smaller object. */
  ghost predicate Monotone(s: seq<nat>) {
    forall a: nat, b: nat :: Filled(s, a) && Filled(s, b) && a < b ==> s[a] <= s[b]
  }

  /** A filled section that ends at n is at least n/4 long. */
  ghost predicate LongSections(s: seq<nat>) {
    forall n: nat, k: nat :: Filled(s, n) && !Filled(s, n + 1) && k <= n && 3 * n < 4 * k ==> Filled(s, k)
  }

  ghost predicate Ok(s: seq<nat>, extra: nat) {
    && |s| == MAXOBJBYTES + 1 && extra <= 1
    && Fits(s, extra) && TinyFilled(s, extra) && Reaches(s, extra) && Monotone(s) && LongSections(s)
  }

  // ---------------------------------------------------------------- arithmetic of one extension

  /** An object size that uses a block as well as size g does: an even number of granules, as
      large as possible without fewer objects in the block. */
  function Fitted(g: nat): nat
    requires g > 0
  {
    var size := if Even(g + 1) > MAXOBJGRANULES then MAXOBJGRANULES else Even(g + 1);
    Even(HBLK_GRANULES / (HBLK_GRANULES / size))
  }

  /** Objects of the size that n shares of a block have are at least as large as what n was
      computed from, and n is at least 2. */
  lemma Share(size: nat)
    requires 0 < size <= MAXOBJGRANULES
    ensures var n := HBLK_GRANULES / size; n > 0 && size <= HBLK_GRANULES / n <= MAXOBJGRANULES
  {
    var n := HBLK_GRANULES / size;
    Quotient(HBLK_GRANULES, size, 2);
    Quotient(HBLK_GRANULES, n, size);
    var q := HBLK_GRANULES / n;
    assert q * n <= HBLK_GRANULES;
    Products(2, n, q);
  }

  /** A number that k times d fits in holds d at least k times. */
  lemma {:induction false} Quotient(total: nat, d: nat, k: nat)
    requires d > 0 && k * d <= total
    ensures k <= total / d
  {
    var q := total / d;
    assert total == q * d + total % d;
    assert (q + 1) * d == q * d + d;
    if q < k { Products(q + 1, k, d); }
  }

  lemma {:induction false} Products(x: nat, y: nat, m: nat)
    requires x <= y
    ensures m * x == x * m <= y * m == m * y
  {
    if x < y {
      Products(x, y - 1, m);
      assert y * m == (y - 1) * m + m;
    }
  }

  lemma FittedOk(g: nat)
    requires g > 0
    ensures Fitted(g) <= MAXOBJGRANULES && Fitted(g) % 2 == 0
    ensures (if g <= MAXOBJGRANULES then g else MAXOBJGRANULES) <= Fitted(g)
  {
    var size := if Even(g + 1) > MAXOBJGRANULES then MAXOBJGRANULES else Even(g + 1);
    Share(size);
    var whole := HBLK_GRANULES / (HBLK_GRANULES / size);
    assert Fitted(g) == Even(whole) && size % 2 == 0;
  }

  /** Larger objects, fewer of them. */
  lemma QuotientFalls(total: nat, x: nat, y: nat)
    requires 0 < x <= y
    ensures total / y <= total / x
  {
    var k := total / y;
    assert k * y <= total;
    Products(x, y, k);
    Quotient(total, x, k);
  }

  /** As many objects fit in a block as of the size asked for, made even, and no larger even size
      has that many. */
  lemma FittedIsLargest(g: nat, other: nat)
    requires 0 < g <= MAXOBJGRANULES && other > 0 && other % 2 == 0
    ensures Fitted(g) > 0
    ensures HBLK_GRANULES / Fitted(g) == HBLK_GRANULES / Even(g + 1)
    ensures other > Fitted(g) ==> HBLK_GRANULES / other < HBLK_GRANULES / Even(g + 1)
  {
    var size := Even(g + 1);
    FittedOk(g);
    assert size > 0 && size <= MAXOBJGRANULES && size % 2 == 0;
    Share(size);
    var n := HBLK_GRANULES / size;
    var q := HBLK_GRANULES / n;
    assert Fitted(g) == Even(q);
    assert q * n <= HBLK_GRANULES;
    Products(Even(q), q, n);
    Quotient(HBLK_GRANULES, Even(q), n);
    QuotientFalls(HBLK_GRANULES, size, Even(q));
    NoMore(other, n, q);
  }

  /** The rule for an extension of map s at entry i: if the entry an eighth below the size of i is not
      filled, start at the first unfilled place from a quarter below on, with the size of i; otherwise
      at the first one above that entry, with an eighth more than the size there, or the size of i. */
  ghost predicate Chosen(s: seq<nat>, extra: nat, i: nat, low: nat, size: nat)
    requires i + extra <= 2048 < |s|
  {
    var want := (i + extra + 15) / 16;
    var apart := s[14 * want] == 0;
    && (if apart then 12 * want else 14 * want + 1) <= low < |s| && s[low] == 0
    && (forall k :: (if apart then 12 * want else 14 * want + 1) <= k < low ==> s[k] != 0)
    && (apart ==> size == want)
    && (!apart ==> size == AnEighthMore(want, (low + extra + 15) / 16))
  }

  /** g made even, but not larger than the largest size. */
  function EvenSize(g: nat): (r: nat)
    ensures g > 0 ==> r > 0
  {
    if Even(g + 1) > MAXOBJGRANULES then MAXOBJGRANULES else Even(g + 1)
  }

  /** An eighth more than g, but at least want. */
  function AnEighthMore(want: nat, g: nat): (r: nat)
    ensures want <= r && (8 * want <= 9 * g ==> 9 * g < 8 * r + 8)
    ensures 8 * r <= (if 8 * want < 9 * g then 9 * g else 8 * want)
  {
    if g + g / 8 < want then want else g + g / 8
  }

  /** The fitted size cannot be made larger without fewer objects in a block. */
  lemma LargestFit(g: nat)
    requires 0 < g
    ensures Fitted(g) > 0 && HBLK_GRANULES / Fitted(g) == HBLK_GRANULES / EvenSize(g)
    ensures forall other: nat :: other > Fitted(g) && other % 2 == 0 ==>
      HBLK_GRANULES / other < HBLK_GRANULES / Fitted(g)
  {
    var g1 := if g > MAXOBJGRANULES then MAXOBJGRANULES else g;
    assert Fitted(g) == Fitted(g1);
    FittedIsLargest(g1, 2);
    forall other: nat | other > Fitted(g) && other % 2 == 0
      ensures HBLK_GRANULES / other < HBLK_GRANULES / Fitted(g)
    {
      FittedIsLargest(g1, other);
    }
  }

  lemma NoMore(other: nat, n: nat, q: nat)
    requires other > 0 && n > 0 && q == HBLK_GRANULES / n
    ensures other > q ==> HBLK_GRANULES / other < n
  {
    var k := HBLK_GRANULES / other;
    assert k * other <= HBLK_GRANULES;
    if k >= n {
      Products(n, k, other);
      Quotient(HBLK_GRANULES, n, other);
    }
  }

  lemma Rounding(i: nat, extra: nat)
    requires extra <= 1 && i + extra <= MAXOBJBYTES
    ensures var g := RoundedUpGranules(i, extra);
      i + extra <= g * GRANULE_BYTES < i + extra + GRANULE_BYTES && g <= MAXOBJGRANULES
  {
  }

  // ---------------------------------------------------------------- the entries after an extension

  /** s with size g at places low to high. */
  function FilledIn(s: seq<nat>, low: nat, high: nat, g: nat): seq<nat> {
    seq(|s|, n requires 0 <= n < |s| => if low <= n <= high then g else s[n])
  }

  /** What an extension may fill: places low to high with size g, where the places from three
      quarters of high up to low are filled already. */
  ghost predicate MayFill(s: seq<nat>, extra: nat, i: nat, low: nat, g: nat) {
    && !Filled(s, i) && low <= i && g <= MAXOBJGRANULES && 0 < low && i + extra <= g * GRANULE_BYTES
    && forall k: nat :: k < low && 3 * (g * GRANULE_BYTES - extra) < 4 * k ==> Filled(s, k)
  }

  lemma Refilled(s: seq<nat>, low: nat, high: nat, g: nat, n: int)
    requires high < |s| && g > 0
    ensures Filled(FilledIn(s, low, high, g), n) <==> Filled(s, n) || low <= n <= high
    ensures 0 <= n < |s| ==> FilledIn(s, low, high, g)[n] == if low <= n <= high then g else s[n]
  {
  }

  lemma FitsAfter(s: seq<nat>, extra: nat, i: nat, low: nat, g: nat)
    requires Ok(s, extra) && MayFill(s, extra, i, low, g)
    ensures g > 0 && Fits(FilledIn(s, low, g * GRANULE_BYTES - extra, g), extra)
  {
  }

  lemma ReachesAfter(s: seq<nat>, extra: nat, i: nat, low: nat, g: nat)
    requires Ok(s, extra) && MayFill(s, extra, i, low, g)
    ensures Reaches(FilledIn(s, low, g * GRANULE_BYTES - extra, g), extra)
  {
    var high := g * GRANULE_BYTES - extra;
    var s' := FilledIn(s, low, high, g);
    forall a: nat, n: nat | Filled(s', a) && a <= n && n + extra <= s'[a] * GRANULE_BYTES ensures Filled(s', n) {
      Refilled(s, low, high, g, a);
      Refilled(s, low, high, g, n);
    }
  }

  /** A filled entry before the new section has a smaller size, or it would reach to i. */
  lemma MonotoneAfter(s: seq<nat>, extra: nat, i: nat, low: nat, g: nat)
    requires Ok(s, extra) && MayFill(s, extra, i, low, g)
    ensures Monotone(FilledIn(s, low, g * GRANULE_BYTES - extra, g))
  {
    var high := g * GRANULE_BYTES - extra;
    var s' := FilledIn(s, low, high, g);
    forall a: nat, b: nat | Filled(s', a) && Filled(s', b) && a < b ensures s'[a] <= s'[b] {
      Refilled(s, low, high, g, a);
      Refilled(s, low, high, g, b);
      if a < low && Filled(s, a) { SmallerBefore(s, extra, i, a, g); }
    }
  }

  lemma SmallerBefore(s: seq<nat>, extra: nat, i: nat, a: nat, g: nat)
    requires Reaches(s, extra) && Filled(s, a) && a <= i && !Filled(s, i) && i + extra <= g * GRANULE_BYTES
    ensures s[a] <= g
  {
  }

  lemma SectionsAfter(s: seq<nat>, extra: nat, i: nat, low: nat, g: nat)
    requires Ok(s, extra) && MayFill(s, extra, i, low, g)
    ensures LongSections(FilledIn(s, low, g * GRANULE_BYTES - extra, g))
  {
    var high := g * GRANULE_BYTES - extra;
    var s' := FilledIn(s, low, high, g);
    forall n: nat, k: nat | Filled(s', n) && !Filled(s', n + 1) && k <= n && 3 * n < 4 * k ensures Filled(s', k) {
      Refilled(s, low, high, g, n);
      Refilled(s, low, high, g, n + 1);
      Refilled(s, low, high, g, k);
    }
  }

  lemma OkAfter(s: seq<nat>, extra: nat, i: nat, low: nat, g: nat)
    requires Ok(s, extra) && MayFill(s, extra, i, low, g)
    ensures Ok(FilledIn(s, low, g * GRANULE_BYTES - extra, g), extra)
    ensures Filled(FilledIn(s, low, g * GRANULE_BYTES - extra, g), i)
  {
    FitsAfter(s, extra, i, low, g);
    ReachesAfter(s, extra, i, low, g);
    MonotoneAfter(s, extra, i, low, g);
    SectionsAfter(s, extra, i, low, g);
    Refilled(s, low, g * GRANULE_BYTES - extra, g, i);
    TinyAfter(s, extra, low, g * GRANULE_BYTES - extra, g);
    hide Fits, Reaches, Monotone, LongSections, FilledIn;
  }

  lemma TinyAfter(s: seq<nat>, extra: nat, low: nat, high: nat, g: nat)
    requires TinyFilled(s, extra) && high < |s| && g > 0
    ensures TinyFilled(FilledIn(s, low, high, g), extra)
  {
    forall n: nat | Tiny(n, extra) ensures Filled(FilledIn(s, low, high, g), n) { Refilled(s, low, high, g, n); }
  }

  lemma NotTiny(s: seq<nat>, extra: nat, i: nat)
    requires Ok(s, extra) && !Filled(s, i)
    ensures !Tiny(i, extra) && extra <= 1
  {
  }

  /** Filling from much below i: the places skipped are filled, and low is at most i. */
  lemma FillFromBelow(s: seq<nat>, extra: nat, i: nat, low: nat)
    requires Ok(s, extra) && i + extra <= MAXOBJBYTES && !Filled(s, i)
    requires var b := RoundedUpGranules(i, extra) * GRANULE_BYTES;
      b - b / 4 <= low <= b - b / 8 && forall k: nat :: b - b / 4 <= k < low ==> Filled(s, k)
    ensures 0 < RoundedUpGranules(i, extra) <= MAXOBJGRANULES
    ensures MayFill(s, extra, i, low, Fitted(RoundedUpGranules(i, extra)))
  {
    NotTiny(s, extra, i);
    Rounding(i, extra);
    var g := RoundedUpGranules(i, extra);
    assert g > 0 && g * GRANULE_BYTES - g * GRANULE_BYTES / 4 == 12 * g;
    FittedOk(g);
    hide Ok, RoundedUpGranules, Fitted, Filled;
    FillLow(s, extra, i, low, g, Fitted(g));
  }

  /** Filling after a filled section: the section before is long enough for the new one. */
  lemma FillAfterSection(s: seq<nat>, extra: nat, i: nat, low: nat, g: nat)
    requires Ok(s, extra) && i + extra <= MAXOBJBYTES && !Filled(s, i)
    requires 0 < low <= i && Filled(s, low - 1) && !Filled(s, low)
    requires RoundedUpGranules(i, extra) <= g
    ensures 0 < g && MayFill(s, extra, i, low, Fitted(g))
  {
    NotTiny(s, extra, i);
    Rounding(i, extra);
    FittedOk(g);
    SectionBefore(s, extra, low - 1);
    hide Ok, RoundedUpGranules, Fitted, Filled;
  }

  lemma FillLow(s: seq<nat>, extra: nat, i: nat, low: nat, g0: nat, g: nat)
    requires !Tiny(i, extra) && extra <= 1 && !Filled(s, i) && g0 <= g <= MAXOBJGRANULES
    requires i + extra <= g0 * GRANULE_BYTES < i + extra + GRANULE_BYTES
    requires 12 * g0 <= low <= 14 * g0 && forall k: nat :: 12 * g0 <= k < low ==> Filled(s, k)
    ensures MayFill(s, extra, i, low, g)
  {
  }

  lemma SectionBefore(s: seq<nat>, extra: nat, n: nat)
    requires Ok(s, extra) && Filled(s, n) && !Filled(s, n + 1)
    ensures forall k: nat :: k <= n && 3 * n < 4 * k ==> Filled(s, k)
  {
  }

  class SizeMap {
    const entries: array<nat>
    const extra: nat

    ghost predicate Valid()
      reads entries
    {
      Ok(entries[..], extra)
    }

    /** GC_init_size_map, for 0 or 1 extra bytes at the end of objects. */
    constructor (extra: nat)
      requires extra <= 1
      ensures Valid() && fresh(entries) && this.extra == extra
      ensures forall n: nat :: Filled(entries[..], n) <==> Tiny(n, extra)
      ensures entries.Length > 384 && entries[0] == 1
      ensures forall n :: 0 < n <= 384 - extra ==> n + extra <= 16 * entries[n] < n + extra + 16
      ensures forall n :: 384 - extra < n < entries.Length ==> entries[n] == 0
    {
      entries := new nat[MAXOBJBYTES + 1](_ => 0);
      this.extra := extra;
      new;
      entries[0] := 1;
      var i := 1;
      while i <= (TINY_FREELISTS - 1) * GRANULE_BYTES - extra
        invariant 1 <= i <= (TINY_FREELISTS - 1) * GRANULE_BYTES - extra + 1
        invariant forall n :: 0 <= n < i ==> entries[n] == if n == 0 then 1 else RoundedUpGranules(n, extra)
        invariant forall n :: i <= n < entries.Length ==> entries[n] == 0
      {
        entries[i] := RoundedUpGranules(i, extra);
        i := i + 1;
      }
      InitialOk(entries[..], extra);
    }

    /** The first unfilled entry at low or after it; there is one up to stop. */
    method FirstUnfilled(low0: nat, ghost stop: nat) returns (low: nat)
      requires low0 <= stop < entries.Length && entries[stop] == 0
      ensures low0 <= low <= stop && entries[low] == 0 && forall k :: low0 <= k < low ==> entries[k] != 0
    {
      low := low0;
      while entries[low] != 0
        invariant low0 <= low <= stop && forall k :: low0 <= k < low ==> entries[k] != 0
        decreases stop - low
      {
        low := low + 1;
      }
    }

    method Fill(low0: nat, high: nat, g: nat)
      requires low0 <= high < entries.Length
      modifies entries
      ensures entries[..] == FilledIn(old(entries[..]), low0, high, g)
    {
      var low := low0;
      while low <= high
        invariant low0 <= low <= high + 1
        invariant forall n :: 0 <= n < entries.Length ==> entries[n] == if low0 <= n < low then g else old(entries[n])
      {
        entries[low] := g;
        low := low + 1;
      }
    }

    /** Where an extension for entry i begins, and the size in granules it is to have at least. */
    method Choose(i: nat) returns (low: nat, granules: nat)
      requires Valid() && i + extra <= MAXOBJBYTES && entries[i] == 0
      ensures 0 < granules && MayFill(entries[..], extra, i, low, Fitted(granules))
      ensures Chosen(entries[..], extra, i, low, granules)
    {
      hide Ok, Fitted, MayFill;
      ghost var s := entries[..];
      ValidBasics();
      Rounding(i, extra);
      NotTiny(s, extra, i);
      var origGranules := RoundedUpGranules(i, extra);
      granules := origGranules;
      var bytes := origGranules * GRANULE_BYTES;
      var smaller := bytes - bytes / 8;
      if entries[smaller] == 0 {
        low := FirstUnfilled(bytes - bytes / 4, smaller);
        FillFromBelow(s, extra, i, low);
      } else {
        low := FirstUnfilled(smaller + 1, i);
        granules := RoundedUpGranules(low, extra);
        granules := granules + granules / 8;
        if granules < origGranules {
          granules := origGranules;
        }
        assert s[low - 1] == entries[low - 1];
        FillAfterSection(s, extra, i, low, granules);
      }
    }

    /** GC_extend_size_map: fills entry i, and others near it. */
    method Extend(i: nat) returns (ghost low: nat, ghost g: nat)
      requires Valid() && i + extra <= MAXOBJBYTES && entries[i] == 0
      modifies entries
      ensures Valid() && entries[i] != 0
      ensures g > 0 && low <= i && i + extra <= g * GRANULE_BYTES <= MAXOBJBYTES && g % 2 == 0
      ensures entries[..] == FilledIn(old(entries[..]), low, g * GRANULE_BYTES - extra, g)
      ensures exists size: nat ::
        Chosen(old(entries[..]), extra, i, low, size) && HBLK_GRANULES / g == HBLK_GRANULES / EvenSize(size)
      ensures forall other: nat :: other > g && other % 2 == 0 ==> HBLK_GRANULES / other < HBLK_GRANULES / g
    {
      hide Ok, FilledIn, Fitted, MayFill, Chosen;
      ghost var s := entries[..];
      ValidBasics();
      var lowLimit, granules := Choose(i);
      FittedOk(granules);
      LargestFit(granules);
      var size := Fitted(granules);
      OkAfter(s, extra, i, lowLimit, size);
      SizeFits(s, extra, i, lowLimit, size);
      Fill(lowLimit, size * GRANULE_BYTES - extra, size);
      low, g := lowLimit, size;
    }

    lemma ValidBasics()
      requires Valid()
      ensures entries.Length == MAXOBJBYTES + 1 && extra <= 1
    {
    }
  }

  lemma SizeFits(s: seq<nat>, extra: nat, i: nat, low: nat, g: nat)
    requires Ok(s, extra) && MayFill(s, extra, i, low, g)
    ensures low <= i && i + extra <= g * GRANULE_BYTES <= MAXOBJBYTES
    ensures Filled(FilledIn(s, low, g * GRANULE_BYTES - extra, g), i)
  {
    OkAfter(s, extra, i, low, g);
  }

  lemma InitialOk(s: seq<nat>, extra: nat)
    requires |s| == MAXOBJBYTES + 1 && extra <= 1
    requires forall n: nat :: n < |s| ==> s[n] == Initial(n, extra)
    ensures Ok(s, extra)
    ensures forall n: nat :: Filled(s, n) <==> Tiny(n, extra)
  {
  }

  /** Entry n of the map before any extension. */
  function Initial(n: nat, extra: nat): nat {
    if n == 0 then 1 else if Tiny(n, extra) then RoundedUpGranules(n, extra) else 0
  }
}
