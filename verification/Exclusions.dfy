/**
  The table of address ranges that are not scanned for roots: sorted and disjoint, searched by
  bisection, and subtracted from the ranges that are pushed.
*/
module Exclusions {

  /** The addresses from start up to, not including, finish. */
  datatype Range = Range(start: nat, finish: nat) {
    predicate Has(a: nat) {
      start <= a < finish
    }
  }

  datatype Option<T> = None | Some(value: T)

  datatype Outcome = Done | Overlap | TooMany

  /** No range is empty, and each ends before the next begins or where it begins. */
  ghost predicate Sorted(t: seq<Range>) {
    && (forall i :: 0 <= i < |t| ==> t[i].start < t[i].finish)
    && (forall i, j :: 0 <= i < j < |t| ==> t[i].finish <= t[j].start)
  }

  ghost predicate Covers(t: seq<Range>, a: nat) {
    exists i :: 0 <= i < |t| && t[i].Has(a)
  }

  /** i is the first range of t that ends after a; |t| if there is none. */
  ghost predicate FirstAfter(t: seq<Range>, a: nat, i: nat) {
    && i <= |t|
    && (forall k :: 0 <= k < i ==> t[k].finish <= a)
    && (i < |t| ==> a < t[i].finish)
  }

  /** r and the ranges of t have an address in common. */
  ghost predicate Meets(t: seq<Range>, r: Range) {
    exists a: nat :: r.Has(a) && Covers(t, a)
  }

  /** One of the ranges of t begins where r ends. */
  ghost predicate Touches(t: seq<Range>, r: Range) {
    exists x :: x in t && x.start == r.finish
  }

  /** What a range is in conflict with can only be the first range that ends after its start. */
  lemma MeetsNext(t: seq<Range>, r: Range, i: nat)
    requires Sorted(t) && r.start < r.finish && FirstAfter(t, r.start, i)
    ensures Meets(t, r) <==> i < |t| && t[i].start < r.finish
  {
    if a: nat :| r.Has(a) && Covers(t, a) {
      var k :| 0 <= k < |t| && t[k].Has(a);
      if i < k { assert t[i].finish <= t[k].start; }
    }
    if i < |t| && t[i].start < r.finish {
      var a := if t[i].start < r.start then r.start else t[i].start;
      assert t[i].Has(a);
      assert r.Has(a) && Covers(t, a);
    }
  }

  /** Growing range i downwards to r.start, where r ends where it began. */
  lemma GrownTable(t: seq<Range>, r: Range, i: nat)
    requires Sorted(t) && r.start < r.finish && FirstAfter(t, r.start, i) && i < |t| && t[i].start == r.finish
    ensures Sorted(t[i := Range(r.start, t[i].finish)])
    ensures forall a: nat :: Covers(t[i := Range(r.start, t[i].finish)], a) <==> Covers(t, a) || r.Has(a)
  {
    var t' := t[i := Range(r.start, t[i].finish)];
    forall a: nat ensures Covers(t', a) <==> Covers(t, a) || r.Has(a) {
      if Covers(t, a) {
        var k :| 0 <= k < |t| && t[k].Has(a);
        assert t'[k].Has(a);
      }
      if r.Has(a) { assert t'[i].Has(a); }
      if Covers(t', a) {
        var k :| 0 <= k < |t'| && t'[k].Has(a);
        assert t[k].Has(a) || r.Has(a);
      }
    }
  }

  function Inserted(t: seq<Range>, i: nat, r: Range): seq<Range>
    requires i <= |t|
  {
    t[..i] + [r] + t[i..]
  }

  lemma InsertedAt(t: seq<Range>, i: nat, r: Range, k: nat)
    requires i <= |t| && k <= |t|
    ensures Inserted(t, i, r)[k] == if k < i then t[k] else if k == i then r else t[k - 1]
  {
  }

  lemma InsertedSorted(t: seq<Range>, r: Range, i: nat)
    requires Sorted(t) && r.start < r.finish && FirstAfter(t, r.start, i) && (i < |t| ==> r.finish <= t[i].start)
    ensures Sorted(Inserted(t, i, r))
  {
    var t' := Inserted(t, i, r);
    forall k | i <= k < |t| ensures r.finish <= t[k].start {}
    forall k | 0 <= k < |t'| ensures t'[k].start < t'[k].finish { InsertedAt(t, i, r, k); }
    forall k, m | 0 <= k < m < |t'| ensures t'[k].finish <= t'[m].start {
      InsertedAt(t, i, r, k);
      InsertedAt(t, i, r, m);
    }
  }

  lemma InsertedCovers(t: seq<Range>, r: Range, i: nat)
    requires i <= |t|
    ensures forall a: nat :: Covers(Inserted(t, i, r), a) <==> Covers(t, a) || r.Has(a)
  {
    var t' := Inserted(t, i, r);
    forall a: nat ensures Covers(t', a) <==> Covers(t, a) || r.Has(a) {
      if Covers(t, a) {
        var k :| 0 <= k < |t| && t[k].Has(a);
        assert t'[if k < i then k else k + 1].Has(a);
      }
      if r.Has(a) { assert t'[i].Has(a); }
      if Covers(t', a) {
        var k :| 0 <= k < |t'| && t'[k].Has(a);
        InsertedAt(t, i, r, k);
        assert k == i || t[if k < i then k else k - 1].Has(a);
      }
    }
  }

  /** Where there is no conflict, only the first range that ends after r starts can begin where r ends. */
  lemma OnlyNextTouches(t: seq<Range>, r: Range, i: nat)
    requires Sorted(t) && r.start < r.finish && FirstAfter(t, r.start, i) && (i < |t| ==> r.finish <= t[i].start)
    ensures Touches(t, r) <==> i < |t| && t[i].start == r.finish
  {
    if i < |t| { assert t[i] in t; }
  }

  /** The addresses from a up to the first range that ends after it are not excluded, those of
      that range are, and so the search may go on at its end. */
  lemma NextRange(t: seq<Range>, a: nat, i: nat)
    requires Sorted(t) && FirstAfter(t, a, i)
    ensures forall b: nat :: a <= b && (i < |t| ==> b < t[i].start) ==> !Covers(t, b)
    ensures i < |t| ==> forall b: nat :: t[i].start <= b < t[i].finish ==> Covers(t, b)
  {
    forall b: nat | a <= b && (i < |t| ==> b < t[i].start) ensures !Covers(t, b) {
    }
    if i < |t| {
      forall b: nat | t[i].start <= b < t[i].finish ensures Covers(t, b) { assert t[i].Has(b); }
    }
  }

  class Table {
    const ranges: array<Range>
    var entries: nat

    ghost predicate Valid()
      reads this, ranges
    {
      entries <= ranges.Length && Sorted(ranges[..entries])
    }

    ghost function Contents(): seq<Range>
      reads this, ranges
      requires entries <= ranges.Length
    {
      ranges[..entries]
    }

    constructor (size: nat)
      ensures Valid() && Contents() == [] && ranges.Length == size && fresh(ranges)
    {
      ranges := new Range[size](_ => Range(0, 0));
      entries := 0;
    }

    /** GC_next_exclusion: the first range that includes an address at or after a, if any. */
    method NextExclusion(a: nat) returns (r: Option<nat>)
      requires Valid() && entries > 0
      ensures r.Some? ==> r.value < entries && FirstAfter(Contents(), a, r.value)
      ensures r.None? ==> FirstAfter(Contents(), a, entries)
    {
      ghost var t := Contents();
      var low, high := 0, entries - 1;
      while high > low
        invariant 0 <= low <= high < entries
        invariant forall k :: 0 <= k < low ==> t[k].finish <= a
        invariant high < entries - 1 ==> a < t[high].finish
      {
        var mid := (low + high) / 2;
        assert ranges[mid] == t[mid];
        if ranges[mid].finish <= a {
          forall k | 0 <= k <= mid ensures t[k].finish <= a {
            if k < mid { assert t[k].finish <= t[mid].start; }
          }
          low := mid + 1;
        } else {
          high := mid;
        }
      }
      assert ranges[low] == t[low];
      if ranges[low].finish <= a {
        return None;
      }
      return Some(low);
    }

    /** Moves the ranges from next on up by one place. */
    method MakeRoom(next: nat)
      requires next <= entries < ranges.Length
      modifies ranges
      ensures forall k :: 0 <= k < next ==> ranges[k] == old(ranges[k])
      ensures forall k :: next < k <= entries ==> ranges[k] == old(ranges[k - 1])
    {
      var i := entries;
      while i > next
        invariant next <= i <= entries
        invariant forall k :: 0 <= k <= i ==> ranges[k] == old(ranges[k])
        invariant forall k :: i < k <= entries ==> ranges[k] == old(ranges[k - 1])
      {
        ranges[i] := ranges[i - 1];
        i := i - 1;
      }
    }

    /** Puts r at place next of the table. */
    method InsertAt(next: nat, r: Range)
      requires next <= entries < ranges.Length
      modifies this, ranges
      ensures entries == old(entries) + 1 <= ranges.Length && Contents() == Inserted(old(Contents()), next, r)
    {
      ghost var t := Contents();
      MakeRoom(next);
      ranges[next] := r;
      entries := entries + 1;
      forall k | 0 <= k < entries ensures ranges[k] == Inserted(t, next, r)[k] { InsertedAt(t, next, r, k); }
    }

    /** GC_exclude_static_roots_inner. An overlap or a full table makes the collector abort, and
        leaves the table as it was. */
    method Exclude(r: Range) returns (outcome: Outcome)
      requires Valid() && r.start < r.finish
      modifies this, ranges
      ensures Valid()
      ensures outcome.Overlap? <==> Meets(old(Contents()), r)
      ensures outcome.TooMany? <==> (old(entries) == ranges.Length && !outcome.Overlap? && !Touches(old(Contents()), r))
      ensures !outcome.Done? ==> Contents() == old(Contents())
      ensures outcome.Done? ==> entries == old(entries) + if Touches(old(Contents()), r) then 0 else 1
      ensures outcome.Done? ==> forall a: nat :: Covers(Contents(), a) <==> Covers(old(Contents()), a) || r.Has(a)
    {
      ghost var t := Contents();
      var next: Option<nat> := None;
      if entries != 0 {
        next := NextExclusion(r.start);
      }
      ghost var i := if next.Some? then next.value else entries;
      hide Sorted, Covers, Meets, Touches, Inserted;
      MeetsNext(t, r, i);
      if next.Some? {
        assert ranges[next.value] == t[next.value];
        if ranges[next.value].start < r.finish {
          return Overlap;
        }
        OnlyNextTouches(t, r, i);
        if ranges[next.value].start == r.finish {
          GrownTable(t, r, i);
          ranges[next.value] := Range(r.start, ranges[next.value].finish);
          assert Contents() == t[i := Range(r.start, t[i].finish)];
          return Done;
        }
      }
      OnlyNextTouches(t, r, i);
      if entries >= ranges.Length {
        return TooMany;
      }
      InsertedSorted(t, r, i);
      InsertedCovers(t, r, i);
      InsertAt(if next.Some? then next.value else entries, r);
      return Done;
    }

    /** GC_push_conditional_with_exclusions: the ranges pushed, in order. */
    method PushWithExclusions(bottom: nat, top: nat) returns (pushed: seq<Range>)
      requires Valid() && entries > 0
      ensures Sorted(pushed)
      ensures forall a: nat :: Covers(pushed, a) <==> bottom <= a < top && !Covers(Contents(), a)
    {
      ghost var t := Contents();
      var b := bottom;
      pushed := [];
      while b < top
        invariant Sorted(pushed) && (pushed != [] ==> pushed[|pushed| - 1].finish <= b)
        invariant bottom <= b
        invariant forall a: nat :: Covers(pushed, a) <==> bottom <= a < top && a < b && !Covers(t, a)
        decreases top - b
      {
        var next := NextExclusion(b);
        ghost var i := if next.Some? then next.value else entries;
        NextRange(t, b, i);
        if next.None? || ranges[next.value].start >= top {
          Pushed(pushed, Range(b, top));
          pushed := pushed + [Range(b, top)];
          break;
        }
        assert ranges[next.value] == t[i];
        if ranges[next.value].start > b {
          Pushed(pushed, Range(b, t[i].start));
          pushed := pushed + [Range(b, ranges[next.value].start)];
        }
        b := ranges[next.value].finish;
      }
    }
  }

  lemma Pushed(t: seq<Range>, r: Range)
    requires Sorted(t) && r.start < r.finish && (t != [] ==> t[|t| - 1].finish <= r.start)
    ensures Sorted(t + [r])
    ensures forall a: nat :: Covers(t + [r], a) <==> Covers(t, a) || r.Has(a)
  {
    var t' := t + [r];
    forall k | 0 <= k < |t| ensures t[k].finish <= r.start {
      if k < |t| - 1 { assert t[k].finish <= t[|t| - 1].start; }
    }
    forall a: nat ensures Covers(t', a) <==> Covers(t, a) || r.Has(a) {
      if Covers(t, a) {
        var k :| 0 <= k < |t| && t[k].Has(a);
        assert t'[k].Has(a);
      }
      if r.Has(a) { assert t'[|t|].Has(a); }
      if Covers(t', a) {
        var k :| 0 <= k < |t'| && t'[k].Has(a);
        assert k == |t| || t[k].Has(a);
      }
    }
  }
}
