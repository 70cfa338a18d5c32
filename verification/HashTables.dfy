/**
  The chained hash tables of finalization: a power of two of buckets, each bucket a chain
  of entries in which the newest comes first.
*/
module HashTables {

  function Pow2(n: nat): (p: nat)
    ensures p > 0
  {
    if n == 0 then 1 else 2 * Pow2(n - 1)
  }

  /** Bitwise exclusive or. */
  function Xor(a: nat, b: nat): nat {
    if a == 0 && b == 0 then 0
    else 2 * Xor(a / 2, b / 2) + (if a % 2 == b % 2 then 0 else 1)
  }

  function ShiftRight(a: nat, n: nat): nat {
    if n == 0 then a else ShiftRight(a / 2, n - 1)
  }

  /** HASH2: the bucket of an address in a table of 2^log buckets. */
  function Hash(key: nat, log: nat): (i: nat)
    ensures i < Pow2(log)
  {
    Xor(ShiftRight(key, 3), ShiftRight(key, 3 + log)) % Pow2(log)
  }

  datatype Item<V> = Item(key: nat, val: V)

  ghost predicate Distinct<V>(c: seq<Item<V>>) {
    forall p, q :: 0 <= p < q < |c| ==> c[p].key != c[q].key
  }

  ghost predicate HasKey<V>(c: seq<Item<V>>, k: nat) {
    exists p :: 0 <= p < |c| && c[p].key == k
  }

  /** A bucket holds exactly the entries of view that hash to it, each once. */
  ghost predicate Bucket<V>(c: seq<Item<V>>, view: map<nat, V>, i: nat, log: nat) {
    && Distinct(c)
    && (forall p :: 0 <= p < |c| ==> c[p].key in view && view[c[p].key] == c[p].val && Hash(c[p].key, log) == i)
    && (forall k :: k in view && Hash(k, log) == i ==> HasKey(c, k))
  }

  function WithoutAt<V>(c: seq<Item<V>>, p: nat): seq<Item<V>>
    requires p < |c|
  {
    c[..p] + c[p + 1..]
  }

  function Minus<V>(view: map<nat, V>, k: nat): map<nat, V> {
    map x | x in view && x != k :: view[x]
  }

  lemma MinusSize<V>(view: map<nat, V>, k: nat)
    requires k in view
    ensures |Minus(view, k)| + 1 == |view|
  {
    assert view.Keys == Minus(view, k).Keys + {k};
  }

  lemma PlusSize<V>(view: map<nat, V>, k: nat, v: V)
    requires k !in view
    ensures |view[k := v]| == |view| + 1
  {
    assert view[k := v].Keys == view.Keys + {k};
  }

  lemma InBucket<V>(c: seq<Item<V>>, view: map<nat, V>, i: nat, log: nat, p: nat)
    requires Bucket(c, view, i, log) && p < |c|
    ensures c[p].key in view && view[c[p].key] == c[p].val && Hash(c[p].key, log) == i
  {
  }

  lemma BucketWithout<V>(c: seq<Item<V>>, view: map<nat, V>, i: nat, log: nat, p: nat)
    requires Bucket(c, view, i, log) && p < |c|
    ensures Bucket(WithoutAt(c, p), Minus(view, c[p].key), i, log)
  {
    var r := WithoutAt(c, p);
    forall k | k in Minus(view, c[p].key) && Hash(k, log) == i ensures HasKey(r, k) {
      var q :| 0 <= q < |c| && c[q].key == k;
      assert r[if q < p then q else q - 1].key == k;
    }
  }

  lemma OtherBucketWithout<V>(c: seq<Item<V>>, view: map<nat, V>, i: nat, log: nat, k: nat)
    requires Bucket(c, view, i, log) && Hash(k, log) != i
    ensures Bucket(c, Minus(view, k), i, log)
  {
  }

  lemma BucketInsert<V>(c: seq<Item<V>>, view: map<nat, V>, i: nat, log: nat, k: nat, v: V)
    requires Bucket(c, view, i, log) && Hash(k, log) == i && k !in view
    ensures Bucket([Item(k, v)] + c, view[k := v], i, log)
  {
    var r := [Item(k, v)] + c;
    forall x | x in view[k := v] && Hash(x, log) == i ensures HasKey(r, x) {
      if x == k {
        assert r[0].key == k;
      } else {
        var q :| 0 <= q < |c| && c[q].key == x;
        assert r[q + 1].key == x;
      }
    }
  }

  lemma OtherBucketInsert<V>(c: seq<Item<V>>, view: map<nat, V>, i: nat, log: nat, k: nat, v: V)
    requires Bucket(c, view, i, log) && Hash(k, log) != i
    ensures Bucket(c, view[k := v], i, log)
  {
  }

  lemma BucketReplace<V>(c: seq<Item<V>>, view: map<nat, V>, i: nat, log: nat, p: nat, v: V)
    requires Bucket(c, view, i, log) && p < |c|
    ensures Bucket(c[p := Item(c[p].key, v)], view[c[p].key := v], i, log)
  {
    var r := c[p := Item(c[p].key, v)];
    forall k | k in view && Hash(k, log) == i ensures HasKey(r, k) {
      var q :| 0 <= q < |c| && c[q].key == k;
      assert r[q].key == k;
    }
  }

  /** moved holds the entries of the buckets below i and those of done. */
  ghost predicate Moving<V>(view: map<nat, V>, moved: map<nat, V>, log: nat, i: nat, done: seq<Item<V>>) {
    && (forall k :: k in moved <==> k in view && (Hash(k, log) < i || (Hash(k, log) == i && HasKey(done, k))))
    && (forall k :: k in moved ==> moved[k] == view[k])
  }

  ghost predicate Spread<V>(heads: seq<seq<Item<V>>>, view: map<nat, V>, log: nat) {
    |heads| == Pow2(log) && forall i :: 0 <= i < |heads| ==> Bucket(heads[i], view, i, log)
  }

  lemma MoveOne<V>(c: seq<Item<V>>, view: map<nat, V>, moved: map<nat, V>, log: nat, i: nat, q: nat)
    requires Bucket(c, view, i, log) && q < |c| && Moving(view, moved, log, i, c[..q])
    ensures c[q].key !in moved && Moving(view, moved[c[q].key := c[q].val], log, i, c[..q + 1])
  {
    var d, d' := c[..q], c[..q + 1];
    forall k: nat ensures HasKey(d', k) <==> HasKey(d, k) || k == c[q].key {
      if HasKey(d, k) {
        var p :| 0 <= p < |d| && d[p].key == k;
        assert d'[p].key == k;
      }
      assert d'[q].key == c[q].key;
    }
  }

  lemma BucketMoved<V>(c: seq<Item<V>>, view: map<nat, V>, moved: map<nat, V>, log: nat, i: nat)
    requires Bucket(c, view, i, log) && Moving(view, moved, log, i, c[..|c|])
    ensures Moving(view, moved, log, i + 1, [])
  {
    assert c[..|c|] == c;
  }

  lemma AllMoved<V>(view: map<nat, V>, moved: map<nat, V>, log: nat, n: nat)
    requires Moving(view, moved, log, n, []) && (n == Pow2(log) || view == map[])
    ensures moved == view
  {
    forall k | k in view ensures k in moved {}
  }

  lemma SpreadInsert<V>(heads: seq<seq<Item<V>>>, view: map<nat, V>, log: nat, e: Item<V>)
    requires Spread(heads, view, log) && e.key !in view
    ensures Spread(heads[Hash(e.key, log) := [e] + heads[Hash(e.key, log)]], view[e.key := e.val], log)
  {
    var h := Hash(e.key, log);
    BucketInsert(heads[h], view, h, log, e.key, e.val);
    assert e == Item(e.key, e.val);
    forall i | 0 <= i < |heads| && i != h ensures Bucket(heads[i], view[e.key := e.val], i, log) {
      OtherBucketInsert(heads[i], view, i, log, e.key, e.val);
    }
  }

  class Table<V> {
    var head: array<seq<Item<V>>>      // of length 0 until the table is first needed
    var log: nat
    var entries: nat
    ghost var view: map<nat, V>

    ghost predicate Valid()
      reads this, head
    {
      && (head.Length == 0 || head.Length == Pow2(log))
      && (head.Length == 0 ==> view == map[])
      && (forall i :: 0 <= i < head.Length ==> Bucket(head[i], view, i, log))
      && entries == |view|
    }

    constructor ()
      ensures Valid() && view == map[] && fresh(head)
    {
      head := new seq<Item<V>>[0];
      log, entries, view := 0, 0, map[];
    }

    /** Doubles the number of buckets. */
    method Grow()
      requires Valid()
      modifies this`head, this`log
      ensures Valid() && fresh(head) && head.Length == Pow2(log) && log == old(log) + 1
    {
      var logNew := log + 1;
      var newTable := new seq<Item<V>>[Pow2(logNew)](_ => []);
      ghost var moved: map<nat, V> := map[];
      for i := 0 to head.Length
        modifies newTable
        invariant Moving(view, moved, log, i, [])
        invariant Spread(newTable[..], moved, logNew)
      {
        var q := 0;
        while q < |head[i]|
          modifies newTable
          invariant q <= |head[i]| && Moving(view, moved, log, i, head[i][..q])
          invariant Spread(newTable[..], moved, logNew)
        {
          var e := head[i][q];
          MoveOne(head[i], view, moved, log, i, q);
          SpreadInsert(newTable[..], moved, logNew, e);
          var h := Hash(e.key, logNew);
          newTable[h] := [e] + newTable[h];
          moved := moved[e.key := e.val];
          q := q + 1;
        }
        BucketMoved(head[i], view, moved, log, i);
      }
      AllMoved(view, moved, log, head.Length);
      log := logNew;
      head := newTable;
    }

    /** Grows a table that does not exist yet or has more entries than buckets. */
    method MakeRoom()
      requires Valid()
      modifies this`head, this`log
      ensures Valid() && head.Length > 0 && (head == old(head) || fresh(head))
      ensures log == old(log) + if old(head.Length == 0 || entries > head.Length) then 1 else 0
    {
      if head.Length == 0 || entries > head.Length {
        Grow();
      }
    }

    method Find(k: nat) returns (found: bool, p: nat)
      requires Valid() && head.Length > 0
      ensures found <==> k in view
      ensures Hash(k, log) < head.Length
      ensures found ==> p < |head[Hash(k, log)]| && head[Hash(k, log)][p] == Item(k, view[k])
    {
      var c := head[Hash(k, log)];
      p := 0;
      while p < |c|
        invariant p <= |c| && forall q :: 0 <= q < p ==> c[q].key != k
      {
        if c[p].key == k {
          return true, p;
        }
        p := p + 1;
      }
      found := false;
    }

    lemma EmptyTable()
      requires Valid() && head.Length == 0
      ensures view == map[]
    {
    }

    lemma ChainOf(i: nat)
      requires Valid() && i < head.Length
      ensures Bucket(head[i], view, i, log)
    {
    }

    lemma ItemAt(i: nat, p: nat)
      requires Valid() && i < head.Length && p < |head[i]|
      ensures head[i][p].key in view && view[head[i][p].key] == head[i][p].val
    {
      ChainOf(i);
    }

    /** Puts a new entry at the front of its chain. */
    method Insert(k: nat, v: V)
      requires Valid() && head.Length > 0 && k !in view
      modifies this`entries, this`view, head
      ensures Valid() && view == old(view)[k := v]
      ensures head[..] == old(head[..])[Hash(k, log) := [Item(k, v)] + old(head[..])[Hash(k, log)]]
    {
      var i := Hash(k, log);
      PlusSize(view, k, v);
      SpreadInsert(head[..], view, log, Item(k, v));
      ghost var h0 := head[..];
      head[i] := [Item(k, v)] + head[i];
      entries := entries + 1;
      view := view[k := v];
      assert head[..] == h0[i := [Item(k, v)] + h0[i]];
    }

    /** Changes the value of the p-th entry of bucket i. */
    method SetAt(i: nat, p: nat, v: V)
      requires Valid() && i < head.Length && p < |head[i]|
      modifies this`view, head
      ensures Valid() && view == old(view)[old(head[i])[p].key := v]
    {
      ghost var k, c, h0 := head[i][p].key, head[i], head[..];
      BucketReplace(c, view, i, log, p, v);
      assert view[k := v].Keys == view.Keys;
      forall m | 0 <= m < head.Length && m != i ensures Bucket(head[m], view[k := v], m, log) {
        assert Hash(k, log) == i;
      }
      head[i] := head[i][p := Item(head[i][p].key, v)];
      view := view[k := v];
    }

    /** Takes the p-th entry off the chain of bucket i. */
    method RemoveAt(i: nat, p: nat)
      requires Valid() && i < head.Length && p < |head[i]|
      modifies this`entries, this`view, head
      ensures Valid() && view == Minus(old(view), old(head[i])[p].key) && old(head[i])[p].key in old(view)
      ensures head[..] == old(head[..])[i := WithoutAt(old(head[i]), p)]
    {
      ghost var k, h0 := head[i][p].key, head[..];
      BucketWithout(head[i], view, i, log, p);
      MinusSize(view, k);
      forall m | 0 <= m < head.Length && m != i ensures Bucket(head[m], Minus(view, k), m, log) {
        OtherBucketWithout(head[m], view, m, log, k);
      }
      head[i] := WithoutAt(head[i], p);
      entries := entries - 1;
      view := Minus(view, k);
      assert head[..] == h0[i := WithoutAt(h0[i], p)];
    }
  }
}
