/**
  The heap as the marker sees it: blocks with headers, the objects laid out in
  them, the pointer values the header lookup recognises, and the words of memory.
  Addresses and sizes count words (64-bit words, ALIGNMENT of one word); blocks
  are numbered by address divided by the block size.
*/
module MarkHeap {

  const HBLK_WORDS: nat := 512
  const HBLK_MAX_OBJECTS: nat := 256
  const SPLIT_RANGE_WORDS: nat := 128
  const INITIAL_MARK_STACK_SIZE: nat := 4096
  const MARK_STACK_DISCARDS: nat := 512

  /** An allocated block: how many blocks it spans, how many leading words of each
      object may hold pointers (0 for pointer-free kinds), whether the kind is
      uncollectable, and the starts of its objects in address order. */
  datatype Block = Block(span: nat, descr: nat, uncollectable: bool, objects: seq<nat>)

  /** A mark stack entry: a non-empty range of words still to be scanned. */
  datatype Mse = Mse(start: nat, len: nat)

  function PageOf(a: nat): nat {
    a / HBLK_WORDS
  }

  /** objs maps the start of each object to its block; names maps each value that is
      a recognised pointer to the object it designates. */
  datatype Heap = Heap(blocks: map<nat, Block>, objs: map<nat, nat>, names: map<nat, nat>,
                       mem: map<nat, nat>, least: nat, greatest: nat)
  {
    function Read(a: nat): nat {
      if a in mem then mem[a] else 0
    }

    /** The quick bounds test a candidate pointer has to pass. */
    predicate Plausible(v: nat) {
      least <= v < greatest
    }

    function BlockOf(o: nat): nat {
      if o in objs then objs[o] else 0
    }

    function Descr(o: nat): nat {
      if BlockOf(o) in blocks then blocks[BlockOf(o)].descr else 0
    }

    predicate Uncollectable(o: nat) {
      BlockOf(o) in blocks && blocks[BlockOf(o)].uncollectable
    }

    /** a is the address of a word of object o that may hold a pointer. */
    predicate WordOf(o: nat, a: nat) {
      o in objs && o <= a < o + Descr(o)
    }

    /** Blocks are disjoint and hold no more objects than fit. */
    ghost predicate BlocksOk() {
      && 0 !in blocks
      && (forall b :: b in blocks ==> 1 <= blocks[b].span && |blocks[b].objects| <= HBLK_MAX_OBJECTS && b < greatest)
      && (forall b, c :: b in blocks && c in blocks && b < c ==> b + blocks[b].span <= c)
    }

    /** Every object is listed in its block, and its words lie in the block's pages. */
    ghost predicate ObjectsOk() {
      && (forall o :: o in objs ==> objs[o] in blocks && o in blocks[objs[o]].objects)
      && (forall o, a :: WordOf(o, a) ==> objs[o] <= PageOf(a) < objs[o] + blocks[objs[o]].span)
    }

    /** Recognised pointers are plausible and designate objects. */
    ghost predicate NamesOk() {
      forall v :: v in names ==> names[v] in objs && Plausible(v)
    }

    ghost predicate Valid() {
      && BlocksOk()
      && ObjectsOk()
      && NamesOk()
      && (forall b, o :: b in blocks && o in blocks[b].objects ==> o in objs && objs[o] == b)
    }

    ghost function BlockSet(h: nat): set<nat> {
      set b | b in blocks && h <= b
    }

    /** The first allocated block at or after block h, or 0: the flat form of GC_next_block. */
    function NextBlock(h: nat): (b: nat)
      requires forall c :: c in blocks ==> c < greatest
      ensures b != 0 ==> h <= b && b in blocks
      ensures forall c :: c in blocks && h <= c ==> h <= b <= c
      decreases greatest - h
    {
      if h in blocks then h
      else if greatest <= h then 0
      else NextBlock(h + 1)
    }
  }
}
