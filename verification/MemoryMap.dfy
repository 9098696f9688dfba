/**
 The shadow memory map: address blocks and first-match decoding.

 `Size` is the 32-bit unsigned `SIZE_T` of the SystemVerilog packages; arithmetic on it wraps.
 */
module MemoryMap {
  import opened Wrappers

  const ADDRESS_SPACE: nat := 0x1_0000_0000

  type Byte = b: nat | b < 256
  type Size = n: nat | n < ADDRESS_SPACE

  datatype Block = Block(base: Size, size: Size)

  /** A byte of a block: the index of the block and the offset into it. */
  datatype Cell = Cell(blk: nat, off: nat)

  /** Passing a value to a `SIZE_T` argument truncates it. */
  function ToSize(n: nat): (r: Size)
    ensures n < ADDRESS_SPACE ==> r == n
  {
    n % ADDRESS_SPACE
  }

  /** The address comparison of the decoder; the end of the block is computed modulo 2^32. */
  predicate Hits(b: Block, a: Size) {
    b.base <= a < (b.base + b.size) % ADDRESS_SPACE
  }

  function FindFrom(mmap: seq<Block>, a: Size, i: nat): Option<Cell>
    requires i <= |mmap|
    decreases |mmap| - i
  {
    if i == |mmap| then None
    else if Hits(mmap[i], a) then Some(Cell(i, a - mmap[i].base))
    else FindFrom(mmap, a, i + 1)
  }

  /** The block that serves an access is the first one that contains its first address. */
  function Decode(mmap: seq<Block>, a: Size): Option<Cell> {
    FindFrom(mmap, a, 0)
  }

  /** What decoding means, without its search: the least block index that is hit, if there is one. */
  ghost predicate IsFirstHit(mmap: seq<Block>, a: Size, r: Option<Cell>) {
    match r
    case None => forall j :: 0 <= j < |mmap| ==> !Hits(mmap[j], a)
    case Some(c) =>
      && c.blk < |mmap| && Hits(mmap[c.blk], a) && c.off == a - mmap[c.blk].base
      && forall j :: 0 <= j < c.blk ==> !Hits(mmap[j], a)
  }

  lemma {:induction false} FindFromIsFirstHit(mmap: seq<Block>, a: Size, i: nat)
    requires i <= |mmap|
    requires forall j :: 0 <= j < i ==> !Hits(mmap[j], a)
    ensures IsFirstHit(mmap, a, FindFrom(mmap, a, i))
    decreases |mmap| - i
  {
    if i < |mmap| && !Hits(mmap[i], a) {
      FindFromIsFirstHit(mmap, a, i + 1);
    }
  }

  lemma DecodeIsFirstHit(mmap: seq<Block>, a: Size)
    ensures IsFirstHit(mmap, a, Decode(mmap, a))
  {
    FindFromIsFirstHit(mmap, a, 0);
  }

  /**
   Which addresses decode, and where to: those of a block that ends below 2^32, at their distance from its base,
   the first such block if there are several. A block that reaches or passes the end of the address space is lost.
   */
  lemma DecodeIsFirstContaining(mmap: seq<Block>, a: Size)
    ensures Decode(mmap, a).Some? <==>
            exists i :: 0 <= i < |mmap|
                        && mmap[i].base <= a < mmap[i].base + mmap[i].size < 0x1_0000_0000
    ensures forall c :: Decode(mmap, a) == Some(c) ==>
              && c.blk < |mmap| && mmap[c.blk].base + c.off == a && c.off < mmap[c.blk].size
              && forall i :: 0 <= i < c.blk ==>
                   !(mmap[i].base <= a < mmap[i].base + mmap[i].size < 0x1_0000_0000)
  {
    DecodeIsFirstHit(mmap, a);
    forall i | 0 <= i < |mmap|
      ensures Hits(mmap[i], a) <==> mmap[i].base <= a < mmap[i].base + mmap[i].size < 0x1_0000_0000
    {
      HitsIff(mmap[i], a);
    }
  }

  lemma HitsIff(b: Block, a: Size)
    ensures Hits(b, a) <==> b.base <= a < b.base + b.size < 0x1_0000_0000
  {
  }

  lemma FirstHitIsUnique(mmap: seq<Block>, a: Size, c: Cell)
    requires IsFirstHit(mmap, a, Some(c))
    ensures Decode(mmap, a) == Some(c)
  {
    DecodeIsFirstHit(mmap, a);
  }

  /** A block that wraps past the end of the address space is never hit, so offsets stay inside blocks. */
  lemma HitIsInside(b: Block, a: Size)
    requires Hits(b, a)
    ensures b.base + b.size < ADDRESS_SPACE
    ensures a - b.base < b.size
  {
  }

  /** Different addresses never decode to the same byte, whatever overlaps the map has. */
  lemma DecodeIsInjective(mmap: seq<Block>, a: Size, b: Size)
    requires a != b
    requires Decode(mmap, a).Some?
    ensures Decode(mmap, a) != Decode(mmap, b)
  {
    DecodeIsFirstHit(mmap, a);
    DecodeIsFirstHit(mmap, b);
  }

  /** No address belongs to two blocks. */
  ghost predicate Disjoint(mmap: seq<Block>) {
    forall i, j, a: Size :: 0 <= i < j < |mmap| ==> !(Hits(mmap[i], a) && Hits(mmap[j], a))
  }

  /** An access of `n` bytes that decodes to a block does not run past the end of it. */
  predicate Fits(mmap: seq<Block>, a: Size, n: nat) {
    match Decode(mmap, a)
    case None => true
    case Some(c) => c.blk < |mmap| && c.off + n <= mmap[c.blk].size
  }

  /** In a map of disjoint blocks the bytes of an access decode one by one to consecutive cells. */
  lemma DecodeAlongBlock(mmap: seq<Block>, a: Size, k: nat)
    requires Disjoint(mmap)
    requires Decode(mmap, a).Some?
    requires Fits(mmap, a, k + 1)
    ensures a + k < ADDRESS_SPACE
    ensures Decode(mmap, a + k) == Some(Cell(Decode(mmap, a).value.blk, Decode(mmap, a).value.off + k))
  {
    DecodeIsFirstHit(mmap, a);
    var c := Decode(mmap, a).value;
    HitIsInside(mmap[c.blk], a);
    assert Hits(mmap[c.blk], a + k);
    FirstHitIsUnique(mmap, a + k, Cell(c.blk, c.off + k));
  }
}
