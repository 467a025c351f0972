/**
 The small-block allocator of A6/handout/lib.c: blocks are cut from chunks taken off a growing heap, and
 released blocks are kept on one linked list per size, threaded through their first word.

 Memory is the map from word addresses to words. A block starts with one word of its own: the link to
 the next free block while it is free, its size while it is in use.
*/
module Allocator {
  import opened BitPositions

  const SMALL_BLOCK_LIMIT := 4096
  const MIN_ALLOCATION := 100
  const BLOCK_SIZE_STEP := 8
  const NUM_SIZES := 512
  const NULL := 0
  const INT_SIZE := 4

  // ----- sizes

  /** The block size allocate uses for a request. */
  function BlockSize(size: int): int
    requires 1 <= size && size + INT_SIZE < INT_LIMIT
  {
    var total := size + INT_SIZE;
    var offset := And(total, BLOCK_SIZE_STEP - 1);
    if offset != 0 then And(total, Complement(offset)) + BLOCK_SIZE_STEP else total
  }

  lemma AndOne(x: nat)
    ensures And(x, 1) == x % 2
  {
    assert And(x / 2, 0) == 0;
  }

  lemma AndThree(x: nat)
    ensures And(x, 3) == x % 4
  {
    AndOne(x / 2);
    assert And(x, 3) == 2 * And(x / 2, 1) + x % 2;
    hide And;
  }

  lemma AndSeven(x: nat)
    ensures And(x, 7) == x % 8
  {
    AndThree(x / 2);
    assert And(x, 7) == 2 * And(x / 2, 3) + x % 2;
    hide And;
  }

  lemma {:induction false} AndComplement(x: nat, y: nat, n: nat)
    requires y <= x < Pow2(n) && And(x, y) == y
    ensures And(x, Pow2(n) - 1 - y) == x - y
  {
    if n > 0 && x != 0 {
      assert And(x, y) == y ==> And(x / 2, y / 2) == y / 2 && (y % 2 == 1 ==> x % 2 == 1);
      AndComplement(x / 2, y / 2, n - 1);
      assert (Pow2(n) - 1 - y) / 2 == Pow2(n - 1) - 1 - y / 2;
    }
  }

  lemma {:induction false} AndSelf(x: nat, y: nat)
    ensures And(x, And(x, y)) == And(x, y)
  {
    if x != 0 && y != 0 {
      AndSelf(x / 2, y / 2);
    }
  }

  /** The block size is the least multiple of 8 with room for the request and the size word. */
  lemma BlockSizeIsRoundedUp(size: int)
    requires 1 <= size && size + INT_SIZE < INT_LIMIT
    ensures BlockSize(size) % 8 == 0 && size + INT_SIZE <= BlockSize(size) < size + INT_SIZE + 8
  {
    hide And, Pow2;
    var total := size + INT_SIZE;
    AndSeven(total);
    AndSelf(total, 7);
    Pow2Constants();
    AndComplement(total, total % 8, 32);
  }

  // ----- the heap as a value

  /** Blocks, given by their sizes, cover [low, high) exactly and do not overlap. */
  ghost predicate Tiled(blocks: map<int, int>, low: int, high: int) {
    && low <= high
    && (forall a :: a in blocks ==> low <= a && 0 < blocks[a] && a + blocks[a] <= high)
    && (forall a, b :: a in blocks && b in blocks && a < b ==> a + blocks[a] <= b)
    && (forall x :: low <= x < high ==> Covered(blocks, x))
  }

  ghost predicate Covered(blocks: map<int, int>, x: int) {
    exists a :: Covers(blocks, a, x)
  }

  ghost predicate Covers(blocks: map<int, int>, a: int, x: int) {
    a in blocks && a <= x < a + blocks[a]
  }

  ghost predicate NoRepeat(list: seq<int>) {
    forall i, j :: 0 <= i < j < |list| ==> list[i] != list[j]
  }

  function Next(list: seq<int>, i: int): int
    requires -1 <= i < |list|
  {
    if i + 1 < |list| then list[i + 1] else NULL
  }

  /** Following the links in memory from head visits exactly the list. */
  ghost predicate Linked(list: seq<int>, head: int, mem: map<int, int>) {
    head == Next(list, -1) && forall i :: 0 <= i < |list| ==> list[i] in mem && mem[list[i]] == Next(list, i)
  }

  /**
   The words of memory and the free-list headers, with what they mean: the size of every block cut so
   far, the free list of every size class, and the blocks in use.
  */
  datatype Heap = Heap(mem: map<int, int>, headers: seq<int>, start: int, free: int,
                       blocks: map<int, int>, lists: seq<seq<int>>, live: set<int>)

  ghost predicate ListOk(h: Heap, k: int)
    requires 0 <= k < NUM_SIZES == |h.lists| == |h.headers|
  {
    && NoRepeat(h.lists[k]) && Linked(h.lists[k], h.headers[k], h.mem)
    && forall a :: a in h.lists[k] ==> a in h.blocks && h.blocks[a] == BLOCK_SIZE_STEP * k && a !in h.live
  }

  ghost predicate BlockOk(h: Heap, a: int)
    requires a in h.blocks && |h.lists| == NUM_SIZES
  {
    && h.blocks[a] % BLOCK_SIZE_STEP == 0 && 0 < h.blocks[a] < SMALL_BLOCK_LIMIT
    && if a in h.live then a in h.mem && h.mem[a] == h.blocks[a] else a in h.lists[h.blocks[a] / BLOCK_SIZE_STEP]
  }

  ghost predicate Consistent(h: Heap) {
    && |h.lists| == NUM_SIZES == |h.headers|
    && 0 < h.start && Tiled(h.blocks, h.start, h.free) && h.live <= h.blocks.Keys
    && (forall k :: 0 <= k < NUM_SIZES ==> ListOk(h, k))
    && (forall a :: a in h.blocks ==> BlockOk(h, a))
  }

  ghost predicate OnList(h: Heap, k: int, i: int, a: int)
    requires |h.lists| == NUM_SIZES
  {
    0 <= k < NUM_SIZES && 0 <= i < |h.lists[k]| && h.lists[k][i] == a
  }

  /**
   Live blocks and free-list blocks exactly partition [start, free): every address is in exactly one
   block, and that block is either in use or at exactly one place of exactly one free list, the one for
   its size.
  */
  lemma Partition(h: Heap, x: int) returns (a: int)
    requires Consistent(h) && h.start <= x < h.free
    ensures Covers(h.blocks, a, x) && forall b :: Covers(h.blocks, b, x) ==> b == a
    ensures a in h.live <==> !exists k, i :: OnList(h, k, i, a)
    ensures forall k, i :: OnList(h, k, i, a) ==> h.blocks[a] == BLOCK_SIZE_STEP * k
    ensures forall k, i, j :: OnList(h, k, i, a) && OnList(h, k, j, a) ==> i == j
  {
    assert Covered(h.blocks, x);
    a :| Covers(h.blocks, a, x);
    assert BlockOk(h, a);
    forall k, i | OnList(h, k, i, a)
      ensures a !in h.live && h.blocks[a] == BLOCK_SIZE_STEP * k
    {
      assert ListOk(h, k) && h.lists[k][i] in h.lists[k];
    }
    forall k, i, j | OnList(h, k, i, a) && OnList(h, k, j, a)
      ensures i == j
    {
      assert ListOk(h, k);
    }
    if a !in h.live {
      var k := h.blocks[a] / BLOCK_SIZE_STEP;
      var i :| 0 <= i < |h.lists[k]| && h.lists[k][i] == a;
      assert OnList(h, k, i, a);
    }
  }

  // ----- what the operations do to the heap

  /** Taking the first block off a free list. */
  ghost function Unlinked(h: Heap, k: int): Heap
    requires Consistent(h) && 0 < k < NUM_SIZES && h.lists[k] != []
  {
    var b := h.lists[k][0];
    h.(mem := h.mem[b := BLOCK_SIZE_STEP * k],
       headers := h.headers[k := Next(h.lists[k], 0)],
       lists := h.lists[k := h.lists[k][1..]],
       live := h.live + {b})
  }

  lemma UnlinkedConsistent(h: Heap, k: int)
    requires Consistent(h) && 0 < k < NUM_SIZES && h.lists[k] != []
    ensures Consistent(Unlinked(h, k))
  {
    var h', b := Unlinked(h, k), h.lists[k][0];
    assert ListOk(h, k);
    forall j | 0 <= j < NUM_SIZES
      ensures ListOk(h', j)
    {
      assert ListOk(h, j);
      if j == k {
        assert forall a :: a in h'.lists[k] ==> a in h.lists[k];
      } else {
        assert b !in h.lists[j];
      }
    }
    forall a | a in h'.blocks
      ensures BlockOk(h', a)
    {
      assert BlockOk(h, a);
    }
  }

  /** Putting a block in use back on the free list for its size. */
  ghost function Relinked(h: Heap, b: int): Heap
    requires Consistent(h) && b in h.live
  {
    assert BlockOk(h, b);
    var k := h.blocks[b] / BLOCK_SIZE_STEP;
    h.(mem := h.mem[b := h.headers[k]],
       headers := h.headers[k := b],
       lists := h.lists[k := [b] + h.lists[k]],
       live := h.live - {b})
  }

  lemma RelinkedConsistent(h: Heap, b: int)
    requires Consistent(h) && b in h.live
    ensures Consistent(Relinked(h, b))
  {
    assert BlockOk(h, b);
    var h', k := Relinked(h, b), h.blocks[b] / BLOCK_SIZE_STEP;
    forall j | 0 <= j < NUM_SIZES
      ensures ListOk(h', j)
    {
      assert ListOk(h, j);
    }
    forall a | a in h'.blocks
      ensures BlockOk(h', a)
    {
      assert BlockOk(h, a);
    }
  }

  /** The request after a release gets the same block back, and the heap is as before both. */
  lemma RelinkedUnlinked(h: Heap, b: int)
    requires Consistent(h) && b in h.live
    ensures BlockOk(h, b) && Consistent(Relinked(h, b))
    ensures var k := h.blocks[b] / BLOCK_SIZE_STEP;
            0 < k < NUM_SIZES && Relinked(h, b).lists[k] != [] && Unlinked(Relinked(h, b), k) == h
  {
    assert BlockOk(h, b);
    RelinkedConsistent(h, b);
    var k := h.blocks[b] / BLOCK_SIZE_STEP;
    assert ListOk(h, k);
    var h' := Unlinked(Relinked(h, b), k);
    assert h'.mem == h.mem && h'.headers == h.headers && h'.lists == h.lists && h'.live == h.live;
  }

  // ----- cutting a chunk into blocks

  function Spaced(a: int, size: int, n: nat): (r: seq<int>)
    ensures |r| == n
    decreases n
  {
    if n == 0 then [] else [a] + Spaced(a + size, size, n - 1)
  }

  ghost function SpacedBlocks(a: int, size: int, n: nat): map<int, int>
    decreases n
  {
    if n == 0 then map[] else SpacedBlocks(a + size, size, n - 1)[a := size]
  }

  ghost function SpacedLinks(a: int, size: int, n: nat): map<int, int>
    decreases n
  {
    if n == 0 then map[] else SpacedLinks(a + size, size, n - 1)[a := if n == 1 then NULL else a + size]
  }

  lemma SpacedFirst(a: int, size: int, n: nat)
    requires n > 0
    ensures Spaced(a, size, n)[0] == a
  {
  }

  lemma SpacedCons(a: int, size: int, n: nat)
    requires n > 0
    ensures a !in SpacedBlocks(a + size, size, n - 1) ==>
      SpacedBlocks(a, size, n) == map[a := size] + SpacedBlocks(a + size, size, n - 1)
    ensures Spaced(a, size, n) == [a] + Spaced(a + size, size, n - 1)
    ensures forall b :: b in SpacedBlocks(a, size, n) <==> b == a || b in SpacedBlocks(a + size, size, n - 1)
    ensures forall b :: b in SpacedBlocks(a, size, n) ==>
      SpacedBlocks(a, size, n)[b] == if b == a then size else SpacedBlocks(a + size, size, n - 1)[b]
  {
  }

  lemma {:induction false} SpacedTiled(a: int, size: int, n: nat, end: int)
    requires 0 < size && end == a + n * size
    ensures Tiled(SpacedBlocks(a, size, n), a, end)
    ensures forall b :: b in Spaced(a, size, n) <==> b in SpacedBlocks(a, size, n)
    ensures forall b :: b in SpacedBlocks(a, size, n) ==> SpacedBlocks(a, size, n)[b] == size
    decreases n
  {
    if n > 0 {
      Distributed(n, size);
      SpacedTiled(a + size, size, n - 1, end);
      TiledOne(a, size);
      TiledJoin(map[a := size], a, a + size, SpacedBlocks(a + size, size, n - 1), end);
      assert a !in SpacedBlocks(a + size, size, n - 1);
      SpacedCons(a, size, n);
      hide Tiled, Spaced, SpacedBlocks;
    } else {
      assert n * size == 0;
    }
  }

  lemma Distributed(n: nat, size: int)
    requires n > 0
    ensures n * size == (n - 1) * size + size
  {
  }

  lemma TiledOne(a: int, size: int)
    requires 0 < size
    ensures Tiled(map[a := size], a, a + size)
  {
    forall x | a <= x < a + size
      ensures Covered(map[a := size], x)
    {
      assert Covers(map[a := size], a, x);
    }
  }

  lemma TiledJoin(b: map<int, int>, low: int, middle: int, c: map<int, int>, high: int)
    requires Tiled(b, low, middle) && Tiled(c, middle, high)
    ensures Tiled(b + c, low, high)
  {
    assert forall a :: a in b ==> a < middle;
    assert forall a :: a in c ==> middle <= a;
    forall x | low <= x < high
      ensures Covered(b + c, x)
    {
      if x < middle {
        assert Covered(b, x);
        var a :| Covers(b, a, x);
        assert a !in c && Covers(b + c, a, x);
      } else {
        assert Covered(c, x);
        var a :| Covers(c, a, x);
        assert Covers(b + c, a, x);
      }
    }
  }

  lemma {:induction false} SpacedAscends(a: int, size: int, n: nat)
    requires 0 < size
    ensures NoRepeat(Spaced(a, size, n)) && forall b :: b in Spaced(a, size, n) ==> a <= b
    decreases n
  {
    if n > 0 {
      SpacedAscends(a + size, size, n - 1);
      var list, rest := Spaced(a, size, n), Spaced(a + size, size, n - 1);
      forall i, j | 0 <= i < j < n
        ensures list[i] != list[j]
      {
        assert rest[j - 1] in rest;
      }
    }
  }

  /** A list in front of which one address has been put. */
  lemma LinkedCons(a: int, list: seq<int>, head: int, mem: map<int, int>)
    requires Linked(list, head, mem) && a !in list
    ensures Linked([a] + list, a, mem[a := head])
  {
    var all := [a] + list;
    forall i | 0 <= i < |all|
      ensures all[i] in mem[a := head] && mem[a := head][all[i]] == Next(all, i)
    {
      if i > 0 {
        assert all[i] == list[i - 1] && list[i - 1] in list && Next(all, i) == Next(list, i - 1);
      }
    }
  }

  lemma {:induction false} SpacedLinked(a: int, size: int, n: nat)
    requires 0 < size && 0 < a
    ensures Linked(Spaced(a, size, n), if n == 0 then NULL else a, SpacedLinks(a, size, n))
    ensures SpacedLinks(a, size, n).Keys == SpacedBlocks(a, size, n).Keys
    decreases n
  {
    if n > 0 {
      SpacedLinked(a + size, size, n - 1);
      SpacedAscends(a + size, size, n - 1);
      hide Linked;
      LinkedCons(a, Spaced(a + size, size, n - 1), if n == 1 then NULL else a + size, SpacedLinks(a + size, size, n - 1));
    }
  }

  /** Adding a chunk of n blocks of size class k, all of them free. */
  ghost function Carved(h: Heap, k: int, n: nat): Heap
    requires Consistent(h) && 0 < k < NUM_SIZES
  {
    var size := BLOCK_SIZE_STEP * k;
    h.(mem := h.mem + SpacedLinks(h.free, size, n),
       headers := h.headers[k := h.free],
       free := h.free + n * size,
       blocks := h.blocks + SpacedBlocks(h.free, size, n),
       lists := h.lists[k := Spaced(h.free, size, n)])
  }

  /** A free list whose header and links are untouched is still right. */
  lemma ListKept(h: Heap, h': Heap, k: int)
    requires 0 <= k < NUM_SIZES == |h.lists| == |h.headers| == |h'.lists| == |h'.headers| && ListOk(h, k)
    requires h'.lists[k] == h.lists[k] && h'.headers[k] == h.headers[k] && h'.live <= h.live
    requires forall a :: a in h.blocks ==> a in h'.blocks && h'.blocks[a] == h.blocks[a]
    requires forall a :: a in h.blocks && a in h.mem ==> a in h'.mem && h'.mem[a] == h.mem[a]
    ensures ListOk(h', k)
  {
    assert forall i :: 0 <= i < |h.lists[k]| ==> h.lists[k][i] in h.lists[k];
  }

  lemma CarvedList(h: Heap, k: int, n: nat)
    requires Consistent(h) && 0 < k < NUM_SIZES && n > 0
    ensures ListOk(Carved(h, k, n), k)
  {
    var h', size := Carved(h, k, n), BLOCK_SIZE_STEP * k;
    SpacedTiled(h.free, size, n, h.free + n * size);
    SpacedLinked(h.free, size, n);
    SpacedAscends(h.free, size, n);
    var list := Spaced(h.free, size, n);
    assert forall i :: 0 <= i < |list| ==> list[i] in list;
  }

  lemma CarvedTiled(h: Heap, k: int, n: nat)
    requires Consistent(h) && 0 < k < NUM_SIZES && n > 0
    ensures var h' := Carved(h, k, n);
            0 < h'.start && Tiled(h'.blocks, h'.start, h'.free) && h'.live <= h'.blocks.Keys
  {
    var size := BLOCK_SIZE_STEP * k;
    SpacedTiled(h.free, size, n, h.free + n * size);
    TiledJoin(h.blocks, h.start, h.free, SpacedBlocks(h.free, size, n), h.free + n * size);
    hide Spaced, SpacedBlocks, SpacedLinks, Covered, ListOk, BlockOk, Tiled;
  }

  lemma OtherListKept(h: Heap, k: int, n: nat, j: int)
    requires Consistent(h) && 0 < k < NUM_SIZES && n > 0 && 0 <= j < NUM_SIZES && j != k
    ensures ListOk(Carved(h, k, n), j)
  {
    var size := BLOCK_SIZE_STEP * k;
    SpacedTiled(h.free, size, n, h.free + n * size);
    SpacedLinked(h.free, size, n);
    hide Spaced, SpacedBlocks, SpacedLinks, Covered, NoRepeat, Linked, BlockOk;
    assert ListOk(h, j);
    hide ListOk;
    ListKept(h, Carved(h, k, n), j);
  }

  lemma CarvedConsistent(h: Heap, k: int, n: nat)
    requires Consistent(h) && 0 < k < NUM_SIZES && h.lists[k] == [] && n > 0
    ensures Consistent(Carved(h, k, n))
  {
    var h' := Carved(h, k, n);
    CarvedTiled(h, k, n);
    assert |h'.lists| == NUM_SIZES == |h'.headers|;
    hide Carved, Tiled, ListOk, BlockOk;
    forall j | 0 <= j < NUM_SIZES
      ensures ListOk(h', j)
    {
      if j != k {
        OtherListKept(h, k, n, j);
      } else {
        CarvedList(h, k, n);
      }
    }
    forall a | a in h'.blocks
      ensures BlockOk(h', a)
    {
      CarvedBlock(h, k, n, a);
    }
  }

  lemma CarvedBlock(h: Heap, k: int, n: nat, a: int)
    requires Consistent(h) && 0 < k < NUM_SIZES && h.lists[k] == [] && a in Carved(h, k, n).blocks
    ensures BlockOk(Carved(h, k, n), a)
  {
    var h', size := Carved(h, k, n), BLOCK_SIZE_STEP * k;
    SpacedTiled(h.free, size, n, h.free + n * size);
    SpacedLinked(h.free, size, n);
    hide Spaced, SpacedBlocks, SpacedLinks, ListOk, NoRepeat, Linked;
    if a in SpacedBlocks(h.free, size, n) {
      assert h'.blocks[a] == size && a !in h.live;
      assert size / BLOCK_SIZE_STEP == k;
    } else {
      assert BlockOk(h, a) && a < h.free;
      assert h.blocks[a] / BLOCK_SIZE_STEP != k || a in h.live;
    }
  }

  // ----- the three operations on the heap

  /** How many blocks of the given size a chunk holds. */
  function ChunkBlocks(size: int): nat
    requires 0 < size
  {
    if size * 10 < MIN_ALLOCATION then MIN_ALLOCATION / size else 10
  }

  ghost predicate Served(size: int) {
    1 <= size && size + INT_SIZE < INT_LIMIT && BlockSize(size) / BLOCK_SIZE_STEP < NUM_SIZES
  }

  /** Requests of 1 to 4084 bytes are served, and no others. */
  lemma ServedExact(size: int)
    requires size + INT_SIZE < INT_LIMIT
    ensures Served(size) <==> 1 <= size <= 4084
  {
    if 1 <= size {
      BlockSizeIsRoundedUp(size);
      hide BlockSize;
    }
  }

  /** A chunk is ten blocks, or for the smallest blocks as many as fit into 100 bytes. */
  lemma ChunkMeans(size: int)
    requires 0 < size
    ensures size >= 10 ==> ChunkBlocks(size) == 10
    ensures size < 10 ==> ChunkBlocks(size) * size <= 100 < (ChunkBlocks(size) + 1) * size
  {
  }

  /** The heap grows only for a request whose list is empty, and then by one chunk. */
  lemma GrowsByChunk(h: Heap, size: int)
    requires Consistent(h)
    ensures var h' := Allocated(h, size);
            h'.free == if Served(size) && h.lists[BlockSize(size) / BLOCK_SIZE_STEP] == [] then
                         h.free + ChunkBlocks(BlockSize(size)) * BlockSize(size)
                       else h.free
  {
    if Served(size) {
      BlockSizeIsRoundedUp(size);
      hide BlockSize, ChunkBlocks, Consistent;
    }
  }

  /** allocate(size): the heap after it. */
  ghost function Allocated(h: Heap, size: int): Heap
    requires Consistent(h)
  {
    if !Served(size) then h
    else
      BlockSizeIsRoundedUp(size);
      var k := BlockSize(size) / BLOCK_SIZE_STEP;
      if h.lists[k] == [] then
        CarvedConsistent(h, k, ChunkBlocks(BlockSize(size)));
        Unlinked(Carved(h, k, ChunkBlocks(BlockSize(size))), k)
      else
        Unlinked(h, k)
  }

  /** The block that allocate(size) hands out. */
  ghost function Chosen(h: Heap, size: int): int
    requires Consistent(h) && Served(size)
  {
    BlockSizeIsRoundedUp(size);
    var k := BlockSize(size) / BLOCK_SIZE_STEP;
    if h.lists[k] == [] then h.free else h.lists[k][0]
  }

  /** Words overlap when they share a byte. */
  predicate Overlap(x: int, y: int) {
    -INT_SIZE < x - y < INT_SIZE
  }

  /** Memory after a program's own write: words that share only some bytes with x are no longer known. */
  ghost function Written(mem: map<int, int>, x: int, word: int): map<int, int> {
    (map a | a in mem && !Overlap(a, x) :: mem[a])[x := word]
  }

  /** A word inside a block the program holds, past the block's first word; it need not be aligned. */
  ghost predicate InPayload(h: Heap, b: int, x: int) {
    b in h.live && b in h.blocks && b + INT_SIZE <= x && x + INT_SIZE <= b + h.blocks[b]
  }

  /** The four bytes of the word at x. */
  predicate HasByte(x: int, k: int) {
    x <= k < x + 4
  }

  /** Two words overlap exactly if some byte belongs to both. */
  lemma OverlapExact(x: int, y: int)
    ensures Overlap(x, y) <==> exists k :: HasByte(x, k) && HasByte(y, k)
  {
    if Overlap(x, y) {
      var k := if x < y then y else x;
      assert HasByte(x, k) && HasByte(y, k);
    }
  }

  /** A program may write a word exactly where each of its bytes is in the block and past the block's first word. */
  lemma InPayloadExact(h: Heap, b: int, x: int)
    ensures InPayload(h, b, x) <==>
      b in h.live && b in h.blocks && forall k :: HasByte(x, k) ==> b + 4 <= k < b + h.blocks[b]
  {
    assert HasByte(x, x) && HasByte(x, x + 3);
  }

  datatype Operation = Allocate(size: int) | Release(block: int) | Write(block: int, address: int, word: int)

  /** Only live blocks are released, and a program writes only inside the blocks it holds. */
  ghost predicate Allowed(h: Heap, op: Operation) {
    match op
    case Allocate(size) => size + INT_SIZE < INT_LIMIT
    case Release(b) => b in h.live
    case Write(b, x, _) => InPayload(h, b, x)
  }

  ghost function Apply(h: Heap, op: Operation): Heap
    requires Consistent(h) && Allowed(h, op)
  {
    match op
    case Allocate(size) => Allocated(h, size)
    case Release(b) => Relinked(h, b)
    case Write(_, x, word) => h.(mem := Written(h.mem, x, word))
  }

  lemma WriteConsistent(h: Heap, b: int, x: int, word: int)
    requires Consistent(h) && InPayload(h, b, x)
    ensures Consistent(h.(mem := Written(h.mem, x, word)))
  {
    var h' := h.(mem := Written(h.mem, x, word));
    assert forall a :: a in h.blocks ==> !Overlap(a, x) by {
      assert forall a :: a in h.blocks ==> a <= b || b + h.blocks[b] <= a;
      assert BlockOk(h, b);
    }
    forall k | 0 <= k < NUM_SIZES
      ensures ListOk(h', k)
    {
      assert ListOk(h, k);
      ListKept(h, h', k);
    }
    forall a | a in h'.blocks
      ensures BlockOk(h', a)
    {
      assert BlockOk(h, a);
    }
  }

  /**
   A request that can be served gets a block that nobody held, with its size stored in its first word
   and at least the requested room after it; all other requests leave the heap alone.
  */
  lemma AllocatedBlock(h: Heap, size: int)
    requires Consistent(h)
    ensures Consistent(Allocated(h, size))
    ensures !Served(size) ==> Allocated(h, size) == h
    ensures Served(size) ==>
      var h', b := Allocated(h, size), Chosen(h, size);
      && b !in h.live && h'.live == h.live + {b}
      && b in h'.blocks && b in h'.mem && h'.mem[b] == h'.blocks[b] == BlockSize(size) >= size + INT_SIZE
      && (forall a :: a in h.blocks ==> a in h'.blocks && h'.blocks[a] == h.blocks[a])
      && (b in h.blocks || b == h.free)
  {
    hide BlockSize, And, Tiled, NoRepeat, Linked, BlockOk, Spaced, SpacedBlocks, SpacedLinks;
    if Served(size) {
      BlockSizeIsRoundedUp(size);
      var k := BlockSize(size) / BLOCK_SIZE_STEP;
      var h1 := h;
      if h.lists[k] == [] {
        var n := ChunkBlocks(BlockSize(size));
        CarvedConsistent(h, k, n);
        CarvedKeeps(h, k, n);
        h1 := Carved(h, k, n);
      }
      UnlinkedConsistent(h1, k);
      assert ListOk(h1, k) && h1.lists[k][0] in h1.lists[k];
    }
  }

  lemma CarvedKeeps(h: Heap, k: int, n: nat)
    requires Consistent(h) && 0 < k < NUM_SIZES && n > 0
    ensures forall a :: a in h.blocks ==> a in Carved(h, k, n).blocks && Carved(h, k, n).blocks[a] == h.blocks[a]
    ensures Carved(h, k, n).lists[k] != [] && Carved(h, k, n).lists[k][0] == h.free
  {
    var size := BLOCK_SIZE_STEP * k;
    SpacedTiled(h.free, size, n, h.free + n * size);
    SpacedFirst(h.free, size, n);
    hide Spaced, SpacedBlocks, ListOk, BlockOk, Covered;
  }

  lemma ApplyConsistent(h: Heap, op: Operation)
    requires Consistent(h) && Allowed(h, op)
    ensures Consistent(Apply(h, op))
  {
    match op
    case Allocate(size) => AllocatedBlock(h, size);
    case Release(b) => RelinkedConsistent(h, b);
    case Write(b, x, word) => WriteConsistent(h, b, x, word);
  }

  /** The heap after a run, or None once the program breaks the rules. */
  datatype Outcome = Misuse | Reached(heap: Heap)

  ghost function Run(h: Heap, ops: seq<Operation>): (r: Outcome)
    requires Consistent(h)
    ensures r.Reached? ==> Consistent(r.heap)
  {
    if ops == [] then Reached(h)
    else
      var before := Run(h, ops[..|ops| - 1]);
      var op := ops[|ops| - 1];
      if before.Misuse? || !Allowed(before.heap, op) then Misuse
      else
        ApplyConsistent(before.heap, op);
        Reached(Apply(before.heap, op))
  }

  lemma RunLast(h: Heap, ops: seq<Operation>)
    requires Consistent(h) && ops != []
    ensures var before, op := Run(h, ops[..|ops| - 1]), ops[|ops| - 1];
            Run(h, ops) == if before.Misuse? || !Allowed(before.heap, op) then Misuse else Reached(Apply(before.heap, op))
  {
    hide Consistent, Allowed, Apply;
  }

  /** What a program stored in a block stays there until it writes to any byte of it or releases the block. */
  lemma {:induction false} PayloadKept(h: Heap, ops: seq<Operation>, b: int, x: int)
    requires Consistent(h) && InPayload(h, b, x) && x in h.mem
    requires forall op :: op in ops ==> op != Release(b) && !(op.Write? && Overlap(op.address, x))
    ensures var r := Run(h, ops);
            r.Reached? ==> InPayload(r.heap, b, x) && x in r.heap.mem && r.heap.mem[x] == h.mem[x]
  {
    if ops == [] {
      assert Run(h, ops) == Reached(h);
    } else {
      hide Run, Consistent, Allowed, Apply, InPayload, Overlap;
      var last := |ops| - 1;
      assert forall op :: op in ops[..last] ==> op in ops;
      PayloadKept(h, ops[..last], b, x);
      RunLast(h, ops);
      assert ops[last] in ops;
      var before := Run(h, ops[..last]);
      if before.Reached? && Allowed(before.heap, ops[last]) {
        StepKeepsPayload(before.heap, ops[last], b, x);
      }
    }
  }

  lemma StepKeepsPayload(h: Heap, op: Operation, b: int, x: int)
    requires Consistent(h) && InPayload(h, b, x) && x in h.mem && Allowed(h, op)
    requires op != Release(b) && !(op.Write? && Overlap(op.address, x))
    ensures InPayload(Apply(h, op), b, x) && x in Apply(h, op).mem && Apply(h, op).mem[x] == h.mem[x]
  {
    if op.Allocate? && Served(op.size) {
      AllocatedBlock(h, op.size);
      BlockSizeIsRoundedUp(op.size);
      var k := BlockSize(op.size) / BLOCK_SIZE_STEP;
      if h.lists[k] == [] {
        var n := ChunkBlocks(BlockSize(op.size));
        SpacedTiled(h.free, BlockSize(op.size), n, h.free + n * BlockSize(op.size));
        SpacedLinked(h.free, BlockSize(op.size), n);
      } else {
        assert ListOk(h, k) && h.lists[k][0] in h.lists[k];
      }
    }
  }

  // ----- the code

  class SmallBlocks {
    var mem: map<int, int>
    var smallBlockHeaders: array<int>
    var freeSpace: int
    var initialized: bool
    ghost var start: int
    ghost var blocks: map<int, int>
    ghost var lists: seq<seq<int>>
    ghost var live: set<int>

    /** Before the first allocation the headers hold nothing of meaning. */
    ghost function State(): Heap
      reads this, smallBlockHeaders
    {
      Heap(mem, if initialized then smallBlockHeaders[..] else seq(NUM_SIZES, _ => NULL), start, freeSpace,
           blocks, lists, live)
    }

    ghost predicate Valid()
      reads this, smallBlockHeaders
    {
      smallBlockHeaders.Length == NUM_SIZES && Consistent(State()) && (!initialized ==> live == {})
    }

    constructor InitHeap(heapStart: int, memory: map<int, int>)
      requires 0 < heapStart
      ensures Valid() && mem == memory && freeSpace == start == heapStart && blocks == map[] && live == {}
    {
      mem := memory;
      smallBlockHeaders := new int[NUM_SIZES];
      initialized := false;
      freeSpace := heapStart;
      start := heapStart;
      blocks, live := map[], {};
      lists := seq(NUM_SIZES, _ => []);
    }

    method ClearHeaders()
      requires smallBlockHeaders.Length == NUM_SIZES
      modifies `initialized, smallBlockHeaders
      ensures initialized && State() == old(State())
    {
      if !initialized {
        initialized := true;
        for j := 0 to NUM_SIZES
          invariant forall i :: 0 <= i < j ==> smallBlockHeaders[i] == NULL
          modifies smallBlockHeaders
        {
          smallBlockHeaders[j] := NULL;
        }
      }
    }

    /** Splits a chunk of n blocks into blocks, from its end downwards, and puts them on list k. */
    method SplitChunk(k: int, size: int, chunk: int, end: int, ghost n: nat)
      requires 0 <= k < smallBlockHeaders.Length && 0 < size && end == chunk + n * size
      requires smallBlockHeaders[k] == NULL
      modifies `mem, smallBlockHeaders
      ensures mem == old(mem) + SpacedLinks(chunk, size, n)
      ensures smallBlockHeaders[..] == old(smallBlockHeaders[..])[k := if n == 0 then NULL else chunk]
    {
      var endChunk := end - size;
      ghost var left: nat := n;
      assert mem == old(mem) + SpacedLinks(endChunk + size, size, 0);
      while endChunk >= chunk
        invariant left <= n && endChunk + size == chunk + left * size
        invariant mem == old(mem) + SpacedLinks(endChunk + size, size, n - left)
        invariant smallBlockHeaders[..] == old(smallBlockHeaders[..])[k := if left == n then NULL else endChunk + size]
        decreases left
      {
        AtLeastOne(left, size);
        assert left * size == (left - 1) * size + size;
        mem := mem[endChunk := smallBlockHeaders[k]];
        smallBlockHeaders[k] := endChunk;
        endChunk := endChunk - size;
        left := left - 1;
      }
      NoneLeft(left, size);
    }

    /** Takes a chunk off the heap and makes its blocks the free list k. */
    method Carve(k: int, size: int)
      requires Valid() && initialized && 0 < k < NUM_SIZES && size == BLOCK_SIZE_STEP * k && lists[k] == []
      modifies this, smallBlockHeaders
      ensures Valid() && initialized && smallBlockHeaders == old(smallBlockHeaders)
      ensures State() == Carved(old(State()), k, ChunkBlocks(size))
    {
      hide SpacedBlocks, SpacedLinks, Spaced, NoRepeat, Linked, Tiled;
      ghost var before, n := State(), ChunkBlocks(size);
      var allocation := size * 10;
      if allocation < MIN_ALLOCATION {
        var numChunks := MIN_ALLOCATION / size;
        allocation := numChunks * size;
      }
      assert allocation == n * size;
      var chunk := freeSpace;
      var endChunk := chunk + allocation;
      freeSpace := endChunk;
      NullHeader(before, k);
      SplitChunk(k, size, chunk, endChunk, n);
      blocks := blocks + SpacedBlocks(before.free, size, n);
      lists := lists[k := Spaced(before.free, size, n)];
      CarvedConsistent(before, k, n);
    }

    static lemma NoneLeft(left: nat, size: int)
      requires 0 < size && left * size < size
      ensures left == 0
    {
      if left > 0 {
        AtLeast(left, size);
      }
    }

    static lemma {:induction false} AtLeast(left: nat, size: int)
      requires left > 0 && 0 < size
      ensures left * size >= size
    {
      if left > 1 {
        AtLeast(left - 1, size);
      }
    }

    static lemma AtLeastOne(left: nat, size: int)
      requires 0 < size <= left * size
      ensures left > 0
    {
    }

    /** Takes the first block off list k and saves its size in it. */
    method Unlink(k: int, size: int) returns (block: int)
      requires Valid() && initialized && 0 < k < NUM_SIZES && size == BLOCK_SIZE_STEP * k && lists[k] != []
      modifies this, smallBlockHeaders
      ensures Valid() && initialized && smallBlockHeaders == old(smallBlockHeaders)
      ensures block == old(lists[k][0]) && State() == Unlinked(old(State()), k)
    {
      hide Tiled, NoRepeat, BlockOk;
      ghost var h := State();
      assert ListOk(h, k);
      block := smallBlockHeaders[k];
      smallBlockHeaders[k] := mem[block];
      mem := mem[block := size];
      lists := lists[k := lists[k][1..]];
      live := live + {block};
      UnlinkedConsistent(h, k);
      hide ListOk;
      assert State() == Unlinked(h, k);
    }

    method Allocate(size: int) returns (memory: int)
      requires Valid() && size + INT_SIZE < INT_LIMIT
      modifies this, smallBlockHeaders
      ensures Valid() && smallBlockHeaders == old(smallBlockHeaders)
      ensures State() == Allocated(old(State()), size)
      ensures memory == if Served(size) then Chosen(old(State()), size) + INT_SIZE else NULL
    {
      hide BlockSize, And, Tiled, NoRepeat, BlockOk, Spaced, SpacedBlocks, SpacedLinks;
      ClearHeaders();
      if size < 1 {
        return NULL;
      }
      BlockSizeIsRoundedUp(size);
      var total := BlockSize(size);
      var numSize := total / BLOCK_SIZE_STEP;
      if numSize >= NUM_SIZES {
        return NULL;
      }
      assert ListOk(State(), numSize);
      if smallBlockHeaders[numSize] == NULL {
        NullHeader(State(), numSize);
        SpacedFirst(freeSpace, total, ChunkBlocks(total));
        Carve(numSize, total);
      }
      var block := Unlink(numSize, total);
      memory := block + INT_SIZE;
    }

    method Release(memory: int)
      requires Valid() && memory - INT_SIZE in live
      modifies this, smallBlockHeaders
      ensures Valid() && smallBlockHeaders == old(smallBlockHeaders)
      ensures State() == Relinked(old(State()), memory - INT_SIZE)
    {
      ghost var h := State();
      var chunk := memory - INT_SIZE;
      assert BlockOk(h, chunk);
      var size := mem[chunk];
      var numSize := size / BLOCK_SIZE_STEP;
      mem := mem[chunk := smallBlockHeaders[numSize]];
      smallBlockHeaders[numSize] := chunk;
      lists := lists[numSize := [chunk] + lists[numSize]];
      live := live - {chunk};
      RelinkedConsistent(h, chunk);
      assert State() == Relinked(h, chunk);
    }
  }

  /** A list is empty exactly when its header is NULL. */
  lemma NullHeader(h: Heap, k: int)
    requires Consistent(h) && 0 <= k < NUM_SIZES
    ensures h.headers[k] == NULL <==> h.lists[k] == []
  {
    assert ListOk(h, k);
    if h.lists[k] != [] {
      assert h.lists[k][0] in h.lists[k];
    }
  }
}
