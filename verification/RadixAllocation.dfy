/** The radix tree on the small-block allocator: A6/handout/radix.c with the allocate and release of lib.c. */
module RadixAllocation {
  import opened RadixTrie
  import opened NodeCalls
  import opened Allocator

  const NODE_SIZE := NODE_WORDS * INT_SIZE

  /** What a sequence of calls does on a heap: its operations, the block of each live node, and the heap after. */
  datatype Placement = Placement(ops: seq<Operation>, blocks: map<Node, int>, heap: Heap)

  lemma NodeServed()
    ensures Served(NODE_SIZE)
  {
    BlockSizeIsRoundedUp(NODE_SIZE);
  }

  /** A live block with room for a node. */
  ghost predicate HasRoom(h: Heap, b: int) {
    b in h.live && b in h.blocks && h.blocks[b] >= NODE_SIZE + INT_SIZE
  }

  /** Every live node has a block of its own with room for it, and nothing else has become live. */
  ghost predicate Housed(h: Heap, p: Placement, nodes: set<Node>) {
    && Consistent(p.heap) && p.blocks.Keys == nodes && h.live <= p.heap.live
    && (forall n :: n in p.blocks ==> p.blocks[n] !in h.live && HasRoom(p.heap, p.blocks[n]))
    && (forall m, n :: m in p.blocks && n in p.blocks && m != n ==> p.blocks[m] != p.blocks[n])
    && (forall b :: b in p.heap.live ==> b in h.live || IsHouse(p.blocks, b))
  }

  ghost predicate IsHouse(blocks: map<Node, int>, b: int) {
    exists n :: n in blocks && blocks[n] == b
  }

  lemma HouseAdded(blocks: map<Node, int>, n: Node, b: int)
    requires n !in blocks
    ensures forall x :: IsHouse(blocks[n := b], x) <==> IsHouse(blocks, x) || x == b
  {
    forall x
      ensures IsHouse(blocks[n := b], x) <==> IsHouse(blocks, x) || x == b
    {
      if m :| m in blocks && blocks[m] == x {
        assert m in blocks[n := b] && blocks[n := b][m] == x;
      }
      if x == b {
        assert blocks[n := b][n] == x;
      }
    }
  }

  lemma HouseLeft(blocks: map<Node, int>, n: Node)
    requires n in blocks
    ensures forall x :: IsHouse(blocks, x) && x != blocks[n] ==> IsHouse(blocks - {n}, x)
  {
    forall x | IsHouse(blocks, x) && x != blocks[n]
      ensures IsHouse(blocks - {n}, x)
    {
      var m :| m in blocks && blocks[m] == x;
      assert m in blocks - {n} && (blocks - {n})[m] == x;
    }
  }

  /** Proper calls are an allowed run of the allocator: it is never misused, and no allocation fails. */
  ghost function Place(h: Heap, calls: seq<Call>): (p: Placement)
    requires Consistent(h) && Proper(calls)
    ensures Housed(h, p, LiveAfter(calls)) && Run(h, p.ops) == Reached(p.heap)
    decreases |calls|
  {
    if calls == [] then Placement([], map[], h)
    else
      var before := Place(h, calls[..|calls| - 1]);
      match calls[|calls| - 1]
      case Taken(n) =>
        NodeServed();
        PlaceTaken(h, before, LiveAfter(calls[..|calls| - 1]), n);
        PlacedTaken(before, n)
      case Given(n) =>
        PlaceGiven(h, before, LiveAfter(calls[..|calls| - 1]), n);
        PlacedGiven(before, n)
      case Set(n, field, word) =>
        PlaceSet(h, before, LiveAfter(calls[..|calls| - 1]), n, field, word);
        PlacedSet(before, n, field, word)
  }

  ghost function PlacedTaken(p: Placement, n: Node): Placement
    requires Consistent(p.heap) && Served(NODE_SIZE)
  {
    Placement(p.ops + [Allocate(NODE_SIZE)], p.blocks[n := Chosen(p.heap, NODE_SIZE)], Allocated(p.heap, NODE_SIZE))
  }

  ghost function PlacedGiven(p: Placement, n: Node): Placement
    requires Consistent(p.heap) && n in p.blocks && p.blocks[n] in p.heap.live
  {
    Placement(p.ops + [Release(p.blocks[n])], p.blocks - {n}, Relinked(p.heap, p.blocks[n]))
  }

  /** Where a field of the node in block b is: past the word that holds the block's size. */
  function FieldAddress(b: int, field: int): int {
    b + INT_SIZE + field * INT_SIZE
  }

  /** The two ints come first, and then the two words of the union. */
  lemma FieldsInOrder(b: int)
    ensures [FieldAddress(b, 0), FieldAddress(b, 1), FieldAddress(b, 2), FieldAddress(b, 3)] == [b + 4, b + 8, b + 12, b + 16]
  {
  }

  ghost function PlacedSet(p: Placement, n: Node, field: int, word: int): Placement
    requires n in p.blocks
  {
    var x := FieldAddress(p.blocks[n], field);
    Placement(p.ops + [Write(p.blocks[n], x, word)], p.blocks, p.heap.(mem := Written(p.heap.mem, x, word)))
  }

  lemma RunOneMore(h: Heap, ops: seq<Operation>, middle: Heap, op: Operation)
    requires Consistent(h) && Consistent(middle) && Run(h, ops) == Reached(middle) && Allowed(middle, op)
    ensures Run(h, ops + [op]) == Reached(Apply(middle, op))
  {
    hide Consistent, Apply, Allowed;
    assert (ops + [op])[..|ops|] == ops;
  }

  lemma PlaceTaken(h: Heap, p: Placement, nodes: set<Node>, n: Node)
    requires Consistent(h) && Housed(h, p, nodes) && Run(h, p.ops) == Reached(p.heap) && n !in nodes && Served(NODE_SIZE)
    ensures Housed(h, PlacedTaken(p, n), nodes + {n})
    ensures Run(h, PlacedTaken(p, n).ops) == Reached(PlacedTaken(p, n).heap)
  {
    hide Consistent, Allocated, Chosen, BlockSize, Run, IsHouse;
    AllocatedBlock(p.heap, NODE_SIZE);
    RunOneMore(h, p.ops, p.heap, Allocate(NODE_SIZE));
    LiveKept(h, p);
    HouseAdded(p.blocks, n, Chosen(p.heap, NODE_SIZE));
    var q := PlacedTaken(p, n);
    var chosen := Chosen(p.heap, NODE_SIZE);
    assert q.blocks == p.blocks[n := chosen] && q.heap.live == p.heap.live + {chosen};
    forall m | m in q.blocks
      ensures q.blocks[m] !in h.live && HasRoom(q.heap, q.blocks[m])
    {
      assert m == n || HasRoom(p.heap, p.blocks[m]);
    }
    forall l, m | l in q.blocks && m in q.blocks && l != m
      ensures q.blocks[l] != q.blocks[m]
    {
      assert l == n || HasRoom(p.heap, p.blocks[l]);
      assert m == n || HasRoom(p.heap, p.blocks[m]);
    }
    forall b | b in q.heap.live
      ensures b in h.live || IsHouse(q.blocks, b)
    {
      assert b == chosen || b in h.live || IsHouse(p.blocks, b);
      assert IsHouse(p.blocks[n := chosen], b) <==> IsHouse(p.blocks, b) || b == chosen;
    }
  }

  lemma PlaceGiven(h: Heap, p: Placement, nodes: set<Node>, n: Node)
    requires Consistent(h) && Housed(h, p, nodes) && Run(h, p.ops) == Reached(p.heap) && n in nodes
    ensures Housed(h, PlacedGiven(p, n), nodes - {n})
    ensures Run(h, PlacedGiven(p, n).ops) == Reached(PlacedGiven(p, n).heap)
  {
    RelinkedConsistent(p.heap, p.blocks[n]);
    hide Consistent, Run, IsHouse;
    RunOneMore(h, p.ops, p.heap, Release(p.blocks[n]));
    HouseLeft(p.blocks, n);
  }

  lemma FieldInPayload(h: Heap, p: Placement, nodes: set<Node>, n: Node, field: int)
    requires Housed(h, p, nodes) && n in nodes && 0 <= field < NODE_WORDS
    ensures InPayload(p.heap, p.blocks[n], FieldAddress(p.blocks[n], field))
  {
    hide Consistent, IsHouse;
    assert HasRoom(p.heap, p.blocks[n]);
  }

  lemma PlaceSet(h: Heap, p: Placement, nodes: set<Node>, n: Node, field: int, word: int)
    requires Consistent(h) && Housed(h, p, nodes) && Run(h, p.ops) == Reached(p.heap)
    requires n in nodes && 0 <= field < NODE_WORDS
    ensures Housed(h, PlacedSet(p, n, field, word), nodes)
    ensures Run(h, PlacedSet(p, n, field, word).ops) == Reached(PlacedSet(p, n, field, word).heap)
  {
    FieldInPayload(h, p, nodes, n, field);
    var b := p.blocks[n];
    WriteConsistent(p.heap, b, FieldAddress(b, field), word);
    hide Consistent, Run, IsHouse, InPayload, Written, FieldAddress;
    RunOneMore(h, p.ops, p.heap, Write(b, FieldAddress(b, field), word));
    var q := PlacedSet(p, n, field, word);
    forall m | m in q.blocks
      ensures HasRoom(q.heap, q.blocks[m])
    {
      assert HasRoom(p.heap, p.blocks[m]);
    }
  }

  // ----- which operation belongs to which call

  /** op is what call does when p is the placement before it, and blocks are those after it. */
  ghost predicate Does(p: Placement, call: Call, op: Operation, blocks: map<Node, int>)
    requires Consistent(p.heap)
  {
    match call
    case Taken(n) =>
      Served(NODE_SIZE) && op == Allocate(NODE_SIZE) && n !in p.blocks && blocks == p.blocks[n := Chosen(p.heap, NODE_SIZE)]
    case Given(n) => n in p.blocks && op == Release(p.blocks[n]) && blocks == p.blocks - {n}
    case Set(n, field, word) =>
      n in p.blocks && op == Write(p.blocks[n], FieldAddress(p.blocks[n], field), word) && blocks == p.blocks
  }

  /** The placement after one more call. */
  ghost predicate Follows(p: Placement, call: Call, q: Placement)
    requires Consistent(p.heap)
  {
    match call
    case Taken(n) => Served(NODE_SIZE) && n !in p.blocks && q == PlacedTaken(p, n)
    case Given(n) => n in p.blocks && p.blocks[n] in p.heap.live && q == PlacedGiven(p, n)
    case Set(n, field, word) => n in p.blocks && q == PlacedSet(p, n, field, word)
  }

  lemma LastCall(h: Heap, calls: seq<Call>)
    requires Consistent(h) && Proper(calls) && calls != []
    ensures Follows(Place(h, calls[..|calls| - 1]), calls[|calls| - 1], Place(h, calls))
  {
    NodeServed();
    hide Consistent, PlacedTaken, PlacedGiven, PlacedSet, Served, Run;
  }

  lemma LastOperation(h: Heap, calls: seq<Call>)
    requires Consistent(h) && Proper(calls) && calls != []
    ensures var p, q := Place(h, calls[..|calls| - 1]), Place(h, calls);
            && |q.ops| == |p.ops| + 1 && q.ops[..|p.ops|] == p.ops
            && Does(p, calls[|calls| - 1], q.ops[|p.ops|], q.blocks)
  {
    LastCall(h, calls);
    hide Consistent, Place, Allocated, Chosen, Relinked, Written, Served, Run, Proper, LiveAfter;
  }

  /**
   Each call is one operation: taking a node is a request, giving it back releases the block chosen for it, and
   setting a word writes at its place in that block.
  */
  lemma {:induction false} OperationOfCall(h: Heap, calls: seq<Call>, i: int)
    requires Consistent(h) && Proper(calls) && 0 <= i < |calls|
    ensures Proper(calls[..i]) && Proper(calls[..i + 1]) && |Place(h, calls).ops| == |calls|
    ensures Does(Place(h, calls[..i]), calls[i], Place(h, calls).ops[i], Place(h, calls[..i + 1]).blocks)
    decreases |calls|
  {
    hide Consistent, Does, Place, Run;
    var last := |calls| - 1;
    LastOperation(h, calls);
    OperationCount(h, calls[..last]);
    assert calls[..i] == calls[..last][..i] && calls[..|calls|] == calls;
    if i < last {
      OperationOfCall(h, calls[..last], i);
      assert calls[..last][..i + 1] == calls[..i + 1] && calls[..last][i] == calls[i];
    }
  }

  lemma {:induction false} OperationCount(h: Heap, calls: seq<Call>)
    requires Consistent(h) && Proper(calls)
    ensures |Place(h, calls).ops| == |calls|
    decreases |calls|
  {
    if calls != [] {
      hide Consistent, Place, Run, Does;
      LastOperation(h, calls);
      OperationCount(h, calls[..|calls| - 1]);
    }
  }

  // ----- what the words of a block hold

  /** The word at the place of a field holds what was last set. */
  ghost predicate Holds(p: Placement, n: Node, field: int, word: Option<int>) {
    n in p.blocks && word.Some? ==>
      var x := FieldAddress(p.blocks[n], field);
      x in p.heap.mem && p.heap.mem[x] == word.value
  }

  /** Fields of different nodes, and different fields of one node, are at least a word apart. */
  lemma FieldsApart(h: Heap, p: Placement, nodes: set<Node>, m: Node, f: int, n: Node, field: int)
    requires Housed(h, p, nodes) && m in nodes && n in nodes && (m != n || f != field)
    requires 0 <= f < NODE_WORDS && 0 <= field < NODE_WORDS
    ensures !Overlap(FieldAddress(p.blocks[m], f), FieldAddress(p.blocks[n], field))
  {
    hide IsHouse;
    if m != n {
      var a, b := p.blocks[m], p.blocks[n];
      assert HasRoom(p.heap, a) && HasRoom(p.heap, b);
      assert a + p.heap.blocks[a] <= b || b + p.heap.blocks[b] <= a;
    }
  }

  lemma TakenHolds(h: Heap, p: Placement, nodes: set<Node>, m: Node, n: Node, field: int, word: Option<int>)
    requires Housed(h, p, nodes) && m !in nodes && n in nodes && 0 <= field < NODE_WORDS && Served(NODE_SIZE)
    requires Holds(p, n, field, word)
    ensures Holds(PlacedTaken(p, m), n, field, word)
  {
    FieldInPayload(h, p, nodes, n, field);
    hide Consistent, Allocated, Chosen, InPayload, FieldAddress, IsHouse;
    if word.Some? {
      StepKeepsPayload(p.heap, Allocate(NODE_SIZE), p.blocks[n], FieldAddress(p.blocks[n], field));
    }
  }

  lemma GivenHolds(h: Heap, p: Placement, nodes: set<Node>, m: Node, n: Node, field: int, word: Option<int>)
    requires Housed(h, p, nodes) && m in nodes && n in nodes && m != n && 0 <= field < NODE_WORDS
    requires p.blocks[m] in p.heap.live && Holds(p, n, field, word)
    ensures Holds(PlacedGiven(p, m), n, field, word)
  {
    FieldInPayload(h, p, nodes, n, field);
    hide Consistent, Relinked, InPayload, FieldAddress, IsHouse;
    if word.Some? {
      StepKeepsPayload(p.heap, Release(p.blocks[m]), p.blocks[n], FieldAddress(p.blocks[n], field));
    }
  }

  lemma SetHolds(h: Heap, p: Placement, nodes: set<Node>, m: Node, f: int, value: int, n: Node, field: int, word: Option<int>)
    requires Housed(h, p, nodes) && m in nodes && n in nodes && 0 <= f < NODE_WORDS && 0 <= field < NODE_WORDS
    requires Holds(p, n, field, word)
    ensures Holds(PlacedSet(p, m, f, value), n, field, if m == n && f == field then Some(value) else word)
  {
    if m != n || f != field {
      FieldsApart(h, p, nodes, m, f, n, field);
    }
    hide Housed, FieldAddress;
  }

  lemma HoldsNothing(h: Heap, p: Placement, nodes: set<Node>, n: Node, field: int, word: Option<int>)
    requires Housed(h, p, nodes) && (n !in nodes || word.None?)
    ensures Holds(p, n, field, word)
  {
    hide Consistent;
  }

  lemma NextHolds(h: Heap, calls: seq<Call>, n: Node, field: int)
    requires Consistent(h) && Proper(calls) && calls != [] && 0 <= field < NODE_WORDS
    requires Holds(Place(h, calls[..|calls| - 1]), n, field, FieldAfter(calls[..|calls| - 1], n, field))
    ensures Holds(Place(h, calls), n, field, FieldAfter(calls, n, field))
  {
    LastCall(h, calls);
    var before, last := calls[..|calls| - 1], calls[|calls| - 1];
    var p, nodes, word := Place(h, before), LiveAfter(before), FieldAfter(before, n, field);
    hide Consistent, Place, Run, Housed, Holds, PlacedTaken, PlacedGiven, PlacedSet, Served;
    if n !in nodes || (last.n == n && !last.Set?) {
      HoldsNothing(h, Place(h, calls), LiveAfter(calls), n, field, FieldAfter(calls, n, field));
    } else {
      match last {
        case Taken(m) => TakenHolds(h, p, nodes, m, n, field, word);
        case Given(m) => GivenHolds(h, p, nodes, m, n, field, word);
        case Set(m, f, value) => SetHolds(h, p, nodes, m, f, value, n, field, word);
      }
    }
  }

  /** In every live node's block each field's word is the one last set in that node, in whatever order calls come. */
  lemma {:induction false} FieldsKept(h: Heap, calls: seq<Call>, n: Node, field: int)
    requires Consistent(h) && Proper(calls) && 0 <= field < NODE_WORDS
    ensures Holds(Place(h, calls), n, field, FieldAfter(calls, n, field))
    decreases |calls|
  {
    hide Consistent, Run;
    if calls != [] {
      hide Place, Holds, FieldAfter;
      FieldsKept(h, calls[..|calls| - 1], n, field);
      NextHolds(h, calls, n, field);
    }
  }

  lemma LiveKept(h: Heap, p: Placement)
    requires Consistent(p.heap)
    ensures forall b :: b in p.heap.live ==> b in p.heap.blocks
  {
  }

  /** A program that gives back every node leaves no block live that was not live before. */
  lemma NothingLeaks(h: Heap, calls: seq<Call>)
    requires Consistent(h) && Proper(calls) && LiveAfter(calls) == {}
    ensures Run(h, Place(h, calls).ops) == Reached(Place(h, calls).heap) && Place(h, calls).heap.live == h.live
  {
    hide Consistent, Place, Run, LiveAfter, Proper;
    var p := Place(h, calls);
    assert forall b :: !IsHouse(p.blocks, b);
    hide IsHouse;
    assert forall b :: b in p.heap.live ==> b in h.live;
  }
}
