/** The radix tree of A6/handout/radix.c: nodes in the heap, updated in place through a cursor. */
module RadixTree {
  import opened BitPositions
  import opened SortedNumbers
  import opened RadixTrie
  import opened NodeCalls

  class Tree {
    /** The C global variable tree. */
    var root: Node?

    /** The snapshot of all nodes below root. */
    ghost var trie: Trie

    /** All calls of allocate and release so far. */
    ghost var calls: seq<Call>

    /** The nodes handed out by allocate and not given back by release. */
    ghost var live: set<Node>

    ghost predicate Logged()
      reads `calls, `live
    {
      Proper(calls) && LiveAfter(calls) == live
    }

    /** The tree is well-formed and the allocator's live blocks are exactly its nodes. */
    ghost predicate Valid()
      reads this, Nodes(trie)
    {
      Mirrors(trie, root) && Distinct(trie) && Wf(trie) && live == Nodes(trie) && Logged()
    }

    /** The stored numbers in ascending order. */
    ghost function Contents(): seq<int>
      reads this
    {
      Flatten(trie)
    }

    constructor ()
      ensures Valid() && Contents() == [] && fresh(live)
    {
      root, trie, calls, live := null, Nil, [], {};
    }

    // ----- links and the allocator

    function Get(slot: Slot): Node?
      reads `root, slot.Owner()
    {
      match slot
      case Root => root
      case ZeroOf(n) => n.zero
      case OneOf(n) => n.one
    }

    method Allocate() returns (n: Node)
      requires Logged()
      modifies `live, `calls
      ensures fresh(n) && live == old(live) + {n} && Logged() && calls == old(calls) + [Call.Taken(n)]
    {
      n := new Node();
      OneCall(calls, Call.Taken(n));
      calls, live := calls + [Call.Taken(n)], live + {n};
    }

    method Release(n: Node)
      requires n in live && Logged()
      modifies `live, `calls
      ensures live == old(live) - {n} && Logged() && calls == old(calls) + [Call.Given(n)]
    {
      OneCall(calls, Call.Given(n));
      calls, live := calls + [Call.Given(n)], live - {n};
    }

    // ----- a cursor into the tree

    /** The branches of the path lead from root to the hole at its end. */
    ghost predicate MirrorsPath(path: Path)
      reads `root, PathNodes(path)
    {
      match path
      case Top => true
      case Down(up, node, level, number, dir, sibling) =>
        && MirrorsPath(up) && Get(up.Hole()) == node
        && node.bitPos == Pow2(level) && node.number == number
        && Mirrors(sibling, if dir then node.zero else node.one)
    }

    /** The whole tree is t plugged into the path, and the parts are disjoint. */
    ghost predicate At(path: Path, t: Trie)
      reads this, PathNodes(path), Nodes(t)
    {
      && PathDistinct(path) && Distinct(t) && PathNodes(path) !! Nodes(t)
      && MirrorsPath(path) && Mirrors(t, Get(path.Hole()))
      && trie == Plug(path, t) && Wf(trie) && live == PathNodes(path) + Nodes(t) && Logged()
    }

    lemma {:induction false} PlugMirrors(path: Path, t: Trie)
      requires MirrorsPath(path) && Mirrors(t, Get(path.Hole()))
      ensures Mirrors(Plug(path, t), root)
    {
      match path
      case Top =>
      case Down(up, node, level, number, dir, sibling) =>
        PlugMirrors(up, Join(node, level, number, dir, sibling, t));
    }

    lemma LeaveCursor(path: Path, t: Trie)
      requires At(path, t)
      ensures Valid()
    {
      PlugMirrors(path, t);
      PlugNodes(path, t);
      PlugDistinct(path, t);
    }

    lemma EnterCursor(number: nat)
      requires Valid() && number < INT_LIMIT
      ensures MAX_BITS == Pow2(30)
      ensures At(Top, trie) && Belongs(Top, 30, number) && Top.Hole() == Root
    {
      Pow2Constants();
    }

    /** What the code sees when it follows the cursor. */
    lemma SeenAt(path: Path, t: Trie)
      requires At(path, t)
      ensures Wf(Plug(path, t)) && live == PathNodes(path) + Nodes(t)
      ensures t.Nil? <==> Get(path.Hole()) == null
      ensures !t.Nil? ==>
        && Get(path.Hole()) == t.node && t.node in live
        && t.node.bitPos == Pow2(t.Level()) && t.node.number == t.number && (t.Leaf? <==> t.Level() == 0)
    {
      WfAtHole(path, t);
    }

    /** number belongs below the end of the path, where the next bit to look at has the given level. */
    static ghost predicate Belongs(path: Path, level: nat, number: nat) {
      && number < INT_LIMIT
      && if path.Top? then level == 30
         else level + 1 == path.level && AgreeAbove(number, path.number, path.level)
              && Bit(number, path.level) == path.dir
    }

    /** A node for number that branches at level k may be put at the end of the path. */
    static ghost predicate MayBranch(path: Path, k: nat, number: nat) {
      path.Down? ==> k < path.level && AgreeAbove(number, path.number, path.level) && Bit(number, path.level) == path.dir
    }

    /** Writes through the cursor; only the link at the end of the path changes. */
    method Link(slot: Slot, n: Node?, ghost path: Path)
      requires MirrorsPath(path) && PathDistinct(path) && slot == path.Hole()
      modifies `root, slot.Owner()
      ensures MirrorsPath(path) && Get(slot) == n
    {
      match slot {
        case Root => root := n;
        case ZeroOf(m) => m.zero := n;
        case OneOf(m) => m.one := n;
      }
    }

    // ----- the three ways add_number changes the tree

    static lemma LeafFits(path: Path, level: nat, leaf: Trie)
      requires leaf.Leaf? && Belongs(path, level, leaf.number) && Wf(Plug(path, Nil))
      requires leaf.zeros == (if And(leaf.number, 1) == 0 then 1 else 0)
      requires leaf.ones == (if And(leaf.number, 1) == 1 then 1 else 0)
      ensures Wf(Plug(path, leaf))
      ensures multiset(Flatten(Plug(path, leaf))) == multiset(Flatten(Plug(path, Nil))) + multiset{leaf.number}
    {
      LeafNumbers(leaf.number);
      assert Flatten(leaf) == [leaf.number];
      PlugFlatten(path, Nil, leaf, leaf.number);
      WfReplace(path, Nil, leaf);
    }

    method AddLeaf(parent: Slot, number: nat, ghost path: Path, ghost level: nat)
      requires At(path, Nil) && parent == path.Hole() && Belongs(path, level, number)
      modifies this, live
      ensures Valid() && fresh(live - old(live))
      ensures multiset(Contents()) == multiset(old(Contents())) + multiset{number}
    {
      hide Logged, MirrorsPath, PathNodes, PathDistinct, Plug, Wf, Flatten;
      HoleIsOnPath(path);
      var nptr := Allocate();
      Link(parent, nptr, path);
      nptr.MakeLeaf(number);

      ghost var leaf := Leaf(nptr, number, nptr.countZero, nptr.countOne);
      LeafFits(path, level, leaf);
      trie := Plug(path, leaf);
      LeaveCursor(path, leaf);
    }

    static lemma BranchFits(path: Path, k: nat, number: nat, node: Node, sub: Trie)
      requires Wf(Plug(path, sub)) && !sub.Nil? && sub.Level() < k <= 30 && number < INT_LIMIT
      requires AgreeAbove(number, sub.number, k) && Bit(number, k) != Bit(sub.number, k)
      requires MayBranch(path, k, number)
      ensures AgreeAbove(number, number, k)
      ensures var path' := Down(path, node, k, number, Bit(number, k), sub);
              Wf(Plug(path', Nil)) && multiset(Flatten(Plug(path', Nil))) == multiset(Flatten(Plug(path, sub)))
    {
      var branch := Join(node, k, number, Bit(number, k), sub, Nil);
      WfAtHole(path, sub);
      WfReplace(path, sub, branch);
      assert Flatten(branch) == Flatten(sub);
      PlugSame(path, sub, branch);
    }

    /** Injects a node that branches at bitPos above the subtree at the cursor. */
    method AddBranch(parent: Slot, nptr: Node, bitPos: nat, number: nat, ghost path: Path, ghost sub: Trie, ghost k: nat)
      returns (parent': Slot, ghost path': Path)
      requires At(path, sub) && parent == path.Hole() && nptr == Get(parent)
      requires bitPos == Pow2(k) && sub.Level() < k <= 30 && number < INT_LIMIT
      requires AgreeAbove(number, sub.number, k) && Bit(number, k) != Bit(sub.number, k)
      requires MayBranch(path, k, number)
      modifies this, live
      ensures At(path', Nil) && parent' == path'.Hole()
      ensures Belongs(path', k - 1, number)
      ensures multiset(Contents()) == multiset(old(Contents())) && fresh(live - old(live))
    {
      hide Logged, MirrorsPath, PathNodes, PathDistinct, Plug, Wf, Flatten, AgreeAbove, Bit, Pow2, And, MayBranch;
      HoleIsOnPath(path);
      OneHotTest(number, k);
      var nptr2 := Allocate();
      Link(parent, nptr2, path);
      nptr2.MakeBranch(bitPos, number, nptr);
      parent' := if And(number, bitPos) == 0 then ZeroOf(nptr2) else OneOf(nptr2);
      path' := Down(path, nptr2, k, number, Bit(number, k), sub);
      BranchFits(path, k, number, nptr2, sub);
      trie := Plug(path', Nil);
      Injected(path, nptr2, k, number, sub);
    }

    /** The cursor after a branch was put above the subtree where it stood, on the side of number. */
    lemma Injected(path: Path, node: Node, k: nat, number: nat, sub: Trie)
      requires MirrorsPath(path) && PathDistinct(path) && Distinct(sub)
      requires Get(path.Hole()) == node && node.bitPos == Pow2(k) && node.number == number
      requires Mirrors(sub, if Bit(number, k) then node.zero else node.one)
      requires (if Bit(number, k) then node.one else node.zero) == null
      requires node !in PathNodes(path) && node !in Nodes(sub) && PathNodes(path) !! Nodes(sub)
      requires trie == Plug(Down(path, node, k, number, Bit(number, k), sub), Nil) && Wf(trie)
      requires live == PathNodes(path) + Nodes(sub) + {node} && Logged()
      ensures At(Down(path, node, k, number, Bit(number, k), sub), Nil)
    {
      hide Logged, PathNodes, PathDistinct, Plug, Wf, Pow2, Bit;
      Descended(path, node, k, number, Bit(number, k), sub, Nil);
    }

    /** A cursor may move from a branch to one of its children. */
    lemma Descended(path: Path, node: Node, level: nat, number: nat, dir: bool, sibling: Trie, child: Trie)
      requires MirrorsPath(path) && PathDistinct(path)
      requires Get(path.Hole()) == node && node.bitPos == Pow2(level) && node.number == number
      requires Mirrors(sibling, if dir then node.zero else node.one)
      requires Distinct(sibling) && node !in PathNodes(path) && node !in Nodes(sibling)
      requires PathNodes(path) !! Nodes(sibling)
      ensures var path' := Down(path, node, level, number, dir, sibling);
              && MirrorsPath(path') && PathDistinct(path')
              && PathNodes(path') == PathNodes(path) + {node} + Nodes(sibling)
              && Plug(path', child) == Plug(path, Join(node, level, number, dir, sibling, child))
    {
    }

    static lemma CountedNumber(leaf: nat, number: nat)
      requires leaf < INT_LIMIT && number < INT_LIMIT && AgreeAbove(number, leaf, 0)
      ensures number == if And(number, 1) != 0 then OddNumber(leaf) else EvenNumber(leaf)
    {
      LeafNumbers(number);
      LeafNumbers(leaf);
      assert ShiftRight(number, 1) == number / 2 && ShiftRight(leaf, 1) == leaf / 2;
    }

    static lemma LeafCounts(leaf: Trie)
      requires leaf.Leaf?
      ensures multiset(Flatten(leaf)) == multiset(Copies(EvenNumber(leaf.number), leaf.zeros))
                                         + multiset(Copies(OddNumber(leaf.number), leaf.ones))
    {
    }

    static lemma CountFlatten(leaf: Trie, leaf': Trie, number: nat)
      requires leaf.Leaf? && leaf.number < INT_LIMIT && number < INT_LIMIT && AgreeAbove(number, leaf.number, 0)
      requires leaf' == if And(number, 1) != 0 then leaf.(ones := leaf.ones + 1) else leaf.(zeros := leaf.zeros + 1)
      ensures multiset(Flatten(leaf')) == multiset(Flatten(leaf)) + multiset{number}
    {
      CountedNumber(leaf.number, number);
      hide And, AgreeAbove, EvenNumber, OddNumber, Copies, Flatten;
      LeafCounts(leaf);
      LeafCounts(leaf');
      var evens, odds := multiset(Copies(EvenNumber(leaf.number), leaf.zeros)), multiset(Copies(OddNumber(leaf.number), leaf.ones));
      if And(number, 1) != 0 {
        OneMoreCounted(OddNumber(leaf.number), leaf.ones);
        OneMoreIn(evens, odds, number);
      } else {
        OneMoreCounted(EvenNumber(leaf.number), leaf.zeros);
        OneMoreIn(evens, odds, number);
      }
    }

    static lemma OneMoreIn(a: multiset<int>, b: multiset<int>, x: int)
      ensures a + (b + multiset{x}) == a + b + multiset{x}
      ensures (a + multiset{x}) + b == a + b + multiset{x}
    {
    }

    static lemma CountFits(path: Path, leaf: Trie, leaf': Trie, number: nat)
      requires leaf.Leaf? && Wf(Plug(path, leaf)) && number < INT_LIMIT && AgreeAbove(number, leaf.number, 0)
      requires leaf' == if And(number, 1) != 0 then leaf.(ones := leaf.ones + 1) else leaf.(zeros := leaf.zeros + 1)
      ensures Wf(Plug(path, leaf'))
      ensures multiset(Flatten(Plug(path, leaf'))) == multiset(Flatten(Plug(path, leaf))) + multiset{number}
    {
      WfAtHole(path, leaf);
      WfReplace(path, leaf, leaf');
      CountFlatten(leaf, leaf', number);
      PlugFlatten(path, leaf, leaf', number);
    }

    method AddAtLeaf(nptr: Node, number: nat, ghost path: Path, ghost leaf: Trie)
      requires At(path, leaf) && leaf.Leaf? && nptr == leaf.node
      requires number < INT_LIMIT && AgreeAbove(number, leaf.number, 0)
      modifies `trie, nptr
      ensures Valid() && live == old(live)
      ensures multiset(Contents()) == multiset(old(Contents())) + multiset{number}
    {
      hide Logged, MirrorsPath, PathNodes, PathDistinct, Plug, Wf, Flatten;
      if And(number, 1) != 0 {
        nptr.countOne := nptr.countOne + 1;
      } else {
        nptr.countZero := nptr.countZero + 1;
      }
      ghost var leaf' := Leaf(nptr, nptr.number, nptr.countZero, nptr.countOne);
      CountFits(path, leaf, leaf', number);
      trie := Plug(path, leaf');
      LeaveCursor(path, leaf');
    }

    // ----- add_number

    /** diff holds exactly the differing bits of the levels skipped by the node's compression. */
    static lemma RangeDifference(number: nat, other: nat, low: nat, high: nat, diff: nat)
      requires low < high <= 30
      requires diff == And(BitRange(Pow2(high), Pow2(low)), Xor(number, other))
      ensures forall j: nat :: Bit(diff, j) <==> low < j <= high && Bit(number, j) != Bit(other, j)
    {
      forall j: nat
        ensures Bit(diff, j) <==> low < j <= high && Bit(number, j) != Bit(other, j)
      {
        hide Bit;
        BitRangeSelects(high, low, j);
        XorBit(number, other, j);
        AndBit(BitRange(Pow2(high), Pow2(low)), Xor(number, other), j);
      }
    }

    /** The two numbers agree down to the highest differing bit. */
    static lemma AgreeDownTo(number: nat, other: nat, low: nat, high: nat, diff: nat, k: nat)
      requires low <= k <= high && AgreeAbove(number, other, high)
      requires forall j: nat :: Bit(diff, j) <==> low < j <= high && Bit(number, j) != Bit(other, j)
      requires forall j: nat :: Bit(diff, j) ==> j <= k
      ensures AgreeAbove(number, other, k)
    {
      hide Bit, AgreeAbove;
      AgreeAboveLower(number, other, k, high);
    }

    static lemma NoDifference(number: nat, other: nat, low: nat, high: nat, diff: nat)
      requires low <= high && AgreeAbove(number, other, high) && diff == 0
      requires forall j: nat :: Bit(diff, j) <==> low < j <= high && Bit(number, j) != Bit(other, j)
      ensures AgreeAbove(number, other, low)
    {
      hide Bit, AgreeAbove;
      forall j: nat
        ensures !Bit(diff, j)
      {
        ZeroHasNoBit(j);
      }
      AgreeDownTo(number, other, low, high, diff, low);
    }

    /** What is below the cursor agrees with the number above the next bit to look at. */
    static lemma AgreesAtCursor(path: Path, level: nat, number: nat, sub: Trie)
      requires Belongs(path, level, number) && Wf(Plug(path, sub)) && !sub.Nil?
      ensures sub.Level() <= level <= 30 && AgreeAbove(number, sub.number, level)
    {
      WfAtHole(path, sub);
      if path.Top? {
        NumbersAgreeAtTop(number, sub.number);
      } else {
        ShiftStep(number, path.level);
        ShiftStep(sub.number, path.level);
        PathLevel(path, sub);
      }
    }

    static lemma PathLevel(path: Path, sub: Trie)
      requires Wf(Plug(path, sub)) && path.Down?
      ensures 0 < path.level <= 30
    {
      WfAtHole(path.up, Join(path.node, path.level, path.number, path.dir, path.sibling, sub));
    }

    static lemma InjectionFits(path: Path, level: nat, number: nat, k: nat)
      requires Belongs(path, level, number) && k <= level
      ensures MayBranch(path, k, number)
    {
    }

    static lemma SameLevel(low: nat, level: nat)
      requires low <= level && !(Pow2(level) > Pow2(low))
      ensures low == level && (Pow2(level) > 1 <==> level > 0) && Pow2(level) / 2 == (if level == 0 then 0 else Pow2(level - 1))
    {
      Pow2Ordered(low, level);
      Pow2Ordered(0, level);
    }

    lemma Descend(path: Path, t: Trie, dir: bool)
      requires At(path, t) && t.Branch?
      ensures At(Down(path, t.node, t.level, t.number, dir, if dir then t.zero else t.one), if dir then t.one else t.zero)
      ensures Get(path.Hole()) == t.node
    {
      hide Wf, Flatten;
    }

    method AddNumber(number: nat)
      requires Valid() && number < INT_LIMIT
      modifies this, live
      ensures Valid() && fresh(live - old(live))
      ensures Contents() == Insert(old(Contents()), number)
    {
      ghost var before := Contents();
      FlattenSorted(trie);
      Search(number);
      FlattenSorted(trie);
      InsertIsTheOnlyOne(before, Contents(), number);
    }

    method Search(number: nat)
      requires Valid() && number < INT_LIMIT
      modifies this, live
      ensures Valid() && fresh(live - old(live))
      ensures multiset(Contents()) == multiset(old(Contents())) + multiset{number}
    {
      hide At, Valid, Contents, Plug, Wf, AgreeAbove, Bit, PathNodes, Nodes, Pow2, And, Xor, BitRange;
      var parent := Root;
      ghost var path, sub, level: nat := Top, trie, 30;
      var bitPos: nat := MAX_BITS;
      EnterCursor(number);
      while bitPos >= 1
        invariant fresh(live - old(live))
        invariant bitPos >= 1 ==>
          && At(path, sub) && parent == path.Hole() && bitPos == Pow2(level) && Belongs(path, level, number)
          && multiset(Contents()) == multiset(old(Contents()))
        invariant bitPos == 0 ==> Valid() && multiset(Contents()) == multiset(old(Contents())) + multiset{number}
        decreases if bitPos == 0 then 0 else level + 1
      {
        var nptr := Get(parent);
        SeenAt(path, sub);
        if nptr == null {
          AddLeaf(parent, number, path, level);
          return;
        }
        AgreesAtCursor(path, level, number, sub);
        if bitPos > nptr.bitPos {
          Pow2Ordered(sub.Level(), level);
          var mask := BitRange(bitPos, nptr.bitPos);
          var diff := And(mask, Xor(number, nptr.number));
          RangeDifference(number, sub.number, sub.Level(), level, diff);
          if diff != 0 {
            // move down to the topmost difference
            ghost var some := NonZeroHasBit(diff);
            ghost var k := level;
            OneHotTest(diff, k);
            while And(bitPos, diff) == 0
              invariant sub.Level() < some <= k <= level && bitPos == Pow2(k)
              invariant And(bitPos, diff) != 0 <==> Bit(diff, k)
              invariant forall j: nat :: Bit(diff, j) ==> j <= k
              decreases k
              modifies {}
            {
              Pow2Half(k);
              bitPos, k := bitPos / 2, k - 1;
              OneHotTest(diff, k);
            }
            AgreeDownTo(number, sub.number, sub.Level(), level, diff, k);
            InjectionFits(path, level, number, k);
            parent, path := AddBranch(parent, nptr, bitPos, number, path, sub, k);
            Pow2Half(k);
            bitPos := bitPos / 2;
            sub, level := Nil, k - 1;
            continue;
          }
          NoDifference(number, sub.number, sub.Level(), level, diff);
          bitPos, level := nptr.bitPos, sub.Level();
        }
        SameLevel(sub.Level(), level);
        if bitPos > 1 {
          OneHotTest(number, level);
          if And(bitPos, number) != 0 {
            parent := OneOf(nptr);
          } else {
            parent := ZeroOf(nptr);
          }
          Descend(path, sub, Bit(number, level));
          path := Down(path, nptr, level, sub.number, Bit(number, level), if Bit(number, level) then sub.zero else sub.one);
          sub, level := if Bit(number, level) then sub.one else sub.zero, level - 1;
        } else {
          AddAtLeaf(nptr, number, path, sub);
        }
        bitPos := bitPos / 2;
      }
    }

    // ----- take_numbers

    /** t' is left of t after its first k numbers were taken. */
    static ghost predicate Drained(t: Trie, t': Trie, k: nat) {
      && k <= |Flatten(t)| && Flatten(t') == Flatten(t)[k..]
      && Wf(t') && Distinct(t') && Nodes(t') <= Nodes(t)
      && (!t'.Nil? ==> !t.Nil? && t'.number == t.number && t'.Level() == t.Level())
    }

    static lemma LeafDrained(t: Trie, i: nat, j: nat)
      requires t.Leaf? && Wf(t) && i <= t.zeros && j <= t.ones && (j == 0 || i == t.zeros)
      ensures Flatten(t)[..i + j] == Copies(EvenNumber(t.number), i) + Copies(OddNumber(t.number), j)
      ensures i + j <= |Flatten(t)| == t.zeros + t.ones
      ensures var t' := if i == t.zeros && j == t.ones then Nil else t.(zeros := t.zeros - i, ones := t.ones - j);
              Drained(t, t', i + j)
    {
    }

    /** b with xs written from pos on. */
    static function Overwritten(b: seq<int>, pos: nat, xs: seq<int>): (r: seq<int>)
      requires pos + |xs| <= |b|
      ensures |r| == |b|
    {
      b[..pos] + xs + b[pos + |xs|..]
    }

    static lemma OverwrittenTwice(b: seq<int>, pos: nat, xs: seq<int>, ys: seq<int>)
      requires pos + |xs| + |ys| <= |b|
      ensures Overwritten(Overwritten(b, pos, xs), pos + |xs|, ys) == Overwritten(b, pos, xs + ys)
    {
    }

    static lemma OverwrittenOne(b: seq<int>, pos: nat, x: int)
      requires pos < |b|
      ensures Overwritten(b, pos, [x]) == b[pos := x]
    {
    }

    static lemma OverwrittenNothing(b: seq<int>, pos: nat)
      requires pos <= |b|
      ensures Overwritten(b, pos, []) == b
    {
    }

    static lemma EmitStep(b: seq<int>, pos: nat, x: int, k: nat)
      requires pos + k < |b|
      ensures Overwritten(b, pos, Copies(x, k))[pos + k := x] == Overwritten(b, pos, Copies(x, k + 1))
    {
      hide Overwritten, Copies;
      OverwrittenOne(Overwritten(b, pos, Copies(x, k)), pos + k, x);
      OverwrittenTwice(b, pos, Copies(x, k), [x]);
      OneMoreCopy(x, k);
    }

    /** Writes one number count times, or until the buffer is full. */
    static method Emit(x: int, count: nat, buffer: array<int>, pos: nat, end: nat) returns (taken: nat)
      requires pos <= end <= buffer.Length
      modifies buffer
      ensures taken == (if count <= end - pos then count else end - pos)
      ensures buffer[..] == Overwritten(old(buffer[..]), pos, Copies(x, taken))
    {
      ghost var start := buffer[..];
      OverwrittenNothing(start, pos);
      assert Copies(x, 0) == [];
      hide Overwritten, Copies;
      taken := 0;
      while pos + taken < end && taken < count
        invariant taken <= count && pos + taken <= end
        invariant buffer[..] == Overwritten(start, pos, Copies(x, taken))
      {
        EmitStep(start, pos, x, taken);
        ghost var was := buffer[..];
        buffer[pos + taken] := x;
        assert buffer[..] == was[pos + taken := x];
        taken := taken + 1;
      }
    }

    static lemma BranchDrained(t: Trie, zero: Trie, one: Trie, k0: nat, k1: nat)
      requires t.Branch? && Wf(t) && Distinct(t) && Drained(t.zero, zero, k0) && Drained(t.one, one, k1)
      requires k1 == 0 || k0 == |Flatten(t.zero)|
      ensures Drained(t, if zero.Nil? && one.Nil? then Nil else t.(zero := zero, one := one), k0 + k1)
    {
      WfNotEmpty(zero);
      WfNotEmpty(one);
      DropJoined(Flatten(t.zero), Flatten(t.one), k0, k1);
    }

    static lemma DropJoined(p: seq<int>, q: seq<int>, i: nat, j: nat)
      requires i <= |p| && j <= |q| && (j == 0 || i == |p|)
      ensures (p + q)[i + j..] == p[i..] + q[j..]
    {
    }

    method TakeFromLeaf(nptr: Node, buffer: array<int>, pos: nat, end: nat, ghost t: Trie)
      returns (pos': nat, ghost i: nat, ghost j: nat)
      requires t.Leaf? && Mirrors(t, nptr) && pos <= end <= buffer.Length
      modifies nptr, buffer
      ensures i <= t.zeros && j <= t.ones && (j == 0 || i == t.zeros)
      ensures pos' == pos + i + j <= end && (pos' == end || i + j == t.zeros + t.ones)
      ensures Mirrors(t.(zeros := t.zeros - i, ones := t.ones - j), nptr)
      ensures buffer[..]
              == Overwritten(old(buffer[..]), pos, Copies(EvenNumber(t.number), i) + Copies(OddNumber(t.number), j))
    {
      hide Overwritten, Copies, And, Or, Complement;
      var even := Emit(And(nptr.number, Complement(1)), nptr.countZero, buffer, pos, end);
      nptr.countZero := nptr.countZero - even;
      var odd := Emit(Or(nptr.number, 1), nptr.countOne, buffer, pos + even, end);
      nptr.countOne := nptr.countOne - odd;
      OverwrittenTwice(old(buffer[..]), pos, Copies(EvenNumber(t.number), even), Copies(OddNumber(t.number), odd));
      pos', i, j := pos + even + odd, even, odd;
    }

    /** Clears the link at parent and gives its node back. */
    method Unlink(parent: Slot, nptr: Node)
      requires nptr in live && Logged()
      modifies `live, `calls, `root, parent.Owner()
      ensures Logged() && live == old(live) - {nptr} && Get(parent) == null && OnlyLink(parent)
    {
      Release(nptr);
      match parent {
        case Root => root := null;
        case ZeroOf(m) => m.zero := null;
        case OneOf(m) => m.one := null;
      }
    }

    /** Of the owner of the link, and of root, at most the link itself has changed. */
    twostate predicate OnlyLink(slot: Slot)
      reads `root, slot.Owner()
    {
      match slot
      case Root => true
      case ZeroOf(n) => root == old(root) && unchanged(n`bitPos, n`number, n`countZero, n`countOne, n`one)
      case OneOf(n) => root == old(root) && unchanged(n`bitPos, n`number, n`countZero, n`countOne, n`zero)
    }

    /** after is before with the first numbers of q written from pos on, up to end or all of q. */
    static ghost predicate Filled(before: seq<int>, after: seq<int>, q: seq<int>, pos: nat, end: nat, pos': nat) {
      && pos <= pos' <= end <= |before| && pos' - pos <= |q| && (pos' == end || pos' - pos == |q|)
      && after == Overwritten(before, pos, q[..pos' - pos])
    }

    static lemma FilledTwice(b0: seq<int>, b1: seq<int>, b2: seq<int>, p: seq<int>, q: seq<int>,
                             pos0: nat, pos1: nat, pos2: nat, end: nat)
      requires Filled(b0, b1, p, pos0, end, pos1) && Filled(b1, b2, q, pos1, end, pos2)
      ensures Filled(b0, b2, p + q, pos0, end, pos2)
    {
      OverwrittenTwice(b0, pos0, p[..pos1 - pos0], q[..pos2 - pos1]);
      hide Overwritten;
      assert (p + q)[..pos2 - pos0] == p[..pos1 - pos0] + q[..pos2 - pos1];
    }

    static lemma LeafFilled(b0: seq<int>, b1: seq<int>, t: Trie, i: nat, j: nat, pos: nat, end: nat)
      requires t.Leaf? && i + j <= |Flatten(t)| && pos + i + j <= end <= |b0|
      requires pos + i + j == end || i + j == |Flatten(t)|
      requires b1 == Overwritten(b0, pos, Flatten(t)[..i + j])
      ensures Filled(b0, b1, Flatten(t), pos, end, pos + i + j)
    {
    }

    /** Removes a leaf that counts nothing any more. */
    method PruneLeaf(parent: Slot, nptr: Node, ghost t: Trie) returns (ghost t': Trie)
      requires t.Leaf? && nptr == Get(parent) && Mirrors(t, nptr) && nptr in live && parent.Owner() !! {nptr}
      requires Logged()
      modifies `root, `live, `calls, parent.Owner()
      ensures Logged()
      ensures t' == (if t.zeros == 0 && t.ones == 0 then Nil else t) && Mirrors(t', Get(parent))
      ensures live == (if t'.Nil? then old(live) - {nptr} else old(live)) && OnlyLink(parent)
    {
      hide Logged;
      t' := t;
      if nptr.countZero == 0 && nptr.countOne == 0 {
        Unlink(parent, nptr);
        t' := Nil;
      }
    }

    method TakeAtLeaf(parent: Slot, nptr: Node, buffer: array<int>, pos: nat, end: nat, ghost t: Trie)
      returns (pos': nat, ghost t': Trie)
      requires t.Leaf? && nptr == Get(parent) && Mirrors(t, nptr) && Wf(t) && nptr in live
      requires parent.Owner() !! {nptr} && pos <= end <= buffer.Length
      requires Logged()
      modifies `root, `live, `calls, parent.Owner(), nptr, buffer
      ensures Logged()
      ensures pos <= pos' <= end && Filled(old(buffer[..]), buffer[..], Flatten(t), pos, end, pos')
      ensures Drained(t, t', pos' - pos) && Nodes(t') <= Nodes(t) && Mirrors(t', Get(parent))
      ensures live == old(live) - (Nodes(t) - Nodes(t')) && OnlyLink(parent)
    {
      hide Logged, Overwritten, Filled, Copies, Flatten, Wf, Distinct, Drained;
      ghost var i, j;
      pos', i, j := TakeFromLeaf(nptr, buffer, pos, end, t);
      LeafDrained(t, i, j);
      LeafFilled(old(buffer[..]), buffer[..], t, i, j, pos, end);
      t' := PruneLeaf(parent, nptr, t.(zeros := t.zeros - i, ones := t.ones - j));
    }

    /** Removes a branch whose subtrees have both been removed. */
    method Prune(parent: Slot, nptr: Node, ghost t: Trie) returns (ghost t': Trie)
      requires t.Branch? && nptr == Get(parent) && Mirrors(t, nptr) && nptr in live && parent.Owner() !! Nodes(t)
      requires Logged()
      modifies `root, `live, `calls, parent.Owner()
      ensures Logged()
      ensures t' == (if t.zero.Nil? && t.one.Nil? then Nil else t) && Mirrors(t', Get(parent))
      ensures live == (if t'.Nil? then old(live) - {nptr} else old(live)) && OnlyLink(parent)
    {
      t' := t;
      if nptr.zero == null && nptr.one == null {
        Unlink(parent, nptr);
        t' := Nil;
      }
    }

    method TakeNumbers2(parent: Slot, buffer: array<int>, pos: nat, end: nat, ghost t: Trie)
      returns (pos': nat, ghost t': Trie)
      requires Mirrors(t, Get(parent)) && Distinct(t) && Wf(t) && Nodes(t) <= live
      requires parent.Owner() !! Nodes(t) && pos <= end <= buffer.Length
      requires Logged()
      modifies `root, `live, `calls, parent.Owner(), Nodes(t), buffer
      ensures Logged()
      ensures pos <= pos' <= end && Filled(old(buffer[..]), buffer[..], Flatten(t), pos, end, pos')
      ensures Drained(t, t', pos' - pos) && Nodes(t') <= Nodes(t) && Mirrors(t', Get(parent))
      ensures live == old(live) - (Nodes(t) - Nodes(t')) && OnlyLink(parent)
      decreases t, 1
    {
      hide Logged, Flatten, Filled, Overwritten, Wf, Distinct, Drained;
      var nptr := Get(parent);
      pos', t' := pos, Nil;
      NothingTaken(buffer[..], pos, end);
      Children(t);
      if nptr != null {
        if nptr.bitPos == 1 {
          pos', t' := TakeAtLeaf(parent, nptr, buffer, pos, end, t);
        } else {
          pos', t' := TakeAtBranch(parent, nptr, buffer, pos, end, t);
        }
      }
    }

    /** The zero side first, then the one side, then the branch itself when both are gone. */
    method TakeAtBranch(parent: Slot, nptr: Node, buffer: array<int>, pos: nat, end: nat, ghost t: Trie)
      returns (pos': nat, ghost t': Trie)
      requires t.Branch? && nptr == Get(parent) && Mirrors(t, nptr) && Distinct(t) && Wf(t) && Nodes(t) <= live
      requires parent.Owner() !! Nodes(t) && pos <= end <= buffer.Length
      requires Logged()
      modifies `root, `live, `calls, parent.Owner(), Nodes(t), buffer
      ensures Logged()
      ensures pos <= pos' <= end && Filled(old(buffer[..]), buffer[..], Flatten(t), pos, end, pos')
      ensures Drained(t, t', pos' - pos) && Nodes(t') <= Nodes(t) && Mirrors(t', Get(parent))
      ensures live == old(live) - (Nodes(t) - Nodes(t')) && OnlyLink(parent)
      decreases t, 0, 1
    {
      hide Logged, Flatten, Filled, Overwritten, Wf, Distinct, Drained;
      Children(t);
      ghost var zero, one;
      pos', zero, one := TakeChildren(nptr, buffer, pos, end, t);
      LiveParts(old(live), nptr, Nodes(t.zero), Nodes(zero), Nodes(t.one), Nodes(one));
      t' := Prune(parent, nptr, t.(zero := zero, one := one));
    }

    method TakeChildren(nptr: Node, buffer: array<int>, pos: nat, end: nat, ghost t: Trie)
      returns (pos': nat, ghost zero: Trie, ghost one: Trie)
      requires t.Branch? && Mirrors(t, nptr) && Distinct(t) && Wf(t) && Nodes(t) <= live && pos <= end <= buffer.Length
      requires Logged()
      modifies `root, `live, `calls, Nodes(t), buffer
      ensures Logged() && root == old(root)
      ensures pos <= pos' <= end && Filled(old(buffer[..]), buffer[..], Flatten(t), pos, end, pos')
      ensures Drained(t, if zero.Nil? && one.Nil? then Nil else t.(zero := zero, one := one), pos' - pos)
      ensures Nodes(zero) <= Nodes(t.zero) && Nodes(one) <= Nodes(t.one) && Mirrors(t.(zero := zero, one := one), nptr)
      ensures live == old(live) - (Nodes(t.zero) - Nodes(zero)) - (Nodes(t.one) - Nodes(one))
      decreases t, 0, 0
    {
      hide Logged, Flatten, Filled, Overwritten, Wf, Distinct, Drained;
      Children(t);
      ghost var b0 := buffer[..];
      var pos1;
      pos1, zero := TakeNumbers2(ZeroOf(nptr), buffer, pos, end, t.zero);
      ghost var b1 := buffer[..];
      pos', one := TakeNumbers2(OneOf(nptr), buffer, pos1, end, t.one);
      BranchTaken(t, zero, one, b0, b1, buffer[..], pos, pos1, pos', end);
    }

    static lemma LiveParts(live: set<Node>, n: Node, a: set<Node>, a': set<Node>, b: set<Node>, b': set<Node>)
      requires a' <= a && b' <= b && a !! b && n !in a && n !in b
      ensures live - (a - a') - (b - b') == live - (({n} + a + b) - ({n} + a' + b'))
      ensures live - (({n} + a + b) - ({n} + a' + b')) - {n} == live - (({n} + a + b) - (a' + b'))
    {
    }

    static lemma Children(t: Trie)
      requires Wf(t) && Distinct(t)
      ensures t.Branch? ==>
        && Wf(t.zero) && Wf(t.one) && Distinct(t.zero) && Distinct(t.one)
        && t.node !in Nodes(t.zero) && t.node !in Nodes(t.one) && Nodes(t.zero) !! Nodes(t.one)
        && Pow2(t.level) > 1
    {
    }

    static lemma NothingTaken(b: seq<int>, pos: nat, end: nat)
      requires pos <= end <= |b|
      ensures Filled(b, b, Flatten(Nil), pos, end, pos) && Drained(Nil, Nil, 0)
    {
    }

    static lemma Bounds(before: seq<int>, after: seq<int>, q: seq<int>, pos: nat, end: nat, pos': nat)
      requires Filled(before, after, q, pos, end, pos')
      ensures pos <= pos' <= end && pos' - pos <= |q|
    {
      hide Overwritten;
    }

    /** Nothing of the second part is written before all of the first. */
    static lemma FilledFirst(b0: seq<int>, b1: seq<int>, b2: seq<int>, p: seq<int>, q: seq<int>,
                             pos0: nat, pos1: nat, pos2: nat, end: nat)
      requires Filled(b0, b1, p, pos0, end, pos1) && Filled(b1, b2, q, pos1, end, pos2)
      ensures pos0 <= pos1 <= pos2 && (pos2 == pos1 || pos1 - pos0 == |p|)
    {
      hide Overwritten;
    }

    static lemma BranchTaken(t: Trie, zero: Trie, one: Trie, b0: seq<int>, b1: seq<int>, b2: seq<int>,
                             pos: nat, pos1: nat, pos2: nat, end: nat)
      requires t.Branch? && Wf(t) && Distinct(t)
      requires Filled(b0, b1, Flatten(t.zero), pos, end, pos1) && Drained(t.zero, zero, pos1 - pos)
      requires Filled(b1, b2, Flatten(t.one), pos1, end, pos2) && Drained(t.one, one, pos2 - pos1)
      ensures Filled(b0, b2, Flatten(t), pos, end, pos2)
      ensures Drained(t, if zero.Nil? && one.Nil? then Nil else t.(zero := zero, one := one), pos2 - pos)
    {
      hide Filled, Flatten, Wf, Distinct, Drained;
      BranchFlatten(t);
      PartsFilled(b0, b1, b2, Flatten(t.zero), Flatten(t.one), pos, pos1, pos2, end);
      BranchDrained(t, zero, one, pos1 - pos, pos2 - pos1);
    }

    static lemma BranchFlatten(t: Trie)
      requires t.Branch?
      ensures Flatten(t) == Flatten(t.zero) + Flatten(t.one)
    {
    }

    static lemma PartsFilled(b0: seq<int>, b1: seq<int>, b2: seq<int>, p: seq<int>, q: seq<int>,
                             pos0: nat, pos1: nat, pos2: nat, end: nat)
      requires Filled(b0, b1, p, pos0, end, pos1) && Filled(b1, b2, q, pos1, end, pos2)
      ensures pos0 <= pos1 <= pos2 && (pos2 == pos1 || pos1 - pos0 == |p|)
      ensures Filled(b0, b2, p + q, pos0, end, pos2)
    {
      Bounds(b0, b1, p, pos0, end, pos1);
      Bounds(b1, b2, q, pos1, end, pos2);
      FilledTwice(b0, b1, b2, p, q, pos0, pos1, pos2, end);
      FilledFirst(b0, b1, b2, p, q, pos0, pos1, pos2, end);
      hide Filled;
    }

    method TakeNumbers(buffer: array<int>, maxNums: nat) returns (taken: nat)
      requires Valid() && maxNums <= buffer.Length
      modifies this, live, buffer
      ensures Valid() && live <= old(live)
      ensures taken == Least(maxNums, old(Contents()))
      ensures buffer[..taken] == old(Contents())[..taken] && buffer[taken..] == old(buffer[taken..])
      ensures Contents() == old(Contents())[taken..]
    {
      hide Logged, Flatten, Wf, Distinct, Nodes;
      ghost var t';
      taken, t' := TakeNumbers2(Root, buffer, 0, maxNums, trie);
      trie := t';
    }

    // ----- release_tree

    /** Gives back every node once; a node is read only while it is still live. */
    method ReleaseTree(n: Node?, ghost t: Trie)
      requires Mirrors(t, n) && Distinct(t) && Wf(t) && Nodes(t) <= live && Logged()
      modifies `live, `calls
      ensures live == old(live) - Nodes(t) && Logged()
      decreases t
    {
      if n != null {
        assert n in live;
        if n.bitPos > 1 {
          ReleaseTree(n.zero, t.zero);
          assert n in live;
          ReleaseTree(n.one, t.one);
        }
        Release(n);
      }
    }

    method Dispose()
      requires Valid()
      modifies `live, `calls
      ensures live == {} && Logged()
    {
      ReleaseTree(root, trie);
    }
  }
}
