/**
 The shape of the path-compressed binary trie of A6/handout/radix.c, as a value.

 A Node is the C struct. Its union is split into separate fields: a node with bitPos 1 is a leaf and
 uses the counts, any other node uses the two links. A Trie is a snapshot of the nodes below a link;
 what the numbers in it must satisfy is stated and proved on snapshots, without the heap.
*/
module RadixTrie {
  import opened BitPositions
  import opened SortedNumbers

  class Node {
    var bitPos: nat
    var number: nat
    var countZero: nat
    var countOne: nat
    var zero: Node?
    var one: Node?

    /** A block as allocate returns it, with whatever it holds. */
    constructor ()
    {
    }

    method MakeLeaf(n: nat)
      modifies this
      ensures bitPos == 1 && number == n
      ensures countZero == (if And(n, 1) == 0 then 1 else 0)
      ensures countOne == (if And(n, 1) == 1 then 1 else 0)
    {
      bitPos := 1;
      number := n;
      countZero := if And(n, 1) == 0 then 1 else 0;
      countOne := if And(n, 1) == 1 then 1 else 0;
    }

    /** Branches at pos: below stays on its own side, the side n goes to is left empty. */
    method MakeBranch(pos: nat, n: nat, below: Node)
      modifies this
      ensures bitPos == pos && number == n
      ensures if And(n, pos) == 0 then zero == null && one == below else zero == below && one == null
    {
      bitPos := pos;
      number := n;
      if And(n, pos) == 0 {
        one := below;
        zero := null;
      } else {
        zero := below;
        one := null;
      }
    }
  }

  datatype Trie =
    | Nil
    | Leaf(node: Node, number: nat, zeros: nat, ones: nat)
    | Branch(node: Node, level: nat, number: nat, zero: Trie, one: Trie)
  {
    ghost function Level(): nat
      requires !Nil?
    {
      if Leaf? then 0 else level
    }
  }

  ghost function Nodes(t: Trie): set<Node> {
    match t
    case Nil => {}
    case Leaf(n, _, _, _) => {n}
    case Branch(n, _, _, zero, one) => {n} + Nodes(zero) + Nodes(one)
  }

  /** No node is shared. */
  ghost predicate Distinct(t: Trie) {
    t.Branch? ==>
      && t.node !in Nodes(t.zero) && t.node !in Nodes(t.one)
      && Nodes(t.zero) !! Nodes(t.one)
      && Distinct(t.zero) && Distinct(t.one)
  }

  /** The snapshot t is what the link n leads to. */
  ghost predicate Mirrors(t: Trie, n: Node?)
    reads Nodes(t)
  {
    match t
    case Nil => n == null
    case Leaf(node, number, zeros, ones) =>
      n == node && node.bitPos == 1 && node.number == number && node.countZero == zeros && node.countOne == ones
    case Branch(node, level, number, zero, one) =>
      && n == node && node.bitPos == Pow2(level) && node.number == number
      && Mirrors(zero, node.zero) && Mirrors(one, node.one)
  }

  /** child may hang on side dir (false for zero) of a node that branches at the given level. */
  ghost predicate FitsUnder(child: Trie, dir: bool, level: nat, number: nat) {
    !child.Nil? ==>
      child.Level() < level && AgreeAbove(child.number, number, level) && Bit(child.number, level) == dir
  }

  /** The invariant of the trie. */
  ghost predicate Wf(t: Trie) {
    match t
    case Nil => true
    case Leaf(_, number, zeros, ones) => number < INT_LIMIT && zeros + ones > 0
    case Branch(_, level, number, zero, one) =>
      && 0 < level <= 30 && number < INT_LIMIT
      && !(zero.Nil? && one.Nil?)
      && Wf(zero) && FitsUnder(zero, false, level, number)
      && Wf(one) && FitsUnder(one, true, level, number)
  }

  function Copies(x: int, n: nat): (copies: seq<int>)
    ensures |copies| == n
  {
    seq(n, _ => x)
  }

  lemma OneMoreCopy(x: int, n: nat)
    ensures Copies(x, n + 1) == Copies(x, n) + [x]
  {
  }

  lemma OneMoreCounted(x: int, n: nat)
    ensures multiset(Copies(x, n + 1)) == multiset(Copies(x, n)) + multiset{x}
  {
    OneMoreCopy(x, n);
  }

  /** The two numbers a leaf counts. */
  function EvenNumber(number: nat): nat {
    And(number, Complement(1))
  }

  function OddNumber(number: nat): nat {
    Or(number, 1)
  }

  /** The numbers in the trie, in the order in which the tree is drained. */
  ghost function Flatten(t: Trie): seq<int> {
    match t
    case Nil => []
    case Leaf(_, number, zeros, ones) => Copies(EvenNumber(number), zeros) + Copies(OddNumber(number), ones)
    case Branch(_, _, _, zero, one) => Flatten(zero) + Flatten(one)
  }

  /** All numbers below a node agree with the node's number above its bit position. */
  lemma {:induction false} NumbersAgree(t: Trie, x: int)
    requires Wf(t) && x in Flatten(t)
    ensures 0 <= x < INT_LIMIT && AgreeAbove(x, t.number, t.Level())
    decreases t, 1
  {
    if t.Leaf? {
      LeafNumbers(t.number);
    } else {
      var dir := x !in Flatten(t.zero);
      ChildNumbers(t, dir, x);
    }
  }

  /** The children of a node are split by the node's bit. */
  lemma {:induction false} ChildNumbers(t: Trie, dir: bool, x: int)
    requires Wf(t) && t.Branch?
    requires x in Flatten(if dir then t.one else t.zero)
    ensures 0 <= x < INT_LIMIT && AgreeAbove(x, t.number, t.level) && Bit(x, t.level) == dir
    decreases t, 0
  {
    var child := if dir then t.one else t.zero;
    NumbersAgree(child, x);
    AgreeAboveHigher(x, child.number, child.Level(), t.level);
  }

  /** A well-formed trie lists its numbers in ascending order. */
  lemma {:induction false} FlattenSorted(t: Trie)
    requires Wf(t)
    ensures Sorted(Flatten(t))
  {
    match t
    case Nil =>
    case Leaf(_, number, _, _) => LeafNumbers(number);
    case Branch(_, level, _, zero, one) =>
      FlattenSorted(zero);
      FlattenSorted(one);
      forall x, y | x in Flatten(zero) && y in Flatten(one)
        ensures x <= y
      {
        ChildNumbers(t, false, x);
        ChildNumbers(t, true, y);
        SplitOrders(x, y, level);
      }
      SortedJoin(Flatten(zero), Flatten(one));
  }

  lemma {:induction false} WfNotEmpty(t: Trie)
    requires Wf(t)
    ensures t.Nil? <==> Flatten(t) == []
  {
    match t
    case Nil =>
    case Leaf(_, _, _, _) =>
    case Branch(_, _, _, zero, one) =>
      WfNotEmpty(zero);
      WfNotEmpty(one);
  }

  // ----- the way from the root down to a cursor

  /** The address held by the C variable parent: the global variable or a link inside a node. */
  datatype Slot = Root | ZeroOf(n: Node) | OneOf(n: Node) {
    /** The node whose link it is. */
    ghost function Owner(): set<Node> {
      if Root? then {} else {n}
    }
  }

  /** The branches passed on the way to a slot, the last one outermost, each with its other child. */
  datatype Path =
    | Top
    | Down(up: Path, node: Node, level: nat, number: nat, dir: bool, sibling: Trie)
  {
    ghost function Hole(): Slot {
      if Top? then Root else if dir then OneOf(node) else ZeroOf(node)
    }
  }

  ghost function Join(node: Node, level: nat, number: nat, dir: bool, sibling: Trie, t: Trie): Trie {
    if dir then Branch(node, level, number, sibling, t) else Branch(node, level, number, t, sibling)
  }

  /** The whole trie, given what hangs at the end of the path. */
  ghost function Plug(path: Path, t: Trie): Trie {
    match path
    case Top => t
    case Down(up, node, level, number, dir, sibling) => Plug(up, Join(node, level, number, dir, sibling, t))
  }

  ghost function PathNodes(path: Path): set<Node> {
    match path
    case Top => {}
    case Down(up, node, _, _, _, sibling) => PathNodes(up) + {node} + Nodes(sibling)
  }

  lemma HoleIsOnPath(path: Path)
    ensures path.Hole().Owner() <= PathNodes(path)
  {
  }

  ghost predicate PathDistinct(path: Path) {
    path.Down? ==>
      && path.node !in PathNodes(path.up) && path.node !in Nodes(path.sibling)
      && PathNodes(path.up) !! Nodes(path.sibling)
      && PathDistinct(path.up) && Distinct(path.sibling)
  }

  /** t may hang at the end of the path. */
  ghost predicate FitsAt(path: Path, t: Trie) {
    path.Down? ==> FitsUnder(t, path.dir, path.level, path.number)
  }

  lemma {:induction false} PlugNodes(path: Path, t: Trie)
    ensures Nodes(Plug(path, t)) == PathNodes(path) + Nodes(t)
  {
    match path
    case Top =>
    case Down(up, node, level, number, dir, sibling) =>
      PlugNodes(up, Join(node, level, number, dir, sibling, t));
  }

  lemma {:induction false} PlugDistinct(path: Path, t: Trie)
    requires PathDistinct(path) && Distinct(t) && PathNodes(path) !! Nodes(t)
    ensures Distinct(Plug(path, t))
  {
    match path
    case Top =>
    case Down(up, node, level, number, dir, sibling) =>
      PlugDistinct(up, Join(node, level, number, dir, sibling, t));
  }

  lemma JoinFlatten(node: Node, level: nat, number: nat, dir: bool, sibling: Trie, t: Trie)
    ensures multiset(Flatten(Join(node, level, number, dir, sibling, t)))
            == multiset(Flatten(sibling)) + multiset(Flatten(t))
  {
    if dir {
      JoinedMultiset(Flatten(sibling), Flatten(t));
    } else {
      JoinedMultiset(Flatten(t), Flatten(sibling));
    }
  }

  lemma JoinedMultiset(a: seq<int>, b: seq<int>)
    ensures multiset(a + b) == multiset(a) + multiset(b)
  {
  }

  lemma {:induction false} PlugFlatten(path: Path, t: Trie, t': Trie, x: nat)
    requires multiset(Flatten(t')) == multiset(Flatten(t)) + multiset{x}
    ensures multiset(Flatten(Plug(path, t'))) == multiset(Flatten(Plug(path, t))) + multiset{x}
  {
    hide Flatten, Join;
    match path
    case Top =>
    case Down(up, node, level, number, dir, sibling) =>
      JoinFlatten(node, level, number, dir, sibling, t);
      JoinFlatten(node, level, number, dir, sibling, t');
      PlugFlatten(up, Join(node, level, number, dir, sibling, t), Join(node, level, number, dir, sibling, t'), x);
  }

  lemma {:induction false} PlugSame(path: Path, t: Trie, t': Trie)
    requires multiset(Flatten(t')) == multiset(Flatten(t))
    ensures multiset(Flatten(Plug(path, t'))) == multiset(Flatten(Plug(path, t)))
  {
    hide Flatten, Join;
    match path
    case Top =>
    case Down(up, node, level, number, dir, sibling) =>
      JoinFlatten(node, level, number, dir, sibling, t);
      JoinFlatten(node, level, number, dir, sibling, t');
      PlugSame(up, Join(node, level, number, dir, sibling, t), Join(node, level, number, dir, sibling, t'));
  }

  lemma {:induction false} WfAtHole(path: Path, t: Trie)
    requires Wf(Plug(path, t))
    ensures Wf(t) && FitsAt(path, t)
  {
    match path
    case Top =>
    case Down(up, node, level, number, dir, sibling) =>
      WfAtHole(up, Join(node, level, number, dir, sibling, t));
  }

  /** Replacing what hangs at the end of the path keeps the invariant when the new part fits there. */
  lemma {:induction false} WfReplace(path: Path, t: Trie, t': Trie)
    requires Wf(Plug(path, t))
    requires Wf(t') && FitsAt(path, t') && !t'.Nil?
    ensures Wf(Plug(path, t'))
  {
    match path
    case Top =>
    case Down(up, node, level, number, dir, sibling) =>
      var s, s' := Join(node, level, number, dir, sibling, t), Join(node, level, number, dir, sibling, t');
      WfAtHole(up, s);
      WfReplace(up, s, s');
  }
}
