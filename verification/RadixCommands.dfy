/**
 The command loop of A6/handout/radix.c: a non-negative number n adds n, a negative number -N takes up
 to N numbers out, in batches of at most 100, and writes them to the output file.
*/
module RadixCommands {
  import opened BitPositions
  import opened SortedNumbers
  import opened NodeCalls
  import RadixTree

  const BATCH := 100

  // ----- what the program is for: a machine over an ascending sequence

  type State = (seq<int>, seq<int>)

  /** One command: the new contents and what is written. */
  function Step(contents: seq<int>, command: int): State {
    if command >= 0 then
      (Insert(contents, command), [])
    else
      var n := Least(-command, contents);
      (contents[n..], contents[..n])
  }

  /** All commands, first to last: the contents left and everything written. */
  function Run(contents: seq<int>, commands: seq<int>): State {
    if commands == [] then
      (contents, [])
    else
      var last := |commands| - 1;
      var (before, written) := Run(contents, commands[..last]);
      var (after, more) := Step(before, commands[last]);
      (after, written + more)
  }

  /** The numbers added by a sequence of commands. */
  function Added(commands: seq<int>): seq<int> {
    if commands == [] then
      []
    else
      var last := |commands| - 1;
      Added(commands[..last]) + (if commands[last] >= 0 then [commands[last]] else [])
  }

  /** The contents stay ascending, and nothing is lost, invented or written twice. */
  lemma {:induction false} Conservation(contents: seq<int>, commands: seq<int>)
    requires Sorted(contents)
    ensures Sorted(Run(contents, commands).0)
    ensures multiset(contents) + multiset(Added(commands))
            == multiset(Run(contents, commands).1) + multiset(Run(contents, commands).0)
  {
    if commands != [] {
      hide Step, Sorted;
      var last := |commands| - 1;
      var (before, written) := Run(contents, commands[..last]);
      var (after, more) := Step(before, commands[last]);
      var added := if commands[last] >= 0 then [commands[last]] else [];
      Conservation(contents, commands[..last]);
      StepConserves(before, commands[last]);
      Rebalance(multiset(contents), multiset(Added(commands[..last])), multiset(written), multiset(before),
                multiset(added), multiset(more), multiset(after));
      assert multiset(written + more) == multiset(written) + multiset(more);
      assert multiset(Added(commands[..last]) + added) == multiset(Added(commands[..last])) + multiset(added);
    }
  }

  lemma Rebalance(a: multiset<int>, b: multiset<int>, w: multiset<int>, middle: multiset<int>,
                  c: multiset<int>, m: multiset<int>, left: multiset<int>)
    requires a + b == w + middle && middle + c == m + left
    ensures a + (b + c) == (w + m) + left
  {
    assert a + (b + c) == (a + b) + c == w + (middle + c) == (w + m) + left;
  }

  lemma StepConserves(contents: seq<int>, command: int)
    requires Sorted(contents)
    ensures Sorted(Step(contents, command).0)
    ensures multiset(contents) + multiset(if command >= 0 then [command] else [])
            == multiset(Step(contents, command).1) + multiset(Step(contents, command).0)
  {
    if command >= 0 {
      InsertKeepsSorted(contents, command);
      InsertAddsOne(contents, command);
    } else {
      var n := Least(-command, contents);
      assert contents == contents[..n] + contents[n..];
    }
  }

  /** A take writes the N smallest numbers in ascending order, or all when there are fewer. */
  lemma TakeWritesSmallest(contents: seq<int>, command: int)
    requires Sorted(contents) && command < 0
    ensures var (left, written) := Step(contents, command);
            && |written| == (if |contents| < -command then |contents| else -command)
            && Sorted(written)
            && forall x, y :: x in written && y in left ==> x <= y
  {
  }

  /** Two command sequences one after the other are one sequence. */
  lemma {:induction false} RunJoined(contents: seq<int>, first: seq<int>, second: seq<int>)
    ensures var (middle, written) := Run(contents, first);
            Run(contents, first + second) == (Run(middle, second).0, written + Run(middle, second).1)
  {
    hide Step;
    if second == [] {
      assert first + second == first;
      assert Run(contents, first).1 + [] == Run(contents, first).1;
    } else {
      var last := |second| - 1;
      RunJoined(contents, first, second[..last]);
      assert (first + second)[..|first| + last] == first + second[..last];
      var (middle, written) := Run(contents, first);
      var (before, more) := Run(middle, second[..last]);
      var (after, most) := Step(before, second[last]);
      assert (written + more) + most == written + (more + most);
    }
  }

  lemma RunLast(contents: seq<int>, commands: seq<int>, command: int)
    ensures var (before, written) := Run(contents, commands);
            Run(contents, commands + [command]) == (Step(before, command).0, written + Step(before, command).1)
  {
    hide Step;
    assert (commands + [command])[..|commands|] == commands;
  }

  /** The ascending listing of what was added and not yet written is what the machine holds. */
  lemma HeldIsListing(contents: seq<int>, commands: seq<int>, q: seq<int>)
    requires Sorted(contents) && Sorted(q)
    requires multiset(q) == multiset(contents) + multiset(Added(commands)) - multiset(Run(contents, commands).1)
    ensures q == Run(contents, commands).0
  {
    hide Sorted, Run, Added;
    Conservation(contents, commands);
    var (held, written) := Run(contents, commands);
    assert multiset(contents) + multiset(Added(commands)) - multiset(written) == multiset(held);
    SortedIsUnique(q, held);
  }

  /**
   What a whole run writes: adding a number writes nothing, and taking n writes, of all the numbers added and
   not written so far, the n smallest in ascending order, or all of them when there are fewer.
  */
  lemma RunWrites(contents: seq<int>, commands: seq<int>, n: int, q: seq<int>)
    requires Sorted(contents) && n > 0 && Sorted(q)
    requires multiset(q) == multiset(contents) + multiset(Added(commands)) - multiset(Run(contents, commands).1)
    ensures Run(contents, []).1 == []
    ensures Run(contents, commands + [n]).1 == Run(contents, commands).1 == Run(contents, commands + [0]).1
    ensures Run(contents, commands + [-n]).1 == Run(contents, commands).1 + q[..if n < |q| then n else |q|]
  {
    HeldIsListing(contents, commands, q);
    RunNothing(contents);
    RunLast(contents, commands, n);
    RunLast(contents, commands, 0);
    RunLast(contents, commands, -n);
    hide Run, Added, Insert;
  }

  /** The numbers added are the commands that are not negative, in their order. */
  lemma {:induction false} AddedJoined(first: seq<int>, second: seq<int>)
    ensures Added(first + second) == Added(first) + Added(second)
    ensures forall n :: n in first && n >= 0 ==> n in Added(first)
    ensures forall n :: n in Added(first) ==> n in first && n >= 0
    decreases |first| + |second|
  {
    if second == [] {
      assert first + second == first;
      if first != [] {
        var last := |first| - 1;
        AddedJoined(first[..last], []);
        assert first == first[..last] + [first[last]];
      }
    } else {
      var last := |second| - 1;
      AddedJoined(first, second[..last]);
      assert (first + second)[..|first| + last] == first + second[..last];
    }
  }

  // ----- the program

  function Joined(chunks: seq<seq<int>>): seq<int> {
    if chunks == [] then [] else Joined(chunks[..|chunks| - 1]) + chunks[|chunks| - 1]
  }

  function TotalLength(chunks: seq<seq<int>>): nat {
    if chunks == [] then 0 else TotalLength(chunks[..|chunks| - 1]) + |chunks[|chunks| - 1]|
  }

  /** Number j of read i is behind the numbers of the reads before it. */
  lemma {:induction false} JoinedAt(chunks: seq<seq<int>>, i: nat, j: nat)
    requires i < |chunks| && j < |chunks[i]|
    ensures |Joined(chunks)| == TotalLength(chunks)
    ensures TotalLength(chunks[..i]) + j < |Joined(chunks)| && Joined(chunks)[TotalLength(chunks[..i]) + j] == chunks[i][j]
    decreases |chunks|
  {
    var last := |chunks| - 1;
    JoinedLength(chunks[..last]);
    if i < last {
      JoinedAt(chunks[..last], i, j);
      assert chunks[..last][..i] == chunks[..i];
    }
  }

  lemma {:induction false} JoinedLength(chunks: seq<seq<int>>)
    ensures |Joined(chunks)| == TotalLength(chunks)
    decreases |chunks|
  {
    if chunks != [] {
      JoinedLength(chunks[..|chunks| - 1]);
    }
  }

  ghost predicate Readable(chunk: seq<int>) {
    0 < |chunk| <= BATCH && forall x :: x in chunk ==> 0 < x + INT_LIMIT && x < INT_LIMIT
  }

  /** Takes limit numbers in batches; a batch that comes back empty means the tree is empty. */
  method TakeBatches(tree: RadixTree.Tree, number: int, outNumbers: array<int>) returns (written: seq<int>)
    requires tree.Valid() && outNumbers.Length == BATCH && number < 0
    modifies tree, tree.live, outNumbers
    ensures tree.Valid() && tree.live <= old(tree.live)
    ensures (tree.Contents(), written) == Step(old(tree.Contents()), number)
  {
    ghost var q := tree.Contents();
    var limit := -number;
    written := [];
    while limit > 0
      invariant tree.Valid() && tree.live <= old(tree.live)
      invariant limit >= 0 && |written| <= |q| && limit + |written| == -number
      invariant written == q[..|written|] && tree.Contents() == q[|written|..]
      decreases limit
    {
      var takeMax := if limit < BATCH then limit else BATCH;
      var taken := tree.TakeNumbers(outNumbers, takeMax);
      assert q[..|written| + taken] == q[..|written|] + q[|written|..][..taken];
      assert q[|written| + taken..] == q[|written|..][taken..];
      written := written + outNumbers[..taken];
      limit := limit - taken;
      if taken == 0 {
        break;
      }
    }
  }

  method ProcessChunk(tree: RadixTree.Tree, numbers: seq<int>, outNumbers: array<int>) returns (written: seq<int>)
    requires tree.Valid() && outNumbers.Length == BATCH && Readable(numbers)
    modifies tree, tree.live, outNumbers
    ensures tree.Valid() && fresh(tree.live - old(tree.live))
    ensures (tree.Contents(), written) == Run(old(tree.Contents()), numbers)
  {
    hide Step;
    ghost var q := tree.Contents();
    written := [];
    for n := 0 to |numbers|
      invariant tree.Valid() && fresh(tree.live - old(tree.live))
      invariant (tree.Contents(), written) == Run(q, numbers[..n])
    {
      assert numbers[..n + 1][..n] == numbers[..n];
      ghost var before := tree.Contents();
      StepCases(before, numbers[n]);
      if numbers[n] < 0 {
        var more := TakeBatches(tree, numbers[n], outNumbers);
        written := written + more;
      } else {
        assert numbers[n] in numbers;
        tree.AddNumber(numbers[n]);
        assert written == written + [];
      }
    }
    assert numbers[..|numbers|] == numbers;
  }

  lemma StepCases(contents: seq<int>, command: int)
    ensures command >= 0 ==> Step(contents, command) == (Insert(contents, command), [])
  {
  }

  /** chunks is what successive reads deliver until the file ends. */
  method Process(chunks: seq<seq<int>>) returns (outFile: seq<int>, ghost calls: seq<Call>)
    requires forall c :: c in chunks ==> Readable(c)
    ensures outFile == Run([], Joined(chunks)).1
    ensures Proper(calls) && LiveAfter(calls) == {}
  {
    hide Run;
    var tree := new RadixTree.Tree();
    outFile := [];
    var outNumbers := new int[BATCH];
    RunNothing([]);
    for i := 0 to |chunks|
      invariant tree.Valid() && fresh(tree) && fresh(tree.live)
      invariant (tree.Contents(), outFile) == Run([], Joined(chunks[..i]))
    {
      var more := ProcessChunk(tree, chunks[i], outNumbers);
      RunJoined([], Joined(chunks[..i]), chunks[i]);
      outFile := outFile + more;
      assert chunks[..i + 1][..i] == chunks[..i];
    }
    assert chunks[..|chunks|] == chunks;
    tree.Dispose();
    calls := tree.calls;
  }

  lemma RunNothing(contents: seq<int>)
    ensures Run(contents, []) == (contents, [])
  {
  }

  /** How the input is cut into reads cannot be seen in the output. */
  lemma {:induction false} JoinedFlat(chunks: seq<seq<int>>, i: nat, j: nat)
    requires i < |chunks| && j <= |chunks[i]|
    ensures var cut := chunks[..i] + [chunks[i][..j], chunks[i][j..]] + chunks[i + 1..];
            Joined(cut) == Joined(chunks)
  {
    var cut := chunks[..i] + [chunks[i][..j], chunks[i][j..]] + chunks[i + 1..];
    var last := |chunks| - 1;
    if i == last {
      assert cut[..|cut| - 1] == chunks[..i] + [chunks[i][..j]];
      assert (chunks[..i] + [chunks[i][..j]])[..i] == chunks[..i];
      assert chunks[i] == chunks[i][..j] + chunks[i][j..];
    } else {
      JoinedFlat(chunks[..last], i, j);
      assert cut[..|cut| - 1] == chunks[..last][..i] + [chunks[i][..j], chunks[i][j..]] + chunks[..last][i + 1..];
    }
  }
}
