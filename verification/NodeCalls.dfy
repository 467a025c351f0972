/** What A6/handout/radix.c does with the blocks of its nodes: it takes them, gives them back and sets their words. */
module NodeCalls {
  import opened RadixTrie

  /** sizeof(struct node) in words: two ints, and two more or two pointers. */
  const NODE_WORDS := 4

  datatype Call = Taken(n: Node) | Given(n: Node) | Set(n: Node, field: int, word: int)

  datatype Option<T> = None | Some(value: T)

  /** The nodes taken and not given back. */
  ghost function LiveAfter(calls: seq<Call>): set<Node> {
    if calls == [] then {}
    else
      var before := LiveAfter(calls[..|calls| - 1]);
      match calls[|calls| - 1]
      case Taken(n) => before + {n}
      case Given(n) => before - {n}
      case Set(_, _, _) => before
  }

  /** A node is taken only while it is not live, and given back or written to only while it is. */
  ghost predicate Proper(calls: seq<Call>) {
    calls == [] ||
    var before := calls[..|calls| - 1];
    Proper(before) &&
    match calls[|calls| - 1]
    case Taken(n) => n !in LiveAfter(before)
    case Given(n) => n in LiveAfter(before)
    case Set(n, field, _) => n in LiveAfter(before) && 0 <= field < NODE_WORDS
  }

  /** The word last set in a field of a node, since the node was taken. */
  ghost function FieldAfter(calls: seq<Call>, n: Node, field: int): Option<int> {
    if calls == [] then None
    else
      var before := FieldAfter(calls[..|calls| - 1], n, field);
      match calls[|calls| - 1]
      case Taken(m) => if m == n then None else before
      case Given(m) => if m == n then None else before
      case Set(m, f, word) => if m == n && f == field then Some(word) else before
  }

  lemma OneCall(calls: seq<Call>, call: Call)
    requires Proper(calls) && !call.Set?
    requires call.Taken? <==> call.n !in LiveAfter(calls)
    ensures Proper(calls + [call])
    ensures LiveAfter(calls + [call]) == if call.Taken? then LiveAfter(calls) + {call.n} else LiveAfter(calls) - {call.n}
  {
    assert (calls + [call])[..|calls|] == calls;
  }

  /** The calls of allocate and release alone. */
  ghost function WithoutSets(calls: seq<Call>): seq<Call> {
    if calls == [] then []
    else
      var before := WithoutSets(calls[..|calls| - 1]);
      if calls[|calls| - 1].Set? then before else before + [calls[|calls| - 1]]
  }

  /** Every word is set in a node that is live at the time. */
  ghost predicate SetsLive(calls: seq<Call>) {
    calls == [] ||
    var before, last := calls[..|calls| - 1], calls[|calls| - 1];
    SetsLive(before) && (last.Set? ==> last.n in LiveAfter(before) && 0 <= last.field < NODE_WORDS)
  }

  /** Setting words of live nodes between proper calls of allocate and release, and nothing else, keeps them proper. */
  lemma {:induction false} SetsBetween(calls: seq<Call>)
    ensures LiveAfter(WithoutSets(calls)) == LiveAfter(calls)
    ensures Proper(calls) <==> Proper(WithoutSets(calls)) && SetsLive(calls)
  {
    if calls != [] {
      var before, last := calls[..|calls| - 1], calls[|calls| - 1];
      SetsBetween(before);
      if !last.Set? {
        assert (WithoutSets(before) + [last])[..|WithoutSets(before)|] == WithoutSets(before);
      }
    }
  }
}
