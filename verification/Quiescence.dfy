/**
 The gossip of peers joining ends. Handling a message or finishing a handler uses it up and starts only
 later kinds of work, so without new registrations every run becomes quiet, and from every state it can.
*/
module Quiescence {
  import opened PeerNetwork
  import opened Membership

  /** Registrations start handlers, handlers start replies and then notes, and those start nothing. */
  function Rank(t: Token): nat {
    match t
    case RegisterMsg(_) => 0
    case Replying(_, _) => 1
    case Informing(_) => 2
    case _ => 3
  }

  ghost function Pick(m: multiset<Token>): (t: Token)
    requires m != multiset{}
    ensures t in m
  {
    var t :| t in m;
    t
  }

  function One(t: Token, k: nat): nat {
    if Rank(t) == k then 1 else 0
  }

  /** How many tokens of a rank there are. */
  ghost function Count(m: multiset<Token>, k: nat): nat
    decreases |m|
  {
    if m == multiset{} then 0 else One(Pick(m), k) + Count(m - multiset{Pick(m)}, k)
  }

  lemma {:induction false} CountWithout(m: multiset<Token>, t: Token, k: nat)
    requires t in m
    ensures Count(m, k) == One(t, k) + Count(m - multiset{t}, k)
    decreases |m|
  {
    var x := Pick(m);
    if x != t {
      CountWithout(m - multiset{x}, t, k);
      CountWithout(m - multiset{t}, x, k);
      assert m - multiset{x} - multiset{t} == m - multiset{t} - multiset{x};
    }
  }

  lemma {:induction false} CountJoined(m: multiset<Token>, n: multiset<Token>, k: nat)
    ensures Count(m + n, k) == Count(m, k) + Count(n, k)
    decreases |n|
  {
    if n == multiset{} {
      assert m + n == m;
    } else {
      var t := Pick(n);
      CountWithout(m + n, t, k);
      CountJoined(m, n - multiset{t}, k);
      assert m + n - multiset{t} == m + (n - multiset{t});
    }
  }

  lemma {:induction false} CountNone(m: multiset<Token>, k: nat)
    requires forall t :: t in m ==> Rank(t) != k
    ensures Count(m, k) == 0
    decreases |m|
  {
    if m != multiset{} {
      CountNone(m - multiset{Pick(m)}, k);
    }
  }

  /** Fewer registrations, or as many and fewer handlers with a reply, and so on. */
  ghost predicate Shrinks(m: multiset<Token>, n: multiset<Token>) {
    || Count(n, 0) < Count(m, 0)
    || (Count(n, 0) == Count(m, 0) && Count(n, 1) < Count(m, 1))
    || (Count(n, 0) == Count(m, 0) && Count(n, 1) == Count(m, 1) && Count(n, 2) < Count(m, 2))
    || (Count(n, 0) == Count(m, 0) && Count(n, 1) == Count(m, 1) && Count(n, 2) == Count(m, 2) && Count(n, 3) < Count(m, 3))
  }

  /** Using up one token and adding only tokens of higher rank. */
  lemma UsedUp(m: multiset<Token>, gone: Token, added: multiset<Token>)
    requires gone in m && forall t :: t in added ==> Rank(t) > Rank(gone)
    ensures Shrinks(m, m - multiset{gone} + added)
  {
    forall k: nat | k <= Rank(gone)
      ensures Count(m - multiset{gone} + added, k) == Count(m, k) - One(gone, k)
    {
      CountWithout(m, gone, k);
      CountJoined(m - multiset{gone}, added, k);
      CountNone(added, k);
    }
    hide Count;
    assert Rank(gone) == 0 || Rank(gone) == 1 || Rank(gone) == 2 || Rank(gone) == 3;
  }

  ghost predicate Handles(step: Step) {
    !step.Start? && !step.SendRegister?
  }

  /** Every step but starting a peer and sending a registration shrinks what is under way. */
  lemma HandlingShrinks(s: System, step: Step)
    requires Enabled(s, step) && Handles(step)
    ensures Shrinks(s.tokens, Next(s, step).tokens)
  {
    hide Shrinks, Knows, Expired, Added, Merged, Addresses, Informs, InTime;
    var m := s.tokens;
    match step {
      case HandleRegister(p, now) =>
        var net := Expired(s.nets[s.boot], p, now);
        if Knows(net, p) {
          UsedUp(m, RegisterMsg(p), multiset{RefusalMsg(p)});
        } else {
          UsedUp(m, RegisterMsg(p), multiset{Replying(p, Addresses(Added(net, p, now)))});
        }
      case SendReply(p, list) => UsedUp(m, Replying(p, list), multiset{ReplyMsg(p, list), Informing(p)});
      case InformOthers(p) =>
        InformsAll(Addresses(s.nets[s.boot]), s.boot, p);
        UsedUp(m, Informing(p), Informs(Addresses(s.nets[s.boot]), s.boot, p));
      case ReadReply(p, list, _) => OnlyUsed(m, ReplyMsg(p, list));
      case ReadRefusal(p) => OnlyUsed(m, RefusalMsg(p));
      case ReadInform(p, q, _) => OnlyUsed(m, InformMsg(p, q));
    }
  }

  lemma OnlyUsed(m: multiset<Token>, gone: Token)
    requires gone in m
    ensures Shrinks(m, m - multiset{gone})
  {
    UsedUp(m, gone, multiset{});
    assert m - multiset{gone} + multiset{} == m - multiset{gone};
  }

  /** There is no endless run of handling steps, in whatever order they come. */
  lemma {:induction false} EveryRunEnds(run: nat -> System, steps: nat -> Step, i: nat)
    requires forall j: nat :: Enabled(run(j), steps(j)) && Handles(steps(j)) && run(j + 1) == Next(run(j), steps(j))
    ensures false
    decreases Count(run(i).tokens, 0), Count(run(i).tokens, 1), Count(run(i).tokens, 2), Count(run(i).tokens, 3)
  {
    hide Enabled, Next, Handles, Count;
    HandlingShrinks(run(i), steps(i));
    EveryRunEnds(run, steps, i + 1);
  }

  // ----- every token can move

  function Handling(t: Token, now: real): Step {
    match t
    case RegisterMsg(p) => HandleRegister(p, now)
    case Replying(p, list) => SendReply(p, list)
    case Informing(p) => InformOthers(p)
    case ReplyMsg(p, list) => ReadReply(p, list, now)
    case RefusalMsg(p) => ReadRefusal(p)
    case InformMsg(p, q) => ReadInform(p, q, now)
  }

  ghost predicate AllInTime(s: System, now: real) {
    now >= 0.0 && forall p :: p in s.nets ==> InTime(s.nets[p], now)
  }

  lemma TokenMoves(s: System, t: Token, now: real)
    requires Invariant(s) && t in s.tokens && AllInTime(s, now)
    ensures Enabled(s, Handling(t, now)) && Handles(Handling(t, now))
  {
    hide Plain, Good, NobodyForgotten, InTime, Knows;
    assert Truthful(s, t);
  }

  lemma NothingExpires(net: seq<Entry>, sender: Address, now: real)
    requires InTime(net, now)
    ensures Expired(net, sender, now) == net
  {
    NothingStale(net, now);
  }

  lemma AddedInTime(net: seq<Entry>, a: Address, now: real)
    requires InTime(net, now)
    ensures InTime(Added(net, a, now), now)
  {
    hide Knows;
  }

  lemma {:induction false} MergedInTime(net: seq<Entry>, list: seq<Address>, now: real)
    requires InTime(net, now)
    ensures InTime(Merged(net, list, now), now)
    decreases |list|
  {
    hide InTime, Added;
    if list != [] {
      AddedInTime(net, list[0], now);
      MergedInTime(Added(net, list[0], now), list[1..], now);
    }
  }

  lemma ListInTime(s: System, s': System, p: Address, net: seq<Entry>, now: real)
    requires AllInTime(s, now) && InTime(net, now) && s'.nets == s.nets[p := net]
    ensures AllInTime(s', now)
  {
    hide InTime;
  }

  lemma RegisterInTime(s: System, p: Address, now: real)
    requires AllInTime(s, now) && Enabled(s, HandleRegister(p, now))
    ensures AllInTime(Next(s, HandleRegister(p, now)), now)
  {
    NothingExpires(s.nets[s.boot], p, now);
    AddedInTime(s.nets[s.boot], p, now);
    hide Knows, Expired, Added, Addresses, InTime, AllInTime;
    var s' := Next(s, HandleRegister(p, now));
    ListInTime(s, s', s.boot, s'.nets[s.boot], now);
  }

  lemma InformInTime(s: System, p: Address, q: Address, now: real)
    requires AllInTime(s, now) && Enabled(s, ReadInform(p, q, now))
    ensures AllInTime(Next(s, ReadInform(p, q, now)), now)
  {
    NothingExpires(s.nets[p], s.boot, now);
    AddedInTime(s.nets[p], q, now);
    hide Expired, Added, InTime, AllInTime;
    ListInTime(s, Next(s, ReadInform(p, q, now)), p, Added(s.nets[p], q, now), now);
  }

  lemma ReplyInTime(s: System, p: Address, list: seq<Address>, now: real)
    requires AllInTime(s, now) && Enabled(s, ReadReply(p, list, now))
    ensures AllInTime(Next(s, ReadReply(p, list, now)), now)
  {
    MergedInTime(s.nets[p], list, now);
    hide Merged, InTime, AllInTime;
    ListInTime(s, Next(s, ReadReply(p, list, now)), p, Merged(s.nets[p], list, now), now);
  }

  /** When everyone was in time at now, everyone still is after a step taken at now. */
  lemma StaysInTime(s: System, t: Token, now: real)
    requires AllInTime(s, now) && Enabled(s, Handling(t, now))
    ensures AllInTime(Next(s, Handling(t, now)), now)
  {
    match t {
      case RegisterMsg(p) => RegisterInTime(s, p, now);
      case InformMsg(p, q) => InformInTime(s, p, q, now);
      case ReplyMsg(p, list) => ReplyInTime(s, p, list, now);
      case _ => hide InTime, Informs, Addresses;
    }
  }

  /** p is registered, or its registration is on its way. */
  ghost predicate Joining(s: System, p: Address) {
    RegisterMsg(p) in s.tokens || (s.boot in s.nets && Knows(s.nets[s.boot], p))
  }

  lemma AddedKnows(net: seq<Entry>, a: Address, now: real, p: Address)
    ensures Knows(Added(net, a, now), p) <==> Knows(net, p) || p == a
  {
    var net' := Added(net, a, now);
    assert forall i :: 0 <= i < |net| ==> net'[i] == net[i];
    if !Knows(net, a) {
      assert net'[|net|].address == a;
    }
  }

  lemma {:induction false} MergedKnows(net: seq<Entry>, list: seq<Address>, now: real, p: Address)
    requires Knows(net, p)
    ensures Knows(Merged(net, list, now), p)
    decreases |list|
  {
    hide Knows, Added;
    if list != [] {
      AddedKnows(net, list[0], now, p);
      MergedKnows(Added(net, list[0], now), list[1..], now, p);
    }
  }

  lemma RegisterLeaves(s: System, q: Address, now: real)
    requires Enabled(s, HandleRegister(q, now))
    ensures s.tokens - multiset{RegisterMsg(q)} <= Next(s, HandleRegister(q, now)).tokens
  {
    hide Knows, Expired, Added, Addresses, InTime;
  }

  lemma ReplyLeaves(s: System, q: Address, list: seq<Address>)
    requires Enabled(s, SendReply(q, list))
    ensures s.tokens - multiset{Replying(q, list)} <= Next(s, SendReply(q, list)).tokens
  {
  }

  lemma InformLeaves(s: System, q: Address)
    requires Enabled(s, InformOthers(q))
    ensures s.tokens - multiset{Informing(q)} <= Next(s, InformOthers(q)).tokens
  {
    hide Informs, Addresses;
  }

  lemma ReadLeaves(s: System, t: Token, now: real)
    requires Enabled(s, Handling(t, now)) && Rank(t) == 3
    ensures s.tokens - multiset{t} == Next(s, Handling(t, now)).tokens
  {
    hide Expired, Added, Merged, InTime;
  }

  /** Handling a token takes no other away. */
  lemma OthersStay(s: System, t: Token, now: real)
    requires Enabled(s, Handling(t, now))
    ensures s.tokens - multiset{t} <= Next(s, Handling(t, now)).tokens
  {
    hide Enabled, Next;
    match t {
      case RegisterMsg(q) => RegisterLeaves(s, q, now);
      case Replying(q, list) => ReplyLeaves(s, q, list);
      case Informing(q) => InformLeaves(s, q);
      case _ => ReadLeaves(s, t, now);
    }
  }

  lemma TokenStays(s: System, t: Token, now: real, p: Address)
    requires Enabled(s, Handling(t, now)) && RegisterMsg(p) in s.tokens && t != RegisterMsg(p)
    ensures RegisterMsg(p) in Next(s, Handling(t, now)).tokens
  {
    hide Enabled, Next;
    OthersStay(s, t, now);
    assert RegisterMsg(p) in s.tokens - multiset{t};
  }

  /** The bootstrap peer's list after t has been handled in time. */
  function BootList(boot: Address, net: seq<Entry>, t: Token, now: real): seq<Entry> {
    match t
    case RegisterMsg(q) => Added(net, q, now)
    case InformMsg(q, x) => if q == boot then Added(net, x, now) else net
    case ReplyMsg(q, list) => if q == boot then Merged(net, list, now) else net
    case _ => net
  }

  lemma BootHandles(s: System, t: Token, now: real)
    requires AllInTime(s, now) && Enabled(s, Handling(t, now))
    ensures var s' := Next(s, Handling(t, now));
            && s'.boot == s.boot && s.boot in s.nets && s.boot in s'.nets
            && s'.nets[s.boot] == BootList(s.boot, s.nets[s.boot], t, now)
  {
    hide Knows, Expired, Merged, Addresses, Informs, InTime;
    match t {
      case RegisterMsg(q) => NothingExpires(s.nets[s.boot], q, now);
      case InformMsg(q, x) => NothingExpires(s.nets[q], s.boot, now);
      case _ =>
    }
  }

  lemma JoiningKept(s: System, t: Token, now: real, p: Address)
    requires AllInTime(s, now) && Enabled(s, Handling(t, now)) && Joining(s, p)
    ensures Joining(Next(s, Handling(t, now)), p)
  {
    hide AllInTime, Enabled, Next, Knows, Added, Merged;
    BootHandles(s, t, now);
    var net := s.nets[s.boot];
    match t {
      case RegisterMsg(q) => AddedKnows(net, q, now, p);
      case InformMsg(_, x) => AddedKnows(net, x, now, p);
      case ReplyMsg(_, list) =>
        if Knows(net, p) {
          MergedKnows(net, list, now, p);
        }
      case _ =>
    }
    if RegisterMsg(p) in s.tokens && t != RegisterMsg(p) {
      TokenStays(s, t, now, p);
    }
  }

  lemma ReachedNext(boot: Address, past: seq<Step>, s: System, step: Step)
    requires Reached(boot, past, s) && Enabled(s, step)
    ensures Reached(boot, past + [step], Next(s, step))
  {
    hide Enabled, Next;
    assert (past + [step])[..|past|] == past;
  }

  /**
   From every reached state in which nobody has been silent too long, handling what is under way leads to
   a state in which nothing is, and every peer whose registration was on its way is registered.
  */
  lemma {:induction false} BecomesQuiet(boot: Address, past: seq<Step>, s: System, now: real)
      returns (future: seq<Step>, end: System)
    requires Plain(boot) && Reached(boot, past, s) && AllInTime(s, now)
    ensures Reached(boot, past + future, end) && end.tokens == multiset{}
    ensures forall step :: step in future ==> Handles(step)
    ensures forall p :: Joining(s, p) ==> Joining(end, p)
    decreases Count(s.tokens, 0), Count(s.tokens, 1), Count(s.tokens, 2), Count(s.tokens, 3)
  {
    hide Reached, Invariant, AllInTime, Enabled, Next, Plain, Count, Handles, Joining;
    if s.tokens == multiset{} {
      future, end := [], s;
      assert past + [] == past;
    } else {
      var t := Pick(s.tokens);
      var step := Handling(t, now);
      ReachedInvariant(boot, past, s);
      TokenMoves(s, t, now);
      StaysInTime(s, t, now);
      HandlingShrinks(s, step);
      ReachedNext(boot, past, s, step);
      var rest;
      rest, end := BecomesQuiet(boot, past + [step], Next(s, step), now);
      forall p | Joining(s, p)
        ensures Joining(end, p)
      {
        JoiningKept(s, t, now, p);
      }
      future := [step] + rest;
      assert past + [step] + rest == past + future;
    }
  }

  /** So everyone who registers ends up knowing exactly the peers that everyone else knows. */
  lemma BecomesAgreed(boot: Address, past: seq<Step>, s: System, now: real) returns (future: seq<Step>, end: System)
    requires Plain(boot) && Reached(boot, past, s) && AllInTime(s, now)
    ensures Reached(boot, past + future, end) && boot in end.nets
    ensures forall step :: step in future ==> Handles(step)
    ensures forall p :: Joining(s, p) ==> Knows(end.nets[boot], p)
    ensures forall p :: Knows(end.nets[boot], p) ==>
      p in end.nets && forall q :: Knows(end.nets[p], q) <==> Knows(end.nets[boot], q)
  {
    future, end := BecomesQuiet(boot, past, s, now);
    ReachedInvariant(boot, past + future, end);
    hide Reached, Knows, Handles, AllInTime, Plain;
    assert boot in end.nets && Quiet(end);
    hide Invariant;
    forall p | Knows(end.nets[boot], p)
      ensures p in end.nets && forall q :: Knows(end.nets[p], q) <==> Knows(end.nets[boot], q)
    {
      QuietAgreement(boot, past + future, end, p);
    }
  }

  lemma StartReached(boot: Address, past: seq<Step>, s: System, p: Address, now: real)
    requires Plain(boot) && Reached(boot, past, s) && AllInTime(s, now) && Plain(p) && p !in s.nets
    ensures Enabled(s, Start(p)) && Reached(boot, past + [Start(p)], Next(s, Start(p)))
    ensures AllInTime(Next(s, Start(p)), now) && p in Next(s, Start(p)).nets
  {
    ReachedInvariant(boot, past, s);
    assert Enabled(s, Start(p)) by {
      hide Reached, Plain, AllInTime;
    }
    ReachedNext(boot, past, s, Start(p));
    hide Reached, Plain, Invariant;
  }

  lemma SendReached(boot: Address, past: seq<Step>, s: System, p: Address, now: real)
    requires Plain(boot) && Reached(boot, past, s) && AllInTime(s, now) && p in s.nets && p != boot
    ensures Enabled(s, SendRegister(p)) && Reached(boot, past + [SendRegister(p)], Next(s, SendRegister(p)))
    ensures AllInTime(Next(s, SendRegister(p)), now) && RegisterMsg(p) in Next(s, SendRegister(p)).tokens
  {
    ReachedInvariant(boot, past, s);
    assert Enabled(s, SendRegister(p)) by {
      hide Reached, Plain, AllInTime;
    }
    ReachedNext(boot, past, s, SendRegister(p));
    hide Reached, Plain, Invariant, InTime;
  }

  /**
   Anyone can join at any time: from every reached state in which nobody has been silent too long, a new peer with
   a plain address can start and register, after which everyone knows it and it knows everyone.
  */
  lemma AnyoneJoins(boot: Address, past: seq<Step>, s: System, p: Address, now: real) returns (future: seq<Step>, end: System)
    requires Plain(boot) && Reached(boot, past, s) && AllInTime(s, now) && Plain(p) && p !in s.nets
    ensures Reached(boot, past + [Start(p), SendRegister(p)] + future, end) && boot in end.nets && p in end.nets
    ensures forall step :: step in future ==> Handles(step)
    ensures Knows(end.nets[boot], p)
    ensures forall q :: Knows(end.nets[boot], q) ==>
      q in end.nets && Knows(end.nets[q], p) && (Knows(end.nets[p], q) && forall r :: Knows(end.nets[q], r) <==> Knows(end.nets[boot], r))
  {
    StartReached(boot, past, s, p, now);
    var started := Next(s, Start(p));
    ReachedInvariant(boot, past, s);
    assert p != boot;
    SendReached(boot, past + [Start(p)], started, p, now);
    var sent := Next(started, SendRegister(p));
    hide Next, Enabled, Reached, Invariant, AllInTime, Plain, Handles;
    assert past + [Start(p)] + [SendRegister(p)] == past + [Start(p), SendRegister(p)];
    assert Joining(sent, p);
    future, end := BecomesAgreed(boot, past + [Start(p), SendRegister(p)], sent, now);
  }
}
