/**
 Peers joining one network through one bootstrap peer, as a transition system. A step is one locked
 region of a handler or one message sent or read; messages and handlers under way are tokens, and any
 token may be the next to move. No message is lost and no entry is silent long enough to expire.
*/
module Membership {
  import opened PeerNetwork
  import opened Utf8
  import opened Wire

  datatype Token =
    /** a registration on its way to the bootstrap peer */
    | RegisterMsg(peer: Address)
    /** a handler that has added peer and holds the reply */
    | Replying(peer: Address, list: seq<Address>)
    /** a handler that has replied and has not told the others yet */
    | Informing(peer: Address)
    /** a reply on its way to peer */
    | ReplyMsg(peer: Address, list: seq<Address>)
    /** an error reply on its way to peer */
    | RefusalMsg(peer: Address)
    /** on its way to peer: newcomer has joined */
    | InformMsg(peer: Address, newcomer: Address)

  /** nets holds the list of every peer that has been started. */
  datatype System = System(boot: Address, nets: map<Address, seq<Entry>>, tokens: multiset<Token>)

  datatype Step =
    | Start(peer: Address)
    | SendRegister(peer: Address)
    | HandleRegister(peer: Address, now: real)
    | SendReply(peer: Address, list: seq<Address>)
    | InformOthers(peer: Address)
    | ReadReply(peer: Address, list: seq<Address>, now: real)
    | ReadRefusal(peer: Address)
    | ReadInform(peer: Address, newcomer: Address, now: real)

  /** An address the code can split at its colon again and that fits the fields of a message. */
  ghost predicate Plain(a: Address) {
    a.ip != "" && ':' !in a.ip && Fitting(a.ip) && 0 < a.port < MAX_NUMBER
  }

  /** Plain addresses are those with a port that arrive in a message and can be split again. */
  lemma PlainExact(a: Address)
    ensures Plain(a) <==> a.ip != "" && ':' !in a.ip && 0 < a.port && a.port < MAX_NUMBER && DecodePeer(EncodePeer(a)) == Ok(a)
  {
    hide DecodePeer, EncodePeer, Fitting;
    FittingExact(a.ip);
    if a.port < MAX_NUMBER {
      PeerExact(a);
    }
  }

  const COMMAND_REGISTER := 1
  const COMMAND_INFORM := 3

  function Initial(boot: Address): System {
    System(boot, map[boot := [Entry(boot, OWN)]], multiset{})
  }

  /** A request is handled in time for every entry of the peer that reads it. */
  ghost predicate InTime(net: seq<Entry>, now: real) {
    now >= 0.0 && forall e :: e in net ==> !Stale(e, now)
  }

  /** In time means that no entry but the peer's own is more than sixty seconds old. */
  lemma InTimeExact(net: seq<Entry>, now: real)
    ensures InTime(net, now) <==> now >= 0.0 && forall e :: e in net ==> e.timestamp == -1.0 || now - e.timestamp <= 60.0
  {
  }

  ghost predicate Enabled(s: System, step: Step) {
    s.boot in s.nets &&
    match step
    case Start(p) => p !in s.nets && Plain(p)
    case SendRegister(p) => p in s.nets && p != s.boot
    case HandleRegister(p, now) => RegisterMsg(p) in s.tokens && InTime(s.nets[s.boot], now)
    case SendReply(p, list) => Replying(p, list) in s.tokens
    case InformOthers(p) => Informing(p) in s.tokens
    case ReadReply(p, list, now) => p in s.nets && ReplyMsg(p, list) in s.tokens && now >= 0.0
    case ReadRefusal(p) => RefusalMsg(p) in s.tokens
    case ReadInform(p, q, now) => p in s.nets && InformMsg(p, q) in s.tokens && InTime(s.nets[p], now)
  }

  function InFlight(notices: seq<Notice>): multiset<Token> {
    if notices == [] then multiset{}
    else multiset{InformMsg(notices[0].to, notices[0].names)} + InFlight(notices[1..])
  }

  /** The messages of the second region of _register, which name the newcomer as RegisterPeer left it. */
  function Informs(list: seq<Address>, boot: Address, newcomer: Address): multiset<Token> {
    InFlight(Notices(list, boot, newcomer, newcomer))
  }

  ghost function Next(s: System, step: Step): System
    requires Enabled(s, step)
  {
    match step
    case Start(p) => s.(nets := s.nets[p := [Entry(p, OWN)]])
    case SendRegister(p) => s.(tokens := s.tokens + multiset{RegisterMsg(p)})
    case HandleRegister(p, now) =>
      var net := Expired(s.nets[s.boot], p, now);
      var rest := s.tokens - multiset{RegisterMsg(p)};
      if Knows(net, p) then
        s.(nets := s.nets[s.boot := net], tokens := rest + multiset{RefusalMsg(p)})
      else
        var net' := Added(net, p, now);
        s.(nets := s.nets[s.boot := net'], tokens := rest + multiset{Replying(p, Addresses(net'))})
    case SendReply(p, list) =>
      s.(tokens := s.tokens - multiset{Replying(p, list)} + multiset{ReplyMsg(p, list), Informing(p)})
    case InformOthers(p) =>
      s.(tokens := s.tokens - multiset{Informing(p)} + Informs(Addresses(s.nets[s.boot]), s.boot, p))
    case ReadReply(p, list, now) =>
      s.(nets := s.nets[p := Merged(s.nets[p], list, now)], tokens := s.tokens - multiset{ReplyMsg(p, list)})
    case ReadRefusal(p) =>
      s.(tokens := s.tokens - multiset{RefusalMsg(p)})
    case ReadInform(p, q, now) =>
      var net := Expired(s.nets[p], s.boot, now);
      s.(nets := s.nets[p := Added(net, q, now)], tokens := s.tokens - multiset{InformMsg(p, q)})
  }

  // ----- the invariant

  /** The bootstrap peer, and everyone it has registered. */
  ghost predicate Registered(s: System, p: Address)
    requires s.boot in s.nets
  {
    Knows(s.nets[s.boot], p)
  }

  /** On its way, t will make p know q: as p's own reply, as the note about q, or as q's handler. */
  ghost predicate Brings(t: Token, p: Address, q: Address) {
    match t
    case Replying(x, list) => x == q || (x == p && q in list)
    case ReplyMsg(x, list) => x == p && q in list
    case Informing(x) => x == q
    case InformMsg(x, y) => x == p && y == q
    case RegisterMsg(_) => false
    case RefusalMsg(_) => false
  }

  ghost predicate Owed(s: System, p: Address, q: Address) {
    exists t :: t in s.tokens && Brings(t, p, q)
  }

  ghost predicate Joined(s: System, p: Address)
    requires s.boot in s.nets
  {
    p != s.boot && Registered(s, p)
  }

  /** Only registered peers are ever named. */
  ghost predicate Truthful(s: System, t: Token)
    requires s.boot in s.nets
  {
    match t
    case RegisterMsg(p) => p in s.nets && p != s.boot
    case Replying(p, list) => Joined(s, p) && forall q :: q in list ==> Registered(s, q)
    case Informing(p) => Joined(s, p)
    case ReplyMsg(p, list) => Joined(s, p) && forall q :: q in list ==> Registered(s, q)
    case RefusalMsg(p) => true
    case InformMsg(p, q) => Joined(s, p) && Registered(s, q)
  }

  ghost predicate PeersGood(s: System) {
    forall p :: p in s.nets ==> Plain(p) && Good(p, s.nets[p])
  }

  ghost predicate NamesRegistered(s: System)
    requires s.boot in s.nets
  {
    && (forall p :: Registered(s, p) ==> p in s.nets)
    && (forall p, q :: p in s.nets && Knows(s.nets[p], q) && q != p ==> Registered(s, q))
  }

  ghost predicate TokensTruthful(s: System)
    requires s.boot in s.nets
  {
    forall t :: t in s.tokens ==> Truthful(s, t)
  }

  /** Whoever has joined knows everyone registered, or will be told. */
  ghost predicate NobodyForgotten(s: System)
    requires s.boot in s.nets && forall p :: Registered(s, p) ==> p in s.nets
  {
    forall p, q :: Joined(s, p) && Registered(s, q) ==> Knows(s.nets[p], q) || Owed(s, p, q)
  }

  ghost predicate Invariant(s: System) {
    s.boot in s.nets && PeersGood(s) && NamesRegistered(s) && TokensTruthful(s) && NobodyForgotten(s)
  }

  lemma InitialInvariant(boot: Address)
    requires Plain(boot)
    ensures Invariant(Initial(boot))
  {
    var s := Initial(boot);
    assert s.nets[boot][0] == Entry(boot, OWN);
  }

  /** Every stored address can be split, also when the others are informed. */
  lemma NamesSplit(s: System)
    requires Invariant(s)
    ensures forall e :: e in s.nets[s.boot] ==> ':' !in e.address.ip
  {
    hide Good, NobodyForgotten;
    var net := s.nets[s.boot];
    forall e | e in net
      ensures ':' !in e.address.ip
    {
      var i :| 0 <= i < |net| && net[i] == e;
      assert Registered(s, net[i].address);
    }
  }

  /**
   The handler of a registration never fails: the address it is given and those it splits are all plain. So
   a registration ends in a reply or in a refusal, as Next says.
  */
  lemma HandlerNeverFails(s: System, p: Address, now: real)
    requires Invariant(s) && Enabled(s, HandleRegister(p, now))
    ensures p.ip != "" && p.port != 0
    ensures forall e :: e in Added(s.nets[s.boot], p, now) ==> ':' !in e.address.ip
  {
    NamesSplit(s);
    hide Good, NobodyForgotten;
    assert Truthful(s, RegisterMsg(p));
  }

  // ----- steps

  lemma {:induction false} InformsAll(list: seq<Address>, boot: Address, newcomer: Address)
    ensures forall p :: p in list && p != boot && p != newcomer ==> InformMsg(p, newcomer) in Informs(list, boot, newcomer)
    ensures forall t :: t in Informs(list, boot, newcomer) ==>
      t.InformMsg? && t.newcomer == newcomer && t.peer in list && t.peer != boot
  {
    if list != [] {
      InformsAll(list[1..], boot, newcomer);
      assert list == [list[0]] + list[1..];
      var rest := Notices(list[1..], boot, newcomer, newcomer);
      if list[0] == boot || list[0] == newcomer {
        assert Notices(list, boot, newcomer, newcomer) == rest;
      } else {
        assert Notices(list, boot, newcomer, newcomer)[1..] == rest;
      }
    }
  }

  lemma AddressesKnown(net: seq<Entry>)
    ensures forall p :: p in Addresses(net) <==> Knows(net, p)
  {
    forall p
      ensures p in Addresses(net) <==> Knows(net, p)
    {
      if Knows(net, p) {
        var i :| 0 <= i < |net| && net[i].address == p;
        assert Addresses(net)[i] == p;
      }
    }
  }

  /** A step that uses up one token, may add others and leaves the bootstrap peer's list alone. */
  lemma OthersMove(s: System, s': System, gone: Token)
    requires Invariant(s) && s'.boot == s.boot && s.nets.Keys <= s'.nets.Keys && s'.nets[s.boot] == s.nets[s.boot]
    requires PeersGood(s')
    requires forall p, q :: p in s.nets && Knows(s.nets[p], q) ==> Knows(s'.nets[p], q)
    requires forall p, q :: p in s'.nets && Knows(s'.nets[p], q) && q != p ==> Registered(s, q)
    requires forall t :: t in s'.tokens ==> t in s.tokens || Truthful(s', t)
    requires forall t :: t in s.tokens && t != gone ==> t in s'.tokens
    requires forall p, q :: Joined(s, p) && Registered(s, q) && Brings(gone, p, q) ==>
      Knows(s'.nets[p], q) || Owed(s', p, q)
    ensures Invariant(s')
  {
    hide PeersGood, Knows;
    assert forall q :: Registered(s', q) <==> Registered(s, q);
    forall t | t in s'.tokens
      ensures Truthful(s', t)
    {
      assert t in s.tokens ==> Truthful(s, t);
    }
    forall p, q | Joined(s', p) && Registered(s', q)
      ensures Knows(s'.nets[p], q) || Owed(s', p, q)
    {
      assert Joined(s, p) && Registered(s, q);
      if !Knows(s.nets[p], q) {
        var t :| t in s.tokens && Brings(t, p, q);
      }
    }
  }

  /** A step that changes no list. */
  lemma TokensMove(s: System, s': System, gone: Token)
    requires Invariant(s) && s' == s.(tokens := s'.tokens)
    requires forall t :: t in s'.tokens ==> t in s.tokens || Truthful(s, t)
    requires forall t :: t in s.tokens && t != gone ==> t in s'.tokens
    requires forall p, q :: Joined(s, p) && Registered(s, q) && Brings(gone, p, q) ==>
      Knows(s.nets[p], q) || Owed(s', p, q)
    ensures Invariant(s')
  {
    hide Good, Plain, Knows, Owed, Brings;
    forall t | t in s'.tokens && t !in s.tokens
      ensures Truthful(s', t)
    {
      assert Truthful(s, t);
    }
    OthersMove(s, s', gone);
  }

  /** A step by which p learns the registered peers in names, all that gone could bring. */
  lemma PeerLearns(s: System, s': System, p: Address, net: seq<Entry>, names: set<Address>, gone: Token)
    requires Invariant(s) && p in s.nets && p != s.boot
    requires s' == s.(nets := s.nets[p := net], tokens := s.tokens - multiset{gone})
    requires Good(p, net) && forall q :: Knows(net, q) <==> Knows(s.nets[p], q) || q in names
    requires forall q :: q in names ==> Registered(s, q)
    requires forall x, y :: Brings(gone, x, y) ==> x == p && y in names
    ensures Invariant(s')
  {
    hide Good, Plain, Knows, Owed, Brings;
    assert forall t :: t in s.tokens && t != gone ==> t in s'.tokens;
    forall t | t in s'.tokens
      ensures t in s.tokens
    {
    }
    OthersMove(s, s', gone);
  }

  lemma SendReplyKeeps(s: System, p: Address, list: seq<Address>)
    requires Invariant(s) && Enabled(s, SendReply(p, list))
    ensures Invariant(Next(s, SendReply(p, list)))
  {
    hide Good, Plain, Knows;
    var s' := Next(s, SendReply(p, list));
    assert Truthful(s, Replying(p, list));
    assert ReplyMsg(p, list) in s'.tokens && Informing(p) in s'.tokens;
    assert forall x, y :: Brings(Replying(p, list), x, y) ==> Brings(ReplyMsg(p, list), x, y) || Brings(Informing(p), x, y);
    TokensMove(s, s', Replying(p, list));
  }

  lemma InformsOwe(s: System, list: seq<Address>, p: Address, rest: multiset<Token>)
    requires s.tokens == rest + Informs(list, s.boot, p)
    ensures forall x :: x in list && x != s.boot && x != p ==> Owed(s, x, p)
  {
    InformsAll(list, s.boot, p);
    hide Informs;
    forall x | x in list && x != s.boot && x != p
      ensures Owed(s, x, p)
    {
      assert InformMsg(x, p) in s.tokens && Brings(InformMsg(x, p), x, p);
    }
  }

  lemma InformedKeeps(s: System, s': System, p: Address, informs: multiset<Token>)
    requires Invariant(s) && Joined(s, p)
    requires s' == s.(tokens := s.tokens - multiset{Informing(p)} + informs)
    requires forall t :: t in informs ==> t.InformMsg? && t.newcomer == p && Joined(s, t.peer)
    requires forall x :: Joined(s, x) && x != p ==> Owed(s', x, p)
    ensures Invariant(s')
  {
    OwnKnown(p, s.nets[p]);
    hide Good, Plain, Knows, Owed, NobodyForgotten, TokensTruthful;
    TokensMove(s, s', Informing(p));
  }

  lemma InformsReachJoined(s: System, p: Address)
    requires s.boot in s.nets
    ensures forall t :: t in Informs(Addresses(s.nets[s.boot]), s.boot, p) ==>
      t.InformMsg? && t.newcomer == p && Joined(s, t.peer)
  {
    AddressesKnown(s.nets[s.boot]);
    InformsAll(Addresses(s.nets[s.boot]), s.boot, p);
    hide Addresses, Informs, Knows;
  }

  lemma AllJoinedOwed(s: System, s': System, p: Address)
    requires s.boot in s.nets && s'.boot == s.boot
    requires s'.tokens == s.tokens - multiset{Informing(p)} + Informs(Addresses(s.nets[s.boot]), s.boot, p)
    ensures forall x :: Joined(s, x) && x != p ==> Owed(s', x, p)
  {
    AddressesKnown(s.nets[s.boot]);
    hide Addresses, Informs, Knows, Owed;
    InformsOwe(s', Addresses(s.nets[s.boot]), p, s.tokens - multiset{Informing(p)});
  }

  lemma InformOthersKeeps(s: System, p: Address)
    requires Invariant(s) && Enabled(s, InformOthers(p))
    ensures Invariant(Next(s, InformOthers(p)))
  {
    assert Truthful(s, Informing(p)) && Joined(s, p);
    hide Invariant, Joined, Addresses, Informs, Owed, Truthful;
    InformsReachJoined(s, p);
    var s' := Next(s, InformOthers(p));
    AllJoinedOwed(s, s', p);
    InformedKeeps(s, s', p, Informs(Addresses(s.nets[s.boot]), s.boot, p));
  }

  lemma OwnKnown(p: Address, net: seq<Entry>)
    requires Good(p, net)
    ensures Knows(net, p)
  {
    var i :| 0 <= i < |net| && net[i] == Entry(p, OWN);
  }

  lemma StartKeeps(s: System, p: Address)
    requires Invariant(s) && Enabled(s, Start(p))
    ensures Invariant(Next(s, Start(p)))
  {
    var s' := Next(s, Start(p));
    assert s'.nets[p][0] == Entry(p, OWN);
    assert Good(p, s'.nets[p]);
    hide Good, Plain;
    OthersMove(s, s', RefusalMsg(p));
  }

  lemma SendRegisterKeeps(s: System, p: Address)
    requires Invariant(s) && Enabled(s, SendRegister(p))
    ensures Invariant(Next(s, SendRegister(p)))
  {
    hide Good, Plain, Knows;
    TokensMove(s, Next(s, SendRegister(p)), RefusalMsg(p));
  }

  lemma ReadRefusalKeeps(s: System, p: Address)
    requires Invariant(s) && Enabled(s, ReadRefusal(p))
    ensures Invariant(Next(s, ReadRefusal(p)))
  {
    hide Good, Plain, Knows;
    TokensMove(s, Next(s, ReadRefusal(p)), RefusalMsg(p));
  }

  lemma ReadReplyKeeps(s: System, p: Address, list: seq<Address>, now: real)
    requires Invariant(s) && Enabled(s, ReadReply(p, list, now))
    ensures Invariant(Next(s, ReadReply(p, list, now)))
  {
    hide Good, Plain, Knows, Merged;
    assert Truthful(s, ReplyMsg(p, list));
    MergedGood(p, s.nets[p], list, now);
    var names := set q | q in list;
    PeerLearns(s, Next(s, ReadReply(p, list, now)), p, Merged(s.nets[p], list, now), names, ReplyMsg(p, list));
  }

  lemma ReadInformKeeps(s: System, p: Address, q: Address, now: real)
    requires Invariant(s) && Enabled(s, ReadInform(p, q, now))
    ensures Invariant(Next(s, ReadInform(p, q, now)))
  {
    NothingStale(s.nets[p], now);
    hide Good, Plain, Knows, Added, WithoutStale, Stale;
    assert Truthful(s, InformMsg(p, q));
    AddedGood(p, s.nets[p], q, now);
    PeerLearns(s, Next(s, ReadInform(p, q, now)), p, Added(s.nets[p], q, now), {q}, InformMsg(p, q));
  }

  lemma HandleRegisterKeeps(s: System, p: Address, now: real)
    requires Invariant(s) && Enabled(s, HandleRegister(p, now))
    ensures Invariant(Next(s, HandleRegister(p, now)))
  {
    var net := s.nets[s.boot];
    NothingStale(net, now);
    hide Good, Plain, Addresses, WithoutStale, Stale, Added, Knows;
    var s' := Next(s, HandleRegister(p, now));
    assert Truthful(s, RegisterMsg(p));
    if Knows(net, p) {
      assert s'.nets == s.nets;
      TokensMove(s, s', RegisterMsg(p));
    } else {
      Registers(s, s', p, now);
    }
  }

  /** The bootstrap peer adds p; the handler of p holds a list that names everyone. */
  lemma Registers(s: System, s': System, p: Address, now: real)
    requires Invariant(s) && p in s.nets && p != s.boot && now >= 0.0
    requires s' == s.(nets := s.nets[s.boot := Added(s.nets[s.boot], p, now)],
                      tokens := s.tokens - multiset{RegisterMsg(p)}
                                + multiset{Replying(p, Addresses(Added(s.nets[s.boot], p, now)))})
    ensures Invariant(s')
  {
    var list := Addresses(Added(s.nets[s.boot], p, now));
    AddedGood(s.boot, s.nets[s.boot], p, now);
    AddressesKnown(Added(s.nets[s.boot], p, now));
    hide Good, Plain, Addresses, Added, Knows, NobodyForgotten;
    assert forall q :: Registered(s', q) <==> Registered(s, q) || q == p;
    assert Joined(s', p) && forall q :: q in list <==> Registered(s', q);
    assert NamesRegistered(s');
    assert TokensTruthful(s') by {
      forall t | t in s'.tokens
        ensures Truthful(s', t)
      {
        assert t in s.tokens ==> Truthful(s, t);
      }
    }
    RegistersForgetsNobody(s, s', p, list);
  }

  lemma RegistersForgetsNobody(s: System, s': System, p: Address, list: seq<Address>)
    requires Invariant(s) && s'.boot == s.boot && s.boot in s'.nets && NamesRegistered(s')
    requires forall x :: x in s.nets && x != s.boot ==> x in s'.nets && s'.nets[x] == s.nets[x]
    requires forall q :: Registered(s', q) <==> Registered(s, q) || q == p
    requires forall q :: Registered(s', q) ==> q in list
    requires s'.tokens == s.tokens - multiset{RegisterMsg(p)} + multiset{Replying(p, list)}
    ensures NobodyForgotten(s')
  {
    hide PeersGood, TokensTruthful, Knows;
    assert Replying(p, list) in s'.tokens;
    forall x, y | Joined(s', x) && Registered(s', y)
      ensures Knows(s'.nets[x], y) || Owed(s', x, y)
    {
      if x == p || y == p {
        assert Brings(Replying(p, list), x, y);
      } else if !Knows(s.nets[x], y) {
        assert Joined(s, x) && Registered(s, y);
        var t :| t in s.tokens && Brings(t, x, y);
        assert t in s'.tokens;
      }
    }
  }

  /** The peer reads the very list its handler held: the bytes of the reply decode to it. */
  lemma RepliesReadable(s: System, p: Address, list: seq<Address>)
    requires Invariant(s) && (Replying(p, list) in s.tokens || ReplyMsg(p, list) in s.tokens)
    ensures Encodable(list) && DecodePeers(EncodePeers(list)) == (list, true)
  {
    hide Good, Knows, NobodyForgotten, DecodePeers, EncodePeers;
    var t := if Replying(p, list) in s.tokens then Replying(p, list) else ReplyMsg(p, list);
    assert Truthful(s, t);
    forall q | q in list
      ensures q.port < MAX_NUMBER && Arrives(q.ip) && IsAscii(q.ip)
    {
      assert Plain(q);
      FittingExact(q.ip);
    }
    PeersRoundTrip(list);
  }

  /** The message from a names it, has the given code and body, and is taken off the connection whole. */
  ghost predicate Readable(a: Address, code: nat, body: Bytes) {
    var m := AssembleMessage(a.ip, a.port, code, body);
    m.Ok? && ParseMessage(Taken(m.value, MSG_MAX)) == Ok(Request(a.ip, a.port, code, |body|, body))
  }

  lemma PlainReadable(a: Address, code: nat, body: Bytes)
    requires Plain(a) && code < MAX_NUMBER && |body| <= MSG_MAX - LEN_REQUEST_HEADER
    ensures Readable(a, code, body)
  {
    hide ParseMessage, Encode, Behind, Taken, Fitting;
    FittingExact(a.ip);
    MessageRoundTrip(a.ip, a.port, code, body);
    MessageArrives(a.ip, a.port, code, body);
  }

  /** The bootstrap peer reads the very address of the peer that registers. */
  lemma RegistrationsReadable(s: System, p: Address)
    requires Invariant(s) && RegisterMsg(p) in s.tokens
    ensures Readable(p, COMMAND_REGISTER, [])
  {
    hide Good, Knows, NobodyForgotten, Plain, Readable;
    assert Truthful(s, RegisterMsg(p));
    PlainReadable(p, COMMAND_REGISTER, []);
  }

  /** An informed peer reads who sent the note, and the very address of the newcomer in it. */
  lemma NotesReadable(s: System, p: Address, q: Address)
    requires Invariant(s) && InformMsg(p, q) in s.tokens
    ensures q.port < MAX_NUMBER && Readable(s.boot, COMMAND_INFORM, EncodePeer(q)) && DecodePeer(EncodePeer(q)) == Ok(q)
  {
    hide Good, Knows, NobodyForgotten, DecodePeer, EncodePeer, Readable, Fitting, Encode, Field;
    assert Truthful(s, InformMsg(p, q));
    assert Plain(q) && Plain(s.boot);
    FittingExact(q.ip);
    PeerExact(q);
    EncodedPeerLength(q);
    PlainReadable(s.boot, COMMAND_INFORM, EncodePeer(q));
  }

  lemma EncodedPeerLength(q: Address)
    requires q.port < MAX_NUMBER && IsAscii(q.ip)
    ensures |EncodePeer(q)| == LEN_IP + 4
  {
    FieldLength(q.ip);
  }

  // ----- runs

  lemma StepKeeps(s: System, step: Step)
    requires Invariant(s) && Enabled(s, step)
    ensures Invariant(Next(s, step))
  {
    hide Invariant, Next, Enabled;
    match step {
      case Start(p) => StartKeeps(s, p);
      case SendRegister(p) => SendRegisterKeeps(s, p);
      case HandleRegister(p, now) => HandleRegisterKeeps(s, p, now);
      case SendReply(p, list) => SendReplyKeeps(s, p, list);
      case InformOthers(p) => InformOthersKeeps(s, p);
      case ReadReply(p, list, now) => ReadReplyKeeps(s, p, list, now);
      case ReadRefusal(p) => ReadRefusalKeeps(s, p);
      case ReadInform(p, q, now) => ReadInformKeeps(s, p, q, now);
    }
  }

  lemma BootStays(s: System, step: Step)
    requires Enabled(s, step)
    ensures Next(s, step).boot == s.boot
  {
    hide Knows, Added, Merged, Expired, Informs, Addresses;
  }

  /** s is reached from the start by some steps, each enabled where it is taken. */
  ghost predicate Reached(boot: Address, steps: seq<Step>, s: System) {
    if steps == [] then s == Initial(boot)
    else
      var last := |steps| - 1;
      exists before :: Reached(boot, steps[..last], before) && Enabled(before, steps[last]) && s == Next(before, steps[last])
  }

  /** Nobody is being told anything; registrations may still be on their way. */
  ghost predicate Quiet(s: System) {
    forall t :: t in s.tokens ==> t.RegisterMsg? || t.RefusalMsg?
  }

  lemma {:induction false} ReachedInvariant(boot: Address, steps: seq<Step>, s: System)
    requires Plain(boot) && Reached(boot, steps, s)
    ensures Invariant(s) && s.boot == boot
  {
    hide Invariant, Plain, Next, Enabled;
    if steps == [] {
      InitialInvariant(boot);
    } else {
      var last := |steps| - 1;
      var before :| Reached(boot, steps[..last], before) && Enabled(before, steps[last]) && s == Next(before, steps[last]);
      ReachedInvariant(boot, steps[..last], before);
      StepKeeps(before, steps[last]);
      BootStays(before, steps[last]);
    }
  }

  lemma QuietKnows(s: System, p: Address)
    requires Invariant(s) && Quiet(s) && Registered(s, p)
    ensures p in s.nets && NoDuplicates(s.nets[p])
    ensures forall q :: Knows(s.nets[p], q) <==> Registered(s, q)
  {
    hide Knows, NoDuplicates;
    assert forall q :: !Owed(s, p, q);
    assert Good(p, s.nets[p]);
  }

  /** In every interleaving, once nobody is being told anything all registered peers know the same peers. */
  lemma QuietAgreement(boot: Address, steps: seq<Step>, s: System, p: Address)
    requires Plain(boot) && Reached(boot, steps, s)
    requires forall t :: t in s.tokens ==> t.RegisterMsg? || t.RefusalMsg?
    requires boot in s.nets && Knows(s.nets[boot], p)
    ensures p in s.nets && NoDuplicates(s.nets[p])
    ensures forall q :: Knows(s.nets[p], q) <==> Knows(s.nets[boot], q)
  {
    hide Reached, Knows, NoDuplicates, Invariant;
    ReachedInvariant(boot, steps, s);
    QuietKnows(s, p);
  }
}
