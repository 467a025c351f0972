/**
 The list of known peers of A4/handout/python/first_peer/peer.py. Every method below is one region under
 network_mutex, so it is one atomic step of the peer.
*/
module PeerNetwork {

  /** The string ip:port. */
  datatype Address = Address(ip: string, port: nat)

  datatype Entry = Entry(address: Address, timestamp: real)

  /** The timestamp of a peer's entry for itself. */
  const OWN: real := -1.0

  const LIMIT: real := 60.0

  function Addresses(net: seq<Entry>): seq<Address> {
    seq(|net|, i requires 0 <= i < |net| => net[i].address)
  }

  predicate Knows(net: seq<Entry>, a: Address) {
    exists i :: 0 <= i < |net| && net[i].address == a
  }

  ghost predicate NoDuplicates(net: seq<Entry>) {
    forall i, j :: 0 <= i < j < |net| ==> net[i].address != net[j].address
  }

  /** No address is listed twice, the peer's own entry is there, and no other entry looks like it. */
  ghost predicate Good(me: Address, net: seq<Entry>) {
    && NoDuplicates(net) && Entry(me, OWN) in net
    && forall e :: e in net && e.timestamp == OWN ==> e.address == me
  }

  // ----- expiry, at the start of every handled message

  predicate Stale(e: Entry, now: real) {
    e.timestamp != OWN && now - e.timestamp > LIMIT
  }

  /** An entry whose timestamp the code tries to update. */
  predicate Refreshes(e: Entry, sender: Address) {
    e.timestamp != OWN && e.address == sender
  }

  function WithoutStale(net: seq<Entry>, now: real): seq<Entry> {
    if net == [] then []
    else if Stale(net[0], now) then WithoutStale(net[1..], now)
    else [net[0]] + WithoutStale(net[1..], now)
  }

  predicate Hears(net: seq<Entry>, sender: Address) {
    exists i :: 0 <= i < |net| && Refreshes(net[i], sender)
  }

  /**
   What the code does. Entries are tuples, so updating a timestamp raises; the exception is swallowed and
   with it go all removals.
  */
  function Expired(net: seq<Entry>, sender: Address, now: real): seq<Entry> {
    if Hears(net, sender) then net else WithoutStale(net, now)
  }

  /** What the code would do if entries could be updated: note the sender, drop the silent. */
  function Intended(net: seq<Entry>, sender: Address, now: real): seq<Entry> {
    if net == [] then []
    else if Stale(net[0], now) then Intended(net[1..], sender, now)
    else [if Refreshes(net[0], sender) then Entry(net[0].address, now) else net[0]] + Intended(net[1..], sender, now)
  }

  lemma {:induction false} WithoutStaleElements(net: seq<Entry>, now: real)
    ensures forall e :: e in WithoutStale(net, now) <==> e in net && !Stale(e, now)
    ensures NoDuplicates(net) ==> NoDuplicates(WithoutStale(net, now))
    ensures |WithoutStale(net, now)| <= |net|
    ensures |WithoutStale(net, now)| == |net| ==> WithoutStale(net, now) == net
  {
    hide Stale;
    if net != [] {
      WithoutStaleElements(net[1..], now);
      assert net == [net[0]] + net[1..];
      var rest := WithoutStale(net[1..], now);
      if NoDuplicates(net) {
        forall j | 0 <= j < |rest|
          ensures rest[j].address != net[0].address
        {
          assert rest[j] in net[1..];
        }
      }
    }
  }

  lemma {:induction false} NothingStale(net: seq<Entry>, now: real)
    requires forall e :: e in net ==> !Stale(e, now)
    ensures WithoutStale(net, now) == net
  {
    if net != [] {
      assert forall e :: e in net[1..] ==> e in net;
      NothingStale(net[1..], now);
    }
  }

  /** Expiry never brings an entry up to date: what is left is left as it was. */
  lemma ExpiredKeepsTimestamps(net: seq<Entry>, sender: Address, now: real)
    ensures forall e :: e in Expired(net, sender, now) ==> e in net
  {
    WithoutStaleElements(net, now);
  }

  /**
   The code does what is intended exactly when the sender is unknown, or the intended update and removals
   would change nothing.
  */
  lemma ExpiryExact(net: seq<Entry>, sender: Address, now: real)
    ensures Expired(net, sender, now) == Intended(net, sender, now) <==>
      !Hears(net, sender) || forall e :: e in net ==> !Stale(e, now) && (Refreshes(e, sender) ==> e.timestamp == now)
  {
    if Hears(net, sender) {
      IntendedIsIdentity(net, sender, now);
    } else {
      IntendedWithoutSender(net, sender, now);
    }
  }

  lemma {:induction false} IntendedWithoutSender(net: seq<Entry>, sender: Address, now: real)
    requires !Hears(net, sender)
    ensures Intended(net, sender, now) == WithoutStale(net, now)
  {
    if net != [] {
      assert !Refreshes(net[0], sender);
      assert forall i :: 0 <= i < |net[1..]| ==> net[1..][i] == net[i + 1];
      IntendedWithoutSender(net[1..], sender, now);
    }
  }

  lemma {:induction false} IntendedIsIdentity(net: seq<Entry>, sender: Address, now: real)
    ensures |Intended(net, sender, now)| <= |net|
    ensures Intended(net, sender, now) == net <==>
      forall e :: e in net ==> !Stale(e, now) && (Refreshes(e, sender) ==> e.timestamp == now)
  {
    if net != [] {
      IntendedIsIdentity(net[1..], sender, now);
      assert net == [net[0]] + net[1..];
      var rest := Intended(net[1..], sender, now);
      if Stale(net[0], now) {
        assert net[0] in net && |Intended(net, sender, now)| < |net|;
      } else {
        var first := if Refreshes(net[0], sender) then Entry(net[0].address, now) else net[0];
        assert Intended(net, sender, now) == [first] + rest;
        assert [first] + rest == net <==> first == net[0] && rest == net[1..] by {
          assert ([first] + rest)[0] == first && ([first] + rest)[1..] == rest;
        }
        assert forall e :: e in net <==> e == net[0] || e in net[1..];
      }
    }
  }

  /** A peer that spoke ten seconds ago is dropped when another speaks: it was first heard of a minute before. */
  lemma RecentPeerDropped()
    ensures var a, b, c := Address("10.0.0.1", 1), Address("10.0.0.2", 2), Address("10.0.0.3", 3);
            var net := [Entry(b, OWN), Entry(a, 0.0)];
            var later := Expired(net, a, 51.0);
            later == net && Expired(later, c, 61.0) == [Entry(b, OWN)]
  {
    var a, b, c := Address("10.0.0.1", 1), Address("10.0.0.2", 2), Address("10.0.0.3", 3);
    var net := [Entry(b, OWN), Entry(a, 0.0)];
    assert Refreshes(net[1], a);
    assert !Refreshes(net[0], c) && !Refreshes(net[1], c);
    assert net[1..] == [Entry(a, 0.0)] && net[1..][1..] == [];
    assert Stale(net[1], 61.0) && WithoutStale(net[1..], 61.0) == [];
    assert WithoutStale(net, 61.0) == [net[0]] + WithoutStale(net[1..], 61.0);
  }

  // ----- the other regions

  /** Appending an address unless it is known. */
  function Added(net: seq<Entry>, a: Address, now: real): seq<Entry> {
    if Knows(net, a) then net else net + [Entry(a, now)]
  }

  /** Merging the list a bootstrap peer sent. */
  function Merged(net: seq<Entry>, list: seq<Address>, now: real): seq<Entry>
    decreases |list|
  {
    if list == [] then net else Merged(Added(net, list[0], now), list[1..], now)
  }

  datatype Event =
    | Message(sender: Address, now: real)
    | Register(address: Address, now: real)
    | Inform(address: Address, now: real)
    | Reply(list: seq<Address>, now: real)

  function Apply(net: seq<Entry>, e: Event): seq<Entry> {
    match e
    case Message(sender, now) => Expired(net, sender, now)
    case Register(a, now) => Added(net, a, now)
    case Inform(a, now) => Added(net, a, now)
    case Reply(list, now) => Merged(net, list, now)
  }

  function Run(net: seq<Entry>, events: seq<Event>): seq<Entry>
    decreases |events|
  {
    if events == [] then net else Run(Apply(net, events[0]), events[1..])
  }

  lemma AddedGood(me: Address, net: seq<Entry>, a: Address, now: real)
    requires Good(me, net) && now >= 0.0
    ensures Good(me, Added(net, a, now))
    ensures Knows(Added(net, a, now), a)
    ensures forall b :: Knows(Added(net, a, now), b) <==> Knows(net, b) || b == a
  {
    var net' := Added(net, a, now);
    assert forall i :: 0 <= i < |net| ==> net'[i] == net[i];
    if !Knows(net, a) {
      assert net'[|net|].address == a;
    }
  }

  lemma {:induction false} MergedGood(me: Address, net: seq<Entry>, list: seq<Address>, now: real)
    requires Good(me, net) && now >= 0.0
    ensures Good(me, Merged(net, list, now))
    ensures forall b :: Knows(Merged(net, list, now), b) <==> Knows(net, b) || b in list
    decreases |list|
  {
    hide Good, Knows, Added;
    if list != [] {
      AddedGood(me, net, list[0], now);
      MergedGood(me, Added(net, list[0], now), list[1..], now);
      assert list == [list[0]] + list[1..];
    }
  }

  lemma ExpiredGood(me: Address, net: seq<Entry>, sender: Address, now: real)
    requires Good(me, net)
    ensures Good(me, Expired(net, sender, now))
  {
    WithoutStaleElements(net, now);
    assert !Stale(Entry(me, OWN), now);
  }

  /** Under any interleaving of the regions no address is listed twice and the own entry stays. */
  lemma {:induction false} RunGood(me: Address, net: seq<Entry>, events: seq<Event>)
    requires Good(me, net) && forall e :: e in events ==> e.now >= 0.0
    ensures Good(me, Run(net, events))
    decreases |events|
  {
    if events != [] {
      var e := events[0];
      match e {
        case Message(sender, now) => ExpiredGood(me, net, sender, now);
        case Register(a, now) => AddedGood(me, net, a, now);
        case Inform(a, now) => AddedGood(me, net, a, now);
        case Reply(list, now) => MergedGood(me, net, list, now);
      }
      assert forall e' :: e' in events[1..] ==> e' in events;
      RunGood(me, Apply(net, e), events[1..]);
    }
  }

  // ----- how long an entry lasts

  /**
   An entry is still there after a message exactly if the sender is another known peer, or the entry is the
   peer's own, or it is at most sixty seconds old.
  */
  lemma ExpiredExact(net: seq<Entry>, sender: Address, now: real, e: Entry)
    ensures e in Expired(net, sender, now) <==>
      e in net && ((exists i :: 0 <= i < |net| && net[i].address == sender && net[i].timestamp != -1.0)
                   || e.timestamp == -1.0 || now - e.timestamp <= 60.0)
  {
    WithoutStaleElements(net, now);
    if Hears(net, sender) {
      var i :| 0 <= i < |net| && Refreshes(net[i], sender);
      assert net[i].address == sender;
    }
    if i :| 0 <= i < |net| && net[i].address == sender && net[i].timestamp != -1.0 {
      assert Refreshes(net[i], sender);
    }
  }

  lemma AddedEntries(net: seq<Entry>, a: Address, now: real)
    ensures forall e :: e in net ==> e in Added(net, a, now)
    ensures !Knows(net, a) ==> Added(net, a, now) == net + [Entry(a, now)]
    ensures Knows(net, a) ==> Added(net, a, now) == net
  {
  }

  lemma {:induction false} MergedEntries(net: seq<Entry>, list: seq<Address>, now: real)
    ensures forall e :: e in net ==> e in Merged(net, list, now)
    decreases |list|
  {
    if list != [] {
      AddedEntries(net, list[0], now);
      hide Added;
      MergedEntries(Added(net, list[0], now), list[1..], now);
    }
  }

  /** An entry lasts through any run in which every message comes within sixty seconds of its timestamp. */
  lemma {:induction false} RecentLasts(net: seq<Entry>, events: seq<Event>, e: Entry)
    requires e in net && forall v :: v in events && v.Message? ==> v.now - e.timestamp <= 60.0
    ensures e in Run(net, events)
    decreases |events|
  {
    if events != [] {
      var v := events[0];
      assert v in events && forall w :: w in events[1..] ==> w in events;
      match v {
        case Message(sender, now) => ExpiredExact(net, sender, now, e);
        case Register(a, now) => AddedEntries(net, a, now);
        case Inform(a, now) => AddedEntries(net, a, now);
        case Reply(list, now) => MergedEntries(net, list, now);
      }
      hide Apply;
      RecentLasts(Apply(net, v), events[1..], e);
    }
  }

  lemma OnlyEntry(net: seq<Entry>, e: Entry, a: Address)
    requires NoDuplicates(net) && e in net && e.address == a
    ensures forall f :: f in net && f.address == a ==> f == e
  {
  }

  /**
   A peer that becomes known at time t stays known as long as every message comes by t + 60, whatever else happens,
   and is dropped with the first later message from someone who is not on the list.
  */
  lemma KnownForAMinute(me: Address, net: seq<Entry>, a: Address, t: real, events: seq<Event>, sender: Address, now: real)
    requires Good(me, net) && !Knows(net, a) && t >= 0.0
    requires forall v :: v in events ==> v.now >= 0.0 && (v.Message? ==> v.now <= t + 60.0)
    ensures var later := Run(Added(net, a, t), events);
            && Entry(a, t) in later && Knows(later, a)
            && (now > t + 60.0 && !Knows(later, sender) ==> !Knows(Expired(later, sender, now), a))
  {
    AddedEntries(net, a, t);
    AddedGood(me, net, a, t);
    assert (net + [Entry(a, t)])[|net|] == Entry(a, t);
    RecentLasts(Added(net, a, t), events, Entry(a, t));
    RunGood(me, Added(net, a, t), events);
    var later := Run(Added(net, a, t), events);
    hide Run, Added, Expired;
    if now > t + 60.0 && !Knows(later, sender) && Knows(Expired(later, sender, now), a) {
      var i :| 0 <= i < |Expired(later, sender, now)| && Expired(later, sender, now)[i].address == a;
      var e := Expired(later, sender, now)[i];
      ExpiredExact(later, sender, now, e);
      OnlyEntry(later, Entry(a, t), a);
      assert false;
    }
  }

  // ----- the code

  function StaleOnes(net: seq<Entry>, now: real): seq<Entry> {
    if net == [] then []
    else StaleOnes(net[..|net| - 1], now) + (if Stale(net[|net| - 1], now) then [net[|net| - 1]] else [])
  }

  /** list.remove: the first equal element. */
  function RemoveFirst(net: seq<Entry>, e: Entry): seq<Entry> {
    if net == [] then [] else if net[0] == e then net[1..] else [net[0]] + RemoveFirst(net[1..], e)
  }

  function RemoveEach(net: seq<Entry>, es: seq<Entry>): seq<Entry>
    decreases |es|
  {
    if es == [] then net else RemoveEach(RemoveFirst(net, es[0]), es[1..])
  }

  lemma {:induction false} RemoveEachSkips(x: Entry, net: seq<Entry>, es: seq<Entry>)
    requires x !in es
    ensures RemoveEach([x] + net, es) == [x] + RemoveEach(net, es)
    decreases |es|
  {
    if es != [] {
      assert ([x] + net)[1..] == net;
      RemoveEachSkips(x, RemoveFirst(net, es[0]), es[1..]);
    }
  }

  lemma {:induction false} StaleOnesFront(x: Entry, net: seq<Entry>, now: real)
    ensures StaleOnes([x] + net, now) == (if Stale(x, now) then [x] else []) + StaleOnes(net, now)
  {
    if net == [] {
      assert ([x] + net)[..0] == [];
    } else {
      StaleOnesFront(x, net[..|net| - 1], now);
      assert ([x] + net)[..|net|] == [x] + net[..|net| - 1];
    }
  }

  lemma {:induction false} StaleOnesAreStale(net: seq<Entry>, now: real)
    ensures forall e :: e in StaleOnes(net, now) ==> Stale(e, now)
  {
    if net != [] {
      StaleOnesAreStale(net[..|net| - 1], now);
    }
  }

  /** Removing the stale entries one by one, first occurrence first, leaves exactly the others. */
  lemma {:induction false} RemovalsAreFilter(net: seq<Entry>, now: real)
    ensures RemoveEach(net, StaleOnes(net, now)) == WithoutStale(net, now)
  {
    if net != [] {
      var rest := net[1..];
      assert net == [net[0]] + rest;
      StaleOnesFront(net[0], rest, now);
      RemovalsAreFilter(rest, now);
      if Stale(net[0], now) {
        assert StaleOnes(net, now)[1..] == StaleOnes(rest, now);
      } else {
        StaleOnesAreStale(rest, now);
        assert StaleOnes(net, now) == StaleOnes(rest, now);
        RemoveEachSkips(net[0], rest, StaleOnes(rest, now));
      }
    }
  }

  /** A message to one peer that names a newcomer. */
  datatype Notice = Notice(to: Address, names: Address)

  /** One notice to everyone on the list but the sender and the newcomer. */
  function Notices(list: seq<Address>, me: Address, newcomer: Address, named: Address): seq<Notice> {
    if list == [] then []
    else
      (if list[0] == me || list[0] == newcomer then [] else [Notice(list[0], named)])
      + Notices(list[1..], me, newcomer, named)
  }

  lemma {:induction false} NoticesJoined(list: seq<Address>, a: Address, me: Address, newcomer: Address, named: Address)
    ensures Notices(list + [a], me, newcomer, named)
            == Notices(list, me, newcomer, named) + if a == me || a == newcomer then [] else [Notice(a, named)]
  {
    if list == [] {
      assert [a][1..] == [];
    } else {
      assert (list + [a])[1..] == list[1..] + [a];
      NoticesJoined(list[1..], a, me, newcomer, named);
    }
  }

  /** A stored address that split cannot take apart, and that has to be informed. */
  predicate Unsplittable(e: Entry, me: Address, newcomer: Address) {
    e.address != me && e.address != newcomer && ':' in e.address.ip
  }

  datatype Status = Accepted | PeerExists | BadRequest | Other

  class Peer {
    const me: Address
    var network: seq<Entry>

    ghost predicate Valid()
      reads this
    {
      Good(me, network)
    }

    constructor (ip: string, port: nat)
      ensures Valid() && me == Address(ip, port) && network == [Entry(me, OWN)]
    {
      me := Address(ip, port);
      network := [Entry(Address(ip, port), OWN)];
    }

    /** The region at the start of handle. */
    method UpdateTimestamps(sender: Address, now: real)
      requires Valid()
      modifies this
      ensures Valid() && network == Expired(old(network), sender, now)
    {
      var toRemove: seq<Entry> := [];
      var raised := false;
      var i := 0;
      while i < |network| && !raised
        invariant 0 <= i <= |network| && network == old(network)
        invariant raised <==> exists j :: 0 <= j < i && Refreshes(network[j], sender)
        invariant !raised ==> toRemove == StaleOnes(network[..i], now)
      {
        var entry := network[i];
        assert network[..i + 1][..i] == network[..i];
        if entry.timestamp != OWN {
          if entry.address == sender {
            // a tuple cannot be assigned to
            raised := true;
          } else if now - entry.timestamp > LIMIT {
            toRemove := toRemove + [entry];
          }
        }
        i := i + 1;
      }
      if !raised {
        assert network[..|network|] == network;
        RemovalsAreFilter(network, now);
        for k := 0 to |toRemove|
          invariant RemoveEach(network, toRemove[k..]) == WithoutStale(old(network), now)
        {
          assert toRemove[k..][0] == toRemove[k] && toRemove[k..][1..] == toRemove[k + 1..];
          network := RemoveFirst(network, toRemove[k]);
        }
        assert toRemove[|toRemove|..] == [];
      }
      ExpiredGood(me, old(network), sender, now);
    }

    /**
     The first region of _register. The loop over the list reuses the names ip and port, so afterwards
     they name the last entry; the second region sends them as the new peer.
    */
    method RegisterPeer(ip: string, port: nat, now: real)
      returns (status: Status, payload: seq<Address>, named: Address)
      requires Valid() && now >= 0.0
      modifies this
      ensures Valid()
      ensures status == if ip == "" || port == 0 then BadRequest
                        else if Knows(old(network), Address(ip, port)) then PeerExists
                        else if exists e :: e in network && ':' in e.address.ip then Other else Accepted
      ensures network == if status == BadRequest then old(network) else Added(old(network), Address(ip, port), now)
      ensures status == Accepted ==> payload == Addresses(network) && named == Address(ip, port)
    {
      payload, named := [], Address(ip, port);
      if ip == "" || port == 0 {
        return BadRequest, payload, named;
      }
      var newAddress := Address(ip, port);
      AddedGood(me, network, newAddress, now);
      if Knows(network, newAddress) {
        return PeerExists, payload, named;
      }
      network := network + [Entry(newAddress, now)];
      var k := 0;
      while k < |network|
        invariant 0 <= k <= |network| && payload == Addresses(network[..k])
        invariant k > 0 ==> named == network[k - 1].address
        invariant forall j :: 0 <= j < k ==> ':' !in network[j].address.ip
      {
        var peer := network[k].address;
        if ':' in peer.ip {
          // split finds more than two parts
          assert network[k] in network;
          return Other, payload, named;
        }
        named := peer;
        payload := payload + [peer];
        k := k + 1;
      }
      assert network[..|network|] == network;
      return Accepted, payload, named;
    }

    /** The second region of _register; named is what the first region left in ip and port. */
    method InformOthers(newcomer: Address, named: Address) returns (sent: seq<Notice>, raised: bool)
      requires Valid()
      ensures raised <==> exists e :: e in network && e.address != me && e.address != newcomer && ':' in e.address.ip
      ensures !raised ==> sent == Notices(Addresses(network), me, newcomer, named)
      ensures raised ==> exists k :: 0 <= k < |network| && Unsplittable(network[k], me, newcomer)
                           && sent == Notices(Addresses(network[..k]), me, newcomer, named)
    {
      sent := [];
      var k := 0;
      while k < |network|
        invariant 0 <= k <= |network| && sent == Notices(Addresses(network[..k]), me, newcomer, named)
        invariant forall j :: 0 <= j < k ==> !Unsplittable(network[j], me, newcomer)
      {
        var peer := network[k].address;
        NoticesJoined(Addresses(network[..k]), peer, me, newcomer, named);
        assert Addresses(network[..k + 1]) == Addresses(network[..k]) + [peer];
        if peer != me && peer != newcomer {
          if ':' in peer.ip {
            assert network[k] in network && Unsplittable(network[k], me, newcomer);
            return sent, true;
          }
          sent := sent + [Notice(peer, named)];
        }
        k := k + 1;
      }
      assert network[..|network|] == network;
      raised := false;
    }

    /** _add_to_network. */
    method AddToNetwork(a: Address, now: real)
      requires Valid() && now >= 0.0
      modifies this
      ensures Valid() && network == Added(old(network), a, now)
    {
      AddedGood(me, network, a, now);
      if Knows(network, a) {
        return;
      }
      network := network + [Entry(a, now)];
    }

    /** The region of to_server that reads a reply to a registration. */
    method MergeReply(list: seq<Address>, now: real)
      requires Valid() && now >= 0.0
      modifies this
      ensures Valid() && network == Merged(old(network), list, now)
    {
      for i := 0 to |list|
        invariant Valid() && Merged(network, list[i..], now) == Merged(old(network), list, now)
      {
        assert list[i..][0] == list[i] && list[i..][1..] == list[i + 1..];
        AddedGood(me, network, list[i], now);
        if !Knows(network, list[i]) {
          network := network + [Entry(list[i], now)];
        }
      }
      assert list[|list|..] == [];
    }
  }
}
