/**
 What the receiver of A4/handout/python/first_peer/peer.py makes of any sequence of replies, intact or not,
 and what its result says about the replies it has read.
*/
module BlockOutcomes {
  import opened Utf8
  import opened Wire
  import opened BlockTransfer

  /** A reply whose numbers and hashes fit their fields. */
  predicate Sendable(r: Reply) {
    && |r.payload| < MAX_NUMBER && r.status < MAX_NUMBER && r.id < MAX_NUMBER && r.count < MAX_NUMBER
    && |r.blockHash| == LEN_HASH && |r.totalHash| == LEN_HASH
  }

  /** The bytes of a reply, whatever its block hash is. */
  function Wired(r: Reply): Bytes
    requires Sendable(r)
  {
    Pack(|r.payload|) + Body(r.status, r.id, r.count, r.blockHash, r.totalHash, r.payload)
  }

  ghost predicate AllSendable(rs: seq<Reply>) {
    forall r :: r in rs ==> Sendable(r)
  }

  /** Replies one after the other, and what comes behind them. */
  function Wires(rs: seq<Reply>, tail: Bytes): Bytes
    requires AllSendable(rs)
  {
    if rs == [] then tail
    else
      assert rs[0] in rs && forall r :: r in rs[1..] ==> r in rs;
      Wired(rs[0]) + Wires(rs[1..], tail)
  }

  /** The payload is the one that its checksum was made of, and the sender has no error to report. */
  predicate Intact(r: Reply, hash: Hash) {
    r.status == STATUS_OK && hash(r.payload) == r.blockHash
  }

  ghost predicate AllIntact(rs: seq<Reply>, count: nat, hash: Hash) {
    forall r :: r in rs ==> Intact(r, hash) && r.id < count
  }

  /** Some reply carries block i. */
  ghost predicate Mentions(rs: seq<Reply>, i: nat) {
    exists r :: r in rs && r.id == i
  }

  /** The payload block i had when it came last. */
  ghost function Latest(rs: seq<Reply>, i: nat): Bytes
    requires Mentions(rs, i)
  {
    if Mentions(rs[1..], i) then Latest(rs[1..], i) else rs[0].payload
  }

  /** The latest payloads of blocks from up to count, joined in the order of their numbers. */
  ghost function Assembled(rs: seq<Reply>, from: nat, count: nat): Bytes
    requires from <= count && forall i :: from <= i < count ==> Mentions(rs, i)
    decreases count - from
  {
    if from == count then [] else Latest(rs, from) + Assembled(rs, from + 1, count)
  }

  // ----- one reply

  lemma WiredRead(r: Reply, tail: Bytes)
    requires Sendable(r)
    ensures var m := Wired(r) + tail;
            && Unpack(Taken(m, 4)) == Ok(|r.payload|)
            && ParseReply(Taken(Left(m, 4), |r.payload| + LEN_REPLY_HEADER), |r.payload|) == Ok(r)
            && Left(Left(m, 4), |r.payload| + LEN_REPLY_HEADER) == tail
  {
    var body := Body(r.status, r.id, r.count, r.blockHash, r.totalHash, r.payload);
    hide Pack, Unpack, Body, ParseReply, Taken, Left;
    UnpackPack(|r.payload|);
    BodyParsed(r.status, r.id, r.count, r.blockHash, r.totalHash, r.payload);
    TwoTaken(Pack(|r.payload|), body, tail);
  }

  /** What the receiver makes of one reply, intact or not. */
  lemma ReplyHandled(r: Reply, tail: Bytes, slots: Slots, hash: Hash)
    requires Sendable(r)
    ensures Receive(Wired(r) + tail, slots, hash)
            == if Accept(slots, r, hash).Stop? then (Accept(slots, r, hash).outcome, tail)
               else Receive(tail, Slots(Accept(slots, r, hash).all), hash)
  {
    WiredRead(r, tail);
    hide Wired, Accept, ParseReply, Receive, Unpack, Taken, Left;
    ReplyRead(Wired(r) + tail, slots, hash);
  }

  // ----- several replies

  /** The slots after intact replies. */
  function Filling(all: seq<Slot>, rs: seq<Reply>): (filled: seq<Slot>)
    requires forall r :: r in rs ==> r.id < |all|
    ensures |filled| == |all|
    decreases |rs|
  {
    if rs == [] then all
    else
      assert rs[0] in rs && forall r :: r in rs[1..] ==> r in rs;
      Filling(all[rs[0].id := Filled(rs[0].payload)], rs[1..])
  }

  lemma MentionsFirst(rs: seq<Reply>, i: nat)
    requires rs != []
    ensures Mentions(rs, i) <==> rs[0].id == i || Mentions(rs[1..], i)
  {
    assert rs == [rs[0]] + rs[1..];
    if rs[0].id == i {
      assert rs[0] in rs;
    }
    if Mentions(rs[1..], i) {
      var r :| r in rs[1..] && r.id == i;
      assert r in rs;
    }
  }

  /** A slot holds the latest payload of its block. */
  lemma {:induction false} FillingAt(all: seq<Slot>, rs: seq<Reply>, i: nat)
    requires (forall r :: r in rs ==> r.id < |all|) && i < |all|
    ensures Filling(all, rs)[i] == if Mentions(rs, i) then Filled(Latest(rs, i)) else all[i]
    decreases |rs|
  {
    hide Mentions;
    if rs == [] {
      NoneMentioned(i);
    } else {
      assert rs[0] in rs && forall r :: r in rs[1..] ==> r in rs;
      MentionsFirst(rs, i);
      FillingAt(all[rs[0].id := Filled(rs[0].payload)], rs[1..], i);
    }
  }

  lemma NoneMentioned(i: nat)
    ensures !Mentions([], i)
  {
  }

  lemma IntactAccepted(r: Reply, slots: Slots, count: nat, hash: Hash)
    requires Intact(r, hash) && r.id < count && (if slots.NotYet? then r.count == count else |slots.all| == count)
    ensures var all := if slots.NotYet? then NoSlots(count) else slots.all;
            var all' := all[r.id := Filled(r.payload)];
            Accept(slots, r, hash) == if Full(all') then Stop(Returned(STATUS_OK, JoinedSlots(all'))) else Continue(all')
  {
    hide Full, JoinedSlots;
  }

  /** The receiver goes on as long as some block has not come. */
  lemma {:induction false} Unfinished(rs: seq<Reply>, tail: Bytes, all: seq<Slot>, missing: nat, hash: Hash)
    requires AllSendable(rs) && AllIntact(rs, |all|, hash)
    requires missing < |all| && all[missing] == Empty && !Mentions(rs, missing)
    ensures Receive(Wires(rs, tail), Slots(all), hash) == Receive(tail, Slots(Filling(all, rs)), hash)
    decreases |rs|
  {
    hide Receive, Accept, Wired, Mentions, Intact, Sendable, JoinedSlots;
    if rs != [] {
      assert rs[0] in rs && forall r :: r in rs[1..] ==> r in rs;
      MentionsFirst(rs, missing);
      ReplyHandled(rs[0], Wires(rs[1..], tail), Slots(all), hash);
      IntactAccepted(rs[0], Slots(all), |all|, hash);
      var all' := all[rs[0].id := Filled(rs[0].payload)];
      assert all'[missing] == Empty;
      Unfinished(rs[1..], tail, all', missing, hash);
    }
  }

  /** The count that the first reply announces is the number of slots. */
  function Announced(rs: seq<Reply>, next: Reply): nat {
    if rs == [] then next.count else rs[0].count
  }

  /** Replies that are intact and of which some block is missing. */
  ghost predicate Partial(rs: seq<Reply>, count: nat, missing: nat, hash: Hash) {
    AllSendable(rs) && AllIntact(rs, count, hash) && missing < count && !Mentions(rs, missing)
  }

  /** The slots before the next reply; there are none before the first. */
  function SlotsAfter(rs: seq<Reply>, count: nat): Slots
    requires forall r :: r in rs ==> r.id < count
  {
    if rs == [] then NotYet else Slots(Filling(NoSlots(count), rs))
  }

  lemma AfterPartial(rs: seq<Reply>, next: Reply, tail: Bytes, missing: nat, hash: Hash)
    requires Partial(rs, Announced(rs, next), missing, hash)
    ensures Receive(Wires(rs, tail), NotYet, hash) == Receive(tail, SlotsAfter(rs, Announced(rs, next)), hash)
  {
    hide Receive, Accept, Wired, Mentions, Intact, Sendable, JoinedSlots;
    if rs != [] {
      var count := rs[0].count;
      assert rs[0] in rs && forall r :: r in rs[1..] ==> r in rs;
      MentionsFirst(rs, missing);
      ReplyHandled(rs[0], Wires(rs[1..], tail), NotYet, hash);
      IntactAccepted(rs[0], NotYet, count, hash);
      var all := NoSlots(count)[rs[0].id := Filled(rs[0].payload)];
      assert all[missing] == Empty;
      Unfinished(rs[1..], tail, all, missing, hash);
    }
  }

  // ----- how a transfer ends

  /** A reply whose payload does not match its checksum ends the transfer, and what follows is not read. */
  lemma ChecksumReported(rs: seq<Reply>, bad: Reply, tail: Bytes, missing: nat, hash: Hash)
    requires Partial(rs, Announced(rs, bad), missing, hash) && Sendable(bad)
    requires bad.status == STATUS_OK && bad.id < Announced(rs, bad) && hash(bad.payload) != bad.blockHash
    ensures Receive(Wires(rs, Wired(bad) + tail), NotYet, hash) == (Reported(BadChecksum(bad.id, bad.count)), tail)
  {
    AfterPartial(rs, bad, Wired(bad) + tail, missing, hash);
    hide Receive, Wired, Partial, Filling, Full, JoinedSlots;
    ReplyHandled(bad, tail, SlotsAfter(rs, Announced(rs, bad)), hash);
  }

  /** So does a reply with an error status. */
  lemma StatusReported(rs: seq<Reply>, bad: Reply, tail: Bytes, missing: nat, hash: Hash)
    requires Partial(rs, Announced(rs, bad), missing, hash) && Sendable(bad)
    requires bad.status != STATUS_OK && bad.id < Announced(rs, bad)
    ensures Receive(Wires(rs, Wired(bad) + tail), NotYet, hash) == (Reported(BadStatus(bad.status)), tail)
  {
    AfterPartial(rs, bad, Wired(bad) + tail, missing, hash);
    hide Receive, Wired, Partial, Filling, Full, JoinedSlots;
    ReplyHandled(bad, tail, SlotsAfter(rs, Announced(rs, bad)), hash);
  }

  /** A block number that was not announced raises. */
  lemma UnknownBlockRaises(rs: seq<Reply>, bad: Reply, tail: Bytes, missing: nat, hash: Hash)
    requires rs != [] ==> Partial(rs, rs[0].count, missing, hash)
    requires Sendable(bad) && bad.id >= Announced(rs, bad)
    ensures AllSendable(rs) && Receive(Wires(rs, Wired(bad) + tail), NotYet, hash) == (Raised, tail)
  {
    hide Receive, Wired, Filling, Full, JoinedSlots;
    if rs != [] {
      AfterPartial(rs, bad, Wired(bad) + tail, missing, hash);
      ReplyHandled(bad, tail, SlotsAfter(rs, Announced(rs, bad)), hash);
    } else {
      ReplyHandled(bad, tail, NotYet, hash);
    }
  }

  lemma {:induction false} FillingLast(all: seq<Slot>, rs: seq<Reply>, last: Reply)
    requires (forall r :: r in rs ==> r.id < |all|) && last.id < |all|
    ensures forall r :: r in rs + [last] ==> r.id < |all|
    ensures Filling(all, rs + [last]) == Filling(all, rs)[last.id := Filled(last.payload)]
    decreases |rs|
  {
    if rs == [] {
      assert [] + [last] == [last] && [last][1..] == [];
    } else {
      assert rs[0] in rs && forall r :: r in rs[1..] ==> r in rs;
      assert (rs + [last])[1..] == rs[1..] + [last];
      FillingLast(all[rs[0].id := Filled(rs[0].payload)], rs[1..], last);
    }
  }

  lemma {:induction false} SlotsAssembled(all: seq<Slot>, rs: seq<Reply>, from: nat)
    requires from <= |all| && Full(all)
    requires forall i :: 0 <= i < |all| ==> Mentions(rs, i) && all[i] == Filled(Latest(rs, i))
    ensures JoinedSlots(all[from..]) == Assembled(rs, from, |all|)
    decreases |all| - from
  {
    hide Mentions, Latest;
    if from < |all| {
      assert all[from..][1..] == all[from + 1..];
      SlotsAssembled(all, rs, from + 1);
    }
  }

  /** Full slots hold the latest payloads of all blocks. */
  lemma FullAssembled(rs: seq<Reply>, count: nat)
    requires forall r :: r in rs ==> r.id < count
    requires Full(Filling(NoSlots(count), rs))
    ensures forall i :: 0 <= i < count ==> Mentions(rs, i)
    ensures JoinedSlots(Filling(NoSlots(count), rs)) == Assembled(rs, 0, count)
  {
    var all := Filling(NoSlots(count), rs);
    hide Filling, Latest, Mentions, JoinedSlots, Assembled;
    forall i | 0 <= i < count
      ensures Mentions(rs, i) && all[i] == Filled(Latest(rs, i))
    {
      FillingAt(NoSlots(count), rs, i);
      assert all[i].Filled?;
    }
    SlotsAssembled(all, rs, 0);
    assert all[0..] == all;
  }

  /** The intact reply that brings the last missing block completes the transfer: the data are the latest payloads, joined. */
  lemma LastReplyCompletes(rs: seq<Reply>, last: Reply, tail: Bytes, missing: nat, hash: Hash)
    requires Partial(rs, Announced(rs, last), missing, hash) && Sendable(last)
    requires Intact(last, hash) && last.id < Announced(rs, last)
    requires forall i :: 0 <= i < Announced(rs, last) ==> Mentions(rs + [last], i)
    ensures Receive(Wires(rs, Wired(last) + tail), NotYet, hash)
            == (Returned(STATUS_OK, Assembled(rs + [last], 0, Announced(rs, last))), tail)
  {
    var count := Announced(rs, last);
    AfterPartial(rs, last, Wired(last) + tail, missing, hash);
    FillingLast(NoSlots(count), rs, last);
    var all := Filling(NoSlots(count), rs + [last]);
    forall i | 0 <= i < count
      ensures all[i].Filled?
    {
      FillingAt(NoSlots(count), rs + [last], i);
    }
    FullAssembled(rs + [last], count);
    hide Receive, Wired, Filling, JoinedSlots, Accept, Mentions, Intact, Assembled;
    ReplyHandled(last, tail, SlotsAfter(rs, count), hash);
    IntactAccepted(last, SlotsAfter(rs, count), count, hash);
    NothingFilled(NoSlots(count));
  }

  lemma NothingFilled(all: seq<Slot>)
    ensures Filling(all, []) == all
  {
  }

  // ----- what a result says, of whatever bytes

  /** Replies that are read one after the other from the stream, and what is left behind them. */
  ghost predicate ReadAs(stream: Bytes, rs: seq<Reply>, rest: Bytes)
    decreases |rs|
  {
    if rs == [] then stream == rest
    else
      var length := Unpack(Taken(stream, 4));
      && length.Ok?
      && ParseReply(Taken(Left(stream, 4), length.value + LEN_REPLY_HEADER), length.value) == Ok(rs[0])
      && ReadAs(Left(Left(stream, 4), length.value + LEN_REPLY_HEADER), rs[1..], rest)
  }

  lemma ReadFirst(stream: Bytes, r: Reply, rs: seq<Reply>, rest: Bytes)
    requires Unpack(Taken(stream, 4)).Ok?
    requires var n := Unpack(Taken(stream, 4)).value;
             && ParseReply(Taken(Left(stream, 4), n + LEN_REPLY_HEADER), n) == Ok(r)
             && ReadAs(Left(Left(stream, 4), n + LEN_REPLY_HEADER), rs, rest)
    ensures ReadAs(stream, [r] + rs, rest)
  {
    assert ([r] + rs)[1..] == rs;
    hide ParseReply, Unpack, Taken, Left;
  }

  /** What was accepted: an intact reply with a known number. */
  lemma AcceptedIntact(r: Reply, slots: Slots, hash: Hash)
    requires Accept(slots, r, hash).Continue? || Accept(slots, r, hash).outcome.Returned?
    ensures var all := if slots.NotYet? then NoSlots(r.count) else slots.all;
            && Intact(r, hash) && r.id < |all|
            && var all' := all[r.id := Filled(r.payload)];
               Accept(slots, r, hash) == if Full(all') then Stop(Returned(STATUS_OK, JoinedSlots(all'))) else Continue(all')
  {
    hide Full, JoinedSlots;
  }

  lemma FillingFirst(all: seq<Slot>, r: Reply, rs: seq<Reply>)
    requires r.id < |all| && forall q :: q in rs ==> q.id < |all|
    ensures forall q :: q in [r] + rs ==> q.id < |all|
    ensures Filling(all, [r] + rs) == Filling(all[r.id := Filled(r.payload)], rs)
  {
    assert ([r] + rs)[1..] == rs;
  }

  lemma {:induction false} ReturnedFrom(stream: Bytes, slots: Slots, hash: Hash) returns (rs: seq<Reply>)
    requires Receive(stream, slots, hash).0.Returned?
    ensures rs != [] && ReadAs(stream, rs, Receive(stream, slots, hash).1)
    ensures var all := if slots.NotYet? then NoSlots(rs[0].count) else slots.all;
            && AllIntact(rs, |all|, hash) && Full(Filling(all, rs))
            && Receive(stream, slots, hash).0 == Returned(STATUS_OK, JoinedSlots(Filling(all, rs)))
    decreases |stream|
  {
    hide Receive, Accept, ParseReply, Unpack, Taken, Left, ReadAs, Filling, JoinedSlots, Intact, Full;
    if Unpack(Taken(stream, 4)).Err? {
      LengthMissing(stream, slots, hash);
    }
    ReplyRead(stream, slots, hash);
    var n := Unpack(Taken(stream, 4)).value;
    var r := ParseReply(Taken(Left(stream, 4), n + LEN_REPLY_HEADER), n).value;
    var rest := Left(Left(stream, 4), n + LEN_REPLY_HEADER);
    AcceptedIntact(r, slots, hash);
    var all := if slots.NotYet? then NoSlots(r.count) else slots.all;
    var all' := all[r.id := Filled(r.payload)];
    var more := [];
    if Accept(slots, r, hash).Continue? {
      more := ReturnedFrom(rest, Slots(all'), hash);
    } else {
      ReadNothing(rest);
      NothingFilled(all');
    }
    rs := [r] + more;
    ReadFirst(stream, r, more, Receive(stream, slots, hash).1);
    FillingFirst(all, r, more);
  }

  lemma ReadNothing(stream: Bytes)
    ensures ReadAs(stream, [], stream)
  {
  }

  /**
   A result is never made of damaged or missing blocks: whatever the bytes, if data are returned, every payload
   read matches its checksum, every announced block came, and the data are the latest payloads in order.
  */
  lemma ReturnedMeans(stream: Bytes, hash: Hash) returns (rs: seq<Reply>)
    requires Receive(stream, NotYet, hash).0.Returned?
    ensures rs != [] && ReadAs(stream, rs, Receive(stream, NotYet, hash).1)
    ensures forall r :: r in rs ==> r.status == STATUS_OK && r.blockHash == hash(r.payload) && r.id < rs[0].count
    ensures forall i :: 0 <= i < rs[0].count ==> Mentions(rs, i)
    ensures Receive(stream, NotYet, hash).0 == Returned(STATUS_OK, Assembled(rs, 0, rs[0].count))
  {
    rs := ReturnedFrom(stream, NotYet, hash);
    hide Receive, ReadAs, Filling, JoinedSlots, Full, Mentions, Assembled;
    FullAssembled(rs, rs[0].count);
  }
}
