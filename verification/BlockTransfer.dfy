/**
 Replies in blocks, from A4/handout/python/first_peer/peer.py: the sender cuts its data into numbered
 blocks and sends them in any order, the receiver fills one slot per number until none is empty.
*/
module BlockTransfer {
  import opened Utf8
  import opened Wire

  const STATUS_OK := 1
  const SENDABLE := MSG_MAX - 4 - LEN_REPLY_HEADER

  /** get_sha256: any function to 32 bytes. */
  type Hash = h: Bytes -> Bytes | forall m :: |h(m)| == LEN_HASH
    witness (m: Bytes) => seq(LEN_HASH, (i: nat) => 0)

  datatype Block = Block(id: nat, payload: Bytes)

  datatype Reply = Reply(status: nat, id: nat, count: nat, blockHash: Bytes, totalHash: Bytes, payload: Bytes)

  // ----- one reply

  /** The caller's numbers must fit 32 bits, or packing raises. */
  function AssembleReply(status: nat, id: nat, count: nat, totalHash: Bytes, payload: Bytes, hash: Hash): (r: Result<Bytes>)
    ensures r.Ok? <==> |payload| < MAX_NUMBER && status < MAX_NUMBER && id < MAX_NUMBER && count < MAX_NUMBER
  {
    if |payload| >= MAX_NUMBER || status >= MAX_NUMBER || id >= MAX_NUMBER || count >= MAX_NUMBER then Err(StructError)
    else Ok(Pack(|payload|) + Body(status, id, count, hash(payload), totalHash, payload))
  }

  /** What follows the length of the payload. */
  function Body(status: nat, id: nat, count: nat, blockHash: Bytes, totalHash: Bytes, payload: Bytes): (b: Bytes)
    requires status < MAX_NUMBER && id < MAX_NUMBER && count < MAX_NUMBER
    ensures |b| == 12 + |blockHash| + |totalHash| + |payload|
  {
    Pack(status) + Pack(id) + Pack(count) + blockHash + totalHash + payload
  }

  function ParseReply(m: Bytes, length: nat): (r: Result<Reply>) {
    var status := Unpack(Slice(m, 0, 4));
    var id := Unpack(Slice(m, 4, 8));
    var count := Unpack(Slice(m, 8, 12));
    if status.Err? || id.Err? || count.Err? then Err(StructError)
    else Ok(Reply(status.value, id.value, count.value, Slice(m, 12, 44), Slice(m, 44, 76), Slice(m, 76, 76 + length)))
  }

  lemma BodyParsed(status: nat, id: nat, count: nat, blockHash: Bytes, totalHash: Bytes, payload: Bytes)
    requires status < MAX_NUMBER && id < MAX_NUMBER && count < MAX_NUMBER
    requires |blockHash| == LEN_HASH && |totalHash| == LEN_HASH
    ensures ParseReply(Body(status, id, count, blockHash, totalHash, payload), |payload|)
            == Ok(Reply(status, id, count, blockHash, totalHash, payload))
  {
    var body := Body(status, id, count, blockHash, totalHash, payload);
    UnpackPack(status);
    UnpackPack(id);
    UnpackPack(count);
    hide Pack, Unpack;
    var numbers := Pack(status) + Pack(id) + Pack(count);
    assert body == numbers + (blockHash + totalHash + payload);
    assert Slice(body, 0, 4) == Pack(status);
    assert Slice(body, 4, 8) == Pack(id);
    assert Slice(body, 8, 12) == Pack(count);
    assert Slice(body, 12, 44) == blockHash;
    assert Slice(body, 44, 76) == totalHash;
    assert Slice(body, 76, 76 + |payload|) == payload;
  }

  lemma TwoTaken(a: Bytes, b: Bytes, c: Bytes)
    ensures var m := a + b + c;
            Taken(m, |a|) == a && Taken(Left(m, |a|), |b|) == b && Left(Left(m, |a|), |b|) == c
  {
    assert a + b + c == a + (b + c);
    TakenFrom(a, b + c);
    TakenFrom(b, c);
  }

  /** The receiver reads the length, then as many bytes as it announces, and has every part of the reply. */
  lemma ReplyRoundTrip(status: nat, id: nat, count: nat, totalHash: Bytes, payload: Bytes, hash: Hash, tail: Bytes)
    requires |totalHash| == LEN_HASH && AssembleReply(status, id, count, totalHash, payload, hash).Ok?
    ensures var m := AssembleReply(status, id, count, totalHash, payload, hash).value + tail;
            && |m| == 4 + LEN_REPLY_HEADER + |payload| + |tail|
            && Unpack(Taken(m, 4)) == Ok(|payload|)
            && ParseReply(Taken(Left(m, 4), |payload| + LEN_REPLY_HEADER), |payload|)
                == Ok(Reply(status, id, count, hash(payload), totalHash, payload))
            && Left(Left(m, 4), |payload| + LEN_REPLY_HEADER) == tail
  {
    var body := Body(status, id, count, hash(payload), totalHash, payload);
    var m := AssembleReply(status, id, count, totalHash, payload, hash).value + tail;
    hide Pack, Unpack, Body, ParseReply, Taken, Left;
    UnpackPack(|payload|);
    BodyParsed(status, id, count, hash(payload), totalHash, payload);
    TwoTaken(Pack(|payload|), body, tail);
  }

  // ----- cutting and joining

  /** math.ceil(size / SENDABLE) */
  function Ceiling(size: nat): nat {
    (size + SENDABLE - 1) / SENDABLE
  }

  /** One block for nothing. */
  function Count(size: nat): nat {
    if size == 0 then 1 else Ceiling(size)
  }

  lemma CountStep(size: nat)
    ensures Count(size) == if size <= SENDABLE then 1 else Count(size - SENDABLE) + 1
  {
  }

  function Blocks(data: Bytes, id: nat): (blocks: seq<Block>)
    ensures |blocks| > 0
    decreases |data|
  {
    if |data| <= SENDABLE then [Block(id, data)]
    else [Block(id, data[..SENDABLE])] + Blocks(data[SENDABLE..], id + 1)
  }

  function Joined(blocks: seq<Block>): Bytes {
    if blocks == [] then [] else blocks[0].payload + Joined(blocks[1..])
  }

  /** The blocks are numbered in order, fit one message each, and joined give back the data. */
  lemma {:induction false} BlocksAreData(data: Bytes, id: nat)
    ensures |Blocks(data, id)| == Count(|data|) && Joined(Blocks(data, id)) == data
    ensures forall k :: 0 <= k < Count(|data|) ==>
      Blocks(data, id)[k].id == id + k && |Blocks(data, id)[k].payload| <= SENDABLE
    decreases |data|
  {
    CountStep(|data|);
    hide Count;
    if |data| <= SENDABLE {
      assert Joined(Blocks(data, id)) == data + [];
    } else {
      BlocksAreData(data[SENDABLE..], id + 1);
      var blocks := Blocks(data, id);
      assert blocks[1..] == Blocks(data[SENDABLE..], id + 1);
    }
  }

  // ----- a connection whose recv always returns as much as was asked for, while there is any

  class Connection {
    var incoming: Bytes
    var outgoing: Bytes

    constructor (stream: Bytes)
      ensures incoming == stream && outgoing == []
    {
      incoming := stream;
      outgoing := [];
    }

    method Recv(n: nat) returns (b: Bytes)
      modifies this`incoming
      ensures b == Taken(old(incoming), n) && incoming == Left(old(incoming), n)
    {
      b := Taken(incoming, n);
      incoming := Left(incoming, n);
    }

    method SendAll(b: Bytes)
      modifies this`outgoing
      ensures outgoing == old(outgoing) + b
    {
      outgoing := outgoing + b;
    }
  }

  // ----- sending

  /** The bytes of the replies that carry the blocks, and after them what else is on the wire. */
  function Stream(status: nat, count: nat, totalHash: Bytes, blocks: seq<Block>, hash: Hash, tail: Bytes): (s: Bytes)
    requires status < MAX_NUMBER && count < MAX_NUMBER
    requires forall b :: b in blocks ==> b.id < MAX_NUMBER && |b.payload| < MAX_NUMBER
  {
    if blocks == [] then tail
    else
      AssembleReply(status, blocks[0].id, count, totalHash, blocks[0].payload, hash).value
      + Stream(status, count, totalHash, blocks[1..], hash, tail)
  }

  /** What random.shuffle may make of the blocks. */
  ghost predicate Shuffled(blocks: seq<Block>, order: seq<Block>) {
    multiset(order) == multiset(blocks)
  }

  /** What is left to cut. */
  function Rest(data: Bytes, id: nat): seq<Block> {
    if data == [] then [] else Blocks(data, id)
  }

  lemma RestStep(data: Bytes, id: nat)
    requires data != []
    ensures Rest(data, id) == [Block(id, Taken(data, SENDABLE))] + Rest(Left(data, SENDABLE), id + 1)
  {
    assert |data| <= SENDABLE ==> Taken(data, SENDABLE) == data && Left(data, SENDABLE) == [];
  }

  lemma BlocksRegrouped(a: seq<Block>, b: Block, c: seq<Block>)
    ensures a + ([b] + c) == a + [b] + c
  {
  }

  /** The loop that cuts the data. */
  method CutBlocks(data: Bytes) returns (blocks: seq<Block>, count: nat)
    ensures blocks == Blocks(data, 0) && count == |blocks|
  {
    BlocksAreData(data, 0);
    hide Joined, Ceiling, Taken, Left;
    count := Ceiling(|data|);
    blocks := [];
    if |data| == 0 {
      count := 1;
      blocks := [Block(0, [])];
    }
    hide Count;
    var toSend := data;
    var id := 0;
    assert blocks + Rest(toSend, id) == Blocks(data, 0);
    hide Rest, Blocks;
    while |toSend| > 0
      invariant blocks + Rest(toSend, id) == Blocks(data, 0)
      decreases |toSend|
    {
      var next := Block(id, Taken(toSend, SENDABLE));
      RestStep(toSend, id);
      BlocksRegrouped(blocks, next, Rest(Left(toSend, SENDABLE), id + 1));
      blocks := blocks + [next];
      toSend := Left(toSend, SENDABLE);
      id := id + 1;
    }
  }

  ghost predicate Packable(blocks: seq<Block>) {
    forall b :: b in blocks ==> b.id < MAX_NUMBER && |b.payload| < MAX_NUMBER
  }

  /** What was sent and the replies for the rest make up whole. */
  ghost predicate Completes(sent: Bytes, status: nat, count: nat, totalHash: Bytes, rest: seq<Block>, hash: Hash, whole: Bytes)
    requires status < MAX_NUMBER && count < MAX_NUMBER && Packable(rest)
  {
    sent + Stream(status, count, totalHash, rest, hash, []) == whole
  }

  lemma PackableRest(blocks: seq<Block>)
    requires Packable(blocks) && blocks != []
    ensures Packable(blocks[1..]) && blocks[0].id < MAX_NUMBER && |blocks[0].payload| < MAX_NUMBER
  {
    assert blocks[0] in blocks;
    assert forall b :: b in blocks[1..] ==> b in blocks;
  }

  lemma Associative(a: Bytes, b: Bytes, c: Bytes)
    ensures a + (b + c) == (a + b) + c
  {
  }

  lemma StreamStep(sent: Bytes, status: nat, count: nat, totalHash: Bytes, rest: seq<Block>, hash: Hash, whole: Bytes)
    requires status < MAX_NUMBER && count < MAX_NUMBER && Packable(rest) && rest != []
    requires Completes(sent, status, count, totalHash, rest, hash, whole)
    ensures Packable(rest[1..])
    ensures var reply := AssembleReply(status, rest[0].id, count, totalHash, rest[0].payload, hash);
            reply.Ok? && Completes(sent + reply.value, status, count, totalHash, rest[1..], hash, whole)
  {
    PackableRest(rest);
    hide AssembleReply;
    var reply := AssembleReply(status, rest[0].id, count, totalHash, rest[0].payload, hash);
    var later := Stream(status, count, totalHash, rest[1..], hash, []);
    assert Stream(status, count, totalHash, rest, hash, []) == reply.value + later;
    hide Stream;
    Associative(sent, reply.value, later);
  }

  lemma NextInOrder(order: seq<Block>, k: nat)
    requires k < |order|
    ensures order[k] in order && order[k..][0] == order[k] && order[k..][1..] == order[k + 1..]
  {
  }

  /** Before anything is sent. */
  lemma AllToCome(sent: Bytes, status: nat, count: nat, totalHash: Bytes, order: seq<Block>, hash: Hash)
    requires status < MAX_NUMBER && count < MAX_NUMBER
    requires forall b :: b in order ==> b.id < MAX_NUMBER && |b.payload| < MAX_NUMBER
    ensures Packable(order)
    ensures Completes(sent, status, count, totalHash, order, hash, sent + Stream(status, count, totalHash, order, hash, []))
  {
    hide Stream;
  }

  lemma NothingLeft(sent: Bytes, status: nat, count: nat, totalHash: Bytes, rest: seq<Block>, hash: Hash, whole: Bytes)
    requires status < MAX_NUMBER && count < MAX_NUMBER && Packable(rest) && rest == []
    requires Completes(sent, status, count, totalHash, rest, hash, whole)
    ensures sent == whole
  {
    assert Stream(status, count, totalHash, rest, hash, []) == [];
  }

  /** The loop that sends them: nothing is sent when packing raises, and otherwise everything. */
  method SendBlocks(status: nat, count: nat, totalHash: Bytes, order: seq<Block>, hash: Hash, connection: Connection)
      returns (raised: bool)
    requires order != [] && forall b :: b in order ==> b.id < count && |b.payload| <= SENDABLE
    modifies connection`outgoing
    ensures raised <==> status >= MAX_NUMBER || count >= MAX_NUMBER
    ensures connection.outgoing
            == old(connection.outgoing) + if raised then [] else Stream(status, count, totalHash, order, hash, [])
  {
    hide AssembleReply, Stream, Completes, Packable;
    ghost var start := connection.outgoing;
    ghost var fits := status < MAX_NUMBER && count < MAX_NUMBER;
    ghost var whole := if fits then start + Stream(status, count, totalHash, order, hash, []) else start;
    if fits {
      AllToCome(start, status, count, totalHash, order, hash);
    }
    assert order[0..] == order && order[|order|..] == [];
    var k := 0;
    while k < |order|
      invariant 0 <= k <= |order|
      invariant !fits ==> k == 0 && connection.outgoing == start
      invariant fits ==> Packable(order[k..]) && Completes(connection.outgoing, status, count, totalHash, order[k..], hash, whole)
    {
      NextInOrder(order, k);
      var payload := AssembleReply(status, order[k].id, count, totalHash, order[k].payload, hash);
      if payload.Err? {
        return true;
      }
      StreamStep(connection.outgoing, status, count, totalHash, order[k..], hash, whole);
      connection.SendAll(payload.value);
      k := k + 1;
    }
    raised := false;
    if fits {
      NothingLeft(connection.outgoing, status, count, totalHash, order[k..], hash, whole);
    }
  }

  lemma ShuffledElements(blocks: seq<Block>, order: seq<Block>)
    requires Shuffled(blocks, order)
    ensures |order| == |blocks| && forall b :: b in order <==> b in blocks
  {
    assert |multiset(order)| == |multiset(blocks)|;
    assert forall b :: b in order <==> b in multiset(order);
    assert forall b :: b in blocks <==> b in multiset(blocks);
  }

  /** _build_and_send_responses, for any way the blocks are shuffled. */
  method Respond(status: nat, data: Bytes, order: seq<Block>, hash: Hash, connection: Connection) returns (raised: bool)
    requires Shuffled(Blocks(data, 0), order)
    modifies connection`outgoing
    ensures raised <==> status >= MAX_NUMBER || Count(|data|) >= MAX_NUMBER
    ensures raised ==> connection.outgoing == old(connection.outgoing)
    ensures !raised ==> forall b :: b in order ==> b.id < MAX_NUMBER && |b.payload| < MAX_NUMBER
    ensures !raised ==>
      connection.outgoing == old(connection.outgoing) + Stream(status, Count(|data|), hash(data), order, hash, [])
  {
    var totalHash := hash(data);
    var blocks, count := CutBlocks(data);
    BlocksAreData(data, 0);
    ShuffledElements(blocks, order);
    hide Blocks, Count, Stream, Joined, Shuffled;
    raised := SendBlocks(status, count, totalHash, order, hash, connection);
  }

  // ----- receiving

  datatype Slot = Empty | Filled(payload: Bytes)

  /** all_blocks, which is None before the first reply has been read. */
  datatype Slots = NotYet | Slots(all: seq<Slot>)

  datatype Problem = BadStatus(status: nat) | BadChecksum(id: nat, count: nat)

  datatype Outcome =
    | Returned(status: nat, data: Bytes)
    /** STATUS_OTHER, with a text about the problem */
    | Reported(problem: Problem)
    | Raised

  predicate Full(all: seq<Slot>) {
    forall i :: 0 <= i < |all| ==> all[i].Filled?
  }

  function JoinedSlots(all: seq<Slot>): Bytes
    requires Full(all)
  {
    if all == [] then [] else all[0].payload + JoinedSlots(all[1..])
  }

  function NoSlots(count: nat): (all: seq<Slot>)
    ensures |all| == count
  {
    seq(count, (i: nat) => Empty)
  }

  /** One reply that has been read, and the slots before it: the slots after it, or how the loop ends. */
  datatype Effect = Continue(all: seq<Slot>) | Stop(outcome: Outcome)

  function Accept(slots: Slots, r: Reply, hash: Hash): Effect {
    var all := if slots.NotYet? then NoSlots(r.count) else slots.all;
    if r.id >= |all| then Stop(Raised)
    else if r.status != STATUS_OK then Stop(Reported(BadStatus(r.status)))
    else if hash(r.payload) != r.blockHash then Stop(Reported(BadChecksum(r.id, r.count)))
    else
      var all' := all[r.id := Filled(r.payload)];
      if Full(all') then Stop(Returned(STATUS_OK, JoinedSlots(all'))) else Continue(all')
  }

  /** The loop over the replies: its outcome, and what it has not read. */
  function Receive(stream: Bytes, slots: Slots, hash: Hash): (Outcome, Bytes)
    decreases |stream|
  {
    var length := Unpack(Taken(stream, 4));
    if length.Err? then (Raised, Left(stream, 4))
    else
      var size := length.value + LEN_REPLY_HEADER;
      var reply := ParseReply(Taken(Left(stream, 4), size), length.value);
      var rest := Left(Left(stream, 4), size);
      if reply.Err? then (Raised, rest)
      else
        var effect := Accept(slots, reply.value, hash);
        if effect.Stop? then (effect.outcome, rest) else Receive(rest, Slots(effect.all), hash)
  }

  lemma LengthMissing(stream: Bytes, slots: Slots, hash: Hash)
    requires Unpack(Taken(stream, 4)).Err?
    ensures Receive(stream, slots, hash) == (Raised, Left(stream, 4))
  {
  }

  lemma ReplyRead(stream: Bytes, slots: Slots, hash: Hash)
    requires Unpack(Taken(stream, 4)).Ok?
    ensures stream != []
    ensures var size := Unpack(Taken(stream, 4)).value + LEN_REPLY_HEADER;
            var reply := ParseReply(Taken(Left(stream, 4), size), size - LEN_REPLY_HEADER);
            var rest := Left(Left(stream, 4), size);
            Receive(stream, slots, hash)
            == if reply.Err? then (Raised, rest)
               else if Accept(slots, reply.value, hash).Stop? then (Accept(slots, reply.value, hash).outcome, rest)
               else Receive(rest, Slots(Accept(slots, reply.value, hash).all), hash)
  {
    hide Accept, ParseReply;
  }

  /** send_to_server, once the connection is there. */
  method SendToServer(request: Bytes, expectReply: bool, hash: Hash, connection: Connection) returns (outcome: Outcome)
    modifies connection
    ensures connection.outgoing == old(connection.outgoing) + request
    ensures !expectReply ==> outcome == Returned(STATUS_OK, []) && connection.incoming == old(connection.incoming)
    ensures expectReply ==> (outcome, connection.incoming) == Receive(old(connection.incoming), NotYet, hash)
  {
    hide Receive, ParseReply, Unpack, JoinedSlots, Full, Taken, Left;
    connection.SendAll(request);
    ghost var sent := connection.outgoing;
    if !expectReply {
      return Returned(STATUS_OK, []);
    }
    ghost var whole := Receive(connection.incoming, NotYet, hash);
    var responding := true;
    var allBlocks := NotYet;
    while responding
      invariant connection.outgoing == sent
      invariant responding ==> Receive(connection.incoming, allBlocks, hash) == whole
      invariant !responding ==> allBlocks.Slots? && Full(allBlocks.all)
      invariant !responding ==> whole == (Returned(STATUS_OK, JoinedSlots(allBlocks.all)), connection.incoming)
      decreases responding, |connection.incoming|
    {
      ghost var stream := connection.incoming;
      var initial := connection.Recv(4);
      var length := Unpack(initial);
      if length.Err? {
        LengthMissing(stream, allBlocks, hash);
        return Raised;
      }
      ReplyRead(stream, allBlocks, hash);
      var bytes := connection.Recv(length.value + LEN_REPLY_HEADER);
      var reply := ParseReply(bytes, length.value);
      if reply.Err? {
        return Raised;
      }
      var r := reply.value;
      if allBlocks.NotYet? {
        allBlocks := Slots(NoSlots(r.count));
      }
      if r.status != STATUS_OK {
        return if r.id < |allBlocks.all| then Reported(BadStatus(r.status)) else Raised;
      }
      if hash(r.payload) != r.blockHash {
        return if r.id < |allBlocks.all| then Reported(BadChecksum(r.id, r.count)) else Raised;
      }
      if r.id >= |allBlocks.all| {
        return Raised;
      }
      allBlocks := Slots(allBlocks.all[r.id := Filled(r.payload)]);
      if Full(allBlocks.all) {
        responding := false;
      }
    }
    outcome := Returned(STATUS_OK, JoinedSlots(allBlocks.all));
  }

  // ----- the transfer

  /** The slots after the blocks have been put where their numbers say. */
  function Fill(all: seq<Slot>, order: seq<Block>): (filled: seq<Slot>)
    requires forall b :: b in order ==> b.id < |all|
    ensures |filled| == |all|
    decreases |order|
  {
    if order == [] then all else Fill(all[order[0].id := Filled(order[0].payload)], order[1..])
  }

  ghost predicate Fits(count: nat, order: seq<Block>) {
    count < MAX_NUMBER && forall b :: b in order ==> b.id < count && |b.payload| < MAX_NUMBER
  }

  /** Reading one intact reply puts its block into its slot. */
  lemma OneReply(count: nat, totalHash: Bytes, block: Block, hash: Hash, tail: Bytes, slots: Slots)
    requires |totalHash| == LEN_HASH && Fits(count, [block]) && (slots.Slots? ==> |slots.all| == count)
    ensures var m := AssembleReply(STATUS_OK, block.id, count, totalHash, block.payload, hash).value + tail;
            var all := (if slots.NotYet? then NoSlots(count) else slots.all)[block.id := Filled(block.payload)];
            Receive(m, slots, hash)
            == if Full(all) then (Returned(STATUS_OK, JoinedSlots(all)), tail) else Receive(tail, Slots(all), hash)
  {
    assert block in [block];
    var m := AssembleReply(STATUS_OK, block.id, count, totalHash, block.payload, hash).value + tail;
    ReplyRoundTrip(STATUS_OK, block.id, count, totalHash, block.payload, hash, tail);
    hide AssembleReply, ParseReply, Unpack, Taken, Left, Full, JoinedSlots;
  }

  /** Blocks with different numbers, whose slots are empty. */
  ghost predicate Fresh(all: seq<Slot>, order: seq<Block>) {
    && (forall i :: 0 <= i < |order| ==> order[i].id < |all| && all[order[i].id] == Empty)
    && (forall i, j :: 0 <= i < j < |order| ==> order[i].id != order[j].id)
  }

  /** The receiver stops with the reply that fills the last slot, and not before. */
  lemma {:induction false} LastFills(count: nat, totalHash: Bytes, order: seq<Block>, hash: Hash, tail: Bytes, slots: Slots)
    requires |totalHash| == LEN_HASH && Fits(count, order) && order != [] && (slots.Slots? ==> |slots.all| == count)
    requires var all := if slots.NotYet? then NoSlots(count) else slots.all;
             Fresh(all, order) && Full(Fill(all, order))
    ensures var all := if slots.NotYet? then NoSlots(count) else slots.all;
            Receive(Stream(STATUS_OK, count, totalHash, order, hash, tail), slots, hash)
            == (Returned(STATUS_OK, JoinedSlots(Fill(all, order))), tail)
    decreases |order|
  {
    hide AssembleReply, Receive, JoinedSlots;
    assert order[0] in order;
    var all := if slots.NotYet? then NoSlots(count) else slots.all;
    var all' := all[order[0].id := Filled(order[0].payload)];
    OneReply(count, totalHash, order[0], hash, Stream(STATUS_OK, count, totalHash, order[1..], hash, tail), slots);
    if |order| == 1 {
      assert Fill(all, order) == all';
    } else {
      assert order[1..][0] == order[1] && all'[order[1].id] == Empty;
      assert Fresh(all', order[1..]);
      LastFills(count, totalHash, order[1..], hash, tail, Slots(all'));
    }
  }

  /** A block that is the only one of its number ends up in its slot, and other slots stay. */
  lemma {:induction false} FillAt(all: seq<Slot>, order: seq<Block>, b: Block)
    requires b.id < |all| && forall c :: c in order ==> c.id < |all| && (c.id == b.id ==> c == b)
    ensures Fill(all, order)[b.id] == if b in order then Filled(b.payload) else all[b.id]
    decreases |order|
  {
    if order != [] {
      assert order == [order[0]] + order[1..];
      FillAt(all[order[0].id := Filled(order[0].payload)], order[1..], b);
    }
  }

  lemma {:induction false} OnceEach(blocks: seq<Block>)
    requires forall i, j :: 0 <= i < j < |blocks| ==> blocks[i] != blocks[j]
    ensures forall b :: multiset(blocks)[b] <= 1
  {
    if blocks != [] {
      OnceEach(blocks[1..]);
      assert blocks == [blocks[0]] + blocks[1..];
      assert blocks[0] !in multiset(blocks[1..]);
    }
  }

  lemma {:induction false} AllDifferent(order: seq<Block>)
    requires forall b :: multiset(order)[b] <= 1
    ensures forall i, j :: 0 <= i < j < |order| ==> order[i] != order[j]
  {
    if order != [] {
      var rest := order[1..];
      assert order == [order[0]] + rest;
      assert forall b :: multiset(rest)[b] <= multiset(order)[b];
      AllDifferent(rest);
      assert order[0] !in multiset(rest);
      assert forall j :: 0 < j < |order| ==> order[j] == rest[j - 1];
    }
  }

  lemma {:induction false} SlotsJoin(all: seq<Slot>, blocks: seq<Block>)
    requires |all| == |blocks| && forall k :: 0 <= k < |all| ==> all[k] == Filled(blocks[k].payload)
    ensures Full(all) && JoinedSlots(all) == Joined(blocks)
  {
    if all != [] {
      SlotsJoin(all[1..], blocks[1..]);
    }
  }

  /** Shuffling neither loses nor repeats a block. */
  lemma OrderFacts(data: Bytes, order: seq<Block>)
    requires Shuffled(Blocks(data, 0), order)
    ensures |order| == Count(|data|) == |Blocks(data, 0)| && order != []
    ensures forall b :: b in order <==> b in Blocks(data, 0)
    ensures forall b :: b in order ==> b.id < |order| && b == Blocks(data, 0)[b.id] && |b.payload| < MAX_NUMBER
    ensures forall i, j :: 0 <= i < j < |order| ==> order[i] != order[j]
  {
    BlocksAreData(data, 0);
    ShuffledElements(Blocks(data, 0), order);
    OnceEach(Blocks(data, 0));
    AllDifferent(order);
  }

  lemma FilledInOrder(blocks: seq<Block>, order: seq<Block>)
    requires forall k :: 0 <= k < |blocks| ==> blocks[k].id == k && blocks[k] in order
    requires forall b :: b in order ==> b.id < |blocks| && b == blocks[b.id]
    ensures forall k :: 0 <= k < |blocks| ==> Fill(NoSlots(|blocks|), order)[k] == Filled(blocks[k].payload)
  {
    hide Fill, NoSlots;
    forall k | 0 <= k < |blocks|
      ensures Fill(NoSlots(|blocks|), order)[k] == Filled(blocks[k].payload)
    {
      FillAt(NoSlots(|blocks|), order, blocks[k]);
    }
  }

  lemma OrderFresh(blocks: seq<Block>, order: seq<Block>)
    requires forall b :: b in order ==> b.id < |blocks| && b == blocks[b.id]
    requires forall i, j :: 0 <= i < j < |order| ==> order[i] != order[j]
    ensures Fresh(NoSlots(|blocks|), order)
  {
    assert forall i :: 0 <= i < |order| ==> order[i] in order && order[i] == blocks[order[i].id];
  }

  /** All the blocks of data, put into their slots in some order, are data. */
  lemma FilledWithData(data: Bytes, order: seq<Block>)
    requires Shuffled(Blocks(data, 0), order)
    ensures Fresh(NoSlots(|order|), order)
    ensures var all := Fill(NoSlots(|order|), order);
            Full(all) && JoinedSlots(all) == data
  {
    OrderFacts(data, order);
    BlocksAreData(data, 0);
    var blocks := Blocks(data, 0);
    hide Blocks, Shuffled, Fill, JoinedSlots, Joined, Count, Fresh, NoSlots, Full;
    OrderFresh(blocks, order);
    FilledInOrder(blocks, order);
    SlotsJoin(Fill(NoSlots(|blocks|), order), blocks);
  }

  /**
   Whatever the data and whatever the order of its blocks, the receiver returns the data, having read
   exactly the replies. The hash of the whole, of which a mismatch is only printed, changes nothing.
  */
  lemma TransferWhole(data: Bytes, order: seq<Block>, totalHash: Bytes, hash: Hash, tail: Bytes)
    requires Shuffled(Blocks(data, 0), order) && Count(|data|) < MAX_NUMBER && |totalHash| == LEN_HASH
    ensures Fits(Count(|data|), order)
    ensures Receive(Stream(STATUS_OK, Count(|data|), totalHash, order, hash, tail), NotYet, hash)
            == (Returned(STATUS_OK, data), tail)
  {
    OrderFacts(data, order);
    hide Blocks, Shuffled, Count, Receive, Stream, Full, JoinedSlots, Fill, NoSlots, Fresh;
    FilledWithData(data, order);
    LastFills(|order|, totalHash, order, hash, tail, NotYet);
  }

  /** An error reply is reported after its first block; the rest is not read. */
  lemma RefusalReported(status: nat, data: Bytes, order: seq<Block>, hash: Hash, tail: Bytes)
    requires Shuffled(Blocks(data, 0), order) && Count(|data|) < MAX_NUMBER && STATUS_OK != status < MAX_NUMBER
    ensures Fits(Count(|data|), order) && order != []
    ensures Receive(Stream(status, Count(|data|), hash(data), order, hash, tail), NotYet, hash)
            == (Reported(BadStatus(status)), Stream(status, Count(|data|), hash(data), order[1..], hash, tail))
  {
    OrderFacts(data, order);
    var n := |order|;
    hide Blocks, Shuffled, Count, Unpack, ParseReply, Taken, Left, AssembleReply;
    assert order[0] in order;
    var rest := Stream(status, n, hash(data), order[1..], hash, tail);
    ReplyRoundTrip(status, order[0].id, n, hash(data), order[0].payload, hash, rest);
  }
}
