/** Where everything lies in the messages of A4/handout/python/first_peer/peer.py, byte by byte. */
module WireLayout {
  import opened PeerNetwork
  import opened Utf8
  import opened Wire
  import opened BlockTransfer

  /** b spells n, the most significant byte first. */
  ghost predicate Spells(b: Bytes, n: nat) {
    |b| == 4 && n == 0x100_0000 * b[0] as int + 0x1_0000 * b[1] as int + 0x100 * b[2] as int + b[3] as int
  }

  /** Numbers are packed with the most significant byte first. */
  lemma PackSpells(n: nat)
    requires n < MAX_NUMBER
    ensures Spells(Pack(n), n)
  {
    UnpackPack(n);
  }

  /** Names in ASCII are one byte for each character, and zeros up to sixteen bytes. */
  lemma NameLayout(ip: string)
    requires IsAscii(ip) && |ip| <= 16
    ensures |Encode(Field(ip))| == 16
    ensures forall i :: 0 <= i < 16 ==> Encode(Field(ip))[i] == if i < |ip| then ip[i] as int else 0
  {
    FieldLength(ip);
    AsciiBytes(Field(ip));
    hide Encode;
  }

  lemma {:induction false} AsciiBytes(text: string)
    requires IsAscii(text)
    ensures |Encode(text)| == |text| && forall i :: 0 <= i < |text| ==> Encode(text)[i] == text[i] as int
  {
    if text != "" {
      AsciiBytes(text[1..]);
      assert EncodeChar(text[0]) == [text[0] as int];
    }
  }

  lemma BehindParts(port: nat, code: nat, request: Bytes)
    requires port < MAX_NUMBER && code < MAX_NUMBER && |request| < MAX_NUMBER
    ensures var b := Behind(port, code, request);
            b[..4] == Pack(port) && b[4..8] == Pack(code) && b[8..12] == Pack(|request|) && b[12..] == request
  {
    hide Pack;
  }

  /** A request: the name, the port, the command, the length of the body, and the body. */
  lemma RequestLayout(ip: string, port: nat, code: nat, request: Bytes)
    requires IsAscii(ip) && |ip| <= 16 && AssembleMessage(ip, port, code, request).Ok?
    ensures var m := AssembleMessage(ip, port, code, request).value;
            && |m| == 28 + |request|
            && (forall i :: 0 <= i < 16 ==> m[i] == if i < |ip| then ip[i] as int else 0)
            && Spells(m[16..20], port) && Spells(m[20..24], code) && Spells(m[24..28], |request|) && m[28..] == request
  {
    NameLayout(ip);
    PackSpells(port);
    PackSpells(code);
    PackSpells(|request|);
    BehindParts(port, code, request);
    hide Encode, Field, Pack, Behind, Spells;
    var field, behind := Encode(Field(ip)), Behind(port, code, request);
    var m := AssembleMessage(ip, port, code, request).value;
    assert m == field + behind;
    assert m[16..20] == behind[..4] && m[20..24] == behind[4..8] && m[24..28] == behind[8..12] && m[28..] == behind[12..];
  }

  /** One peer on a list: the name and the port. */
  lemma PeerLayout(a: Address)
    requires IsAscii(a.ip) && |a.ip| <= 16 && a.port < MAX_NUMBER
    ensures |EncodePeer(a)| == 20 && Spells(EncodePeer(a)[16..], a.port)
    ensures forall i :: 0 <= i < 16 ==> EncodePeer(a)[i] == if i < |a.ip| then a.ip[i] as int else 0
  {
    NameLayout(a.ip);
    PackSpells(a.port);
    hide Encode, Field, Pack;
  }

  lemma BodyParts(status: nat, id: nat, count: nat, blockHash: Bytes, totalHash: Bytes, payload: Bytes)
    requires status < MAX_NUMBER && id < MAX_NUMBER && count < MAX_NUMBER
    requires |blockHash| == 32 && |totalHash| == 32
    ensures var b := Body(status, id, count, blockHash, totalHash, payload);
            && b[..4] == Pack(status) && b[4..8] == Pack(id) && b[8..12] == Pack(count)
            && b[12..44] == blockHash && b[44..76] == totalHash && b[76..] == payload
  {
    hide Pack;
    var numbers := Pack(status) + Pack(id) + Pack(count);
    assert Body(status, id, count, blockHash, totalHash, payload) == numbers + (blockHash + totalHash + payload);
  }

  /** A reply: its length, the status, the number of the block and of all blocks, two hashes, and the payload. */
  lemma ReplyLayout(status: nat, id: nat, count: nat, totalHash: Bytes, payload: Bytes, hash: Hash)
    requires |totalHash| == 32 && AssembleReply(status, id, count, totalHash, payload, hash).Ok?
    ensures var m := AssembleReply(status, id, count, totalHash, payload, hash).value;
            && |m| == 80 + |payload| && Spells(m[..4], |payload|) && Spells(m[4..8], status)
            && Spells(m[8..12], id) && Spells(m[12..16], count)
            && m[16..48] == hash(payload) && m[48..80] == totalHash && m[80..] == payload
  {
    PackSpells(|payload|);
    PackSpells(status);
    PackSpells(id);
    PackSpells(count);
    BodyParts(status, id, count, hash(payload), totalHash, payload);
    hide Pack, Body, Spells;
    var body := Body(status, id, count, hash(payload), totalHash, payload);
    var m := AssembleReply(status, id, count, totalHash, payload, hash).value;
    assert m == Pack(|payload|) + body;
    assert m[4..8] == body[..4] && m[8..12] == body[4..8] && m[12..16] == body[8..12];
    assert m[16..48] == body[12..44] && m[48..80] == body[44..76] && m[80..] == body[76..];
  }

  /** Every block but the last fills a message of 8196 bytes, and the last has something in it unless there are no data. */
  lemma {:induction false} BlocksFillMessages(data: Bytes, id: nat, k: nat)
    requires k < |Blocks(data, id)|
    ensures var n := |Blocks(data, id)[k].payload|;
            && (k < |Blocks(data, id)| - 1 ==> 80 + n == 8196)
            && (k == |Blocks(data, id)| - 1 ==> 80 + n <= 8196 && (data != [] ==> n > 0))
    decreases |data|
  {
    if |data| > SENDABLE && k > 0 {
      BlocksFillMessages(data[SENDABLE..], id + 1, k - 1);
    }
  }
}
