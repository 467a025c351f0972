/**
 The byte formats of A4/handout/python/first_peer/peer.py: requests, replies and lists of peers. Reading
 too few bytes raises in the original, and so does packing a number of more than 32 bits.
*/
module Wire {
  import opened PeerNetwork
  import opened Utf8

  const MAX_NUMBER := 0x1_0000_0000
  const MSG_MAX := 8196
  const LEN_IP := 16
  const LEN_PORT := 4
  const LEN_PEER := 20
  const LEN_REQUEST_HEADER := 28
  const LEN_HASH := 32
  const LEN_REPLY_HEADER := 76

  // ----- numbers

  /** struct.pack('!I', n) */
  function Pack(n: nat): (b: Bytes)
    requires n < MAX_NUMBER
    ensures |b| == 4
  {
    [n / 0x100_0000, n / 0x1_0000 % 0x100, n / 0x100 % 0x100, n % 0x100]
  }

  /** struct.unpack('!I', b)[0] */
  function Unpack(b: Bytes): (r: Result<nat>) {
    if |b| != 4 then Err(StructError) else Ok(((b[0] as int * 0x100 + b[1]) * 0x100 + b[2]) * 0x100 + b[3])
  }

  lemma UnpackPack(n: nat)
    requires n < MAX_NUMBER
    ensures Unpack(Pack(n)) == Ok(n)
  {
    assert n / 0x100 / 0x100 == n / 0x1_0000;
    assert n / 0x1_0000 / 0x100 == n / 0x100_0000;
  }

  lemma PackUnpack(b: Bytes)
    requires |b| == 4
    ensures Unpack(b).Ok? && Unpack(b).value < MAX_NUMBER && Pack(Unpack(b).value) == b
  {
    var n := Unpack(b).value;
    assert n / 0x100 == (b[0] as int * 0x100 + b[1]) * 0x100 + b[2];
    assert n / 0x1_0000 == b[0] as int * 0x100 + b[1] by {
      assert n / 0x1_0000 == n / 0x100 / 0x100;
    }
    assert n / 0x100_0000 == b[0] by {
      assert n / 0x100_0000 == n / 0x1_0000 / 0x100;
    }
  }

  /** A slice as Python takes it: cut off where the bytes end. */
  function Slice(b: Bytes, from: nat, to: nat): (r: Bytes)
    requires from <= to
    ensures |r| <= to - from
  {
    if to <= |b| then b[from..to] else if from <= |b| then b[from..] else []
  }

  /** b[:n] */
  function Taken(b: Bytes, n: nat): (r: Bytes)
    ensures |r| <= |b|
  {
    if n <= |b| then b[..n] else b
  }

  /** b[n:] */
  function Left(b: Bytes, n: nat): (r: Bytes)
    ensures n > 0 && b != [] ==> |r| < |b|
    ensures Taken(b, n) + r == b
  {
    if n <= |b| then b[n..] else []
  }

  lemma TakenFrom(a: Bytes, b: Bytes)
    ensures Taken(a + b, |a|) == a && Left(a + b, |a|) == b
  {
  }

  // ----- names

  const NUL := 0 as char

  /** text[:16].ljust(16, '\x00') */
  function Field(text: string): (r: string)
    ensures |r| == LEN_IP
  {
    if |text| >= LEN_IP then text[..LEN_IP] else text + Nuls(LEN_IP - |text|)
  }

  function StripLeft(text: string): (r: string) {
    if text != "" && text[0] == NUL then StripLeft(text[1..]) else text
  }

  function StripRight(text: string): (r: string) {
    if text != "" && text[|text| - 1] == NUL then StripRight(text[..|text| - 1]) else text
  }

  /** text.strip('\x00') */
  function Strip(text: string): string {
    StripRight(StripLeft(text))
  }

  /** The names whose bytes fit the field and that do not begin or end with what strip takes away. */
  predicate Arrives(text: string) {
    |Encode(text)| <= LEN_IP && (text != "" ==> text[0] != NUL && text[|text| - 1] != NUL)
  }

  function Zeros(n: nat): (b: Bytes)
    ensures |b| == n
  {
    seq(n, _ => 0)
  }

  function Nuls(n: nat): (t: string)
    ensures |t| == n
  {
    seq(n, _ => NUL)
  }

  /** The name as it is read from the front of what was sent. */
  function ReadName(b: Bytes): (r: Result<string>) {
    var text := Decode(Taken(b, LEN_IP));
    if text.Err? then text else Ok(Strip(text.value))
  }

  lemma {:induction false} StripLeftShort(text: string)
    ensures |StripLeft(text)| <= |text|
    ensures StripLeft(text) != "" ==> StripLeft(text)[0] != NUL
    ensures StripLeft(text) != "" ==> StripLeft(text)[|StripLeft(text)| - 1] == text[|text| - 1]
  {
    if text != "" && text[0] == NUL {
      StripLeftShort(text[1..]);
    }
  }

  lemma {:induction false} StripRightShort(text: string)
    ensures |StripRight(text)| <= |text|
    ensures StripRight(text) != "" ==> StripRight(text)[|StripRight(text)| - 1] != NUL
    ensures StripRight(text) != "" ==> StripRight(text)[0] == text[0]
  {
    if text != "" && text[|text| - 1] == NUL {
      StripRightShort(text[..|text| - 1]);
    }
  }

  lemma {:induction false} StripRightPadding(text: string, n: nat)
    ensures StripRight(text + Nuls(n)) == StripRight(text)
  {
    var padded := text + Nuls(n);
    if n == 0 {
      assert padded == text;
    } else {
      assert padded[..|padded| - 1] == text + Nuls(n - 1);
      StripRightPadding(text, n - 1);
    }
  }

  lemma {:induction false} StripAllNul(n: nat)
    ensures StripLeft(Nuls(n)) == ""
  {
    if n > 0 {
      assert Nuls(n)[1..] == Nuls(n - 1);
      StripAllNul(n - 1);
    }
  }

  lemma StripPadded(text: string, n: nat)
    requires text != "" ==> text[0] != NUL && text[|text| - 1] != NUL
    ensures Strip(text + Nuls(n)) == text
  {
    if text == "" {
      StripAllNul(n);
      assert text + Nuls(n) == Nuls(n);
    } else {
      StripRightPadding(text, n);
    }
  }

  lemma {:induction false} StripLeftBytes(text: string)
    ensures |Encode(StripLeft(text))| <= |Encode(text)|
  {
    if text != "" && text[0] == NUL {
      StripLeftBytes(text[1..]);
    }
  }

  lemma {:induction false} StripRightBytes(text: string)
    ensures |Encode(StripRight(text))| <= |Encode(text)|
  {
    if text != "" && text[|text| - 1] == NUL {
      var init := text[..|text| - 1];
      StripRightBytes(init);
      EncodeJoined(init, [NUL]);
      assert text == init + [NUL];
    }
  }

  lemma {:induction false} EncodeNuls(n: nat)
    ensures Encode(Nuls(n)) == Zeros(n)
  {
    if n > 0 {
      assert Nuls(n)[1..] == Nuls(n - 1);
      EncodeNuls(n - 1);
      assert EncodeChar(NUL) == [0];
      assert [0] + Zeros(n - 1) == Zeros(n);
    }
  }

  /** What strip leaves has no more bytes than there were, and no NUL at either end. */
  lemma StrippedArrives(text: string)
    requires |Encode(text)| <= LEN_IP
    ensures Arrives(Strip(text))
  {
    StripLeftShort(text);
    StripRightShort(StripLeft(text));
    StripLeftBytes(text);
    StripRightBytes(StripLeft(text));
  }

  lemma ZerosCut(b: Bytes, i: nat, j: nat)
    ensures Taken(b + Zeros(i + j), |b| + i) == b + Zeros(i) && Left(b + Zeros(i + j), |b| + i) == Zeros(j)
  {
    assert b + Zeros(i + j) == (b + Zeros(i)) + Zeros(j);
    TakenFrom(b + Zeros(i), Zeros(j));
  }

  lemma EncodeField(text: string)
    requires |text| <= LEN_IP
    ensures Encode(Field(text)) == Encode(text) + Zeros(LEN_IP - |text|)
  {
    hide Encode, Field, Zeros, Nuls;
    EncodeNuls(LEN_IP - |text|);
    EncodeJoined(text, Nuls(LEN_IP - |text|));
    FieldPadded(text);
  }

  lemma FieldPadded(text: string)
    requires |text| <= LEN_IP
    ensures Field(text) == text + Nuls(LEN_IP - |text|)
  {
  }

  /** The bytes of a name that arrives, and the zeros that fill the field and may exceed it. */
  lemma FieldBytes(text: string)
    requires Arrives(text)
    ensures |text| <= |Encode(text)| <= LEN_IP
    ensures Taken(Encode(Field(text)), LEN_IP) == Encode(text) + Zeros(LEN_IP - |Encode(text)|)
    ensures Left(Encode(Field(text)), LEN_IP) == Zeros(|Encode(text)| - |text|)
  {
    EncodedLength(text);
    hide Encode, Field, Zeros, Taken, Left;
    EncodeField(text);
    ZerosCut(Encode(text), LEN_IP - |Encode(text)|, |Encode(text)| - |text|);
  }

  /** A peer reads the very name that was put in exactly when that arrives. */
  lemma FieldExact(text: string)
    ensures ReadName(Encode(Field(text))) == Ok(text) <==> Arrives(text)
  {
    var read := Taken(Encode(Field(text)), LEN_IP);
    if Arrives(text) {
      FieldBytes(text);
      var n := LEN_IP - |Encode(text)|;
      EncodeNuls(n);
      EncodeJoined(text, Nuls(n));
      DecodeEncode(text + Nuls(n));
      StripPadded(text, n);
      hide Encode, Decode, Strip, Field, Arrives;
      assert read == Encode(text + Nuls(n));
    }
    if ReadName(Encode(Field(text))) == Ok(text) {
      EncodeDecode(read);
      StrippedArrives(Decode(read).value);
    }
  }

  /** Names of which nothing is lost and nothing exceeds the field. */
  predicate Fitting(text: string) {
    IsAscii(text) && |text| <= LEN_IP && (text != "" ==> text[0] != NUL && text[|text| - 1] != NUL)
  }

  lemma FittingExact(text: string)
    ensures Fitting(text) <==> Arrives(text) && IsAscii(text)
  {
    EncodedLength(text);
  }

  lemma FieldLength(text: string)
    ensures |Encode(Field(text))| >= LEN_IP
    ensures |Encode(Field(text))| == LEN_IP <==> IsAscii(Field(text))
    ensures IsAscii(text) ==> IsAscii(Field(text))
    ensures Arrives(text) ==> (IsAscii(Field(text)) <==> IsAscii(text))
  {
    EncodedLength(Field(text));
    EncodedLength(text);
    hide Encode;
    assert Field(text)[..if |text| < LEN_IP then |text| else LEN_IP] == text[..if |text| < LEN_IP then |text| else LEN_IP];
    assert |text| <= LEN_IP ==> forall i :: 0 <= i < |text| ==> Field(text)[i] == text[i];
  }

  // ----- what follows the field

  /** Bytes that are read from where zeros precede them are unchanged only if there are no zeros or they are zeros. */
  lemma ShiftedZeros(p: Bytes, n: nat, s: Bytes)
    requires s == Zeros(n) + p
    ensures s[..|p|] == p <==> n == 0 || p == Zeros(|p|)
  {
    if s[..|p|] == p && n > 0 {
      AllZero(p, n, |p|);
    }
    if n == 0 {
      assert s == p;
    }
    if p == Zeros(|p|) {
      assert s == Zeros(n + |p|);
    }
  }

  lemma {:induction false} AllZero(p: Bytes, n: nat, k: nat)
    requires n > 0 && (Zeros(n) + p)[..|p|] == p && k <= |p|
    ensures forall i :: 0 <= i < k ==> p[i] == 0
  {
    if k > 0 {
      AllZero(p, n, k - 1);
      assert p[k - 1] == (Zeros(n) + p)[k - 1];
    }
  }

  lemma PackZero(n: nat)
    requires n < MAX_NUMBER
    ensures Pack(n) == Zeros(4) <==> n == 0
  {
    UnpackPack(n);
    UnpackPack(0);
    assert Pack(0) == Zeros(4);
  }

  lemma UnpackIs(b: Bytes, n: nat)
    requires n < MAX_NUMBER
    ensures Unpack(b) == Ok(n) <==> b == Pack(n)
  {
    UnpackPack(n);
    if |b| == 4 {
      PackUnpack(b);
    }
  }

  // ----- requests

  datatype Request = Request(ip: string, port: nat, code: nat, length: nat, payload: Bytes)

  /** What the sender puts behind the name. */
  function Behind(port: nat, code: nat, request: Bytes): (b: Bytes)
    requires port < MAX_NUMBER && code < MAX_NUMBER && |request| < MAX_NUMBER
    ensures |b| == 12 + |request|
  {
    Pack(port) + Pack(code) + Pack(|request|) + request
  }

  function AssembleMessage(ip: string, port: nat, code: nat, request: Bytes): (r: Result<Bytes>) {
    if port >= MAX_NUMBER || code >= MAX_NUMBER || |request| >= MAX_NUMBER then Err(StructError)
    else Ok(Encode(Field(ip)) + Behind(port, code, request))
  }

  function ParseMessage(m: Bytes): (r: Result<Request>) {
    var port := Unpack(Slice(m, 16, 20));
    var code := Unpack(Slice(m, 20, 24));
    var length := Unpack(Slice(m, 24, 28));
    if port.Err? || code.Err? || length.Err? then Err(StructError)
    else
      var ip := ReadName(m);
      if ip.Err? then Err(ip.error)
      else Ok(Request(ip.value, port.value, code.value, length.value, Slice(m, 28, 28 + length.value)))
  }

  /** The receiver finds the numbers in the sixteenth byte and after; n bytes of the name come first. */
  lemma NumbersRead(m: Bytes, field: Bytes, n: nat, port: nat, code: nat, request: Bytes)
    requires port < MAX_NUMBER && code < MAX_NUMBER && |request| < MAX_NUMBER
    requires |field| == LEN_IP && m == field + (Zeros(n) + Behind(port, code, request))
    ensures Unpack(Slice(m, 16, 20)).Ok? && Unpack(Slice(m, 20, 24)).Ok? && Unpack(Slice(m, 24, 28)).Ok?
    ensures Unpack(Slice(m, 16, 20)) == Ok(port) && Unpack(Slice(m, 20, 24)) == Ok(code)
            <==> n == 0 || (port == 0 && code == 0)
  {
    hide Pack;
    var both := Pack(port) + Pack(code);
    var s := Zeros(n) + both;
    UnpackIs(Slice(m, 16, 20), port);
    UnpackIs(Slice(m, 20, 24), code);
    PackZero(port);
    PackZero(code);
    ShiftedZeros(both, n, s);
    hide Unpack, Slice;
    NumbersGrouped(n, port, code, request);
    TwoNumbers(m, field, s + (Pack(|request|) + request));
    TakenFront(s, Pack(|request|) + request, 8);
    Halves(s[..8], Pack(port), Pack(code));
    Halves(Zeros(8), Pack(port), Pack(code));
    ZeroHalves();
  }

  lemma NumbersGrouped(n: nat, port: nat, code: nat, request: Bytes)
    requires port < MAX_NUMBER && code < MAX_NUMBER && |request| < MAX_NUMBER
    ensures Zeros(n) + Behind(port, code, request) == Zeros(n) + (Pack(port) + Pack(code)) + (Pack(|request|) + request)
  {
    hide Pack, Zeros;
    Regrouped(Pack(port) + Pack(code), Pack(|request|), request);
    Regrouped(Zeros(n), Pack(port) + Pack(code), Pack(|request|) + request);
  }

  lemma TakenFront(a: Bytes, b: Bytes, n: nat)
    requires n <= |a|
    ensures (a + b)[..n] == a[..n]
  {
  }

  lemma Halves(b: Bytes, x: Bytes, y: Bytes)
    requires |b| == 8 && |x| == 4 && |y| == 4
    ensures x + y == b <==> x == b[..4] && y == b[4..8]
  {
    if x + y == b {
      assert (x + y)[..4] == x && (x + y)[4..8] == y;
    }
    if x == b[..4] && y == b[4..8] {
      assert b == b[..4] + b[4..8];
    }
  }

  lemma ZeroHalves()
    ensures Zeros(8)[..4] == Zeros(4) && Zeros(8)[4..8] == Zeros(4)
  {
  }

  lemma TwoNumbers(m: Bytes, field: Bytes, rest: Bytes)
    requires |field| == LEN_IP && |rest| >= 12 && m == field + rest
    ensures Slice(m, 16, 20) == rest[..8][..4] && Slice(m, 20, 24) == rest[..8][4..8] && |Slice(m, 24, 28)| == 4
  {
  }

  lemma Regrouped(a: Bytes, b: Bytes, c: Bytes)
    ensures (a + b) + c == a + (b + c)
  {
  }

  lemma ReadNameFront(field: Bytes, rest: Bytes)
    requires |field| >= LEN_IP
    ensures ReadName(field + rest) == ReadName(field)
  {
    assert Taken(field + rest, LEN_IP) == Taken(field, LEN_IP);
  }

  lemma HeaderTaken(m: Bytes)
    ensures var read := Taken(m, MSG_MAX);
            && ReadName(read) == ReadName(m) && Slice(read, 16, 20) == Slice(m, 16, 20)
            && Slice(read, 20, 24) == Slice(m, 20, 24) && Slice(read, 24, 28) == Slice(m, 24, 28)
  {
    assert Taken(Taken(m, MSG_MAX), LEN_IP) == Taken(m, LEN_IP);
  }

  /**
   Name, port and code arrive exactly when the name does and is ASCII; else the bytes of the name push the
   numbers back, which only zeros survive.
  */
  lemma MessageArrives(ip: string, port: nat, code: nat, request: Bytes)
    requires AssembleMessage(ip, port, code, request).Ok?
    ensures var r := ParseMessage(Taken(AssembleMessage(ip, port, code, request).value, MSG_MAX));
            (r.Ok? && r.value.ip == ip && r.value.port == port && r.value.code == code)
            <==> Arrives(ip) && (IsAscii(ip) || (port == 0 && code == 0))
  {
    hide Encode, Field, Arrives, Behind, ReadName, Unpack, Pack, Slice, IsAscii, Taken, Left, Zeros;
    var m := AssembleMessage(ip, port, code, request).value;
    var field := Encode(Field(ip));
    HeaderTaken(m);
    FieldExact(ip);
    FieldLength(ip);
    ReadNameFront(field, Behind(port, code, request));
    if Arrives(ip) {
      FieldBytes(ip);
      EncodedLength(ip);
      var n := |Encode(ip)| - |ip|;
      Regrouped(Taken(field, LEN_IP), Zeros(n), Behind(port, code, request));
      NumbersRead(m, Taken(field, LEN_IP), n, port, code, request);
    }
  }

  /**
   Of a message with an ASCII name read with one recv everything else arrives; the check of the length fails
   exactly when the message was too long to be read at once.
  */
  lemma MessageRoundTrip(ip: string, port: nat, code: nat, request: Bytes)
    requires IsAscii(ip) && AssembleMessage(ip, port, code, request).Ok?
    ensures var r := ParseMessage(Taken(AssembleMessage(ip, port, code, request).value, MSG_MAX));
            && r.Ok? && r.value.port == port && r.value.code == code && r.value.length == |request|
            && (r.value.ip == ip <==> Arrives(ip))
            && (|r.value.payload| == r.value.length <==> |request| <= MSG_MAX - LEN_REQUEST_HEADER)
            && (|r.value.payload| == r.value.length ==> r.value.payload == request)
  {
    var m := AssembleMessage(ip, port, code, request).value;
    var field := Encode(Field(ip));
    HeaderTaken(m);
    FieldExact(ip);
    FieldLength(ip);
    DecodeEncode(Field(ip));
    ReadNameFront(field, Behind(port, code, request));
    UnpackPack(port);
    UnpackPack(code);
    UnpackPack(|request|);
    assert ReadName(field).Ok?;
    hide Encode, Field, Arrives, ReadName, Unpack, Pack, IsAscii;
    HeaderSlices(m, field, port, code, request);
    PayloadRead(m, field, port, code, request);
  }

  lemma HeaderSlices(m: Bytes, field: Bytes, port: nat, code: nat, request: Bytes)
    requires port < MAX_NUMBER && code < MAX_NUMBER && |request| < MAX_NUMBER
    requires |field| == LEN_IP && m == field + Behind(port, code, request)
    ensures Slice(m, 16, 20) == Pack(port) && Slice(m, 20, 24) == Pack(code) && Slice(m, 24, 28) == Pack(|request|)
  {
    hide Pack;
  }

  lemma PayloadRead(m: Bytes, field: Bytes, port: nat, code: nat, request: Bytes)
    requires port < MAX_NUMBER && code < MAX_NUMBER && |request| < MAX_NUMBER
    requires |field| == LEN_IP && m == field + Behind(port, code, request)
    ensures var payload := Slice(Taken(m, MSG_MAX), 28, 28 + |request|);
            && (|payload| == |request| <==> |request| <= MSG_MAX - LEN_REQUEST_HEADER)
            && (|payload| == |request| ==> payload == request)
  {
    hide Pack;
    assert m[28..] == request;
    if |m| <= MSG_MAX {
      assert Slice(m, 28, 28 + |request|) == request;
    }
  }

  // ----- lists of peers

  function EncodePeer(a: Address): (b: Bytes)
    requires a.port < MAX_NUMBER
  {
    Encode(Field(a.ip)) + Pack(a.port)
  }

  ghost predicate Encodable(list: seq<Address>) {
    forall a :: a in list ==> a.port < MAX_NUMBER
  }

  function EncodePeers(list: seq<Address>): (b: Bytes)
    requires Encodable(list)
  {
    if list == [] then [] else EncodePeer(list[0]) + EncodePeers(list[1..])
  }

  function DecodePeer(b: Bytes): Result<Address> {
    var ip := ReadName(b);
    var port := Unpack(Slice(b, LEN_IP, LEN_PEER));
    if ip.Err? then Err(ip.error) else if port.Err? then Err(port.error) else Ok(Address(ip.value, port.value))
  }

  /** The loop over a reply to a registration, as far as it goes before it raises. */
  function DecodePeers(b: Bytes): (r: (seq<Address>, bool))
    decreases |b|
  {
    if b == [] then ([], true)
    else
      var first := DecodePeer(Taken(b, LEN_PEER));
      if first.Err? then ([], false)
      else
        var rest := DecodePeers(Left(b, LEN_PEER));
        ([first.value] + rest.0, rest.1)
  }

  lemma PortSlice(b: Bytes, field: Bytes, s: Bytes)
    requires |field| == LEN_IP && |s| >= 4 && b == field + s
    ensures Slice(b, LEN_IP, LEN_PEER) == s[..4]
  {
  }

  /** One peer is read as it was sent exactly when its name arrives and is ASCII, or its port is zero. */
  lemma PeerExact(a: Address)
    requires a.port < MAX_NUMBER
    ensures DecodePeer(EncodePeer(a)) == Ok(a) <==> Arrives(a.ip) && (IsAscii(a.ip) || a.port == 0)
  {
    hide Encode, Field, Arrives, ReadName, Unpack, Pack, IsAscii, Taken, Left, Zeros;
    var b, field := EncodePeer(a), Encode(Field(a.ip));
    FieldExact(a.ip);
    FieldLength(a.ip);
    ReadNameFront(field, Pack(a.port));
    if Arrives(a.ip) {
      FieldBytes(a.ip);
      EncodedLength(a.ip);
      var n := |Encode(a.ip)| - |a.ip|;
      var s := Zeros(n) + Pack(a.port);
      Regrouped(Taken(field, LEN_IP), Zeros(n), Pack(a.port));
      PortSlice(b, Taken(field, LEN_IP), s);
      UnpackIs(s[..4], a.port);
      PackZero(a.port);
      ShiftedZeros(Pack(a.port), n, s);
    }
  }

  /** A name of one character that takes two bytes arrives, but the port behind it does not. */
  lemma PortPushedBack()
    ensures var a := Address("\U{00e9}", 8000);
            Arrives(a.ip) && DecodePeer(EncodePeer(a)) != Ok(a)
  {
    var a := Address("\U{00e9}", 8000);
    assert !IsAscii(a.ip) && |Encode(a.ip)| == 2 by {
      assert a.ip[0] as int == 0xe9 && a.ip[1..] == [];
    }
    PeerExact(a);
    hide DecodePeer, EncodePeer;
  }

  /** Entries are read as twenty bytes each, and nothing less. */
  lemma {:induction false} DecodedLength(b: Bytes)
    ensures DecodePeers(b).1 ==> |b| == LEN_PEER * |DecodePeers(b).0|
    decreases |b|
  {
    if b != [] {
      hide ReadName;
      DecodedLength(Left(b, LEN_PEER));
    }
  }

  lemma {:induction false} EncodedPeersLength(list: seq<Address>)
    requires Encodable(list)
    ensures |EncodePeers(list)| >= LEN_PEER * |list|
    ensures |EncodePeers(list)| == LEN_PEER * |list| <==> forall a :: a in list ==> IsAscii(Field(a.ip))
  {
    if list != [] {
      FieldLength(list[0].ip);
      EncodedPeersLength(list[1..]);
      hide Encode, Field, IsAscii;
      assert list == [list[0]] + list[1..];
      assert forall a :: a in list <==> a == list[0] || a in list[1..];
    }
  }

  lemma DecodeStep(b: Bytes, rest: Bytes)
    requires |b| == LEN_PEER && DecodePeer(b).Ok?
    ensures DecodePeers(b + rest) == ([DecodePeer(b).value] + DecodePeers(rest).0, DecodePeers(rest).1)
  {
    TakenFrom(b, rest);
    hide DecodePeer, Taken, Left;
  }

  lemma ConsSame<T>(a: T, s: seq<T>, list: seq<T>)
    requires list != []
    ensures [a] + s == list <==> a == list[0] && s == list[1..]
  {
    assert ([a] + s)[0] == a && ([a] + s)[1..] == s;
    assert list == [list[0]] + list[1..];
  }

  lemma {:induction false} PeersDecoded(list: seq<Address>)
    requires Encodable(list) && forall a :: a in list ==> IsAscii(Field(a.ip))
    ensures DecodePeers(EncodePeers(list)) == (list, true) <==> forall a :: a in list ==> Arrives(a.ip)
  {
    hide Encode, Field, IsAscii, DecodePeer, Arrives, Taken, Left;
    if list != [] {
      var first, rest := EncodePeer(list[0]), EncodePeers(list[1..]);
      FieldLength(list[0].ip);
      PeerNeverFails(list[0]);
      PeerArrives(list[0]);
      PeersDecoded(list[1..]);
      DecodeStep(first, rest);
      hide EncodePeer, DecodePeers;
      ConsSame(DecodePeer(first).value, DecodePeers(rest).0, list);
      assert forall a :: a in list <==> a == list[0] || a in list[1..];
    }
  }

  lemma PeerArrives(a: Address)
    requires a.port < MAX_NUMBER && IsAscii(Field(a.ip))
    ensures DecodePeer(EncodePeer(a)) == Ok(a) <==> Arrives(a.ip)
  {
    PeerExact(a);
    FieldLength(a.ip);
  }

  lemma PeerNeverFails(a: Address)
    requires a.port < MAX_NUMBER && IsAscii(Field(a.ip))
    ensures DecodePeer(EncodePeer(a)).Ok?
  {
    FieldLength(a.ip);
    DecodeEncode(Field(a.ip));
    UnpackPack(a.port);
    ReadNameFront(Encode(Field(a.ip)), Pack(a.port));
    hide Encode, Field, Pack, Unpack, Decode;
    assert Slice(EncodePeer(a), LEN_IP, LEN_PEER) == Pack(a.port);
  }

  /** A newcomer reads the list it was sent exactly when every name in it arrives and is ASCII. */
  lemma PeersRoundTrip(list: seq<Address>)
    requires Encodable(list)
    ensures DecodePeers(EncodePeers(list)) == (list, true)
            <==> forall a :: a in list ==> Arrives(a.ip) && IsAscii(a.ip)
  {
    DecodedLength(EncodePeers(list));
    EncodedPeersLength(list);
    forall a | a in list
      ensures IsAscii(a.ip) ==> IsAscii(Field(a.ip))
      ensures Arrives(a.ip) ==> (IsAscii(Field(a.ip)) <==> IsAscii(a.ip))
    {
      FieldLength(a.ip);
    }
    hide EncodePeers, DecodePeers, Arrives, Field, IsAscii;
    if forall a :: a in list ==> IsAscii(Field(a.ip)) {
      PeersDecoded(list);
    }
  }
}
