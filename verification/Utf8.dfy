/** Text as UTF-8 bytes: what bytes(text, 'utf-8') and decode('utf-8') do. */
module Utf8 {

  type Byte = x: int | 0 <= x < 256
  type Bytes = seq<Byte>

  datatype Error = StructError | DecodeError
  datatype Result<T> = Ok(value: T) | Err(error: Error)

  predicate IsAscii(text: string) {
    forall i :: 0 <= i < |text| ==> text[i] as int < 0x80
  }

  /** One to four bytes for one character. */
  function EncodeChar(c: char): (b: Bytes)
    ensures 1 <= |b| <= 4 && (|b| == 1 <==> c as int < 0x80)
  {
    var n := c as int;
    if n < 0x80 then [n]
    else if n < 0x800 then [0xC0 + n / 0x40, 0x80 + n % 0x40]
    else if n < 0x1_0000 then [0xE0 + n / 0x1000, 0x80 + n / 0x40 % 0x40, 0x80 + n % 0x40]
    else [0xF0 + n / 0x4_0000, 0x80 + n / 0x1000 % 0x40, 0x80 + n / 0x40 % 0x40, 0x80 + n % 0x40]
  }

  function Encode(text: string): (b: Bytes) {
    if text == "" then [] else EncodeChar(text[0]) + Encode(text[1..])
  }

  /** How many bytes a first byte announces; 0 for one that cannot be first. */
  function Announced(b: Byte): nat {
    if b < 0x80 then 1 else if b < 0xC0 then 0 else if b < 0xE0 then 2 else if b < 0xF0 then 3 else if b < 0xF8 then 4 else 0
  }

  function CodePoint(b: Bytes): int
    requires 1 <= |b| <= 4
  {
    if |b| == 1 then b[0]
    else if |b| == 2 then (b[0] as int - 0xC0) * 0x40 + (b[1] as int - 0x80)
    else if |b| == 3 then ((b[0] as int - 0xE0) * 0x40 + (b[1] as int - 0x80)) * 0x40 + (b[2] as int - 0x80)
    else (((b[0] as int - 0xF0) * 0x40 + (b[1] as int - 0x80)) * 0x40 + (b[2] as int - 0x80)) * 0x40 + (b[3] as int - 0x80)
  }

  predicate IsChar(n: int) {
    0 <= n < 0xD800 || 0xE000 <= n < 0x11_0000
  }

  datatype First = None | First(c: char)

  /** The first character; the bytes must be the ones that encode it, so no longer form is accepted. */
  function DecodeFirst(b: Bytes): (r: First)
    requires b != []
    ensures r.First? ==> EncodeChar(r.c) <= b
  {
    var n := Announced(b[0]);
    if n == 0 || |b| < n || !IsChar(CodePoint(b[..n])) then None
    else
      var c := CodePoint(b[..n]) as char;
      if EncodeChar(c) == b[..n] then First(c) else None
  }

  function Decode(b: Bytes): (r: Result<string>) {
    if b == [] then Ok("")
    else
      var first := DecodeFirst(b);
      if first.None? then Err(DecodeError)
      else
        var rest := Decode(b[|EncodeChar(first.c)|..]);
        if rest.Err? then rest else Ok([first.c] + rest.value)
  }

  lemma CharIsChar(c: char)
    ensures IsChar(c as int)
  {
  }

  lemma TwoBytes(n: int)
    requires 0x80 <= n < 0x800
    ensures (n / 0x40) * 0x40 + n % 0x40 == n && 2 <= n / 0x40 < 0x20
  {
  }

  lemma ThreeBytes(n: int)
    requires 0x800 <= n < 0x1_0000
    ensures ((n / 0x1000) * 0x40 + n / 0x40 % 0x40) * 0x40 + n % 0x40 == n && 0 <= n / 0x1000 < 0x10
  {
    assert n / 0x40 / 0x40 == n / 0x1000;
  }

  lemma FourBytes(n: int)
    requires 0x1_0000 <= n < 0x11_0000
    ensures (((n / 0x4_0000) * 0x40 + n / 0x1000 % 0x40) * 0x40 + n / 0x40 % 0x40) * 0x40 + n % 0x40 == n
    ensures 0 <= n / 0x4_0000 < 8
  {
    assert n / 0x40 / 0x40 == n / 0x1000 && n / 0x1000 / 0x40 == n / 0x4_0000;
  }

  lemma CodePointEncoded(c: char)
    ensures CodePoint(EncodeChar(c)) == c as int && Announced(EncodeChar(c)[0]) == |EncodeChar(c)|
  {
    var n := c as int;
    CharIsChar(c);
    if n < 0x80 {
    } else if n < 0x800 {
      TwoBytes(n);
    } else if n < 0x1_0000 {
      ThreeBytes(n);
    } else {
      FourBytes(n);
    }
  }

  lemma DecodeFirstEncoded(c: char, rest: Bytes)
    ensures DecodeFirst(EncodeChar(c) + rest) == First(c)
  {
    CodePointEncoded(c);
    CharIsChar(c);
    hide EncodeChar, CodePoint, Announced;
    var b := EncodeChar(c) + rest;
    assert b[0] == EncodeChar(c)[0] && b[..|EncodeChar(c)|] == EncodeChar(c);
  }

  /** Every text is read back. */
  lemma {:induction false} DecodeEncode(text: string)
    ensures Decode(Encode(text)) == Ok(text)
  {
    if text != "" {
      var rest := Encode(text[1..]);
      DecodeFirstEncoded(text[0], rest);
      DecodeEncode(text[1..]);
      hide EncodeChar, DecodeFirst;
      assert (EncodeChar(text[0]) + rest)[|EncodeChar(text[0])|..] == rest;
      assert [text[0]] + text[1..] == text;
    }
  }

  lemma EncodeFirst(c: char, text: string)
    ensures Encode([c] + text) == EncodeChar(c) + Encode(text)
  {
    hide EncodeChar;
    assert ([c] + text)[1..] == text;
  }

  lemma DecodeStep(b: Bytes) returns (c: char, text: string, rest: Bytes)
    requires b != [] && Decode(b).Ok?
    ensures b == EncodeChar(c) + rest && Decode(rest) == Ok(text) && Decode(b) == Ok([c] + text)
  {
    hide EncodeChar, DecodeFirst;
    c := DecodeFirst(b).c;
    rest := b[|EncodeChar(c)|..];
    text := Decode(rest).value;
  }

  /** Bytes that can be read are the bytes of the text that was read. */
  lemma {:induction false} EncodeDecode(b: Bytes)
    ensures Decode(b).Ok? ==> Encode(Decode(b).value) == b
    decreases |b|
  {
    if b == [] {
      assert Encode("") == [];
    } else if Decode(b).Ok? {
      hide Decode, Encode, EncodeChar;
      var c, text, rest := DecodeStep(b);
      EncodeDecode(rest);
      EncodeFirst(c, text);
    }
  }

  lemma {:induction false} EncodeJoined(a: string, b: string)
    ensures Encode(a + b) == Encode(a) + Encode(b)
  {
    hide EncodeChar;
    if a == "" {
      assert a + b == b;
    } else {
      EncodeJoined(a[1..], b);
      assert (a + b)[0] == a[0] && (a + b)[1..] == a[1..] + b;
    }
  }

  /** A text has at least one byte for each character, and exactly one only if it is ASCII. */
  lemma {:induction false} EncodedLength(text: string)
    ensures |Encode(text)| >= |text|
    ensures |Encode(text)| == |text| <==> IsAscii(text)
  {
    if text != "" {
      EncodedLength(text[1..]);
      assert text == [text[0]] + text[1..];
      assert IsAscii(text) <==> text[0] as int < 0x80 && IsAscii(text[1..]) by {
        assert forall i :: 0 <= i < |text[1..]| ==> text[1..][i] == text[i + 1];
      }
    }
  }

  /** Characters of one to four bytes, from section 7 of RFC 3629. */
  lemma Examples()
    ensures EncodeChar('A') == [0x41] && EncodeChar('\U{0391}') == [0xCE, 0x91]
    ensures EncodeChar('\U{2262}') == [0xE2, 0x89, 0xA2] && EncodeChar('\U{D55C}') == [0xED, 0x95, 0x9C]
    ensures EncodeChar('\U{233B4}') == [0xF0, 0xA3, 0x8E, 0xB4]
  {
  }
}
