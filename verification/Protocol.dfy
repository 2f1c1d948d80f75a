/** Frames on the wire (src/excom/protocol.c, src/excom/encryption.c). */
module Protocol {
  import opened Bytes
  import opened Pack
  import opened Packets

  const HEADER := 8

  /** The box cipher under the key that both ends hold, with its sizes. */
  datatype Crypto = Crypto(
    nonceBytes: nat,
    zeroBytes: nat,
    box: (seq<Byte>, seq<Byte>) -> seq<Byte>,
    unbox: (seq<Byte>, seq<Byte>) -> Option<seq<Byte>>)

  function Padded(c: Crypto, plain: seq<Byte>): seq<Byte> {
    Zeros(c.zeroBytes) + plain
  }

  /** Boxing and opening keep the length, and opening a box gives its contents. */
  ghost predicate Lawful(c: Crypto) {
    && (forall nonce: seq<Byte>, plain: seq<Byte> ::
          && |c.box(nonce, Padded(c, plain))| == |Padded(c, plain)|
          && c.unbox(nonce, c.box(nonce, Padded(c, plain))) == Some(Padded(c, plain)))
    && (forall nonce: seq<Byte>, crypt: seq<Byte> ::
          c.unbox(nonce, crypt).Some? ==> |c.unbox(nonce, crypt).value| == |crypt|)
  }

  /** There are lawful ciphers of all sizes. */
  lemma LawfulExists(nonceBytes: nat, zeroBytes: nat)
    ensures Lawful(Crypto(nonceBytes, zeroBytes, (nonce, plain) => plain, (nonce, crypt) => Some(crypt)))
  {
  }

  /** What `excom_pencrypt_buffer` appends: nonce and box, nothing for nothing. */
  function Seal(c: Crypto, nonce: seq<Byte>, plain: seq<Byte>): seq<Byte> {
    if plain == [] then [] else nonce + c.box(nonce, Padded(c, plain))
  }

  /** What `excom_pdecrypt_buffer2` appends. A box that does not open adds
      nothing, and the caller does not look at the error. */
  function Open(c: Crypto, sealedBody: seq<Byte>): seq<Byte>
    requires sealedBody != [] ==> c.nonceBytes <= |sealedBody|
  {
    if sealedBody == [] then []
    else
      var m := c.unbox(sealedBody[..c.nonceBytes], sealedBody[c.nonceBytes..]);
      if m.Some? && c.zeroBytes <= |m.value| then m.value[c.zeroBytes..] else []
  }

  function WireBody(c: Crypto, sealed: bool, nonce: seq<Byte>, body: Body): seq<Byte>
    requires SizedBody(body)
  {
    if sealed then Seal(c, nonce, BodyBytes(body)) else BodyBytes(body)
  }

  /** The length that a body takes in a frame. */
  function WireSize(c: Crypto, sealed: bool, body: Body): nat
    requires SizedBody(body)
  {
    var n := |BodyBytes(body)|;
    if sealed && n > 0 then c.nonceBytes + c.zeroBytes + n else n
  }

  function Header(size: Uint32, id: Uint16, code: Uint16): (h: seq<Byte>)
    ensures |h| == HEADER
  {
    BigEndian32(size) + BigEndian16(id) + BigEndian16(code)
  }

  /** A body that the writer does not refuse. */
  predicate Encodable(body: Body) {
    !body.Invalid? && WellTyped(body) && SizedBody(body)
  }

  /** The length field has 32 bits. */
  function LengthField(size: nat): Uint32 {
    size % WORD
  }

  function Wire(c: Crypto, sealed: bool, nonce: seq<Byte>, id: Uint16, body: Body): seq<Byte>
    requires Encodable(body)
  {
    Header(LengthField(WireSize(c, sealed, body)), id, Code(body)) + WireBody(c, sealed, nonce, body)
  }

  /** A body whose frame length fits the 32-bit sum of the framing test, which
      adds the header to the length field. */
  predicate Writable(c: Crypto, sealed: bool, body: Body) {
    Encodable(body) && HEADER + WireSize(c, sealed, body) < WORD
  }

  // ------------------------------------------------------------------
  // Reading
  // ------------------------------------------------------------------

  /** `next` is where the reader leaves its cursor. `Fault` stands for a read
      outside the bytes that belong to the frame. */
  datatype Reading = Parsed(packet: Packet, next: nat) | Rejected(next: nat) | Fault

  function SizeAt(unread: seq<Byte>): Uint32
    requires |unread| >= 4
  {
    Value32(unread[..4])
  }

  function ReadFrame(c: Crypto, active: bool, unread: seq<Byte>): (r: Reading)
    ensures r.Parsed? ==> HEADER <= r.next
  {
    if |unread| < HEADER then Fault
    else
      var size, id, code := SizeAt(unread), Value16(unread[4..6]), Value16(unread[6..8]);
      if |unread| < HEADER + size || (active && 0 < size < c.nonceBytes) then Fault
      else
        var body := unread[HEADER..HEADER + size];
        var plain := if active then Open(c, body) else body;
        var at := if active && size > 0 then HEADER + c.nonceBytes else HEADER;
        if code == 0 then Rejected(at)
        else
          var fields := ReadFields(Schema(code), plain, 0);
          if fields.None? then Fault
          else Parsed(Packet(size, id, FromFields(code, fields.value.0)), at + fields.value.1)
  }

  // ------------------------------------------------------------------
  // Properties of one frame
  // ------------------------------------------------------------------

  lemma HeaderFields(size: Uint32, id: Uint16, code: Uint16, rest: seq<Byte>)
    ensures var u := Header(size, id, code) + rest;
            && SizeAt(u) == size && Value16(u[4..6]) == id && Value16(u[6..8]) == code
            && u[HEADER..] == rest
  {
    var u := Header(size, id, code) + rest;
    Bytes32(size);
    NetworkOrder16(id, BigEndian16(id));
    NetworkOrder16(code, BigEndian16(code));
    assert u[..4] == BigEndian32(size);
    assert u[4..6] == BigEndian16(id);
    assert u[6..8] == BigEndian16(code);
  }

  lemma SealedBody(c: Crypto, nonce: seq<Byte>, plain: seq<Byte>)
    requires Lawful(c) && |nonce| == c.nonceBytes && plain != []
    ensures |Seal(c, nonce, plain)| == c.nonceBytes + c.zeroBytes + |plain|
    ensures Open(c, Seal(c, nonce, plain)) == plain
  {
    var s := Seal(c, nonce, plain);
    assert s[..c.nonceBytes] == nonce;
    assert s[c.nonceBytes..] == c.box(nonce, Padded(c, plain));
    assert Padded(c, plain)[c.zeroBytes..] == plain;
  }

  /** The measured copy and the sent copy of the body have the same length
      whichever nonces sealed them, and the length field tells it exactly when
      it fits 32 bits. */
  lemma HonestLength(c: Crypto, sealed: bool, measured: seq<Byte>, sent: seq<Byte>, id: Uint16, body: Body)
    requires Lawful(c) && |measured| == |sent| == c.nonceBytes && Encodable(body)
    ensures |WireBody(c, sealed, measured, body)| == |WireBody(c, sealed, sent, body)| == WireSize(c, sealed, body)
    ensures var w := Wire(c, sealed, sent, id, body);
            && |w| == HEADER + WireSize(c, sealed, body)
            && SizeAt(w) == LengthField(WireSize(c, sealed, body))
            && (|w| == HEADER + SizeAt(w) <==> WireSize(c, sealed, body) < WORD)
  {
    hide Lawful, Header, BodyBytes;
    if sealed && BodyBytes(body) != [] {
      SealedBody(c, measured, BodyBytes(body));
      SealedBody(c, sent, BodyBytes(body));
    }
    HeaderFields(LengthField(WireSize(c, sealed, body)), id, Code(body), WireBody(c, sealed, sent, body));
  }

  /** How far short of the frame's end the reader leaves its cursor. */
  function Shortfall(c: Crypto, sealed: bool, body: Body): nat
    requires SizedBody(body)
  {
    if sealed && BodyBytes(body) != [] then c.zeroBytes else 0
  }

  /** A frame read in the mode it was written in gives back its id, type, size
      and fields; the cursor ends `Shortfall` bytes before the frame does. */
  lemma FrameRoundTrip(c: Crypto, sealed: bool, nonce: seq<Byte>, id: Uint16, body: Body, rest: seq<Byte>)
    requires Lawful(c) && |nonce| == c.nonceBytes && Encodable(body) && WireSize(c, sealed, body) < WORD
    ensures var w := Wire(c, sealed, nonce, id, body);
            var packet := Packet(WireSize(c, sealed, body), id, body);
            ReadFrame(c, sealed, w + rest) == Parsed(packet, |w| - Shortfall(c, sealed, body))
  {
    hide Lawful, Header, ReadFields, FromFields, Schema, BodyBytes, Value16, Value32, SizeAt;
    var plain, wb := BodyBytes(body), WireBody(c, sealed, nonce, body);
    var size := WireSize(c, sealed, body);
    HonestLength(c, sealed, nonce, nonce, id, body);
    var u := Wire(c, sealed, nonce, id, body) + rest;
    Assoc(Header(size, id, Code(body)), wb, rest);
    HeaderFields(size, id, Code(body), wb + rest);
    assert u[HEADER..HEADER + size] == wb;
    if sealed && plain != [] {
      SealedBody(c, nonce, plain);
    }
    ReadBody(body, []);
    assert plain + [] == plain;
    FieldsRoundTrip(body);
  }

  /** The cursor ends on the frame's end unless a sealed body was not empty. */
  lemma CursorOnFrameEnd(c: Crypto, sealed: bool, nonce: seq<Byte>, id: Uint16, body: Body, rest: seq<Byte>)
    requires Lawful(c) && |nonce| == c.nonceBytes && c.zeroBytes > 0
    requires Encodable(body) && WireSize(c, sealed, body) < WORD
    ensures var w := Wire(c, sealed, nonce, id, body);
            var r := ReadFrame(c, sealed, w + rest);
            r.Parsed? && (r.next == |w| <==> !sealed || BodyBytes(body) == [])
  {
    FrameRoundTrip(c, sealed, nonce, id, body, rest);
    HonestLength(c, sealed, nonce, nonce, id, body);
  }

  /** Without a body the two modes write, and read, the same bytes. */
  lemma ModeOfEmptyBody(c: Crypto, nonce: seq<Byte>, id: Uint16, body: Body, rest: seq<Byte>)
    requires Encodable(body) && BodyBytes(body) == []
    ensures Wire(c, true, nonce, id, body) == Wire(c, false, nonce, id, body)
    ensures var w := Wire(c, false, nonce, id, body);
            ReadFrame(c, true, w + rest) == ReadFrame(c, false, w + rest)
  {
    var w := Wire(c, false, nonce, id, body);
    HeaderFields(0, id, Code(body), rest);
    assert w == Header(0, id, Code(body));
    assert (w + rest)[HEADER..HEADER] == [];
  }

  /** Whatever the bytes, the cursor stays within what was there to read. */
  lemma NextFits(c: Crypto, active: bool, unread: seq<Byte>)
    requires Lawful(c)
    ensures var r := ReadFrame(c, active, unread);
            && (r.Parsed? ==> HEADER <= r.next <= HEADER + r.packet.size <= |unread|)
            && (r.Rejected? ==> HEADER <= r.next <= |unread|)
  {
    hide Value16, Value32, BigEndian32;
    if |unread| >= HEADER {
      var size := SizeAt(unread);
      if |unread| >= HEADER + size && !(active && 0 < size < c.nonceBytes) {
        var body := unread[HEADER..HEADER + size];
        if active {
          OpenShrinks(c, body);
        }
        ReadWithin(Schema(Value16(unread[6..8])), if active then Open(c, body) else body, 0);
      }
    }
  }

  lemma LowWord(n: Byte)
    ensures BigEndian32(n) == [0, 0, 0, n] && BigEndian16(n) == [0, n]
  {
  }

  lemma PlainWire(c: Crypto, nonce: seq<Byte>, id: Byte, body: Body)
    requires Writable(c, false, body) && |BodyBytes(body)| < 0x100 && Code(body) < 0x100
    ensures Wire(c, false, nonce, id, body) == [0, 0, 0, |BodyBytes(body)|, 0, id, 0, Code(body)] + BodyBytes(body)
  {
    hide BigEndian32, BigEndian16, BodyBytes;
    LowWord(|BodyBytes(body)|);
    LowWord(id);
    LowWord(Code(body));
  }

  lemma StringFrame(s: seq<Byte>)
    requires |s| < 0x100
    ensures FieldBytes(Str(s)) == [0, 0, 0, |s|] + s
  {
    hide BigEndian32;
    LowWord(|s|);
  }

  /** "1.0.0" and "test" */
  const ONE_ZERO_ZERO: seq<Byte> := [0x31, 0x2e, 0x30, 0x2e, 0x30]
  const TEST: seq<Byte> := [0x74, 0x65, 0x73, 0x74]

  lemma OneNumberFrame(c: Crypto, nonce: seq<Byte>, id: Byte, body: Body, n: Byte)
    requires body == Reject(n) || body == Error(n)
    ensures Writable(c, false, body) && Wire(c, false, nonce, id, body) == [0, 0, 0, 1, 0, id, 0, Code(body), n]
  {
    hide Wire;
    OneField(Num(n));
    assert BodyBytes(body) == [n];
    PlainWire(c, nonce, id, body);
  }

  /** The frames that the repository's own tests expect, byte for byte. */
  lemma TestFrames(c: Crypto, nonce: seq<Byte>)
    ensures Writable(c, false, Ok) && Wire(c, false, nonce, 1, Ok) == [0, 0, 0, 0, 0, 1, 0, 1]
    ensures Writable(c, false, Reject(0x40)) && Wire(c, false, nonce, 2, Reject(0x40)) == [0, 0, 0, 1, 0, 2, 0, 2, 0x40]
    ensures Writable(c, false, Error(56)) && Wire(c, false, nonce, 3, Error(56)) == [0, 0, 0, 1, 0, 3, 0, 3, 0x38]
  {
    hide Wire, Writable;
    OneNumberFrame(c, nonce, 2, Reject(0x40), 0x40);
    OneNumberFrame(c, nonce, 3, Error(56), 56);
    OkFrame(c, nonce);
  }

  lemma OkFrame(c: Crypto, nonce: seq<Byte>)
    ensures Writable(c, false, Ok) && Wire(c, false, nonce, 1, Ok) == [0, 0, 0, 0, 0, 1, 0, 1]
  {
    hide Wire;
    PlainWire(c, nonce, 1, Ok);
  }

  /** The types that those tests leave out, with any contents: `ping`, `pong`,
      `public_key` and `command_response`. */
  lemma OtherFrames(c: Crypto, nonce: seq<Byte>, id: Byte, text: seq<Byte>)
    requires |text| < 0xfc
    ensures Encodable(PublicKey(text)) && Encodable(CommandResponse(text))
    ensures Wire(c, false, nonce, id, Ping) == [0, 0, 0, 0, 0, id, 0, 5]
    ensures Wire(c, false, nonce, id, Pong) == [0, 0, 0, 0, 0, id, 0, 6]
    ensures Wire(c, false, nonce, id, PublicKey(text))
         == [0, 0, 0, 4 + |text|, 0, id, 0, 7] + ([0, 0, 0, |text|] + text)
    ensures Wire(c, false, nonce, id, CommandResponse(text))
         == [0, 0, 0, 4 + |text|, 0, id, 0, 0x11] + ([0, 0, 0, |text|] + text)
  {
    hide Wire;
    StringFrame(text);
    OneField(Str(text));
    PlainWire(c, nonce, id, Ping);
    PlainWire(c, nonce, id, Pong);
    hide FieldsBytes;
    PlainWire(c, nonce, id, PublicKey(text));
    PlainWire(c, nonce, id, CommandResponse(text));
    assert [0, 0, 0, 0, 0, id, 0, 5] + [] == [0, 0, 0, 0, 0, id, 0, 5];
    assert [0, 0, 0, 0, 0, id, 0, 6] + [] == [0, 0, 0, 0, 0, id, 0, 6];
  }

  lemma TestVersionFrame(c: Crypto, nonce: seq<Byte>)
    ensures var version := ProtocolVersion(ONE_ZERO_ZERO, 1, 0, 0);
            && SizedBody(version) && Writable(c, false, version)
            && Wire(c, false, nonce, 4, version)
               == [0, 0, 0, 0x0c, 0, 4, 0, 4, 0, 0, 0, 5] + ONE_ZERO_ZERO + [1, 0, 0]
  {
    hide Wire;
    var version, s := ProtocolVersion(ONE_ZERO_ZERO, 1, 0, 0), FieldBytes(Str(ONE_ZERO_ZERO));
    StringFrame(ONE_ZERO_ZERO);
    FourFields(Str(ONE_ZERO_ZERO), Num(1), Num(0), Num(0));
    hide FieldsBytes;
    assert BodyBytes(version) == [0, 0, 0, 5] + ONE_ZERO_ZERO + [1, 0, 0];
    PlainWire(c, nonce, 4, version);
  }

  /** The test still has type 5 for `command`, where the schema says 0x10. */
  lemma TestCommandFrame(c: Crypto, nonce: seq<Byte>)
    ensures var command := Command(TEST);
            && SizedBody(command) && Writable(c, false, command)
            && Wire(c, false, nonce, 5, command) == [0, 0, 0, 8, 0, 5, 0, 0x10, 0, 0, 0, 4] + TEST
  {
    hide Wire;
    StringFrame(TEST);
    OneField(Str(TEST));
    hide FieldsBytes;
    PlainWire(c, nonce, 5, Command(TEST));
  }

  /** The converse of the round trip, on any bytes: a packet that is read has
      the header that stands there, and its fields are the first of the plain
      bytes; the cursor moves past these and no further. */
  lemma ReadsWhatStands(c: Crypto, active: bool, unread: seq<Byte>)
    ensures var r := ReadFrame(c, active, unread);
            r.Parsed? ==>
              var p := r.packet;
              && |unread| >= HEADER + p.size && SizedBody(p.body)
              && unread[..HEADER] == Header(p.size, p.id, Code(p.body)) && !p.body.Invalid?
              && !(active && 0 < p.size < c.nonceBytes)
              && var body := unread[HEADER..HEADER + p.size];
              && var plain := if active then Open(c, body) else body;
              && BodyBytes(p.body) <= plain
              && r.next == HEADER + (if active && p.size > 0 then c.nonceBytes else 0) + |BodyBytes(p.body)|
  {
    hide Open, ReadFields, FromFields, Schema, BodyBytes, BigEndian32, BigEndian16, Value32, Value16;
    var r := ReadFrame(c, active, unread);
    if r.Parsed? {
      var size, code := SizeAt(unread), Value16(unread[6..8]);
      var body := unread[HEADER..HEADER + size];
      BodyBack(code, if active then Open(c, body) else body);
      HeaderBack(unread);
      InvalidCode(r.packet.body);
    }
  }

  lemma HeaderBack(unread: seq<Byte>)
    requires |unread| >= HEADER
    ensures unread[..HEADER] == Header(SizeAt(unread), Value16(unread[4..6]), Value16(unread[6..8]))
  {
    hide BigEndian32, Value32;
    Digits32(unread[..4]);
    Digits16(unread[4..6]);
    Digits16(unread[6..8]);
    hide BigEndian16, Value16;
    assert unread[..HEADER] == unread[..4] + unread[4..6] + unread[6..8];
  }

  lemma Digits16(d: seq<Byte>)
    requires |d| == 2
    ensures BigEndian16(Value16(d)) == d
  {
  }

  lemma InvalidCode(b: Body)
    requires WellTyped(b)
    ensures b.Invalid? <==> Code(b) == 0
  {
  }

  /** A frame of type 0 that is all there is never a packet: the reader refuses
      it and leaves the cursor behind the header, and behind the nonce of a
      sealed body. */
  lemma TypeZeroRefused(c: Crypto, active: bool, unread: seq<Byte>)
    requires |unread| >= HEADER && |unread| >= HEADER + SizeAt(unread)
    requires unread[6] == 0 && unread[7] == 0 && !(active && 0 < SizeAt(unread) < c.nonceBytes)
    ensures ReadFrame(c, active, unread)
         == Rejected(if active && SizeAt(unread) > 0 then HEADER + c.nonceBytes else HEADER)
  {
    hide Open, Value32;
    assert unread[6..8] == [0, 0];
  }

  lemma OpenShrinks(c: Crypto, sealedBody: seq<Byte>)
    requires Lawful(c) && (sealedBody != [] ==> c.nonceBytes <= |sealedBody|)
    ensures |Open(c, sealedBody)| + (if sealedBody == [] then 0 else c.nonceBytes) <= |sealedBody|
  {
  }

  lemma {:induction false} ReadWithin(kinds: seq<FieldKind>, data: seq<Byte>, cur: nat)
    requires cur <= |data|
    ensures var r := ReadFields(kinds, data, cur); r.Some? ==> r.value.1 <= |data|
    decreases |kinds|
  {
    hide Value32;
    if kinds != [] {
      var f := ReadField(kinds[0], data, cur);
      if f.Some? {
        ReadWithin(kinds[1..], data, f.value.1);
      }
    }
  }
}
