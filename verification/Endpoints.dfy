/** The default packet handlers of both ends, as functions of the session's
    fields (src/excom-server/handle_packets.ci, src/excom-client/handle_packets.ci). */
module Endpoints {
  import opened Bytes
  import opened Packets
  import opened Protocol
  import opened Streams

  /** EXCOM_PROTOCOL_STATE_*, as far as any code sets them; the last one is
      called BODY there. */
  datatype Stage = PreHandshake | PreEncrypt | Encrypt | Chat

  function Rank(s: Stage): nat {
    match s
    case PreHandshake => 0
    case PreEncrypt => 1
    case Encrypt => 2
    case Chat => 3
  }

  /** `active` is keys.remote.active, `remoteKey` is keys.remote.pkey. */
  datatype Endpoint = Endpoint(stage: Stage, active: bool, remoteKey: seq<Byte>)

  /** The cipher, and the public keys of the two ends. */
  datatype Config = Config(crypto: Crypto, keyBytes: nat, serverKey: seq<Byte>, clientKey: seq<Byte>)

  const VERSION_MAJOR := 0
  const VERSION_MINOR := 0
  const VERSION_PATCH := 1

  /** "0.0.1", with the terminating byte that `sizeof` counts. */
  const VERSION: seq<Byte> := ['0' as int, '.' as int, '0' as int, '.' as int, '1' as int, 0]

  /** "hello world" */
  const GREETING: seq<Byte> := [0x68, 0x65, 0x6c, 0x6c, 0x6f, 0x20, 0x77, 0x6f, 0x72, 0x6c, 0x64]

  const INVALID_ERROR: Byte := 2
  const NOT_AVAILABLE_ERROR: Byte := 3
  const PUBLIC_KEY_ERROR: Byte := 4
  const INVALID_PROTOCOL_ERROR: Byte := 1

  function Difference(a: int, b: int): nat {
    if a < b then b - a else a - b
  }

  predicate Acceptable(b: Body) {
    && b.ProtocolVersion?
    && b.major == VERSION_MAJOR
    && Difference(b.minor, VERSION_MINOR) <= 3
    && Difference(b.patch, VERSION_PATCH) <= 10
  }

  /** Spelled out for the version that this is: 0.0.0 to 0.3.11. */
  lemma AcceptableVersions(b: Body)
    ensures Acceptable(b) <==> b.ProtocolVersion? && b.major == 0 && b.minor <= 3 && b.patch <= 11
  {
  }

  predicate GoodKey(g: Config, b: Body) {
    b.PublicKey? && |b.key| == g.keyBytes
  }

  /** A packet handed to a handler, with the nonce that a sealed reply draws. */
  datatype Delivery = Delivery(id: Uint16, body: Body, nonce: seq<Byte>)

  /** What a handler leaves behind: the session, and the frames it sent. */
  datatype Outcome = Outcome(end: Endpoint, sent: seq<Frame>)

  /** `send`: the reply carries the id of its request, and is sealed when the
      session's remote encryption is on at that moment. */
  function Reply(s: Endpoint, d: Delivery, body: Body): Frame {
    Frame(d.id, body, s.active, d.nonce)
  }

  function ServerHandle(g: Config, s: Endpoint, d: Delivery): Outcome {
    match d.body
    case PublicKey(key) =>
      if s.stage != PreEncrypt then Outcome(s, [Reply(s, d, Error(NOT_AVAILABLE_ERROR))])
      else if |key| != g.keyBytes then Outcome(s, [Reply(s, d, Error(PUBLIC_KEY_ERROR))])
      else Outcome(s.(active := true, stage := Encrypt), [Reply(s, d, PublicKey(g.serverKey))])
    case ProtocolVersion(_, _, _, _) =>
      if s.stage != PreHandshake then Outcome(s, [Reply(s, d, Error(NOT_AVAILABLE_ERROR))])
      else if !Acceptable(d.body) then Outcome(s, [Reply(s, d, Reject(INVALID_PROTOCOL_ERROR))])
      else Outcome(s.(stage := PreEncrypt), [Reply(s, d, Ok)])
    case Ping =>
      Outcome(if s.stage == Encrypt then s.(stage := Chat) else s, [Reply(s, d, Pong)])
    case Command(_) =>
      Outcome(s, if s.stage != Chat then [Reply(s, d, Error(NOT_AVAILABLE_ERROR))] else [])
    case CommandResponse(_) =>
      Outcome(s, if s.stage != Chat then [Reply(s, d, Error(NOT_AVAILABLE_ERROR))] else [])
    case _ => Outcome(s, [])
  }

  function ClientHandle(g: Config, s: Endpoint, d: Delivery): Outcome {
    match d.body
    case Ok =>
      if s.stage == PreHandshake then Outcome(s.(stage := PreEncrypt), [Reply(s, d, PublicKey(g.clientKey))])
      else Outcome(s, [])
    case PublicKey(key) =>
      if s.stage != PreEncrypt then Outcome(s, [Reply(s, d, Error(NOT_AVAILABLE_ERROR))])
      else if |key| != g.keyBytes then Outcome(s, [Reply(s, d, Error(PUBLIC_KEY_ERROR))])
      else
        var t := s.(active := true, stage := Encrypt);
        Outcome(t, [Reply(t, d, Ping)])
    case ProtocolVersion(_, _, _, _) => Outcome(s, [Reply(s, d, Error(INVALID_ERROR))])
    case Pong =>
      if s.stage == Encrypt then Outcome(s.(stage := Chat), [Reply(s, d, Command(GREETING))])
      else Outcome(s, [])
    case _ => Outcome(s, [])
  }

  /** The session before any packet; `excom_encrypt_init` zeroes the keys. */
  function Fresh(g: Config): Endpoint {
    Endpoint(PreHandshake, false, Zeros(g.keyBytes))
  }

  /** The first message, written by `excom_client_connect`. */
  function Hello(nonce: seq<Byte>): Frame {
    Frame(1, ProtocolVersion(VERSION, VERSION_MAJOR, VERSION_MINOR, VERSION_PATCH), false, nonce)
  }

  // ------------------------------------------------------------------
  // Sizes
  // ------------------------------------------------------------------

  /** Keys of the right size, and sizes far from the 32-bit limit. */
  predicate Sane(g: Config) {
    && |g.serverKey| == |g.clientKey| == g.keyBytes
    && 64 + g.crypto.nonceBytes + g.crypto.zeroBytes + g.keyBytes < WORD
  }

  /** The sizes of the library's cipher are sane. */
  lemma SodiumIsSane(c: Crypto, serverKey: seq<Byte>, clientKey: seq<Byte>)
    requires c.nonceBytes == 24 && c.zeroBytes == 32 && |serverKey| == |clientKey| == 32
    ensures Sane(Config(c, 32, serverKey, clientKey))
  {
  }

  lemma SmallWritable(g: Config, sealed: bool, b: Body)
    requires Sane(g) && !b.Invalid? && WellTyped(b) && SizedBody(b) && BodySize(b) <= 16 + g.keyBytes
    ensures Writable(g.crypto, sealed, b)
  {
    hide BodyBytes;
    BodyLength(b);
  }

  /** Whatever a handler sends can be written. */
  lemma RepliesWritable(g: Config, s: Endpoint, d: Delivery)
    requires Sane(g) && |d.nonce| == g.crypto.nonceBytes
    ensures AllWritable(g.crypto, ServerHandle(g, s, d).sent)
    ensures AllWritable(g.crypto, ClientHandle(g, s, d).sent)
  {
    hide Writable;
    forall o, f | o in {ServerHandle(g, s, d), ClientHandle(g, s, d)} && f in o.sent
      ensures WritableFrame(g.crypto, f)
    {
      SmallWritable(g, f.sealed, f.body);
    }
  }

  lemma HelloWritable(g: Config, nonce: seq<Byte>)
    requires Sane(g) && |nonce| == g.crypto.nonceBytes
    ensures WritableFrame(g.crypto, Hello(nonce)) && Acceptable(Hello(nonce).body)
  {
    SmallWritable(g, false, Hello(nonce).body);
  }

  /** The bytes of the replies. */
  function ReplyBytes(g: Config, sent: seq<Frame>): seq<Byte> {
    if AllWritable(g.crypto, sent) then Encode(g.crypto, sent) else []
  }

  lemma ReplyBytesOne(g: Config, f: Frame)
    requires WritableFrame(g.crypto, f)
    ensures ReplyBytes(g, [f]) == WireOf(g.crypto, f)
  {
    hide WireOf, WritableFrame;
    assert [f][1..] == [] && Encode(g.crypto, []) == [];
    assert Encode(g.crypto, [f]) == WireOf(g.crypto, f) + [];
  }

  lemma HelloBody()
    ensures var body := Hello([]).body;
            && SizedBody(body) && Code(body) == 4
            && BodyBytes(body) == [0, 0, 0, 6, 0x30, 0x2e, 0x30, 0x2e, 0x31, 0, 0, 0, 1]
  {
    hide FieldsBytes, FieldBytes;
    var text: seq<Byte> := [0x30, 0x2e, 0x30, 0x2e, 0x31, 0];
    assert Hello([]).body == ProtocolVersion(text, 0, 0, 1);
    StringFrame(text);
    NumberBytes(0);
    NumberBytes(1);
    FourFields(Str(text), Num(0), Num(0), Num(1));
  }

  lemma NumberBytes(n: Byte)
    ensures FieldBytes(Num(n)) == [n]
  {
  }

  /** The first message, byte for byte: "0.0.1" with its terminating byte, and
      then 0, 0, 1. */
  lemma HelloBytes(g: Config, nonce: seq<Byte>)
    requires Sane(g) && |nonce| == g.crypto.nonceBytes
    ensures ReplyBytes(g, [Hello(nonce)])
         == [0, 0, 0, 0x0d, 0, 1, 0, 4, 0, 0, 0, 6, 0x30, 0x2e, 0x30, 0x2e, 0x31, 0, 0, 0, 1]
  {
    hide ReplyBytes, Wire, Sane, Acceptable, BodyBytes, Code, Writable;
    HelloWritable(g, nonce);
    ReplyBytesOne(g, Hello(nonce));
    HelloBody();
    HelloWire(g.crypto, nonce);
    PlainWire(g.crypto, nonce, 1, Hello([]).body);
  }

  lemma HelloWire(c: Crypto, nonce: seq<Byte>)
    requires WritableFrame(c, Hello(nonce))
    ensures Writable(c, false, Hello([]).body)
    ensures WireOf(c, Hello(nonce)) == Wire(c, false, nonce, 1, Hello([]).body)
  {
  }

  lemma ReplyBytesNone(g: Config)
    ensures ReplyBytes(g, []) == []
  {
  }

  // ------------------------------------------------------------------
  // Properties of one delivery
  // ------------------------------------------------------------------

  /** At most one reply, and it carries the id of its request. */
  lemma RepliesMatchRequests(g: Config, s: Endpoint, d: Delivery)
    ensures |ServerHandle(g, s, d).sent| <= 1 && |ClientHandle(g, s, d).sent| <= 1
    ensures forall f | f in ServerHandle(g, s, d).sent + ClientHandle(g, s, d).sent :: f.id == d.id && f.nonce == d.nonce
  {
  }

  /** Stages are passed one at a time and never go back, and remote encryption
      is switched on by nothing but the step to Encrypt. */
  lemma StagesAdvance(g: Config, s: Endpoint, d: Delivery)
    ensures forall t | t in {ServerHandle(g, s, d).end, ClientHandle(g, s, d).end} ::
              && Rank(s.stage) <= Rank(t.stage) <= Rank(s.stage) + 1
              && (t.active <==> s.active || (s.stage == PreEncrypt && t.stage == Encrypt))
  {
  }

  /** The stage that `require` asks for, per packet type. */
  function Required(b: Body): Option<Stage> {
    match b
    case ProtocolVersion(_, _, _, _) => Some(PreHandshake)
    case PublicKey(_) => Some(PreEncrypt)
    case Command(_) => Some(Chat)
    case CommandResponse(_) => Some(Chat)
    case _ => None
  }
}
