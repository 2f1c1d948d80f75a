/** The two ends and the frames between them, as one state machine.

    The server decodes a frame when it arrives and handles it later, in the
    worker, so a frame can be decoded before an earlier one has changed the
    mode. The client decodes and handles in one step. */
module Handshake {
  import opened Bytes
  import opened Packets
  import opened Protocol
  import opened Streams
  import opened Endpoints

  /** A frame the server has decoded, and the mode it decoded it in. */
  datatype Decoded = Decoded(frame: Frame, active: bool)

  /** Both sessions, the frames on their way in each direction, and the
      server's queue of packets that wait for the worker. */
  datatype Sys = Sys(
    client: Endpoint, server: Endpoint, c2s: seq<Frame>, parsed: seq<Decoded>, s2c: seq<Frame>)

  /** The application may ping at any time, and send commands in the last
      stage. Nonces are the random choices of whoever sends. `read` is the body
      that the handler gets. */
  datatype Action =
    | ClientDeliver(nonce: seq<Byte>, read: Body)
    | ServerParse
    | ServerHandles(nonce: seq<Byte>, read: Body)
    | AppPing(id: Uint16, nonce: seq<Byte>)
    | AppCommand(id: Uint16, text: seq<Byte>, nonce: seq<Byte>)

  predicate IsDelivery(a: Action) {
    a.ClientDeliver? || a.ServerParse? || a.ServerHandles?
  }

  function Start(g: Config, nonce: seq<Byte>): Sys {
    Sys(Fresh(g), Fresh(g), [Hello(nonce)], [], [])
  }

  /** The frame is decoded in the mode it was written in, or has no body. */
  predicate Legible(f: Frame, active: bool) {
    SizedBody(f.body) && Suits(f, active)
  }

  /** What decoding gives the handler: the body that was sent, or, in the wrong
      mode, a body of the same type with any fields at all, since the type is in
      the plain header and the fields are not. */
  predicate ReadAs(f: Frame, active: bool, read: Body) {
    if Legible(f, active) then read == f.body else WellTyped(read) && Code(read) == Code(f.body)
  }

  predicate Enabled(g: Config, st: Sys, a: Action) {
    && (!a.ServerParse? ==> |a.nonce| == g.crypto.nonceBytes)
    && match a
       case ClientDeliver(_, read) => st.s2c != [] && ReadAs(st.s2c[0], st.client.active, read)
       case ServerParse => st.c2s != []
       case ServerHandles(_, read) => st.parsed != [] && ReadAs(st.parsed[0].frame, st.parsed[0].active, read)
       case AppPing(_, _) => true
       case AppCommand(_, text, _) => st.client.stage == Chat && Writable(g.crypto, true, Command(text))
  }

  function ToHandler(f: Frame, read: Body, nonce: seq<Byte>): Delivery {
    Delivery(f.id, read, nonce)
  }

  function Next(g: Config, st: Sys, a: Action): Sys
    requires Enabled(g, st, a)
  {
    match a
    case ClientDeliver(nonce, read) =>
      var o := ClientHandle(g, st.client, ToHandler(st.s2c[0], read, nonce));
      st.(client := o.end, s2c := st.s2c[1..], c2s := st.c2s + o.sent)
    case ServerParse =>
      st.(c2s := st.c2s[1..], parsed := st.parsed + [Decoded(st.c2s[0], st.server.active)])
    case ServerHandles(nonce, read) =>
      var o := ServerHandle(g, st.server, ToHandler(st.parsed[0].frame, read, nonce));
      st.(server := o.end, parsed := st.parsed[1..], s2c := st.s2c + o.sent)
    case AppPing(id, nonce) =>
      st.(c2s := st.c2s + [Frame(id, Ping, st.client.active, nonce)])
    case AppCommand(id, text, nonce) =>
      st.(c2s := st.c2s + [Frame(id, Command(text), st.client.active, nonce)])
  }

  /** A run is a list of actions, each enabled when its turn comes. */
  function Exec(g: Config, st: Sys, run: seq<Action>): Option<Sys>
    decreases |run|
  {
    if run == [] then Some(st)
    else if !Enabled(g, st, run[0]) then None
    else Exec(g, Next(g, st, run[0]), run[1..])
  }

  // ------------------------------------------------------------------
  // The invariant
  // ------------------------------------------------------------------

  /** What is on its way besides pings, or besides pongs. */
  function NoPings(fs: seq<Frame>): seq<Frame> {
    if fs == [] then [] else (if fs[0].body.Ping? then [] else [fs[0]]) + NoPings(fs[1..])
  }

  function NoPongs(fs: seq<Frame>): seq<Frame> {
    if fs == [] then [] else (if fs[0].body.Pong? then [] else [fs[0]]) + NoPongs(fs[1..])
  }

  function Frames(ds: seq<Decoded>): (fs: seq<Frame>)
    ensures |fs| == |ds|
    ensures forall i | 0 <= i < |ds| :: fs[i] == ds[i].frame
  {
    seq(|ds|, i requires 0 <= i < |ds| => ds[i].frame)
  }

  /** Client to server, handled last to handled first: all that the server has
      yet to handle. */
  function Upstream(st: Sys): seq<Frame> {
    Frames(st.parsed) + st.c2s
  }

  predicate IsHello(fs: seq<Frame>) {
    |fs| == 1 && Acceptable(fs[0].body) && !fs[0].sealed
  }

  predicate IsKey(fs: seq<Frame>, key: seq<Byte>) {
    |fs| == 1 && fs[0].body == PublicKey(key) && !fs[0].sealed
  }

  predicate AreCommands(fs: seq<Frame>) {
    forall i | 0 <= i < |fs| :: fs[i].body.Command? && fs[i].sealed
  }

  /** Which message is outstanding at each pair of stages. A pair that is not
      listed does not occur. */
  predicate Outstanding(g: Config, st: Sys, up: seq<Frame>, down: seq<Frame>) {
    match st.client.stage
    case PreHandshake =>
      || (st.server.stage == PreHandshake && IsHello(up) && down == [])
      || (st.server.stage == PreEncrypt && up == [] && |down| == 1 && down[0].body.Ok?)
    case PreEncrypt =>
      || (st.server.stage == PreEncrypt && IsKey(up, g.clientKey) && down == [])
      || (Rank(st.server.stage) >= 2 && up == [] && IsKey(down, g.serverKey)
          && (st.server.stage == Encrypt ==> st.s2c != [] && st.s2c[|st.s2c| - 1].body.PublicKey?))
    case Encrypt =>
      && Rank(st.server.stage) >= 2 && up == [] && down == []
      && (st.server.stage == Encrypt ==> st.s2c == [])
      && (Upstream(st) != [] || st.s2c != [])
    case Chat =>
      st.server.stage == Chat && AreCommands(up) && down == []
  }

  predicate Inv(g: Config, st: Sys) {
    && (st.client.active <==> Rank(st.client.stage) >= 2)
    && (st.server.active <==> Rank(st.server.stage) >= 2)
    && Outstanding(g, st, NoPings(Upstream(st)), NoPongs(st.s2c))
    && (forall i | 0 <= i < |st.parsed| :: Legible(st.parsed[i].frame, st.parsed[i].active))
    && AllWritable(g.crypto, Upstream(st)) && AllWritable(g.crypto, st.s2c)
  }

  // ------------------------------------------------------------------
  // Queues
  // ------------------------------------------------------------------

  lemma {:induction false} NoPingsSnoc(fs: seq<Frame>, f: Frame)
    ensures NoPings(fs + [f]) == NoPings(fs) + if f.body.Ping? then [] else [f]
  {
    var last := if f.body.Ping? then [] else [f];
    if fs == [] {
      assert fs + [f] == [f] && [f][1..] == [];
    } else {
      TailOfSnoc(fs, f);
      NoPingsSnoc(fs[1..], f);
      Assoc(if fs[0].body.Ping? then [] else [fs[0]], NoPings(fs[1..]), last);
    }
  }

  lemma {:induction false} NoPongsSnoc(fs: seq<Frame>, f: Frame)
    ensures NoPongs(fs + [f]) == NoPongs(fs) + if f.body.Pong? then [] else [f]
  {
    var last := if f.body.Pong? then [] else [f];
    if fs == [] {
      assert fs + [f] == [f] && [f][1..] == [];
    } else {
      TailOfSnoc(fs, f);
      NoPongsSnoc(fs[1..], f);
      Assoc(if fs[0].body.Pong? then [] else [fs[0]], NoPongs(fs[1..]), last);
    }
  }

  lemma {:induction false} InNoPings(fs: seq<Frame>, i: nat)
    requires i < |fs|
    ensures fs[i].body.Ping? || fs[i] in NoPings(fs)
  {
    if i > 0 {
      InNoPings(fs[1..], i - 1);
    }
  }

  lemma {:induction false} InNoPongs(fs: seq<Frame>, i: nat)
    requires i < |fs|
    ensures fs[i].body.Pong? || fs[i] in NoPongs(fs)
  {
    if i > 0 {
      InNoPongs(fs[1..], i - 1);
    }
  }

  /** Only a ping or the first frame that is no ping can be first. */
  lemma HeadUp(fs: seq<Frame>)
    requires fs != []
    ensures NoPings(fs) == (if fs[0].body.Ping? then [] else [fs[0]]) + NoPings(fs[1..])
  {
  }

  lemma HeadDown(fs: seq<Frame>)
    requires fs != []
    ensures NoPongs(fs) == (if fs[0].body.Pong? then [] else [fs[0]]) + NoPongs(fs[1..])
  {
  }

  lemma Sent(g: Config, fs: seq<Frame>, sent: seq<Frame>)
    requires |sent| <= 1 && AllWritable(g.crypto, fs) && AllWritable(g.crypto, sent)
    ensures AllWritable(g.crypto, fs + sent)
    ensures NoPings(fs + sent) == NoPings(fs) + NoPings(sent)
    ensures NoPongs(fs + sent) == NoPongs(fs) + NoPongs(sent)
  {
    if sent == [] {
      assert fs + sent == fs;
    } else {
      assert sent == [sent[0]] && sent[1..] == [];
      NoPingsSnoc(fs, sent[0]);
      NoPongsSnoc(fs, sent[0]);
    }
  }

  // ------------------------------------------------------------------
  // Every step keeps the invariant
  // ------------------------------------------------------------------

  lemma StartsWell(g: Config, nonce: seq<Byte>)
    requires Sane(g) && |nonce| == g.crypto.nonceBytes
    ensures Inv(g, Start(g, nonce))
  {
    hide WritableFrame, Acceptable;
    HelloWritable(g, nonce);
    var st := Start(g, nonce);
    assert Upstream(st) == [Hello(nonce)];
    HeadUp([Hello(nonce)]);
  }

  lemma ClientSends(g: Config, st: Sys, f: Frame)
    requires Inv(g, st) && WritableFrame(g.crypto, f) && f.sealed == st.client.active
    requires f.body.Ping? || (f.body.Command? && st.client.stage == Chat)
    ensures Inv(g, st.(c2s := st.c2s + [f]))
  {
    hide WritableFrame, Acceptable, NoPings, NoPongs, Legible;
    var t := st.(c2s := st.c2s + [f]);
    assert Upstream(t) == Upstream(st) + [f];
    NoPingsSnoc(Upstream(st), f);
  }

  lemma ParseKeeps(g: Config, st: Sys)
    requires Inv(g, st) && Enabled(g, st, ServerParse)
    ensures Legible(st.c2s[0], st.server.active)
    ensures Inv(g, Next(g, st, ServerParse))
  {
    hide Acceptable, NoPings, NoPongs, BodyBytes;
    var t := Next(g, st, ServerParse);
    assert Upstream(t) == Upstream(st);
    UpstreamSuits(g, st, |st.parsed|);
  }

  /** Every frame the server has yet to decode suits its present mode. */
  lemma UpstreamSuits(g: Config, st: Sys, i: nat)
    requires Inv(g, st) && |st.parsed| <= i < |Upstream(st)|
    ensures WritableFrame(g.crypto, Upstream(st)[i])
    ensures Legible(Upstream(st)[i], st.server.active)
  {
    hide Acceptable, NoPings, NoPongs, BodyBytes;
    var f := Upstream(st)[i];
    InNoPings(Upstream(st), i);
    assert WritableFrame(g.crypto, f);
    BodyLength(f.body);
  }

  lemma DownstreamSuits(g: Config, st: Sys, i: nat)
    requires Inv(g, st) && i < |st.s2c|
    ensures WritableFrame(g.crypto, st.s2c[i])
    ensures Legible(st.s2c[i], st.client.active)
  {
    hide Acceptable, NoPings, NoPongs, BodyBytes;
    var f := st.s2c[i];
    InNoPongs(st.s2c, i);
    assert WritableFrame(g.crypto, f);
    BodyLength(f.body);
  }

  /** The worker handles what it was given: Upstream loses its first frame. */
  lemma ServerQueues(g: Config, st: Sys, nonce: seq<Byte>, read: Body)
    requires Sane(g) && Inv(g, st) && Enabled(g, st, ServerHandles(nonce, read))
    ensures var t, f := Next(g, st, ServerHandles(nonce, read)), st.parsed[0].frame;
            var sent := ServerHandle(g, st.server, ToHandler(f, read, nonce)).sent;
            && read == f.body && Upstream(st) != [] && Upstream(st)[0] == f
            && Upstream(t) == Upstream(st)[1..]
            && NoPings(Upstream(st)) == (if f.body.Ping? then [] else [f]) + NoPings(Upstream(t))
            && NoPongs(t.s2c) == NoPongs(st.s2c) + NoPongs(sent)
            && AllWritable(g.crypto, Upstream(t)) && AllWritable(g.crypto, t.s2c)
            && (forall i | 0 <= i < |t.parsed| :: Legible(t.parsed[i].frame, t.parsed[i].active))
  {
    hide WritableFrame, Acceptable, NoPings, NoPongs, Legible, ServerHandle, Outstanding;
    var t, f := Next(g, st, ServerHandles(nonce, read)), st.parsed[0].frame;
    var d := ToHandler(f, read, nonce);
    ParsedLegible(g, st, 0);
    RepliesWritable(g, st.server, d);
    RepliesMatchRequests(g, st.server, d);
    Sent(g, st.s2c, ServerHandle(g, st.server, d).sent);
    assert Upstream(t) == Upstream(st)[1..];
    HeadUp(Upstream(st));
  }

  /** The server's answers to the packets that a client of this kind sends. */
  lemma ServerAnswers(g: Config, s: Endpoint, d: Delivery)
    ensures var o := ServerHandle(g, s, d);
            && (d.body.Ping? ==>
                  o == Outcome(if s.stage == Encrypt then s.(stage := Chat) else s, [Reply(s, d, Pong)]))
            && (Acceptable(d.body) && s.stage == PreHandshake ==>
                  o == Outcome(s.(stage := PreEncrypt), [Reply(s, d, Ok)]))
            && (GoodKey(g, d.body) && s.stage == PreEncrypt ==>
                  o == Outcome(s.(active := true, stage := Encrypt), [Reply(s, d, PublicKey(g.serverKey))]))
            && (d.body.Command? && s.stage == Chat ==> o == Outcome(s, []))
    ensures Acceptable(d.body) ==> d.body.ProtocolVersion?
  {
  }

  /** What the worker's step leaves outstanding. */
  lemma PingOutstanding(g: Config, st: Sys, nonce: seq<Byte>, read: Body)
    requires Sane(g) && Inv(g, st) && Enabled(g, st, ServerHandles(nonce, read)) && st.parsed[0].frame.body.Ping?
    ensures var t := Next(g, st, ServerHandles(nonce, read));
            && Outstanding(g, t, NoPings(Upstream(t)), NoPongs(t.s2c))
            && (t.server.active <==> Rank(t.server.stage) >= 2)
  {
    hide NoPings, NoPongs, Legible, WritableFrame, AllWritable, Sane, ServerHandle, Acceptable, ReadAs;
    ServerQueues(g, st, nonce, read);
    var t, f := Next(g, st, ServerHandles(nonce, read)), st.parsed[0].frame;
    ServerAnswers(g, st.server, ToHandler(f, read, nonce));
    OneOrNone(ServerHandle(g, st.server, ToHandler(f, read, nonce)).sent);
    assert NoPings(Upstream(t)) == NoPings(Upstream(st));
  }

  lemma RequestOutstanding(g: Config, st: Sys, nonce: seq<Byte>, read: Body)
    requires Sane(g) && Inv(g, st) && Enabled(g, st, ServerHandles(nonce, read)) && !st.parsed[0].frame.body.Ping?
    ensures var t := Next(g, st, ServerHandles(nonce, read));
            && Outstanding(g, t, NoPings(Upstream(t)), NoPongs(t.s2c))
            && (t.server.active <==> Rank(t.server.stage) >= 2)
  {
    hide NoPings, NoPongs, Legible, WritableFrame, AllWritable, Sane, ServerHandle, Acceptable, ReadAs;
    ServerQueues(g, st, nonce, read);
    var t, f := Next(g, st, ServerHandles(nonce, read)), st.parsed[0].frame;
    ServerAnswers(g, st.server, ToHandler(f, read, nonce));
    OneOrNone(ServerHandle(g, st.server, ToHandler(f, read, nonce)).sent);
    KeySizes(g);
    Consume(f, NoPings(Upstream(t)), NoPings(Upstream(st)));
  }

  lemma ServerHandlesKeeps(g: Config, st: Sys, nonce: seq<Byte>, read: Body)
    requires Sane(g) && Inv(g, st) && Enabled(g, st, ServerHandles(nonce, read))
    ensures Inv(g, Next(g, st, ServerHandles(nonce, read)))
  {
    hide NoPings, NoPongs, Legible, AllWritable, Sane, Outstanding, ServerHandle, ReadAs;
    ServerQueues(g, st, nonce, read);
    if st.parsed[0].frame.body.Ping? {
      PingOutstanding(g, st, nonce, read);
    } else {
      RequestOutstanding(g, st, nonce, read);
    }
  }

  lemma Consume(f: Frame, rest: seq<Frame>, all: seq<Frame>)
    requires all == [f] + rest
    ensures f == all[0] && rest == all[1..] && (|all| == 1 ==> rest == [])
  {
  }

  lemma KeySizes(g: Config)
    requires Sane(g)
    ensures |g.serverKey| == |g.clientKey| == g.keyBytes
  {
  }

  lemma OneOrNone(fs: seq<Frame>)
    ensures fs == [] ==> NoPings(fs) == [] && NoPongs(fs) == []
    ensures |fs| == 1 ==> NoPings(fs) == if fs[0].body.Ping? then [] else fs
    ensures |fs| == 1 ==> NoPongs(fs) == if fs[0].body.Pong? then [] else fs
  {
    if |fs| == 1 {
      assert fs[1..] == [] && fs == [fs[0]];
    }
  }

  lemma ClientQueues(g: Config, st: Sys, nonce: seq<Byte>, read: Body)
    requires Sane(g) && Inv(g, st) && Enabled(g, st, ClientDeliver(nonce, read))
    ensures var t, f := Next(g, st, ClientDeliver(nonce, read)), st.s2c[0];
            var sent := ClientHandle(g, st.client, ToHandler(f, read, nonce)).sent;
            && read == f.body && t.s2c == st.s2c[1..]
            && Upstream(t) == Upstream(st) + sent
            && NoPongs(st.s2c) == (if f.body.Pong? then [] else [f]) + NoPongs(t.s2c)
            && NoPings(Upstream(t)) == NoPings(Upstream(st)) + NoPings(sent)
            && AllWritable(g.crypto, Upstream(t)) && AllWritable(g.crypto, t.s2c)
            && (forall i | 0 <= i < |t.parsed| :: Legible(t.parsed[i].frame, t.parsed[i].active))
  {
    hide WritableFrame, Acceptable, NoPings, NoPongs, Legible, ClientHandle, Outstanding;
    var t, f := Next(g, st, ClientDeliver(nonce, read)), st.s2c[0];
    var d := ToHandler(f, read, nonce);
    DownstreamSuits(g, st, 0);
    RepliesWritable(g, st.client, d);
    RepliesMatchRequests(g, st.client, d);
    var sent := ClientHandle(g, st.client, d).sent;
    Sent(g, Upstream(st), sent);
    assert Upstream(t) == Upstream(st) + sent;
    HeadDown(st.s2c);
  }

  /** The client's answers to the packets that the server sends. */
  lemma ClientAnswers(g: Config, s: Endpoint, d: Delivery)
    ensures var o := ClientHandle(g, s, d);
            && (d.body.Pong? ==>
                  o == if s.stage == Encrypt then Outcome(s.(stage := Chat), [Reply(s, d, Command(GREETING))])
                       else Outcome(s, []))
            && (d.body.Ok? && s.stage == PreHandshake ==>
                  o == Outcome(s.(stage := PreEncrypt), [Reply(s, d, PublicKey(g.clientKey))]))
            && (GoodKey(g, d.body) && s.stage == PreEncrypt ==>
                  var t := s.(active := true, stage := Encrypt);
                  o == Outcome(t, [Reply(t, d, Ping)]))
  {
  }

  /** What the client's step leaves outstanding. */
  lemma PongOutstanding(g: Config, st: Sys, nonce: seq<Byte>, read: Body)
    requires Sane(g) && Inv(g, st) && Enabled(g, st, ClientDeliver(nonce, read)) && st.s2c[0].body.Pong?
    ensures var t := Next(g, st, ClientDeliver(nonce, read));
            && Outstanding(g, t, NoPings(Upstream(t)), NoPongs(t.s2c))
            && (t.client.active <==> Rank(t.client.stage) >= 2)
  {
    hide NoPings, NoPongs, Legible, WritableFrame, AllWritable, Sane, Acceptable, ClientHandle, ReadAs;
    ClientQueues(g, st, nonce, read);
    var t, d := Next(g, st, ClientDeliver(nonce, read)), ToHandler(st.s2c[0], read, nonce);
    OneOrNone(ClientHandle(g, st.client, d).sent);
    ClientAnswers(g, st.client, d);
    assert NoPongs(t.s2c) == NoPongs(st.s2c);
  }

  lemma OtherOutstanding(g: Config, st: Sys, nonce: seq<Byte>, read: Body)
    requires Sane(g) && Inv(g, st) && Enabled(g, st, ClientDeliver(nonce, read)) && !st.s2c[0].body.Pong?
    ensures var t := Next(g, st, ClientDeliver(nonce, read));
            && Outstanding(g, t, NoPings(Upstream(t)), NoPongs(t.s2c))
            && (t.client.active <==> Rank(t.client.stage) >= 2)
  {
    hide NoPings, NoPongs, Legible, WritableFrame, AllWritable, Sane, Acceptable, ClientHandle, ReadAs;
    ClientQueues(g, st, nonce, read);
    var t, d := Next(g, st, ClientDeliver(nonce, read)), ToHandler(st.s2c[0], read, nonce);
    OneOrNone(ClientHandle(g, st.client, d).sent);
    ClientAnswers(g, st.client, d);
    KeySizes(g);
    Consume(st.s2c[0], NoPongs(t.s2c), NoPongs(st.s2c));
    if t.s2c != [] {
      InNoPongs(t.s2c, |t.s2c| - 1);
    }
  }

  lemma ClientDeliverKeeps(g: Config, st: Sys, nonce: seq<Byte>, read: Body)
    requires Sane(g) && Inv(g, st) && Enabled(g, st, ClientDeliver(nonce, read))
    ensures Inv(g, Next(g, st, ClientDeliver(nonce, read)))
  {
    hide NoPings, NoPongs, Legible, AllWritable, Sane, Outstanding, ClientHandle, ReadAs;
    ClientQueues(g, st, nonce, read);
    if st.s2c[0].body.Pong? {
      PongOutstanding(g, st, nonce, read);
    } else {
      OtherOutstanding(g, st, nonce, read);
    }
  }

  lemma StepKeeps(g: Config, st: Sys, a: Action)
    requires Sane(g) && Inv(g, st) && Enabled(g, st, a)
    ensures Inv(g, Next(g, st, a))
  {
    match a
    case ClientDeliver(nonce, read) => ClientDeliverKeeps(g, st, nonce, read);
    case ServerParse => ParseKeeps(g, st);
    case ServerHandles(nonce, read) => ServerHandlesKeeps(g, st, nonce, read);
    case AppPing(id, nonce) =>
      hide Inv;
      SmallWritable(g, st.client.active, Ping);
      ClientSends(g, st, Frame(id, Ping, st.client.active, nonce));
    case AppCommand(id, text, nonce) =>
      InChat(g, st);
      hide Inv;
      ClientSends(g, st, Frame(id, Command(text), st.client.active, nonce));
  }

  lemma InChat(g: Config, st: Sys)
    requires Inv(g, st) && st.client.stage == Chat
    ensures st.client.active
  {
  }

  // ------------------------------------------------------------------
  // What holds in every reachable state
  // ------------------------------------------------------------------

  ghost predicate Reached(g: Config, st: Sys) {
    exists nonce: seq<Byte>, run: seq<Action> ::
      |nonce| == g.crypto.nonceBytes && Exec(g, Start(g, nonce), run) == Some(st)
  }

  lemma {:induction false} RunKeeps(g: Config, st: Sys, run: seq<Action>)
    requires Sane(g) && Inv(g, st) && Exec(g, st, run).Some?
    ensures Inv(g, Exec(g, st, run).value)
    decreases |run|
  {
    hide Inv, Sane, Enabled, Next;
    if run != [] {
      StepKeeps(g, st, run[0]);
      RunKeeps(g, Next(g, st, run[0]), run[1..]);
    }
  }

  lemma ReachedInv(g: Config, st: Sys)
    requires Sane(g) && Reached(g, st)
    ensures Inv(g, st)
  {
    hide Inv, Sane;
    var nonce: seq<Byte>, run: seq<Action> :|
      |nonce| == g.crypto.nonceBytes && Exec(g, Start(g, nonce), run) == Some(st);
    StartsWell(g, nonce);
    RunKeeps(g, Start(g, nonce), run);
  }

  predicate SameMode(f: Frame, active: bool) {
    SizedBody(f.body) && (BodyBytes(f.body) != [] ==> (f.sealed <==> active))
  }

  /** Mode agreement: every frame with a body that is on its way would be
      decoded, at any moment, in the mode it was written in, and every frame in
      the server's queue was. */
  lemma ModeAgreement(g: Config, st: Sys)
    requires Sane(g) && Reached(g, st)
    ensures forall i | 0 <= i < |st.c2s| :: SameMode(st.c2s[i], st.server.active)
    ensures forall i | 0 <= i < |st.s2c| :: SameMode(st.s2c[i], st.client.active)
    ensures forall i | 0 <= i < |st.parsed| :: SameMode(st.parsed[i].frame, st.parsed[i].active)
  {
    hide Inv, Sane, BodyBytes;
    ReachedInv(g, st);
    forall i | 0 <= i < |st.c2s| ensures SameMode(st.c2s[i], st.server.active) {
      UpstreamSuits(g, st, |st.parsed| + i);
    }
    forall i | 0 <= i < |st.s2c| ensures SameMode(st.s2c[i], st.client.active) {
      DownstreamSuits(g, st, i);
    }
    forall i | 0 <= i < |st.parsed| ensures SameMode(st.parsed[i].frame, st.parsed[i].active) {
      ParsedLegible(g, st, i);
    }
  }

  lemma ParsedLegible(g: Config, st: Sys, i: nat)
    requires Inv(g, st) && i < |st.parsed|
    ensures Legible(st.parsed[i].frame, st.parsed[i].active)
  {
  }

  predicate Refusal(b: Body) {
    b.Error? || b.Reject?
  }

  /** The client never runs ahead of the server; nothing is ever refused, and a
      command that reaches the worker finds the server in its last stage. */
  lemma ClientNeverAhead(g: Config, st: Sys)
    requires Sane(g) && Reached(g, st)
    ensures Rank(st.client.stage) <= Rank(st.server.stage)
    ensures forall i | 0 <= i < |Upstream(st)| :: !Refusal(Upstream(st)[i].body)
    ensures forall i | 0 <= i < |st.s2c| :: !Refusal(st.s2c[i].body)
    ensures forall i | 0 <= i < |Upstream(st)| :: Upstream(st)[i].body.Command? ==> st.server.stage == Chat
  {
    hide NoPings, NoPongs, Acceptable;
    ReachedInv(g, st);
    forall i | 0 <= i < |Upstream(st)|
      ensures !Refusal(Upstream(st)[i].body)
      ensures Upstream(st)[i].body.Command? ==> st.server.stage == Chat
    {
      InNoPings(Upstream(st), i);
      HelloKind(NoPings(Upstream(st)));
    }
    forall i | 0 <= i < |st.s2c| ensures !Refusal(st.s2c[i].body) {
      InNoPongs(st.s2c, i);
    }
  }

  lemma HelloKind(fs: seq<Frame>)
    ensures IsHello(fs) ==> fs[0].body.ProtocolVersion?
  {
  }

  predicate Quiet(st: Sys) {
    st.c2s == [] && st.parsed == [] && st.s2c == []
  }

  /** A frame that is not legible has fields, so its type says what they are. */
  lemma IllegibleHasFields(f: Frame, active: bool)
    requires !Legible(f, active)
    ensures Fields(f.body) != [] && WellTyped(f.body)
  {
  }

  /** No packet is ever stuck: in any state whatever, as long as anything is on
      its way, some delivery can be made. */
  lemma NeverStuck(g: Config, st: Sys)
    requires !Quiet(st)
    ensures exists a: Action :: IsDelivery(a) && Enabled(g, st, a)
  {
    hide Legible;
    var nonce := Zeros(g.crypto.nonceBytes);
    if st.c2s != [] {
      assert Enabled(g, st, ServerParse);
    } else if st.parsed != [] {
      var d := st.parsed[0];
      if !Legible(d.frame, d.active) {
        IllegibleHasFields(d.frame, d.active);
      }
      assert Enabled(g, st, ServerHandles(nonce, d.frame.body));
    } else {
      var f := st.s2c[0];
      if !Legible(f, st.client.active) {
        IllegibleHasFields(f, st.client.active);
      }
      assert Enabled(g, st, ClientDeliver(nonce, f.body));
    }
  }

  /** A frame decoded in the wrong mode may reach its handler with any fields of
      its type, and a legible one reaches it as it was sent and not otherwise. */
  lemma AnyReading(g: Config, st: Sys, nonce: seq<Byte>, read: Body)
    requires |nonce| == g.crypto.nonceBytes && WellTyped(read)
    ensures st.s2c != [] ==>
              var f := st.s2c[0];
              && (Enabled(g, st, ClientDeliver(nonce, read)) <==>
                    if SameMode(f, st.client.active) then read == f.body else Code(read) == Code(f.body))
    ensures st.parsed != [] ==>
              var f := st.parsed[0].frame;
              && (Enabled(g, st, ServerHandles(nonce, read)) <==>
                    if SameMode(f, st.parsed[0].active) then read == f.body else Code(read) == Code(f.body))
  {
  }

  /** No deadlock: when nothing is on its way the handshake is over, and as
      long as anything is, some delivery can be made. */
  lemma DeadlockFree(g: Config, st: Sys)
    requires Sane(g) && Reached(g, st)
    ensures Quiet(st) ==> st.client.stage == Chat && st.server.stage == Chat
    ensures !Quiet(st) ==> exists a: Action :: IsDelivery(a) && Enabled(g, st, a)
  {
    hide Acceptable, BodyBytes;
    ReachedInv(g, st);
    if Quiet(st) {
      assert Upstream(st) == [];
    } else {
      hide Enabled;
      NeverStuck(g, st);
    }
  }

  // ------------------------------------------------------------------
  // Every run of deliveries ends
  // ------------------------------------------------------------------

  /** What a frame can still cause, itself included: once decoded by the
      server, on its way to the server, and on its way to the client. */
  function ServerWeight(b: Body): nat {
    match b
    case ProtocolVersion(_, _, _, _) => 11
    case PublicKey(_) => 8
    case Ping => 5
    case Command(_) => 2
    case CommandResponse(_) => 2
    case _ => 1
  }

  function UpWeight(b: Body): nat {
    ServerWeight(b) + 1
  }

  function DownWeight(b: Body): nat {
    match b
    case Ok => 10
    case PublicKey(_) => 7
    case Pong => 4
    case ProtocolVersion(_, _, _, _) => 3
    case _ => 1
  }

  function UpWeights(fs: seq<Frame>): nat {
    if fs == [] then 0 else UpWeight(fs[0].body) + UpWeights(fs[1..])
  }

  function DownWeights(fs: seq<Frame>): nat {
    if fs == [] then 0 else DownWeight(fs[0].body) + DownWeights(fs[1..])
  }

  function ParsedWeights(ds: seq<Decoded>): nat {
    if ds == [] then 0 else ServerWeight(ds[0].frame.body) + ParsedWeights(ds[1..])
  }

  function Weight(st: Sys): nat {
    UpWeights(st.c2s) + ParsedWeights(st.parsed) + DownWeights(st.s2c)
  }

  lemma {:induction false} UpWeightsSnoc(fs: seq<Frame>, f: Frame)
    ensures UpWeights(fs + [f]) == UpWeights(fs) + UpWeight(f.body)
  {
    if fs == [] {
      assert fs + [f] == [f];
    } else {
      TailOfSnoc(fs, f);
      UpWeightsSnoc(fs[1..], f);
    }
  }

  lemma {:induction false} DownWeightsSnoc(fs: seq<Frame>, f: Frame)
    ensures DownWeights(fs + [f]) == DownWeights(fs) + DownWeight(f.body)
  {
    if fs == [] {
      assert fs + [f] == [f];
    } else {
      TailOfSnoc(fs, f);
      DownWeightsSnoc(fs[1..], f);
    }
  }

  lemma {:induction false} ParsedWeightsSnoc(ds: seq<Decoded>, d: Decoded)
    ensures ParsedWeights(ds + [d]) == ParsedWeights(ds) + ServerWeight(d.frame.body)
  {
    if ds == [] {
      assert ds + [d] == [d];
    } else {
      TailOfSnoc(ds, d);
      ParsedWeightsSnoc(ds[1..], d);
    }
  }

  /** A handler's replies weigh less than the packet it was given. */
  lemma RepliesWeighLess(g: Config, s: Endpoint, d: Delivery)
    ensures var sent := ServerHandle(g, s, d).sent;
            |sent| <= 1 && (sent != [] ==> DownWeight(sent[0].body) < ServerWeight(d.body))
    ensures var sent := ClientHandle(g, s, d).sent;
            |sent| <= 1 && (sent != [] ==> UpWeight(sent[0].body) < DownWeight(d.body))
  {
  }

  /** The weight is a matter of the type, which even a frame decoded in the
      wrong mode keeps. */
  lemma ReadWeighs(f: Frame, active: bool, read: Body)
    requires ReadAs(f, active, read)
    ensures ServerWeight(read) == ServerWeight(f.body) && DownWeight(read) == DownWeight(f.body)
  {
    if !Legible(f, active) {
      IllegibleHasFields(f, active);
    }
  }

  /** No message storm: from any state whatever, with any packets anywhere,
      decoded in any mode, each delivery lowers the weight of what is on its
      way. */
  lemma DeliveryLowersWeight(g: Config, st: Sys, a: Action)
    requires IsDelivery(a) && Enabled(g, st, a)
    ensures Weight(Next(g, st, a)) < Weight(st)
  {
    hide ServerHandle, ClientHandle, UpWeight, DownWeight, ServerWeight, ReadAs;
    match a
    case ServerParse =>
      ParsedWeightsSnoc(st.parsed, Decoded(st.c2s[0], st.server.active));
      DecodingWeighs(st.c2s[0].body);
    case ClientDeliver(nonce, read) =>
      var d := ToHandler(st.s2c[0], read, nonce);
      var sent := ClientHandle(g, st.client, d).sent;
      RepliesWeighLess(g, st.client, d);
      ReadWeighs(st.s2c[0], st.client.active, read);
      if sent == [] {
        assert st.c2s + sent == st.c2s;
        SomeWeight(d.body);
      } else {
        assert sent == [sent[0]];
        UpWeightsSnoc(st.c2s, sent[0]);
      }
    case ServerHandles(nonce, read) =>
      var d := ToHandler(st.parsed[0].frame, read, nonce);
      var sent := ServerHandle(g, st.server, d).sent;
      RepliesWeighLess(g, st.server, d);
      ReadWeighs(st.parsed[0].frame, st.parsed[0].active, read);
      if sent == [] {
        assert st.s2c + sent == st.s2c;
        SomeWeight(d.body);
      } else {
        assert sent == [sent[0]];
        DownWeightsSnoc(st.s2c, sent[0]);
      }
  }

  lemma DecodingWeighs(b: Body)
    ensures UpWeight(b) == ServerWeight(b) + 1
  {
  }

  lemma SomeWeight(b: Body)
    ensures ServerWeight(b) >= 1 && DownWeight(b) >= 1
  {
  }

  /** So a run without sends by the application is no longer than the weight
      it starts with. */
  lemma {:induction false} DeliveryRunsEnd(g: Config, st: Sys, run: seq<Action>)
    requires (forall i | 0 <= i < |run| :: IsDelivery(run[i])) && Exec(g, st, run).Some?
    ensures |run| + Weight(Exec(g, st, run).value) <= Weight(st)
    decreases |run|
  {
    hide Weight, Next, Enabled;
    if run != [] {
      DeliveryLowersWeight(g, st, run[0]);
      DeliveryRunsEnd(g, Next(g, st, run[0]), run[1..]);
    }
  }

  lemma {:induction false} ExecConcat(g: Config, st: Sys, a: seq<Action>, b: seq<Action>)
    requires Exec(g, st, a).Some?
    ensures Exec(g, st, a + b) == Exec(g, Exec(g, st, a).value, b)
    decreases |a|
  {
    hide Next, Enabled;
    if a == [] {
      assert a + b == b;
    } else {
      assert (a + b)[1..] == a[1..] + b;
      ExecConcat(g, Next(g, st, a[0]), a[1..], b);
    }
  }

  lemma ReachedFurther(g: Config, st: Sys, run: seq<Action>)
    requires Reached(g, st) && Exec(g, st, run).Some?
    ensures Reached(g, Exec(g, st, run).value)
  {
    hide Exec;
    var nonce: seq<Byte>, before: seq<Action> :|
      |nonce| == g.crypto.nonceBytes && Exec(g, Start(g, nonce), before) == Some(st);
    ExecConcat(g, Start(g, nonce), before, run);
  }

  /** From any reachable state, however many pings the application has put in,
      deliveries in any order complete the handshake: they cannot go on for
      ever, and they cannot stop before both ends are in the last stage with
      nothing left on its way. */
  lemma HandshakeCompletes(g: Config, st: Sys, run: seq<Action>)
    requires Sane(g) && Reached(g, st)
    requires (forall i | 0 <= i < |run| :: IsDelivery(run[i])) && Exec(g, st, run).Some?
    ensures |run| <= Weight(st)
    ensures var end := Exec(g, st, run).value;
            (forall a: Action :: IsDelivery(a) ==> !Enabled(g, end, a)) ==>
              Quiet(end) && end.client.stage == Chat && end.server.stage == Chat
  {
    hide Exec, Enabled, Weight, Reached, Sane;
    DeliveryRunsEnd(g, st, run);
    ReachedFurther(g, st, run);
    DeadlockFree(g, Exec(g, st, run).value);
  }
}
