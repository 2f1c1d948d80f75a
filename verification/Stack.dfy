/** The handshake over bytes: the two sessions, and between them two streams of
    bytes that arrive piece by piece and are cut into packets by `check_packet`.
    The state machine of `Handshake`, whose channels hold frames, is what this
    one refines. */
module Stack {
  import opened Bytes
  import opened Packets
  import opened Protocol
  import opened Streams
  import opened Framing
  import opened Endpoints
  import opened Handshake

  /** `c2s` holds the bytes the client wrote and the server has not parsed, of
      which the first `atServer` have arrived; `s2c` likewise. `queue` holds
      the packets parsed and not yet handled, `taken` all that were ever
      parsed. */
  datatype Net = Net(
    client: Endpoint, server: Endpoint,
    c2s: seq<Byte>, atServer: nat, s2c: seq<Byte>, atClient: nat,
    queue: seq<Packet>, taken: seq<Packet>)

  datatype Event =
    | ArriveAtServer(n: nat)
    | ArriveAtClient(n: nat)
    | ServerLooks
    | ClientLooks(nonce: seq<Byte>)
    | ServerWorks(nonce: seq<Byte>)
    | UserPings(id: Uint16, nonce: seq<Byte>)
    | UserCommands(id: Uint16, text: seq<Byte>, nonce: seq<Byte>)

  predicate Within(w: Net) {
    w.atServer <= |w.c2s| && w.atClient <= |w.s2c|
  }

  function Boot(g: Config, nonce: seq<Byte>): Net {
    Net(Fresh(g), Fresh(g), ReplyBytes(g, [Hello(nonce)]), 0, [], 0, [], [])
  }

  /** None when the event cannot happen, and when a look reads past the bytes
      that have arrived. */
  function Happen(g: Config, guard: nat, w: Net, e: Event): (r: Option<Net>)
    requires Within(w)
    ensures r.Some? ==> Within(r.value)
  {
    match e
    case ArriveAtServer(n) =>
      if w.atServer + n <= |w.c2s| then Some(w.(atServer := w.atServer + n)) else None
    case ArriveAtClient(n) =>
      if w.atClient + n <= |w.s2c| then Some(w.(atClient := w.atClient + n)) else None
    case ServerLooks =>
      var look := LookAt(g.crypto, guard, w.server.active, w.c2s[..w.atServer]);
      (match look
       case Wait => Some(w)
       case Take(p, next) =>
         Some(w.(c2s := w.c2s[next..], atServer := w.atServer - next, queue := w.queue + [p], taken := w.taken + [p]))
       case Drop(next) =>
         if next <= w.atServer then Some(w.(c2s := w.c2s[next..], atServer := w.atServer - next)) else None
       case Overrun => None)
    case ClientLooks(nonce) =>
      if |nonce| != g.crypto.nonceBytes then None
      else
        var look := ClientLookAt(g.crypto, guard, w.client.active, w.s2c[..w.atClient]);
        (match look
         case Wait => Some(w)
         case Take(p, next) =>
           var o := ClientHandle(g, w.client, Delivery(p.id, p.body, nonce));
           if next > w.atClient then None
           else Some(w.(client := o.end, s2c := w.s2c[next..], atClient := w.atClient - next,
                        c2s := w.c2s + ReplyBytes(g, o.sent)))
         case Drop(next) =>
           if next <= w.atClient then Some(w.(s2c := w.s2c[next..], atClient := w.atClient - next)) else None
         case Overrun => None)
    case ServerWorks(nonce) =>
      if w.queue == [] || |nonce| != g.crypto.nonceBytes then None
      else
        var o := ServerHandle(g, w.server, Delivery(w.queue[0].id, w.queue[0].body, nonce));
        Some(w.(server := o.end, queue := w.queue[1..], s2c := w.s2c + ReplyBytes(g, o.sent)))
    case UserPings(id, nonce) =>
      if |nonce| != g.crypto.nonceBytes then None
      else Some(w.(c2s := w.c2s + ReplyBytes(g, [Frame(id, Ping, w.client.active, nonce)])))
    case UserCommands(id, text, nonce) =>
      if |nonce| != g.crypto.nonceBytes || w.client.stage != Chat || !Writable(g.crypto, true, Command(text)) then None
      else Some(w.(c2s := w.c2s + ReplyBytes(g, [Frame(id, Command(text), w.client.active, nonce)])))
  }

  function Unfold(g: Config, guard: nat, w: Net, es: seq<Event>): (r: Option<Net>)
    requires Within(w)
    ensures r.Some? ==> Within(r.value)
    decreases |es|
  {
    if es == [] then Some(w)
    else
      var next := Happen(g, guard, w, es[0]);
      if next.None? then None else Unfold(g, guard, next.value, es[1..])
  }

  // ------------------------------------------------------------------
  // The refinement
  // ------------------------------------------------------------------

  /** The bytes in each stream are the frames in each channel, and the packets
      in the queue are the frames the server has decoded. */
  ghost predicate Stands(g: Config, w: Net, m: Sys) {
    && Within(w)
    && w.client == m.client && w.server == m.server
    && AllWritable(g.crypto, m.c2s) && AllWritable(g.crypto, m.s2c) && AllWritable(g.crypto, Frames(m.parsed))
    && w.c2s == Encode(g.crypto, m.c2s) && w.s2c == Encode(g.crypto, m.s2c)
    && w.queue == PacketsOf(g.crypto, Frames(m.parsed))
  }

  /** The next frame the server would parse is sealed and has a body. */
  ghost predicate SealedNext(m: Sys) {
    m.c2s != [] && m.c2s[0].sealed && SizedBody(m.c2s[0].body) && BodyBytes(m.c2s[0].body) != []
  }

  lemma EncodeFirst(c: Crypto, fs: seq<Frame>)
    requires AllWritable(c, fs) && fs != []
    ensures Encode(c, fs) == WireOf(c, fs[0]) + Encode(c, fs[1..])
  {
    hide WireOf, WritableFrame;
  }

  /** What `sent` adds to a stream of frames it adds to the stream of bytes. */
  lemma SentBytes(g: Config, fs: seq<Frame>, sent: seq<Frame>)
    requires AllWritable(g.crypto, fs) && AllWritable(g.crypto, sent)
    ensures AllWritable(g.crypto, fs + sent)
    ensures Encode(g.crypto, fs + sent) == Encode(g.crypto, fs) + ReplyBytes(g, sent)
  {
    hide WritableFrame;
    EncodeConcat(g.crypto, fs, sent);
  }

  /** The start of a stream of frames, up to the bytes that have arrived: part
      of the first frame, or the first frame and part of the rest. */
  lemma Arrived(c: Crypto, fs: seq<Frame>, n: nat)
    requires AllWritable(c, fs) && n <= |Encode(c, fs)|
    ensures fs == [] ==> n == 0
    ensures fs != [] && n < |WireOf(c, fs[0])| ==> Encode(c, fs)[..n] == WireOf(c, fs[0])[..n]
    ensures fs != [] && n >= |WireOf(c, fs[0])| ==>
              && n - |WireOf(c, fs[0])| <= |Encode(c, fs[1..])|
              && Encode(c, fs)[..n] == WireOf(c, fs[0]) + Encode(c, fs[1..])[..n - |WireOf(c, fs[0])|]
  {
    hide WireOf, WritableFrame;
    if fs != [] {
      EncodeFirst(c, fs);
    }
  }

  /** The server's look at the bytes takes a packet exactly when the first
      frame is all there, and the packet is as the sender made it; the cursor then stands short of the frame's
      end by the padding of a sealed body. */
  lemma ServerFinds(g: Config, guard: nat, w: Net, m: Sys)
    requires Lawful(g.crypto) && guard <= HEADER && Inv(g, m) && Stands(g, w, m)
    ensures var look := LookAt(g.crypto, guard, w.server.active, w.c2s[..w.atServer]);
            && (look.Wait? || look.Overrun? || look.Take?)
            && (look.Overrun? ==> guard < HEADER)
            && (look.Take? <==> m.c2s != [] && |WireOf(g.crypto, m.c2s[0])| <= w.atServer)
            && (look.Take? ==>
                  && look.packet == PacketOf(g.crypto, m.c2s[0])
                  && look.next == |WireOf(g.crypto, m.c2s[0])| - Shortfall(g.crypto, m.c2s[0].sealed, m.c2s[0].body))
  {
    hide Lawful, Inv, WireOf, PacketOf, WritableFrame, LookAt, Encode, BodyBytes, Shortfall;
    var c, fs := g.crypto, m.c2s;
    Arrived(c, fs, w.atServer);
    if fs == [] {
      EmptyLook(c, guard, w.server.active);
      assert w.c2s[..w.atServer] == [];
    } else {
      UpstreamSuits(g, m, |m.parsed|);
      if w.atServer < |WireOf(c, fs[0])| {
        LookAtPartial(c, guard, w.server.active, fs[0], w.atServer);
      } else {
        LookAtComplete(c, guard, w.server.active, fs[0], Encode(c, fs[1..])[..w.atServer - |WireOf(c, fs[0])|]);
      }
    }
  }

  lemma ClientFinds(g: Config, guard: nat, w: Net, m: Sys)
    requires Lawful(g.crypto) && guard <= HEADER && Inv(g, m) && Stands(g, w, m)
    ensures var look := ClientLookAt(g.crypto, guard, w.client.active, w.s2c[..w.atClient]);
            && (look.Wait? || look.Overrun? || look.Take?)
            && (look.Overrun? ==> guard < HEADER)
            && (look.Take? <==> m.s2c != [] && |WireOf(g.crypto, m.s2c[0])| <= w.atClient)
            && (look.Take? ==>
                  && Legible(m.s2c[0], m.client.active)
                  && look.packet == PacketOf(g.crypto, m.s2c[0])
                  && look.next == |WireOf(g.crypto, m.s2c[0])| <= w.atClient)
  {
    hide Lawful, Inv, WireOf, PacketOf, WritableFrame, ClientLookAt, Encode, BodyBytes, Shortfall;
    var c, fs := g.crypto, m.s2c;
    Arrived(c, fs, w.atClient);
    if fs == [] {
      EmptyClientLook(c, guard, w.client.active);
      assert w.s2c[..w.atClient] == [];
    } else {
      DownstreamSuits(g, m, 0);
      DownstreamPlain(g, m, 0);
      if w.atClient < |WireOf(c, fs[0])| {
        ClientLookAtPartial(c, guard, w.client.active, fs[0], w.atClient);
      } else {
        ClientLookAtComplete(c, guard, w.client.active, fs[0], Encode(c, fs[1..])[..w.atClient - |WireOf(c, fs[0])|]);
      }
    }
  }

  lemma EmptyClientLook(c: Crypto, guard: nat, active: bool)
    ensures ClientLookAt(c, guard, active, []) == Wait
  {
  }

  /** Nothing sealed with a body ever travels to the client. */
  lemma DownstreamPlain(g: Config, m: Sys, i: nat)
    requires Inv(g, m) && i < |m.s2c|
    ensures WritableFrame(g.crypto, m.s2c[i]) && Shortfall(g.crypto, m.s2c[i].sealed, m.s2c[i].body) == 0
  {
    hide NoPings, NoPongs, BodyBytes, Acceptable;
    var f := m.s2c[i];
    assert WritableFrame(g.crypto, f);
    InNoPongs(m.s2c, i);
    BodyLength(f.body);
  }

  /** All that is sealed with a body on its way to the server is a command. */
  lemma UpstreamSealed(g: Config, m: Sys)
    requires Inv(g, m) && SealedNext(m)
    ensures m.c2s[0].body.Command?
  {
    hide NoPings, NoPongs, BodyBytes, Acceptable;
    var f := m.c2s[0];
    assert Upstream(m)[|m.parsed|] == f;
    InNoPings(Upstream(m), |m.parsed|);
    BodyLength(f.body);
  }

  // ------------------------------------------------------------------
  // One event
  // ------------------------------------------------------------------

  function FirstBody(fs: seq<Frame>): Body {
    if fs == [] then Invalid else fs[0].body
  }

  /** The action that an event is in the state machine of frames. */
  function ActionOf(m: Sys, e: Event): Action
    requires !e.ArriveAtServer? && !e.ArriveAtClient?
  {
    match e
    case ServerLooks => ServerParse
    case ClientLooks(nonce) => ClientDeliver(nonce, FirstBody(m.s2c))
    case ServerWorks(nonce) => ServerHandles(nonce, FirstBody(Frames(m.parsed)))
    case UserPings(id, nonce) => AppPing(id, nonce)
    case UserCommands(id, text, nonce) => AppCommand(id, text, nonce)
  }

  /** Arrivals, and looks that have to wait, are no actions. */
  predicate Silent(w: Net, after: Net, e: Event) {
    e.ArriveAtServer? || e.ArriveAtClient? || ((e.ServerLooks? || e.ClientLooks?) && after == w)
  }

  /** `e` leads from `w`, which stands for `m`, to a state that stands for what
      `m` becomes. */
  ghost predicate Matched(g: Config, w: Net, after: Net, m: Sys, e: Event) {
    if Silent(w, after, e) then Stands(g, after, m)
    else Enabled(g, m, ActionOf(m, e)) && Stands(g, after, Next(g, m, ActionOf(m, e)))
  }

  function Follow(g: Config, w: Net, after: Net, m: Sys, e: Event): Sys
    requires Matched(g, w, after, m, e)
  {
    if Silent(w, after, e) then m else Next(g, m, ActionOf(m, e))
  }

  lemma OneMorePacket(g: Config, ds: seq<Decoded>, d: Decoded)
    requires AllWritable(g.crypto, Frames(ds)) && WritableFrame(g.crypto, d.frame)
    ensures AllWritable(g.crypto, Frames(ds + [d]))
    ensures PacketsOf(g.crypto, Frames(ds + [d])) == PacketsOf(g.crypto, Frames(ds)) + [PacketOf(g.crypto, d.frame)]
  {
    hide WritableFrame, PacketOf;
    assert Frames(ds + [d]) == Frames(ds) + [d.frame];
  }

  lemma OneLessPacket(g: Config, ds: seq<Decoded>)
    requires ds != [] && AllWritable(g.crypto, Frames(ds))
    ensures AllWritable(g.crypto, Frames(ds[1..])) && WritableFrame(g.crypto, ds[0].frame)
    ensures var ps := PacketsOf(g.crypto, Frames(ds));
            && ps[0] == PacketOf(g.crypto, ds[0].frame)
            && PacketsOf(g.crypto, Frames(ds[1..])) == ps[1..]
  {
    hide WritableFrame, PacketOf;
    assert Frames(ds)[0] == ds[0].frame;
    assert Frames(ds[1..]) == Frames(ds)[1..];
  }

  lemma FewerFrames(g: Config, fs: seq<Frame>)
    requires fs != [] && AllWritable(g.crypto, fs)
    ensures AllWritable(g.crypto, fs[1..])
    ensures Encode(g.crypto, fs)[|WireOf(g.crypto, fs[0])|..] == Encode(g.crypto, fs[1..])
  {
    hide WireOf, WritableFrame;
    EncodeFirst(g.crypto, fs);
  }

  /** A look of the server takes the frame that was sent. Unless the frame is
      sealed with a body, the streams then stand for the state after the parse;
      if it is, the padding's worth of its last bytes are still to be read, in
      front of the frames that follow. */
  lemma ServerLooksMatched(g: Config, guard: nat, w: Net, m: Sys)
    requires Lawful(g.crypto) && guard <= HEADER && Inv(g, m) && Stands(g, w, m)
    requires Happen(g, guard, w, ServerLooks).Some?
    ensures var after := Happen(g, guard, w, ServerLooks).value;
            || after == w
            || (&& Enabled(g, m, ServerParse)
                && WritableFrame(g.crypto, m.c2s[0]) && AllWritable(g.crypto, m.c2s[1..])
                && |WireOf(g.crypto, m.c2s[0])| <= w.atServer
                && after.taken == w.taken + [PacketOf(g.crypto, m.c2s[0])]
                && after.queue == w.queue + [PacketOf(g.crypto, m.c2s[0])]
                && (!SealedNext(m) ==> Stands(g, after, Next(g, m, ServerParse)))
                && (SealedNext(m) ==>
                      var frame := WireOf(g.crypto, m.c2s[0]);
                      && g.crypto.zeroBytes <= |frame|
                      && after.c2s == frame[|frame| - g.crypto.zeroBytes..] + Encode(g.crypto, m.c2s[1..])))
  {
    hide Lawful, Inv, WireOf, PacketOf, WritableFrame, LookAt, Encode, BodyBytes;
    ServerFinds(g, guard, w, m);
    var look := LookAt(g.crypto, guard, w.server.active, w.c2s[..w.atServer]);
    if look.Take? {
      var f := m.c2s[0];
      EncodeFirst(g.crypto, m.c2s);
      FewerFrames(g, m.c2s);
      InvSized(g, m);
      OneMorePacket(g, m.parsed, Decoded(f, m.server.active));
    }
  }

  lemma InvSized(g: Config, m: Sys)
    requires Inv(g, m) && m.c2s != []
    ensures SizedBody(m.c2s[0].body)
  {
    hide NoPings, NoPongs, BodyBytes, Acceptable;
    assert WritableFrame(g.crypto, Upstream(m)[|m.parsed|]);
  }

  lemma ClientLooksMatched(g: Config, guard: nat, w: Net, m: Sys, nonce: seq<Byte>)
    requires Lawful(g.crypto) && Sane(g) && guard <= HEADER && Inv(g, m) && Stands(g, w, m)
    requires Happen(g, guard, w, ClientLooks(nonce)).Some?
    ensures Matched(g, w, Happen(g, guard, w, ClientLooks(nonce)).value, m, ClientLooks(nonce))
  {
    hide Lawful, Sane, Inv, WireOf, WritableFrame, ClientLookAt, Encode, BodyBytes, ClientHandle, Legible, ReplyBytes;
    ClientFinds(g, guard, w, m);
    var look := ClientLookAt(g.crypto, guard, w.client.active, w.s2c[..w.atClient]);
    if look.Take? {
      var f := m.s2c[0];
      FewerFrames(g, m.s2c);
      RepliesWritable(g, m.client, ToHandler(f, f.body, nonce));
      SentBytes(g, m.c2s, ClientHandle(g, m.client, ToHandler(f, f.body, nonce)).sent);
      assert Enabled(g, m, ClientDeliver(nonce, f.body));
    }
  }

  lemma ServerWorksMatched(g: Config, guard: nat, w: Net, m: Sys, nonce: seq<Byte>)
    requires Sane(g) && Inv(g, m) && Stands(g, w, m)
    requires Happen(g, guard, w, ServerWorks(nonce)).Some?
    ensures Matched(g, w, Happen(g, guard, w, ServerWorks(nonce)).value, m, ServerWorks(nonce))
  {
    hide Sane, Inv, WritableFrame, Encode, BodyBytes, ServerHandle, Legible, ReplyBytes;
    var f := m.parsed[0].frame;
    OneLessPacket(g, m.parsed);
    ParsedLegible(g, m, 0);
    RepliesWritable(g, m.server, ToHandler(f, f.body, nonce));
    SentBytes(g, m.s2c, ServerHandle(g, m.server, ToHandler(f, f.body, nonce)).sent);
    assert Enabled(g, m, ServerHandles(nonce, f.body));
  }

  lemma UserMatched(g: Config, guard: nat, w: Net, m: Sys, e: Event)
    requires Sane(g) && Inv(g, m) && Stands(g, w, m) && (e.UserPings? || e.UserCommands?)
    requires Happen(g, guard, w, e).Some?
    ensures Matched(g, w, Happen(g, guard, w, e).value, m, e)
  {
    hide Sane, Encode, BodyBytes, ReplyBytes, Writable, NoPings, NoPongs;
    var body := if e.UserPings? then Ping else Command(e.text);
    var f := Frame(e.id, body, m.client.active, e.nonce);
    if e.UserPings? {
      SmallWritable(g, m.client.active, Ping);
    }
    hide Inv;
    SentBytes(g, m.c2s, [f]);
    assert Enabled(g, m, ActionOf(m, e));
  }

  /** A look that takes a frame keeps the streams in step with the channels
      exactly when the frame is plain, or empty, or the cipher has no padding. */
  lemma InStep(g: Config, guard: nat, w: Net, m: Sys)
    requires Lawful(g.crypto) && guard <= HEADER && Inv(g, m) && Stands(g, w, m)
    requires Happen(g, guard, w, ServerLooks).Some? && Happen(g, guard, w, ServerLooks).value != w
    ensures Enabled(g, m, ServerParse)
    ensures Stands(g, Happen(g, guard, w, ServerLooks).value, Next(g, m, ServerParse))
       <==> !SealedNext(m) || g.crypto.zeroBytes == 0
  {
    hide Lawful, Inv, WireOf, PacketOf, WritableFrame, Happen, Encode, SealedNext;
    ServerLooksMatched(g, guard, w, m);
    var after := Happen(g, guard, w, ServerLooks).value;
    if SealedNext(m) {
      var rest := Encode(g.crypto, m.c2s[1..]);
      if g.crypto.zeroBytes == 0 {
        OneMorePacket(g, m.parsed, Decoded(m.c2s[0], m.server.active));
        assert after.c2s == [] + rest == rest;
        OtherFields(g, guard, w);
      } else {
        assert |after.c2s| > |rest|;
      }
    }
  }

  lemma OtherFields(g: Config, guard: nat, w: Net)
    requires Within(w) && Happen(g, guard, w, ServerLooks).Some?
    ensures var after := Happen(g, guard, w, ServerLooks).value;
            after.client == w.client && after.server == w.server && after.s2c == w.s2c
  {
  }

  /** The server has parsed no command. */
  predicate NoCommandTaken(w: Net) {
    forall i | 0 <= i < |w.taken| :: !w.taken[i].body.Command?
  }

  /** What the results on runs are limited to: with a padded cipher, the time
      until the server parses a command; see `InStep`. */
  predicate Covered(g: Config, w: Net) {
    NoCommandTaken(w) || g.crypto.zeroBytes == 0
  }

  lemma CommandTaken(before: Net, after: Net, p: Packet)
    requires after.taken == before.taken + [p] && p.body.Command?
    ensures !NoCommandTaken(after)
  {
    assert after.taken[|before.taken|] == p;
  }

  lemma ServerEventMatched(g: Config, guard: nat, w: Net, m: Sys)
    requires Lawful(g.crypto) && guard <= HEADER && Inv(g, m) && Stands(g, w, m)
    requires Happen(g, guard, w, ServerLooks).Some?
    requires Covered(g, Happen(g, guard, w, ServerLooks).value)
    ensures Matched(g, w, Happen(g, guard, w, ServerLooks).value, m, ServerLooks)
  {
    assert Within(w);
    hide Lawful, Inv, Happen, WireOf, PacketOf, WritableFrame, Encode, NoCommandTaken, SealedNext, Stands;
    ServerLooksMatched(g, guard, w, m);
    var after := Happen(g, guard, w, ServerLooks).value;
    if after != w {
      InStep(g, guard, w, m);
      if SealedNext(m) && g.crypto.zeroBytes != 0 {
        UpstreamSealed(g, m);
        PacketBody(g, m.c2s[0]);
        CommandTaken(w, after, PacketOf(g.crypto, m.c2s[0]));
      }
    }
  }

  lemma EventMatched(g: Config, guard: nat, w: Net, m: Sys, e: Event)
    requires Lawful(g.crypto) && Sane(g) && guard <= HEADER && Inv(g, m) && Stands(g, w, m)
    requires Happen(g, guard, w, e).Some?
    requires Covered(g, Happen(g, guard, w, e).value)
    ensures Matched(g, w, Happen(g, guard, w, e).value, m, e)
  {
    var after := Happen(g, guard, w, e).value;
    match e
    case ArriveAtServer(_) =>
    case ArriveAtClient(_) =>
    case ServerLooks =>
      ServerEventMatched(g, guard, w, m);
    case ClientLooks(nonce) =>
      hide Lawful, Sane, Inv, Happen, Stands, Matched;
      ClientLooksMatched(g, guard, w, m, nonce);
    case ServerWorks(nonce) =>
      hide Lawful, Sane, Inv, Happen, Stands, Matched;
      ServerWorksMatched(g, guard, w, m, nonce);
    case UserPings(_, _) =>
      hide Lawful, Sane, Inv, Happen, Stands, Matched;
      UserMatched(g, guard, w, m, e);
    case UserCommands(_, _, _) =>
      hide Lawful, Sane, Inv, Happen, Stands, Matched;
      UserMatched(g, guard, w, m, e);
  }

  lemma PacketBody(g: Config, f: Frame)
    requires WritableFrame(g.crypto, f)
    ensures PacketOf(g.crypto, f).body == f.body
  {
  }
}
