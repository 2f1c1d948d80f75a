/** The sessions of both ends in place: handlers that assign the session's
    fields and write their replies to its output buffer
    (src/excom-server/handle_packets.ci, src/excom-client/handle_packets.ci),
    the worker's loop (src/excom-server/client.c) and the client's
    `check_packet` (src/excom-client/client.c). */
module Sessions {
  import opened Bytes
  import opened Buffers
  import opened Packets
  import opened Protocol
  import opened Streams
  import opened ProtocolIO
  import opened Endpoints
  import opened Framing
  import opened CheckPacket
  import opened PacketQueue

  /** A handler has done what `o` says: the session's fields are those of
      `o.end` and the output has grown by the frames of `o.sent`. */
  ghost predicate Did(g: Config, o: Outcome, state: Endpoint, before: View, after: View) {
    state == o.end && Grew(before, after, ReplyBytes(g, o.sent))
  }

  class ServerSession {
    const g: Config
    const out: Buffer
    var stage: Stage
    var active: bool
    var remoteKey: seq<Byte>

    ghost predicate Valid()
      reads this, out
    {
      Sane(g) && Lawful(g.crypto) && out.Valid() && !out.unmutable
    }

    ghost function State(): Endpoint
      reads this
    {
      Endpoint(stage, active, remoteKey)
    }

    /** `excom_server_client_connect` */
    constructor (g: Config)
      requires Sane(g) && Lawful(g.crypto)
      ensures Valid() && State() == Fresh(g) && this.g == g
      ensures fresh(out) && fresh(out.buf) && out.Value() == View(16, 0, [])
    {
      this.g := g;
      stage, active, remoteKey := PreHandshake, false, Zeros(g.keyBytes);
      out := new Buffer(16);
    }

    method Send(d: Delivery, measured: seq<Byte>, body: Body)
      requires Valid() && |measured| == |d.nonce| == g.crypto.nonceBytes
      requires !body.Invalid? && WellTyped(body) && SizedBody(body) && BodySize(body) <= 16 + g.keyBytes
      modifies out, out.buf
      ensures Valid() && (out.buf == old(out.buf) || fresh(out.buf))
      ensures Grew(old(out.Value()), out.Value(), ReplyBytes(g, [Reply(State(), d, body)]))
    {
      hide Lawful, Sane, Grew, ReplyBytes, Writable;
      SmallWritable(g, active, body);
      ReplyBytesOne(g, Reply(State(), d, body));
      var err, size := WritePacket(g.crypto, active, measured, d.nonce, d.id, body, out);
    }

    method HandleProtocolVersion(d: Delivery, measured: seq<Byte>)
      requires Valid() && d.body.ProtocolVersion? && |measured| == |d.nonce| == g.crypto.nonceBytes
      modifies this, out, out.buf
      ensures Valid() && (out.buf == old(out.buf) || fresh(out.buf))
      ensures Did(g, ServerHandle(g, old(State()), d), State(), old(out.Value()), out.Value())
      ensures old(stage) == PreHandshake ==>
                var accept := d.body.major == 0 && d.body.minor <= 3 && d.body.patch <= 11;
                && stage == (if accept then PreEncrypt else PreHandshake)
                && Grew(old(out.Value()), out.Value(),
                        ReplyBytes(g, [Reply(old(State()), d, if accept then Ok else Reject(1))]))
    {
      hide Lawful, Grew, ReplyBytes;
      if stage != PreHandshake {
        Send(d, measured, Error(NOT_AVAILABLE_ERROR));
        return;
      }
      if d.body.major != VERSION_MAJOR || Difference(d.body.minor, VERSION_MINOR) > 3
         || Difference(d.body.patch, VERSION_PATCH) > 10 {
        Send(d, measured, Reject(INVALID_PROTOCOL_ERROR));
      } else {
        stage := PreEncrypt;
        Send(d, measured, Ok);
      }
    }

    method HandlePublicKey(d: Delivery, measured: seq<Byte>)
      requires Valid() && d.body.PublicKey? && |measured| == |d.nonce| == g.crypto.nonceBytes
      modifies this, out, out.buf
      ensures Valid() && (out.buf == old(out.buf) || fresh(out.buf))
      ensures Did(g, ServerHandle(g, old(State()), d), State(), old(out.Value()), out.Value())
    {
      hide Lawful, Grew, ReplyBytes;
      if stage != PreEncrypt {
        Send(d, measured, Error(NOT_AVAILABLE_ERROR));
        return;
      }
      if |d.body.key| != g.keyBytes {
        Send(d, measured, Error(PUBLIC_KEY_ERROR));
      } else {
        // The source copies `remoteKey` into the packet here. Nothing looks at
        // the packet again, and the session keeps the key it has.
        Send(d, measured, PublicKey(g.serverKey));
        active := true;
        stage := Encrypt;
      }
    }

    method HandlePing(d: Delivery, measured: seq<Byte>)
      requires Valid() && d.body.Ping? && |measured| == |d.nonce| == g.crypto.nonceBytes
      modifies this, out, out.buf
      ensures Valid() && (out.buf == old(out.buf) || fresh(out.buf))
      ensures Did(g, ServerHandle(g, old(State()), d), State(), old(out.Value()), out.Value())
    {
      hide Lawful, Grew, ReplyBytes;
      Send(d, measured, Pong);
      if stage == Encrypt {
        stage := Chat;
      }
    }

    /** `command` and `command_response` */
    method HandleCommand(d: Delivery, measured: seq<Byte>)
      requires Valid() && (d.body.Command? || d.body.CommandResponse?)
      requires |measured| == |d.nonce| == g.crypto.nonceBytes
      modifies this, out, out.buf
      ensures Valid() && (out.buf == old(out.buf) || fresh(out.buf))
      ensures Did(g, ServerHandle(g, old(State()), d), State(), old(out.Value()), out.Value())
    {
      hide Lawful, Grew, ReplyBytes;
      if stage != Chat {
        Send(d, measured, Error(NOT_AVAILABLE_ERROR));
        return;
      }
      ReplyBytesNone(g);
      NothingGrows(out.Value());
    }

    /** The worker's switch on the packet type. */
    method Handle(d: Delivery, measured: seq<Byte>)
      requires Valid() && |measured| == |d.nonce| == g.crypto.nonceBytes
      modifies this, out, out.buf
      ensures Valid() && (out.buf == old(out.buf) || fresh(out.buf))
      ensures Did(g, ServerHandle(g, old(State()), d), State(), old(out.Value()), out.Value())
    {
      hide Lawful, Sane, Grew, ReplyBytes, Acceptable;
      match d.body
      case ProtocolVersion(_, _, _, _) => HandleProtocolVersion(d, measured);
      case PublicKey(_) => HandlePublicKey(d, measured);
      case Ping => HandlePing(d, measured);
      case Command(_) => HandleCommand(d, measured);
      case CommandResponse(_) => HandleCommand(d, measured);
      case _ =>
        ReplyBytesNone(g);
        NothingGrows(out.Value());
    }
  }

  // ------------------------------------------------------------------
  // The worker
  // ------------------------------------------------------------------

  /** Handling packets one after another, and all that they make it send. */
  function HandleAll(g: Config, s: Endpoint, ds: seq<Delivery>): Outcome
    decreases |ds|
  {
    if ds == [] then Outcome(s, [])
    else
      var first := ServerHandle(g, s, ds[0]);
      var rest := HandleAll(g, first.end, ds[1..]);
      Outcome(rest.end, first.sent + rest.sent)
  }

  /** Packets taken off a queue, with the nonces drawn for them. */
  function Taken(ps: seq<Packet>, nonces: nat -> seq<Byte>): (ds: seq<Delivery>)
    ensures |ds| == |ps|
    ensures forall i | 0 <= i < |ps| :: ds[i] == Delivery(ps[i].id, ps[i].body, nonces(i))
  {
    seq(|ps|, i requires 0 <= i < |ps| => Delivery(ps[i].id, ps[i].body, nonces(i)))
  }

  lemma ReplyBytesConcat(g: Config, a: seq<Frame>, b: seq<Frame>)
    requires AllWritable(g.crypto, a) && AllWritable(g.crypto, b)
    ensures AllWritable(g.crypto, a + b) && ReplyBytes(g, a + b) == ReplyBytes(g, a) + ReplyBytes(g, b)
  {
    hide WritableFrame;
    EncodeConcat(g.crypto, a, b);
  }

  lemma {:induction false} HandleAllSnoc(g: Config, s: Endpoint, ds: seq<Delivery>, d: Delivery)
    ensures var before := HandleAll(g, s, ds);
            var last := ServerHandle(g, before.end, d);
            HandleAll(g, s, ds + [d]) == Outcome(last.end, before.sent + last.sent)
    decreases |ds|
  {
    hide ServerHandle;
    var before := HandleAll(g, s, ds);
    var last := ServerHandle(g, before.end, d);
    if ds == [] {
      assert ds + [d] == [d] && [d][1..] == [];
      assert last.sent + [] == last.sent && [] + last.sent == last.sent;
    } else {
      TailOfSnoc(ds, d);
      var first := ServerHandle(g, s, ds[0]);
      HandleAllSnoc(g, first.end, ds[1..], d);
      Assoc(first.sent, HandleAll(g, first.end, ds[1..]).sent, last.sent);
    }
  }

  lemma TakenSnoc(ps: seq<Packet>, p: Packet, nonces: nat -> seq<Byte>)
    ensures Taken(ps + [p], nonces) == Taken(ps, nonces) + [Delivery(p.id, p.body, nonces(|ps|))]
  {
  }

  function Flatten(batches: seq<seq<Packet>>): seq<Packet> {
    if batches == [] then [] else Flatten(batches[..|batches| - 1]) + batches[|batches| - 1]
  }

  /** What the parser appends while the first `n` packets are handled. */
  function Upto(batches: seq<seq<Packet>>, n: nat): seq<Packet> {
    Flatten(if n < |batches| then batches[..n] else batches)
  }

  function Batch(batches: seq<seq<Packet>>, n: nat): seq<Packet> {
    if n < |batches| then batches[n] else []
  }

  lemma UptoNext(batches: seq<seq<Packet>>, n: nat)
    ensures Upto(batches, n + 1) == Upto(batches, n) + Batch(batches, n)
  {
    if n < |batches| {
      assert batches[..n + 1][..n] == batches[..n];
      assert n + 1 == |batches| ==> batches[..n + 1] == batches;
    } else {
      assert Flatten(batches) + [] == Flatten(batches);
    }
  }

  function Left(batches: seq<seq<Packet>>, n: nat): nat
    decreases |batches| - n
  {
    if n >= |batches| then 0 else |batches[n]| + Left(batches, n + 1)
  }

  method AppendAll(queue: Queue, ps: seq<Packet>)
    requires queue.Valid()
    modifies queue, queue.owned
    ensures queue.Valid() && fresh(queue.owned - old(queue.owned))
    ensures queue.Contents() == old(queue.Contents()) + ps
  {
    hide Queue.Valid, Queue.Contents;
    assert old(queue.Contents()) + ps[..0] == old(queue.Contents());
    for i := 0 to |ps|
      invariant queue.Valid() && fresh(queue.owned - old(queue.owned))
      invariant queue.Contents() == old(queue.Contents()) + ps[..i]
    {
      queue.Append(ps[i]);
      Assoc(old(queue.Contents()), ps[..i], [ps[i]]);
      assert ps[..i + 1] == ps[..i] + [ps[i]];
    }
    assert ps[..|ps|] == ps;
  }

  /** One turn of the worker's inner loop: the first packet is handled, and
      meanwhile the parser appends `batch`. */
  method TakeOne(
      session: ServerSession, queue: Queue, batch: seq<Packet>, measured: seq<Byte>, nonce: seq<Byte>)
    requires session.Valid() && queue.Valid() && queue.packets != null
    requires |measured| == |nonce| == session.g.crypto.nonceBytes
    modifies session, session.out, session.out.buf, queue, queue.owned
    ensures session.Valid() && queue.Valid() && fresh(queue.owned - old(queue.owned))
    ensures session.out.buf == old(session.out.buf) || fresh(session.out.buf)
    ensures old(queue.Contents()) != [] && queue.Contents() == old(queue.Contents())[1..] + batch
    ensures var p := old(queue.Contents())[0];
            Did(session.g, ServerHandle(session.g, old(session.State()), Delivery(p.id, p.body, nonce)),
                session.State(), old(session.out.Value()), session.out.Value())
  {
    hide Lawful, Sane, Did, ServerHandle, ReplyBytes, Queue.Contents;
    var packet := queue.Dequeue();
    session.Handle(Delivery(packet.id, packet.body, nonce), measured);
    AppendAll(queue, batch);
  }

  /** After `n` turns of a loop that found `waiting` in the list: the packets
      that have come to it are `waiting` and `Upto(batches, n)`, the first `n`
      of them are handled, and `rest` are left. */
  ghost predicate Turns(
      g: Config, start: Endpoint, waiting: seq<Packet>, batches: seq<seq<Packet>>, nonces: nat -> seq<Byte>, n: nat,
      rest: seq<Packet>, o: Outcome)
  {
    var all := waiting + Upto(batches, n);
    && n <= |all| && rest == all[n..]
    && o == HandleAll(g, start, Taken(all[..n], nonces)) && AllWritable(g.crypto, o.sent)
  }

  lemma NoTurns(
      g: Config, start: Endpoint, waiting: seq<Packet>, batches: seq<seq<Packet>>, nonces: nat -> seq<Byte>, v: View)
    requires v.Ok()
    ensures Turns(g, start, waiting, batches, nonces, 0, waiting, Outcome(start, []))
    ensures Did(g, Outcome(start, []), start, v, v)
  {
    assert waiting + [] == waiting && v.data + [] == v.data;
  }

  lemma OneMoreTaken(all: seq<Packet>, n: nat, more: seq<Packet>)
    requires n < |all|
    ensures all[..n] + [all[n]] == (all + more)[..n + 1]
    ensures all[n..][0] == all[n] && all[n..][1..] + more == (all + more)[n + 1..]
  {
  }

  lemma OneMoreTurn(
      g: Config, start: Endpoint, waiting: seq<Packet>, batches: seq<seq<Packet>>, nonces: nat -> seq<Byte>, n: nat,
      rest: seq<Packet>, o: Outcome)
    requires Sane(g) && |nonces(n)| == g.crypto.nonceBytes && rest != []
    requires Turns(g, start, waiting, batches, nonces, n, rest, o)
    ensures var last := ServerHandle(g, o.end, Delivery(rest[0].id, rest[0].body, nonces(n)));
            && Turns(g, start, waiting, batches, nonces, n + 1, rest[1..] + Batch(batches, n),
                     Outcome(last.end, o.sent + last.sent))
            && ReplyBytes(g, o.sent + last.sent) == ReplyBytes(g, o.sent) + ReplyBytes(g, last.sent)
  {
    hide Sane, ServerHandle, WritableFrame, ReplyBytes, HandleAll, Taken;
    var all, more := waiting + Upto(batches, n), Batch(batches, n);
    var d := Delivery(rest[0].id, rest[0].body, nonces(n));
    OneMoreTaken(all, n, more);
    UptoNext(batches, n);
    Assoc(waiting, Upto(batches, n), more);
    TakenSnoc(all[..n], rest[0], nonces);
    HandleAllSnoc(g, start, Taken(all[..n], nonces), d);
    RepliesWritable(g, o.end, d);
    ReplyBytesConcat(g, o.sent, ServerHandle(g, o.end, d).sent);
  }

  lemma AllTurns(
      g: Config, start: Endpoint, waiting: seq<Packet>, batches: seq<seq<Packet>>, nonces: nat -> seq<Byte>, n: nat,
      o: Outcome)
    requires Turns(g, start, waiting, batches, nonces, n, [], o)
    ensures var all := waiting + Upto(batches, n);
            n == |all| && o == HandleAll(g, start, Taken(all, nonces))
  {
    var all := waiting + Upto(batches, n);
    assert all[..n] == all;
  }

  lemma DidMore(g: Config, o: Outcome, p: Outcome, s: Endpoint, t: Endpoint, u: View, v: View, w: View)
    requires Did(g, o, s, u, v) && Did(g, p, t, v, w)
    requires ReplyBytes(g, o.sent + p.sent) == ReplyBytes(g, o.sent) + ReplyBytes(g, p.sent)
    ensures Did(g, Outcome(p.end, o.sent + p.sent), t, u, w)
  {
    hide ReplyBytes;
    GrewTwice(u, v, w, ReplyBytes(g, o.sent), ReplyBytes(g, p.sent));
  }

  /** The worker's inner loop. While it handles its n-th packet the parser
      appends `batches[n]`. Every packet that the list holds, or comes to hold
      before the loop sees it empty, is handled once, first come first served. */
  method WorkerPass(
      session: ServerSession, queue: Queue, batches: seq<seq<Packet>>,
      measured: nat -> seq<Byte>, nonces: nat -> seq<Byte>)
    returns (n: nat)
    requires session.Valid() && queue.Valid()
    requires forall n :: |measured(n)| == |nonces(n)| == session.g.crypto.nonceBytes
    modifies session, session.out, session.out.buf, queue, queue.owned
    ensures session.Valid() && queue.Valid() && queue.Contents() == []
    ensures session.out.buf == old(session.out.buf) || fresh(session.out.buf)
    ensures var all := old(queue.Contents()) + Upto(batches, n);
            && n == |all|
            && Did(session.g, HandleAll(session.g, old(session.State()), Taken(all, nonces)), session.State(),
                   old(session.out.Value()), session.out.Value())
  {
    hide Lawful, Did, ReplyBytes, HandleAll, ServerHandle, Taken, Queue.Valid, Queue.Contents, Left, Turns;
    ghost var g, start, waiting, o := session.g, session.State(), queue.Contents(), Outcome(session.State(), []);
    n := 0;
    NoTurns(g, start, waiting, batches, nonces, session.out.Value());
    while queue.packets != null
      invariant session.Valid() && queue.Valid() && fresh(queue.owned - old(queue.owned))
      invariant session.out.buf == old(session.out.buf) || fresh(session.out.buf)
      invariant Turns(g, start, waiting, batches, nonces, n, queue.Contents(), o)
      invariant o.end == session.State() && Did(g, o, session.State(), old(session.out.Value()), session.out.Value())
      decreases |queue.Contents()| + Left(batches, n)
    {
      ghost var rest, s, before := queue.Contents(), session.State(), session.out.Value();
      TakeOne(session, queue, Batch(batches, n), measured(n), nonces(n));
      ghost var last := ServerHandle(g, s, Delivery(rest[0].id, rest[0].body, nonces(n)));
      OneMoreTurn(g, start, waiting, batches, nonces, n, rest, o);
      DidMore(g, o, last, s, session.State(), old(session.out.Value()), before, session.out.Value());
      DidEnd(g, last, session.State(), before, session.out.Value());
      LeftStep(batches, n);
      o, n := Outcome(last.end, o.sent + last.sent), n + 1;
    }
    NoneLeft(queue);
    AllTurns(g, start, waiting, batches, nonces, n, o);
  }

  lemma DidEnd(g: Config, o: Outcome, s: Endpoint, before: View, after: View)
    requires Did(g, o, s, before, after)
    ensures o.end == s
  {
  }

  lemma LeftStep(batches: seq<seq<Packet>>, n: nat)
    ensures Left(batches, n) == |Batch(batches, n)| + Left(batches, n + 1)
  {
  }

  lemma NoneLeft(queue: Queue)
    requires queue.Valid() && queue.packets == null
    ensures queue.Contents() == []
  {
  }

  // ------------------------------------------------------------------
  // The client
  // ------------------------------------------------------------------

  class ClientSession {
    const g: Config
    const input: Buffer
    const out: Buffer
    var stage: Stage
    var active: bool
    var remoteKey: seq<Byte>
    /** Every packet ever taken, latest first. */
    var packets: seq<Packet>

    ghost predicate Valid()
      reads this, out, input
    {
      && Sane(g) && Lawful(g.crypto)
      && out.Valid() && !out.unmutable && input.Valid()
      && input != out && input.buf != out.buf
    }

    ghost function State(): Endpoint
      reads this
    {
      Endpoint(stage, active, remoteKey)
    }

    /** `excom_client_init`, with the buffers that `excom_client_connect` sets
        up; they are not freed when they run empty. */
    constructor (g: Config)
      requires Sane(g) && Lawful(g.crypto)
      ensures Valid() && this.g == g && State() == Fresh(g) && packets == []
      ensures fresh(input) && fresh(input.buf) && fresh(out) && fresh(out.buf)
      ensures input.Value() == out.Value() == View(32, 0, []) && !input.freeable && !out.freeable
    {
      this.g := g;
      stage, active, remoteKey, packets := PreHandshake, false, Zeros(g.keyBytes), [];
      input := new Buffer(32);
      out := new Buffer(32);
      new;
      input.freeable := false;
      out.freeable := false;
    }

    /** The rest of `excom_client_connect`: the first message is written to the
        output buffer, and from there to the socket as far as it answers. The
        result of that write is not looked at. */
    method Connect(measured: seq<Byte>, nonce: seq<Byte>, answer: int, errno: int) returns (err: int, sent: seq<Byte>)
      requires Valid() && State() == Fresh(g) && out.Value() == View(32, 0, []) && !out.freeable
      requires |measured| == |nonce| == g.crypto.nonceBytes && answer <= 21
      modifies out, out.buf
      ensures Valid() && (out.buf == old(out.buf) || fresh(out.buf))
      ensures err == 0 && |sent| == if answer > 0 then answer else 0
      ensures sent + out.Unread()
           == [0, 0, 0, 0x0d, 0, 1, 0, 4, 0, 0, 0, 6, 0x30, 0x2e, 0x30, 0x2e, 0x31, 0, 0, 0, 1]
    {
      hide Lawful, Sane, Grew, ReplyBytes, Acceptable, Drained;
      HelloWritable(g, nonce);
      HelloBytes(g, nonce);
      ReplyBytesOne(g, Hello(nonce));
      var werr, size := WritePacket(g.crypto, active, measured, nonce, 1, Hello(nonce).body, out);
      FromEmpty(out.Value(), ReplyBytes(g, [Hello(nonce)]));
      WriteKeepsOrder(out.Value(), out.freeable, answer);
      werr, sent := out.Write(answer, errno);
      return 0, sent;
    }

    method Send(d: Delivery, measured: seq<Byte>, body: Body)
      requires Valid() && |measured| == |d.nonce| == g.crypto.nonceBytes
      requires !body.Invalid? && WellTyped(body) && SizedBody(body) && BodySize(body) <= 16 + g.keyBytes
      modifies out, out.buf
      ensures Valid() && (out.buf == old(out.buf) || fresh(out.buf))
      ensures Grew(old(out.Value()), out.Value(), ReplyBytes(g, [Reply(State(), d, body)]))
    {
      hide Lawful, Sane, Grew, ReplyBytes, Writable;
      SmallWritable(g, active, body);
      ReplyBytesOne(g, Reply(State(), d, body));
      var err, size := WritePacket(g.crypto, active, measured, d.nonce, d.id, body, out);
    }

    method HandleOk(d: Delivery, measured: seq<Byte>)
      requires Valid() && d.body.Ok? && |measured| == |d.nonce| == g.crypto.nonceBytes
      modifies this, out, out.buf
      ensures Valid() && (out.buf == old(out.buf) || fresh(out.buf)) && packets == old(packets)
      ensures Did(g, ClientHandle(g, old(State()), d), State(), old(out.Value()), out.Value())
    {
      hide Lawful, Grew, ReplyBytes;
      if stage == PreHandshake {
        stage := PreEncrypt;
        Send(d, measured, PublicKey(g.clientKey));
      } else {
        ReplyBytesNone(g);
        NothingGrows(out.Value());
      }
    }

    method HandlePublicKey(d: Delivery, measured: seq<Byte>)
      requires Valid() && d.body.PublicKey? && |measured| == |d.nonce| == g.crypto.nonceBytes
      modifies this, out, out.buf
      ensures Valid() && (out.buf == old(out.buf) || fresh(out.buf)) && packets == old(packets)
      ensures Did(g, ClientHandle(g, old(State()), d), State(), old(out.Value()), out.Value())
    {
      hide Lawful, Grew, ReplyBytes;
      if stage != PreEncrypt {
        Send(d, measured, Error(NOT_AVAILABLE_ERROR));
        return;
      }
      if |d.body.key| != g.keyBytes {
        Send(d, measured, Error(PUBLIC_KEY_ERROR));
      } else {
        active := true;
        stage := Encrypt;
        Send(d, measured, Ping);
      }
    }

    method HandlePong(d: Delivery, measured: seq<Byte>)
      requires Valid() && d.body.Pong? && |measured| == |d.nonce| == g.crypto.nonceBytes
      modifies this, out, out.buf
      ensures Valid() && (out.buf == old(out.buf) || fresh(out.buf)) && packets == old(packets)
      ensures Did(g, ClientHandle(g, old(State()), d), State(), old(out.Value()), out.Value())
      ensures old(stage) == Encrypt ==>
                stage == Chat
                && Grew(old(out.Value()), out.Value(), ReplyBytes(g, [Reply(old(State()), d, Command(
                          [0x68, 0x65, 0x6c, 0x6c, 0x6f, 0x20, 0x77, 0x6f, 0x72, 0x6c, 0x64]))]))
    {
      hide Lawful, Grew, ReplyBytes;
      if stage == Encrypt {
        stage := Chat;
        Send(d, measured, Command(GREETING));
      } else {
        ReplyBytesNone(g);
        NothingGrows(out.Value());
      }
    }

    /** The default handler's switch on the packet type. */
    method Handle(d: Delivery, measured: seq<Byte>)
      requires Valid() && |measured| == |d.nonce| == g.crypto.nonceBytes
      modifies this, out, out.buf
      ensures Valid() && (out.buf == old(out.buf) || fresh(out.buf)) && packets == old(packets)
      ensures Did(g, ClientHandle(g, old(State()), d), State(), old(out.Value()), out.Value())
    {
      hide Lawful, Grew, ReplyBytes;
      match d.body
      case Ok => HandleOk(d, measured);
      case PublicKey(_) => HandlePublicKey(d, measured);
      case ProtocolVersion(_, _, _, _) => Send(d, measured, Error(INVALID_ERROR));
      case Pong => HandlePong(d, measured);
      case _ =>
        ReplyBytesNone(g);
        NothingGrows(out.Value());
    }

    /** One read event: at most one packet is taken, and handled at once. */
    method CheckPacket(guard: nat, measured: seq<Byte>, nonce: seq<Byte>) returns (look: Look)
      requires Valid() && |measured| == |nonce| == g.crypto.nonceBytes
      modifies this, input`pos, out, out.buf
      ensures Valid()
      ensures look == ClientLookAt(g.crypto, guard, old(active), old(input.Unread()))
      ensures look.Take? ==>
                && look.next <= |old(input.Unread())| && input.Unread() == old(input.Unread())[look.next..]
                && packets == [look.packet] + old(packets)
                && Did(g, ClientHandle(g, old(State()), Delivery(look.packet.id, look.packet.body, nonce)),
                       State(), old(out.Value()), out.Value())
      ensures look.Wait? ==> input.Unread() == old(input.Unread())
      ensures look.Drop? ==>
                look.next <= |old(input.Unread())| && input.Unread() == old(input.Unread())[look.next..]
      ensures !look.Take? ==>
                State() == old(State()) && packets == old(packets) && out.Value() == old(out.Value())
    {
      hide Lawful, Sane, Grew, ReplyBytes, SizeAt, Needed, ReadFrame, ClientHandle;
      ghost var unread := input.Unread();
      NextFits(g.crypto, active, unread);
      if input.Remaining() < 4 {
        return Wait;
      }
      var size := PeekSize(input);
      if input.Remaining() < Needed(guard, size) {
        return Wait;
      }
      var r := ReadPacket(g.crypto, active, input);
      match r
      case Rejected(next) => return Drop(next);
      case Fault => return Overrun;
      case Parsed(packet, next) =>
        packets := [packet] + packets;
        Handle(Delivery(packet.id, packet.body, nonce), measured);
        return Take(packet, next);
    }
  }
}
