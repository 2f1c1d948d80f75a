/** Whole runs of the two ends over bytes: they follow the state machine of
    frames, and they get the handshake done. */
module StackRuns {
  import opened Bytes
  import opened Packets
  import opened Protocol
  import opened Streams
  import opened Framing
  import opened Endpoints
  import opened Handshake
  import opened Stack

  lemma TakenGrows(g: Config, guard: nat, w: Net, e: Event)
    requires Within(w) && Happen(g, guard, w, e).Some?
    ensures w.taken <= Happen(g, guard, w, e).value.taken
  {
    hide LookAt, ClientLookAt, ServerHandle, ClientHandle, ReplyBytes, Writable;
  }

  lemma {:induction false} TakenGrowsAlong(g: Config, guard: nat, w: Net, es: seq<Event>)
    requires Within(w) && Unfold(g, guard, w, es).Some?
    ensures w.taken <= Unfold(g, guard, w, es).value.taken
    decreases |es|
  {
    hide Happen, Within;
    if es != [] {
      TakenGrows(g, guard, w, es[0]);
      TakenGrowsAlong(g, guard, Happen(g, guard, w, es[0]).value, es[1..]);
    }
  }

  lemma FewerTaken(g: Config, before: Net, after: Net)
    requires before.taken <= after.taken && Covered(g, after)
    ensures Covered(g, before)
  {
    assert forall i | 0 <= i < |before.taken| :: before.taken[i] == after.taken[i];
  }

  lemma Booted(g: Config, nonce: seq<Byte>)
    requires Sane(g) && |nonce| == g.crypto.nonceBytes
    ensures Stands(g, Boot(g, nonce), Start(g, nonce))
  {
    hide Sane, WireOf, WritableFrame, Acceptable;
    HelloWritable(g, nonce);
  }

  lemma StepReached(g: Config, m: Sys, a: Action)
    requires Reached(g, m) && Enabled(g, m, a)
    ensures Reached(g, Next(g, m, a))
  {
    hide Enabled, Next, Reached;
    assert [a][1..] == [];
    assert Exec(g, m, [a]) == Exec(g, Next(g, m, a), []) == Some(Next(g, m, a));
    ReachedFurther(g, m, [a]);
  }

  // ------------------------------------------------------------------
  // The machine of frames alongside a run
  // ------------------------------------------------------------------

  predicate HasCommand(fs: seq<Frame>) {
    exists i | 0 <= i < |fs| :: fs[i].body.Command?
  }

  /** `w` stands for the reachable state `m`, and a client in the last stage has
      a command on its way or had one parsed. */
  ghost predicate Follows(g: Config, w: Net, m: Sys) {
    && Reached(g, m) && Stands(g, w, m)
    && (m.client.stage == Chat ==> HasCommand(m.c2s) || !NoCommandTaken(w))
  }

  lemma HasCommandMore(fs: seq<Frame>, gs: seq<Frame>)
    ensures HasCommand(fs + gs) <==> HasCommand(fs) || HasCommand(gs)
  {
    assert forall i | 0 <= i < |fs| :: (fs + gs)[i] == fs[i];
    assert forall i | 0 <= i < |gs| :: (fs + gs)[|fs| + i] == gs[i];
  }

  lemma HasCommandFirst(fs: seq<Frame>)
    requires fs != []
    ensures HasCommand(fs) <==> fs[0].body.Command? || HasCommand(fs[1..])
  {
    assert fs == [fs[0]] + fs[1..];
    HasCommandMore([fs[0]], fs[1..]);
    assert [fs[0]][0] == fs[0];
  }

  /** A client that enters the last stage sends a command. */
  lemma EnteringChat(g: Config, s: Endpoint, d: Delivery)
    ensures var o := ClientHandle(g, s, d);
            o.end.stage == Chat ==> s.stage == Chat || HasCommand(o.sent)
  {
    var o := ClientHandle(g, s, d);
    if o.end.stage == Chat && s.stage != Chat {
      assert o.sent[0].body.Command?;
    }
  }

  lemma ParsedCommand(g: Config, guard: nat, w: Net, m: Sys)
    requires Lawful(g.crypto) && guard <= HEADER && Inv(g, m) && Stands(g, w, m)
    requires Happen(g, guard, w, ServerLooks).Some?
    ensures var after := Happen(g, guard, w, ServerLooks).value;
            after != w ==>
              && m.c2s != [] && WritableFrame(g.crypto, m.c2s[0]) && |WireOf(g.crypto, m.c2s[0])| <= w.atServer
              && (NoCommandTaken(after) <==> NoCommandTaken(w) && !m.c2s[0].body.Command?)
  {
    hide Lawful, Inv, Happen, WireOf, PacketOf, WritableFrame, Encode;
    ServerLooksMatched(g, guard, w, m);
    var after := Happen(g, guard, w, ServerLooks).value;
    if after != w {
      var p := PacketOf(g.crypto, m.c2s[0]);
      PacketBody(g, m.c2s[0]);
      assert after.taken[|w.taken|] == p;
      assert forall i | 0 <= i < |w.taken| :: after.taken[i] == w.taken[i];
    }
  }

  /** Only a look of the server parses anything. */
  lemma TakenStays(g: Config, guard: nat, w: Net, e: Event)
    requires Within(w) && Happen(g, guard, w, e).Some? && !e.ServerLooks?
    ensures Happen(g, guard, w, e).value.taken == w.taken
  {
    hide LookAt, ClientLookAt, ServerHandle, ClientHandle, ReplyBytes, Writable;
  }

  /** Commands are not lost on the way to the server. */
  lemma CommandsStay(g: Config, m: Sys, a: Action)
    requires Enabled(g, m, a) && !a.ServerParse?
    ensures HasCommand(m.c2s) ==> HasCommand(Next(g, m, a).c2s)
    ensures Next(g, m, a).client.stage == Chat ==> m.client.stage == Chat || HasCommand(Next(g, m, a).c2s)
  {
    hide ClientHandle, ServerHandle, HasCommand, ReadAs;
    match a
    case ClientDeliver(nonce, read) =>
      var d := ToHandler(m.s2c[0], read, nonce);
      EnteringChat(g, m.client, d);
      HasCommandMore(m.c2s, ClientHandle(g, m.client, d).sent);
    case ServerHandles(_, _) =>
    case AppPing(id, nonce) =>
      HasCommandMore(m.c2s, [Frame(id, Ping, m.client.active, nonce)]);
    case AppCommand(id, text, nonce) =>
      HasCommandMore(m.c2s, [Frame(id, Command(text), m.client.active, nonce)]);
  }

  lemma StepFollows(g: Config, guard: nat, w: Net, m: Sys, e: Event)
    requires Lawful(g.crypto) && Sane(g) && guard <= HEADER && Follows(g, w, m)
    requires Happen(g, guard, w, e).Some? && Covered(g, Happen(g, guard, w, e).value)
    ensures var after := Happen(g, guard, w, e).value;
            Matched(g, w, after, m, e) && Follows(g, after, Follow(g, w, after, m, e))
  {
    FollowsOk(g, w, m);
    hide Lawful, Sane, Reached, Happen, Enabled, Next, Inv, Covered, Stands, HasCommand, NoCommandTaken;
    ReachedInv(g, m);
    EventMatched(g, guard, w, m, e);
    var after := Happen(g, guard, w, e).value;
    TakenGrows(g, guard, w, e);
    if NoCommandTaken(after) {
      FewerCommands(w, after);
    }
    if !Silent(w, after, e) {
      StepReached(g, m, ActionOf(m, e));
      StepOwes(g, guard, w, m, e);
    }
  }

  lemma FewerCommands(before: Net, after: Net)
    requires before.taken <= after.taken && NoCommandTaken(after)
    ensures NoCommandTaken(before)
  {
    assert forall i | 0 <= i < |before.taken| :: before.taken[i] == after.taken[i];
  }

  lemma StepOwes(g: Config, guard: nat, w: Net, m: Sys, e: Event)
    requires Lawful(g.crypto) && Sane(g) && guard <= HEADER && Follows(g, w, m)
    requires Happen(g, guard, w, e).Some?
    requires !Silent(w, Happen(g, guard, w, e).value, e) && Enabled(g, m, ActionOf(m, e))
    ensures var after, t := Happen(g, guard, w, e).value, Next(g, m, ActionOf(m, e));
            t.client.stage == Chat ==> HasCommand(t.c2s) || !NoCommandTaken(after)
  {
    var a := ActionOf(m, e);
    hide Lawful, Sane, Reached, Happen, Enabled, Inv, Stands, HasCommand, NoCommandTaken, ClientHandle, ServerHandle;
    if e.ServerLooks? {
      ReachedInv(g, m);
      ParsedCommand(g, guard, w, m);
      HasCommandFirst(m.c2s);
    } else {
      hide Next;
      CommandsStay(g, m, a);
      TakenStays(g, guard, w, e);
      SameTaken(w, Happen(g, guard, w, e).value);
    }
  }

  lemma SameTaken(before: Net, after: Net)
    requires before.taken == after.taken
    ensures NoCommandTaken(before) <==> NoCommandTaken(after)
  {
  }

  lemma {:induction false} UnfoldsInStep(g: Config, guard: nat, w: Net, m: Sys, es: seq<Event>) returns (end: Sys)
    requires Lawful(g.crypto) && Sane(g) && guard <= HEADER && Follows(g, w, m)
    requires Unfold(g, guard, w, es).Some? && Covered(g, Unfold(g, guard, w, es).value)
    ensures Follows(g, Unfold(g, guard, w, es).value, end)
    decreases |es|
  {
    hide Lawful, Sane, Reached, Happen, Enabled, Next, Inv, Covered;
    if es == [] {
      end := m;
    } else {
      var after := Happen(g, guard, w, es[0]).value;
      TakenGrowsAlong(g, guard, after, es[1..]);
      FewerTaken(g, after, Unfold(g, guard, after, es[1..]).value);
      StepFollows(g, guard, w, m, es[0]);
      end := UnfoldsInStep(g, guard, after, Follow(g, w, after, m, es[0]), es[1..]);
    }
  }

  lemma BootFollows(g: Config, nonce: seq<Byte>)
    requires Sane(g) && |nonce| == g.crypto.nonceBytes
    ensures Follows(g, Boot(g, nonce), Start(g, nonce))
  {
    Booted(g, nonce);
    hide Stands, Boot;
    assert Exec(g, Start(g, nonce), []) == Some(Start(g, nonce));
  }

  /** Whatever pieces the bytes arrive in, and however looks, handling and the
      application's sends interleave: until the server parses a command, and for
      good if the cipher has no padding, the bytes in the two streams and the
      packets in the queue are those of a reachable state of the machine of
      frames. Runs are those in which no look reads past the bytes that have
      arrived; `LooksAreSafe` says that a guard as long as the header allows no
      other. That a run gets anywhere is said by `BytesComplete`. */
  lemma BytesFollowFrames(g: Config, guard: nat, nonce: seq<Byte>, es: seq<Event>) returns (m: Sys)
    requires Lawful(g.crypto) && Sane(g) && guard <= HEADER && |nonce| == g.crypto.nonceBytes
    requires Within(Boot(g, nonce)) && Unfold(g, guard, Boot(g, nonce), es).Some?
    requires Covered(g, Unfold(g, guard, Boot(g, nonce), es).value)
    ensures Follows(g, Unfold(g, guard, Boot(g, nonce), es).value, m)
  {
    hide Lawful, Sane, Follows, Covered, Happen, Boot;
    BootFollows(g, nonce);
    FollowsOk(g, Boot(g, nonce), Start(g, nonce));
    m := UnfoldsInStep(g, guard, Boot(g, nonce), Start(g, nonce), es);
  }

  lemma FollowsOk(g: Config, w: Net, m: Sys)
    requires Follows(g, w, m)
    ensures Within(w)
  {
  }

  /** With the header's length as the guard a look never fails. */
  lemma LooksAreSafe(g: Config, w: Net, m: Sys, nonce: seq<Byte>)
    requires Lawful(g.crypto) && Sane(g) && Reached(g, m) && Stands(g, w, m) && |nonce| == g.crypto.nonceBytes
    ensures Happen(g, HEADER, w, ServerLooks).Some?
    ensures Happen(g, HEADER, w, ClientLooks(nonce)).Some?
  {
    hide Lawful, Sane, Inv, Reached, LookAt, ClientLookAt, ClientHandle, WireOf, PacketOf, Encode;
    ReachedInv(g, m);
    ServerFinds(g, HEADER, w, m);
    ClientFinds(g, HEADER, w, m);
  }

  lemma DryStreams(g: Config, m: Sys)
    requires Lawful(g.crypto) && AllWritable(g.crypto, m.c2s) && AllWritable(g.crypto, m.s2c)
    ensures Encode(g.crypto, m.c2s) == [] ==> m.c2s == []
    ensures Encode(g.crypto, m.s2c) == [] ==> m.s2c == []
  {
    hide Lawful, WireOf, WritableFrame;
    if m.c2s != [] {
      WireLength(g.crypto, m.c2s[0]);
    }
    if m.s2c != [] {
      WireLength(g.crypto, m.s2c[0]);
    }
  }

  /** What the handshake promises, said of the bytes: the client is never ahead,
      no refusal is ever queued, and streams that have run dry with nothing
      queued mean that both ends are in the last stage. */
  lemma BytesSafe(g: Config, guard: nat, nonce: seq<Byte>, es: seq<Event>)
    requires Lawful(g.crypto) && Sane(g) && guard <= HEADER && |nonce| == g.crypto.nonceBytes
    requires Within(Boot(g, nonce)) && Unfold(g, guard, Boot(g, nonce), es).Some?
    requires Covered(g, Unfold(g, guard, Boot(g, nonce), es).value)
    ensures var w := Unfold(g, guard, Boot(g, nonce), es).value;
            && Rank(w.client.stage) <= Rank(w.server.stage)
            && (forall i | 0 <= i < |w.queue| :: !Refusal(w.queue[i].body))
            && (w.c2s == [] && w.s2c == [] && w.queue == [] ==>
                  w.client.stage == Chat && w.server.stage == Chat)
  {
    hide Lawful, Sane, Covered, Happen, Boot, Reached, WireOf, PacketOf, Enabled;
    var w := Unfold(g, guard, Boot(g, nonce), es).value;
    var m := BytesFollowFrames(g, guard, nonce, es);
    ClientNeverAhead(g, m);
    DeadlockFree(g, m);
    forall i | 0 <= i < |w.queue| ensures !Refusal(w.queue[i].body) {
      assert Upstream(m)[i] == Frames(m.parsed)[i];
      PacketBody(g, Frames(m.parsed)[i]);
    }
    DryStreams(g, m);
  }

  // ------------------------------------------------------------------
  // Stages, over every run
  // ------------------------------------------------------------------

  predicate BothInChat(w: Net) {
    w.client.stage == Chat && w.server.stage == Chat
  }

  lemma CommandMeansChat(g: Config, m: Sys)
    requires Inv(g, m) && m.c2s != [] && m.c2s[0].body.Command?
    ensures m.client.stage == Chat && m.server.stage == Chat && SealedNext(m)
  {
    hide NoPings, NoPongs, BodyBytes, Acceptable, WritableFrame;
    var f := m.c2s[0];
    assert Upstream(m)[|m.parsed|] == f;
    InNoPings(Upstream(m), |m.parsed|);
    HelloKind(NoPings(Upstream(m)));
    InvSized(g, m);
    BodyLength(f.body);
  }

  /** The last stage is left by nothing, whatever bytes are read. */
  lemma ChatStays(g: Config, guard: nat, w: Net, e: Event)
    requires Within(w) && BothInChat(w) && Happen(g, guard, w, e).Some?
    ensures BothInChat(Happen(g, guard, w, e).value)
  {
    hide LookAt, ClientLookAt, ServerHandle, ClientHandle, ReplyBytes, Writable;
    match e
    case ClientLooks(nonce) =>
      var look := ClientLookAt(g.crypto, guard, w.client.active, w.s2c[..w.atClient]);
      if look.Take? {
        StagesAdvance(g, w.client, Delivery(look.packet.id, look.packet.body, nonce));
      }
    case ServerWorks(nonce) =>
      StagesAdvance(g, w.server, Delivery(w.queue[0].id, w.queue[0].body, nonce));
    case _ =>
  }

  /** Before the first command is parsed the run follows the machine of frames;
      after it both ends are in the last stage. */
  ghost predicate Tracked(g: Config, w: Net) {
    if NoCommandTaken(w) then exists m :: Follows(g, w, m) else Within(w) && BothInChat(w)
  }

  lemma TrackedStep(g: Config, guard: nat, w: Net, e: Event)
    requires Lawful(g.crypto) && Sane(g) && guard <= HEADER && Within(w) && Tracked(g, w)
    requires Happen(g, guard, w, e).Some?
    ensures Tracked(g, Happen(g, guard, w, e).value)
  {
    hide Lawful, Sane, Happen, Follows, NoCommandTaken, BothInChat;
    var after := Happen(g, guard, w, e).value;
    if !NoCommandTaken(w) {
      TakenGrows(g, guard, w, e);
      if NoCommandTaken(after) {
        FewerCommands(w, after);
      }
      ChatStays(g, guard, w, e);
    } else {
      var m :| Follows(g, w, m);
      if NoCommandTaken(after) {
        StepFollows(g, guard, w, m, e);
      } else {
        FirstCommandParsed(g, guard, w, m, e);
      }
    }
  }

  lemma FirstCommandParsed(g: Config, guard: nat, w: Net, m: Sys, e: Event)
    requires Lawful(g.crypto) && Sane(g) && guard <= HEADER && Follows(g, w, m) && NoCommandTaken(w)
    requires Happen(g, guard, w, e).Some? && !NoCommandTaken(Happen(g, guard, w, e).value)
    ensures e.ServerLooks? && m.c2s != [] && m.c2s[0].body.Command? && BothInChat(Happen(g, guard, w, e).value)
  {
    FollowsOk(g, w, m);
    ReachedInv(g, m);
    hide Lawful, Sane, Reached, Inv, NoCommandTaken;
    if !e.ServerLooks? {
      TakenStays(g, guard, w, e);
      SameTaken(w, Happen(g, guard, w, e).value);
    } else {
      ParsedCommand(g, guard, w, m);
      CommandMeansChat(g, m);
      OtherFields(g, guard, w);
    }
  }

  lemma {:induction false} TrackedAlong(g: Config, guard: nat, w: Net, es: seq<Event>)
    requires Lawful(g.crypto) && Sane(g) && guard <= HEADER && Within(w) && Tracked(g, w)
    requires Unfold(g, guard, w, es).Some?
    ensures Tracked(g, Unfold(g, guard, w, es).value)
    decreases |es|
  {
    hide Lawful, Sane, Happen, Tracked, Within;
    if es != [] {
      TrackedStep(g, guard, w, es[0]);
      TrackedAlong(g, guard, Happen(g, guard, w, es[0]).value, es[1..]);
    }
  }

  /** In every run, also past the first command and with any cipher, the client
      is never ahead of the server, and a command is parsed only once both ends
      are in the last stage. */
  lemma StagesAlongBytes(g: Config, guard: nat, nonce: seq<Byte>, es: seq<Event>)
    requires Lawful(g.crypto) && Sane(g) && guard <= HEADER && |nonce| == g.crypto.nonceBytes
    requires Within(Boot(g, nonce)) && Unfold(g, guard, Boot(g, nonce), es).Some?
    ensures var w := Unfold(g, guard, Boot(g, nonce), es).value;
            && Rank(w.client.stage) <= Rank(w.server.stage)
            && (!NoCommandTaken(w) ==> w.client.stage == Chat && w.server.stage == Chat)
  {
    hide Lawful, Sane, Happen, Within;
    BootFollows(g, nonce);
    assert NoCommandTaken(Boot(g, nonce));
    assert Tracked(g, Boot(g, nonce));
    hide Boot, Reached;
    TrackedAlong(g, guard, Boot(g, nonce), es);
    var w := Unfold(g, guard, Boot(g, nonce), es).value;
    if NoCommandTaken(w) {
      var m :| Follows(g, w, m);
      ClientNeverAhead(g, m);
    }
  }

  // ------------------------------------------------------------------
  // Progress
  // ------------------------------------------------------------------

  predicate IsUser(e: Event) {
    e.UserPings? || e.UserCommands?
  }

  /** `e` needs no user, and something comes of it. */
  predicate Changes(g: Config, guard: nat, w: Net, e: Event)
    requires Within(w)
  {
    !IsUser(e) && Happen(g, guard, w, e).Some? && Happen(g, guard, w, e).value != w
  }

  /** Arrivals, looks and handling, each of which changes something. */
  predicate Deliveries(g: Config, guard: nat, w: Net, es: seq<Event>)
    requires Within(w)
    decreases |es|
  {
    es == [] || (Changes(g, guard, w, es[0]) && Deliveries(g, guard, Happen(g, guard, w, es[0]).value, es[1..]))
  }

  /** Nothing stands in the way of an arrival, of a ping, or, in the last stage,
      of a command: their bytes go to the end of the stream. */
  lemma AlwaysPossible(g: Config, guard: nat, w: Net, n: nat, id: Uint16, text: seq<Byte>, nonce: seq<Byte>)
    requires Within(w) && Sane(g) && Lawful(g.crypto) && |nonce| == g.crypto.nonceBytes
    ensures Happen(g, guard, w, ArriveAtServer(n)).Some? <==> w.atServer + n <= |w.c2s|
    ensures Happen(g, guard, w, ArriveAtClient(n)).Some? <==> w.atClient + n <= |w.s2c|
    ensures Happen(g, guard, w, UserPings(id, nonce)).Some?
    ensures Happen(g, guard, w, UserCommands(id, text, nonce)).Some?
       <==> w.client.stage == Chat && Writable(g.crypto, true, Command(text))
    ensures Writable(g.crypto, w.client.active, Ping)
    ensures Happen(g, guard, w, UserPings(id, nonce)).value.c2s
         == w.c2s + Wire(g.crypto, w.client.active, nonce, id, Ping)
  {
    hide Lawful, Wire, Writable, ReplyBytes;
    SmallWritable(g, w.client.active, Ping);
    var f := Frame(id, Ping, w.client.active, nonce);
    ReplyBytesOne(g, f);
  }

  predicate Dry(w: Net) {
    w.c2s == [] && w.s2c == [] && w.queue == []
  }

  /** As long as a byte or a packet is left, something can be done about it. */
  lemma BytesMove(g: Config, guard: nat, w: Net, m: Sys) returns (e: Event)
    requires Lawful(g.crypto) && Sane(g) && guard <= HEADER && Inv(g, m) && Stands(g, w, m)
    requires !Dry(w)
    ensures Changes(g, guard, w, e)
    ensures w.atServer < |w.c2s| ==> e.ArriveAtServer?
  {
    hide Lawful, Sane, Inv, LookAt, ClientLookAt, ServerHandle, ClientHandle, ReplyBytes, WireOf, Encode, PacketOf;
    var nonce := Zeros(g.crypto.nonceBytes);
    if w.atServer < |w.c2s| {
      e := ArriveAtServer(|w.c2s| - w.atServer);
    } else if w.atClient < |w.s2c| {
      e := ArriveAtClient(|w.s2c| - w.atClient);
    } else if w.queue != [] {
      e := ServerWorks(nonce);
      assert |Happen(g, guard, w, e).value.queue| < |w.queue|;
    } else if w.c2s != [] {
      e := ServerLooks;
      FirstOfAll(g.crypto, m.c2s);
      ServerFinds(g, guard, w, m);
      assert |Happen(g, guard, w, e).value.taken| > |w.taken|;
    } else {
      e := ClientLooks(nonce);
      FirstOfAll(g.crypto, m.s2c);
      ClientFinds(g, guard, w, m);
      WireLength(g.crypto, m.s2c[0]);
      assert |Happen(g, guard, w, e).value.s2c| < |w.s2c|;
    }
  }

  lemma FirstOfAll(c: Crypto, fs: seq<Frame>)
    requires AllWritable(c, fs) && (fs != [] || Encode(c, fs) != [])
    ensures fs != [] && |WireOf(c, fs[0])| <= |Encode(c, fs)|
  {
    hide WireOf, WritableFrame;
  }

  /** More than any reply has bytes. */
  function ReplyBound(g: Config): nat {
    64 + g.crypto.nonceBytes + g.crypto.zeroBytes + g.keyBytes
  }

  function Unarrived(w: Net): nat
    requires Within(w)
  {
    |w.c2s| - w.atServer + (|w.s2c| - w.atClient)
  }

  /** What can still come of the bytes and packets of `w`. */
  function Budget(g: Config, w: Net, m: Sys): nat
    requires Within(w)
  {
    ReplyBound(g) * Weight(m) + Unarrived(w)
  }

  lemma FrameShort(g: Config, f: Frame)
    requires Lawful(g.crypto) && WritableFrame(g.crypto, f) && BodySize(f.body) <= 16 + g.keyBytes
    ensures |WireOf(g.crypto, f)| < ReplyBound(g)
  {
    hide Lawful, BodyBytes;
    WireLength(g.crypto, f);
    BodyLength(f.body);
  }

  lemma RepliesShort(g: Config, s: Endpoint, d: Delivery)
    requires Lawful(g.crypto) && Sane(g) && |d.nonce| == g.crypto.nonceBytes
    ensures |ReplyBytes(g, ServerHandle(g, s, d).sent)| < ReplyBound(g)
    ensures |ReplyBytes(g, ClientHandle(g, s, d).sent)| < ReplyBound(g)
  {
    hide Lawful, WireOf, WritableFrame, ReplyBytes;
    RepliesWritable(g, s, d);
    RepliesMatchRequests(g, s, d);
    ReplyBytesNone(g);
    forall o | o in {ServerHandle(g, s, d), ClientHandle(g, s, d)}
      ensures |ReplyBytes(g, o.sent)| < ReplyBound(g)
    {
      if o.sent != [] {
        assert o.sent == [o.sent[0]];
        SmallReply(g, s, d);
        FrameShort(g, o.sent[0]);
        ReplyBytesOne(g, o.sent[0]);
      }
    }
  }

  lemma SmallReply(g: Config, s: Endpoint, d: Delivery)
    requires Sane(g)
    ensures forall f | f in ServerHandle(g, s, d).sent + ClientHandle(g, s, d).sent :: BodySize(f.body) <= 16 + g.keyBytes
  {
  }

  /** Handling puts at most a reply on its way; nothing else puts anything. */
  lemma EventAdds(g: Config, guard: nat, w: Net, e: Event)
    requires Lawful(g.crypto) && Sane(g) && Within(w) && Changes(g, guard, w, e)
    ensures var after := Happen(g, guard, w, e).value;
            && (e.ArriveAtServer? || e.ArriveAtClient? ==> Unarrived(after) < Unarrived(w))
            && Unarrived(after) < Unarrived(w) + ReplyBound(g)
  {
    hide Lawful, Sane, LookAt, ClientLookAt, ServerHandle, ClientHandle, ReplyBytes, Writable;
    match e
    case ClientLooks(nonce) =>
      var look := ClientLookAt(g.crypto, guard, w.client.active, w.s2c[..w.atClient]);
      if look.Take? {
        RepliesShort(g, w.client, Delivery(look.packet.id, look.packet.body, nonce));
      }
    case ServerWorks(nonce) =>
      RepliesShort(g, w.server, Delivery(w.queue[0].id, w.queue[0].body, nonce));
    case _ =>
  }

  lemma Scaled(k: nat, a: nat, b: nat)
    requires a < b
    ensures k * a + k <= k * b
  {
    assert k * b == k * (a + 1) + k * (b - a - 1);
  }

  lemma BudgetFalls(g: Config, guard: nat, w: Net, m: Sys, e: Event)
    requires Lawful(g.crypto) && Sane(g) && Within(w) && Changes(g, guard, w, e)
    requires Matched(g, w, Happen(g, guard, w, e).value, m, e)
    ensures var after := Happen(g, guard, w, e).value;
            Budget(g, after, Follow(g, w, after, m, e)) < Budget(g, w, m)
  {
    hide Lawful, Sane, Happen, Weight, Enabled, Next, Stands;
    var after := Happen(g, guard, w, e).value;
    EventAdds(g, guard, w, e);
    if !Silent(w, after, e) {
      DeliveryLowersWeight(g, m, ActionOf(m, e));
      Scaled(ReplyBound(g), Weight(Next(g, m, ActionOf(m, e))), Weight(m));
    }
  }

  /** A run of deliveries has at most as many events as the budget it starts
      with, as long as it is covered. */
  lemma {:induction false} DeliveriesEnd(g: Config, guard: nat, w: Net, m: Sys, ds: seq<Event>) returns (end: Sys)
    requires Lawful(g.crypto) && Sane(g) && guard <= HEADER && Follows(g, w, m)
    requires Within(w) && Deliveries(g, guard, w, ds)
    requires Unfold(g, guard, w, ds).Some? && Covered(g, Unfold(g, guard, w, ds).value)
    ensures Follows(g, Unfold(g, guard, w, ds).value, end)
    ensures |ds| <= Budget(g, w, m)
    decreases |ds|
  {
    hide Lawful, Sane, Follows, Happen, Enabled, Next, Covered, Budget, Matched, Within;
    if ds == [] {
      end := m;
    } else {
      var after := Happen(g, guard, w, ds[0]).value;
      TakenGrowsAlong(g, guard, after, ds[1..]);
      FewerTaken(g, after, Unfold(g, guard, after, ds[1..]).value);
      StepFollows(g, guard, w, m, ds[0]);
      BudgetFalls(g, guard, w, m, ds[0]);
      end := DeliveriesEnd(g, guard, after, Follow(g, w, after, m, ds[0]), ds[1..]);
    }
  }

  lemma {:induction false} DeliveriesUnfold(g: Config, guard: nat, w: Net, ds: seq<Event>)
    requires Within(w) && Deliveries(g, guard, w, ds)
    ensures Unfold(g, guard, w, ds).Some?
    decreases |ds|
  {
    hide Happen, Within;
    if ds != [] {
      DeliveriesUnfold(g, guard, Happen(g, guard, w, ds[0]).value, ds[1..]);
    }
  }

  /** Dry streams mean that a command has been parsed. */
  lemma NotDry(g: Config, w: Net, m: Sys)
    requires Lawful(g.crypto) && Sane(g) && Follows(g, w, m) && NoCommandTaken(w)
    ensures !Dry(w)
  {
    hide Lawful, Sane, Reached, NoCommandTaken, WireOf, WritableFrame, PacketOf, Enabled;
    if Dry(w) {
      DryStreams(g, m);
      DeadlockFree(g, m);
    }
  }

  /** The handshake over bytes is completed. Whatever came before, and whatever
      the application has put in, deliveries cannot stop before the server has
      parsed a command, and cannot go on for longer than the budget without it;
      and when it has, both ends are in the last stage. */
  lemma BytesComplete(g: Config, guard: nat, nonce: seq<Byte>, es: seq<Event>, ds: seq<Event>) returns (m: Sys)
    requires Lawful(g.crypto) && Sane(g) && guard <= HEADER && |nonce| == g.crypto.nonceBytes
    requires Within(Boot(g, nonce)) && Unfold(g, guard, Boot(g, nonce), es).Some?
    requires NoCommandTaken(Unfold(g, guard, Boot(g, nonce), es).value)
    requires Deliveries(g, guard, Unfold(g, guard, Boot(g, nonce), es).value, ds)
    ensures var w := Unfold(g, guard, Boot(g, nonce), es).value;
            && Follows(g, w, m) && Unfold(g, guard, w, ds).Some?
            && var end := Unfold(g, guard, w, ds).value;
            && (|ds| > Budget(g, w, m) ==> !NoCommandTaken(end))
            && (NoCommandTaken(end) ==> exists e :: Changes(g, guard, end, e))
            && (!NoCommandTaken(end) ==> end.client.stage == Chat && end.server.stage == Chat)
  {
    hide Lawful, Sane, Follows, NoCommandTaken, Happen, Boot, Within, Budget, Deliveries, Changes;
    m := BytesFollowFrames(g, guard, nonce, es);
    var w := Unfold(g, guard, Boot(g, nonce), es).value;
    DeliveriesUnfold(g, guard, w, ds);
    var end := Unfold(g, guard, w, ds).value;
    if NoCommandTaken(end) {
      var t := DeliveriesEnd(g, guard, w, m, ds);
      var e := NextDelivery(g, guard, end, t);
    } else {
      assert Tracked(g, w);
      TrackedAlong(g, guard, w, ds);
    }
  }

  lemma NextDelivery(g: Config, guard: nat, w: Net, m: Sys) returns (e: Event)
    requires Lawful(g.crypto) && Sane(g) && guard <= HEADER && Follows(g, w, m) && NoCommandTaken(w)
    ensures Within(w) && Changes(g, guard, w, e)
    ensures w.atServer < |w.c2s| ==> e.ArriveAtServer?
  {
    hide Lawful, Sane, Reached, NoCommandTaken, Changes, Inv;
    NotDry(g, w, m);
    ReachedInv(g, m);
    e := BytesMove(g, guard, w, m);
  }

  // ------------------------------------------------------------------
  // The first command
  // ------------------------------------------------------------------

  /** From any state before it, deliveries lead to the state where all of the
      first command has arrived and the server is about to parse it. */
  lemma {:induction false} ToFirstCommand(g: Config, guard: nat, w: Net, m: Sys) returns (ds: seq<Event>, end: Sys)
    requires Lawful(g.crypto) && Sane(g) && guard <= HEADER && Within(w) && Follows(g, w, m) && NoCommandTaken(w)
    ensures Deliveries(g, guard, w, ds) && Unfold(g, guard, w, ds).Some?
    ensures var before := Unfold(g, guard, w, ds).value;
            && Follows(g, before, end) && NoCommandTaken(before)
            && end.c2s != [] && end.c2s[0].body.Command? && before.atServer == |before.c2s|
    decreases Budget(g, w, m)
  {
    hide Lawful, Sane, Follows, Happen, Enabled, Next, Budget, Matched, NoCommandTaken;
    if m.c2s != [] && m.c2s[0].body.Command? && w.atServer == |w.c2s| {
      ds, end := [], m;
    } else {
      var e := NextDelivery(g, guard, w, m);
      var after := Happen(g, guard, w, e).value;
      if !NoCommandTaken(after) {
        FirstCommandParsed(g, guard, w, m, e);
        assert false;
      }
      StepFollows(g, guard, w, m, e);
      BudgetFalls(g, guard, w, m, e);
      ds, end := ToFirstCommand(g, guard, after, Follow(g, w, after, m, e));
      assert ([e] + ds)[1..] == ds;
      ds := [e] + ds;
    }
  }

  lemma {:induction false} UnfoldConcat(g: Config, guard: nat, w: Net, a: seq<Event>, b: seq<Event>)
    requires Within(w) && Unfold(g, guard, w, a).Some?
    ensures Unfold(g, guard, w, a + b) == Unfold(g, guard, Unfold(g, guard, w, a).value, b)
    decreases |a|
  {
    hide Happen, Within;
    if a == [] {
      assert a + b == b;
    } else {
      assert (a + b)[1..] == a[1..] + b;
      UnfoldConcat(g, guard, Happen(g, guard, w, a[0]).value, a[1..], b);
    }
  }

  /** The handshake always comes to the point where `InStep` matters: any run
      without a command parsed goes on to a state where the next look takes the
      first command, and that look leaves the bytes out of step with the frames
      exactly when the cipher has padding. */
  lemma FirstCommandOutOfStep(g: Config, guard: nat, nonce: seq<Byte>, es: seq<Event>)
    returns (ds: seq<Event>, m: Sys)
    requires Lawful(g.crypto) && Sane(g) && guard <= HEADER && |nonce| == g.crypto.nonceBytes
    requires Within(Boot(g, nonce)) && Unfold(g, guard, Boot(g, nonce), es).Some?
    requires NoCommandTaken(Unfold(g, guard, Boot(g, nonce), es).value)
    ensures Unfold(g, guard, Boot(g, nonce), es + ds).Some?
    ensures var w := Unfold(g, guard, Boot(g, nonce), es + ds).value;
            && NoCommandTaken(w) && Reached(g, m) && Stands(g, w, m) && SealedNext(m)
            && Enabled(g, m, ServerParse) && Happen(g, guard, w, ServerLooks).Some?
            && var after := Happen(g, guard, w, ServerLooks).value;
            && !NoCommandTaken(after)
            && (Stands(g, after, Next(g, m, ServerParse)) <==> g.crypto.zeroBytes == 0)
  {
    hide Lawful, Sane, NoCommandTaken, Happen, Boot, Within, Stands, Deliveries, Reached, Next;
    var m0 := BytesFollowFrames(g, guard, nonce, es);
    var w0 := Unfold(g, guard, Boot(g, nonce), es).value;
    ds, m := ToFirstCommand(g, guard, w0, m0);
    UnfoldConcat(g, guard, Boot(g, nonce), es, ds);
    LookAtCommand(g, guard, Unfold(g, guard, w0, ds).value, m);
  }

  lemma LookAtCommand(g: Config, guard: nat, w: Net, m: Sys)
    requires Lawful(g.crypto) && Sane(g) && guard <= HEADER && Follows(g, w, m) && NoCommandTaken(w)
    requires m.c2s != [] && m.c2s[0].body.Command? && w.atServer == |w.c2s|
    ensures Within(w) && SealedNext(m) && Enabled(g, m, ServerParse) && Happen(g, guard, w, ServerLooks).Some?
    ensures var after := Happen(g, guard, w, ServerLooks).value;
            && !NoCommandTaken(after)
            && (Stands(g, after, Next(g, m, ServerParse)) <==> g.crypto.zeroBytes == 0)
  {
    hide Lawful, Sane, NoCommandTaken, Reached, Inv, LookAt, WireOf, PacketOf, WritableFrame, Encode, Next;
    ReachedInv(g, m);
    CommandMeansChat(g, m);
    FirstOfAll(g.crypto, m.c2s);
    ServerFinds(g, guard, w, m);
    var after := Happen(g, guard, w, ServerLooks).value;
    assert |after.taken| > |w.taken|;
    InStep(g, guard, w, m);
    ParsedCommand(g, guard, w, m);
  }
}
