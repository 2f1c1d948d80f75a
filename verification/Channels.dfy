/** What the two ends of the handshake send and are given over a whole run: the
    channels lose nothing, add nothing and keep the order, although the server
    decodes ahead of handling. */
module Channels {
  import opened Bytes
  import opened Packets
  import opened Protocol
  import opened Streams
  import opened Endpoints
  import opened Handshake
  import ServerRuns
  import ClientRuns

  /** The frames each end has sent, the frames each end's handlers have been
      given, and what decoding made of them. `modes` is the server's mode at each
      decoding, `clientModes` the client's. */
  datatype Log = Log(
    byClient: seq<Frame>, byServer: seq<Frame>, toServer: seq<Frame>, toClient: seq<Frame>,
    atServer: seq<Delivery>, atClient: seq<Delivery>, modes: seq<bool>, clientModes: seq<bool>)

  /** One action more, taken in state `st`. */
  function Logged(g: Config, l: Log, st: Sys, a: Action): Log
    requires Enabled(g, st, a)
  {
    match a
    case ClientDeliver(nonce, read) =>
      var d := Delivery(st.s2c[0].id, read, nonce);
      l.(toClient := l.toClient + [st.s2c[0]], atClient := l.atClient + [d],
         clientModes := l.clientModes + [st.client.active],
         byClient := l.byClient + ClientHandle(g, st.client, d).sent)
    case ServerParse => l.(modes := l.modes + [st.server.active])
    case ServerHandles(nonce, read) =>
      var f := st.parsed[0].frame;
      var d := Delivery(f.id, read, nonce);
      l.(toServer := l.toServer + [f], atServer := l.atServer + [d],
         byServer := l.byServer + ServerHandle(g, st.server, d).sent)
    case AppPing(id, nonce) => l.(byClient := l.byClient + [Frame(id, Ping, st.client.active, nonce)])
    case AppCommand(id, text, nonce) =>
      l.(byClient := l.byClient + [Frame(id, Command(text), st.client.active, nonce)])
  }

  /** The log of a run that starts with the first message just sent. */
  function LogOf(g: Config, nonce: seq<Byte>, run: seq<Action>): Log {
    if run == [] then Log([Hello(nonce)], [], [], [], [], [], [], [])
    else
      var front, a := run[..|run| - 1], run[|run| - 1];
      var before := Exec(g, Start(g, nonce), front);
      if before.None? || !Enabled(g, before.value, a) then LogOf(g, nonce, front)
      else Logged(g, LogOf(g, nonce, front), before.value, a)
  }

  lemma {:induction false} ExecSnoc(g: Config, st: Sys, run: seq<Action>, a: Action)
    ensures Exec(g, st, run + [a])
         == match Exec(g, st, run)
            case None => None
            case Some(t) => if Enabled(g, t, a) then Some(Next(g, t, a)) else None
    decreases |run|
  {
    hide Enabled, Next;
    if run == [] {
      assert run + [a] == [a] && [a][1..] == [];
    } else {
      TailOfSnoc(run, a);
      if Enabled(g, st, run[0]) {
        ExecSnoc(g, Next(g, st, run[0]), run[1..], a);
      }
    }
  }

  /** The frames sent are those handled, then those decoded, then those on their
      way; and the sessions are what the handlers, run alone on what they were
      given, would have made of them. */
  ghost predicate Conserves(g: Config, l: Log, st: Sys) {
    && l.byClient == l.toServer + Upstream(st)
    && l.byServer == l.toClient + st.s2c
    && st.server == ServerRuns.After(g, l.atServer) && l.byServer == ServerRuns.Output(g, l.atServer)
    && st.client == ClientRuns.After(g, l.atClient)
    && |l.modes| == |l.toServer| + |st.parsed| && |l.clientModes| == |l.toClient|
    && (forall i | 0 <= i < |st.parsed| :: l.modes[|l.toServer| + i] == st.parsed[i].active)
  }

  lemma ServerHandlesConserves(g: Config, l: Log, st: Sys, nonce: seq<Byte>, read: Body)
    requires Conserves(g, l, st) && Enabled(g, st, ServerHandles(nonce, read))
    ensures Conserves(g, Logged(g, l, st, ServerHandles(nonce, read)), Next(g, st, ServerHandles(nonce, read)))
  {
    hide ServerHandle, ReadAs;
    var a := ServerHandles(nonce, read);
    var r, t := Logged(g, l, st, a), Next(g, st, a);
    var f := st.parsed[0].frame;
    assert Upstream(st) == [f] + Upstream(t);
    Assoc(l.toServer, [f], Upstream(t));
    assert r.atServer[..|l.atServer|] == l.atServer;
    Assoc(l.toClient, st.s2c, ServerHandle(g, st.server, Delivery(f.id, read, nonce)).sent);
  }

  lemma ClientDeliverConserves(g: Config, l: Log, st: Sys, nonce: seq<Byte>, read: Body)
    requires Conserves(g, l, st) && Enabled(g, st, ClientDeliver(nonce, read))
    ensures Conserves(g, Logged(g, l, st, ClientDeliver(nonce, read)), Next(g, st, ClientDeliver(nonce, read)))
  {
    hide ClientHandle, ReadAs;
    var a := ClientDeliver(nonce, read);
    var r, t := Logged(g, l, st, a), Next(g, st, a);
    var sent := ClientHandle(g, st.client, Delivery(st.s2c[0].id, read, nonce)).sent;
    assert st.s2c == [st.s2c[0]] + t.s2c;
    Assoc(l.toClient, [st.s2c[0]], t.s2c);
    assert r.atClient[..|l.atClient|] == l.atClient;
    assert Upstream(t) == Upstream(st) + sent;
    Assoc(l.toServer, Upstream(st), sent);
  }

  lemma OthersConserve(g: Config, l: Log, st: Sys, a: Action)
    requires Conserves(g, l, st) && Enabled(g, st, a) && !a.ServerHandles? && !a.ClientDeliver?
    ensures Conserves(g, Logged(g, l, st, a), Next(g, st, a))
  {
    var t := Next(g, st, a);
    match a
    case ServerParse =>
      assert Upstream(t) == Upstream(st);
    case AppPing(id, nonce) =>
      var f := Frame(id, Ping, st.client.active, nonce);
      assert Upstream(t) == Upstream(st) + [f];
      Assoc(l.toServer, Upstream(st), [f]);
    case AppCommand(id, text, nonce) =>
      var f := Frame(id, Command(text), st.client.active, nonce);
      assert Upstream(t) == Upstream(st) + [f];
      Assoc(l.toServer, Upstream(st), [f]);
  }

  /** Nothing is lost, added or reordered: in every run the frames an end has
      sent are those the other end's handlers were given followed by those on
      their way, and each session is that of its handlers run alone. */
  lemma {:induction false} NothingLost(g: Config, nonce: seq<Byte>, run: seq<Action>)
    requires Exec(g, Start(g, nonce), run).Some?
    ensures Conserves(g, LogOf(g, nonce, run), Exec(g, Start(g, nonce), run).value)
    decreases |run|
  {
    hide Enabled, Next, Conserves, Logged, Start;
    if run == [] {
      NothingYet(g, nonce);
    } else {
      var front, a := run[..|run| - 1], run[|run| - 1];
      assert front + [a] == run;
      ExecSnoc(g, Start(g, nonce), front, a);
      NothingLost(g, nonce, front);
      var st, l := Exec(g, Start(g, nonce), front).value, LogOf(g, nonce, front);
      match a
      case ServerHandles(n, read) => ServerHandlesConserves(g, l, st, n, read);
      case ClientDeliver(n, read) => ClientDeliverConserves(g, l, st, n, read);
      case _ => OthersConserve(g, l, st, a);
    }
  }

  lemma NothingYet(g: Config, nonce: seq<Byte>)
    ensures Conserves(g, LogOf(g, nonce, []), Start(g, nonce))
  {
    assert [] + [Hello(nonce)] == [Hello(nonce)];
  }

  /** What the handlers were given is what was sent: same ids, same bodies. */
  ghost predicate AsSent(fs: seq<Frame>, ds: seq<Delivery>) {
    && |fs| == |ds|
    && forall i | 0 <= i < |fs| :: ds[i].id == fs[i].id && ds[i].body == fs[i].body
  }

  /** The mode of each decoding was the mode of its frame. */
  ghost predicate InMode(fs: seq<Frame>, modes: seq<bool>) {
    |fs| <= |modes| && forall i | 0 <= i < |fs| :: SameMode(fs[i], modes[i])
  }

  lemma NothingSent()
    ensures AsSent([], []) && InMode([], [])
  {
  }

  /** One frame more, decoded in its own mode and given as it was sent. */
  lemma OneMoreSent(fs: seq<Frame>, ds: seq<Delivery>, modes: seq<bool>, f: Frame, d: Delivery, more: seq<bool>)
    requires AsSent(fs, ds) && InMode(fs, modes) && d.id == f.id && d.body == f.body
    requires |fs| < |modes + more| && SameMode(f, (modes + more)[|fs|])
    ensures AsSent(fs + [f], ds + [d]) && InMode(fs + [f], modes + more)
  {
    hide SameMode;
  }

  lemma LongerModes(fs: seq<Frame>, modes: seq<bool>, more: seq<bool>)
    requires InMode(fs, modes)
    ensures InMode(fs, modes + more)
  {
    hide SameMode;
  }

  lemma LegibleMode(f: Frame, active: bool, read: Body)
    requires Legible(f, active) && ReadAs(f, active, read)
    ensures SameMode(f, active) && read == f.body
  {
  }

  lemma LoggedAsSent(g: Config, l: Log, st: Sys, a: Action)
    requires Inv(g, st) && Enabled(g, st, a) && Conserves(g, l, st)
    requires AsSent(l.toServer, l.atServer) && AsSent(l.toClient, l.atClient)
    requires InMode(l.toServer, l.modes) && InMode(l.toClient, l.clientModes)
    ensures var r := Logged(g, l, st, a);
            && AsSent(r.toServer, r.atServer) && AsSent(r.toClient, r.atClient)
            && InMode(r.toServer, r.modes) && InMode(r.toClient, r.clientModes)
  {
    hide Inv, Legible, ReadAs, SameMode, InMode, AsSent, ClientHandle, ServerHandle;
    match a
    case ServerHandles(nonce, read) =>
      var d := st.parsed[0];
      ParsedLegible(g, st, 0);
      LegibleMode(d.frame, d.active, read);
      assert l.modes[|l.toServer| + 0] == d.active && l.modes + [] == l.modes;
      OneMoreSent(l.toServer, l.atServer, l.modes, d.frame, Delivery(d.frame.id, read, nonce), []);
    case ClientDeliver(nonce, read) =>
      var f := st.s2c[0];
      DownstreamSuits(g, st, 0);
      LegibleMode(f, st.client.active, read);
      OneMoreSent(l.toClient, l.atClient, l.clientModes, f, Delivery(f.id, read, nonce), [st.client.active]);
    case ServerParse => LongerModes(l.toServer, l.modes, [st.server.active]);
    case _ =>
  }

  /** End to end: although frames are decoded at one moment and the modes change
      at others, each end's handlers are given the very packets that the other
      end sent, in order, each once, and each was decoded in its own mode. */
  lemma {:induction false} EndToEnd(g: Config, nonce: seq<Byte>, run: seq<Action>)
    requires Sane(g) && |nonce| == g.crypto.nonceBytes && Exec(g, Start(g, nonce), run).Some?
    ensures var l, end := LogOf(g, nonce, run), Exec(g, Start(g, nonce), run).value;
            && l.byClient == l.toServer + Upstream(end) && AsSent(l.toServer, l.atServer)
            && l.byServer == l.toClient + end.s2c && AsSent(l.toClient, l.atClient)
            && InMode(l.toServer, l.modes) && InMode(l.toClient, l.clientModes)
    decreases |run|
  {
    hide Sane, Enabled, Next, Logged, Start, AsSent, InMode, Inv;
    NothingLost(g, nonce, run);
    if run == [] {
      NothingSent();
    } else {
      var front, a := run[..|run| - 1], run[|run| - 1];
      assert front + [a] == run;
      ExecSnoc(g, Start(g, nonce), front, a);
      EndToEnd(g, nonce, front);
      NothingLost(g, nonce, front);
      StartsWell(g, nonce);
      RunKeeps(g, Start(g, nonce), front);
      LoggedAsSent(g, LogOf(g, nonce, front), Exec(g, Start(g, nonce), front).value, a);
    }
  }
}
