/** The server's handlers over whole runs, on any packets from any client
    (src/excom-server/handle_packets.ci). */
module ServerRuns {
  import opened Bytes
  import opened Packets
  import opened Streams
  import opened Endpoints

  /** The session after the packets, and the replies to each. */
  function After(g: Config, ds: seq<Delivery>): Endpoint {
    if ds == [] then Fresh(g)
    else ServerHandle(g, After(g, ds[..|ds| - 1]), ds[|ds| - 1]).end
  }

  function RepliesTo(g: Config, ds: seq<Delivery>): seq<Frame>
    requires ds != []
  {
    ServerHandle(g, After(g, ds[..|ds| - 1]), ds[|ds| - 1]).sent
  }

  /** Everything sent, in order. */
  function Output(g: Config, ds: seq<Delivery>): seq<Frame> {
    if ds == [] then [] else Output(g, ds[..|ds| - 1]) + RepliesTo(g, ds)
  }

  // ------------------------------------------------------------------
  // What brings the server to each stage
  // ------------------------------------------------------------------

  /** Versions 0.0.0 to 0.3.11. */
  predicate NearVersion(b: Body) {
    b.ProtocolVersion? && b.major == 0 && b.minor <= 3 && b.patch <= 11
  }

  ghost predicate Greeted(ds: seq<Delivery>, i: nat) {
    i < |ds| && NearVersion(ds[i].body)
  }

  ghost predicate Keyed(g: Config, ds: seq<Delivery>, i: nat, j: nat) {
    Greeted(ds, i) && i < j < |ds| && GoodKey(g, ds[j].body)
  }

  ghost predicate Pinged(g: Config, ds: seq<Delivery>, i: nat, j: nat, k: nat) {
    Keyed(g, ds, i, j) && j < k < |ds| && ds[k].body.Ping?
  }

  /** One packet moves the server one stage, or not at all. */
  lemma OneStep(g: Config, s: Endpoint, d: Delivery)
    requires s.active <==> Rank(s.stage) >= 2
    ensures var o, r := ServerHandle(g, s, d), Rank(s.stage);
            && Rank(o.end.stage) == (if r == 0 && NearVersion(d.body) then 1
                                     else if r == 1 && GoodKey(g, d.body) then 2
                                     else if r == 2 && d.body.Ping? then 3
                                     else r)
            && (o.end.active <==> Rank(o.end.stage) >= 2)
            && (o.sent == [] ==> o.end.stage == s.stage)
            && (o.sent != [] ==>
                  var f := o.sent[0];
                  && o.sent == [f] && (f.sealed <==> s.active)
                  && (f.body.Ok? <==> r == 0 && Rank(o.end.stage) == 1)
                  && (f.body.PublicKey? <==> r == 1 && Rank(o.end.stage) == 2))
  {
    AcceptableVersions(d.body);
  }

  /** The server has left a stage exactly when the packets that lead out of it
      have come, in that order, whatever else came between; and it encrypts
      exactly from ENCRYPT on. */
  lemma {:induction false} StageReached(g: Config, ds: seq<Delivery>)
    ensures var s := After(g, ds);
            && (Rank(s.stage) >= 1 <==> exists i: nat :: Greeted(ds, i))
            && (Rank(s.stage) >= 2 <==> exists i: nat, j: nat :: Keyed(g, ds, i, j))
            && (Rank(s.stage) >= 3 <==> exists i: nat, j: nat, k: nat :: Pinged(g, ds, i, j, k))
            && (s.active <==> Rank(s.stage) >= 2)
    decreases |ds|
  {
    hide ServerHandle, NearVersion, GoodKey;
    if ds == [] {
    } else {
      var n := |ds| - 1;
      var front, d := ds[..n], ds[n];
      StageReached(g, front);
      var s := After(g, front);
      OneStep(g, s, d);
      Extends(g, front, d);
      assert ds == front + [d];
      if Rank(s.stage) == 0 && NearVersion(d.body) {
        assert Greeted(ds, n);
      }
      if Rank(s.stage) == 1 && GoodKey(g, d.body) {
        var i: nat :| Greeted(front, i);
        assert Keyed(g, ds, i, n);
      }
      if Rank(s.stage) == 2 && d.body.Ping? {
        var i: nat, j: nat :| Keyed(g, front, i, j);
        assert Pinged(g, ds, i, j, n);
      }
    }
  }

  /** One more packet completes a chain only as its last link. */
  lemma Extends(g: Config, front: seq<Delivery>, d: Delivery)
    ensures var ds, n := front + [d], |front|;
            && (forall i: nat :: Greeted(ds, i) <==> Greeted(front, i) || (i == n && NearVersion(d.body)))
            && (forall i: nat, j: nat :: Keyed(g, ds, i, j) <==>
                  Keyed(g, front, i, j) || (j == n && Greeted(front, i) && GoodKey(g, d.body)))
            && (forall i: nat, j: nat, k: nat :: Pinged(g, ds, i, j, k) <==>
                  Pinged(g, front, i, j, k) || (k == n && Keyed(g, front, i, j) && d.body.Ping?))
  {
  }

  /** The handlers copy the stored key into the packet, and never the other way
      round: the session keeps the key it started with. */
  lemma {:induction false} RemoteKeyStays(g: Config, ds: seq<Delivery>)
    ensures After(g, ds).remoteKey == Zeros(g.keyBytes)
    decreases |ds|
  {
    if ds != [] {
      RemoteKeyStays(g, ds[..|ds| - 1]);
    }
  }

  /** So at the end of a handshake the stored key is the client's key only if
      that key is all zeros. */
  lemma RemoteKeyIsPeers(g: Config, ds: seq<Delivery>, j: nat)
    requires j < |ds| && GoodKey(g, ds[j].body)
    ensures After(g, ds).remoteKey == ds[j].body.key
       <==> forall b | b in ds[j].body.key :: b == 0
  {
    RemoteKeyStays(g, ds);
    OnlyZeros(ds[j].body.key);
  }

  // ------------------------------------------------------------------
  // The shape of the output
  // ------------------------------------------------------------------

  /** Plain frames up to `k`, sealed ones from there on, and the switch right
      after the key was sent. */
  ghost predicate SwitchesAt(fs: seq<Frame>, k: nat, active: bool) {
    && k <= |fs|
    && (forall i | 0 <= i < |fs| :: fs[i].sealed <==> k <= i)
    && (if active then k > 0 && fs[k - 1].body.PublicKey? else k == |fs|)
  }

  ghost predicate SentOk(fs: seq<Frame>) {
    exists i :: 0 <= i < |fs| && fs[i].body.Ok?
  }

  ghost predicate SentKey(fs: seq<Frame>) {
    exists i :: 0 <= i < |fs| && fs[i].body.PublicKey?
  }

  ghost predicate OnlyOnce(fs: seq<Frame>) {
    && (forall i, j | 0 <= i < j < |fs| :: !(fs[i].body.Ok? && fs[j].body.Ok?))
    && (forall i, j | 0 <= i < j < |fs| :: !(fs[i].body.PublicKey? && fs[j].body.PublicKey?))
  }

  lemma OneMoreFrame(fs: seq<Frame>, f: Frame)
    ensures SentOk(fs + [f]) <==> f.body.Ok? || SentOk(fs)
    ensures SentKey(fs + [f]) <==> f.body.PublicKey? || SentKey(fs)
    ensures OnlyOnce(fs) && !(f.body.Ok? && SentOk(fs)) && !(f.body.PublicKey? && SentKey(fs)) ==> OnlyOnce(fs + [f])
  {
    var gs := fs + [f];
    assert gs[|fs|] == f;
    assert forall i | 0 <= i < |fs| :: gs[i] == fs[i];
  }

  lemma SwitchStep(fs: seq<Frame>, k: nat, active: bool, f: Frame, activeNow: bool)
    requires SwitchesAt(fs, k, active) && f.sealed == active
    requires activeNow == (active || f.body.PublicKey?)
    ensures SwitchesAt(fs + [f], if active then k else k + 1, activeNow)
  {
    var gs := fs + [f];
    assert forall i | 0 <= i < |fs| :: gs[i] == fs[i];
  }

  /** On any input the output is a plain stretch that ends with the server's
      key, then sealed frames; `ok` and the key are sent at most once, and
      exactly when the stage says so. */
  lemma {:induction false} OutputShape(g: Config, ds: seq<Delivery>) returns (k: nat)
    ensures var fs, s := Output(g, ds), After(g, ds);
            && SwitchesAt(fs, k, s.active)
            && OnlyOnce(fs)
            && (SentOk(fs) <==> Rank(s.stage) >= 1)
            && (SentKey(fs) <==> Rank(s.stage) >= 2)
    decreases |ds|
  {
    if ds == [] {
      k := 0;
    } else {
      hide SwitchesAt, OnlyOnce, SentOk, SentKey, ServerHandle;
      var front, d := ds[..|ds| - 1], ds[|ds| - 1];
      k := OutputShape(g, front);
      StageReached(g, front);
      var s, o, sent := After(g, front), ServerHandle(g, After(g, front), d), Output(g, front);
      OneStep(g, s, d);
      if o.sent == [] {
        assert Output(g, ds) == sent + [] == sent;
      } else {
        var f := o.sent[0];
        OneMoreFrame(sent, f);
        SwitchStep(sent, k, s.active, f, o.end.active);
        k := if s.active then k else k + 1;
      }
    }
  }

  // ------------------------------------------------------------------
  // Requests and replies
  // ------------------------------------------------------------------

  predicate NeedsReply(b: Body, stage: Stage) {
    b.Ping? || b.PublicKey? || b.ProtocolVersion? || ((b.Command? || b.CommandResponse?) && stage != Chat)
  }

  /** `f` is a right reply to `d`, which came in session `s` and left it `t`. */
  predicate IsReply(g: Config, d: Delivery, s: Endpoint, t: Endpoint, f: Frame) {
    && f.id == d.id && f.nonce == d.nonce && (f.sealed <==> s.active)
    && (f.body == Pong <==> d.body.Ping?)
    && (f.body == Ok <==> NearVersion(d.body) && s.stage == PreHandshake)
    && (f.body == Reject(1) <==> d.body.ProtocolVersion? && s.stage == PreHandshake && !NearVersion(d.body))
    && (f.body == PublicKey(g.serverKey) <==> d.body.PublicKey? && s.stage == PreEncrypt && |d.body.key| == g.keyBytes)
    && (f.body == Error(4) <==> d.body.PublicKey? && s.stage == PreEncrypt && |d.body.key| != g.keyBytes)
    && (f.body == Error(3) <==>
          || (d.body.ProtocolVersion? && s.stage != PreHandshake) || (d.body.PublicKey? && s.stage != PreEncrypt)
          || ((d.body.Command? || d.body.CommandResponse?) && s.stage != Chat))
    && (f.body in {Reject(1), Error(3), Error(4)} ==> t == s)
  }

  lemma OneReply(g: Config, s: Endpoint, d: Delivery)
    ensures var o := ServerHandle(g, s, d);
            && |o.sent| <= 1
            && (o.sent != [] <==> NeedsReply(d.body, s.stage))
            && (o.sent != [] ==> IsReply(g, d, s, o.end, o.sent[0]))
  {
    AcceptableVersions(d.body);
  }

  /** The `i`-th frame sent replies to the packet number `at[i]`. */
  ghost predicate RepliesAt(g: Config, ds: seq<Delivery>, fs: seq<Frame>, at: seq<nat>) {
    && |at| == |fs|
    && (forall i, j | 0 <= i < j < |at| :: at[i] < at[j])
    && (forall i | 0 <= i < |at| :: ReplyTo(g, ds, at[i], fs[i]))
    && (forall k | 0 <= k < |ds| :: k in at <==> Calls(g, ds, k))
  }

  ghost predicate ReplyTo(g: Config, ds: seq<Delivery>, k: nat, f: Frame) {
    k < |ds| && IsReply(g, ds[k], After(g, ds[..k]), After(g, ds[..k + 1]), f)
  }

  /** Packet number `k` calls for a frame. */
  ghost predicate Calls(g: Config, ds: seq<Delivery>, k: nat) {
    k < |ds| && NeedsReply(ds[k].body, After(g, ds[..k]).stage)
  }

  lemma Earlier(g: Config, front: seq<Delivery>, d: Delivery, k: nat, f: Frame)
    requires k < |front|
    ensures ReplyTo(g, front + [d], k, f) <==> ReplyTo(g, front, k, f)
    ensures Calls(g, front + [d], k) <==> Calls(g, front, k)
  {
    assert (front + [d])[..k] == front[..k] && (front + [d])[..k + 1] == front[..k + 1];
  }

  lemma Latest(g: Config, front: seq<Delivery>, d: Delivery, f: Frame)
    ensures ReplyTo(g, front + [d], |front|, f) <==> IsReply(g, d, After(g, front), After(g, front + [d]), f)
    ensures Calls(g, front + [d], |front|) <==> NeedsReply(d.body, After(g, front).stage)
  {
    assert (front + [d])[..|front|] == front && (front + [d])[..|front| + 1] == front + [d];
  }

  lemma RepliesAtSnoc(g: Config, front: seq<Delivery>, d: Delivery, fs: seq<Frame>, at: seq<nat>, sent: seq<Frame>)
    requires RepliesAt(g, front, fs, at) && |sent| <= 1
    requires sent != [] <==> NeedsReply(d.body, After(g, front).stage)
    requires sent != [] ==> IsReply(g, d, After(g, front), After(g, front + [d]), sent[0])
    ensures RepliesAt(g, front + [d], fs + sent, at + if sent == [] then [] else [|front|])
  {
    var ds, n, all, gs := front + [d], |front|, at + if sent == [] then [] else [|front|], fs + sent;
    hide After, IsReply, NeedsReply, ReplyTo, Calls;
    forall i | 0 <= i < |at| ensures at[i] < n {
      Inside(g, front, at[i], fs[i]);
    }
    forall i | 0 <= i < |all| ensures ReplyTo(g, ds, all[i], gs[i]) {
      if i < |at| {
        Earlier(g, front, d, at[i], fs[i]);
      } else {
        Latest(g, front, d, sent[0]);
      }
    }
    forall k | 0 <= k < |ds| ensures k in all <==> Calls(g, ds, k) {
      if k < n {
        Earlier(g, front, d, k, Frame(0, Ok, false, []));
      } else {
        Latest(g, front, d, Frame(0, Ok, false, []));
      }
    }
  }

  lemma Inside(g: Config, ds: seq<Delivery>, k: nat, f: Frame)
    requires ReplyTo(g, ds, k, f)
    ensures k < |ds|
  {
  }

  /** On any input the frames sent are replies in the order of the packets they
      reply to, at most one each and with its id; which packets get one, and
      which get a refusal and why, depends on the stage they came in as the
      handlers' guards say; and a refusal changes nothing. */
  lemma {:induction false} RepliesInOrder(g: Config, ds: seq<Delivery>) returns (at: seq<nat>)
    ensures RepliesAt(g, ds, Output(g, ds), at)
    decreases |ds|
  {
    if ds == [] {
      at := [];
    } else {
      hide RepliesAt, ServerHandle, IsReply, NeedsReply;
      var n := |ds| - 1;
      var front, d := ds[..n], ds[n];
      var before := RepliesInOrder(g, front);
      OneReply(g, After(g, front), d);
      assert front + [d] == ds;
      RepliesAtSnoc(g, front, d, Output(g, front), before, RepliesTo(g, ds));
      at := before + if RepliesTo(g, ds) == [] then [] else [n];
    }
  }
}
