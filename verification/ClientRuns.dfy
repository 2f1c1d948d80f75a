/** The client's handlers over whole runs, on any packets from any server
    (src/excom-client/handle_packets.ci). */
module ClientRuns {
  import opened Bytes
  import opened Packets
  import opened Streams
  import opened Endpoints

  function After(g: Config, ds: seq<Delivery>): Endpoint {
    if ds == [] then Fresh(g)
    else ClientHandle(g, After(g, ds[..|ds| - 1]), ds[|ds| - 1]).end
  }

  /** The first message and every reply, in order. */
  function Output(g: Config, hello: Frame, ds: seq<Delivery>): seq<Frame> {
    if ds == [] then [hello]
    else
      var front := ds[..|ds| - 1];
      Output(g, hello, front) + ClientHandle(g, After(g, front), ds[|ds| - 1]).sent
  }

  ghost predicate Welcomed(ds: seq<Delivery>, i: nat) {
    i < |ds| && ds[i].body.Ok?
  }

  ghost predicate Keyed(g: Config, ds: seq<Delivery>, i: nat, j: nat) {
    Welcomed(ds, i) && i < j < |ds| && GoodKey(g, ds[j].body)
  }

  ghost predicate Ponged(g: Config, ds: seq<Delivery>, i: nat, j: nat, k: nat) {
    Keyed(g, ds, i, j) && j < k < |ds| && ds[k].body.Pong?
  }

  /** One packet moves the client one stage, or not at all; each move sends the
      message of the stage it enters. */
  lemma OneStep(g: Config, s: Endpoint, d: Delivery)
    requires s.active <==> Rank(s.stage) >= 2
    ensures var o, r := ClientHandle(g, s, d), Rank(s.stage);
            && Rank(o.end.stage) == (if r == 0 && d.body.Ok? then 1
                                     else if r == 1 && GoodKey(g, d.body) then 2
                                     else if r == 2 && d.body.Pong? then 3
                                     else r)
            && (o.end.active <==> Rank(o.end.stage) >= 2)
            && |o.sent| <= 1
            && (Rank(o.end.stage) > r ==> o.sent == [Reply(o.end, d, Entering(g, o.end.stage))])
            && (Rank(o.end.stage) == r && o.sent != [] ==> o.sent[0].body.Error? && o.sent[0].sealed == s.active)
  {
  }

  /** What the client sends as it enters a stage: version 0.0.1, its key, a
      ping, and "hello world". */
  function Entering(g: Config, s: Stage): Body {
    match s
    case PreHandshake => ProtocolVersion([0x30, 0x2e, 0x30, 0x2e, 0x31, 0], 0, 0, 1)
    case PreEncrypt => PublicKey(g.clientKey)
    case Encrypt => Ping
    case Chat => Command([0x68, 0x65, 0x6c, 0x6c, 0x6f, 0x20, 0x77, 0x6f, 0x72, 0x6c, 0x64])
  }

  lemma Extends(g: Config, front: seq<Delivery>, d: Delivery)
    ensures var ds, n := front + [d], |front|;
            && (forall i: nat :: Welcomed(ds, i) <==> Welcomed(front, i) || (i == n && d.body.Ok?))
            && (forall i: nat, j: nat :: Keyed(g, ds, i, j) <==>
                  Keyed(g, front, i, j) || (j == n && Welcomed(front, i) && GoodKey(g, d.body)))
            && (forall i: nat, j: nat, k: nat :: Ponged(g, ds, i, j, k) <==>
                  Ponged(g, front, i, j, k) || (k == n && Keyed(g, front, i, j) && d.body.Pong?))
  {
  }

  /** The client has left a stage exactly when the packets that lead out of it
      have come, in that order, whatever else came between; and it encrypts
      exactly from ENCRYPT on. */
  lemma {:induction false} StageReached(g: Config, ds: seq<Delivery>)
    ensures var s := After(g, ds);
            && (Rank(s.stage) >= 1 <==> exists i: nat :: Welcomed(ds, i))
            && (Rank(s.stage) >= 2 <==> exists i: nat, j: nat :: Keyed(g, ds, i, j))
            && (Rank(s.stage) >= 3 <==> exists i: nat, j: nat, k: nat :: Ponged(g, ds, i, j, k))
            && (s.active <==> Rank(s.stage) >= 2)
    decreases |ds|
  {
    hide ClientHandle, GoodKey;
    if ds != [] {
      var n := |ds| - 1;
      var front, d := ds[..n], ds[n];
      StageReached(g, front);
      var s := After(g, front);
      OneStep(g, s, d);
      Extends(g, front, d);
      assert ds == front + [d];
      if Rank(s.stage) == 0 && d.body.Ok? {
        assert Welcomed(ds, n);
      }
      if Rank(s.stage) == 1 && GoodKey(g, d.body) {
        var i: nat :| Welcomed(front, i);
        assert Keyed(g, ds, i, n);
      }
      if Rank(s.stage) == 2 && d.body.Pong? {
        var i: nat, j: nat :| Keyed(g, front, i, j);
        assert Ponged(g, ds, i, j, n);
      }
    }
  }

  /** As at the server, the handler copies the stored key into the packet, and
      never the other way round. */
  lemma {:induction false} RemoteKeyStays(g: Config, ds: seq<Delivery>)
    ensures After(g, ds).remoteKey == Zeros(g.keyBytes)
    decreases |ds|
  {
    if ds != [] {
      RemoteKeyStays(g, ds[..|ds| - 1]);
    }
  }

  lemma RemoteKeyIsPeers(g: Config, ds: seq<Delivery>, j: nat)
    requires j < |ds| && GoodKey(g, ds[j].body)
    ensures After(g, ds).remoteKey == ds[j].body.key
       <==> forall b | b in ds[j].body.key :: b == 0
  {
    RemoteKeyStays(g, ds);
    OnlyZeros(ds[j].body.key);
  }

  /** Refusals aside, what the client has sent. */
  function NoErrors(fs: seq<Frame>): seq<Body> {
    if fs == [] then []
    else NoErrors(fs[..|fs| - 1]) + if fs[|fs| - 1].body.Error? then [] else [fs[|fs| - 1].body]
  }

  /** The messages of all stages up to `s`. */
  function Script(g: Config, s: Stage): seq<Body>
    decreases Rank(s)
  {
    match s
    case PreHandshake => [Entering(g, PreHandshake)]
    case PreEncrypt => Script(g, PreHandshake) + [Entering(g, PreEncrypt)]
    case Encrypt => Script(g, PreEncrypt) + [Entering(g, Encrypt)]
    case Chat => Script(g, Encrypt) + [Entering(g, Chat)]
  }

  /** On any input, and refusals aside, the client has sent the message of each
      stage up to its own, once and in order: version, key, ping, command. */
  lemma {:induction false} OutputIsScript(g: Config, nonce: seq<Byte>, ds: seq<Delivery>)
    ensures NoErrors(Output(g, Hello(nonce), ds)) == Script(g, After(g, ds).stage)
    decreases |ds|
  {
    hide ClientHandle, GoodKey, Entering;
    if ds == [] {
      HelloOnly(g, nonce);
    } else {
      var front, d := ds[..|ds| - 1], ds[|ds| - 1];
      OutputIsScript(g, nonce, front);
      StageReached(g, front);
      OneStep(g, After(g, front), d);
      var before, o := Output(g, Hello(nonce), front), ClientHandle(g, After(g, front), d);
      if o.sent == [] {
        assert before + o.sent == before;
      } else {
        assert o.sent == [o.sent[0]];
        NoErrorsSnoc(before, o.sent[0]);
        EnteringIsNoError(g, o.end.stage);
      }
      SameRank(After(g, front).stage, o.end.stage);
    }
  }

  lemma HelloOnly(g: Config, nonce: seq<Byte>)
    ensures NoErrors([Hello(nonce)]) == [Entering(g, PreHandshake)]
  {
    assert [Hello(nonce)][..0] == [];
  }

  lemma NoErrorsSnoc(fs: seq<Frame>, f: Frame)
    ensures NoErrors(fs + [f]) == NoErrors(fs) + if f.body.Error? then [] else [f.body]
  {
    assert (fs + [f])[..|fs|] == fs;
  }

  lemma EnteringIsNoError(g: Config, s: Stage)
    ensures !Entering(g, s).Error?
  {
  }

  lemma SameRank(s: Stage, t: Stage)
    ensures Rank(s) == Rank(t) <==> s == t
  {
  }

  // ------------------------------------------------------------------
  // Packets and answers
  // ------------------------------------------------------------------

  predicate NeedsAnswer(b: Body, stage: Stage) {
    || b.PublicKey? || b.ProtocolVersion?
    || (b.Ok? && stage == PreHandshake) || (b.Pong? && stage == Encrypt)
  }

  /** `f` is a right answer to `d`, which came in session `s` and left it `t`. */
  predicate IsAnswer(g: Config, d: Delivery, s: Endpoint, t: Endpoint, f: Frame) {
    && f.id == d.id && f.nonce == d.nonce && (f.sealed <==> t.active)
    && (f.body == Error(2) <==> d.body.ProtocolVersion?)
    && (f.body == Error(3) <==> d.body.PublicKey? && s.stage != PreEncrypt)
    && (f.body == Error(4) <==> d.body.PublicKey? && s.stage == PreEncrypt && |d.body.key| != g.keyBytes)
    && (f.body.Error? ==> f.body.reason in {2, 3, 4})
    && (if f.body.Error? then t == s else f.body == Entering(g, t.stage) && Rank(t.stage) == Rank(s.stage) + 1)
  }

  lemma OneAnswer(g: Config, s: Endpoint, d: Delivery)
    ensures var o := ClientHandle(g, s, d);
            && |o.sent| <= 1
            && (o.sent != [] <==> NeedsAnswer(d.body, s.stage))
            && (o.sent != [] ==> IsAnswer(g, d, s, o.end, o.sent[0]))
  {
  }

  /** After the first message, the `i`-th frame sent answers the packet number
      `at[i]`. */
  ghost predicate AnswersAt(g: Config, ds: seq<Delivery>, fs: seq<Frame>, at: seq<nat>) {
    && |at| + 1 == |fs|
    && (forall i, j | 0 <= i < j < |at| :: at[i] < at[j])
    && (forall i | 0 <= i < |at| :: AnswerTo(g, ds, at[i], fs[i + 1]))
    && (forall k | 0 <= k < |ds| :: k in at <==> Calls(g, ds, k))
  }

  ghost predicate AnswerTo(g: Config, ds: seq<Delivery>, k: nat, f: Frame) {
    k < |ds| && IsAnswer(g, ds[k], After(g, ds[..k]), After(g, ds[..k + 1]), f)
  }

  /** Packet number `k` calls for a frame. */
  ghost predicate Calls(g: Config, ds: seq<Delivery>, k: nat) {
    k < |ds| && NeedsAnswer(ds[k].body, After(g, ds[..k]).stage)
  }

  lemma Earlier(g: Config, front: seq<Delivery>, d: Delivery, k: nat, f: Frame)
    requires k < |front|
    ensures AnswerTo(g, front + [d], k, f) <==> AnswerTo(g, front, k, f)
    ensures Calls(g, front + [d], k) <==> Calls(g, front, k)
  {
    assert (front + [d])[..k] == front[..k] && (front + [d])[..k + 1] == front[..k + 1];
  }

  lemma Latest(g: Config, front: seq<Delivery>, d: Delivery, f: Frame)
    ensures AnswerTo(g, front + [d], |front|, f) <==> IsAnswer(g, d, After(g, front), After(g, front + [d]), f)
    ensures Calls(g, front + [d], |front|) <==> NeedsAnswer(d.body, After(g, front).stage)
  {
    assert (front + [d])[..|front|] == front && (front + [d])[..|front| + 1] == front + [d];
  }

  lemma AnswersAtSnoc(g: Config, front: seq<Delivery>, d: Delivery, fs: seq<Frame>, at: seq<nat>, sent: seq<Frame>)
    requires AnswersAt(g, front, fs, at) && |sent| <= 1
    requires sent != [] <==> NeedsAnswer(d.body, After(g, front).stage)
    requires sent != [] ==> IsAnswer(g, d, After(g, front), After(g, front + [d]), sent[0])
    ensures AnswersAt(g, front + [d], fs + sent, at + if sent == [] then [] else [|front|])
  {
    var ds, n, all, gs := front + [d], |front|, at + if sent == [] then [] else [|front|], fs + sent;
    hide After, IsAnswer, NeedsAnswer, AnswerTo, Calls;
    forall i | 0 <= i < |at| ensures at[i] < n {
      Inside(g, front, at[i], fs[i + 1]);
    }
    forall i | 0 <= i < |all| ensures AnswerTo(g, ds, all[i], gs[i + 1]) {
      if i < |at| {
        Earlier(g, front, d, at[i], fs[i + 1]);
      } else {
        Latest(g, front, d, sent[0]);
      }
    }
    forall k | 0 <= k < |ds| ensures k in all <==> Calls(g, ds, k) {
      if k < n {
        Earlier(g, front, d, k, Frame(0, Ok, false, []));
      } else {
        Latest(g, front, d, Frame(0, Ok, false, []));
      }
    }
  }

  lemma Inside(g: Config, ds: seq<Delivery>, k: nat, f: Frame)
    requires AnswerTo(g, ds, k, f)
    ensures k < |ds|
  {
  }

  /** On any input the frames after the first are answers in the order of the
      packets they answer, at most one each and with its id: the message of the
      next stage, or a refusal that changes nothing. */
  lemma {:induction false} AnswersInOrder(g: Config, nonce: seq<Byte>, ds: seq<Delivery>) returns (at: seq<nat>)
    ensures AnswersAt(g, ds, Output(g, Hello(nonce), ds), at)
    decreases |ds|
  {
    if ds == [] {
      at := [];
    } else {
      hide AnswersAt, ClientHandle, IsAnswer, NeedsAnswer;
      var n := |ds| - 1;
      var front, d := ds[..n], ds[n];
      var before := AnswersInOrder(g, nonce, front);
      OneAnswer(g, After(g, front), d);
      assert front + [d] == ds;
      var sent := ClientHandle(g, After(g, front), d).sent;
      AnswersAtSnoc(g, front, d, Output(g, Hello(nonce), front), before, sent);
      at := before + if sent == [] then [] else [n];
    }
  }
}
