/** Frames one after another in one stream of bytes (src/excom/protocol.c). */
module Streams {
  import opened Bytes
  import opened Packets
  import opened Protocol

  /** A frame as its sender made it: in which mode, and with which nonce. */
  datatype Frame = Frame(id: Uint16, body: Body, sealed: bool, nonce: seq<Byte>)

  predicate WritableFrame(c: Crypto, f: Frame) {
    |f.nonce| == c.nonceBytes && Writable(c, f.sealed, f.body)
  }

  predicate AllWritable(c: Crypto, fs: seq<Frame>) {
    forall i | 0 <= i < |fs| :: WritableFrame(c, fs[i])
  }

  function WireOf(c: Crypto, f: Frame): seq<Byte>
    requires WritableFrame(c, f)
  {
    Wire(c, f.sealed, f.nonce, f.id, f.body)
  }

  function PacketOf(c: Crypto, f: Frame): Packet
    requires WritableFrame(c, f)
  {
    Packet(WireSize(c, f.sealed, f.body), f.id, f.body)
  }

  function Encode(c: Crypto, fs: seq<Frame>): seq<Byte>
    requires AllWritable(c, fs)
  {
    if fs == [] then [] else WireOf(c, fs[0]) + Encode(c, fs[1..])
  }

  function PacketsOf(c: Crypto, fs: seq<Frame>): (ps: seq<Packet>)
    requires AllWritable(c, fs)
    ensures |ps| == |fs|
    ensures forall i | 0 <= i < |fs| :: ps[i] == PacketOf(c, fs[i])
  {
    seq(|fs|, i requires 0 <= i < |fs| => PacketOf(c, fs[i]))
  }

  /** The reader's mode suits the frame: the sender's mode, or no body. */
  predicate Suits(f: Frame, active: bool)
    requires SizedBody(f.body)
  {
    f.sealed == active || BodyBytes(f.body) == []
  }

  /** Read in a suitable mode with nothing of the frame left behind. */
  predicate Whole(c: Crypto, f: Frame, active: bool) {
    WritableFrame(c, f) && Suits(f, active) && Shortfall(c, f.sealed, f.body) == 0
  }

  predicate AllWhole(c: Crypto, fs: seq<Frame>, active: bool) {
    forall i | 0 <= i < |fs| :: Whole(c, fs[i], active)
  }

  lemma WholeWritable(c: Crypto, fs: seq<Frame>, active: bool)
    requires AllWhole(c, fs, active)
    ensures AllWritable(c, fs)
  {
  }

  lemma WireLength(c: Crypto, f: Frame)
    requires Lawful(c) && WritableFrame(c, f)
    ensures |WireOf(c, f)| == HEADER + WireSize(c, f.sealed, f.body) < WORD
    ensures SizeAt(WireOf(c, f)) == WireSize(c, f.sealed, f.body)
  {
    hide Lawful;
    var w := WireOf(c, f);
    HonestLength(c, f.sealed, f.nonce, f.nonce, f.id, f.body);
    HeaderFields(WireSize(c, f.sealed, f.body), f.id, Code(f.body), WireBody(c, f.sealed, f.nonce, f.body));
  }

  /** Reading a frame in a mode that suits it. */
  lemma ReadSuitable(c: Crypto, f: Frame, active: bool, rest: seq<Byte>)
    requires Lawful(c) && WritableFrame(c, f) && Suits(f, active)
    ensures ReadFrame(c, active, WireOf(c, f) + rest)
         == Parsed(PacketOf(c, f), |WireOf(c, f)| - Shortfall(c, f.sealed, f.body))
  {
    hide Lawful, ReadFrame, Wire, Header, BodyBytes;
    FrameRoundTrip(c, f.sealed, f.nonce, f.id, f.body, rest);
    if f.sealed != active {
      EmptyModes(c, f);
      ModeOfEmptyBody(c, f.nonce, f.id, f.body, rest);
    }
  }

  lemma EmptyModes(c: Crypto, f: Frame)
    requires WritableFrame(c, f) && BodyBytes(f.body) == []
    ensures Writable(c, true, f.body) && Writable(c, false, f.body)
  {
  }

  // ------------------------------------------------------------------
  // Many frames
  // ------------------------------------------------------------------

  /** `n` reads in a row: the packets, and the bytes still unread. */
  function ReadMany(c: Crypto, active: bool, unread: seq<Byte>, n: nat): Option<(seq<Packet>, seq<Byte>)> {
    if n == 0 then Some(([], unread))
    else
      match ReadFrame(c, active, unread)
      case Parsed(p, next) =>
        if next > |unread| then None
        else
          var rest := ReadMany(c, active, unread[next..], n - 1);
          if rest.None? then None else Some(([p] + rest.value.0, rest.value.1))
      case _ => None
  }

  /** Writing packets into one buffer and reading as many gives them back, in
      order, and leaves exactly what came after them. */
  lemma {:induction false} StreamRoundTrip(c: Crypto, active: bool, fs: seq<Frame>, rest: seq<Byte>)
    requires Lawful(c) && AllWhole(c, fs, active)
    ensures ReadMany(c, active, Encode(c, fs) + rest, |fs|) == Some((PacketsOf(c, fs), rest))
  {
    hide Lawful, ReadFrame, WireOf, PacketOf, WritableFrame, Suits, Shortfall;
    if fs == [] {
      assert [] + rest == rest;
    } else {
      var w, more := WireOf(c, fs[0]), Encode(c, fs[1..]) + rest;
      Assoc(w, Encode(c, fs[1..]), rest);
      ReadSuitable(c, fs[0], active, more);
      assert (w + more)[|w|..] == more;
      StreamRoundTrip(c, active, fs[1..], rest);
      assert PacketsOf(c, fs) == [PacketOf(c, fs[0])] + PacketsOf(c, fs[1..]);
    }
  }

  /** No encoding is a proper prefix of another: what starts with two frames
      starts with one frame twice. */
  lemma PrefixFree(c: Crypto, f: Frame, g: Frame, x: seq<Byte>, y: seq<Byte>)
    requires Lawful(c) && WritableFrame(c, f) && WritableFrame(c, g) && !f.sealed && !g.sealed
    requires WireOf(c, f) + x == WireOf(c, g) + y
    ensures f.id == g.id && f.body == g.body && WireOf(c, f) == WireOf(c, g) && x == y
  {
    hide Lawful, ReadFrame, Header, BodyBytes;
    ReadSuitable(c, f, false, x);
    ReadSuitable(c, g, false, y);
    assert WireOf(c, f) == WireOf(c, g);
    SamePrefix(WireOf(c, f), x, y);
  }

  /** Two lists of packets with the same plaintext encoding are the same list,
      packet by packet. */
  lemma {:induction false} UniquelyDecodable(c: Crypto, fs: seq<Frame>, gs: seq<Frame>)
    requires Lawful(c) && AllWritable(c, fs) && AllWritable(c, gs)
    requires forall i | 0 <= i < |fs| :: !fs[i].sealed
    requires forall i | 0 <= i < |gs| :: !gs[i].sealed
    requires Encode(c, fs) == Encode(c, gs)
    ensures |fs| == |gs|
    ensures forall i | 0 <= i < |fs| :: fs[i].id == gs[i].id && fs[i].body == gs[i].body
  {
    hide Lawful, WireOf, WritableFrame;
    if fs != [] {
      WireLength(c, fs[0]);
    }
    if gs != [] {
      WireLength(c, gs[0]);
    }
    if fs != [] && gs != [] {
      PrefixFree(c, fs[0], gs[0], Encode(c, fs[1..]), Encode(c, gs[1..]));
      UniquelyDecodable(c, fs[1..], gs[1..]);
      forall i | 0 <= i < |fs| ensures fs[i].id == gs[i].id && fs[i].body == gs[i].body {
        if i > 0 {
          assert fs[i] == fs[1..][i - 1] && gs[i] == gs[1..][i - 1];
        }
      }
    }
  }

  lemma {:induction false} EncodeConcat(c: Crypto, fs: seq<Frame>, gs: seq<Frame>)
    requires AllWritable(c, fs) && AllWritable(c, gs)
    ensures AllWritable(c, fs + gs) && Encode(c, fs + gs) == Encode(c, fs) + Encode(c, gs)
  {
    hide WireOf, WritableFrame;
    if fs == [] {
      assert fs + gs == gs;
    } else {
      assert (fs + gs)[1..] == fs[1..] + gs;
      EncodeConcat(c, fs[1..], gs);
    }
  }
}
