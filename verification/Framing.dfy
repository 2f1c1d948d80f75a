/** Cutting the received bytes into packets (`check_packet` in
    src/excom-server/client.c and src/excom-client/client.c).

    A frame is eight bytes of header and `size` bytes of body; the source waits
    for `guard` + size bytes, with guard = 4. */
module Framing {
  import opened Bytes
  import opened Packets
  import opened Protocol
  import opened Streams

  /** What one look at the buffer leads to. `Overrun` is a read past the bytes
      that have arrived. */
  datatype Look = Wait | Take(packet: Packet, next: nat) | Drop(next: nat) | Overrun

  /** The sum is made in 32 bits. */
  function Needed(guard: nat, size: Uint32): nat {
    (guard + size) % WORD
  }

  /** One turn of the server's loop. */
  function LookAt(c: Crypto, guard: nat, active: bool, unread: seq<Byte>): (l: Look)
    ensures l.Take? ==> HEADER <= l.next <= |unread|
  {
    if |unread| <= 4 || |unread| < Needed(guard, SizeAt(unread)) then Wait
    else
      match ReadFrame(c, active, unread)
      case Parsed(p, next) => if next <= |unread| then Take(p, next) else Overrun
      case Rejected(next) => if next <= |unread| then Drop(next) else Overrun
      case Fault => Overrun
  }

  datatype Halt = Waiting | Dropped | Overran

  datatype Cut = Cut(packets: seq<Packet>, rest: seq<Byte>, halt: Halt)

  /** The server's loop: packets until it has to wait, or has to stop. */
  function Drain(c: Crypto, guard: nat, active: bool, unread: seq<Byte>): Cut
    decreases |unread|
  {
    match LookAt(c, guard, active, unread)
    case Wait => Cut([], unread, Waiting)
    case Drop(next) => Cut([], unread[if next <= |unread| then next else 0..], Dropped)
    case Overrun => Cut([], unread, Overran)
    case Take(p, next) =>
      var more := Drain(c, guard, active, unread[next..]);
      more.(packets := [p] + more.packets)
  }

  // ------------------------------------------------------------------
  // Arrivals
  // ------------------------------------------------------------------

  /** Packets parsed so far and bytes not yet parsed. */
  datatype Intake = Intake(packets: seq<Packet>, unread: seq<Byte>, sound: bool)

  /** A chunk arrives and the server looks for packets. */
  function Arrive(c: Crypto, guard: nat, active: bool, s: Intake, chunk: seq<Byte>): Intake {
    if !s.sound then s
    else
      var cut := Drain(c, guard, active, s.unread + chunk);
      Intake(s.packets + cut.packets, cut.rest, cut.halt == Waiting)
  }

  function ArriveAll(c: Crypto, guard: nat, active: bool, chunks: seq<seq<Byte>>): Intake {
    if chunks == [] then Intake([], [], true)
    else Arrive(c, guard, active, ArriveAll(c, guard, active, chunks[..|chunks| - 1]), chunks[|chunks| - 1])
  }

  function Joined(chunks: seq<seq<Byte>>): seq<Byte> {
    if chunks == [] then [] else Joined(chunks[..|chunks| - 1]) + chunks[|chunks| - 1]
  }

  /** How many frames are complete once `n` bytes of the stream are there. */
  function Complete(c: Crypto, fs: seq<Frame>, n: nat): (k: nat)
    requires AllWritable(c, fs)
    ensures k <= |fs|
  {
    if fs == [] || n < |WireOf(c, fs[0])| then 0
    else 1 + Complete(c, fs[1..], n - |WireOf(c, fs[0])|)
  }

  /** The bytes of the frame that is not complete. */
  function Tail(c: Crypto, fs: seq<Frame>, n: nat): seq<Byte>
    requires AllWritable(c, fs) && n <= |Encode(c, fs)|
  {
    if fs == [] then []
    else if n < |WireOf(c, fs[0])| then WireOf(c, fs[0])[..n]
    else Tail(c, fs[1..], n - |WireOf(c, fs[0])|)
  }

  /** A partial frame that the guard takes for a complete one. */
  predicate InWindow(guard: nat, tail: seq<Byte>) {
    |tail| > 4 && guard + SizeAt(tail) <= |tail| < HEADER + SizeAt(tail)
  }

  lemma LookAtPartial(c: Crypto, guard: nat, active: bool, f: Frame, n: nat)
    requires Lawful(c) && WritableFrame(c, f) && guard <= HEADER && n < |WireOf(c, f)|
    ensures var t := WireOf(c, f)[..n];
            LookAt(c, guard, active, t) == if InWindow(guard, t) then Overrun else Wait
  {
    hide Lawful, WireOf, WritableFrame, BodyBytes, WireSize;
    var w := WireOf(c, f);
    WireLength(c, f);
    var t := w[..n];
    if n > 4 {
      assert t[..4] == w[..4];
    }
  }

  lemma LookAtComplete(c: Crypto, guard: nat, active: bool, f: Frame, rest: seq<Byte>)
    requires Lawful(c) && WritableFrame(c, f) && Suits(f, active) && guard <= HEADER
    ensures LookAt(c, guard, active, WireOf(c, f) + rest)
         == Take(PacketOf(c, f), |WireOf(c, f)| - Shortfall(c, f.sealed, f.body))
  {
    hide Lawful, WireOf, ReadFrame, PacketOf;
    var w := WireOf(c, f);
    WireLength(c, f);
    ReadSuitable(c, f, active, rest);
    assert (w + rest)[..4] == w[..4];
  }

  lemma LookAtWhole(c: Crypto, guard: nat, active: bool, f: Frame, rest: seq<Byte>)
    requires Lawful(c) && Whole(c, f, active) && guard <= HEADER
    ensures LookAt(c, guard, active, WireOf(c, f) + rest) == Take(PacketOf(c, f), |WireOf(c, f)|)
  {
    hide Lawful, WireOf, PacketOf, LookAt;
    LookAtComplete(c, guard, active, f, rest);
  }

  /** All frames of `fs` taken, `tail` left over. */
  function CutOf(c: Crypto, guard: nat, fs: seq<Frame>, tail: seq<Byte>): Cut
    requires AllWritable(c, fs)
  {
    Cut(PacketsOf(c, fs), tail, if InWindow(guard, tail) then Overran else Waiting)
  }

  /** The loop on the first `n` bytes of a stream of frames. */
  lemma {:induction false} DrainStream(c: Crypto, guard: nat, active: bool, fs: seq<Frame>, n: nat)
    requires Lawful(c) && AllWhole(c, fs, active) && AllWritable(c, fs)
    requires guard <= HEADER && n <= |Encode(c, fs)|
    ensures Drain(c, guard, active, Encode(c, fs)[..n])
         == CutOf(c, guard, fs[..Complete(c, fs, n)], Tail(c, fs, n))
    decreases |fs|
  {
    hide Lawful, WireOf, PacketOf, Whole, WritableFrame, LookAt, InWindow;
    WholeWritable(c, fs, active);
    var k := Complete(c, fs, n);
    if fs == [] {
      EmptyLook(c, guard, active);
    } else {
      var w, more := WireOf(c, fs[0]), Encode(c, fs[1..]);
      if n < |w| {
        LookAtPartial(c, guard, active, fs[0], n);
        assert (w + more)[..n] == w[..n];
      } else {
        var m := n - |w|;
        LookAtWhole(c, guard, active, fs[0], more[..m]);
        assert (w + more)[..n] == w + more[..m];
        assert (w + more[..m])[|w|..] == more[..m];
        DrainStream(c, guard, active, fs[1..], m);
        assert fs[..k][1..] == fs[1..][..k - 1];
        assert PacketsOf(c, fs[..k]) == [PacketOf(c, fs[0])] + PacketsOf(c, fs[1..][..k - 1]);
      }
    }
  }

  /** A frame of type 0 that is all there. */
  predicate TypeZero(c: Crypto, active: bool, unread: seq<Byte>) {
    && |unread| >= HEADER && |unread| >= HEADER + SizeAt(unread)
    && unread[6] == 0 && unread[7] == 0 && !(active && 0 < SizeAt(unread) < c.nonceBytes)
  }

  /** It ends the loop: the frames before it are taken, and it and all that
      follows is left, but for its header and the nonce of a sealed body. */
  lemma {:induction false} TypeZeroStops(c: Crypto, guard: nat, active: bool, fs: seq<Frame>, bad: seq<Byte>)
    requires Lawful(c) && AllWhole(c, fs, active) && AllWritable(c, fs) && guard <= HEADER && TypeZero(c, active, bad)
    ensures var at := if active && SizeAt(bad) > 0 then HEADER + c.nonceBytes else HEADER;
            && at <= |bad|
            && Drain(c, guard, active, Encode(c, fs) + bad) == Cut(PacketsOf(c, fs), bad[at..], Dropped)
    decreases |fs|
  {
    hide Lawful, WireOf, PacketOf, Whole, WritableFrame, LookAt, SizeAt;
    if fs == [] {
      assert [] + bad == bad;
      TypeZeroLook(c, guard, active, bad);
    } else {
      var w, more := WireOf(c, fs[0]), Encode(c, fs[1..]) + bad;
      Assoc(w, Encode(c, fs[1..]), bad);
      LookAtWhole(c, guard, active, fs[0], more);
      assert (w + more)[|w|..] == more;
      TypeZeroStops(c, guard, active, fs[1..], bad);
      assert PacketsOf(c, fs) == [PacketOf(c, fs[0])] + PacketsOf(c, fs[1..]);
    }
  }

  lemma TypeZeroLook(c: Crypto, guard: nat, active: bool, bad: seq<Byte>)
    requires guard <= HEADER && TypeZero(c, active, bad)
    ensures var at := if active && SizeAt(bad) > 0 then HEADER + c.nonceBytes else HEADER;
            at <= |bad| && LookAt(c, guard, active, bad) == Drop(at)
  {
    hide SizeAt, ReadFrame;
    TypeZeroRefused(c, active, bad);
  }

  lemma EmptyLook(c: Crypto, guard: nat, active: bool)
    ensures LookAt(c, guard, active, []) == Wait && !InWindow(guard, [])
  {
  }

  lemma SlicesWithin<T>(w: seq<T>, more: seq<T>, n: nat, m: nat)
    requires n <= |w| && n + m <= |w| + |more|
    ensures w[..n] + (w + more)[n..n + m] == (w + more)[..n + m]
  {
  }

  lemma SlicesBeyond<T>(w: seq<T>, more: seq<T>, n: nat, m: nat)
    requires |w| <= n && n + m <= |w| + |more|
    ensures (w + more)[n..n + m] == more[n - |w|..n - |w| + m]
  {
  }

  /** The frames that are not complete after `n` bytes. */
  function Rest(c: Crypto, fs: seq<Frame>, n: nat): (rest: seq<Frame>)
    requires AllWritable(c, fs)
    ensures AllWritable(c, rest)
  {
    if fs == [] || n < |WireOf(c, fs[0])| then fs else Rest(c, fs[1..], n - |WireOf(c, fs[0])|)
  }

  lemma FirstFrame(c: Crypto, fs: seq<Frame>, n: nat)
    requires AllWritable(c, fs) && fs != [] && n <= |Encode(c, fs)|
    ensures var w, rest := WireOf(c, fs[0]), fs[1..];
            && AllWritable(c, rest) && Encode(c, fs) == w + Encode(c, rest)
            && (n < |w| ==> Complete(c, fs, n) == 0 && Tail(c, fs, n) == w[..n] && Rest(c, fs, n) == fs)
            && (n >= |w| ==>
                  && Complete(c, fs, n) == 1 + Complete(c, rest, n - |w|)
                  && Tail(c, fs, n) == Tail(c, rest, n - |w|)
                  && Rest(c, fs, n) == Rest(c, rest, n - |w|))
  {
    hide WireOf, WritableFrame;
  }

  lemma {:induction false} RestIsSuffix(c: Crypto, fs: seq<Frame>, n: nat)
    requires AllWritable(c, fs)
    ensures Rest(c, fs, n) == fs[Complete(c, fs, n)..]
  {
    hide WireOf, WritableFrame;
    if fs != [] && |WireOf(c, fs[0])| <= n {
      RestIsSuffix(c, fs[1..], n - |WireOf(c, fs[0])|);
    }
  }

  /** Cutting the stream at `n` and its remainder `m` bytes further is cutting
      it at `n + m`. */
  ghost predicate Resumes(c: Crypto, fs: seq<Frame>, n: nat, m: nat)
    requires AllWritable(c, fs) && n + m <= |Encode(c, fs)|
  {
    var t, rest := Tail(c, fs, n), Rest(c, fs, n);
    && |t| + m <= |Encode(c, rest)|
    && t + Encode(c, fs)[n..n + m] == Encode(c, rest)[..|t| + m]
    && Complete(c, fs, n + m) == Complete(c, fs, n) + Complete(c, rest, |t| + m)
    && Tail(c, fs, n + m) == Tail(c, rest, |t| + m)
  }

  lemma {:induction false} ResumeAt(c: Crypto, fs: seq<Frame>, n: nat, m: nat)
    requires AllWritable(c, fs) && n + m <= |Encode(c, fs)|
    ensures Resumes(c, fs, n, m)
    decreases |fs|
  {
    hide WireOf, WritableFrame, Encode, Complete, Tail, Rest, Resumes;
    if fs == [] {
      ResumeEmpty(c, n, m);
    } else {
      FirstFrame(c, fs, n);
      if |WireOf(c, fs[0])| <= n {
        ResumeAt(c, fs[1..], n - |WireOf(c, fs[0])|, m);
        ResumeBeyond(c, fs, n, m);
      } else {
        ResumeWithin(c, fs, n, m);
      }
    }
  }

  lemma ResumeEmpty(c: Crypto, n: nat, m: nat)
    requires n + m <= |Encode(c, [])|
    ensures Resumes(c, [], n, m)
  {
  }

  lemma ResumeWithin(c: Crypto, fs: seq<Frame>, n: nat, m: nat)
    requires AllWritable(c, fs) && fs != [] && n + m <= |Encode(c, fs)| && n < |WireOf(c, fs[0])|
    ensures Resumes(c, fs, n, m)
  {
    hide WireOf, WritableFrame, Encode, Complete, Tail, Rest;
    FirstFrame(c, fs, n);
    SlicesWithin(WireOf(c, fs[0]), Encode(c, fs[1..]), n, m);
  }

  lemma ResumeBeyond(c: Crypto, fs: seq<Frame>, n: nat, m: nat)
    requires AllWritable(c, fs) && fs != [] && n + m <= |Encode(c, fs)|
    requires |WireOf(c, fs[0])| <= n && n - |WireOf(c, fs[0])| + m <= |Encode(c, fs[1..])|
    requires Resumes(c, fs[1..], n - |WireOf(c, fs[0])|, m)
    ensures Resumes(c, fs, n, m)
  {
    hide WireOf, WritableFrame, Encode, Complete, Tail, Rest;
    FirstFrame(c, fs, n);
    FirstFrame(c, fs, n + m);
    SlicesBeyond(WireOf(c, fs[0]), Encode(c, fs[1..]), n, m);
  }

  /** No arrival leaves a partial frame in the guard's window. */
  ghost predicate Clear(c: Crypto, guard: nat, fs: seq<Frame>, chunks: seq<seq<Byte>>)
    requires AllWritable(c, fs) && Joined(chunks) <= Encode(c, fs)
  {
    chunks != [] ==>
      var front := chunks[..|chunks| - 1];
      && Joined(front) <= Encode(c, fs)
      && Clear(c, guard, fs, front)
      && !InWindow(guard, Tail(c, fs, |Joined(chunks)|))
  }

  /** However the stream is chopped up on its way, after every arrival the
      packets parsed are the complete frames received so far, in order, and the
      unread bytes are the partial frame. This holds exactly for arrivals that
      stay clear of the window; see `NoWindow` for the guard that has none. */
  lemma {:induction false} ChunkIndependence(
      c: Crypto, guard: nat, active: bool, fs: seq<Frame>, chunks: seq<seq<Byte>>)
    requires Lawful(c) && AllWhole(c, fs, active) && AllWritable(c, fs) && guard <= HEADER
    requires Joined(chunks) <= Encode(c, fs)
    ensures var s, n := ArriveAll(c, guard, active, chunks), |Joined(chunks)|;
            && (s.sound <==> Clear(c, guard, fs, chunks))
            && (s.sound ==> s.packets == PacketsOf(c, fs[..Complete(c, fs, n)]) && s.unread == Tail(c, fs, n))
    decreases |chunks|
  {
    hide Lawful, Whole, WritableFrame, InWindow, Complete, Tail, Encode, Drain;
    if chunks == [] {
      NothingYet(c, fs);
    } else {
      var front, last := chunks[..|chunks| - 1], chunks[|chunks| - 1];
      ChunkIndependence(c, guard, active, fs, front);
      var s := ArriveAll(c, guard, active, front);
      if s.sound {
        ArrivalStep(c, guard, active, fs, s, |Joined(front)|, last);
      }
    }
  }

  lemma NothingYet(c: Crypto, fs: seq<Frame>)
    requires Lawful(c) && AllWritable(c, fs)
    ensures Complete(c, fs, 0) == 0 && Tail(c, fs, 0) == []
  {
    hide Lawful;
    if fs != [] {
      WireLength(c, fs[0]);
    }
  }

  lemma ArrivalStep(c: Crypto, guard: nat, active: bool, fs: seq<Frame>, s: Intake, n: nat, chunk: seq<Byte>)
    requires Lawful(c) && AllWhole(c, fs, active) && AllWritable(c, fs) && guard <= HEADER && s.sound
    requires n + |chunk| <= |Encode(c, fs)| && chunk == Encode(c, fs)[n..n + |chunk|]
    requires s.packets == PacketsOf(c, fs[..Complete(c, fs, n)]) && s.unread == Tail(c, fs, n)
    ensures var r, m := Arrive(c, guard, active, s, chunk), n + |chunk|;
            && (r.sound <==> !InWindow(guard, Tail(c, fs, m)))
            && r.packets == PacketsOf(c, fs[..Complete(c, fs, m)]) && r.unread == Tail(c, fs, m)
  {
    hide Lawful, Whole, WritableFrame, InWindow, Drain, Complete, Tail, Encode, Rest;
    var k := Complete(c, fs, n);
    RestIsSuffix(c, fs, n);
    ResumeAt(c, fs, n, |chunk|);
    var j := Complete(c, fs[k..], |s.unread| + |chunk|);
    DrainStream(c, guard, active, fs[k..], |s.unread| + |chunk|);
    assert fs[..k] + fs[k..][..j] == fs[..k + j];
    assert PacketsOf(c, fs[..k]) + PacketsOf(c, fs[k..][..j]) == PacketsOf(c, fs[..k + j]);
  }

  /** A guard as long as the header has no window, so every arrival is clear. */
  lemma {:induction false} NoWindow(c: Crypto, fs: seq<Frame>, chunks: seq<seq<Byte>>)
    requires AllWritable(c, fs) && Joined(chunks) <= Encode(c, fs)
    ensures Clear(c, HEADER, fs, chunks)
    decreases |chunks|
  {
    if chunks != [] {
      NoWindow(c, fs, chunks[..|chunks| - 1]);
    }
  }

  /** Where a guard takes the start of `f` for the whole of it. */
  function BadCut(c: Crypto, guard: nat, f: Frame): nat
    requires WritableFrame(c, f)
  {
    var n := guard + WireSize(c, f.sealed, f.body);
    if n > 5 then n else 5
  }

  /** Any shorter guard, such as the coded four, has a window in every frame:
      there is an arrival that makes the loop read bytes that are not there. */
  lemma ShortGuardOverruns(c: Crypto, guard: nat, active: bool, f: Frame)
    requires Lawful(c) && WritableFrame(c, f) && guard < HEADER
    ensures var n := BadCut(c, guard, f);
            n < |WireOf(c, f)| && !ArriveAll(c, guard, active, [WireOf(c, f)[..n]]).sound
  {
    hide Lawful, WireOf, WritableFrame, LookAt;
    var w, n := WireOf(c, f), BadCut(c, guard, f);
    WireLength(c, f);
    var chunk := w[..n];
    assert chunk[..4] == w[..4];
    LookAtPartial(c, guard, active, f, n);
    assert [chunk][..0] == [];
    assert [] + chunk == chunk;
    assert ArriveAll(c, guard, active, [chunk]) == Arrive(c, guard, active, ArriveAll(c, guard, active, []), chunk);
  }

  /** On arbitrary bytes even the header's length lets a look go ahead with a
      frame that is not all there: exactly for the eight sizes whose sum with it
      wraps around. */
  lemma HeaderGuardWraps(unread: seq<Byte>)
    requires |unread| > 4
    ensures var size := SizeAt(unread);
            |unread| < HEADER + size ==>
              (|unread| >= Needed(HEADER, size) <==> size >= WORD - HEADER && |unread| >= HEADER + size - WORD)
  {
  }

  // ------------------------------------------------------------------
  // The client's look
  // ------------------------------------------------------------------

  /** The client's look, which takes one packet and has a guard of its own. */
  function ClientLookAt(c: Crypto, guard: nat, active: bool, unread: seq<Byte>): Look {
    if |unread| < 4 || |unread| < Needed(guard, SizeAt(unread)) then Wait
    else
      match ReadFrame(c, active, unread)
      case Parsed(p, next) => if next <= |unread| then Take(p, next) else Overrun
      case Rejected(next) => if next <= |unread| then Drop(next) else Overrun
      case Fault => Overrun
  }

  /** Both ends find the same in any buffer that does not hold exactly four
      bytes, and on four bytes they differ only if the guard asks for no more. */
  lemma ClientLooksAlike(c: Crypto, guard: nat, active: bool, unread: seq<Byte>)
    ensures ClientLookAt(c, guard, active, unread) == LookAt(c, guard, active, unread)
       <==> !(|unread| == 4 && Needed(guard, SizeAt(unread)) <= 4)
  {
  }

  lemma ClientLookAtPartial(c: Crypto, guard: nat, active: bool, f: Frame, n: nat)
    requires Lawful(c) && WritableFrame(c, f) && guard <= HEADER && n < |WireOf(c, f)|
    ensures ClientLookAt(c, guard, active, WireOf(c, f)[..n]) in {Wait, Overrun}
    ensures guard == HEADER ==> ClientLookAt(c, guard, active, WireOf(c, f)[..n]) == Wait
  {
    hide Lawful, WireOf, WritableFrame;
    var t := WireOf(c, f)[..n];
    LookAtPartial(c, guard, active, f, n);
    ClientLooksAlike(c, guard, active, t);
    WireLength(c, f);
    if n == 4 {
      assert t[..4] == WireOf(c, f)[..4];
    }
  }

  lemma ClientLookAtComplete(c: Crypto, guard: nat, active: bool, f: Frame, rest: seq<Byte>)
    requires Lawful(c) && WritableFrame(c, f) && Suits(f, active) && guard <= HEADER
    ensures ClientLookAt(c, guard, active, WireOf(c, f) + rest)
         == Take(PacketOf(c, f), |WireOf(c, f)| - Shortfall(c, f.sealed, f.body))
  {
    hide Lawful, WireOf, PacketOf, WritableFrame, LookAt;
    LookAtComplete(c, guard, active, f, rest);
    WireLength(c, f);
    ClientLooksAlike(c, guard, active, WireOf(c, f) + rest);
  }
}
