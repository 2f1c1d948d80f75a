/** The server's `check_packet` in place (src/excom-server/client.c), against
    the functions of `Framing`. */
module CheckPacket {
  import opened Bytes
  import opened Pack
  import opened Buffers
  import opened Packets
  import opened Protocol
  import opened Framing
  import opened PacketQueue
  import opened ProtocolIO

  // ------------------------------------------------------------------
  // Any bytes at all
  // ------------------------------------------------------------------

  /** The fields of a body of type `code` end inside its plain bytes. */
  predicate BodyFits(code: Uint16, plain: seq<Byte>) {
    if code == 2 || code == 3 then |plain| >= 1
    else if code == 4 then |plain| >= 4 && 4 + Value32(plain[..4]) + 3 <= |plain|
    else if code == 7 || code == 0x10 || code == 0x11 then |plain| >= 4 && 4 + Value32(plain[..4]) <= |plain|
    else true
  }

  lemma BodyFitsExactly(code: Uint16, plain: seq<Byte>)
    ensures BodyFits(code, plain) <==> ReadFields(Schema(code), plain, 0).Some?
  {
    hide ReadFields, Value32;
    BodyOfFrame(code, plain);
    if code in {2, 3, 7, 0x10, 0x11} {
      SingleField(code, plain);
    } else if code == 4 {
      VersionFields(plain);
    } else {
      NoMoreFields(plain, 0);
      assert Schema(code) == [];
    }
  }

  /** All that reading a frame looks at is there: header, body, nonce, fields. */
  predicate AllThere(c: Crypto, active: bool, unread: seq<Byte>) {
    && |unread| >= HEADER
    && var size, code := SizeAt(unread), Value16(unread[6..8]);
    && |unread| >= HEADER + size
    && !(active && 0 < size < c.nonceBytes)
    && var body := unread[HEADER..HEADER + size];
    && (code == 0 || BodyFits(code, if active then Open(c, body) else body))
  }

  lemma FaultsExactly(c: Crypto, active: bool, unread: seq<Byte>)
    ensures ReadFrame(c, active, unread).Fault? <==> !AllThere(c, active, unread)
  {
    hide BodyFits, Value32, Value16, Open;
    if |unread| >= HEADER {
      var size, code := SizeAt(unread), Value16(unread[6..8]);
      if |unread| >= HEADER + size && !(active && 0 < size < c.nonceBytes) {
        var body := unread[HEADER..HEADER + size];
        BodyFitsExactly(code, if active then Open(c, body) else body);
      }
    }
  }

  /** On any bytes, whoever sent them, a look reads outside the frame exactly
      when the guard lets it go ahead and header, body, nonce or a field is not
      all there. */
  lemma OverrunsExactly(c: Crypto, guard: nat, active: bool, unread: seq<Byte>)
    requires Lawful(c)
    ensures LookAt(c, guard, active, unread).Overrun?
       <==> |unread| > 4 && |unread| >= Needed(guard, SizeAt(unread)) && !AllThere(c, active, unread)
  {
    hide Lawful, SizeAt, Needed, ReadFrame, LookAt, AllThere;
    LookAtParts(c, guard, active, unread);
    FaultsExactly(c, active, unread);
  }

  // ------------------------------------------------------------------
  // The loop in place
  // ------------------------------------------------------------------

  method PeekSize(input: Buffer) returns (size: Uint32)
    requires input.Valid() && input.Remaining() >= 4
    ensures size == SizeAt(input.Unread())
  {
    hide Value32, Unpacked32;
    ghost var u, at := input.Unread(), input.pos;
    assert u == input.buf[at..][..input.used - at];
    assert input.buf[at..at + 4] == u[..4];
    NetworkOrder32(0, u[..4]);
    var k;
    k, size := UnpackUint32(true, input.buf, input.pos);
  }

  lemma LookAtParts(c: Crypto, guard: nat, active: bool, unread: seq<Byte>)
    requires Lawful(c)
    ensures |unread| <= 4 ==> LookAt(c, guard, active, unread) == Wait
    ensures |unread| > 4 ==>
              && (|unread| < Needed(guard, SizeAt(unread)) ==> LookAt(c, guard, active, unread) == Wait)
              && (|unread| >= Needed(guard, SizeAt(unread)) ==>
                    LookAt(c, guard, active, unread) ==
                      match ReadFrame(c, active, unread)
                      case Parsed(p, next) => Take(p, next)
                      case Rejected(next) => Drop(next)
                      case Fault => Overrun)
  {
    hide Lawful, SizeAt, Needed, ReadFrame;
    NextFits(c, active, unread);
  }

  /** One turn of the server's loop: at most one packet to the queue. */
  method LookOnce(c: Crypto, guard: nat, active: bool, input: Buffer, queue: Queue) returns (look: Look)
    requires Lawful(c) && input.Valid() && queue.Valid()
    modifies input`pos, queue, queue.owned
    ensures input.Valid() && queue.Valid()
    ensures look == LookAt(c, guard, active, old(input.Unread()))
    ensures look.Wait? ==> input.Unread() == old(input.Unread())
    ensures look.Take? || look.Drop? ==>
              look.next <= |old(input.Unread())| && input.Unread() == old(input.Unread())[look.next..]
    ensures queue.Contents() == old(queue.Contents()) + if look.Take? then [look.packet] else []
    ensures fresh(queue.owned - old(queue.owned))
  {
    hide Lawful, SizeAt, Needed, ReadFrame, LookAt;
    ghost var unread := input.Unread();
    LookAtParts(c, guard, active, unread);
    NextFits(c, active, unread);
    if input.Remaining() <= 4 {
      return Wait;
    }
    var size := PeekSize(input);
    if input.Remaining() < Needed(guard, size) {
      return Wait;
    }
    var r := ReadPacket(c, active, input);
    match r
    case Parsed(packet, next) =>
      queue.Append(packet);
      return Take(packet, next);
    case Rejected(next) =>
      return Drop(next);
    case Fault =>
      return Overrun;
  }

  lemma DrainStep(c: Crypto, guard: nat, active: bool, unread: seq<Byte>)
    ensures var look, cut := LookAt(c, guard, active, unread), Drain(c, guard, active, unread);
            && (look.Wait? ==> cut == Cut([], unread, Waiting))
            && (look.Drop? && look.next <= |unread| ==> cut == Cut([], unread[look.next..], Dropped))
            && (look.Overrun? ==> cut == Cut([], unread, Overran))
            && (look.Take? ==>
                  var more := Drain(c, guard, active, unread[look.next..]);
                  cut == Cut([look.packet] + more.packets, more.rest, more.halt))
  {
    hide LookAt;
  }

  /** `taken` and what the loop would still take are what it takes in all. */
  ghost predicate SoFar(c: Crypto, guard: nat, active: bool, goal: Cut, taken: seq<Packet>, unread: seq<Byte>) {
    var more := Drain(c, guard, active, unread);
    goal.packets == taken + more.packets && goal.rest == more.rest && goal.halt == more.halt
  }

  lemma SoFarStep(c: Crypto, guard: nat, active: bool, goal: Cut, taken: seq<Packet>, unread: seq<Byte>)
    requires SoFar(c, guard, active, goal, taken, unread)
    ensures var look := LookAt(c, guard, active, unread);
            && (look.Take? ==> SoFar(c, guard, active, goal, taken + [look.packet], unread[look.next..]))
            && (look.Wait? ==> goal == Cut(taken, unread, Waiting))
            && (look.Drop? && look.next <= |unread| ==> goal == Cut(taken, unread[look.next..], Dropped))
            && (look.Overrun? ==> goal == Cut(taken, unread, Overran))
  {
    hide LookAt, Drain;
    DrainStep(c, guard, active, unread);
    var look := LookAt(c, guard, active, unread);
    assert taken + [] == taken;
    if look.Take? {
      Assoc(taken, [look.packet], Drain(c, guard, active, unread[look.next..]).packets);
    }
  }

  /** The server's loop: every packet that is there, in order, to the queue. */
  method ServerCheckPacket(c: Crypto, guard: nat, active: bool, input: Buffer, queue: Queue) returns (halt: Halt)
    requires Lawful(c) && input.Valid() && queue.Valid()
    modifies input`pos, queue, queue.owned
    ensures input.Valid() && queue.Valid() && fresh(queue.owned - old(queue.owned))
    ensures var cut := Drain(c, guard, active, old(input.Unread()));
            && halt == cut.halt
            && queue.Contents() == old(queue.Contents()) + cut.packets
            && (halt != Overran ==> input.Unread() == cut.rest)
  {
    hide Lawful, LookAt, Drain;
    ghost var goal, taken := Drain(c, guard, active, input.Unread()), [];
    assert SoFar(c, guard, active, goal, taken, input.Unread());
    hide SoFar, Queue.Valid, Queue.Contents;
    assert old(queue.Contents()) + taken == old(queue.Contents());
    while true
      invariant input.Valid() && queue.Valid()
      invariant fresh(queue.owned - old(queue.owned))
      invariant queue.Contents() == old(queue.Contents()) + taken
      invariant SoFar(c, guard, active, goal, taken, input.Unread())
      decreases input.Remaining()
    {
      SoFarStep(c, guard, active, goal, taken, input.Unread());
      var look := LookOnce(c, guard, active, input, queue);
      match look
      case Wait =>
        assert queue.Contents() == old(queue.Contents()) + taken;
        return Waiting;
      case Drop(_) =>
        assert queue.Contents() == old(queue.Contents()) + taken;
        return Dropped;
      case Overrun =>
        assert queue.Contents() == old(queue.Contents()) + taken;
        return Overran;
      case Take(packet, next) =>
        Assoc(old(queue.Contents()), taken, [packet]);
        taken := taken + [packet];
    }
  }
}
