/** The growable byte buffer (src/excom/buffer.c, inc/excom/buffer.h). `View`
    is the value of a buffer; the class below updates it in place. */
module Buffers {
  import opened Bytes

  const EACCES := 13

  /** Capacity, read cursor and stored bytes. Offsets are counted from the
      start of the allocation. */
  datatype View = View(max: nat, pos: nat, data: seq<Byte>) {
    predicate Ok() { pos <= |data| <= max }

    function Unread(): seq<Byte>
      requires Ok()
    {
      data[pos..]
    }
  }

  /** The capacity that the doubling loop of `resize` stops at. */
  function Doubled(size: nat, fit: nat): nat
    requires size > 0
    decreases fit - size
  {
    if 2 * size < fit then Doubled(2 * size, fit) else 2 * size
  }

  function Grown(max: nat, fit: nat): nat {
    Doubled(if max == 0 then 1 else max, fit)
  }

  /** `distance` is a 32-bit variable: the cursor is kept modulo 2^32. */
  function Distance(pos: nat): (d: nat)
    ensures d < WORD && (pos - d) % WORD == 0
    ensures pos < WORD ==> d == pos
    ensures pos >= WORD ==> d < pos
  {
    pos % WORD
  }

  function Resized(v: View, fit: nat): View {
    View(Grown(v.max, fit), Distance(v.pos), v.data)
  }

  function Appended(v: View, xs: seq<Byte>): View {
    var room := if |v.data| + |xs| > v.max then Resized(v, |v.data| + |xs|) else v;
    room.(data := v.data + xs)
  }

  const EMPTIED := View(0, 0, [])

  /** A write that the socket answers with `answer`: negative means failure,
      anything else a count of accepted bytes. */
  function Drained(v: View, freeable: bool, answer: int): View
    requires v.Ok() && answer <= |v.Unread()|
  {
    if v.Unread() == [] || answer < 0 then v
    else if answer == |v.Unread()| && freeable then EMPTIED
    else v.(pos := v.pos + answer)
  }

  // ------------------------------------------------------------------
  // Growth
  // ------------------------------------------------------------------

  /** size * 2^k */
  function DoubledTimes(size: nat, k: nat): nat {
    if k == 0 then size else 2 * DoubledTimes(size, k - 1)
  }

  lemma {:induction false} DoubleFirst(size: nat, k: nat)
    ensures DoubledTimes(2 * size, k) == DoubledTimes(size, k + 1)
  {
    if k > 0 {
      DoubleFirst(size, k - 1);
    }
  }

  /** `resize` picks the least capacity of the form size * 2^k, k >= 1, that
      fits, and stays below twice any request above the present size. */
  lemma {:induction false} LeastDoubling(size: nat, fit: nat) returns (k: nat)
    requires size > 0
    ensures k >= 1 && Doubled(size, fit) == DoubledTimes(size, k) >= fit
    ensures forall j | 1 <= j < k :: DoubledTimes(size, j) < fit
    ensures Doubled(size, fit) >= 2 * size
    ensures size < fit ==> Doubled(size, fit) < 2 * fit
    decreases fit - size
  {
    if 2 * size < fit {
      var h := LeastDoubling(2 * size, fit);
      k := h + 1;
      DoubleFirst(size, h);
      forall j | 1 <= j < k ensures DoubledTimes(size, j) < fit {
        DoubleFirst(size, j - 1);
      }
    } else {
      k := 1;
      assert DoubledTimes(size, 1) == 2 * DoubledTimes(size, 0);
    }
  }

  /** The capacity after a resize is the least max * 2^k that fits, with k >= 1;
      from capacity zero it is the least 2^k. */
  lemma GrownLeast(max: nat, fit: nat) returns (size: nat, k: nat)
    ensures size == if max == 0 then 1 else max
    ensures k >= 1 && Grown(max, fit) == DoubledTimes(size, k) >= fit
    ensures forall j | 1 <= j < k :: DoubledTimes(size, j) < fit
  {
    size := if max == 0 then 1 else max;
    k := LeastDoubling(size, fit);
  }

  lemma GrownFits(max: nat, fit: nat)
    ensures Grown(max, fit) >= fit
    ensures Grown(max, fit) >= 2 * max
    ensures max < fit ==> Grown(max, fit) <= 2 * fit
  {
    var k := LeastDoubling(if max == 0 then 1 else max, fit);
  }

  /** The header file promises no change when the bytes fit already. The code
      runs its loop at least once, and grows a buffer of any size. */
  lemma GrowsEvenIfItFits(v: View, fit: nat)
    requires fit <= v.max
    ensures Resized(v, fit).max == if v.max == 0 then 2 else 2 * v.max
    ensures Resized(v, fit) != v
  {
  }

  /** An append changes the capacity exactly when the bytes do not fit, and
      leaves stored bytes, cursor and capacity alone otherwise. */
  lemma AppendRoom(v: View, xs: seq<Byte>)
    requires v.Ok()
    ensures var r := Appended(v, xs);
            && r.data == v.data + xs && |r.data| <= r.max
            && (r.max == v.max <==> |v.data| + |xs| <= v.max)
            && (|v.data| + |xs| > v.max ==> r.max == Grown(v.max, |v.data| + |xs|))
            && (|v.data| + |xs| <= v.max || v.pos < WORD ==> r.pos == v.pos)
  {
    hide Grown;
    GrownFits(v.max, |v.data| + |xs|);
  }

  /** A write with something unread: a drained freeable buffer is emptied, with
      no capacity left; any other answer moves the cursor and nothing else. */
  lemma DrainedCases(v: View, freeable: bool, answer: int)
    requires v.Ok() && answer <= |v.Unread()| && v.Unread() != []
    ensures var r := Drained(v, freeable, answer);
            && (r == View(0, 0, []) <==> answer == |v.Unread()| && freeable)
            && (answer < 0 ==> r == v)
            && (0 <= answer && !(answer == |v.Unread()| && freeable) ==>
                  r.max == v.max && r.data == v.data && r.pos == v.pos + answer)
  {
  }

  // ------------------------------------------------------------------
  // Runs of appends and writes
  // ------------------------------------------------------------------

  datatype Op = Append(bytes: seq<Byte>) | Write(answer: int)

  /** A buffer in use: its value, the bytes handed to the socket so far, and
      the number of bytes that resizes have copied. */
  datatype Use = Use(view: View, sent: seq<Byte>, copied: nat)

  /** The count a socket can answer never exceeds what it was offered. */
  function Answer(v: View, answer: int): int
    requires v.Ok()
  {
    if answer > |v.Unread()| then |v.Unread()| else answer
  }

  predicate Resizes(v: View, op: Op) {
    op.Append? && |v.data| + |op.bytes| > v.max
  }

  function Apply(u: Use, freeable: bool, op: Op): Use
    requires u.view.Ok()
  {
    match op
    case Append(xs) =>
      Use(Appended(u.view, xs), u.sent, u.copied + if Resizes(u.view, op) then |u.view.data| else 0)
    case Write(n) =>
      var a := Answer(u.view, n);
      Use(Drained(u.view, freeable, a), u.sent + if a > 0 then u.view.Unread()[..a] else [], u.copied)
  }

  /** The cursor survives an operation unless a resize truncates it. */
  predicate CursorFits(v: View, op: Op) {
    Resizes(v, op) ==> v.pos < WORD
  }

  lemma ApplyOk(u: Use, freeable: bool, op: Op)
    requires u.view.Ok()
    ensures Apply(u, freeable, op).view.Ok()
  {
    match op
    case Append(xs) => GrownFits(u.view.max, |u.view.data| + |xs|);
    case Write(n) =>
  }

  function Run(u: Use, freeable: bool, ops: seq<Op>): (r: Use)
    requires u.view.Ok()
    ensures r.view.Ok()
    decreases |ops|
  {
    if ops == [] then u
    else
      ApplyOk(u, freeable, ops[0]);
      Run(Apply(u, freeable, ops[0]), freeable, ops[1..])
  }

  function Input(ops: seq<Op>): seq<Byte> {
    if ops == [] then []
    else (if ops[0].Append? then ops[0].bytes else []) + Input(ops[1..])
  }

  function Stream(u: Use): seq<Byte>
    requires u.view.Ok()
  {
    u.sent + u.view.Unread()
  }

  lemma AppendKeepsOrder(v: View, xs: seq<Byte>)
    requires v.Ok()
    ensures Appended(v, xs).Ok()
    ensures Appended(v, xs).Unread() == v.Unread() + xs <==> CursorFits(v, Append(xs))
  {
    hide Grown, Distance;
    GrownFits(v.max, |v.data| + |xs|);
    var r := Appended(v, xs);
    if r.pos == v.pos {
      assert (v.data + xs)[v.pos..] == v.data[v.pos..] + xs;
    } else {
      assert |r.Unread()| > |v.Unread() + xs|;
    }
  }

  lemma WriteKeepsOrder(v: View, freeable: bool, answer: int)
    requires v.Ok() && answer <= |v.Unread()|
    ensures Drained(v, freeable, answer).Ok()
    ensures (if answer > 0 then v.Unread()[..answer] else []) + Drained(v, freeable, answer).Unread() == v.Unread()
  {
  }

  /** One operation keeps the byte stream in order exactly when it does not
      resize a buffer whose cursor needs more than 32 bits. */
  lemma FifoStep(u: Use, freeable: bool, op: Op)
    requires u.view.Ok()
    ensures Apply(u, freeable, op).view.Ok()
    ensures Stream(Apply(u, freeable, op)) == Stream(u) + Input([op]) <==> CursorFits(u.view, op)
  {
    hide Appended, Drained, Answer;
    ApplyOk(u, freeable, op);
    var v, r := u.view, Apply(u, freeable, op);
    assert Input([op]) == if op.Append? then op.bytes else [];
    match op
    case Append(xs) =>
      AppendKeepsOrder(v, xs);
      Assoc(u.sent, v.Unread(), xs);
      SamePrefix(u.sent, r.view.Unread(), v.Unread() + xs);
    case Write(n) =>
      var a := Answer(v, n);
      AnswerFits(v, n);
      WriteKeepsOrder(v, freeable, a);
      Assoc(u.sent, if a > 0 then v.Unread()[..a] else [], r.view.Unread());
  }

  lemma AnswerFits(v: View, n: int)
    requires v.Ok()
    ensures Answer(v, n) <= |v.Unread()|
  {
  }

  /** No resize of the run meets a cursor past 32 bits. */
  ghost predicate CursorsFit(u: Use, freeable: bool, ops: seq<Op>)
    requires u.view.Ok()
  {
    forall k | 0 <= k < |ops| :: CursorFits(Run(u, freeable, ops[..k]).view, ops[k])
  }

  /** At every point of the run, bytes sent and bytes left are the bytes put in. */
  ghost predicate InOrder(u: Use, freeable: bool, ops: seq<Op>)
    requires u.view.Ok()
  {
    forall k | 0 <= k <= |ops| :: Stream(Run(u, freeable, ops[..k])) == Stream(u) + Input(ops[..k])
  }

  lemma CursorsFitSnoc(u: Use, freeable: bool, ops: seq<Op>, op: Op)
    requires u.view.Ok()
    ensures CursorsFit(u, freeable, ops + [op])
       <==> CursorsFit(u, freeable, ops) && CursorFits(Run(u, freeable, ops).view, op)
  {
    var all := ops + [op];
    assert all[..|ops|] == ops && all[|ops|] == op;
    assert forall k | 0 <= k < |ops| :: all[..k] == ops[..k] && all[k] == ops[k];
  }

  lemma InOrderSnoc(u: Use, freeable: bool, ops: seq<Op>, op: Op)
    requires u.view.Ok()
    ensures InOrder(u, freeable, ops + [op])
       <==> (InOrder(u, freeable, ops)
             && Stream(Run(u, freeable, ops + [op])) == Stream(u) + Input(ops + [op]))
  {
    var all := ops + [op];
    assert all[..|all|] == all;
    assert forall k | 0 <= k <= |ops| :: all[..k] == ops[..k];
  }

  lemma {:induction false} RunSnoc(u: Use, freeable: bool, ops: seq<Op>, op: Op)
    requires u.view.Ok()
    ensures Run(u, freeable, ops + [op]) == Apply(Run(u, freeable, ops), freeable, op)
    decreases |ops|
  {
    hide Apply, View.Ok;
    if ops == [] {
      assert ops + [op] == [op];
      ApplyOk(u, freeable, op);
    } else {
      ApplyOk(u, freeable, ops[0]);
      RunSnoc(Apply(u, freeable, ops[0]), freeable, ops[1..], op);
      assert (ops + [op])[1..] == ops[1..] + [op];
    }
  }

  lemma {:induction false} InputSnoc(ops: seq<Op>, op: Op)
    ensures Input(ops + [op]) == Input(ops) + Input([op])
  {
    if ops == [] {
      assert ops + [op] == [op];
      assert [] + Input([op]) == Input([op]);
    } else {
      TailOfSnoc(ops, op);
      InputSnoc(ops[1..], op);
      Assoc(if ops[0].Append? then ops[0].bytes else [], Input(ops[1..]), Input([op]));
    }
  }

  /** A buffer is a FIFO of bytes: whatever the interleaving of appends,
      partial writes, failed writes, resizes and drains, the bytes sent
      followed by the bytes left are the bytes put in. It is so at every point
      of a run exactly when no resize meets a cursor past 32 bits. */
  lemma {:induction false} FifoRun(u: Use, freeable: bool, ops: seq<Op>)
    requires u.view.Ok()
    ensures InOrder(u, freeable, ops) <==> CursorsFit(u, freeable, ops)
    decreases |ops|
  {
    if ops == [] {
    } else {
      var front, last := ops[..|ops| - 1], ops[|ops| - 1];
      assert front + [last] == ops;
      FifoRun(u, freeable, front);
      CursorsFitSnoc(u, freeable, front, last);
      InOrderSnoc(u, freeable, front, last);
      RunSnoc(u, freeable, front, last);
      InputSnoc(front, last);
      var r := Run(u, freeable, front);
      FifoStep(r, freeable, last);
      if InOrder(u, freeable, front) {
        assert front[..|front|] == front;
        assert Stream(u) + Input(ops) == Stream(r) + Input([last]);
      }
    }
  }

  /** The condition holds for every run that appends less than 2^32 bytes to
      an empty buffer. */
  lemma {:induction false} SmallRunsFit(u: Use, freeable: bool, ops: seq<Op>)
    requires u.view.Ok() && |u.view.data| + |Input(ops)| < WORD
    ensures |Run(u, freeable, ops).view.data| <= |u.view.data| + |Input(ops)|
    ensures CursorsFit(u, freeable, ops)
  {
    if ops == [] {
    } else {
      var front, last := ops[..|ops| - 1], ops[|ops| - 1];
      assert front + [last] == ops;
      RunSnoc(u, freeable, front, last);
      InputSnoc(front, last);
      SmallRunsFit(u, freeable, front);
      CursorsFitSnoc(u, freeable, front, last);
    }
  }

  /** The header file promises a cursor inside the allocation. It is, exactly
      unless the buffer is full and read to its end. */
  lemma CursorInside(v: View)
    requires v.Ok()
    ensures v.pos < v.max <==> !(v.Unread() == [] && |v.data| == v.max)
  {
  }

  /** Filling a buffer that is not freed when it runs empty, such as the
      client's, and sending all of it leads there. */
  lemma CursorLeaves(xs: seq<Byte>)
    ensures var r := Run(Use(View(|xs|, 0, []), [], 0), false, [Append(xs), Write(|xs|)]);
            r.view.Ok() && r.view.pos == r.view.max && r.sent == xs
  {
    hide Grown, Distance;
    var u := Use(View(|xs|, 0, []), [], 0);
    var v := Apply(u, false, Append(xs));
    assert [] + xs == xs && xs[..|xs|] == xs;
    assert v.view == View(|xs|, 0, xs) && v.view.Unread() == xs;
    var w := Apply(v, false, Write(|xs|));
    assert w.view.pos == |xs| && w.sent == xs;
    assert [Append(xs), Write(|xs|)][1..] == [Write(|xs|)];
    assert Run(v, false, [Write(|xs|)]) == Run(w, false, []) == w;
  }

  /** What the count of copied bytes counts: an append whose bytes do not fit
      copies all that is stored, and nothing else copies anything. */
  lemma CopiesCounted(u: Use, freeable: bool, op: Op)
    requires u.view.Ok()
    ensures var r := Apply(u, freeable, op);
            r.copied == u.copied + if op.Append? && r.view.max != u.view.max then |u.view.data| else 0
  {
    if op.Append? {
      AppendRoom(u.view, op.bytes);
    }
  }

  /** Between drains, resizes copy no more bytes than the capacity grew by. */
  lemma {:induction false} CopiesWithinGrowth(u: Use, freeable: bool, ops: seq<Op>)
    requires u.view.Ok() && forall op | op in ops :: op.Append?
    ensures var r := Run(u, freeable, ops); r.copied - u.copied <= r.view.max - u.view.max
    decreases |ops|
  {
    if ops != [] {
      ApplyOk(u, freeable, ops[0]);
      GrownFits(u.view.max, |u.view.data| + |ops[0].bytes|);
      CopiesWithinGrowth(Apply(u, freeable, ops[0]), freeable, ops[1..]);
    }
  }

  function Least(a: nat, b: nat): nat {
    if a < b then a else b
  }

  /** Over any run at all, drains included, resizes copy at most two bytes for
      each byte appended. */
  lemma {:induction false} CopiesAreLinear(start: nat, freeable: bool, ops: seq<Op>)
    ensures var r := Run(Use(View(start, 0, []), [], 0), freeable, ops);
            && |r.view.data| <= |Input(ops)|
            && r.copied <= 2 * (|Input(ops)| - |r.view.data|) + Least(r.view.max, 2 * |r.view.data|)
            && r.copied <= 2 * |Input(ops)|
  {
    var u := Use(View(start, 0, []), [], 0);
    if ops != [] {
      var n := |ops| - 1;
      var front, last := ops[..n], ops[n];
      assert front + [last] == ops;
      CopiesAreLinear(start, freeable, front);
      RunSnoc(u, freeable, front, last);
      InputSnoc(front, last);
      var v := Run(u, freeable, front).view;
      if Resizes(v, last) {
        GrownFits(v.max, |v.data| + |last.bytes|);
      }
    }
  }

  // ------------------------------------------------------------------
  // The buffer in place
  // ------------------------------------------------------------------

  class Buffer {
    const start: nat
    var max: nat
    var used: nat
    var pos: nat
    var buf: array<Byte>
    var unmutable: bool
    var freeable: bool

    ghost predicate Valid()
      reads this
    {
      buf.Length == max && pos <= used <= max
    }

    ghost function Value(): (v: View)
      requires Valid()
      reads this, buf
      ensures v.Ok()
    {
      View(max, pos, buf[..used])
    }

    ghost function Unread(): seq<Byte>
      requires Valid()
      reads this, buf
    {
      buf[pos..used]
    }

    function Remaining(): (n: nat)
      requires Valid()
      reads this, buf
      ensures n == |Value().Unread()|
    {
      used - pos
    }

    constructor (start: nat)
      ensures Valid() && fresh(buf)
      ensures this.start == start && Value() == View(start, 0, [])
      ensures !unmutable && freeable
    {
      this.start := start;
      max := start;
      used, pos := 0, 0;
      unmutable, freeable := false, true;
      buf := new Byte[start];
    }

    /** Freed storage is an allocation of no bytes. */
    method Destroy()
      requires Valid()
      modifies this
      ensures Valid() && fresh(buf) && Value() == EMPTIED
      ensures max == used == pos == 0
      ensures unmutable == old(unmutable) && freeable == old(freeable)
    {
      max, used, pos := 0, 0, 0;
      buf := new Byte[0];
    }

    method Reset()
      requires Valid()
      modifies this
      ensures Valid() && fresh(buf) && Value() == View(start, 0, [])
      ensures !unmutable && freeable
    {
      Destroy();
      max := start;
      unmutable, freeable := false, true;
      buf := new Byte[max];
    }

    /** The doubling loop. */
    method NewSize(toFit: nat) returns (size: nat)
      ensures size == Grown(max, toFit)
    {
      size := if max == 0 then 1 else max;
      ghost var before := size;
      size := 2 * size;
      while size < toFit
        invariant size == 2 * before && before > 0
        invariant Doubled(before, toFit) == Grown(max, toFit)
        decreases toFit - size
      {
        before := size;
        size := size * 2;
      }
    }

    method Resize(toFit: nat)
      requires Valid()
      modifies this
      ensures Valid() && fresh(buf)
      ensures Value() == Resized(old(Value()), toFit)
      ensures unmutable == old(unmutable) && freeable == old(freeable)
    {
      hide Grown, Distance;
      var size := NewSize(toFit);
      GrownFits(max, toFit);
      var data := new Byte[size];
      forall i | 0 <= i < used {
        data[i] := buf[i];
      }
      assert data[..used] == buf[..used];
      var distance := Distance(pos);
      buf := data;
      pos := distance;
      max := size;
    }

    /** Makes room and copies, the common part of the append family. */
    method Put(xs: seq<Byte>)
      requires Valid()
      modifies this, buf
      ensures Valid() && (buf == old(buf) || fresh(buf))
      ensures Value() == Appended(old(Value()), xs)
      ensures unmutable == old(unmutable) && freeable == old(freeable)
    {
      if used + |xs| > max {
        GrownFits(max, used + |xs|);
        Resize(used + |xs|);
      }
      forall i | 0 <= i < |xs| {
        buf[used + i] := xs[i];
      }
      assert buf[..used + |xs|] == old(buf[..used]) + xs;
      used := used + |xs|;
    }

    method CAppend(str: seq<Byte>, size: nat) returns (err: int)
      requires Valid() && size <= |str|
      modifies this, buf
      ensures Valid() && (buf == old(buf) || fresh(buf))
      ensures unmutable == old(unmutable) && freeable == old(freeable)
      ensures err == if unmutable then EACCES else 0
      ensures Value() == if unmutable then old(Value()) else Appended(old(Value()), str[..size])
      ensures !unmutable ==> buf[..used] == old(buf[..used]) + str[..size]
      ensures !unmutable ==> (max == old(max) <==> old(used) + size <= old(max))
    {
      if unmutable {
        return EACCES;
      }
      AppendRoom(Value(), str[..size]);
      Put(str[..size]);
      return 0;
    }

    method SAppend(str: seq<Byte>) returns (err: int)
      requires Valid()
      modifies this, buf
      ensures Valid() && (buf == old(buf) || fresh(buf))
      ensures unmutable == old(unmutable) && freeable == old(freeable)
      ensures err == if unmutable then EACCES else 0
      ensures Value() == if unmutable then old(Value()) else Appended(old(Value()), str)
    {
      if unmutable {
        return EACCES;
      }
      Put(str);
      return 0;
    }

    /** From the start of `src`, which may be this buffer itself. */
    method BAppend2(src: Buffer, amount: nat) returns (err: int)
      requires Valid() && src.Valid() && amount <= src.used
      modifies this, buf
      ensures Valid() && (buf == old(buf) || fresh(buf))
      ensures unmutable == old(unmutable) && freeable == old(freeable)
      ensures err == if unmutable then EACCES else 0
      ensures Value() == if unmutable then old(Value())
                         else Appended(old(Value()), old(src.Value().data)[..amount])
    {
      if unmutable {
        return EACCES;
      }
      if amount == 0 {
        assert Value().data + [] == Value().data;
        return 0;
      }
      Put(src.buf[..amount]);
      return 0;
    }

    method BAppend(src: Buffer) returns (err: int)
      requires Valid() && src.Valid()
      modifies this, buf
      ensures Valid() && (buf == old(buf) || fresh(buf))
      ensures unmutable == old(unmutable) && freeable == old(freeable)
      ensures err == if unmutable then EACCES else 0
      ensures Value() == if unmutable then old(Value())
                         else Appended(old(Value()), old(src.Value().data))
    {
      err := BAppend2(src, src.used);
    }

    /** From the cursor of `src`. */
    method BAppendRemaining2(src: Buffer, size: nat) returns (err: int)
      requires Valid() && src.Valid() && size <= src.used - src.pos
      modifies this, buf
      ensures Valid() && (buf == old(buf) || fresh(buf))
      ensures unmutable == old(unmutable) && freeable == old(freeable)
      ensures err == if unmutable then EACCES else 0
      ensures Value() == if unmutable then old(Value())
                         else Appended(old(Value()), old(src.Unread())[..size])
    {
      if unmutable {
        return EACCES;
      }
      if size == 0 {
        assert Value().data + [] == Value().data;
        return 0;
      }
      assert src.buf[src.pos..src.pos + size] == src.Unread()[..size];
      Put(src.buf[src.pos..src.pos + size]);
      return 0;
    }

    /** The answer of the socket is a parameter; `sent` is what it accepted. */
    method Write(answer: int, errno: int) returns (err: int, sent: seq<Byte>)
      requires Valid() && answer <= Remaining()
      modifies this
      ensures Valid() && (buf == old(buf) || fresh(buf))
      ensures unmutable == old(unmutable) && freeable == old(freeable)
      ensures Value() == Drained(old(Value()), freeable, answer)
      ensures old(Remaining()) != 0 && answer == old(Remaining()) && freeable ==> max == used == pos == 0
      ensures old(Remaining()) != 0 && 0 <= answer && !(answer == old(Remaining()) && freeable) ==>
                buf == old(buf) && max == old(max) && used == old(used) && pos == old(pos) + answer
                && Value().data == old(Value().data)
      ensures old(Remaining()) == 0 || answer < 0 ==>
                buf == old(buf) && max == old(max) && used == old(used) && pos == old(pos)
      ensures sent == if answer > 0 then old(Unread())[..answer] else []
      ensures err == if old(Remaining()) != 0 && answer < 0 then errno else 0
    {
      err, sent := 0, [];
      if Remaining() != 0 {
        if answer < 0 {
          return errno, [];
        }
        ghost var mem := buf[..];
        sent := buf[pos..pos + answer];
        Parts(mem, pos, answer, used - pos);
        assert sent == mem[pos..pos + answer] && Unread() == mem[pos..pos + (used - pos)];
        pos := pos + answer;
        if Remaining() == 0 && freeable {
          Destroy();
        }
      }
    }
  }
}
