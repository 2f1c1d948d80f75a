/** The format interpreter of buffers (src/excom/buffer.c, `excom_buffer_format`). */
module Format {
  import opened Bytes
  import opened Buffers

  const PERCENT: Byte := '%' as int
  const LOWER_S: Byte := 's' as int
  const UPPER_S: Byte := 'S' as int
  const LOWER_B: Byte := 'b' as int

  /** The variable arguments, as the directives fetch them one at a time. */
  datatype Arg = CString(text: seq<Byte>) | ExcomString(text: seq<Byte>) | Size(n: Uint32) | Block(memory: seq<Byte>)

  /** How many arguments the directive %d fetches. */
  function Arity(d: Byte): nat {
    if d == LOWER_S || d == UPPER_S then 1 else if d == LOWER_B then 2 else 0
  }

  /** The arguments that %d fetches from `next` on have the right types. */
  predicate Fetches(d: Byte, args: seq<Arg>, next: nat) {
    && next + Arity(d) <= |args|
    && (d == LOWER_S ==> args[next].CString?)
    && (d == UPPER_S ==> args[next].ExcomString?)
    && (d == LOWER_B ==>
          args[next].Size? && args[next + 1].Block? && args[next].n <= |args[next + 1].memory|)
  }

  /** What one directive stands for; an unknown one stands for nothing. */
  function Directive(d: Byte, args: seq<Arg>, next: nat): seq<Byte>
    requires Fetches(d, args, next)
  {
    if d == LOWER_S || d == UPPER_S then args[next].text
    else if d == LOWER_B then args[next + 1].memory[..args[next].n]
    else if d == PERCENT then [PERCENT]
    else []
  }

  /** From `cur` on there is no dangling %, and arguments from `next` on match
      every directive. */
  predicate Matches(f: seq<Byte>, cur: nat, args: seq<Arg>, next: nat)
    decreases |f| - cur
  {
    if cur >= |f| then cur == |f|
    else if f[cur] != PERCENT then Matches(f, cur + 1, args, next)
    else
      && cur + 1 < |f| && Fetches(f[cur + 1], args, next)
      && Matches(f, cur + 2, args, next + Arity(f[cur + 1]))
  }

  /** The text that the rest of a format denotes. */
  function Interpret(f: seq<Byte>, cur: nat, args: seq<Arg>, next: nat): seq<Byte>
    requires Matches(f, cur, args, next)
    decreases |f| - cur
  {
    if cur == |f| then []
    else if f[cur] != PERCENT then [f[cur]] + Interpret(f, cur + 1, args, next)
    else Directive(f[cur + 1], args, next) + Interpret(f, cur + 2, args, next + Arity(f[cur + 1]))
  }

  /** The argument that the end of the format leaves the cursor on. */
  function Fetched(f: seq<Byte>, cur: nat, args: seq<Arg>, next: nat): nat
    requires Matches(f, cur, args, next)
    decreases |f| - cur
  {
    if cur == |f| then next
    else if f[cur] != PERCENT then Fetched(f, cur + 1, args, next)
    else Fetched(f, cur + 2, args, next + Arity(f[cur + 1]))
  }

  lemma LiteralStep(f: seq<Byte>, cur: nat, args: seq<Arg>, next: nat)
    requires cur < |f| && f[cur] != PERCENT
    ensures Matches(f, cur, args, next) <==> Matches(f, cur + 1, args, next)
    ensures Matches(f, cur, args, next) ==>
              && Interpret(f, cur, args, next) == [f[cur]] + Interpret(f, cur + 1, args, next)
              && Fetched(f, cur, args, next) == Fetched(f, cur + 1, args, next)
  {
  }

  lemma PercentStep(f: seq<Byte>, cur: nat, args: seq<Arg>, next: nat)
    requires cur < |f| && f[cur] == PERCENT
    ensures Matches(f, cur, args, next) <==>
              (&& cur + 1 < |f| && Fetches(f[cur + 1], args, next)
               && Matches(f, cur + 2, args, next + Arity(f[cur + 1])))
    ensures Matches(f, cur, args, next) ==>
              var after := next + Arity(f[cur + 1]);
              && Interpret(f, cur, args, next) == Directive(f[cur + 1], args, next) + Interpret(f, cur + 2, args, after)
              && Fetched(f, cur, args, next) == Fetched(f, cur + 2, args, after)
  {
  }

  lemma AtEnd(f: seq<Byte>, args: seq<Arg>, next: nat)
    ensures Matches(f, |f|, args, next)
    ensures Interpret(f, |f|, args, next) == [] && Fetched(f, |f|, args, next) == next
  {
  }

  /** `part` sits in `whole`, starting at position `at`. */
  ghost predicate Sits<T>(part: seq<T>, whole: seq<T>, at: nat) {
    at + |part| <= |whole| && forall n | 0 <= n < |part| :: whole[at + n] == part[n]
  }

  lemma SameDirective(d: Byte, a: seq<Arg>, n: nat, c: seq<Arg>, m: nat)
    requires Fetches(d, a, n) && Sits(a, c, m)
    ensures Fetches(d, c, m + n) && Directive(d, c, m + n) == Directive(d, a, n)
    ensures n + Arity(d) <= |a|
  {
  }

  /** Interpreting a copy of `f` that sits in `h` is interpreting `f` and then
      the rest of `h`, with the arguments that `f` left over. */
  lemma {:induction false} Embedded(
      f: seq<Byte>, i: nat, a: seq<Arg>, n: nat, h: seq<Byte>, k: nat, c: seq<Arg>, m: nat)
    requires i <= |f| && Matches(f, i, a, n) && n <= |a| && Sits(f, h, k) && Sits(a, c, m)
    requires Matches(h, k + |f|, c, m + Fetched(f, i, a, n))
    ensures n <= Fetched(f, i, a, n) <= |a| && Matches(h, k + i, c, m + n)
    ensures Interpret(h, k + i, c, m + n)
         == Interpret(f, i, a, n) + Interpret(h, k + |f|, c, m + Fetched(f, i, a, n))
    decreases |f| - i
  {
    hide Matches, Interpret, Fetched, Fetches, Directive;
    if i == |f| {
      AtEnd(f, a, n);
    } else if f[i] != PERCENT {
      LiteralStep(f, i, a, n);
      Embedded(f, i + 1, a, n, h, k, c, m);
      LiteralStep(h, k + i, c, m + n);
    } else {
      PercentStep(f, i, a, n);
      var d := f[i + 1];
      SameDirective(d, a, n, c, m);
      Embedded(f, i + 2, a, n + Arity(d), h, k, c, m);
      assert h[k + i] == PERCENT && h[k + i + 1] == d;
      PercentStep(h, k + i, c, m + n);
    }
  }

  /** Arguments are fetched left to right: formatting a concatenation is
      formatting its parts in turn, the second starting at the first argument
      that the first left over. */
  lemma InterpretConcat(f: seq<Byte>, g: seq<Byte>, a: seq<Arg>, b: seq<Arg>)
    requires Matches(f, 0, a, 0) && Fetched(f, 0, a, 0) == |a| && Matches(g, 0, b, 0)
    ensures Matches(f + g, 0, a + b, 0)
    ensures Interpret(f + g, 0, a + b, 0) == Interpret(f, 0, a, 0) + Interpret(g, 0, b, 0)
  {
    AtEnd(f + g, a + b, |a + b|);
    Embedded(g, 0, b, 0, f + g, |f|, a + b, |a|);
    Embedded(f, 0, a, 0, f + g, 0, a + b, 0);
  }

  /** One directive, with the arguments it fetches, in front of a format: its
      text comes first, and the rest follows as if it stood alone. */
  lemma AfterDirective(d: Byte, a: seq<Arg>, f: seq<Byte>, args: seq<Arg>)
    requires Fetches(d, a, 0) && |a| == Arity(d) && Matches(f, 0, args, 0)
    ensures Matches([PERCENT, d] + f, 0, a + args, 0)
    ensures Interpret([PERCENT, d] + f, 0, a + args, 0) == Directive(d, a, 0) + Interpret(f, 0, args, 0)
  {
    hide Matches, Interpret, Fetched, Fetches, Directive;
    var g := [PERCENT, d];
    PercentStep(g, 0, a, 0);
    AtEnd(g, a, |a|);
    InterpretConcat(g, f, a, args);
    assert Directive(d, a, 0) + [] == Directive(d, a, 0);
  }

  /** What each directive appends, in front of any format: %s and %S their
      string, %b the first bytes of its block, %% one percent sign, and any
      other character nothing. */
  lemma DirectiveTexts(t: seq<Byte>, n: Uint32, memory: seq<Byte>, other: Byte, f: seq<Byte>, args: seq<Arg>)
    requires Matches(f, 0, args, 0) && n <= |memory|
    requires other !in {'s' as int, 'S' as int, 'b' as int, '%' as int}
    ensures var rest := Interpret(f, 0, args, 0);
            && Matches(['%' as int, 's' as int] + f, 0, [CString(t)] + args, 0)
            && Interpret(['%' as int, 's' as int] + f, 0, [CString(t)] + args, 0) == t + rest
            && Matches(['%' as int, 'S' as int] + f, 0, [ExcomString(t)] + args, 0)
            && Interpret(['%' as int, 'S' as int] + f, 0, [ExcomString(t)] + args, 0) == t + rest
            && Matches(['%' as int, 'b' as int] + f, 0, [Size(n), Block(memory)] + args, 0)
            && Interpret(['%' as int, 'b' as int] + f, 0, [Size(n), Block(memory)] + args, 0) == memory[..n] + rest
            && Matches(['%' as int, '%' as int] + f, 0, args, 0)
            && Interpret(['%' as int, '%' as int] + f, 0, args, 0) == ['%' as int] + rest
            && Matches(['%' as int, other] + f, 0, args, 0)
            && Interpret(['%' as int, other] + f, 0, args, 0) == rest
  {
    hide Matches, Interpret;
    AfterDirective('s' as int, [CString(t)], f, args);
    AfterDirective('S' as int, [ExcomString(t)], f, args);
    AfterDirective('b' as int, [Size(n), Block(memory)], f, args);
    AfterDirective('%' as int, [], f, args);
    AfterDirective(other, [], f, args);
    assert [] + args == args && [] + Interpret(f, 0, args, 0) == Interpret(f, 0, args, 0);
  }

  /** Any other character stands for itself, and an empty format for nothing. */
  lemma LiteralTexts(ch: Byte, f: seq<Byte>, args: seq<Arg>)
    requires Matches(f, 0, args, 0) && ch != '%' as int
    ensures Matches([ch] + f, 0, args, 0)
    ensures Interpret([ch] + f, 0, args, 0) == [ch] + Interpret(f, 0, args, 0)
    ensures Matches([], 0, args, 0) && Interpret([], 0, args, 0) == []
  {
    AtEnd([], args, 0);
    AtEnd([ch], [], 0);
    LiteralStep([ch], 0, [], 0);
    InterpretConcat([ch], f, [], args);
    assert [] + args == args && [ch] + [] == [ch];
  }

  predicate NoPercent(f: seq<Byte>, lo: nat, hi: nat)
    requires hi <= |f|
  {
    forall i | lo <= i < hi :: f[i] != PERCENT
  }

  lemma {:induction false} Literal(f: seq<Byte>, cur: nat, pos: nat, args: seq<Arg>, next: nat)
    requires cur <= pos <= |f| && NoPercent(f, cur, pos) && Matches(f, cur, args, next)
    ensures Matches(f, pos, args, next)
    ensures Interpret(f, cur, args, next) == f[cur..pos] + Interpret(f, pos, args, next)
    decreases pos - cur
  {
    hide Matches, Interpret;
    if cur < pos {
      LiteralStep(f, cur, args, next);
      Literal(f, cur + 1, pos, args, next);
      assert f[cur..pos] == [f[cur]] + f[cur + 1..pos];
    }
  }

  /** `strchr(f + cur, '%')`: the next percent sign, or the end. */
  method FindPercent(f: seq<Byte>, cur: nat) returns (pos: nat)
    requires cur <= |f|
    ensures cur <= pos <= |f| && NoPercent(f, cur, pos)
    ensures pos < |f| ==> f[pos] == PERCENT
  {
    pos := cur;
    while pos < |f| && f[pos] != PERCENT
      invariant cur <= pos <= |f| && NoPercent(f, cur, pos)
    {
      pos := pos + 1;
    }
  }

  /** The switch on the character after the percent sign. */
  method AppendDirective(out: Buffer, d: Byte, args: seq<Arg>, next: nat) returns (err: int, after: nat)
    requires out.Valid() && !out.unmutable && Fetches(d, args, next)
    modifies out, out.buf
    ensures out.Valid() && !out.unmutable && (out.buf == old(out.buf) || fresh(out.buf))
    ensures err == 0 && after == next + Arity(d)
    ensures out.Value().data == old(out.Value().data) + Directive(d, args, next)
  {
    err, after := 0, next;
    if d == LOWER_S {
      err := out.CAppend(args[next].text, |args[next].text|);
      after := next + 1;
    } else if d == UPPER_S {
      err := out.SAppend(args[next].text);
      after := next + 1;
    } else if d == LOWER_B {
      err := out.CAppend(args[next + 1].memory, args[next].n);
      after := next + 2;
    } else if d == PERCENT {
      err := out.CAppend([PERCENT], 1);
    }
  }

  /** A literal stretch; nothing is appended for an empty one. */
  method AppendLiteral(out: Buffer, f: seq<Byte>, cur: nat, pos: nat) returns (err: int)
    requires out.Valid() && !out.unmutable && cur <= pos <= |f|
    modifies out, out.buf
    ensures out.Valid() && !out.unmutable && (out.buf == old(out.buf) || fresh(out.buf))
    ensures err == 0 && out.Value().data == old(out.Value().data) + f[cur..pos]
  {
    err := 0;
    if pos != cur {
      err := out.CAppend(f[cur..], pos - cur);
      assert f[cur..][..pos - cur] == f[cur..pos];
    }
  }

  /** Appends the text that the format denotes, and nothing else. */
  method BufferFormat(out: Buffer, format: seq<Byte>, args: seq<Arg>) returns (err: int)
    requires out.Valid() && Matches(format, 0, args, 0)
    modifies out, out.buf
    ensures out.Valid() && (out.buf == old(out.buf) || fresh(out.buf))
    ensures err == if old(out.unmutable) then EACCES else 0
    ensures out.Value().data
         == old(out.Value().data) + if err == 0 then Interpret(format, 0, args, 0) else []
  {
    hide Interpret, Matches, Fetches, Directive, Appended;
    if out.unmutable {
      return EACCES;
    }
    ghost var goal := out.Value().data + Interpret(format, 0, args, 0);
    var cur: nat, next: nat := 0, 0;
    var pos := FindPercent(format, cur);
    while pos < |format|
      invariant cur <= pos <= |format| && NoPercent(format, cur, pos)
      invariant pos < |format| ==> format[pos] == PERCENT
      invariant out.Valid() && !out.unmutable && (out.buf == old(out.buf) || fresh(out.buf))
      invariant Matches(format, cur, args, next)
      invariant goal == out.Value().data + Interpret(format, cur, args, next)
      decreases |format| - cur
    {
      Literal(format, cur, pos, args, next);
      Assoc(out.Value().data, format[cur..pos], Interpret(format, pos, args, next));
      err := AppendLiteral(out, format, cur, pos);
      PercentStep(format, pos, args, next);
      ghost var d := format[pos + 1];
      Assoc(out.Value().data, Directive(d, args, next), Interpret(format, pos + 2, args, next + Arity(d)));
      err, next := AppendDirective(out, format[pos + 1], args, next);
      cur := pos + 2;
      pos := FindPercent(format, cur);
    }
    Literal(format, cur, pos, args, next);
    AtEnd(format, args, next);
    assert goal == out.Value().data + format[cur..pos];
    err := AppendLiteral(out, format, cur, pos);
  }
}
