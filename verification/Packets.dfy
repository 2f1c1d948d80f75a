/** Packet types and their fields (inc/excom/protocol/packets.def), and the
    field codecs that the source expands from that schema. */
module Packets {
  import opened Bytes
  import opened Pack

  datatype FieldKind = StringField | NumberField

  datatype Field = Str(bytes: seq<Byte>) | Num(n: Byte)

  /** The payload of a packet. `Invalid` is type number 0; `Unknown` is any
      type number that the schema does not list. */
  datatype Body =
    | Invalid
    | Ok
    | Reject(reason: Byte)
    | Error(reason: Byte)
    | ProtocolVersion(version: seq<Byte>, major: Byte, minor: Byte, patch: Byte)
    | Ping
    | Pong
    | PublicKey(key: seq<Byte>)
    | Command(command: seq<Byte>)
    | CommandResponse(response: seq<Byte>)
    | Unknown(code: Uint16)

  datatype Packet = Packet(size: Uint32, id: Uint16, body: Body)

  function Code(b: Body): Uint16 {
    match b
    case Invalid => 0
    case Ok => 1
    case Reject(_) => 2
    case Error(_) => 3
    case ProtocolVersion(_, _, _, _) => 4
    case Ping => 5
    case Pong => 6
    case PublicKey(_) => 7
    case Command(_) => 0x10
    case CommandResponse(_) => 0x11
    case Unknown(code) => code
  }

  predicate Listed(code: Uint16) {
    code <= 7 || code == 0x10 || code == 0x11
  }

  function Schema(code: Uint16): seq<FieldKind> {
    if code == 2 || code == 3 then [NumberField]
    else if code == 4 then [StringField, NumberField, NumberField, NumberField]
    else if code == 7 || code == 0x10 || code == 0x11 then [StringField]
    else []
  }

  function Fields(b: Body): seq<Field> {
    match b
    case Reject(r) => [Num(r)]
    case Error(r) => [Num(r)]
    case ProtocolVersion(v, major, minor, patch) => [Str(v), Num(major), Num(minor), Num(patch)]
    case PublicKey(s) => [Str(s)]
    case Command(s) => [Str(s)]
    case CommandResponse(s) => [Str(s)]
    case _ => []
  }

  function Kind(f: Field): FieldKind {
    if f.Str? then StringField else NumberField
  }

  predicate HasShape(kinds: seq<FieldKind>, fs: seq<Field>) {
    |kinds| == |fs| && forall i | 0 <= i < |fs| :: Kind(fs[i]) == kinds[i]
  }

  function FromFields(code: Uint16, fs: seq<Field>): Body
    requires HasShape(Schema(code), fs)
  {
    if code == 0 then Invalid
    else if code == 1 then Ok
    else if code == 2 then Reject(fs[0].n)
    else if code == 3 then Error(fs[0].n)
    else if code == 4 then ProtocolVersion(fs[0].bytes, fs[1].n, fs[2].n, fs[3].n)
    else if code == 5 then Ping
    else if code == 6 then Pong
    else if code == 7 then PublicKey(fs[0].bytes)
    else if code == 0x10 then Command(fs[0].bytes)
    else if code == 0x11 then CommandResponse(fs[0].bytes)
    else Unknown(code)
  }

  /** An unlisted type number is not one of the listed types. */
  predicate WellTyped(b: Body) {
    b.Unknown? ==> !Listed(b.code)
  }

  /** The union's members and the schema's fields are the same thing. */
  lemma FieldsRoundTrip(b: Body)
    requires WellTyped(b)
    ensures HasShape(Schema(Code(b)), Fields(b))
    ensures FromFields(Code(b), Fields(b)) == b
  {
  }

  // ------------------------------------------------------------------
  // Field codecs
  // ------------------------------------------------------------------

  predicate Sized(f: Field) {
    f.Str? ==> |f.bytes| < WORD
  }

  function FieldBytes(f: Field): seq<Byte>
    requires Sized(f)
  {
    match f
    case Str(s) => BigEndian32(|s|) + s
    case Num(n) => [n]
  }

  predicate AllSized(fs: seq<Field>) {
    forall i | 0 <= i < |fs| :: Sized(fs[i])
  }

  function FieldsBytes(fs: seq<Field>): seq<Byte>
    requires AllSized(fs)
  {
    if fs == [] then [] else FieldBytes(fs[0]) + FieldsBytes(fs[1..])
  }

  /** Reads fields at `cur`; None when a field reaches past the data, where
      the source would read memory that holds no packet. */
  function ReadFields(kinds: seq<FieldKind>, data: seq<Byte>, cur: nat): (r: Option<(seq<Field>, nat)>)
    ensures r.Some? ==> HasShape(kinds, r.value.0) && cur <= r.value.1
  {
    if kinds == [] then Some(([], cur))
    else
      var first := ReadField(kinds[0], data, cur);
      if first.None? then None
      else
        var rest := ReadFields(kinds[1..], data, first.value.1);
        if rest.None? then None else Some(([first.value.0] + rest.value.0, rest.value.1))
  }

  function ReadField(kind: FieldKind, data: seq<Byte>, cur: nat): (r: Option<(Field, nat)>)
    ensures r.Some? ==> Kind(r.value.0) == kind && cur <= r.value.1
  {
    match kind
    case NumberField => if cur + 1 <= |data| then Some((Num(data[cur]), cur + 1)) else None
    case StringField =>
      if cur + 4 > |data| then None
      else
        var n := Value32(data[cur..cur + 4]);
        if cur + 4 + n <= |data| then Some((Str(data[cur + 4..cur + 4 + n]), cur + 4 + n)) else None
  }

  /** The bytes `part` stand in `data` at `cur`. */
  predicate Holds(data: seq<Byte>, cur: nat, part: seq<Byte>) {
    cur + |part| <= |data| && data[cur..cur + |part|] == part
  }

  lemma HoldsParts(data: seq<Byte>, cur: nat, a: seq<Byte>, b: seq<Byte>)
    requires Holds(data, cur, a + b)
    ensures Holds(data, cur, a) && Holds(data, cur + |a|, b)
  {
    var all := data[cur..cur + |a + b|];
    assert all[..|a|] == data[cur..cur + |a|] && (a + b)[..|a|] == a;
    assert all[|a|..] == data[cur + |a|..cur + |a| + |b|] && (a + b)[|a|..] == b;
  }

  lemma ReadFieldBytes(f: Field, data: seq<Byte>, cur: nat)
    requires Sized(f) && Holds(data, cur, FieldBytes(f))
    ensures ReadField(Kind(f), data, cur) == Some((f, cur + |FieldBytes(f)|))
  {
    if f.Str? {
      HoldsParts(data, cur, BigEndian32(|f.bytes|), f.bytes);
      Bytes32(|f.bytes|);
    }
  }

  lemma FieldsHeld(fs: seq<Field>, data: seq<Byte>, cur: nat)
    requires AllSized(fs) && fs != [] && Holds(data, cur, FieldsBytes(fs))
    ensures Holds(data, cur, FieldBytes(fs[0]))
    ensures Holds(data, cur + |FieldBytes(fs[0])|, FieldsBytes(fs[1..]))
    ensures |FieldsBytes(fs)| == |FieldBytes(fs[0])| + |FieldsBytes(fs[1..])|
  {
    hide BigEndian32, FieldBytes, Holds;
    HoldsParts(data, cur, FieldBytes(fs[0]), FieldsBytes(fs[1..]));
  }

  lemma ReadOne(kinds: seq<FieldKind>, fs: seq<Field>, data: seq<Byte>, cur: nat, after: nat, end: nat)
    requires kinds != [] && fs != [] && ReadField(kinds[0], data, cur) == Some((fs[0], after))
    requires ReadFields(kinds[1..], data, after) == Some((fs[1..], end))
    ensures ReadFields(kinds, data, cur) == Some((fs, end))
  {
    assert fs == [fs[0]] + fs[1..];
  }

  /** Whatever the schema: the bytes the writer's fields produce are the bytes
      the reader's fields consume, and the values come back. */
  lemma {:induction false} ReadFieldsBytes(kinds: seq<FieldKind>, fs: seq<Field>, data: seq<Byte>, cur: nat)
    requires HasShape(kinds, fs) && AllSized(fs) && Holds(data, cur, FieldsBytes(fs))
    ensures ReadFields(kinds, data, cur) == Some((fs, cur + |FieldsBytes(fs)|))
    decreases |fs|
  {
    hide BigEndian32, Value32, ReadField, FieldBytes, Holds;
    if fs == [] {
    } else {
      var after := cur + |FieldBytes(fs[0])|;
      FieldsHeld(fs, data, cur);
      ReadFieldBytes(fs[0], data, cur);
      ReadFieldsBytes(kinds[1..], fs[1..], data, after);
      ReadOne(kinds, fs, data, cur, after, cur + |FieldsBytes(fs)|);
    }
  }

  /** The other way round, on any bytes: the fields that are read are those
      whose bytes stand there. */
  lemma {:induction false} ReadFieldsBack(kinds: seq<FieldKind>, data: seq<Byte>, cur: nat)
    requires cur <= |data|
    ensures var r := ReadFields(kinds, data, cur);
            r.Some? ==>
              && AllSized(r.value.0) && r.value.1 <= |data|
              && FieldsBytes(r.value.0) == data[cur..r.value.1]
    decreases |kinds|
  {
    hide BigEndian32, Value32, ReadField, FieldBytes;
    var r := ReadFields(kinds, data, cur);
    if kinds != [] && r.Some? {
      var f := ReadField(kinds[0], data, cur);
      ReadFieldBack(kinds[0], data, cur);
      ReadFieldsBack(kinds[1..], data, f.value.1);
      var rest := ReadFields(kinds[1..], data, f.value.1).value;
      assert r.value == ([f.value.0] + rest.0, rest.1);
      FirstField(f.value.0, rest.0);
      assert data[cur..rest.1] == data[cur..f.value.1] + data[f.value.1..rest.1];
    }
  }

  lemma ReadFieldBack(kind: FieldKind, data: seq<Byte>, cur: nat)
    requires cur <= |data|
    ensures var r := ReadField(kind, data, cur);
            r.Some? ==> Sized(r.value.0) && r.value.1 <= |data| && FieldBytes(r.value.0) == data[cur..r.value.1]
  {
    hide BigEndian32, Value32;
    if kind == StringField && cur + 4 <= |data| {
      var d := data[cur..cur + 4];
      Digits32(d);
      var end := cur + 4 + Value32(d);
      if end <= |data| {
        assert data[cur..end] == d + data[cur + 4..end];
      }
    }
  }

  // ------------------------------------------------------------------
  // Bodies
  // ------------------------------------------------------------------

  predicate SizedBody(b: Body) {
    AllSized(Fields(b))
  }

  function BodyBytes(b: Body): seq<Byte>
    requires SizedBody(b)
  {
    FieldsBytes(Fields(b))
  }

  lemma OneField(f: Field)
    requires Sized(f)
    ensures FieldsBytes([f]) == FieldBytes(f)
  {
  }

  lemma FirstField(f: Field, rest: seq<Field>)
    requires Sized(f) && AllSized(rest)
    ensures AllSized([f] + rest) && FieldsBytes([f] + rest) == FieldBytes(f) + FieldsBytes(rest)
  {
    assert ([f] + rest)[1..] == rest;
  }

  lemma FourFields(a: Field, b: Field, c: Field, d: Field)
    requires Sized(a) && Sized(b) && Sized(c) && Sized(d)
    ensures FieldsBytes([a, b, c, d]) == FieldBytes(a) + FieldBytes(b) + FieldBytes(c) + FieldBytes(d)
  {
    hide FieldBytes, FieldsBytes, Sized;
    OneField(d);
    FirstField(c, [d]);
    FirstField(b, [c, d]);
    FirstField(a, [b, c, d]);
    assert [c] + [d] == [c, d] && [b] + [c, d] == [b, c, d] && [a] + [b, c, d] == [a, b, c, d];
    Assoc(FieldBytes(b), FieldBytes(c), FieldBytes(d));
    Assoc(FieldBytes(a), FieldBytes(b) + FieldBytes(c), FieldBytes(d));
    Assoc(FieldBytes(a), FieldBytes(b), FieldBytes(c));
  }

  /** How many bytes the fields of each type take. */
  function BodySize(b: Body): nat {
    match b
    case Reject(_) => 1
    case Error(_) => 1
    case ProtocolVersion(v, _, _, _) => 4 + |v| + 3
    case PublicKey(s) => 4 + |s|
    case Command(s) => 4 + |s|
    case CommandResponse(s) => 4 + |s|
    case _ => 0
  }

  lemma BodyLength(b: Body)
    requires SizedBody(b)
    ensures |BodyBytes(b)| == BodySize(b)
  {
    var fs := Fields(b);
    if |fs| == 1 {
      assert Sized(fs[0]);
      OneField(fs[0]);
    } else if |fs| == 4 {
      assert Sized(fs[0]);
      FourFields(fs[0], fs[1], fs[2], fs[3]);
    }
  }

  /** A packet that is read has the type that was looked for, and its fields are
      the bytes that stand there. */
  lemma BodyBack(code: Uint16, data: seq<Byte>)
    ensures var r := ReadFields(Schema(code), data, 0);
            r.Some? ==>
              var b := FromFields(code, r.value.0);
              && Code(b) == code && WellTyped(b) && SizedBody(b)
              && r.value.1 <= |data| && BodyBytes(b) == data[..r.value.1]
  {
    hide ReadFields, FieldsBytes, Sized;
    ReadFieldsBack(Schema(code), data, 0);
    var r := ReadFields(Schema(code), data, 0);
    if r.Some? {
      FieldsBack(code, r.value.0);
      assert data[0..r.value.1] == data[..r.value.1];
    }
  }

  lemma FieldsBack(code: Uint16, fs: seq<Field>)
    requires HasShape(Schema(code), fs)
    ensures var b := FromFields(code, fs); Code(b) == code && WellTyped(b) && Fields(b) == fs
  {
    assert forall i | 0 <= i < |fs| :: Kind(fs[i]) == Schema(code)[i];
    if |fs| == 1 {
      assert fs == [fs[0]];
    } else if |fs| == 4 {
      assert fs == [fs[0], fs[1], fs[2], fs[3]];
    }
  }

  lemma ReadBody(b: Body, after: seq<Byte>)
    requires WellTyped(b) && SizedBody(b)
    ensures ReadFields(Schema(Code(b)), BodyBytes(b) + after, 0) == Some((Fields(b), |BodyBytes(b)|))
  {
    FieldsRoundTrip(b);
    ReadFieldsBytes(Schema(Code(b)), Fields(b), BodyBytes(b) + after, 0);
  }
}
