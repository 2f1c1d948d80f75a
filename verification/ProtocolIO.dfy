/** Writing and reading packets in place (src/excom/protocol.c and the boxing
    of src/excom/encryption.c), against the functions of `Protocol`. */
module ProtocolIO {
  import opened Bytes
  import opened Pack
  import opened Buffers
  import opened Packets
  import opened Protocol

  /** `after` is `before` with `xs` put at its end, and the cursor left alone as
      long as it fits 32 bits. */
  ghost predicate Grew(before: View, after: View, xs: seq<Byte>) {
    && after.Ok()
    && after.data == before.data + xs
    && (before.pos < WORD ==> after.pos == before.pos)
  }

  lemma AppendGrows(v: View, xs: seq<Byte>)
    requires v.Ok()
    ensures Grew(v, Appended(v, xs), xs)
  {
    GrownFits(v.max, |v.data| + |xs|);
  }

  lemma GrewTwice(u: View, v: View, w: View, xs: seq<Byte>, ys: seq<Byte>)
    requires Grew(u, v, xs) && Grew(v, w, ys)
    ensures Grew(u, w, xs + ys)
  {
  }

  /** The same, unless the buffer is not mutable: then it keeps its value. */
  ghost predicate Added(frozen: bool, before: View, after: View, xs: seq<Byte>) {
    if frozen then after == before else Grew(before, after, xs)
  }

  lemma AddedTwice(frozen: bool, u: View, v: View, w: View, xs: seq<Byte>, ys: seq<Byte>)
    requires Added(frozen, u, v, xs) && Added(frozen, v, w, ys)
    ensures Added(frozen, u, w, xs + ys)
  {
  }

  lemma NothingGrows(v: View)
    requires v.Ok()
    ensures Grew(v, v, [])
  {
  }

  method Add(out: Buffer, xs: seq<Byte>)
    requires out.Valid()
    modifies out, out.buf
    ensures out.Valid() && (out.buf == old(out.buf) || fresh(out.buf))
    ensures out.unmutable == old(out.unmutable) && out.freeable == old(out.freeable)
    ensures Added(out.unmutable, old(out.Value()), out.Value(), xs)
  {
    AppendGrows(out.Value(), xs);
    var err := out.CAppend(xs, |xs|);
    assert xs[..|xs|] == xs;
  }

  // ------------------------------------------------------------------
  // Encryption
  // ------------------------------------------------------------------

  /** Boxes the first `use` unread bytes of `buf` into `out`. */
  method PEncrypt(c: Crypto, nonce: seq<Byte>, buf: Buffer, out: Buffer, use: nat) returns (err: int)
    requires buf.Valid() && use <= buf.Remaining() && out.Valid()
    modifies out, out.buf
    ensures err == if use > 0 && out.unmutable then EACCES else 0
    ensures out.Valid() && (out.buf == old(out.buf) || fresh(out.buf))
    ensures out.unmutable == old(out.unmutable) && out.freeable == old(out.freeable)
    ensures Added(out.unmutable, old(out.Value()), out.Value(), Seal(c, nonce, old(buf.Unread())[..use]))
    ensures use > 0 && !out.unmutable ==>
              out.Value().data == old(out.Value().data) + nonce
                                  + c.box(nonce, Zeros(c.zeroBytes) + old(buf.Unread())[..use])
  {
    if use == 0 {
      NothingGrows(out.Value());
      return 0;
    }
    if out.unmutable {
      return EACCES;
    }
    var message := new Byte[c.zeroBytes + use];
    forall i | 0 <= i < c.zeroBytes {
      message[i] := 0;
    }
    forall i | 0 <= i < use {
      message[c.zeroBytes + i] := buf.buf[buf.pos + i];
    }
    assert message[..] == Padded(c, buf.Unread()[..use]);
    var crypt := c.box(nonce, message[..]);
    ghost var v := out.Value();
    Add(out, nonce);
    ghost var w := out.Value();
    Add(out, crypt);
    GrewTwice(v, w, out.Value(), nonce, crypt);
    Assoc(v.data, nonce, crypt);
    return 0;
  }

  /** Opens `use` unread bytes of `buf` into `out`. The cursor moves past the
      nonce only. `ok` is false when there is no room for a nonce. An error of
      the cipher is not told apart from success, as no caller looks at it. */
  method PDecrypt(c: Crypto, buf: Buffer, out: Buffer, use: nat) returns (ok: bool, err: int)
    requires buf.Valid() && use <= buf.Remaining()
    requires out.Valid() && out != buf && out.buf != buf.buf
    modifies buf`pos, out, out.buf
    ensures err == if use > 0 && out.unmutable then EACCES else 0
    ensures ok <==> !(0 < use < c.nonceBytes) || out.unmutable
    ensures buf.Valid() && buf.pos == old(buf.pos) + if ok && err == 0 && use > 0 then c.nonceBytes else 0
    ensures out.Valid() && (out.buf == old(out.buf) || fresh(out.buf)) && out.unmutable == old(out.unmutable)
    ensures ok && (use == 0 || c.nonceBytes <= use) ==>
              Added(out.unmutable, old(out.Value()), out.Value(), Open(c, old(buf.Unread())[..use]))
    ensures !ok || err != 0 || use == 0 ==> out.Value() == old(out.Value())
    ensures ok && err == 0 && use > 0 ==>
              var text := c.unbox(old(buf.Unread())[..use][..c.nonceBytes], old(buf.Unread())[..use][c.nonceBytes..]);
              && (text.None? ==> out.Value() == old(out.Value()))
              && (text.Some? && c.zeroBytes <= |text.value| ==>
                    out.Value().data == old(out.Value().data) + text.value[c.zeroBytes..])
  {
    NothingGrows(out.Value());
    if use == 0 {
      return true, 0;
    }
    if out.unmutable {
      return true, EACCES;
    }
    if use < c.nonceBytes {
      return false, 0;
    }
    hide Grew;
    ghost var all, mem, at := buf.Unread()[..use], buf.buf[..], buf.pos;
    assert all == mem[at..at + use];
    Parts(mem, at, c.nonceBytes, use);
    var nonce := buf.buf[buf.pos..buf.pos + c.nonceBytes];
    assert nonce == mem[at..at + c.nonceBytes];
    buf.pos := buf.pos + c.nonceBytes;
    var crypt := buf.buf[buf.pos..buf.pos + (use - c.nonceBytes)];
    assert crypt == mem[at + c.nonceBytes..at + use];
    var message := c.unbox(nonce, crypt);
    if message.None? || |message.value| < c.zeroBytes {
      return true, 0;
    }
    Add(out, message.value[c.zeroBytes..]);
    return true, 0;
  }

  // ------------------------------------------------------------------
  // Writing
  // ------------------------------------------------------------------

  method WriteNumber(buf: Buffer, scratch: array<Byte>, n: Byte) returns (s: nat)
    requires buf.Valid() && !buf.unmutable && scratch.Length >= 5 && scratch != buf.buf
    modifies buf, buf.buf, scratch
    ensures buf.Valid() && !buf.unmutable && (buf.buf == old(buf.buf) || fresh(buf.buf))
    ensures s == 1 && Grew(old(buf.Value()), buf.Value(), FieldBytes(Num(n)))
  {
    scratch[0] := n;
    Add(buf, scratch[..1]);
    return 1;
  }

  method WriteString(buf: Buffer, scratch: array<Byte>, str: seq<Byte>) returns (s: nat)
    requires buf.Valid() && !buf.unmutable && scratch.Length >= 5 && scratch != buf.buf
    requires |str| < WORD
    modifies buf, buf.buf, scratch
    ensures buf.Valid() && !buf.unmutable && (buf.buf == old(buf.buf) || fresh(buf.buf))
    ensures s == 4 + |str| && Grew(old(buf.Value()), buf.Value(), FieldBytes(Str(str)))
  {
    hide BigEndian32, Packed32;
    ghost var v := buf.Value();
    Add32(buf, scratch, |str|);
    ghost var w := buf.Value();
    Add(buf, str);
    GrewTwice(v, w, buf.Value(), BigEndian32(|str|), str);
    return 4 + |str|;
  }

  method Add32(out: Buffer, scratch: array<Byte>, n: Uint32)
    requires out.Valid() && scratch.Length >= 5 && scratch != out.buf
    modifies out, out.buf, scratch
    ensures out.Valid() && (out.buf == old(out.buf) || fresh(out.buf))
    ensures out.unmutable == old(out.unmutable) && out.freeable == old(out.freeable)
    ensures Added(out.unmutable, old(out.Value()), out.Value(), BigEndian32(n))
  {
    hide BigEndian32, Packed32;
    NetworkOrder32(n, Packed32(true, n));
    var k := PackUint32(true, scratch, 0, n);
    assert scratch[..4] == BigEndian32(n);
    Add(out, scratch[..4]);
  }

  method Add16(out: Buffer, scratch: array<Byte>, n: Uint16)
    requires out.Valid() && scratch.Length >= 5 && scratch != out.buf
    modifies out, out.buf, scratch
    ensures out.Valid() && (out.buf == old(out.buf) || fresh(out.buf))
    ensures out.unmutable == old(out.unmutable) && out.freeable == old(out.freeable)
    ensures Added(out.unmutable, old(out.Value()), out.Value(), BigEndian16(n))
  {
    hide BigEndian16, Packed16;
    NetworkOrder16(n, Packed16(true, n));
    var k := PackUint16(true, scratch, 0, n);
    assert scratch[..2] == BigEndian16(n);
    Add(out, scratch[..2]);
  }

  /** The fields of a body, in schema order, and their total length. */
  method WriteBody(buf: Buffer, scratch: array<Byte>, body: Body) returns (size: nat)
    requires buf.Valid() && !buf.unmutable && scratch.Length >= 5 && scratch != buf.buf
    requires SizedBody(body)
    modifies buf, buf.buf, scratch
    ensures buf.Valid() && !buf.unmutable && (buf.buf == old(buf.buf) || fresh(buf.buf))
    ensures size == |BodyBytes(body)| && Grew(old(buf.Value()), buf.Value(), BodyBytes(body))
  {
    hide FieldBytes, FieldsBytes, Grew;
    size := 0;
    match body
    case Reject(reason) =>
      size := WriteOneNumber(buf, scratch, reason);
    case Error(reason) =>
      size := WriteOneNumber(buf, scratch, reason);
    case ProtocolVersion(version, major, minor, patch) =>
      size := WriteVersion(buf, scratch, version, major, minor, patch);
    case PublicKey(key) =>
      size := WriteOneString(buf, scratch, key);
    case Command(command) =>
      size := WriteOneString(buf, scratch, command);
    case CommandResponse(response) =>
      size := WriteOneString(buf, scratch, response);
    case _ =>
      NothingGrows(buf.Value());
      NoFields(body);
  }

  lemma NoFields(body: Body)
    requires Fields(body) == []
    ensures BodyBytes(body) == []
  {
  }

  lemma NumberLength(n: Byte)
    ensures |FieldBytes(Num(n))| == 1
  {
  }

  lemma StringLength(s: seq<Byte>)
    requires |s| < WORD
    ensures |FieldBytes(Str(s))| == 4 + |s|
  {
  }

  method WriteOneNumber(buf: Buffer, scratch: array<Byte>, n: Byte) returns (size: nat)
    requires buf.Valid() && !buf.unmutable && scratch.Length >= 5 && scratch != buf.buf
    modifies buf, buf.buf, scratch
    ensures buf.Valid() && !buf.unmutable && (buf.buf == old(buf.buf) || fresh(buf.buf))
    ensures size == |FieldsBytes([Num(n)])| && Grew(old(buf.Value()), buf.Value(), FieldsBytes([Num(n)]))
  {
    hide FieldBytes, FieldsBytes, Grew;
    OneField(Num(n));
    NumberLength(n);
    size := WriteNumber(buf, scratch, n);
  }

  method WriteOneString(buf: Buffer, scratch: array<Byte>, str: seq<Byte>) returns (size: nat)
    requires buf.Valid() && !buf.unmutable && scratch.Length >= 5 && scratch != buf.buf
    requires AllSized([Str(str)])
    modifies buf, buf.buf, scratch
    ensures buf.Valid() && !buf.unmutable && (buf.buf == old(buf.buf) || fresh(buf.buf))
    ensures size == |FieldsBytes([Str(str)])| && Grew(old(buf.Value()), buf.Value(), FieldsBytes([Str(str)]))
  {
    hide FieldBytes, FieldsBytes, Grew;
    assert Sized([Str(str)][0]);
    OneField(Str(str));
    StringLength(str);
    size := WriteString(buf, scratch, str);
  }

  method WriteVersion(
      buf: Buffer, scratch: array<Byte>, version: seq<Byte>, major: Byte, minor: Byte, patch: Byte)
    returns (size: nat)
    requires buf.Valid() && !buf.unmutable && scratch.Length >= 5 && scratch != buf.buf
    requires AllSized([Str(version), Num(major), Num(minor), Num(patch)])
    modifies buf, buf.buf, scratch
    ensures buf.Valid() && !buf.unmutable && (buf.buf == old(buf.buf) || fresh(buf.buf))
    ensures var bytes := FieldsBytes([Str(version), Num(major), Num(minor), Num(patch)]);
            size == |bytes| && Grew(old(buf.Value()), buf.Value(), bytes)
  {
    hide FieldBytes, FieldsBytes, Grew;
    assert Sized([Str(version), Num(major), Num(minor), Num(patch)][0]);
    FourFields(Str(version), Num(major), Num(minor), Num(patch));
    StringLength(version);
    ghost var v0 := buf.Value();
    size := WriteString(buf, scratch, version);
    ghost var v1 := buf.Value();
    var s := WriteNumber(buf, scratch, major);
    ghost var v2 := buf.Value();
    size := size + s;
    s := WriteNumber(buf, scratch, minor);
    ghost var v3 := buf.Value();
    size := size + s;
    s := WriteNumber(buf, scratch, patch);
    size := size + s;
    NumberLength(major);
    NumberLength(minor);
    NumberLength(patch);
    ghost var a, b, c, d := FieldBytes(Str(version)), FieldBytes(Num(major)), FieldBytes(Num(minor)), FieldBytes(Num(patch));
    GrewTwice(v0, v1, v2, a, b);
    GrewTwice(v0, v2, v3, a + b, c);
    GrewTwice(v0, v3, buf.Value(), a + b + c, d);
  }

  method WriteHeader(out: Buffer, scratch: array<Byte>, size: Uint32, id: Uint16, code: Uint16)
    requires out.Valid() && scratch.Length >= 5 && scratch != out.buf
    modifies out, out.buf, scratch
    ensures out.Valid() && (out.buf == old(out.buf) || fresh(out.buf))
    ensures out.unmutable == old(out.unmutable) && out.freeable == old(out.freeable)
    ensures Added(out.unmutable, old(out.Value()), out.Value(), Header(size, id, code))
  {
    hide Added, BigEndian32, BigEndian16;
    ghost var v0 := out.Value();
    Add32(out, scratch, size);
    ghost var v1 := out.Value();
    Add16(out, scratch, id);
    ghost var v2 := out.Value();
    Add16(out, scratch, code);
    AddedTwice(out.unmutable, v0, v1, v2, BigEndian32(size), BigEndian16(id));
    AddedTwice(out.unmutable, v0, v2, out.Value(), BigEndian32(size) + BigEndian16(id), BigEndian16(code));
  }

  /** The body of a frame: boxed, or as it is. */
  method WriteWireBody(c: Crypto, active: bool, nonce: seq<Byte>, buf: Buffer, out: Buffer, ghost body: Body)
    requires SizedBody(body) && buf.Valid() && buf.pos == 0 && buf.Value().data == BodyBytes(body)
    requires out.Valid()
    modifies out, out.buf
    ensures out.Valid() && (out.buf == old(out.buf) || fresh(out.buf))
    ensures out.unmutable == old(out.unmutable) && out.freeable == old(out.freeable)
    ensures Added(out.unmutable, old(out.Value()), out.Value(), WireBody(c, active, nonce, body))
  {
    hide Grew, BodyBytes, Seal;
    assert buf.Unread()[..buf.Remaining()] == buf.Unread() == BodyBytes(body);
    var err;
    if active {
      err := PEncrypt(c, nonce, buf, out, buf.Remaining());
    } else {
      AppendGrows(out.Value(), BodyBytes(body));
      err := out.BAppend(buf);
    }
  }

  /** Writes the fields to a buffer of their own and finds the length that the
      header will carry, by boxing a copy when encryption is on. */
  method PrepareBody(c: Crypto, active: bool, measured: seq<Byte>, scratch: array<Byte>, body: Body)
    returns (buf: Buffer, size: Uint32)
    requires Lawful(c) && |measured| == c.nonceBytes && Encodable(body) && scratch.Length >= 5
    modifies scratch
    ensures fresh(buf) && fresh(buf.buf) && buf.Valid() && buf.pos == 0 && buf.Value().data == BodyBytes(body)
    ensures size == LengthField(WireSize(c, active, body))
  {
    hide Lawful, Grew, Header, BodyBytes, WireBody, WireSize, LengthField;
    buf := new Buffer(32);
    var length := WriteBody(buf, scratch, body);
    FromEmpty(buf.Value(), BodyBytes(body));
    size := LengthField(length);
    if active {
      var copy := new Buffer(32);
      WriteWireBody(c, active, measured, buf, copy, body);
      FromEmpty(copy.Value(), WireBody(c, active, measured, body));
      HonestLength(c, active, measured, measured, 0, body);
      size := LengthField(copy.used);
      copy.Destroy();
    } else {
      PlainSize(c, body);
    }
  }

  /** Appends exactly the frame, whichever nonces the two boxings of the body
      draw, and reports the length that the header carries. No error of an
      append is looked at: a buffer that is not mutable keeps its value. */
  method WritePacket(c: Crypto, active: bool, measured: seq<Byte>, sent: seq<Byte>, id: Uint16, body: Body, out: Buffer)
    returns (err: int, size: Uint32)
    requires Lawful(c) && |measured| == |sent| == c.nonceBytes
    requires body.Invalid? || Encodable(body)
    requires out.Valid()
    modifies out, out.buf
    ensures out.Valid() && (out.buf == old(out.buf) || fresh(out.buf))
    ensures out.unmutable == old(out.unmutable) && out.freeable == old(out.freeable)
    ensures err == if body.Invalid? then 1 else 0
    ensures body.Invalid? ==> unchanged(out) && out.Value() == old(out.Value())
    ensures !body.Invalid? ==>
              && size == LengthField(WireSize(c, active, body))
              && Added(out.unmutable, old(out.Value()), out.Value(), Wire(c, active, sent, id, body))
  {
    hide Lawful, Added, Header, BodyBytes, WireBody, WireSize, LengthField;
    if body.Invalid? {
      return 1, 0;
    }
    var scratch := new Byte[5];
    var buf;
    buf, size := PrepareBody(c, active, measured, scratch, body);
    ghost var v0 := out.Value();
    WriteHeader(out, scratch, size, id, Code(body));
    ghost var v1 := out.Value();
    WriteWireBody(c, active, sent, buf, out, body);
    AddedTwice(out.unmutable, v0, v1, out.Value(), Header(size, id, Code(body)), WireBody(c, active, sent, body));
    buf.Destroy();
    err := 0;
  }

  lemma PlainSize(c: Crypto, body: Body)
    requires SizedBody(body)
    ensures WireSize(c, false, body) == |BodyBytes(body)|
  {
  }

  lemma FromEmpty(after: View, xs: seq<Byte>)
    requires Grew(View(32, 0, []), after, xs)
    ensures after.data == xs && after.pos == 0 && after.Unread() == xs
  {
  }

  // ------------------------------------------------------------------
  // Reading
  // ------------------------------------------------------------------

  method ReadNumber(buf: Buffer, cur: nat) returns (r: Option<(Field, nat)>)
    requires buf.Valid() && buf.pos == 0
    ensures r == ReadField(NumberField, buf.Value().data, cur)
  {
    if cur + 1 > buf.used {
      return None;
    }
    return Some((Num(buf.buf[buf.pos + cur]), cur + 1));
  }

  method ReadString(buf: Buffer, cur: nat) returns (r: Option<(Field, nat)>)
    requires buf.Valid() && buf.pos == 0
    ensures r == ReadField(StringField, buf.Value().data, cur)
  {
    hide Value32, Unpacked32;
    if cur + 4 > buf.used {
      return None;
    }
    ghost var data := buf.Value().data;
    var k, n := UnpackUint32(true, buf.buf, buf.pos + cur);
    assert buf.buf[cur..cur + 4] == data[cur..cur + 4];
    NetworkOrder32(0, data[cur..cur + 4]);
    if cur + 4 + n > buf.used {
      return None;
    }
    Parts(buf.buf[..], 0, cur + 4 + n, buf.used);
    var str := buf.buf[buf.pos + cur + 4..buf.pos + cur + 4 + n];
    assert str == data[cur + 4..cur + 4 + n];
    return Some((Str(str), cur + 4 + n));
  }

  /** The body that a type number and its plain bytes make. */
  function BodyAt(code: Uint16, data: seq<Byte>): Option<(Body, nat)> {
    var r := ReadFields(Schema(code), data, 0);
    if r.None? then None else Some((FromFields(code, r.value.0), r.value.1))
  }

  lemma NoMoreFields(data: seq<Byte>, cur: nat)
    ensures ReadFields([], data, cur) == Some(([], cur))
  {
  }

  lemma OneMoreField(kind: FieldKind, rest: seq<FieldKind>, data: seq<Byte>, cur: nat)
    ensures var f, r := ReadField(kind, data, cur), ReadFields([kind] + rest, data, cur);
            && (f.None? ==> r.None?)
            && (f.Some? ==>
                  var more := ReadFields(rest, data, f.value.1);
                  r == if more.None? then None else Some(([f.value.0] + more.value.0, more.value.1)))
  {
    assert ([kind] + rest)[1..] == rest;
  }

  lemma SingleField(code: Uint16, data: seq<Byte>)
    requires code in {2, 3, 7, 0x10, 0x11}
    ensures |Schema(code)| == 1
    ensures var f := ReadField(Schema(code)[0], data, 0);
            BodyAt(code, data) == if f.None? then None else Some((FromFields(code, [f.value.0]), f.value.1))
  {
    hide ReadField, ReadFields;
    var kind := Schema(code)[0];
    assert [kind] + [] == Schema(code);
    OneMoreField(kind, [], data, 0);
    var f := ReadField(kind, data, 0);
    if f.Some? {
      NoMoreFields(data, f.value.1);
      assert [f.value.0] + [] == [f.value.0];
    }
  }

  lemma VersionFields(data: seq<Byte>)
    ensures var v := ReadField(StringField, data, 0);
            if v.None? then BodyAt(4, data).None?
            else if v.value.1 + 3 > |data| then BodyAt(4, data).None?
            else
              var at := v.value.1;
              BodyAt(4, data) == Some((ProtocolVersion(v.value.0.bytes, data[at], data[at + 1], data[at + 2]), at + 3))
  {
    var v := ReadField(StringField, data, 0);
    OneMoreField(StringField, [NumberField, NumberField, NumberField], data, 0);
    assert Schema(4) == [StringField] + [NumberField, NumberField, NumberField];
    if v.Some? {
      ThreeNumbers(data, v.value.1);
    }
  }

  lemma ThreeNumbers(data: seq<Byte>, at: nat)
    ensures ReadFields([NumberField, NumberField, NumberField], data, at)
         == if at + 3 > |data| then None
            else Some(([Num(data[at]), Num(data[at + 1]), Num(data[at + 2])], at + 3))
  {
    hide ReadFields;
    OneMoreField(NumberField, [NumberField, NumberField], data, at);
    OneMoreField(NumberField, [NumberField], data, at + 1);
    OneMoreField(NumberField, [], data, at + 2);
    NoMoreFields(data, at + 3);
    assert [NumberField] + [NumberField, NumberField] == [NumberField, NumberField, NumberField];
    assert [NumberField] + [NumberField] == [NumberField, NumberField];
    assert [NumberField] + [] == [NumberField];
    if at + 3 <= |data| {
      var a, b, d := Num(data[at]), Num(data[at + 1]), Num(data[at + 2]);
      assert [a] + ([b] + ([d] + [])) == [a, b, d];
    }
  }

  method ReadVersion(buf: Buffer) returns (r: Option<(Body, nat)>)
    requires buf.Valid() && buf.pos == 0
    ensures r == BodyAt(4, buf.Value().data)
  {
    hide BodyAt;
    VersionFields(buf.Value().data);
    var version := ReadString(buf, 0);
    if version.None? {
      return None;
    }
    var major := ReadNumber(buf, version.value.1);
    if major.None? {
      return None;
    }
    var minor := ReadNumber(buf, major.value.1);
    if minor.None? {
      return None;
    }
    var patch := ReadNumber(buf, minor.value.1);
    if patch.None? {
      return None;
    }
    return Some((ProtocolVersion(version.value.0.bytes, major.value.0.n, minor.value.0.n, patch.value.0.n), patch.value.1));
  }

  /** The switch on the type number. None when a field reaches past the body. */
  method ReadBodyFields(code: Uint16, buf: Buffer) returns (r: Option<(Body, nat)>)
    requires buf.Valid() && buf.pos == 0
    ensures r == BodyAt(code, buf.Value().data)
  {
    hide ReadField, ReadFields;
    ghost var data := buf.Value().data;
    if code == 2 || code == 3 {
      SingleField(code, data);
      var f := ReadNumber(buf, 0);
      return if f.None? then None else Some((if code == 2 then Reject(f.value.0.n) else Error(f.value.0.n), f.value.1));
    } else if code == 4 {
      r := ReadVersion(buf);
    } else if code == 7 || code == 0x10 || code == 0x11 {
      SingleField(code, data);
      var f := ReadString(buf, 0);
      if f.None? {
        return None;
      }
      var s := f.value.0.bytes;
      return Some((if code == 7 then PublicKey(s) else if code == 0x10 then Command(s) else CommandResponse(s), f.value.1));
    } else {
      NoMoreFields(data, 0);
      assert Schema(code) == [];
      return Some((if code == 0 then Invalid else if code == 1 then Ok
                   else if code == 5 then Ping else if code == 6 then Pong else Unknown(code), 0));
    }
  }

  lemma BodyOfFrame(code: Uint16, data: seq<Byte>)
    ensures var f, b := ReadFields(Schema(code), data, 0), BodyAt(code, data);
            && (f.None? <==> b.None?)
            && (f.Some? ==> b.value == (FromFields(code, f.value.0), f.value.1))
  {
  }

  /** The plain bytes of a body, in a buffer of their own. */
  method PlainBody(c: Crypto, active: bool, input: Buffer, size: nat) returns (ok: bool, buf: Buffer)
    requires input.Valid() && size <= input.Remaining()
    modifies input`pos
    ensures ok <==> !(active && 0 < size < c.nonceBytes)
    ensures input.Valid() && input.pos == old(input.pos) + if ok && active && size > 0 then c.nonceBytes else 0
    ensures fresh(buf) && fresh(buf.buf) && buf.Valid()
    ensures ok ==>
              var unread := old(input.Unread())[..size];
              buf.pos == 0 && buf.Value().data == if active then Open(c, unread) else unread
  {
    hide Open, Grew;
    buf := new Buffer(32);
    if active {
      var err;
      ok, err := PDecrypt(c, input, buf, size);
      if ok {
        FromEmpty(buf.Value(), Open(c, old(input.Unread())[..size]));
      }
    } else {
      ok := true;
      AppendGrows(buf.Value(), input.Unread()[..size]);
      var err := buf.BAppendRemaining2(input, size);
      FromEmpty(buf.Value(), old(input.Unread())[..size]);
    }
  }

  /** Takes one frame off the unread bytes. The result is the one that
      `ReadFrame` names, and the cursor moves to where it says. */
  method ReadPacket(c: Crypto, active: bool, input: Buffer) returns (r: Reading)
    requires Lawful(c) && input.Valid()
    modifies input`pos
    ensures input.Valid()
    ensures r == ReadFrame(c, active, old(input.Unread()))
    ensures !r.Fault? ==> input.pos == old(input.pos) + r.next
  {
    hide Lawful, Open, BodyAt, Grew, SizeAt, Value16, Value32, ReadFields, Schema, FromFields;
    ghost var unread := input.Unread();
    NextFits(c, active, unread);
    if input.Remaining() < HEADER {
      return Fault;
    }
    var size, id, code := ReadHeader(input);
    input.pos := input.pos + HEADER;
    if input.Remaining() < size {
      return Fault;
    }
    assert input.Unread()[..size] == unread[HEADER..HEADER + size];
    var ok, buf := PlainBody(c, active, input, size);
    if !ok {
      return Fault;
    }
    var at := if active && size > 0 then HEADER + c.nonceBytes else HEADER;
    if code == 0 {
      return Rejected(at);
    }
    var fields := ReadBodyFields(code, buf);
    BodyOfFrame(code, buf.Value().data);
    buf.Destroy();
    if fields.None? {
      return Fault;
    }
    r := Parsed(Packet(size, id, fields.value.0), at + fields.value.1);
    input.pos := input.pos + fields.value.1;
  }

  method ReadHeader(input: Buffer) returns (size: Uint32, id: Uint16, code: Uint16)
    requires input.Valid() && input.Remaining() >= HEADER
    ensures var u := input.Unread();
            size == SizeAt(u) && id == Value16(u[4..6]) && code == Value16(u[6..8])
  {
    hide Value16, Value32, Unpacked16, Unpacked32;
    ghost var u, at := input.Unread(), input.pos;
    assert u == input.buf[at..][..input.used - at];
    assert input.buf[at..at + 4] == u[..4];
    assert input.buf[at + 4..at + 6] == u[4..6];
    assert input.buf[at + 6..at + 8] == u[6..8];
    NetworkOrder32(0, u[..4]);
    NetworkOrder16(0, u[4..6]);
    NetworkOrder16(0, u[6..8]);
    var cur: nat := 0;
    var k;
    k, size := UnpackUint32(true, input.buf, input.pos);
    cur := cur + k;
    k, id := UnpackUint16(true, input.buf, input.pos + cur);
    cur := cur + k;
    k, code := UnpackUint16(true, input.buf, input.pos + cur);
  }
}
