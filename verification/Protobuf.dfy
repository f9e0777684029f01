/**
 The Protocol Buffers wire format: the writer of internal/pprofout/pprofout.go and, as its
 reference, a decoder written from the format's own description ("Base 128 Varints" and
 "Message Structure" of the Protocol Buffers Encoding document).
 */
module Protobuf {
  import opened Bytes
  import opened Wrappers

  // ------------------------------------------------------------------ varints

  /** Seven bits at a time, lowest first, the high bit marking that more follow. */
  function EncVarint(v: nat): (b: seq<Byte>)
    ensures b != []
  {
    if v < 128 then [v] else [v % 128 + 128] + EncVarint(v / 128)
  }

  datatype Token<+T> = Token(value: T, rest: seq<Byte>)

  function DecVarint(b: seq<Byte>): (r: Option<Token<nat>>)
    ensures r.Some? ==> |r.value.rest| < |b|
  {
    if b == [] then None
    else if b[0] < 128 then Some(Token(b[0], b[1..]))
    else match DecVarint(b[1..])
      case None => None
      case Some(Token(v, rest)) => Some(Token(b[0] - 128 + 128 * v, rest))
  }

  lemma {:induction false} VarintRoundTrip(v: nat, rest: seq<Byte>)
    ensures DecVarint(EncVarint(v) + rest) == Some(Token(v, rest))
  {
    var b := EncVarint(v) + rest;
    if v >= 128 {
      VarintRoundTrip(v / 128, rest);
      assert b[1..] == EncVarint(v / 128) + rest;
    } else {
      assert b[1..] == rest;
    }
  }

  // ------------------------------------------------------------------ fields and messages

  datatype Field = Varint(num: nat, v: nat) | Len(num: nat, data: seq<Byte>)

  function EncField(f: Field): seq<Byte> {
    match f
    case Varint(num, v) => EncVarint(8 * num) + EncVarint(v)
    case Len(num, data) => EncVarint(8 * num + 2) + EncVarint(|data|) + data
  }

  function EncFields(fs: seq<Field>): seq<Byte> {
    if fs == [] then [] else EncFields(fs[..|fs| - 1]) + EncField(fs[|fs| - 1])
  }

  /** One field: a tag naming the field number and the wire type, then its payload. */
  function DecField(b: seq<Byte>): (r: Option<Token<Field>>)
    ensures r.Some? ==> |r.value.rest| < |b|
  {
    match DecVarint(b)
    case None => None
    case Some(Token(tag, rest)) =>
      match DecVarint(rest)
      case None => None
      case Some(Token(v, rest')) =>
        if tag % 8 == 0 then Some(Token(Varint(tag / 8, v), rest'))
        else if tag % 8 == 2 && v <= |rest'| then Some(Token(Len(tag / 8, rest'[..v]), rest'[v..]))
        else None
  }

  function DecMessage(b: seq<Byte>): Option<seq<Field>>
    decreases |b|
  {
    if b == [] then Some([])
    else match DecField(b)
      case None => None
      case Some(Token(f, rest)) =>
        match DecMessage(rest)
        case None => None
        case Some(fs) => Some([f] + fs)
  }

  lemma TwoVarints(tag: nat, v: nat, rest: seq<Byte>)
    ensures var b := EncVarint(tag) + EncVarint(v) + rest;
            DecVarint(b) == Some(Token(tag, EncVarint(v) + rest)) && DecVarint(EncVarint(v) + rest) == Some(Token(v, rest))
  {
    VarintRoundTrip(tag, EncVarint(v) + rest);
    VarintRoundTrip(v, rest);
    Assoc(EncVarint(tag), EncVarint(v), rest);
  }

  lemma FieldRead(b: seq<Byte>, tag: nat, payload: seq<Byte>, v: nat, rest: seq<Byte>)
    requires DecVarint(b) == Some(Token(tag, payload)) && DecVarint(payload) == Some(Token(v, rest))
    ensures tag % 8 == 0 ==> DecField(b) == Some(Token(Varint(tag / 8, v), rest))
    ensures tag % 8 == 2 && v <= |rest| ==> DecField(b) == Some(Token(Len(tag / 8, rest[..v]), rest[v..]))
  {
  }

  lemma FieldRoundTrip(f: Field, rest: seq<Byte>)
    ensures DecField(EncField(f) + rest) == Some(Token(f, rest))
  {
    match f {
      case Varint(num, v) =>
        TwoVarints(8 * num, v, rest);
        FieldRead(EncField(f) + rest, 8 * num, EncVarint(v) + rest, v, rest);
      case Len(num, data) => BytesRoundTrip(num, data, rest);
    }
  }

  lemma BytesRoundTrip(num: nat, data: seq<Byte>, rest: seq<Byte>)
    ensures DecField(EncField(Len(num, data)) + rest) == Some(Token(Len(num, data), rest))
  {
    var all := data + rest;
    TwoVarints(8 * num + 2, |data|, all);
    Assoc(EncVarint(8 * num + 2) + EncVarint(|data|), data, rest);
    FieldRead(EncField(Len(num, data)) + rest, 8 * num + 2, EncVarint(|data|) + all, |data|, all);
    assert all[..|data|] == data && all[|data|..] == rest;
  }

  lemma Assoc(a: seq<Byte>, b: seq<Byte>, c: seq<Byte>)
    ensures (a + b) + c == a + (b + c)
  {
  }

  lemma OneField(f: Field)
    ensures EncFields([f]) == EncField(f)
  {
    assert [f][..0] == [];
  }

  lemma {:induction false} EncFieldsFront(f: Field, fs: seq<Field>)
    ensures EncFields([f] + fs) == EncField(f) + EncFields(fs)
  {
    if fs == [] {
      assert [f] + fs == [f];
      OneField(f);
    } else {
      var rest, last := fs[..|fs| - 1], fs[|fs| - 1];
      EncFieldsFront(f, rest);
      assert ([f] + fs)[..|fs|] == [f] + rest && ([f] + fs)[|fs|] == last;
      Assoc(EncField(f), EncFields(rest), EncField(last));
    }
  }

  /** Decoding a written message gives back its fields, in order. */
  lemma {:induction false} MessageRoundTrip(fs: seq<Field>)
    ensures DecMessage(EncFields(fs)) == Some(fs)
  {
    if fs != [] {
      var f, rest := fs[0], fs[1..];
      assert fs == [f] + rest;
      EncFieldsFront(f, rest);
      FieldRoundTrip(f, EncFields(rest));
      MessageRoundTrip(rest);
    }
  }

  lemma {:induction false} EncFieldsConcat(a: seq<Field>, b: seq<Field>)
    ensures EncFields(a + b) == EncFields(a) + EncFields(b)
  {
    if b == [] {
      assert a + b == a;
    } else {
      assert (a + b)[..|a + b| - 1] == a + b[..|b| - 1];
      EncFieldsConcat(a, b[..|b| - 1]);
      Assoc(EncFields(a), EncFields(b[..|b| - 1]), EncField(b[|b| - 1]));
    }
  }

  // ------------------------------------------------------------------ packed fields

  function EncPacked(vs: seq<nat>): seq<Byte> {
    if vs == [] then [] else EncPacked(vs[..|vs| - 1]) + EncVarint(vs[|vs| - 1])
  }

  function DecPacked(b: seq<Byte>): Option<seq<nat>>
    decreases |b|
  {
    if b == [] then Some([])
    else match DecVarint(b)
      case None => None
      case Some(Token(v, rest)) =>
        match DecPacked(rest)
        case None => None
        case Some(vs) => Some([v] + vs)
  }

  lemma {:induction false} EncPackedFront(v: nat, vs: seq<nat>)
    ensures EncPacked([v] + vs) == EncVarint(v) + EncPacked(vs)
  {
    if vs == [] {
      assert [v] + vs == [v] && [v][..0] == [];
    } else {
      var rest, last := vs[..|vs| - 1], vs[|vs| - 1];
      EncPackedFront(v, rest);
      assert ([v] + vs)[..|vs|] == [v] + rest && ([v] + vs)[|vs|] == last;
      Assoc(EncVarint(v), EncPacked(rest), EncVarint(last));
    }
  }

  lemma {:induction false} PackedRoundTrip(vs: seq<nat>)
    ensures DecPacked(EncPacked(vs)) == Some(vs)
  {
    if vs != [] {
      assert vs == [vs[0]] + vs[1..];
      EncPackedFront(vs[0], vs[1..]);
      VarintRoundTrip(vs[0], EncPacked(vs[1..]));
      PackedRoundTrip(vs[1..]);
    }
  }

  // ------------------------------------------------------------------ the writer

  /** Accumulates a message body. */
  class ProtoWriter {
    var buf: seq<Byte>

    constructor ()
      ensures buf == []
    {
      buf := [];
    }

    method WriteVarint(x: nat)
      modifies this
      ensures buf == old(buf) + EncVarint(x)
    {
      var v := x;
      while v >= 0x80
        invariant buf + EncVarint(v) == old(buf) + EncVarint(x)
      {
        buf := buf + [v % 128 + 128];
        v := v / 128;
      }
      buf := buf + [v];
    }

    method Uint64Field(field: nat, v: nat)
      modifies this
      ensures buf == old(buf) + EncField(Varint(field, v))
    {
      WriteVarint(8 * field);
      WriteVarint(v);
      assert buf == old(buf) + (EncVarint(8 * field) + EncVarint(v));
    }

    method BytesField(field: nat, data: seq<Byte>)
      modifies this
      ensures buf == old(buf) + EncField(Len(field, data))
    {
      WriteVarint(8 * field + 2);
      WriteVarint(|data|);
      buf := buf + data;
      assert buf == old(buf) + (EncVarint(8 * field + 2) + EncVarint(|data|) + data);
    }

    /** Writes a packed repeated field; an empty one is left out. */
    method PackedField(field: nat, vals: seq<nat>)
      modifies this
      ensures buf == if vals == [] then old(buf) else old(buf) + EncField(Len(field, EncPacked(vals)))
    {
      if |vals| == 0 {
        return;
      }
      var inner := new ProtoWriter();
      for i := 0 to |vals|
        invariant inner != this && fresh(inner) && buf == old(buf)
        invariant inner.buf == EncPacked(vals[..i])
      {
        assert vals[..i + 1][..i] == vals[..i];
        inner.WriteVarint(vals[i]);
      }
      assert vals[..|vals|] == vals;
      BytesField(field, inner.buf);
    }
  }

  /** The examples of the protocol buffers encoding guide: field 1 with the number 150, and field 2 with "testing". */
  lemma KnownBytes()
    ensures EncField(Varint(1, 150)) == [0x08, 0x96, 0x01]
    ensures EncField(Len(2, [0x74, 0x65, 0x73, 0x74, 0x69, 0x6e, 0x67])) == [0x12, 0x07, 0x74, 0x65, 0x73, 0x74, 0x69, 0x6e, 0x67]
  {
    assert EncVarint(150) == [0x96] + EncVarint(1);
  }
}
