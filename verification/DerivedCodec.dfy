/** The encoders and decoders generated for structs and enums: fields in declaration order, an
    enum's variant as one byte in front of them. */
module DerivedCodec {
  type Byte = x: int | 0 <= x < 256

  /** A type built by the derive from types that bring their own codec. */
  datatype Shape =
    | Field(codec: nat)
    | Struct(fields: seq<Shape>)
    | Enum(variants: seq<Arm>)

  /** The fields of one variant. */
  datatype Arm = Arm(fields: seq<Shape>)

  datatype Datum =
    | Leaf(leaf: int)
    | Record(fields: seq<Datum>)
    | Variant(index: nat, fields: seq<Datum>)

  /** Reading ends with a value and what is left, with an error, or in the arm that must not be reached. */
  datatype Decoded<+T> = Read(value: T, rest: seq<Byte>) | Failed | Unreachable

  /** The codecs of the field types. */
  datatype Codecs = Codecs(enc: (nat, int) -> seq<Byte>, dec: (nat, seq<Byte>) -> Decoded<int>)

  /** Each field codec reads back what it wrote and leaves what follows. */
  ghost predicate FieldsRoundTrip(cs: Codecs) {
    forall k, v, rest :: cs.dec(k, cs.enc(k, v) + rest) == Read(v, rest)
  }

  ghost predicate Fits(d: Datum, s: Shape)
    decreases d
  {
    match (s, d)
    case (Field(_), Leaf(_)) => true
    case (Struct(shapes), Record(fields)) => FitsAll(fields, shapes)
    case (Enum(variants), Variant(i, fields)) => i < |variants| && FitsAll(fields, variants[i].fields)
    case _ => false
  }

  ghost predicate FitsAll(ds: seq<Datum>, ss: seq<Shape>)
    decreases ds
  {
    |ds| == |ss| && (ds == [] || (Fits(ds[0], ss[0]) && FitsAll(ds[1..], ss[1..])))
  }

  function Encode(cs: Codecs, s: Shape, d: Datum): seq<Byte>
    decreases d
  {
    match (s, d)
    case (Field(k), Leaf(v)) => cs.enc(k, v)
    case (Struct(shapes), Record(fields)) => EncodeAll(cs, shapes, fields)
    case (Enum(variants), Variant(i, fields)) => if i < |variants| then [i % 256] +
         EncodeAll(cs, variants[i].fields, fields) else []
    case _ => []
  }

  function EncodeAll(cs: Codecs, ss: seq<Shape>, ds: seq<Datum>): seq<Byte>
    decreases ds
  {
    if ss == [] || ds == [] then [] else Encode(cs, ss[0], ds[0]) + EncodeAll(cs, ss[1..], ds[1..])
  }

  function Decode(cs: Codecs, s: Shape, bytes: seq<Byte>): (r: Decoded<Datum>)
    decreases s
  {
    match s
    case Field(k) => (
      match cs.dec(k, bytes)
      case Read(v, rest) => Read(Leaf(v), rest)
      case Failed => Failed
      case Unreachable => Unreachable
      )
    case Struct(shapes) => (
      match DecodeAll(cs, shapes, bytes)
      case Read(fields, rest) => Read(Record(fields), rest)
      case Failed => Failed
      case Unreachable => Unreachable
      )
    case Enum(variants) =>
      if bytes == [] then Failed
      else if bytes[0] >= |variants| then Unreachable
      else
        match DecodeAll(cs, variants[bytes[0]].fields, bytes[1..])
        case Read(fields, rest) => Read(Variant(bytes[0], fields), rest)
        case Failed => Failed
        case Unreachable => Unreachable
  }

  function DecodeAll(cs: Codecs, ss: seq<Shape>, bytes: seq<Byte>): (r: Decoded<seq<Datum>>)
    decreases ss
  {
    if ss == [] then Read([], bytes)
    else
      match Decode(cs, ss[0], bytes)
      case Failed => Failed
      case Unreachable => Unreachable
      case Read(first, rest) =>
        match DecodeAll(cs, ss[1..], rest)
        case Failed => Failed
        case Unreachable => Unreachable
        case Read(others, left) => Read([first] + others, left)
  }

  lemma {:induction false} VariantBytes(cs: Codecs, variants: seq<Arm>, i: nat, fields: seq<Datum>, before: seq<Byte>)
    requires i < |variants|
    ensures before + Encode(cs, Enum(variants), Variant(i, fields)) ==
            before + [i % 256] + EncodeAll(cs, variants[i].fields, fields)
  {
  }

  /** Every variant number in the value survives being cut to a byte. */
  predicate Narrow(d: Datum)
    decreases d
  {
    match d
    case Leaf(_) => true
    case Record(fields) => NarrowAll(fields)
    case Variant(i, fields) => i < 256 && NarrowAll(fields)
  }

  predicate NarrowAll(ds: seq<Datum>)
    decreases ds
  {
    ds == [] || (Narrow(ds[0]) && NarrowAll(ds[1..]))
  }

  /** Decoding what was encoded, with anything behind it, gives the value back and leaves the rest, exactly
      when every variant number in the value is below 256. */
  lemma {:induction false} RoundTrip(cs: Codecs, s: Shape, d: Datum, rest: seq<Byte>)
    requires FieldsRoundTrip(cs) && Fits(d, s)
    ensures Decode(cs, s, Encode(cs, s, d) + rest) == Read(d, rest) <==> Narrow(d)
    ensures !Narrow(d) ==> forall left :: Decode(cs, s, Encode(cs, s, d) + rest) != Read(d, left)
    decreases d
  {
    match (s, d) {
      case (Field(_), Leaf(_)) =>
      case (Struct(shapes), Record(fields)) => RoundTripAll(cs, shapes, fields, rest);
      case (Enum(variants), Variant(i, fields)) =>
        TagIsRead(cs, variants, i, fields, rest);
        if i < 256 { RoundTripAll(cs, variants[i].fields, fields, rest); }
    }
  }

  /** Reading a variant starts with its number, cut to a byte. */
  lemma {:induction false} TagIsRead(cs: Codecs, variants: seq<Arm>, i: nat, fields: seq<Datum>, rest: seq<Byte>)
    requires i < |variants|
    ensures
      var bytes, tag := Encode(cs, Enum(variants), Variant(i, fields)) + rest, i % 256;
      var r := DecodeAll(cs, variants[tag].fields, EncodeAll(cs, variants[i].fields, fields) + rest);
      Decode(cs, Enum(variants), bytes) ==
        match r
        case Read(read, left) => Read(Variant(tag, read), left)
        case Failed => Failed
        case Unreachable => Unreachable
  {
    var bytes := Encode(cs, Enum(variants), Variant(i, fields)) + rest;
    assert bytes[0] == i % 256 && bytes[1..] == EncodeAll(cs, variants[i].fields, fields) + rest;
  }

  lemma {:induction false} RoundTripAll(cs: Codecs, ss: seq<Shape>, ds: seq<Datum>, rest: seq<Byte>)
    requires FieldsRoundTrip(cs) && FitsAll(ds, ss)
    ensures NarrowAll(ds) ==> DecodeAll(cs, ss, EncodeAll(cs, ss, ds) + rest) == Read(ds, rest)
    ensures !NarrowAll(ds) ==> forall left :: DecodeAll(cs, ss, EncodeAll(cs, ss, ds) + rest) != Read(ds, left)
    decreases ds
  {
    if ds != [] {
      var tail := EncodeAll(cs, ss[1..], ds[1..]) + rest;
      assert EncodeAll(cs, ss, ds) + rest == Encode(cs, ss[0], ds[0]) + tail;
      RoundTrip(cs, ss[0], ds[0], tail);
      RoundTripAll(cs, ss[1..], ds[1..], rest);
      assert ds == [ds[0]] + ds[1..];
      var r := DecodeAll(cs, ss, EncodeAll(cs, ss, ds) + rest);
      if r.Read? { assert r.value[1..] == DecodeAll(cs, ss[1..],
                                                    Decode(cs, ss[0], Encode(cs, ss[0], ds[0]) + tail).rest).value; }
    }
  }

  /** A shape whose enums have at most 256 variants has only such values. */
  ghost predicate SmallEnums(s: Shape)
    decreases s
  {
    match s
    case Field(_) => true
    case Struct(shapes) => SmallEnumsAll(shapes)
    case Enum(variants) => |variants| <= 256 && forall i :: 0 <= i < |variants| ==> SmallEnumsAll(variants[i].fields)
  }

  ghost predicate SmallEnumsAll(ss: seq<Shape>)
    decreases ss
  {
    ss == [] || (SmallEnums(ss[0]) && SmallEnumsAll(ss[1..]))
  }

  lemma {:induction false} SmallEnumsAreNarrow(s: Shape, d: Datum)
    requires Fits(d, s) && SmallEnums(s)
    ensures Narrow(d)
    decreases d
  {
    match (s, d) {
      case (Field(_), Leaf(_)) =>
      case (Struct(shapes), Record(fields)) => SmallEnumsAreNarrowAll(shapes, fields);
      case (Enum(variants), Variant(i, fields)) => SmallEnumsAreNarrowAll(variants[i].fields, fields);
    }
  }

  lemma {:induction false} SmallEnumsAreNarrowAll(ss: seq<Shape>, ds: seq<Datum>)
    requires FitsAll(ds, ss) && SmallEnumsAll(ss)
    ensures NarrowAll(ds)
    decreases ds
  {
    if ds != [] {
      SmallEnumsAreNarrow(ss[0], ds[0]);
      SmallEnumsAreNarrowAll(ss[1..], ds[1..]);
    }
  }

  /** For every nesting of structs and enums with at most 256 variants, every value comes back. */
  lemma DerivedRoundTrip(cs: Codecs, s: Shape, d: Datum, rest: seq<Byte>)
    requires FieldsRoundTrip(cs) && SmallEnums(s) && Fits(d, s)
    ensures Decode(cs, s, Encode(cs, s, d) + rest) == Read(d, rest)
  {
    SmallEnumsAreNarrow(s, d);
    RoundTrip(cs, s, d, rest);
  }

  /** Fields are written one behind the other in declaration order. */
  lemma {:induction false} FieldsInOrder(cs: Codecs, ss: seq<Shape>, ds: seq<Datum>, k: nat)
    requires |ss| == |ds| && k <= |ds|
    ensures EncodeAll(cs, ss, ds) == EncodeAll(cs, ss[..k], ds[..k]) + EncodeAll(cs, ss[k..], ds[k..])
    decreases k
  {
    if k == 0 {
      assert ss[0..] == ss && ds[0..] == ds;
    } else {
      FieldsInOrder(cs, ss[1..], ds[1..], k - 1);
      assert ss[..k][1..] == ss[1..][..k - 1] && ds[..k][1..] == ds[1..][..k - 1];
      assert ss[1..][k - 1..] == ss[k..] && ds[1..][k - 1..] == ds[k..];
    }
  }

  lemma {:induction false} OneField(cs: Codecs, s: Shape, d: Datum)
    ensures EncodeAll(cs, [s], [d]) == Encode(cs, s, d) && EncodeAll(cs, [], []) == []
  {
    assert [s][1..] == [] && Encode(cs, s, d) + [] == Encode(cs, s, d);
  }

  /** A variant is written as its number, cut to a byte, in front of its fields. */
  lemma {:induction false} TagInFront(cs: Codecs, variants: seq<Arm>, i: nat, fields: seq<Datum>)
    requires i < |variants|
    ensures
      var bytes := Encode(cs, Enum(variants), Variant(i, fields));
      bytes != [] && bytes[0] == i % 256 && bytes[1..] == Encode(cs, Struct(variants[i].fields), Record(fields))
  {
  }

  /** Each field codec reads only what it writes. */
  ghost predicate FieldsCanonical(cs: Codecs) {
    forall k, bytes :: cs.dec(k, bytes).Read? ==> bytes == cs.enc(k, cs.dec(k, bytes).value) + cs.dec(k, bytes).rest
  }

  /** What is read is a value of the shape, and reading it took exactly its encoding off the front. */
  lemma {:induction false} ReadIsWritten(cs: Codecs, s: Shape, bytes: seq<Byte>)
    requires FieldsCanonical(cs)
    ensures
      var r := Decode(cs, s, bytes);
      r.Read? ==> Fits(r.value, s) && Narrow(r.value) && bytes == Encode(cs, s, r.value) + r.rest
    decreases s
  {
    match s
    case Field(k) =>
    case Struct(shapes) => ReadAllIsWritten(cs, shapes, bytes);
    case Enum(variants) =>
      if bytes != [] && bytes[0] < |variants| {
        ReadAllIsWritten(cs, variants[bytes[0]].fields, bytes[1..]);
        VariantIsWritten(cs, variants, bytes);
      }
  }

  lemma {:induction false} VariantIsWritten(cs: Codecs, variants: seq<Arm>, bytes: seq<Byte>)
    requires bytes != [] && bytes[0] < |variants|
    requires
      var r := DecodeAll(cs, variants[bytes[0]].fields, bytes[1..]);
      r.Read? ==> bytes[1..] == EncodeAll(cs, variants[bytes[0]].fields, r.value) + r.rest
    ensures
      var r := Decode(cs, Enum(variants), bytes);
      r.Read? ==> bytes == Encode(cs, Enum(variants), r.value) + r.rest
  {
    var r := DecodeAll(cs, variants[bytes[0]].fields, bytes[1..]);
    if r.Read? {
      VariantBytes(cs, variants, bytes[0], r.value, []);
      assert bytes[0] % 256 == bytes[0];
      assert bytes == [bytes[0]] + bytes[1..];
    }
  }

  lemma {:induction false} ReadAllIsWritten(cs: Codecs, ss: seq<Shape>, bytes: seq<Byte>)
    requires FieldsCanonical(cs)
    ensures
      var r := DecodeAll(cs, ss, bytes);
      r.Read? ==> FitsAll(r.value, ss) && NarrowAll(r.value) && bytes == EncodeAll(cs, ss, r.value) + r.rest
    decreases ss
  {
    if ss != [] {
      ReadIsWritten(cs, ss[0], bytes);
      var first := Decode(cs, ss[0], bytes);
      if first.Read? {
        ReadAllIsWritten(cs, ss[1..], first.rest);
        var r := DecodeAll(cs, ss, bytes);
        if r.Read? { assert r.value[0] == first.value && r.value[1..] == DecodeAll(cs, ss[1..], first.rest).value; }
      }
    }
  }

  /** Decoding succeeds exactly on the bytes that begin with an encoding whose variant numbers fit a byte, and then
      gives that value and what is behind it. */
  lemma {:induction false} DecodeIff(cs: Codecs, s: Shape, bytes: seq<Byte>, d: Datum, rest: seq<Byte>)
    requires FieldsRoundTrip(cs) && FieldsCanonical(cs)
    ensures Decode(cs, s, bytes) == Read(d, rest) <==>
            Fits(d, s) && Narrow(d) && bytes == Encode(cs, s, d) + rest
  {
    ReadIsWritten(cs, s, bytes);
    if Fits(d, s) { RoundTrip(cs, s, d, rest); }
  }

  /** Nothing to read is an error; a variant number that no variant has ends in the arm that must not be reached. */
  lemma {:induction false} UnknownVariant(cs: Codecs, variants: seq<Arm>, bytes: seq<Byte>)
    ensures bytes == [] ==> Decode(cs, Enum(variants), bytes) == Failed
    ensures bytes != [] && bytes[0] >= |variants| ==> Decode(cs, Enum(variants), bytes) == Unreachable
  {
  }

  // ------------------------------------------------------------------ streams

  /** Encoding writes to a stream, field by field. */
  class Writer {
    var written: seq<Byte>

    constructor ()
      ensures written == []
    {
      written := [];
    }

    method WriteTag(i: nat)
      modifies this
      ensures written == old(written) + [i % 256]
    {
      written := written + [i % 256];
    }

    method Write(cs: Codecs, s: Shape, d: Datum)
      requires Fits(d, s)
      modifies this
      ensures written == old(written) + Encode(cs, s, d)
      decreases d
    {
      match (s, d) {
        case (Field(k), Leaf(v)) => written := written + cs.enc(k, v);
        case (Struct(shapes), Record(fields)) => WriteAll(cs, shapes, fields);
        case (Enum(variants), Variant(i, fields)) =>
          WriteTag(i);
          WriteAll(cs, variants[i].fields, fields);
          VariantBytes(cs, variants, i, fields, old(written));
      }
    }

    method WriteAll(cs: Codecs, ss: seq<Shape>, ds: seq<Datum>)
      requires FitsAll(ds, ss)
      modifies this
      ensures written == old(written) + EncodeAll(cs, ss, ds)
      decreases ds
    {
      if ds != [] {
        Write(cs, ss[0], ds[0]);
        WriteAll(cs, ss[1..], ds[1..]);
      }
    }
  }

  /** Decoding takes from the front of a stream, field by field. */
  class Reader {
    var left: seq<Byte>

    constructor (left: seq<Byte>)
      ensures this.left == left
    {
      this.left := left;
    }

    method ReadDatum(cs: Codecs, s: Shape) returns (r: Decoded<Datum>)
      modifies this
      ensures r == Decode(cs, s, old(left)) && (r.Read? ==> left == r.rest)
      decreases s
    {
      match s
      case Field(k) =>
        var v := cs.dec(k, left);
        match v {
          case Failed => r := Failed;
          case Unreachable => r := Unreachable;
          case Read(leaf, rest) =>
            left := rest;
            r := Read(Leaf(leaf), rest);
        }
      case Struct(shapes) =>
        var fields := ReadAll(cs, shapes);
        match fields {
          case Failed => r := Failed;
          case Unreachable => r := Unreachable;
          case Read(values, rest) => r := Read(Record(values), rest);
        }
      case Enum(variants) =>
        if left == [] { return Failed; }
        var tag := left[0];
        left := left[1..];
        if tag >= |variants| { return Unreachable; }
        var fields := ReadAll(cs, variants[tag].fields);
        match fields {
          case Failed => r := Failed;
          case Unreachable => r := Unreachable;
          case Read(values, rest) => r := Read(Variant(tag, values), rest);
        }
    }

    method ReadAll(cs: Codecs, ss: seq<Shape>) returns (r: Decoded<seq<Datum>>)
      modifies this
      ensures r == DecodeAll(cs, ss, old(left)) && (r.Read? ==> left == r.rest)
      decreases ss
    {
      if ss == [] { return Read([], left); }
      var first := ReadDatum(cs, ss[0]);
      if first.Failed? { return Failed; }
      if first.Unreachable? { return Unreachable; }
      var others := ReadAll(cs, ss[1..]);
      if others.Failed? { return Failed; }
      if others.Unreachable? { return Unreachable; }
      r := Read([first.value] + others.value, left);
    }
  }

  /** Writing a value and reading it back, through the streams. */
  method WriteThenRead(cs: Codecs, s: Shape, d: Datum, rest: seq<Byte>) returns (r: Decoded<Datum>)
    requires FieldsRoundTrip(cs) && Fits(d, s)
    ensures r == Read(d, rest) <==> Narrow(d)
  {
    var w := new Writer();
    w.Write(cs, s, d);
    assert w.written == Encode(cs, s, d);
    var reader := new Reader(w.written + rest);
    r := reader.ReadDatum(cs, s);
    RoundTrip(cs, s, d, rest);
  }
}
