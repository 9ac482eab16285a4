/**
  The key-pair container (encodeBuffer / decodeBuffer): the magic "key", a tag byte, a curve
  id byte for the elliptic-curve types, then each field of the schema as a two-byte
  big-endian length followed by the field's text. A C++ std::string is a Dafny string whose
  chars stand for bytes; arithmetic on a byte read back goes through Octet.
 */
module BinaryCodec {
  import opened Wrappers
  import opened Errors
  import opened KeyPairs
  import CurveRegistry

  const MAGIC: string := "key"

  /** The longest field whose length survives the two-byte prefix. */
  const MAX_FIELD_LENGTH: nat := 0xFFFF

  /** The byte value a char stands for: the unsigned char conversion sbumpc applies. */
  function Octet(c: char): nat {
    (c as int) % 0x100
  }

  /** The char that holds byte value b: a (char) cast of a value in 0..255. */
  function Byte(b: nat): (c: char)
    requires b < 0x100
    ensures Octet(c) == b
  {
    b as char
  }

  /** Whether every char of s stands for a byte, as every char of a C++ string does. */
  predicate IsByteString(s: string) {
    forall i :: 0 <= i < |s| ==> s[i] as int < 0x100
  }

  // ---------------------------------------------------------------------------------------
  // Encoding

  /** One field as encodeBuffer writes it: (char)(len >> 8), (char)len, then the text.
      Both casts keep the low eight bits, so a length above 0xFFFF keeps its low 16 bits. */
  function Frame(v: string): (r: string)
    ensures |r| == 2 + |v| && r[2..] == v
    ensures Octet(r[0]) * 0x100 + Octet(r[1]) == |v| % 0x10000
  {
    LengthBytes(|v|);
    [Byte((|v| / 0x100) % 0x100), Byte(|v| % 0x100)] + v
  }

  /** The high and low bytes of a length give back its low 16 bits. */
  lemma LengthBytes(n: nat)
    ensures ((n / 0x100) % 0x100) * 0x100 + n % 0x100 == n % 0x10000
  {
    var q, m := n / 0x10000, n % 0x10000;
    assert n == (q * 0x100) * 0x100 + m;
    assert n / 0x100 == q * 0x100 + m / 0x100;
    assert (n / 0x100) % 0x100 == m / 0x100;
    assert n % 0x100 == m % 0x100;
  }

  /** The frames of the named fields, in order. */
  function Frames(kp: KeyPair, names: seq<string>): (r: string)
    requires forall n :: n in names ==> n in kp
    ensures |r| == FramedLength(kp, names)
  {
    if names == [] then "" else Frame(kp[names[0]]) + Frames(kp, names[1..])
  }

  /** Whether encodeBuffer returns rather than throws: the type is one of the five, every field
      it checks is present, and an elliptic-curve record names a registered curve. */
  predicate Encodable(kp: KeyPair) {
    && "keyType" in kp
    && ParseKeyType(kp["keyType"]).Some?
    && (forall f :: f in Required(ParseKeyType(kp["keyType"]).value) ==> f in kp)
    && (HasCurve(ParseKeyType(kp["keyType"]).value) ==> kp["curveName"] in CurveRegistry.CURVE_NAMES)
  }

  /** encodeBuffer (keyring.cc:666-770) as a function of the record. */
  function Encode(kp: KeyPair): (r: Result<string, Error>)
    ensures r.Success? <==> Encodable(kp)
  {
    if "keyType" !in kp then Failure(MissingKeyType)
    else match ParseKeyType(kp["keyType"])
      case None => Failure(UnknownKeyType)
      case Some(t) =>
        match FirstMissing(kp, Required(t))
        case Some(i) => Failure(MissingField(Required(t)[i]))
        case None =>
          if HasCurve(t) then
            var id :- CurveRegistry.CurveId(kp["curveName"]);
            Success(MAGIC + [Byte(Tag(t)), Byte(id)] + Frames(kp, Fields(t)))
          else
            Success(MAGIC + [Byte(Tag(t))] + Frames(kp, Fields(t)))
  }

  /** Which exception encodeBuffer throws: a missing or unknown "keyType", then the first
      missing field in the order the checks run, then an unregistered curve name. */
  lemma EncodeErrors(kp: KeyPair)
    ensures "keyType" !in kp ==> Encode(kp) == Failure(MissingKeyType)
    ensures "keyType" in kp && ParseKeyType(kp["keyType"]).None? ==> Encode(kp) == Failure(UnknownKeyType)
    ensures "keyType" in kp && ParseKeyType(kp["keyType"]).Some? ==>
      var t := ParseKeyType(kp["keyType"]).value;
      var missing := FirstMissing(kp, Required(t));
      && (missing.Some? ==> Encode(kp) == Failure(MissingField(Required(t)[missing.value])))
      && (missing.None? && HasCurve(t) && kp["curveName"] !in CurveRegistry.CURVE_NAMES ==>
            Encode(kp) == Failure(UnknownCurve))
  {
  }

  /** The presence check of encodeBuffer: the index of the first name missing from kp. */
  method FindMissing(kp: KeyPair, names: seq<string>) returns (r: Option<nat>)
    ensures r == FirstMissing(kp, names)
  {
    for i := 0 to |names|
      invariant forall j :: 0 <= j < i ==> names[j] in kp
    {
      if names[i] !in kp {
        return Some(i);
      }
    }
    return None;
  }

  /** Appends each named field to buffer: two length bytes, then the text. */
  method AppendFrames(buffer: string, kp: KeyPair, names: seq<string>) returns (out: string)
    requires forall n :: n in names ==> n in kp
    ensures out == buffer + Frames(kp, names)
  {
    out := buffer;
    for i := 0 to |names|
      invariant out + Frames(kp, names[i..]) == buffer + Frames(kp, names)
    {
      var value := kp[names[i]];
      out := out + [Byte((|value| / 0x100) % 0x100)];
      out := out + [Byte(|value| % 0x100)];
      out := out + value;
    }
  }

  /** encodeBuffer: checks the record, then writes the header and the fields to the buffer. */
  method EncodeBuffer(kp: KeyPair) returns (r: Result<string, Error>)
    ensures r == Encode(kp)
  {
    if "keyType" !in kp {
      EncodeErrors(kp);
      return Failure(MissingKeyType);
    }
    var buffer := MAGIC;
    var keyType := ParseKeyType(kp["keyType"]);
    if keyType.None? {
      EncodeErrors(kp);
      return Failure(UnknownKeyType);
    }
    var t := keyType.value;
    var required := Required(t);
    var missing := FindMissing(kp, required);
    if missing.Some? {
      EncodeErrors(kp);
      return Failure(MissingField(required[missing.value]));
    }
    buffer := buffer + [Byte(Tag(t))];
    if HasCurve(t) {
      assert required[0] == "curveName";
      var id := CurveRegistry.CurveId(kp["curveName"]);
      if id.Failure? {
        EncodeErrors(kp);
        return Failure(id.error);
      }
      assert MAGIC + [Byte(Tag(t))] + [Byte(id.value)] == MAGIC + [Byte(Tag(t)), Byte(id.value)];
      buffer := buffer + [Byte(id.value)];
    }
    assert WellFormed(kp, t);
    EncodedForm(kp, t);
    buffer := AppendFrames(buffer, kp, Fields(t));
    return Success(buffer);
  }

  // ---------------------------------------------------------------------------------------
  // Decoding

  /** One length-prefixed field at pos: its text and the position after it. A field that runs
      past the end of the buffer is TruncatedInput (keyring.cc reads past it, see
      FieldAtAsWritten). */
  function FieldAt(buf: string, pos: nat): (r: Result<(string, nat), Error>)
    ensures r.Success? ==> pos + 2 <= r.value.1 <= |buf|
    ensures r.Success? ==>
      && r.value.0 == buf[pos + 2 .. r.value.1]
      && |r.value.0| == Octet(buf[pos]) * 0x100 + Octet(buf[pos + 1])
    ensures r.Failure? ==>
      && r.error == TruncatedInput
      && (|buf| < pos + 2 || |buf| < pos + 2 + Octet(buf[pos]) * 0x100 + Octet(buf[pos + 1]))
  {
    if |buf| < pos + 2 then Failure(TruncatedInput)
    else
      var length := Octet(buf[pos]) * 0x100 + Octet(buf[pos + 1]);
      if |buf| < pos + 2 + length then Failure(TruncatedInput)
      else Success((buf[pos + 2 .. pos + 2 + length], pos + 2 + length))
  }

  /** Reads the named fields in order from pos, adding each to acc. */
  function ReadFields(buf: string, pos: nat, names: seq<string>, acc: KeyPair): (r: Result<(KeyPair, nat), Error>)
    ensures names == [] ==> r == Success((acc, pos))
    ensures names != [] && r.Success? ==> pos + 2 <= r.value.1 <= |buf|
    ensures r.Failure? ==> r.error == TruncatedInput
    decreases |names|
  {
    if names == [] then Success((acc, pos))
    else
      var field :- FieldAt(buf, pos);
      ReadFields(buf, field.1, names[1..], acc[names[0] := field.0])
  }

  /** A successful read adds exactly the named keys to acc and keeps acc's other entries. */
  lemma {:induction false} ReadFieldsKeys(buf: string, pos: nat, names: seq<string>, acc: KeyPair)
    requires ReadFields(buf, pos, names, acc).Success?
    ensures forall k :: k in ReadFields(buf, pos, names, acc).value.0 <==> k in acc || k in names
    ensures forall k :: k in acc && k !in names ==> ReadFields(buf, pos, names, acc).value.0[k] == acc[k]
    decreases |names|
  {
    if names != [] {
      var field := FieldAt(buf, pos).value;
      ReadFieldsKeys(buf, field.1, names[1..], acc[names[0] := field.0]);
    }
  }

  /** decodeBuffer (keyring.cc:544-664) as a function of the buffer. */
  function Decode(buf: string): (r: Result<KeyPair, Error>)
    ensures |buf| < 3 || buf[..3] != MAGIC ==> r == Failure(InvalidContainer)
    ensures |buf| >= 3 && buf[..3] == MAGIC && (|buf| == 3 || TagType(Octet(buf[3])).None?) ==>
      r == Failure(UnknownKeyType)
    ensures (&& |buf| >= 4 && buf[..3] == MAGIC
             && TagType(Octet(buf[3])).Some? && HasCurve(TagType(Octet(buf[3])).value)
             && (|buf| == 4 || !CurveRegistry.IsCurveId(Octet(buf[4])))) ==>
      r == Failure(UnknownCurveId)
    ensures r.Failure? ==> r.error in {InvalidContainer, UnknownKeyType, UnknownCurveId, TruncatedInput}
  {
    if |buf| < 3 || buf[..3] != MAGIC then Failure(InvalidContainer)
    else if |buf| == 3 then Failure(UnknownKeyType)
    else match TagType(Octet(buf[3]))
      case None => Failure(UnknownKeyType)
      case Some(t) =>
        if HasCurve(t) then
          if |buf| == 4 then Failure(UnknownCurveId)
          else
            var name :- CurveRegistry.CurveName(Octet(buf[4]));
            var read :- ReadFields(buf, 5, Fields(t), map["keyType" := TypeName(t), "curveName" := name]);
            Success(read.0)
        else
          var read :- ReadFields(buf, 4, Fields(t), map["keyType" := TypeName(t)]);
          Success(read.0)
  }

  /** Reads one field: two length bytes, then a per-byte loop that grows the field text. */
  method ReadField(buf: string, pos: nat) returns (r: Result<(string, nat), Error>)
    ensures r == FieldAt(buf, pos)
  {
    if |buf| < pos + 2 {
      return Failure(TruncatedInput);
    }
    var length := Octet(buf[pos]) * 0x100 + Octet(buf[pos + 1]);
    if |buf| < pos + 2 + length {
      return Failure(TruncatedInput);
    }
    var field := "";
    var cursor := pos + 2;
    for i := 0 to length
      invariant cursor == pos + 2 + i
      invariant field == buf[pos + 2 .. cursor]
    {
      field := field + [buf[cursor]];
      cursor := cursor + 1;
    }
    return Success((field, cursor));
  }

  /** decodeBuffer: advances a cursor over the buffer and builds the record field by field. */
  method DecodeBuffer(buf: string) returns (r: Result<KeyPair, Error>)
    ensures r == Decode(buf)
  {
    if |buf| < 3 || buf[..3] != MAGIC {
      return Failure(InvalidContainer);
    }
    if |buf| == 3 {
      return Failure(UnknownKeyType);
    }
    var keyType := TagType(Octet(buf[3]));
    if keyType.None? {
      return Failure(UnknownKeyType);
    }
    var t := keyType.value;
    var keyPair := map["keyType" := TypeName(t)];
    var cursor := 4;
    if HasCurve(t) {
      if |buf| == 4 {
        return Failure(UnknownCurveId);
      }
      var name := CurveRegistry.CurveName(Octet(buf[4]));
      if name.Failure? {
        return Failure(name.error);
      }
      keyPair := keyPair["curveName" := name.value];
      cursor := 5;
    }
    var read := ReadFieldsInto(buf, cursor, Fields(t), keyPair);
    if read.Failure? {
      return Failure(read.error);
    }
    return Success(read.value.0);
  }

  /** The field reads of decodeBuffer: each named field in turn, advancing the cursor. */
  method ReadFieldsInto(buf: string, pos: nat, names: seq<string>, acc: KeyPair)
    returns (r: Result<(KeyPair, nat), Error>)
    ensures r == ReadFields(buf, pos, names, acc)
  {
    var keyPair, cursor := acc, pos;
    for i := 0 to |names|
      invariant ReadFields(buf, cursor, names[i..], keyPair) == ReadFields(buf, pos, names, acc)
    {
      var field := ReadField(buf, cursor);
      if field.Failure? {
        return Failure(field.error);
      }
      assert names[i..][1..] == names[i + 1..];
      keyPair := keyPair[names[i] := field.value.0];
      cursor := field.value.1;
    }
    return Success((keyPair, cursor));
  }

  // ---------------------------------------------------------------------------------------
  // Properties

  /** A frame of a field no longer than 0xFFFF reads back as that field, whatever precedes
      or follows it. */
  lemma FrameReads(pre: string, v: string, rest: string)
    requires |v| <= MAX_FIELD_LENGTH
    ensures FieldAt(pre + Frame(v) + rest, |pre|) == Success((v, |pre| + 2 + |v|))
  {
    var buf := pre + Frame(v) + rest;
    var n := |v|;
    assert n / 0x100 < 0x100;
    assert (n / 0x100) % 0x100 == n / 0x100;
    assert buf[|pre|] == Byte(n / 0x100) && buf[|pre| + 1] == Byte(n % 0x100);
    assert (n / 0x100) * 0x100 + n % 0x100 == n;
    assert buf[|pre| + 2 .. |pre| + 2 + n] == v;
  }

  /** Reading the fields of type t into a record holding the header keys gives a record with
      exactly the keys of t's schema, the header entries unchanged. */
  lemma ReadSchema(buf: string, pos: nat, t: KeyType, acc: KeyPair)
    requires ReadFields(buf, pos, Fields(t), acc).Success?
    requires forall k :: k in acc <==> k == "keyType" || (HasCurve(t) && k == "curveName")
    ensures ReadFields(buf, pos, Fields(t), acc).value.0.Keys == SchemaKeys(t)
    ensures var r := ReadFields(buf, pos, Fields(t), acc).value.0;
      && "keyType" in acc && "keyType" in r && r["keyType"] == acc["keyType"]
      && (HasCurve(t) ==> "curveName" in acc && "curveName" in r && r["curveName"] == acc["curveName"])
  {
    var r := ReadFields(buf, pos, Fields(t), acc).value.0;
    ReadFieldsKeys(buf, pos, Fields(t), acc);
    HeaderKeysAndFields(t, acc, r);
    HeaderNotField(t);
  }

  /** The header keys together with the fields of t are the keys of t's schema. */
  lemma HeaderKeysAndFields(t: KeyType, acc: KeyPair, r: KeyPair)
    requires forall k :: k in acc <==> k == "keyType" || (HasCurve(t) && k == "curveName")
    requires forall k :: k in r <==> k in acc || k in Fields(t)
    ensures r.Keys == SchemaKeys(t)
  {
    HeaderNotField(t);
    assert forall k :: k in Required(t) <==> (HasCurve(t) && k == "curveName") || k in Fields(t);
    assert forall k :: k in r <==> k in SchemaKeys(t);
  }

  /** A decoded record carries exactly the keys of the schema its tag selects, its
      "keyType" names that type, and its curve is a registered one. */
  lemma DecodedSchema(buf: string)
    requires Decode(buf).Success?
    ensures |buf| >= 4 && TagType(Octet(buf[3])).Some?
    ensures var t := TagType(Octet(buf[3])).value;
      && Decode(buf).value.Keys == SchemaKeys(t)
      && "keyType" in Decode(buf).value && Decode(buf).value["keyType"] == TypeName(t)
      && (HasCurve(t) ==>
            && |buf| >= 5 && CurveRegistry.CurveName(Octet(buf[4])).Success?
            && "curveName" in Decode(buf).value
            && Decode(buf).value["curveName"] == CurveRegistry.CurveName(Octet(buf[4])).value
            && Decode(buf).value["curveName"] in CurveRegistry.CURVE_NAMES)
  {
    var t := TagType(Octet(buf[3])).value;
    if HasCurve(t) {
      var name := CurveRegistry.CurveName(Octet(buf[4])).value;
      var acc := map["keyType" := TypeName(t), "curveName" := name];
      assert Decode(buf) == Success(ReadFields(buf, 5, Fields(t), acc).value.0);
      ReadSchema(buf, 5, t, acc);
      assert "keyType" in acc && "curveName" in acc;
    } else {
      var acc := map["keyType" := TypeName(t)];
      assert Decode(buf) == Success(ReadFields(buf, 4, Fields(t), acc).value.0);
      ReadSchema(buf, 4, t, acc);
      assert "keyType" in acc;
    }
  }

  /** A field of 0x10000 chars is framed with length 0: the prefix wraps around. */
  lemma FrameWraps(v: string)
    requires |v| == 0x10000
    ensures FieldAt(Frame(v), 0) == Success(("", 2))
  {
    var buf := Frame(v);
    assert (|v| / 0x100) % 0x100 == 0 && |v| % 0x100 == 0;
    assert Octet(buf[0]) * 0x100 + Octet(buf[1]) == 0;
    assert buf[2..2] == "";
  }

  /** acc with the named fields of kp written into it one after the other. */
  function Stored(acc: KeyPair, kp: KeyPair, names: seq<string>): KeyPair
    requires forall n :: n in names ==> n in kp
    decreases |names|
  {
    if names == [] then acc else Stored(acc[names[0] := kp[names[0]]], kp, names[1..])
  }

  /** Storing the named fields of kp gives kp's value for those names and acc's for the rest. */
  lemma {:induction false} StoredContents(acc: KeyPair, kp: KeyPair, names: seq<string>)
    requires forall n :: n in names ==> n in kp
    ensures forall k :: k in Stored(acc, kp, names) <==> k in acc || k in names
    ensures forall k :: k in names ==> Stored(acc, kp, names)[k] == kp[k]
    ensures forall k :: k in acc && k !in names ==> Stored(acc, kp, names)[k] == acc[k]
    decreases names
  {
    if names != [] {
      StoredContents(acc[names[0] := kp[names[0]]], kp, names[1..]);
    }
  }

  /** Regrouping a concatenation, kept out of the proofs that use it so their contexts stay
      small. */
  lemma Assoc(a: string, b: string, c: string)
    ensures a + b + c == a + (b + c)
  {
  }

  /** Reading one frame moves the read past it and stores its text under the first name. */
  lemma ReadStep(pre: string, v: string, tail: string, frames: string, rest: string, names: seq<string>, acc: KeyPair)
    requires names != [] && |v| <= MAX_FIELD_LENGTH && frames == Frame(v) + tail
    ensures ReadFields(pre + frames + rest, |pre|, names, acc)
         == ReadFields(pre + Frame(v) + tail + rest, |pre + Frame(v)|, names[1..], acc[names[0] := v])
    ensures |pre| + |frames| == |pre + Frame(v)| + |tail|
  {
    assert pre + frames + rest == pre + Frame(v) + (tail + rest) == pre + Frame(v) + tail + rest;
    FrameReads(pre, v, tail + rest);
  }

  /** The frames of a list of fields read back as those fields. */
  lemma {:induction false} ReadFrames(pre: string, kp: KeyPair, names: seq<string>, acc: KeyPair, rest: string)
    requires forall n :: n in names ==> n in kp && |kp[n]| <= MAX_FIELD_LENGTH
    ensures ReadFields(pre + Frames(kp, names) + rest, |pre|, names, acc)
         == Success((Stored(acc, kp, names), |pre| + |Frames(kp, names)|))
    decreases names
  {
    if names != [] {
      var v := kp[names[0]];
      var tail := Frames(kp, names[1..]);
      ReadStep(pre, v, tail, Frames(kp, names), rest, names, acc);
      ReadFrames(pre + Frame(v), kp, names[1..], acc[names[0] := v], rest);
      assert Stored(acc, kp, names) == Stored(acc[names[0] := v], kp, names[1..]);
      assert ReadFields(pre + Frames(kp, names) + rest, |pre|, names, acc) == Success((Stored(acc, kp, names), |pre| + |Frames(kp, names)|));
    } else {
      assert pre + Frames(kp, names) + rest == pre + rest;
      assert ReadFields(pre + Frames(kp, names) + rest, |pre|, names, acc) == Success((Stored(acc, kp, names), |pre| + |Frames(kp, names)|));
    }
  }

  /** A record of type t that carries every field encodeBuffer checks: its "keyType" names t
      and every required field is present. */
  predicate HasSchema(kp: KeyPair, t: KeyType) {
    && "keyType" in kp && kp["keyType"] == TypeName(t)
    && (forall f :: f in Required(t) ==> f in kp)
  }

  /** A record of type t that encodeBuffer accepts: it has t's schema and its curve, if it has
      one, is registered. */
  predicate WellFormed(kp: KeyPair, t: KeyType) {
    && HasSchema(kp, t)
    && (HasCurve(t) ==> kp["curveName"] in CurveRegistry.CURVE_NAMES)
  }

  /** The header encodeBuffer writes for a record of type t: the magic, the tag and, for the
      elliptic-curve types, the curve id. */
  function Header(kp: KeyPair, t: KeyType): string
    requires HasCurve(t) ==> "curveName" in kp && kp["curveName"] in CurveRegistry.CURVE_NAMES
  {
    if HasCurve(t) then MAGIC + [Byte(Tag(t)), Byte(CurveRegistry.CurveId(kp["curveName"]).value)]
    else MAGIC + [Byte(Tag(t))]
  }

  /** The header starts with the magic and reads back as the tag of t and, for the
      elliptic-curve types, as the curve of the record. */
  lemma HeaderReads(kp: KeyPair, t: KeyType, rest: string)
    requires WellFormed(kp, t)
    ensures |Header(kp, t)| == if HasCurve(t) then 5 else 4
    ensures var buf := Header(kp, t) + rest;
      && buf[..3] == MAGIC && TagType(Octet(buf[3])) == Some(t)
      && (HasCurve(t) ==> CurveRegistry.CurveName(Octet(buf[4])) == Success(kp["curveName"]))
  {
    var buf := Header(kp, t) + rest;
    TypeCodesRoundTrip(t);
    if HasCurve(t) {
      var id := CurveRegistry.CurveId(kp["curveName"]).value;
      CurveRegistry.NameIdRoundTrip(kp["curveName"]);
      HeaderBytes(Tag(t), Some(id), rest);
    } else {
      HeaderBytes(Tag(t), None, rest);
    }
  }

  /** The bytes of a header with the given tag and, if id is not -1, the given curve id. */
  lemma HeaderBytes(tag: nat, id: Option<nat>, rest: string)
    requires tag < 0x100 && (id.Some? ==> id.value < 0x100)
    ensures var header := if id.None? then MAGIC + [Byte(tag)] else MAGIC + [Byte(tag), Byte(id.value)];
      && |header| == (if id.None? then 4 else 5)
      && (header + rest)[..3] == MAGIC
      && Octet((header + rest)[3]) == tag
      && (id.Some? ==> Octet((header + rest)[4]) == id.value)
  {
  }

  /** Encode succeeds exactly on the records well formed for the type their "keyType" names,
      and then produces the header followed by the frames of the fields. */
  lemma EncodedForm(kp: KeyPair, t: KeyType)
    requires "keyType" in kp && kp["keyType"] == TypeName(t)
    ensures Encodable(kp) <==> WellFormed(kp, t)
    ensures WellFormed(kp, t) ==>
      && (forall f :: f in Fields(t) ==> f in kp)
      && Encode(kp) == Success(Header(kp, t) + Frames(kp, Fields(t)))
  {
    TypeCodesRoundTrip(t);
    assert forall f :: f in Fields(t) ==> f in Required(t);
  }

  /** Storing the fields of t over the header entries of kp gives kp restricted to t's schema. */
  lemma StoredSchema(kp: KeyPair, t: KeyType, curve: string)
    requires HasSchema(kp, t) && (HasCurve(t) ==> "curveName" in kp && curve == kp["curveName"])
    ensures forall f :: f in Fields(t) ==> f in kp
    ensures SchemaKeys(t) <= kp.Keys
    ensures Stored(HeaderRecord(t, curve), kp, Fields(t)) == Schema(kp, t)
  {
    var acc := HeaderRecord(t, curve);
    var r := Stored(acc, kp, Fields(t));
    assert (forall k :: k in r <==> k in SchemaKeys(t)) && (forall k :: k in r ==> r[k] == kp[k]) by {
      assert forall k :: k in Required(t) <==> (HasCurve(t) && k == "curveName") || k in Fields(t);
      StoredContents(acc, kp, Fields(t));
    }
    IsSchema(r, kp, t);
  }

  /** The record decodeBuffer builds before reading the fields: the type name and, for the
      elliptic-curve types, the curve name. */
  function HeaderRecord(t: KeyType, curve: string): KeyPair {
    if HasCurve(t) then map["keyType" := TypeName(t), "curveName" := curve]
    else map["keyType" := TypeName(t)]
  }

  /** Decode on a buffer whose header is valid is the read of its fields. */
  lemma DecodeFields(buf: string, t: KeyType, curve: string)
    requires |buf| >= 4 && buf[..3] == MAGIC && TagType(Octet(buf[3])) == Some(t)
    requires HasCurve(t) ==> |buf| >= 5 && CurveRegistry.CurveName(Octet(buf[4])) == Success(curve)
    ensures Decode(buf) == match ReadFields(buf, if HasCurve(t) then 5 else 4, Fields(t), HeaderRecord(t, curve))
      case Success(read) => Success(read.0)
      case Failure(e) => Failure(e)
  {
  }

  /** Decoding the header and frames of a well-formed record, whatever follows them, gives back
      the record restricted to its schema, provided every field fits the two-byte length. */
  lemma DecodeFramed(kp: KeyPair, t: KeyType, rest: string)
    requires WellFormed(kp, t)
    requires forall f :: f in Fields(t) ==> |kp[f]| <= MAX_FIELD_LENGTH
    ensures Decode(Header(kp, t) + Frames(kp, Fields(t)) + rest) == Success(Schema(kp, t))
  {
    var pre := Header(kp, t);
    var curve := if HasCurve(t) then kp["curveName"] else "";
    ReadSchemaFrames(pre, kp, t, curve, rest);
    var frames := Frames(kp, Fields(t));
    var buf := pre + frames + rest;
    assert |pre| == (if HasCurve(t) then 5 else 4) && |buf| >= |pre| && buf[..3] == MAGIC && TagType(Octet(buf[3])) == Some(t)
      && (HasCurve(t) ==> CurveRegistry.CurveName(Octet(buf[4])) == Success(curve)) by {
      HeaderReads(kp, t, frames + rest);
      Assoc(pre, frames, rest);
    }
    DecodeFields(buf, t, curve);
  }

  /** The frames of a record that has t's schema, after a header of any length, read back as
      the record restricted to the schema. */
  lemma ReadSchemaFrames(pre: string, kp: KeyPair, t: KeyType, curve: string, rest: string)
    requires HasSchema(kp, t) && (HasCurve(t) ==> "curveName" in kp && curve == kp["curveName"])
    requires forall f :: f in Fields(t) ==> f in kp && |kp[f]| <= MAX_FIELD_LENGTH
    ensures SchemaKeys(t) <= kp.Keys
    ensures ReadFields(pre + Frames(kp, Fields(t)) + rest, |pre|, Fields(t), HeaderRecord(t, curve))
         == Success((Schema(kp, t), |pre| + |Frames(kp, Fields(t))|))
  {
    ReadFrames(pre, kp, Fields(t), HeaderRecord(t, curve), rest);
    StoredSchema(kp, t, curve);
  }

  /** Decoding an encoded record gives back the record restricted to its schema; bytes after
      the container are ignored. Needs every field to fit the two-byte length. */
  lemma RoundTrip(kp: KeyPair, t: KeyType, rest: string)
    requires Encodable(kp) && kp["keyType"] == TypeName(t)
    requires forall f :: f in Fields(t) ==> |kp[f]| <= MAX_FIELD_LENGTH
    ensures Decode(Encode(kp).value + rest) == Success(Schema(kp, t))
  {
    EncodedForm(kp, t);
    DecodeFramed(kp, t, rest);
  }

  /** The total length of the frames of the named fields: two length bytes plus the text each. */
  function FramedLength(kp: KeyPair, names: seq<string>): nat
    requires forall n :: n in names ==> n in kp
  {
    if names == [] then 0 else 2 + |kp[names[0]]| + FramedLength(kp, names[1..])
  }

  /** The container layout: "key", the tag of the type, the curve id for the elliptic-curve
      types; the whole is 4 bytes (5 with a curve) plus two bytes and the text per field. */
  lemma EncodeLayout(kp: KeyPair, t: KeyType)
    requires WellFormed(kp, t)
    ensures Encode(kp).Success?
    ensures var r := Encode(kp).value;
      && |r| == (if HasCurve(t) then 5 else 4) + FramedLength(kp, Fields(t))
      && r[..3] == MAGIC
      && Octet(r[3]) == Tag(t)
      && (HasCurve(t) ==> Octet(r[4]) == CurveRegistry.CurveId(kp["curveName"]).value)
  {
    var frames := Frames(kp, Fields(t));
    var id := if HasCurve(t) then Some(CurveRegistry.CurveId(kp["curveName"]).value) else None;
    var header := if id.None? then MAGIC + [Byte(Tag(t))] else MAGIC + [Byte(Tag(t)), Byte(id.value)];
    assert Encode(kp).value == header + frames by {
      EncodedForm(kp, t);
    }
    assert |frames| == FramedLength(kp, Fields(t)) by {
      EncodedForm(kp, t);
    }
    HeaderBytes(Tag(t), id, frames);
  }

  /** sbumpc: the byte at pos, or EOF (-1) at and past the end of the buffer. */
  function Bump(buf: string, pos: nat): int {
    if pos < |buf| then Octet(buf[pos]) else -1
  }

  /** The field read of keyring.cc:559-562 as written: the length is
      ((int) sbumpc() << 8) + (int) sbumpc() stored in an unsigned short, then that many
      (char) sbumpc() are appended; there is no end-of-buffer check, so EOF reads as 0xFF. */
  function FieldAtAsWritten(buf: string, pos: nat): (r: (string, nat))
    ensures |r.0| <= MAX_FIELD_LENGTH && r.1 == pos + 2 + |r.0|
    ensures pos + 2 <= |buf| ==> |r.0| == Octet(buf[pos]) * 0x100 + Octet(buf[pos + 1])
    ensures pos + 1 == |buf| && Octet(buf[pos]) > 0 ==> |r.0| == Octet(buf[pos]) * 0x100 - 1
    ensures pos + 1 == |buf| && Octet(buf[pos]) == 0 ==> |r.0| == 0xFFFF
    ensures |buf| <= pos ==> |r.0| == 0xFEFF
    ensures forall i :: 0 <= i < |r.0| && |buf| <= pos + 2 + i ==> r.0[i] == 0xFF as char
    ensures IsByteString(buf) ==>
      forall i :: 0 <= i < |r.0| && pos + 2 + i < |buf| ==> r.0[i] == buf[pos + 2 + i]
  {
    var length := (Bump(buf, pos) * 0x100 + Bump(buf, pos + 1)) % 0x10000;
    var v := seq(length, i requires 0 <= i < length => Byte(Bump(buf, pos + 2 + i) % 0x100));
    assert forall i :: 0 <= i < length && |buf| <= pos + 2 + i ==> v[i] == 0xFF as char by {
      forall i | 0 <= i < length && |buf| <= pos + 2 + i
        ensures v[i] == 0xFF as char
      {
        assert v[i] == Byte(Bump(buf, pos + 2 + i) % 0x100);
        assert Bump(buf, pos + 2 + i) == -1;
      }
    }
    assert IsByteString(buf) ==>
      forall i :: 0 <= i < length && pos + 2 + i < |buf| ==> v[i] == buf[pos + 2 + i] by {
      if IsByteString(buf) {
        forall i | 0 <= i < length && pos + 2 + i < |buf|
          ensures v[i] == buf[pos + 2 + i]
        {
          assert v[i] == Byte(Bump(buf, pos + 2 + i) % 0x100);
          assert Bump(buf, pos + 2 + i) == buf[pos + 2 + i] as int;
        }
      }
    }
    (v, pos + 2 + length)
  }

  /** The two readers agree wherever the corrected one succeeds. */
  lemma FieldAtAgrees(buf: string, pos: nat)
    requires IsByteString(buf)
    requires FieldAt(buf, pos).Success?
    ensures FieldAtAsWritten(buf, pos) == FieldAt(buf, pos).value
  {
    var length := Octet(buf[pos]) * 0x100 + Octet(buf[pos + 1]);
    assert Bump(buf, pos) == Octet(buf[pos]) && Bump(buf, pos + 1) == Octet(buf[pos + 1]);
    assert length < 0x10000;
    assert (Bump(buf, pos) * 0x100 + Bump(buf, pos + 1)) % 0x10000 == length;
    var v := FieldAtAsWritten(buf, pos).0;
    assert |v| == length;
    forall i | 0 <= i < length
      ensures v[i] == buf[pos + 2 + i]
    {
      var c := buf[pos + 2 + i];
      assert Bump(buf, pos + 2 + i) == c as int;
      assert v[i] == Byte(c as int);
    }
    assert v == buf[pos + 2 .. pos + 2 + length];
  }

  /** On a buffer that ends where a length is expected, the as-written read produces a field of
      0xFEFF bytes 0xFF instead of failing. */
  lemma TruncatedFieldIsPadded(buf: string)
    requires |buf| == 4
    ensures FieldAt(buf, 4) == Failure(TruncatedInput)
    ensures FieldAtAsWritten(buf, 4).0 == seq(0xFEFF, i => 0xFF as char)
  {
  }
}
