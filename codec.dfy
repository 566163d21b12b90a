/**
 * The legacy fixed frame layout of `Client::encode` / `Client::decode`:
 *
 *   [total_len:u32][head_len:u32][head bytes][body bytes][checksum:u32]?
 *
 * all in network byte order. `total_len` counts the whole frame, `head_len`
 * counts itself plus the head bytes; the checksum trailer is present only
 * when the client is configured with a checksum.
 */
module Codec {
  import opened Results
  import opened Bytes
  import opened MessageRegistry

  /** The type every received head is parsed as. */
  const HeadTypeName: string := "ISeer20CSProto.cs_msg_head_t"
  /** The head field that names the body's concrete type. */
  const TypeNameField: string := "msg_type_name"

  datatype EncodeError = HeadNotSerializable | BodyNotSerializable

  datatype DecodeError =
    | TooShort            // fewer bytes than the two length fields (and checksum)
    | TotalLenMismatch    // total_len differs from the byte count
    | HeadLenTooSmall     // head_len < 4
    | HeadLenTooLarge     // head_len leaves no room inside total_len
    | HeadUnparsable      // head bytes do not parse as the head type
    | NoTypeNameField     // the head type declares no `msg_type_name` field
    | UnknownBodyType     // the named body type cannot be created
    | BodyUnparsable      // body bytes do not parse as that type

  /** The checksum is a stub: it is zero whatever the input. */
  function CalcChecksum(buf: seq<Byte>, start: int, len: int): int {
    0
  }

  function ChecksumLen(hasChecksum: bool): int {
    if hasChecksum then 4 else 0
  }

  /** The shortest byte string `decode` looks into: both length fields, plus the checksum. */
  function MinFrameLen(hasChecksum: bool): int {
    8 + ChecksumLen(hasChecksum)
  }

  /** Total length of the frame built from serialized head and body of these sizes. */
  function FrameLen(hasChecksum: bool, headSize: int, bodySize: int): int {
    8 + headSize + bodySize + ChecksumLen(hasChecksum)
  }

  /** The bytes `encode` writes for an already serialized head and body. */
  function Frame(hasChecksum: bool, hb: seq<Byte>, bb: seq<Byte>): (pkg: seq<Byte>)
    ensures |pkg| == FrameLen(hasChecksum, |hb|, |bb|)
  {
    var totlen := FrameLen(hasChecksum, |hb|, |bb|);
    var unsummed := BeU32(WrapU32(totlen)) + BeU32(WrapU32(4 + |hb|)) + hb + bb;
    if hasChecksum then unsummed + BeU32(WrapU32(CalcChecksum(unsummed, 0, |unsummed|))) else unsummed
  }

  /** `Client::encode`: the frame for (head, body), or why it could not be built. */
  function Encode(reg: Registry, hasChecksum: bool, head: Message, body: Message): (r: Result<seq<Byte>, EncodeError>)
    ensures r.Success? <==> reg.serialize(head).Some? && reg.serialize(body).Some?
    ensures r.Success? ==>
      |r.value| == FrameLen(hasChecksum, |reg.serialize(head).value|, |reg.serialize(body).value|)
  {
    match (reg.serialize(head), reg.serialize(body))
    case (None, _) => Failure(HeadNotSerializable)
    case (Some(_), None) => Failure(BodyNotSerializable)
    case (Some(hb), Some(bb)) => Success(Frame(hasChecksum, hb, bb))
  }

  /** The framing checks `decode` makes before it parses anything. */
  predicate WellFramed(hasChecksum: bool, pkg: seq<Byte>) {
    && |pkg| >= MinFrameLen(hasChecksum)
    && ReadBeI32(pkg) == |pkg|
    && 4 <= ReadBeI32(pkg[4..]) <= |pkg| - 4 - ChecksumLen(hasChecksum)
  }

  /** `Client::decode`: the (head, body) pair carried by `pkg`, or the first check that failed. */
  function Decode(reg: Registry, hasChecksum: bool, pkg: seq<Byte>): (r: Result<(Message, Message), DecodeError>)
    requires HeadTypeName in reg.creatable
    ensures r.Success? ==> WellFramed(hasChecksum, pkg)
    ensures r.Success? ==>
      && r.value.0.typeName == HeadTypeName
      && HasField(reg, HeadTypeName, TypeNameField)
      && r.value.1.typeName == StringField(r.value.0, TypeNameField)
      && r.value.1.typeName in reg.creatable
  {
    if |pkg| < MinFrameLen(hasChecksum) then Failure(TooShort)
    else
      var tlen := ReadBeI32(pkg);
      var hlen := ReadBeI32(pkg[4..]);
      if tlen != |pkg| then Failure(TotalLenMismatch)
      else if hlen < 4 then Failure(HeadLenTooSmall)
      else if hlen > (if hasChecksum then tlen - 8 else tlen - 4) then Failure(HeadLenTooLarge)
      else
        match reg.parse(HeadTypeName, pkg[8..4 + hlen])
        case None => Failure(HeadUnparsable)
        case Some(headFields) =>
          var head := Message(HeadTypeName, headFields);
          if !HasField(reg, HeadTypeName, TypeNameField) then Failure(NoTypeNameField)
          else
            var typeName := StringField(head, TypeNameField);
            if typeName !in reg.creatable then Failure(UnknownBodyType)
            else
              match reg.parse(typeName, pkg[4 + hlen..tlen - ChecksumLen(hasChecksum)])
              case None => Failure(BodyUnparsable)
              case Some(bodyFields) => Success((head, Message(typeName, bodyFields)))
  }

  /** Where the parts of a five-part byte string lie when the first two take four bytes each. */
  lemma FivePartSlices(a: seq<Byte>, b: seq<Byte>, h: seq<Byte>, d: seq<Byte>, tr: seq<Byte>)
    requires |a| == 4 && |b| == 4
    ensures var s := a + b + h + d + tr;
            && s[4..] == b + (h + d + tr)
            && s[8..8 + |h|] == h
            && s[8 + |h|..8 + |h| + |d|] == d
            && s[8 + |h| + |d|..] == tr
  {
    var s := a + b + h + d + tr;
    assert s[4..] == b + (h + d + tr);
    assert s[8..] == h + d + tr;
    assert s[8..][..|h|] == h;
    assert s[8..][|h|..][..|d|] == d;
  }

  /** `Frame` is the two length fields, head, body and trailer, for lengths that fit in `int32_t`. */
  lemma FrameParts(hasChecksum: bool, hb: seq<Byte>, bb: seq<Byte>)
    requires FrameLen(hasChecksum, |hb|, |bb|) < TwoTo31
    ensures Frame(hasChecksum, hb, bb)
         == BeU32(FrameLen(hasChecksum, |hb|, |bb|)) + BeU32(4 + |hb|) + hb + bb
            + (if hasChecksum then BeU32(0) else [])
  {
    assert WrapU32(FrameLen(hasChecksum, |hb|, |bb|)) == FrameLen(hasChecksum, |hb|, |bb|);
    assert WrapU32(4 + |hb|) == 4 + |hb|;
    assert WrapU32(0) == 0;
  }

  /**
   * The layout `encode` produces, read back the way `decode` reads it:
   * `total_len` is the frame's length, `head_len` is 4 plus the head size, the
   * head and body bytes sit where `decode` slices them, and a checksum trailer
   * is four zero bytes.
   */
  lemma FrameLayout(hasChecksum: bool, hb: seq<Byte>, bb: seq<Byte>)
    requires FrameLen(hasChecksum, |hb|, |bb|) < TwoTo31
    ensures var pkg := Frame(hasChecksum, hb, bb);
            && ReadBeI32(pkg) == |pkg|
            && ReadBeI32(pkg[4..]) == 4 + |hb|
            && pkg[8..4 + (4 + |hb|)] == hb
            && pkg[4 + (4 + |hb|)..|pkg| - ChecksumLen(hasChecksum)] == bb
            && (hasChecksum ==> pkg[|pkg| - 4..] == [0, 0, 0, 0])
            && WellFramed(hasChecksum, pkg)
  {
    var pkg := Frame(hasChecksum, hb, bb);
    FrameLengths(hasChecksum, hb, bb);
    FrameSlices(hasChecksum, hb, bb);
    assert pkg[4 + (4 + |hb|)..|pkg| - ChecksumLen(hasChecksum)] == bb;
  }

  /** The two length fields of a frame, read back. */
  lemma FrameLengths(hasChecksum: bool, hb: seq<Byte>, bb: seq<Byte>)
    requires FrameLen(hasChecksum, |hb|, |bb|) < TwoTo31
    ensures var pkg := Frame(hasChecksum, hb, bb);
            ReadBeI32(pkg) == |pkg| && ReadBeI32(pkg[4..]) == 4 + |hb|
  {
    var totlen := FrameLen(hasChecksum, |hb|, |bb|);
    var trailer := if hasChecksum then BeU32(0) else [];
    FrameParts(hasChecksum, hb, bb);
    var a, b := BeU32(totlen), BeU32(4 + |hb|);
    assert a + b + hb + bb + trailer == a + b + (hb + bb + trailer);
    TwoLengthFields(totlen, 4 + |hb|, hb + bb + trailer);
  }

  /** Two big-endian length fields in front of any bytes read back as themselves. */
  lemma TwoLengthFields(x: int, y: int, rest: seq<Byte>)
    requires 0 <= x < TwoTo31 && 0 <= y < TwoTo31
    ensures ReadBeI32(BeU32(x) + BeU32(y) + rest) == x
    ensures ReadBeI32((BeU32(x) + BeU32(y) + rest)[4..]) == y
  {
    var a, b := BeU32(x), BeU32(y);
    assert a + b + rest == a + (b + rest);
    assert (a + b + rest)[4..] == b + rest;
    ReadBeI32OfBeU32(x, b + rest);
    ReadBeI32OfBeU32(y, rest);
  }

  /** Where the head, the body and the trailer of a frame lie. */
  lemma FrameSlices(hasChecksum: bool, hb: seq<Byte>, bb: seq<Byte>)
    requires FrameLen(hasChecksum, |hb|, |bb|) < TwoTo31
    ensures var pkg := Frame(hasChecksum, hb, bb);
            && |pkg| == 8 + |hb| + |bb| + ChecksumLen(hasChecksum)
            && pkg[8..8 + |hb|] == hb
            && pkg[8 + |hb|..8 + |hb| + |bb|] == bb
            && (hasChecksum ==> pkg[|pkg| - 4..] == [0, 0, 0, 0])
  {
    var totlen := FrameLen(hasChecksum, |hb|, |bb|);
    var trailer := if hasChecksum then BeU32(0) else [];
    FrameParts(hasChecksum, hb, bb);
    FivePartSlices(BeU32(totlen), BeU32(4 + |hb|), hb, bb, trailer);
  }

  /** `FrameLayout` for a frame built by `encode` from messages. */
  lemma EncodeLayout(reg: Registry, hasChecksum: bool, head: Message, body: Message)
    requires Encode(reg, hasChecksum, head, body).Success?
    requires |Encode(reg, hasChecksum, head, body).value| < TwoTo31
    ensures var pkg := Encode(reg, hasChecksum, head, body).value;
            var hb := reg.serialize(head).value;
            && pkg == Frame(hasChecksum, hb, reg.serialize(body).value)
            && ReadBeI32(pkg) == |pkg|
            && ReadBeI32(pkg[4..]) == 4 + |hb|
            && WellFramed(hasChecksum, pkg)
  {
    FrameLayout(hasChecksum, reg.serialize(head).value, reg.serialize(body).value);
  }

  /**
   * Round trip: with the same checksum setting, decoding an encoded frame
   * gives back the head's fields (as the head type `decode` always uses) and
   * the body, provided the registry reproduces both from their bytes, the head
   * names the body's type and that type can be created.
   */
  lemma DecodeEncode(reg: Registry, hasChecksum: bool, head: Message, body: Message)
    requires HeadTypeName in reg.creatable
    requires RoundTrips(reg, head, HeadTypeName) && RoundTrips(reg, body, body.typeName)
    requires HasField(reg, HeadTypeName, TypeNameField)
    requires StringField(head, TypeNameField) == body.typeName
    requires body.typeName in reg.creatable
    requires FrameLen(hasChecksum, |reg.serialize(head).value|, |reg.serialize(body).value|) < TwoTo31
    ensures Encode(reg, hasChecksum, head, body).Success?
    ensures Decode(reg, hasChecksum, Encode(reg, hasChecksum, head, body).value)
            == Success((Message(HeadTypeName, head.fields), body))
  {
    FrameLayout(hasChecksum, reg.serialize(head).value, reg.serialize(body).value);
  }

  /** Every failure of `decode` is one of the framing checks or a registry refusal, in order. */
  lemma DecodeFramingErrors(reg: Registry, hasChecksum: bool, pkg: seq<Byte>)
    requires HeadTypeName in reg.creatable
    ensures |pkg| < MinFrameLen(hasChecksum) ==> Decode(reg, hasChecksum, pkg) == Failure(TooShort)
    ensures |pkg| >= MinFrameLen(hasChecksum) && ReadBeI32(pkg) != |pkg| ==>
      Decode(reg, hasChecksum, pkg) == Failure(TotalLenMismatch)
    ensures |pkg| >= MinFrameLen(hasChecksum) && ReadBeI32(pkg) == |pkg| && ReadBeI32(pkg[4..]) < 4 ==>
      Decode(reg, hasChecksum, pkg) == Failure(HeadLenTooSmall)
    ensures |pkg| >= MinFrameLen(hasChecksum) && ReadBeI32(pkg) == |pkg|
            && ReadBeI32(pkg[4..]) > |pkg| - 4 - ChecksumLen(hasChecksum) ==>
      Decode(reg, hasChecksum, pkg) == Failure(HeadLenTooLarge)
    ensures WellFramed(hasChecksum, pkg) && Decode(reg, hasChecksum, pkg).Failure? ==>
      Decode(reg, hasChecksum, pkg).error in {HeadUnparsable, NoTypeNameField, UnknownBodyType, BodyUnparsable}
  {
  }
}
