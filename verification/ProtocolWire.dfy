/**
  The frames as bytes on the wire: every field at its offset, least significant byte
  first, and what a reader has decided however many bytes follow.
 */
module ProtocolWire {
  import opened Arith
  import opened Wrappers
  import opened Bytes
  import opened Protocol
  import opened ProtocolLaws
  import Utf8

  /** Two bytes, the second worth 256 of the first. */
  ghost function Pair(low: Byte, high: Byte): nat {
    low as int + 0x100 * high as int
  }

  /** Four bytes, each worth 256 of the one before. */
  ghost function Weighed(s: seq<Byte>): nat
    requires |s| == 4
  {
    Pair(s[0], s[1]) + 0x1_0000 * Pair(s[2], s[3])
  }

  lemma FourRead(s: seq<Byte>)
    requires |s| == 4
    ensures FromLittleEndian(s) == Weighed(s)
  {
    assert s[1..][1..] == s[2..] && s[2..][1..] == s[3..] && s[3..][1..] == [];
    assert FromLittleEndian(s[3..]) == s[3];
    assert FromLittleEndian(s[2..]) == s[2] as int + 256 * s[3] as int;
    assert FromLittleEndian(s[1..]) == s[1] as int + 256 * FromLittleEndian(s[2..]);
  }

  lemma FourBytes(n: nat)
    requires n < 0x1_0000_0000
    ensures Weighed(LittleEndian(n, 4)) == n
  {
    PowersOf256();
    LittleEndianRoundTrip(n, 4);
    FourRead(LittleEndian(n, 4));
  }

  lemma TwoBytes(n: nat)
    requires n < 0x1_0000
    ensures Pair(LittleEndian(n, 2)[0], LittleEndian(n, 2)[1]) == n
  {
    assert LittleEndian(n / 256, 1) == [n / 256 % 256] + LittleEndian(n / 256 / 256, 0);
  }

  lemma {:induction false} ZeroBytes(k: nat)
    ensures |LittleEndian(0, k)| == k && forall i :: 0 <= i < k ==> LittleEndian(0, k)[i] == 0
  {
    if k > 0 {
      ZeroBytes(k - 1);
    }
  }

  lemma EightBytes(n: nat)
    requires n < 0x1_0000_0000
    ensures LittleEndian(n, 8)[4..] == [0, 0, 0, 0] && Weighed(LittleEndian(n, 8)[..4]) == n
  {
    var a, b, c := n / 256, n / 256 / 256, n / 256 / 256 / 256;
    ZeroBytes(4);
    assert c / 256 == 0;
    assert LittleEndian(c, 5) == [c % 256] + LittleEndian(0, 4);
    assert LittleEndian(b, 6) == [b % 256] + LittleEndian(c, 5);
    assert LittleEndian(a, 7) == [a % 256] + LittleEndian(b, 6);
    assert LittleEndian(n, 8) == [n % 256] + LittleEndian(a, 7);
  }

  lemma RequestParts(magic: seq<Byte>, head: seq<Byte>, length: seq<Byte>, format: seq<Byte>, encoded: seq<Byte>)
    requires |magic| == 4 && |head| == 4 && |length| == 8
    ensures var s, f := magic + head + length + format + encoded, |format|;
      && |s| == 16 + f + |encoded| && s[..4] == magic && s[4..8] == head
      && s[8..12] == length[..4] && s[12..16] == length[4..] && s[16..16 + f] == format && s[16 + f..] == encoded
  {
  }

  /** On the wire: "VWI2", the length of the format, three zeros, that of the image in eight bytes, the format, the image. */
  lemma RequestBytes(r: DecodeRequest)
    requires ValidRequest(r)
    ensures var s, f := RequestFrame(r), |r.format|;
      && |s| == 16 + f + |r.encoded|
      && s[..4] == [0x56, 0x57, 0x49, 0x32] && s[4] == f && s[5..8] == [0, 0, 0]
      && Weighed(s[8..12]) == |r.encoded| && s[12..16] == [0, 0, 0, 0]
      && (forall i :: 0 <= i < f ==> s[16 + i] == r.format[i] as int)
      && s[16 + f..] == r.encoded
  {
    Utf8.EncodeAscii(r.format);
    EightBytes(|r.encoded|);
    var s, f := RequestFrame(r), |r.format|;
    hide LittleEndian, Utf8.Encode;
    RequestParts(REQUEST_FRAME_MAGIC, [f, 0, 0, 0], LittleEndian(|r.encoded|, 8), Utf8.Encode(r.format), r.encoded);
    assert s[4] == s[4..8][0] && s[5..8] == s[4..8][1..];
    forall i | 0 <= i < f
      ensures s[16 + i] == r.format[i] as int
    {
      assert s[16..16 + f][i] == s[16 + i];
    }
  }

  lemma ResponseParts(magic: seq<Byte>, tag: Byte, length: seq<Byte>, payload: seq<Byte>)
    requires |magic| == 4 && |length| == 4
    ensures var s := magic + [tag] + length + payload;
      |s| == 9 + |payload| && s[..4] == magic && s[4] == tag && s[5..9] == length && s[9..] == payload
  {
  }

  lemma StreamParts(width: seq<Byte>, height: seq<Byte>, tag: Byte, length: seq<Byte>, metadata: seq<Byte>)
    requires |width| == 4 && |height| == 4 && |length| == 4
    ensures var p := width + height + [tag, 0, 0, 0] + length + metadata;
      && |p| == 16 + |metadata| && p[..4] == width && p[4..8] == height && p[8] == tag && p[9..12] == [0, 0, 0]
      && p[12..16] == length && p[16..] == metadata
  {
  }

  /** The color evidence behind a pixel stream's fixed fields, and the tag that announces it. */
  ghost predicate MetadataBytes(tag: Byte, m: seq<Byte>, profile: ColorProfile) {
    match profile
    case Unknown => tag == 0 && m == []
    case Icc(bytes) => tag == 1 && m == bytes
    case Cicp(c) =>
      && tag == 2 && |m| == 7
      && Pair(m[0], m[1]) == c.colorPrimaries && Pair(m[2], m[3]) == c.transferCharacteristics
      && Pair(m[4], m[5]) == c.matrixCoefficients && m[6] == if c.fullRange then 1 else 0
  }

  lemma MetadataOnWire(profile: ColorProfile)
    ensures MetadataBytes(ProfileTag(profile), Metadata(profile), profile)
  {
    if profile.Cicp? {
      TwoBytes(profile.color.colorPrimaries);
      TwoBytes(profile.color.transferCharacteristics);
      TwoBytes(profile.color.matrixCoefficients);
    }
  }

  /** A response's payload: its fixed fields in order, or the text, or the probe's answer. */
  ghost predicate PayloadBytes(tag: Byte, p: seq<Byte>, r: WorkerResponse) {
    match r
    case Probe => tag == 3 && p == [0x56, 0x57, 0x49, 0x32]
    case Error(message) => tag == 2 && p == Utf8.Encode(message)
    case PixelStream(width, height, profile) =>
      && tag == 1 && |p| >= 16
      && Weighed(p[..4]) == width && Weighed(p[4..8]) == height && p[9..12] == [0, 0, 0]
      && Weighed(p[12..16]) == |p| - 16 && MetadataBytes(p[8], p[16..], profile)
  }

  lemma PayloadOnWire(r: WorkerResponse)
    requires ValidResponse(r)
    ensures PayloadBytes(ResponseTag(r), ResponsePayload(r), r)
  {
    if r.PixelStream? {
      FourBytes(r.width);
      FourBytes(r.height);
      MetadataOnWire(r.colorProfile);
      FourBytes(|Metadata(r.colorProfile)|);
      StreamParts(
        LittleEndian(r.width, 4), LittleEndian(r.height, 4), ProfileTag(r.colorProfile),
        LittleEndian(|Metadata(r.colorProfile)|, 4), Metadata(r.colorProfile));
      hide LittleEndian, Metadata, MetadataBytes;
    }
  }

  /** A response on the wire: "VRS2", its tag, the length of the payload in four bytes, the payload. */
  lemma ResponseBytes(r: WorkerResponse)
    requires ValidResponse(r)
    ensures var s := ResponseFrame(r);
      && |s| >= 9 && s[..4] == [0x56, 0x52, 0x53, 0x32] && Weighed(s[5..9]) == |s| - 9
      && PayloadBytes(s[4], s[9..], r)
  {
    PayloadOnWire(r);
    PayloadRoundTrip(r);
    hide ResponsePayload, LittleEndian, PayloadBytes;
    FourBytes(|ResponsePayload(r)|);
    ResponseParts(RESPONSE_FRAME_MAGIC, ResponseTag(r), LittleEndian(|ResponsePayload(r)|, 4), ResponsePayload(r));
  }

  /** A shape has a byte length exactly when both sides and their product are in bounds; it is four bytes a pixel. */
  lemma ShapeExactly(width: U32, height: U32, n: nat)
    ensures CheckedRgbaLen(width, height) == Ok(n) <==>
      && 1 <= width <= 0xFFFF && 1 <= height <= 0xFFFF && width * height <= 128 * 1024 * 1024 && n == 4 * (width * height)
  {
  }

  // ----- what more input cannot change

  lemma SamePrefix(s: seq<Byte>, t: seq<Byte>, from: nat, to: nat)
    requires from <= to <= |s|
    ensures (s + t)[from..to] == s[from..to] && (s + t)[to..] == s[to..] + t
  {
  }

  lemma BodyDecided(s: seq<Byte>, t: seq<Byte>, f: nat, e: nat)
    requires ReadRequestBody(s, f, e) != Err(UnexpectedEof)
    ensures match ReadRequestBody(s, f, e)
      case Ok((r, rest)) => ReadRequestBody(s + t, f, e) == Ok((r, rest + t))
      case Err(error) => ReadRequestBody(s + t, f, e) == Err(error)
  {
    SamePrefix(s, t, 0, f);
    if f + e <= |s| {
      SamePrefix(s, t, f, f + e);
    }
    hide Utf8.Decode;
  }

  /** Once a request is read or refused, no further bytes change the verdict; they only follow it. */
  lemma RequestDecided(s: seq<Byte>, t: seq<Byte>)
    requires s != [] && ReadRequest(s) != Err(UnexpectedEof)
    ensures match ReadRequest(s)
      case Ok((r, rest)) => ReadRequest(s + t) == Ok((r, rest + t))
      case Err(error) => ReadRequest(s + t) == Err(error)
  {
    SamePrefix(s, t, 0, 4);
    SamePrefix(s, t, 5, 8);
    SamePrefix(s, t, 8, 16);
    hide ReadRequestBody, FromLittleEndian;
    if ReadRequest(s) == ReadRequestBody(s[16..], s[4], FromLittleEndian(s[8..16])) {
      BodyDecided(s[16..], t, s[4], FromLittleEndian(s[8..16]));
    }
  }

  /** The same of a response. */
  lemma ResponseDecided(s: seq<Byte>, t: seq<Byte>)
    requires ReadResponse(s) != Err(UnexpectedEof)
    ensures match ReadResponse(s)
      case Ok((r, rest)) => ReadResponse(s + t) == Ok((r, rest + t))
      case Err(error) => ReadResponse(s + t) == Err(error)
  {
    hide FromLittleEndian, ParsePayload, ValidResponseLength;
    if |s| < 9 {
      return;
    }
    SamePrefix(s, t, 0, 4);
    SamePrefix(s, t, 5, 9);
    var n := FromLittleEndian(s[5..9]);
    if 9 + n <= |s| {
      SamePrefix(s, t, 9, 9 + n);
    }
  }
}
