/**
  What the frame codecs promise. Reading inverts writing, whatever a reader
  accepts is exactly what the writer emits, and no frame is a prefix of another,
  so a stream of frames splits in one way.
 */
module ProtocolLaws {
  import opened Arith
  import opened Wrappers
  import opened Bytes
  import opened Protocol
  import Utf8

  // ----- requests

  function RequestHeader(formatLength: Byte, encodedLength: nat): (h: seq<Byte>)
    ensures |h| == 16
  {
    REQUEST_FRAME_MAGIC + [formatLength, 0, 0, 0] + LittleEndian(encodedLength, 8)
  }

  lemma HeaderFields(f: Byte, e: nat)
    requires e <= MAX_ENCODED_INPUT_BYTES
    ensures var h := RequestHeader(f, e);
      && h[..4] == REQUEST_FRAME_MAGIC && h[4] == f && h[5..8] == [0, 0, 0]
      && h[8..16] == LittleEndian(e, 8) && FromLittleEndian(h[8..16]) == e
  {
    var h := RequestHeader(f, e);
    PowersOf256();
    LittleEndianRoundTrip(e, 8);
    assert h[8..16] == LittleEndian(e, 8);
    assert h[5..8] == [0, 0, 0];
  }

  lemma RequestLayout(r: DecodeRequest, tail: seq<Byte>)
    requires ValidRequest(r)
    ensures var s, f, e := RequestFrame(r) + tail, |Utf8.Encode(r.format)|, |r.encoded|;
      && s == RequestHeader(f, e) + (Utf8.Encode(r.format) + (r.encoded + tail))
      && s[..4] == REQUEST_FRAME_MAGIC && s[4] == f && s[5..8] == [0, 0, 0]
      && FromLittleEndian(s[8..16]) == e
      && s[16..] == Utf8.Encode(r.format) + (r.encoded + tail)
      && 1 <= f <= MAX_FORMAT_BYTES
  {
    var s, f, e := RequestFrame(r) + tail, |Utf8.Encode(r.format)|, |r.encoded|;
    Utf8.EncodeNonEmpty(r.format);
    HeaderFields(f, e);
    var h := RequestHeader(f, e);
    assert RequestFrame(r) == h + Utf8.Encode(r.format) + r.encoded;
    Regroup(h, Utf8.Encode(r.format), r.encoded, tail);
    SameHeader(s, h, Utf8.Encode(r.format) + (r.encoded + tail));
  }

  lemma Regroup(a: seq<Byte>, b: seq<Byte>, c: seq<Byte>, d: seq<Byte>)
    ensures a + b + c + d == a + (b + (c + d))
  {
  }

  lemma SameHeader(s: seq<Byte>, h: seq<Byte>, body: seq<Byte>)
    requires |h| == 16 && s == h + body
    ensures s[..4] == h[..4] && s[4] == h[4] && s[5..8] == h[5..8] && s[8..16] == h[8..16] && s[16..] == body
  {
  }

  /** The body reader on an encoded format, an image and a tail. */
  lemma BodyRoundTrip(r: DecodeRequest, tail: seq<Byte>)
    requires ValidRequest(r)
    ensures ReadRequestBody(Utf8.Encode(r.format) + (r.encoded + tail), |Utf8.Encode(r.format)|, |r.encoded|)
            == Ok((Some(r), tail))
  {
    var s, f, e := Utf8.Encode(r.format) + (r.encoded + tail), |Utf8.Encode(r.format)|, |r.encoded|;
    Utf8.DecodeEncoded(r.format);
    assert s[..f] == Utf8.Encode(r.format);
    assert s[f..f + e] == r.encoded;
    assert s[f + e..] == tail;
  }

  /** A written request, followed by anything, reads back as itself and leaves the rest. */
  lemma RequestRoundTrip(r: DecodeRequest, tail: seq<Byte>)
    requires ValidRequest(r)
    ensures ReadRequest(RequestFrame(r) + tail) == Ok((Some(r), tail))
  {
    RequestLayout(r, tail);
    BodyRoundTrip(r, tail);
  }

  /** Only the empty stream ends cleanly; any accepted request is byte for byte a written one. */
  lemma RequestCanonical(s: seq<Byte>)
    ensures match ReadRequest(s)
      case Ok((None, rest)) => s == [] && rest == []
      case Ok((Some(r), rest)) => ValidRequest(r) && s == RequestFrame(r) + rest
      case Err(_) => s != []
  {
    match ReadRequest(s)
    case Ok((Some(r), rest)) =>
      BodyCanonical(s[16..], s[4], FromLittleEndian(s[8..16]));
      HeaderCanonical(s);
      assert s == RequestHeader(s[4], FromLittleEndian(s[8..16])) + (Utf8.Encode(r.format) + (r.encoded + rest));
    case _ =>
  }

  lemma BodyCanonical(s: seq<Byte>, f: nat, e: nat)
    requires ReadRequestBody(s, f, e).Ok?
    ensures var (r, rest) := ReadRequestBody(s, f, e).value;
      r.Some? && s == Utf8.Encode(r.value.format) + (r.value.encoded + rest)
      && ValidFormat(r.value.format) && |Utf8.Encode(r.value.format)| == f && |r.value.encoded| == e
  {
    Utf8.EncodeDecoded(s[..f]);
    assert s == s[..f] + (s[f..f + e] + s[f + e..]);
  }

  lemma HeaderCanonical(s: seq<Byte>)
    requires |s| >= 16 && s[..4] == REQUEST_FRAME_MAGIC && s[5..8] == [0, 0, 0]
    ensures s == RequestHeader(s[4], FromLittleEndian(s[8..16])) + s[16..]
  {
    FromLittleEndianRoundTrip(s[8..16]);
    assert s == s[..4] + ([s[4]] + s[5..8]) + s[8..16] + s[16..];
    assert [s[4]] + [0, 0, 0] == [s[4], 0, 0, 0];
  }

  /** Every non-empty strict prefix of a request frame is reported as truncated. */
  lemma RequestTruncated(r: DecodeRequest, n: nat)
    requires ValidRequest(r) && 0 < n < |RequestFrame(r)|
    ensures ReadRequest(RequestFrame(r)[..n]) == Err(UnexpectedEof)
  {
    var s, f := RequestFrame(r), |Utf8.Encode(r.format)|;
    RequestLayout(r, []);
    assert s + [] == s;
    var p := s[..n];
    if n >= 16 {
      assert p[..4] == s[..4] && p[5..8] == s[5..8] && p[8..16] == s[8..16];
      assert p[16..] == s[16..][..n - 16];
      if n - 16 >= f {
        assert p[16..][..f] == s[16..][..f];
        Utf8.DecodeEncoded(r.format);
      }
    }
  }

  function Frames(rs: seq<DecodeRequest>): seq<Byte>
    requires forall r :: r in rs ==> ValidRequest(r)
  {
    if |rs| == 0 then [] else RequestFrame(rs[0]) + Frames(rs[1..])
  }

  /** A concatenation of request frames splits in exactly one way. */
  lemma {:induction false} FramesSplitOneWay(rs: seq<DecodeRequest>, ss: seq<DecodeRequest>)
    requires forall r :: r in rs || r in ss ==> ValidRequest(r)
    requires Frames(rs) == Frames(ss)
    ensures rs == ss
  {
    if |rs| > 0 && |ss| > 0 {
      hide RequestFrame, ReadRequest, ValidRequest;
      RequestRoundTrip(rs[0], Frames(rs[1..]));
      RequestRoundTrip(ss[0], Frames(ss[1..]));
      FramesSplitOneWay(rs[1..], ss[1..]);
      assert rs == [rs[0]] + rs[1..] && ss == [ss[0]] + ss[1..];
    }
  }

  // ----- color profiles

  lemma CicpRoundTrip(c: CicpColor)
    ensures ParseCicp(CicpBytes(c)) == Ok(c)
  {
    var s := CicpBytes(c);
    PowersOf256();
    LittleEndianRoundTrip(c.colorPrimaries, 2);
    LittleEndianRoundTrip(c.transferCharacteristics, 2);
    LittleEndianRoundTrip(c.matrixCoefficients, 2);
    assert s[..2] == LittleEndian(c.colorPrimaries, 2);
    assert s[2..4] == LittleEndian(c.transferCharacteristics, 2);
    assert s[4..6] == LittleEndian(c.matrixCoefficients, 2);
  }

  lemma CicpCanonical(s: seq<Byte>)
    requires ParseCicp(s).Ok?
    ensures CicpBytes(ParseCicp(s).value) == s
  {
    FromLittleEndianRoundTrip(s[..2]);
    FromLittleEndianRoundTrip(s[2..4]);
    FromLittleEndianRoundTrip(s[4..6]);
    assert s == s[..2] + s[2..4] + s[4..6] + [s[6]];
  }

  lemma ProfileRoundTrip(p: ColorProfile)
    requires ValidProfile(p)
    ensures ParseProfile(ProfileTag(p), Metadata(p)) == Ok(p)
    ensures |Metadata(p)| <= MAX_COLOR_PROFILE_BYTES
  {
    if p.Cicp? {
      CicpRoundTrip(p.color);
    }
  }

  lemma ProfileCanonical(tag: Byte, metadata: seq<Byte>)
    requires ParseProfile(tag, metadata).Ok?
    ensures var p := ParseProfile(tag, metadata).value;
      ValidProfile(p) && ProfileTag(p) == tag && Metadata(p) == metadata
  {
    if tag == COLOR_PROFILE_CICP {
      CicpCanonical(metadata);
    }
  }

  // ----- response payloads

  lemma PixelStreamRoundTrip(width: U32, height: U32, p: ColorProfile)
    requires CheckedRgbaLen(width, height).Ok? && ValidProfile(p)
    ensures ParsePixelStream(ResponsePayload(PixelStream(width, height, p))) == Ok(PixelStream(width, height, p))
    ensures |ResponsePayload(PixelStream(width, height, p))| == 16 + |Metadata(p)|
  {
    var s, m := ResponsePayload(PixelStream(width, height, p)), |Metadata(p)|;
    ProfileRoundTrip(p);
    PowersOf256();
    LittleEndianRoundTrip(width, 4);
    LittleEndianRoundTrip(height, 4);
    LittleEndianRoundTrip(m, 4);
    var head := LittleEndian(width, 4) + LittleEndian(height, 4);
    assert s[..8] == head && s[..4] == head[..4] && s[4..8] == head[4..8];
    assert s[8..12] == [ProfileTag(p), 0, 0, 0];
    assert s[9..12] == s[8..12][1..] && s[8] == s[8..12][0];
    assert s[12..16] == LittleEndian(m, 4);
    assert s[16..] == Metadata(p);
  }

  lemma FixedFields(s: seq<Byte>)
    requires |s| >= 16
    ensures s == s[..4] + s[4..8] + ([s[8]] + s[9..12]) + s[12..16] + s[16..]
  {
  }

  lemma PixelStreamCanonical(s: seq<Byte>)
    requires ParsePixelStream(s).Ok?
    ensures var r := ParsePixelStream(s).value;
      r.PixelStream? && ValidResponse(r) && ResponsePayload(r) == s
  {
    var r := ParsePixelStream(s).value;
    ProfileCanonical(s[8], s[16..]);
    FromLittleEndianRoundTrip(s[..4]);
    FromLittleEndianRoundTrip(s[4..8]);
    FromLittleEndianRoundTrip(s[12..16]);
    assert [s[8]] + s[9..12] == [ProfileTag(r.colorProfile), 0, 0, 0];
    FixedFields(s);
  }

  lemma PayloadRoundTrip(r: WorkerResponse)
    requires ValidResponse(r)
    ensures ParsePayload(ResponseTag(r), ResponsePayload(r)) == Ok(r)
    ensures ValidResponseLength(ResponseTag(r), |ResponsePayload(r)|)
  {
    match r
    case PixelStream(width, height, profile) =>
      PixelStreamRoundTrip(width, height, profile);
      ProfileRoundTrip(profile);
    case Error(message) =>
      Utf8.DecodeEncoded(message);
      Utf8.EncodeNonEmpty(message);
    case Probe =>
  }

  lemma PayloadCanonical(tag: Byte, payload: seq<Byte>)
    requires ValidResponseLength(tag, |payload|) && ParsePayload(tag, payload).Ok?
    ensures var r := ParsePayload(tag, payload).value;
      ValidResponse(r) && ResponseTag(r) == tag && ResponsePayload(r) == payload
  {
    if tag == RESPONSE_PIXEL_STREAM {
      PixelStreamCanonical(payload);
    } else if tag == RESPONSE_ERROR {
      Utf8.EncodeDecoded(payload);
    }
  }

  // ----- responses

  lemma ResponseLayout(r: WorkerResponse, tail: seq<Byte>)
    requires ValidResponse(r)
    ensures var s, n := ResponseFrame(r) + tail, |ResponsePayload(r)|;
      && |s| == 9 + n + |tail|
      && s[..4] == RESPONSE_FRAME_MAGIC && s[4] == ResponseTag(r)
      && FromLittleEndian(s[5..9]) == n && ValidResponseLength(s[4], n)
      && s[9..9 + n] == ResponsePayload(r)
      && s[9 + n..] == tail
  {
    hide ResponsePayload, ValidResponse, ParsePayload;
    var s, n := ResponseFrame(r) + tail, |ResponsePayload(r)|;
    PayloadRoundTrip(r);
    PowersOf256();
    LittleEndianRoundTrip(n, 4);
    FrameFields(RESPONSE_FRAME_MAGIC, ResponseTag(r), LittleEndian(n, 4), ResponsePayload(r), tail);
  }

  lemma FrameFields(magic: seq<Byte>, tag: Byte, length: seq<Byte>, payload: seq<Byte>, tail: seq<Byte>)
    requires |magic| == 4 && |length| == 4
    ensures var s, n := magic + [tag] + length + payload + tail, |payload|;
      s[..4] == magic && s[4] == tag && s[5..9] == length && s[9..9 + n] == payload && s[9 + n..] == tail
  {
  }

  /** A written response, followed by anything, reads back as itself and leaves the rest. */
  lemma ResponseRoundTrip(r: WorkerResponse, tail: seq<Byte>)
    requires ValidResponse(r)
    ensures ReadResponse(ResponseFrame(r) + tail) == Ok((r, tail))
  {
    ResponseLayout(r, tail);
    PayloadRoundTrip(r);
  }

  lemma ResponseFields(s: seq<Byte>, n: nat)
    requires |s| >= 9 + n
    ensures s == s[..4] + [s[4]] + s[5..9] + s[9..9 + n] + s[9 + n..]
  {
  }

  /** Any accepted response is byte for byte a written one. */
  lemma ResponseCanonical(s: seq<Byte>)
    requires ReadResponse(s).Ok?
    ensures var (r, rest) := ReadResponse(s).value;
      ValidResponse(r) && s == ResponseFrame(r) + rest
  {
    var n := FromLittleEndian(s[5..9]);
    PayloadCanonical(s[4], s[9..9 + n]);
    FromLittleEndianRoundTrip(s[5..9]);
    ResponseFields(s, n);
  }

  lemma PrefixHeader(s: seq<Byte>, n: nat)
    requires 9 <= n <= |s|
    ensures s[..n][..4] == s[..4] && s[..n][4] == s[4] && s[..n][5..9] == s[5..9]
  {
  }

  /** Every strict prefix of a response frame is reported as truncated. */
  lemma ResponseTruncated(r: WorkerResponse, n: nat)
    requires ValidResponse(r) && n < |ResponseFrame(r)|
    ensures ReadResponse(ResponseFrame(r)[..n]) == Err(UnexpectedEof)
  {
    var s := ResponseFrame(r);
    ResponseLayout(r, []);
    assert s + [] == s;
    hide ResponseFrame, ResponsePayload, ValidResponse, ParsePayload, ResponseTag, FromLittleEndian;
    if n >= 9 {
      PrefixHeader(s, n);
    }
  }

  /** The parent reads an acknowledgement exactly when its four bytes are there. */
  lemma AckCanonical(s: seq<Byte>, rest: seq<Byte>)
    ensures ReadAckBytes(s) == Ok(rest) <==> s == ACK_FRAME + rest
  {
    if ReadAckBytes(s) == Ok(rest) {
      assert s == s[..4] + s[4..];
    }
    if s == ACK_FRAME + rest {
      assert |ACK_FRAME| == 4;
      assert s[..4] == ACK_FRAME && s[4..] == rest;
    }
  }
}
