/**
  The three frame codecs of the decode worker: encoded-image requests, typed
  responses and pixel-stream acknowledgements. The functions say what a reader
  makes of a byte string and what a writer emits; the methods run on streams.
 */
module Protocol {
  import opened Arith
  import opened Wrappers
  import opened Bytes
  import Utf8

  const REQUEST_FRAME_MAGIC: seq<Byte> := [0x56, 0x57, 0x49, 0x32]  // "VWI2"
  const ACK_FRAME: seq<Byte> := [0x41, 0x43, 0x4B, 0x32]  // "ACK2"
  const RESPONSE_FRAME_MAGIC: seq<Byte> := [0x56, 0x52, 0x53, 0x32]  // "VRS2"
  const PROBE_PAYLOAD: seq<Byte> := [0x56, 0x57, 0x49, 0x32]  // "VWI2"
  const REQUEST_FRAME_HEADER_BYTES: nat := 16
  const RESPONSE_FRAME_HEADER_BYTES: nat := 9
  const PROBE_FORMAT := "probe"
  const MAX_FORMAT_BYTES: nat := 16
  const MAX_ENCODED_INPUT_BYTES: nat := 512 * 1024 * 1024
  const MAX_COLOR_PROFILE_BYTES: nat := 10 * 1024 * 1024
  const MAX_WORKER_ERROR_BYTES: nat := 2048
  const PIXEL_STREAM_FIXED_BYTES: nat := 16
  const CICP_PAYLOAD_BYTES: nat := 7
  const MAX_RESPONSE_PAYLOAD_BYTES: nat := PIXEL_STREAM_FIXED_BYTES + MAX_COLOR_PROFILE_BYTES
  const RESPONSE_PIXEL_STREAM: Byte := 1
  const RESPONSE_ERROR: Byte := 2
  const RESPONSE_PROBE: Byte := 3
  const COLOR_PROFILE_UNKNOWN: Byte := 0
  const COLOR_PROFILE_ICC: Byte := 1
  const COLOR_PROFILE_CICP: Byte := 2
  const MAX_DECODE_DIMENSION: nat := 0xFFFF
  const MAX_DECODE_PIXELS: nat := 128 * 1024 * 1024

  /** Rust's `io::Error`: an early end of the stream, or refused data with its message. */
  datatype IoError = UnexpectedEof | Invalid(message: string)

  function ErrorText(e: IoError): string {
    match e
    case UnexpectedEof => "failed to fill whole buffer"
    case Invalid(message) => message
  }

  datatype ShapeError = ZeroDimension | DimensionLimit | AllocationLimit

  function ShapeText(e: ShapeError): string {
    match e
    case ZeroDimension => "image dimensions must be non-zero"
    case DimensionLimit => "image dimensions exceed safety limit"
    case AllocationLimit => "image dimensions exceed safety limit"
  }

  function Pixels(width: nat, height: nat): nat {
    width * height
  }

  function CheckedRgbaLen(width: U32, height: U32): Result<nat, ShapeError> {
    if width == 0 || height == 0 then Err(ZeroDimension)
    else if width > MAX_DECODE_DIMENSION || height > MAX_DECODE_DIMENSION then Err(DimensionLimit)
    else if Pixels(width, height) > MAX_DECODE_PIXELS then Err(AllocationLimit)
    else Ok(4 * Pixels(width, height))
  }

  // ----- requests

  datatype DecodeRequest = DecodeRequest(format: string, encoded: seq<Byte>)

  predicate IsLowerOrDigit(c: char) {
    'a' <= c <= 'z' || '0' <= c <= '9'
  }

  predicate ValidFormat(format: string) {
    && format != ""
    && |Utf8.Encode(format)| <= MAX_FORMAT_BYTES
    && forall i :: 0 <= i < |format| ==> IsLowerOrDigit(format[i])
  }

  predicate ValidRequest(r: DecodeRequest) {
    ValidFormat(r.format) && |r.encoded| <= MAX_ENCODED_INPUT_BYTES
  }

  /** The bytes of one request frame. */
  function RequestFrame(r: DecodeRequest): seq<Byte>
    requires ValidRequest(r)
  {
    REQUEST_FRAME_MAGIC + [|Utf8.Encode(r.format)|, 0, 0, 0] + LittleEndian(|r.encoded|, 8)
    + Utf8.Encode(r.format) + r.encoded
  }

  /** Read one request from the front of `s`; None only for a cleanly ended stream. */
  function ReadRequest(s: seq<Byte>): Result<(Option<DecodeRequest>, seq<Byte>), IoError> {
    if |s| == 0 then Ok((None, s))
    else if |s| < 16 then Err(UnexpectedEof)
    else if s[..4] != REQUEST_FRAME_MAGIC then Err(Invalid("unsupported worker protocol frame"))
    else if s[5..8] != [0, 0, 0] then Err(Invalid("invalid worker protocol header"))
    else if s[4] == 0 || s[4] > MAX_FORMAT_BYTES then Err(Invalid("invalid worker format identifier"))
    else if FromLittleEndian(s[8..16]) > MAX_ENCODED_INPUT_BYTES then
      Err(Invalid("encoded input exceeds IPC safety limit"))
    else ReadRequestBody(s[16..], s[4], FromLittleEndian(s[8..16]))
  }

  function ReadRequestBody(s: seq<Byte>, formatLength: nat, encodedLength: nat)
    : Result<(Option<DecodeRequest>, seq<Byte>), IoError>
  {
    if |s| < formatLength then Err(UnexpectedEof)
    else
      match Utf8.Decode(s[..formatLength])
      case None => Err(Invalid("worker format is not UTF-8"))
      case Some(format) =>
        if !ValidFormat(format) then Err(Invalid("invalid worker format identifier"))
        else if |s| - formatLength < encodedLength then Err(UnexpectedEof)
        else
          var end := formatLength + encodedLength;
          Ok((Some(DecodeRequest(format, s[formatLength..end])), s[end..]))
  }

  // ----- responses

  datatype CicpColor = CicpColor(
    colorPrimaries: U16, transferCharacteristics: U16, matrixCoefficients: U16, fullRange: bool)

  datatype ColorProfile = Unknown | Icc(profile: seq<Byte>) | Cicp(color: CicpColor)

  datatype WorkerResponse =
    | PixelStream(width: U32, height: U32, colorProfile: ColorProfile)
    | Error(message: string)
    | Probe

  /** The control characters of general category Cc. */
  predicate IsControl(c: char) {
    (c as int) < 0x20 || 0x7F <= (c as int) < 0xA0
  }

  predicate ValidWorkerError(message: string) {
    message != "" && forall i :: 0 <= i < |message| ==> !IsControl(message[i])
  }

  function CicpBytes(c: CicpColor): seq<Byte> {
    LittleEndian(c.colorPrimaries, 2) + LittleEndian(c.transferCharacteristics, 2)
    + LittleEndian(c.matrixCoefficients, 2) + [if c.fullRange then 1 else 0]
  }

  function Metadata(p: ColorProfile): seq<Byte> {
    match p
    case Unknown => []
    case Icc(profile) => profile
    case Cicp(color) => CicpBytes(color)
  }

  function ProfileTag(p: ColorProfile): Byte {
    match p
    case Unknown => COLOR_PROFILE_UNKNOWN
    case Icc(_) => COLOR_PROFILE_ICC
    case Cicp(_) => COLOR_PROFILE_CICP
  }

  predicate ValidProfile(p: ColorProfile) {
    p.Icc? ==> 1 <= |p.profile| <= MAX_COLOR_PROFILE_BYTES
  }

  /** The responses the writer accepts. */
  predicate ValidResponse(r: WorkerResponse) {
    match r
    case PixelStream(width, height, profile) => CheckedRgbaLen(width, height).Ok? && ValidProfile(profile)
    case Error(message) => ValidWorkerError(message) && |Utf8.Encode(message)| <= MAX_WORKER_ERROR_BYTES
    case Probe => true
  }

  function ResponseTag(r: WorkerResponse): Byte {
    match r
    case PixelStream(_, _, _) => RESPONSE_PIXEL_STREAM
    case Error(_) => RESPONSE_ERROR
    case Probe => RESPONSE_PROBE
  }

  function ResponsePayload(r: WorkerResponse): seq<Byte> {
    match r
    case PixelStream(width, height, profile) =>
      LittleEndian(width, 4) + LittleEndian(height, 4) + [ProfileTag(profile), 0, 0, 0]
      + LittleEndian(|Metadata(profile)|, 4) + Metadata(profile)
    case Error(message) => Utf8.Encode(message)
    case Probe => PROBE_PAYLOAD
  }

  function ResponseFrame(r: WorkerResponse): seq<Byte> {
    RESPONSE_FRAME_MAGIC + [ResponseTag(r)] + LittleEndian(|ResponsePayload(r)|, 4) + ResponsePayload(r)
  }

  predicate ValidResponseLength(tag: Byte, length: nat) {
    if tag == RESPONSE_PIXEL_STREAM then PIXEL_STREAM_FIXED_BYTES <= length <= MAX_RESPONSE_PAYLOAD_BYTES
    else if tag == RESPONSE_ERROR then 1 <= length <= MAX_WORKER_ERROR_BYTES
    else tag == RESPONSE_PROBE && length == |PROBE_PAYLOAD|
  }

  function ReadResponse(s: seq<Byte>): Result<(WorkerResponse, seq<Byte>), IoError> {
    if |s| < 9 then Err(UnexpectedEof)
    else if s[..4] != RESPONSE_FRAME_MAGIC then Err(Invalid("unsupported worker response frame"))
    else
      var length := FromLittleEndian(s[5..9]);
      if !ValidResponseLength(s[4], length) then Err(Invalid("worker response exceeds IPC safety limit"))
      else if |s| - 9 < length then Err(UnexpectedEof)
      else match ParsePayload(s[4], s[9..9 + length])
        case Ok(response) => Ok((response, s[9 + length..]))
        case Err(error) => Err(error)
  }

  function ParsePayload(tag: Byte, payload: seq<Byte>): Result<WorkerResponse, IoError> {
    if tag == RESPONSE_PIXEL_STREAM then ParsePixelStream(payload)
    else if tag == RESPONSE_ERROR then
      match Utf8.Decode(payload)
      case None => Err(Invalid("worker error is not UTF-8"))
      case Some(message) =>
        if ValidWorkerError(message) then Ok(Error(message))
        else Err(Invalid("worker error is empty or contains control characters"))
    else if tag == RESPONSE_PROBE && payload == PROBE_PAYLOAD then Ok(Probe)
    else Err(Invalid("unknown worker response type"))
  }

  lemma U32Bytes(s: seq<Byte>)
    requires |s| == 4
    ensures FromLittleEndian(s) < 0x1_0000_0000
  {
    FromLittleEndianRoundTrip(s);
    PowersOf256();
  }

  lemma U16Bytes(s: seq<Byte>)
    requires |s| == 2
    ensures FromLittleEndian(s) < 0x1_0000
  {
    FromLittleEndianRoundTrip(s);
    PowersOf256();
  }

  function ReadU32(s: seq<Byte>): U32
    requires |s| == 4
  {
    U32Bytes(s);
    FromLittleEndian(s)
  }

  function ReadU16(s: seq<Byte>): U16
    requires |s| == 2
  {
    U16Bytes(s);
    FromLittleEndian(s)
  }

  function ParsePixelStream(payload: seq<Byte>): Result<WorkerResponse, IoError> {
    if |payload| < 16 then Err(Invalid("invalid worker pixel-stream header"))
    else
      var width, height := ReadU32(payload[..4]), ReadU32(payload[4..8]);
      match CheckedRgbaLen(width, height)
      case Err(error) => Err(Invalid(ShapeText(error)))
      case Ok(_) =>
        if payload[9..12] != [0, 0, 0] then Err(Invalid("invalid worker color metadata header"))
        else if ReadU32(payload[12..16]) != |payload| - 16 then Err(Invalid("invalid worker color metadata length"))
        else match ParseProfile(payload[8], payload[16..])
          case Ok(profile) => Ok(PixelStream(width, height, profile))
          case Err(error) => Err(error)
  }

  function ParseProfile(tag: Byte, metadata: seq<Byte>): Result<ColorProfile, IoError> {
    if tag == COLOR_PROFILE_UNKNOWN && |metadata| == 0 then Ok(Unknown)
    else if tag == COLOR_PROFILE_ICC && 1 <= |metadata| <= MAX_COLOR_PROFILE_BYTES then Ok(Icc(metadata))
    else if tag == COLOR_PROFILE_CICP && |metadata| == CICP_PAYLOAD_BYTES then
      match ParseCicp(metadata)
      case Ok(color) => Ok(Cicp(color))
      case Err(error) => Err(error)
    else Err(Invalid("invalid worker color metadata"))
  }

  function ParseCicp(metadata: seq<Byte>): Result<CicpColor, IoError> {
    if |metadata| != 7 then Err(Invalid("invalid CICP length"))
    else if metadata[6] > 1 then Err(Invalid("invalid CICP full-range flag"))
    else Ok(CicpColor(ReadU16(metadata[..2]), ReadU16(metadata[2..4]), ReadU16(metadata[4..6]), metadata[6] == 1))
  }

  // ----- acknowledgements

  function ReadAckBytes(s: seq<Byte>): Result<seq<Byte>, IoError> {
    if |s| < 4 then Err(UnexpectedEof)
    else if s[..4] != ACK_FRAME then Err(Invalid("invalid worker acknowledgement"))
    else Ok(s[4..])
  }

  // ----- the codecs on streams

  method WriteDecodeRequest(writer: Sink, format: string, encoded: seq<Byte>) returns (r: Result<(), IoError>)
    modifies writer
    ensures r.Ok? <==> ValidRequest(DecodeRequest(format, encoded))
    ensures r.Err? ==>
      r.error == Invalid(
        if !ValidFormat(format) then "invalid worker format identifier" else "encoded input exceeds IPC safety limit")
    ensures r.Ok? ==> writer.written == old(writer.written) + RequestFrame(DecodeRequest(format, encoded))
    ensures r.Err? ==> writer.written == old(writer.written)
  {
    if !ValidFormat(format) {
      return Err(Invalid("invalid worker format identifier"));
    }
    if |encoded| > MAX_ENCODED_INPUT_BYTES {
      return Err(Invalid("encoded input exceeds IPC safety limit"));
    }
    writer.WriteAll(REQUEST_FRAME_MAGIC);
    writer.WriteAll([|Utf8.Encode(format)|, 0, 0, 0]);
    writer.WriteAll(LittleEndian(|encoded|, 8));
    writer.WriteAll(Utf8.Encode(format));
    writer.WriteAll(encoded);
    r := Ok(());
  }

  method ReadDecodeRequest(reader: Source) returns (r: Result<Option<DecodeRequest>, IoError>)
    modifies reader
    ensures match ReadRequest(old(reader.rest))
      case Ok((request, rest)) => r == Ok(request) && reader.rest == rest
      case Err(error) => r == Err(error)
  {
    ghost var s := reader.rest;
    var first := reader.ReadExact(1);
    if first.None? {
      return Ok(None);
    }
    var others := reader.ReadExact(REQUEST_FRAME_HEADER_BYTES - 1);
    if others.None? {
      return Err(UnexpectedEof);
    }
    var header := first.value + others.value;
    assert header == s[..16] && reader.rest == s[16..];
    assert header[..4] == s[..4] && header[5..8] == s[5..8] && header[8..16] == s[8..16];
    if header[..4] != REQUEST_FRAME_MAGIC {
      return Err(Invalid("unsupported worker protocol frame"));
    }
    if header[5..8] != [0, 0, 0] {
      return Err(Invalid("invalid worker protocol header"));
    }
    var formatLength := header[4];
    if formatLength == 0 || formatLength > MAX_FORMAT_BYTES {
      return Err(Invalid("invalid worker format identifier"));
    }
    var encodedLength := FromLittleEndian(header[8..16]);
    if encodedLength > MAX_ENCODED_INPUT_BYTES {
      return Err(Invalid("encoded input exceeds IPC safety limit"));
    }
    r := ReadDecodeRequestBody(reader, formatLength, encodedLength);
  }

  method ReadDecodeRequestBody(reader: Source, formatLength: nat, encodedLength: nat)
    returns (r: Result<Option<DecodeRequest>, IoError>)
    modifies reader
    ensures match ReadRequestBody(old(reader.rest), formatLength, encodedLength)
      case Ok((request, rest)) => r == Ok(request) && reader.rest == rest
      case Err(error) => r == Err(error)
  {
    ghost var body, end := reader.rest, formatLength + encodedLength;
    var formatBytes := reader.ReadExact(formatLength);
    if formatBytes.None? {
      return Err(UnexpectedEof);
    }
    var format := Utf8.Decode(formatBytes.value);
    if format.None? {
      return Err(Invalid("worker format is not UTF-8"));
    }
    if !ValidFormat(format.value) {
      return Err(Invalid("invalid worker format identifier"));
    }
    var encoded := reader.ReadExact(encodedLength);
    if encoded.None? {
      return Err(UnexpectedEof);
    }
    assert encoded.value == body[formatLength..end] && reader.rest == body[end..];
    r := Ok(Some(DecodeRequest(format.value, encoded.value)));
  }

  /** Why the writer refuses a response. */
  function WriteRefusal(response: WorkerResponse): IoError
    requires !ValidResponse(response)
  {
    match response
    case PixelStream(width, height, _) =>
      (match CheckedRgbaLen(width, height)
       case Err(error) => Invalid(ShapeText(error))
       case Ok(_) => Invalid("worker ICC profile exceeds IPC safety limit"))
    case _ => Invalid("worker error is invalid or exceeds IPC safety limit")
  }

  method WriteWorkerResponse(writer: Sink, response: WorkerResponse) returns (r: Result<(), IoError>)
    modifies writer
    ensures r.Ok? <==> ValidResponse(response)
    ensures r.Err? ==> r.error == WriteRefusal(response)
    ensures r.Ok? ==> writer.written == old(writer.written) + ResponseFrame(response)
    ensures r.Err? ==> writer.written == old(writer.written)
  {
    var payload := BuildPayload(response);
    if payload.Err? {
      return Err(payload.error);
    }
    if |payload.value| > MAX_RESPONSE_PAYLOAD_BYTES {
      assert false;
    }
    WriteFrame(writer, ResponseTag(response), payload.value);
    r := Ok(());
  }

  method WriteFrame(writer: Sink, tag: Byte, payload: seq<Byte>)
    modifies writer
    ensures writer.written ==
      old(writer.written) + (RESPONSE_FRAME_MAGIC + [tag] + LittleEndian(|payload|, 4) + payload)
  {
    writer.WriteAll(RESPONSE_FRAME_MAGIC);
    writer.WriteAll([tag]);
    writer.WriteAll(LittleEndian(|payload|, 4));
    writer.WriteAll(payload);
  }

  method BuildPayload(response: WorkerResponse) returns (r: Result<seq<Byte>, IoError>)
    ensures r.Ok? <==> ValidResponse(response)
    ensures r.Err? ==> r.error == WriteRefusal(response)
    ensures r.Ok? ==> r.value == ResponsePayload(response) && |r.value| <= MAX_RESPONSE_PAYLOAD_BYTES
  {
    match response {
      case PixelStream(width, height, profile) =>
        var shape := CheckedRgbaLen(width, height);
        if shape.Err? {
          return Err(Invalid(ShapeText(shape.error)));
        }
        if profile.Icc? && (|profile.profile| == 0 || |profile.profile| > MAX_COLOR_PROFILE_BYTES) {
          return Err(Invalid("worker ICC profile exceeds IPC safety limit"));
        }
        var payload := LittleEndian(width, 4) + LittleEndian(height, 4);
        payload := payload + [ProfileTag(profile), 0, 0, 0];
        payload := payload + LittleEndian(|Metadata(profile)|, 4);
        r := Ok(payload + Metadata(profile));
      case Error(message) =>
        if !ValidWorkerError(message) || |Utf8.Encode(message)| > MAX_WORKER_ERROR_BYTES {
          return Err(Invalid("worker error is invalid or exceeds IPC safety limit"));
        }
        r := Ok(Utf8.Encode(message));
      case Probe =>
        r := Ok(PROBE_PAYLOAD);
    }
  }

  method ReadWorkerResponse(reader: Source) returns (r: Result<WorkerResponse, IoError>)
    modifies reader
    ensures match ReadResponse(old(reader.rest))
      case Ok((response, rest)) => r == Ok(response) && reader.rest == rest
      case Err(error) => r == Err(error)
  {
    ghost var s := reader.rest;
    var bytes := reader.ReadExact(RESPONSE_FRAME_HEADER_BYTES);
    if bytes.None? {
      return Err(UnexpectedEof);
    }
    var header := bytes.value;
    assert header[..4] == s[..4] && header[5..9] == s[5..9];
    if header[..4] != RESPONSE_FRAME_MAGIC {
      return Err(Invalid("unsupported worker response frame"));
    }
    var tag, length := header[4], FromLittleEndian(header[5..9]);
    if !ValidResponseLength(tag, length) {
      return Err(Invalid("worker response exceeds IPC safety limit"));
    }
    var payload := reader.ReadExact(length);
    if payload.None? {
      return Err(UnexpectedEof);
    }
    assert payload.value == s[9..9 + length];
    r := ParsePayload(tag, payload.value);
  }

  method WriteAck(writer: Sink)
    modifies writer
    ensures writer.written == old(writer.written) + ACK_FRAME
  {
    writer.WriteAll(ACK_FRAME);
  }

  method ReadAck(reader: Source) returns (r: Result<(), IoError>)
    modifies reader
    ensures match ReadAckBytes(old(reader.rest))
      case Ok(rest) => r == Ok(()) && reader.rest == rest
      case Err(error) => r == Err(error)
  {
    var ack := reader.ReadExact(4);
    if ack.None? {
      return Err(UnexpectedEof);
    }
    if ack.value != ACK_FRAME {
      return Err(Invalid("invalid worker acknowledgement"));
    }
    r := Ok(());
  }
}
