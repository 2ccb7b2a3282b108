/**
  The decode worker: it turns decoder results into bounded responses and serves
  requests from its input until the stream ends or falls out of step.
 */
module Worker {
  import opened Arith
  import opened Wrappers
  import opened Bytes
  import opened Protocol
  import FormatRefusal
  import Utf8

  datatype DecodedOutput = DecodedOutput(width: U32, height: U32, rgba: seq<Byte>, colorProfile: ColorProfile)

  type Codec = seq<Byte> -> Result<DecodedOutput, string>

  /** The optional C decoders a build of the worker contains. */
  datatype Build = Build(avif: Option<Codec>, heic: Option<Codec>)

  function ValidateDecoded(decoded: DecodedOutput): Result<DecodedOutput, string> {
    match CheckedRgbaLen(decoded.width, decoded.height)
    case Err(error) => Err(ShapeText(error))
    case Ok(expected) =>
      if expected != |decoded.rgba| then Err("decoder returned an invalid RGBA buffer") else Ok(decoded)
  }

  const AVIF_DETAIL := "AVIF support requires building viewr-decode with --features avif (and libavif)"
  const HEIC_DETAIL := "HEIC/HEIF support requires building viewr-decode with --features heic (and libheif)"
  const RAW_DETAIL := "camera RAW is deferred from 1.0; see docs/FORMATS.md"

  function DecodeInput(build: Build, r: DecodeRequest): Result<DecodedOutput, string> {
    if r.format == "avif" then
      match build.avif
      case Some(codec) => codec(r.encoded)
      case None => Err(FormatRefusal.Message(FormatRefusal.Avif, AVIF_DETAIL))
    else if r.format == "heic" || r.format == "heif" then
      match build.heic
      case Some(codec) => codec(r.encoded)
      case None => Err(FormatRefusal.Message(FormatRefusal.Heic, HEIC_DETAIL))
    else if r.format in {"cr2", "nef", "arw", "dng", "rw2", "orf", "raf"} then
      Err(FormatRefusal.Message(FormatRefusal.Raw, RAW_DETAIL))
    else Err("unsupported worker format")
  }

  // ----- bounded error text

  const EMPTY_FAILURE := "worker decode failed"

  function Cleaned(message: string): string {
    seq(|message|, i requires 0 <= i < |message| => if IsControl(message[i]) then ' ' else message[i])
  }

  /** The longest prefix whose encoding stays within the limit. */
  function LongestFitting(s: string, limit: nat): string {
    if |s| == 0 || |Utf8.EncodeChar(s[0])| > limit then ""
    else [s[0]] + LongestFitting(s[1..], limit - |Utf8.EncodeChar(s[0])|)
  }

  function BoundedText(message: string): string {
    var bounded := LongestFitting(Cleaned(message), MAX_WORKER_ERROR_BYTES);
    if bounded == "" then EMPTY_FAILURE else bounded
  }

  /** The longest fitting prefix fits, and one more character would not. */
  lemma {:induction false} LongestFits(s: string, limit: nat)
    ensures var p := LongestFitting(s, limit);
      && p <= s && |Utf8.Encode(p)| <= limit
      && (p != s ==> |Utf8.Encode(p + [s[|p|]])| > limit)
  {
    if |s| > 0 && |Utf8.EncodeChar(s[0])| <= limit {
      LongestFits(s[1..], limit - |Utf8.EncodeChar(s[0])|);
      var q := LongestFitting(s[1..], limit - |Utf8.EncodeChar(s[0])|);
      var p := LongestFitting(s, limit);
      assert p == [s[0]] + q && p[1..] == q;
      assert s == [s[0]] + s[1..];
      if p != s {
        assert (p + [s[|p|]])[1..] == q + [s[1..][|q|]];
      }
    } else if |s| > 0 {
      assert LongestFitting(s, limit) == "" && "" + [s[0]] == [s[0]];
      assert Utf8.Encode([s[0]]) == Utf8.EncodeChar(s[0]) + Utf8.Encode([]);
    }
  }

  lemma PlainTextIsValid(s: string)
    requires 1 <= |s| <= MAX_WORKER_ERROR_BYTES
    requires forall i :: 0 <= i < |s| ==> 0x20 <= s[i] as int < 0x7F
    ensures ValidResponse(Error(s))
  {
    Utf8.EncodeAscii(s);
  }

  /** Every decoder message becomes an error the writer accepts. */
  lemma BoundedTextIsValid(message: string)
    ensures ValidResponse(Error(BoundedText(message)))
  {
    var cleaned := Cleaned(message);
    var bounded := LongestFitting(cleaned, MAX_WORKER_ERROR_BYTES);
    LongestFits(cleaned, MAX_WORKER_ERROR_BYTES);
    if bounded == "" {
      PlainTextIsValid(BoundedText(message));
    } else {
      assert forall i :: 0 <= i < |bounded| ==> bounded[i] == cleaned[i];
      assert ValidWorkerError(bounded);
    }
  }

  lemma {:induction false} AsciiPrefixFits(head: string, s: string, limit: nat)
    requires Utf8.IsAscii(head) && head <= s && |head| <= limit
    ensures head <= LongestFitting(s, limit)
  {
    if |head| > 0 {
      assert s[0] == head[0];
      assert |Utf8.EncodeChar(s[0])| == 1;
      AsciiPrefixFits(head[1..], s[1..], limit - 1);
      assert head == [head[0]] + head[1..];
    }
  }

  /** Cleaning and truncating an error line never hides the format refusal it reports. */
  lemma RefusalSurvivesBounding(r: FormatRefusal.Refusal, detail: string)
    ensures FormatRefusal.Parse(BoundedText(FormatRefusal.Message(r, detail))) == Some(r)
  {
    var message := FormatRefusal.Message(r, detail);
    var head := FormatRefusal.FORMAT_REFUSAL_PREFIX + FormatRefusal.Token(r) + " ";
    assert message == head + detail;
    assert Cleaned(head) == head;
    assert head <= Cleaned(message) by {
      assert forall i :: 0 <= i < |head| ==> Cleaned(message)[i] == Cleaned(head)[i];
    }
    AsciiPrefixFits(head, Cleaned(message), MAX_WORKER_ERROR_BYTES);
    FormatRefusal.RefusalFoundFirst(r, BoundedText(message));
  }

  /** The characters taken so far, continued greedily from `i`, are the longest fitting prefix. */
  ghost predicate Taken(s: string, taken: string, i: nat) {
    && i <= |s| && |Utf8.Encode(taken)| <= MAX_WORKER_ERROR_BYTES
    && taken + LongestFitting(s[i..], MAX_WORKER_ERROR_BYTES - |Utf8.Encode(taken)|)
       == LongestFitting(s, MAX_WORKER_ERROR_BYTES)
  }

  /** One more character is taken exactly when it fits; otherwise the prefix is complete. */
  lemma TakeOne(s: string, taken: string, i: nat)
    requires i < |s| && Taken(s, taken, i)
    ensures var size := |Utf8.Encode(taken)| + |Utf8.EncodeChar(s[i])|;
      && |Utf8.Encode(taken + [s[i]])| == size
      && (size <= MAX_WORKER_ERROR_BYTES ==> Taken(s, taken + [s[i]], i + 1))
      && (size > MAX_WORKER_ERROR_BYTES ==> taken == LongestFitting(s, MAX_WORKER_ERROR_BYTES))
  {
    Utf8.EncodeConcat(taken, [s[i]]);
    assert Utf8.Encode([s[i]]) == Utf8.EncodeChar(s[i]) + Utf8.Encode([]);
    assert s[i..][1..] == s[i + 1..];
    var size := |Utf8.Encode(taken)| + |Utf8.EncodeChar(s[i])|;
    if size <= MAX_WORKER_ERROR_BYTES {
      var later := LongestFitting(s[i + 1..], MAX_WORKER_ERROR_BYTES - size);
      assert taken + ([s[i]] + later) == taken + [s[i]] + later;
    }
  }

  lemma TakenAll(s: string, taken: string)
    requires Taken(s, taken, |s|)
    ensures taken == LongestFitting(s, MAX_WORKER_ERROR_BYTES)
  {
    assert s[|s|..] == [];
  }

  /** Build the bounded response character by character. */
  method WorkerError(message: string) returns (response: WorkerResponse)
    ensures response == Error(BoundedText(message))
    ensures ValidResponse(response)
  {
    BoundedTextIsValid(message);
    ghost var cleaned := Cleaned(message);
    assert cleaned[0..] == cleaned;
    var bounded, used, i := "", 0, 0;
    while i < |message|
      invariant i <= |message| && used == |Utf8.Encode(bounded)|
      invariant Taken(cleaned, bounded, i)
    {
      var character := if IsControl(message[i]) then ' ' else message[i];
      TakeOne(cleaned, bounded, i);
      if used + |Utf8.EncodeChar(character)| > MAX_WORKER_ERROR_BYTES {
        return Error(if bounded == "" then EMPTY_FAILURE else bounded);
      }
      bounded := bounded + [character];
      used := used + |Utf8.EncodeChar(character)|;
      i := i + 1;
    }
    TakenAll(cleaned, bounded);
    response := Error(if bounded == "" then EMPTY_FAILURE else bounded);
  }

  // ----- rows with padding

  const USIZE_LIMIT: nat := 0x1_0000_0000_0000_0000

  /** The first `rowBytes` bytes of each of `rows` rows that lie `stride` bytes apart. */
  function PackedRows(data: seq<Byte>, rowBytes: nat, stride: nat, rows: nat): seq<Byte>
    requires rowBytes <= stride && Pixels(stride, rows) <= |data|
    decreases rows
  {
    if rows == 0 then []
    else
      NextRow(stride, rows - 1);
      var start := Pixels(stride, rows - 1);
      PackedRows(data, rowBytes, stride, rows - 1) + data[start..start + rowBytes]
  }

  /** Row `y` of the packed pixels is row `y` of the data without its padding. */
  lemma {:induction false} PackedRow(data: seq<Byte>, rowBytes: nat, stride: nat, rows: nat, y: nat)
    requires rowBytes <= stride && Pixels(stride, rows) <= |data| && y < rows
    ensures |PackedRows(data, rowBytes, stride, rows)| == Pixels(rowBytes, rows)
    ensures Pixels(rowBytes, y) + rowBytes <= Pixels(rowBytes, rows)
    ensures Pixels(stride, y) + rowBytes <= |data|
    ensures PackedRows(data, rowBytes, stride, rows)[Pixels(rowBytes, y)..Pixels(rowBytes, y) + rowBytes]
            == data[Pixels(stride, y)..Pixels(stride, y) + rowBytes]
  {
    NextRow(stride, rows - 1);
    NextRow(rowBytes, rows - 1);
    var shorter := PackedRows(data, rowBytes, stride, rows - 1);
    if y < rows - 1 {
      PackedRow(data, rowBytes, stride, rows - 1, y);
    } else {
      PackedLength(data, rowBytes, stride, rows - 1);
    }
  }

  lemma {:induction false} PackedLength(data: seq<Byte>, rowBytes: nat, stride: nat, rows: nat)
    requires rowBytes <= stride && Pixels(stride, rows) <= |data|
    ensures |PackedRows(data, rowBytes, stride, rows)| == Pixels(rowBytes, rows)
  {
    if rows > 0 {
      NextRow(stride, rows - 1);
      NextRow(rowBytes, rows - 1);
      PackedLength(data, rowBytes, stride, rows - 1);
    }
  }

  /** What is reported for rows that cannot be copied. */
  function StrideRefusal(width: U32, height: U32, stride: nat): string {
    match CheckedRgbaLen(width, height)
    case Err(error) => ShapeText(error)
    case Ok(_) =>
      if stride < 4 * width as int then "decoder returned an invalid RGBA stride"
      else if Pixels(stride, height) >= USIZE_LIMIT then "decoder returned an invalid RGBA buffer"
      else "decoder returned a truncated RGBA buffer"
  }

  /** Copy the pixels of each row, leaving the padding between rows out. */
  method CopyStridedRgba(data: seq<Byte>, width: U32, height: U32, stride: nat) returns (r: Result<seq<Byte>, string>)
    requires |data| < USIZE_LIMIT && stride < USIZE_LIMIT
    ensures r.Ok? <==>
      CheckedRgbaLen(width, height).Ok? && 4 * width as int <= stride && Pixels(stride, height) <= |data|
    ensures r.Ok? ==> r.value == PackedRows(data, 4 * width as int, stride, height)
    ensures r.Ok? ==> CheckedRgbaLen(width, height) == Ok(|r.value|)
    ensures r.Err? ==> r.error == StrideRefusal(width, height, stride)
  {
    var expected := CheckedRgbaLen(width, height);
    if expected.Err? {
      return Err(ShapeText(expected.error));
    }
    var rowBytes: nat := 4 * width as int;
    if stride < rowBytes {
      return Err("decoder returned an invalid RGBA stride");
    }
    var required := Pixels(stride, height);
    if required >= USIZE_LIMIT {
      return Err("decoder returned an invalid RGBA buffer");
    }
    if |data| < required {
      return Err("decoder returned a truncated RGBA buffer");
    }
    var rgba: seq<Byte> := [];
    var row: nat := 0;
    RowFits(stride, 0, height);
    while row < height
      invariant row <= height && Pixels(stride, row) <= |data|
      invariant rgba == PackedRows(data, rowBytes, stride, row)
    {
      NextRow(stride, row);
      RowFits(stride, row + 1, height);
      var start := Pixels(stride, row);
      rgba := rgba + data[start..start + rowBytes];
      row := row + 1;
    }
    PackedLength(data, rowBytes, stride, height);
    Regrouped(width, height);
    r := Ok(rgba);
  }

  lemma NextRow(stride: nat, row: nat)
    ensures Pixels(stride, row + 1) == Pixels(stride, row) + stride
  {
    assert stride * (row + 1) == stride * row + stride;
  }

  lemma RowFits(stride: nat, a: nat, b: nat)
    requires a <= b
    ensures Pixels(stride, a) <= Pixels(stride, b)
  {
    assert stride * b == stride * a + stride * (b - a);
  }

  lemma Regrouped(width: nat, height: nat)
    ensures Pixels(4 * width, height) == 4 * Pixels(width, height)
  {
    assert 4 * width * height == 4 * (width * height);
  }

  // ----- serving requests

  /** What the parent gets for one request: a response, and the pixels behind a pixel stream. */
  datatype Reply = Reply(response: WorkerResponse, pixels: seq<Byte>)

  predicate IsProbe(r: DecodeRequest) {
    r.format == PROBE_FORMAT && r.encoded == []
  }

  function Outcome(build: Build, r: DecodeRequest): Result<DecodedOutput, string> {
    match DecodeInput(build, r)
    case Ok(decoded) => ValidateDecoded(decoded)
    case Err(error) => Err(error)
  }

  function Answer(build: Build, r: DecodeRequest): Reply {
    if IsProbe(r) then Reply(Probe, [])
    else match Outcome(build, r)
      case Ok(d) => Reply(PixelStream(d.width, d.height, d.colorProfile), d.rgba)
      case Err(error) => Reply(Error(BoundedText(error)), [])
  }

  /** The bytes that carry one reply. */
  function Wire(reply: Reply): seq<Byte> {
    ResponseFrame(reply.response) + reply.pixels
  }

  /** A reply whose response can be written, with exactly the pixels its shape announces. */
  predicate ProperReply(reply: Reply) {
    && ValidResponse(reply.response)
    && match reply.response
       case PixelStream(width, height, _) => CheckedRgbaLen(width, height) == Ok(|reply.pixels|)
       case _ => reply.pixels == []
  }

  function RefusedRequest(error: IoError): WorkerResponse {
    Error(BoundedText("invalid request: " + ErrorText(error)))
  }

  lemma RequestShrinks(s: seq<Byte>)
    requires ReadRequest(s).Ok? && ReadRequest(s).value.0.Some?
    ensures |ReadRequest(s).value.1| < |s|
  {
  }

  /** Everything the worker writes when its whole input is `s`. */
  function Transcript(build: Build, s: seq<Byte>): seq<Byte>
    decreases |s|
  {
    match ReadRequest(s)
    case Err(error) => ResponseFrame(RefusedRequest(error))
    case Ok((None, _)) => []
    case Ok((Some(r), rest)) =>
      RequestShrinks(s);
      var reply := Answer(build, r);
      if !ValidResponse(reply.response) then []
      else if !reply.response.PixelStream? then Wire(reply) + Transcript(build, rest)
      else match ReadAckBytes(rest)
        case Ok(next) => Wire(reply) + Transcript(build, next)
        case Err(_) => Wire(reply)
  }

  method ComputeAnswer(build: Build, r: DecodeRequest) returns (reply: Reply)
    ensures reply == Answer(build, r)
  {
    if r.format == PROBE_FORMAT && r.encoded == [] {
      return Reply(Probe, []);
    }
    match Outcome(build, r) {
      case Ok(d) =>
        reply := Reply(PixelStream(d.width, d.height, d.colorProfile), d.rgba);
      case Err(error) =>
        var failure := WorkerError(error);
        reply := Reply(failure, []);
    }
  }

  /** Send the answer to one request; a response the writer refuses sends nothing. */
  method Respond(reply: Reply, output: Sink) returns (sent: bool)
    modifies output
    ensures sent == ValidResponse(reply.response)
    ensures output.written == old(output.written) + (if sent then Wire(reply) else [])
  {
    var written := WriteWorkerResponse(output, reply.response);
    sent := written.Ok?;
    ConcatAssociates(old(output.written), ResponseFrame(reply.response), reply.pixels);
    if sent {
      output.WriteAll(reply.pixels);
    }
  }

  /** Serve one request; `more` says whether the loop goes on. */
  method ServeOne(build: Build, input: Source, output: Sink) returns (more: bool)
    modifies input, output
    ensures more ==> |input.rest| < old(|input.rest|)
    ensures output.written + (if more then Transcript(build, input.rest) else [])
            == old(output.written) + Transcript(build, old(input.rest))
  {
    ghost var s := input.rest;
    var request := ReadDecodeRequest(input);
    if request.Err? {
      var refusal := WorkerError("invalid request: " + ErrorText(request.error));
      var refused := WriteWorkerResponse(output, refusal);
      return false;
    }
    if request.value.None? {
      return false;
    }
    var r := request.value.value;
    RequestShrinks(s);
    var reply := ComputeAnswer(build, r);
    var sent := Respond(reply, output);
    if !sent {
      return false;
    }
    if reply.response.PixelStream? {
      var ack := ReadAck(input);
      if ack.Err? {
        return false;
      }
    }
    ConcatAssociates(old(output.written), Wire(reply), Transcript(build, input.rest));
    more := true;
  }

  /** The worker's loop, from its first request to the end of its input. */
  method Serve(build: Build, input: Source, output: Sink)
    modifies input, output
    ensures output.written == old(output.written) + Transcript(build, old(input.rest))
  {
    var more := true;
    while more
      invariant output.written + (if more then Transcript(build, input.rest) else [])
                == old(output.written) + Transcript(build, old(input.rest))
      decreases more, |input.rest|
    {
      more := ServeOne(build, input, output);
    }
  }
}
