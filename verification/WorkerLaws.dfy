/**
  What serving requests in sequence guarantees: one proper reply per request, in
  order, and a parent that reads replies finds every frame where it starts.
 */
module WorkerLaws {
  import opened Wrappers
  import opened Bytes
  import opened Protocol
  import opened ProtocolLaws
  import opened Worker
  import FormatRefusal
  import Utf8

  /** The codec, if there is one, returns only profiles that fit a response. */
  ghost predicate BoundedProfiles(codec: Option<Codec>) {
    codec.Some? ==> forall encoded :: codec.value(encoded).Ok? ==> ValidProfile(codec.value(encoded).value.colorProfile)
  }

  ghost predicate Trustworthy(build: Build) {
    BoundedProfiles(build.avif) && BoundedProfiles(build.heic)
  }

  /** Validation makes an answer proper exactly when its color profile fits. */
  lemma AnswerIsProper(build: Build, r: DecodeRequest)
    ensures ProperReply(Answer(build, r)) <==>
      (!IsProbe(r) && Outcome(build, r).Ok? ==> ValidProfile(Outcome(build, r).value.colorProfile))
  {
    if !IsProbe(r) && Outcome(build, r).Err? {
      BoundedTextIsValid(Outcome(build, r).error);
    }
  }

  lemma TrustworthyAnswers(build: Build, r: DecodeRequest)
    requires Trustworthy(build)
    ensures ProperReply(Answer(build, r))
  {
    AnswerIsProper(build, r);
  }

  // ----- what a request is answered with

  /** The codec a build has for a format name. */
  ghost function CodecFor(build: Build, format: string): Option<Codec> {
    if format == "avif" then build.avif
    else if format in {"heic", "heif"} then build.heic
    else None
  }

  /** The refusal of a format that has no codec. */
  ghost function RefusalFor(format: string): Option<FormatRefusal.Refusal> {
    if format == "avif" then Some(FormatRefusal.Avif)
    else if format in {"heic", "heif"} then Some(FormatRefusal.Heic)
    else if format in {"cr2", "nef", "arw", "dng", "rw2", "orf", "raf"} then Some(FormatRefusal.Raw)
    else None
  }

  /**
    The text is the message with its control characters as spaces, cut after the last
    character that keeps the encoding within the limit; an empty message has a text of
    its own.
   */
  ghost predicate Abridges(text: string, message: string) {
    if message == "" then text == EMPTY_FAILURE
    else
      && 0 < |text| <= |message|
      && (forall i :: 0 <= i < |text| ==> text[i] == if IsControl(message[i]) then ' ' else message[i])
      && |Utf8.Encode(text)| <= MAX_WORKER_ERROR_BYTES
      && (|text| < |message| ==>
            var next := if IsControl(message[|text|]) then ' ' else message[|text|];
            |Utf8.Encode(text + [next])| > MAX_WORKER_ERROR_BYTES)
  }

  lemma BoundedTextAbridges(message: string)
    ensures Abridges(BoundedText(message), message)
  {
    hide Utf8.EncodeChar;
    var cleaned := Cleaned(message);
    LongestFits(cleaned, MAX_WORKER_ERROR_BYTES);
    if message != "" {
      OneCharFits(cleaned);
      var text := BoundedText(message);
      assert text <= cleaned;
      assert forall i :: 0 <= i < |text| ==> text[i] == cleaned[i];
    }
  }

  lemma OneCharFits(s: string)
    requires s != ""
    ensures LongestFitting(s, MAX_WORKER_ERROR_BYTES) != ""
  {
    assert |Utf8.EncodeChar(s[0])| <= 4;
  }

  /** An error reply whose text abridges the message. */
  ghost predicate Reports(reply: Reply, message: string) {
    reply.response.Error? && Abridges(reply.response.message, message) && reply.pixels == []
  }

  /** An error reply that names the refusal; without one, that of an unknown format. */
  ghost predicate Refuses(reply: Reply, refusal: Option<FormatRefusal.Refusal>) {
    && reply.response.Error? && reply.pixels == []
    && if refusal.Some? then FormatRefusal.Parse(reply.response.message) == refusal
       else reply.response.message == "unsupported worker format"
  }

  /**
    The reply a request must get: the probe its own, a decoded image its shape, profile
    and pixels, a decoder's failure or an image of the wrong size its reason, and a
    format without a codec its refusal.
   */
  ghost predicate RightReply(build: Build, r: DecodeRequest, reply: Reply) {
    if r == DecodeRequest(PROBE_FORMAT, []) then reply == Reply(Probe, [])
    else
      match CodecFor(build, r.format)
      case None => Refuses(reply, RefusalFor(r.format))
      case Some(codec) =>
        match codec(r.encoded)
        case Err(message) => Reports(reply, message)
        case Ok(d) =>
          match CheckedRgbaLen(d.width, d.height)
          case Err(error) => Reports(reply, ShapeText(error))
          case Ok(n) =>
            if n == |d.rgba| then reply == Reply(PixelStream(d.width, d.height, d.colorProfile), d.rgba)
            else Reports(reply, "decoder returned an invalid RGBA buffer")
  }

  lemma PlainTextStays(text: string)
    requires 1 <= |text| <= MAX_WORKER_ERROR_BYTES
    requires forall i :: 0 <= i < |text| ==> 0x20 <= text[i] as int < 0x7F
    ensures BoundedText(text) == text
  {
    assert Cleaned(text) == text;
    AsciiPrefixFits(text, text, MAX_WORKER_ERROR_BYTES);
    LongestFits(text, MAX_WORKER_ERROR_BYTES);
  }

  lemma AnswerIsRight(build: Build, r: DecodeRequest)
    ensures RightReply(build, r, Answer(build, r))
  {
    hide BoundedText, Abridges, FormatRefusal.Parse, FormatRefusal.Message;
    if !IsProbe(r) && Outcome(build, r).Err? {
      BoundedTextAbridges(Outcome(build, r).error);
      RefusalSurvivesBounding(FormatRefusal.Avif, AVIF_DETAIL);
      RefusalSurvivesBounding(FormatRefusal.Heic, HEIC_DETAIL);
      RefusalSurvivesBounding(FormatRefusal.Raw, RAW_DETAIL);
      PlainTextStays("unsupported worker format");
    }
  }

  // ----- the two scripts of a conforming session

  /** An acknowledgement follows exactly the pixel streams. */
  function AckFor(reply: Reply): seq<Byte> {
    if reply.response.PixelStream? then ACK_FRAME else []
  }

  function ParentScript(build: Build, rs: seq<DecodeRequest>): seq<Byte>
    requires forall r :: r in rs ==> ValidRequest(r)
  {
    if |rs| == 0 then []
    else RequestFrame(rs[0]) + (AckFor(Answer(build, rs[0])) + ParentScript(build, rs[1..]))
  }

  function WorkerScript(build: Build, rs: seq<DecodeRequest>): seq<Byte> {
    if |rs| == 0 then [] else Wire(Answer(build, rs[0])) + WorkerScript(build, rs[1..])
  }

  lemma ServeOneInStep(build: Build, r: DecodeRequest, tail: seq<Byte>)
    requires ValidRequest(r) && ProperReply(Answer(build, r))
    ensures Transcript(build, RequestFrame(r) + (AckFor(Answer(build, r)) + tail))
            == Wire(Answer(build, r)) + Transcript(build, tail)
  {
    var reply := Answer(build, r);
    var rest := AckFor(reply) + tail;
    RequestRoundTrip(r, rest);
    if reply.response.PixelStream? {
      AckCanonical(rest, tail);
    } else {
      assert rest == tail;
    }
  }

  /**
    After any conforming exchange the worker is in step: each request has had its
    one reply, in order, and what follows is served as if the stream began there.
   */
  lemma {:induction false} ExchangeKeepsInStep(build: Build, rs: seq<DecodeRequest>, tail: seq<Byte>)
    requires Trustworthy(build) && forall r :: r in rs ==> ValidRequest(r)
    ensures Transcript(build, ParentScript(build, rs) + tail) == WorkerScript(build, rs) + Transcript(build, tail)
  {
    if |rs| == 0 {
      assert ParentScript(build, rs) + tail == tail;
      assert WorkerScript(build, rs) + Transcript(build, tail) == Transcript(build, tail);
    } else {
      var r := rs[0];
      var later := ParentScript(build, rs[1..]);
      TrustworthyAnswers(build, r);
      ExchangeKeepsInStep(build, rs[1..], tail);
      ServeOneInStep(build, r, later + tail);
      PushTail(RequestFrame(r), AckFor(Answer(build, r)), later, tail);
      ConcatAssociates(Wire(Answer(build, r)), WorkerScript(build, rs[1..]), Transcript(build, tail));
    }
  }

  lemma PushTail(a: seq<Byte>, b: seq<Byte>, c: seq<Byte>, tail: seq<Byte>)
    ensures a + (b + c) + tail == a + (b + (c + tail))
  {
  }

  /** A request cut short after a conforming exchange gets one error response and ends the session. */
  lemma CutShort(build: Build, rs: seq<DecodeRequest>, last: DecodeRequest, n: nat)
    requires Trustworthy(build) && ValidRequest(last) && forall r :: r in rs ==> ValidRequest(r)
    requires 0 < n < |RequestFrame(last)|
    ensures Transcript(build, ParentScript(build, rs) + RequestFrame(last)[..n])
            == WorkerScript(build, rs) + ResponseFrame(RefusedRequest(UnexpectedEof))
  {
    ExchangeKeepsInStep(build, rs, RequestFrame(last)[..n]);
    RequestTruncated(last, n);
  }

  // ----- reading replies

  /** The parent's side: one response, and exactly the pixels its shape announces. */
  function ReadReply(s: seq<Byte>): Option<(Reply, seq<Byte>)> {
    match ReadResponse(s)
    case Err(_) => None
    case Ok((response, rest)) =>
      match response
      case PixelStream(width, height, _) =>
        (match CheckedRgbaLen(width, height)
         case Err(_) => None
         case Ok(n) => if |rest| < n then None else Some((Reply(response, rest[..n]), rest[n..])))
      case _ => Some((Reply(response, []), rest))
  }

  function ReadReplies(s: seq<Byte>, n: nat): Option<(seq<Reply>, seq<Byte>)> {
    if n == 0 then Some(([], s))
    else match ReadReply(s)
      case None => None
      case Some((reply, rest)) =>
        match ReadReplies(rest, n - 1)
        case None => None
        case Some((replies, tail)) => Some(([reply] + replies, tail))
  }

  lemma WireRoundTrip(reply: Reply, tail: seq<Byte>)
    requires ProperReply(reply)
    ensures ReadReply(Wire(reply) + tail) == Some((reply, tail))
  {
    ResponseRoundTrip(reply.response, reply.pixels + tail);
    ConcatAssociates(ResponseFrame(reply.response), reply.pixels, tail);
    var rest := reply.pixels + tail;
    assert rest[..|reply.pixels|] == reply.pixels && rest[|reply.pixels|..] == tail;
  }

  function Wires(replies: seq<Reply>): seq<Byte> {
    if |replies| == 0 then [] else Wire(replies[0]) + Wires(replies[1..])
  }

  lemma ReadOneMore(s: seq<Byte>, rest: seq<Byte>, reply: Reply, replies: seq<Reply>, tail: seq<Byte>)
    requires ReadReply(s) == Some((reply, rest)) && ReadReplies(rest, |replies|) == Some((replies, tail))
    ensures ReadReplies(s, 1 + |replies|) == Some(([reply] + replies, tail))
  {
    hide ReadReply;
  }

  /** Proper replies read back one by one; no pixel byte is taken for a header. */
  lemma {:induction false} RepliesRoundTrip(replies: seq<Reply>, tail: seq<Byte>)
    requires forall reply :: reply in replies ==> ProperReply(reply)
    ensures ReadReplies(Wires(replies) + tail, |replies|) == Some((replies, tail))
  {
    if |replies| == 0 {
      assert Wires(replies) + tail == tail;
    } else {
      hide Wire, ReadReply, ProperReply, ReadReplies;
      var later := Wires(replies[1..]) + tail;
      ConcatAssociates(Wire(replies[0]), Wires(replies[1..]), tail);
      WireRoundTrip(replies[0], later);
      RepliesRoundTrip(replies[1..], tail);
      ReadOneMore(Wire(replies[0]) + later, later, replies[0], replies[1..], tail);
      assert replies == [replies[0]] + replies[1..];
    }
  }

  function Answers(build: Build, rs: seq<DecodeRequest>): seq<Reply> {
    if |rs| == 0 then [] else [Answer(build, rs[0])] + Answers(build, rs[1..])
  }

  lemma {:induction false} ScriptCarriesAnswers(build: Build, rs: seq<DecodeRequest>)
    ensures WorkerScript(build, rs) == Wires(Answers(build, rs))
    ensures |Answers(build, rs)| == |rs|
    ensures forall i :: 0 <= i < |rs| ==> Answers(build, rs)[i] == Answer(build, rs[i])
  {
    if |rs| > 0 {
      ScriptCarriesAnswers(build, rs[1..]);
      assert Answers(build, rs)[1..] == Answers(build, rs[1..]);
    }
  }

  /** Reading what the worker wrote for a conforming parent yields each request's answer, in order. */
  lemma ParentReadsEveryAnswer(build: Build, rs: seq<DecodeRequest>)
    requires Trustworthy(build) && forall r :: r in rs ==> ValidRequest(r)
    ensures ReadReplies(Transcript(build, ParentScript(build, rs)), |rs|) == Some((Answers(build, rs), []))
  {
    ExchangeKeepsInStep(build, rs, []);
    assert ParentScript(build, rs) + [] == ParentScript(build, rs);
    assert Transcript(build, []) == [];
    ScriptCarriesAnswers(build, rs);
    forall reply | reply in Answers(build, rs)
      ensures ProperReply(reply)
    {
      var i :| 0 <= i < |rs| && Answers(build, rs)[i] == reply;
      TrustworthyAnswers(build, rs[i]);
    }
    RepliesRoundTrip(Answers(build, rs), []);
  }

  /** The parent of a conforming session reads, for every request in order, the reply it must get. */
  lemma ParentReadsRightReplies(build: Build, rs: seq<DecodeRequest>)
    requires Trustworthy(build) && forall r :: r in rs ==> ValidRequest(r)
    ensures var read := ReadReplies(Transcript(build, ParentScript(build, rs)), |rs|);
      && read.Some? && |read.value.0| == |rs| && read.value.1 == []
      && forall i :: 0 <= i < |rs| ==> RightReply(build, rs[i], read.value.0[i])
  {
    ParentReadsEveryAnswer(build, rs);
    ScriptCarriesAnswers(build, rs);
    hide Transcript, ReadReplies, ParentScript, RightReply;
    forall i | 0 <= i < |rs|
      ensures RightReply(build, rs[i], Answers(build, rs)[i])
    {
      AnswerIsRight(build, rs[i]);
    }
  }

  /**
    One request on its own: its whole transcript reads back as the reply it must get. The
    session ends without one exactly when the decoder's profile is out of bounds.
   */
  lemma OneRequest(build: Build, r: DecodeRequest)
    requires ValidRequest(r)
    ensures var read := ReadReplies(Transcript(build, RequestFrame(r)), 1);
      if ProfileOutOfBounds(build, r) then Transcript(build, RequestFrame(r)) == []
      else read.Some? && |read.value.0| == 1 && read.value.1 == [] && RightReply(build, r, read.value.0[0])
  {
    var reply := Answer(build, r);
    AnswerIsRight(build, r);
    RequestRoundTrip(r, []);
    assert RequestFrame(r) + [] == RequestFrame(r);
    LoneTranscript(build, r);
    OnlyProfilesStop(build, r);
    hide Transcript, ReadReply, ReadReplies, RightReply, Answer, ProperReply, ProfileOutOfBounds;
    if ProperReply(reply) {
      assert [reply][1..] == [] && Wires([]) == [];
      assert Wires([reply]) + [] == Wire(reply);
      RepliesRoundTrip([reply], []);
    }
  }

  /** The codec decoded the image, but a response cannot carry its profile. */
  ghost predicate ProfileOutOfBounds(build: Build, r: DecodeRequest) {
    && r != DecodeRequest(PROBE_FORMAT, [])
    && CodecFor(build, r.format).Some?
    && var d := CodecFor(build, r.format).value(r.encoded);
    && d.Ok? && CheckedRgbaLen(d.value.width, d.value.height) == Ok(|d.value.rgba|)
    && !ValidProfile(d.value.colorProfile)
  }

  lemma OnlyProfilesStop(build: Build, r: DecodeRequest)
    ensures ProperReply(Answer(build, r)) <==> !ProfileOutOfBounds(build, r)
    ensures ProperReply(Answer(build, r)) <==> ValidResponse(Answer(build, r).response)
  {
    AnswerIsProper(build, r);
    hide BoundedText, Utf8.Encode;
  }

  lemma LoneTranscript(build: Build, r: DecodeRequest)
    requires ValidRequest(r)
    ensures Transcript(build, RequestFrame(r)) ==
      if ValidResponse(Answer(build, r).response) then Wire(Answer(build, r)) else []
  {
    RequestRoundTrip(r, []);
    assert RequestFrame(r) + [] == RequestFrame(r);
    hide Answer, Wire, ValidResponse, RequestFrame;
    assert Transcript(build, []) == [];
    assert ReadAckBytes([]).Err?;
  }

  // ----- any input at all

  /** The replies behind a transcript, whatever the input. */
  ghost function TranscriptReplies(build: Build, s: seq<Byte>): seq<Reply>
    decreases |s|
  {
    match ReadRequest(s)
    case Err(error) => [Reply(RefusedRequest(error), [])]
    case Ok((None, _)) => []
    case Ok((Some(r), rest)) =>
      RequestShrinks(s);
      var reply := Answer(build, r);
      if !reply.response.PixelStream? then [reply] + TranscriptReplies(build, rest)
      else match ReadAckBytes(rest)
        case Ok(next) => [reply] + TranscriptReplies(build, next)
        case Err(_) => [reply]
  }

  /** Whatever bytes arrive, what the worker writes is a sequence of whole, proper replies. */
  lemma {:induction false} OutputIsWholeReplies(build: Build, s: seq<Byte>)
    requires Trustworthy(build)
    ensures Transcript(build, s) == Wires(TranscriptReplies(build, s))
    ensures forall reply :: reply in TranscriptReplies(build, s) ==> ProperReply(reply)
    decreases |s|
  {
    match ReadRequest(s)
    case Err(error) =>
      BoundedTextIsValid("invalid request: " + ErrorText(error));
    case Ok((None, _)) =>
    case Ok((Some(r), rest)) =>
      RequestShrinks(s);
      TrustworthyAnswers(build, r);
      var reply := Answer(build, r);
      if !reply.response.PixelStream? {
        OutputIsWholeReplies(build, rest);
        OneMoreReply(reply, TranscriptReplies(build, rest));
      } else if ReadAckBytes(rest).Ok? {
        OutputIsWholeReplies(build, ReadAckBytes(rest).value);
        OneMoreReply(reply, TranscriptReplies(build, ReadAckBytes(rest).value));
      }
  }

  lemma OneMoreReply(reply: Reply, replies: seq<Reply>)
    ensures Wires([reply] + replies) == Wire(reply) + Wires(replies)
  {
    assert ([reply] + replies)[1..] == replies;
  }
}
