/**
  The parent and the worker as two processes over bounded pipes.

  Every action moves one byte between a process and a pipe, so every scheduling
  of the real reads and writes is a sequence of these actions. A process does its
  own computing at the byte that completes a frame. The parent conforms: it
  writes a request, reads its response, reads exactly the announced pixels,
  acknowledges them, and closes the pipe after its last request.
 */
module Session {
  import opened Wrappers
  import opened Bytes
  import opened Protocol
  import opened ProtocolLaws
  import opened Worker
  import opened WorkerLaws

  /** The worker's build, what the parent asks, and how many bytes a pipe holds. */
  datatype Setup = Setup(build: Build, requests: seq<DecodeRequest>, capacity: nat)

  ghost predicate Conforming(c: Setup) {
    Trustworthy(c.build) && c.capacity >= 1 && forall r :: r in c.requests ==> ValidRequest(r)
  }

  datatype Parent =
    | Sending(i: nat, out: seq<Byte>)
    | Receiving(i: nat, got: seq<Byte>)
    | TakingPixels(i: nat, response: WorkerResponse, got: seq<Byte>)
    | Acking(i: nat, out: seq<Byte>)
    | Closed
    | Broken

  /** `i` counts the requests the worker has finished; it is a label, not a message field. */
  datatype Server =
    | Reading(i: nat, got: seq<Byte>)
    | Writing(i: nat, out: seq<Byte>, pixels: bool)
    | AwaitingAck(i: nat, got: seq<Byte>)
    | Refusing(out: seq<Byte>)
    | Exited

  datatype State = State(parent: Parent, worker: Server, up: seq<Byte>, down: seq<Byte>, log: seq<Reply>)

  datatype Action = ParentSends | ParentReceives | WorkerSends | WorkerReceives | WorkerSeesEnd

  function StartRequest(c: Setup, j: nat): Parent
    requires forall r :: r in c.requests ==> ValidRequest(r)
  {
    if j < |c.requests| then Sending(j, RequestFrame(c.requests[j])) else Closed
  }

  function Init(c: Setup): State
    requires forall r :: r in c.requests ==> ValidRequest(r)
  {
    State(StartRequest(c, 0), Reading(0, []), [], [], [])
  }

  function AfterResponse(c: Setup, s: State, i: nat, got: seq<Byte>): State
    requires forall r :: r in c.requests ==> ValidRequest(r)
  {
    match ReadResponse(got)
    case Err(UnexpectedEof) => s.(parent := Receiving(i, got))
    case Err(_) => s.(parent := Broken)
    case Ok((response, _)) =>
      if response.PixelStream? then s.(parent := TakingPixels(i, response, []))
      else s.(parent := StartRequest(c, i + 1), log := s.log + [Reply(response, [])])
  }

  function AfterPixel(s: State, i: nat, response: WorkerResponse, got: seq<Byte>): State {
    if response.PixelStream? && CheckedRgbaLen(response.width, response.height) == Ok(|got|) then
      s.(parent := Acking(i, ACK_FRAME), log := s.log + [Reply(response, got)])
    else s.(parent := TakingPixels(i, response, got))
  }

  function AfterRequestByte(c: Setup, i: nat, got: seq<Byte>): Server {
    match ReadRequest(got)
    case Err(UnexpectedEof) => Reading(i, got)
    case Err(error) => Refusing(ResponseFrame(RefusedRequest(error)))
    case Ok((None, _)) => Reading(i, got)
    case Ok((Some(r), _)) =>
      var reply := Answer(c.build, r);
      if ValidResponse(reply.response) then Writing(i, Wire(reply), reply.response.PixelStream?) else Exited
  }

  function AfterAckByte(i: nat, got: seq<Byte>): Server {
    match ReadAckBytes(got)
    case Err(UnexpectedEof) => AwaitingAck(i, got)
    case Err(_) => Exited
    case Ok(_) => Reading(i + 1, [])
  }

  function AfterWrite(i: nat, out: seq<Byte>, pixels: bool): Server {
    if |out| > 0 then Writing(i, out, pixels)
    else if pixels then AwaitingAck(i, [])
    else Reading(i + 1, [])
  }

  /** The state after an action, or None when the action is not possible. */
  function Next(c: Setup, s: State, a: Action): Option<State>
    requires forall r :: r in c.requests ==> ValidRequest(r)
  {
    match a
    case ParentSends =>
      if s.parent.Sending? && |s.parent.out| > 0 && |s.up| < c.capacity then
        var out := s.parent.out[1..];
        Some(s.(up := s.up + [s.parent.out[0]],
                parent := if out == [] then Receiving(s.parent.i, []) else Sending(s.parent.i, out)))
      else if s.parent.Acking? && |s.parent.out| > 0 && |s.up| < c.capacity then
        var out := s.parent.out[1..];
        Some(s.(up := s.up + [s.parent.out[0]],
                parent := if out == [] then StartRequest(c, s.parent.i + 1) else Acking(s.parent.i, out)))
      else None
    case ParentReceives =>
      if |s.down| == 0 then None
      else
        var t := s.(down := s.down[1..]);
        if s.parent.Receiving? then Some(AfterResponse(c, t, s.parent.i, s.parent.got + [s.down[0]]))
        else if s.parent.TakingPixels? then
          Some(AfterPixel(t, s.parent.i, s.parent.response, s.parent.got + [s.down[0]]))
        else None
    case WorkerSends =>
      if |s.down| >= c.capacity then None
      else if s.worker.Writing? && |s.worker.out| > 0 then
        Some(s.(down := s.down + [s.worker.out[0]],
                worker := AfterWrite(s.worker.i, s.worker.out[1..], s.worker.pixels)))
      else if s.worker.Refusing? && |s.worker.out| > 0 then
        Some(s.(down := s.down + [s.worker.out[0]],
                worker := if |s.worker.out| == 1 then Exited else Refusing(s.worker.out[1..])))
      else None
    case WorkerReceives =>
      if |s.up| == 0 then None
      else if s.worker.Reading? then
        Some(s.(up := s.up[1..], worker := AfterRequestByte(c, s.worker.i, s.worker.got + [s.up[0]])))
      else if s.worker.AwaitingAck? then
        Some(s.(up := s.up[1..], worker := AfterAckByte(s.worker.i, s.worker.got + [s.up[0]])))
      else None
    case WorkerSeesEnd =>
      if !s.parent.Closed? || |s.up| > 0 then None
      else if s.worker.Reading? && s.worker.got == [] then Some(s.(worker := Exited))
      else if s.worker.Reading? then Some(s.(worker := Refusing(ResponseFrame(RefusedRequest(UnexpectedEof)))))
      else if s.worker.AwaitingAck? then Some(s.(worker := Exited))
      else None
  }

  // ----- the invariant

  ghost function Ans(c: Setup, i: nat): Reply
    requires i < |c.requests|
  {
    Answer(c.build, c.requests[i])
  }

  ghost predicate HasPixels(c: Setup, i: nat)
    requires i < |c.requests|
  {
    Ans(c, i).response.PixelStream?
  }

  ghost function Frame(c: Setup, i: nat): seq<Byte>
    requires Conforming(c) && i < |c.requests|
  {
    RequestFrame(c.requests[i])
  }

  /** Request `i` is still on its way: `unsent` bytes of it are with the parent. */
  ghost predicate OnItsWay(c: Setup, s: State, i: nat, unsent: seq<Byte>)
    requires Conforming(c) && i < |c.requests|
  {
    && s.down == []
    && match s.worker
       case Reading(j, got) =>
         j == i && got + s.up + unsent == Frame(c, i) && |got| < |Frame(c, i)|
       case AwaitingAck(j, got) =>
         j + 1 == i && HasPixels(c, j) && |got| < 4 && got + s.up + unsent == ACK_FRAME + Frame(c, i)
       case _ => false
  }

  /** The worker is sending `rest` of its reply, of which `taken` has reached the parent. */
  ghost predicate OnItsWayBack(c: Setup, s: State, i: nat, taken: seq<Byte>, rest: seq<Byte>)
    requires i < |c.requests|
  {
    && s.up == []
    && match s.worker
       case Writing(j, out, pixels) =>
         j == i && |out| > 0 && pixels == HasPixels(c, i) && taken + s.down + out == rest
       case _ => s.worker == AfterWrite(i, [], HasPixels(c, i)) && taken + s.down == rest
  }

  ghost function Delivered(c: Setup, p: Parent): nat {
    match p
    case Sending(i, _) => i
    case Receiving(i, _) => i
    case TakingPixels(i, _, _) => i
    case Acking(i, _) => i + 1
    case Closed => |c.requests|
    case Broken => 0
  }

  ghost predicate LogIsAnswers(c: Setup, s: State) {
    && |s.log| == Delivered(c, s.parent) <= |c.requests|
    && forall j :: 0 <= j < |s.log| ==> s.log[j] == Ans(c, j)
  }

  ghost predicate Inv(c: Setup, s: State)
    requires Conforming(c)
  {
    && LogIsAnswers(c, s)
    && match s.parent
       case Sending(i, out) => i < |c.requests| && |out| > 0 && OnItsWay(c, s, i, out)
       case Receiving(i, got) =>
         && i < |c.requests| && |got| < |ResponseFrame(Ans(c, i).response)|
         && ((got == [] && OnItsWay(c, s, i, [])) || OnItsWayBack(c, s, i, got, Wire(Ans(c, i))))
       case TakingPixels(i, response, got) =>
         && i < |c.requests| && response == Ans(c, i).response && HasPixels(c, i) && |got| < |Ans(c, i).pixels|
         && OnItsWayBack(c, s, i, got, Ans(c, i).pixels)
       case Acking(i, out) =>
         && i < |c.requests| && HasPixels(c, i) && |out| > 0 && s.down == []
         && s.worker.AwaitingAck? && s.worker.i == i && |s.worker.got| < 4
         && s.worker.got + s.up + out == ACK_FRAME
       case Closed =>
         && s.down == []
         && (match s.worker
             case AwaitingAck(j, got) =>
               j + 1 == |c.requests| && HasPixels(c, j) && |got| < 4 && got + s.up == ACK_FRAME
             case Reading(j, got) => j == |c.requests| && got == [] && s.up == []
             case Exited => s.up == []
             case _ => false)
       case Broken => false
  }

  // ----- moving one byte

  lemma TakeByte(got: seq<Byte>, pipe: seq<Byte>, rest: seq<Byte>)
    requires |pipe| > 0
    ensures got + [pipe[0]] + pipe[1..] + rest == got + pipe + rest
    ensures got + [pipe[0]] + pipe[1..] == got + pipe
    ensures |got + [pipe[0]]| <= |got + pipe + rest|
    ensures got + [pipe[0]] == (got + pipe + rest)[..|got| + 1]
  {
  }

  lemma PutByte(got: seq<Byte>, pipe: seq<Byte>, out: seq<Byte>)
    requires |out| > 0
    ensures got + (pipe + [out[0]]) + out[1..] == got + pipe + out
    ensures |out| == 1 ==> got + (pipe + [out[0]]) == got + pipe + out
  {
  }

  /** What the worker makes of a non-empty part of a request frame. */
  lemma PartOfRequest(c: Setup, i: nat, got: seq<Byte>)
    requires Conforming(c) && i < |c.requests|
    requires 0 < |got| <= |Frame(c, i)| && got == Frame(c, i)[..|got|]
    ensures |got| < |Frame(c, i)| ==> AfterRequestByte(c, i, got) == Reading(i, got)
    ensures |got| == |Frame(c, i)| ==> AfterRequestByte(c, i, got) == Writing(i, Wire(Ans(c, i)), HasPixels(c, i))
  {
    var r := c.requests[i];
    if |got| < |Frame(c, i)| {
      RequestTruncated(r, |got|);
    } else {
      RequestRoundTrip(r, []);
      assert RequestFrame(r) + [] == got;
      TrustworthyAnswers(c.build, r);
    }
  }

  lemma PartOfAck(i: nat, got: seq<Byte>)
    requires |got| <= 4 && got == ACK_FRAME[..|got|]
    ensures AfterAckByte(i, got) == if |got| < 4 then AwaitingAck(i, got) else Reading(i + 1, [])
  {
    if |got| == 4 {
      AckCanonical(got, []);
      assert got == ACK_FRAME + [];
    }
  }

  /** What the parent makes of a part of the response frame it is due. */
  lemma PartOfResponse(c: Setup, i: nat, got: seq<Byte>)
    requires Conforming(c) && i < |c.requests|
    requires var frame := ResponseFrame(Ans(c, i).response); |got| <= |frame| && got == frame[..|got|]
    ensures var frame := ResponseFrame(Ans(c, i).response);
      ReadResponse(got) == if |got| < |frame| then Err(UnexpectedEof) else Ok((Ans(c, i).response, []))
  {
    hide ReadResponse, ResponseFrame, Answer;
    var response := Ans(c, i).response;
    WireIsProper(c, i);
    if |got| < |ResponseFrame(response)| {
      ResponseTruncated(response, |got|);
    } else {
      assert ResponseFrame(response) + [] == got;
      ResponseRoundTrip(response, []);
    }
  }

  lemma FrameNonEmpty(c: Setup, i: nat)
    requires Conforming(c) && i < |c.requests|
    ensures |Frame(c, i)| >= 16
  {
  }

  lemma WireIsProper(c: Setup, i: nat)
    requires Conforming(c) && i < |c.requests|
    ensures ProperReply(Ans(c, i))
    ensures |ResponseFrame(Ans(c, i).response)| >= 9
    ensures HasPixels(c, i) ==> |Ans(c, i).pixels| > 0
  {
    TrustworthyAnswers(c.build, c.requests[i]);
    var reply := Ans(c, i);
    if HasPixels(c, i) {
      PixelsPositive(reply.response.width, reply.response.height);
    }
  }

  lemma PixelsPositive(width: nat, height: nat)
    requires width > 0 && height > 0
    ensures Pixels(width, height) > 0
  {
    assert width * height >= height;
  }

  // ----- every action keeps the invariant

  /** The parent turns to its next request, or closes: the worker may still be reading the acknowledgement. */
  lemma NextRequest(c: Setup, s: State, i: nat)
    requires Conforming(c) && i < |c.requests| && s.down == []
    requires s.parent == StartRequest(c, i + 1)
    requires |s.log| == i + 1 && forall j :: 0 <= j < |s.log| ==> s.log[j] == Ans(c, j)
    requires (s.worker == Reading(i + 1, []) && s.up == []) ||
      (s.worker.AwaitingAck? && s.worker.i == i && HasPixels(c, i) && |s.worker.got| < 4
       && s.worker.got + s.up == ACK_FRAME)
    ensures Inv(c, s)
  {
    if i + 1 < |c.requests| {
      assert [] + [] + Frame(c, i + 1) == Frame(c, i + 1);
    }
  }

  lemma ParentSendsKeeps(c: Setup, s: State)
    requires Conforming(c) && Inv(c, s) && Next(c, s, ParentSends).Some?
    ensures Inv(c, Next(c, s, ParentSends).value)
  {
    hide ReadRequest, ReadResponse, ReadAckBytes, RequestFrame, ResponseFrame, Answer;
    var t := Next(c, s, ParentSends).value;
    var out := s.parent.out;
    PutByte(s.worker.got, s.up, out);
    if s.parent.Acking? && |out| == 1 {
      NextRequest(c, t, s.parent.i);
    } else if s.parent.Sending? {
      WireIsProper(c, s.parent.i);
      if |out| == 1 {
        assert s.worker.got + t.up + [] == s.worker.got + t.up;
      }
    }
  }

  lemma WorkerSendsKeeps(c: Setup, s: State)
    requires Conforming(c) && Inv(c, s) && Next(c, s, WorkerSends).Some?
    ensures Inv(c, Next(c, s, WorkerSends).value)
  {
    hide ReadRequest, ReadResponse, ReadAckBytes, RequestFrame, ResponseFrame, Answer;
    PutByte(s.parent.got, s.down, s.worker.out);
  }

  lemma WorkerReceivesKeeps(c: Setup, s: State)
    requires Conforming(c) && Inv(c, s) && Next(c, s, WorkerReceives).Some?
    ensures Inv(c, Next(c, s, WorkerReceives).value)
  {
    hide ReadRequest, ReadResponse, ReadAckBytes, RequestFrame, ResponseFrame, Answer;
    var got := s.worker.got + [s.up[0]];
    match s.parent {
      case Sending(i, out) =>
        TakeByte(s.worker.got, s.up, out);
        ServerTakes(c, s, i, out);
      case Receiving(i, _) =>
        TakeByte(s.worker.got, s.up, []);
        ServerTakes(c, s, i, []);
      case Acking(i, out) =>
        TakeByte(s.worker.got, s.up, out);
        PartOfAck(i, got);
      case Closed =>
        TakeByte(s.worker.got, s.up, []);
        assert s.worker.got + s.up + [] == ACK_FRAME;
        PartOfAck(s.worker.i, got);
        assert |got| == 4 ==> s.up[1..] == [];
    }
  }

  /** The worker takes one more byte of the acknowledgement and request on their way to it. */
  lemma ServerTakes(c: Setup, s: State, i: nat, unsent: seq<Byte>)
    requires Conforming(c) && i < |c.requests| && OnItsWay(c, s, i, unsent) && |s.up| > 0
    ensures var t := Next(c, s, WorkerReceives).value;
      OnItsWay(c, t, i, unsent) || (unsent == [] && OnItsWayBack(c, t, i, [], Wire(Ans(c, i))))
  {
    hide ReadRequest, ReadResponse, ReadAckBytes, RequestFrame, ResponseFrame, Answer;
    var got := s.worker.got + [s.up[0]];
    TakeByte(s.worker.got, s.up, unsent);
    if s.worker.Reading? {
      PartOfRequest(c, i, got);
      if |got| == |Frame(c, i)| {
        assert s.up[1..] == [] && unsent == [];
        assert [] + [] + Wire(Ans(c, i)) == Wire(Ans(c, i));
        WireIsProper(c, i);
      }
    } else {
      assert (ACK_FRAME + Frame(c, i))[..|got|] == ACK_FRAME[..|got|];
      PartOfAck(s.worker.i, got);
      FrameNonEmpty(c, i);
      if |got| == 4 {
        assert got == ACK_FRAME;
        assert got + s.up[1..] + unsent == got + (s.up[1..] + unsent);
        assert s.up[1..] + unsent == Frame(c, i);
        assert [] + s.up[1..] + unsent == Frame(c, i);
      }
    }
  }

  lemma ParentReceivesKeeps(c: Setup, s: State)
    requires Conforming(c) && Inv(c, s) && Next(c, s, ParentReceives).Some?
    ensures Inv(c, Next(c, s, ParentReceives).value)
  {
    match s.parent {
      case Receiving(i, got) => ParentTakesResponse(c, s, i, got);
      case TakingPixels(i, response, got) => ParentTakesPixel(c, s, i, got);
    }
  }

  lemma ParentTakesResponse(c: Setup, s: State, i: nat, got: seq<Byte>)
    requires Conforming(c) && Inv(c, s) && s.parent == Receiving(i, got) && |s.down| > 0
    ensures Inv(c, Next(c, s, ParentReceives).value)
  {
    hide ReadRequest, ReadResponse, ReadAckBytes, RequestFrame, ResponseFrame, Answer;
    var more := got + [s.down[0]];
    var out := if s.worker.Writing? then s.worker.out else [];
    WireIsProper(c, i);
    TakeByte(got, s.down, out);
    NextResponseByte(c, s, i, got, out);
    if |more| == |ResponseFrame(Ans(c, i).response)| {
      assert [] + s.down[1..] + out == s.down[1..] + out && [] + s.down[1..] == s.down[1..];
      if !HasPixels(c, i) {
        NextRequest(c, Next(c, s, ParentReceives).value, i);
      }
    }
  }

  /** The next byte from the worker continues the response frame, or completes it and leaves the pixels. */
  lemma NextResponseByte(c: Setup, s: State, i: nat, got: seq<Byte>, out: seq<Byte>)
    requires Conforming(c) && i < |c.requests| && |s.down| > 0
    requires |got| < |ResponseFrame(Ans(c, i).response)|
    requires OnItsWayBack(c, s, i, got, Wire(Ans(c, i)))
    requires out == if s.worker.Writing? then s.worker.out else []
    ensures var frame, more := ResponseFrame(Ans(c, i).response), got + [s.down[0]];
      && |more| <= |frame|
      && ReadResponse(more) == (if |more| < |frame| then Err(UnexpectedEof) else Ok((Ans(c, i).response, [])))
      && (|more| == |frame| ==> s.down[1..] + out == Ans(c, i).pixels)
  {
    hide ReadResponse, ResponseFrame, Answer;
    var reply, more := Ans(c, i), got + [s.down[0]];
    TakeByte(got, s.down, out);
    assert got + s.down + [] == got + s.down;
    assert more + s.down[1..] + out == more + (s.down[1..] + out);
    PrefixOfFirst(ResponseFrame(reply.response), reply.pixels, more, s.down[1..] + out);
    PartOfResponse(c, i, more);
  }

  /** A strict or full prefix of the first of two parts. */
  lemma PrefixOfFirst(first: seq<Byte>, second: seq<Byte>, head: seq<Byte>, tail: seq<Byte>)
    requires head + tail == first + second && |head| <= |first|
    ensures head == first[..|head|]
    ensures |head| == |first| ==> tail == second
  {
    assert (head + tail)[..|head|] == head;
    if |head| == |first| {
      assert (head + tail)[|head|..] == tail;
      assert (first + second)[|first|..] == second;
    }
  }

  lemma ParentTakesPixel(c: Setup, s: State, i: nat, got: seq<Byte>)
    requires Conforming(c) && Inv(c, s) && |s.down| > 0
    requires s.parent.TakingPixels? && s.parent.i == i && s.parent.got == got
    ensures Inv(c, Next(c, s, ParentReceives).value)
  {
    hide ReadRequest, ReadResponse, ReadAckBytes, RequestFrame, ResponseFrame, Answer;
    var reply := Ans(c, i);
    var more := got + [s.down[0]];
    var out := if s.worker.Writing? then s.worker.out else [];
    WireIsProper(c, i);
    TakeByte(got, s.down, out);
    assert got + s.down + [] == got + s.down;
    assert more == reply.pixels[..|more|];
    if |more| == |reply.pixels| {
      assert more == reply.pixels;
      assert s.down[1..] == [] && out == [];
      assert [] + [] + ACK_FRAME == ACK_FRAME;
    }
  }

  lemma SeesEndKeeps(c: Setup, s: State)
    requires Conforming(c) && Inv(c, s) && Next(c, s, WorkerSeesEnd).Some?
    ensures Inv(c, Next(c, s, WorkerSeesEnd).value)
  {
  }

  /** Every action of either process keeps the two in step. */
  lemma ActionKeepsInv(c: Setup, s: State, a: Action)
    requires Conforming(c) && Inv(c, s) && Next(c, s, a).Some?
    ensures Inv(c, Next(c, s, a).value)
  {
    match a
    case ParentSends => ParentSendsKeeps(c, s);
    case ParentReceives => ParentReceivesKeeps(c, s);
    case WorkerSends => WorkerSendsKeeps(c, s);
    case WorkerReceives => WorkerReceivesKeeps(c, s);
    case WorkerSeesEnd => SeesEndKeeps(c, s);
  }

  lemma InitInv(c: Setup)
    requires Conforming(c)
    ensures Inv(c, Init(c))
  {
    if |c.requests| > 0 {
      assert [] + [] + Frame(c, 0) == Frame(c, 0);
    }
  }

  // ----- no deadlock

  predicate Done(s: State) {
    s.parent.Closed? && s.worker.Exited?
  }

  /** Until both sides are done some action is possible, however small the pipes. */
  lemma NeverStuck(c: Setup, s: State) returns (a: Action)
    requires Conforming(c) && Inv(c, s) && !Done(s)
    ensures Next(c, s, a).Some?
  {
    hide ReadRequest, ReadResponse, ReadAckBytes, RequestFrame, ResponseFrame, Answer;
    match s.parent {
      case Sending(i, out) =>
        a := if |s.up| < c.capacity then ParentSends else WorkerReceives;
      case Receiving(i, got) =>
        if s.worker.Writing? {
          a := if |s.down| < c.capacity then WorkerSends else ParentReceives;
        } else if got == [] && OnItsWay(c, s, i, []) {
          a := WorkerReceives;
          assert |s.worker.got + s.up + []| == |s.worker.got| + |s.up|;
        } else {
          a := ParentReceives;
          assert |got + s.down| == |Wire(Ans(c, i))|;
        }
      case TakingPixels(i, response, got) =>
        a := if s.worker.Writing? && |s.down| < c.capacity then WorkerSends else ParentReceives;
        assert !s.worker.Writing? ==> |got + s.down| == |Ans(c, i).pixels|;
      case Acking(i, out) =>
        a := if |s.up| < c.capacity then ParentSends else WorkerReceives;
      case Closed =>
        a := if |s.up| > 0 then WorkerReceives else WorkerSeesEnd;
    }
  }

  lemma DoneStops(c: Setup, s: State)
    requires Conforming(c) && Inv(c, s) && Done(s)
    ensures forall a :: Next(c, s, a).None?
    ensures s.up == [] && s.down == []
  {
  }

  // ----- every run ends

  ghost function ParentTodo(c: Setup, i: nat): nat
    requires Conforming(c)
    decreases |c.requests| - i
  {
    if i >= |c.requests| then 0 else |Frame(c, i)| + |AckFor(Ans(c, i))| + ParentTodo(c, i + 1)
  }

  ghost function WorkerTodo(c: Setup, i: nat): nat
    requires Conforming(c)
    decreases |c.requests| - i
  {
    if i >= |c.requests| then 0 else |Wire(Ans(c, i))| + WorkerTodo(c, i + 1)
  }

  ghost function ParentUnsent(c: Setup, p: Parent): nat
    requires Conforming(c)
  {
    match p
    case Sending(i, out) => |out| + (if i < |c.requests| then |AckFor(Ans(c, i))| else 0) + ParentTodo(c, i + 1)
    case Receiving(i, _) => (if i < |c.requests| then |AckFor(Ans(c, i))| else 0) + ParentTodo(c, i + 1)
    case TakingPixels(i, _, _) => (if i < |c.requests| then |AckFor(Ans(c, i))| else 0) + ParentTodo(c, i + 1)
    case Acking(i, out) => |out| + ParentTodo(c, i + 1)
    case Closed => 0
    case Broken => 0
  }

  ghost function WorkerUnsent(c: Setup, w: Server): nat
    requires Conforming(c)
  {
    match w
    case Reading(i, _) => WorkerTodo(c, i)
    case Writing(i, out, _) => |out| + WorkerTodo(c, i + 1)
    case AwaitingAck(i, _) => WorkerTodo(c, i + 1)
    case Refusing(out) => |out|
    case Exited => 0
  }

  /** Bytes still to be written count twice, bytes in a pipe once. */
  ghost function Remaining(c: Setup, s: State): nat
    requires Conforming(c)
  {
    2 * ParentUnsent(c, s.parent) + |s.up| + 2 * WorkerUnsent(c, s.worker) + |s.down|
    + (if s.worker.Exited? then 0 else 1)
  }

  lemma ActionShrinks(c: Setup, s: State, a: Action)
    requires Conforming(c) && Inv(c, s) && Next(c, s, a).Some?
    ensures Remaining(c, Next(c, s, a).value) < Remaining(c, s)
  {
    hide Remaining, Next, Inv, Answer;
    match a
    case ParentSends => ParentSendShrinks(c, s);
    case ParentReceives => ParentReceiveShrinks(c, s);
    case WorkerSends => WorkerSendShrinks(c, s);
    case WorkerReceives => WorkerReceiveShrinks(c, s);
    case WorkerSeesEnd => SeeingEndShrinks(c, s);
  }

  lemma ParentSendShrinks(c: Setup, s: State)
    requires Conforming(c) && Next(c, s, ParentSends).Some?
    ensures Remaining(c, Next(c, s, ParentSends).value) < Remaining(c, s)
  {
    hide RequestFrame, Answer, ParentTodo, WorkerTodo;
    NextUnsent(c, s.parent.i + 1);
  }

  lemma WorkerSendShrinks(c: Setup, s: State)
    requires Conforming(c) && Next(c, s, WorkerSends).Some?
    ensures Remaining(c, Next(c, s, WorkerSends).value) < Remaining(c, s)
  {
    hide ParentUnsent, ParentTodo, WorkerTodo;
  }

  lemma SeeingEndShrinks(c: Setup, s: State)
    requires Conforming(c) && Inv(c, s) && Next(c, s, WorkerSeesEnd).Some?
    ensures Remaining(c, Next(c, s, WorkerSeesEnd).value) < Remaining(c, s)
  {
    hide ResponseFrame, ReadRequest, ParentTodo, WorkerTodo;
    ClosedIsClean(c, s);
  }

  /** A parent that has closed left no part of a request behind. */
  lemma ClosedIsClean(c: Setup, s: State)
    requires Conforming(c) && Inv(c, s) && s.parent.Closed?
    ensures s.worker.Reading? ==> s.worker.got == []
  {
  }

  lemma ParentReceiveShrinks(c: Setup, s: State)
    requires Conforming(c) && Inv(c, s) && Next(c, s, ParentReceives).Some?
    ensures Remaining(c, Next(c, s, ParentReceives).value) < Remaining(c, s)
  {
    hide ReadResponse, ResponseFrame, RequestFrame, Answer, WorkerUnsent, ParentTodo;
    if s.parent.Receiving? {
      ReceivingShrinks(c, s, s.parent.i, s.parent.got);
    }
  }

  lemma WorkerReceiveShrinks(c: Setup, s: State)
    requires Conforming(c) && Inv(c, s) && Next(c, s, WorkerReceives).Some?
    ensures Remaining(c, Next(c, s, WorkerReceives).value) < Remaining(c, s)
  {
    hide ReadRequest, ReadAckBytes, RequestFrame, ResponseFrame, Answer, ParentUnsent;
    if s.worker.Reading? {
      var unsent := if s.parent.Sending? then s.parent.out else [];
      TakeByte(s.worker.got, s.up, unsent);
      PartOfRequest(c, s.worker.i, s.worker.got + [s.up[0]]);
    }
  }

  lemma ReceivingShrinks(c: Setup, s: State, i: nat, got: seq<Byte>)
    requires Conforming(c) && Inv(c, s) && s.parent == Receiving(i, got) && |s.down| > 0
    ensures Remaining(c, Next(c, s, ParentReceives).value) < Remaining(c, s)
  {
    hide ReadResponse, ResponseFrame, RequestFrame, Answer, WorkerUnsent, ParentTodo;
    NextResponseByte(c, s, i, got, if s.worker.Writing? then s.worker.out else []);
    NextUnsent(c, i + 1);
  }

  lemma NextUnsent(c: Setup, j: nat)
    requires Conforming(c)
    ensures ParentUnsent(c, StartRequest(c, j)) == ParentTodo(c, j)
  {
    hide RequestFrame, Answer;
  }

  // ----- whole runs

  ghost predicate Execution(c: Setup, states: seq<State>, actions: seq<Action>)
    requires Conforming(c)
  {
    && |states| == |actions| + 1
    && states[0] == Init(c)
    && forall k :: 0 <= k < |actions| ==> Next(c, states[k], actions[k]) == Some(states[k + 1])
  }

  lemma {:induction false} ReachableInv(c: Setup, states: seq<State>, actions: seq<Action>, k: nat)
    requires Conforming(c) && Execution(c, states, actions) && k <= |actions|
    ensures Inv(c, states[k])
    ensures Remaining(c, states[k]) + k <= Remaining(c, Init(c))
  {
    hide Next, Inv, Remaining;
    if k == 0 {
      InitInv(c);
    } else {
      ReachableInv(c, states, actions, k - 1);
      assert Next(c, states[k - 1], actions[k - 1]) == Some(states[k - 1 + 1]);
      ActionKeepsInv(c, states[k - 1], actions[k - 1]);
      ActionShrinks(c, states[k - 1], actions[k - 1]);
    }
  }

  /**
    However the two processes are scheduled over pipes of any capacity: no reachable
    state is stuck, what the parent has read is always the answers to its first
    requests in order, each the reply its request must get, no frame is ever refused on
    either side, and a run is never longer than the bytes there are to move. A run that
    has stopped has delivered every answer and left both pipes empty.
   */
  lemma EveryRunDelivers(c: Setup, states: seq<State>, actions: seq<Action>)
    requires Conforming(c) && Execution(c, states, actions)
    ensures var last := states[|actions|];
      && |actions| <= Remaining(c, Init(c))
      && !last.parent.Broken? && !last.worker.Refusing?
      && |last.log| <= |c.requests| && last.log == Answers(c.build, c.requests[..|last.log|])
      && (forall i :: 0 <= i < |last.log| ==> RightReply(c.build, c.requests[i], last.log[i]))
      && (Done(last) <==> forall a :: Next(c, last, a).None?)
      && (Done(last) ==> last.log == Answers(c.build, c.requests) && last.up == [] && last.down == [])
  {
    hide Next, Remaining, ReadRequest, ReadResponse, RequestFrame, ResponseFrame, Answer, RightReply;
    var last := states[|actions|];
    ReachableInv(c, states, actions, |actions|);
    ScriptCarriesAnswers(c.build, c.requests[..|last.log|]);
    forall i | 0 <= i < |last.log|
      ensures RightReply(c.build, c.requests[i], last.log[i])
    {
      AnswerIsRight(c.build, c.requests[i]);
    }
    if Done(last) {
      DoneStops(c, last);
      assert c.requests[..|last.log|] == c.requests;
    } else {
      var a := NeverStuck(c, last);
    }
  }
}
