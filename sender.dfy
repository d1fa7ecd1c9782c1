/**
 * The stop-and-wait sender. It sends a DATA frame and waits for an
 * acknowledgement, sending the identical frame again until one is accepted.
 * Once the input is used up it sends END frames, giving up after a bounded
 * number of failed attempts. Its sequence counter runs from 0 to 99 and
 * then wraps to 0.
 *
 * The acknowledgement socket is given as the list of responses it will
 * produce, and the sending socket as a log of the frames sent. The source
 * retransmits forever while no acknowledgement is accepted. The model stops
 * when the list of responses runs out: beyond that point nothing is
 * observed.
 */
module Sender {
  import opened Text
  import opened Inet
  import opened TransportMessage
  import opened Channel

  /** How singleSend ended: accepted, still unanswered when the responses ran out, or encode threw. */
  datatype SendOutcome = Acked | Unanswered | NotEncodable

  /** END transmissions stop once closeFailCount exceeds this. */
  const CLOSE_FAIL_LIMIT: int := 20

  /** The header of every DATA frame the sender builds. */
  function DataHeader(seqNo: int): Header
  {
    Header(LOCAL_IP, LOCAL_IP, DATA_TRANSMIT_PORT, DATA_RECEIVE_PORT, DATA, seqNo)
  }

  /** The header of the END frame built by close. */
  function EndHeader(seqNo: int): Header
  {
    Header(LOCAL_IP, LOCAL_IP, DATA_TRANSMIT_PORT, DATA_RECEIVE_PORT, END, seqNo)
  }

  /** The END frame close sends. */
  function EndFrame(seqNo: int): (f: string)
    requires 0 <= seqNo <= 99
    ensures MessageFrame(EndHeader(seqNo), "") == Some(f)
  {
    EndEncodes(seqNo);
    MessageFrame(EndHeader(seqNo), "").value
  }

  /**
   * Whether waitForAck returns true for response `r` when it receives into a
   * buffer of `capacity` bytes: the buffer decodes, its opcode is ACK and its
   * stored checksum equals the computed one. The sequence number is compared
   * with runningSequenceNo in the source, but the comparison is not used.
   */
  predicate AckAcceptable(capacity: nat, r: Response)
  {
    match r
    case Timeout => false
    case Bytes(data) =>
      var buffer := ReceiveBuffer(capacity, data);
      var m := DecodeFrame(buffer);
      m.Some? && m.value.header.opCode == ACK &&
        (DecodedMessage(buffer); m.value.storedChecksum == Sum(m.value.buffer[..CHECKED_LEN]))
  }

  /** The responses after one receive (and whether each was acceptable): a receive beyond the last one times out. */
  function Rest<T>(s: seq<T>): (r: seq<T>)
    ensures s != [] ==> r == s[1..]
    ensures s == [] ==> r == []
  {
    if s == [] then [] else s[1..]
  }

  /** Whether waitForAck accepts each response in turn. */
  function Verdicts(capacity: nat, rs: seq<Response>): (vs: seq<bool>)
    ensures |vs| == |rs|
  {
    seq(|rs|, i requires 0 <= i < |rs| => AckAcceptable(capacity, rs[i]))
  }

  /**
   * `vs` holds the verdicts on `rs`. The sender keeps this list beside its
   * responses so that the retransmission logic is stated over booleans.
   */
  predicate Judged(capacity: nat, rs: seq<Response>, vs: seq<bool>)
  {
    |vs| == |rs| &&
    forall i {:trigger AckAcceptable(capacity, rs[i])} :: 0 <= i < |rs| ==> vs[i] == AckAcceptable(capacity, rs[i])
  }

  /** The position of the first true verdict, or |vs| when there is none. */
  function FirstTrue(vs: seq<bool>): (i: nat)
    ensures i <= |vs|
    ensures i < |vs| ==> vs[i]
    ensures forall j :: 0 <= j < i ==> !vs[j]
    decreases |vs|
  {
    if vs == [] then 0 else if vs[0] then 0 else 1 + FirstTrue(vs[1..])
  }

  /** How many responses singleSend takes: up to and including the first accepted one, or all of them. */
  function Taken(vs: seq<bool>): (n: nat)
    ensures n <= |vs|
  {
    var i := FirstTrue(vs);
    if i < |vs| then i + 1 else i
  }

  /** `s` without its first `n` elements (empty once `n` reaches its length). */
  function Drop<T>(s: seq<T>, n: nat): seq<T>
  {
    if n < |s| then s[n..] else []
  }

  /** `n` copies of frame `f`. */
  function Repeat(f: string, n: nat): (r: seq<string>)
    ensures |r| == n
    ensures forall i :: 0 <= i < n ==> r[i] == f
  {
    if n == 0 then [] else Repeat(f, n - 1) + [f]
  }

  /** What close does: how many END frames it sends and the final closeFailCount. */
  datatype CloseResult = CloseResult(sends: nat, fails: int)

  /**
   * close, given the verdicts on the responses it will receive: send END,
   * wait, and finish when the response is accepted or closeFailCount
   * exceeds CLOSE_FAIL_LIMIT; otherwise count the failure and try again.
   */
  function CloseRun(fails: int, vs: seq<bool>): (r: CloseResult)
    requires fails <= CLOSE_FAIL_LIMIT + 1
    decreases CLOSE_FAIL_LIMIT + 1 - fails
  {
    if (vs != [] && vs[0]) || fails > CLOSE_FAIL_LIMIT then CloseResult(1, fails)
    else
      var next := CloseRun(fails + 1, Rest(vs));
      CloseResult(next.sends + 1, next.fails)
  }

  /** The sequence number after `s` in the main loop. */
  function NextSequence(s: int): int
  {
    if s + 1 > 99 then 0 else s + 1
  }

  /** What singleSend does for one payload: the frames it sends, the responses it takes, whether it was acknowledged. */
  datatype ChunkResult = ChunkResult(frames: seq<string>, used: nat, acked: bool)

  /**
   * singleSend given its message's frame (None when the message cannot be
   * encoded) and the verdicts on the responses to come: nothing for a
   * message that cannot be encoded, otherwise the frame once for each
   * response taken.
   */
  function SingleSendRun(frame: Option<string>, vs: seq<bool>): (c: ChunkResult)
    ensures c.used <= |vs| && |c.frames| == c.used
    ensures c.acked ==> c.used >= 1 && vs[c.used - 1]
  {
    match frame
    case None => ChunkResult([], 0, false)
    case Some(f) => ChunkResult(Repeat(f, Taken(vs)), Taken(vs), FirstTrue(vs) < |vs|)
  }

  /** The DATA frame of each chunk, from sequence number seqNo on: one more for each chunk. */
  function DataFrames(chunks: seq<string>, seqNo: int): (fs: seq<Option<string>>)
    ensures |fs| == |chunks|
    decreases |chunks|
  {
    if chunks == [] then []
    else [MessageFrame(DataHeader(seqNo), chunks[0])] + DataFrames(chunks[1..], NextSequence(seqNo))
  }

  /** What the main loop does before close: the DATA frames it sends, the verdicts left for close, the chunks acknowledged. */
  datatype RunResult = RunResult(frames: seq<string>, remaining: seq<bool>, completed: nat)

  /**
   * The main loop given the chunks' frames and the verdicts on the
   * responses to come: singleSend for each frame in turn, stopping at the
   * first one that is not acknowledged.
   */
  function MainRun(fs: seq<Option<string>>, vs: seq<bool>): (r: RunResult)
    ensures r.completed <= |fs|
    ensures |r.remaining| <= |vs| && r.remaining == vs[|vs| - |r.remaining|..]
    ensures |r.frames| == |vs| - |r.remaining|
    decreases |fs|
  {
    if fs == [] then RunResult([], vs, 0)
    else
      var c := SingleSendRun(fs[0], vs);
      if !c.acked then RunResult(c.frames, vs[c.used..], 0)
      else
        var rest := MainRun(fs[1..], vs[c.used..]);
        SuffixOfSuffix(vs, c.used, |vs| - c.used - |rest.remaining|);
        RunResult(c.frames + rest.frames, rest.remaining, 1 + rest.completed)
  }

  class ReliableSender {
    /** The size of the byte array waitForAck receives into (PAYLOAD_LEN in the source). */
    const ackCapacity: nat
    var closeFailCount: int
    /** A static field in the source; there is one sender per program. */
    var runningSequenceNo: int
    /** Frames handed to the sending socket, oldest first. */
    var sent: seq<string>
    /** What the acknowledgement socket will produce, next first. */
    var responses: seq<Response>
    /** Whether waitForAck accepts each of `responses`. */
    ghost var verdicts: seq<bool>

    ghost predicate Valid()
      reads this`closeFailCount, this`runningSequenceNo, this`responses, this`verdicts
    {
      && 0 <= closeFailCount <= CLOSE_FAIL_LIMIT + 1
      && 0 <= runningSequenceNo <= 99
      && Judged(ackCapacity, responses, verdicts)
    }

    constructor (responses: seq<Response>)
      ensures Valid()
      ensures ackCapacity == PAYLOAD_LEN && closeFailCount == 0 && runningSequenceNo == 0
      ensures sent == [] && this.responses == responses
    {
      ackCapacity := PAYLOAD_LEN;
      closeFailCount := 0;
      runningSequenceNo := 0;
      sent := [];
      this.responses := responses;
      verdicts := Verdicts(PAYLOAD_LEN, responses);
      new;
      VerdictsJudged(ackCapacity, responses);
    }

    /** waitForAck: false on a timeout or a failed decode, otherwise opcode ACK and checksum valid. */
    method WaitForAck() returns (ok: bool)
      requires Valid()
      modifies this`responses, this`verdicts
      ensures Valid()
      ensures ok == (old(verdicts) != [] && old(verdicts)[0])
      ensures responses == Rest(old(responses)) && verdicts == Rest(old(verdicts))
    {
      if responses == [] {
        return false;
      }
      var r := responses[0];
      JudgedFirst(ackCapacity, responses, verdicts);
      ghost var accepted := verdicts[0];
      JudgedRest(ackCapacity, responses, verdicts);
      responses := responses[1..];
      verdicts := verdicts[1..];
      if r.Timeout? {
        return false;
      }
      var buffer := ReceiveBuffer(ackCapacity, r.data);
      var response := ReliableTransportMessage.Reconstitute(buffer);
      if response == null {
        return false;  // the NullPointerException is caught
      }
      DecodedMessage(buffer);
      var isAck := response.opCode == ACK;
      var sumOk := ValidateSum(response);
      ok := isAck && sumOk;
    }

    /** validateSum: the stored checksum equals the one computed over the buffer. */
    method ValidateSum(message: ReliableTransportMessage) returns (ok: bool)
      requires |message.buffer| >= CHECKED_LEN
      ensures ok == (message.storedChecksum == Sum(message.buffer[..CHECKED_LEN]))
    {
      var computed := message.GetComputedChecksum();
      ok := message.storedChecksum == computed;
    }

    /** Hand a frame to the sending socket. */
    method Send(frame: string)
      modifies this`sent
      ensures sent == old(sent) + [frame]
    {
      sent := sent + [frame];
    }

    /**
     * singleSend: build the DATA message, send it and wait; while the
     * response is not accepted, send the same frame again.
     */
    method SingleSend(payload: string, seqNo: int) returns (outcome: SendOutcome)
      requires Valid()
      modifies this`sent, this`responses, this`verdicts
      ensures Valid()
      ensures MessageFrame(DataHeader(seqNo), payload).None? ==>
        outcome == NotEncodable && sent == old(sent) && responses == old(responses) && verdicts == old(verdicts)
      ensures MessageFrame(DataHeader(seqNo), payload).Some? ==>
        var used := Taken(old(verdicts));
        && outcome != NotEncodable
        && (outcome == Acked <==> FirstTrue(old(verdicts)) < |old(responses)|)
        && sent == old(sent) + Repeat(MessageFrame(DataHeader(seqNo), payload).value, used)
        && responses == old(responses)[used..]
        && verdicts == old(verdicts)[used..]
      ensures var c := SingleSendRun(MessageFrame(DataHeader(seqNo), payload), old(verdicts));
        && (outcome == Acked) == c.acked
        && sent == old(sent) + c.frames
        && responses == old(responses)[c.used..]
        && verdicts == old(verdicts)[c.used..]
    {
      var frame := ReliableTransportMessage.Build(DataHeader(seqNo), payload);
      if frame.None? {
        return NotEncodable;  // the constructor's encode throws
      }
      var acked := SendUntilAcked(frame.value);
      outcome := if acked then Acked else Unanswered;
    }

    /**
     * The retransmission of singleSend, which calls itself after each
     * rejected response: send `frame`, wait, and again until a response is
     * accepted. It stops when no response is left to come.
     */
    method SendUntilAcked(frame: string) returns (acked: bool)
      requires Valid()
      modifies this`sent, this`responses, this`verdicts
      ensures Valid()
      ensures acked <==> FirstTrue(old(verdicts)) < |old(responses)|
      ensures sent == old(sent) + Repeat(frame, Taken(old(verdicts)))
      ensures responses == old(responses)[Taken(old(verdicts))..]
      ensures verdicts == old(verdicts)[Taken(old(verdicts))..]
      decreases |responses|
    {
      if responses == [] {
        return false;
      }
      ghost var vs := verdicts;
      Send(frame);
      var ok := WaitForAck();
      if ok {
        return true;
      }
      acked := SendUntilAcked(frame);
      TakenStep(vs);
      RepeatPrepend(old(sent), frame, Taken(vs[1..]));
      SuffixOfSuffix(old(responses), 1, Taken(vs[1..]));
      SuffixOfSuffix(vs, 1, Taken(vs[1..]));
    }

    /** close: build the END message with the running sequence number and send it until accepted or out of attempts. */
    method Close()
      requires Valid()
      modifies this`sent, this`responses, this`verdicts, this`closeFailCount
      ensures Valid()
      ensures var run := CloseRun(old(closeFailCount), old(verdicts));
        && sent == old(sent) + Repeat(EndFrame(runningSequenceNo), run.sends)
        && closeFailCount == run.fails
        && responses == Drop(old(responses), run.sends)
    {
      EndEncodes(runningSequenceNo);
      var frame := ReliableTransportMessage.Build(EndHeader(runningSequenceNo), "");
      CloseWith(frame.value);
    }

    /**
     * The body of close once its message is built: send, wait, and finish
     * when accepted or when closeFailCount exceeds CLOSE_FAIL_LIMIT;
     * otherwise count the failure and close again (the source rebuilds the
     * identical message on each call).
     */
    method CloseWith(frame: string)
      requires Valid()
      modifies this`sent, this`responses, this`verdicts, this`closeFailCount
      ensures Valid()
      ensures var run := CloseRun(old(closeFailCount), old(verdicts));
        && sent == old(sent) + Repeat(frame, run.sends)
        && closeFailCount == run.fails
        && responses == Drop(old(responses), run.sends)
        && verdicts == Drop(old(verdicts), run.sends)
      decreases CLOSE_FAIL_LIMIT + 1 - closeFailCount
    {
      ghost var vs, rs, log, fails := verdicts, responses, sent, closeFailCount;
      Send(frame);
      var ok := WaitForAck();
      CloseRunStep(fails, vs);
      if ok || closeFailCount > CLOSE_FAIL_LIMIT {
        return;
      }
      closeFailCount := closeFailCount + 1;
      CloseWith(frame);
      CloseWithTail(log, frame, rs, vs, fails);
    }

    /** One pass of the main loop's body: singleSend, then advance the running sequence number past 99 back to 0. */
    method SendChunk(chunk: string) returns (acked: bool)
      requires Valid()
      modifies this`sent, this`responses, this`verdicts, this`runningSequenceNo
      ensures Valid()
      ensures runningSequenceNo == if acked then NextSequence(old(runningSequenceNo)) else old(runningSequenceNo)
      ensures ackCapacity < BUFFER_LEN ==> !acked
      ensures var c := SingleSendRun(MessageFrame(DataHeader(old(runningSequenceNo)), chunk), old(verdicts));
        && acked == c.acked
        && sent == old(sent) + c.frames
        && responses == old(responses)[c.used..]
        && verdicts == old(verdicts)[c.used..]
    {
      if ackCapacity < BUFFER_LEN {
        ShortBufferRejectsAll(ackCapacity, responses, verdicts);
      }
      var outcome := SingleSend(chunk, runningSequenceNo);
      acked := outcome == Acked;
      if acked {
        runningSequenceNo := runningSequenceNo + 1;
        if runningSequenceNo > 99 {
          runningSequenceNo := 0;
        }
      }
    }

    /**
     * The sending part of the main loop: send each 30-character chunk of
     * the input with the running sequence number and advance the number
     * after each accepted send. An unaccepted send ends the loop (the
     * source would still be retransmitting).
     */
    method SendChunks(chunks: seq<string>) returns (completed: nat)
      requires Valid()
      modifies this`sent, this`responses, this`verdicts, this`runningSequenceNo
      ensures Valid()
      ensures completed <= |chunks|
      ensures runningSequenceNo == Advance(old(runningSequenceNo), completed)
      ensures var r := MainRun(DataFrames(chunks, old(runningSequenceNo)), old(verdicts));
        && completed == r.completed
        && sent == old(sent) + r.frames
        && verdicts == r.remaining
    {
      var i := 0;
      ghost var s0, vs0, log0 := runningSequenceNo, verdicts, sent;
      ghost var fs := DataFrames(chunks, s0);
      ghost var done: seq<string> := [];
      RunSoFarStart(fs, vs0);
      while i < |chunks|
        invariant 0 <= i <= |chunks| && Valid()
        invariant runningSequenceNo == Advance(s0, i)
        invariant sent == log0 + done
        invariant RunSoFar(fs, vs0, i, done, verdicts)
      {
        DataFrameAt(chunks, s0, i);
        ghost var c := RunSoFarStep(fs, vs0, i, done, verdicts);
        var acked := SendChunk(chunks[i]);
        AppendAssociates(log0, done, c.frames);
        if !acked {
          return i;
        }
        done := done + c.frames;
        i := i + 1;
      }
      RunSoFarEnd(fs, vs0, done, verdicts);
      return i;
    }

    /** The main loop: send the chunks, then close once all of them are acknowledged. */
    method Run(chunks: seq<string>) returns (completed: nat, closed: bool)
      requires Valid()
      modifies this`sent, this`responses, this`verdicts, this`closeFailCount, this`runningSequenceNo
      ensures Valid()
      ensures completed <= |chunks|
      ensures closed <==> completed == |chunks|
      ensures runningSequenceNo == Advance(old(runningSequenceNo), completed)
      ensures ackCapacity < BUFFER_LEN && chunks != [] ==> completed == 0 && !closed
      ensures var r := MainRun(DataFrames(chunks, old(runningSequenceNo)), old(verdicts));
        && completed == r.completed
        && (!closed ==> sent == old(sent) + r.frames && closeFailCount == old(closeFailCount))
        && (closed ==>
              var close := CloseRun(old(closeFailCount), r.remaining);
              && sent == old(sent) + r.frames + Repeat(EndFrame(runningSequenceNo), close.sends)
              && closeFailCount == close.fails)
    {
      if ackCapacity < BUFFER_LEN {
        ShortBufferRejectsAll(ackCapacity, responses, verdicts);
        NoneAcceptedRun(DataFrames(chunks, runningSequenceNo), verdicts);
      }
      completed := SendChunks(chunks);
      if completed < |chunks| {
        return completed, false;
      }
      ghost var last := runningSequenceNo;
      Close();
      assert runningSequenceNo == last;
      return completed, true;
    }
  }

  // ---------------------------------------------------------------------
  // Properties of the sender

  /** The END frame of close always encodes: every field fits and all of it is 7-bit text. */
  lemma EndEncodes(seqNo: int)
    requires 0 <= seqNo <= 99
    ensures MessageFrame(EndHeader(seqNo), "").Some?
  {
    IntToStringWidth(DATA_TRANSMIT_PORT, 5);
    IntToStringWidth(DATA_RECEIVE_PORT, 5);
    IntToStringWidth(seqNo, 2);
    AsciiFrameEncodes(EndHeader(seqNo), "");
  }

  /** The verdict list of a response list is the only one that judges it. */
  lemma VerdictsJudged(capacity: nat, rs: seq<Response>)
    ensures Judged(capacity, rs, Verdicts(capacity, rs))
    ensures forall vs :: Judged(capacity, rs, vs) ==> vs == Verdicts(capacity, rs)
  {
    var ws := Verdicts(capacity, rs);
    forall i | 0 <= i < |rs|
      ensures ws[i] == AckAcceptable(capacity, rs[i])
    {
    }
    forall vs | Judged(capacity, rs, vs)
      ensures vs == ws
    {
      assert forall i :: 0 <= i < |rs| ==> vs[i] == ws[i] by {
        forall i | 0 <= i < |rs|
          ensures vs[i] == ws[i]
        {
          assert vs[i] == AckAcceptable(capacity, rs[i]);
        }
      }
    }
  }

  lemma JudgedFirst(capacity: nat, rs: seq<Response>, vs: seq<bool>)
    requires Judged(capacity, rs, vs) && rs != []
    ensures vs[0] == AckAcceptable(capacity, rs[0])
  {
  }

  /** After a receive, the remaining verdicts judge the remaining responses. */
  lemma JudgedRest(capacity: nat, rs: seq<Response>, vs: seq<bool>)
    requires Judged(capacity, rs, vs) && rs != []
    ensures Judged(capacity, rs[1..], vs[1..])
  {
    forall i | 0 <= i < |rs| - 1
      ensures vs[1..][i] == AckAcceptable(capacity, rs[1..][i])
    {
      assert rs[1..][i] == rs[i + 1];
      assert vs[i + 1] == AckAcceptable(capacity, rs[i + 1]);
    }
  }

  /** A frame cut to fewer than BUFFER_LEN bytes never decodes, so no response is accepted. */
  lemma ShortBufferRejects(capacity: nat, r: Response)
    requires capacity < BUFFER_LEN
    ensures !AckAcceptable(capacity, r)
  {
  }

  /** With a short buffer every verdict is false, and so no send is ever acknowledged. */
  lemma ShortBufferRejectsAll(capacity: nat, rs: seq<Response>, vs: seq<bool>)
    requires capacity < BUFFER_LEN && Judged(capacity, rs, vs)
    ensures forall i :: 0 <= i < |vs| ==> !vs[i]
    ensures FirstTrue(vs) == |vs|
  {
    forall i | 0 <= i < |vs|
      ensures !vs[i]
    {
      ShortBufferRejects(capacity, rs[i]);
    }
  }

  /**
   * The first true verdict is the first response waitForAck accepts: every
   * earlier response is rejected.
   */
  lemma FirstTrueIsFirstAccepted(capacity: nat, rs: seq<Response>, vs: seq<bool>)
    requires Judged(capacity, rs, vs)
    ensures var i := FirstTrue(vs);
      && (i < |rs| ==> AckAcceptable(capacity, rs[i]))
      && (forall j :: 0 <= j < i ==> !AckAcceptable(capacity, rs[j]))
  {
    var i := FirstTrue(vs);
    forall j | 0 <= j < i
      ensures !AckAcceptable(capacity, rs[j])
    {
      assert !vs[j];
    }
  }

  /** Past a false first verdict, singleSend takes one response more than it takes from the rest. */
  lemma TakenStep(vs: seq<bool>)
    requires vs != [] && !vs[0]
    ensures FirstTrue(vs) == 1 + FirstTrue(vs[1..])
    ensures Taken(vs) == 1 + Taken(vs[1..])
  {
  }

  /**
   * validateSum never rejects: a response is accepted exactly when it
   * decodes with opcode ACK.
   */
  lemma AcceptedIffDecodedAck(capacity: nat, data: string)
    ensures AckAcceptable(capacity, Bytes(data)) <==>
      (DecodeFrame(ReceiveBuffer(capacity, data)).Some? &&
       DecodeFrame(ReceiveBuffer(capacity, data)).value.header.opCode == ACK)
  {
    var buffer := ReceiveBuffer(capacity, data);
    if DecodeFrame(buffer).Some? {
      DecodedMessage(buffer);
    }
  }

  /**
   * With a buffer that holds a whole frame, any acknowledgement built by the
   * message constructor would be accepted, whatever its sequence number.
   */
  lemma FullBufferAcceptsAck(capacity: nat, h: Header, p: string)
    requires capacity >= BUFFER_LEN
    requires h.opCode == ACK
    requires MessageFrame(h, p).Some?
    ensures AckAcceptable(capacity, Bytes(MessageFrame(h, p).value))
  {
    var f := MessageFrame(h, p).value;
    EncodeLayout(h, PadPayload(p), f);
    var buffer := ReceiveBuffer(capacity, f);
    assert buffer == f + buffer[BUFFER_LEN..];
    DecodeIgnoresTail(f, buffer[BUFFER_LEN..]);
    RoundTrip(h, p);
    AcceptedIffDecodedAck(capacity, f);
  }

  /** close sends at least one END frame and at most 22 - closeFailCount of them. */
  lemma {:induction false} CloseBounded(fails: int, vs: seq<bool>)
    requires 0 <= fails <= CLOSE_FAIL_LIMIT + 1
    ensures var r := CloseRun(fails, vs);
      1 <= r.sends <= CLOSE_FAIL_LIMIT + 2 - fails && fails <= r.fails <= CLOSE_FAIL_LIMIT + 1
    decreases CLOSE_FAIL_LIMIT + 1 - fails
  {
    if !((vs != [] && vs[0]) || fails > CLOSE_FAIL_LIMIT) {
      CloseBounded(fails + 1, Rest(vs));
    }
  }

  /**
   * When no response is accepted, close uses up every attempt: from
   * closeFailCount = 0 it sends exactly 22 END frames.
   */
  lemma {:induction false} CloseAllRejected(fails: int, vs: seq<bool>)
    requires 0 <= fails <= CLOSE_FAIL_LIMIT + 1
    requires FirstTrue(vs) == |vs|
    ensures var r := CloseRun(fails, vs);
      r.sends == CLOSE_FAIL_LIMIT + 2 - fails && r.fails == CLOSE_FAIL_LIMIT + 1
    decreases CLOSE_FAIL_LIMIT + 1 - fails
  {
    if fails <= CLOSE_FAIL_LIMIT {
      CloseAllRejected(fails + 1, Rest(vs));
    }
  }

  /**
   * close stops at the first accepted response when it comes within its
   * attempts: with the first true verdict at position i and
   * closeFailCount + i <= 21, it sends i + 1 END frames and counts i failures.
   */
  lemma {:induction false} CloseStopsAtAccepted(fails: int, vs: seq<bool>)
    requires 0 <= fails <= CLOSE_FAIL_LIMIT + 1
    requires FirstTrue(vs) < |vs| && fails + FirstTrue(vs) <= CLOSE_FAIL_LIMIT + 1
    ensures CloseRun(fails, vs) == CloseResult(FirstTrue(vs) + 1, fails + FirstTrue(vs))
    decreases CLOSE_FAIL_LIMIT + 1 - fails
  {
    if !vs[0] {
      CloseStopsAtAccepted(fails + 1, Rest(vs));
    }
  }

  /** The sender as the source builds it, with a 30-byte acknowledgement buffer, sends END 22 times. */
  lemma SourceCloseSends22(rs: seq<Response>, vs: seq<bool>)
    requires Judged(PAYLOAD_LEN, rs, vs)
    ensures CloseRun(0, vs) == CloseResult(CLOSE_FAIL_LIMIT + 2, CLOSE_FAIL_LIMIT + 1)
  {
    ShortBufferRejectsAll(PAYLOAD_LEN, rs, vs);
    CloseAllRejected(0, vs);
  }

  /** One step of CloseRun: one send, then stop or go on with the rest of the verdicts. */
  lemma CloseRunStep(fails: int, vs: seq<bool>)
    requires fails <= CLOSE_FAIL_LIMIT + 1
    ensures var r := CloseRun(fails, vs);
      if (vs != [] && vs[0]) || fails > CLOSE_FAIL_LIMIT then r == CloseResult(1, fails)
      else r.sends == CloseRun(fails + 1, Rest(vs)).sends + 1 && r.fails == CloseRun(fails + 1, Rest(vs)).fails
  {
  }

  /** One more send in front of `n` further sends leaves the state that `n + 1` sends leave. */
  lemma MoreSends(log: seq<string>, frame: string, rs: seq<Response>, vs: seq<bool>, n: nat)
    ensures log + [frame] + Repeat(frame, n) == log + Repeat(frame, n + 1)
    ensures Drop(Rest(rs), n) == Drop(rs, n + 1)
    ensures Drop(Rest(vs), n) == Drop(vs, n + 1)
  {
    RepeatPrepend(log, frame, n);
    RestSuffix(rs, n);
    RestSuffix(vs, n);
  }

  /** The state after a failed close attempt followed by the rest of the run is the state the whole run leaves. */
  lemma CloseWithTail(log: seq<string>, frame: string, rs: seq<Response>, vs: seq<bool>, fails: int)
    requires fails <= CLOSE_FAIL_LIMIT && !(vs != [] && vs[0])
    ensures var n, m := CloseRun(fails + 1, Rest(vs)).sends, CloseRun(fails, vs).sends;
      && log + [frame] + Repeat(frame, n) == log + Repeat(frame, m)
      && Drop(Rest(rs), n) == Drop(rs, m)
      && Drop(Rest(vs), n) == Drop(vs, m)
  {
    CloseRunStep(fails, vs);
    MoreSends(log, frame, rs, vs, CloseRun(fails + 1, Rest(vs)).sends);
  }

  lemma RepeatPrepend(a: seq<string>, f: string, k: nat)
    ensures a + [f] + Repeat(f, k) == a + Repeat(f, k + 1)
  {
    assert [f] + Repeat(f, k) == Repeat(f, k + 1);
  }

  lemma SuffixOfSuffix<T>(s: seq<T>, i: nat, j: nat)
    requires i + j <= |s|
    ensures s[i..][j..] == s[i + j..]
  {
  }

  /** Taking `n` more after one receive takes n + 1 in all. */
  lemma RestSuffix<T>(s: seq<T>, n: nat)
    ensures Drop(Rest(s), n) == Drop(s, n + 1)
  {
  }

  /** Incrementing and resetting past 99 is addition modulo 100. */
  lemma SequenceWrap(x: int)
    ensures NextSequence(x % 100) == (x + 1) % 100
  {
  }

  /**
   * After i acknowledged chunks the main loop has sent `done`, and what
   * MainRun does from frame i on with the remaining verdicts `vs`
   * completes the run.
   */
  ghost predicate RunSoFar(fs: seq<Option<string>>, vs0: seq<bool>, i: nat, done: seq<string>, vs: seq<bool>)
  {
    && i <= |fs|
    && var r := MainRun(fs[i..], vs);
       MainRun(fs, vs0) == RunResult(done + r.frames, r.remaining, i + r.completed)
  }

  lemma RunSoFarStart(fs: seq<Option<string>>, vs0: seq<bool>)
    ensures RunSoFar(fs, vs0, 0, [], vs0)
  {
    assert fs[0..] == fs;
    assert [] + MainRun(fs, vs0).frames == MainRun(fs, vs0).frames;
  }

  /**
   * One turn of the main loop in terms of MainRun: frame i is sent as
   * singleSend does, and either the run stops there or frame i moves to
   * the part already done.
   */
  lemma RunSoFarStep(fs: seq<Option<string>>, vs0: seq<bool>, i: nat, done: seq<string>, vs: seq<bool>)
    returns (c: ChunkResult)
    requires RunSoFar(fs, vs0, i, done, vs) && i < |fs|
    ensures c == SingleSendRun(fs[i], vs)
    ensures !c.acked ==> MainRun(fs, vs0) == RunResult(done + c.frames, vs[c.used..], i)
    ensures c.acked ==> RunSoFar(fs, vs0, i + 1, done + c.frames, vs[c.used..])
  {
    c := SingleSendRun(fs[i], vs);
    assert fs[i..][0] == fs[i];
    assert fs[i..][1..] == fs[i + 1..];
    if c.acked {
      var rest := MainRun(fs[i + 1..], vs[c.used..]);
      assert done + (c.frames + rest.frames) == (done + c.frames) + rest.frames;
    }
  }

  lemma RunSoFarEnd(fs: seq<Option<string>>, vs0: seq<bool>, done: seq<string>, vs: seq<bool>)
    requires RunSoFar(fs, vs0, |fs|, done, vs)
    ensures MainRun(fs, vs0) == RunResult(done, vs, |fs|)
  {
    assert fs[|fs|..] == [];
    assert done + [] == done;
  }

  /** The frame of chunk i is built with the running sequence number after i accepted sends. */
  lemma {:induction false} DataFrameAt(chunks: seq<string>, seqNo: int, i: nat)
    requires i < |chunks|
    ensures DataFrames(chunks, seqNo)[i] == MessageFrame(DataHeader(Advance(seqNo, i)), chunks[i])
    decreases i
  {
    if i > 0 {
      var tail := DataFrames(chunks[1..], NextSequence(seqNo));
      assert DataFrames(chunks, seqNo)[i] == tail[i - 1];
      DataFrameAt(chunks[1..], NextSequence(seqNo), i - 1);
      AdvanceShift(seqNo, i - 1);
      assert chunks[1..][i - 1] == chunks[i];
    }
  }

  /** Advancing from the next number is advancing once more. */
  lemma {:induction false} AdvanceShift(s: int, n: nat)
    ensures Advance(NextSequence(s), n) == Advance(s, n + 1)
  {
    if n > 0 {
      AdvanceShift(s, n - 1);
    }
  }

  lemma AppendAssociates(a: seq<string>, b: seq<string>, c: seq<string>)
    ensures (a + b) + c == a + (b + c)
  {
  }

  /** The running sequence number after n accepted sends from s. */
  function Advance(s: int, n: nat): int
  {
    if n == 0 then s else NextSequence(Advance(s, n - 1))
  }

  /** n accepted sends move the running sequence number from s to (s + n) mod 100. */
  lemma {:induction false} AdvanceMod(s: int, n: nat)
    requires 0 <= s <= 99
    ensures Advance(s, n) == (s + n) % 100
  {
    if n > 0 {
      AdvanceMod(s, n - 1);
      SequenceWrap(s + n - 1);
    }
  }

  /**
   * Over a channel that accepts every response, the main loop sends each
   * chunk's frame exactly once, in order: chunk k with sequence number
   * (seqNo + k) mod 100.
   */
  lemma PerfectChannelSendsInOrder(chunks: seq<string>, seqNo: int, vs: seq<bool>)
    requires |vs| >= |chunks|
    requires forall i :: 0 <= i < |vs| ==> vs[i]
    requires 0 <= seqNo <= 99
    requires forall k :: 0 <= k < |chunks| ==> MessageFrame(DataHeader((seqNo + k) % 100), chunks[k]).Some?
    ensures var r := MainRun(DataFrames(chunks, seqNo), vs);
      && r.completed == |chunks| && r.remaining == vs[|chunks|..] && |r.frames| == |chunks|
      && forall k :: 0 <= k < |chunks| ==> Some(r.frames[k]) == MessageFrame(DataHeader((seqNo + k) % 100), chunks[k])
  {
    var fs := DataFrames(chunks, seqNo);
    forall k | 0 <= k < |chunks|
      ensures fs[k] == MessageFrame(DataHeader((seqNo + k) % 100), chunks[k])
    {
      DataFrameAt(chunks, seqNo, k);
      AdvanceMod(seqNo, k);
    }
    AllAcceptedRun(fs, vs);
  }

  /** With every response rejected, MainRun acknowledges no chunk. */
  lemma NoneAcceptedRun(fs: seq<Option<string>>, vs: seq<bool>)
    requires forall i :: 0 <= i < |vs| ==> !vs[i]
    ensures MainRun(fs, vs).completed == 0
  {
    if fs != [] {
      assert FirstTrue(vs) == |vs|;
    }
  }

  /** With every response accepted, MainRun sends each frame once. */
  lemma {:induction false} AllAcceptedRun(fs: seq<Option<string>>, vs: seq<bool>)
    requires |vs| >= |fs|
    requires forall i :: 0 <= i < |vs| ==> vs[i]
    requires forall k :: 0 <= k < |fs| ==> fs[k].Some?
    ensures var r := MainRun(fs, vs);
      && r.completed == |fs| && r.remaining == vs[|fs|..] && |r.frames| == |fs|
      && forall k :: 0 <= k < |fs| ==> Some(r.frames[k]) == fs[k]
    decreases |fs|
  {
    if fs != [] {
      assert FirstTrue(vs) == 0;
      var c := SingleSendRun(fs[0], vs);
      assert c.frames == [fs[0].value];
      AllAcceptedRun(fs[1..], vs[1..]);
      SuffixOfSuffix(vs, 1, |fs| - 1);
      var r, t := MainRun(fs, vs), MainRun(fs[1..], vs[1..]);
      assert r.frames == c.frames + t.frames;
      forall k | 0 < k < |fs|
        ensures Some(r.frames[k]) == fs[k]
      {
        assert r.frames[k] == t.frames[k - 1];
        assert fs[1..][k - 1] == fs[k];
      }
    }
  }

}
