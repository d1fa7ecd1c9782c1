/**
 * The receiving end of the stop-and-wait transport. For every datagram it
 * reconstitutes the message, answers with an acknowledgement carrying the
 * last in-order sequence number, prints the payload of the next expected
 * message and logs everything else. It stops once it has received an END
 * message.
 *
 * The data socket is given as the datagram each receive call obtains, the
 * acknowledgement socket as a log of the frames sent, standard output as
 * the payloads printed, and the error stream as a log of entries.
 */
module Receiver {
  import opened Text
  import opened Inet
  import opened TransportMessage
  import opened Channel

  /** The size of the byte array receive reads a datagram into. */
  const RECEIVE_BUFFER_LEN: nat := 1024

  /** What receive writes to its error stream. */
  datatype ErrorEntry =
    | OutOfSequence(lastOk: int)   // a valid message that is not the next one expected
    | Corrupted(payload: string)   // a message whose checksum does not match
    | NullMessage                  // reconstitute returned null

  /** The observable state of a receiver: its counter and everything it has written. */
  datatype ReceiverState = ReceiverState(lastSeqNo: int, acks: seq<Ack>, delivered: seq<string>,
                                         errors: seq<ErrorEntry>)

  /** An acknowledgement as sendAck decides it: ACK or NAK, and the sequence number it carries. */
  datatype Ack = Ack(isOk: bool, lastSeqNo: SeqNo)

  /** The values receive's counter takes: -1 before the first in-order message, then 0 to 99. */
  type SeqNo = x: int | -1 <= x <= 99

  /** The header of every acknowledgement sendAck builds. */
  function AckHeader(opCode: char, lastSeqNo: int): Header
  {
    Header(LOCAL_IP, LOCAL_IP, ACK_SEND_PORT, ACK_RECEIVE_PORT, opCode, lastSeqNo)
  }

  /** The address and port fields of every acknowledgement: both ends are the local host. */
  const ACK_ADDRESSES: string := LOCAL_IP_FIELD + " 2018" + LOCAL_IP_FIELD + " 2016"
  /** The local address padded to the 15-character address field. */
  const LOCAL_IP_FIELD: string := "  172.17.152.46"
  /** The character-code sum of ACK_ADDRESSES and of an all-blank payload. */
  const ACK_FIXED_SUM: nat := 2864

  /** A sequence number in [-1, 99] padded to two characters. */
  function SeqField(l: SeqNo): string
  {
    if l < 0 then "-1" else if l < 10 then " " + NatToDigits(l) else NatToDigits(l)
  }

  /** A blank and the decimal digits of `n`: the trailer of a four-digit checksum. */
  function ChecksumField(n: nat): string
  {
    " " + NatToDigits(n)
  }

  /**
   * The frame sendAck sends: opcode ACK or NAK, the last in-order sequence
   * number, an empty payload, and the checksum of those 73 characters.
   */
  function AckFrame(a: Ack): string
  {
    var op := if a.isOk then ACK else NAK;
    var l := SeqField(a.lastSeqNo);
    ACK_ADDRESSES + [op] + l + Blanks(PAYLOAD_LEN) + ChecksumField(ACK_FIXED_SUM + op as int + Sum(l))
  }

  /** The sequence number receive expects after `lastSeqNo`. */
  function Expected(lastSeqNo: int): int
  {
    (lastSeqNo + 1) % 100
  }

  /** validateChecksum on a reconstituted message: computed checksum equals stored checksum. */
  predicate ChecksumOk(m: Message)
  {
    |m.buffer| >= CHECKED_LEN && Sum(m.buffer[..CHECKED_LEN]) == m.storedChecksum
  }

  /** Whether `m` is delivered: its checksum is valid and it carries the expected sequence number. */
  predicate InOrder(lastSeqNo: int, m: Message)
  {
    ChecksumOk(m) && m.header.sequenceNo == Expected(lastSeqNo)
  }

  /**
   * What receive does with a message reconstitute returned: advance the
   * counter past an in-order message, acknowledge with the (new) counter,
   * print an in-order payload and log the rest.
   */
  function Handle(s: ReceiverState, m: Message): (r: ReceiverState)
    requires -1 <= s.lastSeqNo <= 99
    ensures -1 <= r.lastSeqNo <= 99
  {
    var ok := ChecksumOk(m);
    var last := if InOrder(s.lastSeqNo, m) then Expected(s.lastSeqNo) else s.lastSeqNo;
    ReceiverState(
      last,
      s.acks + [Ack(ok, last)],
      s.delivered + (if InOrder(s.lastSeqNo, m) then [m.payload] else []),
      s.errors + (if !ok then [Corrupted(m.payload)] else if !InOrder(s.lastSeqNo, m) then [OutOfSequence(last)] else []))
  }

  /** One call of receive on the outcome of reconstitute: the new state and the opcode returned. */
  function Step(s: ReceiverState, m: Option<Message>): (r: (ReceiverState, char))
    requires -1 <= s.lastSeqNo <= 99
    ensures -1 <= r.0.lastSeqNo <= 99
  {
    match m
    case None => (s.(errors := s.errors + [NullMessage]), NAK)
    case Some(msg) => (Handle(s, msg), msg.header.opCode)
  }

  /** The outcome of reconstitute on the receive buffer holding datagram `data`. */
  function Decoded(data: string): Option<Message>
  {
    DecodeFrame(ReceiveBuffer(RECEIVE_BUFFER_LEN, data))
  }

  /** receive applied to each message in turn. */
  function Steps(s: ReceiverState, ms: seq<Option<Message>>): (r: ReceiverState)
    requires -1 <= s.lastSeqNo <= 99
    ensures -1 <= r.lastSeqNo <= 99
    decreases |ms|
  {
    if ms == [] then s
    else
      Steps(Step(s, ms[0]).0, ms[1..])
  }

  /** The index of the first message whose opcode is END, or |ms| when there is none. */
  function FirstEnd(ms: seq<Option<Message>>): (k: nat)
    ensures k <= |ms|
    ensures k < |ms| ==> ms[k].Some? && ms[k].value.header.opCode == END
    ensures forall j :: 0 <= j < k ==> ms[j].None? || ms[j].value.header.opCode != END
    decreases |ms|
  {
    if ms == [] then 0
    else if ms[0].Some? && ms[0].value.header.opCode == END then 0
    else 1 + FirstEnd(ms[1..])
  }

  class ReliableReceiver {
    var lastSeqNo: int
    /** Frames handed to the acknowledgement socket, oldest first. */
    var acks: seq<string>
    /** What each of those frames acknowledges. */
    ghost var ackLog: seq<Ack>
    /** Payloads printed to standard output, oldest first. */
    var delivered: seq<string>
    /** Entries written to the error stream, oldest first. */
    var errors: seq<ErrorEntry>

    /** The counter stays in range and every frame sent is the encoding of its acknowledgement. */
    ghost predicate Valid()
      reads this`lastSeqNo, this`acks, this`ackLog
    {
      -1 <= lastSeqNo <= 99 && acks == Map(AckFrame, ackLog)
    }

    ghost function State(): ReceiverState
      reads this
    {
      ReceiverState(lastSeqNo, ackLog, delivered, errors)
    }

    constructor ()
      ensures Valid()
      ensures State() == ReceiverState(-1, [], [], [])
    {
      lastSeqNo := -1;
      acks := [];
      ackLog := [];
      delivered := [];
      errors := [];
    }

    /** receive: read one datagram into a 1024-byte buffer, reconstitute it and act on the result. */
    method Receive(data: string) returns (opcode: char)
      requires Valid()
      modifies this
      ensures Valid()
      ensures (State(), opcode) == Step(old(State()), Decoded(data))
    {
      ghost var s0 := State();
      var buffer := ReceiveBuffer(RECEIVE_BUFFER_LEN, data);
      var message := ReliableTransportMessage.Reconstitute(buffer);
      assert State() == s0;
      ghost var m := Decoded(data);
      assert m == if message == null then None else Some(message.Value());
      opcode := Process(message, m);
    }

    /**
     * The try block of receive. A null message throws at validateChecksum;
     * the exception is caught and logged, and NAK is returned without any
     * reply.
     */
    method Process(message: ReliableTransportMessage?, ghost m: Option<Message>) returns (opcode: char)
      requires Valid() && (message != null ==> |message.buffer| >= CHECKED_LEN)
      requires m == if message == null then None else Some(message.Value())
      modifies this
      ensures Valid()
      ensures (State(), opcode) == Step(old(State()), m)
    {
      opcode := NAK;
      if message == null {
        errors := errors + [NullMessage];
        return;
      }
      opcode := Respond(message);
    }

    /** The part of receive after a message was reconstituted. */
    method Respond(message: ReliableTransportMessage) returns (opcode: char)
      requires Valid() && |message.buffer| >= CHECKED_LEN
      modifies this
      ensures Valid()
      ensures State() == Handle(old(State()), message.Value())
      ensures opcode == message.opCode
    {
      ghost var s0, m := State(), message.Value();
      var messageOk := ValidateChecksum(message);
      var expected := (lastSeqNo + 1) % 100;
      var sequenceNoOk := expected == message.sequenceNo;
      HandleCases(s0, m, messageOk, sequenceNoOk);
      var payload, op := message.payload, message.opCode;
      assert payload == m.payload && op == m.header.opCode;
      if messageOk && sequenceNoOk {
        lastSeqNo := lastSeqNo + 1;
        lastSeqNo := lastSeqNo % 100;
        assert lastSeqNo == expected;
      }
      SendAck(messageOk);
      if messageOk {
        if sequenceNoOk {
          delivered := delivered + [payload];
        } else {
          errors := errors + [OutOfSequence(lastSeqNo)];
        }
      } else {
        errors := errors + [Corrupted(payload)];
      }
      opcode := op;
    }

    /** sendAck: an ACK when the message is acceptable, otherwise a NAK, carrying lastSeqNo. */
    method SendAck(isOk: bool)
      requires Valid()
      modifies this`acks, this`ackLog
      ensures Valid()
      ensures ackLog == old(ackLog) + [Ack(isOk, lastSeqNo)]
    {
      var opcode := NAK;
      if isOk {
        opcode := ACK;
      }
      ghost var ack := Ack(isOk, lastSeqNo);
      AckFrameEncodes(ack);
      var frame := ReliableTransportMessage.Build(AckHeader(opcode, lastSeqNo), "");
      MapAppend(AckFrame, ackLog, ack);
      acks := acks + [frame.value];
      ackLog := ackLog + [ack];
    }

    /** validateChecksum: the computed checksum equals the stored one. */
    method ValidateChecksum(message: ReliableTransportMessage) returns (ok: bool)
      requires |message.buffer| >= CHECKED_LEN
      ensures ok == ChecksumOk(message.Value())
    {
      var computed := message.GetComputedChecksum();
      ok := computed == message.storedChecksum;
    }

    /**
     * main: receive until a message with opcode END arrives. Receive blocks
     * in the source; here the run also ends once the given datagrams are
     * used up.
     */
    method Run(datagrams: seq<string>) returns (received: nat, ended: bool)
      requires Valid()
      modifies this
      ensures Valid()
      ensures Session(old(State()), Decodes(datagrams)) == Outcome(State(), received, ended)
    {
      ghost var start := State();
      ghost var ms := Decodes(datagrams);
      received := 0;
      AccountsStart(start, ms);
      while received < |datagrams|
        invariant received <= |datagrams| && Valid()
        invariant Accounts(start, ms, received, State())
      {
        ghost var before := State();
        var opcode := Receive(datagrams[received]);
        DecodesAt(datagrams, received);
        AccountsNext(start, ms, received, before, State(), opcode);
        received := received + 1;
        if opcode == END {
          return received, true;
        }
      }
      AccountsDone(start, ms, State());
      return received, false;
    }
  }

  /** The outcome of reconstitute on each datagram, in order. */
  function Decodes(datagrams: seq<string>): (ms: seq<Option<Message>>)
    ensures |ms| == |datagrams|
  {
    Map(Decoded, datagrams)
  }

  /** `f` applied to each element of `xs`. */
  function Map<A, B>(f: A -> B, xs: seq<A>): (ys: seq<B>)
    ensures |ys| == |xs|
    decreases |xs|
  {
    if xs == [] then [] else [f(xs[0])] + Map(f, xs[1..])
  }

  lemma {:induction false} MapAt<A, B>(f: A -> B, xs: seq<A>, k: nat)
    requires k < |xs|
    ensures Map(f, xs)[k] == f(xs[k])
    decreases k
  {
    if k > 0 {
      MapAt(f, xs[1..], k - 1);
    }
  }

  lemma {:induction false} MapAppend<A, B>(f: A -> B, xs: seq<A>, x: A)
    ensures Map(f, xs + [x]) == Map(f, xs) + [f(x)]
    decreases |xs|
  {
    if xs == [] {
      assert [x][1..] == [];
    } else {
      assert (xs + [x])[1..] == xs[1..] + [x];
      MapAppend(f, xs[1..], x);
    }
  }

  /** How main ends: the state reached, the number of datagrams received and whether END was seen. */
  datatype Outcome = Outcome(state: ReceiverState, received: nat, ended: bool)

  /** main on the outcomes of reconstitute: receive each in turn, stopping after the first END. */
  function Session(s: ReceiverState, ms: seq<Option<Message>>): (r: Outcome)
    requires -1 <= s.lastSeqNo <= 99
    decreases |ms|
  {
    if ms == [] then Outcome(s, 0, false)
    else
      var (t, opcode) := Step(s, ms[0]);
      if opcode == END then Outcome(t, 1, true)
      else
        var rest := Session(t, ms[1..]);
        Outcome(rest.state, rest.received + 1, rest.ended)
  }

  // ---------------------------------------------------------------------
  // Lemmas

  /** The frame the message constructor builds for an acknowledgement is the layout AckFrame spells out. */
  lemma AckFrameEncodes(a: Ack)
    ensures MessageFrame(AckHeader(if a.isOk then ACK else NAK, a.lastSeqNo), "") == Some(AckFrame(a))
  {
    var op := if a.isOk then ACK else NAK;
    var l := SeqField(a.lastSeqNo);
    AckBody(op, a.lastSeqNo);
    AckTrailer(op, a.lastSeqNo);
    FrameOfBody(AckHeader(op, a.lastSeqNo), ACK_ADDRESSES + [op] + l + Blanks(PAYLOAD_LEN),
                ChecksumField(ACK_FIXED_SUM + op as int + Sum(l)));
  }

  /** encode appends the padded checksum of the fields to the fields. */
  lemma FrameOfBody(h: Header, body: string, trailer: string)
    requires FieldsFit(h) && Body(h, PadPayload("")) == body && PadInt(Sum(body), 5) == Some(trailer)
    ensures MessageFrame(h, "") == Some(body + trailer)
  {
  }

  /** The acknowledgement fields before the checksum: addresses, opcode, sequence number, blank payload. */
  lemma AckBody(op: char, l: SeqNo)
    ensures FieldsFit(AckHeader(op, l))
    ensures Body(AckHeader(op, l), PadPayload("")) == ACK_ADDRESSES + [op] + SeqField(l) + Blanks(PAYLOAD_LEN)
  {
    AckHeaderText(op, l);
    assert PadPayload("") == Blanks(PAYLOAD_LEN);
    assert PadPayload(Blanks(PAYLOAD_LEN)) == Blanks(PAYLOAD_LEN);
  }

  /** The checksum trailer of an acknowledgement. */
  lemma AckTrailer(op: char, l: SeqNo)
    requires op as int < 128
    ensures var n := ACK_FIXED_SUM + op as int + Sum(SeqField(l));
      PadInt(Sum(ACK_ADDRESSES + [op] + SeqField(l) + Blanks(PAYLOAD_LEN)), 5) == Some(ChecksumField(n))
  {
    AckBodySum(op, SeqField(l));
    SeqFieldText(l);
    SeqFieldAscii(l);
    SumAsciiBound(SeqField(l));
    ChecksumText(ACK_FIXED_SUM + op as int + Sum(SeqField(l)));
  }

  lemma AckBodySum(op: char, f: string)
    ensures Sum(ACK_ADDRESSES + [op] + f + Blanks(PAYLOAD_LEN)) == ACK_FIXED_SUM + op as int + Sum(f)
  {
    SumAppend(ACK_ADDRESSES + [op] + f, Blanks(PAYLOAD_LEN));
    SumAppend(ACK_ADDRESSES + [op], f);
    SumAppend(ACK_ADDRESSES, [op]);
    FixedSum();
  }

  lemma AckHeaderText(op: char, l: SeqNo)
    ensures FieldsFit(AckHeader(op, l))
    ensures HeaderText(AckHeader(op, l)) == ACK_ADDRESSES + [op] + SeqField(l)
  {
    var h := AckHeader(op, l);
    LocalAddressText();
    PortsText();
    SeqFieldText(l);
    assert HeaderText(h) == LOCAL_IP_FIELD + " 2018" + LOCAL_IP_FIELD + " 2016" + [op] + SeqField(l);
  }

  lemma PortsText()
    ensures PadInt(ACK_SEND_PORT, 5) == Some(" 2018") && PadInt(ACK_RECEIVE_PORT, 5) == Some(" 2016")
  {
    ThreeDigits(201);
    assert ChecksumField(ACK_SEND_PORT) == " 2018" && ChecksumField(ACK_RECEIVE_PORT) == " 2016";
    ChecksumText(ACK_SEND_PORT);
    ChecksumText(ACK_RECEIVE_PORT);
  }

  lemma LocalAddressText()
    ensures PadIP(LOCAL_IP, 15) == LOCAL_IP_FIELD
  {
    LocalHostAddress();
  }

  lemma LocalHostAddress()
    ensures HostAddress(LOCAL_IP) == "172.17.152.46"
  {
    ThreeDigits(172);
    TwoDigits(17);
    ThreeDigits(152);
    TwoDigits(46);
  }

  lemma TwoDigits(n: nat)
    requires 10 <= n < 100
    ensures NatToDigits(n) == [DigitChar(n / 10), DigitChar(n % 10)]
  {
    assert NatToDigits(n / 10) == [DigitChar(n / 10)];
  }

  lemma ThreeDigits(n: nat)
    requires 100 <= n < 1000
    ensures NatToDigits(n) == [DigitChar(n / 100), DigitChar(n / 10 % 10), DigitChar(n % 10)]
  {
    assert n / 10 / 10 == n / 100;
    TwoDigits(n / 10);
  }

  lemma SeqFieldText(l: SeqNo)
    ensures PadInt(l, 2) == Some(SeqField(l))
  {
    if l < 0 {
      assert IntToString(l) == "-1";
      NoBlanks("-1");
    } else if l < 10 {
      assert Blanks(1) == " ";
    } else {
      DigitsLength(l, 1);
      DigitsLength(l, 2);
      NoBlanks(IntToString(l));
    }
  }

  lemma SeqFieldAscii(l: SeqNo)
    ensures IsAscii(SeqField(l))
  {
    if 0 <= l < 10 {
      AsciiConcat(" ", NatToDigits(l));
    }
  }

  lemma ChecksumText(n: nat)
    requires 1000 <= n < 10000
    ensures PadInt(n, 5) == Some(ChecksumField(n))
  {
    DigitsLength(n, 3);
    DigitsLength(n, 4);
    assert Blanks(1) == " ";
  }

  lemma {:induction false} SumBlanks(k: nat)
    ensures Sum(Blanks(k)) == 32 * k
  {
    if k > 0 {
      assert Blanks(k)[..k - 1] == Blanks(k - 1);
      SumBlanks(k - 1);
    }
  }

  lemma FixedSum()
    ensures Sum(ACK_ADDRESSES) + Sum(Blanks(PAYLOAD_LEN)) == ACK_FIXED_SUM
  {
    var f := LOCAL_IP_FIELD;
    assert f == "  172" + ".17.1" + "52.46";
    SumFive("  172");
    SumFive(".17.1");
    SumFive("52.46");
    SumFive(" 2018");
    SumFive(" 2016");
    SumAppend("  172", ".17.1");
    SumAppend("  172" + ".17.1", "52.46");
    SumAppend(f, " 2018");
    SumAppend(f + " 2018", f);
    SumAppend(f + " 2018" + f, " 2016");
    SumBlanks(PAYLOAD_LEN);
  }

  lemma SumFive(s: string)
    requires |s| == 5
    ensures Sum(s) == s[0] as int + s[1] as int + s[2] as int + s[3] as int + s[4] as int
  {
    assert s[..5] == s && s[..0] == [];
    SumPrefixStep(s, 4);
    SumPrefixStep(s, 3);
    SumPrefixStep(s, 2);
    SumPrefixStep(s, 1);
    SumPrefixStep(s, 0);
  }

  /** Handle spelled out by the two checks receive makes. */
  lemma HandleCases(s: ReceiverState, m: Message, messageOk: bool, sequenceNoOk: bool)
    requires -1 <= s.lastSeqNo <= 99
    requires messageOk == ChecksumOk(m) && sequenceNoOk == (Expected(s.lastSeqNo) == m.header.sequenceNo)
    ensures var inOrder := messageOk && sequenceNoOk;
      var last := if inOrder then Expected(s.lastSeqNo) else s.lastSeqNo;
      Handle(s, m) == ReceiverState(last, s.acks + [Ack(messageOk, last)],
        if inOrder then s.delivered + [m.payload] else s.delivered,
        if !messageOk then s.errors + [Corrupted(m.payload)]
        else if !sequenceNoOk then s.errors + [OutOfSequence(last)] else s.errors)
  {
  }

  /**
   * Main's loop invariant: after `k` messages the receiver is in state `s`,
   * and the session from `start` is those `k` receptions followed by the
   * session from `s` on the remaining messages.
   */
  ghost predicate Accounts(start: ReceiverState, ms: seq<Option<Message>>, k: nat, s: ReceiverState)
  {
    && -1 <= start.lastSeqNo <= 99 && -1 <= s.lastSeqNo <= 99 && k <= |ms|
    && var rest := Session(s, ms[k..]);
       Session(start, ms) == Outcome(rest.state, rest.received + k, rest.ended)
  }

  lemma AccountsStart(start: ReceiverState, ms: seq<Option<Message>>)
    requires -1 <= start.lastSeqNo <= 99
    ensures Accounts(start, ms, 0, start)
  {
    assert ms[0..] == ms;
  }

  /** One pass of main's loop, receiving message `k` in state `s` and reaching `t`. */
  lemma AccountsNext(start: ReceiverState, ms: seq<Option<Message>>, k: nat, s: ReceiverState,
                     t: ReceiverState, opcode: char)
    requires Accounts(start, ms, k, s) && k < |ms|
    requires (t, opcode) == Step(s, ms[k])
    ensures opcode == END ==> Session(start, ms) == Outcome(t, k + 1, true)
    ensures opcode != END ==> Accounts(start, ms, k + 1, t)
  {
    var rest := ms[k..];
    assert rest == [ms[k]] + ms[k + 1..];
    SessionCons(s, ms[k], ms[k + 1..]);
  }

  lemma AccountsDone(start: ReceiverState, ms: seq<Option<Message>>, s: ReceiverState)
    requires Accounts(start, ms, |ms|, s)
    ensures Session(start, ms) == Outcome(s, |ms|, false)
  {
    assert ms[|ms|..] == [];
  }

  lemma DecodesAt(datagrams: seq<string>, k: nat)
    requires k < |datagrams|
    ensures Decodes(datagrams)[k] == Decoded(datagrams[k])
  {
    MapAt(Decoded, datagrams, k);
  }

  lemma SessionCons(s: ReceiverState, m: Option<Message>, ms: seq<Option<Message>>)
    requires -1 <= s.lastSeqNo <= 99
    ensures Session(s, [m] + ms) == if Step(s, m).1 == END then Outcome(Step(s, m).0, 1, true)
      else var rest := Session(Step(s, m).0, ms); Outcome(rest.state, rest.received + 1, rest.ended)
  {
    assert ([m] + ms)[1..] == ms;
  }

  lemma {:induction false} StepsAppend(s: ReceiverState, ms: seq<Option<Message>>, m: Option<Message>)
    requires -1 <= s.lastSeqNo <= 99
    ensures Steps(s, ms + [m]) == Step(Steps(s, ms), m).0
    decreases |ms|
  {
    if ms == [] {
      assert [m][1..] == [];
    } else {
      assert (ms + [m])[1..] == ms[1..] + [m];
      StepsAppend(Step(s, ms[0]).0, ms[1..], m);
    }
  }

  /** receive returns END exactly for a reconstituted message whose opcode is END. */
  lemma StepOpcode(s: ReceiverState, m: Option<Message>)
    requires -1 <= s.lastSeqNo <= 99
    ensures Step(s, m).1 == END <==> m.Some? && m.value.header.opCode == END
  {
  }

  // ---------------------------------------------------------------------
  // Properties of receive

  /** The counter moves exactly on an in-order message, and then to the next expected number. */
  lemma AdvancesIffInOrder(s: ReceiverState, m: Message)
    requires -1 <= s.lastSeqNo <= 99
    ensures Handle(s, m).lastSeqNo != s.lastSeqNo <==> InOrder(s.lastSeqNo, m)
    ensures InOrder(s.lastSeqNo, m) ==> Handle(s, m).lastSeqNo == Expected(s.lastSeqNo)
  {
  }

  /** After -1 the counter runs 0, 1, ..., 99 and wraps to 0. */
  lemma ExpectedWraps(lastSeqNo: int)
    requires -1 <= lastSeqNo <= 99
    ensures 0 <= Expected(lastSeqNo) <= 99
    ensures Expected(lastSeqNo) == if lastSeqNo == 99 then 0 else lastSeqNo + 1
  {
  }

  /**
   * A reconstituted message gets exactly one reply: ACK when its checksum is
   * valid, NAK otherwise, carrying the counter after the update.
   */
  lemma OneReply(s: ReceiverState, m: Option<Message>)
    requires -1 <= s.lastSeqNo <= 99
    ensures var t := Step(s, m).0;
      m.Some? ==> t.acks == s.acks + [Ack(ChecksumOk(m.value), t.lastSeqNo)]
  {
  }

  /** A payload is printed only for an in-order message; everything else is logged. */
  lemma DeliversIffInOrder(s: ReceiverState, m: Message)
    requires -1 <= s.lastSeqNo <= 99
    ensures var t := Handle(s, m);
      && (InOrder(s.lastSeqNo, m) ==> t.delivered == s.delivered + [m.payload] && t.errors == s.errors)
      && (!InOrder(s.lastSeqNo, m) ==> t.delivered == s.delivered && |t.errors| == |s.errors| + 1)
  {
  }

  /** When reconstitute returns null nothing is sent or printed, the counter stays, and NAK is returned. */
  lemma NullNoReply(s: ReceiverState)
    requires -1 <= s.lastSeqNo <= 99
    ensures var (t, opcode) := Step(s, None);
      && t.lastSeqNo == s.lastSeqNo && t.acks == s.acks && t.delivered == s.delivered
      && t.errors == s.errors + [NullMessage] && opcode == NAK
  {
  }

  /**
   * Every datagram reconstitute accepts passes validateChecksum, since
   * reconstitute already compared the trailer with the checksum of the
   * message it built: the receiver never sends a NAK.
   */
  lemma NeverNak(s: ReceiverState, data: string)
    requires -1 <= s.lastSeqNo <= 99
    requires Decoded(data).Some?
    ensures ChecksumOk(Decoded(data).value)
    ensures Step(s, Decoded(data)).0.acks == s.acks + [Ack(true, Step(s, Decoded(data)).0.lastSeqNo)]
  {
    DecodedMessage(ReceiveBuffer(RECEIVE_BUFFER_LEN, data));
  }

  /**
   * The same in-order message received twice prints its payload once and is
   * acknowledged twice with the same acknowledgement.
   */
  lemma DuplicateDeliveredOnce(s: ReceiverState, m: Message)
    requires -1 <= s.lastSeqNo <= 99
    requires InOrder(s.lastSeqNo, m)
    ensures var t := Handle(s, m);
      var u := Handle(t, m);
      && u.delivered == s.delivered + [m.payload]
      && u.lastSeqNo == t.lastSeqNo
      && u.acks == s.acks + [Ack(true, t.lastSeqNo), Ack(true, t.lastSeqNo)]
  {
    var t := Handle(s, m);
    assert t.lastSeqNo == Expected(s.lastSeqNo);
    assert !InOrder(t.lastSeqNo, m);
  }

  /** The counter after `k` in-order messages starting from `lastSeqNo`. */
  function Advance(lastSeqNo: int, k: nat): (r: int)
    requires -1 <= lastSeqNo <= 99
    ensures -1 <= r <= 99
  {
    if k == 0 then lastSeqNo else Expected(Advance(lastSeqNo, k - 1))
  }

  /** From the initial -1, the counter after `k` deliveries is k - 1 modulo 100. */
  lemma {:induction false} AdvanceFromStart(k: nat)
    ensures Advance(-1, k) == if k == 0 then -1 else (k - 1) % 100
  {
    if k > 1 {
      AdvanceFromStart(k - 1);
      ModNext(k - 2);
    }
  }

  lemma ModNext(n: nat)
    ensures (n + 1) % 100 == if n % 100 == 99 then 0 else n % 100 + 1
  {
    var a, b := n / 100, n % 100;
    assert n == 100 * a + b;
    if b == 99 {
      assert n + 1 == 100 * (a + 1);
    } else {
      assert n + 1 == 100 * a + (b + 1);
    }
  }

  /**
   * Over any run of receive, the printed payloads only grow, and the counter
   * has advanced once for each payload printed.
   */
  lemma {:induction false} StepsCount(s: ReceiverState, ms: seq<Option<Message>>)
    requires -1 <= s.lastSeqNo <= 99
    ensures var t := Steps(s, ms);
      && |s.delivered| <= |t.delivered| && t.delivered[..|s.delivered|] == s.delivered
      && t.lastSeqNo == Advance(s.lastSeqNo, |t.delivered| - |s.delivered|)
    decreases |ms|
  {
    if ms != [] {
      var r := Step(s, ms[0]).0;
      StepsCount(r, ms[1..]);
      var t := Steps(r, ms[1..]);
      StepCount(s, ms[0]);
      var k := |r.delivered| - |s.delivered|;
      AdvanceAdd(s.lastSeqNo, k, |t.delivered| - |r.delivered|);
      assert t.delivered[..|r.delivered|][..|s.delivered|] == t.delivered[..|s.delivered|];
    }
  }

  /** One receive prints at most one payload and advances the counter once per payload printed. */
  lemma StepCount(s: ReceiverState, m: Option<Message>)
    requires -1 <= s.lastSeqNo <= 99
    ensures var t := Step(s, m).0;
      && |s.delivered| <= |t.delivered| <= |s.delivered| + 1 && t.delivered[..|s.delivered|] == s.delivered
      && t.lastSeqNo == Advance(s.lastSeqNo, |t.delivered| - |s.delivered|)
  {
    var t := Step(s, m).0;
    assert Advance(s.lastSeqNo, 1) == Expected(s.lastSeqNo);
    assert t.delivered[..|s.delivered|] == s.delivered;
  }

  lemma {:induction false} AdvanceAdd(l: int, j: nat, k: nat)
    requires -1 <= l <= 99
    ensures Advance(Advance(l, j), k) == Advance(l, j + k)
    decreases k
  {
    if k > 0 {
      AdvanceAdd(l, j, k - 1);
    }
  }

  /**
   * main receives up to and including the first END and stops there, or
   * receives every datagram when none is END; the state reached is receive
   * applied to exactly the messages received.
   */
  lemma {:induction false} SessionStops(s: ReceiverState, ms: seq<Option<Message>>)
    requires -1 <= s.lastSeqNo <= 99
    ensures var o := Session(s, ms);
      && (o.ended <==> FirstEnd(ms) < |ms|)
      && o.received == (if o.ended then FirstEnd(ms) + 1 else |ms|)
      && o.state == Steps(s, ms[..o.received])
    decreases |ms|
  {
    if ms != [] {
      var (t, opcode) := Step(s, ms[0]);
      StepOpcode(s, ms[0]);
      if opcode == END {
        assert ms[..1][1..] == [];
      } else {
        SessionStops(t, ms[1..]);
        var o := Session(t, ms[1..]);
        assert ms[..o.received + 1][1..] == ms[1..][..o.received];
      }
    }
  }

  /** The frame of every acknowledgement decodes to an ACK or NAK message carrying its sequence number. */
  lemma AckFrameDecodes(a: Ack)
    ensures var f := AckFrame(a);
      DecodeFrame(f) == Some(Message(AckHeader(if a.isOk then ACK else NAK, a.lastSeqNo), Blanks(PAYLOAD_LEN),
                                     f, Sum(f[..CHECKED_LEN])))
  {
    var h := AckHeader(if a.isOk then ACK else NAK, a.lastSeqNo);
    AckFrameEncodes(a);
    RoundTrip(h, "");
    assert PadPayload("") == Blanks(PAYLOAD_LEN);
    assert PadPayload(Blanks(PAYLOAD_LEN)) == Blanks(PAYLOAD_LEN);
  }
}
