/**
 * The reliable-transport message and its fixed 78-character text frame:
 *
 *    0-14  source IP address, left-padded with blanks
 *   15-19  source port, left-padded with blanks
 *   20-34  destination IP address, left-padded with blanks
 *   35-39  destination port, left-padded with blanks
 *   40     operation code (D, A, N or E)
 *   41-42  sequence number, left-padded with blanks
 *   43-72  payload, right-padded with blanks
 *   73-77  checksum: the sum of the codes of characters 0-72, left-padded
 *
 * EncodeFrame and DecodeFrame are the specification; the class models the
 * Java object, whose constructor encodes into `buffer` and whose static
 * Reconstitute method decodes a received buffer (null on any failure).
 */
module TransportMessage {
  import opened Text
  import opened Inet

  const ACK: char := 65 as char
  const DATA: char := 68 as char
  const END: char := 69 as char
  const NAK: char := 78 as char

  const BUFFER_LEN: nat := 78
  const HEADER_LEN: nat := 43
  const PAYLOAD_LEN: nat := 30
  /** Characters 0..CHECKED_LEN-1 are covered by the checksum. */
  const CHECKED_LEN: nat := HEADER_LEN + PAYLOAD_LEN

  datatype Header = Header(srcIP: Address, destIP: Address, srcPort: int, destPort: int,
                           opCode: char, sequenceNo: int)

  /** What a decoded frame yields: its fields, the re-encoded buffer and the trailer value. */
  datatype Message = Message(header: Header, payload: string, buffer: string, storedChecksum: int)

  // ---------------------------------------------------------------------
  // Field encodings

  /** leftPaddedInt: blanks then Integer.toString(value), or None (IllegalArgumentException) when too wide. */
  function PadInt(value: int, width: nat): (r: Option<string>)
    ensures r.None? <==> |IntToString(value)| > width
    ensures r.Some? ==> |r.value| == width
  {
    var t := IntToString(value);
    if |t| > width then None else Some(Blanks(width - |t|) + t)
  }

  /**
   * rightPaddedString: a payload of at most PAYLOAD_LEN characters is padded
   * with blanks to exactly PAYLOAD_LEN; a longer one is cut to its first
   * PAYLOAD_LEN - 1 characters and not padded.
   */
  function PadPayload(p: string): (r: string)
    ensures |p| <= PAYLOAD_LEN ==> |r| == PAYLOAD_LEN
    ensures |p| > PAYLOAD_LEN ==> |r| == PAYLOAD_LEN - 1
  {
    if |p| > PAYLOAD_LEN then p[..PAYLOAD_LEN - 1] else p + Blanks(PAYLOAD_LEN - |p|)
  }

  /** leftPaddedIP: blanks in front of the dotted quad up to `width`; never cut. */
  function PadIP(ip: Address, width: nat): (r: string)
    ensures |r| == if |HostAddress(ip)| < width then width else |HostAddress(ip)|
  {
    var t := HostAddress(ip);
    if |t| < width then Blanks(width - |t|) + t else t
  }

  /** Every integer field fits its width, so encode does not throw for the header. */
  predicate FieldsFit(h: Header)
  {
    |IntToString(h.srcPort)| <= 5 && |IntToString(h.destPort)| <= 5 && |IntToString(h.sequenceNo)| <= 2
  }

  /** Characters 0-42: the header fields as encode lays them out. */
  function HeaderText(h: Header): (r: string)
    requires FieldsFit(h)
    ensures |r| == HEADER_LEN
  {
    PadIP(h.srcIP, 15) + PadInt(h.srcPort, 5).value + PadIP(h.destIP, 15) + PadInt(h.destPort, 5).value
      + [h.opCode] + PadInt(h.sequenceNo, 2).value
  }

  /** Characters 0-72 as encode builds them, before the checksum trailer. */
  function Body(h: Header, payload: string): string
    requires FieldsFit(h)
  {
    HeaderText(h) + PadPayload(payload)
  }

  /** encode: the frame for `h` and the (stored) payload, or None where encode throws. */
  function EncodeFrame(h: Header, payload: string): (r: Option<string>)
    ensures !FieldsFit(h) ==> r.None?
    ensures FieldsFit(h) ==> (r.Some? <==> |IntToString(Sum(Body(h, payload)))| <= 5)
    ensures r.Some? ==> |r.value| == 48 + |PadPayload(payload)|
  {
    if !FieldsFit(h) then None
    else
      var body := Body(h, payload);
      var trailer := PadInt(Sum(body), 5);
      if trailer.None? then None else Some(body + trailer.value)
  }

  // ---------------------------------------------------------------------
  // Decoding

  /** The header built from the parsed fields, or None when one of them failed. */
  function HeaderFrom(srcIP: Option<Address>, srcPort: Option<int>, destIP: Option<Address>,
                      destPort: Option<int>, opCode: string, sequenceNo: Option<int>): Option<Header>
  {
    if srcIP.None? || destIP.None? || srcPort.None? || destPort.None? || opCode == [] || sequenceNo.None? then None
    else Some(Header(srcIP.value, destIP.value, srcPort.value, destPort.value, opCode[0], sequenceNo.value))
  }

  /** The header fields of a frame, each trimmed and parsed, or None when a field does not parse. */
  function DecodeHeader(s: string): (r: Option<Header>)
    requires |s| >= BUFFER_LEN
    ensures r.Some? ==> r.value.opCode > ' '
  {
    HeaderFrom(ParseAddress(Trim(s[0..15])), ParseInt(Trim(s[15..20])), ParseAddress(Trim(s[20..35])),
               ParseInt(Trim(s[35..40])), Trim(s[40..41]), ParseInt(Trim(s[41..43])))
  }

  /**
   * The second half of reconstitute: a new message is built from the decoded
   * header and the payload field (which re-encodes it), and the trailer value
   * must equal the checksum of that re-encoded buffer.
   */
  function Assemble(header: Option<Header>, field: string, stored: Option<int>): (r: Option<Message>)
    requires |field| == PAYLOAD_LEN
    ensures r.Some? <==> header.Some? && stored.Some? && EncodeFrame(header.value, field).Some?
                         && Sum(EncodeFrame(header.value, field).value[..CHECKED_LEN]) == stored.value
    ensures r.Some? ==> r.value == Message(header.value, field, EncodeFrame(header.value, field).value, stored.value)
  {
    if header.None? || stored.None? then None
    else
      PadPayloadFull(field);
      var buffer := EncodeFrame(header.value, PadPayload(field));
      if buffer.None? || Sum(buffer.value[..CHECKED_LEN]) != stored.value then None
      else Some(Message(header.value, PadPayload(field), buffer.value, stored.value))
  }

  /**
   * reconstitute: None (null) when the input is shorter than a frame, a field
   * does not parse, the message cannot be re-encoded, or the trailer differs
   * from the checksum of the RE-ENCODED message.
   */
  function DecodeFrame(s: string): (r: Option<Message>)
    ensures |s| < BUFFER_LEN ==> r.None?
    ensures r.Some? ==> |s| >= BUFFER_LEN && DecodeHeader(s) == Some(r.value.header)
    ensures r.Some? ==> r.value.payload == s[HEADER_LEN..CHECKED_LEN]
  {
    if |s| < BUFFER_LEN then None
    else
      var field := s[HEADER_LEN..CHECKED_LEN];
      assert |field| == PAYLOAD_LEN;
      Assemble(DecodeHeader(s), field, ParseInt(Trim(s[CHECKED_LEN..BUFFER_LEN])))
  }

  /** The buffer of a message built by the constructor from `h` and `payload`. */
  function MessageFrame(h: Header, payload: string): Option<string>
  {
    EncodeFrame(h, PadPayload(payload))
  }

  // ---------------------------------------------------------------------
  // The Java object

  class ReliableTransportMessage {
    var srcIP: Address
    var destIP: Address
    var srcPort: int
    var destPort: int
    var opCode: char
    var sequenceNo: int
    var payload: string
    var buffer: string
    var storedChecksum: int

    function Head(): Header
      reads this`srcIP, this`destIP, this`srcPort, this`destPort, this`opCode, this`sequenceNo
    {
      Header(srcIP, destIP, srcPort, destPort, opCode, sequenceNo)
    }

    function Value(): Message
      reads this
    {
      Message(Head(), payload, buffer, storedChecksum)
    }

    /** Stores the fields with the payload padded once and the encoding of those fields (encode pads the payload again). */
    constructor (srcIP: Address, destIP: Address, srcPort: int, destPort: int, opCode: char,
                 seqNo: int, payload: string)
      requires EncodeFrame(Header(srcIP, destIP, srcPort, destPort, opCode, seqNo), PadPayload(payload)).Some?
      ensures Head() == Header(srcIP, destIP, srcPort, destPort, opCode, seqNo)
      ensures this.payload == PadPayload(payload)
      ensures Some(buffer) == EncodeFrame(Head(), this.payload)
      ensures |buffer| == BUFFER_LEN
      ensures storedChecksum == 0
    {
      var padded := RightPaddedString(payload);
      var frame := EncodeFields(Header(srcIP, destIP, srcPort, destPort, opCode, seqNo), padded);
      PaddedLength(payload);
      this.srcIP := srcIP;
      this.destIP := destIP;
      this.srcPort := srcPort;
      this.destPort := destPort;
      this.opCode := opCode;
      this.sequenceNo := seqNo;
      this.payload := padded;
      this.buffer := frame;
      this.storedChecksum := 0;
    }

    /** leftPaddedInt: prepends blanks one at a time. */
    static method LeftPaddedInt(value: int, width: nat) returns (r: Option<string>)
      ensures r == PadInt(value, width)
    {
      var unpadded := IntToString(value);
      if |unpadded| > width {
        return None;
      }
      var padded := unpadded;
      var i := |unpadded|;
      while i < width
        invariant |unpadded| <= i <= width
        invariant padded == Blanks(i - |unpadded|) + unpadded
      {
        BlanksPrepend(i - |unpadded|, unpadded);
        padded := " " + padded;
        i := i + 1;
      }
      return Some(padded);
    }

    /** rightPaddedString: cuts a long payload, or appends blanks one at a time. */
    static method RightPaddedString(payload: string) returns (r: string)
      ensures r == PadPayload(payload)
    {
      if |payload| > PAYLOAD_LEN {
        return payload[..PAYLOAD_LEN - 1];
      }
      r := payload;
      var i := |payload|;
      while i < PAYLOAD_LEN
        invariant |payload| <= i <= PAYLOAD_LEN
        invariant r == payload + Blanks(i - |payload|)
      {
        BlanksAppend(payload, i - |payload|);
        r := r + " ";
        i := i + 1;
      }
    }

    /** leftPaddedIP: the dotted quad with blanks prepended while it is shorter than `width`. */
    static method LeftPaddedIP(value: Address, width: nat) returns (r: string)
      ensures r == PadIP(value, width)
    {
      r := PadLeft(HostAddress(value), width);
    }

    /** The padding loop of leftPaddedIP: prepends one blank at a time up to `width`. */
    static method PadLeft(text: string, width: nat) returns (r: string)
      ensures r == if |text| < width then Blanks(width - |text|) + text else text
    {
      r := text;
      while |r| < width
        invariant |r| >= |text|
        invariant |r| <= width || r == text
        invariant r == Blanks(|r| - |text|) + text
        decreases width - |r|
      {
        BlanksPrepend(|r| - |text|, text);
        r := " " + r;
      }
    }

    /** encode: builds the 73 checked characters, sums them, appends the padded sum. */
    method Encode()
      requires EncodeFrame(Head(), payload).Some?
      modifies this`buffer
      ensures Some(buffer) == EncodeFrame(Head(), payload)
    {
      buffer := EncodeFields(Head(), payload);
    }

    /** The body of encode: the padded fields, then the checksum of everything before it. */
    static method EncodeFields(h: Header, payload: string) returns (frame: string)
      requires EncodeFrame(h, payload).Some?
      ensures Some(frame) == EncodeFrame(h, payload)
    {
      var srcIPText := LeftPaddedIP(h.srcIP, 15);
      var srcPortText := LeftPaddedInt(h.srcPort, 5);
      var destIPText := LeftPaddedIP(h.destIP, 15);
      var destPortText := LeftPaddedInt(h.destPort, 5);
      var sequenceText := LeftPaddedInt(h.sequenceNo, 2);
      var payloadText := RightPaddedString(payload);
      var encoded := srcIPText + srcPortText.value + destIPText + destPortText.value
                     + [h.opCode] + sequenceText.value + payloadText;
      assert encoded == Body(h, payload);
      var sum := 0;
      var i := 0;
      while i < |encoded|
        invariant 0 <= i <= |encoded|
        invariant sum == Sum(encoded[..i])
      {
        SumPrefixStep(encoded, i);
        sum := sum + encoded[i] as int;
        i := i + 1;
      }
      assert encoded[..i] == encoded;
      var trailer := LeftPaddedInt(sum, 5);
      frame := encoded + trailer.value;
    }

    /** getComputedChecksum: the running sum of the first CHECKED_LEN characters of the buffer. */
    method GetComputedChecksum() returns (sum: int)
      requires |buffer| >= CHECKED_LEN
      ensures sum == Sum(buffer[..CHECKED_LEN])
    {
      sum := 0;
      var i := 0;
      while i < CHECKED_LEN
        invariant 0 <= i <= CHECKED_LEN
        invariant sum == Sum(buffer[..i])
      {
        SumPrefixStep(buffer, i);
        sum := sum + buffer[i] as int;
        i := i + 1;
      }
    }

    /** setPayload: replaces the payload only; the buffer and checksum keep their old values. */
    method SetPayload(newPayload: string)
      modifies this`payload
      ensures payload == newPayload
      ensures buffer == old(buffer) && storedChecksum == old(storedChecksum) && Head() == old(Head())
    {
      payload := newPayload;
    }

    /**
     * The field-parsing half of reconstitute: splits the frame at the fixed
     * offsets, trims each field and parses it; None where the source throws
     * (unknown host, number format, charAt(0) of an empty string).
     */
    static method ParseHeaderFields(s: string) returns (header: Option<Header>)
      requires |s| >= BUFFER_LEN
      ensures header == DecodeHeader(s)
    {
      var sourceIPString := Trim(s[0..15]);
      var sourcePortString := Trim(s[15..20]);
      var destIPString := Trim(s[20..35]);
      var destPortString := Trim(s[35..40]);
      var opCodeString := Trim(s[40..41]);
      var sequenceString := Trim(s[41..43]);
      var tempSrcIP := ParseAddress(sourceIPString);
      var tempDestIP := ParseAddress(destIPString);
      if tempSrcIP.None? || tempDestIP.None? {
        return None;
      }
      var tempSrcPort := ParseInt(sourcePortString);
      var tempDestPort := ParseInt(destPortString);
      if tempSrcPort.None? || tempDestPort.None? || opCodeString == [] {
        return None;
      }
      var tempOpCode := opCodeString[0];
      var tempSequence := ParseInt(sequenceString);
      if tempSequence.None? {
        return None;
      }
      header := Some(Header(tempSrcIP.value, tempDestIP.value, tempSrcPort.value, tempDestPort.value,
                            tempOpCode, tempSequence.value));
    }

    /**
     * The second half of reconstitute: builds the message from the decoded
     * header and payload field (the constructor re-encodes it), stores the
     * parsed trailer and compares it with the computed checksum.
     */
    static method Rebuild(h: Header, payloadString: string, checksumString: string)
      returns (message: ReliableTransportMessage?)
      requires |payloadString| == PAYLOAD_LEN
      ensures message == null <==> Assemble(Some(h), payloadString, ParseInt(checksumString)).None?
      ensures message != null ==>
        fresh(message) && message.Value() == Assemble(Some(h), payloadString, ParseInt(checksumString)).value
      ensures message != null ==> |message.buffer| == BUFFER_LEN
    {
      PadPayloadFull(payloadString);
      if EncodeFrame(h, PadPayload(payloadString)).None? {
        return null;  // the constructor's encode throws
      }
      message := new ReliableTransportMessage(h.srcIP, h.destIP, h.srcPort, h.destPort, h.opCode,
                                              h.sequenceNo, payloadString);
      var stored := ParseInt(checksumString);
      if stored.None? {
        return null;  // number format
      }
      message.storedChecksum := stored.value;
      var computed := message.GetComputedChecksum();
      if computed != message.storedChecksum {
        return null;  // bad checksum
      }
    }

    /**
     * reconstitute: splits a received buffer into the header fields, the
     * payload field and the trailer, then rebuilds and checks the message.
     * Every exception of the source becomes a null result.
     */
    static method Reconstitute(encodingBytes: string) returns (message: ReliableTransportMessage?)
      ensures message == null <==> DecodeFrame(encodingBytes).None?
      ensures message != null ==> fresh(message) && message.Value() == DecodeFrame(encodingBytes).value
      ensures message != null ==> |message.buffer| == BUFFER_LEN
    {
      if |encodingBytes| < BUFFER_LEN {
        return null;  // substring throws
      }
      var payloadString := encodingBytes[HEADER_LEN..CHECKED_LEN];
      var checksumString := Trim(encodingBytes[CHECKED_LEN..BUFFER_LEN]);
      DecodeFrameIs(encodingBytes);
      var header := ParseHeaderFields(encodingBytes);
      if header.None? {
        return null;
      }
      message := Rebuild(header.value, payloadString, checksumString);
    }

    /** The buffer of a new message built from `h` and `payload`, or None where the constructor throws. */
    static method Build(h: Header, payload: string) returns (frame: Option<string>)
      ensures frame == MessageFrame(h, payload)
    {
      if MessageFrame(h, payload).None? {
        return None;
      }
      var message := new ReliableTransportMessage(h.srcIP, h.destIP, h.srcPort, h.destPort,
                                                  h.opCode, h.sequenceNo, payload);
      return Some(message.buffer);
    }
  }


  // ---------------------------------------------------------------------
  // Properties of the codec

  /**
   * What a successful decode guarantees: the message re-encodes to a full
   * frame whose computed checksum equals the trailer value, and its
   * operation code is a visible character.
   */
  lemma DecodedMessage(s: string)
    requires DecodeFrame(s).Some?
    ensures var m := DecodeFrame(s).value;
      && EncodeFrame(m.header, m.payload) == Some(m.buffer)
      && |m.buffer| == BUFFER_LEN
      && m.storedChecksum == Sum(m.buffer[..CHECKED_LEN])
      && ParseInt(Trim(s[CHECKED_LEN..BUFFER_LEN])) == Some(m.storedChecksum)
      && m.header.opCode > ' '
  {
  }

  /** A payload that already fills the field is stored unchanged. */
  lemma PadPayloadFull(p: string)
    requires |p| == PAYLOAD_LEN
    ensures PadPayload(p) == p
  {
    NoBlanks(p);
  }

  /** The constructor pads once and encode pads again: the payload field is always 30 characters. */
  lemma PaddedLength(p: string)
    ensures |PadPayload(PadPayload(p))| == PAYLOAD_LEN
  {
  }

  lemma PayloadPaddedTwice(p: string)
    ensures |PadPayload(PadPayload(p))| == PAYLOAD_LEN
    ensures |p| <= PAYLOAD_LEN ==> PadPayload(PadPayload(p)) == PadPayload(p)
    ensures |p| > PAYLOAD_LEN ==> PadPayload(PadPayload(p)) == p[..PAYLOAD_LEN - 1] + " "
  {
    if |p| <= PAYLOAD_LEN {
      PadPayloadFull(PadPayload(p));
    }
  }

  /** Re-padding a stored payload does not change the frame. */
  lemma EncodeRepad(h: Header, q: string)
    requires |q| <= PAYLOAD_LEN
    ensures EncodeFrame(h, PadPayload(q)) == EncodeFrame(h, q)
  {
    PayloadPaddedTwice(q);
  }

  /** Where each of eight consecutive pieces sits in their concatenation. */
  lemma Slices(a: string, b: string, c: string, d: string, e: char, q: string, p: string, t: string)
    ensures var f := a + b + c + d + [e] + q + p + t;
      var i1 := |a|; var i2 := i1 + |b|; var i3 := i2 + |c|; var i4 := i3 + |d|;
      var i5 := i4 + 1; var i6 := i5 + |q|; var i7 := i6 + |p|;
      && f[..i1] == a && f[i1..i2] == b && f[i2..i3] == c && f[i3..i4] == d
      && f[i4..i5] == [e] && f[i4] == e && f[i5..i6] == q && f[i6..i7] == p && f[i7..i7 + |t|] == t
      && f[..i6] == a + b + c + d + [e] + q
      && f[..i7] == a + b + c + d + [e] + q + p
  {
  }

  /** A frame encode produces is the body followed by the padded sum of the body. */
  lemma EncodedBody(h: Header, payload: string, f: string) returns (body: string)
    requires EncodeFrame(h, payload) == Some(f)
    ensures FieldsFit(h) && body == Body(h, payload)
    ensures f == body + PadInt(Sum(body), 5).value
    ensures body == HeaderText(h) + PadPayload(payload)
    ensures HeaderText(h) == PadIP(h.srcIP, 15) + PadInt(h.srcPort, 5).value + PadIP(h.destIP, 15)
      + PadInt(h.destPort, 5).value + [h.opCode] + PadInt(h.sequenceNo, 2).value
  {
    body := Body(h, payload);
  }

  /** The fixed layout 15/5/15/5/1/2/30/5 of every frame encode produces from a stored payload. */
  lemma EncodeLayout(h: Header, payload: string, f: string)
    requires |payload| <= PAYLOAD_LEN
    requires EncodeFrame(h, payload) == Some(f)
    ensures |f| == BUFFER_LEN && FieldsFit(h)
    ensures f[0..15] == PadIP(h.srcIP, 15)
    ensures f[15..20] == PadInt(h.srcPort, 5).value
    ensures f[20..35] == PadIP(h.destIP, 15)
    ensures f[35..40] == PadInt(h.destPort, 5).value
    ensures f[40] == h.opCode
    ensures f[41..43] == PadInt(h.sequenceNo, 2).value
    ensures f[..HEADER_LEN] == HeaderText(h)
    ensures f[HEADER_LEN..CHECKED_LEN] == PadPayload(payload)
    ensures f[..CHECKED_LEN] == Body(h, payload)
    ensures f[CHECKED_LEN..BUFFER_LEN] == PadInt(Sum(f[..CHECKED_LEN]), 5).value
  {
    var body := EncodedBody(h, payload, f);
    var a, b, c, d := PadIP(h.srcIP, 15), PadInt(h.srcPort, 5).value, PadIP(h.destIP, 15), PadInt(h.destPort, 5).value;
    var q, p := PadInt(h.sequenceNo, 2).value, PadPayload(payload);
    var t := PadInt(Sum(body), 5).value;
    assert |a| == 15 && |b| == 5 && |c| == 15 && |d| == 5 && |q| == 2 && |p| == 30 && |t| == 5;
    Slices(a, b, c, d, h.opCode, q, p, t);
  }

  lemma PaddedIPParses(ip: Address)
    ensures ParseAddress(Trim(PadIP(ip, 15))) == Some(ip)
  {
    var t := HostAddress(ip);
    TrimPadded(15 - |t|, t);
    ParseHostAddress(ip);
  }

  lemma PaddedIntParses(v: int, w: nat)
    requires PadInt(v, w).Some?
    ensures ParseInt(Trim(PadInt(v, w).value)) == Some(v)
  {
    var t := IntToString(v);
    TrimPadded(w - |t|, t);
    ParseIntToString(v);
  }

  lemma OpCodeParses(f: string, op: char)
    requires |f| >= BUFFER_LEN && f[40] == op && op > ' '
    ensures Trim(f[40..41]) == [op]
  {
    assert f[40..41] == [op];
  }

  /** Each header field laid out by encode parses back to the matching part of `h`. */
  lemma EncodedFieldsParse(f: string, h: Header)
    requires |f| == BUFFER_LEN && FieldsFit(h) && h.opCode > ' '
    requires f[0..15] == PadIP(h.srcIP, 15)
    requires f[15..20] == PadInt(h.srcPort, 5).value
    requires f[20..35] == PadIP(h.destIP, 15)
    requires f[35..40] == PadInt(h.destPort, 5).value
    requires f[40] == h.opCode
    requires f[41..43] == PadInt(h.sequenceNo, 2).value
    ensures ParseAddress(Trim(f[0..15])) == Some(h.srcIP)
    ensures ParseInt(Trim(f[15..20])) == Some(h.srcPort)
    ensures ParseAddress(Trim(f[20..35])) == Some(h.destIP)
    ensures ParseInt(Trim(f[35..40])) == Some(h.destPort)
    ensures Trim(f[40..41]) == [h.opCode]
    ensures ParseInt(Trim(f[41..43])) == Some(h.sequenceNo)
  {
    PaddedIPParses(h.srcIP);
    PaddedIPParses(h.destIP);
    PaddedIntParses(h.srcPort, 5);
    PaddedIntParses(h.destPort, 5);
    PaddedIntParses(h.sequenceNo, 2);
    OpCodeParses(f, h.opCode);
  }

  /** DecodeHeader yields `h` once every trimmed field parses to the matching part of `h`. */
  lemma DecodeHeaderFields(s: string, h: Header)
    requires |s| >= BUFFER_LEN
    requires ParseAddress(Trim(s[0..15])) == Some(h.srcIP)
    requires ParseInt(Trim(s[15..20])) == Some(h.srcPort)
    requires ParseAddress(Trim(s[20..35])) == Some(h.destIP)
    requires ParseInt(Trim(s[35..40])) == Some(h.destPort)
    requires Trim(s[40..41]) == [h.opCode]
    requires ParseInt(Trim(s[41..43])) == Some(h.sequenceNo)
    ensures DecodeHeader(s) == Some(h)
  {
    assert DecodeHeader(s) == HeaderFrom(Some(h.srcIP), Some(h.srcPort), Some(h.destIP), Some(h.destPort), [h.opCode], Some(h.sequenceNo));
  }

  /** DecodeFrame yields the message once its header decodes, it re-encodes and the trailer matches. */
  lemma DecodeFrameFields(s: string, h: Header, stored: int)
    requires |s| >= BUFFER_LEN
    requires DecodeHeader(s) == Some(h)
    requires EncodeFrame(h, s[HEADER_LEN..CHECKED_LEN]).Some?
    requires ParseInt(Trim(s[CHECKED_LEN..BUFFER_LEN])) == Some(stored)
    requires Sum(EncodeFrame(h, s[HEADER_LEN..CHECKED_LEN]).value[..CHECKED_LEN]) == stored
    ensures DecodeFrame(s) == Some(Message(h, s[HEADER_LEN..CHECKED_LEN],
                                           EncodeFrame(h, s[HEADER_LEN..CHECKED_LEN]).value, stored))
  {
  }

  /** Once the header decodes, the outcome is decided by re-encoding and the trailer. */
  lemma DecodeFrameIs(s: string)
    requires |s| >= BUFFER_LEN
    ensures |s[HEADER_LEN..CHECKED_LEN]| == PAYLOAD_LEN
    ensures DecodeFrame(s) == Assemble(DecodeHeader(s), s[HEADER_LEN..CHECKED_LEN], ParseInt(Trim(s[CHECKED_LEN..BUFFER_LEN])))
  {
  }

  /** Two inputs that agree on every field decode alike. */
  lemma SameFieldsDecode(s: string, t: string)
    requires |s| >= BUFFER_LEN && |t| >= BUFFER_LEN
    requires s[0..15] == t[0..15] && s[15..20] == t[15..20] && s[20..35] == t[20..35]
    requires s[35..40] == t[35..40] && s[40..41] == t[40..41] && s[41..43] == t[41..43]
    requires s[HEADER_LEN..CHECKED_LEN] == t[HEADER_LEN..CHECKED_LEN]
    requires s[CHECKED_LEN..BUFFER_LEN] == t[CHECKED_LEN..BUFFER_LEN]
    ensures DecodeFrame(s) == DecodeFrame(t)
  {
    assert DecodeHeader(s) == DecodeHeader(t);
  }

  /** A frame longer than 78 characters decodes as its first 78 (the rest of a receive buffer is ignored). */
  lemma DecodeIgnoresTail(s: string, tail: string)
    requires |s| == BUFFER_LEN
    ensures DecodeFrame(s + tail) == DecodeFrame(s)
  {
    var t := s + tail;
    PrefixSlice(s, tail, 0, 15);
    PrefixSlice(s, tail, 15, 20);
    PrefixSlice(s, tail, 20, 35);
    PrefixSlice(s, tail, 35, 40);
    PrefixSlice(s, tail, 40, 41);
    PrefixSlice(s, tail, 41, 43);
    PrefixSlice(s, tail, 43, 73);
    PrefixSlice(s, tail, 73, 78);
    SameFieldsDecode(t, s);
  }

  lemma PrefixSlice(s: string, tail: string, i: nat, j: nat)
    requires i <= j <= |s|
    ensures (s + tail)[i..j] == s[i..j]
  {
  }

  /** Each padded header field trims and parses back to its value. */
  lemma DecodeHeaderOfEncoded(h: Header, payload: string)
    requires |payload| <= PAYLOAD_LEN
    requires EncodeFrame(h, payload).Some?
    requires h.opCode > ' '
    ensures DecodeHeader(EncodeFrame(h, payload).value) == Some(h)
  {
    var f := EncodeFrame(h, payload).value;
    EncodeLayout(h, payload, f);
    EncodedFieldsParse(f, h);
    DecodeHeaderFields(f, h);
  }

  /**
   * Round trip: decoding the buffer of a message built from `h` and `p` gives
   * back the same header, the stored payload, that very buffer, and a stored
   * checksum equal to the computed one.
   */
  lemma RoundTrip(h: Header, p: string)
    requires EncodeFrame(h, PadPayload(p)).Some?
    requires h.opCode > ' '
    ensures var f := EncodeFrame(h, PadPayload(p)).value;
      DecodeFrame(f) == Some(Message(h, PadPayload(PadPayload(p)), f, Sum(f[..CHECKED_LEN])))
  {
    var stored := PadPayload(p);
    var f := EncodeFrame(h, stored).value;
    EncodeLayout(h, stored, f);
    DecodeHeaderOfEncoded(h, stored);
    EncodeRepad(h, stored);
    PaddedIntParses(Sum(f[..CHECKED_LEN]), 5);
    DecodeFrameFields(f, h, Sum(f[..CHECKED_LEN]));
  }

  /**
   * The checksum covers the re-encoded fields, not the received characters:
   * turning the blank just in front of a source port of at most four digits
   * into '0' leaves the frame decoding to exactly the same message.
   */
  lemma PortPaddingCorruptionUndetected(h: Header, p: string)
    requires EncodeFrame(h, PadPayload(p)).Some?
    requires h.opCode > ' '
    requires 0 <= h.srcPort < 10000
    ensures var f := EncodeFrame(h, PadPayload(p)).value;
      var k := 19 - |IntToString(h.srcPort)|;
      15 <= k < 20 && f[k] == ' ' && DecodeFrame(f).Some? && DecodeFrame(f[k := '0']) == DecodeFrame(f)
  {
    var stored := PadPayload(p);
    var f := EncodeFrame(h, stored).value;
    var k := 19 - |IntToString(h.srcPort)|;
    RoundTrip(h, p);
    PortZeroHeader(h, stored, f);
    var g := f[k := '0'];
    DecodeFrameIs(f);
    DecodeFrameIs(g);
    UpdateOutside(f, k, '0', HEADER_LEN, CHECKED_LEN);
    UpdateOutside(f, k, '0', CHECKED_LEN, BUFFER_LEN);
  }

  /** The header of the frame with the port blank turned into '0' still decodes to `h`. */
  lemma PortZeroHeader(h: Header, stored: string, f: string)
    requires |stored| <= PAYLOAD_LEN && EncodeFrame(h, stored) == Some(f)
    requires h.opCode > ' '
    requires 0 <= h.srcPort < 10000
    ensures var k := 19 - |IntToString(h.srcPort)|;
      15 <= k < 20 && f[k] == ' ' && DecodeHeader(f[k := '0']) == Some(h)
  {
    EncodeLayout(h, stored, f);
    ZeroedHeaderDecodes(h, f);
  }

  lemma ZeroedHeaderDecodes(h: Header, f: string)
    requires |f| == BUFFER_LEN && FieldsFit(h) && h.opCode > ' '
    requires 0 <= h.srcPort < 10000
    requires f[0..15] == PadIP(h.srcIP, 15)
    requires f[15..20] == PadInt(h.srcPort, 5).value
    requires f[20..35] == PadIP(h.destIP, 15)
    requires f[35..40] == PadInt(h.destPort, 5).value
    requires f[40] == h.opCode
    requires f[41..43] == PadInt(h.sequenceNo, 2).value
    ensures var k := 19 - |IntToString(h.srcPort)|;
      15 <= k < 20 && f[k] == ' ' && DecodeHeader(f[k := '0']) == Some(h)
  {
    var k := 19 - |IntToString(h.srcPort)|;
    var g := f[k := '0'];
    EncodedFieldsParse(f, h);
    ZeroedPortParses(f, h.srcPort);
    UpdateOutside(f, k, '0', 0, 15);
    UpdateOutside(f, k, '0', 20, 35);
    UpdateOutside(f, k, '0', 35, 40);
    UpdateOutside(f, k, '0', 40, 41);
    UpdateOutside(f, k, '0', 41, 43);
    DecodeHeaderFields(g, h);
  }

  /** The port field with its last blank turned into '0' parses to the same port. */
  lemma ZeroedPortParses(f: string, v: int)
    requires |f| == BUFFER_LEN && 0 <= v < 10000
    requires PadInt(v, 5).Some? && f[15..20] == PadInt(v, 5).value
    ensures var k := 19 - |IntToString(v)|;
      15 <= k < 20 && f[k] == ' ' && ParseInt(Trim(f[k := '0'][15..20])) == Some(v)
  {
    var d := IntToString(v);
    IntToStringWidth(v, 4);
    var n := 4 - |d|;
    var k := 15 + n;
    UpdateInside(f, k, '0', 15, 20);
    BlankToZero(n, d);
    assert f[k] == f[15..20][n];
    PortWithZeroParses(n, v);
  }

  lemma BlankToZero(n: nat, d: string)
    ensures |Blanks(n + 1) + d| == n + 1 + |d|
    ensures (Blanks(n + 1) + d)[n] == ' '
    ensures (Blanks(n + 1) + d)[n := '0'] == Blanks(n) + ("0" + d)
  {
  }

  /** A port with a leading zero in front of its digits still parses to the port. */
  lemma PortWithZeroParses(n: nat, v: int)
    requires v >= 0
    ensures ParseInt(Trim(Blanks(n) + ("0" + IntToString(v)))) == Some(v)
  {
    var d := IntToString(v);
    TrimPadded(n, "0" + d);
    LeadingZeroValue(d);
    DigitsRoundTrip(v);
  }

  lemma {:induction false} LeadingZeroValue(d: string)
    requires AllDigits(d)
    ensures AllDigits("0" + d) && DigitsValue("0" + d) == DigitsValue(d)
    decreases |d|
  {
    var z := "0" + d;
    if d != [] {
      assert z[..|z| - 1] == "0" + d[..|d| - 1];
      LeadingZeroValue(d[..|d| - 1]);
    } else {
      assert z[..0] == [];
    }
  }

  /**
   * A header whose opcode is a 7-bit character, with a 7-bit payload of any
   * length, always encodes: the checksum of 73 such characters stays below
   * 100000 and fits the five-character trailer.
   */
  lemma AsciiFrameEncodes(h: Header, p: string)
    requires FieldsFit(h) && h.opCode as int < 128 && IsAscii(p)
    ensures EncodeFrame(h, PadPayload(p)).Some?
  {
    var stored := PadPayload(p);
    AsciiHeader(h);
    assert IsAscii(stored);
    var body := Body(h, stored);
    AsciiConcat(HeaderText(h), stored);
    PaddedLength(p);
    SumAsciiBound(body);
    IntToStringWidth(Sum(body), 5);
  }

  lemma AsciiHeader(h: Header)
    requires FieldsFit(h) && h.opCode as int < 128
    ensures IsAscii(HeaderText(h))
  {
    AsciiPadIP(h.srcIP);
    AsciiPadIP(h.destIP);
    AsciiPadInt(h.srcPort, 5);
    AsciiPadInt(h.destPort, 5);
    AsciiPadInt(h.sequenceNo, 2);
    AsciiPieces(PadIP(h.srcIP, 15), PadInt(h.srcPort, 5).value, PadIP(h.destIP, 15),
                PadInt(h.destPort, 5).value, h.opCode, PadInt(h.sequenceNo, 2).value);
  }

  lemma AsciiPadIP(ip: Address)
    ensures IsAscii(PadIP(ip, 15))
  {
  }

  lemma AsciiPadInt(v: int, w: nat)
    requires PadInt(v, w).Some?
    ensures IsAscii(PadInt(v, w).value)
  {
  }

  lemma AsciiPieces(a: string, b: string, c: string, d: string, e: char, q: string)
    requires IsAscii(a) && IsAscii(b) && IsAscii(c) && IsAscii(d) && e as int < 128 && IsAscii(q)
    ensures IsAscii(a + b + c + d + [e] + q)
  {
    AsciiConcat(a, b);
    AsciiConcat(a + b, c);
    AsciiConcat(a + b + c, d);
    AsciiConcat(a + b + c + d, [e]);
    AsciiConcat(a + b + c + d + [e], q);
  }

  lemma AsciiConcat(a: string, b: string)
    requires IsAscii(a) && IsAscii(b)
    ensures IsAscii(a + b)
  {
    assert forall i :: |a| <= i < |a + b| ==> (a + b)[i] == b[i - |a|];
  }

  /** Changing any one payload character of a valid frame makes decoding fail. */
  lemma PayloadCorruptionDetected(h: Header, p: string, i: nat, c: char)
    requires EncodeFrame(h, PadPayload(p)).Some?
    requires HEADER_LEN <= i < CHECKED_LEN
    requires c != EncodeFrame(h, PadPayload(p)).value[i]
    ensures DecodeFrame(EncodeFrame(h, PadPayload(p)).value[i := c]) == None
  {
    var stored := PadPayload(p);
    PayloadPaddedTwice(p);
    var f := EncodeFrame(h, stored).value;
    EncodeLayout(h, stored, f);
    var g := f[i := c];
    if DecodeFrame(g).Some? {
      var m := DecodeFrame(g).value;
      CorruptedFrameDecodes(h, stored, f, i, c);
      UpdateInside(f, i, c, HEADER_LEN, CHECKED_LEN);
      ReencodedSumDiffers(h, f, m.payload, m.buffer, i, c);
    }
  }

  /** What decoding a frame with one payload character replaced must yield, if anything. */
  lemma CorruptedFrameDecodes(h: Header, stored: string, f: string, i: nat, c: char)
    requires |stored| <= PAYLOAD_LEN
    requires EncodeFrame(h, stored) == Some(f)
    requires HEADER_LEN <= i < CHECKED_LEN
    requires DecodeFrame(f[i := c]).Some?
    ensures var m := DecodeFrame(f[i := c]).value;
      && m.header == h && m.storedChecksum == Sum(f[..CHECKED_LEN])
      && EncodeFrame(h, m.payload) == Some(m.buffer)
      && m.payload == f[i := c][HEADER_LEN..CHECKED_LEN]
  {
    var g := f[i := c];
    var m := DecodeFrame(g).value;
    EncodeLayout(h, stored, f);
    DecodedMessage(g);
    UpdateOutside(f, i, c, 0, 15);
    UpdateOutside(f, i, c, 15, 20);
    UpdateOutside(f, i, c, 20, 35);
    UpdateOutside(f, i, c, 35, 40);
    UpdateOutside(f, i, c, 40, 41);
    UpdateOutside(f, i, c, 41, 43);
    DecodeHeaderSlices(g, f);
    if h.opCode <= ' ' {
      OpCodeBlank(f, h.opCode);
      assert false;
    }
    DecodeHeaderOfEncoded(h, stored);
    UpdateOutside(f, i, c, CHECKED_LEN, BUFFER_LEN);
    PaddedIntParses(Sum(f[..CHECKED_LEN]), 5);
  }

  /** Re-encoding a payload with one character replaced changes the checksum. */
  lemma ReencodedSumDiffers(h: Header, f: string, field: string, buf: string, i: nat, c: char)
    requires |f| == BUFFER_LEN && HEADER_LEN <= i < CHECKED_LEN && f[i] != c
    requires FieldsFit(h) && f[..CHECKED_LEN] == HeaderText(h) + f[HEADER_LEN..CHECKED_LEN]
    requires field == f[HEADER_LEN..CHECKED_LEN][i - HEADER_LEN := c]
    requires EncodeFrame(h, field) == Some(buf)
    ensures Sum(buf[..CHECKED_LEN]) != Sum(f[..CHECKED_LEN])
  {
    var checked := f[..CHECKED_LEN];
    PadPayloadFull(field);
    var body := EncodedBody(h, field, buf);
    assert buf[..CHECKED_LEN] == body;
    UpdateSuffix(HeaderText(h), f[HEADER_LEN..CHECKED_LEN], i - HEADER_LEN, c);
    assert body == checked[i := c];
    SumUpdate(checked, i, c);
  }

  lemma OpCodeBlank(f: string, op: char)
    requires |f| >= BUFFER_LEN && f[40] == op && op <= ' '
    ensures DecodeHeader(f).None?
  {
    assert f[40..41] == [op];
    assert Trim(f[40..41]) == [];
  }

  lemma DecodeHeaderSlices(s: string, t: string)
    requires |s| >= BUFFER_LEN && |t| >= BUFFER_LEN
    requires s[0..15] == t[0..15] && s[15..20] == t[15..20] && s[20..35] == t[20..35]
    requires s[35..40] == t[35..40] && s[40..41] == t[40..41] && s[41..43] == t[41..43]
    ensures DecodeHeader(s) == DecodeHeader(t)
  {
  }

  lemma UpdateOutside(f: string, i: nat, c: char, lo: nat, hi: nat)
    requires i < |f| && lo <= hi <= |f| && (i < lo || hi <= i)
    ensures f[i := c][lo..hi] == f[lo..hi]
  {
  }

  lemma UpdateInside(f: string, i: nat, c: char, lo: nat, hi: nat)
    requires lo <= i < hi <= |f|
    ensures f[i := c][lo..hi] == f[lo..hi][i - lo := c]
  {
  }

  lemma UpdateSuffix(a: string, b: string, j: nat, c: char)
    requires j < |b|
    ensures (a + b)[|a| + j := c] == a + b[j := c]
  {
  }
}
