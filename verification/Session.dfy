/**
 The session layer: sequence numbers in and out, and what an incoming message
 makes the session do.
 */
module Session {
  import opened Bytes
  import opened Decimal
  import opened Codec

  datatype SessionAction =
    | NoAction
    | SendLogon
    | SendHeartbeat
    | SendReject
    | SendResendRequest
    | ResetSequence
    | ProcessApplicationMessage
    | Disconnect

  datatype ProcessResult = ProcessResult(action: SessionAction, detail: int)

  datatype SessionConfig = SessionConfig(beginString: bytes, senderCompId: bytes, targetCompId: bytes)

  /** The numbers a session keeps, and whether a Logon was received. */
  datatype SessionState = SessionState(loggedOn: bool, nextIn: int, nextOut: int)

  const FRESH := SessionState(false, 1, 1)

  /** What a session reads from an incoming message. */
  datatype Incoming = Incoming(msgType: Option<bytes>, seqNum: Option<int32>, possDup: bool, newSeqNo: Option<int32>)

  function ReadIncoming(fields: seq<Field>): Incoming {
    Incoming(FieldOf(fields, 35), IntOf(fields, 34), FieldOf(fields, 43) == Some("Y"), IntOf(fields, 36))
  }

  datatype Received = Received(state: SessionState, result: ProcessResult)

  /** One incoming message: the next state and what to do. */
  function Receive(s: SessionState, m: Incoming): Received {
    if m.msgType.None? || m.seqNum.None? then Received(s, ProcessResult(SendReject, 0))
    else
      var msgType, seqNum := m.msgType.value, m.seqNum.value;
      if !s.loggedOn then
        if msgType != "A" then Received(s, ProcessResult(Disconnect, 0))
        else Received(s.(loggedOn := true, nextIn := seqNum + 1), ProcessResult(SendLogon, seqNum))
      else if seqNum == s.nextIn then InSequence(s.(nextIn := s.nextIn + 1), m)
      else if seqNum > s.nextIn then Received(s, ProcessResult(SendResendRequest, s.nextIn))
      else if m.possDup then Received(s, ProcessResult(NoAction, 0))
      else Received(s, ProcessResult(Disconnect, 0))
  }

  /** A message with the expected number, after the number was counted. */
  function InSequence(s: SessionState, m: Incoming): Received
    requires m.msgType.Some? && m.seqNum.Some?
  {
    var msgType, seqNum := m.msgType.value, m.seqNum.value;
    if msgType == "0" then Received(s, ProcessResult(NoAction, 0))
    else if msgType == "1" then Received(s, ProcessResult(SendHeartbeat, seqNum))
    else if msgType == "2" then Received(s, ProcessResult(ResetSequence, seqNum))
    else if msgType == "4" then
      match m.newSeqNo
      case Some(n) => Received(s.(nextIn := n), ProcessResult(NoAction, n))
      case None => Received(s, ProcessResult(SendReject, 0))
    else if msgType == "5" then Received(s.(loggedOn := false), ProcessResult(Disconnect, 0))
    else Received(s, ProcessResult(ProcessApplicationMessage, 0))
  }

  /** The shape of a sending time, YYYYMMDD-HH:MM:SS.mmm. */
  predicate IsTimestamp(t: bytes) {
    && |t| == 21
    && t[8] == '-' && t[11] == ':' && t[14] == ':' && t[17] == '.'
    && forall i :: 0 <= i < 21 && i != 8 && i != 11 && i != 14 && i != 17 ==> IsDigit(t[i])
  }

  const EPOCH: bytes := "19700101-00:00:00.000"

  /** The number of header fields a session prepares. */
  const HEADER_SIZE: nat := 6

  /** The header of the next outgoing message. */
  function Header(config: SessionConfig, nextOut: int, msgType: bytes, time: bytes): seq<Field> {
    [Field(8, config.beginString),
     Field(35, msgType),
     Field(49, config.senderCompId),
     Field(56, config.targetCompId),
     Field(34, ToChars(nextOut)),
     Field(52, time)]
  }

  class FixSession {
    const config: SessionConfig
    var nextOutSeq: int
    var nextInSeq: int
    var loggedOn: bool

    function State(): SessionState
      reads this
    {
      SessionState(loggedOn, nextInSeq, nextOutSeq)
    }

    constructor (config: SessionConfig)
      ensures State() == FRESH && this.config == config
      ensures !loggedOn && nextInSeq == 1 && nextOutSeq == 1
    {
      this.config := config;
      nextOutSeq, nextInSeq, loggedOn := 1, 1, false;
    }

    /** Fills the first fields of the caller's buffer, if it has room for a header. */
    method PrepareHeader(msgType: bytes, buffer: array<Field>, time: bytes) returns (count: nat)
      modifies buffer
      ensures count == if buffer.Length < 6 then 0 else 6
      ensures count == 0 ==> buffer[..] == old(buffer[..])
      ensures count > 0 ==>
                && buffer[..count] == Header(config, nextOutSeq, msgType, time)
                && buffer[count..] == old(buffer[count..])
    {
      if buffer.Length < HEADER_SIZE {
        return 0;
      }
      buffer[0] := Field(8, config.beginString);
      buffer[1] := Field(35, msgType);
      buffer[2] := Field(49, config.senderCompId);
      buffer[3] := Field(56, config.targetCompId);
      buffer[4] := Field(34, ToChars(nextOutSeq));
      buffer[5] := Field(52, time);
      return HEADER_SIZE;
    }

    /** Processes a parsed message as the session rules say. */
    method ReceiveMessage(fields: seq<Field>) returns (r: ProcessResult)
      modifies this
      ensures Received(State(), r) == Receive(old(State()), ReadIncoming(fields))
    {
      var msgType, seqNum := FieldOf(fields, 35), IntOf(fields, 34);
      if msgType.None? {
        return ProcessResult(SendReject, 0);
      }
      if seqNum.None? {
        return ProcessResult(SendReject, 0);
      }
      if !loggedOn {
        if msgType.value != "A" {
          return ProcessResult(Disconnect, 0);
        }
        loggedOn := true;
        nextInSeq := seqNum.value + 1;
        return ProcessResult(SendLogon, seqNum.value);
      }
      if seqNum.value == nextInSeq {
        nextInSeq := nextInSeq + 1;
        if msgType.value == "0" {
          return ProcessResult(NoAction, 0);
        } else if msgType.value == "1" {
          return ProcessResult(SendHeartbeat, seqNum.value);
        } else if msgType.value == "2" {
          return ProcessResult(ResetSequence, seqNum.value);
        } else if msgType.value == "4" {
          var newSeq := IntOf(fields, 36);
          if newSeq.Some? {
            nextInSeq := newSeq.value;
            return ProcessResult(NoAction, newSeq.value);
          }
          return ProcessResult(SendReject, 0);
        } else if msgType.value == "5" {
          loggedOn := false;
          return ProcessResult(Disconnect, 0);
        }
        return ProcessResult(ProcessApplicationMessage, 0);
      } else if seqNum.value > nextInSeq {
        return ProcessResult(SendResendRequest, nextInSeq);
      } else {
        var possDup := FieldOf(fields, 43);
        if possDup.Some? && possDup.value == "Y" {
          return ProcessResult(NoAction, 0);
        }
        return ProcessResult(Disconnect, 0);
      }
    }

    method OnMessageSent()
      modifies this
      ensures State() == old(State()).(nextOut := old(nextOutSeq) + 1)
    {
      nextOutSeq := nextOutSeq + 1;
    }
  }
}
