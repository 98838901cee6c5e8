/** The fixed-layout services: reset, session control, clearing of trouble codes, writing of data. */
module OtherServices {
  import opened Bytes
  import opened Options
  import opened UdsDefinitions
  import opened UdsTypes
  import ReadData
  import ReadDtc

  const DIAGNOSTIC_SESSION_CONTROL_SID: byte := 0x10
  const ECU_RESET_SID: byte := 0x11
  const CLEAR_DIAGNOSTIC_INFORMATION_SID: byte := 0x14
  const WRITE_DATA_BY_IDENTIFIER_SID: byte := 0x2E

  /** The check that every one of these parsers makes first. */
  function CheckSid(raw: seq<byte>, sid: byte): (r: Result<()>)
    requires sid < 0x80
    ensures r.Success? <==> raw != [] && raw[0] == sid + SEND_RECEIVE_SID_OFFSET
  {
    if raw == [] then Failure(ResponseEmpty)
    else if raw[0] != sid + SEND_RECEIVE_SID_OFFSET then
      Failure(SidMismatch(sid + SEND_RECEIVE_SID_OFFSET, raw[0], raw))
    else Success(())
  }

  function ResetByte(t: ResetType): byte {
    match t
    case HardReset => 1
    case KeyOffOnReset => 2
    case SoftReset => 3
    case EnableRapidPowerShutDown => 4
    case DisableRapidPowerShutDown => 5
  }

  function ResetFromByte(b: byte): Option<ResetType> {
    match b
    case 1 => Some(HardReset)
    case 2 => Some(KeyOffOnReset)
    case 3 => Some(SoftReset)
    case 4 => Some(EnableRapidPowerShutDown)
    case 5 => Some(DisableRapidPowerShutDown)
    case _ => None
  }

  // ----- requests

  function ComposeEcuReset(t: ResetType): seq<byte> { [ECU_RESET_SID, ResetByte(t)] }

  function ComposeSessionControl(session: byte): seq<byte> { [DIAGNOSTIC_SESSION_CONTROL_SID, session] }

  function ComposeClear(group: uint32): seq<byte> { [CLEAR_DIAGNOSTIC_INFORMATION_SID] + BigEndian(group, 3) }

  function ComposeWrite(did: uint16, data: seq<byte>): seq<byte> {
    [WRITE_DATA_BY_IDENTIFIER_SID] + ReadData.EncodeDid(did) + data
  }

  /** The requests give their arguments back: a reset type, a session, a 24-bit group, an identifier and its data. */
  lemma RequestsDecode(t: ResetType, session: byte, group: uint32, did: uint16, data: seq<byte>)
    ensures var frame := ComposeEcuReset(t); |frame| == 2 && ResetFromByte(frame[1]) == Some(t)
    ensures ComposeSessionControl(session)[1..] == [session]
    ensures var frame := ComposeClear(group);
            |frame| == 4 && ReadDtc.Dtc(frame[1], frame[2], frame[3]) == group % 0x100_0000
    ensures var frame := ComposeWrite(did, data);
            |frame| >= 3 && Word(frame[1], frame[2]) == did && frame[3..] == data
  {
    ReadDtc.Low24Bits(group);
    var frame := ComposeWrite(did, data);
    assert frame == [WRITE_DATA_BY_IDENTIFIER_SID, HighByte(did), LowByte(did)] + data;
  }

  // ----- responses

  function ParseEcuReset(raw: seq<byte>): Result<UdsResponse> {
    var _ :- CheckSid(raw, ECU_RESET_SID);
    var resetByte :- OkOr(Next(raw, 1), InvalidLength(raw));
    var resetType :- OkOr(ResetFromByte(resetByte), ResponseIncorrect(raw));
    if resetType == EnableRapidPowerShutDown then
      var powerDownTime :- OkOr(Next(raw, 2), InvalidLength(raw));
      Success(EcuReset(resetType, Some(powerDownTime)))
    else Success(EcuReset(resetType, None))
  }

  function ParseSessionControl(raw: seq<byte>): Result<UdsResponse> {
    var _ :- CheckSid(raw, DIAGNOSTIC_SESSION_CONTROL_SID);
    if |raw| < 6 then Failure(InvalidLength(raw))
    else Success(DiagnosticSessionControl(raw[1], Word(raw[2], raw[3]), Word(raw[4], raw[5])))
  }

  function ParseClear(raw: seq<byte>): Result<UdsResponse> {
    var _ :- CheckSid(raw, CLEAR_DIAGNOSTIC_INFORMATION_SID);
    Success(ClearDiagnosticInformation)
  }

  function ParseWrite(raw: seq<byte>): Result<UdsResponse> {
    var _ :- CheckSid(raw, WRITE_DATA_BY_IDENTIFIER_SID);
    if |raw| < 3 then Failure(InvalidLength(raw))
    else Success(WriteDataByIdentifier(Word(raw[1], raw[2])))
  }

  /** Each parser accepts exactly the frames that start with the encoding of what it returns. */
  lemma AcceptedExactly(raw: seq<byte>, t: ResetType, powerDownTime: Option<byte>,
                        session: byte, p2: uint16, p2Star: uint16, did: uint16)
    ensures ParseEcuReset(raw) == Success(EcuReset(t, powerDownTime))
       <==> && (powerDownTime.Some? <==> t == EnableRapidPowerShutDown)
            && [ECU_RESET_SID + SEND_RECEIVE_SID_OFFSET, ResetByte(t)]
               + (if powerDownTime.Some? then [powerDownTime.value] else []) <= raw
    ensures ParseSessionControl(raw) == Success(DiagnosticSessionControl(session, p2, p2Star))
       <==> [DIAGNOSTIC_SESSION_CONTROL_SID + SEND_RECEIVE_SID_OFFSET, session,
             HighByte(p2), LowByte(p2), HighByte(p2Star), LowByte(p2Star)] <= raw
    ensures ParseClear(raw) == Success(ClearDiagnosticInformation)
       <==> [CLEAR_DIAGNOSTIC_INFORMATION_SID + SEND_RECEIVE_SID_OFFSET] <= raw
    ensures ParseWrite(raw) == Success(WriteDataByIdentifier(did))
       <==> [WRITE_DATA_BY_IDENTIFIER_SID + SEND_RECEIVE_SID_OFFSET, HighByte(did), LowByte(did)] <= raw
  {
  }

  /** Which error each parser reports for the frames it does not accept. */
  lemma RejectedExactly(raw: seq<byte>, e: UdsError)
    ensures ParseEcuReset(raw) == Failure(e)
       <==> if raw == [] then e == ResponseEmpty
            else if raw[0] != 0x51 then e == SidMismatch(0x51, raw[0], raw)
            else if |raw| >= 2 && forall t :: ResetByte(t) != raw[1] then e == ResponseIncorrect(raw)
            else && e == InvalidLength(raw)
                 && (|raw| == 1 || (|raw| == 2 && raw[1] == ResetByte(EnableRapidPowerShutDown)))
    ensures ParseSessionControl(raw) == Failure(e)
       <==> if raw == [] then e == ResponseEmpty
            else if raw[0] != 0x50 then e == SidMismatch(0x50, raw[0], raw)
            else e == InvalidLength(raw) && |raw| < 6
    ensures ParseClear(raw) == Failure(e)
       <==> if raw == [] then e == ResponseEmpty
            else raw[0] != 0x54 && e == SidMismatch(0x54, raw[0], raw)
    ensures ParseWrite(raw) == Failure(e)
       <==> if raw == [] then e == ResponseEmpty
            else if raw[0] != 0x6E then e == SidMismatch(0x6E, raw[0], raw)
            else e == InvalidLength(raw) && |raw| < 3
  {
    if |raw| >= 2 && ResetFromByte(raw[1]).Some? {
      assert ResetByte(ResetFromByte(raw[1]).value) == raw[1];
    }
  }

  /** The frame is not accepted as it is, but the beginning of one that is. */
  ghost predicate LacksBytes(parse: seq<byte> -> Result<UdsResponse>, raw: seq<byte>) {
    !parse(raw).Success? && exists more :: parse(raw + more).Success?
  }

  /** An invalid length is reported just for the frames of the service that more bytes would complete. */
  lemma InvalidLengthExactly(raw: seq<byte>)
    requires raw != []
    ensures ParseEcuReset(raw) == Failure(InvalidLength(raw)) <==> LacksBytes(ParseEcuReset, raw)
    ensures ParseSessionControl(raw) == Failure(InvalidLength(raw)) <==> LacksBytes(ParseSessionControl, raw)
    ensures ParseWrite(raw) == Failure(InvalidLength(raw)) <==> LacksBytes(ParseWrite, raw)
    ensures !LacksBytes(ParseClear, raw)
  {
    if ParseEcuReset(raw) == Failure(InvalidLength(raw)) {
      assert ParseEcuReset(raw + if |raw| == 1 then [1] else [0]).Success?;
    }
    if ParseSessionControl(raw) == Failure(InvalidLength(raw)) {
      assert ParseSessionControl(raw + [0, 0, 0, 0, 0]).Success?;
    }
    if ParseWrite(raw) == Failure(InvalidLength(raw)) {
      assert ParseWrite(raw + [0, 0]).Success?;
    }
  }
}
