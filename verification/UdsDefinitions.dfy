/** A value that may be absent. */
module Options {
  datatype Option<+T> = None | Some(value: T)
}

/** Service identifiers and negative response codes (Annex A.1 of ISO 14229-1:2013). */
module UdsDefinitions {
  import opened Bytes
  import opened Options

  const SEND_RECEIVE_SID_OFFSET: byte := 0x40
  const NEGATIVE_RESPONSE_SID: byte := 0x7F

  datatype NegativeResponseCode =
    | PositiveResponse
    | GeneralReject
    | ServiceNotSupported
    | SubFunctionNotSupported
    | IncorrectMessageLengthOrInvalidFormat
    | ResponseTooLong
    | BusyRepeatRequest
    | ConditionsNotCorrect
    | RequestSequenceError
    | NoResponseFromSubnetComponent
    | FailurePreventsExecutionOfRequestedAction
    | RequestOutOfRange
    | SecurityAccessDenied
    | InvalidKey
    | ExceededNumberOfAttempts
    | RequiredTimeDelayNotExpired
    | UploadDownloadNotAccepted
    | TransferDataSuspended
    | GeneralProgrammingFailure
    | WrongBlockSequenceCounter
    | RequestCorrectlyReceivedResponsePending
    | SubfunctionNotSupportedInActiveSession
    | ServiceNotSupportedInActiveSession
    | RpmTooHigh
    | RpmTooLow
    | EngineIsRunning
    | EngineIsNotRunning
    | EngineRunTimeTooLow
    | TemperatureTooHigh
    | TemperatureTooLow
    | VehicleSpeedTooHigh
    | VehicleSpeedTooLow
    | ThrottlePedalTooHigh
    | ThrottlePedalTooLow
    | TransmissionRangeNotInNeutral
    | TransmissionRangeNotInGear
    | BrakeSwitchNotClosed
    | ShiftLeverNotInPark
    | TorqueConverterClutchLocked
    | VoltageTooHigh
    | VoltageTooLow

  /** The number that stands for a code on the wire. */
  function NrcByte(code: NegativeResponseCode): byte {
    match code
    case PositiveResponse => 0x00
    case GeneralReject => 0x10
    case ServiceNotSupported => 0x11
    case SubFunctionNotSupported => 0x12
    case IncorrectMessageLengthOrInvalidFormat => 0x13
    case ResponseTooLong => 0x14
    case BusyRepeatRequest => 0x21
    case ConditionsNotCorrect => 0x22
    case RequestSequenceError => 0x24
    case NoResponseFromSubnetComponent => 0x25
    case FailurePreventsExecutionOfRequestedAction => 0x26
    case RequestOutOfRange => 0x31
    case SecurityAccessDenied => 0x33
    case InvalidKey => 0x35
    case ExceededNumberOfAttempts => 0x36
    case RequiredTimeDelayNotExpired => 0x37
    case UploadDownloadNotAccepted => 0x70
    case TransferDataSuspended => 0x71
    case GeneralProgrammingFailure => 0x72
    case WrongBlockSequenceCounter => 0x73
    case RequestCorrectlyReceivedResponsePending => 0x78
    case SubfunctionNotSupportedInActiveSession => 0x7E
    case ServiceNotSupportedInActiveSession => 0x7F
    case RpmTooHigh => 0x81
    case RpmTooLow => 0x82
    case EngineIsRunning => 0x83
    case EngineIsNotRunning => 0x84
    case EngineRunTimeTooLow => 0x85
    case TemperatureTooHigh => 0x86
    case TemperatureTooLow => 0x87
    case VehicleSpeedTooHigh => 0x88
    case VehicleSpeedTooLow => 0x89
    case ThrottlePedalTooHigh => 0x8A
    case ThrottlePedalTooLow => 0x8B
    case TransmissionRangeNotInNeutral => 0x8C
    case TransmissionRangeNotInGear => 0x8D
    case BrakeSwitchNotClosed => 0x8F
    case ShiftLeverNotInPark => 0x90
    case TorqueConverterClutchLocked => 0x91
    case VoltageTooHigh => 0x92
    case VoltageTooLow => 0x93
  }

  function NrcFromByte(b: byte): Option<NegativeResponseCode> {
    match b
    case 0x00 => Some(PositiveResponse)
    case 0x10 => Some(GeneralReject)
    case 0x11 => Some(ServiceNotSupported)
    case 0x12 => Some(SubFunctionNotSupported)
    case 0x13 => Some(IncorrectMessageLengthOrInvalidFormat)
    case 0x14 => Some(ResponseTooLong)
    case 0x21 => Some(BusyRepeatRequest)
    case 0x22 => Some(ConditionsNotCorrect)
    case 0x24 => Some(RequestSequenceError)
    case 0x25 => Some(NoResponseFromSubnetComponent)
    case 0x26 => Some(FailurePreventsExecutionOfRequestedAction)
    case 0x31 => Some(RequestOutOfRange)
    case 0x33 => Some(SecurityAccessDenied)
    case 0x35 => Some(InvalidKey)
    case 0x36 => Some(ExceededNumberOfAttempts)
    case 0x37 => Some(RequiredTimeDelayNotExpired)
    case 0x70 => Some(UploadDownloadNotAccepted)
    case 0x71 => Some(TransferDataSuspended)
    case 0x72 => Some(GeneralProgrammingFailure)
    case 0x73 => Some(WrongBlockSequenceCounter)
    case 0x78 => Some(RequestCorrectlyReceivedResponsePending)
    case 0x7E => Some(SubfunctionNotSupportedInActiveSession)
    case 0x7F => Some(ServiceNotSupportedInActiveSession)
    case 0x81 => Some(RpmTooHigh)
    case 0x82 => Some(RpmTooLow)
    case 0x83 => Some(EngineIsRunning)
    case 0x84 => Some(EngineIsNotRunning)
    case 0x85 => Some(EngineRunTimeTooLow)
    case 0x86 => Some(TemperatureTooHigh)
    case 0x87 => Some(TemperatureTooLow)
    case 0x88 => Some(VehicleSpeedTooHigh)
    case 0x89 => Some(VehicleSpeedTooLow)
    case 0x8A => Some(ThrottlePedalTooHigh)
    case 0x8B => Some(ThrottlePedalTooLow)
    case 0x8C => Some(TransmissionRangeNotInNeutral)
    case 0x8D => Some(TransmissionRangeNotInGear)
    case 0x8F => Some(BrakeSwitchNotClosed)
    case 0x90 => Some(ShiftLeverNotInPark)
    case 0x91 => Some(TorqueConverterClutchLocked)
    case 0x92 => Some(VoltageTooHigh)
    case 0x93 => Some(VoltageTooLow)
    case _ => None
  }

  lemma NrcOfByte(b: byte)
    ensures NrcFromByte(b).Some? ==> NrcByte(NrcFromByte(b).value) == b
  {
    if b < 0x70 { NrcOfLowByte(b); } else { NrcOfHighByte(b); }
  }

  lemma NrcOfLowByte(b: byte)
    requires b < 0x70
    ensures NrcFromByte(b).Some? ==> NrcByte(NrcFromByte(b).value) == b
  {
  }

  lemma NrcOfHighByte(b: byte)
    requires b >= 0x70
    ensures NrcFromByte(b).Some? ==> NrcByte(NrcFromByte(b).value) == b
  {
  }

  lemma ByteOfNrc(code: NegativeResponseCode)
    ensures NrcFromByte(NrcByte(code)) == Some(code)
  {
    if NrcByte(code) < 0x70 { ByteOfLowNrc(code); } else { ByteOfHighNrc(code); }
  }

  lemma ByteOfLowNrc(code: NegativeResponseCode)
    requires NrcByte(code) < 0x70
    ensures NrcFromByte(NrcByte(code)) == Some(code)
  {
  }

  lemma ByteOfHighNrc(code: NegativeResponseCode)
    requires NrcByte(code) >= 0x70
    ensures NrcFromByte(NrcByte(code)) == Some(code)
  {
  }

  /** A byte stands for a code exactly when it is that code's number. */
  lemma NrcFromByteExactly(b: byte, code: NegativeResponseCode)
    ensures NrcFromByte(b) == Some(code) <==> NrcByte(code) == b
  {
    NrcOfByte(b);
    ByteOfNrc(code);
  }

  /** The numbers that have a code. */
  lemma KnownNumbersExactly(b: byte)
    ensures NrcFromByte(b).Some?
       <==> || b == 0x00 || 0x10 <= b <= 0x14 || 0x21 <= b <= 0x22 || 0x24 <= b <= 0x26 || b == 0x31 || b == 0x33
            || 0x35 <= b <= 0x37 || 0x70 <= b <= 0x73 || b == 0x78 || 0x7E <= b <= 0x7F || 0x81 <= b <= 0x8D
            || 0x8F <= b <= 0x93
  {
  }

  /** The codes of Annex A.1 about the message and the service. */
  lemma GeneralNumbers()
    ensures NrcFromByte(0x00) == Some(PositiveResponse)
    ensures NrcFromByte(0x10) == Some(GeneralReject)
    ensures NrcFromByte(0x11) == Some(ServiceNotSupported)
    ensures NrcFromByte(0x12) == Some(SubFunctionNotSupported)
    ensures NrcFromByte(0x13) == Some(IncorrectMessageLengthOrInvalidFormat)
    ensures NrcFromByte(0x14) == Some(ResponseTooLong)
    ensures NrcFromByte(0x21) == Some(BusyRepeatRequest)
    ensures NrcFromByte(0x22) == Some(ConditionsNotCorrect)
    ensures NrcFromByte(0x24) == Some(RequestSequenceError)
    ensures NrcFromByte(0x25) == Some(NoResponseFromSubnetComponent)
    ensures NrcFromByte(0x26) == Some(FailurePreventsExecutionOfRequestedAction)
    ensures NrcFromByte(0x31) == Some(RequestOutOfRange)
    ensures NrcFromByte(0x33) == Some(SecurityAccessDenied)
    ensures NrcFromByte(0x35) == Some(InvalidKey)
    ensures NrcFromByte(0x36) == Some(ExceededNumberOfAttempts)
    ensures NrcFromByte(0x37) == Some(RequiredTimeDelayNotExpired)
  {
  }

  /** The codes about transfers, waiting and sessions. */
  lemma TransferNumbers()
    ensures NrcFromByte(0x70) == Some(UploadDownloadNotAccepted)
    ensures NrcFromByte(0x71) == Some(TransferDataSuspended)
    ensures NrcFromByte(0x72) == Some(GeneralProgrammingFailure)
    ensures NrcFromByte(0x73) == Some(WrongBlockSequenceCounter)
    ensures NrcFromByte(0x78) == Some(RequestCorrectlyReceivedResponsePending)
    ensures NrcFromByte(0x7E) == Some(SubfunctionNotSupportedInActiveSession)
    ensures NrcFromByte(0x7F) == Some(ServiceNotSupportedInActiveSession)
  {
  }

  /** The codes about engine, temperature and speed. */
  lemma EngineNumbers()
    ensures NrcFromByte(0x81) == Some(RpmTooHigh)
    ensures NrcFromByte(0x82) == Some(RpmTooLow)
    ensures NrcFromByte(0x83) == Some(EngineIsRunning)
    ensures NrcFromByte(0x84) == Some(EngineIsNotRunning)
    ensures NrcFromByte(0x85) == Some(EngineRunTimeTooLow)
    ensures NrcFromByte(0x86) == Some(TemperatureTooHigh)
    ensures NrcFromByte(0x87) == Some(TemperatureTooLow)
    ensures NrcFromByte(0x88) == Some(VehicleSpeedTooHigh)
    ensures NrcFromByte(0x89) == Some(VehicleSpeedTooLow)
  {
  }

  /** The codes about pedals, transmission, brake and voltage. */
  lemma DriveNumbers()
    ensures NrcFromByte(0x8A) == Some(ThrottlePedalTooHigh)
    ensures NrcFromByte(0x8B) == Some(ThrottlePedalTooLow)
    ensures NrcFromByte(0x8C) == Some(TransmissionRangeNotInNeutral)
    ensures NrcFromByte(0x8D) == Some(TransmissionRangeNotInGear)
    ensures NrcFromByte(0x8F) == Some(BrakeSwitchNotClosed)
    ensures NrcFromByte(0x90) == Some(ShiftLeverNotInPark)
    ensures NrcFromByte(0x91) == Some(TorqueConverterClutchLocked)
    ensures NrcFromByte(0x92) == Some(VoltageTooHigh)
    ensures NrcFromByte(0x93) == Some(VoltageTooLow)
  {
  }
}
