/** The client: the exchange as a loop around socket effects, and the calls built on it. */
module Client {
  import opened Bytes
  import opened Options
  import opened UdsDefinitions
  import opened UdsTypes
  import Exchange
  import opened Communication
  import opened Calls
  import ReadData
  import ReadMemory
  import ReadDtc
  import OtherServices

  class UdsClient {
    const socket: UdsSocket

    constructor (socket: UdsSocket)
      ensures this.socket == socket
    {
      this.socket := socket;
    }

    method SendAndReceive(request: seq<byte>) returns (r: Await<seq<byte>>)
      modifies socket
      ensures Exchange.Run(r, socket.wire) == Exchange.SendAndReceive(request, Exchange.RETRY_START, old(socket.wire))
    {
      var retryCounter: int32 := Exchange.RETRY_START;
      if request == [] {
        return Failed(RequestEmpty);
      }
      var _ :- socket.Send(request);
      var rawResponse :- socket.Receive();

      var check := Exchange.ParseForError(rawResponse);
      while check.Failure?
        invariant check == Exchange.Classify(rawResponse)
        invariant Exchange.React(request, retryCounter, rawResponse, socket.wire)
               == Exchange.SendAndReceive(request, Exchange.RETRY_START, old(socket.wire))
        decreases Exchange.Remaining(retryCounter)
      {
        match check.error {
          case NRC(nrc) =>
            if nrc.rejectedSid != request[0] {
              return Failed(SidMismatch(request[0], nrc.rejectedSid, rawResponse));
            }
            if nrc.code == BusyRepeatRequest {
              retryCounter := Exchange.Decrement(retryCounter);
              if retryCounter == 0 {
                return Failed(NRC(nrc));
              }
              var _ :- socket.Send(request);
              rawResponse :- socket.Receive();
            } else if nrc.code == RequestCorrectlyReceivedResponsePending {
              var delayed :- socket.ReceiveTimeout();
              if delayed.None? {
                return Failed(NRC(nrc));
              }
              rawResponse := delayed.value;
              break;
            } else {
              return Failed(NRC(nrc));
            }
          case e =>
            return Failed(e);
        }
        check := Exchange.ParseForError(rawResponse);
      }
      r := Ready(rawResponse);
    }

    method ReadDataByIdentifier(dids: seq<uint16>) returns (r: Await<UdsResponse>)
      modifies socket
      ensures Exchange.Run(r, socket.wire) == Perform(ReadDids(dids), old(socket.wire))
    {
      if |dids| == 1 {
        r := ReadSingleDataByIdentifier(dids[0]);
        return;
      }
      var request := ReadData.ComposeReadDataByIdentifierRequest(dids);
      var rawResponse :- SendAndReceive(request);
      var response := ReadData.ParseReadDataByIdentifierResponse(rawResponse);
      return Awaited(response);
    }

    method ReadDataByIdentifierTuple(specs: seq<ReadData.DidSpec>) returns (r: Await<UdsResponse>)
      modifies socket
      ensures Exchange.Run(r, socket.wire) == Perform(ReadTuple(specs), old(socket.wire))
    {
      var dids: seq<uint16> := [];
      for i := 0 to |specs|
        invariant dids == ReadData.Dids(specs[..i])
      {
        dids := dids + [specs[i].did];
      }
      assert specs[..|specs|] == specs;
      var request := ReadData.ComposeReadDataByIdentifierRequest(dids);
      var response :- SendAndReceive(request);
      var parsed := ReadData.ParseReadDataByIdentifierTupleResponse(specs, response);
      return Awaited(parsed);
    }

    method ReadSingleDataByIdentifier(did: uint16) returns (r: Await<UdsResponse>)
      modifies socket
      ensures Exchange.Run(r, socket.wire) == Perform(ReadDids([did]), old(socket.wire))
    {
      assert ReadData.Dids(Single(did)) == [did];
      r := ReadDataByIdentifierTuple(Single(did));
    }

    method ReadMemoryByAddress(format: byte, address: seq<byte>, size: seq<byte>) returns (r: Await<UdsResponse>)
      modifies socket
      ensures Exchange.Run(r, socket.wire)
           == Perform(ReadMemoryRaw(ReadMemory.MemoryArguments(format, address, size)), old(socket.wire))
    {
      var request := ReadMemory.FormulateRequest(format, address, size);
      var response :- SendAndReceive(request);
      return ReadMemory.ParseResponse(response);
    }

    method ReadMemoryByAddressSimplified(address: uint64, size: uint64,
                                         addressLen: Option<byte>, sizeLen: Option<byte>)
      returns (r: Await<UdsResponse>)
      modifies socket
      ensures Exchange.Run(r, socket.wire)
           == Perform(ReadMemorySimplified(address, size, addressLen, sizeLen), old(socket.wire))
    {
      var converted := ReadMemory.ConvertFromSimpleToNormal(address, size, addressLen, sizeLen);
      var arguments :- Awaited(converted);
      r := ReadMemoryByAddress(arguments.format, arguments.address, arguments.size);
    }

    method ReportNumberOfDtcByStatusMask(mask: byte) returns (r: Await<UdsResponse>)
      modifies socket
      ensures Exchange.Run(r, socket.wire) == Perform(CountDtcs(mask), old(socket.wire))
    {
      var request := ReadDtc.ComposeByStatusMask(ReadDtc.SubFunction.ReportNumberOfDTCbyStatusMask, mask);
      var rawResponse :- SendAndReceive(request);
      var parsed := ReadDtc.ParseReportNumberOfDtcByStatusMaskResponse(rawResponse);
      return Awaited(Information(parsed));
    }

    method ReportDtcByStatusMask(mask: byte) returns (r: Await<UdsResponse>)
      modifies socket
      ensures Exchange.Run(r, socket.wire) == Perform(ListDtcs(mask), old(socket.wire))
    {
      var rawResponse :- SendAndReceive(ReadDtc.ComposeByStatusMask(ReadDtc.SubFunction.ReportDTCByStatusMask, mask));
      var parsed := ReadDtc.ParseReportDtcs(rawResponse);
      return Awaited(Information(parsed));
    }

    method ReportMostRecentConfirmedDtc() returns (r: Await<UdsResponse>)
      modifies socket
      ensures Exchange.Run(r, socket.wire) == Perform(MostRecentConfirmedDtc, old(socket.wire))
    {
      var rawResponse :- SendAndReceive(ReadDtc.ComposeShort(ReadDtc.SubFunction.ReportMostRecentConfirmedDTC));
      var parsed := ReadDtc.ParseReportDtcs(rawResponse);
      return Awaited(Information(parsed));
    }

    method ReportDtcSnapshotRecordByDtcNumber(dtcMask: uint32, recordNumber: byte) returns (r: Await<UdsResponse>)
      modifies socket
      ensures Exchange.Run(r, socket.wire) == Perform(DtcSnapshot(dtcMask, recordNumber), old(socket.wire))
    {
      var request := ReadDtc.ComposeByDtcNumber(ReadDtc.ReportDTCSnapshotRecordByDTCNumber, dtcMask, recordNumber);
      var rawResponse :- SendAndReceive(request);
      return Awaited(RawInformation(rawResponse));
    }

    method ReportDtcExtDataRecordByDtcNumber(dtcMask: uint32, recordNumber: byte) returns (r: Await<UdsResponse>)
      modifies socket
      ensures Exchange.Run(r, socket.wire) == Perform(DtcExtendedData(dtcMask, recordNumber), old(socket.wire))
    {
      var request := ReadDtc.ComposeByDtcNumber(ReadDtc.ReportDTCExtDataRecordByDTCNumber, dtcMask, recordNumber);
      var rawResponse :- SendAndReceive(request);
      return Awaited(RawInformation(rawResponse));
    }

    method EcuReset(resetType: ResetType) returns (r: Await<UdsResponse>)
      modifies socket
      ensures Exchange.Run(r, socket.wire) == Perform(Reset(resetType), old(socket.wire))
    {
      var request := OtherServices.ComposeEcuReset(resetType);
      assert RequestOf(Reset(resetType)) == Success(request);
      var rawResponse :- SendAndReceive(request);
      return Awaited(OtherServices.ParseEcuReset(rawResponse));
    }

    method DiagnosticSessionControl(session: byte) returns (r: Await<UdsResponse>)
      modifies socket
      ensures Exchange.Run(r, socket.wire) == Perform(Session(session), old(socket.wire))
    {
      var rawResponse :- SendAndReceive(OtherServices.ComposeSessionControl(session));
      return Awaited(OtherServices.ParseSessionControl(rawResponse));
    }

    method ClearDiagnosticInformation(group: uint32) returns (r: Await<UdsResponse>)
      modifies socket
      ensures Exchange.Run(r, socket.wire) == Perform(ClearDtcs(group), old(socket.wire))
    {
      var rawResponse :- SendAndReceive(OtherServices.ComposeClear(group));
      return Awaited(OtherServices.ParseClear(rawResponse));
    }

    method WriteDataByIdentifier(did: uint16, data: seq<byte>) returns (r: Await<UdsResponse>)
      modifies socket
      ensures Exchange.Run(r, socket.wire) == Perform(WriteDid(did, data), old(socket.wire))
    {
      var rawResponse :- SendAndReceive(OtherServices.ComposeWrite(did, data));
      return Awaited(OtherServices.ParseWrite(rawResponse));
    }
  }
}
