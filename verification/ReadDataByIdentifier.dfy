/** The ReadDataByIdentifier service, 0x22 (section 10.2 of ISO 14229-1:2013). */
module ReadData {
  import opened Bytes
  import opened Options
  import opened UdsDefinitions
  import opened UdsTypes

  const READ_DATA_BY_IDENTIFIER_SID: byte := 0x22
  const RESPONSE_SID: byte := READ_DATA_BY_IDENTIFIER_SID + SEND_RECEIVE_SID_OFFSET

  /** An identifier and the length of its data; the greatest length stands for the rest of the frame. */
  datatype DidSpec = DidSpec(did: uint16, len: uint32)
  {
    predicate Wildcard() { len == UINT32_MAX }
  }

  function Dids(specs: seq<DidSpec>): seq<uint16> {
    seq(|specs|, i requires 0 <= i < |specs| => specs[i].did)
  }

  // ----- requests

  function EncodeDids(dids: seq<uint16>): seq<byte> {
    if dids == [] then [] else EncodeDids(dids[..|dids| - 1]) + EncodeDid(dids[|dids| - 1])
  }

  function EncodeDid(did: uint16): seq<byte> { [HighByte(did), LowByte(did)] }

  function ComposeRequest(dids: seq<uint16>): seq<byte> {
    [READ_DATA_BY_IDENTIFIER_SID] + EncodeDids(dids)
  }

  method ComposeReadDataByIdentifierRequest(dids: seq<uint16>) returns (request: seq<byte>)
    ensures request == ComposeRequest(dids)
  {
    request := [READ_DATA_BY_IDENTIFIER_SID];
    for i := 0 to |dids|
      invariant request == ComposeRequest(dids[..i])
    {
      var msb := HighByte(dids[i]);
      request := request + [msb];
      var lsb := LowByte(dids[i]);
      request := request + [lsb];
      assert dids[..i + 1][..i] == dids[..i];
    }
    assert dids[..|dids|] == dids;
  }

  /** The identifiers of a request, read two bytes at a time from the front. */
  function DecodeDids(payload: seq<byte>): Option<seq<uint16>> {
    if payload == [] then Some([])
    else if |payload| == 1 then None
    else
      match DecodeDids(payload[2..])
      case None => None
      case Some(dids) => Some([Word(payload[0], payload[1])] + dids)
  }

  lemma {:induction false} EncodeDidsFront(dids: seq<uint16>)
    requires dids != []
    ensures EncodeDids(dids) == EncodeDid(dids[0]) + EncodeDids(dids[1..])
  {
    if |dids| > 1 {
      var last := |dids| - 1;
      EncodeDidsFront(dids[..last]);
      assert dids[..last][1..] == dids[1..][..last - 1];
    }
  }

  /** A request determines its identifiers: it has two bytes for each and decodes to exactly them. */
  lemma {:induction false} RequestRoundTrip(dids: seq<uint16>)
    ensures |ComposeRequest(dids)| == 1 + 2 * |dids|
    ensures DecodeDids(ComposeRequest(dids)[1..]) == Some(dids)
  {
    assert ComposeRequest(dids)[1..] == EncodeDids(dids);
    if dids != [] {
      EncodeDidsFront(dids);
      RequestRoundTrip(dids[1..]);
      var payload := EncodeDids(dids);
      assert payload[2..] == EncodeDids(dids[1..]) == ComposeRequest(dids[1..])[1..];
      assert [Word(payload[0], payload[1])] + dids[1..] == dids;
    }
  }

  lemma WordBytes(high: byte, low: byte)
    ensures EncodeDid(Word(high, low)) == [high, low]
  {
  }

  lemma FirstDid(high: byte, low: byte, later: seq<uint16>)
    ensures EncodeDids([Word(high, low)] + later) == [high, low] + EncodeDids(later)
  {
    EncodeDidsFront([Word(high, low)] + later);
    assert ([Word(high, low)] + later)[1..] == later;
    WordBytes(high, low);
  }

  lemma {:induction false} EvenPayloadsDecode(payload: seq<byte>)
    ensures DecodeDids(payload).Some? <==> |payload| % 2 == 0
  {
    if |payload| >= 2 {
      EvenPayloadsDecode(payload[2..]);
    }
  }

  lemma {:induction false} DecodedEncode(payload: seq<byte>, dids: seq<uint16>)
    requires DecodeDids(payload) == Some(dids)
    ensures EncodeDids(dids) == payload
  {
    if payload != [] {
      var later := DecodeDids(payload[2..]).value;
      DecodedEncode(payload[2..], later);
      FirstDid(payload[0], payload[1], later);
    }
  }

  /** Every payload of even length is that of exactly one request. */
  lemma RequestsAreAllPayloads(payload: seq<byte>)
    ensures DecodeDids(payload).Some? <==> |payload| % 2 == 0
    ensures DecodeDids(payload).Some? ==> EncodeDids(DecodeDids(payload).value) == payload
  {
    EvenPayloadsDecode(payload);
    if DecodeDids(payload).Some? {
      DecodedEncode(payload, DecodeDids(payload).value);
    }
  }

  // ----- the raw response

  function ParseRaw(raw: seq<byte>): Result<UdsResponse> {
    if raw == [] then Failure(ResponseEmpty)
    else if raw[0] != RESPONSE_SID then Failure(SidMismatch(RESPONSE_SID, raw[0], raw))
    else Success(ReadDataByIdentifier(Raw(raw[1..])))
  }

  method ParseReadDataByIdentifierResponse(raw: seq<byte>) returns (r: Result<UdsResponse>)
    ensures r == ParseRaw(raw)
  {
    var sid :- OkOr(Next(raw, 0), ResponseEmpty);
    if sid != RESPONSE_SID {
      return Failure(SidMismatch(RESPONSE_SID, sid, raw));
    }
    return Success(ReadDataByIdentifier(Raw(raw[1..])));
  }

  // ----- the structured response

  /** The records that the specs from `i` on find in `raw` from `pos` on. */
  function ParseRecords(specs: seq<DidSpec>, i: nat, raw: seq<byte>, pos: nat): Result<seq<DataRecord>>
    requires i <= |specs| && pos <= |raw|
    decreases |specs| - i
  {
    if i == |specs| then Success([])
    else if pos + 2 > |raw| then Failure(InvalidLength(raw))
    else
      var did := Word(raw[pos], raw[pos + 1]);
      if specs[i].did != did then Failure(DidMismatch(specs[i].did, did, raw))
      else
        var end := if specs[i].Wildcard() then |raw| else pos + 2 + specs[i].len;
        if end > |raw| then Failure(InvalidLength(raw))
        else
          var rest :- ParseRecords(specs, i + 1, raw, end);
          Success([DataRecord(did, raw[pos + 2..end])] + rest)
  }

  function ParseTuple(specs: seq<DidSpec>, raw: seq<byte>): Result<seq<DataRecord>> {
    if raw == [] then Failure(InvalidLength(raw))
    else if raw[0] != RESPONSE_SID then Failure(SidMismatch(RESPONSE_SID, raw[0], raw))
    else ParseRecords(specs, 0, raw, 1)
  }

  lemma OneRecord(specs: seq<DidSpec>, i: nat, raw: seq<byte>, pos: nat, end: nat)
    requires i < |specs| && pos + 2 <= end <= |raw| && Word(raw[pos], raw[pos + 1]) == specs[i].did
    requires end == if specs[i].Wildcard() then |raw| else pos + 2 + specs[i].len
    ensures ParseRecords(specs, i, raw, pos)
         == Prepend([DataRecord(specs[i].did, raw[pos + 2..end])], ParseRecords(specs, i + 1, raw, end))
  {
  }

  method ParseReadDataByIdentifierTupleResponse(specs: seq<DidSpec>, raw: seq<byte>)
    returns (r: Result<UdsResponse>)
    ensures r == match ParseTuple(specs, raw)
                 case Success(records) => Success(ReadDataByIdentifier(Parsed(records)))
                 case Failure(e) => Failure(e)
  {
    var pos := 0;
    var sid :- OkOr(Next(raw, pos), InvalidLength(raw));
    pos := pos + 1;
    if sid != RESPONSE_SID {
      return Failure(SidMismatch(RESPONSE_SID, sid, raw));
    }

    var dataRecords: seq<DataRecord> := [];
    PrependNothing(ParseTuple(specs, raw));
    for i := 0 to |specs|
      invariant 1 <= pos <= |raw|
      invariant ParseTuple(specs, raw) == Prepend(dataRecords, ParseRecords(specs, i, raw, pos))
    {
      ghost var start := pos;
      var msb :- OkOr(Next(raw, pos), InvalidLength(raw));
      pos := pos + 1;
      var lsb :- OkOr(Next(raw, pos), InvalidLength(raw));
      pos := pos + 1;
      var responseDid := Word(msb, lsb);
      if specs[i].did != responseDid {
        return Failure(DidMismatch(specs[i].did, responseDid, raw));
      }
      var dataRecord: seq<byte> := [];
      if specs[i].len != UINT32_MAX {
        for n := 0 to specs[i].len
          invariant pos == start + 2 + n <= |raw|
          invariant dataRecord == raw[start + 2..pos]
        {
          var b :- OkOr(Next(raw, pos), InvalidLength(raw));
          dataRecord := dataRecord + [b];
          pos := pos + 1;
        }
      } else {
        while pos < |raw|
          invariant start + 2 <= pos <= |raw|
          invariant dataRecord == raw[start + 2..pos]
        {
          dataRecord := dataRecord + [raw[pos]];
          pos := pos + 1;
        }
      }
      var found := DataRecord(responseDid, dataRecord);
      OneRecord(specs, i, raw, start, pos);
      PrependTwice(dataRecords, found, ParseRecords(specs, i + 1, raw, pos));
      dataRecords := dataRecords + [found];
    }
    assert dataRecords + [] == dataRecords;
    return Success(ReadDataByIdentifier(Parsed(dataRecords)));
  }
}
