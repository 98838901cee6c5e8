/** What the structured ReadDataByIdentifier parser accepts, and how it fails. */
module ReadDataLaws {
  import opened Bytes
  import opened Options
  import opened UdsTypes
  import opened ReadData

  // ----- the frames a record list encodes to

  function EncodeRecords(records: seq<DataRecord>): seq<byte> {
    if records == [] then []
    else EncodeDid(records[0].dataIdentifier) + records[0].data + EncodeRecords(records[1..])
  }

  function Encode(records: seq<DataRecord>): seq<byte> { [RESPONSE_SID] + EncodeRecords(records) }

  /** The records answer the specs: one each, in order, with their identifiers and lengths. */
  ghost predicate Answers(records: seq<DataRecord>, specs: seq<DidSpec>) {
    && |records| == |specs|
    && forall i :: 0 <= i < |specs| ==>
         && records[i].dataIdentifier == specs[i].did
         && (!specs[i].Wildcard() ==> |records[i].data| == specs[i].len)
  }

  ghost predicate HasWildcard(specs: seq<DidSpec>) {
    exists i :: 0 <= i < |specs| && specs[i].Wildcard()
  }

  ghost predicate WildcardOnlyLast(specs: seq<DidSpec>) {
    forall i :: 0 <= i < |specs| - 1 ==> !specs[i].Wildcard()
  }

  /** A frame carries the records: it starts with their encoding, which is all of it for a wildcard. */
  ghost predicate Carries(raw: seq<byte>, specs: seq<DidSpec>, records: seq<DataRecord>) {
    if HasWildcard(specs) then Encode(records) == raw else Encode(records) <= raw
  }

  /** What `Carries` and the rest come to for the specs from `i` on and the bytes from `pos` on. */
  ghost predicate CarriesFrom(specs: seq<DidSpec>, i: nat, raw: seq<byte>, pos: nat, records: seq<DataRecord>)
    requires i <= |specs| && pos <= |raw|
  {
    && WildcardOnlyLast(specs[i..])
    && Answers(records, specs[i..])
    && if HasWildcard(specs[i..]) then EncodeRecords(records) == raw[pos..] else EncodeRecords(records) <= raw[pos..]
  }

  /** Where the record of spec `i` ends when it starts at `pos`. */
  function End(spec: DidSpec, raw: seq<byte>, pos: nat): nat {
    if spec.Wildcard() then |raw| else pos + 2 + spec.len
  }

  /** The bytes at `pos` are a record that answers spec `i`, and its data fits into the frame. */
  predicate Fits(spec: DidSpec, raw: seq<byte>, pos: nat) {
    pos + 2 <= |raw| && Word(raw[pos], raw[pos + 1]) == spec.did && End(spec, raw, pos) <= |raw|
  }

  lemma SplitPrefix(head: seq<byte>, tail: seq<byte>, s: seq<byte>)
    ensures head + tail <= s <==> |head| <= |s| && s[..|head|] == head && tail <= s[|head|..]
    ensures head + tail == s <==> |head| <= |s| && s[..|head|] == head && tail == s[|head|..]
  {
  }

  lemma SplitSpecs(specs: seq<DidSpec>, i: nat)
    requires i < |specs|
    ensures var rest, later := specs[i..], specs[i + 1..];
            && (WildcardOnlyLast(rest) <==> (later == [] || !specs[i].Wildcard()) && WildcardOnlyLast(later))
            && (HasWildcard(rest) <==> specs[i].Wildcard() || HasWildcard(later))
  {
  }

  lemma SplitAnswers(specs: seq<DidSpec>, i: nat, records: seq<DataRecord>)
    requires i < |specs|
    ensures Answers(records, specs[i..])
       <==> && records != [] && records[0].dataIdentifier == specs[i].did
            && (!specs[i].Wildcard() ==> |records[0].data| == specs[i].len)
            && Answers(records[1..], specs[i + 1..])
  {
  }

  /** The record at `pos` is the first of the records, the others lie behind it. */
  lemma CarriesStep(specs: seq<DidSpec>, i: nat, raw: seq<byte>, pos: nat, records: seq<DataRecord>)
    requires i < |specs| && pos <= |raw|
    ensures CarriesFrom(specs, i, raw, pos, records)
       <==> && Fits(specs[i], raw, pos) && records != []
            && records[0] == DataRecord(specs[i].did, raw[pos + 2..End(specs[i], raw, pos)])
            && CarriesFrom(specs, i + 1, raw, End(specs[i], raw, pos), records[1..])
  {
    SplitSpecs(specs, i);
    SplitAnswers(specs, i, records);
    if records != [] {
      var head, tail := EncodeDid(records[0].dataIdentifier) + records[0].data, EncodeRecords(records[1..]);
      SplitPrefix(head, tail, raw[pos..]);
      HeadMatches(records[0], raw, pos);
      var next := pos + |head|;
      if next <= |raw| {
        assert raw[pos..][|head|..] == raw[next..];
      }
      if i + 1 == |specs| {
        assert specs[i + 1..] == [];
      }
    }
  }

  /** The encoding of one record, compared with the bytes at `pos`. */
  lemma HeadMatches(record: DataRecord, raw: seq<byte>, pos: nat)
    requires pos <= |raw|
    ensures var head, next := EncodeDid(record.dataIdentifier) + record.data, pos + 2 + |record.data|;
            |head| <= |raw[pos..]| && raw[pos..][..|head|] == head
            <==> && next <= |raw| && Word(raw[pos], raw[pos + 1]) == record.dataIdentifier
                 && raw[pos + 2..next] == record.data
  {
    var head, next := EncodeDid(record.dataIdentifier) + record.data, pos + 2 + |record.data|;
    if next <= |raw| {
      var found := raw[pos..][..|head|];
      assert found == raw[pos..pos + 2] + raw[pos + 2..next];
      assert raw[pos..pos + 2] == [raw[pos], raw[pos + 1]];
      assert head[..2] == EncodeDid(record.dataIdentifier) && head[2..] == record.data;
      assert found[..2] == raw[pos..pos + 2] && found[2..] == raw[pos + 2..next];
    }
  }

  lemma {:induction false} RecordsExactly(specs: seq<DidSpec>, i: nat, raw: seq<byte>, pos: nat,
                                                records: seq<DataRecord>)
    requires i <= |specs| && pos <= |raw|
    ensures ParseRecords(specs, i, raw, pos) == Success(records) <==> CarriesFrom(specs, i, raw, pos, records)
    decreases |specs| - i
  {
    if i < |specs| {
      CarriesStep(specs, i, raw, pos, records);
      if Fits(specs[i], raw, pos) && records != [] {
        RecordsExactly(specs, i + 1, raw, End(specs[i], raw, pos), records[1..]);
        assert [records[0]] + records[1..] == records;
      }
    }
  }

  /** The parser accepts exactly the frames that carry records answering the specs, and returns those. */
  lemma ParsesExactly(specs: seq<DidSpec>, raw: seq<byte>, records: seq<DataRecord>)
    ensures ParseTuple(specs, raw) == Success(records)
       <==> WildcardOnlyLast(specs) && Answers(records, specs) && Carries(raw, specs, records)
  {
    if raw != [] && raw[0] == RESPONSE_SID {
      RecordsExactly(specs, 0, raw, 1, records);
      assert specs[0..] == specs;
      assert raw == [RESPONSE_SID] + raw[1..];
    }
  }

  /** Encoding and then parsing is the identity, for every spec list without an early wildcard. */
  lemma EncodeParse(specs: seq<DidSpec>, records: seq<DataRecord>, trailing: seq<byte>)
    requires WildcardOnlyLast(specs) && Answers(records, specs)
    ensures ParseTuple(specs, Encode(records)) == Success(records)
    ensures !HasWildcard(specs) ==> ParseTuple(specs, Encode(records) + trailing) == Success(records)
  {
    ParsesExactly(specs, Encode(records), records);
    ParsesExactly(specs, Encode(records) + trailing, records);
  }

  // ----- the first failure

  /** Where the record of spec `k` is looked for: behind the records of all earlier specs. */
  function Offset(specs: seq<DidSpec>, raw: seq<byte>, k: nat): nat
    requires k <= |specs|
  {
    if k == 0 then 1 else End(specs[k - 1], raw, Offset(specs, raw, k - 1))
  }

  predicate Passes(specs: seq<DidSpec>, raw: seq<byte>, k: nat)
    requires k < |specs|
  {
    Fits(specs[k], raw, Offset(specs, raw, k))
  }

  /** The error that spec `k` causes when it is the first to fail. */
  function FailureAt(specs: seq<DidSpec>, raw: seq<byte>, k: nat): UdsError
    requires k < |specs|
  {
    var pos := Offset(specs, raw, k);
    if pos + 2 <= |raw| && Word(raw[pos], raw[pos + 1]) != specs[k].did
    then DidMismatch(specs[k].did, Word(raw[pos], raw[pos + 1]), raw)
    else InvalidLength(raw)
  }

  ghost predicate PassesUpTo(specs: seq<DidSpec>, raw: seq<byte>, k: nat)
    requires k <= |specs|
  {
    forall i :: 0 <= i < k ==> Passes(specs, raw, i)
  }

  /** Parsing from the front fails as parsing from spec `k` does, once all earlier specs pass. */
  lemma {:induction false} SkipPassing(specs: seq<DidSpec>, raw: seq<byte>, k: nat)
    requires raw != [] && k <= |specs| && PassesUpTo(specs, raw, k)
    ensures Offset(specs, raw, k) <= |raw|
    ensures var whole, part := ParseRecords(specs, 0, raw, 1), ParseRecords(specs, k, raw, Offset(specs, raw, k));
            if part.Success? then whole.Success? else whole == part
  {
    if k != 0 {
      SkipPassing(specs, raw, k - 1);
      assert Passes(specs, raw, k - 1);
      PassingStep(specs, k - 1, raw, Offset(specs, raw, k - 1));
    }
  }

  lemma PassingStep(specs: seq<DidSpec>, i: nat, raw: seq<byte>, pos: nat)
    requires i < |specs| && Fits(specs[i], raw, pos)
    ensures var here := ParseRecords(specs, i, raw, pos);
            var later := ParseRecords(specs, i + 1, raw, End(specs[i], raw, pos));
            if later.Success? then here.Success? else here == later
  {
  }

  /** The first spec that does not pass decides the error. */
  lemma FirstFailureDecides(specs: seq<DidSpec>, raw: seq<byte>, k: nat)
    requires raw != [] && raw[0] == RESPONSE_SID
    requires k < |specs| && PassesUpTo(specs, raw, k) && !Passes(specs, raw, k)
    ensures ParseTuple(specs, raw) == Failure(FailureAt(specs, raw, k))
  {
    SkipPassing(specs, raw, k);
  }

  lemma {:induction false} FirstFailureExists(specs: seq<DidSpec>, raw: seq<byte>, n: nat) returns (k: nat)
    requires n <= |specs| && !PassesUpTo(specs, raw, n)
    ensures k < n && PassesUpTo(specs, raw, k) && !Passes(specs, raw, k)
  {
    if PassesUpTo(specs, raw, n - 1) {
      k := n - 1;
    } else {
      k := FirstFailureExists(specs, raw, n - 1);
    }
  }

  /** With the right SID, the parser succeeds iff every spec passes, and else the first failure is its error. */
  lemma FailsExactly(specs: seq<DidSpec>, raw: seq<byte>, e: UdsError)
    requires raw != [] && raw[0] == RESPONSE_SID
    ensures ParseTuple(specs, raw).Success? <==> PassesUpTo(specs, raw, |specs|)
    ensures ParseTuple(specs, raw) == Failure(e)
       <==> exists k :: 0 <= k < |specs| && PassesUpTo(specs, raw, k) && !Passes(specs, raw, k)
                        && e == FailureAt(specs, raw, k)
  {
    if PassesUpTo(specs, raw, |specs|) {
      SkipPassing(specs, raw, |specs|);
    } else {
      var k := FirstFailureExists(specs, raw, |specs|);
      FirstFailureDecides(specs, raw, k);
      forall k' | 0 <= k' < |specs| && PassesUpTo(specs, raw, k') && !Passes(specs, raw, k')
        ensures k' == k
      {
        assert k' <= k && k <= k';
      }
    }
  }

  // ----- wildcards

  /** Once a wildcard that is not the last spec passes, the frame is too short for the next spec. */
  lemma EarlyWildcardFails(specs: seq<DidSpec>, raw: seq<byte>, k: nat)
    requires k + 1 < |specs| && specs[k].Wildcard()
    ensures ParseTuple(specs, raw).Failure?
    ensures raw != [] && raw[0] == RESPONSE_SID && PassesUpTo(specs, raw, k + 1)
            ==> ParseTuple(specs, raw) == Failure(InvalidLength(raw))
  {
    if raw != [] && raw[0] == RESPONSE_SID {
      FailsExactly(specs, raw, InvalidLength(raw));
      assert Offset(specs, raw, k + 1) == |raw|;
      assert !Passes(specs, raw, k + 1);
      if PassesUpTo(specs, raw, k + 1) {
        FirstFailureDecides(specs, raw, k + 1);
      }
    }
  }

  // ----- truncation and extension

  /** The records take the frame up to here when no spec is a wildcard. */
  function Total(specs: seq<DidSpec>): nat {
    if specs == [] then 1 else Total(specs[..|specs| - 1]) + 2 + specs[|specs| - 1].len
  }

  lemma {:induction false} FixedOffset(specs: seq<DidSpec>, raw: seq<byte>, k: nat)
    requires k <= |specs| && !HasWildcard(specs)
    ensures Offset(specs, raw, k) == Total(specs[..k])
    ensures k < |specs| ==> Total(specs[..k]) < Total(specs[..k + 1])
  {
    if k != 0 {
      FixedOffset(specs, raw, k - 1);
      assert specs[..k][..k - 1] == specs[..k - 1];
    }
    if k < |specs| {
      assert specs[..k + 1][..k] == specs[..k];
    }
  }

  /** Cutting a frame that fixed-length specs accept: too short to hold the records, or the same records. */
  lemma TruncationAndExtension(specs: seq<DidSpec>, raw: seq<byte>, n: nat, more: seq<byte>)
    requires !HasWildcard(specs) && ParseTuple(specs, raw).Success?
    requires n <= |raw|
    ensures ParseTuple(specs, raw + more) == ParseTuple(specs, raw)
    ensures Total(specs) <= |raw|
    ensures ParseTuple(specs, raw[..n])
         == if n < Total(specs) then Failure(InvalidLength(raw[..n])) else ParseTuple(specs, raw)
  {
    var records := ParseTuple(specs, raw).value;
    ParsesExactly(specs, raw, records);
    ParsesExactly(specs, raw + more, records);
    AnswersLength(specs, records);
    if n < Total(specs) {
      TooShort(specs, raw, n);
    } else {
      assert Encode(records) <= raw[..n];
      ParsesExactly(specs, raw[..n], records);
    }
  }

  lemma {:induction false} AnswersLength(specs: seq<DidSpec>, records: seq<DataRecord>)
    requires !HasWildcard(specs) && Answers(records, specs)
    ensures |Encode(records)| == Total(specs)
  {
    if specs != [] {
      var last := |specs| - 1;
      AnswersLength(specs[..last], records[..last]);
      assert records == records[..last] + [records[last]];
      EncodeAppend(records[..last], records[last]);
    }
  }

  lemma {:induction false} EncodeAppend(records: seq<DataRecord>, record: DataRecord)
    ensures EncodeRecords(records + [record]) == EncodeRecords(records) + EncodeDid(record.dataIdentifier) + record.data
  {
    if records != [] {
      assert (records + [record])[1..] == records[1..] + [record];
      EncodeAppend(records[1..], record);
    }
  }

  lemma TooShort(specs: seq<DidSpec>, raw: seq<byte>, n: nat)
    requires !HasWildcard(specs) && ParseTuple(specs, raw).Success?
    requires n <= |raw| && n < Total(specs)
    ensures ParseTuple(specs, raw[..n]) == Failure(InvalidLength(raw[..n]))
  {
    var short := raw[..n];
    if n > 0 {
      FailsExactly(specs, raw, ResponseEmpty);
      assert specs[..|specs|] == specs;
      FixedOffset(specs, short, |specs|);
      if PassesUpTo(specs, short, |specs|) {
        SkipPassing(specs, short, |specs|);
      }
      var k := FirstFailureExists(specs, short, |specs|);
      FixedOffset(specs, short, k);
      FixedOffset(specs, raw, k);
      assert Passes(specs, raw, k);
      FirstFailureDecides(specs, short, k);
    }
  }

  // ----- agreement with the raw read and with the request

  function Identifiers(records: seq<DataRecord>): seq<uint16> {
    seq(|records|, i requires 0 <= i < |records| => records[i].dataIdentifier)
  }

  /** The raw read returns the encoding of the records, and with a wildcard nothing else. */
  lemma RawAgrees(specs: seq<DidSpec>, raw: seq<byte>, records: seq<DataRecord>)
    requires ParseTuple(specs, raw) == Success(records)
    ensures ParseRaw(raw) == Success(ReadDataByIdentifier(Raw(raw[1..])))
    ensures EncodeRecords(records) <= raw[1..]
    ensures HasWildcard(specs) ==> EncodeRecords(records) == raw[1..]
  {
    ParsesExactly(specs, raw, records);
    assert Encode(records)[1..] == EncodeRecords(records);
  }

  /** The records of a response have, in order, the identifiers that the request asked for. */
  lemma ResponseAnswersRequest(specs: seq<DidSpec>, raw: seq<byte>, records: seq<DataRecord>)
    requires ParseTuple(specs, raw) == Success(records)
    ensures DecodeDids(ComposeRequest(Dids(specs))[1..]) == Some(Identifiers(records))
  {
    ParsesExactly(specs, raw, records);
    RequestRoundTrip(Dids(specs));
    assert Identifiers(records) == Dids(specs);
  }

  /** A single wildcard takes everything behind the identifier. */
  lemma SingleWildcard(did: uint16, raw: seq<byte>)
    ensures var r := ParseTuple([DidSpec(did, UINT32_MAX)], raw);
            r.Success? ==>
              && |raw| >= 3 && raw[..3] == [RESPONSE_SID] + EncodeDid(did)
              && r.value == [DataRecord(did, raw[3..])]
  {
    var specs := [DidSpec(did, UINT32_MAX)];
    if ParseTuple(specs, raw).Success? {
      var records := ParseTuple(specs, raw).value;
      ParsesExactly(specs, raw, records);
      assert specs[0].Wildcard();
      assert records == [records[0]];
      assert EncodeRecords(records[1..]) == [];
      assert raw == [RESPONSE_SID] + EncodeDid(did) + records[0].data;
    }
  }
}
