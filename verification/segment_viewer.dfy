/** The read loop of the tier-2 segment file viewer. The file is given as its
    contents `data`; the cursor that `f.read` advances is the index `pos`. */
module SegmentViewer {
  import opened U64Codec
  import opened SegmentRecords

  /** `f.read(k)` with the cursor at `pos`: the next `k` bytes, or all that
      is left when the end of file comes first. A `k` above MAX_READ does not
      fit the C size `f.read` takes, and the call raises (`None`). */
  function ReadAt(data: seq<byte>, pos: nat, k: nat): (r: Option<seq<byte>>)
    requires pos <= |data|
    ensures r.Some? <==> k <= MAX_READ
    ensures r.Some? ==> |r.value| <= k && pos + |r.value| <= |data|
    ensures r.Some? ==> r.value == data[pos..pos + |r.value|]
    ensures r.Some? && |r.value| < k ==> pos + |r.value| == |data|
  {
    if k > MAX_READ then None
    else if pos + k <= |data| then Some(data[pos..pos + k])
    else Some(data[pos..])
  }

  /** What the loop logs from cursor `pos` on, having counted `count`
      records: each pass reads a header, unpacks it and reads the payload.
      Counting stops at a positive limit that was not already passed. */
  function DecodeAt(data: seq<byte>, pos: nat, maxEvents: int, count: nat): (r: Scan)
    requires pos <= |data|
    decreases |data| - pos
  {
    var header := ReadAt(data, pos, U64_SIZE).value;
    if |header| == 0 then Scan([], CleanEnd)
    else match UnpackU64(header)
      case None => Scan([], ShortHeader)
      case Some(numBytes) =>
        match ReadAt(data, pos + U64_SIZE, numBytes)
        case None => Scan([], ReadOverflow)
        case Some(event) =>
          var rec := Record(numBytes, event);
          if 0 < maxEvents <= count + 1 then Scan([rec], HitMax)
          else
            var tail := DecodeAt(data, pos + U64_SIZE + |event|, maxEvents, count + 1);
            Scan([rec] + tail.records, tail.outcome)
  }

  /** Reading from a cursor is reading the unread suffix: the loop's reads
      produce what `DecodeFrom` says. */
  lemma {:induction false} DecodeAtSuffix(data: seq<byte>, pos: nat, maxEvents: int, count: nat)
    requires pos <= |data|
    ensures DecodeAt(data, pos, maxEvents, count) == DecodeFrom(data[pos..], maxEvents, count)
    decreases |data| - pos
  {
    if |data| - pos >= U64_SIZE {
      var rest := data[pos..];
      var header := ReadAt(data, pos, U64_SIZE).value;
      assert header == rest[..U64_SIZE];
      var numBytes := BE64(header);
      if numBytes <= MAX_READ {
        var end := RecordEnd(rest);
        var event := ReadAt(data, pos + U64_SIZE, numBytes).value;
        var next := pos + U64_SIZE + |event|;
        assert end == U64_SIZE + |event|;
        assert event == rest[U64_SIZE..end];
        assert rest[end..] == data[next..];
        var rec := Record(numBytes, event);
        var tail := DecodeAt(data, next, maxEvents, count + 1);
        assert DecodeAt(data, pos, maxEvents, count)
            == if 0 < maxEvents <= count + 1 then Scan([rec], HitMax)
               else Scan([rec] + tail.records, tail.outcome);
        if !(0 < maxEvents <= count + 1) {
          DecodeAtSuffix(data, next, maxEvents, count + 1);
        }
      }
    }
  }

  /** The records already logged followed by what the rest of the loop logs. */
  function After(logged: seq<Record>, rest: Scan): Scan
  {
    Scan(logged + rest.records, rest.outcome)
  }

  /** One pass of the loop that unpacked a header at `pos`: the record it
      reads is logged after `logged`, and then either the limit stops the
      loop or it goes on at the byte after the payload. */
  lemma Advance(data: seq<byte>, pos: nat, end: nat, maxEvents: int, count: nat, logged: seq<Record>,
                numBytes: u64, event: seq<byte>)
    requires pos + U64_SIZE <= |data|
    requires UnpackU64(ReadAt(data, pos, U64_SIZE).value) == Some(numBytes)
    requires ReadAt(data, pos + U64_SIZE, numBytes) == Some(event)
    requires end == pos + U64_SIZE + |event|
    ensures end <= |data|
    ensures var recs := logged + [Record(numBytes, event)];
      After(logged, DecodeAt(data, pos, maxEvents, count))
        == if 0 < maxEvents <= count + 1 then Scan(recs, HitMax)
           else After(recs, DecodeAt(data, end, maxEvents, count + 1))
  {
    var rec := Record(numBytes, event);
    var next := DecodeAt(data, end, maxEvents, count + 1);
    assert DecodeAt(data, pos, maxEvents, count)
        == if 0 < maxEvents <= count + 1 then Scan([rec], HitMax)
           else Scan([rec] + next.records, next.outcome);
    if !(0 < maxEvents <= count + 1) {
      SeqAppendAssoc(logged, [rec], next.records);
    }
  }

  /** A pass whose header is not 8 bytes long ends the loop: cleanly when
      it is empty, with the unpack error otherwise. */
  lemma Stop(data: seq<byte>, pos: nat, maxEvents: int, count: nat, logged: seq<Record>)
    requires pos <= |data| && |ReadAt(data, pos, U64_SIZE).value| != U64_SIZE
    ensures After(logged, DecodeAt(data, pos, maxEvents, count))
         == Scan(logged, if pos == |data| then CleanEnd else ShortHeader)
  {
    assert logged + [] == logged;
  }

  /** A pass whose header declares more than `f.read` takes ends the loop
      before the record is counted. */
  lemma Overflow(data: seq<byte>, pos: nat, maxEvents: int, count: nat, logged: seq<Record>, numBytes: u64)
    requires pos <= |data|
    requires UnpackU64(ReadAt(data, pos, U64_SIZE).value) == Some(numBytes) && numBytes > MAX_READ
    ensures After(logged, DecodeAt(data, pos, maxEvents, count)) == Scan(logged, ReadOverflow)
  {
    assert logged + [] == logged;
  }

  /** What the loop logs from the start of the file is what `Decode` says,
      and the limit bounds it. */
  lemma Finish(data: seq<byte>, maxEvents: int, records: seq<Record>, outcome: Outcome)
    requires Scan(records, outcome) == DecodeAt(data, 0, maxEvents, 0)
    ensures Scan(records, outcome) == Decode(data, maxEvents)
    ensures 0 < maxEvents ==> |records| <= maxEvents
    ensures outcome == HitMax <==> 0 < maxEvents && |records| == maxEvents
    ensures data == [] ==> outcome == CleanEnd && records == []
  {
    DecodeAtSuffix(data, 0, maxEvents, 0);
    assert data[0..] == data;
    LimitBound(data, maxEvents, 0);
  }

  /** Reads `data` record by record until end of file, until a positive
      `maxEvents` records have been counted, until a 1 to 7 byte header
      makes the '>Q' unpack fail, or until a header declares more bytes than
      `f.read` takes. `records` are the (num_bytes, event) pairs
      the loop logs, in order; `totalRecords` and `totalBytes` are its two
      counters when it stops. */
  method Parse(data: seq<byte>, maxEvents: int)
    returns (records: seq<Record>, totalRecords: nat, totalBytes: nat, outcome: Outcome)
    ensures Scan(records, outcome) == Decode(data, maxEvents)
    ensures totalRecords == |records| && totalBytes == TotalDeclared(records)
    ensures 0 < maxEvents ==> totalRecords <= maxEvents
    ensures outcome == HitMax <==> 0 < maxEvents && totalRecords == maxEvents
    ensures data == [] ==> outcome == CleanEnd && totalRecords == 0 && totalBytes == 0
  {
    totalRecords, totalBytes := 0, 0;
    records := [];
    var pos: nat := 0;
    ghost var whole := DecodeAt(data, 0, maxEvents, 0);
    assert After(records, whole) == whole;
    while true
      invariant pos <= |data|
      invariant totalRecords == |records| && totalBytes == TotalDeclared(records)
      invariant 0 < maxEvents ==> totalRecords < maxEvents
      invariant whole == After(records, DecodeAt(data, pos, maxEvents, totalRecords))
      decreases |data| - pos
    {
      var header := ReadAt(data, pos, U64_SIZE).value;
      if |header| == 0 {
        outcome := CleanEnd;
        Stop(data, pos, maxEvents, totalRecords, records);
        break;
      }
      var unpacked := UnpackU64(header);
      if unpacked.None? {
        outcome := ShortHeader;
        Stop(data, pos, maxEvents, totalRecords, records);
        break;
      }
      var numBytes := unpacked.value;
      var read := ReadAt(data, pos + U64_SIZE, numBytes);
      if read.None? {
        outcome := ReadOverflow;
        Overflow(data, pos, maxEvents, totalRecords, records, numBytes);
        break;
      }
      var event := read.value;
      var end := pos + U64_SIZE + |event|;
      Advance(data, pos, end, maxEvents, totalRecords, records, numBytes, event);
      TotalDeclaredSnoc(records, Record(numBytes, event));
      pos := end;
      records := records + [Record(numBytes, event)];
      totalRecords := totalRecords + 1;
      totalBytes := totalBytes + numBytes;
      if 0 < maxEvents <= totalRecords {
        outcome := HitMax;
        break;
      }
    }
    Finish(data, maxEvents, records, outcome);
  }
}
