/** The record layout of a tier-2 segment file and what reading it yields.
    A file is a run of records, each an 8-byte '>Q' length followed by that
    many payload bytes. `DecodeFrom` says, as a function, what the viewer's
    read loop reports for a given file; the lemmas below say what that is. */
module SegmentRecords {
  import opened U64Codec

  /** One pass of the read loop: the length the header declared and the
      payload bytes that `f.read` actually returned. */
  datatype Record = Record(declared: u64, payload: seq<byte>)

  /** The largest size `f.read` takes: its argument is a C `Py_ssize_t`, so
      a larger `num_bytes` raises `OverflowError` before any byte is read. */
  const MAX_READ: nat := 0x7FFF_FFFF_FFFF_FFFF

  /** How the read loop stopped. */
  datatype Outcome =
    | CleanEnd      // the header read returned no bytes: end of file
    | HitMax        // the record count reached a positive `max_events`
    | ShortHeader   // 1 to 7 header bytes: '>Q' unpack raised, and nothing catches it
    | ReadOverflow  // a header declared more than MAX_READ bytes: the payload
                    // read raised OverflowError, and nothing catches it

  /** The records the loop went through, in file order, and how it stopped. */
  datatype Scan = Scan(records: seq<Record>, outcome: Outcome)

  /** A record as the loop can produce it: no more payload was read than
      its header declared. */
  predicate WellSized(r: Record)
  {
    |r.payload| <= r.declared
  }

  /** The payload ended early: the file ran out before the declared length. */
  predicate Truncated(r: Record)
  {
    |r.payload| < r.declared
  }

  /** Where the first record of `rest` ends: after its 8-byte header and the
      declared number of payload bytes, or at the end of the file if fewer
      are left. */
  function RecordEnd(rest: seq<byte>): (end: nat)
    requires |rest| >= U64_SIZE
    ensures U64_SIZE <= end <= |rest|
    ensures end - U64_SIZE <= BE64(rest[..U64_SIZE])
    ensures end < |rest| ==> end - U64_SIZE == BE64(rest[..U64_SIZE])
  {
    var numBytes := BE64(rest[..U64_SIZE]);
    if U64_SIZE + numBytes <= |rest| then U64_SIZE + numBytes else |rest|
  }

  /** What the read loop does with the unread part `rest` of the file, given
      `max_events` and the number `count` of records already counted: no
      byte left is a clean end, 1 to 7 bytes a failed header, a header above
      MAX_READ a failed payload read (the record is not counted), and
      otherwise one record (header value, payload bytes up to the declared
      length or the end of file) after which a positive limit may stop the
      loop. */
  function DecodeFrom(rest: seq<byte>, maxEvents: int, count: nat): (r: Scan)
    ensures forall i :: 0 <= i < |r.records| ==> WellSized(r.records[i])
    decreases |rest|
  {
    if |rest| == 0 then Scan([], CleanEnd)
    else if |rest| < U64_SIZE then Scan([], ShortHeader)
    else if BE64(rest[..U64_SIZE]) > MAX_READ then Scan([], ReadOverflow)
    else
      var end := RecordEnd(rest);
      var rec := Record(BE64(rest[..U64_SIZE]), rest[U64_SIZE..end]);
      if 0 < maxEvents <= count + 1 then Scan([rec], HitMax)
      else
        var tail := DecodeFrom(rest[end..], maxEvents, count + 1);
        Scan([rec] + tail.records, tail.outcome)
  }

  /** What the viewer reports for a whole file: at a clean end the records
      account for every byte of it, and a positive limit is never exceeded. */
  function Decode(data: seq<byte>, maxEvents: int): (r: Scan)
    ensures r.outcome == CleanEnd ==> Framing(r.records) == data
    ensures 0 < maxEvents ==> |r.records| <= maxEvents
  {
    DecodeFraming(data, maxEvents, 0);
    LimitBound(data, maxEvents, 0);
    DecodeFrom(data, maxEvents, 0)
  }

  /** `total_bytes`: the sum of the DECLARED lengths. */
  function TotalDeclared(recs: seq<Record>): nat
  {
    if recs == [] then 0
    else TotalDeclared(recs[..|recs| - 1]) + recs[|recs| - 1].declared
  }

  /** The bytes the loop consumed for one record: its header and its payload. */
  function Frame(r: Record): (bytes: seq<byte>)
    ensures |bytes| == U64_SIZE + |r.payload|
  {
    PackU64(r.declared) + r.payload
  }

  /** The bytes the loop consumed for a run of records. */
  function Framing(recs: seq<Record>): seq<byte>
  {
    if recs == [] then [] else Frame(recs[0]) + Framing(recs[1..])
  }

  /** The writer's side: a payload as one record, `pack('>Q', len(p)) + p`. */
  function EncodeRecord(p: seq<byte>): (bytes: seq<byte>)
    requires |p| < U64_BOUND
    ensures |bytes| == U64_SIZE + |p|
  {
    PackU64(|p|) + p
  }

  /** Payloads the reader can take back: none longer than `f.read` accepts. */
  predicate Encodable(ps: seq<seq<byte>>)
  {
    forall i :: 0 <= i < |ps| ==> |ps[i]| <= MAX_READ
  }

  /** A segment file holding the payloads `ps`, in order. */
  function EncodeAll(ps: seq<seq<byte>>): seq<byte>
    requires Encodable(ps)
  {
    if ps == [] then [] else EncodeRecord(ps[0]) + EncodeAll(ps[1..])
  }

  /** The complete records of the payloads `ps`. */
  function RecordsOf(ps: seq<seq<byte>>): (recs: seq<Record>)
    requires Encodable(ps)
    ensures |recs| == |ps|
  {
    if ps == [] then [] else [Record(|ps[0]|, ps[0])] + RecordsOf(ps[1..])
  }

  /** Sum of the payload lengths of `ps`. */
  function TotalSize(ps: seq<seq<byte>>): nat
  {
    if ps == [] then 0 else TotalSize(ps[..|ps| - 1]) + |ps[|ps| - 1]|
  }

  // ---------------------------------------------------------------------------
  // Framing: where the records of a scan lie in the file
  // ---------------------------------------------------------------------------

  /** The header of a record starts right after the previous payload, so the
      records of a scan tile a prefix of the file. At a clean end they tile
      all of it; a short header leaves 1 to 7 unconsumed bytes; a failed
      payload read leaves at least the 8 bytes of its header. */
  lemma {:induction false} DecodeFraming(rest: seq<byte>, maxEvents: int, count: nat)
    ensures var r := DecodeFrom(rest, maxEvents, count);
      && Framing(r.records) <= rest
      && (r.outcome == CleanEnd ==> Framing(r.records) == rest)
      && (r.outcome == ShortHeader ==> 0 < |rest| - |Framing(r.records)| < U64_SIZE)
      && (r.outcome == ReadOverflow ==> |rest| - |Framing(r.records)| >= U64_SIZE)
    decreases |rest|
  {
    if |rest| >= U64_SIZE && BE64(rest[..U64_SIZE]) <= MAX_READ {
      var r := DecodeFrom(rest, maxEvents, count);
      var end := RecordEnd(rest);
      var rec := Record(BE64(rest[..U64_SIZE]), rest[U64_SIZE..end]);
      FirstFrame(rest);
      if 0 < maxEvents <= count + 1 {
        assert r.records == [rec] + [];
        FramingCons(rec, []);
      } else {
        var tail := DecodeFrom(rest[end..], maxEvents, count + 1);
        assert r.records == [rec] + tail.records;
        DecodeFraming(rest[end..], maxEvents, count + 1);
        FramingCons(rec, tail.records);
        PrefixAppend(rest[..end], Framing(tail.records), rest[end..]);
        SplitAt(rest, end);
      }
    }
  }

  /** The first record of `rest`, encoded again, is the prefix it was read from. */
  lemma FirstFrame(rest: seq<byte>)
    requires |rest| >= U64_SIZE
    ensures Frame(Record(BE64(rest[..U64_SIZE]), rest[U64_SIZE..RecordEnd(rest)])) == rest[..RecordEnd(rest)]
  {
    PackBE64(rest[..U64_SIZE]);
  }

  lemma FramingCons(rec: Record, recs: seq<Record>)
    ensures Framing([rec] + recs) == Frame(rec) + Framing(recs)
  {
    assert ([rec] + recs)[1..] == recs;
  }

  /** Only the last record of a scan can have a short payload, and then it
      ends exactly at the end of the file. */
  lemma {:induction false} OnlyLastTruncated(rest: seq<byte>, maxEvents: int, count: nat, i: nat)
    requires i < |DecodeFrom(rest, maxEvents, count).records|
    requires Truncated(DecodeFrom(rest, maxEvents, count).records[i])
    ensures var r := DecodeFrom(rest, maxEvents, count);
      i == |r.records| - 1 && Framing(r.records) == rest
    decreases |rest|
  {
    var r := DecodeFrom(rest, maxEvents, count);
    var end := RecordEnd(rest);
    var rec := r.records[0];
    FirstFrame(rest);
    if 0 < maxEvents <= count + 1 {
      assert r.records == [rec] + [];
      FramingCons(rec, []);
      assert end == |rest| && rest[..end] == rest;
    } else {
      var tail := DecodeFrom(rest[end..], maxEvents, count + 1);
      assert r.records == [rec] + tail.records;
      FramingCons(rec, tail.records);
      if i == 0 {
        assert end == |rest| && rest[end..] == [];
      } else {
        assert tail.records[i - 1] == r.records[i];
        OnlyLastTruncated(rest[end..], maxEvents, count + 1, i - 1);
      }
      SplitAt(rest, end);
    }
  }

  // ---------------------------------------------------------------------------
  // The max_events limit
  // ---------------------------------------------------------------------------

  /** A positive `max_events` is never exceeded, and the loop stops on it
      exactly when the count reaches it; otherwise it never stops on it. */
  lemma {:induction false} LimitBound(rest: seq<byte>, maxEvents: int, count: nat)
    requires maxEvents <= 0 || count < maxEvents
    ensures var r := DecodeFrom(rest, maxEvents, count);
      && (r.outcome == HitMax <==> 0 < maxEvents && count + |r.records| == maxEvents)
      && (0 < maxEvents ==> count + |r.records| <= maxEvents)
    decreases |rest|
  {
    if |rest| >= U64_SIZE && !(0 < maxEvents <= count + 1) {
      LimitBound(rest[RecordEnd(rest)..], maxEvents, count + 1);
    }
  }

  /** A `max_events` of zero or below means no limit: neither its value nor
      the running count changes what is read. */
  lemma {:induction false} NoLimit(rest: seq<byte>, maxEvents: int, count: nat)
    requires maxEvents <= 0
    ensures DecodeFrom(rest, maxEvents, count) == DecodeFrom(rest, 0, 0)
    decreases |rest|
  {
    if |rest| >= U64_SIZE {
      NoLimit(rest[RecordEnd(rest)..], maxEvents, count + 1);
      NoLimit(rest[RecordEnd(rest)..], 0, 1);
    }
  }

  /** A positive `max_events` cuts the unlimited scan after `max_events`
      records in all (stopping with HitMax), or changes nothing when the file
      has fewer. */
  lemma {:induction false} LimitTruncates(rest: seq<byte>, maxEvents: int, count: nat)
    requires count < maxEvents
    ensures var r, u := DecodeFrom(rest, maxEvents, count), DecodeFrom(rest, 0, count);
      if |u.records| < maxEvents - count then r == u
      else r == Scan(u.records[..maxEvents - count], HitMax)
    decreases |rest|
  {
    if |rest| >= U64_SIZE && BE64(rest[..U64_SIZE]) <= MAX_READ {
      var next := rest[RecordEnd(rest)..];
      var u := DecodeFrom(rest, 0, count);
      var rec := u.records[0];
      if maxEvents == count + 1 {
        assert u.records[..1] == [rec];
      } else {
        LimitTruncates(next, maxEvents, count + 1);
        var ut := DecodeFrom(next, 0, count + 1);
        assert u.records == [rec] + ut.records;
        if |ut.records| >= maxEvents - count - 1 {
          assert u.records[..maxEvents - count] == [rec] + ut.records[..maxEvents - count - 1];
        }
      }
    }
  }

  // ---------------------------------------------------------------------------
  // Reading back what a writer wrote
  // ---------------------------------------------------------------------------

  /** One well-formed record at the front of the file is read back as itself. */
  lemma DecodeStep(p: seq<byte>, tail: seq<byte>, maxEvents: int, count: nat)
    requires |p| <= MAX_READ
    ensures var r := DecodeFrom(EncodeRecord(p) + tail, maxEvents, count);
      if 0 < maxEvents <= count + 1 then r == Scan([Record(|p|, p)], HitMax)
      else
        var t := DecodeFrom(tail, maxEvents, count + 1);
        r == Scan([Record(|p|, p)] + t.records, t.outcome)
  {
    var rest := EncodeRecord(p) + tail;
    assert rest[..U64_SIZE] == PackU64(|p|);
    assert RecordEnd(rest) == U64_SIZE + |p|;
    assert rest[U64_SIZE..U64_SIZE + |p|] == p;
    assert rest[U64_SIZE + |p|..] == tail;
  }

  /** Well-formed records in front of any remainder are read back one by one,
      in order, as long as the limit is not reached among them. */
  lemma {:induction false} DecodeAfterRecords(ps: seq<seq<byte>>, tail: seq<byte>, maxEvents: int, count: nat, after: nat)
    requires Encodable(ps) && after == count + |ps|
    requires maxEvents <= 0 || after < maxEvents
    ensures var t := DecodeFrom(tail, maxEvents, after);
      DecodeFrom(EncodeAll(ps) + tail, maxEvents, count) == Scan(RecordsOf(ps) + t.records, t.outcome)
  {
    if ps != [] {
      EncodableTail(ps);
      var more := EncodeAll(ps[1..]) + tail;
      var rec := Record(|ps[0]|, ps[0]);
      var t := DecodeFrom(tail, maxEvents, after);
      var x := DecodeFrom(more, maxEvents, count + 1);
      calc {
        DecodeFrom(EncodeAll(ps) + tail, maxEvents, count);
        { assert EncodeAll(ps) == EncodeRecord(ps[0]) + EncodeAll(ps[1..]);
          SeqAppendAssoc(EncodeRecord(ps[0]), EncodeAll(ps[1..]), tail); }
        DecodeFrom(EncodeRecord(ps[0]) + more, maxEvents, count);
        { DecodeStep(ps[0], more, maxEvents, count); }
        Scan([rec] + x.records, x.outcome);
        { DecodeAfterRecords(ps[1..], tail, maxEvents, count + 1, after);
          ConsScan(rec, x, RecordsOf(ps[1..]), t); }
        Scan([rec] + RecordsOf(ps[1..]) + t.records, t.outcome);
        Scan(RecordsOf(ps) + t.records, t.outcome);
      }
    } else {
      assert EncodeAll(ps) + tail == tail;
      assert RecordsOf(ps) + DecodeFrom(tail, maxEvents, count).records == DecodeFrom(tail, maxEvents, count).records;
    }
  }

  /** Per-record sums agree: `total_bytes` of complete records is the sum of
      the payload lengths. */
  lemma {:induction false} TotalDeclaredOfComplete(ps: seq<seq<byte>>)
    requires Encodable(ps)
    ensures TotalDeclared(RecordsOf(ps)) == TotalSize(ps)
  {
    if ps != [] {
      var init := ps[..|ps| - 1];
      TotalDeclaredOfComplete(init);
      assert ps == init + [ps[|ps| - 1]];
      RecordsOfSnoc(init, ps[|ps| - 1]);
      assert RecordsOf(ps)[..|ps| - 1] == RecordsOf(init);
    }
  }

  lemma {:induction false} RecordsOfSnoc(ps: seq<seq<byte>>, p: seq<byte>)
    requires Encodable(ps) && |p| <= MAX_READ
    ensures RecordsOf(ps + [p]) == RecordsOf(ps) + [Record(|p|, p)]
  {
    if ps != [] {
      assert (ps + [p])[1..] == ps[1..] + [p];
      RecordsOfSnoc(ps[1..], p);
    } else {
      assert ps + [p] == [p];
    }
  }

  /** Round trip: a file written as `pack('>Q', len(p)) + p` for each payload
      is read back as exactly those payloads, in order, each complete, ending
      cleanly, with `total_records == |ps|` and `total_bytes` the sum of their
      sizes. */
  lemma RoundTrip(ps: seq<seq<byte>>, maxEvents: int)
    requires Encodable(ps)
    requires maxEvents <= 0 || |ps| < maxEvents
    ensures Decode(EncodeAll(ps), maxEvents) == Scan(RecordsOf(ps), CleanEnd)
    ensures TotalDeclared(RecordsOf(ps)) == TotalSize(ps)
  {
    DecodeAfterRecords(ps, [], maxEvents, 0, |ps|);
    assert EncodeAll(ps) + [] == EncodeAll(ps);
    assert RecordsOf(ps) + [] == RecordsOf(ps);
    TotalDeclaredOfComplete(ps);
  }

  /** 1 to 7 bytes after the last complete record make the loop stop with the
      unpack error, after all complete records were counted. */
  lemma TrailingShortHeader(ps: seq<seq<byte>>, trailer: seq<byte>, maxEvents: int)
    requires Encodable(ps)
    requires 0 < |trailer| < U64_SIZE
    requires maxEvents <= 0 || |ps| < maxEvents
    ensures Decode(EncodeAll(ps) + trailer, maxEvents) == Scan(RecordsOf(ps), ShortHeader)
  {
    DecodeAfterRecords(ps, trailer, maxEvents, 0, |ps|);
    assert RecordsOf(ps) + [] == RecordsOf(ps);
  }

  /** A last payload shorter than its header declares is accepted and counted;
      `total_bytes` grows by the declared length, more than was read, and the
      next header read finds the end of file. */
  lemma TruncatedFinalPayload(ps: seq<seq<byte>>, declared: u64, partial: seq<byte>, maxEvents: int)
    requires Encodable(ps)
    requires |partial| < declared <= MAX_READ
    requires maxEvents <= 0 || |ps| < maxEvents
    ensures var r := Decode(EncodeAll(ps) + PackU64(declared) + partial, maxEvents);
      && r == Scan(RecordsOf(ps) + [Record(declared, partial)],
                   if maxEvents == |ps| + 1 then HitMax else CleanEnd)
      && TotalDeclared(r.records) == TotalSize(ps) + declared
  {
    DecodeAfterTruncated(ps, declared, partial, maxEvents);
    TotalDeclaredSnoc(RecordsOf(ps), Record(declared, partial));
    TotalDeclaredOfComplete(ps);
  }

  lemma DecodeAfterTruncated(ps: seq<seq<byte>>, declared: u64, partial: seq<byte>, maxEvents: int)
    requires Encodable(ps)
    requires |partial| < declared <= MAX_READ
    requires maxEvents <= 0 || |ps| < maxEvents
    ensures Decode(EncodeAll(ps) + PackU64(declared) + partial, maxEvents)
         == Scan(RecordsOf(ps) + [Record(declared, partial)],
                 if maxEvents == |ps| + 1 then HitMax else CleanEnd)
  {
    var last := PackU64(declared) + partial;
    var t := DecodeFrom(last, maxEvents, |ps|);
    calc {
      Decode(EncodeAll(ps) + PackU64(declared) + partial, maxEvents);
      { SeqAppendAssoc(EncodeAll(ps), PackU64(declared), partial); }
      DecodeFrom(EncodeAll(ps) + last, maxEvents, 0);
      { DecodeAfterRecords(ps, last, maxEvents, 0, |ps|); }
      Scan(RecordsOf(ps) + t.records, t.outcome);
      { DecodeTruncatedLast(declared, partial, maxEvents, |ps|); }
      Scan(RecordsOf(ps) + [Record(declared, partial)], if maxEvents == |ps| + 1 then HitMax else CleanEnd);
    }
  }

  lemma TotalDeclaredSnoc(recs: seq<Record>, rec: Record)
    ensures TotalDeclared(recs + [rec]) == TotalDeclared(recs) + rec.declared
  {
    assert (recs + [rec])[..|recs|] == recs;
  }

  /** A lone header followed by fewer payload bytes than it declares. */
  lemma DecodeTruncatedLast(declared: u64, partial: seq<byte>, maxEvents: int, count: nat)
    requires |partial| < declared <= MAX_READ
    ensures DecodeFrom(PackU64(declared) + partial, maxEvents, count)
         == Scan([Record(declared, partial)], if 0 < maxEvents <= count + 1 then HitMax else CleanEnd)
  {
    var last := PackU64(declared) + partial;
    assert last[..U64_SIZE] == PackU64(declared);
    assert RecordEnd(last) == |last|;
    assert last[U64_SIZE..|last|] == partial;
    assert last[|last|..] == [];
  }

  /** A file holding the record for "hi" followed by three stray bytes yields
      the one event and then stops on the unpack error. */
  lemma HiThenStrayBytes()
    ensures var hi: seq<byte> := [0x68, 0x69];
      Decode(PackU64(2) + hi + [1, 2, 3], 0) == Scan([Record(2, hi)], ShortHeader)
  {
    var hi: seq<byte> := [0x68, 0x69];
    assert EncodeAll([hi]) == PackU64(2) + hi;
    TrailingShortHeader([hi], [1, 2, 3], 0);
  }

  /** A header declaring more than MAX_READ bytes after complete records:
      those records are counted, and the payload read then raises, so the
      oversized record is neither counted nor added to `total_bytes`,
      whatever follows it. */
  lemma OverflowingHeader(ps: seq<seq<byte>>, declared: u64, more: seq<byte>, maxEvents: int)
    requires Encodable(ps)
    requires declared > MAX_READ
    requires maxEvents <= 0 || |ps| < maxEvents
    ensures Decode(EncodeAll(ps) + PackU64(declared) + more, maxEvents) == Scan(RecordsOf(ps), ReadOverflow)
  {
    var last := PackU64(declared) + more;
    assert last[..U64_SIZE] == PackU64(declared);
    assert DecodeFrom(last, maxEvents, |ps|) == Scan([], ReadOverflow);
    SeqAppendAssoc(EncodeAll(ps), PackU64(declared), more);
    DecodeAfterRecords(ps, last, maxEvents, 0, |ps|);
    assert RecordsOf(ps) + [] == RecordsOf(ps);
  }

  /** A file made of one all-ones header: the declared length 2^64 - 1 is
      too large for `f.read`, so nothing is counted. */
  lemma AllOnesHeader()
    ensures Decode([0xFF, 0xFF, 0xFF, 0xFF, 0xFF, 0xFF, 0xFF, 0xFF], 0) == Scan([], ReadOverflow)
  {
  }

  // ---------------------------------------------------------------------------
  // Sequence helpers: generic facts the proofs above call by name
  // ---------------------------------------------------------------------------

  lemma SplitAt<T>(s: seq<T>, k: nat)
    requires k <= |s|
    ensures s[..k] + s[k..] == s
  {
  }

  lemma PrefixAppend<T>(a: seq<T>, b: seq<T>, c: seq<T>)
    requires b <= c
    ensures a + b <= a + c
  {
  }

  lemma SeqAppendAssoc<T>(a: seq<T>, b: seq<T>, c: seq<T>)
    ensures a + (b + c) == (a + b) + c
  {
  }

  lemma ConsScan(rec: Record, x: Scan, recs: seq<Record>, t: Scan)
    requires x == Scan(recs + t.records, t.outcome)
    ensures Scan([rec] + x.records, x.outcome) == Scan([rec] + recs + t.records, t.outcome)
  {
    SeqAppendAssoc([rec], recs, t.records);
  }

  lemma EncodableTail(ps: seq<seq<byte>>)
    requires Encodable(ps) && ps != []
    ensures |ps[0]| <= MAX_READ && Encodable(ps[1..])
  {
  }
}
