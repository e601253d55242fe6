# Tier-2 segment file viewer, modelled in Dafny

`scripts/view_pravega_segment_file.py` prints the events stored in a Pravega
segment file on tier 2. Such a file is a run of records. Each record is an
8-byte unsigned big-endian length (`struct.unpack('>Q', …)`) followed by that
many payload bytes. The script's `while True` loop does the following:

- reads a header with `f.read(8)` and stops on an empty read;
- unpacks the header and reads the payload with `f.read(num_bytes)`;
- counts the record in `total_records` and adds the declared length to `total_bytes`;
- stops once a positive `--max_events` is reached.

This project models that loop and proves what it reports. It has three
modules:

- `U64Codec` (`u64_codec.dfy`) models the '>Q' header.
  - `FromBigEndian` and `ToBigEndian` are the general big-endian value of a
    byte string and its inverse.
  - `BE64` is the 8-byte header value.
  - `PackU64` and `UnpackU64` model `struct.pack` and `struct.unpack`.
  - `UnpackU64` gives `None` for any buffer that is not 8 bytes long. That is
    where Python raises `struct.error`.
- `SegmentRecords` (`segment_records.dfy`) is the specification of the
  reader.
  - `DecodeFrom(rest, maxEvents, count)` is what the loop logs from the unread
    part `rest` of the file, after `count` records were counted.
  - The result is a `Scan`: the `(num_bytes, event)` records and the way the
    loop stopped. `CleanEnd` is an empty header read, `HitMax` is the
    `max_events` stop, `ShortHeader` is a 1 to 7 byte header whose unpack
    raises, and `ReadOverflow` is a header whose length `f.read` refuses.
  - The module also holds a writer (`EncodeAll`, `pack('>Q', len(p)) + p`
    per payload) and the lemmas about framing, the limit, round trips and
    truncated files.
- `SegmentViewer` (`segment_viewer.dfy`) is the loop itself.
  - `Parse` is a method with a cursor `pos`, the two counters and the list of
    logged records.
  - `f.read` is `ReadAt`, a read at the cursor. It returns fewer bytes than
    asked only at end of file. A size above `MAX_READ` (2^63 - 1, the largest
    C `Py_ssize_t`) makes it raise `OverflowError`, given as `None`.
  - `Parse` is proved to produce exactly `Decode(data, maxEvents)`, the
    specification, with `total_records == |records|` and `total_bytes` the
    sum of the declared lengths.
  - `DecodeAt` is the loop's reads written as a recursive function.
    `DecodeAtSuffix` proves that it agrees with `DecodeFrom`.

Some behaviours of the script are modelled exactly as the code has them:

- A payload cut short by the end of the file is accepted when its declared
  length is at most 2^63 - 1. It is counted with its declared length, not
  its actual length, and the next header read finds the end of file
  (`TruncatedFinalPayload`, `OnlyLastTruncated`).
- A header declaring more than 2^63 - 1 bytes makes `f.read(num_bytes)`
  raise `OverflowError` before the record is counted. Nothing catches it, so
  the script aborts there. The model reports the outcome `ReadOverflow`,
  with the records logged before it (`OverflowingHeader`, `AllOnesHeader`).
- A trailing header of 1 to 7 bytes makes `struct.unpack` raise
  `struct.error`. Only `EOFError` is caught, so the script aborts there
  (`TrailingShortHeader`, `HiThenStrayBytes`). The model reports this as the
  outcome `ShortHeader`, with the records logged before it.
- `max_events` is an unbounded integer, as `argparse` gives it.
  - Any value `<= 0` means no limit (`NoLimit`).
  - A positive value stops the loop right after the record that makes the
    count reach it (`LimitBound`, `LimitTruncates`).

## Model

| member | source | states |
|---|---|---|
| U64Codec.FromBigEndian | scripts/view_pravega_segment_file.py:30 | the big-endian value of k bytes lies below 256^k |
| U64Codec.ToBigEndian | scripts/view_pravega_segment_file.py:30 | the k-byte big-endian representation of n has k bytes and its value is n |
| U64Codec.ToFromBigEndian | scripts/view_pravega_segment_file.py:30 | every byte string is the representation of its own value, so the header decode is one-to-one |
| U64Codec.MostSignificantFirst | scripts/view_pravega_segment_file.py:30 | byte 0 weighs 256^(k-1): the '>' byte order puts the most significant byte first |
| U64Codec.BE64 | scripts/view_pravega_segment_file.py:30 | the length read from an 8-byte header is below 2^64 (unsigned 64-bit) |
| U64Codec.BE64IsBigEndian | scripts/view_pravega_segment_file.py:30 | the header weights 2^56 … 2^0 give the general big-endian value |
| U64Codec.PackU64 | scripts/view_pravega_segment_file.py:30 | `pack('>Q', n)` is 8 bytes long and its header value is n |
| U64Codec.PackBE64 | scripts/view_pravega_segment_file.py:30 | packing the value of any 8-byte header gives that header back |
| U64Codec.UnpackU64 | scripts/view_pravega_segment_file.py:30 | `unpack('>Q', header)` succeeds exactly when the buffer has 8 bytes, and then yields its big-endian value |
| U64Codec.UnpackPack | scripts/view_pravega_segment_file.py:30 | unpacking a packed length gives the length back |
| U64Codec.PackUnpack | scripts/view_pravega_segment_file.py:30 | every 8-byte header unpacks, and packing the result gives the header back |
| SegmentViewer.ReadAt | scripts/view_pravega_segment_file.py:27-31 | `f.read(k)` raises exactly when k exceeds 2^63 - 1; otherwise it returns the bytes at the cursor, at most k, and fewer only when it reaches the end of file |
| SegmentRecords.RecordEnd | scripts/view_pravega_segment_file.py:31 | a record ends after its header plus at most the declared length; it ends early only at the end of file |
| SegmentRecords.DecodeFrom | scripts/view_pravega_segment_file.py:25-36 | no logged record has more payload bytes than its header declared |
| SegmentRecords.Decode | scripts/view_pravega_segment_file.py:21-38 | what the loop reports for a whole file: at a clean end its records, written back, are the whole file, and a positive limit is never exceeded |
| SegmentRecords.DecodeFraming | scripts/view_pravega_segment_file.py:25-31 | each header starts right after the previous payload, so the logged records tile a prefix of the file: all of it at a clean end, all but 1 to 7 bytes on a short header, and at least the 8 header bytes when the payload read raises |
| SegmentRecords.FirstFrame | scripts/view_pravega_segment_file.py:30-31 | the first record, written back as header and payload, is exactly the bytes it was read from |
| SegmentRecords.OnlyLastTruncated | scripts/view_pravega_segment_file.py:31-33 | a record with a short payload is the last one logged, and the records then cover the whole file |
| SegmentRecords.LimitBound | scripts/view_pravega_segment_file.py:35-36 | a positive limit is never exceeded, and the loop stops on it exactly when the count reaches it; a limit <= 0 never stops it |
| SegmentRecords.NoLimit | scripts/view_pravega_segment_file.py:35-36 | with `max_events <= 0`, neither the limit's value nor the running count changes what is read |
| SegmentRecords.LimitTruncates | scripts/view_pravega_segment_file.py:35-36 | a positive limit cuts the unlimited scan to its first `max_events` records with outcome HitMax, or changes nothing when the file holds fewer |
| SegmentRecords.DecodeStep | scripts/view_pravega_segment_file.py:27-36 | a complete record at the front of the file is logged as its own length and payload, before whatever follows |
| SegmentRecords.DecodeAfterRecords | scripts/view_pravega_segment_file.py:25-36 | complete records written in front of any remainder are logged one by one, in order, before what the remainder yields |
| SegmentRecords.TotalDeclaredOfComplete | scripts/view_pravega_segment_file.py:33 | for complete records, `total_bytes` is the sum of the payload sizes |
| SegmentRecords.RoundTrip | scripts/view_pravega_segment_file.py:25-33 | a file written as `pack('>Q', len(p)) + p` per payload, none longer than 2^63 - 1 bytes, is read back as exactly those payloads, in order, ending cleanly, with `total_bytes` their total size |
| SegmentRecords.TrailingShortHeader | scripts/view_pravega_segment_file.py:30-38 | 1 to 7 bytes after the last complete record make the loop stop on the unpack error, after logging every complete record |
| SegmentRecords.DecodeTruncatedLast | scripts/view_pravega_segment_file.py:31-33 | a header declaring at most 2^63 - 1 bytes, followed by fewer bytes than that, is logged as one record holding those bytes, and the loop then ends cleanly |
| SegmentRecords.TruncatedFinalPayload | scripts/view_pravega_segment_file.py:27-33 | a short final payload with a declared length up to 2^63 - 1 is accepted and counted; `total_bytes` grows by the declared length; the next header read ends the file cleanly |
| SegmentRecords.OverflowingHeader | scripts/view_pravega_segment_file.py:30-32 | a header declaring more than 2^63 - 1 bytes after complete records stops the loop on the read error: the complete records are logged and the oversized one is not counted, whatever bytes follow |
| SegmentRecords.AllOnesHeader | scripts/view_pravega_segment_file.py:30-32 | a file of one header with all bits set (length 2^64 - 1) logs nothing and stops on the read error |
| SegmentRecords.HiThenStrayBytes | scripts/view_pravega_segment_file.py:27-38 | the record for "hi" followed by 3 stray bytes yields that one event and then the unpack error |
| SegmentViewer.DecodeAtSuffix | scripts/view_pravega_segment_file.py:25-36 | `DecodeAt`, the loop's reads at a cursor written as a recursive function, gives at every cursor what `DecodeFrom` gives on the unread suffix |
| SegmentViewer.Finish | scripts/view_pravega_segment_file.py:35-36 | what the loop logs from offset 0 is `Decode`, bounded by a positive limit, and stops on HitMax exactly when the count equals the limit |
| SegmentViewer.Parse | scripts/view_pravega_segment_file.py:21-38 | the loop logs exactly `Decode(data, max_events)`, with `total_records` the number of records and `total_bytes` the sum of their declared lengths; it stops on HitMax iff a positive limit was reached; an empty file ends cleanly with both counters 0; a header above 2^63 - 1 stops it with ReadOverflow before that record is counted |

## Left out

- Argument parsing and opening the file (scripts/view_pravega_segment_file.py:11-21) are I/O. The file is the input `data` and `--max_events` the input `maxEvents`.
- The per-event log line with `str(event)[0:print_size]` (line 34) is display only. `Parse` returns the logged `(num_bytes, event)` pairs instead of printing them.
- The final `total_bytes / 1e6` MB report (line 40) is floating-point formatting. It is also not reached when the unpack error aborts the script.
- The `except EOFError` branch (lines 37-38) can never run: `f.read` returns fewer bytes at end of file instead of raising. It has no counterpart in the model.
- Python's exceptions themselves are not modelled. The uncaught `struct.error` is the outcome `ShortHeader`, the uncaught `OverflowError` is `ReadOverflow`, and the script's abort after either is not modelled.
- ReadAt: does not model `MemoryError`. For a size up to 2^63 - 1, `f.read` may fail to allocate its buffer; whether it does depends on the machine's memory, which is outside the model.
- Parse: a header declaring a length the machine cannot allocate may abort the script with `MemoryError`; the model reads such a record as if memory were unlimited.
- DecodeFrom: the same unlimited-memory reading of large declared lengths as `Parse`.
- pravega-grpc-gateway/src/test/python/integration_test1.py makes only remote gRPC calls. The gateway, the stream cuts and the event pointers it passes around are not part of this model.
