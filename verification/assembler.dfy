/** The record dispatcher of the update receiver (app.c `readIntelHex`, the
    body of its loop): each accepted record copies payload into the staging
    buffer, ends the transfer, moves back to the start of the buffer, or is
    ignored.
 */
module Assembler {

  import opened Bytes
  import opened HexRecord

  /** Bytes of image data the staging buffer holds after its header. */
  const Capacity: nat := 0x1_0000

  /** The data area of the staging buffer and the write offset into it. */
  datatype Stager = Stager(buffer: seq<byte>, offset: nat)

  /** The buffer has its fixed size and the offset points into it. */
  predicate Valid(st: Stager)
  {
    |st.buffer| == Capacity && st.offset < Capacity
  }

  /** What the receiver does after a line. `Finished` hands the buffer over
      with length `offset`; `Overrun` is a Data record whose payload would
      be copied past the end of the buffer; `Indeterminate` is a line that
      was accepted with fewer bytes than its fields need, where what the
      firmware does depends on unset scratch bytes: fewer than four bytes
      arrived (count, address or type is unset), or a Data record's payload
      is partly unset. */
  datatype Outcome =
    | Receiving(st: Stager)
    | Finished(st: Stager)
    | Overrun(st: Stager, rec: Record)
    | Indeterminate(st: Stager, frame: seq<byte>)

  /** `memcpy(&buffer[at], payload, |payload|)`. */
  function Place(buffer: seq<byte>, at: nat, payload: seq<byte>): (r: seq<byte>)
    requires at + |payload| <= |buffer|
    ensures |r| == |buffer|
    ensures r[at..at + |payload|] == payload
    ensures forall i :: 0 <= i < |buffer| && !(at <= i < at + |payload|) ==> r[i] == buffer[i]
  {
    buffer[..at] + payload + buffer[at + |payload|..]
  }

  /** One accepted record (the `switch` of app.c `readIntelHex`). */
  function Step(st: Stager, rec: Record): (r: Outcome)
    requires Valid(st) && WellFormed(rec)
    ensures rec.rtype == TypeData && st.offset + rec.count <= Capacity ==>
              r.Receiving? && Valid(r.st)
              && r.st.offset == (st.offset + rec.count) % Capacity
              && r.st.buffer[st.offset..st.offset + rec.count] == rec.data
              && forall i :: 0 <= i < Capacity && !(st.offset <= i < st.offset + rec.count) ==>
                               r.st.buffer[i] == st.buffer[i]
    ensures rec.rtype == TypeData && st.offset + rec.count > Capacity ==> r == Overrun(st, rec)
    ensures rec.rtype == TypeEof ==> r == Finished(st)
    ensures rec.rtype == TypeExtLin ==> r == Receiving(Stager(st.buffer, 0))
    ensures rec.rtype != TypeData && rec.rtype != TypeEof && rec.rtype != TypeExtLin ==> r == Receiving(st)
  {
    if rec.rtype == TypeData then
      if st.offset + rec.count <= Capacity then
        Receiving(Stager(Place(st.buffer, st.offset, rec.data), (st.offset + rec.count) % Capacity))
      else
        Overrun(st, rec)
    else if rec.rtype == TypeEof then
      Finished(st)
    else if rec.rtype == TypeExtLin then
      Receiving(Stager(st.buffer, 0))
    else
      Receiving(st)
  }

  /** Every outcome of a step leaves a valid state behind. */
  lemma StepKeepsValid(st: Stager, rec: Record)
    requires Valid(st) && WellFormed(rec)
    ensures Valid(Step(st, rec).st)
  {
  }

  /** The record's address field plays no part: Data goes to `offset`. */
  lemma StepIgnoresAddress(st: Stager, rec: Record, addr: uint16)
    requires Valid(st) && WellFormed(rec)
    ensures Step(st, rec.(addr := addr)).st == Step(st, rec).st
    ensures Step(st, rec.(addr := addr)).Receiving? == Step(st, rec).Receiving?
    ensures Step(st, rec.(addr := addr)).Finished? == Step(st, rec).Finished?
  {
  }

  /** A Data record with no payload changes nothing. */
  lemma EmptyDataIsNoOp(st: Stager, rec: Record)
    requires Valid(st) && WellFormed(rec)
    requires rec.rtype == TypeData && rec.count == 0
    ensures Step(st, rec) == Receiving(st)
  {
    assert Place(st.buffer, st.offset, []) == st.buffer;
  }

  /** A Data record that exactly fills the buffer wraps the offset to 0. */
  lemma ExactFitWraps(st: Stager, rec: Record)
    requires Valid(st) && WellFormed(rec)
    requires rec.rtype == TypeData && st.offset + rec.count == Capacity
    ensures Step(st, rec).Receiving? && Step(st, rec).st.offset == 0
  {
  }

  /** One line: decoded, then dispatched when accepted. A line that fails
      to decode is dropped. A short frame whose four header bytes arrived is
      dispatched on its count, address and type, which are all the switch
      reads unless the type is Data. */
  function Feed(st: Stager, line: seq<byte>): (r: Outcome)
    requires Valid(st)
    ensures ProcessRecord(line) == Rejected ==> r == Receiving(st)
    ensures ProcessRecord(line).Accepted? ==> r == Step(st, ProcessRecord(line).record)
    ensures ProcessRecord(line).Unfilled? ==>
              var f := ProcessRecord(line).frame;
              (|f| < 4 || f[3] == TypeData ==> r == Indeterminate(st, f))
              && (|f| >= 4 && f[3] == TypeEof ==> r == Finished(st))
              && (|f| >= 4 && f[3] == TypeExtLin ==> r == Receiving(Stager(st.buffer, 0)))
              && (|f| >= 4 && f[3] != TypeData && f[3] != TypeEof && f[3] != TypeExtLin ==> r == Receiving(st))
  {
    match ProcessRecord(line)
    case Rejected => Receiving(st)
    case Accepted(rec) => Step(st, rec)
    case Unfilled(frame) =>
      if |frame| >= 4 && frame[3] != TypeData then Step(st, HeaderRecord(frame))
      else Indeterminate(st, frame)
  }

  /** The record the switch sees for a short frame whose header arrived:
      count, address and type from the frame, the payload that never
      arrived as zeros. */
  function HeaderRecord(frame: seq<byte>): (rec: Record)
    requires |frame| >= 4
    ensures WellFormed(rec) && rec.count == frame[0] && rec.rtype == frame[3]
  {
    var addr: uint16 := 256 * frame[1] as int + frame[2] as int;
    var payload: seq<byte> := seq(frame[0], _ => 0);
    Record(frame[0], addr, frame[3], payload)
  }

  /** Only a Data record's payload is read: for every other type the step
      is the same whatever the payload holds. */
  lemma StepIgnoresPayload(st: Stager, rec: Record, data: seq<byte>)
    requires Valid(st) && WellFormed(rec)
    requires rec.rtype != TypeData && |data| == rec.count
    ensures Step(st, rec.(data := data)) == Step(st, rec)
  {
  }

  /** A short non-Data frame is dispatched as every record with its header
      fields, whatever payload the unset bytes would make. */
  lemma ShortFrameDispatched(st: Stager, line: seq<byte>, rec: Record)
    requires Valid(st) && WellFormed(rec)
    requires ProcessRecord(line).Unfilled?
    requires var f := ProcessRecord(line).frame;
             |f| >= 4 && f[3] != TypeData
             && rec.count == f[0] && rec.addr == 256 * f[1] as int + f[2] as int && rec.rtype == f[3]
    ensures Feed(st, line) == Step(st, rec)
  {
    var f := ProcessRecord(line).frame;
    ShortFrameStep(st, f, Feed(st, line), rec);
  }

  lemma ShortFrameStep(st: Stager, f: seq<byte>, r: Outcome, rec: Record)
    requires Valid(st) && WellFormed(rec)
    requires |f| >= 4 && f[3] != TypeData && rec.rtype == f[3]
    requires f[3] == TypeEof ==> r == Finished(st)
    requires f[3] == TypeExtLin ==> r == Receiving(Stager(st.buffer, 0))
    requires f[3] != TypeEof && f[3] != TypeExtLin ==> r == Receiving(st)
    ensures r == Step(st, rec)
  {
  }

  /** Every record holds exactly `count` payload bytes. */
  predicate AllWellFormed(recs: seq<Record>)
    decreases |recs|
  {
    |recs| == 0 || (WellFormed(recs[0]) && AllWellFormed(recs[1..]))
  }

  /** The receiving loop over a finite sequence of records: it goes on
      while it is receiving and stops at the first other outcome. */
  function RunRecords(st: Stager, recs: seq<Record>): (r: Outcome)
    requires Valid(st)
    requires AllWellFormed(recs)
    ensures Valid(r.st)
    decreases |recs|
  {
    if |recs| == 0 then Receiving(st)
    else
      StepKeepsValid(st, recs[0]);
      match Step(st, recs[0])
      case Receiving(next) => RunRecords(next, recs[1..])
      case other => other
  }

  /** The receiving loop over a finite sequence of lines. */
  function RunLines(st: Stager, lines: seq<seq<byte>>): (r: Outcome)
    requires Valid(st)
    ensures Valid(r.st)
    decreases |lines|
  {
    if |lines| == 0 then Receiving(st)
    else
      StepKeepsValidFeed(st, lines[0]);
      match Feed(st, lines[0])
      case Receiving(next) => RunLines(next, lines[1..])
      case other => other
  }

  lemma StepKeepsValidFeed(st: Stager, line: seq<byte>)
    requires Valid(st)
    ensures Valid(Feed(st, line).st)
  {
    match ProcessRecord(line)
    case Rejected =>
    case Accepted(rec) => StepKeepsValid(st, rec);
    case Unfilled(frame) =>
      if |frame| >= 4 && frame[3] != TypeData {
        StepKeepsValid(st, HeaderRecord(frame));
      }
  }

  /** The lines a sender transmits for a sequence of records. */
  function EncodeLines(recs: seq<Record>): (lines: seq<seq<byte>>)
    ensures |lines| == |recs|
    ensures forall k :: 0 <= k < |recs| ==> lines[k] == EncodeLine(recs[k])
  {
    seq(|recs|, k requires 0 <= k < |recs| => EncodeLine(recs[k]))
  }

  /** Sending the encoded lines has the same effect as handing the records
      to the dispatcher directly. */
  lemma {:induction false} RunEncodedLines(st: Stager, recs: seq<Record>)
    requires Valid(st)
    requires AllWellFormed(recs)
    ensures RunLines(st, EncodeLines(recs)) == RunRecords(st, recs)
    decreases |recs|
  {
    if |recs| > 0 {
      var lines := EncodeLines(recs);
      FeedEncodedLine(st, recs[0]);
      assert lines[1..] == EncodeLines(recs[1..]);
      StepKeepsValid(st, recs[0]);
      if Step(st, recs[0]).Receiving? {
        RunEncodedLines(Step(st, recs[0]).st, recs[1..]);
      }
    }
  }

  /** An encoded line is dispatched as the record it encodes. */
  lemma FeedEncodedLine(st: Stager, rec: Record)
    requires Valid(st) && WellFormed(rec)
    ensures Feed(st, EncodeLine(rec)) == Step(st, rec)
  {
    DecodeEncodedLine(rec);
  }

  // ---------------------------------------------------------------------
  // Staging an image in Data records.

  /** Largest payload the sender puts in one Data record. */
  const ChunkSize: nat := 16

  /** An image cut into Data records of up to 16 bytes, addressed from
      `addr`. */
  function DataRecords(image: seq<byte>, addr: nat): (recs: seq<Record>)
    ensures AllWellFormed(recs)
    decreases |image|
  {
    if |image| == 0 then []
    else
      var n := if |image| < ChunkSize then |image| else ChunkSize;
      [Record(n, addr % 0x1_0000, TypeData, image[..n])] + DataRecords(image[n..], addr + n)
  }

  /** A Data record that fits below the end of the buffer. */
  lemma DataStep(st: Stager, rec: Record)
    requires Valid(st) && WellFormed(rec)
    requires rec.rtype == TypeData && st.offset + rec.count < Capacity
    ensures Step(st, rec) == Receiving(Stager(Place(st.buffer, st.offset, rec.data), st.offset + rec.count))
  {
  }

  /** Two copies side by side are one copy of the concatenation. */
  lemma PlaceTwice(buffer: seq<byte>, at: nat, x: seq<byte>, y: seq<byte>)
    requires at + |x| + |y| <= |buffer|
    ensures Place(Place(buffer, at, x), at + |x|, y) == Place(buffer, at, x + y)
  {
  }

  /** Data records carrying an image that fits between `offset` and the end
      of the buffer copy the image there and advance the offset by its
      length. */
  lemma {:induction false} DataRecordsStageImage(st: Stager, image: seq<byte>, addr: nat)
    requires Valid(st)
    requires st.offset + |image| < Capacity
    ensures RunRecords(st, DataRecords(image, addr))
            == Receiving(Stager(Place(st.buffer, st.offset, image), st.offset + |image|))
    decreases |image|
  {
    if |image| == 0 {
      StageNothing(st, image, addr);
    } else {
      var n := if |image| < ChunkSize then |image| else ChunkSize;
      var next := Stager(Place(st.buffer, st.offset, image[..n]), st.offset + n);
      DataRecordsStageImage(next, image[n..], addr + n);
      StageRest(st, image, addr);
    }
  }

  lemma StageNothing(st: Stager, image: seq<byte>, addr: nat)
    requires Valid(st) && |image| == 0
    ensures RunRecords(st, DataRecords(image, addr))
            == Receiving(Stager(Place(st.buffer, st.offset, image), st.offset + |image|))
  {
    assert Place(st.buffer, st.offset, image) == st.buffer;
  }

  /** Once the rest of the image is staged after the first chunk, the whole
      image is. */
  lemma StageRest(st: Stager, image: seq<byte>, addr: nat)
    requires Valid(st)
    requires 0 < |image| && st.offset + |image| < Capacity
    requires var n := if |image| < ChunkSize then |image| else ChunkSize;
             var next := Stager(Place(st.buffer, st.offset, image[..n]), st.offset + n);
             RunRecords(next, DataRecords(image[n..], addr + n))
             == Receiving(Stager(Place(next.buffer, next.offset, image[n..]), next.offset + |image[n..]|))
    ensures RunRecords(st, DataRecords(image, addr))
            == Receiving(Stager(Place(st.buffer, st.offset, image), st.offset + |image|))
  {
    var n := if |image| < ChunkSize then |image| else ChunkSize;
    FirstChunk(st, image, addr);
    PlaceTwice(st.buffer, st.offset, image[..n], image[n..]);
    assert image[..n] + image[n..] == image;
  }

  /** The first Data record of a chunked image. */
  lemma FirstChunk(st: Stager, image: seq<byte>, addr: nat)
    requires Valid(st)
    requires 0 < |image| && st.offset + |image| < Capacity
    ensures var n := if |image| < ChunkSize then |image| else ChunkSize;
            RunRecords(st, DataRecords(image, addr))
            == RunRecords(Stager(Place(st.buffer, st.offset, image[..n]), st.offset + n), DataRecords(image[n..], addr + n))
  {
    var recs := DataRecords(image, addr);
    DataStep(st, recs[0]);
    var n := if |image| < ChunkSize then |image| else ChunkSize;
    assert recs[1..] == DataRecords(image[n..], addr + n);
  }

  /** An image in Data records from the start of the buffer, followed by
      an EOF record, finishes with the image at the front of the buffer,
      the rest untouched, and the offset equal to the image size. */
  lemma RecordsStageImage(buffer: seq<byte>, image: seq<byte>, eof: Record)
    requires |buffer| == Capacity && |image| < Capacity
    requires WellFormed(eof) && eof.rtype == TypeEof
    ensures AllWellFormed(DataRecords(image, 0) + [eof])
    ensures RunRecords(Stager(buffer, 0), DataRecords(image, 0) + [eof])
            == Finished(Stager(image + buffer[|image|..], |image|))
  {
    var st := Stager(buffer, 0);
    var staged := Stager(Place(buffer, 0, image), |image|);
    DataRecordsStageImage(st, image, 0);
    RunRecordsThen(st, DataRecords(image, 0), [eof], staged);
    assert RunRecords(staged, [eof]) == Finished(staged);
    assert Place(buffer, 0, image) == image + buffer[|image|..];
  }

  /** The same transfer as text lines. */
  lemma TransferStagesImage(buffer: seq<byte>, image: seq<byte>, eof: Record)
    requires |buffer| == Capacity && |image| < Capacity
    requires WellFormed(eof) && eof.rtype == TypeEof
    ensures RunLines(Stager(buffer, 0), EncodeLines(DataRecords(image, 0) + [eof]))
            == Finished(Stager(image + buffer[|image|..], |image|))
  {
    var recs := DataRecords(image, 0) + [eof];
    WellFormedAppend(DataRecords(image, 0), [eof]);
    RecordsStageImage(buffer, image, eof);
    RunEncodedLines(Stager(buffer, 0), recs);
  }

  lemma {:induction false} WellFormedAppend(a: seq<Record>, b: seq<Record>)
    requires AllWellFormed(a)
    requires AllWellFormed(b)
    ensures AllWellFormed(a + b)
    decreases |a|
  {
    if |a| == 0 {
      assert a + b == b;
    } else {
      assert (a + b)[1..] == a[1..] + b;
      WellFormedAppend(a[1..], b);
    }
  }

  /** Once a prefix of the records leaves the receiver receiving in state
      `mid`, the rest runs from `mid`. */
  lemma {:induction false} RunRecordsThen(st: Stager, a: seq<Record>, b: seq<Record>, mid: Stager)
    requires Valid(st)
    requires AllWellFormed(a)
    requires AllWellFormed(b)
    requires RunRecords(st, a) == Receiving(mid)
    ensures Valid(mid)
    ensures AllWellFormed(a + b)
    ensures RunRecords(st, a + b) == RunRecords(mid, b)
    decreases |a|
  {
    WellFormedAppend(a, b);
    if |a| == 0 {
      assert a + b == b;
    } else {
      assert (a + b)[0] == a[0];
      assert (a + b)[1..] == a[1..] + b;
      StepKeepsValid(st, a[0]);
      RunRecordsThen(Step(st, a[0]).st, a[1..], b, mid);
    }
  }

  /** Staging an image over a buffer that already holds it changes nothing. */
  lemma PlaceAgain(buffer: seq<byte>, at: nat, payload: seq<byte>)
    requires at + |payload| <= |buffer|
    ensures Place(Place(buffer, at, payload), at, payload) == Place(buffer, at, payload)
  {
  }

  /** Sending the same image again after an Extended Linear Address record
      leaves the same buffer: a repeated transfer is harmless. */
  lemma RetransmissionHarmless(buffer: seq<byte>, image: seq<byte>, upper: Record)
    requires |buffer| == Capacity && |image| < Capacity
    requires WellFormed(upper) && upper.rtype == TypeExtLin
    ensures AllWellFormed(DataRecords(image, 0) + [upper] + DataRecords(image, 0))
    ensures var recs := DataRecords(image, 0);
            RunRecords(Stager(buffer, 0), recs + [upper] + recs)
            == RunRecords(Stager(buffer, 0), recs)
  {
    var st := Stager(buffer, 0);
    var recs := DataRecords(image, 0);
    var staged := Place(buffer, 0, image);
    DataRecordsStageImage(st, image, 0);
    UpperResets(st, recs, upper, Stager(staged, |image|));
    RunRecordsThen(st, recs + [upper], recs, Stager(staged, 0));
    DataRecordsStageImage(Stager(staged, 0), image, 0);
    PlaceAgain(buffer, 0, image);
  }

  /** An Extended Linear Address record after a run moves the offset back
      to 0. */
  lemma UpperResets(st: Stager, recs: seq<Record>, upper: Record, mid: Stager)
    requires Valid(st)
    requires AllWellFormed(recs)
    requires WellFormed(upper) && upper.rtype == TypeExtLin
    requires RunRecords(st, recs) == Receiving(mid)
    ensures AllWellFormed(recs + [upper])
    ensures RunRecords(st, recs + [upper]) == Receiving(Stager(mid.buffer, 0))
  {
    RunRecordsThen(st, recs, [upper], mid);
    assert RunRecords(mid, [upper]) == Receiving(Stager(mid.buffer, 0)) by {
      assert [upper][1..] == [];
    }
  }

  // ---------------------------------------------------------------------
  // Data past the end of the buffer (as written, and corrected).

  /** The Data case as written: the payload is copied to `offset` whatever
      its length. `memory` stands for the staging area and whatever lies
      after it. */
  function DataAsWritten(memory: seq<byte>, offset: nat, payload: seq<byte>): (r: (seq<byte>, nat))
    requires offset + |payload| <= |memory|
    ensures |r.0| == |memory|
    ensures r.0[offset..offset + |payload|] == payload
    ensures r.1 == (offset + |payload|) % Capacity
  {
    (Place(memory, offset, payload), (offset + |payload|) % Capacity)
  }

  /** At offset 65535 a two-byte payload writes its second byte just past
      the staging buffer. */
  lemma DataAsWrittenEscapes(memory: seq<byte>, payload: seq<byte>)
    requires |memory| > Capacity && |payload| == 2
    ensures DataAsWritten(memory, Capacity - 1, payload).0[Capacity] == payload[1]
    ensures DataAsWritten(memory, Capacity - 1, payload).1 == 1
  {
    var r := DataAsWritten(memory, Capacity - 1, payload).0;
    assert r[Capacity - 1..Capacity + 1] == payload;
  }

  /** The corrected step never writes outside the buffer: a record that
      would is reported as an overrun and changes nothing. */
  lemma StepStaysInBuffer(st: Stager, rec: Record)
    requires Valid(st) && WellFormed(rec)
    ensures Step(st, rec).Overrun? <==> rec.rtype == TypeData && st.offset + rec.count > Capacity
    ensures Step(st, rec).Overrun? ==> Step(st, rec).st == st
    ensures Step(st, rec).Receiving? ==> |Step(st, rec).st.buffer| == Capacity
  {
  }
}
