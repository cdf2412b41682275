/** Whole lines through the receiver: the example lines of the hex layer
    fed to the dispatcher. */
module Scenarios {

  import opened HexRecord
  import opened HexExamples
  import opened Assembler

  /** A line whose checksum is off by one is dropped: nothing changes. */
  lemma CorruptLineDropped(st: Stager)
    requires Valid(st)
    ensures Feed(st, Ascii(":0300300002337A1F")) == Receiving(st)
  {
    CorruptLineExample();
  }

  /** `:0300300002337A1E` puts 02 33 7A at the current offset, whatever the
      address 0030 in the line says; when the three bytes end exactly at
      the end of the buffer the offset wraps to 0. */
  lemma DataLinePlaced(st: Stager)
    requires Valid(st) && st.offset + 3 <= Capacity
    ensures Feed(st, Ascii(":0300300002337A1E"))
            == Receiving(Stager(Place(st.buffer, st.offset, [0x02, 0x33, 0x7A]), (st.offset + 3) % Capacity))
  {
    DataLineExample();
    var rec := Record(3, 0x0030, 0x00, [0x02, 0x33, 0x7A]);
    assert Step(st, rec) == Receiving(Stager(Place(st.buffer, st.offset, rec.data), (st.offset + 3) % Capacity));
  }

  /** `:00000001FF` ends the transfer with the state as it is. */
  lemma EofLineFinishes(st: Stager)
    requires Valid(st)
    ensures Feed(st, Ascii(":00000001FF")) == Finished(st)
  {
    EofLineExample();
  }

  /** `:00` is accepted, and the record then acted on is not determined by
      the line. */
  lemma ShortLineIndeterminate(st: Stager)
    requires Valid(st)
    ensures Feed(st, Ascii(":00")) == Indeterminate(st, [0x00])
  {
    ShortLineAccepted();
  }

  /** `:02000001FD` is short of its payload, yet the type byte arrived:
      the transfer finishes as for a complete EOF record. */
  lemma ShortEofLineFinishes(st: Stager)
    requires Valid(st)
    ensures Feed(st, Ascii(":02000001FD")) == Finished(st)
  {
    ShortEofLineAccepted();
  }

  /** `:02000004FA` likewise moves the offset back to 0. */
  lemma ShortUpperLineResets(st: Stager)
    requires Valid(st)
    ensures Feed(st, Ascii(":02000004FA")) == Receiving(Stager(st.buffer, 0))
  {
    ShortUpperLineAccepted();
  }

  /** A Data record that fills the buffer to its last byte, followed by the
      EOF record, hands the buffer over with length 0: the offset has
      wrapped. */
  lemma FullBufferFinishesEmpty(st: Stager, rec: Record)
    requires Valid(st) && WellFormed(rec)
    requires rec.rtype == TypeData && st.offset + rec.count == Capacity
    ensures RunRecords(st, [rec, EofRecord]).Finished?
    ensures RunRecords(st, [rec, EofRecord]).st.offset == 0
    ensures RunRecords(st, [rec, EofRecord]).st.buffer[st.offset..] == rec.data
  {
    var next := Step(st, rec).st;
    assert Step(st, rec) == Receiving(next);
    assert [rec, EofRecord][1..] == [EofRecord];
    assert RunRecords(next, [EofRecord]) == Finished(next);
  }
}
