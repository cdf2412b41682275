/** The record decoder of the update receiver: one line of text in the
    General Record Format of Intel's Hexadecimal Object File Format
    Specification (Rev. A) becomes one binary record.

    A line is the byte buffer the line reader filled; as in C, the text ends
    at the first NUL byte (or at the end of the buffer), and every read past
    the text sees that terminator.
 */
module HexRecord {

  import opened Bytes

  datatype Option<T> = None | Some(value: T)

  /** ':' — the start-of-record mark. */
  const Colon: byte := 0x3A

  /** Bytes the decoding loop stores at most: 256 payload bytes and the
      five framing bytes (count, two address bytes, type, checksum). */
  const FrameCapacity: nat := 261

  // ---------------------------------------------------------------------
  // The text of a line.

  /** The C string held by `buf`: everything before its first NUL byte. */
  function CString(buf: seq<byte>): (s: seq<byte>)
    ensures |s| <= |buf| && s == buf[..|s|]
    ensures forall k :: 0 <= k < |s| ==> s[k] != 0
    ensures |s| < |buf| ==> buf[|s|] == 0
  {
    if |buf| == 0 || buf[0] == 0 then [] else [buf[0]] + CString(buf[1..])
  }

  /** The character at position `i` of a C string: the terminator, 0, once
      `i` is past the end. */
  function CharAt(text: seq<byte>, i: nat): byte
  {
    if i < |text| then text[i] else 0
  }

  /** Position of the first ':' in `text`, if there is one. */
  function FindColon(text: seq<byte>): (r: Option<nat>)
    ensures r.Some? ==> r.value < |text| && text[r.value] == Colon
                        && forall j :: 0 <= j < r.value ==> text[j] != Colon
    ensures r.None? ==> forall j :: 0 <= j < |text| ==> text[j] != Colon
  {
    if |text| == 0 then None
    else if text[0] == Colon then Some(0)
    else match FindColon(text[1..])
      case None => None
      case Some(k) => Some(k + 1)
  }

  // ---------------------------------------------------------------------
  // Digits.

  predicate IsDecimalDigit(c: byte) { 0x30 <= c <= 0x39 }

  predicate IsUpperLetter(c: byte) { 0x41 <= c <= 0x5A }

  predicate IsLowerLetter(c: byte) { 0x61 <= c <= 0x7A }

  /** What the firmware accepts as a digit: 0-9 and every ASCII letter. */
  predicate IsAcceptedDigit(c: byte)
  {
    IsDecimalDigit(c) || IsUpperLetter(c) || IsLowerLetter(c)
  }

  /** A genuine hexadecimal digit: 0-9, A-F or a-f. */
  predicate IsHexDigit(c: byte)
  {
    IsDecimalDigit(c) || 0x41 <= c <= 0x46 || 0x61 <= c <= 0x66
  }

  /** The value an accepted character stands for: 0-9 for digits, and 10
      onwards from 'a' or 'A' for letters, so 'g' is 16 and 'z' 35. */
  function DigitValue(c: byte): (d: nat)
    requires IsAcceptedDigit(c)
    ensures d <= 35
    ensures IsHexDigit(c) <==> d < 16
  {
    if IsDecimalDigit(c) then c - 0x30
    else if IsUpperLetter(c) then c - 0x41 + 10
    else c - 0x61 + 10
  }

  /** Outcome of a conversion: whether it succeeded, and the value byte as
      the conversion left it. */
  datatype Conversion = Conversion(success: bool, value: byte)

  /** `*value <<= 4; *value |= d;` on an eight-bit `value`: both
      assignments truncate to eight bits. A digit below 16 lands in the low
      nibble and the old low nibble moves up: the byte becomes
      `16 * value + d` modulo 256. */
  function ShiftIn(value: byte, d: nat): (r: byte)
    ensures d < 16 ==> r == (16 * value as int) % 256 + d
    ensures d < 16 ==> r == 16 * (value as int % 16) + d
  {
    LowNibbleOr(value, d);
    BitOr((value as int * 16) % 256, d) % 256
  }

  lemma LowNibbleOr(value: byte, d: nat)
    ensures (value as int * 16) % 256 == 16 * (value as int % 16)
    ensures d < 16 ==> BitOr((value as int * 16) % 256, d) % 256 == 16 * (value as int % 16) + d
  {
    var m := value as int % 16;
    SixteenTimesMod(value);
    if d < 16 {
      ShlByFour(m);
      BitOrIntoLowBits(m, d, 4);
      assert 16 * m + d < 256;
    }
  }

  /** Shifting a byte left by four keeps its low nibble, now on top. */
  lemma SixteenTimesMod(value: byte)
    ensures (value as int * 16) % 256 == 16 * (value as int % 16)
  {
    var q, m := value as int / 16, value as int % 16;
    assert value as int * 16 == 256 * q + 16 * m;
    assert 0 <= 16 * m < 256;
  }

  /** One character shifted into `value` (app.c `hex2nibble`): letters are
      recognised by forcing bit 5 and comparing against 'a'..'z'. */
  function Hex2Nibble(c: byte, value: byte): (r: Conversion)
    ensures r.success <==> IsAcceptedDigit(c)
    ensures r.success ==> r.value == ShiftIn(value, DigitValue(c))
    ensures !r.success ==> r.value == value
  {
    if 0x30 <= c <= 0x39 then
      Conversion(true, ShiftIn(value, c - 0x30))
    else
      var folded := ForceBit5(c);
      if 0x61 <= folded <= 0x7A then
        var d := (folded - 0x61) % 256 + 10;
        assert d == DigitValue(c);
        Conversion(true, ShiftIn(value, d))
      else
        Conversion(false, value)
  }

  /** C's `c | 32` on a byte: bit 5 forced on, which for an ASCII letter
      selects its lower-case form. */
  function ForceBit5(c: byte): (f: byte)
    ensures IsUpperLetter(c) ==> f == c + 32
    ensures IsLowerLetter(c) ==> f == c
    ensures 0x61 <= f <= 0x7A ==> IsUpperLetter(c) || IsLowerLetter(c)
  {
    if (c / 32) % 2 == 1 then c else c + 32
  }

  lemma ForceBit5IsOr(c: byte)
    ensures ForceBit5(c) == BitOr(c, 32)
  {
    SetBit5(c);
  }

  /** A genuine hexadecimal digit is shifted in as the low nibble. */
  lemma HexDigitShift(c: byte, value: byte)
    ensures IsHexDigit(c) ==> Hex2Nibble(c, value).value == (16 * value as int) % 256 + DigitValue(c)
  {
  }

  /** Two characters to one byte (app.c `parseHex`): the value starts at 0
      and the second character is only converted when the first was. */
  function ParseHex(hi: byte, lo: byte): (r: Conversion)
    ensures r.success <==> IsAcceptedDigit(hi) && IsAcceptedDigit(lo)
    ensures !IsAcceptedDigit(hi) ==> r == Conversion(false, 0)
    ensures IsHexDigit(hi) && IsHexDigit(lo) ==>
              r.success && r.value == 16 * DigitValue(hi) + DigitValue(lo)
  {
    var first := Hex2Nibble(hi, 0);
    if !first.success then first
    else
      HexPairValue(hi, lo);
      Hex2Nibble(lo, first.value)
  }

  /** Two genuine digits: the first lands in the high nibble, the second in
      the low one. */
  lemma HexPairValue(hi: byte, lo: byte)
    ensures IsHexDigit(hi) && IsHexDigit(lo) ==>
              Hex2Nibble(lo, Hex2Nibble(hi, 0).value).value == 16 * DigitValue(hi) + DigitValue(lo)
  {
    HexDigitShift(hi, 0);
    HexDigitShift(lo, Hex2Nibble(hi, 0).value);
    HighNibble(hi);
  }

  /** `parseHex` once its first character is known to convert: the second
      conversion starts from the value the first one left. */
  lemma ParseHexAfterFirst(hi: byte, lo: byte)
    requires IsAcceptedDigit(hi)
    ensures ParseHex(hi, lo) == Hex2Nibble(lo, Hex2Nibble(hi, 0).value)
  {
  }

  /** A hexadecimal digit shifted into the high nibble of a zero byte. */
  lemma HighNibble(hi: byte)
    ensures IsHexDigit(hi) ==> (16 * DigitValue(hi)) % 256 == 16 * DigitValue(hi)
  {
  }

  /** Lower-case form of an upper-case ASCII letter; other bytes unchanged. */
  function ToLower(c: byte): byte
  {
    if IsUpperLetter(c) then c + 0x20 else c
  }

  /** Decoding is case-insensitive, for every pair of bytes. */
  lemma ParseHexCaseInsensitive(hi: byte, lo: byte)
    ensures ParseHex(ToLower(hi), ToLower(lo)) == ParseHex(hi, lo)
  {
    FoldLetter(hi);
    FoldLetter(lo);
  }

  lemma FoldLetter(c: byte)
    ensures ForceBit5(ToLower(c)) == ForceBit5(c)
    ensures IsDecimalDigit(ToLower(c)) <==> IsDecimalDigit(c)
    ensures IsDecimalDigit(c) ==> ToLower(c) == c
  {

  }

  // ---------------------------------------------------------------------
  // Records.

  /** A decoded record (app.c `tRecord`); `data` holds exactly `count`
      payload bytes. */
  datatype Record = Record(count: byte, addr: uint16, rtype: byte, data: seq<byte>)

  /** Record types of the Intel hexadecimal object file format. */
  const TypeData: byte := 0x00
  const TypeEof: byte := 0x01
  const TypeExtSeg: byte := 0x02
  const TypeStartSeg: byte := 0x03
  const TypeExtLin: byte := 0x04
  const TypeStartLin: byte := 0x05

  /** The end-of-file record a sender closes a transfer with. */
  const EofRecord: Record := Record(0, 0x0000, TypeEof, [])

  predicate WellFormed(rec: Record)
  {
    |rec.data| == rec.count
  }

  /** Outcome of decoding a line: rejected; accepted with a record; or
      accepted although fewer than `4 + count` bytes were decoded, in which
      case the firmware fills the missing fields from whatever its scratch
      buffer happens to hold. */
  datatype Parsed = Rejected | Accepted(record: Record) | Unfilled(frame: seq<byte>)

  /** The conversion the decoding loop applies at text position `i`: the
      pair of characters starting there. */
  function PairAt(text: seq<byte>): nat -> Conversion
  {
    (i: nat) => ParseHex(CharAt(text, i), CharAt(text, i + 1))
  }

  /** The decoding loop from position `pos`: pairs are converted one after
      the other until one fails or `room` bytes have been stored. */
  function DecodeRun(pair: nat -> Conversion, pos: nat, room: nat): (r: seq<byte>)
    ensures |r| <= room
    decreases room
  {
    if pair(pos).success && room > 0 then [pair(pos).value] + DecodeRun(pair, pos + 2, room - 1) else []
  }

  /** Byte `k` of the run is the value of the pair at `pos + 2 * k`. */
  lemma {:induction false} DecodeRunValue(pair: nat -> Conversion, pos: nat, room: nat, k: nat)
    requires k < |DecodeRun(pair, pos, room)|
    ensures pair(pos + 2 * k) == Conversion(true, DecodeRun(pair, pos, room)[k])
    decreases k
  {
    if k > 0 {
      DecodeRunValue(pair, pos + 2, room - 1, k - 1);
      assert pos + 2 * k == (pos + 2) + 2 * (k - 1);
    }
  }

  /** The run stops only at a pair that fails to convert, or when the room
      is used up. */
  lemma {:induction false} DecodeRunStop(pair: nat -> Conversion, pos: nat, room: nat)
    ensures var r := DecodeRun(pair, pos, room);
            |r| < room ==> !pair(pos + 2 * |r|).success
    decreases room
  {
    if pair(pos).success && room > 0 {
      var rest := DecodeRun(pair, pos + 2, room - 1);
      DecodeRunStop(pair, pos + 2, room - 1);
      assert pos + 2 * (1 + |rest|) == (pos + 2) + 2 * |rest|;
    }
  }

  /** Those two properties pin the run down: any byte sequence that fits,
      whose bytes are the values of consecutive pairs, and that stops only
      at a failing pair or a full buffer, is the run. */
  lemma {:induction false} DecodeRunUnique(pair: nat -> Conversion, pos: nat, room: nat, r: seq<byte>)
    requires |r| <= room
    requires forall k :: 0 <= k < |r| ==> pair(pos + 2 * k) == Conversion(true, r[k])
    requires |r| < room ==> !pair(pos + 2 * |r|).success
    ensures r == DecodeRun(pair, pos, room)
    decreases room
  {
    if |r| > 0 {
      assert pair(pos + 2 * 0) == Conversion(true, r[0]);
      forall k | 0 <= k < |r[1..]|
        ensures pair((pos + 2) + 2 * k) == Conversion(true, r[1..][k])
      {
        assert pair(pos + 2 * (k + 1)) == Conversion(true, r[k + 1]);
        assert pos + 2 * (k + 1) == (pos + 2) + 2 * k;
      }
      assert pos + 2 * |r| == (pos + 2) + 2 * |r[1..]|;
      DecodeRunUnique(pair, pos + 2, room - 1, r[1..]);
      assert r == [r[0]] + r[1..];
    } else if room > 0 {
      assert !pair(pos + 2 * 0).success;
    }
  }

  /** Every byte the decoding loop stores for `line`: nothing when the text
      has no ':', else the pairs after the first ':'. */
  function DecodedBytes(line: seq<byte>): (b: seq<byte>)
    ensures |b| <= FrameCapacity
  {
    var text := CString(line);
    match FindColon(text)
    case None => []
    case Some(i) => DecodeRun(PairAt(text), i + 1, FrameCapacity)
  }

  /** Sum of the bytes as integers. */
  function Sum(bs: seq<byte>): nat
  {
    if |bs| == 0 then 0 else bs[0] + Sum(bs[1..])
  }

  /** The firmware's running checksum: an eight-bit counter, so the sum
      wraps modulo 256. */
  function Checksum(bs: seq<byte>): byte
  {
    Sum(bs) % 256
  }

  /** `checksum += value` on the eight-bit counter: each decoded byte is
      added to the running checksum, which wraps modulo 256. */
  lemma ChecksumRunning(bs: seq<byte>, v: byte)
    ensures Checksum(bs + [v]) == (Checksum(bs) + v) % 256
  {
    SumAppend(bs, [v]);
    assert Sum([v]) == v;
  }

  /** Reading position `i` of the C string held by `buf` reads the buffer
      itself, as long as no NUL comes before `i`: past the terminator both
      read 0. */
  lemma CharAtReadsBuffer(buf: seq<byte>, i: nat)
    requires i < |buf|
    requires forall k :: 0 <= k < i ==> buf[k] != 0
    ensures CharAt(CString(buf), i) == buf[i]
  {
    var s := CString(buf);
    if |s| > i {
      assert s[i] == buf[..|s|][i];
    }
  }

  lemma {:induction false} SumAppend(a: seq<byte>, b: seq<byte>)
    ensures Sum(a + b) == Sum(a) + Sum(b)
  {
    if |a| == 0 {
      assert a + b == b;
    } else {
      assert (a + b)[1..] == a[1..] + b;
      SumAppend(a[1..], b);
    }
  }

  /** The fields of a frame: count, big-endian address, type, and `count`
      payload bytes from byte 4 on. */
  function Extract(b: seq<byte>): (rec: Record)
    requires |b| > 0 && |b| >= 4 + b[0] as int
    ensures WellFormed(rec)
    ensures rec.count == b[0] && rec.rtype == b[3]
    ensures rec.addr == 256 * b[1] as int + b[2] as int
    ensures rec.data == b[4..4 + b[0]]
  {
    AddressBytes(b[1], b[2]);
    Record(b[0], BitOr(b[2], b[1] as int * 256), b[3], b[4..4 + b[0]])
  }

  /** `lo | (hi << 8)` places two bytes side by side. */
  lemma AddressBytes(hi: byte, lo: byte)
    ensures BitOr(lo, hi * 256) == 256 * hi + lo
  {
    assert Pow2(8) == 256;
    ShlIsProduct(hi, 8);
    BitOrIntoLowBits(hi, lo, 8);
    BitOrCommutes(lo, hi * 256);
  }

  /** One line to one record (app.c `processRecord`): accepted when at
      least one byte was decoded and the bytes sum to zero modulo 256. The
      number of decoded bytes is never compared with the count byte. */
  function ProcessRecord(line: seq<byte>): (r: Parsed)
    ensures r != Rejected <==> |DecodedBytes(line)| > 0 && Checksum(DecodedBytes(line)) == 0
    ensures r.Accepted? ==> var b := DecodedBytes(line);
              0 < |b| && 4 + b[0] as int <= |b| && r.record == Extract(b) && WellFormed(r.record)
    ensures r.Unfilled? ==> r.frame == DecodedBytes(line) && 0 < |r.frame| < 4 + r.frame[0] as int
  {
    var b := DecodedBytes(line);
    if |b| > 0 && Checksum(b) == 0 then
      if |b| >= 4 + b[0] as int then Accepted(Extract(b)) else Unfilled(b)
    else
      Rejected
  }

  /** A line whose decoded bytes do not sum to zero is rejected; so is a
      line without ':'. */
  lemma BadChecksumRejected(line: seq<byte>)
    requires Checksum(DecodedBytes(line)) != 0 || FindColon(CString(line)).None?
    ensures ProcessRecord(line) == Rejected
  {
  }

  // ---------------------------------------------------------------------
  // Encoding: the inverse direction, used to state round trips.

  /** Upper-case hexadecimal digit for a nibble. */
  function HexDigitChar(n: nat): (c: byte)
    requires n < 16
    ensures IsHexDigit(c) && DigitValue(c) == n
  {
    if n < 10 then 0x30 + n else 0x41 + (n - 10)
  }

  /** One byte as two upper-case hexadecimal digits. */
  function EncodeByte(b: byte): (s: seq<byte>)
    ensures |s| == 2 && IsHexDigit(s[0]) && IsHexDigit(s[1])
    ensures 16 * DigitValue(s[0]) + DigitValue(s[1]) == b
  {
    [HexDigitChar(b / 16), HexDigitChar(b % 16)]
  }

  /** Decoding the two digits of a byte gives the byte back. */
  lemma ParseEncodedByte(b: byte)
    ensures ParseHex(EncodeByte(b)[0], EncodeByte(b)[1]) == Conversion(true, b)
  {
  }

  function HexText(bs: seq<byte>): (s: seq<byte>)
    ensures |s| == 2 * |bs|
  {
    if |bs| == 0 then [] else EncodeByte(bs[0]) + HexText(bs[1..])
  }

  lemma {:induction false} HexTextAppend(a: seq<byte>, b: seq<byte>)
    ensures HexText(a + b) == HexText(a) + HexText(b)
  {
    if |a| == 0 {
      assert a + b == b;
    } else {
      assert (a + b)[1..] == a[1..] + b;
      HexTextAppend(a[1..], b);
    }
  }

  /** The two's-complement checksum byte for `head`. */
  function CheckByte(head: seq<byte>): (c: byte)
    ensures (Sum(head) + c) % 256 == 0
  {
    (256 - Sum(head) % 256) % 256
  }

  /** Count, address (high byte first), type and payload. */
  function Head(rec: Record): (h: seq<byte>)
    ensures |h| == 4 + |rec.data|
  {
    [rec.count, rec.addr / 256, rec.addr % 256, rec.rtype] + rec.data
  }

  /** The framing bytes of a record: header, payload, and the checksum
      byte that makes the sum of all of them zero. */
  function Frame(rec: Record): (f: seq<byte>)
    ensures |f| == 5 + |rec.data|
  {
    Head(rec) + [CheckByte(Head(rec))]
  }

  /** The text line a well-behaved sender transmits for `rec`. */
  function EncodeLine(rec: Record): seq<byte>
  {
    [Colon] + HexText(Frame(rec))
  }

  lemma FrameSumsToZero(rec: Record)
    ensures Checksum(Frame(rec)) == 0
  {
    var head := Head(rec);
    SumAppend(head, [CheckByte(head)]);
    assert Sum([CheckByte(head)]) == CheckByte(head);
  }

  lemma ExtractFrame(rec: Record)
    requires WellFormed(rec)
    ensures Extract(Frame(rec)) == rec
  {
    var f := Frame(rec);
    assert f[4..4 + rec.count] == rec.data;
  }

  /** Decoding hex text that runs to the end of the line recovers the bytes,
      provided they fit. */
  lemma {:induction false} DecodeHexText(text: seq<byte>, pos: nat, bs: seq<byte>, room: nat)
    requires pos + 2 * |bs| == |text|
    requires text[pos..] == HexText(bs)
    requires |bs| <= room
    ensures DecodeRun(PairAt(text), pos, room) == bs
    decreases |bs|
  {
    if |bs| == 0 {
      assert CharAt(text, pos) == 0;
    } else {
      var e := EncodeByte(bs[0]);
      assert text[pos..] == e + HexText(bs[1..]);
      assert CharAt(text, pos) == e[0] && CharAt(text, pos + 1) == e[1];
      ParseEncodedByte(bs[0]);
      assert text[pos + 2..] == HexText(bs[1..]);
      DecodeHexText(text, pos + 2, bs[1..], room - 1);
    }
  }

  lemma {:induction false} HexTextHasNoNulOrColon(bs: seq<byte>)
    ensures forall k :: 0 <= k < |HexText(bs)| ==> HexText(bs)[k] != 0 && HexText(bs)[k] != Colon
  {
    if |bs| > 0 {
      HexTextHasNoNulOrColon(bs[1..]);
      var s := HexText(bs);
      assert s == EncodeByte(bs[0]) + HexText(bs[1..]);
    }
  }

  lemma {:induction false} CStringOfNulFree(s: seq<byte>)
    requires forall k :: 0 <= k < |s| ==> s[k] != 0
    ensures CString(s) == s
  {
    if |s| > 0 {
      CStringOfNulFree(s[1..]);
      assert s == [s[0]] + s[1..];
    }
  }

  /** A ':' followed by the hex text of at most 261 bytes, and nothing
      else, decodes to exactly those bytes. */
  lemma DecodeHexLine(bs: seq<byte>, line: seq<byte>)
    requires |bs| <= FrameCapacity
    requires line == [Colon] + HexText(bs)
    ensures DecodedBytes(line) == bs
  {
    HexLineText(bs, line);
    assert line[1..] == HexText(bs);
    DecodeHexText(line, 1, bs, FrameCapacity);
  }

  /** Such a line is its own C string, and its first ':' is its first
      byte. */
  lemma HexLineText(bs: seq<byte>, line: seq<byte>)
    requires line == [Colon] + HexText(bs)
    ensures CString(line) == line && FindColon(line) == Some(0)
  {
    var t := HexText(bs);
    HexTextHasNoNulOrColon(bs);
    assert forall k :: 0 < k < |line| ==> line[k] == t[k - 1];
    CStringOfNulFree(line);
  }

  /** Round trip, byte level: the pairs after the ':' of an encoded line
      are the record's frame. */
  lemma DecodeEncodedFrame(rec: Record)
    requires WellFormed(rec)
    ensures DecodedBytes(EncodeLine(rec)) == Frame(rec)
  {
    DecodeHexLine(Frame(rec), EncodeLine(rec));
  }

  /** Round trip: the line encoding a well-formed record decodes to that
      record. */
  lemma DecodeEncodedLine(rec: Record)
    requires WellFormed(rec)
    ensures ProcessRecord(EncodeLine(rec)) == Accepted(rec)
  {
    DecodeEncodedFrame(rec);
    FrameSumsToZero(rec);
    ExtractFrame(rec);
  }

  // ---------------------------------------------------------------------
  // Letters beyond 'f' (as written, and corrected).

  /** As written, a letter beyond 'f' is accepted with a digit value of 16
      or more, and the excess is or-ed into the high nibble. */
  lemma HighNibbleBleed(hi: byte, lo: byte)
    requires IsHexDigit(hi) && IsAcceptedDigit(lo) && !IsHexDigit(lo)
    ensures ParseHex(hi, lo).success
    ensures ParseHex(hi, lo).value
            == (16 * BitOr(DigitValue(hi), DigitValue(lo) / 16) + DigitValue(lo) % 16) % 256
  {
    var dh, dl := DigitValue(hi), DigitValue(lo);
    HexDigitShift(hi, 0);
    ParseHexAfterFirst(hi, lo);
    assert Hex2Nibble(lo, dh).value == ShiftIn(dh, dl);
    ShiftInBleed(dh, dl);
  }

  /** Shifting a digit value of 16 or more into a nibble or-s its excess
      into the bits above. */
  lemma ShiftInBleed(v: byte, d: nat)
    requires v < 16 && d <= 35
    ensures ShiftIn(v, d) == (16 * BitOr(v, d / 16) + d % 16) % 256
  {
    var q, r := d / 16, d % 16;
    ShlByFour(v);
    ShlByFour(q);
    ShlByFour(BitOr(v, q));
    BitOrSplit(v, 0, q, r, 4);
    assert BitOr(0, r) == r;
    assert Shl(q, 4) + r == d;
    assert (v as int * 16) % 256 == Shl(v, 4) + 0;
  }

  lemma ShlByFour(m: nat)
    ensures Shl(m, 4) == 16 * m && Pow2(4) == 16
  {
    ShlIsProduct(m, 4);
  }

  /** `hex2nibble` as its comment describes it: only 0-9, a-f and A-F. */
  function StrictHex2Nibble(c: byte, value: byte): (r: Conversion)
    ensures r.success <==> IsHexDigit(c)
    ensures IsHexDigit(c) ==> r == Hex2Nibble(c, value)
    ensures !IsHexDigit(c) ==> r == Conversion(false, value)
  {
    HexDigitShift(c, value);
    if IsHexDigit(c) then Conversion(true, (16 * value as int) % 256 + DigitValue(c)) else Conversion(false, value)
  }

  function StrictParseHex(hi: byte, lo: byte): (r: Conversion)
    ensures r.success <==> IsHexDigit(hi) && IsHexDigit(lo)
    ensures r.success ==> r.value == 16 * DigitValue(hi) + DigitValue(lo)
  {
    var first := StrictHex2Nibble(hi, 0);
    if !first.success then first
    else
      HighNibble(hi);
      StrictHex2Nibble(lo, first.value)
  }

  /** Upper-case form of a lower-case ASCII letter; other bytes unchanged. */
  function ToUpper(c: byte): byte
  {
    if IsLowerLetter(c) then c - 0x20 else c
  }

  /** The corrected pair decoder inverts `EncodeByte`. */
  lemma StrictParseHexInvertsEncodeByte(b: byte)
    ensures StrictParseHex(EncodeByte(b)[0], EncodeByte(b)[1]) == Conversion(true, b)
  {
  }

  /** Re-encoding what the corrected decoder accepted gives the same two
      digits, up to letter case. */
  lemma EncodeByteInvertsStrictParseHex(hi: byte, lo: byte)
    ensures StrictParseHex(hi, lo).success ==>
              EncodeByte(StrictParseHex(hi, lo).value) == [ToUpper(hi), ToUpper(lo)]
  {
    if IsHexDigit(hi) && IsHexDigit(lo) {
      var v := 16 * DigitValue(hi) + DigitValue(lo);
      assert v / 16 == DigitValue(hi) && v % 16 == DigitValue(lo);
      UpperDigit(hi);
      UpperDigit(lo);
    }
  }

  lemma UpperDigit(c: byte)
    requires IsHexDigit(c)
    ensures HexDigitChar(DigitValue(c)) == ToUpper(c)
  {
  }

  /** On genuine digits the corrected decoder agrees with the firmware's. */
  lemma StrictParseHexAgrees(hi: byte, lo: byte)
    ensures IsHexDigit(hi) && IsHexDigit(lo) ==> StrictParseHex(hi, lo) == ParseHex(hi, lo)
  {
  }

  // ---------------------------------------------------------------------
  // The unchecked byte count (as written, and corrected).

  /** `processRecord` with the length check the format requires: exactly
      `count + 5` bytes must have been decoded. */
  function ProcessRecordChecked(line: seq<byte>): (r: Parsed)
    ensures !r.Unfilled?
    ensures r.Accepted? ==> WellFormed(r.record) && DecodedBytes(line) == Frame(r.record)
    ensures r.Rejected? ==> DecodedBytes(line) == [] || |DecodedBytes(line)| != 5 + DecodedBytes(line)[0] as int
                            || Checksum(DecodedBytes(line)) != 0
  {
    var b := DecodedBytes(line);
    if |b| > 0 && |b| == 5 + b[0] as int && Checksum(b) == 0 then
      FrameOfChecked(b);
      Accepted(Extract(b))
    else
      Rejected
  }

  lemma FrameOfChecked(b: seq<byte>)
    requires |b| > 0 && |b| == 5 + b[0] as int && Checksum(b) == 0
    ensures Frame(Extract(b)) == b
  {
    var rec := Extract(b);
    var n := |b| - 1;
    AddressSplit(b[1], b[2]);
    assert Head(rec) == b[..n];
    ChecksumLast(b);
  }

  /** The big-endian address gives back its two bytes. */
  lemma AddressSplit(hi: byte, lo: byte)
    ensures (256 * hi as int + lo as int) / 256 == hi && (256 * hi as int + lo as int) % 256 == lo
  {
  }

  /** In bytes summing to zero modulo 256, the last byte is the checksum
      byte of the others. */
  lemma ChecksumLast(b: seq<byte>)
    requires |b| > 0 && Checksum(b) == 0
    ensures CheckByte(b[..|b| - 1]) == b[|b| - 1]
  {
    var n := |b| - 1;
    assert b == b[..n] + [b[n]];
    SumAppend(b[..n], [b[n]]);
    assert Sum([b[n]]) == b[n];
  }

  /** The checked decoder accepts every line the encoder produces. */
  lemma CheckedDecoderRoundTrip(rec: Record)
    requires WellFormed(rec)
    ensures ProcessRecordChecked(EncodeLine(rec)) == Accepted(rec)
  {
    DecodeEncodedFrame(rec);
    FrameSumsToZero(rec);
    ExtractFrame(rec);
  }
}
