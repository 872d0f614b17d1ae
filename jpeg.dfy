/** The JPEG marker-stream reader of jpeg/jpeg.go.

    The reader walks the marker segments of ITU-T T.81 (ISO/IEC 10918-1) Annex B in file
    order, keeps the frame size of SOF0/SOF2 and the payload of COM, and stops at SOS.
    The pure functions below give the meaning of every step over the file's bytes; the
    class JpegReader is the reader itself, and each of its methods is proved to do exactly
    what the matching function says. */
module Jpeg {
  import opened Outcomes

  newtype byte = b: int | 0 <= b < 0x100

  // The byte that introduces a marker, and the marker codes (the byte after it) the reader
  // knows, as listed in Table B.1 of ITU-T T.81.
  const FF: byte := 0xFF
  const SOI: byte := 0xD8
  const SOF0: byte := 0xC0
  const SOF2: byte := 0xC2
  const DHT: byte := 0xC4
  const DQT: byte := 0xDB
  const DRI: byte := 0xDD
  const EOI: byte := 0xD9
  const SOS: byte := 0xDA
  const RST0: byte := 0xD0
  const RST7: byte := 0xD7
  const APP0: byte := 0xE0
  const APP1: byte := 0xE1
  const APP2: byte := 0xE2
  const APP4: byte := 0xE4
  const APPD: byte := 0xED
  const COMM: byte := 0xFE

  /** RST0..RST7: restart markers inside entropy-coded data (section B.1.1.5). */
  predicate IsRestart(m: byte) {
    RST0 <= m <= RST7
  }

  /** Which marker codes are read as length-prefixed segments. The reader as written
      (AsWritten) reads DRI, APP0, APP2, APP4 and APPD as bare two-byte markers, although
      sections B.2.4.4 and B.2.4.6 of ITU-T T.81 give each of them a length field; Intended
      reads those five as segments too. Unknown codes are bare markers under both. */
  datatype Framing = AsWritten | Intended

  /** The length-prefixed segments that are read and dropped. */
  predicate Skipped(m: byte, framing: Framing) {
    m == DHT || m == DQT || m == APP1 || m == SOS ||
    (framing == Intended && (m == DRI || m == APP0 || m == APP2 || m == APP4 || m == APPD))
  }

  /** The markers followed by a length field. */
  predicate HasLength(m: byte, framing: Framing) {
    m == SOF0 || m == SOF2 || m == COMM || Skipped(m, framing)
  }

  /** The errors Decode returns (as opposed to the panics of Outcomes.Crash). */
  datatype DecodeError =
    | NotStartingWithFF(got: byte)   // the first byte is not 0xFF
    | NotStartingWithSOI(got: byte)  // 0xFF is not followed by SOI (0xD8)

  /** The fields of JpegReader that decoding fills in. */
  datatype Meta = Meta(height: nat, width: nat, comment: seq<byte>)

  /** The fields of a freshly declared JpegReader. */
  const Blank := Meta(0, 0, [])

  /** Where a call to Decode ends: what it returns (or the panic), the fields, and the
      number of bytes consumed (charCounter). */
  datatype Final = Final(status: Outcome<Option<DecodeError>>, meta: Meta, consumed: nat)

  /** The state after one segment handler: whether it panicked, the fields, the position. */
  datatype Effect = Effect(status: Status, meta: Meta, pos: nat)

  /** encoding/binary.BigEndian.Uint16 of two bytes. */
  function BigEndian16(hi: byte, lo: byte): (v: nat)
    ensures v < 0x10000
  {
    hi as int * 256 + lo as int
  }

  /** BigEndian16 is one-to-one: its high and low byte come back out of it. */
  lemma BigEndian16Digits(hi: byte, lo: byte)
    ensures BigEndian16(hi, lo) / 256 == hi as int && BigEndian16(hi, lo) % 256 == lo as int
  {
  }

  /** NextByte at position p: the byte there, or the panic at the end of the data. */
  function ByteAt(d: seq<byte>, p: nat): (r: Outcome<byte>)
    requires p <= |d|
    ensures r.Done? <==> p < |d|
  {
    if p < |d| then Done(d[p]) else Panic(EndOfData)
  }

  /** SegmentLength at position p: the 16-bit big-endian length field. */
  function LengthAt(d: seq<byte>, p: nat): (r: Outcome<nat>)
    requires p <= |d|
    ensures r.Done? <==> p + 2 <= |d|
    ensures r.Done? ==> r.value == BigEndian16(d[p], d[p + 1])
  {
    if p + 2 <= |d| then Done(BigEndian16(d[p], d[p + 1])) else Panic(EndOfData)
  }

  /** Bytes(n) at position p: the next n bytes, nothing for n <= 0, or None (Go's error)
      when fewer than n bytes remain. */
  function BytesAt(d: seq<byte>, p: nat, n: int): (r: Option<seq<byte>>)
    requires p <= |d|
    ensures r.Some? <==> n <= 0 || p + n <= |d|
    ensures r.Some? ==> |r.value| == (if n <= 0 then 0 else n) && r.value == d[p..p + |r.value|]
  {
    if n <= 0 then Some([]) else if p + n <= |d| then Some(d[p..p + n]) else None
  }

  /** Where Bytes(n) leaves the reader: n further on, unmoved for n <= 0, and at the end of
      the data when it fails (the partial reads are consumed and counted). */
  function BytesEnd(d: seq<byte>, p: nat, n: int): (q: nat)
    requires p <= |d|
    ensures p <= q <= |d|
    ensures BytesAt(d, p, n).Some? ==> q == p + |BytesAt(d, p, n).value|
    ensures BytesAt(d, p, n).None? ==> q == |d|
  {
    if n <= 0 then p else if p + n <= |d| then p + n else |d|
  }

  /** PrintMarkAndGetData at position p (just after the marker code): the length field and
      the payload of length - 2 bytes; a payload that cannot be read comes back empty. */
  function SegmentAt(d: seq<byte>, p: nat): (r: Outcome<(nat, seq<byte>)>)
    requires p <= |d|
    ensures r.Done? <==> p + 2 <= |d|
    ensures r.Done? ==> r.value.0 < 0x10000 && r.value == (r.value.0, BytesAt(d, p + 2, r.value.0 - 2).GetOr([]))
  {
    match LengthAt(d, p)
    case Panic(c) => Panic(c)
    case Done(len) => Done((len, BytesAt(d, p + 2, len - 2).GetOr([])))
  }

  /** Where PrintMarkAndGetData leaves the reader. */
  function SegmentEnd(d: seq<byte>, p: nat): (q: nat)
    requires p <= |d|
    ensures p <= q <= |d|
  {
    match LengthAt(d, p)
    case Panic(_) => |d|
    case Done(len) => BytesEnd(d, p + 2, len - 2)
  }

  /** The height and width PrintMarkStartOfFrame0 reads from a frame-header payload
      (section B.2.2: P, then Y and X as 16-bit big-endian numbers) through data[1:3] and
      data[3:5]. Go checks these slices against the capacity of data, not its length: an
      empty payload is a nil slice and panics, while a payload of 1 to 4 bytes was built by
      one append to a nil slice, whose capacity is rounded up to 8 zeroed bytes, so the
      missing bytes read as zero. */
  function FrameDimensions(payload: seq<byte>): (r: Outcome<(nat, nat)>)
    ensures r.Panic? <==> payload == []
    ensures r.Panic? ==> r.crash == SliceOutOfRange
    ensures |payload| >= 5 ==> r == Done((BigEndian16(payload[1], payload[2]), BigEndian16(payload[3], payload[4])))
  {
    if payload == [] then Panic(SliceOutOfRange)
    else Done((BigEndian16(ZeroPadded(payload, 1), ZeroPadded(payload, 2)),
               BigEndian16(ZeroPadded(payload, 3), ZeroPadded(payload, 4))))
  }

  /** Byte i of a payload whose backing array is padded with zeros. */
  function ZeroPadded(payload: seq<byte>, i: nat): byte {
    if i < |payload| then payload[i] else 0
  }

  /** PrintMarkStartOfFrame0 at position p. */
  function FrameEffect(d: seq<byte>, p: nat, meta: Meta): (e: Effect)
    requires p <= |d|
    ensures p <= e.pos <= |d|
    ensures e.status.Crashed? ==> e.meta == meta
  {
    match SegmentAt(d, p)
    case Panic(c) => Effect(Crashed(c), meta, |d|)
    case Done(seg) =>
      match FrameDimensions(seg.1)
      case Panic(c) => Effect(Crashed(c), meta, SegmentEnd(d, p))
      case Done(hw) => Effect(Ok, meta.(height := hw.0, width := hw.1), SegmentEnd(d, p))
  }

  /** PrintMarkComment at position p. */
  function CommentEffect(d: seq<byte>, p: nat, meta: Meta): (e: Effect)
    requires p <= |d|
    ensures p <= e.pos <= |d|
    ensures e.meta.height == meta.height && e.meta.width == meta.width
  {
    match SegmentAt(d, p)
    case Panic(c) => Effect(Crashed(c), meta, |d|)
    case Done(seg) => Effect(Ok, meta.(comment := seg.1), SegmentEnd(d, p))
  }

  /** PrintMarkLength at position p: the segment is read and dropped. */
  function SkipEffect(d: seq<byte>, p: nat, meta: Meta): (e: Effect)
    requires p <= |d|
    ensures p <= e.pos <= |d|
    ensures e.meta == meta
    ensures e.status.Ok? <==> p + 2 <= |d|
  {
    match SegmentAt(d, p)
    case Panic(c) => Effect(Crashed(c), meta, |d|)
    case Done(_) => Effect(Ok, meta, SegmentEnd(d, p))
  }

  /** The branch of Decode's switch for marker code m, read just before position p. */
  function Handle(d: seq<byte>, p: nat, meta: Meta, m: byte, framing: Framing): (e: Effect)
    requires p <= |d|
    ensures p <= e.pos <= |d|
    ensures !HasLength(m, framing) ==> e == Effect(Ok, meta, p)
  {
    if m == SOF0 || m == SOF2 then FrameEffect(d, p, meta)
    else if m == COMM then CommentEffect(d, p, meta)
    else if Skipped(m, framing) then SkipEffect(d, p, meta)
    else Effect(Ok, meta, p)  // bare markers: EOI, unknown codes, and under AsWritten DRI and APPn
  }

  /** ScanToFFmark's loops, with c the byte last read (at p - 1): skip to the next 0xFF,
      then go on as MarkerAfterFF. */
  function ScanFrom(d: seq<byte>, p: nat, c: byte): (r: Outcome<(byte, nat)>)
    requires 0 < p <= |d| && d[p - 1] == c
    decreases |d| - p, 1
  {
    if c == FF then MarkerAfterFF(d, p)
    else if p == |d| then Panic(EndOfData)
    else ScanFrom(d, p + 1, d[p])
  }

  /** The switch of ScanToFFmark, after a 0xFF at p - 1: a fill byte 0xFF (and a stuffed
      zero after it), a restart marker or a stuffed zero resumes the scan; any other code is
      the marker found, returned with the position after it. */
  function MarkerAfterFF(d: seq<byte>, p: nat): (r: Outcome<(byte, nat)>)
    requires 0 < p <= |d| && d[p - 1] == FF
    decreases |d| - p, 0
  {
    if p == |d| then Panic(EndOfData)
    else
      var m := d[p];
      if m == FF then
        if p + 1 == |d| then Panic(EndOfData)
        else if d[p + 1] == 0x00 then
          if p + 2 == |d| then Panic(EndOfData) else ScanFrom(d, p + 3, d[p + 2])
        else ScanFrom(d, p + 2, d[p + 1])
      else if IsRestart(m) || m == 0x00 then
        if p + 1 == |d| then Panic(EndOfData) else ScanFrom(d, p + 2, d[p + 1])
      else Done((m, p + 1))
  }

  /** A marker ScanFrom finds is a genuine one: it follows a 0xFF and is neither a fill
      byte, a stuffed zero nor a restart marker; the only failure is the end of the data. */
  lemma {:induction false} ScanFromFindsMarker(d: seq<byte>, p: nat, c: byte)
    requires 0 < p <= |d| && d[p - 1] == c
    ensures var r := ScanFrom(d, p, c);
            && (r.Panic? ==> r.crash == EndOfData)
            && (r.Done? ==> p < r.value.1 <= |d| && d[r.value.1 - 2] == FF && d[r.value.1 - 1] == r.value.0)
            && (r.Done? ==> r.value.0 != FF && r.value.0 != 0x00 && !IsRestart(r.value.0))
    decreases |d| - p
  {
    if c != FF {
      if p < |d| {
        ScanFromFindsMarker(d, p + 1, d[p]);
      }
    } else if p < |d| {
      assert ScanFrom(d, p, c) == MarkerAfterFF(d, p);
      var m := d[p];
      if m == FF {
        if p + 1 < |d| {
          if d[p + 1] == 0x00 {
            if p + 2 < |d| {
              ScanFromFindsMarker(d, p + 3, d[p + 2]);
            }
          } else {
            ScanFromFindsMarker(d, p + 2, d[p + 1]);
          }
        }
      } else if (IsRestart(m) || m == 0x00) && p + 1 < |d| {
        ScanFromFindsMarker(d, p + 2, d[p + 1]);
      }
    }
  }

  /** ScanToFFmark at position p. */
  function ScanToMarker(d: seq<byte>, p: nat): (r: Outcome<(byte, nat)>)
    requires p <= |d|
    ensures r.Panic? ==> r.crash == EndOfData
    ensures r.Done? ==> p + 2 <= r.value.1 <= |d| && d[r.value.1 - 2] == FF && d[r.value.1 - 1] == r.value.0
    ensures r.Done? ==> r.value.0 != FF && r.value.0 != 0x00 && !IsRestart(r.value.0)
  {
    if p == |d| then Panic(EndOfData)
    else
      ScanFromFindsMarker(d, p + 1, d[p]);
      ScanFrom(d, p + 1, d[p])
  }

  /** Decode's loop from its head, where a 0xFF has just been read and p is the next
      position: read the marker code and run its branch of the switch. The loop's `scan`
      flag is false at every head (SOS returns as soon as it sets it), so the marker code is
      always the next byte and ScanToFFmark is never called from here. */
  function Walk(d: seq<byte>, p: nat, meta: Meta, framing: Framing): (f: Final)
    requires p <= |d|
    ensures p <= f.consumed <= |d|
    decreases |d| - p, 1
  {
    if p == |d| then Final(Panic(EndOfData), meta, p)
    else Resume(d, d[p], Handle(d, p + 1, meta, d[p], framing), framing)
  }

  /** The rest of a turn of Decode's loop, after the branch for marker code m has had
      effect e: stop on a panic, at SOS or at EOI, otherwise read the next lead byte and go
      round again while it is 0xFF. */
  function Resume(d: seq<byte>, m: byte, e: Effect, framing: Framing): (f: Final)
    requires e.pos <= |d|
    ensures e.pos <= f.consumed <= |d|
    decreases |d| - e.pos, 0
  {
    if e.status.Crashed? then Final(Panic(e.status.crash), e.meta, e.pos)
    else if m == SOS || m == EOI then Final(Done(None), e.meta, e.pos)
    else if e.pos == |d| then Final(Panic(EndOfData), e.meta, e.pos)
    else if d[e.pos] == FF then Walk(d, e.pos + 1, e.meta, framing)
    else Final(Done(None), e.meta, e.pos + 1)
  }

  /** Decode on a reader at position p whose fields hold meta. */
  function DecodeFrom(d: seq<byte>, p: nat, meta: Meta, framing: Framing): (f: Final)
    requires p <= |d|
    ensures p <= f.consumed <= |d|
  {
    if p == |d| then Final(Panic(EndOfData), meta, p)
    else if d[p] != FF then Final(Done(Some(NotStartingWithFF(d[p]))), meta, p + 1)
    else if p + 1 == |d| then Final(Panic(EndOfData), meta, p + 1)
    else if d[p + 1] != SOI then Final(Done(Some(NotStartingWithSOI(d[p + 1]))), meta, p + 2)
    else if p + 2 == |d| then Final(Panic(EndOfData), meta, p + 2)
    else if d[p + 2] == FF then Walk(d, p + 3, meta, framing)
    else Final(Done(None), meta, p + 3)
  }

  /** Decode on a freshly opened file, as the reader is written. */
  function Decode(d: seq<byte>): Final {
    DecodeFrom(d, 0, Blank, AsWritten)
  }

  /** Decode on a freshly opened file, with DRI and APPn read as the segments they are. */
  function IntendedDecode(d: seq<byte>): Final {
    DecodeFrom(d, 0, Blank, Intended)
  }

  /** A JpegReader over the bytes of one opened file. Opening the file and the buffered
      reader are not modelled: `input` is what the reader will deliver, and charCounter
      counts the bytes delivered so far, so it is also the reader's position. */
  class JpegReader {
    const input: seq<byte>
    var charCounter: nat
    var ImageHeight: nat
    var ImageWidth: nat
    var Comment: seq<byte>

    ghost predicate Valid()
      reads this
    {
      charCounter <= |input|
    }

    /** A reader positioned at the start of the file, with the fields at their zero values. */
    constructor Open(input: seq<byte>)
      ensures Valid()
      ensures this.input == input && charCounter == 0 && Meta(ImageHeight, ImageWidth, Comment) == Blank
    {
      this.input := input;
      charCounter := 0;
      ImageHeight, ImageWidth, Comment := 0, 0, [];
    }

    method NextByte() returns (r: Outcome<byte>)
      requires Valid()
      modifies this`charCounter
      ensures Valid()
      ensures r == ByteAt(input, old(charCounter))
      ensures charCounter == if r.Done? then old(charCounter) + 1 else old(charCounter)
    {
      if charCounter == |input| {
        return Panic(EndOfData);
      }
      r := Done(input[charCounter]);
      charCounter := charCounter + 1;
    }

    method SegmentLength() returns (r: Outcome<nat>)
      requires Valid()
      modifies this`charCounter
      ensures Valid()
      ensures r == LengthAt(input, old(charCounter))
      ensures charCounter == if r.Done? then old(charCounter) + 2 else |input|
    {
      var b0 :- NextByte();
      var b1 :- NextByte();
      return Done(BigEndian16(b0, b1));
    }

    /** Reads `length` bytes through bufio.Reader.Read, which may deliver them in chunks of
        any size; on io.EOF the bytes read so far are counted and dropped. */
    method Bytes(length: int) returns (r: Option<seq<byte>>)
      requires Valid()
      modifies this`charCounter
      ensures Valid()
      ensures r == BytesAt(input, old(charCounter), length)
      ensures charCounter == BytesEnd(input, old(charCounter), length)
    {
      var data: seq<byte> := [];
      var nread := 0;
      while nread < length
        invariant 0 <= nread <= (if length <= 0 then 0 else length)
        invariant charCounter + nread <= |input|
        invariant data == input[charCounter..charCounter + nread]
        decreases length - nread
      {
        if charCounter + nread == |input| {
          charCounter := charCounter + nread;
          return None;
        }
        var n :| 1 <= n <= length - nread && charCounter + nread + n <= |input|;
        data := data + input[charCounter + nread..charCounter + nread + n];
        nread := nread + n;
      }
      charCounter := charCounter + nread;
      return Some(data);
    }

    /** The length field and the payload of the segment that starts here; a read error is
        reported by the Go code and leaves the payload empty (nil). */
    method PrintMarkAndGetData() returns (r: Outcome<(nat, seq<byte>)>)
      requires Valid()
      modifies this`charCounter
      ensures Valid()
      ensures r == SegmentAt(input, old(charCounter))
      ensures charCounter == SegmentEnd(input, old(charCounter))
    {
      var length :- SegmentLength();
      var data := Bytes(length as int - 2);
      return Done((length, data.GetOr([])));
    }

    method PrintMarkLength() returns (r: Status)
      requires Valid()
      modifies this`charCounter
      ensures Valid()
      ensures Effect(r, Meta(ImageHeight, ImageWidth, Comment), charCounter) == SkipEffect(input, old(charCounter), old(Meta(ImageHeight, ImageWidth, Comment)))
    {
      var seg := PrintMarkAndGetData();
      if seg.Panic? {
        return Crashed(seg.crash);
      }
      return Ok;
    }

    method PrintMarkComment() returns (r: Status)
      requires Valid()
      modifies this`charCounter, this`Comment
      ensures Valid()
      ensures Effect(r, Meta(ImageHeight, ImageWidth, Comment), charCounter) == CommentEffect(input, old(charCounter), old(Meta(ImageHeight, ImageWidth, Comment)))
    {
      var seg := PrintMarkAndGetData();
      if seg.Panic? {
        return Crashed(seg.crash);
      }
      Comment := seg.value.1;
      return Ok;
    }

    method PrintMarkStartOfFrame0() returns (r: Status)
      requires Valid()
      modifies this`charCounter, this`ImageHeight, this`ImageWidth
      ensures Valid()
      ensures Effect(r, Meta(ImageHeight, ImageWidth, Comment), charCounter) == FrameEffect(input, old(charCounter), old(Meta(ImageHeight, ImageWidth, Comment)))
    {
      var seg := PrintMarkAndGetData();
      if seg.Panic? {
        return Crashed(seg.crash);
      }
      var hw := FrameDimensions(seg.value.1);  // data[1:3] and data[3:5]
      if hw.Panic? {
        return Crashed(hw.crash);
      }
      ImageHeight := hw.value.0;
      ImageWidth := hw.value.1;
      return Ok;
    }

    /** Skips entropy-coded data up to the next marker that is not a fill byte, a stuffed
        zero or a restart marker, and returns its code. */
    method ScanToFFmark() returns (r: Outcome<byte>)
      requires Valid()
      modifies this`charCounter
      ensures Valid()
      ensures r.Panic? ==> r.crash == EndOfData && charCounter == |input|
      ensures ScanToMarker(input, old(charCounter)) == if r.Done? then Done((r.value, charCounter)) else Panic(EndOfData)
    {
      ghost var goal := ScanToMarker(input, charCounter);
      var c :- NextByte();
      while true
        invariant Valid() && 0 < charCounter && input[charCounter - 1] == c
        invariant ScanFrom(input, charCounter, c) == goal
        decreases |input| - charCounter
      {
        while c != FF
          invariant Valid() && 0 < charCounter && input[charCounter - 1] == c
          invariant ScanFrom(input, charCounter, c) == goal
          decreases |input| - charCounter
        {
          c :- NextByte();
        }
        var m :- NextByte();
        if m == FF {
          c :- NextByte();
          if c == 0x00 {
            c :- NextByte();
          }
        } else if IsRestart(m) {
          c :- NextByte();
        } else if m == 0x00 {
          c :- NextByte();
        } else {
          return Done(m);
        }
      }
    }

    /** The switch of Decode on the marker code m; the trace printing of each mark is left
        out, so DRI, APP0, APP2, APP4, APPD, EOI and unknown codes do nothing here. */
    method HandleMarker(m: byte) returns (r: Status)
      requires Valid()
      modifies this`charCounter, this`ImageHeight, this`ImageWidth, this`Comment
      ensures Valid()
      ensures Effect(r, Meta(ImageHeight, ImageWidth, Comment), charCounter) == Handle(input, old(charCounter), old(Meta(ImageHeight, ImageWidth, Comment)), m, AsWritten)
    {
      if m == SOF0 || m == SOF2 {
        r := PrintMarkStartOfFrame0();
      } else if m == DHT || m == DQT || m == APP1 {
        r := PrintMarkLength();
      } else if m == DRI || m == APP0 || m == APP2 || m == APP4 || m == APPD {
        r := Ok;
      } else if m == COMM {
        r := PrintMarkComment();
      } else if m == SOS {
        r := PrintMarkLength();
      } else if m == EOI {
        r := Ok;
      } else {
        r := Ok;
      }
    }

    /** One turn of Decode's loop, at the position after a 0xFF lead byte: read the marker
        code, run the switch, then end decoding (SOS, EOI, a panic) or read the next lead
        byte; `more` says that byte was 0xFF and the loop goes round again. */
    method Turn() returns (r: Outcome<Option<DecodeError>>, more: bool)
      requires Valid()
      modifies this`charCounter, this`ImageHeight, this`ImageWidth, this`Comment
      ensures Valid() && old(charCounter) <= charCounter
      ensures more ==> r == Done(None) && old(charCounter) < charCounter
      ensures more ==> Walk(input, charCounter, Meta(ImageHeight, ImageWidth, Comment), AsWritten) ==
                       Walk(input, old(charCounter), old(Meta(ImageHeight, ImageWidth, Comment)), AsWritten)
      ensures !more ==> Final(r, Meta(ImageHeight, ImageWidth, Comment), charCounter) ==
                        Walk(input, old(charCounter), old(Meta(ImageHeight, ImageWidth, Comment)), AsWritten)
    {
      more := false;
      if charCounter == |input| {
        var _ := NextByte();
        return Panic(EndOfData), false;
      }
      var m := NextByte();
      var status := HandleMarker(m.value);
      if status.Crashed? {
        return Panic(status.crash), false;
      }
      if m.value == SOS {
        return Done(None), false;  // the scan is skipped
      }
      if m.value == EOI {
        return Done(None), false;
      }
      var cff := NextByte();
      if cff.Panic? {
        return Panic(cff.crash), false;
      }
      return Done(None), cff.value == FF;
    }

    /** Checks the SOI signature, then walks the marker segments until EOI, SOS or a lead
        byte other than 0xFF. The Go loop also carries a flag `scan`, meant to make the next
        turn call ScanToFFmark instead of reading the marker code; it is set only by the SOS
        branch, which returns at once, so every turn reads the marker code directly. */
    method Decode() returns (r: Outcome<Option<DecodeError>>)
      requires Valid()
      modifies this`charCounter, this`ImageHeight, this`ImageWidth, this`Comment
      ensures Valid()
      ensures r == DecodeFrom(input, old(charCounter), old(Meta(ImageHeight, ImageWidth, Comment)), AsWritten).status
      ensures Meta(ImageHeight, ImageWidth, Comment) == DecodeFrom(input, old(charCounter), old(Meta(ImageHeight, ImageWidth, Comment)), AsWritten).meta
      ensures charCounter == DecodeFrom(input, old(charCounter), old(Meta(ImageHeight, ImageWidth, Comment)), AsWritten).consumed
    {
      ghost var goal := DecodeFrom(input, charCounter, Meta(ImageHeight, ImageWidth, Comment), AsWritten);
      var cff :- NextByte();
      if cff != FF {
        return Done(Some(NotStartingWithFF(cff)));
      }
      var m :- NextByte();
      if m != SOI {
        return Done(Some(NotStartingWithSOI(m)));
      }
      cff :- NextByte();
      var more := cff == FF;
      r := Done(None);
      while more
        invariant Valid()
        invariant more ==> Walk(input, charCounter, Meta(ImageHeight, ImageWidth, Comment), AsWritten) == goal
        invariant !more ==> Final(r, Meta(ImageHeight, ImageWidth, Comment), charCounter) == goal
        decreases |input| - charCounter, more
      {
        r, more := Turn();
      }
    }
  }
}
