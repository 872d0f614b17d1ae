/** Properties of the JPEG marker-stream reader, stated over the functions of module Jpeg
    that the methods of JpegReader are proved to follow. */
module JpegProperties {
  import opened Outcomes
  import opened Jpeg

  /** The bytes of one length-prefixed marker segment: 0xFF, the code, the 16-bit
      big-endian length (which counts its own two bytes), then the payload. */
  function SegmentBytes(code: byte, payload: seq<byte>): (s: seq<byte>)
    requires |payload| + 2 < 0x10000
    ensures |s| == |payload| + 4 && s[0] == FF && s[1] == code && s[4..] == payload
    ensures BigEndian16(s[2], s[3]) == |payload| + 2
  {
    var n := |payload| + 2;
    [FF, code, (n / 256) as byte, (n % 256) as byte] + payload
  }

  /** The fields after a complete segment with this code and payload has been read. */
  function Applied(code: byte, payload: seq<byte>, meta: Meta): Meta
    requires code == SOF0 || code == SOF2 ==> payload != []
  {
    if code == SOF0 || code == SOF2 then
      var hw := FrameDimensions(payload).value;
      meta.(height := hw.0, width := hw.1)
    else if code == COMM then meta.(comment := payload)
    else meta
  }

  /** A segment laid out from p - 1 is read at p + 1 as its length field and payload,
      and the read ends where its bytes end. */
  lemma SegmentInFile(d: seq<byte>, p: nat, code: byte, payload: seq<byte>)
    requires |payload| + 2 < 0x10000
    requires 0 < p && p + 3 + |payload| <= |d| && d[p - 1..p + 3 + |payload|] == SegmentBytes(code, payload)
    ensures d[p] == code
    ensures SegmentAt(d, p + 1) == Done((|payload| + 2, payload))
    ensures SegmentEnd(d, p + 1) == p + 3 + |payload|
  {
    var s := SegmentBytes(code, payload);
    assert d[p] == s[1] && d[p + 1] == s[2] && d[p + 2] == s[3];
    assert d[p + 3..p + 3 + |payload|] == s[4..];
  }

  /** Decode's loop passes over a complete segment of any code it reads with a length field
      other than SOS: the fields become Applied, and the loop goes on with the lead byte
      after the segment. */
  lemma WalkOverSegment(d: seq<byte>, p: nat, meta: Meta, framing: Framing, code: byte, payload: seq<byte>)
    requires |payload| + 2 < 0x10000
    requires 0 < p && p + 3 + |payload| <= |d| && d[p - 1..p + 3 + |payload|] == SegmentBytes(code, payload)
    requires HasLength(code, framing) && code != SOS
    requires code == SOF0 || code == SOF2 ==> payload != []
    ensures var q := p + 3 + |payload|;
            Walk(d, p, meta, framing) ==
              if q == |d| then Final(Panic(EndOfData), Applied(code, payload, meta), q)
              else if d[q] == FF then Walk(d, q + 1, Applied(code, payload, meta), framing)
              else Final(Done(None), Applied(code, payload, meta), q + 1)
  {
    SegmentInFile(d, p, code, payload);
  }

  /** At a complete SOS segment Decode returns nil with the fields unchanged, having
      consumed the scan header and not one byte after it. */
  lemma WalkStopsAtScan(d: seq<byte>, p: nat, meta: Meta, framing: Framing, payload: seq<byte>)
    requires |payload| + 2 < 0x10000
    requires 0 < p && p + 3 + |payload| <= |d| && d[p - 1..p + 3 + |payload|] == SegmentBytes(SOS, payload)
    ensures Walk(d, p, meta, framing) == Final(Done(None), meta, p + 3 + |payload|)
  {
    SegmentInFile(d, p, SOS, payload);
  }

  /** A marker code read without a length field (other than EOI) consumes only itself:
      the loop goes on with the very next byte as the lead byte. */
  lemma WalkOverBareMarker(d: seq<byte>, p: nat, meta: Meta, framing: Framing)
    requires p < |d| && !HasLength(d[p], framing) && d[p] != EOI
    ensures Walk(d, p, meta, framing) ==
              if p + 1 == |d| then Final(Panic(EndOfData), meta, p + 1)
              else if d[p + 1] == FF then Walk(d, p + 2, meta, framing)
              else Final(Done(None), meta, p + 2)
  {
  }

  /** Once past the signature, Decode's loop never reports an error: it returns nil or
      panics. */
  lemma {:induction false} WalkNeverRejects(d: seq<byte>, p: nat, meta: Meta, framing: Framing)
    requires p <= |d|
    ensures Walk(d, p, meta, framing).status.Done? ==> Walk(d, p, meta, framing).status.value == None
    decreases |d| - p
  {
    if p < |d| {
      var e := Handle(d, p + 1, meta, d[p], framing);
      if e.status.Ok? && d[p] != SOS && d[p] != EOI && e.pos < |d| && d[e.pos] == FF {
        WalkNeverRejects(d, e.pos + 1, e.meta, framing);
      }
    }
  }

  /** A read past the end of the data panics only once every byte has been consumed; the
      only other panic is the frame-header slice of an empty SOF payload. */
  lemma {:induction false} WalkPanicsAtEnd(d: seq<byte>, p: nat, meta: Meta, framing: Framing)
    requires p <= |d|
    ensures var f := Walk(d, p, meta, framing);
            f.status.Panic? ==> (f.status.crash == EndOfData && f.consumed == |d|) || f.status.crash == SliceOutOfRange
    decreases |d| - p
  {
    if p < |d| {
      var e := Handle(d, p + 1, meta, d[p], framing);
      if e.status.Ok? && d[p] != SOS && d[p] != EOI && e.pos < |d| && d[e.pos] == FF {
        WalkPanicsAtEnd(d, e.pos + 1, e.meta, framing);
      }
    }
  }

  /** The data does not start with the SOI signature 0xFF 0xD8 (looking only at the bytes
      there are). */
  predicate BadSignature(d: seq<byte>) {
    (|d| >= 1 && d[0] != FF) || (|d| >= 2 && d[0] == FF && d[1] != SOI)
  }

  /** Decode reports an error exactly when the signature is wrong; the error names the
      offending byte, the fields are untouched, and at most the two signature bytes have
      been read. */
  lemma DecodeRejectsExactlyBadSignatures(d: seq<byte>, meta: Meta, framing: Framing)
    ensures var f := DecodeFrom(d, 0, meta, framing);
            (f.status.Done? && f.status.value.Some?) <==> BadSignature(d)
    ensures BadSignature(d) ==>
              DecodeFrom(d, 0, meta, framing) ==
                if d[0] != FF then Final(Done(Some(NotStartingWithFF(d[0]))), meta, 1)
                else Final(Done(Some(NotStartingWithSOI(d[1]))), meta, 2)
  {
    if |d| >= 3 && d[0] == FF && d[1] == SOI && d[2] == FF {
      WalkNeverRejects(d, 3, meta, framing);
    }
  }

  /** c is the payload of a COM segment whose marker code is at q: the bytes that follow
      the code and its two length bytes. */
  predicate CommentAt(d: seq<byte>, q: nat, c: seq<byte>) {
    q + 3 + |c| <= |d| && d[q] == COMM && d[q + 3..q + 3 + |c|] == c
  }

  /** A branch of the switch leaves the comment alone, or sets it to the payload of the COM
      segment whose code it has just read. */
  lemma HandleKeepsOrReadsComment(d: seq<byte>, p: nat, meta: Meta, framing: Framing)
    requires 0 < p <= |d|
    ensures var c := Handle(d, p, meta, d[p - 1], framing).meta.comment;
            c == meta.comment || CommentAt(d, p - 1, c)
  {
    if d[p - 1] == COMM && p + 2 <= |d| {
      var c := Handle(d, p, meta, d[p - 1], framing).meta.comment;
      assert c == BytesAt(d, p + 2, LengthAt(d, p).value - 2).GetOr([]);
      assert d[p + 2..p + 2 + |c|] == c;
    }
  }

  /** The comment Decode's loop leaves is the one it started with, or the payload of a COM
      segment of the file at or after p. */
  lemma {:induction false} CommentComesFromFile(d: seq<byte>, p: nat, meta: Meta, framing: Framing)
    requires p <= |d|
    ensures var c := Walk(d, p, meta, framing).meta.comment;
            c == meta.comment || exists q :: p <= q && CommentAt(d, q, c)
    decreases |d| - p
  {
    if p < |d| {
      var e := Handle(d, p + 1, meta, d[p], framing);
      HandleKeepsOrReadsComment(d, p + 1, meta, framing);
      assert Walk(d, p, meta, framing) == Resume(d, d[p], e, framing);
      var c := Walk(d, p, meta, framing).meta.comment;
      if e.status.Ok? && d[p] != SOS && d[p] != EOI && e.pos < |d| && d[e.pos] == FF {
        assert Walk(d, p, meta, framing) == Walk(d, e.pos + 1, e.meta, framing);
        CommentComesFromFile(d, e.pos + 1, e.meta, framing);
        if c != e.meta.comment {
          var q :| e.pos + 1 <= q && CommentAt(d, q, c);
          assert p <= q;
        }
      } else {
        assert c == e.meta.comment;
      }
      if c != meta.comment {
        assert c == e.meta.comment ==> CommentAt(d, p, c);
      }
    }
  }

  /** The frame-header payload of a one-component frame of height h and width w with 8-bit
      samples (section B.2.2 of ITU-T T.81). */
  function FramePayload(h: nat, w: nat): (f: seq<byte>)
    requires h < 0x10000 && w < 0x10000
    ensures FrameDimensions(f) == Done((h, w))
  {
    [8, (h / 256) as byte, (h % 256) as byte, (w / 256) as byte, (w % 256) as byte, 1, 1, 0x11, 0]
  }

  /** The shape of a typical file: SOI, then three segments laid end to end, then
      whatever follows the third. */
  function ThreeSegments(s1: seq<byte>, s2: seq<byte>, s3: seq<byte>, rest: seq<byte>): seq<byte> {
    [FF, SOI] + s1 + s2 + s3 + rest
  }

  /** Where the three segments of ThreeSegments lie. */
  lemma ThreeSegmentsLayout(s1: seq<byte>, s2: seq<byte>, s3: seq<byte>, rest: seq<byte>)
    requires |s1| > 0 && |s2| > 0 && |s3| > 0
    ensures var d := ThreeSegments(s1, s2, s3, rest);
            && d[0] == FF && d[1] == SOI
            && d[2..2 + |s1|] == s1
            && d[2 + |s1|..2 + |s1| + |s2|] == s2
            && d[2 + |s1| + |s2|..2 + |s1| + |s2| + |s3|] == s3
            && |d| == 2 + |s1| + |s2| + |s3| + |rest|
  {
    var d := ThreeSegments(s1, s2, s3, rest);
    assert d == [FF, SOI] + s1 + (s2 + (s3 + rest));
    assert d[2..2 + |s1|] == s1;
    assert d == ([FF, SOI] + s1) + s2 + (s3 + rest);
    assert d[2 + |s1|..2 + |s1| + |s2|] == s2;
    assert d == ([FF, SOI] + s1 + s2) + s3 + rest;
    assert d[2 + |s1| + |s2|..2 + |s1| + |s2| + |s3|] == s3;
  }

  /** A file with a frame header, a comment and a scan header: Decode returns nil with the
      height, width and comment of those segments, having read up to the end of the scan
      header. */
  lemma FrameCommentScan(h: nat, w: nat, c: seq<byte>, s: seq<byte>, rest: seq<byte>)
    requires h < 0x10000 && w < 0x10000 && |c| + 2 < 0x10000 && |s| + 2 < 0x10000
    ensures var d := ThreeSegments(SegmentBytes(SOF0, FramePayload(h, w)), SegmentBytes(COMM, c), SegmentBytes(SOS, s), rest);
            Decode(d) == Final(Done(None), Meta(h, w, c), |d| - |rest|)
  {
    var s1, s2, s3 := SegmentBytes(SOF0, FramePayload(h, w)), SegmentBytes(COMM, c), SegmentBytes(SOS, s);
    var d := ThreeSegments(s1, s2, s3, rest);
    ThreeSegmentsLayout(s1, s2, s3, rest);
    var q1, q2 := 2 + |s1|, 2 + |s1| + |s2|;
    WalkOverSegment(d, 3, Blank, AsWritten, SOF0, FramePayload(h, w));
    assert d[q1] == s2[0];
    WalkOverSegment(d, q1 + 1, Meta(h, w, []), AsWritten, COMM, c);
    assert d[q2] == s3[0];
    WalkStopsAtScan(d, q2 + 1, Meta(h, w, c), AsWritten, s);
  }

  /** Of two COM segments the second one's payload is the comment Decode leaves. */
  lemma LastCommentWins(c1: seq<byte>, c2: seq<byte>, s: seq<byte>, rest: seq<byte>)
    requires |c1| + 2 < 0x10000 && |c2| + 2 < 0x10000 && |s| + 2 < 0x10000
    ensures var d := ThreeSegments(SegmentBytes(COMM, c1), SegmentBytes(COMM, c2), SegmentBytes(SOS, s), rest);
            Decode(d) == Final(Done(None), Blank.(comment := c2), |d| - |rest|)
  {
    var s1, s2, s3 := SegmentBytes(COMM, c1), SegmentBytes(COMM, c2), SegmentBytes(SOS, s);
    var d := ThreeSegments(s1, s2, s3, rest);
    ThreeSegmentsLayout(s1, s2, s3, rest);
    var q1, q2 := 2 + |s1|, 2 + |s1| + |s2|;
    WalkOverSegment(d, 3, Blank, AsWritten, COMM, c1);
    assert d[q1] == s2[0];
    WalkOverSegment(d, q1 + 1, Blank.(comment := c1), AsWritten, COMM, c2);
    assert d[q2] == s3[0];
    WalkStopsAtScan(d, q2 + 1, Blank.(comment := c2), AsWritten, s);
  }

  /** A JFIF file starts with an APP0 segment. The reader as written takes APP0 for a bare
      marker, reads the high byte of its length (0x00 for any APP0 shorter than 256 bytes)
      as the next lead byte and returns nil there: the comment that follows is never read. */
  lemma AppZeroHidesComment(j: seq<byte>, c: seq<byte>, s: seq<byte>, rest: seq<byte>)
    requires |j| + 2 < 0x100 && |c| + 2 < 0x10000 && |s| + 2 < 0x10000
    ensures var d := ThreeSegments(SegmentBytes(APP0, j), SegmentBytes(COMM, c), SegmentBytes(SOS, s), rest);
            Decode(d) == Final(Done(None), Blank, 5)
  {
    var s1, s2, s3 := SegmentBytes(APP0, j), SegmentBytes(COMM, c), SegmentBytes(SOS, s);
    var d := ThreeSegments(s1, s2, s3, rest);
    ThreeSegmentsLayout(s1, s2, s3, rest);
    assert d[3] == s1[1] && d[4] == s1[2] == 0;
    WalkOverBareMarker(d, 3, Blank, AsWritten);
  }

  /** Reading APP0 with its length field, as section B.2.4.6 of ITU-T T.81 lays it out,
      passes over the JFIF header and reaches the comment that follows it. */
  lemma IntendedReadsCommentAfterAppZero(j: seq<byte>, c: seq<byte>, s: seq<byte>, rest: seq<byte>)
    requires |j| + 2 < 0x10000 && |c| + 2 < 0x10000 && |s| + 2 < 0x10000
    ensures var d := ThreeSegments(SegmentBytes(APP0, j), SegmentBytes(COMM, c), SegmentBytes(SOS, s), rest);
            IntendedDecode(d) == Final(Done(None), Blank.(comment := c), |d| - |rest|)
  {
    var s1, s2, s3 := SegmentBytes(APP0, j), SegmentBytes(COMM, c), SegmentBytes(SOS, s);
    var d := ThreeSegments(s1, s2, s3, rest);
    ThreeSegmentsLayout(s1, s2, s3, rest);
    var q1, q2 := 2 + |s1|, 2 + |s1| + |s2|;
    WalkOverSegment(d, 3, Blank, Intended, APP0, j);
    assert d[q1] == s2[0];
    WalkOverSegment(d, q1 + 1, Blank, Intended, COMM, c);
    assert d[q2] == s3[0];
    WalkStopsAtScan(d, q2 + 1, Blank.(comment := c), Intended, s);
  }
}
