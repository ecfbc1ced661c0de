/**
 * Frame layout, the command encoder's output, and the byte-at-a-time frame
 * decoder of the ComfoAir protocol.
 *
 * The decoder keeps a 30-byte buffer and an index. Each incoming byte is
 * stored at the index and judged by `CheckByte`: `Continue` advances the
 * index, `Invalid` and `Complete` reset it to 0. The buffer itself is never
 * cleared, so bytes of earlier frames stay behind the index.
 */
module Framing {
  import opened Messages
  import opened Checksums

  /** Capacity of the receive buffer. */
  const BufferSize: nat := 30

  /** The largest data length whose frame fits the buffer. */
  const MaxDataLength: nat := BufferSize - HeadLength - TailLength

  lemma MaxDataLengthIs22()
    ensures MaxDataLength == 22
    ensures HeadLength + MaxDataLength + TailLength == BufferSize
  {
  }

  /** The decoder's verdict on one byte (the source's optional<bool>:
      true, false and empty). */
  datatype Check = Continue | Invalid | Complete

  function Verdict(ok: bool): Check
  {
    if ok then Continue else Invalid
  }

  /** The verdict on the byte just stored at `buf[index]`, by its position. */
  function CheckByte(buf: seq<uint8>, index: nat): (r: Check)
    requires |buf| == BufferSize && index < BufferSize
    ensures r == Continue ==> index + 1 < BufferSize
  {
    var b := buf[index];
    if index == 0 then Verdict(b == Prefix)
    else if index == 1 then
      if b == Ack then Complete else Verdict(b == Head)
    else if index == 2 then Verdict(b == 0x00)
    else if index < HeadLength then Continue
    else
      var len := buf[DataLengthIdx];
      if HeadLength + len + TailLength > BufferSize then Invalid
      else if index < HeadLength + len then Continue
      else if index == HeadLength + len then
        Verdict(Checksum(buf[2..HeadLength + len]) == b)
      else if index == HeadLength + len + 1 then Verdict(b == Prefix)
      else if index == HeadLength + len + 2 && b != Tail then Invalid
      else Complete
  }

  /** The decoder state: the receive buffer and the write index into it. */
  datatype Decoder = Decoder(buf: seq<uint8>, index: nat)
  {
    predicate Valid()
    {
      |buf| == BufferSize && index < BufferSize
    }
  }

  /** One byte: store it at the index, judge it, then step or reset the index.
      Every reachable index stays inside the buffer. */
  function Feed(d: Decoder, b: uint8): (r: (Decoder, Check))
    requires d.Valid()
    ensures r.0.Valid()
    ensures r.1 != Continue ==> r.0.index == 0
  {
    var buf := d.buf[d.index := b];
    var c := CheckByte(buf, d.index);
    (Decoder(buf, if c == Continue then d.index + 1 else 0), c)
  }

  /** The decoder after a run of bytes. */
  function Run(d: Decoder, bs: seq<uint8>): (r: Decoder)
    requires d.Valid()
    ensures r.Valid()
    decreases |bs|
  {
    if bs == [] then d else Run(Feed(d, bs[0]).0, bs[1..])
  }

  /** The verdicts on a run of bytes, one per byte. */
  function Trace(d: Decoder, bs: seq<uint8>): (r: seq<Check>)
    requires d.Valid()
    ensures |r| == |bs|
    decreases |bs|
  {
    if bs == [] then [] else [Feed(d, bs[0]).1] + Trace(Feed(d, bs[0]).0, bs[1..])
  }

  function Repeat(c: Check, n: nat): (r: seq<Check>)
    ensures |r| == n && forall i :: 0 <= i < n ==> r[i] == c
  {
    if n == 0 then [] else [c] + Repeat(c, n - 1)
  }

  /** The checksum byte the encoder writes: with a payload it adds the
      identifier and length to the payload's checksum; without one it takes
      the checksum of the identifier alone. */
  function EncoderChecksum(id: uint8, payload: seq<uint8>): uint8
    requires |payload| < 0x100
  {
    if |payload| > 0 then (id + |payload| + Checksum(payload)) % 0x100
    else Checksum([id])
  }

  /** The bytes the encoder emits for a command:
      `07 F0 00 id len payload... checksum 07 0F`. */
  function Frame(id: uint8, payload: seq<uint8>): (f: seq<uint8>)
    requires |payload| < 0x100
  {
    [Prefix, Head, 0x00, id, |payload|] + payload + [EncoderChecksum(id, payload), Prefix, Tail]
  }

  /** Both branches of the encoder's checksum equal the decoder's checksum
      over the frame from the reserved byte up to the end of the payload. */
  lemma EncoderChecksumAgrees(id: uint8, payload: seq<uint8>)
    requires |payload| < 0x100
    ensures EncoderChecksum(id, payload) == Checksum([0x00, id, |payload|] + payload)
  {
    var n := |payload|;
    ChecksumOfPrefixed([0x00, id, n], payload);
    assert Sum([0x00, id, n]) == id + n by {
      assert [0x00][..0] == [];
      assert Sum([0x00]) == 0;
      assert [0x00, id][..1] == [0x00];
      assert Sum([0x00, id]) == id;
      assert [0x00, id, n][..2] == [0x00, id];
    }
    if n == 0 {
      assert [id][..0] == [];
      assert Sum(payload) == 0;
    }
  }

  /** The layout of an encoded frame, byte by byte. */
  lemma FrameLayout(id: uint8, payload: seq<uint8>)
    requires |payload| < 0x100
    ensures var f := Frame(id, payload); var n := |payload|;
      |f| == HeadLength + n + TailLength
      && f[0] == Prefix && f[1] == Head && f[2] == 0x00
      && f[IdentifierIdx] == id && f[DataLengthIdx] == n
      && f[HeadLength..HeadLength + n] == payload
      && f[HeadLength + n] == Checksum(f[2..HeadLength + n])
      && f[HeadLength + n + 1] == Prefix && f[HeadLength + n + 2] == Tail
  {
    var f := Frame(id, payload);
    var n := |payload|;
    assert f[2..HeadLength + n] == [0x00, id, n] + payload;
    EncoderChecksumAgrees(id, payload);
  }

  /** The verdict on byte `j` of an encoded frame, when bytes 0..j of the
      frame have been stored over whatever the buffer held before. */
  lemma FrameByteVerdict(buf: seq<uint8>, id: uint8, payload: seq<uint8>, j: nat)
    requires |buf| == BufferSize && |payload| <= MaxDataLength
    requires j < |Frame(id, payload)|
    ensures var f := Frame(id, payload);
      CheckByte(f[..j + 1] + buf[j + 1..], j) == if j == |f| - 1 then Complete else Continue
  {
    var f := Frame(id, payload);
    var n := |payload|;
    var w := f[..j + 1] + buf[j + 1..];
    FrameLayout(id, payload);
    assert |w| == BufferSize;
    assert w[j] == f[j];
    if j >= HeadLength {
      assert w[DataLengthIdx] == n;
      if j == HeadLength + n {
        assert w[2..HeadLength + n] == f[2..HeadLength + n];
      }
    }
  }

  /** Feeding the rest of an encoded frame, from byte `j` on, continues on
      every byte but the last, completes on the last, and leaves the frame at
      the front of the buffer with the index back at 0. */
  lemma {:induction false} FrameSuffixAccepted(buf: seq<uint8>, id: uint8, payload: seq<uint8>, j: nat)
    requires |buf| == BufferSize && |payload| <= MaxDataLength
    requires j < |Frame(id, payload)|
    ensures var f := Frame(id, payload);
      var d := Decoder(f[..j] + buf[j..], j);
      d.Valid()
      && Trace(d, f[j..]) == Repeat(Continue, |f[j..]| - 1) + [Complete]
      && Run(d, f[j..]) == Decoder(f + buf[|f|..], 0)
    decreases |Frame(id, payload)| - j
  {
    var f := Frame(id, payload);
    var d := Decoder(f[..j] + buf[j..], j);
    assert d.buf[j := f[j]] == f[..j + 1] + buf[j + 1..];
    FrameByteVerdict(buf, id, payload, j);
    if j == |f| - 1 {
      assert f[j..] == [f[j]];
      assert f[..j + 1] == f;
    } else {
      assert f[j..][1..] == f[j + 1..];
      FrameSuffixAccepted(buf, id, payload, j + 1);
    }
  }

  /** Round trip: whatever the buffer holds, a decoder at index 0 accepts every
      frame the encoder emits with at most 22 data bytes: it continues on every
      byte but the last, completes on the last, and then holds the identifier
      and payload at their fixed positions. */
  lemma RoundTrip(buf: seq<uint8>, id: uint8, payload: seq<uint8>)
    requires |buf| == BufferSize && |payload| <= MaxDataLength
    ensures var f := Frame(id, payload);
      var d := Decoder(buf, 0);
      var r := Run(d, f);
      d.Valid()
      && Trace(d, f) == Repeat(Continue, |f| - 1) + [Complete]
      && r.index == 0 && r.buf[..|f|] == f
      && r.buf[IdentifierIdx] == id && r.buf[DataLengthIdx] == |payload|
      && r.buf[HeadLength..HeadLength + |payload|] == payload
  {
    var f := Frame(id, payload);
    assert f[..0] + buf[0..] == buf;
    assert f[0..] == f;
    FrameSuffixAccepted(buf, id, payload, 0);
    FrameLayout(id, payload);
    var r := Run(Decoder(buf, 0), f);
    assert r.buf[..|f|] == f;
    assert r.buf[HeadLength..HeadLength + |payload|] == f[HeadLength..HeadLength + |payload|];
  }

  /** An inbound acknowledgment `07 F3` completes at index 1. */
  lemma AckCompletesAtIndexOne(buf: seq<uint8>)
    requires |buf| == BufferSize
    ensures var d := Decoder(buf, 0);
      d.Valid()
      && Trace(d, [Prefix, Ack]) == [Continue, Complete]
      && Run(d, [Prefix, Ack]).index == 0
      && Run(d, [Prefix, Ack]).buf[AckIdx] == Ack
  {
    var d := Decoder(buf, 0);
    var d1 := Feed(d, Prefix).0;
    assert Feed(d, Prefix).1 == Continue && d1.index == 1;
    assert [Prefix, Ack][1..] == [Ack];
    assert Feed(d1, Ack).1 == Complete;
    assert Trace(d1, [Ack]) == [Complete];
    assert Run(d1, [Ack]) == Feed(d1, Ack).0;
  }

  /** A declared data length above 22 is rejected when the byte after the
      length (index 5) arrives, not when the length itself (index 4) does. */
  lemma OversizeRejectedAtIndexFive(buf: seq<uint8>, id: uint8, len: uint8, next: uint8)
    requires |buf| == BufferSize && len > MaxDataLength
    ensures var d := Decoder(buf, 0);
      d.Valid()
      && Trace(d, [Prefix, Head, 0x00, id, len, next])
         == [Continue, Continue, Continue, Continue, Continue, Invalid]
  {
    var bs := [Prefix, Head, 0x00, id, len, next];
    var d0 := Decoder(buf, 0);
    var d1 := Feed(d0, Prefix).0;
    var d2 := Feed(d1, Head).0;
    var d3 := Feed(d2, 0x00).0;
    var d4 := Feed(d3, id).0;
    var d5 := Feed(d4, len).0;
    assert d5.index == 5 && d5.buf[DataLengthIdx] == len;
    assert Trace(d5, [next]) == [Invalid];
    assert [len, next][1..] == [next];
    assert Trace(d4, [len, next]) == [Continue, Invalid];
    assert [id, len, next][1..] == [len, next];
    assert Trace(d3, [id, len, next]) == [Continue, Continue, Invalid];
    assert [0x00, id, len, next][1..] == [id, len, next];
    assert Trace(d2, [0x00, id, len, next]) == [Continue, Continue, Continue, Invalid];
    assert bs[1..][1..] == [0x00, id, len, next];
    assert Trace(d1, bs[1..]) == [Continue, Continue, Continue, Continue, Invalid];
  }

  /** A rejected byte is not looked at again as the start of a new frame: a
      stray prefix byte in front of a frame makes the decoder reject the
      frame's own prefix at index 1 and its head marker at index 0. */
  lemma RejectedByteNotReexamined(buf: seq<uint8>)
    requires |buf| == BufferSize
    ensures var d := Decoder(buf, 0);
      d.Valid()
      && Trace(d, [Prefix, Prefix, Head]) == [Continue, Invalid, Invalid]
      && Run(d, [Prefix, Prefix, Head]).index == 0
  {
    var bs := [Prefix, Prefix, Head];
    var d := Decoder(buf, 0);
    var d1 := Feed(d, Prefix).0;
    var d2 := Feed(d1, Prefix).0;
    assert d1.index == 1 && Feed(d1, Prefix).1 == Invalid && d2.index == 0;
    assert Feed(d2, Head).1 == Invalid;
    assert Trace(d2, [Head]) == [Invalid] && Run(d2, [Head]).index == 0;
    assert bs[1..] == [Prefix, Head];
    assert bs[1..][1..] == [Head];
    assert Trace(d1, [Prefix, Head]) == [Invalid, Invalid];
  }

  /** Resynchronisation: once a byte has been rejected (or a frame completed),
      the leftover buffer contents do not matter and the next encoded frame is
      accepted in full. */
  lemma FrameAcceptedAfterReset(d: Decoder, b: uint8, id: uint8, payload: seq<uint8>)
    requires d.Valid() && |payload| <= MaxDataLength
    requires Feed(d, b).1 != Continue
    ensures var f := Frame(id, payload);
      var d' := Feed(d, b).0;
      Trace(d', f) == Repeat(Continue, |f| - 1) + [Complete]
      && Run(d', f).index == 0
  {
    RoundTrip(Feed(d, b).0.buf, id, payload);
  }
  /** Along a run that the decoder accepts (every byte continues, the last
      completes), byte `k` is judged at index `k` over the bytes received so
      far stored in front of the old buffer contents. */
  lemma {:induction false} AcceptedSuffixVerdict(buf: seq<uint8>, bs: seq<uint8>, j: nat, k: nat, d: Decoder, rest: seq<uint8>)
    requires |buf| == BufferSize && j <= k < |bs| && j < BufferSize
    requires d == Decoder(bs[..j] + buf[j..], j) && rest == bs[j..]
    requires Trace(d, rest) == Repeat(Continue, |rest| - 1) + [Complete]
    ensures k < BufferSize
    ensures CheckByte(bs[..k + 1] + buf[k + 1..], k) == if k == |bs| - 1 then Complete else Continue
    decreases k - j
  {
    var w := bs[..j + 1] + buf[j + 1..];
    assert d.buf[j := bs[j]] == w;
    var t := Repeat(Continue, |rest| - 1) + [Complete];
    assert Trace(d, rest) == [CheckByte(w, j)] + Trace(Feed(d, bs[j]).0, rest[1..]);
    if j < k {
      assert t[0] == Continue;
      assert CheckByte(w, j) == Continue;
      assert rest[1..] == bs[j + 1..];
      assert t[1..] == Repeat(Continue, |rest[1..]| - 1) + [Complete];
      AcceptedSuffixVerdict(buf, bs, j + 1, k, Feed(d, bs[j]).0, rest[1..]);
    } else {
      assert t[0] == if k == |bs| - 1 then Complete else Continue;
    }
  }

  lemma AcceptedVerdict(buf: seq<uint8>, bs: seq<uint8>, k: nat)
    requires |buf| == BufferSize && k < |bs|
    requires Trace(Decoder(buf, 0), bs) == Repeat(Continue, |bs| - 1) + [Complete]
    ensures k < BufferSize
    ensures CheckByte(bs[..k + 1] + buf[k + 1..], k) == if k == |bs| - 1 then Complete else Continue
  {
    assert bs[..0] + buf[0..] == buf;
    AcceptedSuffixVerdict(buf, bs, 0, k, Decoder(buf, 0), bs);
  }

  /** The shape of a data frame, field by field, as the decoder checks it. */
  predicate WellFormed(bs: seq<uint8>)
  {
    HeadLength + TailLength <= |bs| <= BufferSize
    && bs[0] == Prefix && bs[1] == Head && bs[2] == 0x00
    && |bs| == HeadLength + bs[DataLengthIdx] + TailLength
    && bs[|bs| - 3] == Checksum(bs[2..|bs| - 3])
    && bs[|bs| - 2] == Prefix && bs[|bs| - 1] == Tail
  }

  lemma WellFormedIsFrame(bs: seq<uint8>)
    requires WellFormed(bs)
    ensures bs == Frame(bs[IdentifierIdx], bs[HeadLength..|bs| - TailLength])
  {
    var L := |bs|;
    var payload := bs[HeadLength..L - TailLength];
    assert bs[2..L - 3] == [0x00, bs[IdentifierIdx], bs[DataLengthIdx]] + payload;
    EncoderChecksumAgrees(bs[IdentifierIdx], payload);
  }

  /** The bytes of a run stored over the old buffer, up to position `k`. */
  lemma StoredBytes(buf: seq<uint8>, bs: seq<uint8>, k: nat, i: nat)
    requires |buf| == BufferSize && k < |bs| && k < BufferSize && i <= k
    ensures (bs[..k + 1] + buf[k + 1..])[i] == bs[i]
    ensures 2 <= i ==> (bs[..k + 1] + buf[k + 1..])[2..i] == bs[2..i]
  {
    if 2 <= i {
      assert (bs[..k + 1] + buf[k + 1..])[..k + 1] == bs[..k + 1];
    }
  }

  /** The check at a position at or after the head uses the run's own length byte. */
  lemma AcceptedVerdictAfterHead(buf: seq<uint8>, bs: seq<uint8>, k: nat)
    requires |buf| == BufferSize && HeadLength <= k < |bs|
    requires Trace(Decoder(buf, 0), bs) == Repeat(Continue, |bs| - 1) + [Complete]
    ensures k < BufferSize
    ensures var w := bs[..k + 1] + buf[k + 1..];
      w[DataLengthIdx] == bs[DataLengthIdx] && w[k] == bs[k] && w[2..k] == bs[2..k]
      && CheckByte(w, k) == if k == |bs| - 1 then Complete else Continue
  {
    AcceptedVerdict(buf, bs, k);
    StoredBytes(buf, bs, k, DataLengthIdx);
    StoredBytes(buf, bs, k, k);
  }

  /** Past the head, a byte continues only before the frame's last byte and
      completes only at or after it. */
  lemma VerdictAfterHead(w: seq<uint8>, k: nat)
    requires |w| == BufferSize && HeadLength <= k < BufferSize
    ensures CheckByte(w, k) == Continue ==> k < HeadLength + w[DataLengthIdx] + 2
    ensures CheckByte(w, k) == Complete ==>
      HeadLength + w[DataLengthIdx] + 2 <= k && HeadLength + w[DataLengthIdx] + TailLength <= BufferSize
  {
  }

  /** An accepted run longer than an acknowledgment has the declared length. */
  lemma AcceptedLength(buf: seq<uint8>, bs: seq<uint8>)
    requires |buf| == BufferSize && |bs| > 2
    requires Trace(Decoder(buf, 0), bs) == Repeat(Continue, |bs| - 1) + [Complete]
    ensures HeadLength + TailLength <= |bs| <= BufferSize
    ensures |bs| == HeadLength + bs[DataLengthIdx] + TailLength
  {
    var L := |bs|;
    AcceptedVerdict(buf, bs, 2);
    AcceptedVerdict(buf, bs, 3);
    AcceptedVerdict(buf, bs, 4);
    AcceptedVerdictAfterHead(buf, bs, L - 1);
    VerdictAfterHead(bs[..L] + buf[L..], L - 1);
    var k := HeadLength + bs[DataLengthIdx] + 2;
    if L - 1 > k {
      AcceptedVerdictAfterHead(buf, bs, k);
      VerdictAfterHead(bs[..k + 1] + buf[k + 1..], k);
      assert false;
    }
  }

  /** An accepted run starts with a prefix and is at least two bytes long. */
  lemma AcceptedFirstByte(buf: seq<uint8>, bs: seq<uint8>)
    requires |buf| == BufferSize && |bs| >= 1
    requires Trace(Decoder(buf, 0), bs) == Repeat(Continue, |bs| - 1) + [Complete]
    ensures |bs| >= 2 && bs[0] == Prefix
  {
    AcceptedVerdict(buf, bs, 0);
    StoredBytes(buf, bs, 0, 0);
  }

  /** The second byte ends the run exactly when it is an acknowledgment, and
      otherwise is a head. */
  lemma AcceptedSecondByte(buf: seq<uint8>, bs: seq<uint8>)
    requires |buf| == BufferSize && |bs| >= 2
    requires Trace(Decoder(buf, 0), bs) == Repeat(Continue, |bs| - 1) + [Complete]
    ensures |bs| == 2 ==> bs[1] == Ack
    ensures |bs| > 2 ==> bs[1] == Head
  {
    AcceptedVerdict(buf, bs, 1);
    StoredBytes(buf, bs, 1, 1);
  }

  /** The third byte of an accepted data frame is zero. */
  lemma AcceptedThirdByte(buf: seq<uint8>, bs: seq<uint8>)
    requires |buf| == BufferSize && |bs| > 2
    requires Trace(Decoder(buf, 0), bs) == Repeat(Continue, |bs| - 1) + [Complete]
    ensures bs[2] == 0x00
  {
    AcceptedVerdict(buf, bs, 2);
    StoredBytes(buf, bs, 2, 2);
  }

  /** What the checksum, prefix and tail positions accept. */
  lemma TrailerVerdicts(w: seq<uint8>, k: nat)
    requires |w| == BufferSize && HeadLength <= k < BufferSize
    requires HeadLength + w[DataLengthIdx] + TailLength <= BufferSize
    ensures k == HeadLength + w[DataLengthIdx] && CheckByte(w, k) == Continue ==> w[k] == Checksum(w[2..k])
    ensures k == HeadLength + w[DataLengthIdx] + 1 && CheckByte(w, k) == Continue ==> w[k] == Prefix
    ensures k == HeadLength + w[DataLengthIdx] + 2 && CheckByte(w, k) == Complete ==> w[k] == Tail
  {
  }

  /** The checksum byte of an accepted data frame covers bytes 2 up to it. */
  lemma AcceptedChecksum(buf: seq<uint8>, bs: seq<uint8>)
    requires |buf| == BufferSize && |bs| > 2
    requires Trace(Decoder(buf, 0), bs) == Repeat(Continue, |bs| - 1) + [Complete]
    ensures HeadLength + TailLength <= |bs| <= BufferSize
    ensures bs[|bs| - 3] == Checksum(bs[2..|bs| - 3])
  {
    AcceptedLength(buf, bs);
    var k := |bs| - 3;
    AcceptedVerdictAfterHead(buf, bs, k);
    TrailerVerdicts(bs[..k + 1] + buf[k + 1..], k);
  }

  /** An accepted data frame ends with a prefix and a tail. */
  lemma AcceptedTrailer(buf: seq<uint8>, bs: seq<uint8>)
    requires |buf| == BufferSize && |bs| > 2
    requires Trace(Decoder(buf, 0), bs) == Repeat(Continue, |bs| - 1) + [Complete]
    ensures HeadLength + TailLength <= |bs| <= BufferSize
    ensures bs[|bs| - 2] == Prefix && bs[|bs| - 1] == Tail
  {
    AcceptedLength(buf, bs);
    var k := |bs| - 2;
    AcceptedVerdictAfterHead(buf, bs, k);
    TrailerVerdicts(bs[..k + 1] + buf[k + 1..], k);
    AcceptedVerdictAfterHead(buf, bs, k + 1);
    TrailerVerdicts(bs[..k + 2] + buf[k + 2..], k + 1);
  }

  /** An accepted run longer than an acknowledgment is well formed. */
  lemma AcceptedWellFormed(buf: seq<uint8>, bs: seq<uint8>)
    requires |buf| == BufferSize && |bs| > 2
    requires Trace(Decoder(buf, 0), bs) == Repeat(Continue, |bs| - 1) + [Complete]
    ensures WellFormed(bs)
  {
    AcceptedLength(buf, bs);
    AcceptedFirstByte(buf, bs);
    AcceptedSecondByte(buf, bs);
    AcceptedThirdByte(buf, bs);
    AcceptedChecksum(buf, bs);
    AcceptedTrailer(buf, bs);
  }

  /** The decoder completes, from index 0, only on an acknowledgment `07 F3`
      or on exactly the bytes the encoder emits for some identifier and at
      most 22 data bytes. With `RoundTrip` this characterises the accepted
      byte runs in both directions. */
  lemma AcceptedIsAckOrFrame(buf: seq<uint8>, bs: seq<uint8>)
    requires |buf| == BufferSize && |bs| >= 1
    requires Trace(Decoder(buf, 0), bs) == Repeat(Continue, |bs| - 1) + [Complete]
    ensures bs == [Prefix, Ack]
      || (HeadLength + TailLength <= |bs| <= BufferSize
          && bs == Frame(bs[IdentifierIdx], bs[HeadLength..|bs| - TailLength]))
  {
    AcceptedFirstByte(buf, bs);
    AcceptedSecondByte(buf, bs);
    if |bs| == 2 {
      assert bs == [Prefix, Ack];
    } else {
      AcceptedWellFormed(buf, bs);
      WellFormedIsFrame(bs);
    }
  }
}
