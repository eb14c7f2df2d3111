/** `read_audio_frame` of `audio_visualizer.py`: a resynchronising framer
    over the bytes waiting on the serial port. A frame is the magic pair
    0xAA 0x55, a big-endian 16-bit sample count and then two bytes per
    sample, each pair a little-endian signed 16-bit sample. */
module FrameParser {

  import opened Pcm

  /** `HEADER_MAGIC`. */
  const HEADER_MAGIC: nat := 0xAA55
  /** `(HEADER_MAGIC >> 8) & 0xFF`, the byte that starts a header. */
  const MAGIC_HIGH: Byte := (HEADER_MAGIC / 256) % 256
  /** `HEADER_MAGIC & 0xFF`, the byte that completes it. */
  const MAGIC_LOW: Byte := HEADER_MAGIC % 256

  /** Where the header scan ends: synchronised, with the bytes after the
      magic pair still waiting, or starved, with fewer than four bytes
      waiting at the top of an iteration. */
  datatype Scan = Synced(after: seq<Byte>) | Starved(rest: seq<Byte>)

  /** The outcome of one call, with the bytes still waiting afterwards.
      `Incomplete` is a frame whose payload has not yet fully arrived: the
      script waits for it without bound. */
  datatype FrameResult =
    | NoFrame(rest: seq<Byte>)
    | Incomplete(size: nat, rest: seq<Byte>)
    | Frame(samples: seq<int>, rest: seq<Byte>)

  /** The header-search loop as a function of the waiting bytes. A byte
      other than 0xAA is dropped on its own; after a 0xAA the next byte is
      always consumed, and if it is not 0x55 the search resumes after it. */
  function ScanHeader(waiting: seq<Byte>): (r: Scan)
    ensures r.Synced? ==> |r.after| >= 2
    decreases |waiting|
  {
    if |waiting| < 4 then Starved(waiting)
    else if waiting[0] != MAGIC_HIGH then ScanHeader(waiting[1..])
    else if waiting[1] != MAGIC_LOW then ScanHeader(waiting[2..])
    else Synced(waiting[2..])
  }

  /** The whole of `read_audio_frame` as a function of the waiting bytes.
      Whatever the outcome, the bytes left waiting are a suffix of the
      input: no frame leaves fewer than four, an incomplete frame has had
      at least its header and count consumed and a full frame also its
      payload, two bytes per int16 sample. */
  function ParseFrame(waiting: seq<Byte>): (r: FrameResult)
    ensures |r.rest| <= |waiting| && r.rest == waiting[|waiting| - |r.rest|..]
    ensures r.NoFrame? ==> |r.rest| < 4
    ensures r.Incomplete? ==> 4 + |r.rest| <= |waiting| && |r.rest| < 2 * r.size
    ensures r.Frame? ==> AllInt16(r.samples) && 4 + 2 * |r.samples| + |r.rest| <= |waiting|
  {
    match ScanHeader(waiting)
    case Starved(rest) =>
      StarvedLeavesShortSuffix(waiting);
      NoFrame(rest)
    case Synced(after) =>
      SyncedFollowsMagic(waiting);
      SyncedParseShape(waiting, after);
      ParseSynced(after)
  }

  /** What `ParseFrame` promises about the part after a header, for the
      bytes `after` that follow the magic pair within `waiting`. */
  lemma SyncedParseShape(waiting: seq<Byte>, after: seq<Byte>)
    requires |after| >= 2 && |after| + 2 <= |waiting| && after == waiting[|waiting| - |after|..]
    ensures var r := ParseSynced(after);
      |r.rest| <= |waiting| && r.rest == waiting[|waiting| - |r.rest|..] &&
      (r.Incomplete? ==> 4 + |r.rest| <= |waiting| && |r.rest| < 2 * r.size) &&
      (r.Frame? ==> AllInt16(r.samples) && 4 + 2 * |r.samples| + |r.rest| <= |waiting|)
  {
    var r := ParseSynced(after);
    var size := BigEndian16(after[0], after[1]);
    var m := if r.Frame? then 2 + 2 * size else 2;
    assert m <= |after| && r.rest == after[m..];
    SuffixAt(waiting, after, m);
    assert |waiting| - |after| + m == |waiting| - |r.rest|;
  }

  /** The bytes from position `m` of a suffix of `w` on are a suffix of
      `w` too. */
  lemma SuffixAt<T>(w: seq<T>, a: seq<T>, m: nat)
    requires |a| <= |w| && a == w[|w| - |a|..] && m <= |a|
    ensures a[m..] == w[|w| - |a| + m..]
  {
  }

  /** The part after the header: the big-endian count, then, once
      2 * count bytes have arrived, the samples they decode to; the bytes
      after the payload stay waiting. */
  function ParseSynced(after: seq<Byte>): (r: FrameResult)
    requires |after| >= 2
    ensures !r.NoFrame?
    ensures var size := BigEndian16(after[0], after[1]);
      (r.Incomplete? <==> |after| < 2 + 2 * size) &&
      (r.Incomplete? ==> r.size == size && r.rest == after[2..]) &&
      (r.Frame? ==>
         |r.samples| == size && AllInt16(r.samples) &&
         r.samples == DecodeInt16LE(after[2..2 + 2 * size]) && r.rest == after[2 + 2 * size..])
  {
    var size := BigEndian16(after[0], after[1]);
    var payload := after[2..];
    if |payload| < 2 * size then Incomplete(size, payload)
    else
      assert payload[..2 * size] == after[2..2 + 2 * size];
      assert payload[2 * size..] == after[2 + 2 * size..];
      Frame(DecodeInt16LE(payload[..2 * size]), payload[2 * size..])
  }

  /** `read_audio_frame`, consuming the waiting bytes one at a time. */
  method ReadAudioFrame(input: seq<Byte>) returns (r: FrameResult)
    ensures r == ParseFrame(input)
  {
    var waiting := input;
    var headerFound := false;
    while !headerFound
      invariant !headerFound ==> ScanHeader(waiting) == ScanHeader(input)
      invariant headerFound ==> ScanHeader(input) == Synced(waiting)
      decreases |waiting|
    {
      if |waiting| < 4 {
        return NoFrame(waiting);
      }
      ghost var before := waiting;
      var b1 := waiting[0];
      waiting := waiting[1..];
      if b1 != MAGIC_HIGH {
        assert ScanHeader(before) == ScanHeader(waiting);
        continue;
      }
      var b2 := waiting[0];
      waiting := waiting[1..];
      assert waiting == before[2..];
      if b2 != MAGIC_LOW {
        assert ScanHeader(before) == ScanHeader(waiting);
        continue;
      }
      assert ScanHeader(before) == Synced(waiting);
      headerFound := true;
    }
    assert ParseFrame(input) == ParseSynced(waiting);
    var sizeBytes := waiting[..2];
    waiting := waiting[2..];
    var packetSize := BigEndian16(sizeBytes[0], sizeBytes[1]);
    if |waiting| < packetSize * 2 {
      return Incomplete(packetSize, waiting);
    }
    var data := waiting[..packetSize * 2];
    waiting := waiting[packetSize * 2..];
    var samples := DecodeInt16LE(data);
    return Frame(samples, waiting);
  }

  // ---------------------------------------------------------------------
  // Properties of the framer

  /** With fewer than four bytes waiting nothing is read and no frame is
      returned. */
  lemma ShortInputGivesNoFrame(waiting: seq<Byte>)
    requires |waiting| < 4
    ensures ParseFrame(waiting) == NoFrame(waiting)
  {
  }

  /** A leading byte other than 0xAA is discarded on its own. */
  lemma NonMagicByteDiscarded(waiting: seq<Byte>)
    requires |waiting| >= 4 && waiting[0] != MAGIC_HIGH
    ensures ParseFrame(waiting) == ParseFrame(waiting[1..])
  {
  }

  /** A 0xAA followed by anything but 0x55 is discarded together with that
      byte. */
  lemma BrokenMagicDiscardsPair(waiting: seq<Byte>)
    requires |waiting| >= 4 && waiting[0] == MAGIC_HIGH && waiting[1] != MAGIC_LOW
    ensures ParseFrame(waiting) == ParseFrame(waiting[2..])
  {
  }

  /** The scan quirk: in `AA AA 55 ...` the second 0xAA is consumed as the
      would-be low byte of the first, so the framer does not synchronise on
      it. The same bytes without the first 0xAA form an empty frame. */
  lemma DoubledMagicHighMissesHeader()
    ensures ParseFrame([0xAA, 0xAA, 0x55, 0x00, 0x00]) == NoFrame([0x55, 0x00, 0x00])
    ensures ParseFrame([0xAA, 0x55, 0x00, 0x00]) == Frame([], [])
  {
    var quirk: seq<Byte> := [0xAA, 0xAA, 0x55, 0x00, 0x00];
    assert ParseFrame(quirk) == NoFrame([0x55, 0x00, 0x00]) by {
      assert quirk[2..] == [0x55, 0x00, 0x00];
      assert ScanHeader(quirk) == Starved([0x55, 0x00, 0x00]);
    }
    var clean: seq<Byte> := [0xAA, 0x55, 0x00, 0x00];
    assert ParseFrame(clean) == Frame([], []) by {
      var after: seq<Byte> := [0x00, 0x00];
      assert clean[2..] == after;
      assert ScanHeader(clean) == Synced(after);
      assert after[2..] == [];
      assert DecodeInt16LE([]) == [];
    }
  }

  /** A starved scan leaves a suffix of the input of fewer than four
      bytes. */
  lemma {:induction false} StarvedLeavesShortSuffix(waiting: seq<Byte>)
    requires ScanHeader(waiting).Starved?
    ensures var rest := ScanHeader(waiting).rest;
      |rest| < 4 && |rest| <= |waiting| && rest == waiting[|waiting| - |rest|..]
    decreases |waiting|
  {
    if |waiting| >= 4 {
      if waiting[0] != MAGIC_HIGH {
        StarvedLeavesShortSuffix(waiting[1..]);
      } else {
        StarvedLeavesShortSuffix(waiting[2..]);
      }
    }
  }

  /** A synchronised scan stops right after a 0xAA 0x55 pair of the input
      that has at least two more bytes behind it. */
  lemma {:induction false} SyncedFollowsMagic(waiting: seq<Byte>)
    requires ScanHeader(waiting).Synced?
    ensures var after := ScanHeader(waiting).after;
      var k := |waiting| - |after| - 2;
      0 <= k && k + 4 <= |waiting| &&
      waiting[k] == MAGIC_HIGH && waiting[k + 1] == MAGIC_LOW && after == waiting[k + 2..]
    decreases |waiting|
  {
    if waiting[0] != MAGIC_HIGH {
      SyncedFollowsMagic(waiting[1..]);
    } else if waiting[1] != MAGIC_LOW {
      SyncedFollowsMagic(waiting[2..]);
    }
  }

  /** A returned frame is well formed: its samples are int16, as many as
      the count field says, decoded from exactly the two bytes per sample
      that follow the count, and the bytes after them are left waiting. */
  lemma FrameIsWellFormed(waiting: seq<Byte>)
    requires ParseFrame(waiting).Frame?
    ensures var f := ParseFrame(waiting);
      var n := |f.samples|;
      var k := |waiting| - |f.rest| - 2 * n - 4;
      AllInt16(f.samples) &&
      0 <= k && k + 4 + 2 * n <= |waiting| &&
      waiting[k] == MAGIC_HIGH && waiting[k + 1] == MAGIC_LOW &&
      n == BigEndian16(waiting[k + 2], waiting[k + 3]) &&
      (forall i :: 0 <= i < n ==>
         f.samples[i] == Int16LE(waiting[k + 4 + 2 * i], waiting[k + 5 + 2 * i])) &&
      f.rest == waiting[k + 4 + 2 * n..]
  {
    SyncedFollowsMagic(waiting);
    var after := ScanHeader(waiting).after;
    assert ParseFrame(waiting) == ParseSynced(after);
    SyncedFrameAt(waiting, after, |waiting| - |after| - 2);
  }

  /** The frame read from the bytes after a magic pair at position `k`,
      located within the whole waiting input. */
  lemma SyncedFrameAt(waiting: seq<Byte>, after: seq<Byte>, k: nat)
    requires k + 4 <= |waiting| && after == waiting[k + 2..] && ParseSynced(after).Frame?
    ensures var f := ParseSynced(after);
      var n := |f.samples|;
      k == |waiting| - |f.rest| - 2 * n - 4 &&
      AllInt16(f.samples) && k + 4 + 2 * n <= |waiting| &&
      n == BigEndian16(waiting[k + 2], waiting[k + 3]) &&
      (forall i :: 0 <= i < n ==>
         f.samples[i] == Int16LE(waiting[k + 4 + 2 * i], waiting[k + 5 + 2 * i])) &&
      f.rest == waiting[k + 4 + 2 * n..]
  {
    var f := ParseSynced(after);
    var n := BigEndian16(after[0], after[1]);
    var data := after[2..2 + 2 * n];
    forall i | 0 <= i < n
      ensures f.samples[i] == Int16LE(waiting[k + 4 + 2 * i], waiting[k + 5 + 2 * i])
    {
      assert data[2 * i] == waiting[k + 4 + 2 * i] && data[2 * i + 1] == waiting[k + 5 + 2 * i];
    }
    SuffixAt(waiting, after, 2 + 2 * n);
  }


  /** The frame layout the parser expects, for samples that fit a frame. */
  function EncodeFrame(xs: seq<int>): (bytes: seq<Byte>)
    requires |xs| <= 65535
    ensures |bytes| == 4 + 2 * |xs|
    ensures bytes[0] == MAGIC_HIGH && bytes[1] == MAGIC_LOW
    ensures BigEndian16(bytes[2], bytes[3]) == |xs|
    ensures bytes[4..] == EncodeInt16LE(xs)
  {
    [MAGIC_HIGH, MAGIC_LOW, |xs| / 256, |xs| % 256] + EncodeInt16LE(xs)
  }

  /** Parsing inverts framing: an encoded frame followed by any bytes is
      read back exactly, and the following bytes stay waiting. */
  lemma FrameRoundTrip(xs: seq<int>, tail: seq<Byte>)
    requires |xs| <= 65535 && AllInt16(xs)
    ensures ParseFrame(EncodeFrame(xs) + tail) == Frame(xs, tail)
  {
    var w := EncodeFrame(xs) + tail;
    assert w[0] == MAGIC_HIGH && w[1] == MAGIC_LOW;
    var after := w[2..];
    assert ScanHeader(w) == Synced(after);
    assert BigEndian16(after[0], after[1]) == |xs|;
    var payload := after[2..];
    assert payload == EncodeInt16LE(xs) + tail;
    assert payload[..2 * |xs|] == EncodeInt16LE(xs);
    assert payload[2 * |xs|..] == tail;
    DecodeEncode(xs);
  }

  /** Resynchronisation: bytes that contain no 0xAA before a frame are
      skipped one by one and the frame is still found. */
  lemma {:induction false} SkipsGarbage(garbage: seq<Byte>, xs: seq<int>, tail: seq<Byte>)
    requires forall i :: 0 <= i < |garbage| ==> garbage[i] != MAGIC_HIGH
    requires |xs| <= 65535 && AllInt16(xs)
    ensures ParseFrame(garbage + EncodeFrame(xs) + tail) == Frame(xs, tail)
    decreases |garbage|
  {
    if garbage == [] {
      assert garbage + EncodeFrame(xs) + tail == EncodeFrame(xs) + tail;
      FrameRoundTrip(xs, tail);
    } else {
      var w := garbage + EncodeFrame(xs) + tail;
      assert w[0] == garbage[0];
      assert w[1..] == garbage[1..] + EncodeFrame(xs) + tail;
      SkipsGarbage(garbage[1..], xs, tail);
    }
  }
}
