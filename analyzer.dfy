/** The sample plumbing of `serial_audio_analyze.py`: the bounded ring
    `audio_ring` that the serial reader fills and the audio callback drains,
    the non-consuming 256-sample peek of the plot update and the two
    fixed-length plot histories. */
module Analyzer {

  import opened Pcm
  import opened Blocks
  import opened Features

  /** `BUFFER_SIZE`: samples per serial read and per plotted block. */
  const BUFFER_SIZE: nat := 256
  /** `maxlen` of `audio_ring`. */
  const RING_CAPACITY: nat := BUFFER_SIZE * 2
  /** `history_len`. */
  const HISTORY_LEN: nat := 100

  /** `audio_ring = deque(maxlen=BUFFER_SIZE * 2)`; `samples[0]` is the
      oldest sample, the one `popleft` returns. */
  class AudioRing {
    var samples: seq<int>

    ghost predicate Valid()
      reads this
    {
      |samples| <= RING_CAPACITY && AllInt16(samples)
    }

    constructor ()
      ensures Valid() && samples == []
    {
      samples := [];
    }

    /** `extend`: the new samples go on the right, one `append` at a
        time, and the ring keeps only the newest `RING_CAPACITY` samples.
        Every sample that reaches the ring is an int16. */
    method Extend(xs: seq<int>)
      requires Valid() && AllInt16(xs)
      modifies this
      ensures Valid()
      ensures samples == Newest(old(samples) + xs, RING_CAPACITY)
    {
      ghost var all := samples + xs;
      AllInt16Append(samples, xs);
      samples := BoundedExtend(samples, xs, RING_CAPACITY);
      AllInt16Suffix(all, |all| - |samples|);
    }

    /** `popleft` on a ring the caller has checked to be non-empty. */
    method PopLeft() returns (x: int)
      requires Valid() && samples != []
      modifies this
      ensures Valid()
      ensures x == old(samples)[0] && samples == old(samples)[1..]
      ensures IsInt16(x)
    {
      x := samples[0];
      samples := samples[1..];
    }
  }

  /** The samples one iteration of `serial_reader` appends for the bytes
      `ser.read(BUFFER_SIZE * 2)` returned. */
  function ReadBlock(data: seq<Byte>): (block: seq<int>)
    ensures |block| == BUFFER_SIZE
    ensures AllInt16(block)
    ensures |data| == 2 * BUFFER_SIZE ==>
      forall i :: 0 <= i < BUFFER_SIZE ==> block[i] == Int16LE(data[2 * i], data[2 * i + 1])
    ensures |data| != 2 * BUFFER_SIZE ==> forall i :: 0 <= i < BUFFER_SIZE ==> block[i] == 0
  {
    if |data| == 2 * BUFFER_SIZE then DecodeInt16LE(data) else Zeros(BUFFER_SIZE)
  }

  /** One iteration of the `serial_reader` loop: a full read appends its 256
      decoded samples, any short read appends 256 zeros instead and its
      bytes are discarded. */
  method SerialReaderStep(ring: AudioRing, data: seq<Byte>)
    requires ring.Valid()
    modifies ring
    ensures ring.Valid()
    ensures ring.samples == Newest(old(ring.samples) + ReadBlock(data), RING_CAPACITY)
  {
    if |data| == BUFFER_SIZE * 2 {
      var samples := DecodeInt16LE(data);
      ring.Extend(samples);
    } else {
      ring.Extend(Zeros(BUFFER_SIZE));
    }
  }

  /** After a reader step the appended block is the newest part of the ring
      and the samples before it are the newest of the old contents. */
  lemma ReaderStepKeepsNewest(before: seq<int>, data: seq<Byte>)
    requires |before| <= RING_CAPACITY
    ensures var block := ReadBlock(data);
      var after := Newest(before + block, RING_CAPACITY);
      |block| == BUFFER_SIZE &&
      |after| == Min(|before| + BUFFER_SIZE, RING_CAPACITY) &&
      after[|after| - BUFFER_SIZE..] == block &&
      after[..|after| - BUFFER_SIZE] == Newest(before, RING_CAPACITY - BUFFER_SIZE)
  {
    var block := ReadBlock(data);
    NewestEndsWithChunk(before, block, RING_CAPACITY);
  }

  /** The sample processing part of `audio_callback`: `frames` samples,
      taken oldest first while the ring has any, then zeros. */
  method AudioCallback(ring: AudioRing, frames: nat) returns (block: seq<int>)
    requires ring.Valid()
    modifies ring
    ensures ring.Valid()
    ensures block == PadOrTruncate(old(ring.samples), frames)
    ensures AllInt16(block)
    ensures ring.samples == old(ring.samples)[Min(frames, |old(ring.samples)|)..]
  {
    ghost var before := ring.samples;
    block := [];
    for i := 0 to frames
      invariant ring.Valid()
      invariant i <= |before| ==> ring.samples == before[i..]
      invariant i >= |before| ==> ring.samples == []
      invariant block == PadOrTruncate(before, i)
    {
      if ring.samples != [] {
        var x := ring.PopLeft();
        block := block + [x];
      } else {
        block := block + [0];
      }
      assert block == PadOrTruncate(before, i + 1);
    }
  }

  /** Draining splits the ring: the block's real samples followed by what
      is left are exactly the old contents, in order. */
  lemma DrainIsFifo(before: seq<int>, frames: nat)
    ensures var k := Min(frames, |before|);
      PadOrTruncate(before, frames)[..k] + before[k..] == before
  {
    var k := Min(frames, |before|);
    assert PadOrTruncate(before, frames)[..k] == before[..k];
  }

  /** The block `update_plot` plots and analyses: the 256 oldest samples
      when the ring holds that many, silence otherwise. */
  function PlotBlock(samples: seq<int>): (block: seq<int>)
    ensures |block| == BUFFER_SIZE
    ensures |samples| >= BUFFER_SIZE ==> forall i :: 0 <= i < BUFFER_SIZE ==> block[i] == samples[i]
    ensures |samples| < BUFFER_SIZE ==> forall i :: 0 <= i < BUFFER_SIZE ==> block[i] == 0
  {
    if |samples| >= BUFFER_SIZE then samples[..BUFFER_SIZE] else Zeros(BUFFER_SIZE)
  }

  /** That block, read without consuming the ring:
      the 256 oldest samples when the ring holds that many, silence
      otherwise. */
  method Peek(ring: AudioRing) returns (block: seq<int>)
    ensures block == PlotBlock(ring.samples)
  {
    if |ring.samples| >= BUFFER_SIZE {
      block := ring.samples[..BUFFER_SIZE];
    } else {
      block := Zeros(BUFFER_SIZE);
    }
  }

  /** `rms_history` and `env_history`, each a list of `HISTORY_LEN` entries
      with the newest last. */
  class PlotHistory {
    var rmsHistory: seq<real>
    var envHistory: seq<Environment>

    ghost predicate Valid()
      reads this
    {
      |rmsHistory| == HISTORY_LEN && |envHistory| == HISTORY_LEN
    }

    /** `[0] * history_len` and `["Normal"] * history_len`. */
    constructor ()
      ensures Valid()
      ensures forall i :: 0 <= i < HISTORY_LEN ==> rmsHistory[i] == 0.0 && envHistory[i] == Normal
    {
      rmsHistory := seq(HISTORY_LEN, _ => 0.0);
      envHistory := seq(HISTORY_LEN, _ => Normal);
    }

    /** `append` then `del [0]` on both lists. */
    method Record(rms: real, env: Environment)
      requires Valid()
      modifies this
      ensures Valid()
      ensures rmsHistory == old(rmsHistory)[1..] + [rms]
      ensures envHistory == old(envHistory)[1..] + [env]
    {
      rmsHistory := rmsHistory + [rms];
      rmsHistory := rmsHistory[1..];
      envHistory := envHistory + [env];
      envHistory := envHistory[1..];
    }
  }

  /** The analysis part of `update_plot`. `process` stands for
      `process_audio` and `rmsOf` for `calculate_rms`, the floating-point
      stages this model does not define. The ring is only read; the
      label is the classification of the processed peek block, and both
      histories move by one entry. */
  method UpdatePlot(ring: AudioRing, history: PlotHistory,
                    process: seq<int> -> seq<int>, rmsOf: seq<int> -> real)
    returns (env: Environment, peak: nat)
    requires history.Valid()
    requires forall b: seq<int> :: |b| == BUFFER_SIZE ==> |process(b)| == BUFFER_SIZE
    modifies history
    ensures history.Valid()
    ensures var filtered := process(PlotBlock(ring.samples));
      |filtered| == BUFFER_SIZE &&
      var (low, high) := FreqDistribution(filtered);
      peak == Peak(filtered) &&
      env == Classify(rmsOf(filtered), low, high) &&
      history.rmsHistory == old(history.rmsHistory)[1..] + [rmsOf(filtered)] &&
      history.envHistory == old(history.envHistory)[1..] + [env]
  {
    var samples := Peek(ring);
    var filtered := process(samples);
    var rms := rmsOf(filtered);
    peak := Peak(filtered);
    var (low, high) := FreqDistribution(filtered);
    env := Classify(rms, low, high);
    history.Record(rms, env);
  }
}
