# ESP32 I2S microphone: desktop-side sample plumbing and features, in Dafny

This project models the desktop side of an ESP32 microphone streamer. It
covers two Python scripts: the serial audio analyser
(`serial_audio_analyze.py`) and the serial visualiser with playback
(`audio_visualizer.py`). It proves properties of that model.

- The **analyser** reads 512-byte chunks from the serial port. Each chunk
  becomes 256 signed 16-bit samples, or 256 zeros after a short read. The
  samples go into a 512-sample ring (`deque(maxlen=512)`). The audio
  callback drains exactly `frames` samples in FIFO order and pads with zeros
  when the ring runs dry. The plot update peeks at the oldest 256 samples
  without consuming them. It computes the peak and a low/high "frequency"
  split from adjacent absolute differences (threshold 1000, each sum
  divided by the block length). It classifies the block as Calm, Noisy or
  Normal (thresholds 500 and 5000, first match wins). It adds the RMS
  value and the label to two 100-entry histories.
- The **visualiser** parses frames from the waiting serial bytes. A frame
  is the magic pair `0xAA 0x55`, a big-endian 16-bit sample count, and two
  little-endian bytes per sample. The parser resynchronises byte by byte.
  Decoded frames go into a playback queue bounded at 10 frames. When the
  queue is full, the new frame is dropped. The audio callback writes the
  front frame into the device buffer, padded with zeros or truncated to
  the buffer length. On an empty queue (an underrun) it writes silence.

Modules, one per file:

| file | module | contents |
|---|---|---|
| `wrappers.dfy` | `Wrappers` | `Option` |
| `pcm.dfy` | `Pcm` | bytes, little-endian int16 decode/encode, big-endian 16-bit count |
| `blocks.dfy` | `Blocks` | zero blocks, pad-or-truncate, keep-the-newest of a bounded deque |
| `features.dfy` | `Features` | classifier, colour table, peak, low/high energy split |
| `analyzer.dfy` | `Analyzer` | `AudioRing` and `PlotHistory` classes; reader step, drain, peek, plot update |
| `frame_parser.dfy` | `FrameParser` | header scan and frame parse as functions; the imperative `ReadAudioFrame`; framer properties |
| `playback.dfy` | `Playback` | `FrameQueue` class; the playback callback writing an `array`; the frame hand-over |

Modelling choices:
- Samples are unbounded `int`. The energies and the RMS are `real`, so
  division by the block length is exact.
- Waiting serial input is a `seq<Byte>` with `Byte = 0..255`.
- `np.frombuffer(..., int16)` uses the host's byte order. The model fixes it
  to little-endian, which is what common hosts use.
- The busy-wait for a frame's payload (audio_visualizer.py:103-104) waits
  until 2·count bytes are waiting, which a live stream normally delivers.
  Over a fixed input it would never end, so it becomes an `Incomplete`
  result. That result carries the count and the bytes left waiting after
  the header and count were consumed; a later parse starts from those
  bytes and does not resume the interrupted frame.
- Some stages are floating-point only: `process_audio` (DC block and
  Butterworth low-pass) and `calculate_rms`. `Analyzer.UpdatePlot` takes
  them as the function parameters `process` and `rmsOf`. Its contract says
  what the plot update does with their results.

In the analyser script, the features are computed on the output of
`process_audio`. `iir_lowpass` is defined there but never called, so it is
not modelled.

## Model

| member | source | states |
|---|---|---|
| `Features.Classify` | serial_audio_analyze.py:28-34 | first match wins: the returned row's condition holds and no row tried before it (Calm before Noisy before Normal) holds |
| `Features.CalmExactly` | serial_audio_analyze.py:29-30 | the label is Calm if and only if rms < 500 or low > 2·high, whatever the Noisy test says |
| `Features.NoisyExactly` | serial_audio_analyze.py:31-32 | the label is Noisy if and only if the Calm test fails and (rms > 5000 or high > 2·low) |
| `Features.NormalExactly` | serial_audio_analyze.py:33-34 | the label is Normal if and only if both tests fail |
| `Features.TieBreakIsCalm` | serial_audio_analyze.py:15-16 | rms 400 with high = 3·low meets the Noisy condition and is still classified Calm |
| `Features.LabelHasColor` | serial_audio_analyze.py:152 | every label the classifier returns is a key of the colour table, so the lookup cannot fail |
| `Features.Peak` | serial_audio_analyze.py:39-40 | for a non-empty block the peak is at least every absolute sample and equals one of them |
| `Features.PeakUnique` | serial_audio_analyze.py:39-40 | any value that bounds all absolute samples and is reached is the peak |
| `Features.PeakOfSilence` | serial_audio_analyze.py:39-40 | an all-zero block has peak 0 |
| `Features.AbsDiffs` | serial_audio_analyze.py:43 | the differences block has N-1 entries (none for an empty block), entry i being the absolute difference of samples i+1 and i |
| `Features.Below` | serial_audio_analyze.py:44 | the low mask `diff[diff < 1000]` keeps at most as many entries as the differences block, each below the threshold; with `MasksPartition` it is exactly those entries |
| `Features.AtLeast` | serial_audio_analyze.py:45 | the high mask `diff[diff >= 1000]` keeps at most as many entries as the differences block, each at or above the threshold; with `MasksPartition` it is exactly those entries |
| `Features.MasksPartition` | serial_audio_analyze.py:44-45 | together the two masks hold every difference exactly once (as multisets) |
| `Features.MasksSplitSum` | serial_audio_analyze.py:44-45 | the low sum plus the high sum is the sum of all differences |
| `Features.DiffsSumToTotalVariation` | serial_audio_analyze.py:43-45 | summing the difference block gives the sum of all adjacent absolute differences, defined independently from the end of the block |
| `Features.BandsSplitVariation` | serial_audio_analyze.py:42-45 | the unnormalised low and high sums are non-negative and add up to the total variation of the block |
| `Features.FreqDistribution` | serial_audio_analyze.py:42-48 | both normalised energies are non-negative and add up to the total variation divided by N, the block length, not by the N-1 differences |
| `Features.ConstantBlockHasNoEnergy` | serial_audio_analyze.py:42-48 | a constant block yields (0, 0) |
| `Features.SilenceIsCalm` | serial_audio_analyze.py:28-48 | the all-zero block has peak 0 and energies (0, 0), and with its RMS of 0 it is classified Calm |
| `Pcm.Int16LE` | serial_audio_analyze.py:102 | a little-endian byte pair decodes to a value in [-32768, 32767] that is congruent to the unsigned 16-bit word modulo 65536 |
| `Pcm.DecodeInt16LE` | audio_visualizer.py:107-108 | an even-length buffer of 2n bytes yields n int16 samples, sample i being the pair at bytes 2i and 2i+1 |
| `Pcm.DecodeEncode` | audio_visualizer.py:108 | decoding the little-endian encoding of int16 samples gives the samples back |
| `Pcm.EncodeDecode` | serial_audio_analyze.py:102 | encoding the decoded samples of an even-length buffer gives the bytes back, so no byte pattern is lost |
| `Pcm.BigEndian16` | audio_visualizer.py:99-100 | the count `(b0 << 8) \| b1` is in 0..65535 and both bytes can be read back from it |
| `Blocks.PadOrTruncate` | audio_visualizer.py:120-124 | exactly n outputs: sample i of the input while i is below its length, zero after that |
| `Blocks.PadOrTruncateExact` | audio_visualizer.py:123-124 | a frame of exactly the requested length passes unchanged |
| `Blocks.PadOrTruncateIdempotent` | audio_visualizer.py:120-124 | padding or truncating a result again changes nothing |
| `Blocks.Newest` | serial_audio_analyze.py:73 | a bounded deque keeps the suffix of min(length, maxlen) newest elements |
| `Blocks.BoundedAppend` | serial_audio_analyze.py:73 | `append` on a deque with `maxlen`, discarding the oldest element when full, leaves the newest maxlen elements of the old contents followed by the new one |
| `Blocks.BoundedExtend` | serial_audio_analyze.py:103-105 | extending a bounded deque one element at a time leaves the newest maxlen elements of the old contents followed by the new ones |
| `Analyzer.AudioRing.constructor` | serial_audio_analyze.py:73 | the ring starts empty and valid: within its 512-sample capacity, all int16 |
| `Analyzer.AudioRing.Extend` | serial_audio_analyze.py:103-105 | the ring becomes the newest 512 samples of its old contents followed by the new samples; it stays within capacity and holds only int16 samples |
| `Analyzer.AudioRing.PopLeft` | serial_audio_analyze.py:112-113 | a non-empty ring hands out its oldest sample and keeps the rest in order |
| `Analyzer.ReadBlock` | serial_audio_analyze.py:100-105 | one read appends exactly 256 int16 samples: the decoded pairs of a full 512-byte read, zeros after any short read |
| `Analyzer.SerialReaderStep` | serial_audio_analyze.py:99-105 | one reader iteration leaves the newest 512 samples of the old ring followed by that read's block |
| `Analyzer.ReaderStepKeepsNewest` | serial_audio_analyze.py:100-105 | after a read the ring has min(old + 256, 512) samples, ends with the new block, and before it holds the newest 256 of the old samples |
| `Analyzer.AudioCallback` | serial_audio_analyze.py:107-116 | the block has exactly `frames` samples, the oldest ring entries in order then zeros, all int16 so the `dtype=np.int16` cast changes nothing; the ring loses exactly its first min(frames, length) samples |
| `Analyzer.DrainIsFifo` | serial_audio_analyze.py:110-116 | the drained real samples followed by what is left of the ring are exactly the old ring |
| `Analyzer.PlotBlock` | serial_audio_analyze.py:127-130 | exactly 256 samples: the ring's first 256 when it holds at least 256, otherwise all zeros |
| `Analyzer.Peek` | serial_audio_analyze.py:126-130 | without touching the ring: its 256 oldest samples when it holds at least 256, otherwise 256 zeros |
| `Analyzer.PlotHistory.constructor` | serial_audio_analyze.py:51-53 | both histories start with 100 entries, RMS 0 and label Normal |
| `Analyzer.PlotHistory.Record` | serial_audio_analyze.py:140-144 | each history keeps its length 100, the newest value goes last and the oldest is removed |
| `Analyzer.UpdatePlot` | serial_audio_analyze.py:123-144 | the ring is only read; peak and label are computed from the processed peek block, and both histories shift by one entry |
| `FrameParser.ScanHeader` | audio_visualizer.py:80-96 | when the scan synchronises, at least the two count bytes are still waiting |
| `FrameParser.ParseFrame` | audio_visualizer.py:77-110 | the bytes left waiting are a suffix of the input: fewer than 4 when no frame is found, at least the 4 header and count bytes consumed for an incomplete frame, and also 2 bytes per int16 sample for a frame |
| `FrameParser.ParseSynced` | audio_visualizer.py:98-108 | never "no frame"; incomplete exactly when fewer than 2·count payload bytes follow the big-endian count, with nothing more consumed; otherwise count int16 samples decoded from the next 2·count bytes, the bytes after them left waiting |
| `FrameParser.ReadAudioFrame` | audio_visualizer.py:77-110 | the byte-at-a-time loop returns exactly what the frame parse function gives for the waiting bytes, including what stays waiting |
| `FrameParser.ShortInputGivesNoFrame` | audio_visualizer.py:82-83 | with fewer than 4 bytes waiting, no frame and no bytes consumed |
| `FrameParser.NonMagicByteDiscarded` | audio_visualizer.py:86-88 | a leading byte other than 0xAA is dropped on its own and the scan continues |
| `FrameParser.BrokenMagicDiscardsPair` | audio_visualizer.py:91-93 | a 0xAA followed by anything but 0x55 is dropped together with that byte |
| `FrameParser.DoubledMagicHighMissesHeader` | audio_visualizer.py:86-93 | in `AA AA 55 00 00` the second 0xAA is eaten as a low byte, so no frame is found, while `AA 55 00 00` is an empty frame |
| `FrameParser.StarvedLeavesShortSuffix` | audio_visualizer.py:82-83 | a starved scan returns None with fewer than 4 bytes left, and the bytes it consumed stay consumed |
| `FrameParser.SyncedFollowsMagic` | audio_visualizer.py:82-96 | the scan stops right after a 0xAA 0x55 pair of the input that was followed by at least the two count bytes |
| `FrameParser.FrameIsWellFormed` | audio_visualizer.py:77-110 | a returned frame sits at a 0xAA 0x55 header at position k of the input; it has int16 samples, as many as the count at k+2 and k+3, sample i decoded from bytes k+4+2i and k+5+2i, and the bytes after them stay waiting |
| `FrameParser.EncodeFrame` | audio_visualizer.py:23 | the frame layout the parser reads: 0xAA 0x55, then the sample count as a big-endian 16-bit value, then the little-endian int16 encoding of the samples, 4 + 2n bytes in all |
| `FrameParser.FrameRoundTrip` | audio_visualizer.py:77-110 | an encoded frame followed by any bytes parses back to its samples, with the following bytes left waiting |
| `FrameParser.SkipsGarbage` | audio_visualizer.py:81-88 | bytes without 0xAA in front of a frame are skipped and the frame is still found |
| `Playback.FrameQueue.constructor` | audio_visualizer.py:44 | the playback queue starts empty and valid, within its bound of 10 frames |
| `Playback.FrameQueue.PutNowait` | audio_visualizer.py:166-170 | a full queue of 10 frames is left unchanged and the frame is dropped; otherwise the frame is appended |
| `Playback.FrameQueue.GetNowait` | audio_visualizer.py:118 | the front frame is removed and returned, or None on an empty queue |
| `Playback.AudioCallback` | audio_visualizer.py:112-128 | the device buffer becomes the front frame padded or truncated to its length, or all zeros on underrun; the frame leaves the queue |
| `Playback.UpdatePlot` | audio_visualizer.py:130-172 | the frame read is the parse of the waiting bytes; only a complete, non-empty frame with playback on and room in the queue is appended (a count-0 frame raises at the FFT, line 140, before the put), otherwise the queue is unchanged |
| `Playback.OfferAll` | audio_visualizer.py:44 | offering frames one at a time never makes the queue exceed 10 frames |
| `Playback.OfferAllKeepsOldest` | audio_visualizer.py:166-170 | drop-on-full keeps the earliest frames: the queue becomes its old contents plus the first incoming frames that fit |

## Left out

- Serial port I/O is not modelled: opening the port, `ser.read`, `in_waiting` and the `'s'` start/stop command. Input is a given byte sequence, and one call of `ser.read(512)` is the parameter of `Analyzer.SerialReaderStep`.
- The busy-wait for a frame's payload (audio_visualizer.py:103-104) waits for the rest of the payload to arrive; the model works on a fixed input, where that wait would not end, and returns `Incomplete` instead, with the header and count bytes consumed. A later call does not resume that frame.
- Playback.UpdatePlot: on a count-0 frame the script raises `ValueError` at `np.fft.rfft` (audio_visualizer.py:140) out of `update_plot`; the model returns the empty frame normally and leaves the queue unchanged. The exception itself is not modelled.
- Floating-point DSP is not modelled: `calculate_rms` (sqrt), `iir_lowpass` (never called), `dc_block`, the Butterworth filter via scipy, the FFT, and the `/32768.0` normalisation of played samples. `Analyzer.UpdatePlot` takes `process_audio` and `calculate_rms` as parameters. The queues and the device buffer hold the integer samples, not the normalised floats.
- Analyzer.AudioCallback: the block is not run through `process_audio`, and the exception handler that zeroes the output is not modelled. The method returns the int16 block handed to processing.
- Features.Peak, Features.FreqDistribution: over unbounded integers. In the script these run on the float output of `process_audio`, so numpy's int16 wrap-around (`np.abs(-32768)`, `np.diff` overflow) cannot arise there. On raw int16 data, numpy would wrap where the model does not.
- `calculate_peak` and `calculate_freq_distribution` require a non-empty block. `np.max` raises on an empty array, and the energies would divide by zero. The script always passes 256 samples.
- The RMS/peak statistics text, the FPS computation from wall-clock time (audio_visualizer.py:149-163), and all matplotlib plotting and argparse handling are display or timing only.
- Concurrency is not modelled. The reader thread and the audio callback race on `audio_ring`, and `queue.Queue` is thread-safe. Each operation is modelled as one sequential step.
- `serial_audio_playback.py` is not part of this model. It is one sounddevice callback that reads serial data and zero-fills. The firmware sketches are not part of this model either.
- The host byte order of `np.frombuffer` is fixed to little-endian.
