/** Playback in `audio_visualizer.py`: the bounded `audio_queue` of frames,
    the audio callback that writes one queued frame, padded or truncated,
    into the device buffer, and the frame hand-over in `update_plot`. */
module Playback {

  import opened Pcm
  import opened Blocks
  import opened Wrappers
  import opened FrameParser

  /** `BUFFER_SIZE`: the number of frames `audio_queue` can hold. */
  const QUEUE_CAPACITY: nat := 10

  /** `audio_queue = queue.Queue(maxsize=BUFFER_SIZE)`; `frames[0]` is the
      next frame `get_nowait` returns. */
  class FrameQueue {
    var frames: seq<seq<int>>

    ghost predicate Valid()
      reads this
    {
      |frames| <= QUEUE_CAPACITY
    }

    constructor ()
      ensures Valid() && frames == []
    {
      frames := [];
    }

    /** `put_nowait`: a full queue raises `queue.Full` and is left as it
        was (`accepted` is false); otherwise the frame goes at the back. */
    method PutNowait(frame: seq<int>) returns (accepted: bool)
      requires Valid()
      modifies this
      ensures Valid()
      ensures accepted <==> |old(frames)| < QUEUE_CAPACITY
      ensures frames == if accepted then old(frames) + [frame] else old(frames)
    {
      accepted := |frames| < QUEUE_CAPACITY;
      if accepted {
        frames := frames + [frame];
      }
    }

    /** `get_nowait`: the front frame, or `None` where the script catches
        `queue.Empty`. */
    method GetNowait() returns (r: Option<seq<int>>)
      requires Valid()
      modifies this
      ensures Valid()
      ensures old(frames) == [] ==> r == None && frames == []
      ensures old(frames) != [] ==> r == Some(old(frames)[0]) && frames == old(frames)[1..]
    {
      if frames == [] {
        r := None;
      } else {
        r := Some(frames[0]);
        frames := frames[1..];
      }
    }
  }

  /** `audio_callback`: the device buffer `outdata` (one channel, `frames`
      long) receives the front queued frame, zero-padded when shorter and
      cut to its first `frames` samples when longer; on an empty queue (an
      underrun) the whole buffer is zero. */
  method AudioCallback(queue: FrameQueue, outdata: array<int>)
    requires queue.Valid()
    modifies queue, outdata
    ensures queue.Valid()
    ensures old(queue.frames) == [] ==>
      queue.frames == [] && outdata[..] == Zeros(outdata.Length)
    ensures old(queue.frames) != [] ==>
      queue.frames == old(queue.frames)[1..] &&
      outdata[..] == PadOrTruncate(old(queue.frames)[0], outdata.Length)
  {
    var got := queue.GetNowait();
    match got
    case Some(data) =>
      if |data| < outdata.Length {
        forall i | 0 <= i < |data| {
          outdata[i] := data[i];
        }
        forall i | |data| <= i < outdata.Length {
          outdata[i] := 0;
        }
      } else {
        forall i | 0 <= i < outdata.Length {
          outdata[i] := data[i];
        }
      }
      assert outdata[..] == PadOrTruncate(data, outdata.Length);
    case None =>
      forall i | 0 <= i < outdata.Length {
        outdata[i] := 0;
      }
      assert outdata[..] == Zeros(outdata.Length);
  }

  /** The frame hand-over in `update_plot`: read a frame from the waiting
      bytes and, when playback is on, offer it to the queue, dropping it if
      the queue is full. No frame (or one still incomplete) leaves the
      queue as it was, and so does a frame with a count of 0: the script
      raises on its empty sample array at `np.fft.rfft`, before the put. */
  method UpdatePlot(waiting: seq<Byte>, queue: FrameQueue, playAudio: bool) returns (r: FrameResult)
    requires queue.Valid()
    modifies queue
    ensures queue.Valid()
    ensures r == ParseFrame(waiting)
    ensures queue.frames ==
      if r.Frame? && |r.samples| > 0 && playAudio && |old(queue.frames)| < QUEUE_CAPACITY
      then old(queue.frames) + [r.samples]
      else old(queue.frames)
  {
    r := ReadAudioFrame(waiting);
    if r.Frame? && |r.samples| > 0 && playAudio {
      var _ := queue.PutNowait(r.samples);
    }
  }

  /** The functional form of successive hand-overs: each incoming frame
      is offered with `put_nowait` as `FrameQueue.PutNowait` does (appended
      when fewer than `QUEUE_CAPACITY` frames are queued, dropped
      otherwise), so the queue never holds more than its capacity. */
  function OfferAll(queued: seq<seq<int>>, incoming: seq<seq<int>>): (r: seq<seq<int>>)
    requires |queued| <= QUEUE_CAPACITY
    ensures |r| <= QUEUE_CAPACITY
    decreases |incoming|
  {
    if incoming == [] then queued
    else if |queued| < QUEUE_CAPACITY then OfferAll(queued + [incoming[0]], incoming[1..])
    else OfferAll(queued, incoming[1..])
  }

  /** Drop-on-full keeps the oldest frames: offering frames to a queue is
      the same as appending the first ones that fit. */
  lemma {:induction false} OfferAllKeepsOldest(queued: seq<seq<int>>, incoming: seq<seq<int>>)
    requires |queued| <= QUEUE_CAPACITY
    ensures OfferAll(queued, incoming) ==
      queued + incoming[..Min(|incoming|, QUEUE_CAPACITY - |queued|)]
    decreases |incoming|
  {
    if incoming != [] {
      if |queued| < QUEUE_CAPACITY {
        OfferAllKeepsOldest(queued + [incoming[0]], incoming[1..]);
        var m := Min(|incoming[1..]|, QUEUE_CAPACITY - |queued| - 1);
        assert queued + [incoming[0]] + incoming[1..][..m] == queued + incoming[..m + 1];
      } else {
        OfferAllKeepsOldest(queued, incoming[1..]);
      }
    }
  }
}
