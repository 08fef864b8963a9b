/** The frame loop of `main` in Animation.c: render frame i, stamp it with
    pts i, encode it; after the last frame, flush the encoder with one NULL
    submission. Any failure ends the program at once (exit(1)). */
module Animation {
  import opened Pixels
  import opened Render
  import opened Encoding

  /** The number of frames main renders. */
  const FrameCount := 3000

  /** Frame i as the workers leave the buffer: every pixel painted. */
  function Rendered(s0: seq<byte>, l: Layout, shade: Shade, i: int): seq<byte> {
    Paint(s0, l, i, shade, AllPixels())
  }

  /** The submissions of frames 0 .. n-1, in loop order. */
  function FrameSubmissions(s0: seq<byte>, l: Layout, shade: Shade, n: nat): seq<Submission> {
    if n == 0 then [] else FrameSubmissions(s0, l, shade, n - 1) + [Picture(n - 1, Rendered(s0, l, shade, n - 1))]
  }

  /** Everything main submits when nothing fails: the frames, then the flush. */
  function Schedule(s0: seq<byte>, l: Layout, shade: Shade): seq<Submission> {
    FrameSubmissions(s0, l, shade, FrameCount) + [Flush]
  }

  lemma {:induction false} FrameSubmissionsAt(s0: seq<byte>, l: Layout, shade: Shade, n: nat, k: int)
    requires 0 <= k < n
    ensures |FrameSubmissions(s0, l, shade, n)| == n
    ensures FrameSubmissions(s0, l, shade, n)[k] == Picture(k, Rendered(s0, l, shade, k))
  {
    if k < n - 1 {
      FrameSubmissionsAt(s0, l, shade, n - 1, k);
    } else {
      FrameSubmissionsLength(s0, l, shade, n - 1);
    }
  }

  lemma {:induction false} FrameSubmissionsLength(s0: seq<byte>, l: Layout, shade: Shade, n: nat)
    ensures |FrameSubmissions(s0, l, shade, n)| == n
  {
    if n > 0 {
      FrameSubmissionsLength(s0, l, shade, n - 1);
    }
  }

  /** The schedule submits frames with pts 0, 1, ..., FrameCount - 1, each
      carrying the completely rendered buffer of its own index, in strictly
      increasing pts order, and then exactly one flush, after the last frame. */
  lemma ScheduleOrder(s0: seq<byte>, l: Layout, shade: Shade)
    ensures |Schedule(s0, l, shade)| == FrameCount + 1
    ensures forall k :: 0 <= k < FrameCount ==>
      Schedule(s0, l, shade)[k] == Picture(k, Rendered(s0, l, shade, k))
    ensures forall j, k :: 0 <= j < k < FrameCount ==>
      Schedule(s0, l, shade)[j].pts < Schedule(s0, l, shade)[k].pts
    ensures forall k :: 0 <= k <= FrameCount ==> (Schedule(s0, l, shade)[k] == Flush <==> k == FrameCount)
  {
    var s := Schedule(s0, l, shade);
    FrameSubmissionsLength(s0, l, shade, FrameCount);
    forall k | 0 <= k < FrameCount ensures s[k] == Picture(k, Rendered(s0, l, shade, k)) {
      FrameSubmissionsAt(s0, l, shade, FrameCount, k);
    }
  }

  /** main's loop: FrameCount frames, each rendered by the twelve workers,
      stamped and encoded, then one flush. On success the encoder has seen
      exactly the schedule; on a failure it has seen a prefix of it, ending
      with the submission whose encode failed. The output file only grows. */
  method EncodeAnimation(frame: Frame, enc: Encoder, out: OutputFile, shade: Shade) returns (st: EncodeStatus)
    requires frame.Valid() && enc.submissions == []
    modifies frame, frame.data, enc, out
    ensures enc.submissions <= Schedule(old(frame.data[..]), frame.Geometry(), shade)
    ensures st == Done ==> enc.submissions == Schedule(old(frame.data[..]), frame.Geometry(), shade)
    ensures st != Done ==> enc.submissions != []
    ensures old(out.bytes) <= out.bytes
  {
    ghost var s0, bytes0 := frame.data[..], out.bytes;
    var l := frame.Geometry();
    var i := 0;
    while i < FrameCount
      invariant 0 <= i <= FrameCount
      invariant frame.Valid()
      invariant enc.submissions == FrameSubmissions(s0, l, shade, i)
      invariant frame.data[..] == if i == 0 then s0 else Rendered(s0, l, shade, i - 1)
      invariant bytes0 <= out.bytes
    {
      RenderedOver(s0, l, shade, i);
      PrepareFrameMultithreaded(i, frame, shade, SpawnOrder());
      frame.pts := i;
      st := Encode(enc, frame, out);
      if st != Done {
        PrefixOfSchedule(s0, l, shade, i + 1);
        return;
      }
      i := i + 1;
    }
    st := Encode(enc, null, out);
  }

  /** Rendering frame i over frame i - 1 (or over the initial buffer) gives
      frame i's full rendering. */
  lemma RenderedOver(s0: seq<byte>, l: Layout, shade: Shade, i: int)
    requires 0 <= i
    ensures Paint(if i == 0 then s0 else Rendered(s0, l, shade, i - 1), l, i, shade, AllPixels()) == Rendered(s0, l, shade, i)
  {
    if i > 0 {
      PaintOverwrites(s0, l, i - 1, i, shade, AllPixels(), AllPixels());
    }
  }

  lemma PrefixOfSchedule(s0: seq<byte>, l: Layout, shade: Shade, n: nat)
    requires n <= FrameCount
    ensures FrameSubmissions(s0, l, shade, n) <= Schedule(s0, l, shade)
  {
    FrameSubmissionsLength(s0, l, shade, n);
    FrameSubmissionsLength(s0, l, shade, FrameCount);
    forall k | 0 <= k < n
      ensures FrameSubmissions(s0, l, shade, n)[k] == Schedule(s0, l, shade)[k]
    {
      FrameSubmissionsAt(s0, l, shade, n, k);
      FrameSubmissionsAt(s0, l, shade, FrameCount, k);
    }
  }
}
