/** The video path around the copy loop: which pixel format the core
    declared, the frame callback that queues the core's frames, the drain of
    that queue once per tick, and the refresh-rate test for variable
    refresh rate displays. */
module Video {
  import opened Wrappers
  import opened MachineInts
  import opened Color
  import opened Raster

  // ---------------------------------------------------------------------
  // Pixel-format negotiation
  // ---------------------------------------------------------------------

  /** Bytes per pixel assumed when the core declared no format. */
  const DEFAULT_BPP: nat := 2

  /** The drain loop of `set_up_pixel_format`, starting from `bpp`: each
      declaration overwrites the value, so only the last one counts. */
  function DrainFormats(bpp: nat, declared: seq<PixelFormat>): (r: nat)
    ensures |declared| == 0 ==> r == bpp
    ensures |declared| > 0 ==> r == BytesPerPixel(declared[|declared| - 1])
    decreases |declared|
  {
    if |declared| == 0 then bpp
    else DrainFormats(BytesPerPixel(declared[0]), declared[1..])
  }

  /** `set_up_pixel_format`: 2 when nothing was declared, otherwise the bytes
      per pixel of the last declaration; never 0. */
  function SetUpPixelFormat(declared: seq<PixelFormat>): (bpp: nat)
    ensures bpp == 2 || bpp == 4
    ensures |declared| == 0 ==> bpp == DEFAULT_BPP
    ensures |declared| > 0 ==> (bpp == 4 <==> declared[|declared| - 1] == ARGB8888)
  {
    DrainFormats(DEFAULT_BPP, declared)
  }

  /** The front-end's format state: the negotiated bytes per pixel (0 until
      the first negotiation) and the declarations not yet drained. */
  datatype FormatState = FormatState(bpp: nat, pending: seq<PixelFormat>)

  /** One tick of the event loop as far as formats go: the core may declare
      formats while it runs, then the front-end negotiates only while its
      bytes per pixel is still 0. */
  function Tick(s: FormatState, declared: seq<PixelFormat>): (t: FormatState)
    ensures s.bpp == 0 ==> t == FormatState(SetUpPixelFormat(s.pending + declared), [])
    ensures s.bpp != 0 ==> t == FormatState(s.bpp, s.pending + declared)
  {
    var pending := s.pending + declared;
    if s.bpp == 0 then FormatState(SetUpPixelFormat(pending), []) else FormatState(s.bpp, pending)
  }

  /** A run of ticks, one list of declarations per tick. */
  function Ticks(s: FormatState, perTick: seq<seq<PixelFormat>>): FormatState
    decreases |perTick|
  {
    if |perTick| == 0 then s else Ticks(Tick(s, perTick[0]), perTick[1..])
  }

  /** The format is fixed by the first tick: whatever the core declares
      later, the bytes per pixel stay what the first negotiation chose. */
  lemma {:induction false} FormatFixedAfterFirstTick(s: FormatState, perTick: seq<seq<PixelFormat>>)
    requires s.bpp == 0 && |perTick| > 0
    ensures Ticks(s, perTick).bpp == SetUpPixelFormat(s.pending + perTick[0])
    ensures Ticks(s, perTick).bpp != 0
  {
    var first := Tick(s, perTick[0]);
    assert first.bpp == SetUpPixelFormat(s.pending + perTick[0]);
    NegotiatedStateIsKept(first, perTick[1..]);
  }

  /** Once negotiated, ticks never change the bytes per pixel. */
  lemma {:induction false} NegotiatedStateIsKept(s: FormatState, perTick: seq<seq<PixelFormat>>)
    requires s.bpp != 0
    ensures Ticks(s, perTick).bpp == s.bpp
    decreases |perTick|
  {
    if |perTick| > 0 {
      NegotiatedStateIsKept(Tick(s, perTick[0]), perTick[1..]);
    }
  }

  // ---------------------------------------------------------------------
  // The frame callback
  // ---------------------------------------------------------------------

  /** One queued frame: its bytes and the pitch it was delivered with. */
  datatype VideoData = VideoData(frameBuffer: seq<bv8>, pitch: u32)

  /** `(pitch as u32) * height`: the pitch is truncated to 32 bits and the
      product wraps around as an unsigned 32-bit value. */
  function FrameLength(pitch: nat, height: u32): (n: u32)
    ensures pitch < 0x1_0000_0000 && pitch * height < 0x1_0000_0000 ==> n == pitch * height
  {
    WrapU32(WrapU32(pitch) * height)
  }

  /** The frame callback. `None` is a null frame pointer, which queues
      nothing; otherwise the first `FrameLength` bytes of the core's memory
      are queued with the truncated pitch. The width is not used. */
  function OnVideoFrame(queue: seq<VideoData>, frame: Option<seq<bv8>>, width: u32, height: u32, pitch: nat): (q: seq<VideoData>)
    requires frame.Some? ==> FrameLength(pitch, height) <= |frame.value|
    ensures frame.None? ==> q == queue
    ensures frame.Some? ==> |q| == |queue| + 1 && q[..|queue|] == queue
    ensures frame.Some? ==> q[|queue|].pitch == WrapU32(pitch)
    ensures frame.Some? ==> q[|queue|].frameBuffer == frame.value[..FrameLength(pitch, height)]
  {
    match frame
    case None => queue
    case Some(mem) =>
      var n := FrameLength(pitch, height);
      queue + [VideoData(mem[..n], WrapU32(pitch))]
  }

  /** The arguments of one frame callback. */
  datatype FrameCall = FrameCall(frame: Option<seq<bv8>>, width: u32, height: u32, pitch: nat)

  /** The core's memory holds the bytes the callback reads. */
  predicate CallReadable(c: FrameCall) {
    c.frame.Some? ==> FrameLength(c.pitch, c.height) <= |c.frame.value|
  }

  /** A run of frame callbacks, in call order. */
  function OnVideoFrames(queue: seq<VideoData>, calls: seq<FrameCall>): seq<VideoData>
    requires forall i :: 0 <= i < |calls| ==> CallReadable(calls[i])
    decreases |calls|
  {
    if |calls| == 0 then queue
    else
      var c := calls[0];
      assert CallReadable(c);
      assert forall i :: 0 <= i < |calls| - 1 ==> calls[1..][i] == calls[i + 1];
      OnVideoFrames(OnVideoFrame(queue, c.frame, c.width, c.height, c.pitch), calls[1..])
  }

  /** The message one call should send: none for a null frame, otherwise
      the frame's first `FrameLength` bytes and its truncated pitch. */
  function SentBy(c: FrameCall): seq<VideoData>
    requires CallReadable(c)
  {
    if c.frame.Some? then [VideoData(c.frame.value[..FrameLength(c.pitch, c.height)], WrapU32(c.pitch))] else []
  }

  /** The messages a run of calls should send: one per non-null frame, in
      call order, each the frame's first `FrameLength` bytes and its pitch. */
  function Sent(calls: seq<FrameCall>): seq<VideoData>
    requires forall i :: 0 <= i < |calls| ==> CallReadable(calls[i])
    decreases |calls|
  {
    if |calls| == 0 then []
    else
      var c := calls[0];
      assert forall i :: 0 <= i < |calls| - 1 ==> calls[1..][i] == calls[i + 1];
      SentBy(c) + Sent(calls[1..])
  }

  /** A run of frame callbacks appends exactly the non-null frames to the
      queue, in call order; null frames leave no trace. */
  lemma {:induction false} FrameRunQueuesNonNullFrames(queue: seq<VideoData>, calls: seq<FrameCall>)
    requires forall i :: 0 <= i < |calls| ==> CallReadable(calls[i])
    ensures OnVideoFrames(queue, calls) == queue + Sent(calls)
    decreases |calls|
  {
    if |calls| == 0 {
      assert queue + [] == queue;
    } else {
      var c := calls[0];
      var q1 := OnVideoFrame(queue, c.frame, c.width, c.height, c.pitch);
      assert q1 == queue + SentBy(c);
      FrameRunQueuesNonNullFrames(q1, calls[1..]);
      assert queue + SentBy(c) + Sent(calls[1..]) == queue + (SentBy(c) + Sent(calls[1..]));
    }
  }

  /** A frame the core describes with a small enough pitch and height is
      queued whole: exactly `pitch * height` bytes tagged with `pitch`. */
  lemma QueuedFrameIsWhole(queue: seq<VideoData>, mem: seq<bv8>, width: u32, height: u32, pitch: u32)
    requires pitch * height < 0x1_0000_0000 && pitch * height <= |mem|
    ensures var q := OnVideoFrame(queue, Some(mem), width, height, pitch);
      q == queue + [VideoData(mem[..pitch * height], pitch)]
  {
  }

  /** A pitch and height whose product needs more than 32 bits queue a
      shorter frame than the core described. */
  lemma OversizedFrameIsTruncated(mem: seq<bv8>)
    requires |mem| == 0
    ensures FrameLength(0x1_0000, 0x1_0000) == 0
    ensures OnVideoFrame([], Some(mem), 0x4000, 0x1_0000, 0x1_0000)[0].frameBuffer == []
  {
  }

  // ---------------------------------------------------------------------
  // render_frame: draining the queue
  // ---------------------------------------------------------------------

  /** What the event loop is told after a tick. */
  datatype ControlFlow = Poll | Exit

  /** Result of one drain: the control flow, the frames left in the queue
      and the surface after the copies. */
  datatype Rendered = Rendered(flow: ControlFlow, pending: seq<VideoData>, surface: seq<bv8>)

  /** The layout a queued frame is copied with. */
  function FrameLayout(v: VideoData, format: PixelFormat, bpp: nat, width: nat, height: nat): Layout {
    Layout(format, bpp, v.pitch, width, height)
  }

  /** Copying `src` onto a surface of `|dest|` bytes panics at some pixel. */
  ghost predicate CopyPanics(l: Layout, src: seq<bv8>, dest: seq<bv8>) {
    exists x: nat, y: nat :: Reached(l, src, dest, x, y) && ConvertPixel(l, src, dest, x, y).Err?
  }

  /** Whether a pixel panics depends on the surface's size only. */
  lemma PanicsDependOnSizeOnly(l: Layout, src: seq<bv8>, d1: seq<bv8>, d2: seq<bv8>)
    requires |d1| == |d2|
    ensures CopyPanics(l, src, d1) <==> CopyPanics(l, src, d2)
  {
    forall x: nat, y: nat | Reached(l, src, d1, x, y)
      ensures Reached(l, src, d2, x, y) && ConvertPixel(l, src, d1, x, y) == ConvertPixel(l, src, d2, x, y)
    {
    }
    forall x: nat, y: nat | Reached(l, src, d2, x, y)
      ensures Reached(l, src, d1, x, y) && ConvertPixel(l, src, d1, x, y) == ConvertPixel(l, src, d2, x, y)
    {
    }
  }

  /** `render_frame`: every queued frame in order is copied onto the surface
      and presented; the first failed presentation stops the drain with
      `Exit` and leaves the later frames queued; a drained queue gives `Poll`.
      `renderOk(k)` is whether presenting the `k`-th frame succeeds, and
      `Err` is the panic of a copy. */
  method RenderFrame(queue: seq<VideoData>, format: PixelFormat, bpp: nat, width: nat, height: nat,
                     surface: seq<bv8>, renderOk: nat -> bool) returns (r: Result<Rendered, CopyError>)
    ensures r.Ok? ==> |r.value.surface| == |surface|
    ensures r.Ok? && r.value.flow == Poll ==>
      r.value.pending == [] && forall k :: 0 <= k < |queue| ==> renderOk(k)
    ensures r.Ok? && r.value.flow == Exit ==>
      exists k :: 0 <= k < |queue| && !renderOk(k) && (forall j :: 0 <= j < k ==> renderOk(j))
                  && r.value.pending == queue[k + 1..]
    ensures r.Ok? ==> forall k :: 0 <= k < |queue| - |r.value.pending| ==>
      !CopyPanics(FrameLayout(queue[k], format, bpp, width, height), queue[k].frameBuffer, surface)
    ensures r.Err? ==> exists k :: 0 <= k < |queue| && (forall j :: 0 <= j < k ==> renderOk(j))
                          && CopyPanics(FrameLayout(queue[k], format, bpp, width, height), queue[k].frameBuffer, surface)
  {
    var out := surface;
    var i := 0;
    while i < |queue|
      invariant 0 <= i <= |queue|
      invariant |out| == |surface|
      invariant forall j :: 0 <= j < i ==> renderOk(j)
      invariant forall j :: 0 <= j < i ==>
        !CopyPanics(FrameLayout(queue[j], format, bpp, width, height), queue[j].frameBuffer, surface)
    {
      var l := FrameLayout(queue[i], format, bpp, width, height);
      var c := CopyFrame(l, queue[i].frameBuffer, out);
      PanicsDependOnSizeOnly(l, queue[i].frameBuffer, out, surface);
      if c.Err? {
        return Err(c.error);
      }
      out := c.value;
      if !renderOk(i) {
        return Ok(Rendered(Exit, queue[i + 1..], out));
      }
      i := i + 1;
    }
    return Ok(Rendered(Poll, [], out));
  }

  // ---------------------------------------------------------------------
  // Variable refresh rate
  // ---------------------------------------------------------------------

  /** Millihertz per hertz. */
  const MHZ_PER_HZ: nat := 1000

  /** A mode rate counts towards variable refresh rate when it is not a
      whole multiple of 5 Hz and does not round (halves away from zero) to
      144 Hz. */
  predicate IsOddRate(mhz: nat) {
    mhz % 5000 != 0 && !(143_500 <= mhz < 144_500)
  }

  /** Number of odd rates among `modes`. */
  function OddRateCount(modes: seq<nat>): (n: nat)
    ensures n <= |modes|
  {
    if |modes| == 0 then 0
    else OddRateCount(modes[..|modes| - 1]) + (if IsOddRate(modes[|modes| - 1]) then 1 else 0)
  }

  /** A mode rate in hertz. */
  function Hz(mhz: nat): real {
    mhz as real / MHZ_PER_HZ as real
  }

  /** The display suits variable refresh rate for content at `fps`: more
      than one odd rate, some mode no faster and some mode no slower than
      the content. */
  ghost predicate VrrReady(modes: seq<nat>, fps: real) {
    OddRateCount(modes) > 1
    && (exists i :: 0 <= i < |modes| && Hz(modes[i]) <= fps)
    && (exists i :: 0 <= i < |modes| && fps <= Hz(modes[i]))
  }

  /** `is_vrr_ready`: one pass over the monitor's modes keeping the lowest
      and highest rate and the count of odd rates. */
  method IsVrrReady(modes: seq<nat>, fps: real) returns (ready: bool)
    ensures ready <==> VrrReady(modes, fps)
  {
    var lo: Option<nat> := None;
    var hi: Option<nat> := None;
    var count: nat := 0;
    var i := 0;
    while i < |modes|
      invariant 0 <= i <= |modes|
      invariant count == OddRateCount(modes[..i])
      invariant lo.Some? <==> i > 0
      invariant hi.Some? <==> i > 0
      invariant lo.Some? ==> (forall j :: 0 <= j < i ==> lo.value <= modes[j]) && exists j :: 0 <= j < i && modes[j] == lo.value
      invariant hi.Some? ==> (forall j :: 0 <= j < i ==> modes[j] <= hi.value) && exists j :: 0 <= j < i && modes[j] == hi.value
    {
      var m := modes[i];
      if lo.None? || m < lo.value {
        lo := Some(m);
      }
      if hi.None? || m > hi.value {
        hi := Some(m);
      }
      if IsOddRate(m) {
        count := count + 1;
      }
      assert modes[..i + 1][..i] == modes[..i];
      i := i + 1;
    }
    assert modes[..i] == modes;
    ready := count > 1 && lo.Some? && hi.Some? && Hz(lo.value) <= fps && fps <= Hz(hi.value);
    if ready {
      var j :| 0 <= j < |modes| && modes[j] == lo.value;
      var k :| 0 <= k < |modes| && modes[k] == hi.value;
      assert Hz(modes[j]) <= fps && fps <= Hz(modes[k]);
    }
  }

  /** No display with fewer than two modes suits variable refresh rate. */
  lemma FewModesAreNeverReady(modes: seq<nat>, fps: real)
    requires |modes| <= 1
    ensures !VrrReady(modes, fps)
  {
  }

  /** Rates at whole multiples of 5 Hz and the 144 Hz mode do not count:
      a 48/60/75/90/120/144 Hz display has a single odd rate, so it is not
      ready at 59.94 frames per second. */
  lemma CommonDisplayIsNotReady(modes: seq<nat>)
    requires modes == [48_000, 60_000, 75_000, 90_000, 120_000, 144_000]
    ensures OddRateCount(modes) == 1
    ensures !VrrReady(modes, 59.94)
  {
    assert modes[..5][..4] == modes[..4] && modes[..4][..3] == modes[..3];
    assert modes[..3][..2] == modes[..2] && modes[..2][..1] == modes[..1] && modes[..1][..0] == [];
    assert OddRateCount(modes[..1]) == 1;
    assert OddRateCount(modes[..2]) == 1;
    assert OddRateCount(modes[..3]) == 1;
    assert OddRateCount(modes[..4]) == 1;
    assert OddRateCount(modes[..5]) == 1;
  }

  /** A display with 59.94 Hz and 119.88 Hz modes is ready for 59.94 Hz
      content. */
  lemma NtscDisplayIsReady(modes: seq<nat>)
    requires modes == [48_000, 59_940, 119_880, 144_000]
    ensures VrrReady(modes, 59.94)
  {
    assert modes[..3][..2] == modes[..2] && modes[..2][..1] == modes[..1] && modes[..1][..0] == [];
    assert OddRateCount(modes[..1]) == 1;
    assert OddRateCount(modes[..2]) == 2;
    assert OddRateCount(modes[..3]) == 3;
    assert Hz(modes[0]) <= 59.94;
    assert 59.94 <= Hz(modes[1]);
  }
}
