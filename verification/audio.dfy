/** The audio side of the front-end: the pool of bounded sample deques that
    the libretro batch callback writes into, with drop-oldest eviction when a
    deque is full. A deque is a sequence of interleaved stereo samples plus
    the capacity it was allocated with. */
module Audio {
  import opened MachineInts

  const AUDIO_CHANNELS: nat := 2
  const FINAL_SAMPLE_RATE: nat := 48000
  const BUFFER_DURATION_MS: nat := 64
  /** Samples per deque; the `u32` product 48000 * 64 does not wrap. */
  const BUFFER_LENGTH: nat := FINAL_SAMPLE_RATE * BUFFER_DURATION_MS / 1000
  const POOL_SIZE: nat := 20

  lemma BufferLengthValue()
    ensures FINAL_SAMPLE_RATE * BUFFER_DURATION_MS < 0x1_0000_0000
    ensures BUFFER_LENGTH == 3072
  {
  }

  // ---------------------------------------------------------------------
  // AudioBuffer: a growable vector of samples
  // ---------------------------------------------------------------------

  datatype AudioBuffer = AudioBuffer(data: seq<i16>) {
    function Len(): nat {
      |data|
    }
  }

  /** `AudioBuffer::new(size)`: `size` zero samples. */
  function NewAudioBuffer(size: nat): (b: AudioBuffer)
    ensures b.Len() == size
    ensures forall i :: 0 <= i < size ==> b.data[i] == 0
  {
    AudioBuffer(seq(size, _ => 0))
  }

  /** `AudioBuffer::clear`. */
  function Clear(b: AudioBuffer): (r: AudioBuffer)
    ensures r.Len() == 0
  {
    AudioBuffer([])
  }

  /** `AudioBuffer::extend_from_slice`: the old samples, then the slice, in order. */
  function ExtendFromSlice(b: AudioBuffer, slice: seq<i16>): (r: AudioBuffer)
    ensures r.Len() == b.Len() + |slice|
    ensures r.data[..b.Len()] == b.data && r.data[b.Len()..] == slice
  {
    AudioBuffer(b.data + slice)
  }

  /** A cleared buffer is the empty buffer `AudioBuffer::new(0)` builds. */
  lemma ClearIsEmptyNew(b: AudioBuffer)
    ensures Clear(b) == NewAudioBuffer(0)
  {
  }

  /** Refilling a cleared buffer leaves exactly the new samples. */
  lemma ClearThenExtend(b: AudioBuffer, s: seq<i16>)
    ensures ExtendFromSlice(Clear(b), s).data == s
  {
    assert [] + s == s;
  }

  /** Two extensions are one extension by both slices in order. */
  lemma ExtendTwice(b: AudioBuffer, s: seq<i16>, t: seq<i16>)
    ensures ExtendFromSlice(ExtendFromSlice(b, s), t) == ExtendFromSlice(b, s + t)
  {
    assert b.data + s + t == b.data + (s + t);
  }

  /** A zeroed buffer of `m + n` samples is one of `m` extended by `n` zeros. */
  lemma NewBufferSplits(m: nat, n: nat)
    ensures NewAudioBuffer(m + n) == ExtendFromSlice(NewAudioBuffer(m), NewAudioBuffer(n).data)
  {
    assert NewAudioBuffer(m + n).data == NewAudioBuffer(m).data + NewAudioBuffer(n).data;
  }

  // ---------------------------------------------------------------------
  // Bounded deque with drop-oldest eviction
  // ---------------------------------------------------------------------

  datatype Deque = Deque(items: seq<i16>, capacity: nat)

  /** `VecDeque::with_capacity(capacity)`. */
  function WithCapacity(capacity: nat): (d: Deque)
    ensures d.items == [] && d.capacity == capacity
  {
    Deque([], capacity)
  }

  /** The most recent `k` samples of `s` (all of `s` when it is shorter). */
  function Newest(s: seq<i16>, k: nat): (r: seq<i16>)
    ensures |r| == if |s| < k then |s| else k
    ensures r == s[|s| - |r|..]
  {
    if |s| <= k then s else s[|s| - k..]
  }

  /** Dropping a prefix that leaves at least `k` samples, or none at all,
      does not change the newest `k`. */
  lemma NewestOfSuffix(x: seq<i16>, j: nat, k: nat)
    requires j <= |x| && (j == 0 || |x| - j >= k)
    ensures Newest(x[j..], k) == Newest(x, k)
  {
    if j == 0 {
      assert x[j..] == x;
    } else if |x| - j > k {
      assert x[j..][|x| - j - k..] == x[|x| - k..];
    }
  }

  /** Keeping the newest `k` twice is keeping them once over the whole stream. */
  lemma NewestOfNewest(s: seq<i16>, t: seq<i16>, k: nat)
    ensures Newest(Newest(s, k) + t, k) == Newest(s + t, k)
  {
    var a := Newest(s, k);
    var j := |s| - |a|;
    assert a + t == (s + t)[j..];
    NewestOfSuffix(s + t, j, k);
  }

  /** The eviction loop `while len + incoming > capacity { pop_front }`.
      It stops only because `incoming <= capacity`. */
  function EvictOldest(items: seq<i16>, incoming: nat, capacity: nat): (r: seq<i16>)
    requires incoming <= capacity
    ensures |r| == if |items| + incoming > capacity then capacity - incoming else |items|
    ensures r == items[|items| - |r|..]
    decreases |items|
  {
    if |items| + incoming > capacity then EvictOldest(items[1..], incoming, capacity) else items
  }

  /** One `pop_front`, which leaves an empty deque empty. */
  function PopFront(items: seq<i16>): seq<i16> {
    if |items| == 0 then items else items[1..]
  }

  function PopFrontTimes(items: seq<i16>, k: nat): seq<i16> {
    if k == 0 then items else PopFrontTimes(PopFront(items), k - 1)
  }

  /** A batch longer than the capacity: however many times the eviction
      loop pops, its guard stays true, since no deque is shorter than empty;
      once every old sample is gone it keeps popping an empty deque. */
  lemma {:induction false} OversizedBatchNeverFits(items: seq<i16>, incoming: nat, capacity: nat, k: nat)
    requires incoming > capacity
    ensures |PopFrontTimes(items, k)| + incoming > capacity
    ensures k >= |items| ==> PopFrontTimes(items, k) == []
  {
    if k > 0 {
      OversizedBatchNeverFits(PopFront(items), incoming, capacity, k - 1);
    }
  }

  /** The source's write into a deque, as written: evict, then append. */
  function PushAsWritten(d: Deque, batch: seq<i16>): (r: Deque)
    requires |batch| <= d.capacity
    ensures r.capacity == d.capacity && |r.items| <= d.capacity
    ensures r.items == Newest(d.items + batch, d.capacity)
    ensures var dropped := if |d.items| + |batch| > d.capacity then |d.items| + |batch| - d.capacity else 0;
      r.items == d.items[dropped..] + batch
  {
    var kept := EvictOldest(d.items, |batch|, d.capacity);
    var r := Deque(kept + batch, d.capacity);
    assert (d.items + batch)[|d.items| - |kept|..] == kept + batch;
    r
  }

  /** The write with the evidently intended drop-oldest behaviour for every
      batch: the deque ends with the newest `capacity` samples. */
  function Push(d: Deque, batch: seq<i16>): (r: Deque)
    ensures r.capacity == d.capacity && |r.items| <= d.capacity
    ensures r.items == Newest(d.items + batch, d.capacity)
    ensures |batch| <= d.capacity ==> r == PushAsWritten(d, batch)
  {
    if |batch| <= d.capacity then PushAsWritten(d, batch)
    else
      assert (d.items + batch)[|d.items| + |batch| - d.capacity..] == batch[|batch| - d.capacity..];
      Deque(batch[|batch| - d.capacity..], d.capacity)
  }

  // ---------------------------------------------------------------------
  // The buffer pool and the batch callback
  // ---------------------------------------------------------------------

  type Pool = seq<Deque>

  /** `BUFFER_POOL` as first initialised. */
  function InitialPool(): (p: Pool)
    ensures |p| == POOL_SIZE
    ensures forall i :: 0 <= i < |p| ==> p[i].items == [] && p[i].capacity == BUFFER_LENGTH
  {
    seq(POOL_SIZE, _ => WithCapacity(BUFFER_LENGTH))
  }

  /** The deque the callback works on: the pool's last, or a fresh one. */
  function Taken(pool: Pool): Deque {
    if |pool| == 0 then WithCapacity(BUFFER_LENGTH) else pool[|pool| - 1]
  }

  /** The pool without the deque the callback takes from it. */
  function Rest(pool: Pool): Pool {
    if |pool| == 0 then [] else pool[..|pool| - 1]
  }

  datatype BatchOutcome = BatchOutcome(pool: Pool, consumed: nat)

  /** `libretro_set_audio_sample_batch_callback`: take a deque, write the
      `frames * AUDIO_CHANNELS` samples at `audioData` into it, put it back,
      and report every frame as consumed. */
  function AudioSampleBatch(pool: Pool, audioData: seq<i16>, frames: nat): (r: BatchOutcome)
    requires |audioData| >= frames * AUDIO_CHANNELS
    ensures r.consumed == frames
    ensures |r.pool| == if |pool| == 0 then 1 else |pool|
    ensures r.pool[..|r.pool| - 1] == Rest(pool)
    ensures r.pool[|r.pool| - 1].capacity == Taken(pool).capacity
    ensures r.pool[|r.pool| - 1].items == Newest(Taken(pool).items + audioData[..frames * AUDIO_CHANNELS], Taken(pool).capacity)
  {
    var slice := audioData[..frames * AUDIO_CHANNELS];
    var written := Push(Taken(pool), slice);
    BatchOutcome(Rest(pool) + [written], frames)
  }

  /** The callback exactly as written, on the batches where its eviction
      loop ends: the batch is no longer than the taken deque's capacity. */
  function AudioSampleBatchAsWritten(pool: Pool, audioData: seq<i16>, frames: nat): (r: BatchOutcome)
    requires |audioData| >= frames * AUDIO_CHANNELS
    requires frames * AUDIO_CHANNELS <= Taken(pool).capacity
    ensures r.consumed == frames
    ensures |r.pool| == |Rest(pool)| + 1 && r.pool[..|r.pool| - 1] == Rest(pool)
    ensures var d := Taken(pool); var n := frames * AUDIO_CHANNELS;
      var dropped := if |d.items| + n > d.capacity then |d.items| + n - d.capacity else 0;
      r.pool[|r.pool| - 1] == Deque(d.items[dropped..] + audioData[..n], d.capacity)
  {
    BatchOutcome(Rest(pool) + [PushAsWritten(Taken(pool), audioData[..frames * AUDIO_CHANNELS])], frames)
  }

  /** Wherever the source's callback returns, the modelled callback does the
      same: it differs only on batches longer than a deque, where the source
      never returns. */
  lemma CallbacksAgree(pool: Pool, audioData: seq<i16>, frames: nat)
    requires |audioData| >= frames * AUDIO_CHANNELS
    requires frames * AUDIO_CHANNELS <= Taken(pool).capacity
    ensures AudioSampleBatchAsWritten(pool, audioData, frames) == AudioSampleBatch(pool, audioData, frames)
  {
  }

  function Concat(batches: seq<seq<i16>>): seq<i16> {
    if |batches| == 0 then [] else batches[0] + Concat(batches[1..])
  }

  /** A run of batch callbacks, each batch a whole number of stereo frames. */
  function SubmitAll(pool: Pool, batches: seq<seq<i16>>): Pool
    requires forall i :: 0 <= i < |batches| ==> |batches[i]| % AUDIO_CHANNELS == 0
    decreases |batches|
  {
    if |batches| == 0 then pool
    else
      var frames := |batches[0]| / AUDIO_CHANNELS;
      assert batches[0][..frames * AUDIO_CHANNELS] == batches[0];
      SubmitAll(AudioSampleBatch(pool, batches[0], frames).pool, batches[1..])
  }

  /** The pool with its last deque holding the newest `capacity` samples of
      that deque's contents followed by `samples`. */
  function WithNewest(pool: Pool, samples: seq<i16>): Pool
    requires |pool| > 0
  {
    var d := pool[|pool| - 1];
    pool[..|pool| - 1] + [Deque(Newest(d.items + samples, d.capacity), d.capacity)]
  }

  /** One callback with a whole number of stereo frames on a non-empty pool
      rewrites only the last deque. */
  lemma OneBatchOnPool(pool: Pool, batch: seq<i16>)
    requires |pool| > 0 && |batch| % AUDIO_CHANNELS == 0
    ensures AudioSampleBatch(pool, batch, |batch| / AUDIO_CHANNELS).pool == WithNewest(pool, batch)
  {
    assert batch[..|batch| / AUDIO_CHANNELS * AUDIO_CHANNELS] == batch;
  }

  /** Two writes into the last deque are one write of both in order. */
  lemma WithNewestTwice(pool: Pool, a: seq<i16>, b: seq<i16>)
    requires |pool| > 0
    ensures WithNewest(WithNewest(pool, a), b) == WithNewest(pool, a + b)
  {
    var d := pool[|pool| - 1];
    var p1 := WithNewest(pool, a);
    assert p1[..|p1| - 1] == pool[..|pool| - 1];
    assert p1[|p1| - 1] == Deque(Newest(d.items + a, d.capacity), d.capacity);
    NewestOfNewest(d.items + a, b, d.capacity);
    assert d.items + a + b == d.items + (a + b);
  }

  /** A run of callbacks starts with the first batch. */
  lemma SubmitAllStep(pool: Pool, batches: seq<seq<i16>>)
    requires |pool| > 0 && |batches| > 0
    requires forall i :: 0 <= i < |batches| ==> |batches[i]| % AUDIO_CHANNELS == 0
    ensures SubmitAll(pool, batches) == SubmitAll(WithNewest(pool, batches[0]), batches[1..])
    ensures Concat(batches) == batches[0] + Concat(batches[1..])
  {
    OneBatchOnPool(pool, batches[0]);
  }

  /** Over any run of callbacks on a non-empty pool, the pool keeps its size
      and every deque but the last, and the last holds exactly the newest
      `capacity` samples of everything written to it, in order. */
  lemma {:induction false} SubmitAllKeepsNewest(pool: Pool, batches: seq<seq<i16>>)
    requires |pool| > 0 && |pool[|pool| - 1].items| <= pool[|pool| - 1].capacity
    requires forall i :: 0 <= i < |batches| ==> |batches[i]| % AUDIO_CHANNELS == 0
    decreases |batches|
    ensures SubmitAll(pool, batches) == WithNewest(pool, Concat(batches))
  {
    if |batches| == 0 {
      var d := pool[|pool| - 1];
      assert Concat(batches) == [];
      assert d.items + Concat(batches) == d.items;
      assert pool == pool[..|pool| - 1] + [d];
    } else {
      SubmitAllStep(pool, batches);
      var next := WithNewest(pool, batches[0]);
      assert |next[|next| - 1].items| <= next[|next| - 1].capacity;
      SubmitAllKeepsNewest(next, batches[1..]);
      WithNewestTwice(pool, batches[0], Concat(batches[1..]));
    }
  }

  /** Starting from the initial pool, no run of callbacks changes the
      pool's size. */
  lemma PoolSizeIsStable(batches: seq<seq<i16>>)
    requires forall i :: 0 <= i < |batches| ==> |batches[i]| % AUDIO_CHANNELS == 0
    ensures |SubmitAll(InitialPool(), batches)| == POOL_SIZE
  {
    SubmitAllKeepsNewest(InitialPool(), batches);
    assert |WithNewest(InitialPool(), Concat(batches))| == POOL_SIZE;
  }
}
