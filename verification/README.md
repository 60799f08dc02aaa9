# A verified model of a libretro front-end's audio, video and input core

The modelled program is a small Rust front-end for libretro cores. It
loads an emulator core, receives its audio samples and video frames
through C callbacks, and answers its input polls. This project models in
Dafny the sequential logic of that front-end and proves properties of the
model. The modelled parts are:

- **Audio intake** (`audio.dfy`, module `Audio`):
  - the pool of twenty bounded sample deques;
  - the batch callback. It takes a deque from the pool, or a fresh one when
    the pool is empty. It evicts the oldest samples until the batch fits,
    appends the batch, puts the deque back, and reports every frame as
    consumed.
  - The eviction loop never ends on a batch longer than a deque (see
    Findings). The model's callback keeps the newest samples there instead,
    and the callback as written is modelled beside it for every batch
    that fits.
- **Colour conversion** (`color.dfy`, module `Color`):
  - the pixel formats a core may declare;
  - the RGB565 and ARGB1555 lookup tables that `render_frame` builds, as
    functions of the table index;
  - the byte order of pixels in memory.
- **Raster copy** (`raster.dfy`, module `Raster`): the per-pixel loop of
  `render_frame`, as an imperative method with loop invariants.
  - Source offsets are `y*pitch + x*bpp` and surface offsets are
    `(y*width + x)*4`.
  - A row stops at the first pixel whose start lies outside either buffer.
  - Every read or write past the end of a buffer is a panic, modelled as
    `Err`.
- **Video path** (`video.dfy`, module `Video`):
  - pixel-format negotiation, and the event loop's once-only call of it;
  - the frame callback, with its null guard and its 32-bit length;
  - the FIFO drain of the frame queue, returning `Exit` or `Poll`;
  - the refresh-rate test for variable refresh rate displays, in integer
    millihertz.
- **Input** (`input.dfy`, `joypad.dfy`, `decimal.dfy`):
  - the keyboard and gamepad configuration maps;
  - the translation from libretro joypad IDs to gamepad buttons;
  - the 16-entry button vector with its keyboard and gamepad updates;
  - the bounds-defaulting input-state read.
  - `decimal.dfy` gives `u32::to_string`, which the gamepad map falls
    back on for the libretro joypad constants.
- **Shared types**: `wrappers.dfy` holds `Option` and `Result`, and
  `machine.dfy` holds the Rust machine integers used.

Global statics (`Lazy`, `Mutex`, channels) become explicit values:
- a pool is a `seq<Deque>`;
- a channel is the sequence of messages not yet received;
- the button vector is a parameter.

Callbacks that take raw pointers take the memory they point at as a
sequence. A null pointer is `None`.

Three facts about the source shape the model:

- `render_frame` draws every queued frame in arrival order
  (`src/video.rs:149-152`). The frame callback sends each frame
  (`src/video.rs:91`) over an unbounded `mpsc` channel (`src/main.rs:41-43`),
  so nothing keeps only the latest frame. `RenderFrame` models the queue.
- The refresh-rate test counts a mode rate as odd only when it is not a
  multiple of 5 Hz and does not round to 144 Hz (`src/video.rs:48-50`). So
  a display with 48, 60, 75, 90, 120 and 144 Hz modes has a single odd rate,
  and it is not ready for variable refresh rate at 59.94 frames per second.
  `Video.CommonDisplayIsNotReady` proves it.
- `set_up_pixel_format` returns only the bytes per pixel, as a `u8`
  (`src/video.rs:98-112`). The event loop assigns that result to the pair
  of `bytes_per_pixel` and `pixel_format` (`src/main.rs:224-225`), and the
  two do not match. Nothing else sets `pixel_format` from the declared
  format. So the raster copy takes the format and the bytes per pixel as
  two independent inputs, which nothing keeps consistent.

## Model

| member | source | states |
|---|---|---|
| `Audio.BufferLengthValue` | src/audio.rs:20-24 | A deque holds 48000*64/1000 = 3072 samples. The `u32` product does not wrap. |
| `Audio.ClearIsEmptyNew` | src/audio.rs:33-42 | Clearing any buffer leaves the same buffer as `AudioBuffer::new(0)`. |
| `Audio.ClearThenExtend` | src/audio.rs:40-47 | Extending a cleared buffer leaves exactly the new slice, whatever the buffer held before. |
| `Audio.ExtendTwice` | src/audio.rs:45-47 | Extending by one slice and then another is the same as extending once by both slices in order. |
| `Audio.NewBufferSplits` | src/audio.rs:33-47 | A zeroed buffer of `m + n` samples is a zeroed buffer of `m` samples extended by `n` zeros. |
| `Audio.EvictOldest` | src/audio.rs:99-101 | The eviction loop removes exactly `max(0, len + n - cap)` samples from the front. What remains is a suffix of the old contents. |
| `Audio.OversizedBatchNeverFits` | src/audio.rs:99-101 | For a batch longer than the capacity, the loop guard stays true after any number of pops. Once every old sample is gone, the deque stays empty. |
| `Audio.PushAsWritten` | src/audio.rs:98-104 | For a batch no longer than the capacity, the deque becomes the old contents minus the minimal number of oldest samples, followed by the whole batch. The result is within capacity and equals the newest `capacity` samples. |
| `Audio.Push` | src/audio.rs:98-104 | For every batch, the deque keeps the newest `capacity` samples of old contents plus batch. When the batch fits, the result is the same as the source's write. |
| `Audio.AudioSampleBatch` | src/audio.rs:84-110 | The callback returns `frames` and reads exactly `frames * 2` samples. It writes into the pool's last deque, or a fresh one when the pool is empty, and pushes it back. The rest of the pool is unchanged, and the pool grows only when it was empty. The deque keeps the newest `capacity` samples, also for a batch longer than a deque, where the source never returns. |
| `Audio.AudioSampleBatchAsWritten` | src/audio.rs:84-110 | For a batch no longer than the deque, the callback as written keeps the old samples minus the minimal number of oldest ones, then the batch, and returns `frames`. |
| `Audio.CallbacksAgree` | src/audio.rs:84-110 | Wherever the source's callback returns, the modelled callback gives the same pool and result. |
| `Audio.OneBatchOnPool` | src/audio.rs:84-110 | A callback with a whole number of stereo frames on a non-empty pool replaces only the last deque, which then holds the newest `capacity` samples of its old contents followed by the batch. |
| `Audio.NewestOfNewest` | src/audio.rs:99-104 | Evicting at every write is the same as keeping the newest `capacity` samples of the whole stream. |
| `Audio.NewestOfSuffix` | src/audio.rs:99-104 | Dropping old samples that leave at least `capacity` behind does not change what the deque keeps. |
| `Audio.WithNewestTwice` | src/audio.rs:84-110 | Two callbacks into the last deque leave it as one callback with both batches in order would. |
| `Audio.SubmitAllStep` | src/audio.rs:84-110 | A run of callbacks is the first callback followed by the rest of the run, and the samples written are the first batch followed by the others. |
| `Audio.SubmitAllKeepsNewest` | src/audio.rs:84-110 | Over any run of batch callbacks on a non-empty pool, the pool's size and every deque but the last are unchanged. The last deque holds the newest `capacity` samples of everything written, in order. |
| `Audio.PoolSizeIsStable` | src/audio.rs:61-67 | The pool starts as twenty deques of capacity `BUFFER_LENGTH`, and after any run of batch callbacks it still has twenty deques. |
| `Color.Pack` | src/video.rs:130 | Packing puts alpha, red, green and blue in the bytes from most to least significant. Each channel reads back unchanged. |
| `Color.PackUnpack` | src/video.rs:130 | Every 32-bit word is the packing of its four channels. |
| `Color.WordOf` | src/video.rs:199-200 | Four memory bytes read as a word put byte 0 in blue through byte 3 in alpha. |
| `Color.WordBytesRoundTrip` | src/video.rs:183 | `to_ne_bytes` on a little-endian host puts blue, green, red and alpha at memory offsets 0 to 3: reading those bytes back as a word gives the word. |
| `Color.LittleEndian16` | src/video.rs:177 | The first byte is the low byte of the 16-bit pixel, and the second byte is the high byte. |
| `Color.Scale5` | src/video.rs:126-128 | `(c*527+23)>>6` widens a 5-bit channel to an 8-bit level whose top five bits are `c`. |
| `Color.Scale5IsNearest` | src/video.rs:126-128 | The widened 5-bit channel is the 8-bit level nearest to `255*c/31`, with halves rounded up. |
| `Color.Scale6` | src/video.rs:127 | `(c*259+33)>>6` widens a 6-bit channel to an 8-bit level whose top six bits are `c`. |
| `Color.Scale6IsNearest` | src/video.rs:127 | The widened 6-bit channel is the 8-bit level nearest to `255*c/63`, with halves rounded up. |
| `Color.Rgb565ToArgb8888` | src/video.rs:120-131 | An RGB565 table entry has alpha 0xFF. Its red, green and blue come from bits 11-15, 5-10 and 0-4, widened. |
| `Color.Rgb565Nearest` | src/video.rs:120-131 | Each channel of an RGB565 entry is the nearest 8-bit level to the pixel's channel. |
| `Color.Argb1555ToArgb8888` | src/video.rs:133-146 | An ARGB1555 entry, built only for indices below 0x8000, has alpha 0. Its channels come from bits 10-14, 5-9 and 0-4, widened. |
| `Color.Argb1555Nearest` | src/video.rs:133-146 | Each channel of an ARGB1555 entry is the nearest 8-bit level to the pixel's channel. |
| `Color.LookupArgb1555` | src/video.rs:189-192 | Indexing the 32768-entry table succeeds exactly for pixels below 0x8000. |
| `Color.Rgb565RoundTrip` | src/video.rs:120-131 | Keeping the top 5/6/5 bits of an RGB565 entry gives back the pixel. |
| `Color.Argb1555RoundTrip` | src/video.rs:133-146 | Keeping the top 5/5/5 bits of an ARGB1555 entry gives back the pixel. |
| `Color.Rgb565Injective` | src/video.rs:120-131 | Distinct RGB565 pixels have distinct table entries. |
| `Color.TableExtremes` | src/video.rs:120-146 | Black maps to opaque black (RGB565) or transparent black (ARGB1555). White maps to full-scale channels. |
| `Raster.SourceWord` | src/video.rs:172-201 | The four surface bytes are computed from the source pixel. A source read past the end is an overrun that needs more bytes than the frame has. |
| `Raster.SourceWordReadsOnePixel` | src/video.rs:172-201 | A pixel's read succeeds exactly when the format's bytes per pixel (2 for RGB565 and ARGB1555, 4 for ARGB8888) fit in the frame from its offset. For ARGB1555 its top bit must also be clear. |
| `Raster.ConvertPixel` | src/video.rs:172-201 | A pixel converted without panic yields four bytes, and its surface slice lies inside the surface. |
| `Raster.RowStaysOut` | src/video.rs:162-170 | Once a pixel's source or surface offset is out of range, no later pixel of that row is reached. The `break` skips the rest of the row. |
| `Raster.RowMajorOrder` | src/video.rs:165 | Pixels earlier in row-major order occupy disjoint, earlier surface bytes. |
| `Raster.CopyFrame` | src/video.rs:162-204 | The copy returns `Err` exactly when some reached pixel panics. The error is that of the first panicking pixel in row-major order: every reached pixel before it converts. On success, every reached pixel's converted bytes are at its surface offset, and every byte no reached pixel covers is unchanged. |
| `Raster.SourcePixel16` | src/video.rs:175-177 | A 16-bit source pixel read from two bytes is below 0x1_0000. |
| `Raster.Rgb565PixelRoundTrip` | src/video.rs:173-184 | When both buffers hold an RGB565 pixel, its copy succeeds, and narrowing the copied bytes back to RGB565 gives the source pixel. |
| `Raster.Argb1555PixelRoundTrip` | src/video.rs:185-196 | When both buffers hold an ARGB1555 pixel and its top bit is clear, its copy succeeds, and narrowing the copied bytes back to 5/5/5 bits gives the source pixel. |
| `Raster.Argb1555TopBitPanics` | src/video.rs:189-192 | An ARGB1555 source pixel with its top bit set indexes past the table and panics. |
| `Raster.Argb8888CopiedVerbatim` | src/video.rs:197-200 | ARGB8888 pixels are copied as their four source bytes. |
| `Raster.WellFormedBounds` | src/video.rs:162-165 | In a frame of `pitch*height` bytes, with rows holding `width` pixels, every pixel's source and surface bytes lie in range. |
| `Raster.WellFormedFrameCopiesWhole` | src/video.rs:162-201 | A well-formed RGB565 or ARGB8888 frame has every pixel reached and converted without panic. |
| `Raster.FirstByteCheckLetsOverrunThrough` | src/video.rs:168-176 | The range check covers only a pixel's first byte. A pixel starting at the frame's last byte is reached, and reading `source_index + 1` overruns. |
| `Raster.SurfaceOverrunOnShortSurface` | src/video.rs:168-200 | A pixel whose first surface byte is in range but whose last is not panics on the write. |
| `Video.DrainFormats` | src/video.rs:103-109 | Draining declarations overwrites the value each time, so the result is the last declaration's bytes per pixel, or the start value when there are none. |
| `Video.SetUpPixelFormat` | src/video.rs:98-112 | With nothing declared the result is 2. Otherwise it is 4 exactly when the last declaration is ARGB8888, and 2 otherwise. It is never 0. |
| `Video.FormatFixedAfterFirstTick` | src/main.rs:223-226 | The event loop negotiates only while bytes per pixel is 0. Over any run of ticks, the bytes per pixel are what the first tick negotiated from every declaration so far, and never 0. |
| `Video.NegotiatedStateIsKept` | src/main.rs:223-226 | Once negotiated, later ticks never change the bytes per pixel. |
| `MachineInts.WrapU32` | src/video.rs:79 | A `u32` result wraps modulo 2^32 and is unchanged when it fits. |
| `Video.FrameLength` | src/video.rs:79 | `(pitch as u32) * height` equals `pitch*height` when the pitch and the product fit in 32 bits. |
| `Video.FrameRunQueuesNonNullFrames` | src/video.rs:74-94 | Any run of frame callbacks appends exactly the non-null frames to the queue, in call order. Each holds the first `FrameLength` bytes of its memory and the truncated pitch. Null frames leave no trace. |
| `Video.QueuedFrameIsWhole` | src/video.rs:79-89 | A frame whose `pitch*height` fits in 32 bits is queued as exactly `pitch*height` bytes tagged with `pitch`. |
| `Video.OversizedFrameIsTruncated` | src/video.rs:79 | A pitch and height of 65536 each queue an empty frame, because the product wraps to 0. |
| `Video.PanicsDependOnSizeOnly` | src/video.rs:162-201 | Whether copying a frame panics depends on the surface's size, not its contents. |
| `Video.RenderFrame` | src/video.rs:149-211 | Queued frames are drawn in arrival order. The first failed presentation returns `Exit` with the later frames still queued. Otherwise the queue is drained and the result is `Poll`, including for an empty queue. A panic comes from the copy of a frame reached before any failed presentation. |
| `Video.OddRateCount` | src/video.rs:48-50 | The number of odd rates is at most the number of modes. |
| `Video.IsVrrReady` | src/video.rs:35-65 | The min/max/count pass is true exactly when more than one mode rate is odd and the content rate lies between the lowest and highest mode rates. A rate is odd when it is not a multiple of 5 Hz and does not round to 144 Hz. |
| `Video.FewModesAreNeverReady` | src/video.rs:62-64 | An empty or single-mode list is never ready. |
| `Video.CommonDisplayIsNotReady` | src/video.rs:48-50 | 48/60/75/90/120/144 Hz modes have a single odd rate and are not ready at 59.94 fps. |
| `Video.NtscDisplayIsReady` | src/video.rs:35-65 | 48/59.94/119.88/144 Hz modes are ready at 59.94 fps. |
| `Joypad.JoypadIdsFitButtonVector` | src/main.rs:34-35 | The twelve joypad IDs are distinct and all index the 16-entry button vector. |
| `Joypad.LibretroToButton` | src/input.rs:183-199 | Exactly the twelve joypad IDs map to a button, and the button maps back to the same ID. |
| `Joypad.LibretroToButtonInjective` | src/input.rs:183-199 | Distinct joypad IDs map to distinct gamepad buttons. |
| `Joypad.ButtonRoundTrip` | src/input.rs:183-199 | Every button that has a joypad ID is the button that ID maps to. |
| `Decimal.DigitChar` | src/input.rs:82 | A decimal digit becomes a character between '0' and '9'. |
| `Decimal.DigitRoundTrip` | src/input.rs:82 | Reading a digit character back gives the digit. |
| `Decimal.DecimalString` | src/input.rs:82 | `to_string` of an ID is a non-empty digit string without leading zeros. |
| `Decimal.DecimalRoundTrip` | src/input.rs:82 | Parsing the decimal text of a number gives back the number. |
| `Decimal.DecimalStringInjective` | src/input.rs:82 | Distinct IDs have distinct decimal texts. |
| `Input.FromPairs` | src/input.rs:24 | `HashMap::from` has every listed name as a key, and no more keys than pairs. |
| `Input.InsertPair` | src/input.rs:24 | Inserting one more pair keeps every listed name a key, and every key bound to the ID of some pair with that name. |
| `Input.FromPairsKeys` | src/input.rs:24 | Every key of `HashMap::from` maps to the ID of some pair with that name. |
| `Input.FromPairsLastWins` | src/input.rs:24 | When names repeat, the last pair with a name decides its ID. |
| `Input.BindingsBindJoypadIds` | src/input.rs:23-164 | Both maps list twelve options, bound to the twelve joypad IDs in the same order. |
| `Input.LookUpNames` | src/input.rs:23-73 | The option lookups succeed exactly when every option is configured. Otherwise the panic names the first absent option in the listed order. |
| `Input.LookedUpMap` | src/input.rs:23-74 | Building a map from looked-up option values fails exactly when an option is missing, naming the first missing one. On success every configured value is a key, and each key maps to the ID of an option configured with it. |
| `Input.LookedUpMapLastWins` | src/input.rs:23-74 | When several options share a configured value, the last of them decides its ID. |
| `Input.KeyDeviceMap` | src/input.rs:23-74 | `key_device_map` fails exactly when an option is missing, naming the first missing option in source order. On success it has at most twelve keys, every configured key name is bound, and every binding is to a joypad ID. |
| `Input.KeyDeviceMapLastWins` | src/input.rs:23-74 | When every option is configured, the map is built, and when two options name the same key, the later option's ID wins. |
| `Input.NamedBindings` | src/input.rs:78-163 | The map has every binding's name as a key, and each key maps to the ID of a binding of that name. |
| `Input.JoypadDeviceMap` | src/input.rs:77-164 | `setup_joypad_device_map` never fails and holds at most twelve bindings. Every binding is to a joypad ID under its `ButtonName`. |
| `Input.DefaultJoypadDeviceMap` | src/input.rs:77-164 | With no `_btn` option configured, each binding falls back to its ID's decimal text, so each joypad ID is bound under its own decimal name. |
| `Input.HandleKeyboard` | src/input.rs:226-244 | A missing keycode is a panic, and an unbound key changes nothing. For a bound key, the net effect of the two writes is 1 when pressed and 0 when released, with all other entries unchanged. |
| `Input.ConfiguredKeysStayInRange` | src/input.rs:228-244 | When every keyboard option is configured, the key map is built, and it never indexes past the button vector. |
| `Input.KeyEventIsVisibleToCore` | src/input.rs:172-244 | After a bound key's event, the core's input read returns 1 while the key is down and 0 once it is up, whatever port, device and index it asks for. |
| `Input.PressThenRelease` | src/input.rs:228-244 | Pressing and then releasing a bound key restores every other entry and leaves the key's entry 0. |
| `Input.ApplyGamepad` | src/input.rs:209-214 | The pass panics exactly when some value's `u32` truncation is a joypad ID but the value lies past the vector, and the panic names such a value. Otherwise each joypad ID among the values gets its button's state, and all other entries are unchanged. |
| `Input.HandleGamepad` | src/input.rs:202-216 | With no active gamepad nothing changes. Otherwise the pass panics exactly when a map value truncates to a joypad ID but indexes past the vector. If it does not panic, every mapped joypad ID gets 1 or 0 from its button, and unmapped entries are unchanged. |
| `Input.ConfiguredGamepadStaysInRange` | src/input.rs:77-216 | A joypad map built from the configuration never makes the gamepad pass panic. |
| `Input.TruncatedIdPanics` | src/input.rs:210-212 | A map value of 2^32 + 8 truncates to the A button's ID, so the pass translates it and then panics on the write. |
| `Input.BindingOf` | src/input.rs:77-164 | Every joypad ID is bound by one of the twelve gamepad options. |
| `Input.DefaultGamepadCoversEveryButton` | src/input.rs:77-216 | With the default gamepad map, a gamepad pass sets all twelve joypad entries from the gamepad. |

## Left out

- `main.rs` is not modelled beyond the format guard at lines 223-226. That excludes:
  - the winit event loop and the window and surface;
  - the rodio audio thread and the `Condvar`/`try_lock` synchronisation;
  - the pacing arithmetic in `f64`;
  - the libretro module it imports, which is not part of this model.
- `play_audio` and the per-sample audio callback are left out: the first only hands samples to an audio sink, and the second only prints.
- `AudioBuffer::as_ptr` exposes a raw pointer and has no counterpart in the model.
- The deque capacity is taken as exactly `BUFFER_LENGTH`. `VecDeque::with_capacity` may allocate more, which would only raise the bound.
- Sending on a channel is treated as always succeeding. The receivers are statics and are never dropped.
- `pixels.render()` becomes the `renderOk` oracle. `frame_mut()` becomes the surface sequence.
- `to_ne_bytes` is modelled for a little-endian host.
- `Video.FrameLength`: models the release-build wrap-around of the `u32` product. A debug build would panic on overflow instead.
- `Video.IsVrrReady`: takes mode rates as natural millihertz and the content rate as an exact real, not as `f64`. "Not a multiple of 5 Hz" becomes `mhz % 5000 != 0`, and "rounds to 144" becomes `143500 <= mhz < 144500`. The printed log line and `monitor.name().unwrap()` are left out.
- `Video.RenderFrame`: does not state the surface contents after a drain. Each frame's effect on the surface is what `Raster.CopyFrame` states.
- `check_vrr_status` is left out: it is a platform stub that only prints.
- Fullscreen toggling in `handle_keyboard_input` is window I/O and is left out. Key names are opaque strings, since `format!("{:?}")` and lower-casing are not modelled.
- `Input.HandleGamepad`: takes the `HashMap` iteration order as a parameter. Whether the pass panics, and the vector when it does not, do not depend on it. Which panicking value the error names is left unstated.
- `Audio.AudioSampleBatch`: is built on the corrected `Push` (see Findings). On a batch longer than a deque the source's callback never returns, while the model returns `frames` and keeps the newest samples. `Audio.SubmitAll`, `Audio.SubmitAllKeepsNewest` and `Audio.PoolSizeIsStable` inherit this. `Audio.AudioSampleBatchAsWritten` is the callback as written, and `Audio.CallbacksAgree` shows the two agree wherever the source returns.
- `usize` overflow in the index arithmetic is not modelled: the offsets are unbounded naturals. The `as u32` truncation in the gamepad pass is modelled.

## Findings

| source | as written | input that shows it | evidently intended | confidence | as-written member | corrected member |
|---|---|---|---|---|---|---|
| src/audio.rs:99-101 | the eviction loop pops from the front while length plus batch exceeds the capacity; once the deque is empty and the batch alone exceeds the capacity, it never ends | a batch of 1537 stereo frames (3074 samples) into a deque of capacity 3072 | keep the newest `capacity` samples of old contents plus batch | not executed | `Audio.OversizedBatchNeverFits` | `Audio.Push` |
