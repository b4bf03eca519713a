# vidvault frame codec, modelled in Dafny

vidvault stores a file in the frames of a video. Each frame is cut into
square blocks of `size` × `size` pixels, and every block holds one payload
unit:

- **Binary mode:** one bit per block, etched as a black or white block.
- **Color mode:** three bytes per block, etched as one RGB colour.

The video is put together from three parts:

- **Header frame.** Frame 0 holds five 32-bit words at block size 5: the mode
  marker, the final frame, the final element count, the block size and an end
  marker.
- **Worker frames.** The payload is cut into chunks, one per worker. Each
  worker etches frames until its chunk runs out, and the frames are kept in
  chunk order.
- **Reading.** The reader parses the header, then decodes every later frame at
  the header's block size. A block is read back as its mean colour: the red
  channel against 127 in Binary mode, all three channels in Color mode.

The embed command first works out a mode and settings: a preset, then a
default resolution, then explicit overrides. It then reads the file, tags its
contents and etches them.

The model has one module per concern:

| module | models |
|---|---|
| `Bits` | the bit/byte/word converters |
| `Settings` | the settings record and the tagged payload |
| `Source` | `EmbedSource` as a class over an `array2` of BGR samples |
| `Codec` | the per-pixel and per-frame etchers and readers |
| `Instructions` | the header frame |
| `Sequencer` | the file check, chunking, the workers, assembly, and the read loop |
| `Embed` | the embed command |

`Wrappers` and `Arith` are support modules.

How each kind of source code is modelled:

- **Imperative code becomes methods.** Code that updates state step by step is
  a method with loops: the bit converters, the pixel and frame loops, the
  worker loops, the read loop and the configuration in `run_embed`.
- **Each method is proved against a function.**
  - The converters: `Expand` and `Pack`.
  - The frame readers: `Means`, `Thresholds`, `Channels` and `Truncate`.
  - The read loop: `FrameBytes` and `Assemble`.
  - The configuration: `Configured`.
- **The etchers promise what the frame shows.** `Shows(src, cs)` states that
  every sample of the first `|cs|` blocks has its block's colour. The worker
  and `Etch` postconditions state that the worker frames, in order, show
  exactly the payload's colours.
- **Round trips are lemmas about those functions:**
  - bits to bytes and back;
  - an etched frame read back;
  - a full worker frame decoded;
  - a header frame parsed back into the header.

Where the code and its documentation disagree, the model follows the code.

- **Header counts.** The header computes them from `width * height / size²`,
  with no factor 3 in Color mode. It adds a final frame when the length is not
  a multiple of `width * height`. Both are modelled as written.
- **Swapped payload tags.** `run_embed` tags a Binary-mode file as Color data,
  and a Color-mode file's bits as Binary data. This is also modelled as written.

## Model

| member | source | states |
|---|---|---|
| Bits.Rip | src/ethcer.rs:25-47 | expands every value into `n` bits, most significant first, in order; the result has `n` bits per value |
| Bits.RipBinary | src/ethcer.rs:25-47 | a byte list becomes 8 bits per byte, most significant first; packing those bits back gives the bytes |
| Bits.RipBinaryU32 | src/ethcer.rs:49-71 | a word list becomes 32 bits per word, most significant first; packing those bits back gives the words |
| Bits.FoldBits | src/ethcer.rs:81 | the fold `(v << 1) + b` over a buffer is the buffer's value, most significant bit first, and stays below 2^len |
| Bits.Translate | src/ethcer.rs:73-88 | bits are packed into values of `n` bits in order; a trailing group shorter than `n` is dropped; the result has `len / n` values, all below 2^n |
| Bits.TranslateU8 | src/ethcer.rs:73-88 | bits packed into bytes, 8 per byte; `len / 8` bytes |
| Bits.TranslateU32 | src/ethcer.rs:90-105 | bits packed into u32 words, 32 per word; `len / 32` words |
| Bits.FromToBits | src/ethcer.rs:25-47 | reading back the `n` bits of `v` gives `v mod 2^n` |
| Bits.ToBitsAt | src/ethcer.rs:28-36 | bit `k` of a value's `n`-bit form is the bit of weight 2^(n-1-k) |
| Bits.ExpandAt | src/ethcer.rs:27-37 | bit `k` of value `i` lands at position `i*n + k` of the expansion |
| Bits.PackExpand | src/ethcer.rs:73-88 | round trip: packing the expansion of values below 2^n gives the values back |
| Bits.PackAppend | src/ethcer.rs:77-85 | an `n`-aligned prefix packs independently of what follows it |
| Bits.PackDropsTail | src/ethcer.rs:77-85 | a trailing group shorter than `n` bits is dropped without error |
| Bits.PackLength | src/ethcer.rs:73-88 | packing gives `len / n` values |
| Settings.NewOutMode | src/settings.rs:15-21 | an empty payload tagged with the given mode |
| Settings.FromBinary | src/settings.rs:23-29 | the bits as the binary payload, no bytes, Binary mode |
| Settings.FromColor | src/settings.rs:31-37 | the bytes as the colour payload, no bits, Color mode |
| Settings.NewSettings | src/settings.rs:54-62 | every field is the argument of the same name |
| Source.Trim | src/source.rs:17-18 | `dim - dim % size` is the largest multiple of `size` not above `dim` |
| Source.Trimmed | src/source.rs:44-47 | both dimensions are trimmed to multiples of the block size, each by less than the block size |
| Source.EmbedSource.constructor | src/source.rs:15-32 | a fresh image of `height` rows by `width` columns; the frame size as given; the usable size trimmed to the block size |
| Source.EmbedSource.Wrap | src/source.rs:49-54 | a source over the given image with that image's dimensions |
| Source.From | src/source.rs:34-55 | fails exactly when the image height is not a multiple of the block size and this is not the instruction frame; otherwise it wraps the image with its own dimensions and the trimmed usable size |
| Source.EmbedSource.Cols | src/ethcer.rs:196 | the blocks per row times the block size is the usable width |
| Source.EmbedSource.Rows | src/ethcer.rs:195 | the rows of blocks times the block size is the usable height |
| Codec.SumBlock | src/ethcer.rs:119-130 | the three channel sums over the block, visiting every sample |
| Codec.GetPixel | src/ethcer.rs:114-137 | the floor of each channel's mean over the block; a block of one sample reads back as that sample |
| Codec.UniformMean | src/ethcer.rs:132-136 | the mean of a block filled with one sample is that sample |
| Codec.EtchPixel | src/ethcer.rs:139-153 | every sample of the block becomes the colour stored BGR, and no other sample changes |
| Codec.EtchBlocks | src/ethcer.rs:184-211 | blocks are filled row-major with the colours in order; it fails exactly when the colours run out before the blocks do; samples outside the filled blocks are unchanged |
| Codec.EtchBw | src/ethcer.rs:184-211 | from cursor `index`, one grey block per bit; "Index Beyond Data" exactly when the frame reaches the end of the data; the cursor advances by the blocks filled; the frame shows those bits |
| Codec.EtchColor | src/ethcer.rs:155-182 | from cursor `index`, one colour per three bytes; it fails exactly when three more bytes past the frame are not available; the cursor advances by three per block; the frame shows those triples |
| Codec.ReadBlocks | src/ethcer.rs:225-241 | the block means of the whole usable area, row-major |
| Codec.Thresholds | src/ethcer.rs:234-238 | one bit per block, set exactly when red is at least 127 |
| Codec.Channels | src/ethcer.rs:270-273 | red, green and blue of every block, in order |
| Codec.Truncate | src/ethcer.rs:243-248 | on the final frame the data is cut to `final_bit` units, and fails when the cut is out of range; on any other frame it is untouched |
| Codec.ReadBw | src/ethcer.rs:213-249 | the thresholded block means, cut on the final frame |
| Codec.ReadColor | src/ethcer.rs:251-284 | the channels of the block means, cut on the final frame |
| Codec.ShownMeans | src/ethcer.rs:114-153 | a frame that shows `cs` reads back `cs` as the means of its first blocks |
| Codec.ChannelsTriples | src/ethcer.rs:270-273 | splitting triples back into channels gives the bytes, minus a trailing one or two |
| Codec.BwRoundTrip | src/ethcer.rs:184-249 | bits etched from cursor `index` to `index'` read back as those bits |
| Codec.ColorRoundTrip | src/ethcer.rs:155-284 | bytes etched from `index` to `index'` read back as those bytes |
| Instructions.AsU32 | src/ethcer.rs:306-307 | `as u32` keeps values that already fit |
| Instructions.AsI32 | src/ethcer.rs:356-357 | `as i32` of a u32 is the same 32 bits as a signed value; it is the identity below 2^31 |
| Instructions.Square | src/ethcer.rs:297 | `size.pow(2)` is positive for any non-zero size |
| Instructions.FinalFrame | src/ethcer.rs:298-303 | `len / fds`, plus one exactly when `len` is not a multiple of `width * height` |
| Instructions.HeaderWords | src/ethcer.rs:289-327 | fails exactly on the zero divisors; otherwise five words: the mode marker (u32::MAX exactly for Color), the final frame, the element count modulo the capacity, the block size and u32::MAX |
| Instructions.ParseHeader | src/ethcer.rs:348-365 | fails exactly when fewer than four words were read; Color exactly when word 0 is u32::MAX; words 1 to 3 read as i32; frame rate 1337 and the frame's own dimensions |
| Instructions.HeaderParse | src/ethcer.rs:286-366 | parsing the etched words gives back the mode, and the final frame, count and block size whenever each fits an i32 |
| Instructions.EtchInstructions | src/ethcer.rs:286-342 | fails exactly when the header words fail; otherwise a fresh frame at block size 5 with the settings' dimensions, showing the header bits from block 0, up to as many as it has blocks; the etcher's outcome is ignored |
| Instructions.ReadInstructions | src/ethcer.rs:344-366 | the header parsed from all thresholded block means of the frame, packed into words |
| Instructions.HeaderRoundTrip | src/ethcer.rs:329-349 | a frame showing the 160 header bits parses as those words, whatever follows them |
| Instructions.HeaderRecovered | src/ethcer.rs:286-366 | a header frame with at least 160 blocks reads back as the etched header: the same mode, and the block size, final frame and final bit count whenever each fits an i32 |
| Sequencer.RipBytes | src/ethcer.rs:14-23 | a read error passes through; an empty file is refused with its message; otherwise the contents are unchanged |
| Sequencer.Chunks | src/ethcer.rs:383 | an empty payload has no chunks; every chunk holds 1 to `n` units; all but the last hold exactly `n` |
| Sequencer.ChunksFlatten | src/ethcer.rs:383 | the chunks put back together are the payload |
| Sequencer.ChunkDataSize | src/ethcer.rs:379-381 | a multiple of the frame capacity, at least one frame's worth, and large enough that `threads` chunks hold the whole payload |
| Sequencer.ChunksPerThread | src/ethcer.rs:379-383 | the payload splits into at most `threads` chunks |
| Sequencer.EtchCapacity | src/ethcer.rs:377-378 | three bytes per block in Color mode and one bit per block in Binary mode; zero exactly when the header's capacity is zero |
| Sequencer.TriplesWhole | src/ethcer.rs:170-177 | the colours of a chunk cut to a multiple of three bytes are all of its colours |
| Sequencer.FrameBw | src/ethcer.rs:425-427 | one turn of the Binary worker: a fresh frame of the settings etched from the cursor, with the outcome and cursor of `EtchBw` |
| Sequencer.FrameColor | src/ethcer.rs:391-393 | one turn of the Color worker: a fresh frame of the settings etched from the cursor, with the outcome and cursor of `EtchColor` |
| Sequencer.WorkerBw | src/ethcer.rs:420-437 | the worker's frames are fresh and distinct; each shows its share of the chunk; all but the last are full; together they show every bit of the chunk in order |
| Sequencer.WorkerColor | src/ethcer.rs:386-403 | the worker's frames are fresh and distinct; each shows its share; all but the last are full; together they show every colour of the chunk in order |
| Sequencer.FramedBlocks | src/source.rs:15-19 | every frame of the settings' dimensions and block size holds `(height / size) * (width / size)` blocks |
| Sequencer.GroupedAppend | src/ethcer.rs:448-451 | appending one worker's frames, all full but the last, to a grouping adds one group for its chunk and keeps every earlier group |
| Sequencer.GreysGroupedStep | src/ethcer.rs:417-440 | after the worker of Binary chunk `i`, the frames are grouped by the greys of the first `i + 1` chunks |
| Sequencer.TriplesGroupedStep | src/ethcer.rs:383-406 | after the worker of Color chunk `i`, the frames are grouped by the colours of the first `i + 1` chunks |
| Sequencer.GroupedFlatten | src/ethcer.rs:448-451 | the frames of a grouping put together show all the parts put together, in order |
| Sequencer.GreysOfAt | src/ethcer.rs:417 | part `k` of the Binary parts is the greys of chunk `k` |
| Sequencer.TriplesOfAt | src/ethcer.rs:383 | part `k` of the Color parts is the colours of chunk `k` |
| Sequencer.GreysOfFlatten | src/ethcer.rs:417 | the greys of every chunk put together are the greys of the chunks put together |
| Sequencer.FlattenMultiple | src/ethcer.rs:378-383 | chunks whose lengths are multiples of three put together have such a length |
| Sequencer.TriplesOfFlatten | src/ethcer.rs:383 | when every chunk but the last is a multiple of three bytes, the colours of every chunk put together are the colours of the chunks put together |
| Sequencer.EtchChunkBw | src/ethcer.rs:417-440 | one chunk's Binary worker: its fresh frames follow the earlier ones, which are unchanged, and the grouping gains that chunk |
| Sequencer.EtchChunkColor | src/ethcer.rs:383-406 | one chunk's Color worker: its fresh frames follow the earlier ones, which are unchanged, and the grouping gains that chunk |
| Sequencer.EtchChunksBw | src/ethcer.rs:417-440 | the workers' frames in chunk order show the greys of the chunks put together; grouped by chunk, each chunk has at least one frame, its frames show exactly its greys, and every frame but the last of its chunk is full |
| Sequencer.EtchChunksColor | src/ethcer.rs:383-406 | succeeds exactly when no chunk is shorter than three bytes; the frames in chunk order show the colours of the chunks put together; grouped by chunk, each chunk has at least one frame, its frames show exactly its colours, and every frame but the last of its chunk is full |
| Sequencer.EtchPayload | src/ethcer.rs:373-442 | the workers of either mode: in chunk order they show the whole payload; there are none exactly when the payload is empty; grouped by chunk of the chunk data size, all frames but each chunk's last are full |
| Sequencer.Etch | src/ethcer.rs:368-451 | fails exactly in the source's failure cases, which are a zero block size, a zero capacity, zero workers, a Color chunk under three bytes, or an empty payload; otherwise the header frame comes first, then distinct worker frames that together show the whole payload in order, grouped by chunk with every frame but each chunk's last full |
| Sequencer.CountFrom | src/ethcer.rs:493 | counts the frames up to the first without columns |
| Sequencer.ReadCount | src/ethcer.rs:493 | the frames after the header, up to the first without columns |
| Sequencer.FrameBytes | src/ethcer.rs:501-509 | Color gives the channels of the means, never cut; Binary gives the thresholded bits, cut on the final frame and packed into bytes |
| Sequencer.FullFrameBw | src/ethcer.rs:504-508 | a full Binary worker frame decodes, on any frame but the final one, to exactly its bits packed into bytes |
| Sequencer.FullFrameColor | src/ethcer.rs:502-503 | a full Color worker frame decodes to exactly the bytes it was etched from |
| Sequencer.ReadFrame | src/ethcer.rs:501-509 | one frame decoded as `FrameBytes` of its block means |
| Sequencer.OpenHeader | src/ethcer.rs:482-488 | the first frame, or an empty one when there is none, as a source at block size 5, and the header read from it |
| Sequencer.DecodeFrames | src/ethcer.rs:490-513 | wraps frames 1, 2, … in order up to the first without columns; on success the bytes of all of them in order; on failure the first frame that could not be wrapped or decoded |
| Sequencer.Read | src/ethcer.rs:477-518 | the header of frame 0; a header error ends the read; otherwise the later frames decoded in order with the header's settings |
| Embed.ModeOf | src/args.rs:40-47 | Colored is Color; Binary is Binary |
| Embed.PresetConfig | src/tasks/embed.rs:8-37 | MaxEfficiency and Optimal are Color, Paranoid is Binary; presets give 8 workers at 10 fps, with a block that fits the frame; no preset is Binary with every setting zero |
| Embed.ResolutionOf | src/tasks/embed.rs:44-51 | every named resolution is landscape with positive sides; an unknown name is 640×360 |
| Embed.Resolution | src/tasks/embed.rs:39-55 | no resolution given is 640×360 |
| Embed.Configure | src/tasks/embed.rs:8-71 | the step-by-step configuration equals `Configured` |
| Embed.PresetIgnoresResolution | src/tasks/embed.rs:39-55 | with a preset, the requested resolution changes nothing and the dimensions are the preset's |
| Embed.ResolutionWithoutPreset | src/tasks/embed.rs:39-55 | without a preset, the dimensions are the requested resolution |
| Embed.OverridesWin | src/tasks/embed.rs:57-71 | each given parameter replaces the preset's value and each missing one keeps it; with no preset and no mode the mode is Binary |
| Embed.PresetsEtchable | src/tasks/embed.rs:11-35 | every preset without a block-size override gives settings the etcher can run |
| Embed.UnconfiguredFails | src/tasks/embed.rs:8 | without a preset, a missing block size or worker count makes etching fail |
| Embed.Tagged | src/tasks/embed.rs:73-90 | the payload tag is always the other mode: Binary tags the bytes as Color data, and Color tags their 8-bit expansion as Binary data |
| Embed.ColorModeEtches | src/tasks/embed.rs:81-88 | a non-empty file in Color mode is always etched when the frame holds at least one block and there is a worker |
| Embed.BinaryModeTinyFileFails | src/tasks/embed.rs:74-79 | a one- or two-byte file in Binary mode always fails to etch |
| Embed.RunEmbed | src/tasks/embed.rs:7-93 | a missing path fails with its message; success exactly when the path is given, the file is read and non-empty, and the tagged payload etches; the frames show the file's triples in Binary mode and its bits in Color mode, grouped by chunk with every frame but each chunk's last full |

## Left out

- **I/O.** OpenCV video reading and writing, `fs::read`, `write_bytes`, timers
  and console output are left out.
  - The file's contents and the decoded frames are parameters.
  - `Etch` returns the frames to be written.
  - `Read` returns the decoded bytes instead of writing them.
- **Threads.** The worker threads are run one after another in chunk order.
  `join` keeps that order in the source too.
- **The frame rate** is an integer. Every value the program gives it is whole:
  10.0, 1337, the default 0 and the `i32` argument.
- **Panics become errors.** A source `panic`, `expect` or out-of-range index
  is an `Err` result. This covers the zero divisors, a slice past the end,
  `u32_data[k]`, a Color chunk of one or two bytes and a missing path.
- **Uninitialised image contents** are arbitrary. Only blocks that were
  etched are specified.
- **Out-of-bounds pixel access** is a precondition. `get_pixel` never
  returns `None`, so the `continue` branch of the readers is unreachable.
- **32-bit overflow of `width * height`** is not modelled; integers are
  unbounded.
- **Mixed header counts.** The header and `etch` count the frame capacity
  differently, so a whole-video round trip is not stated. The round trips
  cover single frames and the header.
- Sequencer.Etch: requires non-negative dimensions, worker count and block
  size, and a block that fits the frame whenever the size is non-zero. On a
  frame with no blocks the source's worker loop never ends. A negative size
  is cast to a huge `usize` in `step_by`, so each frame visits only block
  (0, 0), `etch_pixel` writes no sample, and the cursor moves on by one per
  frame; this behaviour is not modelled.
- Embed.RunEmbed: requires the same of the configured settings, for the same
  reasons.
- Sequencer.DecodeFrames: a zero or negative block size read from the header
  is an error. In the source, zero is a division by zero and a negative size
  steps by a wrapped `usize`.
- Instructions.ReadInstructions: `u32_data[3] as usize` is passed on as
  `as i32`. `Settings::new` takes an `i32`, so this is the call the program
  intends.
- Instructions.HeaderParse: the final-frame, count and block values are
  recovered only when they fit in an `i32`, which is what `as i32` keeps.
- Sequencer.EtchChunksColor: the last chunk's trailing one or two bytes
  beyond a multiple of three are never etched, exactly as in the source.
  The postcondition states that the frames show the triples and nothing more.
- The source's `etcher` module path and `printnl!` spelling are compile slips
  that are not part of this model. The intended calls are modelled.
