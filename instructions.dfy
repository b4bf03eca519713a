/**
 * The instruction header: the first frame of every video carries five 32-bit
 * words, etched as binary blocks of size 5, that tell the reader how to
 * decode the frames after it.
 */
module Instructions {

  import opened Arith
  import opened Bits
  import opened Wrappers
  import opened Settings
  import opened Source
  import opened Codec

  /** The block size of the header frame. */
  const InstructionSize := 5

  const U32Max: Word := 0xFFFF_FFFF

  /** Five words of 32 bits each. */
  const HeaderBits := 160

  /** `as u32` from a wider integer: the low 32 bits. */
  function AsU32(v: int): (w: Word)
    ensures 0 <= v < 0x1_0000_0000 ==> w == v
  {
    v % 0x1_0000_0000
  }

  /** `as i32` from a u32: the same 32 bits read as a signed value. */
  function AsI32(w: Word): (v: int)
    ensures -0x8000_0000 <= v < 0x8000_0000
    ensures AsU32(v) == w
    ensures w < 0x8000_0000 ==> v == w
  {
    if w < 0x8000_0000 then w else w - 0x1_0000_0000
  }

  /** `size.pow(2)`: positive for any non-zero block size. */
  function Square(s: int): (q: nat)
    ensures s != 0 ==> q > 0
  {
    if s > 0 then MulAtLeast(s, s); s * s
    else if s < 0 then MulAtLeast(-s, -s); (-s) * (-s)
    else 0
  }

  /**
   * Payload units one frame holds as the header computes it: width * height
   * over the block size squared, with no factor 3 in Color mode.
   */
  function FrameDataSize(settings: Settings): nat
    requires settings.width >= 0 && settings.height >= 0 && settings.size != 0
  {
    MulNonNeg(settings.width, settings.height);
    (settings.width * settings.height) / Square(settings.size)
  }

  /** How many payload units the payload of `data` counts: bytes in Color mode, bits in Binary mode. */
  function Length(data: Data): nat
  {
    if data.outMode == Color then |data.bytes| else |data.binary|
  }

  /**
   * The header's final-frame count: `len / fds`, plus one when `len` is not a
   * multiple of the whole frame size `fs` (not of `fds`).
   */
  function FinalFrame(len: nat, fds: nat, fs: int): (f: nat)
    requires fds > 0 && fs > 0
    ensures len / fds <= f <= len / fds + 1
    ensures f == len / fds <==> len % fs == 0
  {
    len / fds + (if len % fs != 0 then 1 else 0)
  }

  /**
   * The five header words of `etch_instructions`: mode marker (u32::MAX for
   * Color, 0 for Binary), final frame, final element count, block size and the
   * end marker u32::MAX. The per-frame capacity `fds` is width * height over
   * size squared, with no factor 3 in Color mode; a zero capacity is the
   * division by zero the source panics on.
   */
  function HeaderWords(settings: Settings, data: Data): (r: Result<seq<Word>>)
    requires settings.width >= 0 && settings.height >= 0
    ensures r.Err? <==> settings.size == 0 || FrameDataSize(settings) == 0
    ensures r.Ok? ==> |r.value| == 5 && r.value[4] == U32Max
    ensures r.Ok? ==> (r.value[0] == U32Max <==> data.outMode == Color)
    ensures r.Ok? ==> r.value[3] == AsU32(settings.size)
    ensures r.Ok? ==> r.value[2] == AsU32(Length(data) % FrameDataSize(settings))
    ensures r.Ok? ==> r.value[1] == AsU32(FinalFrame(Length(data), FrameDataSize(settings), settings.width * settings.height))
  {
    if settings.size == 0 then Err("attempt to divide by zero")
    else
      var fds := FrameDataSize(settings);
      if fds == 0 then Err("attempt to calculate the remainder with a divisor of zero")
      else
        var len := Length(data);
        var marker: Word := if data.outMode == Color then U32Max else 0;
        Ok([marker, AsU32(FinalFrame(len, fds, settings.width * settings.height)), AsU32(len % fds), AsU32(settings.size), U32Max])
  }

  /** The header as `read_instructions` returns it. */
  datatype Header = Header(outMode: OutputMode, finalFrame: int, finalBit: int, settings: Settings)

  /**
   * What `read_instructions` makes of the words it read: word 0 == u32::MAX is
   * Color and anything else Binary; words 1 to 3 are read as i32; the end
   * marker is not looked at. Fewer than four words is the source's index panic.
   * The frame rate is the fixed 1337 and the dimensions are the frame's own.
   */
  function ParseHeader(words: seq<Word>, threads: int, width: int, height: int): (r: Result<Header>)
    ensures r.Err? <==> |words| < 4
    ensures r.Ok? ==> (r.value.outMode == Color <==> words[0] == U32Max)
    ensures r.Ok? ==> AsU32(r.value.finalFrame) == words[1] && AsU32(r.value.finalBit) == words[2]
    ensures r.Ok? ==> AsU32(r.value.settings.size) == words[3]
    ensures r.Ok? ==> r.value.settings == NewSettings(r.value.settings.size, threads, 1337, width, height)
  {
    if |words| < 4 then Err("index out of bounds")
    else
      var mode := if words[0] == U32Max then Color else Binary;
      Ok(Header(mode, AsI32(words[1]), AsI32(words[2]), NewSettings(AsI32(words[3]), threads, 1337, width, height)))
  }

  /**
   * Parsing the words `etch_instructions` wrote gives back the mode, and the
   * final frame, final element count and block size whenever they fit in an i32.
   */
  lemma HeaderParse(settings: Settings, data: Data, threads: int, width: int, height: int)
    requires settings.width >= 0 && settings.height >= 0 && HeaderWords(settings, data).Ok?
    ensures var words := HeaderWords(settings, data).value;
      var h := ParseHeader(words, threads, width, height);
      var fds := FrameDataSize(settings);
      var fs := settings.width * settings.height;
      h.Ok? && h.value.outMode == data.outMode &&
      (0 < settings.size < 0x8000_0000 ==> h.value.settings.size == settings.size) &&
      (FinalFrame(Length(data), fds, fs) < 0x8000_0000 ==> h.value.finalFrame == FinalFrame(Length(data), fds, fs)) &&
      (Length(data) % fds < 0x8000_0000 ==> h.value.finalBit == Length(data) % fds) &&
      h.value.settings.threads == threads && h.value.settings.width == width && h.value.settings.height == height
  {
  }

  /**
   * `src` is a header frame for these settings and payload: block size 5, the
   * settings' dimensions, and the header bits shown from block 0, as many of
   * them as the frame has blocks.
   */
  ghost predicate HeaderFrame(src: EmbedSource, settings: Settings, data: Data)
    requires settings.width >= 0 && settings.height >= 0
    reads src.image
  {
    HeaderWords(settings, data).Ok? && src.Valid() &&
    src.size == InstructionSize && src.frameSize == Size(settings.width, settings.height) &&
    var bits := Expand(HeaderWords(settings, data).value, 32);
    |bits| == HeaderBits &&
    Shows(src, Greys(bits[..if src.Blocks() < HeaderBits then src.Blocks() else HeaderBits]))
  }

  /**
   * `etch_instructions`: a fresh frame of the settings' dimensions at block
   * size 5 with the header bits etched from block 0. When the frame has fewer
   * than 160 blocks the header is cut short; the etcher's outcome is ignored.
   */
  method EtchInstructions(settings: Settings, data: Data) returns (r: Result<EmbedSource>)
    requires settings.width >= 0 && settings.height >= 0
    ensures r.Err? <==> HeaderWords(settings, data).Err?
    ensures r.Ok? ==> fresh(r.value) && fresh(r.value.image) && HeaderFrame(r.value, settings, data)
  {
    var words := HeaderWords(settings, data);
    if words.Err? {
      return Err(words.msg);
    }
    var bits := RipBinaryU32(words.value);
    var source := new EmbedSource(InstructionSize, settings.width, settings.height);
    var index, outcome := EtchBw(source, bits, 0);
    return Ok(source);
  }

  /**
   * `read_instructions`: all bits of the frame, read at its own block size and
   * never truncated, packed into words and parsed.
   */
  method ReadInstructions(source: EmbedSource, threads: int) returns (r: Result<Header>)
    requires source.Valid()
    ensures r == ParseHeader(PackU32(Thresholds(Means(source))), threads, source.frameSize.width, source.frameSize.height)
  {
    var bits := ReadBw(source, 0, 1, 0);
    var words := TranslateU32(bits.value);
    r := ParseHeader(words, threads, source.frameSize.width, source.frameSize.height);
  }

  /**
   * A frame that shows the 160 header bits of `words` reads back as those
   * words: their first four come back whatever the frame holds after them.
   */
  lemma HeaderRoundTrip(src: EmbedSource, words: seq<Word>, threads: int)
    requires src.Valid() && |words| == 5 && Shows(src, Greys(Expand(words, 32)))
    ensures var h := ParseHeader(PackU32(Thresholds(Means(src))), threads, src.frameSize.width, src.frameSize.height);
      h == ParseHeader(words, threads, src.frameSize.width, src.frameSize.height)
  {
    var bits := Expand(words, 32);
    ExpandLength(words, 32);
    BwRoundTrip(src, bits, 0, |bits|);
    var t := Thresholds(Means(src));
    assert bits[0..|bits|] == bits;
    assert t == bits + t[|bits|..];
    assert |bits| % 32 == 0;
    PackAppend(bits, t[|bits|..], 32);
    Pow2Values();
    PackExpand(words, 32);
    var packed := PackU32(t);
    assert packed[..4] == words[..4];
  }

  /**
   * A header frame with room for all 160 bits reads back as the header that
   * was etched: the same mode, and the block size, final frame and final bit
   * count whenever each fits an i32.
   */
  lemma HeaderRecovered(src: EmbedSource, settings: Settings, data: Data, threads: int)
    requires settings.width >= 0 && settings.height >= 0
    requires HeaderFrame(src, settings, data) && src.Blocks() >= HeaderBits
    ensures settings.size != 0 && FrameDataSize(settings) > 0 && settings.width * settings.height > 0
    ensures var h := ParseHeader(PackU32(Thresholds(Means(src))), threads, settings.width, settings.height);
      var fds, fs := FrameDataSize(settings), settings.width * settings.height;
      h == ParseHeader(HeaderWords(settings, data).value, threads, settings.width, settings.height) &&
      h.Ok? && h.value.outMode == data.outMode &&
      (0 < settings.size < 0x8000_0000 ==> h.value.settings.size == settings.size) &&
      (FinalFrame(Length(data), fds, fs) < 0x8000_0000 ==> h.value.finalFrame == FinalFrame(Length(data), fds, fs)) &&
      (Length(data) % fds < 0x8000_0000 ==> h.value.finalBit == Length(data) % fds)
  {
    var words := HeaderWords(settings, data).value;
    var bits := Expand(words, 32);
    assert bits[..HeaderBits] == bits;
    MulNonNeg(settings.width, settings.height);
    assert settings.width * settings.height > 0;
    HeaderRoundTrip(src, words, threads);
    HeaderParse(settings, data, threads, settings.width, settings.height);
  }
}
