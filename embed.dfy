/**
 * The embed command: the command-line parameters are turned into a mode and
 * settings (a preset, then a default resolution, then explicit overrides),
 * the file is read and tagged, and the payload is etched into frames.
 */
module Embed {

  import opened Bits
  import opened Wrappers
  import opened Settings
  import opened Source
  import opened Codec
  import opened Instructions
  import opened Sequencer

  datatype EmbedPreset = Optimal | Paranoid | MaxEfficiency

  datatype EmbedOutputMode = Colored | Binary

  /** The embed parameters; every one of them may be left out on the command line. */
  datatype EmbedParams = EmbedParams(
    inPath: Option<string>,
    preset: Option<EmbedPreset>,
    mode: Option<EmbedOutputMode>,
    blockSize: Option<int>,
    threads: Option<nat>,
    fps: Option<int>,
    resolution: Option<string>)

  /** The mode and settings `run_embed` hands to the etcher. */
  datatype Config = Config(mode: OutputMode, settings: Settings)

  /** The conversion from the command-line mode: Colored is Color, Binary is Binary. */
  function ModeOf(m: EmbedOutputMode): (o: OutputMode)
    ensures o == Color <==> m == Colored
  {
    match m
    case Colored => Color
    case Binary => OutputMode.Binary
  }

  function Or<T>(o: Option<T>, default: T): T
  {
    if o.Some? then o.value else default
  }

  /**
   * Where the presets leave the configuration: MaxEfficiency and Optimal are
   * Color at block size 1 and 2, Paranoid is Binary at block size 4, all with
   * 8 workers at 10 frames a second; no preset is Binary with every setting zero.
   */
  function PresetConfig(preset: Option<EmbedPreset>): (c: Config)
    ensures preset.Some? ==> c.settings.threads == 8 && c.settings.fps == 10 && c.settings.width > 0 && c.settings.height > 0
    ensures preset.Some? ==> 0 < c.settings.size <= c.settings.height <= c.settings.width
    ensures preset.None? ==> c == Config(OutputMode.Binary, DefaultSettings)
    ensures c.mode == Color <==> preset == Some(MaxEfficiency) || preset == Some(Optimal)
  {
    match preset
    case Some(MaxEfficiency) => Config(Color, Settings(1, 8, 10, 256, 144))
    case Some(Optimal) => Config(Color, Settings(2, 8, 10, 1280, 720))
    case Some(Paranoid) => Config(OutputMode.Binary, Settings(4, 8, 10, 1280, 720))
    case None => Config(OutputMode.Binary, DefaultSettings)
  }

  /** The named resolutions; any other name is 360p. */
  function ResolutionOf(name: string): (wh: (int, int))
    ensures 0 < wh.1 < wh.0
    ensures name !in ["144p", "240p", "360p", "480p", "720p"] ==> wh == (640, 360)
  {
    if name == "144p" then (256, 144)
    else if name == "240p" then (426, 240)
    else if name == "360p" then (640, 360)
    else if name == "480p" then (854, 480)
    else if name == "720p" then (1280, 720)
    else (640, 360)
  }

  /** The resolution asked for, or 640 by 360 when none is. */
  function Resolution(r: Option<string>): (wh: (int, int))
    ensures 0 < wh.1 < wh.0
    ensures r.None? ==> wh == (640, 360)
  {
    if r.None? then (640, 360) else ResolutionOf(r.value)
  }

  /**
   * The configuration `run_embed` arrives at: the preset's, with the
   * requested resolution put in when the preset left a dimension at zero,
   * and every parameter given on the command line in place of the value it
   * names.
   */
  function Configured(args: EmbedParams): Config
  {
    var base := PresetConfig(args.preset);
    var s := base.settings;
    var dims := if s.width == 0 || s.height == 0 then Resolution(args.resolution) else (s.width, s.height);
    var mode := if args.mode.Some? then ModeOf(args.mode.value) else base.mode;
    Config(mode, Settings(Or(args.blockSize, s.size), Or(args.threads, s.threads), Or(args.fps, s.fps), dims.0, dims.1))
  }

  /** The settings part of `run_embed`, overwriting the defaults step by step. */
  method Configure(args: EmbedParams) returns (outMode: OutputMode, settings: Settings)
    ensures Config(outMode, settings) == Configured(args)
  {
    settings := DefaultSettings;
    outMode := OutputMode.Binary;
    match args.preset {
      case Some(MaxEfficiency) =>
        outMode := Color;
        settings := settings.(size := 1, threads := 8, fps := 10, width := 256, height := 144);
      case Some(Optimal) =>
        outMode := Color;
        settings := settings.(size := 2, threads := 8, fps := 10, width := 1280, height := 720);
      case Some(Paranoid) =>
        outMode := OutputMode.Binary;
        settings := settings.(size := 4, threads := 8, fps := 10, width := 1280, height := 720);
      case None =>
    }
    if settings.width == 0 || settings.height == 0 {
      if args.resolution.None? {
        settings := settings.(width := 640, height := 360);
      } else {
        var (width, height) := ResolutionOf(args.resolution.value);
        settings := settings.(width := width, height := height);
      }
    }
    if args.mode.Some? {
      outMode := ModeOf(args.mode.value);
    }
    if args.blockSize.Some? {
      settings := settings.(size := args.blockSize.value);
    }
    if args.fps.Some? {
      settings := settings.(fps := args.fps.value);
    }
    if args.threads.Some? {
      settings := settings.(threads := args.threads.value);
    }
  }

  /** A preset fixes the dimensions: the requested resolution is never looked at. */
  lemma PresetIgnoresResolution(args: EmbedParams, r: Option<string>)
    requires args.preset.Some?
    ensures Configured(args.(resolution := r)) == Configured(args)
    ensures Configured(args).settings.width == PresetConfig(args.preset).settings.width
    ensures Configured(args).settings.height == PresetConfig(args.preset).settings.height
  {
  }

  /** Without a preset the dimensions are the requested resolution, 640 by 360 by default. */
  lemma ResolutionWithoutPreset(args: EmbedParams)
    requires args.preset.None?
    ensures (Configured(args).settings.width, Configured(args).settings.height) == Resolution(args.resolution)
  {
  }

  /**
   * A parameter given on the command line wins over the preset, and one left
   * out keeps the preset's value (zero without a preset); the mode stays
   * Binary unless a preset or the mode parameter says otherwise.
   */
  lemma OverridesWin(args: EmbedParams)
    ensures var c, base := Configured(args), PresetConfig(args.preset);
      c.settings.size == (if args.blockSize.Some? then args.blockSize.value else base.settings.size) &&
      c.settings.threads == (if args.threads.Some? then args.threads.value else base.settings.threads) &&
      c.settings.fps == (if args.fps.Some? then args.fps.value else base.settings.fps) &&
      c.mode == (if args.mode.Some? then ModeOf(args.mode.value) else base.mode)
    ensures args.preset.None? && args.mode.None? ==> Configured(args).mode == OutputMode.Binary
  {
  }

  /** Every preset, whatever worker count is asked for, gives settings the etcher can run. */
  lemma PresetsEtchable(args: EmbedParams)
    requires args.preset.Some? && args.blockSize.None?
    ensures Etchable(Configured(args).settings) && Workable(Configured(args).settings)
  {
  }

  /**
   * Without a preset, a block size and a worker count have to be given: a
   * zero block size is a division by zero, and zero workers a division by
   * zero in the chunk size.
   */
  lemma UnconfiguredFails(args: EmbedParams, data: Data)
    requires args.preset.None? && (args.blockSize.None? || args.threads.None?)
    requires Etchable(Configured(args).settings)
    ensures EtchFails(data, Configured(args).settings)
  {
  }

  /**
   * The payload tag of `run_embed` as written: Binary mode tags the file's
   * bytes as Color data and Color mode tags its bits as Binary data, so the
   * data always carries the other mode.
   */
  function Tagged(mode: OutputMode, bytes: seq<Byte>): (d: Data)
    ensures d.outMode != mode
    ensures mode == OutputMode.Binary ==> d == FromColor(bytes)
    ensures mode == Color ==> d.outMode == OutputMode.Binary && d.binary == Expand(bytes, 8) && |d.binary| == 8 * |bytes|
  {
    ExpandLength(bytes, 8);
    if mode == OutputMode.Binary then FromColor(bytes) else FromBinary(Expand(bytes, 8))
  }

  /**
   * A non-empty file tagged in Color mode is etched whenever the settings
   * allow a frame at all: the bits are never too few for a chunk.
   */
  lemma ColorModeEtches(settings: Settings, bytes: seq<Byte>)
    requires Etchable(settings) && |bytes| > 0
    requires settings.size != 0 && FrameDataSize(settings) > 0 && settings.threads > 0
    ensures !EtchFails(Tagged(Color, bytes), settings)
  {
  }

  /**
   * A file of one or two bytes tagged in Binary mode cannot be etched: it
   * makes a single chunk too short for one colour.
   */
  lemma {:induction false} BinaryModeTinyFileFails(settings: Settings, bytes: seq<Byte>)
    requires Etchable(settings) && 0 < |bytes| < 3
    ensures EtchFails(Tagged(OutputMode.Binary, bytes), settings)
  {
    var data := Tagged(OutputMode.Binary, bytes);
    if settings.size != 0 && EtchCapacity(settings, Color) != 0 && settings.threads != 0 {
      var cds := ChunkDataSize(|bytes|, EtchCapacity(settings, Color), settings.threads);
      assert |bytes| <= cds;
      var chunks := Chunks(bytes, cds);
      assert chunks == [bytes];
      assert |chunks[0]| < 3;
    }
  }

  /**
   * `run_embed` without the video writer: the configuration, then the file's
   * contents (a read error, an empty file or a missing path end the run),
   * tagged and etched.
   */
  method RunEmbed(args: EmbedParams, file: Result<seq<Byte>>)
    returns (r: Result<seq<EmbedSource>>, ghost shown: seq<seq<Rgb>>, ghost groups: seq<seq<seq<Rgb>>>)
    requires Etchable(Configured(args).settings)
    ensures args.inPath.None? ==> r == Err("No path provided in arguments")
    ensures var c := Configured(args);
      r.Ok? <==> args.inPath.Some? && RipBytes(file).Ok? && !EtchFails(Tagged(c.mode, file.value), c.settings)
    ensures var c := Configured(args);
      r.Ok? ==> (file.Ok? && Workable(c.settings) && c.settings.threads > 0 && EtchCapacity(c.settings, Tagged(c.mode, file.value).outMode) > 0 &&
                 Grouped(shown, groups, Parts(Tagged(c.mode, file.value), c.settings), FrameBlocks(c.settings)))
    ensures var c := Configured(args);
      r.Ok? ==> (|r.value| >= 2 && HeaderFrame(r.value[0], c.settings, Tagged(c.mode, file.value)) &&
                 Etched(r.value[1..], shown, c.settings) && Distinct(r.value))
    ensures r.Ok? ==> forall i :: 0 <= i < |r.value| ==> fresh(r.value[i].image)
    ensures r.Ok? ==> Flatten(shown) ==
                        (if Configured(args).mode == OutputMode.Binary then Triples(file.value) else Greys(Expand(file.value, 8)))
  {
    shown, groups := [], [];
    var outMode, settings := Configure(args);
    if args.inPath.None? {
      return Err("No path provided in arguments"), [], [];
    }
    var bytes := RipBytes(file);
    if bytes.Err? {
      return Err(bytes.msg), [], [];
    }
    var data: Data;
    if outMode == OutputMode.Binary {
      data := FromColor(bytes.value);
    } else {
      var binary := RipBinary(bytes.value);
      data := FromBinary(binary);
    }
    assert data == Tagged(outMode, file.value);
    r, shown, groups := Etch(data, settings);
  }
}
