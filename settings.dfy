/** The configuration record and the tagged payload the codec consumes. */
module Settings {

  import opened Bits

  datatype OutputMode = Color | Binary

  /**
   * The payload: `bytes` is filled in Color mode, `binary` in Binary mode,
   * and `outMode` says which one the codec reads.
   */
  datatype Data = Data(bytes: seq<Byte>, binary: seq<bool>, outMode: OutputMode)

  /**
   * Block size, worker count, frame width and height. The frame rate is an
   * integer here: every value the program gives it is a whole number.
   */
  datatype Settings = Settings(size: int, threads: int, fps: int, width: int, height: int)

  function NewOutMode(outMode: OutputMode): (d: Data)
    ensures d.bytes == [] && d.binary == [] && d.outMode == outMode
  {
    Data([], [], outMode)
  }

  function FromBinary(binary: seq<bool>): (d: Data)
    ensures d.binary == binary && d.bytes == [] && d.outMode == Binary
  {
    Data([], binary, Binary)
  }

  function FromColor(bytes: seq<Byte>): (d: Data)
    ensures d.bytes == bytes && d.binary == [] && d.outMode == Color
  {
    Data(bytes, [], Color)
  }

  function NewSettings(size: int, threads: int, fps: int, width: int, height: int): (s: Settings)
    ensures s.size == size && s.threads == threads && s.fps == fps
    ensures s.width == width && s.height == height
  {
    Settings(size, threads, fps, width, height)
  }

  /** `Settings::default()`: every field zero. */
  const DefaultSettings := Settings(0, 0, 0, 0, 0)
}
