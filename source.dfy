/**
 * The pixel surface one frame is etched into or read from: a grid of
 * 3-channel 8-bit samples stored blue-green-red, the block size, the full
 * frame size and the usable size trimmed down to a multiple of the block size.
 */
module Source {

  import opened Arith
  import opened Bits
  import opened Wrappers

  /** A width and a height, in pixels. */
  datatype Size = Size(width: int, height: int)

  /** One sample as the image stores it: blue, green, red. */
  datatype Bgr = Bgr(b: Byte, g: Byte, r: Byte)

  /** A dimension trimmed down to a multiple of the block size: `dim - dim % size`. */
  function Trim(dim: nat, size: int): (r: nat)
    requires size > 0
    ensures r % size == 0 && r <= dim && dim - r < size
    ensures r == (dim / size) * size && r / size == dim / size
    ensures dim % size == 0 ==> r == dim
  {
    DivMod(dim, size);
    DivModUnique(dim - dim % size, size, dim / size, 0);
    dim - dim % size
  }

  function Trimmed(frame: Size, size: int): (r: Size)
    requires size > 0 && frame.width >= 0 && frame.height >= 0
    ensures r.width % size == 0 && r.height % size == 0
    ensures 0 <= r.width <= frame.width && frame.width - r.width < size
    ensures 0 <= r.height <= frame.height && frame.height - r.height < size
  {
    Size(Trim(frame.width, size), Trim(frame.height, size))
  }

  class EmbedSource {
    const image: array2<Bgr>
    const size: int
    const frameSize: Size
    const actualSize: Size

    /** The image has `frameSize` rows and columns and the usable size is its trimmed size. */
    ghost predicate Valid() {
      size > 0 &&
      frameSize == Size(image.Length1, image.Length0) &&
      actualSize == Trimmed(frameSize, size)
    }

    /** Blocks per row of the usable area. */
    function Cols(): (c: nat)
      requires Valid()
      ensures c * size == actualSize.width
    {
      actualSize.width / size
    }

    /** Rows of blocks in the usable area. */
    function Rows(): (r: nat)
      requires Valid()
      ensures r * size == actualSize.height
    {
      actualSize.height / size
    }

    /** The number of blocks one frame holds. */
    function Blocks(): nat
      requires Valid()
    {
      Rows() * Cols()
    }

    /**
     * `EmbedSource::new`: an image of `height` rows by `width` columns whose
     * samples are whatever the allocation holds.
     */
    constructor (size: int, width: int, height: int)
      requires size > 0 && width >= 0 && height >= 0
      ensures Valid() && fresh(image)
      ensures this.size == size && frameSize == Size(width, height)
      ensures actualSize == Size(width - width % size, height - height % size)
    {
      this.size := size;
      this.frameSize := Size(width, height);
      this.actualSize := Size(Trim(width, size), Trim(height, size));
      this.image := new Bgr[height, width];
    }

    /** Takes ownership of an image read from the container. */
    constructor Wrap(image: array2<Bgr>, size: int)
      requires size > 0
      ensures Valid() && this.image == image && this.size == size
    {
      this.image := image;
      this.size := size;
      this.frameSize := Size(image.Length1, image.Length0);
      this.actualSize := Trimmed(Size(image.Length1, image.Length0), size);
    }
  }

  /**
   * `EmbedSource::from`: a source over an existing image. Unless it is the
   * instruction frame, the image height must be a multiple of the block size;
   * the width is never checked.
   */
  method From(image: array2<Bgr>, size: int, instruction: bool) returns (r: Result<EmbedSource>)
    requires size > 0
    ensures r.Err? <==> (image.Length0 % size != 0 && !instruction)
    ensures r.Ok? ==> r.value.Valid() && r.value.image == image && r.value.size == size
    ensures r.Ok? ==> r.value.frameSize == Size(image.Length1, image.Length0)
    ensures r.Ok? ==>
      r.value.actualSize == Size(image.Length1 - image.Length1 % size, image.Length0 - image.Length0 % size)
  {
    if image.Length0 % size != 0 && !instruction {
      return Err("Image size is not a multiple of the embedding size");
    }
    var source := new EmbedSource.Wrap(image, size);
    return Ok(source);
  }
}
