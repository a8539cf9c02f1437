/** Images, the objects that hold them, and the painting primitives of QPainter and the browser canvas. */
module Images {
  import opened Geometry

  /** A 32-bit colour value, compared as a whole. */
  type Pixel = n: int | 0 <= n < 0x1_0000_0000

  const TRANSPARENT: Pixel := 0

  datatype Raster = Raster(width: nat, height: nat, rows: seq<seq<Pixel>>) {
    ghost predicate Valid() {
      && |rows| == height
      && (forall y :: 0 <= y < height ==> |rows[y]| == width)
      && width >= 1 && height >= 1
    }

    /** rect(). */
    function Bounds(): Rect {
      Rect(0, 0, width - 1, height - 1)
    }

    predicate Has(x: int, y: int) { 0 <= x < width && 0 <= y < height }

    function At(x: int, y: int): Pixel
      requires Valid() && Has(x, y)
    {
      rows[y][x]
    }

    /** QImage::pixel(), which answers 12345 outside the image. */
    function Pixel(x: int, y: int): Pixel
      requires Valid()
    {
      if Has(x, y) then At(x, y) else 12345
    }

    predicate SameSize(i: Raster) { width == i.width && height == i.height }
  }

  /** QImage is an implicitly shared value; assigning one copies it. The null image is not an Image. */
  type Image = i: Raster | i.Valid() witness Raster(1, 1, [[0]])

  function MakeRow(width: nat, y: int, f: (int, int) -> Pixel): (row: seq<Pixel>)
    ensures |row| == width
    ensures forall x :: 0 <= x < width ==> row[x] == f(x, y)
  {
    if width == 0 then [] else MakeRow(width - 1, y, f) + [f(width - 1, y)]
  }

  function MakeRows(width: nat, height: nat, f: (int, int) -> Pixel): (rows: seq<seq<Pixel>>)
    ensures |rows| == height
    ensures forall y :: 0 <= y < height ==> rows[y] == MakeRow(width, y, f)
  {
    if height == 0 then [] else MakeRows(width, height - 1, f) + [MakeRow(width, height - 1, f)]
  }

  /** The image of the given size with the given pixels. */
  function Make(width: nat, height: nat, f: (int, int) -> Pixel): (i: Image)
    requires width >= 1 && height >= 1
    ensures i.width == width && i.height == height
    ensures forall x, y :: i.Has(x, y) ==> i.At(x, y) == f(x, y)
  {
    Raster(width, height, MakeRows(width, height, f))
  }

  predicate SameContent(a: Image, b: Image) {
    a.SameSize(b) && forall x, y :: 0 <= x < a.width && 0 <= y < a.height ==> a.At(x, y) == b.At(x, y)
  }

  predicate HasNoZeroPixel(i: Image) {
    forall x, y :: 0 <= x < i.width && 0 <= y < i.height ==> i.At(x, y) != 0
  }

  predicate AllZero(i: Image) {
    forall x, y :: 0 <= x < i.width && 0 <= y < i.height ==> i.At(x, y) == 0
  }

  lemma SameContentIsEqual(a: Image, b: Image)
    requires SameContent(a, b)
    ensures a == b
  {
    forall y | 0 <= y < a.height ensures a.rows[y] == b.rows[y] {
      forall x | 0 <= x < a.width ensures a.rows[y][x] == b.rows[y][x] {
        assert a.At(x, y) == b.At(x, y);
      }
    }
  }

  /** A QImage object that is reached through pointers. Scan-line pointers are not range-checked: what they
      find outside the image is whatever the memory around it holds. */
  class Buffer {
    var image: Image
    const memory: map<Point, Pixel>

    constructor (image: Image, memory: map<Point, Pixel>)
      ensures this.image == image && this.memory == memory
    {
      this.image := image;
      this.memory := memory;
    }

    function Peek(x: int, y: int): Pixel
      reads this
    {
      if image.Has(x, y) then image.At(x, y) else if Point(x, y) in memory then memory[Point(x, y)] else 0
    }
  }
}
