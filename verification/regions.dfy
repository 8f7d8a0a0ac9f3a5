/** Regions of interest (ImageJ `ShapeRoi`), the image they lie on, and the geometry
    primitives the core borrows from ImageJ and `java.awt.geom`. */
module Regions {
  import opened Common

  datatype Point = Point(x: int, y: int)

  /** The channel values of one RGB pixel, each in 0..255 in a real image. */
  datatype Rgb = Rgb(r: int, g: int, b: int)

  /** An RGB image stored row-major: pixel (x, y) is `pixels[y * width + x]`. */
  datatype Image = Image(width: nat, height: nat, pixels: seq<Rgb>)
  {
    predicate WellFormed()
    {
      |pixels| == width * height
    }

    predicate Inside(x: int, y: int)
    {
      0 <= x < width && 0 <= y < height
    }
  }

  /** `ImagePlus.getPixel`: the pixel's channels, or all zeros outside the image. */
  function PixelAt(img: Image, x: int, y: int): (c: Rgb)
    requires img.WellFormed()
    ensures !img.Inside(x, y) ==> c == Rgb(0, 0, 0)
  {
    if img.Inside(x, y) then
      RowMajorInRange(x, y, img.width, img.height);
      img.pixels[y * img.width + x]
    else Rgb(0, 0, 0)
  }

  /** The geometry of a region: its outline polygon and the pixels it contains. */
  datatype Shape = Shape(outline: seq<Point>, points: seq<Point>)

  /** A region of interest. Regions are never changed after construction, so a
      region is its shape plus its identity as an object: two regions are the
      same region only when they are the same object. */
  class Region {
    /** Vertices of `getPolygon()`. */
    const outline: seq<Point>
    /** `getContainedPoints()`. */
    const points: seq<Point>

    constructor (s: Shape)
      ensures outline == s.outline && points == s.points
    {
      outline := s.outline;
      points := s.points;
    }

    function GetShape(): Shape
    {
      Shape(outline, points)
    }

    /** `getContainedPoints().length`. */
    function PixelCount(): nat
    {
      |points|
    }
  }

  /** The polygon operations of `java.awt.geom.Area` and `ShapeRoi` that the core calls,
      supplied from outside the model. */
  datatype Geometry = Geometry(
    // `new Area(p1).intersect(new Area(p2))` is non-empty
    intersects: (seq<Point>, seq<Point>) -> bool,
    // `new ShapeRoi(a).or(b).shapeToRoi()`
    union: (Shape, Shape) -> Shape)
}
