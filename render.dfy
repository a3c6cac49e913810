/** The render endpoint's drawing part: reject a pattern without positive
    dimensions, allocate the image, pick the colour table and walk the stitch
    list, drawing each line onto the image as it goes. */
module Render {
  import opened Pattern
  import opened StitchWalk

  datatype RenderError = NoValidDimensions

  datatype Result<+T> = Ok(value: T) | Err(error: RenderError)

  /** What the image holds when drawing is done: its size and the lines drawn on
      it, in drawing order (later lines are painted over earlier ones). */
  datatype Rendered = Rendered(width: int, height: int, segments: seq<Segment>)

  /** The image being drawn on. Pixels are not modelled: the image is the
      ordered list of lines painted onto it. */
  class Canvas {
    const width: int
    const height: int
    var strokes: seq<Segment>

    /** A fresh, empty (transparent) image of the given size. */
    constructor (width: int, height: int)
      requires width > 0 && height > 0
      ensures this.width == width && this.height == height
      ensures strokes == []
    {
      this.width := width;
      this.height := height;
      strokes := [];
    }

    /** Paints a line from (x0, y0) to (x1, y1) over what is already drawn. */
    method Line(x0: int, y0: int, x1: int, y1: int, fill: Rgb, lineWidth: int)
      modifies this
      ensures strokes == old(strokes) + [Segment(x0, y0, x1, y1, fill, lineWidth)]
    {
      strokes := strokes + [Segment(x0, y0, x1, y1, fill, lineWidth)];
    }
  }

  /** Renders a pattern given its bounding box, its threads' colours and its
      stitch list. Fails when the box has no positive width or height; otherwise
      the image has exactly the box's size and holds the lines of the walk. */
  method RenderEmbroidery(bounds: Bounds, threadRgbs: seq<Rgb>, stitches: seq<StitchCmd>)
    returns (r: Result<Rendered>)
    ensures r.Err? <==> bounds.maxX - bounds.minX <= 0 || bounds.maxY - bounds.minY <= 0
    ensures r.Err? ==> r.error == NoValidDimensions
    ensures r.Ok? ==> r.value.width == bounds.maxX - bounds.minX
    ensures r.Ok? ==> r.value.height == bounds.maxY - bounds.minY
    ensures r.Ok? ==> r.value.segments == Walk(ColorTable(threadRgbs), bounds, stitches).segments
  {
    var width := bounds.maxX - bounds.minX;
    var height := bounds.maxY - bounds.minY;
    if width <= 0 || height <= 0 {
      return Err(NoValidDimensions);
    }
    var image := new Canvas(width, height);

    var colors := ColorTable(threadRgbs);
    var threadIndex: nat := 0;
    var currentColor := colors[0];
    var last: Option<Point> := None;

    for i := 0 to |stitches|
      invariant Walk(colors, bounds, stitches[..i]) ==
        WalkState(threadIndex, currentColor, last, image.strokes)
    {
      // The state this command leads to, named so the solver unfolds `Step` once.
      ghost var after := Step(colors, bounds, WalkState(threadIndex, currentColor, last, image.strokes), stitches[i]);
      WalkPrefixStep(colors, bounds, stitches, i);
      var StitchCmd(x, y, command) := stitches[i];
      var ix := x - bounds.minX;
      var iy := y - bounds.minY;

      if command == ColorChange {
        threadIndex := threadIndex + 1;
        currentColor := colors[threadIndex % |colors|];
        continue;
      }

      if command == Jump {
        last := None;
        continue;
      }

      if command == Stitch && last.Some? {
        image.Line(last.value.x, last.value.y, ix, iy, currentColor, StrokeWidth);
      }

      last := Some(Point(ix, iy));
    }
    assert stitches[..|stitches|] == stitches;
    return Ok(Rendered(image.width, image.height, image.strokes));
  }
}
