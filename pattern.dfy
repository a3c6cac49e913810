/** The parsed embroidery pattern as the render endpoint receives it: an ordered
    list of stitch commands with their coordinates, the RGB values of the
    pattern's threads, and the pattern's bounding box. Coordinates are whole
    numbers here; the reader library's floating-point values are not modelled. */
module Pattern {

  datatype Option<+T> = None | Some(value: T)

  /** The kind of a stitch command. `Other` stands for every command code the
      render loop does not test for (it treats them all alike). */
  datatype Command = Stitch | Jump | Trim | ColorChange | End | Other

  /** One entry of the stitch list: pattern-space coordinates and a command. */
  datatype StitchCmd = StitchCmd(x: int, y: int, command: Command)

  /** An 8-bit colour channel, as returned by a thread's RGB accessor. */
  type Channel = c: int | 0 <= c <= 255

  datatype Rgb = Rgb(red: Channel, green: Channel, blue: Channel)

  /** The bounding box `(min_x, min_y, max_x, max_y)` of the pattern. */
  datatype Bounds = Bounds(minX: int, minY: int, maxX: int, maxY: int)

  /** A point in image coordinates (pattern coordinates shifted by the box's minimum). */
  datatype Point = Point(x: int, y: int)

  /** One line drawn on the image: from `(x0, y0)` to `(x1, y1)`, in `color`,
      `width` pixels wide. */
  datatype Segment = Segment(x0: int, y0: int, x1: int, y1: int, color: Rgb, width: int)

  /** Number of commands of kind `k` in `s`. */
  function Count(s: seq<StitchCmd>, k: Command): (n: nat)
    ensures n <= |s|
    ensures n == 0 <==> forall i :: 0 <= i < |s| ==> s[i].command != k
    decreases |s|
  {
    if s == [] then 0
    else Count(s[..|s| - 1], k) + (if s[|s| - 1].command == k then 1 else 0)
  }

  /** Every command of `s` lies inside the box `b` (what a bounding box promises). */
  predicate InsideBounds(b: Bounds, s: seq<StitchCmd>)
  {
    forall i :: 0 <= i < |s| ==> b.minX <= s[i].x <= b.maxX && b.minY <= s[i].y <= b.maxY
  }
}
