# Embroidery render walk

A model of the drawing part of the `/render-embroidery` endpoint of
fpp-embroidery-render. The endpoint reads an embroidery pattern (DST, PES, …),
sizes a transparent image from the pattern's bounding box and walks the stitch
list once. The walk keeps a thread index, the colour in effect and the last pen
position, and it draws a two-pixel line for every stitch whose pen is down.

The model has three modules:

- `Pattern` (pattern.dfy) holds the input data: stitch commands
  (`Stitch | Jump | Trim | ColorChange | End | Other`), RGB colours, the
  bounding box, and the lines (segments) the walk draws.
- `StitchWalk` (stitch_walk.dfy) is the walk written as functions. It has the
  colour table with its fallback palette, the translation into image
  coordinates, one `Step`, and the whole `Walk` over a stitch list. The lemmas
  state what the walk does, one command at a time and over the whole list.
  `Pen` and `Drawn` describe the pen and the drawn lines without walk state,
  and `WalkMatchesDrawn` proves that the walk produces exactly those.
- `Render` (render.dfy) models the endpoint's imperative code. It rejects a
  box with no positive width or height, allocates a `Canvas`, and runs the
  loop. The loop updates `threadIndex`, `currentColor` and `last` and paints
  each line onto the canvas in place. The method's contract says that the
  result is the walk's line list. The image is modelled as the ordered list of
  lines painted on it, not as pixels.

In the code:

- `TRIM` does not lift the pen. It moves the pen like a stitch without drawing.
- `END` does not stop the walk.
- Unknown command codes are not rejected. They move the pen like `TRIM`.
- No padding is added to the image.
- Coordinates are translated with `int(...)`, which truncates rather than rounds.

`TrimExample` and `EndExample` show the first two points on concrete input.

## Model

| member | source | states |
|---|---|---|
| `Render.RenderEmbroidery` | main.py:32-81 | The render fails with `NoValidDimensions` exactly when `maxX-minX <= 0` or `maxY-minY <= 0`. Otherwise the image is exactly that wide and high and holds the walk's lines in drawing order. The loop's state equals the walk over the stitches seen so far. |
| `Render.Canvas.constructor` | main.py:41-42 | A new image has the requested size and nothing drawn on it. |
| `Render.Canvas.Line` | main.py:78 | Drawing a line appends it on top of what is already drawn and changes nothing else. |
| `StitchWalk.ColorTable` | main.py:47-51 | The colour table is never empty. It is the thread colours in thread order, or exactly black, red, blue, green when there are no threads. |
| `StitchWalk.Translate` | main.py:61-62 | A stitch's image position is its coordinates minus the box minimum. The minimum corner maps to (0, 0). |
| `StitchWalk.Start` | main.py:53-57 | The walk starts at thread index 0 with colour slot 0 (`colors[0]`), the pen up (no last point) and nothing drawn. |
| `StitchWalk.Step` | main.py:61-81 | One command appends at most one line and never removes one. Only a colour change advances the thread index, and it keeps the last point. Every other command keeps the index and colour. The colour stays the table slot of the thread index. `ColorChangeKeepsPen`, `JumpLiftsPen`, `PenMoves` and `Emission` state the four cases exactly. |
| `StitchWalk.Walk` | main.py:53-81 | The walk over a stitch list draws at most one line and counts at most one colour change per command. `ColorCycle` gives its exact colour, `WalkMatchesDrawn` its exact lines. |
| `StitchWalk.ColorCycle` | main.py:53-67 | After `k` colour changes the thread index is `k` and the colour is table slot `k mod len(colors)`, starting at slot 0. |
| `StitchWalk.FallbackCycle` | main.py:49-67 | Without threads the colour is fallback slot `k mod 4`. After four changes it is black again. |
| `StitchWalk.ColorChangeKeepsPen` | main.py:64-69 | A colour change draws nothing, keeps the last point and selects the next colour slot. |
| `StitchWalk.JumpLiftsPen` | main.py:71-74 | A jump draws nothing, clears the last point and keeps the colour. |
| `StitchWalk.PenMoves` | main.py:71-81 | Any command other than a colour change or a jump, including stitch, trim and end, sets the last point to its translated coordinates and keeps the colour. |
| `StitchWalk.Emission` | main.py:61-81 | A command adds a line exactly when it is a stitch and the last point is set. The line runs from the last point to `(x-minX, y-minY)` in the current colour with width 2. Otherwise the line list is unchanged. |
| `StitchWalk.NothingDrawnAfterJump` | main.py:71-78 | The command right after a jump never draws a line. |
| `StitchWalk.StitchAfterColorChange` | main.py:64-78 | A stitch right after a colour change connects to the point before the colour change and uses the new colour. |
| `StitchWalk.SegmentsAppendOnly` | main.py:59-81 | Lines are emitted in stitch order. The lines of a prefix of the stitch list are a prefix of the lines of the whole list. |
| `StitchWalk.SegmentCountBound` | main.py:76-78 | No more lines are drawn than there are `STITCH` commands. |
| `StitchWalk.SegmentsUseTable` | main.py:47-78 | Every line is 2 pixels wide and its colour comes from the colour table. |
| `StitchWalk.SegmentsInsideCanvas` | main.py:32-62 | If every stitch lies in the bounding box, every line endpoint lies in `[0, width] x [0, height]`. |
| `StitchWalk.LastPointCharacterised` | main.py:57-81 | If only colour changes were seen, the pen is up. Otherwise the last command that is not a colour change decides the pen: a jump leaves it up, and any other command leaves it at that command's translated point. |
| `StitchWalk.WalkMatchesDrawn` | main.py:53-81 | The walk draws exactly `Drawn`: stitch `i` draws a line iff the pen before it is down. The line starts at that pen point and uses colour slot `(colour changes before i) mod len(colors)`. The walk's last point is `Pen`. |
| `StitchWalk.JumpExample` | main.py:59-81 | Stitch (0,0), stitch (10,0), jump, stitch (10,10) with one red thread draws one red line (0,0)-(10,0) and nothing else. |
| `StitchWalk.TrimExample` | main.py:71-81 | A trim does not break the line: the next stitch connects to the trim's point. |
| `StitchWalk.EndExample` | main.py:59-81 | An end command does not stop the walk: a later stitch connects to the end's point. |

## Left out

- HTTP handling (upload checks, JSON error replies, the 500 reply for unexpected exceptions) and logging: request plumbing, not drawing logic.
- Saving the upload to a temporary file and removing it: filesystem I/O.
- Reading the pattern, `pattern.bounds()` and `thread.get_rgb()`: these are embroidery-library calls. The stitch list, the bounding box and the RGB list are inputs. What the library returns for an empty stitch list is therefore not modelled.
- Floating-point coordinates and the float semantics of `int(...)`: coordinates and bounds are integers, so translation is exact subtraction.
- Pixel rasterisation of lines, the transparent RGBA background and PNG encoding: the image is modelled as the ordered list of lines drawn on it.
- A stitch on the box's maximum edge translates to x = width or y = height. That is one past the last pixel column or row, so the image library clips part of that line. Pixels are not modelled, so this clipping is stated only as the closed bound in `SegmentsInsideCanvas`.
