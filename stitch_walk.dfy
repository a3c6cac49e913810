/** The walk over the stitch list that decides which lines the render endpoint
    draws, stated as functions: the colour table, the coordinate translation,
    one step of the walk and the whole walk, with the properties of the walk
    proved as lemmas. The method that runs the walk in place is in module Render. */
module StitchWalk {
  import opened Pattern

  /** Every line is drawn two pixels wide. */
  const StrokeWidth: int := 2

  /** The colours used when the pattern carries no thread list:
      black, red, blue, green. */
  const FallbackPalette: seq<Rgb> :=
    [Rgb(0, 0, 0), Rgb(255, 0, 0), Rgb(0, 0, 255), Rgb(0, 255, 0)]

  /** The colour table: the threads' colours in thread order, or the fallback
      palette when there are none. It is never empty. */
  function ColorTable(threadRgbs: seq<Rgb>): (colors: seq<Rgb>)
    ensures |colors| > 0
    ensures |threadRgbs| > 0 ==> colors == threadRgbs
    ensures threadRgbs == [] ==> colors == FallbackPalette && |colors| == 4
  {
    if threadRgbs == [] then FallbackPalette else threadRgbs
  }

  /** A stitch's position on the image: its coordinates minus the box's minimum. */
  function Translate(b: Bounds, c: StitchCmd): (p: Point)
    ensures c.x == b.minX && c.y == b.minY ==> p == Point(0, 0)
    ensures p.x + b.minX == c.x && p.y + b.minY == c.y
  {
    Point(c.x - b.minX, c.y - b.minY)
  }

  /** The state carried along the walk: how many colour changes were seen, the
      colour in effect, the last pen position (None while the pen is up) and the
      lines drawn so far, oldest first. */
  datatype WalkState = WalkState(threadIndex: nat, color: Rgb, last: Option<Point>, segments: seq<Segment>)

  /** Before the first command: first colour, pen up, nothing drawn. */
  function Start(colors: seq<Rgb>): (r: WalkState)
    requires |colors| > 0
    ensures r.threadIndex == 0 && r.color == colors[r.threadIndex % |colors|]
    ensures r.last == None && r.segments == []
  {
    WalkState(0, colors[0], None, [])
  }

  /** The effect of one command on the walk state. A step only appends, at most
      one line; only a colour change moves the thread index or the colour, and
      the colour stays the table slot of the thread index. */
  function Step(colors: seq<Rgb>, b: Bounds, w: WalkState, c: StitchCmd): (r: WalkState)
    requires |colors| > 0
    ensures w.segments <= r.segments && |r.segments| <= |w.segments| + 1
    ensures c.command != ColorChange ==> r.threadIndex == w.threadIndex && r.color == w.color
    ensures c.command == ColorChange ==> r.threadIndex == w.threadIndex + 1 && r.last == w.last
    ensures w.color == colors[w.threadIndex % |colors|] ==> r.color == colors[r.threadIndex % |colors|]
  {
    var p := Translate(b, c);
    if c.command == ColorChange then
      w.(threadIndex := w.threadIndex + 1, color := colors[(w.threadIndex + 1) % |colors|])
    else if c.command == Jump then
      w.(last := None)
    else
      var drawn :=
        if c.command == Stitch && w.last.Some? then
          [Segment(w.last.value.x, w.last.value.y, p.x, p.y, w.color, StrokeWidth)]
        else [];
      w.(segments := w.segments + drawn, last := Some(p))
  }

  /** The walk over the whole stitch list `s`, in order: at most one line and at
      most one colour change per command. */
  function Walk(colors: seq<Rgb>, b: Bounds, s: seq<StitchCmd>): (r: WalkState)
    requires |colors| > 0
    ensures |r.segments| <= |s| && r.threadIndex <= |s|
    decreases |s|
  {
    if s == [] then Start(colors)
    else Step(colors, b, Walk(colors, b, s[..|s| - 1]), s[|s| - 1])
  }

  /** Walking one more command is one more step. */
  lemma WalkAppend(colors: seq<Rgb>, b: Bounds, s: seq<StitchCmd>, c: StitchCmd)
    requires |colors| > 0
    ensures Walk(colors, b, s + [c]) == Step(colors, b, Walk(colors, b, s), c)
  {
    assert (s + [c])[..|s|] == s;
  }

  /** The walk over the first `i + 1` commands is one step past the walk over the
      first `i`. */
  lemma WalkPrefixStep(colors: seq<Rgb>, b: Bounds, s: seq<StitchCmd>, i: nat)
    requires |colors| > 0
    requires i < |s|
    ensures Walk(colors, b, s[..i + 1]) == Step(colors, b, Walk(colors, b, s[..i]), s[i])
  {
    assert s[..i + 1] == s[..i] + [s[i]];
    WalkAppend(colors, b, s[..i], s[i]);
  }

  // ---------------------------------------------------------------------------
  // Colours

  /** After `k` colour changes the thread index is `k` and the colour in effect is
      slot `k mod |colors|` of the table, starting from slot 0. */
  lemma {:induction false} ColorCycle(colors: seq<Rgb>, b: Bounds, s: seq<StitchCmd>)
    requires |colors| > 0
    ensures Walk(colors, b, s).threadIndex == Count(s, ColorChange)
    ensures Walk(colors, b, s).color == colors[Count(s, ColorChange) % |colors|]
    decreases |s|
  {
    if s != [] {
      ColorCycle(colors, b, s[..|s| - 1]);
    }
  }

  /** Without a thread list the walk cycles through black, red, blue, green, and
      the fifth colour slot (after four changes) is black again. */
  lemma FallbackCycle(b: Bounds, s: seq<StitchCmd>)
    ensures Walk(ColorTable([]), b, s).color == FallbackPalette[Count(s, ColorChange) % 4]
    ensures Count(s, ColorChange) == 4 ==> Walk(ColorTable([]), b, s).color == Rgb(0, 0, 0)
  {
    ColorCycle(ColorTable([]), b, s);
  }

  // ---------------------------------------------------------------------------
  // One command at a time

  /** A colour change draws nothing and leaves the pen where it is; it moves to
      the next colour slot. */
  lemma ColorChangeKeepsPen(colors: seq<Rgb>, b: Bounds, s: seq<StitchCmd>, c: StitchCmd)
    requires |colors| > 0
    requires c.command == ColorChange
    ensures Walk(colors, b, s + [c]).segments == Walk(colors, b, s).segments
    ensures Walk(colors, b, s + [c]).last == Walk(colors, b, s).last
    ensures Walk(colors, b, s + [c]).color == colors[(Count(s, ColorChange) + 1) % |colors|]
  {
    WalkAppend(colors, b, s, c);
    ColorCycle(colors, b, s);
  }

  /** A jump draws nothing, lifts the pen and keeps the colour. */
  lemma JumpLiftsPen(colors: seq<Rgb>, b: Bounds, s: seq<StitchCmd>, c: StitchCmd)
    requires |colors| > 0
    requires c.command == Jump
    ensures Walk(colors, b, s + [c]).segments == Walk(colors, b, s).segments
    ensures Walk(colors, b, s + [c]).last == None
    ensures Walk(colors, b, s + [c]).color == Walk(colors, b, s).color
  {
    WalkAppend(colors, b, s, c);
  }

  /** Every command other than a colour change or a jump (a stitch, a trim, an
      end or any other code) puts the pen at its own translated position and
      keeps the colour. */
  lemma PenMoves(colors: seq<Rgb>, b: Bounds, s: seq<StitchCmd>, c: StitchCmd)
    requires |colors| > 0
    requires c.command != ColorChange && c.command != Jump
    ensures Walk(colors, b, s + [c]).last == Some(Translate(b, c))
    ensures Walk(colors, b, s + [c]).color == Walk(colors, b, s).color
  {
    WalkAppend(colors, b, s, c);
  }

  /** A command draws a line exactly when it is a stitch and the pen is down; the
      line runs from the last point to the command's translated position, in the
      colour in effect, two pixels wide. Otherwise nothing is drawn. */
  lemma Emission(colors: seq<Rgb>, b: Bounds, s: seq<StitchCmd>, c: StitchCmd)
    requires |colors| > 0
    ensures var before, after := Walk(colors, b, s), Walk(colors, b, s + [c]);
      (|after.segments| == |before.segments| + 1 <==> c.command == Stitch && before.last.Some?) &&
      (c.command == Stitch && before.last.Some? ==>
         after.segments == before.segments +
           [Segment(before.last.value.x, before.last.value.y, c.x - b.minX, c.y - b.minY,
                    before.color, StrokeWidth)]) &&
      (!(c.command == Stitch && before.last.Some?) ==> after.segments == before.segments)
  {
    WalkAppend(colors, b, s, c);
  }

  /** Whatever follows a jump draws nothing. */
  lemma NothingDrawnAfterJump(colors: seq<Rgb>, b: Bounds, s: seq<StitchCmd>, j: StitchCmd, c: StitchCmd)
    requires |colors| > 0
    requires j.command == Jump
    ensures Walk(colors, b, s + [j, c]).segments == Walk(colors, b, s).segments
  {
    JumpLiftsPen(colors, b, s, j);
    Emission(colors, b, s + [j], c);
    assert s + [j, c] == (s + [j]) + [c];
  }

  /** A stitch right after a colour change connects to the point before the
      colour change, in the new colour. */
  lemma StitchAfterColorChange(colors: seq<Rgb>, b: Bounds, s: seq<StitchCmd>, cc: StitchCmd, st: StitchCmd)
    requires |colors| > 0
    requires cc.command == ColorChange && st.command == Stitch
    requires Walk(colors, b, s).last.Some?
    ensures var p := Walk(colors, b, s).last.value;
      Walk(colors, b, s + [cc, st]).segments == Walk(colors, b, s).segments +
        [Segment(p.x, p.y, st.x - b.minX, st.y - b.minY,
                 colors[(Count(s, ColorChange) + 1) % |colors|], StrokeWidth)]
  {
    ColorChangeKeepsPen(colors, b, s, cc);
    Emission(colors, b, s + [cc], st);
    assert s + [cc, st] == (s + [cc]) + [st];
  }

  // ---------------------------------------------------------------------------
  // The whole walk

  /** Lines are only ever appended: the lines drawn for a prefix of the stitch
      list are a prefix of the lines drawn for the whole list. */
  lemma {:induction false} SegmentsAppendOnly(colors: seq<Rgb>, b: Bounds, s: seq<StitchCmd>, t: seq<StitchCmd>)
    requires |colors| > 0
    ensures Walk(colors, b, s).segments <= Walk(colors, b, s + t).segments
    decreases |t|
  {
    if t == [] {
      assert s + t == s;
    } else {
      var init := t[..|t| - 1];
      SegmentsAppendOnly(colors, b, s, init);
      WalkAppend(colors, b, s + init, t[|t| - 1]);
      assert s + t == (s + init) + [t[|t| - 1]];
    }
  }

  /** No more lines are drawn than there are stitch commands. */
  lemma {:induction false} SegmentCountBound(colors: seq<Rgb>, b: Bounds, s: seq<StitchCmd>)
    requires |colors| > 0
    ensures |Walk(colors, b, s).segments| <= Count(s, Stitch)
    decreases |s|
  {
    if s != [] {
      SegmentCountBound(colors, b, s[..|s| - 1]);
    }
  }

  /** Every line is two pixels wide and drawn in a colour of the table. */
  lemma {:induction false} SegmentsUseTable(colors: seq<Rgb>, b: Bounds, s: seq<StitchCmd>)
    requires |colors| > 0
    ensures var segs := Walk(colors, b, s).segments;
      forall i :: 0 <= i < |segs| ==> segs[i].width == StrokeWidth && segs[i].color in colors
    decreases |s|
  {
    if s != [] {
      var init := s[..|s| - 1];
      SegmentsUseTable(colors, b, init);
      ColorCycle(colors, b, init);
    }
  }

  /** When every stitch lies inside the bounding box, every line lies inside the
      rectangle from (0, 0) to (width, height), both edges included. */
  lemma {:induction false} SegmentsInsideCanvas(colors: seq<Rgb>, b: Bounds, s: seq<StitchCmd>)
    requires |colors| > 0
    requires InsideBounds(b, s)
    ensures var w := Walk(colors, b, s);
      var width, height := b.maxX - b.minX, b.maxY - b.minY;
      (w.last.Some? ==> 0 <= w.last.value.x <= width && 0 <= w.last.value.y <= height) &&
      forall i :: 0 <= i < |w.segments| ==>
        0 <= w.segments[i].x0 <= width && 0 <= w.segments[i].y0 <= height &&
        0 <= w.segments[i].x1 <= width && 0 <= w.segments[i].y1 <= height
    decreases |s|
  {
    if s != [] {
      var init := s[..|s| - 1];
      assert InsideBounds(b, init) by {
        forall i | 0 <= i < |init| ensures init[i] == s[i] { }
      }
      SegmentsInsideCanvas(colors, b, init);
    }
  }

  /** Command `i` is the last command of `s` that is not a colour change. */
  predicate DecidesPen(s: seq<StitchCmd>, i: int)
  {
    0 <= i < |s| && s[i].command != ColorChange &&
    forall j :: i < j < |s| ==> s[j].command == ColorChange
  }

  /** The pen position after a walk, stated over the list without walk state:
      if only colour changes were seen the pen is up; otherwise the last command
      that is not a colour change decides: a jump leaves the pen up, anything
      else leaves it at that command's translated position. */
  lemma {:induction false} LastPointCharacterised(colors: seq<Rgb>, b: Bounds, s: seq<StitchCmd>)
    requires |colors| > 0
    ensures (forall i :: 0 <= i < |s| ==> s[i].command == ColorChange) ==> Walk(colors, b, s).last == None
    ensures forall i :: DecidesPen(s, i) ==>
      Walk(colors, b, s).last == (if s[i].command == Jump then None else Some(Translate(b, s[i])))
    decreases |s|
  {
    if s != [] {
      var init, c := s[..|s| - 1], s[|s| - 1];
      assert s == init + [c];
      LastPointCharacterised(colors, b, init);
      WalkAppend(colors, b, init, c);
      if c.command == ColorChange {
        assert Walk(colors, b, s).last == Walk(colors, b, init).last;
        forall i | DecidesPen(s, i) ensures DecidesPen(init, i) {
          assert i < |init| && init[i] == s[i];
          forall j | i < j < |init| ensures init[j].command == ColorChange {
            assert init[j] == s[j];
          }
        }
        forall i | 0 <= i < |init| && s[i].command == ColorChange
          ensures init[i].command == ColorChange
        {
          assert init[i] == s[i];
        }
      } else {
        assert Walk(colors, b, s).last == (if c.command == Jump then None else Some(Translate(b, c)));
        forall i | DecidesPen(s, i) ensures i == |s| - 1 {
          assert i < |s| - 1 ==> c.command == ColorChange;
        }
      }
    }
  }

  // ---------------------------------------------------------------------------
  // The lines described without the walk

  /** The pen position after `s`, on its own: colour changes leave it, jumps lift
      it, everything else sets it. */
  function Pen(b: Bounds, s: seq<StitchCmd>): Option<Point>
    decreases |s|
  {
    if s == [] then None
    else if s[|s| - 1].command == ColorChange then Pen(b, s[..|s| - 1])
    else if s[|s| - 1].command == Jump then None
    else Some(Translate(b, s[|s| - 1]))
  }

  /** The lines drawn for `s`, described without walk state: the command at index
      `i` adds a line exactly when it is a stitch and `Pen(b, s[..i])` is down; the
      line starts at that pen position and is drawn in colour slot
      `Count(s[..i], ColorChange) mod |colors|`. */
  function Drawn(colors: seq<Rgb>, b: Bounds, s: seq<StitchCmd>): seq<Segment>
    requires |colors| > 0
    decreases |s|
  {
    if s == [] then []
    else
      var init, c := s[..|s| - 1], s[|s| - 1];
      var pen := Pen(b, init);
      Drawn(colors, b, init) +
        if c.command == Stitch && pen.Some? then
          [Segment(pen.value.x, pen.value.y, c.x - b.minX, c.y - b.minY,
                   colors[Count(init, ColorChange) % |colors|], StrokeWidth)]
        else []
  }

  /** The walk draws exactly the lines `Drawn` describes, and its pen is `Pen`. */
  lemma {:induction false} WalkMatchesDrawn(colors: seq<Rgb>, b: Bounds, s: seq<StitchCmd>)
    requires |colors| > 0
    ensures Walk(colors, b, s).segments == Drawn(colors, b, s)
    ensures Walk(colors, b, s).last == Pen(b, s)
    decreases |s|
  {
    if s != [] {
      var init := s[..|s| - 1];
      WalkMatchesDrawn(colors, b, init);
      ColorCycle(colors, b, init);
    }
  }

  // ---------------------------------------------------------------------------
  // Worked cases

  /** Stitch, stitch, jump, stitch with one red thread: one red line from (0, 0)
      to (10, 0); the stitch after the jump starts a new line and draws nothing. */
  lemma JumpExample()
    ensures var red := Rgb(255, 0, 0);
      Walk(ColorTable([red]), Bounds(0, 0, 10, 10),
           [StitchCmd(0, 0, Stitch), StitchCmd(10, 0, Stitch), StitchCmd(10, 0, Jump), StitchCmd(10, 10, Stitch)]).segments
      == [Segment(0, 0, 10, 0, red, StrokeWidth)]
  {
    var colors, b := [Rgb(255, 0, 0)], Bounds(0, 0, 10, 10);
    var a, c, j, d := StitchCmd(0, 0, Stitch), StitchCmd(10, 0, Stitch), StitchCmd(10, 0, Jump), StitchCmd(10, 10, Stitch);
    WalkAppend(colors, b, [], a);
    WalkAppend(colors, b, [a], c);
    NothingDrawnAfterJump(colors, b, [a, c], j, d);
    assert [a] == [] + [a];
    assert [a, c] == [a] + [c];
    assert [a, c, j, d] == [a, c] + [j, d];
  }

  /** A trim does not lift the pen: the next stitch connects to the trim's point. */
  lemma TrimExample()
    ensures Walk(FallbackPalette, Bounds(0, 0, 10, 10),
                 [StitchCmd(0, 0, Stitch), StitchCmd(5, 0, Trim), StitchCmd(10, 0, Stitch)]).segments
      == [Segment(5, 0, 10, 0, Rgb(0, 0, 0), StrokeWidth)]
  {
    var colors, b := FallbackPalette, Bounds(0, 0, 10, 10);
    var a, t, c := StitchCmd(0, 0, Stitch), StitchCmd(5, 0, Trim), StitchCmd(10, 0, Stitch);
    WalkAppend(colors, b, [], a);
    WalkAppend(colors, b, [a], t);
    WalkAppend(colors, b, [a, t], c);
    assert [a] == [] + [a];
    assert [a, t] == [a] + [t];
    assert [a, t, c] == [a, t] + [c];
  }

  /** An end command does not stop the walk: a stitch after it is still drawn,
      connected to the end command's point. */
  lemma EndExample()
    ensures Walk(FallbackPalette, Bounds(0, 0, 10, 10),
                 [StitchCmd(0, 0, End), StitchCmd(10, 10, Stitch)]).segments
      == [Segment(0, 0, 10, 10, Rgb(0, 0, 0), StrokeWidth)]
  {
    var colors, b := FallbackPalette, Bounds(0, 0, 10, 10);
    var e, c := StitchCmd(0, 0, End), StitchCmd(10, 10, Stitch);
    WalkAppend(colors, b, [], e);
    WalkAppend(colors, b, [e], c);
    assert [e] == [] + [e];
    assert [e, c] == [e] + [c];
  }
}
