/**
 * The custom cursor component: the state its per-frame draw callback and
 * its pointer event handlers share, as a class whose fields are updated in
 * place. The browser is reduced to parameters: the viewport size a frame
 * reads, and whether the canvas, the needle element and the canvas's 2D
 * context are present.
 */
module Cursor {
  import opened Trail

  datatype Option<T> = None | Some(value: T)

  /** Where the pointer and its previous sample start: off screen. */
  const Offscreen: Point := Point(-100, -100)

  /** Size of a canvas element whose width and height were never assigned (HTML default). */
  const DefaultCanvasWidth: nat := 300
  const DefaultCanvasHeight: nat := 150

  /** The needle's CSS opacity for a visibility flag: fully opaque or fully transparent. */
  function Opacity(visible: bool): (o: nat)
    ensures o <= 1
    ensures o == 1 <==> visible
  {
    if visible then 1 else 0
  }

  class CustomCursor {
    /** Last pointer position reported by a move event. */
    var mousePos: Point
    /** Pointer position sampled by the last completed frame. */
    var prevPos: Point
    /** Recorded samples, oldest first. */
    var trail: seq<TrailPoint>
    /** Whether the pointer is over the document. */
    var visible: bool
    /** The canvas's pixel size. */
    var canvasWidth: nat
    var canvasHeight: nat
    /** The needle's left/top style, unset until the first completed frame. */
    var needlePos: Option<Point>
    /** The needle's opacity style. */
    var needleOpacity: nat

    /** The trail invariant, kept by every operation. */
    ghost predicate Valid()
      reads this
    {
      WellFormed(trail)
    }

    /** Mount: pointer and previous sample off screen, empty trail, hidden, needle transparent. */
    constructor ()
      ensures Valid()
      ensures mousePos == Offscreen && prevPos == Offscreen
      ensures trail == [] && !visible
      ensures canvasWidth == DefaultCanvasWidth && canvasHeight == DefaultCanvasHeight
      ensures needlePos == None && needleOpacity == 0
    {
      mousePos := Offscreen;
      prevPos := Offscreen;
      trail := [];
      visible := false;
      canvasWidth := DefaultCanvasWidth;
      canvasHeight := DefaultCanvasHeight;
      needlePos := None;
      needleOpacity := 0;
    }

    /**
     * One run of the draw callback. When the canvas, the needle or the 2D
     * context is missing it returns at once, changes nothing and does not
     * schedule the next frame. Otherwise it fits the canvas to the viewport
     * (assigning only when the size differs), samples the pointer, appends a
     * point when the pointer is visible and moved more than MinDistance,
     * ages and culls the trail, moves the needle to the sample with opacity
     * following the visibility flag, remembers the sample and reschedules.
     */
    method Frame(viewportWidth: nat, viewportHeight: nat, hasCanvas: bool, hasNeedle: bool, hasContext: bool)
      returns (rescheduled: bool, resized: bool)
      requires Valid()
      modifies this
      ensures Valid()
      ensures rescheduled <==> hasCanvas && hasNeedle && hasContext
      ensures !rescheduled ==> !resized && unchanged(this)
      ensures rescheduled ==>
        && resized == (old(canvasWidth) != viewportWidth || old(canvasHeight) != viewportHeight)
        && canvasWidth == viewportWidth && canvasHeight == viewportHeight
        && trail == StepTrail(old(trail), old(mousePos), old(prevPos), old(visible))
        && prevPos == old(mousePos)
        && needlePos == Some(old(mousePos))
        && needleOpacity == Opacity(old(visible))
        && mousePos == old(mousePos) && visible == old(visible)
    {
      rescheduled, resized := false, false;
      if !hasCanvas || !hasNeedle {
        return;
      }
      if !hasContext {
        return;
      }

      if canvasWidth != viewportWidth || canvasHeight != viewportHeight {
        canvasWidth := viewportWidth;
        canvasHeight := viewportHeight;
        resized := true;
      }

      var cur := mousePos;
      ghost var before := trail;
      if Moved(cur, prevPos) && visible {
        trail := trail + [TrailPoint(cur.x, cur.y, 0)];
      }
      assert trail == before + Appended(cur, prevPos, visible);
      trail := AgeAndCull(trail);
      assert trail == StepTrail(before, cur, prevPos, visible);
      StepPreservesWellFormed(before, cur, prevPos, visible);

      needlePos := Some(cur);
      needleOpacity := Opacity(visible);

      prevPos := cur;
      rescheduled := true;
    }

    /** The mousemove handler: record the pointer position and show the cursor. */
    method Move(x: int, y: int)
      requires Valid()
      modifies this
      ensures Valid()
      ensures mousePos == Point(x, y) && visible
      ensures prevPos == old(prevPos) && trail == old(trail)
      ensures canvasWidth == old(canvasWidth) && canvasHeight == old(canvasHeight)
      ensures needlePos == old(needlePos) && needleOpacity == old(needleOpacity)
    {
      mousePos := Point(x, y);
      if !visible {
        visible := true;
      }
    }

    /** The mouseleave handler: hide the cursor, keeping the last position. */
    method Leave()
      requires Valid()
      modifies this
      ensures Valid()
      ensures !visible
      ensures mousePos == old(mousePos) && prevPos == old(prevPos) && trail == old(trail)
      ensures canvasWidth == old(canvasWidth) && canvasHeight == old(canvasHeight)
      ensures needlePos == old(needlePos) && needleOpacity == old(needleOpacity)
    {
      visible := false;
    }

    /** The mouseenter handler: show the cursor, keeping the last position. */
    method Enter()
      requires Valid()
      modifies this
      ensures Valid()
      ensures visible
      ensures mousePos == old(mousePos) && prevPos == old(prevPos) && trail == old(trail)
      ensures canvasWidth == old(canvasWidth) && canvasHeight == old(canvasHeight)
      ensures needlePos == old(needlePos) && needleOpacity == old(needleOpacity)
    {
      visible := true;
    }
  }

  /**
   * A client of the class: after mounting, the first frame records nothing
   * (the pointer still sits on its previous sample); a move from (100, 100)
   * to (103, 100), farther than MinDistance, records exactly one point at
   * (103, 100), which leaves its frame with age 1; after leaving, frames
   * record nothing and the needle turns transparent.
   */
  method Scenario()
  {
    var c := new CustomCursor();
    var again, resized := c.Frame(800, 600, true, true, true);
    StepTrailSplits([], Offscreen, Offscreen, false);
    assert c.trail == [] && c.prevPos == Offscreen;
    assert again && resized && c.canvasWidth == 800;

    c.Move(100, 100);
    again, resized := c.Frame(800, 600, true, true, true);
    StepTrailSplits([], Point(100, 100), Offscreen, true);
    assert c.trail == [TrailPoint(100, 100, 1)];
    assert !resized && c.needleOpacity == 1;

    c.Move(103, 100);
    again, resized := c.Frame(800, 600, true, true, true);
    StepTrailSplits([TrailPoint(100, 100, 1)], Point(103, 100), Point(100, 100), true);
    assert Moved(Point(103, 100), Point(100, 100));
    assert c.trail == [TrailPoint(100, 100, 2), TrailPoint(103, 100, 1)];

    c.Leave();
    c.Move(200, 200);
    c.Leave();
    var before := c.trail;
    again, resized := c.Frame(800, 600, true, true, true);
    StepTrailSplits(before, Point(200, 200), Point(103, 100), false);
    assert c.trail == AgeAndCull(before);
    assert c.needleOpacity == 0 && c.prevPos == Point(200, 200);

    again, resized := c.Frame(1024, 768, false, true, true);
    assert !again && c.canvasWidth == 800 && c.prevPos == Point(200, 200);
  }
}
