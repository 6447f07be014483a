/**
 The state of one magic-wand selection window and the two callbacks that
 change it: the tolerance slider and the mouse.

 The window's image is never modified (the flood fill runs in mask-only mode)
 and the scratch buffer is zeroed before every fill, so the outcome of a fill
 is a function of the seed point and the tolerance alone. That function is the
 one foreign collaborator, `FloodFill`, passed in as a parameter.
 */
module Session {
  import opened Grids
  import opened Modifiers
  import opened Combination

  /** Per-channel flood-fill tolerance, used as both lower and upper difference. */
  type Tolerance = (int, int, int)

  /**
   What `cv2.floodFill` does to the zeroed scratch buffer: it marks a region
   and returns, or it raises (a seed outside the image, a negative difference)
   before the callback reaches its merge.
   */
  datatype FillOutcome = Marked(buffer: Grid) | Raised

  /** `cv2.floodFill` on the window's image, seeded at (x, y) with a tolerance. */
  type FloodFill = (int, int, Tolerance) -> FillOutcome

  /** The tolerance the constructor uses when the caller gives none. */
  const DEFAULT_TOLERANCE: int := 32

  /**
   A selection window over an image of `height` rows and `width` columns: the
   accumulated selection mask and the current tolerance.
   */
  datatype Window = Window(height: nat, width: nat, mask: Grid, tolerance: Tolerance)

  /** All three channels share one tolerance. */
  predicate Uniform(t: Tolerance) {
    t.0 == t.1 == t.2
  }

  /** The mask has the image's shape. */
  predicate Shaped(s: Window) {
    IsGrid(s.mask, s.height, s.width)
  }

  /** What every window reachable from `Open` satisfies. */
  predicate Valid(s: Window) {
    Shaped(s) && Binary(s.mask) && Uniform(s.tolerance)
  }

  /** A fill that returns always hands back the (h+2) x (w+2) buffer. */
  ghost predicate FillFits(fill: FloodFill, h: nat, w: nat) {
    forall x: int, y: int, t: Tolerance ::
      fill(x, y, t).Marked? ==> IsGrid(fill(x, y, t).buffer, h + 2, w + 2)
  }

  /**
   Inside the frame a returned buffer holds only 0 (the value it was zeroed
   to) and 255 (the fill value the flags request).
   */
  ghost predicate FillMarks(fill: FloodFill) {
    forall x: int, y: int, t: Tolerance ::
      fill(x, y, t).Marked? ==> BinaryInterior(fill(x, y, t).buffer)
  }

  /** The fill seeded at (x, y) with the window's tolerance returns. */
  ghost predicate Fills(s: Window, x: int, y: int, fill: FloodFill) {
    fill(x, y, s.tolerance).Marked?
  }

  /** The new region of a click at (x, y): the filled buffer without its frame. */
  function Region(s: Window, x: int, y: int, fill: FloodFill): (region: Grid)
    requires FillFits(fill, s.height, s.width) && Fills(s, x, y, fill)
    ensures IsGrid(region, s.height, s.width)
    ensures forall i, j :: 0 <= i < s.height && 0 <= j < s.width ==>
      region[i][j] == fill(x, y, s.tolerance).buffer[i + 1][j + 1]
  {
    var scratch := fill(x, y, s.tolerance).buffer;
    InteriorOfPadded(scratch, s.height, s.width);
    Interior(scratch)
  }

  /** A new window: nothing selected, every channel at the given tolerance. */
  function Open(height: nat, width: nat, tolerance: int := DEFAULT_TOLERANCE): (s: Window)
    ensures Valid(s)
    ensures s.height == height && s.width == width
    ensures Selected(s.mask) == {}
    ensures s.tolerance.0 == tolerance && s.tolerance.1 == tolerance && s.tolerance.2 == tolerance
  {
    Window(height, width, Zeros(height, width), (tolerance, tolerance, tolerance))
  }

  /** Without a tolerance argument a window starts at 32 on every channel. */
  lemma OpenDefault(height: nat, width: nat)
    ensures Open(height, width).tolerance == (32, 32, 32)
    ensures Open(height, width) == Open(height, width, 32)
  {
  }

  /** The slider moved to `pos`: every channel takes it, the mask stays. */
  function OnTrackbar(s: Window, pos: int): (r: Window)
    ensures r.height == s.height && r.width == s.width && r.mask == s.mask
    ensures r.tolerance.0 == pos && r.tolerance.1 == pos && r.tolerance.2 == pos
    ensures Valid(s) ==> Valid(r)
  {
    s.(tolerance := (pos, pos, pos))
  }

  /**
   A mouse event. Anything but a left-button press leaves the window as it
   was; a press fills from (x, y) and merges the region into the mask by the
   rule the SHIFT and ALT flags select. A fill that raises leaves the window
   as it was too. The tolerance never changes here.
   */
  function OnMouse(s: Window, event: int, x: int, y: int, flags: bv32, fill: FloodFill): (r: Window)
    requires Shaped(s) && FillFits(fill, s.height, s.width)
    ensures Shaped(r) && r.height == s.height && r.width == s.width
    ensures r.tolerance == s.tolerance
    ensures event != EVENT_LBUTTONDOWN ==> r == s
    ensures !Fills(s, x, y, fill) ==> r == s
    ensures Valid(s) && FillMarks(fill) ==> Valid(r)
  {
    if event != EVENT_LBUTTONDOWN then s
    else
      var modifier := ModifierOf(flags);
      match fill(x, y, s.tolerance)
      case Raised => s
      case Marked(scratch) =>
        var region := Region(s, x, y, fill);
        assert FillMarks(fill) ==> BinaryInterior(scratch);
        s.(mask := Combine(modifier, s.mask, region))
  }

  /**
   A left-button press whose fill returns changes the selected cells exactly
   as the modifier's set operation says, applied to the old selection and the
   new region.
   */
  lemma ClickSelects(s: Window, x: int, y: int, flags: bv32, fill: FloodFill)
    requires Shaped(s) && FillFits(fill, s.height, s.width) && FillMarks(fill)
    requires Fills(s, x, y, fill)
    ensures Selected(OnMouse(s, EVENT_LBUTTONDOWN, x, y, flags, fill).mask)
         == SetRule(ModifierOf(flags), Selected(s.mask), Selected(Region(s, x, y, fill)))
  {
    assert BinaryInterior(fill(x, y, s.tolerance).buffer);
    CombineSelects(ModifierOf(flags), s.mask, Region(s, x, y, fill));
  }

  /**
   On an image-shaped 0/255 mask the mask after a press is the one 0/255 mask
   of the image's shape that selects the set `ClickSelects` names: the set
   statement pins the bytes down.
   */
  lemma ClickMaskUnique(s: Window, x: int, y: int, flags: bv32, fill: FloodFill, g: Grid)
    requires Shaped(s) && Binary(s.mask) && FillFits(fill, s.height, s.width) && FillMarks(fill)
    requires Fills(s, x, y, fill)
    requires IsGrid(g, s.height, s.width) && Binary(g)
    requires Selected(g) == SetRule(ModifierOf(flags), Selected(s.mask), Selected(Region(s, x, y, fill)))
    ensures OnMouse(s, EVENT_LBUTTONDOWN, x, y, flags, fill).mask == g
  {
    var r := OnMouse(s, EVENT_LBUTTONDOWN, x, y, flags, fill);
    ClickSelects(s, x, y, flags, fill);
    SelectedDetermines(r.mask, g);
  }

  /** Flag bits other than SHIFT and ALT never change what a click does. */
  lemma OtherFlagsIgnored(s: Window, event: int, x: int, y: int, flags: bv32, other: bv32, fill: FloodFill)
    requires Shaped(s) && FillFits(fill, s.height, s.width)
    requires other & (SHIFT_KEY | ALT_KEY) == 0
    ensures OnMouse(s, event, x, y, flags | other, fill) == OnMouse(s, event, x, y, flags, fill)
    ensures OnMouse(s, event, x, y, flags & !other, fill) == OnMouse(s, event, x, y, flags, fill)
  {
    ModifierIgnoresOtherBits(flags, other);
    SameRuleSameClick(s, event, x, y, flags | other, flags, fill);
    SameRuleSameClick(s, event, x, y, flags & !other, flags, fill);
  }

  /** A click depends on its flags only through the rule they select. */
  lemma SameRuleSameClick(s: Window, event: int, x: int, y: int, f: bv32, g: bv32, fill: FloodFill)
    requires Shaped(s) && FillFits(fill, s.height, s.width)
    requires ModifierOf(f) == ModifierOf(g)
    ensures OnMouse(s, event, x, y, f, fill) == OnMouse(s, event, x, y, g, fill)
  {
  }

  /**
   A plain click makes the mask the new region whatever was selected before,
   so repeating the same click leaves the window unchanged (as it does when
   the fill raises).
   */
  lemma PlainClickTwice(s: Window, x: int, y: int, flags: bv32, fill: FloodFill)
    requires Shaped(s) && FillFits(fill, s.height, s.width)
    requires ModifierOf(flags) == Replace
    ensures Fills(s, x, y, fill) ==>
      OnMouse(s, EVENT_LBUTTONDOWN, x, y, flags, fill).mask == Region(s, x, y, fill)
    ensures var once := OnMouse(s, EVENT_LBUTTONDOWN, x, y, flags, fill);
      OnMouse(once, EVENT_LBUTTONDOWN, x, y, flags, fill) == once
  {
    var once := OnMouse(s, EVENT_LBUTTONDOWN, x, y, flags, fill);
    if Fills(s, x, y, fill) {
      assert Region(once, x, y, fill) == Region(s, x, y, fill);
    }
  }

  /** Two SHIFT clicks give the same window in either order. */
  lemma ShiftClicksCommute(s: Window, x1: int, y1: int, f1: bv32,
                                              x2: int, y2: int, f2: bv32, fill: FloodFill)
    requires Shaped(s) && FillFits(fill, s.height, s.width)
    requires ModifierOf(f1) == Union && ModifierOf(f2) == Union
    ensures OnMouse(OnMouse(s, EVENT_LBUTTONDOWN, x1, y1, f1, fill), EVENT_LBUTTONDOWN, x2, y2, f2, fill)
         == OnMouse(OnMouse(s, EVENT_LBUTTONDOWN, x2, y2, f2, fill), EVENT_LBUTTONDOWN, x1, y1, f1, fill)
  {
    if Fills(s, x1, y1, fill) && Fills(s, x2, y2, fill) {
      var a := Region(s, x1, y1, fill);
      var b := Region(s, x2, y2, fill);
      var s1 := OnMouse(s, EVENT_LBUTTONDOWN, x1, y1, f1, fill);
      var s2 := OnMouse(s, EVENT_LBUTTONDOWN, x2, y2, f2, fill);
      assert Region(s1, x2, y2, fill) == b;
      assert Region(s2, x1, y1, fill) == a;
      UnionCommutes(s.mask, a, b);
    }
  }

  /**
   A plain click followed by an ALT click at the same point selects nothing,
   unless the fill there raises and both clicks leave the window alone.
   */
  lemma AltClickUndoesPlainClick(s: Window, x: int, y: int, f1: bv32, f2: bv32, fill: FloodFill)
    requires Shaped(s) && FillFits(fill, s.height, s.width)
    requires ModifierOf(f1) == Replace && ModifierOf(f2) == Subtract
    ensures Fills(s, x, y, fill) ==>
      OnMouse(OnMouse(s, EVENT_LBUTTONDOWN, x, y, f1, fill), EVENT_LBUTTONDOWN, x, y, f2, fill).mask
        == Zeros(s.height, s.width)
    ensures !Fills(s, x, y, fill) ==>
      OnMouse(OnMouse(s, EVENT_LBUTTONDOWN, x, y, f1, fill), EVENT_LBUTTONDOWN, x, y, f2, fill) == s
  {
    if Fills(s, x, y, fill) {
      var a := Region(s, x, y, fill);
      var s1 := OnMouse(s, EVENT_LBUTTONDOWN, x, y, f1, fill);
      assert Region(s1, x, y, fill) == a;
      SubtractSelfIsEmpty(a, s.height, s.width);
    }
  }

  /**
   A plain click, then a SHIFT+ALT click whose region shares no cell with the
   first, selects nothing.
   */
  lemma DisjointIntersectClears(s: Window, x1: int, y1: int, f1: bv32,
                                                   x2: int, y2: int, f2: bv32, fill: FloodFill)
    requires Shaped(s) && FillFits(fill, s.height, s.width)
    requires ModifierOf(f1) == Replace && ModifierOf(f2) == Intersect
    requires Fills(s, x1, y1, fill) && Fills(s, x2, y2, fill)
    requires Selected(Region(s, x1, y1, fill)) !! Selected(Region(s, x2, y2, fill))
    ensures OnMouse(OnMouse(s, EVENT_LBUTTONDOWN, x1, y1, f1, fill), EVENT_LBUTTONDOWN, x2, y2, f2, fill).mask
         == Zeros(s.height, s.width)
  {
    var a := Region(s, x1, y1, fill);
    var b := Region(s, x2, y2, fill);
    var s1 := OnMouse(s, EVENT_LBUTTONDOWN, x1, y1, f1, fill);
    assert Region(s1, x2, y2, fill) == b;
    IntersectDisjointIsEmpty(a, b, s.height, s.width);
  }

  /** One input the window's callbacks receive. */
  datatype Event =
    | Mouse(kind: int, x: int, y: int, flags: bv32)
    | Trackbar(pos: int)

  /** Route an event to the callback registered for it. */
  function Dispatch(s: Window, e: Event, fill: FloodFill): (r: Window)
    requires Shaped(s) && FillFits(fill, s.height, s.width)
    ensures Shaped(r) && r.height == s.height && r.width == s.width
    ensures Valid(s) && FillMarks(fill) ==> Valid(r)
  {
    match e
    case Mouse(kind, x, y, flags) => OnMouse(s, kind, x, y, flags, fill)
    case Trackbar(pos) => OnTrackbar(s, pos)
  }

  /** The window after handling `events` in order, one at a time. */
  function Run(s: Window, events: seq<Event>, fill: FloodFill): (r: Window)
    requires Shaped(s) && FillFits(fill, s.height, s.width)
    ensures Shaped(r) && r.height == s.height && r.width == s.width
    decreases |events|
  {
    if |events| == 0 then s
    else Run(Dispatch(s, events[0], fill), events[1..], fill)
  }

  /** Every window reached from a valid one by any events is valid. */
  lemma {:induction false} RunKeepsValid(s: Window, events: seq<Event>, fill: FloodFill)
    requires Valid(s) && FillFits(fill, s.height, s.width) && FillMarks(fill)
    ensures Valid(Run(s, events, fill))
    decreases |events|
  {
    if |events| > 0 {
      RunKeepsValid(Dispatch(s, events[0], fill), events[1..], fill);
    }
  }

  /** The event is a press of the left button. */
  predicate IsClick(e: Event) {
    e.Mouse? && e.kind == EVENT_LBUTTONDOWN
  }

  /** Without a left-button press the mask does not change, whatever else happens. */
  lemma {:induction false} NoClickKeepsMask(s: Window, events: seq<Event>, fill: FloodFill)
    requires Shaped(s) && FillFits(fill, s.height, s.width)
    requires forall k :: 0 <= k < |events| ==> !IsClick(events[k])
    ensures Run(s, events, fill).mask == s.mask
    decreases |events|
  {
    if |events| > 0 {
      assert !IsClick(events[0]);
      NoClickKeepsMask(Dispatch(s, events[0], fill), events[1..], fill);
    }
  }

  /** `events[k]` is the last slider move among `events`. */
  predicate LastTrackbar(events: seq<Event>, k: int) {
    0 <= k < |events| && events[k].Trackbar? &&
    forall k' :: k < k' < |events| ==> !events[k'].Trackbar?
  }

  /**
   The tolerance after a run of events is that of the last slider move, on all
   three channels; with no slider move it is the tolerance the run started with.
   */
  lemma {:induction false} RunTolerance(s: Window, events: seq<Event>, fill: FloodFill)
    requires Shaped(s) && FillFits(fill, s.height, s.width)
    ensures (forall k :: 0 <= k < |events| ==> !events[k].Trackbar?) ==>
      Run(s, events, fill).tolerance == s.tolerance
    ensures forall k :: LastTrackbar(events, k) ==>
      Run(s, events, fill).tolerance == (events[k].pos, events[k].pos, events[k].pos)
    decreases |events|
  {
    if |events| > 0 {
      var s' := Dispatch(s, events[0], fill);
      var rest := events[1..];
      RunTolerance(s', rest, fill);
      forall k | LastTrackbar(events, k)
        ensures Run(s, events, fill).tolerance == (events[k].pos, events[k].pos, events[k].pos)
      {
        if k > 0 {
          assert LastTrackbar(rest, k - 1);
        } else {
          assert forall k' :: 0 <= k' < |rest| ==> !rest[k'].Trackbar?;
        }
      }
    }
  }
}
