# Magic-wand selection window, modelled in Dafny

The `magicwand` package opens an OpenCV window over an image. Each left click
flood-fills from the clicked pixel, within a per-channel colour tolerance set
by a slider. The filled region is then merged into an accumulated selection
mask. The held keys choose how it is merged:

- no modifier replaces the selection;
- SHIFT adds the region (union);
- ALT removes it (subtraction);
- SHIFT+ALT keeps only the overlap (intersection).

This project models the window's state and its two callbacks as pure
functions over immutable values. It proves the set algebra the merge rules
implement, and the behaviour of click sequences.

Files and modules:

- `grids.dfy`, module `Grids`: 8-bit single-channel arrays (`seq<seq<bv8>>`,
  indexed `g[row][column]`). Holds the element-wise `cv2.bitwise_and`,
  `cv2.bitwise_or` and `cv2.bitwise_not`, numpy's `[1:-1, 1:-1]` slice, and
  `Selected`, the set of non-zero cells of a mask.
- `modifiers.dfy`, module `Modifiers`: the OpenCV flag constants, the
  decoding of mouse flags into a `Modifier`, and the flood-fill flag word.
- `combine.dfy`, module `Combination`: the four merge rules (`Combine`), the
  same rules on sets (`SetRule`), and lemmas relating the two.
- `session.dfy`, module `Session`: the window record (`Window`), opening a
  window, the slider and mouse callbacks, event dispatch, and lemmas about
  click sequences and event runs.

The flood fill (`cv2.floodFill`) is the one foreign collaborator. The
window's image is never modified, because the fill runs in mask-only mode.
The scratch buffer is zeroed before every fill. So the outcome of a fill
depends only on the seed point and the tolerance. It is modelled as a
function parameter `FloodFill = (x, y, tolerance) -> FillOutcome`. The
outcome is either `Marked(buffer)` or `Raised`. `Raised` stands for the
OpenCV call raising an exception, for example for a seed outside the image
or a negative tolerance. The exception leaves the callback before the merge,
so the window keeps its mask. Two facts about a returned buffer are stated as
predicates:

- `FillFits`: the buffer is (h+2) x (w+2), as allocated in the constructor.
- `FillMarks`: inside the one-cell frame it holds only 0 (from the zeroing)
  and 255 (the fill value the flags request).

Nothing is required of the frame cells, which the slice discards. The model
needs `FillMarks` only for the statements about 0/255 masks.

Flags reach the mouse callback from OpenCV as a C `int`. They are modelled
as a `bv32`, on which Python's `&` acts bit by bit. The constants are
OpenCV's: `EVENT_LBUTTONDOWN = 1`, `EVENT_FLAG_SHIFTKEY = 16`,
`EVENT_FLAG_ALTKEY = 32`, `FLOODFILL_FIXED_RANGE = 1 << 16` and
`FLOODFILL_MASK_ONLY = 1 << 17`.

## Model

| member | source | states |
|---|---|---|
| Modifiers.ModifierOf | magicwand/__init__.py:43-64 | The rule is intersect exactly when both SHIFT and ALT bits are set, union exactly when only SHIFT is, subtract exactly when only ALT is, and replace exactly when neither is. |
| Modifiers.ModifierIgnoresOtherBits | magicwand/__init__.py:43 | Setting, clearing or toggling any flag bits outside SHIFT and ALT (CTRL, button bits) never changes the rule chosen. |
| Modifiers.FloodFillFlags | magicwand/__init__.py:25-27 | For a connectivity below 256, the flag word carries the connectivity in its low byte and the fill value 255 in bits 8-15. It sets the fixed-range and mask-only bits and nothing above bit 17. |
| Grids.Zeros | magicwand/__init__.py:23-24 | `np.zeros((h, w))` is an h x w grid whose every cell is 0, so it is 0/255 and selects nothing; the same grid of shape (h+2, w+2) is the scratch buffer zeroed at line 45. |
| Grids.BitwiseAnd | magicwand/__init__.py:58 | `cv2.bitwise_and` of two equally shaped arrays has their shape, and each cell is the AND of the two operands' bytes at that cell (also used at line 62). |
| Grids.BitwiseOr | magicwand/__init__.py:60 | `cv2.bitwise_or` of two equally shaped arrays has their shape, and each cell is the OR of the two operands' bytes at that cell. |
| Grids.BitwiseNot | magicwand/__init__.py:62 | `cv2.bitwise_not` keeps the shape, and each cell is the complement of the operand's byte. |
| Grids.Inner | magicwand/__init__.py:55 | numpy's `s[1:-1]` has length len(s)-2 (0 when len(s) < 2), and its element k is s[k+1]. |
| Grids.Interior | magicwand/__init__.py:55 | `buf[1:-1, 1:-1]` keeps the rows of `buf[1:-1]`, and row i is `buf[i+1][1:-1]`. |
| Grids.InteriorOfPadded | magicwand/__init__.py:55 | Slicing `[1:-1, 1:-1]` of an (h+2) x (w+2) buffer yields an h x w grid whose cell (i, j) is buffer cell (i+1, j+1). |
| Grids.InteriorIgnoresFrame | magicwand/__init__.py:55 | Buffers that agree inside the one-cell frame have the same slice: whatever the fill leaves in the frame is discarded. |
| Grids.InteriorOfFramed | magicwand/__init__.py:55 | Round trip: a grid placed inside a frame of any value is sliced back out unchanged. |
| Grids.FramedOfInterior | magicwand/__init__.py:55 | Round trip the other way: re-framing a buffer's slice with its own uniform frame rebuilds the buffer. |
| Grids.InteriorOfZeros | magicwand/__init__.py:45-55 | The slice of the zeroed scratch buffer is the all-zero h x w mask: a fill that marks nothing selects nothing. |
| Combination.Combine | magicwand/__init__.py:57-64 | Every merge rule keeps the mask's shape. If the old mask and the region hold only 0/255, so does the result. |
| Combination.CombineSelects | magicwand/__init__.py:57-64 | On a 0/255 region, the selected cells become mask ∩ region (SHIFT+ALT), mask ∪ region (SHIFT), mask \ region (ALT), or the region (no modifier). |
| Combination.ReplaceIgnoresMask | magicwand/__init__.py:63-64 | With no modifier the result is the region, whatever the old mask was. |
| Combination.UnionContainsBoth | magicwand/__init__.py:59-60 | The union selects every cell of the old mask and every cell of the region, for any bytes. |
| Combination.IntersectWithinBoth | magicwand/__init__.py:57-58 | The intersection selects only cells both operands select, for any bytes. |
| Combination.SubtractWithinMask | magicwand/__init__.py:61-62 | Subtracting a 0/255 region keeps a subset of the old mask that shares no cell with the region. |
| Combination.UnionCommutes | magicwand/__init__.py:59-60 | Unioning a then b gives the same mask as unioning b then a, starting from any mask. |
| Combination.SubtractSelfIsEmpty | magicwand/__init__.py:61-64 | A mask minus itself is the all-zero mask. |
| Combination.IntersectDisjointIsEmpty | magicwand/__init__.py:57-58 | Intersecting two masks that select no common cell gives the all-zero mask. |
| Session.Region | magicwand/__init__.py:45-55 | A click's region is h x w. Its cell (i, j) is cell (i+1, j+1) of the buffer the fill returns for that seed and the current tolerance. |
| Session.Open | magicwand/__init__.py:19-29 | A new window has the image's shape, selects nothing, holds only 0/255, and has the given tolerance on all three channels. |
| Session.OpenDefault | magicwand/__init__.py:19-29 | Without a tolerance argument a window starts at tolerance 32 on all three channels. |
| Session.OnTrackbar | magicwand/__init__.py:35-36 | A slider move sets all three channel tolerances to the position. The mask and shape are unchanged. |
| Session.OnMouse | magicwand/__init__.py:38-66 | Any event other than a left press leaves the window unchanged, and so does a press whose fill raises. A press keeps the mask's shape, never changes the tolerance, and keeps the window valid when the fill marks only 0/255. |
| Session.ClickSelects | magicwand/__init__.py:43-64 | After a left press whose fill returns, the selected cells are the modifier's set operation applied to the old selection and the click's region. |
| Session.ClickMaskUnique | magicwand/__init__.py:55-64 | When the old mask is image-shaped and 0/255, the mask after such a press is the only 0/255 image-shaped mask selecting that set, so the set statement fixes every byte. |
| Session.SameRuleSameClick | magicwand/__init__.py:43-64 | A click depends on its flags only through the rule they decode to. |
| Session.OtherFlagsIgnored | magicwand/__init__.py:43-64 | Adding or removing flag bits other than SHIFT and ALT gives the same window after the event. |
| Session.PlainClickTwice | magicwand/__init__.py:63-64 | A plain click whose fill returns makes the mask equal the click's region. Repeating the same click with unchanged tolerance leaves the window unchanged, whether or not the fill raises. |
| Session.ShiftClicksCommute | magicwand/__init__.py:59-60 | Two SHIFT clicks give the same window in either order. |
| Session.AltClickUndoesPlainClick | magicwand/__init__.py:61-64 | A plain click, then an ALT click at the same point, leaves the all-zero mask. If the fill there raises, both clicks leave the window unchanged. |
| Session.DisjointIntersectClears | magicwand/__init__.py:57-64 | When both fills return, a plain click, then a SHIFT+ALT click whose region shares no cell with the first, leaves the all-zero mask. |
| Session.Dispatch | magicwand/__init__.py:30-33 | Routing an event to the slider or mouse callback keeps the mask's shape and keeps a valid window valid. |
| Session.Run | magicwand/__init__.py:30-33 | Handling any sequence of events keeps the mask the image's shape. |
| Session.RunKeepsValid | magicwand/__init__.py:19-66 | From a valid window, any sequence of events leads to a valid window: image-shaped, 0/255 only, one tolerance on all channels. |
| Session.NoClickKeepsMask | magicwand/__init__.py:35-41 | Events with no left-button press never change the mask. |
| Session.RunTolerance | magicwand/__init__.py:29-36 | After a run of events the tolerance is the last slider position on all three channels. With no slider move it is the starting tolerance. |

## Left out

- `cv2.floodFill` itself (magicwand/__init__.py:46-54): the connectivity, fixed-range colour comparison and seed handling belong to OpenCV. Its outcome is the `FloodFill` parameter, so the click coordinates matter only as its arguments. Which inputs make it raise is not modelled; the model only says that a raising fill leaves the window unchanged. Statements about the fill, such as tolerance monotonicity or a uniform image being selected whole, are not about this code and are not stated.
- The `connectivity` constructor argument only reaches the flood fill. It appears only in `FloodFillFlags`.
- `_find_exterior_contours` (magicwand/__init__.py:9-15): a compatibility shim over the result arity of `cv2.findContours`, whose results are opaque library objects.
- `_update` (magicwand/__init__.py:68-81): contour drawing, floating-point `addWeighted` blending, floating-point `meanStdDev` diagnostics and printing. The call to it at the end of a click is therefore left out too.
- `show` and the window plumbing (magicwand/__init__.py:28, 30-33, 83-91): window creation, trackbar and callback registration, and the `waitKey` quit loop are GUI and I/O. `Dispatch` and `Run` stand in for OpenCV delivering callbacks one at a time.
- The window name (magicwand/__init__.py:20) is only used by the GUI.
- The slider range: the trackbar is created with a maximum of 255, so slider positions lie in 0..255. `OnTrackbar` accepts any integer, and `Open` keeps the constructor's tolerance as given, as the code does.
- Mutation in place: the code rebinds `self.mask` to a new array on every click, and the model returns a new `Window`. Because the slice is copied at line 55, the mask never aliases the scratch buffer, so value semantics loses nothing.
