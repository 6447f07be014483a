/**
 The OpenCV bit-flag constants the selection window relies on, and the
 decoding of a mouse event's modifier flags into the rule that combines a new
 flood-fill region with the accumulated selection.

 OpenCV hands its mouse callback the flags as a C `int`; it is modelled as
 that int's 32-bit pattern, on which Python's `&` and `|` act bit by bit.
 */
module Modifiers {

  /** `cv2.EVENT_LBUTTONDOWN`: the left mouse button was pressed. */
  const EVENT_LBUTTONDOWN: int := 1

  /** `cv2.EVENT_FLAG_SHIFTKEY` and `cv2.EVENT_FLAG_ALTKEY`. */
  const SHIFT_KEY: bv32 := 16
  const ALT_KEY: bv32 := 32

  /** `cv2.FLOODFILL_FIXED_RANGE` and `cv2.FLOODFILL_MASK_ONLY`. */
  const FLOODFILL_FIXED_RANGE: bv32 := 0x1_0000
  const FLOODFILL_MASK_ONLY: bv32 := 0x2_0000

  /** How a new region is merged into the accumulated mask. */
  datatype Modifier = Replace | Union | Subtract | Intersect

  /**
   The rule a click selects: both SHIFT and ALT held intersect, SHIFT alone
   unions, ALT alone subtracts, and neither replaces. No other flag bit matters.
   */
  function ModifierOf(flags: bv32): (m: Modifier)
    ensures m == Intersect <==> flags & SHIFT_KEY != 0 && flags & ALT_KEY != 0
    ensures m == Union <==> flags & SHIFT_KEY != 0 && flags & ALT_KEY == 0
    ensures m == Subtract <==> flags & SHIFT_KEY == 0 && flags & ALT_KEY != 0
    ensures m == Replace <==> flags & SHIFT_KEY == 0 && flags & ALT_KEY == 0
  {
    var modifier := flags & (ALT_KEY + SHIFT_KEY);
    if modifier == ALT_KEY + SHIFT_KEY then Intersect
    else if modifier == SHIFT_KEY then Union
    else if modifier == ALT_KEY then Subtract
    else Replace
  }

  /**
   Setting or clearing any flag bit other than SHIFT and ALT (CTRL, the mouse
   button bits, anything else) never changes the chosen rule.
   */
  lemma ModifierIgnoresOtherBits(flags: bv32, other: bv32)
    requires other & (SHIFT_KEY | ALT_KEY) == 0
    ensures ModifierOf(flags | other) == ModifierOf(flags)
    ensures ModifierOf(flags & !other) == ModifierOf(flags)
    ensures ModifierOf(flags ^ other) == ModifierOf(flags)
  {
  }

  /**
   The flood-fill flags built at construction: the connectivity in the low
   byte, fixed-range comparison against the seed, mask-only mode, and the
   value 255 to write into the mask in bits 8 to 15.
   */
  function FloodFillFlags(connectivity: bv32): (flags: bv32)
    requires connectivity < 256
    ensures flags & 0xFF == connectivity
    ensures (flags >> 8) & 0xFF == 255
    ensures flags & FLOODFILL_FIXED_RANGE != 0 && flags & FLOODFILL_MASK_ONLY != 0
    ensures flags >> 18 == 0
  {
    connectivity | FLOODFILL_FIXED_RANGE | FLOODFILL_MASK_ONLY | (255 << 8)
  }
}
