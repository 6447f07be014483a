/**
 Single-channel 8-bit images, which the selection window keeps as numpy
 `uint8` arrays of shape (h, w) for its selection mask and flood-fill scratch
 buffer. The module also holds the element-wise OpenCV operations the window
 applies to them (`bitwise_and`, `bitwise_or`, `bitwise_not`) and numpy's
 `[1:-1, 1:-1]` slice.

 A grid is indexed row first, `g[y][x]`, like a numpy array of shape (h, w).
 */
module Grids {

  type Grid = seq<seq<bv8>>

  /** `g` has numpy shape (h, w). */
  predicate IsGrid(g: Grid, h: nat, w: nat) {
    |g| == h && forall i :: 0 <= i < h ==> |g[i]| == w
  }

  /** `a` and `b` have the same number of rows and equally long rows. */
  predicate SameShape(a: Grid, b: Grid) {
    |a| == |b| && forall i :: 0 <= i < |a| ==> |a[i]| == |b[i]|
  }

  /** Every cell is 0 (unselected) or 255 (selected). */
  predicate Binary(g: Grid) {
    forall i, j :: 0 <= i < |g| && 0 <= j < |g[i]| ==> g[i][j] == 0 || g[i][j] == 255
  }

  /** The cells a mask selects: those holding a non-zero byte. */
  function Selected(g: Grid): (cells: set<(int, int)>) {
    set i, j | 0 <= i < |g| && 0 <= j < |g[i]| && g[i][j] != 0 :: (i, j)
  }

  /** `np.zeros((h, w), dtype=np.uint8)`. */
  function Zeros(h: nat, w: nat): (r: Grid)
    ensures IsGrid(r, h, w)
    ensures forall i, j :: 0 <= i < h && 0 <= j < w ==> r[i][j] == 0
    ensures Binary(r)
    ensures Selected(r) == {}
  {
    seq(h, _ => seq(w, _ => 0 as bv8))
  }

  /** `cv2.bitwise_and` of two arrays of one shape. */
  function BitwiseAnd(a: Grid, b: Grid): (r: Grid)
    requires SameShape(a, b)
    ensures SameShape(r, a)
    ensures forall i, j :: 0 <= i < |a| && 0 <= j < |a[i]| ==> r[i][j] == a[i][j] & b[i][j]
  {
    seq(|a|, i requires 0 <= i < |a| =>
      seq(|a[i]|, j requires 0 <= j < |a[i]| => a[i][j] & b[i][j]))
  }

  /** `cv2.bitwise_or` of two arrays of one shape. */
  function BitwiseOr(a: Grid, b: Grid): (r: Grid)
    requires SameShape(a, b)
    ensures SameShape(r, a)
    ensures forall i, j :: 0 <= i < |a| && 0 <= j < |a[i]| ==> r[i][j] == a[i][j] | b[i][j]
  {
    seq(|a|, i requires 0 <= i < |a| =>
      seq(|a[i]|, j requires 0 <= j < |a[i]| => a[i][j] | b[i][j]))
  }

  /** `cv2.bitwise_not`: every byte complemented. */
  function BitwiseNot(a: Grid): (r: Grid)
    ensures SameShape(r, a)
    ensures forall i, j :: 0 <= i < |a| && 0 <= j < |a[i]| ==> r[i][j] == !a[i][j]
  {
    seq(|a|, i requires 0 <= i < |a| =>
      seq(|a[i]|, j requires 0 <= j < |a[i]| => !a[i][j]))
  }

  /** numpy's `s[1:-1]`: drop the first and the last element (empty when |s| < 2). */
  function Inner<T>(s: seq<T>): (r: seq<T>)
    ensures |r| == if |s| < 2 then 0 else |s| - 2
    ensures forall k :: 0 <= k < |r| ==> r[k] == s[k + 1]
  {
    if |s| < 2 then [] else s[1..|s| - 1]
  }

  /** numpy's `buf[1:-1, 1:-1]`: the buffer without its one-cell frame. */
  function Interior(buf: Grid): (r: Grid)
    ensures |r| == |Inner(buf)|
    ensures forall i :: 0 <= i < |r| ==> r[i] == Inner(buf[i + 1])
  {
    var rows := Inner(buf);
    seq(|rows|, i requires 0 <= i < |rows| => Inner(rows[i]))
  }

  /** Every interior cell of the buffer is 0 or 255 (its frame may hold anything). */
  predicate BinaryInterior(buf: Grid) {
    Binary(Interior(buf))
  }

  /**
   The interior of an (h+2) x (w+2) buffer is an h x w grid whose cell (i, j)
   is the buffer's cell (i+1, j+1).
   */
  lemma InteriorOfPadded(buf: Grid, h: nat, w: nat)
    requires IsGrid(buf, h + 2, w + 2)
    ensures IsGrid(Interior(buf), h, w)
    ensures forall i, j :: 0 <= i < h && 0 <= j < w ==> Interior(buf)[i][j] == buf[i + 1][j + 1]
  {
  }

  /** Cell (i, j) of an (h+2) x (w+2) buffer is an interior cell, not on the one-cell border. */
  predicate InInterior(i: int, j: int, h: nat, w: nat) {
    1 <= i <= h && 1 <= j <= w
  }

  /** Two buffers of one shape that agree on their interior cells have the same slice. */
  lemma InteriorIgnoresFrame(buf: Grid, buf': Grid, h: nat, w: nat)
    requires IsGrid(buf, h + 2, w + 2) && IsGrid(buf', h + 2, w + 2)
    requires forall i, j :: 0 <= i < h + 2 && 0 <= j < w + 2 && InInterior(i, j, h, w) ==> buf[i][j] == buf'[i][j]
    ensures Interior(buf) == Interior(buf')
  {
    InteriorOfPadded(buf, h, w);
    InteriorOfPadded(buf', h, w);
    var r, r' := Interior(buf), Interior(buf');
    forall i | 0 <= i < h
      ensures r[i] == r'[i]
    {
      assert forall j :: 0 <= j < w ==> r[i][j] == r'[i][j];
    }
  }

  /**
   The (h+2) x (w+2) buffer that holds `g` at offset (1, 1) inside a frame
   filled with `frame`: the layout of a flood-fill mask whose marked cells are `g`.
   */
  function Framed(g: Grid, h: nat, w: nat, frame: bv8): (r: Grid)
    requires IsGrid(g, h, w)
    ensures IsGrid(r, h + 2, w + 2)
    ensures forall i, j :: 0 <= i < h && 0 <= j < w ==> r[i + 1][j + 1] == g[i][j]
    ensures forall i, j :: 0 <= i < h + 2 && 0 <= j < w + 2 && !InInterior(i, j, h, w) ==> r[i][j] == frame
  {
    seq(h + 2, i requires 0 <= i < h + 2 =>
      seq(w + 2, j requires 0 <= j < w + 2 =>
        if InInterior(i, j, h, w) then g[i - 1][j - 1] else frame))
  }

  /** Slicing the frame off a framed grid gives the grid back, whatever the frame held. */
  lemma InteriorOfFramed(g: Grid, h: nat, w: nat, frame: bv8)
    requires IsGrid(g, h, w)
    ensures Interior(Framed(g, h, w, frame)) == g
  {
    var buf := Framed(g, h, w, frame);
    InteriorOfPadded(buf, h, w);
    var r := Interior(buf);
    forall i | 0 <= i < h
      ensures r[i] == g[i]
    {
      assert forall j :: 0 <= j < w ==> r[i][j] == g[i][j];
    }
  }

  /**
   The interior of a buffer, framed again with the buffer's own frame, is the
   buffer: slicing loses nothing inside the frame.
   */
  lemma FramedOfInterior(buf: Grid, h: nat, w: nat, frame: bv8)
    requires IsGrid(buf, h + 2, w + 2)
    requires forall i, j :: 0 <= i < h + 2 && 0 <= j < w + 2 && !InInterior(i, j, h, w) ==> buf[i][j] == frame
    ensures Framed(Interior(buf), h, w, frame) == buf
  {
    InteriorOfPadded(buf, h, w);
    var r := Framed(Interior(buf), h, w, frame);
    forall i | 0 <= i < h + 2
      ensures r[i] == buf[i]
    {
      forall j | 0 <= j < w + 2
        ensures r[i][j] == buf[i][j]
      {
        if InInterior(i, j, h, w) {
          assert r[(i - 1) + 1][(j - 1) + 1] == Interior(buf)[i - 1][j - 1];
        }
      }
    }
  }

  /** The zeroed scratch buffer (`_flood_mask[:] = 0`) has an all-zero interior. */
  lemma InteriorOfZeros(h: nat, w: nat)
    ensures Interior(Zeros(h + 2, w + 2)) == Zeros(h, w)
  {
    var buf := Zeros(h + 2, w + 2);
    InteriorOfPadded(buf, h, w);
    var r, z := Interior(buf), Zeros(h, w);
    forall i | 0 <= i < h
      ensures r[i] == z[i]
    {
      assert forall j :: 0 <= j < w ==> r[i][j] == z[i][j];
    }
  }

  /**
   Two binary masks of one shape that select the same cells are equal, so a
   statement about `Selected` pins a binary mask down completely.
   */
  lemma SelectedDetermines(a: Grid, b: Grid)
    requires SameShape(a, b) && Binary(a) && Binary(b)
    requires Selected(a) == Selected(b)
    ensures a == b
  {
    forall i | 0 <= i < |a|
      ensures a[i] == b[i]
    {
      forall j | 0 <= j < |a[i]|
        ensures a[i][j] == b[i][j]
      {
        assert a[i][j] != 0 <==> (i, j) in Selected(a);
        assert b[i][j] != 0 <==> (i, j) in Selected(b);
      }
    }
  }
}
