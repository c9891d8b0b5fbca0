/** The quadrant mirroring of `apply_doctor_strange` (test.py:14-34).

    A frame is an h-by-w grid of cells, a cell being one pixel with all its
    channels; the mirroring never looks inside a cell. The 45-degree rotation
    (`getRotationMatrix2D` and `warpAffine`) is a library call and is not modelled:
    its result reaches this module as the grid `rotated`. */
module Kaleidoscope {

  /** `g` has `h` rows of `w` cells each. */
  predicate IsGrid<T>(g: seq<seq<T>>, h: nat, w: nat)
  {
    |g| == h && forall i :: 0 <= i < h ==> |g[i]| == w
  }

  function Reverse<T>(s: seq<T>): (r: seq<T>)
    ensures |r| == |s|
  {
    seq(|s|, k requires 0 <= k < |s| => s[|s| - 1 - k])
  }

  /** `cv2.flip(q, code)`: code 0 reverses the order of the rows, a positive code
      the order of the columns, a negative code both. */
  function Flip<T>(q: seq<seq<T>>, code: int): (r: seq<seq<T>>)
    ensures |r| == |q|
  {
    if code == 0 then Reverse(q)
    else if code > 0 then seq(|q|, i requires 0 <= i < |q| => Reverse(q[i]))
    else seq(|q|, i requires 0 <= i < |q| => Reverse(q[|q| - 1 - i]))
  }

  /** `g[0:h//2, 0:w//2]`, the top-left quadrant. */
  function TopLeft<T>(g: seq<seq<T>>, h: nat, w: nat): seq<seq<T>>
    requires IsGrid(g, h, w)
  {
    seq(h / 2, i requires 0 <= i < h / 2 => g[i][..w / 2])
  }

  /** The grid with `tl` and `tr` side by side above `bl` and `br` side by side. */
  function Tile<T>(tl: seq<seq<T>>, tr: seq<seq<T>>, bl: seq<seq<T>>, br: seq<seq<T>>): seq<seq<T>>
    requires |tr| == |tl| && |br| == |bl|
  {
    seq(|tl| + |bl|, i requires 0 <= i < |tl| + |bl| =>
      if i < |tl| then tl[i] + tr[i] else bl[i - |tl|] + br[i - |tl|])
  }

  /** What `apply_doctor_strange` leaves in the frame, given the rotated frame:
      its top-left quadrant, with the column-flipped copy to its right, the
      row-flipped copy below it and the copy flipped both ways diagonally opposite. */
  function Kaleidoscope<T>(rotated: seq<seq<T>>, h: nat, w: nat): (r: seq<seq<T>>)
    requires IsGrid(rotated, h, w)
    ensures h % 2 == 0 ==> |r| == h
  {
    var tl := TopLeft(rotated, h, w);
    Tile(tl, Flip(tl, 1), Flip(tl, 0), Flip(tl, -1))
  }

  /** Two grids of one shape that agree cell by cell are equal. */
  lemma GridsEqual<T>(a: seq<seq<T>>, b: seq<seq<T>>, h: nat, w: nat)
    requires IsGrid(a, h, w) && IsGrid(b, h, w)
    requires forall i, j :: 0 <= i < h && 0 <= j < w ==> a[i][j] == b[i][j]
    ensures a == b
  {
    forall i | 0 <= i < h
      ensures a[i] == b[i]
    {
      assert forall j :: 0 <= j < w ==> a[i][j] == b[i][j];
    }
  }

  /** Each flip keeps the shape of the grid. */
  lemma FlipShape<T>(q: seq<seq<T>>, h: nat, w: nat, code: int)
    requires IsGrid(q, h, w)
    ensures IsGrid(Flip(q, code), h, w)
  {
    forall i | 0 <= i < h
      ensures |Flip(q, code)[i]| == w
    {
      assert |q[i]| == w && |q[h - 1 - i]| == w;
      if code == 0 {
        assert Flip(q, code)[i] == q[h - 1 - i];
      } else if code > 0 {
        assert Flip(q, code)[i] == Reverse(q[i]);
      } else {
        assert Flip(q, code)[i] == Reverse(q[h - 1 - i]);
      }
    }
  }

  /** Cell (i, j) of a flip comes from the mirrored position: the row is mirrored
      unless the code is positive, the column unless the code is 0. */
  lemma FlipCell<T>(q: seq<seq<T>>, h: nat, w: nat, code: int, i: nat, j: nat)
    requires IsGrid(q, h, w) && i < h && j < w
    ensures |Flip(q, code)[i]| == w
    ensures Flip(q, code)[i][j] == q[if code > 0 then i else h - 1 - i][if code == 0 then j else w - 1 - j]
  {
    assert |q[i]| == w && |q[h - 1 - i]| == w;
    if code == 0 {
      assert Flip(q, code)[i] == q[h - 1 - i];
    } else if code > 0 {
      assert Flip(q, code)[i] == Reverse(q[i]);
    } else {
      assert Flip(q, code)[i] == Reverse(q[h - 1 - i]);
    }
  }

  /** Each flip keeps the shape and moves every cell from its mirrored position. */
  lemma FlipAt<T>(q: seq<seq<T>>, h: nat, w: nat, code: int)
    requires IsGrid(q, h, w)
    ensures IsGrid(Flip(q, code), h, w)
    ensures forall i, j :: 0 <= i < h && 0 <= j < w ==>
      Flip(q, code)[i][j] == q[if code > 0 then i else h - 1 - i][if code == 0 then j else w - 1 - j]
  {
    FlipShape(q, h, w, code);
    forall i, j | 0 <= i < h && 0 <= j < w
      ensures Flip(q, code)[i][j] == q[if code > 0 then i else h - 1 - i][if code == 0 then j else w - 1 - j]
    {
      FlipCell(q, h, w, code, i, j);
    }
  }

  /** Flipping both ways is flipping the rows and then the columns, in either order. */
  lemma FlipBothComposes<T>(q: seq<seq<T>>, h: nat, w: nat)
    requires IsGrid(q, h, w)
    ensures Flip(q, -1) == Flip(Flip(q, 0), 1) == Flip(Flip(q, 1), 0)
  {
    FlipShape(q, h, w, 0);
    FlipShape(q, h, w, 1);
    FlipShape(q, h, w, -1);
    FlipShape(Flip(q, 0), h, w, 1);
    FlipShape(Flip(q, 1), h, w, 0);
    forall i, j | 0 <= i < h && 0 <= j < w
      ensures Flip(q, -1)[i][j] == Flip(Flip(q, 0), 1)[i][j] == Flip(Flip(q, 1), 0)[i][j]
    {
      FlipCell(q, h, w, -1, i, j);
      FlipCell(Flip(q, 0), h, w, 1, i, j);
      FlipCell(q, h, w, 0, i, w - 1 - j);
      FlipCell(Flip(q, 1), h, w, 0, i, j);
      FlipCell(q, h, w, 1, h - 1 - i, j);
    }
    GridsEqual(Flip(q, -1), Flip(Flip(q, 0), 1), h, w);
    GridsEqual(Flip(q, -1), Flip(Flip(q, 1), 0), h, w);
  }

  /** Every flip undoes itself. */
  lemma FlipInvolution<T>(q: seq<seq<T>>, h: nat, w: nat, code: int)
    requires IsGrid(q, h, w)
    ensures Flip(Flip(q, code), code) == q
  {
    FlipShape(q, h, w, code);
    FlipShape(Flip(q, code), h, w, code);
    forall i, j | 0 <= i < h && 0 <= j < w
      ensures Flip(Flip(q, code), code)[i][j] == q[i][j]
    {
      var i1 := if code > 0 then i else h - 1 - i;
      var j1 := if code == 0 then j else w - 1 - j;
      FlipCell(Flip(q, code), h, w, code, i, j);
      FlipCell(q, h, w, code, i1, j1);
    }
    GridsEqual(Flip(Flip(q, code), code), q, h, w);
  }

  /** A tiling of four cy-by-cx quadrants is a 2cy-by-2cx grid. */
  lemma TileShape<T>(tl: seq<seq<T>>, tr: seq<seq<T>>, bl: seq<seq<T>>, br: seq<seq<T>>, cy: nat, cx: nat)
    requires IsGrid(tl, cy, cx) && IsGrid(tr, cy, cx) && IsGrid(bl, cy, cx) && IsGrid(br, cy, cx)
    ensures IsGrid(Tile(tl, tr, bl, br), 2 * cy, 2 * cx)
  {
    forall i | 0 <= i < 2 * cy
      ensures |Tile(tl, tr, bl, br)[i]| == 2 * cx
    {
      if i < cy {
        assert |tl[i]| == cx && |tr[i]| == cx;
      } else {
        assert |bl[i - cy]| == cx && |br[i - cy]| == cx;
      }
    }
  }

  /** Cell (i, j) of a tiling of four cy-by-cx quadrants comes from the quadrant
      the cell lies in. */
  lemma TileCell<T>(tl: seq<seq<T>>, tr: seq<seq<T>>, bl: seq<seq<T>>, br: seq<seq<T>>,
                    cy: nat, cx: nat, i: nat, j: nat)
    requires IsGrid(tl, cy, cx) && IsGrid(tr, cy, cx) && IsGrid(bl, cy, cx) && IsGrid(br, cy, cx)
    requires i < 2 * cy && j < 2 * cx
    ensures |Tile(tl, tr, bl, br)[i]| == 2 * cx
    ensures Tile(tl, tr, bl, br)[i][j] ==
      if i < cy then (if j < cx then tl[i][j] else tr[i][j - cx])
      else (if j < cx then bl[i - cy][j] else br[i - cy][j - cx])
  {
    if i < cy {
      assert |tl[i]| == cx && |tr[i]| == cx;
      assert Tile(tl, tr, bl, br)[i] == tl[i] + tr[i];
    } else {
      assert |bl[i - cy]| == cx && |br[i - cy]| == cx;
      assert Tile(tl, tr, bl, br)[i] == bl[i - cy] + br[i - cy];
    }
  }

  /** Index `k` of a mirrored tiling of length 2 * half, folded back into the
      first half: the first half reads itself, the second half its mirror. */
  function Fold(k: nat, half: nat): nat
  {
    if k < half then k else if k < 2 * half then 2 * half - 1 - k else 0
  }

  /** The tiling of a cy-by-cx quadrant with its three mirror images, one cell:
      the cell reads the quadrant at its folded row and column. */
  lemma MirrorTileCell<T>(q: seq<seq<T>>, cy: nat, cx: nat, i: nat, j: nat)
    requires IsGrid(q, cy, cx) && i < 2 * cy && j < 2 * cx
    ensures |Tile(q, Flip(q, 1), Flip(q, 0), Flip(q, -1))[i]| == 2 * cx
    ensures Fold(i, cy) < cy && Fold(j, cx) < cx
    ensures Tile(q, Flip(q, 1), Flip(q, 0), Flip(q, -1))[i][j] == q[Fold(i, cy)][Fold(j, cx)]
  {
    FlipShape(q, cy, cx, 0);
    FlipShape(q, cy, cx, 1);
    FlipShape(q, cy, cx, -1);
    TileCell(q, Flip(q, 1), Flip(q, 0), Flip(q, -1), cy, cx, i, j);
    if i < cy {
      if cx <= j {
        FlipCell(q, cy, cx, 1, i, j - cx);
      }
    } else {
      if j < cx {
        FlipCell(q, cy, cx, 0, i - cy, j);
      } else {
        FlipCell(q, cy, cx, -1, i - cy, j - cx);
      }
    }
  }

  /** For even h and w the result has the frame's shape. */
  lemma KaleidoscopeShape<T>(rotated: seq<seq<T>>, h: nat, w: nat)
    requires IsGrid(rotated, h, w) && h % 2 == 0 && w % 2 == 0
    ensures IsGrid(Kaleidoscope(rotated, h, w), h, w)
  {
    var cy, cx := h / 2, w / 2;
    assert h == 2 * cy && w == 2 * cx;
    var tl := TopLeft(rotated, h, w);
    assert IsGrid(tl, cy, cx);
    FlipShape(tl, cy, cx, 0);
    FlipShape(tl, cy, cx, 1);
    FlipShape(tl, cy, cx, -1);
    TileShape(tl, Flip(tl, 1), Flip(tl, 0), Flip(tl, -1), cy, cx);
  }

  /** Output cell (i, j) is the rotated frame's cell at the row and column
      folded into the top-left quadrant. */
  lemma KaleidoscopeAt<T>(rotated: seq<seq<T>>, h: nat, w: nat, i: nat, j: nat)
    requires IsGrid(rotated, h, w) && h % 2 == 0 && w % 2 == 0
    requires i < h && j < w
    ensures |Kaleidoscope(rotated, h, w)| == h && |Kaleidoscope(rotated, h, w)[i]| == w
    ensures Fold(i, h / 2) < h / 2 && Fold(j, w / 2) < w / 2
    ensures Kaleidoscope(rotated, h, w)[i][j] == rotated[Fold(i, h / 2)][Fold(j, w / 2)]
  {
    var cy, cx := h / 2, w / 2;
    assert h == 2 * cy && w == 2 * cx;
    var tl := TopLeft(rotated, h, w);
    assert IsGrid(tl, cy, cx);
    MirrorTileCell(tl, cy, cx, i, j);
    assert tl[Fold(i, cy)] == rotated[Fold(i, cy)][..cx];
  }

  /** The same cell, with the quadrant it lies in spelled out: a row in the
      bottom half reads row h-1-i, a column in the right half column w-1-j. */
  lemma KaleidoscopeQuadrantCell<T>(rotated: seq<seq<T>>, h: nat, w: nat, i: nat, j: nat)
    requires IsGrid(rotated, h, w) && h % 2 == 0 && w % 2 == 0
    requires i < h && j < w
    ensures |Kaleidoscope(rotated, h, w)| == h && |Kaleidoscope(rotated, h, w)[i]| == w
    ensures Kaleidoscope(rotated, h, w)[i][j] ==
      rotated[if i < h / 2 then i else h - 1 - i][if j < w / 2 then j else w - 1 - j]
  {
    var cy, cx := h / 2, w / 2;
    assert h == 2 * cy && w == 2 * cx;
    assert Fold(i, cy) == if i < cy then i else h - 1 - i;
    assert Fold(j, cx) == if j < cx then j else w - 1 - j;
    KaleidoscopeAt(rotated, h, w, i, j);
  }

  /** For even h and w the result has the frame's shape, and its four quadrants
      hold the rotated frame's top-left quadrant and its three mirror images.
      With cy = h/2 and cx = w/2, a cell in the top half reads its own row and
      a cell in the bottom half row h-1-i, which is row cy-1-(i-cy) of the
      quadrant; a cell in the left half reads its own column and a cell in the
      right half column w-1-j. */
  lemma KaleidoscopeQuadrants<T>(rotated: seq<seq<T>>, h: nat, w: nat)
    requires IsGrid(rotated, h, w) && h % 2 == 0 && w % 2 == 0
    ensures IsGrid(Kaleidoscope(rotated, h, w), h, w)
    ensures forall i, j :: 0 <= i < h && 0 <= j < w ==>
      Kaleidoscope(rotated, h, w)[i][j] ==
        rotated[if i < h / 2 then i else h - 1 - i][if j < w / 2 then j else w - 1 - j]
  {
    KaleidoscopeShape(rotated, h, w);
    forall i, j | 0 <= i < h && 0 <= j < w
      ensures Kaleidoscope(rotated, h, w)[i][j] ==
        rotated[if i < h / 2 then i else h - 1 - i][if j < w / 2 then j else w - 1 - j]
    {
      KaleidoscopeQuadrantCell(rotated, h, w, i, j);
    }
  }

  /** The result reads only the rotated frame's top-left quadrant: rotated
      frames that agree there give the same frame. */
  lemma KaleidoscopeReadsTopLeftOnly<T>(r1: seq<seq<T>>, r2: seq<seq<T>>, h: nat, w: nat)
    requires IsGrid(r1, h, w) && IsGrid(r2, h, w)
    requires forall i, j :: 0 <= i < h / 2 && 0 <= j < w / 2 ==> r1[i][j] == r2[i][j]
    ensures Kaleidoscope(r1, h, w) == Kaleidoscope(r2, h, w)
  {
    var t1, t2 := TopLeft(r1, h, w), TopLeft(r2, h, w);
    assert IsGrid(t1, h / 2, w / 2) && IsGrid(t2, h / 2, w / 2);
    GridsEqual(t1, t2, h / 2, w / 2);
  }

  /** One cell of the result equals the cell at its mirrored position. */
  lemma KaleidoscopeSymmetricCell<T>(rotated: seq<seq<T>>, h: nat, w: nat, code: int, i: nat, j: nat)
    requires IsGrid(rotated, h, w) && h % 2 == 0 && w % 2 == 0
    requires i < h && j < w
    ensures |Kaleidoscope(rotated, h, w)| == h
    ensures |Flip(Kaleidoscope(rotated, h, w), code)[i]| == w && |Kaleidoscope(rotated, h, w)[i]| == w
    ensures Flip(Kaleidoscope(rotated, h, w), code)[i][j] == Kaleidoscope(rotated, h, w)[i][j]
  {
    var out := Kaleidoscope(rotated, h, w);
    var cy, cx := h / 2, w / 2;
    assert h == 2 * cy && w == 2 * cx;
    var i1 := if code > 0 then i else h - 1 - i;
    var j1 := if code == 0 then j else w - 1 - j;
    var r := if i < cy then i else h - 1 - i;
    var c := if j < cx then j else w - 1 - j;
    assert (if i1 < cy then i1 else h - 1 - i1) == r;
    assert (if j1 < cx then j1 else w - 1 - j1) == c;
    KaleidoscopeShape(rotated, h, w);
    FlipCell(out, h, w, code, i, j);
    KaleidoscopeQuadrantCell(rotated, h, w, i, j);
    KaleidoscopeQuadrantCell(rotated, h, w, i1, j1);
  }

  /** The result is its own mirror image in both directions, so it looks the
      same after `cv2.flip` with any code. */
  lemma KaleidoscopeSymmetric<T>(rotated: seq<seq<T>>, h: nat, w: nat, code: int)
    requires IsGrid(rotated, h, w) && h % 2 == 0 && w % 2 == 0
    ensures Flip(Kaleidoscope(rotated, h, w), code) == Kaleidoscope(rotated, h, w)
  {
    var out := Kaleidoscope(rotated, h, w);
    KaleidoscopeShape(rotated, h, w);
    FlipShape(out, h, w, code);
    forall i, j | 0 <= i < h && 0 <= j < w
      ensures Flip(out, code)[i][j] == out[i][j]
    {
      KaleidoscopeSymmetricCell(rotated, h, w, code, i, j);
    }
    GridsEqual(Flip(out, code), out, h, w);
  }

  /** Mirroring a frame that is already mirrored changes nothing. */
  lemma KaleidoscopeIdempotent<T>(rotated: seq<seq<T>>, h: nat, w: nat)
    requires IsGrid(rotated, h, w) && h % 2 == 0 && w % 2 == 0
    ensures IsGrid(Kaleidoscope(rotated, h, w), h, w)
    ensures Kaleidoscope(Kaleidoscope(rotated, h, w), h, w) == Kaleidoscope(rotated, h, w)
  {
    var out := Kaleidoscope(rotated, h, w);
    KaleidoscopeShape(rotated, h, w);
    forall i, j | 0 <= i < h / 2 && 0 <= j < w / 2
      ensures out[i][j] == rotated[i][j]
    {
      KaleidoscopeAt(rotated, h, w, i, j);
    }
    KaleidoscopeReadsTopLeftOnly(out, rotated, h, w);
  }

  /** The grid `g` with the cells of `block` written over rows `top` to
      `bottom` and columns `left` to `right` (ends excluded). */
  function Paste<T>(g: seq<seq<T>>, h: nat, w: nat, top: nat, bottom: nat, left: nat, right: nat,
                    block: seq<seq<T>>): (r: seq<seq<T>>)
    requires IsGrid(g, h, w) && top <= bottom <= h && left <= right <= w
    requires IsGrid(block, bottom - top, right - left)
    ensures IsGrid(r, h, w)
  {
    seq(h, i requires 0 <= i < h =>
      seq(w, j requires 0 <= j < w =>
        if top <= i < bottom && left <= j < right then block[i - top][j - left] else g[i][j]))
  }

  /** Writing the four quadrants over any h-by-w grid, in the order of
      test.py:29-32, gives the tiling of the four quadrants. */
  lemma PasteQuadrants<T>(g: seq<seq<T>>, h: nat, w: nat,
                          tl: seq<seq<T>>, tr: seq<seq<T>>, bl: seq<seq<T>>, br: seq<seq<T>>)
    requires IsGrid(g, h, w) && h % 2 == 0 && w % 2 == 0
    requires IsGrid(tl, h / 2, w / 2) && IsGrid(bl, h / 2, w / 2)
    requires IsGrid(tr, h / 2, w / 2) && IsGrid(br, h / 2, w / 2)
    ensures Paste(Paste(Paste(Paste(g, h, w, 0, h / 2, 0, w / 2, tl), h, w, h / 2, h, 0, w / 2, bl),
                        h, w, 0, h / 2, w / 2, w, tr), h, w, h / 2, h, w / 2, w, br)
         == Tile(tl, tr, bl, br)
  {
    var cy, cx := h / 2, w / 2;
    var g1 := Paste(g, h, w, 0, cy, 0, cx, tl);
    var g2 := Paste(g1, h, w, cy, h, 0, cx, bl);
    var g3 := Paste(g2, h, w, 0, cy, cx, w, tr);
    var g4 := Paste(g3, h, w, cy, h, cx, w, br);
    var out := Tile(tl, tr, bl, br);
    assert h == 2 * cy && w == 2 * cx;
    TileShape(tl, tr, bl, br, cy, cx);
    forall i, j | 0 <= i < h && 0 <= j < w
      ensures g4[i][j] == out[i][j]
    {
      TileCell(tl, tr, bl, br, cy, cx, i, j);
      if i < cy && j < cx {
        assert g4[i][j] == g3[i][j] == g2[i][j] == g1[i][j] == tl[i][j];
      } else if j < cx {
        assert g4[i][j] == g3[i][j] == g2[i][j] == bl[i - cy][j];
      } else if i < cy {
        assert g4[i][j] == g3[i][j] == tr[i][j - cx];
      } else {
        assert g4[i][j] == br[i - cy][j - cx];
      }
    }
    GridsEqual(g4, out, h, w);
  }

  /** The cells of a two-dimensional array, row by row. */
  ghost function Cells<T>(a: array2<T>): (g: seq<seq<T>>)
    reads a
    ensures IsGrid(g, a.Length0, a.Length1)
  {
    seq(a.Length0, i requires 0 <= i < a.Length0 reads a =>
      seq(a.Length1, j requires 0 <= j < a.Length1 reads a => a[i, j]))
  }

  /** The slice assignment `frame[top:bottom, left:right] = block`: the block's
      cells land in the slice and every other cell keeps its value. */
  method WriteBlock<T>(frame: array2<T>, top: nat, bottom: nat, left: nat, right: nat, block: seq<seq<T>>)
    requires top <= bottom <= frame.Length0 && left <= right <= frame.Length1
    requires IsGrid(block, bottom - top, right - left)
    modifies frame
    ensures Cells(frame) == Paste(old(Cells(frame)), frame.Length0, frame.Length1, top, bottom, left, right, block)
  {
    ghost var before := Cells(frame);
    var r := top;
    while r < bottom
      invariant top <= r <= bottom
      invariant forall i, j :: 0 <= i < frame.Length0 && 0 <= j < frame.Length1 ==>
        frame[i, j] == if top <= i < r && left <= j < right then block[i - top][j - left] else before[i][j]
    {
      var c := left;
      while c < right
        invariant left <= c <= right
        invariant forall i, j :: 0 <= i < frame.Length0 && 0 <= j < frame.Length1 ==>
          frame[i, j] == if (top <= i < r && left <= j < right) || (i == r && left <= j < c)
                         then block[i - top][j - left] else before[i][j]
      {
        frame[r, c] := block[r - top][c - left];
        c := c + 1;
      }
      r := r + 1;
    }
    GridsEqual(Cells(frame), Paste(before, frame.Length0, frame.Length1, top, bottom, left, right, block),
               frame.Length0, frame.Length1);
  }

  /** `apply_doctor_strange(frame)` with the rotated frame given: builds the three
      flipped copies of the top-left quadrant, writes the four quadrants into
      `frame` in place and returns that same array. Every cell is overwritten
      with the kaleidoscope of the rotated frame. */
  method ApplyDoctorStrange<T>(frame: array2<T>, rotated: seq<seq<T>>) returns (result: array2<T>)
    requires frame.Length0 % 2 == 0 && frame.Length1 % 2 == 0
    requires IsGrid(rotated, frame.Length0, frame.Length1)
    modifies frame
    ensures result == frame
    ensures Cells(frame) == Kaleidoscope(rotated, frame.Length0, frame.Length1)
  {
    var h, w := frame.Length0, frame.Length1;
    var centerX, centerY := w / 2, h / 2;
    var topLeft := TopLeft(rotated, h, w);
    var bottomLeft := Flip(topLeft, 0);
    var topRight := Flip(topLeft, 1);
    var bottomRight := Flip(topLeft, -1);
    assert IsGrid(topLeft, centerY, centerX);
    FlipShape(topLeft, centerY, centerX, 0);
    FlipShape(topLeft, centerY, centerX, 1);
    FlipShape(topLeft, centerY, centerX, -1);

    ghost var before := Cells(frame);
    WriteBlock(frame, 0, centerY, 0, centerX, topLeft);
    WriteBlock(frame, centerY, h, 0, centerX, bottomLeft);
    WriteBlock(frame, 0, centerY, centerX, w, topRight);
    WriteBlock(frame, centerY, h, centerX, w, bottomRight);

    PasteQuadrants(before, h, w, topLeft, topRight, bottomLeft, bottomRight);
    result := frame;
  }
}
