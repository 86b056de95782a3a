/** The pixel grid that stands in for a pygame `Surface`: colour scans,
    square sub-views and square fills. A surface is a sequence of columns,
    so `s[x][y]` is the pixel `get_at((x, y))` would return. */
module Raster {

  /** An RGB colour. */
  datatype Colour = Colour(r: int, g: int, b: int)

  /** The colour wounds are painted with (game.py's `BACKGROUND`). */
  const Background: Colour := Colour(0, 0, 0)

  type Surface = seq<seq<Colour>>

  /** `s` is an n-by-n grid. */
  predicate IsSquare(s: Surface, n: int) {
    |s| == n && forall i :: 0 <= i < |s| ==> |s[i]| == n
  }

  /** (i, j) lies in the w-by-w square whose top-left corner is (x, y). */
  predicate InSquare(i: int, j: int, x: int, y: int, w: int) {
    x <= i < x + w && y <= j < y + w
  }

  /** A square that fits inside an n-by-n grid. */
  predicate SquareFits(n: int, x: int, y: int, w: int) {
    0 <= w && 0 <= x && x + w <= n && 0 <= y && y + w <= n
  }

  /** A fresh n-by-n surface filled with one colour (`Surface` + `fill`). */
  function Blank(n: nat, c: Colour): (s: Surface)
    ensures IsSquare(s, n)
    ensures forall i, j :: 0 <= i < n && 0 <= j < n ==> s[i][j] == c
  {
    seq(n, _ => seq(n, _ => c))
  }

  /** Some pixel of `s` has colour `c`. */
  predicate HasColour(s: Surface, c: Colour) {
    exists i, j :: 0 <= i < |s| && 0 <= j < |s[i]| && s[i][j] == c
  }

  /** Some pixel of the w-by-w square at (x, y) of `s` has colour `c`. */
  ghost predicate SquareHasColour(s: Surface, x: int, y: int, w: int, c: Colour)
    requires IsSquare(s, |s|) && SquareFits(|s|, x, y, w)
  {
    exists i, j :: InSquare(i, j, x, y, w) && s[i][j] == c
  }

  /** `checkColourInSurface`: scans columns, then the pixels of each column,
      and stops at the first pixel of colour `c`. */
  method CheckColourInSurface(s: Surface, c: Colour) returns (found: bool)
    ensures found <==> HasColour(s, c)
    ensures |s| == 0 ==> !found
  {
    found := false;
    var i := 0;
    while i < |s|
      invariant 0 <= i <= |s|
      invariant found ==> HasColour(s, c)
      invariant !found ==> forall a, b :: 0 <= a < i && 0 <= b < |s[a]| ==> s[a][b] != c
    {
      var j := 0;
      while j < |s[i]|
        invariant 0 <= j <= |s[i]|
        invariant found ==> HasColour(s, c)
        invariant !found ==> forall b :: 0 <= b < j ==> s[i][b] != c
      {
        if s[i][j] == c {
          found := true;
          break;
        }
        j := j + 1;
      }
      if found {
        break;
      }
      i := i + 1;
    }
  }

  /** The w-by-w sub-view at (x, y) (pygame's `subsurface`). */
  function Region(s: Surface, x: int, y: int, w: int): (r: Surface)
    requires IsSquare(s, |s|) && SquareFits(|s|, x, y, w)
    ensures IsSquare(r, w)
    ensures forall i, j :: 0 <= i < w && 0 <= j < w ==> r[i][j] == s[x + i][y + j]
  {
    seq(w, i requires 0 <= i < w => s[x + i][y .. y + w])
  }

  /** Scanning the sub-view finds a colour exactly when the square of the
      parent surface holds it. */
  lemma RegionHasColour(s: Surface, x: int, y: int, w: int, c: Colour)
    requires IsSquare(s, |s|) && SquareFits(|s|, x, y, w)
    ensures HasColour(Region(s, x, y, w), c) <==> SquareHasColour(s, x, y, w, c)
  {
    var r := Region(s, x, y, w);
    if HasColour(r, c) {
      var i, j :| 0 <= i < |r| && 0 <= j < |r[i]| && r[i][j] == c;
      assert InSquare(x + i, y + j, x, y, w) && s[x + i][y + j] == c;
    }
    if SquareHasColour(s, x, y, w, c) {
      var i, j :| InSquare(i, j, x, y, w) && s[i][j] == c;
      assert r[i - x][j - y] == c;
    }
  }

  /** Paints the w-by-w square at (x, y) with colour `c` (blitting a filled
      wound surface); every pixel of the square takes `c` and every pixel
      outside it keeps its colour. */
  function FillSquare(s: Surface, x: int, y: int, w: int, c: Colour): (r: Surface)
    requires IsSquare(s, |s|) && SquareFits(|s|, x, y, w)
    ensures IsSquare(r, |s|)
    ensures forall i, j :: 0 <= i < |s| && 0 <= j < |s| && InSquare(i, j, x, y, w) ==> r[i][j] == c
    ensures forall i, j :: 0 <= i < |s| && 0 <= j < |s| && !InSquare(i, j, x, y, w) ==> r[i][j] == s[i][j]
  {
    seq(|s|, i requires 0 <= i < |s| =>
      if x <= i < x + w then
        seq(|s[i]|, j requires 0 <= j < |s[i]| => if y <= j < y + w then c else s[i][j])
      else s[i])
  }

  /** The pixels of `s` that show the background colour. */
  function Covered(s: Surface): set<(int, int)> {
    set i, j | 0 <= i < |s| && 0 <= j < |s[i]| && s[i][j] == Background :: (i, j)
  }

  /** The cells of the w-by-w square at (x, y). */
  function Cells(x: int, y: int, w: int): set<(int, int)>
    requires w >= 0
  {
    set i, j | x <= i < x + w && y <= j < y + w :: (i, j)
  }

  /** A background fill adds exactly its square to the covered area: wounds
      are cumulative and nothing already wounded is uncovered. */
  lemma FillCovered(s: Surface, x: int, y: int, w: int)
    requires IsSquare(s, |s|) && SquareFits(|s|, x, y, w)
    ensures Covered(FillSquare(s, x, y, w, Background)) == Covered(s) + Cells(x, y, w)
    ensures Covered(s) <= Covered(FillSquare(s, x, y, w, Background))
  {
    var r := FillSquare(s, x, y, w, Background);
    forall p | p in Covered(r)
      ensures p in Covered(s) + Cells(x, y, w)
    {
      var (i, j) := p;
      if !InSquare(i, j, x, y, w) {
        assert s[i][j] == Background;
      }
    }
    forall p | p in Covered(s) + Cells(x, y, w)
      ensures p in Covered(r)
    {
      var (i, j) := p;
      if InSquare(i, j, x, y, w) {
        assert r[i][j] == Background;
      } else {
        assert r[i][j] == s[i][j];
      }
    }
  }

  /** After the fill the square holds nothing but `c`. */
  lemma FillSquareUniform(s: Surface, x: int, y: int, w: int, c: Colour, other: Colour)
    requires IsSquare(s, |s|) && SquareFits(|s|, x, y, w) && other != c
    ensures !SquareHasColour(FillSquare(s, x, y, w, c), x, y, w, other)
    ensures w > 0 ==> SquareHasColour(FillSquare(s, x, y, w, c), x, y, w, c)
  {
    var r := FillSquare(s, x, y, w, c);
    if w > 0 {
      assert InSquare(x, y, x, y, w) && r[x][y] == c;
    }
  }
}
