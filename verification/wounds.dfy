/** `Character.wound`: the wound size, the bounded search for a placement,
    the background fill and the HP update. The random corner draws of the
    source are supplied by the caller as a sequence of points. */
module Wounds {
  import opened Geometry
  import opened Raster
  import opened Characters

  /** Search upward from w for the least r with 100 r^2 >= n. */
  function LeastRootFrom(n: nat, w: nat): (r: nat)
    requires w == 0 || 100 * (w - 1) * (w - 1) < n
    ensures w <= r
    ensures 100 * r * r >= n
    ensures r == 0 || 100 * (r - 1) * (r - 1) < n
    decreases n - w
  {
    if 100 * w * w >= n then w
    else
      assert w <= 100 * w * w;
      LeastRootFrom(n, w + 1)
  }

  /** ceil(damage * 0.1 * sqrt(hp / damage)) in exact arithmetic: the least
      side w with 100 w^2 >= damage * hp. */
  function WoundSize(damage: int, hp: int): (w: nat)
    requires damage >= 1 && hp >= 0
    ensures 100 * w * w >= damage * hp
    ensures w == 0 || 100 * (w - 1) * (w - 1) < damage * hp
  {
    LeastRootFrom(damage * hp, 0)
  }

  lemma SquareMonotone(a: int, b: int)
    requires 0 <= a <= b
    ensures a * a <= b * b
    ensures 100 * a * a <= 100 * b * b
  {
    assert a * a <= a * b <= b * b;
    assert 100 * (a * a) <= 100 * (b * b);
  }

  /** The two bounds pin the wound size down: it is the only such w. */
  lemma WoundSizeUnique(damage: int, hp: int, w: nat)
    requires damage >= 1 && hp >= 0
    requires 100 * w * w >= damage * hp
    requires w == 0 || 100 * (w - 1) * (w - 1) < damage * hp
    ensures WoundSize(damage, hp) == w
  {
    var v := WoundSize(damage, hp);
    if v < w {
      SquareMonotone(v, w - 1);
      assert false;
    } else if v > w {
      SquareMonotone(w, v - 1);
      assert false;
    }
  }

  /** The two worked cases for a character of max HP 100 (size 10): a hit of
      50 makes an 8-pixel wound, a hit of 100 a 10-pixel one. */
  lemma WoundSizeExamples()
    ensures WoundSize(50, 100) == 8
    ensures WoundSize(100, 100) == 10
  {
    WoundSizeUnique(50, 100, 8);
    WoundSizeUnique(100, 100, 10);
  }

  /** Damage of at least max HP always gives a wound as large as the sprite,
      so such a hit takes the lethal branch. */
  lemma LethalWhenDamageAtLeastHp(damage: int, hp: int)
    requires damage >= 1 && hp >= 0 && damage >= hp
    ensures WoundSize(damage, hp) >= CeilDiv(hp, SizeDivisor)
  {
    var w := WoundSize(damage, hp);
    var s := CeilDiv(hp, SizeDivisor);
    if w < s {
      assert 10 * w + 1 <= hp;
      SquareMonotone(10 * w + 1, hp);
      assert hp * hp <= damage * hp by { MulMonotone(hp, damage, hp); }
      assert false;
    }
  }

  /** The caller's random draws: at least `count` corners, each coordinate
      within [0, hi] as `random.randint(0, hi)` returns. */
  predicate ValidDraws(draws: seq<Point>, count: int, hi: int) {
    && |draws| >= count
    && forall k :: 0 <= k < |draws| ==> 0 <= draws[k].x <= hi && 0 <= draws[k].y <= hi
  }

  /** The w-by-w square at corner p already shows some background. */
  ghost predicate Wounded(s: Surface, p: Point, w: int)
    requires IsSquare(s, |s|) && SquareFits(|s|, p.x, p.y, w)
  {
    SquareHasColour(s, p.x, p.y, w, Background)
  }

  /** The placement loop. It consumes draws until one lands on a square with
      no background pixel, or until `checkCount` passes the limit `size`;
      `n` is the number of draws made and `corner` the last one. */
  method PlaceWound(s: Surface, size: nat, w: nat, draws: seq<Point>) returns (corner: Point, n: nat)
    requires IsSquare(s, size) && w <= size
    requires ValidDraws(draws, size + 1, size - w)
    ensures 1 <= n <= size + 1 && corner == draws[n - 1]
    ensures SquareFits(size, corner.x, corner.y, w)
    ensures forall k :: 0 <= k < n - 1 ==> Wounded(s, draws[k], w)
    ensures !Wounded(s, corner, w) || n == size + 1
  {
    var isBackground := true;
    var checkCount := 0;
    n := 0;
    corner := draws[0];
    while isBackground
      invariant 0 <= checkCount <= n <= size + 1
      invariant isBackground ==> checkCount == n && n <= size
      invariant !isBackground ==> 1 <= n && corner == draws[n - 1] && (!Wounded(s, corner, w) || n == size + 1)
      invariant forall k :: 0 <= k < n && (isBackground || k < n - 1) ==> Wounded(s, draws[k], w)
      decreases if isBackground then size + 2 - checkCount else 0
    {
      corner := draws[n];
      n := n + 1;
      RegionHasColour(s, corner.x, corner.y, w, Background);
      isBackground := CheckColourInSurface(Region(s, corner.x, corner.y, w), Background);
      if isBackground {
        checkCount := checkCount + 1;
        if checkCount > size {
          isBackground := false;
        }
      }
    }
  }

  /** `Character.wound` for a damage of at least 1 (the source divides by
      the damage and takes a square root of hp / damage). A wound at least
      as large as the sprite is lethal and leaves the sprite alone; a smaller
      one is painted with background at the corner the placement loop
      settles on, so the background area only grows. A lethal wound sets
      current HP to 0; a placed one lowers it by the damage, stopping at 0.
      `n` is the number of draws consumed. */
  method Wound(c: Character, damage: int, draws: seq<Point>) returns (r: Character, n: nat)
    requires damage >= 1 && c.hp >= 0 && IsSquare(c.surface, c.size)
    requires WoundSize(damage, c.hp) < c.size ==> ValidDraws(draws, c.size + 1, c.size - WoundSize(damage, c.hp))
    ensures r == c.(currHP := r.currHP, surface := r.surface)
    ensures IsSquare(r.surface, c.size)
    ensures WoundSize(damage, c.hp) >= c.size ==> r.currHP == 0 && r.surface == c.surface && n == 0
    ensures WoundSize(damage, c.hp) < c.size ==>
              && (damage > c.currHP ==> r.currHP == 0)
              && (damage <= c.currHP ==> r.currHP == c.currHP - damage)
    ensures WoundSize(damage, c.hp) < c.size ==>
              var ws := WoundSize(damage, c.hp);
              && 1 <= n <= c.size + 1
              && SquareFits(c.size, draws[n - 1].x, draws[n - 1].y, ws)
              && (forall k :: 0 <= k < n - 1 ==> Wounded(c.surface, draws[k], ws))
              && (!Wounded(c.surface, draws[n - 1], ws) || n == c.size + 1)
              && (forall i, j :: 0 <= i < c.size && 0 <= j < c.size ==>
                    r.surface[i][j] == if InSquare(i, j, draws[n - 1].x, draws[n - 1].y, ws) then Background else c.surface[i][j])
    ensures WoundSize(damage, c.hp) < c.size && WoundSize(damage, c.hp) > 0 ==>
              Wounded(r.surface, draws[n - 1], WoundSize(damage, c.hp))
    ensures Covered(c.surface) <= Covered(r.surface)
    ensures WoundSize(damage, c.hp) < c.size ==>
              Covered(r.surface) == Covered(c.surface) + Cells(draws[n - 1].x, draws[n - 1].y, WoundSize(damage, c.hp))
    ensures c.currHP >= 0 ==> 0 <= r.currHP <= c.currHP
    ensures Valid(c) ==> Valid(r)
  {
    var ws := WoundSize(damage, c.hp);
    var hpAfter := c.currHP;
    var surface := c.surface;
    n := 0;
    if ws < c.size {
      var corner;
      corner, n := PlaceWound(c.surface, c.size, ws, draws);
      surface := FillSquare(c.surface, corner.x, corner.y, ws, Background);
      FillCovered(c.surface, corner.x, corner.y, ws);
      FillSquareUniform(c.surface, corner.x, corner.y, ws, Background, Colour(255, 255, 255));
    } else {
      hpAfter := 0;
    }
    if damage > hpAfter {
      hpAfter := 0;
    } else {
      hpAfter := hpAfter - damage;
    }
    r := c.(currHP := hpAfter, surface := surface);
  }
}
