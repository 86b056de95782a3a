/** `Character.attack`: choosing a bullet slot number, choosing the edge the
    bullet leaves from, and building the bullet. */
module Attacks {
  import opened Geometry
  import opened Raster
  import opened Characters

  /** Lifetime, in frames, of a bullet released on death:
      ceil(DEATH_DISTANCE / BULLET_SPEED). */
  const DeathLifetime: int := CeilDiv(DeathDistance, BulletSpeed)

  /** The least number in [i, n] missing from `used`, or n when there is
      none (the `for i in range(1, len + 1)` search with its `break`). */
  function FirstFree(used: set<int>, i: int, n: int): (r: int)
    ensures || (i <= r <= n && r !in used && forall j :: i <= j < r ==> j in used)
            || (r == n && forall j :: i <= j <= n ==> j in used)
    decreases n - i
  {
    if i > n then n
    else if i !in used then i
    else FirstFree(used, i + 1, n)
  }

  /** The slot number of the next bullet: the bullet count when it is free;
      otherwise the least free number in 1..count; otherwise the count
      again. */
  function BulletNum(count: nat, used: set<int>): (r: int)
    ensures r >= 0
    ensures count !in used ==> r == count
    ensures count in used && (exists i :: 1 <= i <= count && i !in used) ==>
              1 <= r <= count && r !in used && forall j :: 1 <= j < r ==> j in used
    ensures count in used && (forall i :: 1 <= i <= count ==> i in used) ==> r == count
  {
    if count !in used then count else FirstFree(used, 1, count)
  }

  /** The slot numbers in use are exactly 0 .. |bullets| - 1. */
  ghost predicate SlotsDense(c: Character) {
    forall i :: i in c.bulletNumsUsed <==> 0 <= i < |c.bullets|
  }

  /** A new character has no bullets and no used numbers, so its slots are
      dense; together with `Attack` preserving density, the reuse search of
      `BulletNum` is never entered and every bullet gets a fresh number. */
  lemma NewCharacterSlotsDense(name: string, speedFactor: int, damageFactor: int, hpFactor: int,
                               colour: Colour, position: Point, melee: bool, lifetime: int)
    requires hpFactor >= 0
    ensures SlotsDense(NewCharacter(name, speedFactor, damageFactor, hpFactor, colour, position, melee, lifetime))
  {
  }

  /** Index of the edge midpoint closest to `target`, scanning top, right,
      bottom, left and replacing the current choice only on a strictly
      smaller distance, so ties go to the earlier edge. */
  method NearestEdge(mids: seq<Point>, target: Point) returns (e: nat)
    requires |mids| == 4
    ensures e < 4
    ensures forall j :: 0 <= j < 4 ==> Dist2(mids[e], target) <= Dist2(mids[j], target)
    ensures forall j :: 0 <= j < e ==> Dist2(mids[e], target) < Dist2(mids[j], target)
  {
    e := 0;
    var i := 1;
    while i < 4
      invariant 1 <= i <= 4 && e < i
      invariant forall j :: 0 <= j < i ==> Dist2(mids[e], target) <= Dist2(mids[j], target)
      invariant forall j :: 0 <= j < e ==> Dist2(mids[e], target) < Dist2(mids[j], target)
    {
      if Dist2(mids[i], target) < Dist2(mids[e], target) {
        e := i;
      }
      i := i + 1;
    }
  }

  /** Top-left corner of a b-by-b bullet leaving through midpoint `m` of
      edge `edge` (0 top, 1 right, 2 bottom, 3 left): the bullet touches the
      edge from outside and is centred on the midpoint, rounding up. */
  function SpawnPosition(m: Point, edge: int, b: int): (p: Point)
    requires 0 <= edge < 4
    ensures edge == 0 ==> p.y + b == m.y && HalfUp(m.x - p.x, b)
    ensures edge == 1 ==> p.x == m.x && HalfUp(m.y - p.y, b)
    ensures edge == 2 ==> p.y == m.y && HalfUp(m.x - p.x, b)
    ensures edge == 3 ==> p.x + b == m.x && HalfUp(m.y - p.y, b)
  {
    var h := CeilDiv(b, 2);
    if edge == 0 then Point(m.x - h, m.y - b)
    else if edge == 1 then Point(m.x, m.y - h)
    else if edge == 2 then Point(m.x - h, m.y)
    else Point(m.x - b, m.y - h)
  }

  /** The bullet fired from edge `edge` with slot number `num`: it carries
      the caster's damage as both damage and HP factor (so its side equals
      the damage), is built as melee, and is harmful with unlimited lifetime
      unless it is a death bullet, which is harmless and lives
      `DeathLifetime` frames. */
  function MakeBullet(c: Character, num: nat, edge: int, target: Point, isDeath: bool): (b: Bullet)
    requires c.damage >= 0 && |c.midpoints| == 4 && 0 <= edge < 4
    ensures b.aim == target
    ensures b.body.position == SpawnPosition(c.midpoints[edge], edge, c.damage)
    ensures b.body.name == c.name + "Bullet" + NatToString(num)
    ensures Valid(b.body) && b.body.melee
    ensures b.body.speed == BulletSpeed && b.body.damage == c.damage
    ensures b.body.hp == b.body.currHP == c.damage * BaseHp && b.body.size == c.damage
    ensures b.body.colour == c.colour && b.body.bullets == []
    ensures b.body.isAttacking == !isDeath
    ensures b.body.lifetime == (if isDeath then 10000 else -1)
  {
    var bulletDamage := c.damage / BaseDamage;
    var bulletHP := bulletDamage;
    var bulletSize := CeilDiv(bulletHP * BaseHp, SizeDivisor);
    CeilDivUnique(bulletHP * BaseHp, SizeDivisor, bulletHP);
    var position := SpawnPosition(c.midpoints[edge], edge, bulletSize);
    var lifetime := if isDeath then DeathLifetime else -1;
    var body := NewCharacter(c.name + "Bullet" + NatToString(num), BulletSpeed, bulletDamage, bulletHP,
                             c.colour, position, true, lifetime);
    Bullet(body.(isAttacking := !isDeath), target)
  }

  /** `attack(target, isDeath)`. A melee character attacking outside death
      does nothing. Otherwise exactly one bullet is appended, the slot number
      chosen by `BulletNum` is recorded as used, and the bullet leaves from
      the edge midpoint nearest the target. `num` and `edge` report the slot
      and edge chosen. */
  method Attack(c: Character, target: Point, isDeath: bool) returns (r: Character, num: int, edge: nat)
    requires c.damage >= 0 && |c.midpoints| == 4
    ensures c.melee && !isDeath ==> r == c
    ensures !c.melee || isDeath ==>
              && num == BulletNum(|c.bullets|, c.bulletNumsUsed)
              && |r.bullets| == |c.bullets| + 1 && r.bullets[..|c.bullets|] == c.bullets
              && r.bulletNumsUsed == c.bulletNumsUsed + {num}
              && r == c.(bullets := r.bullets, bulletNumsUsed := r.bulletNumsUsed)
    ensures !c.melee || isDeath ==>
              && edge < 4
              && (forall j :: 0 <= j < 4 ==> Dist2(c.midpoints[edge], target) <= Dist2(c.midpoints[j], target))
              && (forall j :: 0 <= j < edge ==> Dist2(c.midpoints[edge], target) < Dist2(c.midpoints[j], target))
              && r.bullets[|c.bullets|] == MakeBullet(c, num, edge, target, isDeath)
    ensures SlotsDense(c) ==> SlotsDense(r) && (!c.melee || isDeath ==> num == |c.bullets|)
  {
    r, num, edge := c, 0, 0;
    if !c.melee || isDeath {
      num := BulletNum(|c.bullets|, c.bulletNumsUsed);
      edge := NearestEdge(c.midpoints, target);
      var bullet := MakeBullet(c, num, edge, target, isDeath);
      r := c.(bullets := c.bullets + [bullet], bulletNumsUsed := c.bulletNumsUsed + {num});
      assert r.bullets[..|c.bullets|] == c.bullets;
    }
  }
}
