/** The `Character` record of game.py: its integer statistics, its sprite
    grid and the HP/size derivations that keep them consistent. */
module Characters {
  import opened Geometry
  import opened Raster

  // Multipliers that turn the constructor's factors into game values.
  const BaseSpeed: int := 1
  const BaseDamage: int := 1
  const BaseHp: int := 10
  /** `BASE_SIZE` is 0.1 pixels per HP point: size = ceil(hp / SizeDivisor). */
  const SizeDivisor: int := 10
  const BulletSpeed: int := 1
  const DeathDistance: int := 10000

  /** A character or a bullet (the source uses one class for both). The
      bullet velocity of the source is a normalised float vector; the model
      keeps the aim point it is derived from. */
  datatype Character = Character(
    name: string,
    speed: int,
    damage: int,
    hp: int,
    currHP: int,
    colour: Colour,
    position: Point,
    melee: bool,
    lifetime: int,
    currLife: int,
    size: int,
    surface: Surface,
    isAttacking: bool,
    bullets: seq<Bullet>,
    bulletNumsUsed: set<int>,
    midpoints: seq<Point>)

  /** A fired bullet and the point it was aimed at. */
  datatype Bullet = Bullet(body: Character, aim: Point)

  /** The invariants the class keeps: size derived from max HP, a square
      sprite of that size, current HP within [0, max HP], four midpoints. */
  predicate Valid(c: Character) {
    && c.hp >= 0
    && c.size == CeilDiv(c.hp, SizeDivisor)
    && IsSquare(c.surface, c.size)
    && 0 <= c.currHP <= c.hp
    && |c.midpoints| == 4
  }

  /** d is half of n, rounded up. */
  predicate HalfUp(d: int, n: int) {
    2 * d == n || 2 * d == n + 1
  }

  /** `m` holds the midpoints of the top, right, bottom and left edges of the
      n-by-n box at `p`, each rounded towards the far end of its edge. */
  predicate EdgeMidpoints(m: seq<Point>, p: Point, n: int) {
    && |m| == 4
    && m[0].y == p.y && HalfUp(m[0].x - p.x, n)
    && m[1].x == p.x + n && HalfUp(m[1].y - p.y, n)
    && m[2].y == p.y + n && HalfUp(m[2].x - p.x, n)
    && m[3].x == p.x && HalfUp(m[3].y - p.y, n)
  }

  /** The midpoint list built in the constructor, already offset by the
      position. */
  function Midpoints(p: Point, n: int): (m: seq<Point>)
    ensures EdgeMidpoints(m, p, n)
  {
    var h := CeilDiv(n, 2);
    [Point(p.x + h, p.y), Point(p.x + n, p.y + h), Point(p.x + h, p.y + n), Point(p.x, p.y + h)]
  }

  /** The constructor. The HP factor becomes max and current HP, the sprite
      side is ceil(hp / 10) and the sprite is filled with the colour. */
  function NewCharacter(name: string, speedFactor: int, damageFactor: int, hpFactor: int,
                        colour: Colour, position: Point, melee: bool, lifetime: int): (c: Character)
    requires hpFactor >= 0
    ensures Valid(c)
    ensures c.hp == c.currHP == hpFactor * BaseHp
    ensures c.size == hpFactor
    ensures c.speed == speedFactor && c.damage == damageFactor
    ensures forall i, j :: 0 <= i < c.size && 0 <= j < c.size ==> c.surface[i][j] == colour
    ensures EdgeMidpoints(c.midpoints, position, c.size)
    ensures c.bullets == [] && c.bulletNumsUsed == {}
    ensures !c.isAttacking && c.currLife == 0 && c.lifetime == lifetime
    ensures c.name == name && c.colour == colour && c.position == position && c.melee == melee
  {
    var hp := hpFactor * BaseHp;
    var size := CeilDiv(hp, SizeDivisor);
    CeilDivUnique(hp, SizeDivisor, hpFactor);
    Character(name, speedFactor * BaseSpeed, damageFactor * BaseDamage, hp, hp, colour, position,
              melee, lifetime, 0, size, Blank(size, colour), false, [], {}, Midpoints(position, size))
  }

  /** `setCurrHP`: the new current HP is the requested amount, capped at max
      HP; nothing else changes. */
  function SetCurrHP(c: Character, hpFactor: int): (r: Character)
    ensures r == c.(currHP := r.currHP)
    ensures r.currHP <= c.hp && r.currHP <= hpFactor * BaseHp
    ensures r.currHP == c.hp || r.currHP == hpFactor * BaseHp
    ensures Valid(c) && hpFactor >= 0 ==> Valid(r)
  {
    var newHP := hpFactor * BaseHp;
    if newHP > c.hp then c.(currHP := c.hp) else c.(currHP := newHP)
  }

  /** `incrementCurrHP`: heals by one base unit without passing max HP. */
  function IncrementCurrHP(c: Character): (r: Character)
    ensures r == c.(currHP := r.currHP)
    ensures r.currHP <= c.hp && r.currHP <= c.currHP + BaseHp
    ensures r.currHP == c.hp || r.currHP == c.currHP + BaseHp
    ensures Valid(c) ==> Valid(r) && c.currHP <= r.currHP
  {
    var newHP := c.currHP + BaseHp;
    if newHP > c.hp then c.(currHP := c.hp) else c.(currHP := newHP)
  }

  /** `setHP` followed by `_setSize`, exactly as written: max HP and size are
      re-derived and the sprite is replaced by its rescaled copy `scaled`,
      but current HP is left alone. */
  function SetHPAsWritten(c: Character, hpFactor: int, scaled: Surface): (r: Character)
    requires hpFactor >= 0 && IsSquare(scaled, hpFactor)
    ensures r == c.(hp := r.hp, size := r.size, surface := scaled)
    ensures r.hp == hpFactor * BaseHp && r.size == hpFactor
    ensures r.size == CeilDiv(r.hp, SizeDivisor)
  {
    var hp := hpFactor * BaseHp;
    CeilDivUnique(hp, SizeDivisor, hpFactor);
    c.(hp := hp, size := CeilDiv(hp, SizeDivisor), surface := scaled)
  }

  /** Lowering max HP below current HP with the as-written setter leaves
      current HP above the new maximum, so the result breaks `Valid`. */
  lemma SetHPAsWrittenExceedsMax(c: Character, hpFactor: int, scaled: Surface)
    requires Valid(c) && hpFactor >= 0 && IsSquare(scaled, hpFactor)
    requires hpFactor * BaseHp < c.currHP
    ensures SetHPAsWritten(c, hpFactor, scaled).currHP > SetHPAsWritten(c, hpFactor, scaled).hp
    ensures !Valid(SetHPAsWritten(c, hpFactor, scaled))
  {
  }

  /** A concrete case: a character built with HP factor 2 (max and current
      HP 20) given `setHP(1)` ends with max HP 10 and current HP 20. */
  lemma SetHPAsWrittenExample()
    ensures var c := NewCharacter("a", 1, 1, 2, Colour(255, 0, 0), Point(0, 0), true, -1);
            var r := SetHPAsWritten(c, 1, Blank(1, Colour(255, 0, 0)));
            r.hp == 10 && r.currHP == 20 && !Valid(r)
  {
    var c := NewCharacter("a", 1, 1, 2, Colour(255, 0, 0), Point(0, 0), true, -1);
    assert c.currHP == 20;
    SetHPAsWrittenExceedsMax(c, 1, Blank(1, Colour(255, 0, 0)));
  }

  /** `setHP` with current HP clamped to the new maximum, as `setCurrHP` and
      `incrementCurrHP` clamp it. */
  function SetHP(c: Character, hpFactor: int, scaled: Surface): (r: Character)
    requires hpFactor >= 0 && IsSquare(scaled, hpFactor)
    ensures r == c.(hp := r.hp, size := r.size, surface := scaled, currHP := r.currHP)
    ensures r.hp == hpFactor * BaseHp && r.size == hpFactor
    ensures r.currHP <= r.hp && r.currHP <= c.currHP
    ensures r.currHP == c.currHP || r.currHP == r.hp
    ensures Valid(c) ==> Valid(r)
  {
    var w := SetHPAsWritten(c, hpFactor, scaled);
    if c.currHP > w.hp then w.(currHP := w.hp) else w
  }

  /** Adding one base unit of HP grows the derived size by exactly one pixel,
      so `_incrementSize`'s ceil(size + 0.1) agrees with ceil(hp / 10). */
  lemma IncrementSizeAgrees(hp: int)
    ensures CeilDiv(hp + BaseHp, SizeDivisor) == CeilDiv(hp, SizeDivisor) + 1
  {
    var q := CeilDiv(hp, SizeDivisor);
    CeilDivUnique(hp + BaseHp, SizeDivisor, q + 1);
  }

  /** `incrementHP` followed by `_incrementSize`: one more base unit of max
      HP and one more pixel of side, with the sprite rescaled to `scaled`. */
  function IncrementHP(c: Character, scaled: Surface): (r: Character)
    requires IsSquare(scaled, c.size + 1)
    ensures r == c.(hp := r.hp, size := r.size, surface := scaled)
    ensures r.hp == c.hp + BaseHp && r.size == c.size + 1
    ensures Valid(c) ==> Valid(r)
  {
    IncrementSizeAgrees(c.hp);
    c.(hp := c.hp + BaseHp, size := c.size + 1, surface := scaled)
  }

  function DigitChar(d: int): char
    requires 0 <= d < 10
  {
    "0123456789"[d]
  }

  function DigitValue(ch: char): int {
    ch as int - '0' as int
  }

  /** Python's `str` of a non-negative integer: decimal digits, no leading
      zero. */
  function NatToString(n: nat): (s: string)
    ensures |s| >= 1 && (s[0] == '0' ==> n == 0 && |s| == 1)
    ensures forall k :: 0 <= k < |s| ==> '0' <= s[k] <= '9'
  {
    if n < 10 then [DigitChar(n)] else NatToString(n / 10) + [DigitChar(n % 10)]
  }

  /** Reads a string of decimal digits back as a number. */
  function ParseNat(s: string): int {
    if |s| == 0 then 0 else 10 * ParseNat(s[..|s| - 1]) + DigitValue(s[|s| - 1])
  }

  lemma DigitRoundTrip(d: int)
    requires 0 <= d < 10
    ensures DigitValue(DigitChar(d)) == d
  {
  }

  /** Reading back the decimal text of n gives n. */
  lemma {:induction false} NatToStringRoundTrip(n: nat)
    ensures ParseNat(NatToString(n)) == n
  {
    var s := NatToString(n);
    if n < 10 {
      DigitRoundTrip(n);
      assert s[..0] == [];
    } else {
      var p := NatToString(n / 10);
      assert s == p + [DigitChar(n % 10)];
      assert s[..|s| - 1] == p;
      NatToStringRoundTrip(n / 10);
      DigitRoundTrip(n % 10);
      assert ParseNat(s) == 10 * (n / 10) + n % 10;
    }
  }
}
