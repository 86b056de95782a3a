# Character model of the Game-Concept prototype

A Dafny model of the integer and grid logic of the `Character` class in
`game.py`: the sprite scan `checkColourInSurface`, the HP/size derivation
and the HP setters, the `wound` algorithm (wound size, bounded random
placement, background fill, HP update), and the slot/edge/flag logic of
`attack`.

The pygame `Surface` becomes a `seq<seq<Colour>>` indexed `[x][y]`
(`Raster.Surface`). `BACKGROUND` is `Colour(0, 0, 0)`. Every value of
`random.randint` becomes an input: `Wounds.Wound` takes the sequence of
corners the retry loop would draw. A rescaled sprite (`pygame.transform.scale`)
is passed in by the caller of `SetHP` / `IncrementHP`. Float arithmetic is
replaced by exact integer arithmetic:

- `ceil(0.1 * hp)` is `CeilDiv(hp, 10)`.
- The wound size `ceil(damage * 0.1 * sqrt(hp / damage))` is the least `w` with
  `100 * w * w >= damage * hp`.
- `findDistance` comparisons are comparisons of squared distances.

A bullet's float velocity is replaced by the point it was aimed at.

Modules:

- `Geometry`: points, `CeilDiv`, squared distance.
- `Raster`: colours, surfaces, the colour scan, square sub-views and fills.
- `Characters`: the record, its invariant, the constructor, the HP and size setters, `str` of a number.
- `Wounds`: `wound`.
- `Attacks`: `attack`.

Behaviour of the code that is easy to misread, which the model follows:

- The placement loop allows `size + 1` draws, not `size`. `checkCount` must
  exceed `checkLimit = size` before the last draw is accepted.
- A damage of 0 is not a no-op. The source divides by it and raises. `Wound`
  therefore requires `damage >= 1`.
- Slot reuse searches `1..len(bullets)` only when `len(bullets)` is taken, so
  slot 0 is never reused. Slots are dense from construction onwards as long as
  no call of `attack` has raised, so along such runs the reuse search is never
  entered at all (`Attacks.Attack`, last ensures). An `attack` that raises
  after recording its slot (see `Attack` under "Left out") breaks the density.

## Model

| member | source | states |
|---|---|---|
| Raster.CheckColourInSurface | game.py:30-51 | Returns true exactly when some pixel of the surface has the colour. The early `break`s do not change the answer, and an empty surface gives false. |
| Raster.Blank | game.py:96-97 | A new sprite is an n-by-n grid in which every pixel has the fill colour. |
| Raster.Region | game.py:288-291 | The subsurface at (x, y) is a w-by-w grid whose pixel (i, j) is the parent's pixel (x+i, y+j). |
| Raster.RegionHasColour | game.py:288-292 | Scanning the subsurface finds a colour exactly when the square of the parent surface holds it. |
| Raster.FillSquare | game.py:303-305 | The wound blit paints every pixel of the square with the colour and leaves every pixel outside the square unchanged. The grid keeps its shape. |
| Raster.FillCovered | game.py:303-305 | After a background fill, the background area is the old area plus exactly the square's cells, so wounds are cumulative. |
| Raster.FillSquareUniform | game.py:303-305 | After the fill, the square contains no pixel of any other colour. A non-empty square contains the fill colour. |
| Geometry.CeilDiv | game.py:95 | `math.ceil(a / b)` for b > 0: the q with (q-1)·b < a ≤ q·b. |
| Geometry.CeilDivUnique | game.py:95 | Any q in that bracket is the ceiling, so two ceiling formulas can be compared by their brackets. |
| Geometry.Dist2 | game.py:4-10 | The squared distance is non-negative and zero only for equal points. |
| Geometry.DistanceOrder | game.py:360-361 | Non-negative square roots of two squared distances compare as the squared distances do. Choosing by `Dist2` is therefore choosing by `findDistance`. |
| Characters.Midpoints | game.py:113-121 | The four midpoints lie on the top, right, bottom and left edges of the sprite box. Each is offset from the box corner by half the side, rounded up. |
| Characters.NewCharacter | game.py:80-121 | Construction gives max and current HP of 10·factor and a sprite side equal to the HP factor. The sprite is filled with the colour and the character is `Valid`. Midpoints are on the edges. There are no bullets, no used numbers, no attack flag and `currLife` is 0. |
| Characters.SetCurrHP | game.py:198-203 | Current HP becomes the smaller of max HP and 10·argument, and nothing else changes. A non-negative argument keeps the character valid. |
| Characters.IncrementCurrHP | game.py:204-209 | Current HP becomes the smaller of max HP and current HP + 10. It never passes max HP and never drops for a valid character. |
| Characters.SetHPAsWritten | game.py:189-191 | `setHP` as written: max HP becomes 10·argument and the size is re-derived to ceil(hp/10). The sprite is replaced by the rescaled one and current HP is untouched. |
| Characters.SetHPAsWrittenExceedsMax | game.py:189-191 | Lowering max HP below current HP with the as-written setter leaves current HP above max HP, which breaks `Valid`. |
| Characters.SetHPAsWrittenExample | game.py:189-191 | Concrete case: HP factor 2, then `setHP(1)`, leaves max HP 10 with current HP 20. |
| Characters.SetHP | game.py:189-191 | Corrected `setHP`: the same derivation, with current HP clamped to the new max HP. It keeps `Valid`. |
| Characters.IncrementSizeAgrees | game.py:179-184 | `_incrementSize`'s size + 1 equals `_setSize`'s ceil((hp + 10)/10) whenever size = ceil(hp/10). |
| Characters.IncrementHP | game.py:192-194 | `incrementHP` adds 10 to max HP and one pixel to the side for every character, and keeps the size derivation (`Valid`). |
| Characters.NatToString | game.py:374 | `str(bulletNum)` is a non-empty string of decimal digits with no leading zero; 0 is written as the single digit "0". |
| Characters.NatToStringRoundTrip | game.py:374 | Reading the decimal text back gives the number. |
| Wounds.LeastRootFrom | game.py:267-270 | The upward search returns the least r ≥ its start with 100·r² ≥ n. |
| Wounds.WoundSize | game.py:267-270 | The wound side is the least w with 100·w² ≥ damage·hp, which is ceil(damage·0.1·sqrt(hp/damage)). |
| Wounds.WoundSizeUnique | game.py:267-270 | The two bounds determine the wound size uniquely. |
| Wounds.WoundSizeExamples | game.py:267-274 | For max HP 100 (size 10), damage 50 gives a wound side of 8 (placed) and damage 100 gives 10 (lethal). |
| Wounds.LethalWhenDamageAtLeastHp | game.py:267-274 | Damage of at least max HP always gives a wound at least as large as the sprite, so the hit takes the lethal branch. |
| Wounds.PlaceWound | game.py:279-300 | The retry loop makes between 1 and size+1 draws and accepts the last draw, which lies inside the sprite. Every rejected draw hit a square that already had background. The accepted square has no background unless the budget ran out. |
| Wounds.Wound | game.py:255-312 | Lethal branch (wound ≥ size): current HP becomes 0, the sprite is unchanged and no draw is used. Otherwise current HP becomes 0 if damage > current HP, else current HP − damage. The placed square becomes background (so a non-empty one counts as wounded afterwards), every other pixel is unchanged, and the background area grows by exactly that square. Current HP never rises, never goes negative, and `Valid` is kept. |
| Attacks.FirstFree | game.py:339-342 | The search returns the least number in [i, n] missing from the used set, or n when every number there is used. |
| Attacks.BulletNum | game.py:337-343 | The slot is `len(bullets)` when it is free. Otherwise it is the least free number in 1..len(bullets). If there is none, it stays `len(bullets)`. |
| Attacks.NewCharacterSlotsDense | game.py:108-109 | A new character's used slot numbers are exactly 0..len(bullets)−1, vacuously. |
| Attacks.NearestEdge | game.py:353-362 | The chosen edge is at minimum squared distance to the target among the four midpoints, and every earlier edge is strictly farther (ties go to the earlier edge). |
| Attacks.SpawnPosition | game.py:358-371 | The bullet square touches the chosen edge from outside and is centred on the midpoint, offset by ceil(b/2) along the edge. |
| Attacks.MakeBullet | game.py:345-400 | The bullet has the caster's damage as damage and side, 10·damage HP, speed 1, the caster's colour, `melee = True` and no bullets. Its name is name + "Bullet" + str(num), and it is `Valid`. An ordinary bullet has `isAttacking = True` and lifetime −1. A death bullet has `isAttacking = False` and lifetime 10000. |
| Attacks.Attack | game.py:329-400 | A melee attack outside death changes nothing. Otherwise exactly one bullet is appended after the old ones, its slot number is added to the used set, and it leaves from the nearest edge. Nothing else changes. Dense slots stay dense, and the slot is then always `len(bullets)`. |

## Left out

- `update`, `_die` and `_explode` (game.py:402-429) are not modelled. Stepping bullets in `update` uses the undefined global `surface` (game.py:408). `_explode` draws its piece count (4..12) and targets at random. Both mutate the global registry.
- The `Character.characters` registry (game.py:78, 124, 381, 429) is process-wide state, so the model has none.
- `render` (game.py:163-174), `setColour` (game.py:213-219) and the main loop (game.py:431-456) are pygame display and event calls.
- `_setSurface`'s `pygame.transform.scale` (game.py:161-162) is a foreign call. The rescaled grid is a parameter of `SetHP`, `SetHPAsWritten` and `IncrementHP`.
- `normalizeVector`, `step`, `stepDestination` and the bullet velocity (game.py:12-28, 229-253, 387-390) are float vector maths. The velocity is replaced by the aim point.
- `setPosition` (game.py:223-228) adds the new position onto already absolute midpoints. Midpoints are modelled as built by the constructor only.
- `__str__`, the getters, `setSpeed`/`incrementSpeed`/`setDamage`/`incrementDamage`, `setMelee`/`toggleMelee`/`setIsAttacking`/`setLifetime` are trivial assignments.
- Factors are integers. Fractional speed, damage or HP factors, and the float rounding of `0.1 * hp`, of `sqrt` and of `findDistance`, are replaced by exact arithmetic.
- Wound: requires damage ≥ 1 and max HP ≥ 0, so damage ≤ 0 is excluded. The source raises for every such damage except one case: a division by zero for damage 0, and a math domain error in `sqrt` for negative damage on positive max HP. The exception is max HP 0 with negative damage. Then `0 / damage` is `-0.0`, `sqrt(-0.0)` is `-0.0`, and the wound size is 0, which is not below size 0. The lethal branch sets current HP to 0, and `currHP -= damage` then leaves it at −damage, above max HP 0 (game.py:267-312). That completed case is not modelled. `WoundSize` and `LeastRootFrom` carry the same requirement.
- Wound: requires `size + 1` in-range draws whenever the wound is placed; these stand for the `random.randint` results.
- SetHP / SetHPAsWritten: require a non-negative HP factor. For a negative factor the source assigns `self.hp` (game.py:190) and `self.size` (game.py:180), and only then does `pygame.transform.scale` raise ValueError (game.py:162). That leaves the character half-updated, with the new max HP and size but the old surface. This error path is not modelled.
- NewCharacter: requires a non-negative HP factor, because pygame refuses a negative surface size.
- Attack: requires non-negative damage (the bullet's surface size) and the four midpoints every constructed character has. For negative damage the source records the slot number (game.py:343) and then raises in the bullet's constructor, where `pygame.Surface` refuses the negative size (game.py:96). That error path is not modelled.
- Attack: always completes, but the source raises ZeroDivisionError in `normalizeVector` (game.py:23-27, called at game.py:388-390) when the target is exactly the bullet's spawn corner. By then the slot number is recorded (game.py:343) and the bullet is in the class registry (game.py:124), but it is not appended to `bullets` (game.py:395), so the used numbers run ahead of the bullets. `_explode` (game.py:420-424) can pick such a target whenever the bullet side is at most 5: for HP factor 10 at (100, 100) and damage 5, the target (102, 95) is the top-edge spawn corner. Where the source raises, the model appends a bullet aimed at its own corner.

## Findings

| source | as written | input that shows it | evidently intended | confidence | as-written member | corrected member |
|---|---|---|---|---|---|---|
| game.py:189-191 | `setHP` re-derives max HP and size but never clamps `currHP`, so `currHP` can exceed max HP. A later `incrementCurrHP` then lowers HP. | A character built with HP factor 2 (max and current HP 20), then `setHP(1)`: max HP 10, current HP 20. | Current HP clamped to the new maximum, as `setCurrHP` and `incrementCurrHP` do. | medium, not executed | Characters.SetHPAsWritten (shown by Characters.SetHPAsWrittenExample) | Characters.SetHP |
