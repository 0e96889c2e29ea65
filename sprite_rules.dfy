/**
 * The rules each sprite of the shooter follows on its own, stated on values:
 * the player's movement, clamp and fire cooldown, an enemy's descent and
 * recycling, a bullet's ascent. The classes in module Sprites are proved to
 * follow these functions; the lemmas here say what the rules guarantee.
 */
module SpriteRules {
  import opened Geometry

  const WIDTH := 800
  const HEIGHT := 600

  /** The player's bottom edge sits this far above the bottom of the screen. */
  const PLAYER_MARGIN := 10
  const PLAYER_SPEED := 5
  const SHOOT_DELAY := 250

  /** An enemy is recycled once its top edge is more than this far below the screen. */
  const RECYCLE_MARGIN := 10
  const SPAWN_MIN_Y := -100
  const SPAWN_MAX_Y := -40
  const MIN_ENEMY_SPEED := 1
  const MAX_ENEMY_SPEED := 3

  const BULLET_SPEED := -10

  /** The pixel sizes of the three sprite images; every rectangle of a kind has its image's size. */
  datatype Sizes = Sizes(playerW: nat, playerH: nat, enemyW: nat, enemyH: nat, bulletW: nat, bulletH: nat)

  /** Images the game can run with: an enemy position can only be drawn when
      an enemy fits across the screen, and the player keeps on screen only
      when it fits too. */
  predicate ValidSizes(z: Sizes) {
    z.playerW <= WIDTH && z.enemyW <= WIDTH
  }

  // ---------------------------------------------------------------- Player

  datatype PlayerState = PlayerState(rect: Rect, speed: int, shootDelay: int, lastShot: int)

  /** A fresh player: centred horizontally, bottom edge 10 px above the bottom of
      the screen, last shot at the creation time `now`. */
  function NewPlayer(w: nat, h: nat, now: int): (p: PlayerState)
    ensures p.rect.CenterX() == WIDTH / 2 && p.rect.Bottom() == HEIGHT - PLAYER_MARGIN
    ensures p.rect.w == w && p.rect.h == h
    ensures p.speed == PLAYER_SPEED && p.shootDelay == SHOOT_DELAY && p.lastShot == now
  {
    PlayerState(WithBottom(WithCenterX(Rect(0, 0, w, h), WIDTH / 2), HEIGHT - PLAYER_MARGIN),
                PLAYER_SPEED, SHOOT_DELAY, now)
  }

  /** The horizontal position after applying the held arrow keys: Left first
      moves left by `speed`, then Right moves right by `speed`. */
  function Shifted(x: int, speed: int, left: bool, right: bool): int {
    var afterLeft := if left then x - speed else x;
    if right then afterLeft + speed else afterLeft
  }

  /** The keep-on-screen clamp: first the left edge is raised to 0, then the right
      edge is lowered to the screen width. When the sprite fits, the result is the
      on-screen position nearest to `x`; when it is wider than the screen the
      second assignment wins and its left edge ends up off screen. */
  function Clamped(x: int, w: nat): (r: int)
    ensures w <= WIDTH ==> 0 <= r && r + w <= WIDTH
    ensures 0 <= x && x + w <= WIDTH ==> r == x
    ensures x < 0 && w <= WIDTH ==> r == 0
    ensures x + w > WIDTH ==> r == WIDTH - w
  {
    var raised := if x < 0 then 0 else x;
    if raised + w > WIDTH then WIDTH - w else raised
  }

  /** One `update` of the player: shift by the held keys, then clamp. */
  function PlayerMoved(p: PlayerState, left: bool, right: bool): PlayerState {
    p.(rect := p.rect.(x := Clamped(Shifted(p.rect.x, p.speed, left, right), p.rect.w)))
  }

  /** Before the clamp the player moves by -speed, +speed, or not at all when
      neither or both arrow keys are held. */
  lemma ShiftedByKeys(x: int, speed: int, left: bool, right: bool)
    ensures Shifted(x, speed, left, right) ==
            if left == right then x else if left then x - speed else x + speed
  {
  }

  /** After an update a player that fits the screen lies on it, and only its
      horizontal position has changed. */
  lemma PlayerStaysOnScreen(p: PlayerState, left: bool, right: bool)
    requires p.rect.w <= WIDTH
    ensures var q := PlayerMoved(p, left, right);
      0 <= q.rect.Left() && q.rect.Right() <= WIDTH &&
      q.rect.y == p.rect.y && q.rect.w == p.rect.w && q.rect.h == p.rect.h &&
      q.speed == p.speed && q.shootDelay == p.shootDelay && q.lastShot == p.lastShot
  {
  }

  /** The player's cooldown gate: strictly more than `shootDelay` ms since the last shot. */
  predicate CanShoot(p: PlayerState, now: int) {
    now - p.lastShot > p.shootDelay
  }

  /** A new bullet: its centre column is `cx` and its bottom edge is `bottom`. */
  function BulletAt(cx: int, bottom: int, w: nat, h: nat): (b: Rect)
    ensures b.CenterX() == cx && b.Bottom() == bottom && b.w == w && b.h == h
  {
    WithBottom(WithCenterX(Rect(0, 0, w, h), cx), bottom)
  }

  /** What a `shoot` at time `now` produces: the new player state and the bullets
      it fires (none or one). */
  datatype Shot = Shot(player: PlayerState, fired: seq<Rect>)

  function Shoot(p: PlayerState, now: int, bulletW: nat, bulletH: nat): Shot {
    if CanShoot(p, now) then
      Shot(p.(lastShot := now), [BulletAt(p.rect.CenterX(), p.rect.Top(), bulletW, bulletH)])
    else
      Shot(p, [])
  }

  /** `shoot` fires exactly one bullet, from the player's top-centre, and records
      the time if and only if the cooldown has elapsed; otherwise nothing changes. */
  lemma ShootSpec(p: PlayerState, now: int, bulletW: nat, bulletH: nat)
    ensures var s := Shoot(p, now, bulletW, bulletH);
      (|s.fired| == 1 <==> CanShoot(p, now)) && (|s.fired| == 0 <==> !CanShoot(p, now)) &&
      s.player == (if CanShoot(p, now) then p.(lastShot := now) else p) &&
      forall b :: b in s.fired ==>
        b.CenterX() == p.rect.CenterX() && b.Bottom() == p.rect.Top() && b.w == bulletW && b.h == bulletH
  {
  }

  /** The gate is strict: a shot exactly one delay after the last one is refused,
      one millisecond later it fires. */
  lemma CooldownIsStrict(p: PlayerState, bulletW: nat, bulletH: nat)
    ensures Shoot(p, p.lastShot + p.shootDelay, bulletW, bulletH).fired == []
    ensures |Shoot(p, p.lastShot + p.shootDelay + 1, bulletW, bulletH).fired| == 1
  {
  }

  // ---------------------------------------------------------------- Enemy

  datatype EnemyState = EnemyState(rect: Rect, speedY: int)

  /** One draw of the three random integers an enemy takes when it is created or
      recycled: a column, a row and a falling speed. */
  datatype Spawn = Spawn(x: int, y: int, speedY: int)

  /** The ranges of those draws for an enemy of width `w`. */
  predicate ValidSpawn(d: Spawn, w: nat) {
    0 <= d.x <= WIDTH - w &&
    SPAWN_MIN_Y <= d.y <= SPAWN_MAX_Y &&
    MIN_ENEMY_SPEED <= d.speedY <= MAX_ENEMY_SPEED
  }

  /** The state a new enemy starts in: the draw's column, row and speed, with the
      enemy image's size. */
  function NewEnemy(d: Spawn, w: nat, h: nat): EnemyState {
    EnemyState(Rect(d.x, d.y, w, h), d.speedY)
  }

  /** One `update` of an enemy: fall by its speed; once the top edge is more than
      RECYCLE_MARGIN below the screen, take the fresh draw `d` in place. */
  function EnemyAdvance(e: EnemyState, d: Spawn): EnemyState {
    var fallen := e.rect.(y := e.rect.y + e.speedY);
    if fallen.Top() > HEIGHT + RECYCLE_MARGIN then
      EnemyState(fallen.(x := d.x, y := d.y), d.speedY)
    else
      e.(rect := fallen)
  }

  /** The state every enemy keeps: its image's size, a column that fits the
      screen, a row between the spawn band and the recycle line, and a speed in
      [1, 3] (so it always falls). */
  predicate EnemyOk(e: EnemyState, z: Sizes) {
    e.rect.w == z.enemyW && e.rect.h == z.enemyH &&
    0 <= e.rect.x <= WIDTH - e.rect.w &&
    SPAWN_MIN_Y <= e.rect.y <= HEIGHT + RECYCLE_MARGIN &&
    MIN_ENEMY_SPEED <= e.speedY <= MAX_ENEMY_SPEED
  }

  /** A new enemy starts inside the spawn band with a valid speed. */
  lemma NewEnemyOk(d: Spawn, z: Sizes)
    requires ValidSpawn(d, z.enemyW)
    ensures EnemyOk(NewEnemy(d, z.enemyW, z.enemyH), z)
    ensures SPAWN_MIN_Y <= NewEnemy(d, z.enemyW, z.enemyH).rect.y <= SPAWN_MAX_Y
  {
  }

  /** An enemy update either only falls by its speed, or (exactly when the fall
      takes its top past the recycle line) resets column, row and speed to the
      draw; either way the enemy stays a valid enemy. */
  lemma EnemyAdvanceSpec(e: EnemyState, d: Spawn, z: Sizes)
    requires EnemyOk(e, z) && ValidSpawn(d, z.enemyW)
    ensures var r := EnemyAdvance(e, d);
      EnemyOk(r, z) && r.rect.w == e.rect.w && r.rect.h == e.rect.h &&
      (if e.rect.y + e.speedY > HEIGHT + RECYCLE_MARGIN
       then r.rect.x == d.x && r.rect.y == d.y && r.speedY == d.speedY
       else r.rect.x == e.rect.x && r.rect.y == e.rect.y + e.speedY && r.speedY == e.speedY)
  {
  }

  // ---------------------------------------------------------------- Bullet

  /** One `update` of a bullet: rise by 10 px. */
  function BulletAdvance(b: Rect): Rect {
    b.(y := b.y + BULLET_SPEED)
  }

  /** A bullet removes itself once its bottom edge is above the top of the screen. */
  predicate OffTop(b: Rect) {
    b.Bottom() < 0
  }
}
