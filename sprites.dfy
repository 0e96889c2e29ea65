/**
 * The three sprite classes of the shooter. Each keeps its rectangle and speed
 * in fields that its `Update` (and the player's `Shoot`) change in place; each
 * method is proved to do what the matching function of SpriteRules says.
 */
module Sprites {
  import opened Geometry
  import opened SpriteRules

  class Player {
    var rect: Rect
    var speed: int
    var shootDelay: int
    var lastShot: int

    function State(): PlayerState
      reads this
    {
      PlayerState(rect, speed, shootDelay, lastShot)
    }

    /** The player is created centred at the bottom of the screen; `now` is the
        clock reading at creation, which counts as the last shot. */
    constructor (w: nat, h: nat, now: int)
      ensures State() == NewPlayer(w, h, now)
    {
      var r := Rect(0, 0, w, h);
      r := WithCenterX(r, WIDTH / 2);
      r := WithBottom(r, HEIGHT - PLAYER_MARGIN);
      rect := r;
      speed := PLAYER_SPEED;
      shootDelay := SHOOT_DELAY;
      lastShot := now;
    }

    /** Moves by the held arrow keys, then pulls the rectangle back on screen. */
    method Update(left: bool, right: bool)
      modifies this
      ensures State() == PlayerMoved(old(State()), left, right)
    {
      if left {
        rect := rect.(x := rect.x - speed);
      }
      if right {
        rect := rect.(x := rect.x + speed);
      }
      if rect.Left() < 0 {
        rect := rect.(x := 0);
      }
      if rect.Right() > WIDTH {
        rect := WithRight(rect, WIDTH);
      }
    }

    /** Fires a bullet from the top-centre if the cooldown has passed at time
        `now`, recording the time; returns the new bullet, or null when the
        cooldown suppressed the shot. */
    method Shoot(now: int, bulletW: nat, bulletH: nat) returns (bullet: Bullet?)
      modifies this
      ensures var s := SpriteRules.Shoot(old(State()), now, bulletW, bulletH);
        State() == s.player &&
        (bullet == null <==> s.fired == []) &&
        (bullet != null ==> fresh(bullet) && [bullet.rect] == s.fired && bullet.speedY == BULLET_SPEED)
    {
      bullet := null;
      if CanShoot(State(), now) {
        lastShot := now;
        bullet := new Bullet(rect.CenterX(), rect.Top(), bulletW, bulletH);
      }
    }
  }

  class Enemy {
    var rect: Rect
    var speedY: int

    function State(): EnemyState
      reads this
    {
      EnemyState(rect, speedY)
    }

    /** A new enemy of image size w x h at the drawn column, row and speed. */
    constructor (d: Spawn, w: nat, h: nat)
      requires ValidSpawn(d, w)
      ensures State() == NewEnemy(d, w, h)
    {
      var r := Rect(0, 0, w, h);
      r := r.(x := d.x);
      r := r.(y := d.y);
      rect := r;
      speedY := d.speedY;
    }

    /** Falls by its speed; past the recycle line it takes the draw `d` in place. */
    method Update(d: Spawn)
      requires ValidSpawn(d, rect.w)
      modifies this
      ensures State() == EnemyAdvance(old(State()), d)
    {
      rect := rect.(y := rect.y + speedY);
      if rect.Top() > HEIGHT + RECYCLE_MARGIN {
        rect := rect.(x := d.x);
        rect := rect.(y := d.y);
        speedY := d.speedY;
      }
    }
  }

  class Bullet {
    var rect: Rect
    var speedY: int

    /** A bullet of image size w x h whose centre column is x and bottom edge y. */
    constructor (x: int, y: int, w: nat, h: nat)
      ensures rect == BulletAt(x, y, w, h) && speedY == BULLET_SPEED
    {
      var r := Rect(0, 0, w, h);
      r := WithCenterX(r, x);
      r := WithBottom(r, y);
      rect := r;
      speedY := BULLET_SPEED;
    }

    /** Moves by its speed; reports whether it has left the top of the screen
        and must be removed from every group. */
    method Update() returns (killed: bool)
      modifies this
      ensures rect == old(rect).(y := old(rect.y) + old(speedY)) && speedY == old(speedY)
      ensures killed == OffTop(rect)
      ensures old(speedY) == BULLET_SPEED ==> rect == BulletAdvance(old(rect))
    {
      rect := rect.(y := rect.y + speedY);
      killed := rect.Bottom() < 0;
    }
  }
}
