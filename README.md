# Verified model of a top-down pygame shooter

The game in `main.py` is a small frame loop. The player sits at the bottom
of an 800 x 600 screen and moves left and right with the arrow keys. Space
fires bullets, with a 250 ms cooldown between shots. Eight enemies fall from
above at 1 to 3 px per frame, and an enemy that falls off the bottom is
recycled to a fresh random spot above the screen. Each enemy hit by a bullet
is worth 10 points and is replaced by a new enemy. The game ends when the
window is closed or when an enemy touches the player.

The model has five modules:

- `Geometry` (`geometry.dfy`) holds the integer sprite rectangle, the
  `centerx`, `bottom` and `right` setters the game uses, and the collision
  test. The collision test follows pygame 2's `colliderect`: a strict
  interior overlap, and a rectangle of zero width or height collides with
  nothing.
- `SpriteRules` (`sprite_rules.dfy`) states each sprite's rules as functions
  on values, with lemmas. These cover the player's move and clamp, the fire
  cooldown, an enemy's fall and recycle, and a bullet's rise.
- `FrameRules` (`frame_rules.dfy`) states one frame of the loop as a function
  `Step` on a `WorldState` value. A frame is four passes: events and the
  player's move, the update of both groups, the bullet-against-enemy pass
  with score and respawns, and the player-contact test. `Run` is the loop
  over a sequence of frames. The lemmas prove the game invariant:
  - the player stays on screen;
  - there are exactly eight enemies, each with a speed in [1, 3];
  - every bullet is on screen;
  - the score is a non-negative multiple of 10 that never falls.
- `Sprites` (`sprites.dfy`) holds the classes `Player`, `Enemy` and
  `Bullet`. Their methods change fields in place, as the source's methods
  do. Each method is proved to follow the matching `SpriteRules` function
  (a bullet's update, for the speed -10 every bullet is created with).
- `Game` (`game.dfy`) holds the class `World`: the player, the enemy group
  and the bullet group (sequences of sprite objects), the score and the
  running flag.
  - Its constructor is the set-up of `main`.
  - `Step` is one iteration of the `while running` loop, and `Play` is the
    loop.
  - Each pass is a method that changes the objects in place. Each method is
    proved equal to the matching `FrameRules` function, and `Step` and
    `Play` also keep the game invariant.

The model gets its outside inputs as parameters:

- Random draws are `Spawn` values. A frame gets one recycle draw per enemy
  slot and one respawn draw per possible kill. `ValidInput` bounds them to
  the ranges `random.randint` would produce.
- The clock reading that `shoot` takes travels with each Space key press.
- The held arrow keys are two booleans per frame.

## Model

| member | source | states |
|---|---|---|
| Geometry.WithCenterX | main.py:72 | assigning `centerx` moves the rectangle horizontally, keeping its size and row, until its centre column is the given value |
| Geometry.WithBottom | main.py:73 | assigning `bottom` moves the rectangle vertically, keeping its size and column, until its bottom edge is the given value |
| Geometry.WithRight | main.py:88-89 | assigning `right` moves the rectangle horizontally, keeping its size and row, until its right edge is the given value |
| Geometry.Overlaps | main.py:164 | `colliderect`, used by both collision tests (also main.py:172): two rectangles collide exactly when both have positive width and height and their interiors overlap on both axes |
| SpriteRules.NewPlayer | main.py:67-76 | a new player is centred at column 400 with its bottom edge at 590, has speed 5 and cooldown 250, and its last shot is the creation time |
| SpriteRules.Clamped | main.py:85-89 | the keep-on-screen clamp puts a sprite that fits the screen fully on it, leaves an on-screen position alone, and moves a sprite past the left edge to 0 and one past the right edge to WIDTH - width |
| SpriteRules.Shifted | main.py:80-83 | the arrow-key shift: Left subtracts the speed, then Right adds it; its property is `ShiftedByKeys` |
| SpriteRules.PlayerMoved | main.py:78-89 | the player's update: shift by the held keys, then clamp to the screen; its properties are `ShiftedByKeys` and `PlayerStaysOnScreen` |
| SpriteRules.ShiftedByKeys | main.py:80-83 | before the clamp, x moves by -speed (Left only), +speed (Right only), or not at all (neither or both held) |
| SpriteRules.PlayerStaysOnScreen | main.py:78-89 | after an update, a player no wider than the screen has left edge >= 0 and right edge <= 800; only x changed |
| SpriteRules.BulletAt | main.py:116-122 | a new bullet's centre column and bottom edge are the given point, and its size is the image size |
| SpriteRules.CanShoot | main.py:93 | the cooldown test: strictly more than `shoot_delay` ms since the last shot; its properties are `ShootSpec` and `CooldownIsStrict` |
| SpriteRules.Shoot | main.py:91-97 | the shot: through the `CanShoot` gate, record `now` and fire one bullet from the top-centre, otherwise change nothing; its properties are `ShootSpec` and `CooldownIsStrict` |
| SpriteRules.ShootSpec | main.py:91-97 | a shot fires exactly one bullet and records `now` if and only if more than `shoot_delay` ms have passed; otherwise nothing changes; the bullet sits at the player's top-centre |
| SpriteRules.CooldownIsStrict | main.py:93 | a shot exactly 250 ms after the last one is refused; one at 251 ms fires |
| SpriteRules.NewEnemyOk | main.py:100-106 | a new enemy lies in the spawn band (x in [0, 800 - width], y in [-100, -40]) with a speed in [1, 3] |
| SpriteRules.NewEnemy | main.py:103-106 | the state an `Enemy()` starts in: the draw's column, row and speed with the image size; `Initial` and `Respawned` use it for main.py:143 and main.py:167, and its property is `NewEnemyOk` |
| SpriteRules.EnemyAdvance | main.py:108-113 | an enemy's update: fall by its speed, and recycle to the draw once the top is past 610; its properties are `EnemyAdvanceSpec` |
| SpriteRules.BulletAdvance | main.py:124-125 | a bullet's move: up by 10 px, nothing else changes |
| SpriteRules.OffTop | main.py:126-127 | the removal test: the bottom edge is above the screen |
| SpriteRules.EnemyAdvanceSpec | main.py:108-113 | an update moves the enemy down by its speed. Exactly when the new top is past 610, x, y and speed are replaced by the draw. Otherwise x and speed are unchanged. The enemy stays a valid enemy either way |
| Sprites.Player.constructor | main.py:67-76 | the object's state is `NewPlayer` of its image size and creation time |
| Sprites.Player.Update | main.py:78-89 | the in-place update leaves the player in the state `PlayerMoved` gives for the held keys |
| Sprites.Player.Shoot | main.py:91-97 | the in-place shot makes the same change as `SpriteRules.Shoot`. It returns a fresh bullet exactly when one is fired, and that bullet has the fired rectangle and speed -10 |
| Sprites.Enemy.constructor | main.py:100-106 | the new enemy's state is the draw's column, row and speed, with the image size |
| Sprites.Enemy.Update | main.py:108-113 | the in-place update leaves the enemy in the state `EnemyAdvance` gives for the draw |
| Sprites.Bullet.constructor | main.py:116-122 | the new bullet's rectangle is `BulletAt` the given point, and its speed is -10 |
| Sprites.Bullet.Update | main.py:124-127 | the bullet moves by its speed (only y changes), which for the speed -10 every bullet is created with is `BulletAdvance`; it reports removal exactly when its bottom edge is above the screen |
| FrameRules.HandleEvent | main.py:154-158 | one event: Quit clears the running flag, a Space key press shoots at its time stamp, anything else changes nothing; its properties are `HandleEventSpec` |
| FrameRules.HandleEvents | main.py:153-158 | the event loop: the events handled in arrival order; its properties are the three lemmas below |
| FrameRules.HandleEventSpec | main.py:153-158 | one event: Quit clears the running flag, the player does not move, at most one bullet is appended (from the player's top-centre), and a shot moves the last-shot time on by more than the cooldown |
| FrameRules.HandleEventsKeepsPlayer | main.py:153-158 | after the event pass the game is still running if and only if it was and no event was Quit; the player's rectangle, speed and cooldown are unchanged |
| FrameRules.HandleEventsAppends | main.py:153-158 | the event pass only appends bullets, and every appended bullet is at the player's top-centre with the bullet size |
| FrameRules.HandleEventsCooldown | main.py:91-97 | after k shots in one event pass the last-shot time has advanced by at least k x 251 ms; without a shot it is unchanged |
| FrameRules.HandleEventsSpec | main.py:153-158 | all of the event-pass facts above together |
| FrameRules.AdvanceEnemies | main.py:161 | the update yields one enemy per enemy slot |
| FrameRules.AdvanceBullets | main.py:124-127 | every bullet moved up by 10 and those off the top removed; its properties are `AdvanceBulletsSpec` |
| FrameRules.AdvanceBulletsCount | main.py:124-127 | counted with multiplicity, the update holds each on-screen rectangle as often as the group held that rectangle 10 px lower, and no rectangle above the screen |
| FrameRules.AdvanceBulletsSpec | main.py:124-127 | after the update every bullet is on screen and is some earlier bullet moved up by 10; every earlier bullet that is still on screen after moving is kept, as many times as it occurred; there are no more bullets than before |
| FrameRules.Unhit | main.py:164 | what is left of the bullet group after the bullets colliding with one enemy are killed; its properties are `UnhitCount` and `UnhitSpec` |
| FrameRules.HitBy | main.py:164 | the collision test `groupcollide` applies to each enemy: some live bullet collides with it; `UnhitSpec` and `KilledSnoc` relate it to the kill |
| FrameRules.UnhitCount | main.py:164 | counted with multiplicity, every copy of a bullet colliding with the enemy is removed and every copy of each other bullet is kept |
| FrameRules.UnhitSpec | main.py:164 | killing the bullets that collide with an enemy keeps exactly the others, each as many times as it occurred. The group shrinks if and only if some bullet collides with the enemy, and is left as it is otherwise |
| FrameRules.UnhitShrinks | main.py:164 | the group shrinks exactly when some bullet hits the enemy, and is unchanged otherwise |
| FrameRules.GroupCollide | main.py:164 | every enemy is either a survivor or counted as a hit |
| FrameRules.GroupCollideDrawn | main.py:164 | the survivors and the remaining bullets are drawn from the inputs, counted with multiplicity |
| FrameRules.KilledSnoc | main.py:164 | one more enemy at the end of the group is killed exactly when a bullet still live after the others collides with it; the earlier kills are unchanged |
| FrameRules.KilledWereHit | main.py:164 | every killed enemy collided with some bullet |
| FrameRules.KilledBulletsHit | main.py:164 | every killed bullet collided with some killed enemy |
| FrameRules.GroupCollideHits | main.py:164 | every hit uses up at least one bullet, and there is a hit if and only if some enemy collided with some bullet |
| FrameRules.RemainingBulletsCount | main.py:164 | counted with multiplicity, the bullets left are exactly the input bullets that no enemy collides with, killed or not: every copy of those is kept and every copy of the others removed |
| FrameRules.GroupCollideSpec | main.py:164 | every hit uses up at least one bullet. Survivors and remaining bullets come from the inputs. No enemy, killed or surviving, collides with a remaining bullet, and the bullets left are, with their multiplicities, exactly those no enemy collides with. There is a hit if and only if some enemy collided with some bullet. Every killed enemy collided with some bullet, and every killed bullet collided with some killed enemy |
| FrameRules.NoHitsKeepBullets | main.py:164 | a pass without hits leaves both groups as they were |
| FrameRules.Respawned | main.py:165-169 | one replacement enemy per draw |
| FrameRules.Touches | main.py:172 | `spritecollide` without kill is non-empty: the player collides with some enemy |
| FrameRules.Initial | main.py:129-149 | the starting session: a new player, eight enemies from the draws, no bullets, score 0, running; its property is `InitialInv` |
| FrameRules.InitialInv | main.py:137-149 | the starting session satisfies the game invariant |
| FrameRules.Controlled | main.py:153-161 | the event pass followed by the player's update |
| FrameRules.Advanced | main.py:161 | the update of both groups |
| FrameRules.Collided | main.py:164-169 | the collision pass: survivors and the remaining bullets of `GroupCollide`, 10 points and one new enemy per kill |
| FrameRules.Contacted | main.py:172-173 | the contact test: the game stops when the player collides with an enemy |
| FrameRules.Step | main.py:151-173 | one frame: the four passes in source order; its properties are `StepPreservesInv` and `StepSpec` |
| FrameRules.StepPreservesInv | main.py:151-173 | every frame keeps the game invariant (player on screen, eight valid enemies with speeds in [1, 3], on-screen bullets, score a non-negative multiple of 10) |
| FrameRules.StepSpec | main.py:151-173 | in one frame the score rises by exactly 10 per enemy the collision pass kills (on the groups as the update left them) and never falls, every kill used up a bullet, the enemy count is unchanged, and the last-shot time is the one the event pass left. The game keeps running if and only if it was running, no Quit arrived and the player touches no enemy at the end of the frame |
| FrameRules.Run | main.py:151-186 | the loop: frames until the game stops or the frames run out; its property is `RunSpec` |
| FrameRules.RunSpec | main.py:151-173 | over any run the invariant holds and the score never falls; a stopped game stays stopped |
| Game.KillCollided | main.py:164 | the in-place `spritecollide` with kill leaves exactly the bullets `Unhit` keeps, in order, and no bullet twice |
| Game.World.constructor | main.py:129-149 | the set-up builds the `Initial` session (player, eight enemies from the draws, no bullets, score 0, running) and establishes the invariant |
| Game.World.HandleEvent | main.py:154-158 | handling one event in place has the effect of `FrameRules.HandleEvent`; enemies and score are untouched |
| Game.World.HandleEvents | main.py:153-158 | the event loop in place has the effect of `FrameRules.HandleEvents` |
| Game.World.UpdateEnemies | main.py:161 | updating every enemy in place yields `AdvanceEnemies` of the old states |
| Game.World.UpdateBullets | main.py:124-127 | updating every bullet in place and dropping those that leave the screen yields `AdvanceBullets` of the old rectangles |
| Game.World.UpdateBullet | main.py:124-127 | one bullet's in-place update keeps the pass's invariant for one more bullet |
| Game.World.CollideOne | main.py:164 | one enemy against the bullet group: the bullets left are `Unhit`, and the result says whether any bullet collided |
| Game.World.CollideGroups | main.py:164 | the in-place `groupcollide` with both kills yields exactly `GroupCollide` of the old groups, and returns the number of enemies killed |
| Game.World.CollideNext | main.py:164 | one enemy's turn in the pass keeps the pass's invariant for one more enemy |
| Game.World.Respawn | main.py:165-169 | each kill adds 10 to the score and appends one new enemy from the draws |
| Game.World.PlayerHit | main.py:172 | reports whether the player collides with some enemy |
| Game.World.Control | main.py:153-161 | the event pass and the player's update in place give `Controlled` of the old session |
| Game.World.Advance | main.py:161 | the group updates in place give `Advanced` of the old session |
| Game.World.Collide | main.py:164-169 | the collision pass and respawns in place give `Collided` of the old session |
| Game.World.Contact | main.py:172-173 | the contact test in place gives `Contacted` of the old session |
| Game.World.Frame | main.py:151-173 | one frame's passes in place give `FrameRules.Step` of the old session |
| Game.World.Step | main.py:151-173 | one loop iteration in place gives `FrameRules.Step` of the old session and keeps the game invariant |
| Game.World.Play | main.py:151-186 | the loop over the frames in place gives `Run`. It stops early only when the game stopped, and it keeps the invariant |

## Left out

- Asset loading, the diagnostics printed when an image is missing, and
  exiting on failure (main.py:1-65) are I/O. The three image sizes are a
  `Sizes` parameter.
- Drawing, the score text, the display flip (main.py:175-185) and frame
  pacing with `clock.tick(60)` (main.py:186) are output and timing only.
- The pygame event queue and `key.get_pressed` are inputs: a frame carries
  its events and the two arrow-key flags.
- `random.randint` and `pygame.time.get_ticks` are parameters. The model
  accepts any draws in the documented ranges, so it does not fix which draw
  the source would consume in which order.
- The `all_sprites` group is not a separate collection. Its `update` touches
  each sprite independently, so updating the player, then the enemies, then
  the bullets has the same effect as updating them in insertion order.
- pygame's `Group` internals are not modelled. A group is a sequence in
  insertion order. `groupcollide` follows pygame's own loop: enemies in
  group order, each killing the still-live bullets it collides with. The
  guarantees stated in `GroupCollideSpec` hold in any order; the hit count
  that is scored is the one pygame's group order produces.
- Rect coordinates are unbounded integers, not C ints, because coordinates
  in this game stay far from the 32-bit range.
- The game loop in `Play` runs over a finite sequence of frames. The
  source's loop is unbounded.
- Game.World.constructor: requires both the player and the enemy image to
  be no wider than the screen. An enemy wider than the screen makes
  `randint` fail. A wider player image would run in the source, but the
  clamp then leaves it partly off screen and the on-screen invariant does
  not hold.
- The cooldown is strict: the model follows main.py:93, which compares with
  `>`, and `CooldownIsStrict` pins the boundary.
