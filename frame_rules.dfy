/**
 * One frame of the game loop, stated on values: event handling, the update of
 * every sprite, the bullet-against-enemy pass with scoring and respawn, and
 * the player-against-enemy test that ends the game. `Step` is the whole frame
 * and `Run` the loop; the lemmas give the invariants the game keeps.
 */
module FrameRules {
  import opened Geometry
  import opened SpriteRules

  const KILL_SCORE := 10
  const ENEMY_COUNT := 8

  /** The state of one game session. */
  datatype WorldState = WorldState(
    player: PlayerState,
    enemies: seq<EnemyState>,
    bullets: seq<Rect>,
    score: int,
    running: bool)

  // ---------------------------------------------------------------- Events

  datatype Key = Space | OtherKey

  /** An input event of one frame; a key press carries the clock reading the
      player's `shoot` would take. */
  datatype Event = Quit | KeyDown(key: Key, ticks: int) | OtherEvent

  /** What the event pass may change. */
  datatype Controls = Controls(player: PlayerState, bullets: seq<Rect>, running: bool)

  function HandleEvent(c: Controls, ev: Event, z: Sizes): Controls {
    match ev
    case Quit => c.(running := false)
    case KeyDown(key, ticks) =>
      if key == Space then
        var s := Shoot(c.player, ticks, z.bulletW, z.bulletH);
        c.(player := s.player, bullets := c.bullets + s.fired)
      else c
    case OtherEvent => c
  }

  /** The events of a frame, handled in order. */
  function HandleEvents(c: Controls, evs: seq<Event>, z: Sizes): Controls
    decreases |evs|
  {
    if evs == [] then c else HandleEvent(HandleEvents(c, evs[..|evs| - 1], z), evs[|evs| - 1], z)
  }

  /** The bullets fired by a shot from player `p` sit at its top-centre with the bullet size. */
  predicate FiredFrom(bs: seq<Rect>, p: PlayerState, z: Sizes) {
    forall b :: b in bs ==>
      b.CenterX() == p.rect.CenterX() && b.Bottom() == p.rect.Top() && b.w == z.bulletW && b.h == z.bulletH
  }

  /** One event: Quit clears the running flag, the player does not move, at
      most one bullet is appended, and a shot advances the last-shot time by
      more than one cooldown. */
  lemma HandleEventSpec(c: Controls, ev: Event, z: Sizes)
    ensures var r := HandleEvent(c, ev, z);
      r.running == (c.running && ev != Quit) &&
      r.player.rect == c.player.rect && r.player.speed == c.player.speed &&
      r.player.shootDelay == c.player.shootDelay &&
      |c.bullets| <= |r.bullets| <= |c.bullets| + 1 && r.bullets[..|c.bullets|] == c.bullets &&
      FiredFrom(r.bullets[|c.bullets|..], c.player, z) &&
      r.player.lastShot >= c.player.lastShot + (c.player.shootDelay + 1) * (|r.bullets| - |c.bullets|) &&
      (|r.bullets| == |c.bullets| ==> r.player.lastShot == c.player.lastShot)
  {
    var r := HandleEvent(c, ev, z);
    if ev.KeyDown? && ev.key == Space {
      ShootSpec(c.player, ev.ticks, z.bulletW, z.bulletH);
      assert r.bullets[|c.bullets|..] == Shoot(c.player, ev.ticks, z.bulletW, z.bulletH).fired;
    }
  }

  /** Over the event pass the running flag ends cleared if and only if some
      event was Quit, and the player neither moves nor changes speed or cooldown. */
  lemma {:induction false} HandleEventsKeepsPlayer(c: Controls, evs: seq<Event>, z: Sizes)
    ensures var r := HandleEvents(c, evs, z);
      r.running == (c.running && Quit !in evs) &&
      r.player.rect == c.player.rect && r.player.speed == c.player.speed &&
      r.player.shootDelay == c.player.shootDelay
    decreases |evs|
  {
    if evs != [] {
      var init, last := evs[..|evs| - 1], evs[|evs| - 1];
      assert evs == init + [last];
      HandleEventsKeepsPlayer(c, init, z);
      HandleEventSpec(HandleEvents(c, init, z), last, z);
    }
  }

  /** Over the event pass bullets are only appended, each from the player's
      top-centre. */
  lemma {:induction false} HandleEventsAppends(c: Controls, evs: seq<Event>, z: Sizes)
    ensures var r := HandleEvents(c, evs, z);
      |c.bullets| <= |r.bullets| && r.bullets[..|c.bullets|] == c.bullets &&
      FiredFrom(r.bullets[|c.bullets|..], c.player, z)
    decreases |evs|
  {
    if evs != [] {
      var init, last := evs[..|evs| - 1], evs[|evs| - 1];
      assert evs == init + [last];
      HandleEventsAppends(c, init, z);
      HandleEventsKeepsPlayer(c, init, z);
      var m := HandleEvents(c, init, z);
      HandleEventSpec(m, last, z);
      var r := HandleEvent(m, last, z);
      assert r.bullets[..|c.bullets|] == m.bullets[..|c.bullets|];
      assert r.bullets[|c.bullets|..] == m.bullets[|c.bullets|..] + r.bullets[|m.bullets|..];
    }
  }

  /** Over the event pass the cooldown spaces the shots: after k shots the
      last-shot time has advanced by more than k cooldowns, and without a shot
      it has not changed. */
  lemma {:induction false} HandleEventsCooldown(c: Controls, evs: seq<Event>, z: Sizes)
    ensures var r := HandleEvents(c, evs, z);
      r.player.lastShot >= c.player.lastShot + (c.player.shootDelay + 1) * (|r.bullets| - |c.bullets|) &&
      (|r.bullets| == |c.bullets| ==> r.player.lastShot == c.player.lastShot)
    decreases |evs|
  {
    if evs != [] {
      var init, last := evs[..|evs| - 1], evs[|evs| - 1];
      assert evs == init + [last];
      HandleEventsCooldown(c, init, z);
      HandleEventsKeepsPlayer(c, init, z);
      HandleEventsAppends(c, init, z);
      HandleEventSpec(HandleEvents(c, init, z), last, z);
    }
  }

  /** The event pass: a Quit anywhere stops the game (the rest of the frame still
      runs); the player does not move; bullets are only appended, each from the
      player's top-centre; and the cooldown spaces the shots.  The three lemmas
      above, gathered so that the frame lemmas use the event pass in one call. */
  lemma HandleEventsSpec(c: Controls, evs: seq<Event>, z: Sizes)
    ensures var r := HandleEvents(c, evs, z);
      r.running == (c.running && Quit !in evs) &&
      r.player.rect == c.player.rect && r.player.speed == c.player.speed &&
      r.player.shootDelay == c.player.shootDelay &&
      |c.bullets| <= |r.bullets| && r.bullets[..|c.bullets|] == c.bullets &&
      FiredFrom(r.bullets[|c.bullets|..], c.player, z) &&
      r.player.lastShot >= c.player.lastShot + (c.player.shootDelay + 1) * (|r.bullets| - |c.bullets|) &&
      (|r.bullets| == |c.bullets| ==> r.player.lastShot == c.player.lastShot)
  {
    HandleEventsKeepsPlayer(c, evs, z);
    HandleEventsAppends(c, evs, z);
    HandleEventsCooldown(c, evs, z);
  }

  // ---------------------------------------------------------------- Update

  /** Every enemy updated, enemy i taking the draw `draws[i]` should it recycle. */
  function AdvanceEnemies(es: seq<EnemyState>, draws: seq<Spawn>): (r: seq<EnemyState>)
    requires |draws| == |es|
    ensures |r| == |es|
  {
    seq(|es|, i requires 0 <= i < |es| => EnemyAdvance(es[i], draws[i]))
  }

  /** Every bullet updated, those that left the top of the screen removed. */
  function AdvanceBullets(bs: seq<Rect>): seq<Rect>
    decreases |bs|
  {
    if bs == [] then []
    else
      var moved := BulletAdvance(bs[|bs| - 1]);
      AdvanceBullets(bs[..|bs| - 1]) + (if OffTop(moved) then [] else [moved])
  }

  /** The update of a group with one more bullet at the end. */
  lemma AdvanceBulletsSnoc(bs: seq<Rect>, b: Rect)
    ensures AdvanceBullets(bs + [b]) ==
            AdvanceBullets(bs) + if OffTop(BulletAdvance(b)) then [] else [BulletAdvance(b)]
  {
    assert (bs + [b])[..|bs|] == bs;
  }

  /** Counted with multiplicity, the update holds each on-screen rectangle `m` as
      often as the group held the rectangle 10 px below it, and no rectangle
      above the screen. */
  lemma {:induction false} AdvanceBulletsCount(bs: seq<Rect>)
    ensures forall m ::
      multiset(AdvanceBullets(bs))[m] == if OffTop(m) then 0 else multiset(bs)[m.(y := m.y - BULLET_SPEED)]
    decreases |bs|
  {
    if bs != [] {
      var init, last := bs[..|bs| - 1], bs[|bs| - 1];
      assert bs == init + [last];
      AdvanceBulletsCount(init);
      AdvanceBulletsSnoc(init, last);
      forall m
        ensures multiset(AdvanceBullets(bs))[m] ==
          if OffTop(m) then 0 else multiset(bs)[m.(y := m.y - BULLET_SPEED)]
      {
        assert BulletAdvance(last) == m <==> last == m.(y := m.y - BULLET_SPEED);
      }
    }
  }

  /** After the update every bullet is on or below the top of the screen and is a
      bullet of before moved up 10 px; every moved bullet that is still on screen
      is kept, as many times as it occurred, and the sizes are unchanged. */
  lemma {:induction false} AdvanceBulletsSpec(bs: seq<Rect>)
    ensures var r := AdvanceBullets(bs);
      |r| <= |bs| &&
      (forall b :: b in r ==> !OffTop(b) && b.(y := b.y - BULLET_SPEED) in bs) &&
      (forall b :: b in bs && !OffTop(BulletAdvance(b)) ==> BulletAdvance(b) in r) &&
      (forall m :: multiset(r)[m] == if OffTop(m) then 0 else multiset(bs)[m.(y := m.y - BULLET_SPEED)])
    decreases |bs|
  {
    AdvanceBulletsCount(bs);
    if bs != [] {
      var init, last := bs[..|bs| - 1], bs[|bs| - 1];
      assert bs == init + [last];
      AdvanceBulletsSpec(init);
    }
  }

  // ---------------------------------------------------------------- Collisions

  /** Whether some bullet of `bs` collides with the enemy rectangle `e`. */
  predicate HitBy(e: Rect, bs: seq<Rect>) {
    exists b :: b in bs && Overlaps(e, b)
  }

  /** The bullets of `bs` that do not collide with `e`: what is left of the group
      after the bullets hitting `e` are killed. */
  function Unhit(bs: seq<Rect>, e: Rect): seq<Rect>
    decreases |bs|
  {
    if bs == [] then []
    else
      var last := bs[|bs| - 1];
      Unhit(bs[..|bs| - 1], e) + (if Overlaps(e, last) then [] else [last])
  }

  /** Counted with multiplicity, killing the bullets that hit `e` removes every
      copy of each of them and keeps every copy of each other bullet. */
  lemma {:induction false} UnhitCount(bs: seq<Rect>, e: Rect)
    ensures forall b :: multiset(Unhit(bs, e))[b] == if Overlaps(e, b) then 0 else multiset(bs)[b]
    decreases |bs|
  {
    if bs != [] {
      var init, last := bs[..|bs| - 1], bs[|bs| - 1];
      assert bs == init + [last];
      UnhitCount(init, e);
    }
  }

  /** Killing the bullets that hit `e` keeps exactly the others, each as many
      times as it occurred; the group shrinks if and only if some bullet hits `e`. */
  lemma {:induction false} UnhitSpec(bs: seq<Rect>, e: Rect)
    ensures var r := Unhit(bs, e);
      |r| <= |bs| && (|r| < |bs| <==> HitBy(e, bs)) && (!HitBy(e, bs) ==> r == bs) &&
      (forall b :: b in r <==> b in bs && !Overlaps(e, b)) &&
      (forall b :: multiset(r)[b] == if Overlaps(e, b) then 0 else multiset(bs)[b]) &&
      multiset(r) <= multiset(bs)
    decreases |bs|
  {
    UnhitCount(bs, e);
    if bs != [] {
      var init, last := bs[..|bs| - 1], bs[|bs| - 1];
      assert bs == init + [last];
      UnhitSpec(init, e);
      if HitBy(e, init) {
        var b :| b in init && Overlaps(e, b);
        assert b in bs;
      }
      if HitBy(e, bs) && !Overlaps(e, last) {
        var b :| b in bs && Overlaps(e, b);
        assert b in init;
      }
    }
  }

  /** The three facts about the group's length from `UnhitSpec`, on their own:
      the passes over the groups call this one so that the counting facts of
      `UnhitSpec` stay out of their proofs. */
  lemma UnhitShrinks(bs: seq<Rect>, e: Rect)
    ensures |Unhit(bs, e)| <= |bs|
    ensures |Unhit(bs, e)| < |bs| <==> HitBy(e, bs)
    ensures !HitBy(e, bs) ==> Unhit(bs, e) == bs
  {
    UnhitSpec(bs, e);
  }

  /** The outcome of the bullet-against-enemy pass. */
  datatype Collision = Collision(survivors: seq<EnemyState>, bullets: seq<Rect>, hits: nat)

  /** The bullet-against-enemy pass with both groups killing: enemies are taken
      in group order, and an enemy that collides with a still-live bullet is
      killed together with every live bullet it collides with. */
  function GroupCollide(es: seq<EnemyState>, bs: seq<Rect>): (c: Collision)
    ensures |c.survivors| + c.hits == |es|
    decreases |es|
  {
    if es == [] then Collision([], bs, 0)
    else
      var c := GroupCollide(es[..|es| - 1], bs);
      var e := es[|es| - 1];
      if HitBy(e.rect, c.bullets) then Collision(c.survivors, Unhit(c.bullets, e.rect), c.hits + 1)
      else Collision(c.survivors + [e], c.bullets, c.hits)
  }

  /** The pass over a group with one more enemy at the end. */
  lemma GroupCollideSnoc(es: seq<EnemyState>, e: EnemyState, bs: seq<Rect>)
    ensures var c := GroupCollide(es, bs);
      GroupCollide(es + [e], bs) ==
        if HitBy(e.rect, c.bullets) then Collision(c.survivors, Unhit(c.bullets, e.rect), c.hits + 1)
        else Collision(c.survivors + [e], c.bullets, c.hits)
  {
    assert (es + [e])[..|es|] == es;
  }

  /** What the pass guarantees whatever the order: every hit consumes at least one
      bullet; survivors and remaining bullets are drawn from the inputs; no
      enemy collides with a remaining bullet, so the bullets left are exactly
      those no enemy collides with; there is a hit if and only if
      some enemy collided with some bullet; and every killed enemy and every
      killed bullet collided with something of the other group. */
  lemma GroupCollideSpec(es: seq<EnemyState>, bs: seq<Rect>)
    ensures var c := GroupCollide(es, bs);
      |c.bullets| + c.hits <= |bs| &&
      multiset(c.survivors) <= multiset(es) && multiset(c.bullets) <= multiset(bs) &&
      (forall e, b :: e in es && b in c.bullets ==> !Overlaps(e.rect, b)) &&
      (forall b :: multiset(c.bullets)[b] ==
        if exists e :: e in es && Overlaps(e.rect, b) then 0 else multiset(bs)[b]) &&
      (c.hits == 0 <==> forall e, b :: e in es && b in bs ==> !Overlaps(e.rect, b)) &&
      (forall e :: e in multiset(es) - multiset(c.survivors) ==>
        exists b :: b in bs && Overlaps(e.rect, b)) &&
      (forall b :: b in multiset(bs) - multiset(c.bullets) ==>
        exists e :: e in multiset(es) - multiset(c.survivors) && Overlaps(e.rect, b))
  {
    GroupCollideHits(es, bs);
    GroupCollideDrawn(es, bs);
    RemainingBulletsCount(es, bs);
    KilledWereHit(es, bs);
    KilledBulletsHit(es, bs);
    var c := GroupCollide(es, bs);
    forall e, b | e in es && b in c.bullets
      ensures !Overlaps(e.rect, b)
    {
      assert multiset(c.bullets)[b] > 0;
    }
  }

  /** Every hit consumes at least one bullet, and there is a hit if and only if
      some enemy collided with some bullet. */
  lemma {:induction false} GroupCollideHits(es: seq<EnemyState>, bs: seq<Rect>)
    ensures var c := GroupCollide(es, bs);
      |c.bullets| + c.hits <= |bs| &&
      (c.hits == 0 <==> forall e, b :: e in es && b in bs ==> !Overlaps(e.rect, b))
    decreases |es|
  {
    if es != [] {
      var init, last := es[..|es| - 1], es[|es| - 1];
      assert es == init + [last];
      GroupCollideHits(init, bs);
      var m := GroupCollide(init, bs);
      UnhitShrinks(m.bullets, last.rect);
      var c := GroupCollide(es, bs);
      if c.hits == 0 {
        // Nothing was killed, so the bullets met by `last` are all of `bs`.
        assert m.hits == 0 && !HitBy(last.rect, m.bullets);
        assert m.bullets == bs by { NoHitsKeepBullets(init, bs); }
      } else if m.hits != 0 {
        var e, b :| e in init && b in bs && Overlaps(e.rect, b);
        assert e in es;
      } else {
        NoHitsKeepBullets(init, bs);
        var b :| b in m.bullets && Overlaps(last.rect, b);
        assert last in es;
      }
    }
  }

  /** The survivors and the remaining bullets are drawn from the inputs. */
  lemma {:induction false} GroupCollideDrawn(es: seq<EnemyState>, bs: seq<Rect>)
    ensures var c := GroupCollide(es, bs);
      multiset(c.survivors) <= multiset(es) && multiset(c.bullets) <= multiset(bs)
    decreases |es|
  {
    if es != [] {
      var init, last := es[..|es| - 1], es[|es| - 1];
      assert es == init + [last];
      GroupCollideDrawn(init, bs);
      UnhitCount(GroupCollide(init, bs).bullets, last.rect);
    }
  }

  /** The enemies a pass kills, counted with multiplicity. */
  function Killed(es: seq<EnemyState>, bs: seq<Rect>): multiset<EnemyState> {
    multiset(es) - multiset(GroupCollide(es, bs).survivors)
  }

  /** The kills of a group with one more enemy at the end: that enemy is killed
      exactly when some bullet still live after the others hits it. */
  lemma KilledSnoc(es: seq<EnemyState>, e: EnemyState, bs: seq<Rect>)
    ensures Killed(es + [e], bs) ==
      Killed(es, bs) + if HitBy(e.rect, GroupCollide(es, bs).bullets) then multiset{e} else multiset{}
  {
    GroupCollideDrawn(es, bs);
    GroupCollideSnoc(es, e, bs);
  }

  /** Every killed enemy collided with some bullet. */
  lemma {:induction false} KilledWereHit(es: seq<EnemyState>, bs: seq<Rect>)
    ensures forall e :: e in Killed(es, bs) ==> exists b :: b in bs && Overlaps(e.rect, b)
    decreases |es|
  {
    if es != [] {
      var init, last := es[..|es| - 1], es[|es| - 1];
      assert es == init + [last];
      KilledWereHit(init, bs);
      KilledSnoc(init, last, bs);
      var m := GroupCollide(init, bs);
      if HitBy(last.rect, m.bullets) {
        GroupCollideDrawn(init, bs);
        var b :| b in m.bullets && Overlaps(last.rect, b);
        assert b in multiset(bs);
      }
    }
  }

  /** Every killed bullet collided with some killed enemy. */
  lemma {:induction false} KilledBulletsHit(es: seq<EnemyState>, bs: seq<Rect>)
    ensures forall b :: b in multiset(bs) - multiset(GroupCollide(es, bs).bullets) ==>
      exists e :: e in Killed(es, bs) && Overlaps(e.rect, b)
    decreases |es|
  {
    if es != [] {
      var init, last := es[..|es| - 1], es[|es| - 1];
      assert es == init + [last];
      KilledBulletsHit(init, bs);
      KilledSnoc(init, last, bs);
      GroupCollideSnoc(init, last, bs);
      var m := GroupCollide(init, bs);
      if HitBy(last.rect, m.bullets) {
        UnhitCount(m.bullets, last.rect);
        forall b | b in multiset(bs) - multiset(GroupCollide(es, bs).bullets)
          ensures exists e :: e in Killed(es, bs) && Overlaps(e.rect, b)
        {
          if b in multiset(bs) - multiset(m.bullets) {
            var e :| e in Killed(init, bs) && Overlaps(e.rect, b);
            assert e in Killed(es, bs);
          } else {
            assert Overlaps(last.rect, b) && last in Killed(es, bs);
          }
        }
      }
    }
  }

  /** Counted with multiplicity, the pass removes every copy of each bullet some
      enemy collides with, killed or not, and keeps every copy of the others. */
  lemma {:induction false} RemainingBulletsCount(es: seq<EnemyState>, bs: seq<Rect>)
    ensures forall b ::
      multiset(GroupCollide(es, bs).bullets)[b] == if exists e :: e in es && Overlaps(e.rect, b) then 0 else multiset(bs)[b]
    decreases |es|
  {
    if es != [] {
      var init, last := es[..|es| - 1], es[|es| - 1];
      assert es == init + [last];
      RemainingBulletsCount(init, bs);
      GroupCollideSnoc(init, last, bs);
      var m := GroupCollide(init, bs);
      UnhitCount(m.bullets, last.rect);
      forall b
        ensures multiset(GroupCollide(es, bs).bullets)[b] ==
          if exists e :: e in es && Overlaps(e.rect, b) then 0 else multiset(bs)[b]
      {
        assert (exists e :: e in es && Overlaps(e.rect, b)) <==>
          (exists e :: e in init && Overlaps(e.rect, b)) || Overlaps(last.rect, b);
        if !HitBy(last.rect, m.bullets) && Overlaps(last.rect, b) {
          assert b !in m.bullets;
        }
      }
    }
  }

  /** A pass without hits leaves the bullets and the enemies untouched. */
  lemma {:induction false} NoHitsKeepBullets(es: seq<EnemyState>, bs: seq<Rect>)
    requires GroupCollide(es, bs).hits == 0
    ensures GroupCollide(es, bs).bullets == bs && GroupCollide(es, bs).survivors == es
    decreases |es|
  {
    if es != [] {
      var init, last := es[..|es| - 1], es[|es| - 1];
      assert es == init + [last];
      NoHitsKeepBullets(init, bs);
    }
  }

  /** The replacement enemies, one per hit, from the respawn draws. */
  function Respawned(draws: seq<Spawn>, z: Sizes): (r: seq<EnemyState>)
    ensures |r| == |draws|
  {
    seq(|draws|, i requires 0 <= i < |draws| => NewEnemy(draws[i], z.enemyW, z.enemyH))
  }

  /** Whether the player's rectangle collides with some enemy. */
  predicate Touches(p: Rect, es: seq<EnemyState>) {
    exists e :: e in es && Overlaps(p, e.rect)
  }

  // ---------------------------------------------------------------- One frame

  /** The inputs of one frame that come from outside the game rules: the events,
      the arrow keys held, and the random draws. Enemy slot i uses `recycle[i]` if
      it falls off the screen; the k-th replacement enemy uses `respawn[k]`. */
  datatype FrameInput = FrameInput(
    events: seq<Event>,
    left: bool,
    right: bool,
    recycle: seq<Spawn>,
    respawn: seq<Spawn>)

  predicate ValidInput(f: FrameInput, z: Sizes) {
    |f.recycle| == ENEMY_COUNT && |f.respawn| == ENEMY_COUNT &&
    (forall d :: d in f.recycle ==> ValidSpawn(d, z.enemyW)) &&
    (forall d :: d in f.respawn ==> ValidSpawn(d, z.enemyW))
  }

  /** The event pass followed by the player's update: the player moves by the
      held keys after any shots, fired bullets join the group, Quit clears the
      running flag. */
  function Controlled(s: WorldState, f: FrameInput, z: Sizes): WorldState {
    var ctl := HandleEvents(Controls(s.player, s.bullets, s.running), f.events, z);
    s.(player := PlayerMoved(ctl.player, f.left, f.right), bullets := ctl.bullets, running := ctl.running)
  }

  /** The update of the enemy and bullet groups, enemy i taking `recycle[i]`
      should it recycle. */
  function Advanced(s: WorldState, f: FrameInput): WorldState
    requires |f.recycle| == |s.enemies|
  {
    s.(enemies := AdvanceEnemies(s.enemies, f.recycle), bullets := AdvanceBullets(s.bullets))
  }

  /** The bullet-against-enemy pass, then one new enemy from `respawn` and
      KILL_SCORE points per enemy killed. */
  function Collided(s: WorldState, f: FrameInput, z: Sizes): WorldState
    requires |f.respawn| == |s.enemies|
  {
    var c := GroupCollide(s.enemies, s.bullets);
    s.(enemies := c.survivors + Respawned(f.respawn[..c.hits], z), bullets := c.bullets,
       score := s.score + KILL_SCORE * c.hits)
  }

  /** The player-contact test: touching an enemy stops the game. */
  function Contacted(s: WorldState): WorldState {
    s.(running := s.running && !Touches(s.player.rect, s.enemies))
  }

  /** One iteration of the game loop: events, update, bullet-against-enemy pass
      (+10 and one new enemy per enemy killed), then the player-contact test. */
  function Step(s: WorldState, f: FrameInput, z: Sizes): WorldState
    requires |f.recycle| == |s.enemies| && |f.respawn| == |s.enemies|
  {
    Contacted(Collided(Advanced(Controlled(s, f, z), f), f, z))
  }

  /** The player state every frame keeps: its image's size, fully on screen,
      bottom edge fixed, constant speed and cooldown. */
  predicate PlayerOk(p: PlayerState, z: Sizes) {
    p.rect.w == z.playerW && p.rect.h == z.playerH &&
    0 <= p.rect.Left() && p.rect.Right() <= WIDTH &&
    p.rect.Bottom() == HEIGHT - PLAYER_MARGIN &&
    p.speed == PLAYER_SPEED && p.shootDelay == SHOOT_DELAY
  }

  predicate BulletOk(b: Rect, z: Sizes) {
    b.w == z.bulletW && b.h == z.bulletH && !OffTop(b)
  }

  /** The game invariant: the player on screen, exactly eight valid enemies, only
      on-screen bullets, and a score that is a non-negative multiple of 10. */
  predicate Inv(s: WorldState, z: Sizes) {
    ValidSizes(z) && PlayerOk(s.player, z) &&
    |s.enemies| == ENEMY_COUNT && (forall e :: e in s.enemies ==> EnemyOk(e, z)) &&
    (forall b :: b in s.bullets ==> BulletOk(b, z)) &&
    s.score >= 0 && s.score % KILL_SCORE == 0
  }

  /** The start of a session: a fresh player created at time `now`, the eight
      enemies from the draws `spawns`, no bullets, score 0, running. */
  function Initial(z: Sizes, now: int, spawns: seq<Spawn>): WorldState {
    WorldState(NewPlayer(z.playerW, z.playerH, now), Respawned(spawns, z), [], 0, true)
  }

  lemma InitialInv(z: Sizes, now: int, spawns: seq<Spawn>)
    requires ValidSizes(z) && |spawns| == ENEMY_COUNT
    requires forall d :: d in spawns ==> ValidSpawn(d, z.enemyW)
    ensures Inv(Initial(z, now, spawns), z)
  {
    var s := Initial(z, now, spawns);
    forall e | e in s.enemies ensures EnemyOk(e, z) {
      var i :| 0 <= i < |s.enemies| && s.enemies[i] == e;
      NewEnemyOk(spawns[i], z);
    }
  }

  /** The enemies after the update and the replacements are all valid enemies. */
  lemma EnemiesStayOk(s: WorldState, f: FrameInput, z: Sizes)
    requires Inv(s, z) && ValidInput(f, z)
    ensures forall e :: e in AdvanceEnemies(s.enemies, f.recycle) ==> EnemyOk(e, z)
    ensures forall e :: e in Respawned(f.respawn, z) ==> EnemyOk(e, z)
  {
    var es := AdvanceEnemies(s.enemies, f.recycle);
    forall e | e in es ensures EnemyOk(e, z) {
      var i :| 0 <= i < |es| && es[i] == e;
      EnemyAdvanceSpec(s.enemies[i], f.recycle[i], z);
    }
    var rs := Respawned(f.respawn, z);
    forall e | e in rs ensures EnemyOk(e, z) {
      var i :| 0 <= i < |rs| && rs[i] == e;
      NewEnemyOk(f.respawn[i], z);
    }
  }

  /** The bullets after the event pass and the update are valid bullets. */
  lemma BulletsStayOk(s: WorldState, ctl: Controls, z: Sizes)
    requires forall b :: b in s.bullets ==> BulletOk(b, z)
    requires |s.bullets| <= |ctl.bullets| && ctl.bullets[..|s.bullets|] == s.bullets
    requires forall i :: |s.bullets| <= i < |ctl.bullets| ==>
               ctl.bullets[i].w == z.bulletW && ctl.bullets[i].h == z.bulletH
    ensures forall b :: b in AdvanceBullets(ctl.bullets) ==> BulletOk(b, z)
  {
    AdvanceBulletsSpec(ctl.bullets);
    forall b | b in AdvanceBullets(ctl.bullets) ensures BulletOk(b, z) {
      var b0 := b.(y := b.y - BULLET_SPEED);
      var i :| 0 <= i < |ctl.bullets| && ctl.bullets[i] == b0;
      if i < |s.bullets| {
        assert b0 == ctl.bullets[..|s.bullets|][i] == s.bullets[i];
        assert BulletOk(s.bullets[i], z);
      }
      assert b0.w == b.w && b0.h == b.h;
    }
  }

  /** The survivors and the remaining bullets of a pass over valid sprites are valid. */
  lemma CollisionKeepsOk(es: seq<EnemyState>, bs: seq<Rect>, z: Sizes)
    requires forall e :: e in es ==> EnemyOk(e, z)
    requires forall b :: b in bs ==> BulletOk(b, z)
    ensures forall e :: e in GroupCollide(es, bs).survivors ==> EnemyOk(e, z)
    ensures forall b :: b in GroupCollide(es, bs).bullets ==> BulletOk(b, z)
  {
    var c := GroupCollide(es, bs);
    GroupCollideDrawn(es, bs);
    forall e | e in c.survivors ensures EnemyOk(e, z) {
      assert e in multiset(c.survivors);
    }
    forall b | b in c.bullets ensures BulletOk(b, z) {
      assert b in multiset(c.bullets);
    }
  }

  /** Every frame keeps the game invariant. */
  lemma StepPreservesInv(s: WorldState, f: FrameInput, z: Sizes)
    requires Inv(s, z) && ValidInput(f, z)
    ensures Inv(Step(s, f, z), z)
  {
    var ctl := HandleEvents(Controls(s.player, s.bullets, s.running), f.events, z);
    HandleEventsSpec(Controls(s.player, s.bullets, s.running), f.events, z);
    PlayerStaysOnScreen(ctl.player, f.left, f.right);
    var es := AdvanceEnemies(s.enemies, f.recycle);
    var bs := AdvanceBullets(ctl.bullets);
    BulletsStayOk(s, ctl, z);
    EnemiesStayOk(s, f, z);
    CollisionKeepsOk(es, bs, z);
    var c := GroupCollide(es, bs);
    var rs := Respawned(f.respawn[..c.hits], z);
    forall e | e in rs ensures EnemyOk(e, z) {
      var i :| 0 <= i < |rs| && rs[i] == e;
      assert e == Respawned(f.respawn, z)[i];
    }
    var t := Step(s, f, z);
    assert t.enemies == c.survivors + rs;
    ScoreStep(s.score, c.hits);
  }

  lemma ScoreStep(score: int, hits: nat)
    requires score >= 0 && score % KILL_SCORE == 0
    ensures score + KILL_SCORE * hits >= score
    ensures (score + KILL_SCORE * hits) % KILL_SCORE == 0
  {
  }

  /** One frame's scoring and population: the score rises by exactly 10 per enemy
      killed and never falls, the enemy count is unchanged, every kill used up a
      bullet, the last-shot time is the one the event pass left (so the cooldown
      bounds of `HandleEventsCooldown` hold over the frame), and the game keeps
      running if and only if it was running, no Quit arrived and the player
      touches no enemy afterwards. */
  lemma StepSpec(s: WorldState, f: FrameInput, z: Sizes)
    requires |f.recycle| == |s.enemies| && |f.respawn| == |s.enemies|
    ensures var t := Step(s, f, z);
      var m := Advanced(Controlled(s, f, z), f); var c := GroupCollide(m.enemies, m.bullets);
      t.score == s.score + KILL_SCORE * c.hits && t.score >= s.score &&
      |t.enemies| == |s.enemies| &&
      (t.running <==> s.running && Quit !in f.events && !Touches(t.player.rect, t.enemies)) &&
      |c.bullets| + c.hits <= |m.bullets| &&
      t.player.lastShot == HandleEvents(Controls(s.player, s.bullets, s.running), f.events, z).player.lastShot
  {
    HandleEventsSpec(Controls(s.player, s.bullets, s.running), f.events, z);
    var m := Advanced(Controlled(s, f, z), f);
    GroupCollideHits(m.enemies, m.bullets);
  }

  /** The game loop over a sequence of frames: it stops at the first frame that
      ends with the game no longer running, or when the frames run out. */
  function Run(s: WorldState, fs: seq<FrameInput>, z: Sizes): WorldState
    requires Inv(s, z) && forall f :: f in fs ==> ValidInput(f, z)
    decreases |fs|
  {
    if fs == [] || !s.running then s
    else
      StepPreservesInv(s, fs[0], z);
      Run(Step(s, fs[0], z), fs[1..], z)
  }

  /** Over any run the game invariant holds and the score never falls; a stopped
      game stays stopped. */
  lemma {:induction false} RunSpec(s: WorldState, fs: seq<FrameInput>, z: Sizes)
    requires Inv(s, z) && forall f :: f in fs ==> ValidInput(f, z)
    ensures var t := Run(s, fs, z);
      Inv(t, z) && t.score >= s.score && (!s.running ==> t == s)
    decreases |fs|
  {
    if fs != [] && s.running {
      StepPreservesInv(s, fs[0], z);
      StepSpec(s, fs[0], z);
      RunSpec(Step(s, fs[0], z), fs[1..], z);
    }
  }
}
