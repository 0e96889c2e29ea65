/**
 * The game session of the shooter: the player, the enemy group, the bullet
 * group, the score and the running flag, owned by one World object. Its
 * constructor is the set-up of `main`, `Step` one iteration of the game loop
 * and `Play` the loop itself; each is proved to follow FrameRules.
 */
module Game {
  import opened Geometry
  import opened SpriteRules
  import opened FrameRules
  import opened Sprites

  /** No object occurs twice in a group. */
  predicate Distinct<T(==)>(s: seq<T>) {
    forall i, j :: 0 <= i < j < |s| ==> s[i] != s[j]
  }

  /** The states of the enemies of a group, in group order. */
  ghost function EnemyStates(es: seq<Enemy>): (r: seq<EnemyState>)
    reads es
  {
    seq(|es|, i reads es requires 0 <= i < |es| => es[i].State())
  }

  lemma EnemyStatesSnoc(es: seq<Enemy>, e: Enemy)
    ensures EnemyStates(es + [e]) == EnemyStates(es) + [e.State()]
  {
  }

  /** The rectangles of the bullets of a group, in group order. */
  ghost function BulletRects(bs: seq<Bullet>): (r: seq<Rect>)
    reads bs
  {
    seq(|bs|, i reads bs requires 0 <= i < |bs| => bs[i].rect)
  }

  lemma BulletRectsSnoc(bs: seq<Bullet>, b: Bullet)
    ensures BulletRects(bs + [b]) == BulletRects(bs) + [b.rect]
  {
  }

  /** `spritecollide(e, group, dokill=True)` as the bullet group sees it: the
      bullets that collide with the enemy rectangle `e` are dropped, the others
      kept in order. */
  method KillCollided(e: Rect, group: seq<Bullet>) returns (kept: seq<Bullet>)
    ensures BulletRects(kept) == Unhit(BulletRects(group), e)
    ensures forall b :: b in kept ==> b in group
    ensures Distinct(group) ==> Distinct(kept)
  {
    kept := [];
    for j := 0 to |group|
      invariant BulletRects(kept) == Unhit(BulletRects(group[..j]), e)
      invariant forall b :: b in kept ==> b in group[..j]
      invariant Distinct(group) ==> Distinct(kept)
    {
      assert group[..j + 1] == group[..j] + [group[j]];
      assert BulletRects(group[..j + 1])[..j] == BulletRects(group[..j]);
      if !Overlaps(e, group[j].rect) {
        NotYetTaken(group, j, kept);
        kept := kept + [group[j]];
      }
    }
    assert group[..|group|] == group;
  }

  /** Appending the j-th sprite of a distinct group to a selection from the
      sprites before it keeps the selection distinct. */
  lemma NotYetTaken<T>(group: seq<T>, j: nat, taken: seq<T>)
    requires j < |group| && forall x :: x in taken ==> x in group[..j]
    ensures Distinct(group) ==> group[j] !in taken
    ensures Distinct(group) && Distinct(taken) ==> Distinct(taken + [group[j]])
    ensures forall x :: x in taken + [group[j]] ==> x in group[..j + 1]
  {
    if Distinct(group) {
      forall x | x in taken ensures x != group[j] {
        var k :| 0 <= k < j && group[..j][k] == x;
        assert x == group[k];
      }
    }
    if Distinct(group) && Distinct(taken) {
      var t := taken + [group[j]];
      forall a, b | 0 <= a < b < |t| ensures t[a] != t[b] {
        if b == |taken| {
          assert t[a] in taken;
        }
      }
    }
  }

  class World {
    const sizes: Sizes
    const player: Player
    var enemies: seq<Enemy>
    var bullets: seq<Bullet>
    var score: int
    var running: bool
    /** Every object the session is made of. */
    ghost var Repr: set<object>

    /** The session as a value. */
    ghost function View(): WorldState
      reads this, player, enemies, bullets
    {
      WorldState(player.State(), EnemyStates(enemies), BulletRects(bullets), score, running)
    }

    /** The session owns its sprites, the groups hold distinct sprites and
        every bullet rises at the bullet speed. */
    ghost predicate Owned()
      reads this, bullets
    {
      this in Repr && player in Repr &&
      (forall e :: e in enemies ==> e in Repr) && (forall b :: b in bullets ==> b in Repr) &&
      Distinct(enemies) && Distinct(bullets) &&
      (forall b :: b in bullets ==> b.speedY == BULLET_SPEED)
    }

    /** An owned session that satisfies the game invariant. */
    ghost predicate Valid()
      reads this, player, enemies, bullets
    {
      Owned() && Inv(View(), sizes)
    }

    /** The set-up of a session: the player created at time `now`, eight enemies
        from the draws `spawns`, empty bullet group, score 0, running. */
    constructor (z: Sizes, now: int, spawns: seq<Spawn>)
      requires ValidSizes(z) && |spawns| == ENEMY_COUNT
      requires forall d :: d in spawns ==> ValidSpawn(d, z.enemyW)
      ensures Valid() && View() == Initial(z, now, spawns)
      ensures fresh(Repr)
    {
      sizes := z;
      var p := new Player(z.playerW, z.playerH, now);
      player := p;
      var es: seq<Enemy> := [];
      for i := 0 to ENEMY_COUNT
        invariant p.State() == NewPlayer(z.playerW, z.playerH, now)
        invariant |es| == i && Distinct(es)
        invariant forall j :: 0 <= j < i ==> fresh(es[j]) && es[j].State() == NewEnemy(spawns[j], z.enemyW, z.enemyH)
      {
        var e := new Enemy(spawns[i], z.enemyW, z.enemyH);
        es := es + [e];
      }
      enemies := es;
      bullets := [];
      score := 0;
      running := true;
      new;
      Repr := {this, player} + set e | e in enemies;
      assert EnemyStates(enemies) == Respawned(spawns, z);
      InitialInv(z, now, spawns);
    }

    /** One event: Quit stops the session, Space makes the player shoot and a
        fired bullet joins the bullet group. */
    method HandleEvent(ev: Event)
      requires Distinct(bullets) && forall b :: b in bullets ==> b.speedY == BULLET_SPEED
      requires forall b :: b in bullets ==> b in Repr
      modifies this, player
      ensures Controls(player.State(), BulletRects(bullets), running) ==
              FrameRules.HandleEvent(old(Controls(player.State(), BulletRects(bullets), running)), ev, sizes)
      ensures enemies == old(enemies) && score == old(score)
      ensures Distinct(bullets) && forall b :: b in bullets ==> b.speedY == BULLET_SPEED
      ensures (forall b :: b in bullets ==> b in Repr) && old(Repr) <= Repr && fresh(Repr - old(Repr))
    {
      match ev
      case Quit =>
        running := false;
      case KeyDown(key, ticks) =>
        if key == Space {
          var b := player.Shoot(ticks, sizes.bulletW, sizes.bulletH);
          if b != null {
            BulletRectsSnoc(bullets, b);
            bullets := bullets + [b];
            Repr := Repr + {b};
          }
        }
      case OtherEvent =>
    }

    /** The event pass: the events of the frame handled in order. */
    method HandleEvents(events: seq<Event>)
      requires Distinct(bullets) && forall b :: b in bullets ==> b.speedY == BULLET_SPEED
      requires forall b :: b in bullets ==> b in Repr
      modifies this, player
      ensures Controls(player.State(), BulletRects(bullets), running) ==
              FrameRules.HandleEvents(old(Controls(player.State(), BulletRects(bullets), running)), events, sizes)
      ensures enemies == old(enemies) && score == old(score)
      ensures Distinct(bullets) && forall b :: b in bullets ==> b.speedY == BULLET_SPEED
      ensures (forall b :: b in bullets ==> b in Repr) && old(Repr) <= Repr && fresh(Repr - old(Repr))
    {
      ghost var c0 := Controls(player.State(), BulletRects(bullets), running);
      for i := 0 to |events|
        invariant Controls(player.State(), BulletRects(bullets), running) ==
                  FrameRules.HandleEvents(c0, events[..i], sizes)
        invariant enemies == old(enemies) && score == old(score)
        invariant Distinct(bullets) && forall b :: b in bullets ==> b.speedY == BULLET_SPEED
        invariant (forall b :: b in bullets ==> b in Repr) && old(Repr) <= Repr && fresh(Repr - old(Repr))
      {
        assert events[..i + 1][..i] == events[..i];
        HandleEvent(events[i]);
      }
      assert events[..|events|] == events;
    }

    /** Every enemy updated in place, enemy i taking `recycle[i]` should it recycle. */
    method UpdateEnemies(recycle: seq<Spawn>)
      requires Distinct(enemies) && |recycle| == |enemies|
      requires forall i :: 0 <= i < |enemies| ==> ValidSpawn(recycle[i], EnemyStates(enemies)[i].rect.w)
      modifies enemies
      ensures EnemyStates(enemies) == AdvanceEnemies(old(EnemyStates(enemies)), recycle)
    {
      ghost var es0 := EnemyStates(enemies);
      for i := 0 to |enemies|
        invariant forall j :: 0 <= j < i ==> enemies[j].State() == EnemyAdvance(es0[j], recycle[j])
        invariant forall j :: i <= j < |enemies| ==> enemies[j].State() == es0[j]
      {
        enemies[i].Update(recycle[i]);
      }
    }

    /** Every bullet updated in place; those that left the top of the screen are
        removed from the group. */
    method UpdateBullets()
      requires Distinct(bullets) && forall b :: b in bullets ==> b.speedY == BULLET_SPEED
      modifies this`bullets, bullets
      ensures BulletRects(bullets) == AdvanceBullets(old(BulletRects(bullets)))
      ensures Distinct(bullets) && forall b :: b in bullets ==> b in old(bullets) && b.speedY == BULLET_SPEED
    {
      ghost var bs0 := BulletRects(bullets);
      var group := bullets;
      var live: seq<Bullet> := [];
      for i := 0 to |group|
        invariant UpdatingBullets(group, bs0, i, live)
      {
        live := UpdateBullet(group, bs0, i, live);
      }
      assert bs0[..|group|] == bs0;
      bullets := live;
    }

    /** Bullet update in progress: the first `i` bullets of `group` have been
        updated and `live` holds those still on screen; the others still have
        their rectangles `bs0`. */
    ghost predicate UpdatingBullets(group: seq<Bullet>, bs0: seq<Rect>, i: nat, live: seq<Bullet>)
      reads group, live
    {
      |bs0| == |group| && i <= |group| && Distinct(group) &&
      (forall j :: i <= j < |group| ==> group[j].rect == bs0[j] && group[j].speedY == BULLET_SPEED) &&
      BulletRects(live) == AdvanceBullets(bs0[..i]) &&
      Distinct(live) && (forall b :: b in live ==> b in group[..i] && b.speedY == BULLET_SPEED)
    }

    /** The update of the i-th bullet of the pass; it stays live, after `live`,
        unless it left the top of the screen. */
    method UpdateBullet(group: seq<Bullet>, ghost bs0: seq<Rect>, i: nat, live: seq<Bullet>) returns (live': seq<Bullet>)
      requires i < |group| && UpdatingBullets(group, bs0, i, live)
      modifies group[i]
      ensures UpdatingBullets(group, bs0, i + 1, live')
    {
      assert bs0[..i + 1] == bs0[..i] + [bs0[i]];
      AdvanceBulletsSnoc(bs0[..i], bs0[i]);
      NotYetTaken(group, i, live);
      var b := group[i];
      var killed := b.Update();
      live' := live;
      if !killed {
        BulletRectsSnoc(live, b);
        live' := live + [b];
      }
    }

    /** The bullets that collide with enemy `e` are killed; reports whether
        there were any, in which case the enemy is killed too. */
    method CollideOne(e: Enemy) returns (hit: bool)
      requires Distinct(bullets)
      modifies this`bullets
      ensures BulletRects(bullets) == Unhit(old(BulletRects(bullets)), e.rect)
      ensures hit == HitBy(e.rect, old(BulletRects(bullets)))
      ensures !hit ==> BulletRects(bullets) == old(BulletRects(bullets))
      ensures Distinct(bullets) && forall b :: b in bullets ==> b in old(bullets)
    {
      var kept := KillCollided(e.rect, bullets);
      UnhitShrinks(BulletRects(bullets), e.rect);
      hit := |kept| < |bullets|;
      bullets := kept;
    }

    /** `groupcollide(enemies, bullets, True, True)`: enemies in group order, each
        killed with the live bullets it collides with; returns the number of
        enemies killed. */
    method CollideGroups() returns (hits: nat)
      requires Distinct(enemies) && Distinct(bullets)
      modifies this`enemies, this`bullets
      ensures GroupCollide(old(EnemyStates(enemies)), old(BulletRects(bullets))) ==
              Collision(EnemyStates(enemies), BulletRects(bullets), hits)
      ensures Distinct(enemies) && Distinct(bullets)
      ensures forall e :: e in enemies ==> e in old(enemies)
      ensures forall b :: b in bullets ==> b in old(bullets)
    {
      ghost var es0, bs0, bullets0 := EnemyStates(enemies), BulletRects(bullets), bullets;
      var group := enemies;
      var survivors: seq<Enemy> := [];
      hits := 0;
      for i := 0 to |group|
        invariant Colliding(group, es0, bs0, bullets0, i, survivors, hits)
      {
        survivors, hits := CollideNext(group, es0, bs0, bullets0, i, survivors, hits);
      }
      assert es0[..|group|] == es0;
      enemies := survivors;
    }

    /** The pass in progress: the first `i` enemies of `group` (whose states are
        `es0`) have had their turn against the bullets, which started as
        `bullets0` with rectangles `bs0`; `survivors` are those not killed. */
    ghost predicate Colliding(group: seq<Enemy>, es0: seq<EnemyState>, bs0: seq<Rect>, bullets0: seq<Bullet>,
                              i: nat, survivors: seq<Enemy>, hits: nat)
      reads this, group, survivors, bullets
    {
      i <= |group| && Distinct(group) && EnemyStates(group) == es0 &&
      GroupCollide(es0[..i], bs0) == Collision(EnemyStates(survivors), BulletRects(bullets), hits) &&
      Distinct(survivors) && (forall e :: e in survivors ==> e in group[..i]) &&
      Distinct(bullets) && (forall b :: b in bullets ==> b in bullets0)
    }

    /** The turn of the i-th enemy of the pass: it is killed with the bullets it
        collides with, or joins the survivors when there are none. */
    method CollideNext(group: seq<Enemy>, ghost es0: seq<EnemyState>, ghost bs0: seq<Rect>,
                       ghost bullets0: seq<Bullet>, i: nat, survivors: seq<Enemy>, hits: nat)
      returns (survivors': seq<Enemy>, hits': nat)
      requires i < |group| && Colliding(group, es0, bs0, bullets0, i, survivors, hits)
      modifies this`bullets
      ensures Colliding(group, es0, bs0, bullets0, i + 1, survivors', hits')
    {
      var e := group[i];
      ghost var c := GroupCollide(es0[..i], bs0);
      assert es0[..i + 1] == es0[..i] + [e.State()];
      GroupCollideSnoc(es0[..i], e.State(), bs0);
      NotYetTaken(group, i, survivors);
      var hit := CollideOne(e);
      assert EnemyStates(group) == es0 && EnemyStates(survivors) == c.survivors;
      survivors', hits' := survivors, hits;
      if hit {
        hits' := hits + 1;
      } else {
        EnemyStatesSnoc(survivors, e);
        survivors' := survivors + [e];
      }
      assert GroupCollide(es0[..i + 1], bs0) == Collision(EnemyStates(survivors'), BulletRects(bullets), hits');
    }

    /** One replacement enemy per kill, each worth KILL_SCORE points. */
    method Respawn(hits: nat, draws: seq<Spawn>)
      requires hits <= |draws| && Distinct(enemies)
      requires forall d :: d in draws ==> ValidSpawn(d, sizes.enemyW)
      modifies this`enemies, this`score, this`Repr
      ensures EnemyStates(enemies) == old(EnemyStates(enemies)) + Respawned(draws[..hits], sizes)
      ensures score == old(score) + KILL_SCORE * hits
      ensures Distinct(enemies)
      ensures (forall e :: e in enemies ==> e in old(enemies) || e in Repr - old(Repr))
      ensures old(Repr) <= Repr && fresh(Repr - old(Repr))
    {
      ghost var es0 := EnemyStates(enemies);
      for k := 0 to hits
        invariant EnemyStates(enemies) == es0 + Respawned(draws[..k], sizes)
        invariant score == old(score) + KILL_SCORE * k
        invariant Distinct(enemies)
        invariant forall e :: e in enemies ==> e in old(enemies) || e in Repr - old(Repr)
        invariant old(Repr) <= Repr && fresh(Repr - old(Repr))
      {
        score := score + KILL_SCORE;
        var e := new Enemy(draws[k], sizes.enemyW, sizes.enemyH);
        EnemyStatesSnoc(enemies, e);
        assert draws[..k + 1] == draws[..k] + [draws[k]];
        enemies := enemies + [e];
        Repr := Repr + {e};
      }
    }

    /** `spritecollide(player, enemies, False)` tested for emptiness: whether the
        player collides with some enemy. */
    method PlayerHit() returns (touched: bool)
      ensures touched == Touches(player.rect, EnemyStates(enemies))
    {
      touched := false;
      for i := 0 to |enemies|
        invariant touched == Touches(player.rect, EnemyStates(enemies[..i]))
      {
        assert EnemyStates(enemies[..i + 1]) == EnemyStates(enemies[..i]) + [enemies[i].State()];
        if Overlaps(player.rect, enemies[i].rect) {
          touched := true;
        }
      }
      assert enemies[..|enemies|] == enemies;
    }

    /** The event pass, then the player's update. */
    method Control(f: FrameInput)
      requires Owned()
      modifies Repr
      ensures Owned() && View() == Controlled(old(View()), f, sizes)
      ensures fresh(Repr - old(Repr))
    {
      HandleEvents(f.events);
      player.Update(f.left, f.right);
    }

    /** The update of the enemy and bullet groups. */
    method Advance(f: FrameInput)
      requires Owned() && |f.recycle| == |enemies|
      requires forall i :: 0 <= i < |enemies| ==> ValidSpawn(f.recycle[i], EnemyStates(enemies)[i].rect.w)
      modifies this`bullets, enemies, bullets
      ensures Owned() && View() == Advanced(old(View()), f)
    {
      UpdateEnemies(f.recycle);
      UpdateBullets();
    }

    /** The bullet-against-enemy pass, the replacements and the score. */
    method Collide(f: FrameInput)
      requires Owned() && |f.respawn| == |enemies|
      requires forall d :: d in f.respawn ==> ValidSpawn(d, sizes.enemyW)
      modifies Repr
      ensures Owned() && View() == Collided(old(View()), f, sizes)
      ensures fresh(Repr - old(Repr))
    {
      var hits := CollideGroups();
      Respawn(hits, f.respawn);
    }

    /** The player-contact test. */
    method Contact()
      requires Owned()
      modifies this`running
      ensures Owned() && View() == Contacted(old(View()))
    {
      var touched := PlayerHit();
      if touched {
        running := false;
      }
    }

    /** The passes of one frame, in the order of the game loop. */
    method Frame(f: FrameInput)
      requires Owned() && |f.recycle| == |enemies| && |f.respawn| == |enemies|
      requires forall i :: 0 <= i < |enemies| ==> ValidSpawn(f.recycle[i], EnemyStates(enemies)[i].rect.w)
      requires forall d :: d in f.respawn ==> ValidSpawn(d, sizes.enemyW)
      modifies Repr
      ensures Owned() && View() == FrameRules.Step(old(View()), f, sizes)
      ensures fresh(Repr - old(Repr))
    {
      Control(f);
      Advance(f);
      Collide(f);
      Contact();
    }

    /** One iteration of the game loop. */
    method Step(f: FrameInput)
      requires Valid() && running && ValidInput(f, sizes)
      modifies Repr
      ensures Valid() && View() == FrameRules.Step(old(View()), f, sizes)
      ensures fresh(Repr - old(Repr))
    {
      ghost var s0 := View();
      forall i | 0 <= i < |enemies| ensures ValidSpawn(f.recycle[i], s0.enemies[i].rect.w) {
        assert s0.enemies[i] in s0.enemies && f.recycle[i] in f.recycle;
      }
      Frame(f);
      StepPreservesInv(s0, f, sizes);
    }

    /** The game loop: frames are played while the session runs and frames
        remain; returns how many were played. */
    method Play(frames: seq<FrameInput>) returns (played: nat)
      requires Valid() && forall f :: f in frames ==> ValidInput(f, sizes)
      modifies Repr
      ensures Valid() && View() == Run(old(View()), frames, sizes) && fresh(Repr - old(Repr))
      ensures played <= |frames| && (played < |frames| ==> !running)
    {
      played := 0;
      while running && played < |frames|
        invariant Valid() && played <= |frames|
        invariant Run(old(View()), frames, sizes) == Run(View(), frames[played..], sizes)
        invariant fresh(Repr - old(Repr))
        decreases |frames| - played
      {
        assert frames[played..][1..] == frames[played + 1..];
        Step(frames[played]);
        played := played + 1;
      }
    }
  }
}
