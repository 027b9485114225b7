/** The enemy formation of the game: marching, dropping, and being shot at. */
module Formation {
  import opened Machine
  import opened VideoMemory
  import opened Wrappers

  const MAX_ENEMIES := 18
  const ENEMY_ROWS := 3
  const ENEMY_COLS := 6
  const ENEMY_WIDTH := 40
  const ENEMY_HEIGHT := 40
  const ENEMY_SPACING_X := 100
  const ENEMY_SPACING_Y := 80
  const ENEMY_START_X := 100
  const ENEMY_START_Y := 50
  const MAX_BULLETS := 10
  const BULLET_WIDTH := 8
  const BULLET_HEIGHT := 30

  datatype Enemy = Enemy(x: int, y: int, active: bool, kind: int)

  datatype Bullet = Bullet(x: int, y: int, active: bool)

  // ---------- The formation as a whole ----------

  /** The enemies as one body: how far they have moved, which way they go, whether they drop next, and who
      is left. */
  datatype Army = Army(dx: int, dy: int, right: bool, drop: bool, alive: seq<bool>) {
    predicate Valid() {
      |alive| == MAX_ENEMIES
    }

    function X(i: nat): int {
      ENEMY_START_X + i % ENEMY_COLS * ENEMY_SPACING_X + dx
    }

    function Y(i: nat): int {
      ENEMY_START_Y + i / ENEMY_COLS * ENEMY_SPACING_Y + dy
    }

    predicate AtEdge(i: nat, xRes: uint16) {
      if right then X(i) + ENEMY_WIDTH >= xRes - 20 else X(i) <= 20
    }

    ghost predicate HitsEdge(xRes: uint16)
      requires Valid()
    {
      exists i :: 0 <= i < MAX_ENEMIES && alive[i] && AtEdge(i, xRes)
    }

    ghost function Move(xRes: uint16): (a: Army)
      requires Valid()
      ensures a.Valid()
    {
      if HitsEdge(xRes) then this.(right := !right, drop := true)
      else if drop then this.(dy := dy + 40, drop := false)
      else this.(dx := if right then dx + 20 else dx - 20)
    }

    function Kill(i: nat): (a: Army)
      requires Valid() && i < MAX_ENEMIES
      ensures a.Valid()
    {
      this.(alive := alive[i := false])
    }
  }

  /** The formation at home; `init_enemies` leaves the direction and the drop flag of the game before. */
  function HomeArmy(right: bool, drop: bool): (a: Army)
    ensures a.Valid()
  {
    Army(0, 0, right, drop, seq(MAX_ENEMIES, i => true))
  }

  /** The array of enemies shows this formation. */
  ghost predicate Shows(enemies: seq<Enemy>, army: Army) {
    && |enemies| == MAX_ENEMIES && army.Valid()
    && forall i | 0 <= i < MAX_ENEMIES ::
         && enemies[i].active == army.alive[i]
         && (army.alive[i] ==>
               enemies[i].x == army.X(i) && enemies[i].y == army.Y(i) && enemies[i].kind == i / ENEMY_COLS)
  }

  // ---------- Drawing ----------

  /** The width and height of the sprites of the three rows, as their XPM headers give them. */
  function SpriteWidth(kind: int): nat {
    if kind == 2 then 51 else 45
  }

  const SPRITE_HEIGHT := 34

  /** The box in which `print_xpm` draws an enemy: its coordinates are 16-bit arguments. */
  function DrawnBox(x: int, y: int, kind: int): Box {
    Box(U16(x), U16(y), SpriteWidth(kind), SPRITE_HEIGHT)
  }

  /** Every enemy left can be drawn. */
  ghost predicate AllDrawn(mode: ModeInfo, army: Army)
    requires army.Valid()
  {
    forall i | 0 <= i < MAX_ENEMIES && army.alive[i] ::
      Drawable(mode, DrawnBox(army.X(i), army.Y(i), i / ENEMY_COLS))
  }

  // ---------- One timer interrupt ----------

  /** What one frame of the game loop does to the formation: it may march, and then one enemy may be shot. */
  datatype Tick = Tick(march: bool, shot: Option<nat>)

  ghost function Moved(army: Army, xRes: uint16, march: bool): (a: Army)
    requires army.Valid()
    ensures a.Valid()
  {
    if march then army.Move(xRes) else army
  }

  ghost function After(army: Army, xRes: uint16, tick: Tick): (a: Army)
    requires army.Valid()
    ensures a.Valid()
  {
    var moved := Moved(army, xRes, tick.march);
    if tick.shot.Some? && tick.shot.value < MAX_ENEMIES then moved.Kill(tick.shot.value) else moved
  }

  ghost function Exec(army: Army, xRes: uint16, ticks: seq<Tick>): (a: Army)
    requires army.Valid()
    ensures a.Valid()
  {
    if ticks == [] then army else After(Exec(army, xRes, ticks[..|ticks| - 1]), xRes, ticks[|ticks| - 1])
  }

  /** The enemies move at every thirtieth frame, counting from the value of `enemy_move_timer`. */
  ghost predicate Paced(timer: nat, ticks: seq<Tick>) {
    forall i | 0 <= i < |ticks| :: ticks[i].march <==> (timer + i + 1) % 30 == 0
  }

  ghost predicate StillPlaying(mode: ModeInfo, army: Army)
    requires army.Valid()
  {
    AllDrawn(mode, army) && Survivors(army.alive) > 0
  }

  /** After every frame but the last one everybody left was drawn and somebody was left. */
  ghost predicate KeptPlaying(mode: ModeInfo, start: Army, ticks: seq<Tick>)
    requires start.Valid()
  {
    forall m | 0 < m < |ticks| :: StillPlaying(mode, Exec(start, mode.xRes, ticks[..m]))
  }

  /** A run of the game loop over `ticks`: it leaves `army` and the timer of the enemies' movement. */
  ghost predicate Run(mode: ModeInfo, start: Army, timer: nat, ticks: seq<Tick>, army: Army, moveTimer: int) {
    && start.Valid()
    && army == Exec(start, mode.xRes, ticks)
    && moveTimer == (timer + |ticks|) % 30
    && Paced(timer, ticks)
    && KeptPlaying(mode, start, ticks)
  }

  /** What the loop finds at one timer interrupt: the bullets where they are by then, and whether the ship
      has been hit. */
  datatype Frame = Frame(bullets: seq<Bullet>, playerLost: bool)

  datatype Outcome = Over(status: int) | Playing

  // ---------- Bullets ----------

  predicate Overlaps(b: Bullet, e: Enemy) {
    && b.x < e.x + ENEMY_WIDTH && b.x + BULLET_WIDTH > e.x
    && b.y < e.y + ENEMY_HEIGHT && b.y + BULLET_HEIGHT > e.y
  }

  predicate Hits(b: Bullet, e: Enemy) {
    b.active && e.active && Overlaps(b, e)
  }

  predicate InBox(x: int, y: int, w: nat, h: nat, px: int, py: int) {
    x <= px < x + w && y <= py < y + h
  }

  /** A bullet, 8 by 30 pixels, and the box of 40 by 40 pixels at `(x, y)` have a pixel in common. */
  ghost predicate Meets(b: Bullet, x: int, y: int) {
    exists px, py :: InBox(b.x, b.y, 8, 30, px, py) && InBox(x, y, 40, 40, px, py)
  }

  /** The four comparisons of the collision test decide whether the boxes meet. */
  lemma OverlapsIff(b: Bullet, e: Enemy)
    ensures Overlaps(b, e) <==> Meets(b, e.x, e.y)
  {
    if Overlaps(b, e) {
      var px, py := if b.x < e.x then e.x else b.x, if b.y < e.y then e.y else b.y;
      assert InBox(b.x, b.y, 8, 30, px, py) && InBox(e.x, e.y, 40, 40, px, py);
    }
  }

  /** An active bullet meets an enemy that is left. */
  ghost predicate HitBy(army: Army, b: Bullet, e: nat)
    requires army.Valid() && e < MAX_ENEMIES
  {
    b.active && army.alive[e] && Meets(b, army.X(e), army.Y(e))
  }

  /** Bullet `i` is the first one that meets somebody, and `e` is the first whom it meets. */
  ghost predicate FirstHit(army: Army, bullets: seq<Bullet>, i: nat, e: nat)
    requires army.Valid()
  {
    && i < |bullets| && e < MAX_ENEMIES && HitBy(army, bullets[i], e)
    && (forall i', e' | 0 <= i' < i && 0 <= e' < MAX_ENEMIES :: !HitBy(army, bullets[i'], e'))
    && (forall e' | 0 <= e' < e :: !HitBy(army, bullets[i], e'))
  }

  /** Whom the bullets shoot, if anybody. */
  ghost predicate ShotIs(army: Army, bullets: seq<Bullet>, shot: Option<nat>)
    requires army.Valid()
  {
    match shot
    case None => forall i, e | 0 <= i < |bullets| && 0 <= e < MAX_ENEMIES :: !HitBy(army, bullets[i], e)
    case Some(e) => exists i: nat :: FirstHit(army, bullets, i, e)
  }

  /** The bullets afterwards: the one that shot somebody is used up, and it alone. */
  ghost predicate Spent(army: Army, bullets: seq<Bullet>, shot: Option<nat>, after: seq<Bullet>)
    requires army.Valid()
  {
    match shot
    case None => after == bullets
    case Some(e) =>
      exists i: nat :: FirstHit(army, bullets, i, e) && after == bullets[i := bullets[i].(active := false)]
  }

  /** Bullets decide whom they shoot; and if one of them, active, has a pixel in common with somebody left,
      they shoot somebody. */
  lemma ShotDecided(army: Army, bullets: seq<Bullet>, shot: Option<nat>, shot': Option<nat>)
    requires army.Valid() && ShotIs(army, bullets, shot) && ShotIs(army, bullets, shot')
    ensures shot == shot'
  {
    hide HitBy;
    if shot.Some? && shot'.Some? {
      var i: nat :| FirstHit(army, bullets, i, shot.value);
      var i': nat :| FirstHit(army, bullets, i', shot'.value);
    }
  }

  lemma NobodySpared(army: Army, bullets: seq<Bullet>, shot: Option<nat>, i: nat, e: nat, px: int, py: int)
    requires army.Valid() && ShotIs(army, bullets, shot) && i < |bullets| && e < 18
    requires bullets[i].active && army.alive[e]
    requires bullets[i].x <= px < bullets[i].x + 8 && bullets[i].y <= py < bullets[i].y + 30
    requires army.X(e) <= px < army.X(e) + 40 && army.Y(e) <= py < army.Y(e) + 40
    ensures shot.Some?
  {
    assert InBox(bullets[i].x, bullets[i].y, 8, 30, px, py) && InBox(army.X(e), army.Y(e), 40, 40, px, py);
    assert HitBy(army, bullets[i], e);
  }

  /** Whoever is shot was left, and had a pixel in common with an active bullet that is used up. */
  lemma NobodyShotByMiss(army: Army, bullets: seq<Bullet>, e: nat, after: seq<Bullet>)
    returns (i: nat, px: int, py: int)
    requires army.Valid() && Spent(army, bullets, Some(e), after)
    ensures i < |bullets| && e < 18 && bullets[i].active && army.alive[e]
    ensures bullets[i].x <= px < bullets[i].x + 8 && bullets[i].y <= py < bullets[i].y + 30
    ensures army.X(e) <= px < army.X(e) + 40 && army.Y(e) <= py < army.Y(e) + 40
    ensures after == bullets[i := Bullet(bullets[i].x, bullets[i].y, false)]
  {
    i :| FirstHit(army, bullets, i, e) && after == bullets[i := bullets[i].(active := false)];
    px, py :| InBox(bullets[i].x, bullets[i].y, 8, 30, px, py) && InBox(army.X(e), army.Y(e), 40, 40, px, py);
  }

  /** In every frame exactly the enemy is shot whom the bullets of that frame shoot where it is by then. */
  ghost predicate Aimed(start: Army, xRes: uint16, frames: seq<Frame>, ticks: seq<Tick>)
    requires start.Valid()
  {
    && |ticks| <= |frames|
    && forall f | 0 <= f < |ticks| ::
         ShotIs(Moved(Exec(start, xRes, ticks[..f]), xRes, ticks[f].march), frames[f].bullets, ticks[f].shot)
  }

  /** A run of the game loop over the first frames, one tick each; the ship was hit in none but the last. */
  ghost predicate Played(mode: ModeInfo, start: Army, timer: nat, frames: seq<Frame>, ticks: seq<Tick>, army: Army,
                         moveTimer: int)
  {
    && Run(mode, start, timer, ticks, army, moveTimer)
    && Aimed(start, mode.xRes, frames, ticks)
    && forall f | 0 <= f < |ticks| - 1 :: !frames[f].playerLost
  }

  /** What the loop ends with after `handled` frames, or that it goes on. */
  ghost predicate Ending(mode: ModeInfo, frames: seq<Frame>, handled: nat, army: Army, outcome: Outcome)
    requires army.Valid()
  {
    match outcome
    case Over(status) =>
      && 0 < handled <= |frames|
      && status == (if AllDrawn(mode, army) then 0 else 1)
      && (AllDrawn(mode, army) ==> frames[handled - 1].playerLost || Survivors(army.alive) == 0)
    case Playing =>
      && handled == |frames|
      && (handled > 0 ==> StillPlaying(mode, army) && !frames[handled - 1].playerLost)
  }

  class Game {
    const xRes: uint16
    var enemies: array<Enemy>
    var enemyDirection: int
    var shouldDrop: bool
    var enemyMoveTimer: int
    var bullets: array<Bullet>
    ghost var army: Army

    ghost predicate Valid()
      reads this, enemies, bullets
    {
      && army.Valid() && Shows(enemies[..], army)
      && bullets.Length == MAX_BULLETS
      && enemyDirection == (if army.right then 1 else -1)
      && shouldDrop == army.drop
      && 0 <= enemyMoveTimer < 30
    }

    /** The globals as the program starts. */
    constructor (xRes: uint16)
      ensures Valid() && this.xRes == xRes && fresh(enemies) && fresh(bullets) && enemyMoveTimer == 0
      ensures army.right && !army.drop && forall i | 0 <= i < MAX_ENEMIES :: !army.alive[i]
    {
      this.xRes := xRes;
      enemies := new Enemy[MAX_ENEMIES](_ => Enemy(0, 0, false, 0));
      bullets := new Bullet[MAX_BULLETS](_ => Bullet(0, 0, false));
      enemyDirection, shouldDrop, enemyMoveTimer := 1, false, 0;
      army := Army(0, 0, true, false, seq(MAX_ENEMIES, i => false));
    }

    /** `init_enemies`: everybody is back at home; direction, drop flag and timer are as they were. */
    method InitEnemies()
      requires Valid()
      modifies this`army, enemies
      ensures Valid() && army == HomeArmy(old(army).right, old(army).drop)
      ensures bullets[..] == old(bullets[..])
    {
      var enemyIndex := 0;
      for row := 0 to ENEMY_ROWS
        modifies enemies
        invariant enemyIndex == row * ENEMY_COLS
        invariant forall i | 0 <= i < enemyIndex :: enemies[i] == AtHome(i)
      {
        for col := 0 to ENEMY_COLS
          modifies enemies
          invariant enemyIndex == row * ENEMY_COLS + col
          invariant forall i | 0 <= i < enemyIndex :: enemies[i] == AtHome(i)
        {
          if enemyIndex < MAX_ENEMIES {
            enemies[enemyIndex] := Enemy(ENEMY_START_X + col * ENEMY_SPACING_X, ENEMY_START_Y + row * ENEMY_SPACING_Y,
                                         true, row);
            enemyIndex := enemyIndex + 1;
          }
        }
      }
      army := HomeArmy(army.right, army.drop);
    }

    /** `move_enemies`: the formation moves as one. */
    method MoveEnemies()
      requires Valid()
      modifies this`army, this`enemyDirection, this`shouldDrop, enemies
      ensures Valid() && bullets[..] == old(bullets[..])
      ensures army == old(army).Move(xRes)
    {
      var hitEdge := false;
      for i := 0 to MAX_ENEMIES
        invariant !hitEdge && forall j | 0 <= j < i :: army.alive[j] ==> !army.AtEdge(j, xRes)
      {
        if enemies[i].active {
          if (enemyDirection > 0 && enemies[i].x + ENEMY_WIDTH >= xRes - 20)
             || (enemyDirection < 0 && enemies[i].x <= 20) {
            hitEdge := true;
            assert army.AtEdge(i, xRes);
            break;
          }
        }
      }
      if hitEdge {
        enemyDirection := enemyDirection * -1;
        shouldDrop := true;
        army := army.Move(xRes);
        return;
      }
      for i := 0 to MAX_ENEMIES
        modifies enemies
        invariant forall j | 0 <= j < i :: enemies[j] == Marched(old(enemies[j]), shouldDrop, enemyDirection)
        invariant forall j | i <= j < MAX_ENEMIES :: enemies[j] == old(enemies[j])
      {
        if enemies[i].active {
          if shouldDrop {
            enemies[i] := enemies[i].(y := enemies[i].y + 40);
          } else {
            enemies[i] := enemies[i].(x := enemies[i].x + enemyDirection * 20);
          }
        }
      }
      if shouldDrop {
        shouldDrop := false;
      }
      MarchShown(old(enemies[..]), old(army), xRes, enemies[..]);
      army := army.Move(xRes);
    }

    /** `count_active_enemies`. */
    method CountActiveEnemies() returns (count: int)
      requires Valid()
      ensures count == Survivors(army.alive) == |set i | 0 <= i < MAX_ENEMIES && army.alive[i]|
    {
      count := 0;
      for i := 0 to MAX_ENEMIES
        invariant count == Survivors(army.alive[..i])
      {
        assert army.alive[..i + 1][..i] == army.alive[..i];
        if enemies[i].active {
          count := count + 1;
        }
      }
      assert army.alive[..MAX_ENEMIES] == army.alive;
      SurvivorsAre(army.alive);
    }

    /** `check_bullet_enemy_collision`: of all hits, the one with the first bullet, and of its hits the first
        enemy, takes effect; a bullet and an enemy go, and nothing else changes. */
    method CheckBulletEnemyCollision() returns (hit: int, ghost shot: Option<nat>)
      requires Valid()
      modifies this`army, enemies, bullets
      ensures Valid() && old(army).Valid()
      ensures hit == if shot.Some? then 1 else 0
      ensures ShotIs(old(army), old(bullets[..]), shot) && Spent(old(army), old(bullets[..]), shot, bullets[..])
      ensures shot.None? ==> army == old(army) && enemies[..] == old(enemies[..])
      ensures shot.Some? ==> shot.value < MAX_ENEMIES && army == old(army).Kill(shot.value)
      ensures shot.Some? ==>
        enemies[..] == old(enemies[..])[shot.value := old(enemies[..])[shot.value].(active := false)]
    {
      hide FirstHit, HitBy, Army.X, Army.Y;
      for b := 0 to MAX_BULLETS
        invariant Valid() && army.Valid() && army == old(army)
        invariant enemies[..] == old(enemies[..]) && bullets[..] == old(bullets[..])
        invariant forall b', e | 0 <= b' < b && 0 <= e < MAX_ENEMIES :: !HitBy(army, bullets[b'], e)
      {
        if !bullets[b].active {
          InactiveMisses(army, bullets[b]);
          continue;
        }
        for e := 0 to MAX_ENEMIES
          invariant Valid() && army.Valid() && army == old(army)
          invariant enemies[..] == old(enemies[..]) && bullets[..] == old(bullets[..])
          invariant forall e' | 0 <= e' < e :: !HitBy(army, bullets[b], e')
        {
          HitsMeans(enemies[..], army, bullets[b], e);
          if !enemies[e].active {
            continue;
          }
          if bullets[b].x < enemies[e].x + ENEMY_WIDTH && bullets[b].x + BULLET_WIDTH > enemies[e].x
             && bullets[b].y < enemies[e].y + ENEMY_HEIGHT && bullets[b].y + BULLET_HEIGHT > enemies[e].y {
            FirstHitFound(army, bullets[..], b, e);
            ShotShown(enemies[..], army, e);
            bullets[b] := bullets[b].(active := false);
            enemies[e] := enemies[e].(active := false);
            army := army.Kill(e);
            return 1, Some(e);
          }
        }
      }
      return 0, None;
    }

    /** `enemies_moving`: every thirtieth call moves the enemies. */
    method EnemiesMoving() returns (ghost march: bool)
      requires Valid()
      modifies this`army, this`enemyDirection, this`shouldDrop, this`enemyMoveTimer, enemies
      ensures Valid() && bullets[..] == old(bullets[..])
      ensures march <==> old(enemyMoveTimer) == 29
      ensures enemyMoveTimer == (old(enemyMoveTimer) + 1) % 30
      ensures army == if march then old(army).Move(xRes) else old(army)
    {
      hide Army.Move;
      march := false;
      var timer := enemyMoveTimer + 1;
      if timer >= 30 {
        MoveEnemies();
        march := true;
        enemyMoveTimer := 0;
      } else {
        enemyMoveTimer := timer;
      }
    }

    /** `draw_enemy` and `draw_all_enemies`, as far as their result goes. */
    method DrawAllEnemies(mode: ModeInfo) returns (status: int)
      requires Valid()
      ensures status == if AllDrawn(mode, army) then 0 else 1
    {
      for i := 0 to MAX_ENEMIES
        invariant forall j | 0 <= j < i && army.alive[j] ::
          Drawable(mode, DrawnBox(army.X(j), army.Y(j), j / ENEMY_COLS))
      {
        if enemies[i].active {
          if !Drawable(mode, DrawnBox(enemies[i].x, enemies[i].y, enemies[i].kind)) {
            return 1;
          }
        }
      }
      return 0;
    }

    /** One timer interrupt of the game loop: the enemies move, the bullets that are there hit, and what is
        left is drawn. */
    method Step(mode: ModeInfo, frame: Frame) returns (status: int, count: int, ghost tick: Tick)
      requires Valid() && mode.xRes == xRes && |frame.bullets| == 10
      modifies this`army, this`enemyDirection, this`shouldDrop, this`enemyMoveTimer, enemies, bullets
      ensures Valid() && old(army).Valid()
      ensures tick.march <==> old(enemyMoveTimer) == 29
      ensures enemyMoveTimer == (old(enemyMoveTimer) + 1) % 30
      ensures var moved := Moved(old(army), xRes, tick.march);
              ShotIs(moved, frame.bullets, tick.shot) && Spent(moved, frame.bullets, tick.shot, bullets[..])
      ensures army == After(old(army), xRes, tick)
      ensures status == if AllDrawn(mode, army) then 0 else 1
      ensures count == Survivors(army.alive)
    {
      hide Army.Move, Shows, ShotIs, Spent, AllDrawn, Survivors;
      for i := 0 to MAX_BULLETS
        modifies bullets
        invariant enemies[..] == old(enemies[..]) && forall j | 0 <= j < i :: bullets[j] == frame.bullets[j]
      {
        bullets[i] := frame.bullets[i];
      }
      assert bullets[..] == frame.bullets;
      ghost var march := EnemiesMoving();
      var hit;
      ghost var shot;
      hit, shot := CheckBulletEnemyCollision();
      tick := Tick(march, shot);
      status := DrawAllEnemies(mode);
      count := CountActiveEnemies();
    }

    /** The timer branch of the loop of `game_state`: it ends with an error when an enemy cannot be drawn,
        and well when the ship was hit or no enemy is left. */
    method Play(mode: ModeInfo, frames: seq<Frame>)
      returns (outcome: Outcome, handled: nat, ghost ticks: seq<Tick>)
      requires Valid() && mode.xRes == xRes && forall f | 0 <= f < |frames| :: |frames[f].bullets| == 10
      modifies this`army, this`enemyDirection, this`shouldDrop, this`enemyMoveTimer, enemies, bullets
      ensures Valid() && handled <= |frames| && |ticks| == handled
      ensures Played(mode, old(army), old(enemyMoveTimer), frames, ticks, army, enemyMoveTimer)
      ensures army.Valid() && Ending(mode, frames, handled, army, outcome)
    {
      hide After, AllDrawn, Shows, Played, Survivors, ShotIs, Moved, Spent;
      ghost var start, timer := army, enemyMoveTimer;
      handled, ticks := 0, [];
      PlayStarts(mode, start, timer, frames);
      while handled < |frames|
        invariant Valid() && handled <= |frames| && |ticks| == handled
        invariant Played(mode, start, timer, frames, ticks, army, enemyMoveTimer)
        invariant handled > 0 ==> StillPlaying(mode, army) && !frames[handled - 1].playerLost
        decreases |frames| - handled
      {
        ghost var army0, timer0 := army, enemyMoveTimer;
        var status, count;
        ghost var tick;
        status, count, tick := Step(mode, frames[handled]);
        PlayContinues(mode, start, timer, frames, ticks, army0, timer0, tick);
        ticks := ticks + [tick];
        handled := handled + 1;
        if status != 0 {
          return Over(1), handled, ticks;
        }
        if frames[handled - 1].playerLost {
          return Over(0), handled, ticks;
        }
        if count == 0 {
          return Over(0), handled, ticks;
        }
      }
      return Playing, handled, ticks;
    }

  }

  lemma RunStarts(mode: ModeInfo, start: Army, timer: nat)
    requires start.Valid() && timer < 30
    ensures Run(mode, start, timer, [], start, timer)
  {
  }

  /** The test on the array of enemies is the test on the formation. */
  lemma HitsMeans(enemies: seq<Enemy>, army: Army, b: Bullet, e: nat)
    requires Shows(enemies, army) && e < MAX_ENEMIES
    ensures Hits(b, enemies[e]) <==> HitBy(army, b, e)
  {
    hide Meets, Overlaps;
    OverlapsIff(b, enemies[e]);
  }

  lemma InactiveMisses(army: Army, b: Bullet)
    requires army.Valid() && !b.active
    ensures forall e | 0 <= e < MAX_ENEMIES :: !HitBy(army, b, e)
  {
  }

  lemma FirstHitFound(army: Army, bullets: seq<Bullet>, i: nat, e: nat)
    requires army.Valid() && i < |bullets| && e < MAX_ENEMIES && HitBy(army, bullets[i], e)
    requires forall i', e' | 0 <= i' < i && 0 <= e' < MAX_ENEMIES :: !HitBy(army, bullets[i'], e')
    requires forall e' | 0 <= e' < e :: !HitBy(army, bullets[i], e')
    ensures FirstHit(army, bullets, i, e)
  {
  }

  lemma ShotShown(enemies: seq<Enemy>, army: Army, e: nat)
    requires Shows(enemies, army) && e < MAX_ENEMIES
    ensures Shows(enemies[e := enemies[e].(active := false)], army.Kill(e))
  {
  }

  /** One more frame keeps the run relation. */
  lemma RunContinues(mode: ModeInfo, start: Army, timer: nat, ticks: seq<Tick>, army: Army, moveTimer: int, tick: Tick)
    requires Run(mode, start, timer, ticks, army, moveTimer) && army.Valid()
    requires |ticks| > 0 ==> StillPlaying(mode, army)
    requires tick.march <==> moveTimer == 29
    ensures Run(mode, start, timer, ticks + [tick], After(army, mode.xRes, tick), (moveTimer + 1) % 30)
  {
    hide After, StillPlaying, Exec;
    ExecAppended(start, mode.xRes, ticks, tick);
    PacedAppended(timer, ticks, tick);
    PrefixesKept(ticks, tick);
  }

  lemma PlayStarts(mode: ModeInfo, start: Army, timer: nat, frames: seq<Frame>)
    requires start.Valid() && timer < 30
    ensures Played(mode, start, timer, frames, [], start, timer)
  {
    RunStarts(mode, start, timer);
  }

  lemma PlayContinues(mode: ModeInfo, start: Army, timer: nat, frames: seq<Frame>, ticks: seq<Tick>, army: Army,
                      moveTimer: int, tick: Tick)
    requires Played(mode, start, timer, frames, ticks, army, moveTimer) && army.Valid() && |ticks| < |frames|
    requires |ticks| > 0 ==> StillPlaying(mode, army) && !frames[|ticks| - 1].playerLost
    requires tick.march <==> moveTimer == 29
    requires ShotIs(Moved(army, mode.xRes, tick.march), frames[|ticks|].bullets, tick.shot)
    ensures Played(mode, start, timer, frames, ticks + [tick], After(army, mode.xRes, tick), (moveTimer + 1) % 30)
  {
    hide Exec, ShotIs, Moved, KeptPlaying, Paced, After, StillPlaying;
    PrefixesKept(ticks, tick);
    RunContinues(mode, start, timer, ticks, army, moveTimer, tick);
  }

  lemma ExecAppended(start: Army, xRes: uint16, ticks: seq<Tick>, tick: Tick)
    requires start.Valid()
    ensures Exec(start, xRes, ticks + [tick]) == After(Exec(start, xRes, ticks), xRes, tick)
  {
  }

  lemma PacedAppended(timer: nat, ticks: seq<Tick>, tick: Tick)
    requires Paced(timer, ticks) && (tick.march <==> (timer + |ticks|) % 30 == 29)
    ensures Paced(timer, ticks + [tick])
  {
  }

  function AtHome(i: nat): Enemy {
    var home := HomeArmy(true, false);
    Enemy(home.X(i), home.Y(i), true, i / ENEMY_COLS)
  }

  function Marched(e: Enemy, drop: bool, direction: int): Enemy {
    if !e.active then e
    else if drop then e.(y := e.y + 40)
    else e.(x := e.x + direction * 20)
  }

  /** Moving every active enemy moves the formation. */
  lemma MarchShown(before: seq<Enemy>, army: Army, xRes: uint16, after: seq<Enemy>)
    requires Shows(before, army) && !army.HitsEdge(xRes) && |after| == MAX_ENEMIES
    requires forall j | 0 <= j < MAX_ENEMIES ::
      after[j] == Marched(before[j], army.drop, if army.right then 1 else -1)
    ensures Shows(after, army.Move(xRes))
  {
  }

  function Survivors(alive: seq<bool>): nat {
    if alive == [] then 0 else Survivors(alive[..|alive| - 1]) + if alive[|alive| - 1] then 1 else 0
  }

  lemma {:induction false} SurvivorsAre(alive: seq<bool>)
    ensures Survivors(alive) == |set i | 0 <= i < |alive| && alive[i]|
  {
    if alive != [] {
      var init, all := alive[..|alive| - 1], set i | 0 <= i < |alive| && alive[i];
      SurvivorsAre(init);
      var before := set i | 0 <= i < |init| && init[i];
      assert all == before + if alive[|alive| - 1] then {|alive| - 1} else {};
    }
  }
}
