/** What every run of the formation keeps, and where every game leads, whichever enemies are shot and when,
    and whichever direction and drop flag the game before has left behind. */
module FormationLaws {
  import opened Machine
  import opened VideoMemory
  import opened Wrappers
  import opened Formation

  function Marches(ticks: seq<Tick>): nat {
    if ticks == [] then 0 else Marches(ticks[..|ticks| - 1]) + if ticks[|ticks| - 1].march then 1 else 0
  }

  lemma Unfold(army: Army, xRes: uint16, ticks: seq<Tick>)
    requires army.Valid() && ticks != []
    ensures var init, last := ticks[..|ticks| - 1], ticks[|ticks| - 1];
            && Exec(army, xRes, ticks) == After(Exec(army, xRes, init), xRes, last)
            && Marches(ticks) == Marches(init) + if last.march then 1 else 0
  {
  }

  lemma NothingHappened(right: bool, drop: bool, xRes: uint16)
    ensures Exec(HomeArmy(right, drop), xRes, []) == HomeArmy(right, drop)
  {
  }

  lemma NoneRevived(army: Army, xRes: uint16, tick: Tick, k: nat)
    requires army.Valid() && k < MAX_ENEMIES && After(army, xRes, tick).alive[k]
    ensures army.alive[k]
  {
  }

  // ---------- The sides of the screen ----------

  /** The formation stays on a grid of 20 pixels, so a survivor going right gets as far as this. */
  function Far(xRes: uint16): int {
    20 * ((xRes - 41) / 20)
  }

  ghost predicate Between(army: Army, xRes: uint16) {
    && army.Valid()
    && army.dx % 20 == 0 && army.dy % 40 == 0 && army.dy >= 0
    && forall i | 0 <= i < MAX_ENEMIES && army.alive[i] ::
         20 <= army.X(i) && (army.X(i) <= 600 || army.X(i) <= Far(xRes))
  }

  lemma BetweenAtHome(right: bool, drop: bool, xRes: uint16)
    ensures Between(HomeArmy(right, drop), xRes)
  {
  }

  lemma BetweenAfterMove(army: Army, xRes: uint16)
    requires Between(army, xRes)
    ensures Between(army.Move(xRes), xRes)
  {
  }

  lemma BetweenAfter(army: Army, xRes: uint16, tick: Tick)
    requires Between(army, xRes)
    ensures Between(After(army, xRes, tick), xRes)
  {
    hide Army.Move;
    BetweenAfterMove(army, xRes);
  }

  lemma {:induction false} BetweenAlways(army: Army, xRes: uint16, ticks: seq<Tick>)
    requires Between(army, xRes)
    ensures Between(Exec(army, xRes, ticks), xRes)
  {
    hide After;
    if ticks != [] {
      BetweenAlways(army, xRes, ticks[..|ticks| - 1]);
      BetweenAfter(Exec(army, xRes, ticks[..|ticks| - 1]), xRes, ticks[|ticks| - 1]);
    }
  }

  /** The sprite of enemy `i`, 51 pixels wide in the last row and 45 in the others, is between the sides of
      the screen. */
  predicate InsideSideways(army: Army, xRes: uint16, i: nat) {
    0 <= army.X(i) && army.X(i) + (if i < 12 then 45 else 51) <= xRes
  }

  /** In no game does a survivor's sprite leave the screen sideways. */
  ghost predicate NeverOffTheSides(xRes: uint16) {
    forall right, drop, timer: nat, ticks, i: nat
      | Paced(timer, ticks) && i < MAX_ENEMIES && Exec(HomeArmy(right, drop), xRes, ticks).alive[i]
      :: InsideSideways(Exec(HomeArmy(right, drop), xRes, ticks), xRes, i)
  }

  /** The screen holds the formation at home, and the edge test of `move_enemies`, which takes a sprite to be
      40 pixels wide, is not met with less than 11 pixels to spare. */
  predicate SidesHold(xRes: uint16) {
    xRes >= 651 && (xRes - 1) % 20 >= 10
  }

  lemma NeverOffTheSidesIff(xRes: uint16)
    ensures NeverOffTheSides(xRes) <==> SidesHold(xRes)
  {
    if SidesHold(xRes) {
      forall right, drop, timer: nat, ticks, i: nat
        | Paced(timer, ticks) && i < MAX_ENEMIES && Exec(HomeArmy(right, drop), xRes, ticks).alive[i]
        ensures InsideSideways(Exec(HomeArmy(right, drop), xRes, ticks), xRes, i)
      {
        hide Exec;
        BetweenAtHome(right, drop, xRes);
        BetweenAlways(HomeArmy(right, drop), xRes, ticks);
      }
    } else {
      var n := FirstOffTheSide(xRes);
      assert Paced(0, Unshot(n)) && !InsideSideways(Exec(HomeArmy(true, false), xRes, Unshot(n)), xRes, 17);
    }
  }

  /** A game in which nobody is shot, from its first frame on. */
  function Unshot(n: nat): (ticks: seq<Tick>)
    ensures |ticks| == n && Paced(0, ticks)
  {
    seq(n, t requires 0 <= t < n => Tick((t + 1) % 30 == 0, None))
  }

  lemma ShorterUnshot(m: nat, n: nat)
    requires m <= n
    ensures Unshot(n)[..m] == Unshot(m)
  {
  }

  /** One frame more in which nobody is shot. */
  lemma UnshotStep(army: Army, xRes: uint16, n: nat)
    requires army.Valid() && n > 0
    ensures Exec(army, xRes, Unshot(n)) == Moved(Exec(army, xRes, Unshot(n - 1)), xRes, n % 30 == 0)
  {
    hide Moved;
    ShorterUnshot(n - 1, n);
  }

  lemma {:induction false} UnshotGoesRight(xRes: uint16, n: nat)
    requires n / 30 == 0 || 600 + n / 30 * 20 <= Far(xRes)
    ensures Exec(HomeArmy(true, false), xRes, Unshot(n)) == HomeArmy(true, false).(dx := n / 30 * 20)
  {
    if n > 0 {
      hide Exec, Unshot;
      UnshotGoesRight(xRes, n - 1);
      UnshotStep(HomeArmy(true, false), xRes, n);
    } else {
      NothingHappened(true, false, xRes);
    }
  }

  /** Where the condition fails, the first game that nobody disturbs takes enemy 17 past the right side. */
  lemma FirstOffTheSide(xRes: uint16) returns (n: nat)
    requires !SidesHold(xRes)
    ensures n > 0 && var army := Exec(HomeArmy(true, false), xRes, Unshot(n));
            army.alive[17] && army.X(17) + SpriteWidth(2) > xRes
    ensures n == 1 || (n % 30 == 0 && 600 + n / 30 * 20 == Far(xRes))
  {
    n := if xRes <= 650 then 1 else 30 * ((Far(xRes) - 600) / 20);
    UnshotGoesRight(xRes, n);
  }

  lemma DrawnWhileRoom(mode: ModeInfo, dx: nat)
    requires 651 + dx <= mode.xRes && mode.yRes >= 244
    ensures StillPlaying(mode, HomeArmy(true, false).(dx := dx))
  {
  }

  lemma NotDrawn(mode: ModeInfo, army: Army)
    requires army.Valid() && army.alive[17] && 0 <= army.X(17) < 0x1_0000 && 0 <= army.Y(17) < 0x1_0000
    requires army.X(17) + SpriteWidth(2) > mode.xRes || army.Y(17) + SPRITE_HEIGHT > mode.yRes
    ensures !AllDrawn(mode, army)
  {
    assert !Drawable(mode, DrawnBox(army.X(17), army.Y(17), 17 / ENEMY_COLS));
  }

  lemma UnshotKeepsPlaying(mode: ModeInfo, n: nat)
    requires n == 1 || (mode.yRes >= 244 && n % 30 == 0 && 600 + n / 30 * 20 == Far(mode.xRes))
    ensures KeptPlaying(mode, HomeArmy(true, false), Unshot(n))
  {
    hide Exec, Unshot, StillPlaying;
    forall m | 0 < m < n
      ensures StillPlaying(mode, Exec(HomeArmy(true, false), mode.xRes, Unshot(n)[..m]))
    {
      ShorterUnshot(m, n);
      UnshotGoesRight(mode.xRes, m);
      DrawnWhileRoom(mode, m / 30 * 20);
    }
  }

  /** And there is a frame of that game that is not drawn, so it ends with an error although nobody has done
      anything. */
  lemma UndisturbedGameFails(mode: ModeInfo) returns (n: nat)
    requires !SidesHold(mode.xRes)
    ensures var last := Exec(HomeArmy(true, false), mode.xRes, Unshot(n));
            n > 0 && Run(mode, HomeArmy(true, false), 0, Unshot(n), last, n % 30) && !AllDrawn(mode, last)
  {
    n := FirstOffTheSide(mode.xRes);
    if mode.yRes < 244 {
      n := 1;
    }
    hide Exec, AllDrawn, Unshot, StillPlaying, KeptPlaying;
    UnshotGoesRight(mode.xRes, n);
    NotDrawn(mode, HomeArmy(true, false).(dx := n / 30 * 20));
    UnshotKeepsPlaying(mode, n);
  }

  lemma {:induction false} UnshotGoesLeft(xRes: uint16, n: nat)
    requires n / 30 <= 4
    ensures Exec(HomeArmy(false, false), xRes, Unshot(n)) == HomeArmy(false, false).(dx := -(n / 30 * 20))
  {
    if n > 0 {
      hide Exec, Unshot;
      UnshotGoesLeft(xRes, n - 1);
      UnshotStep(HomeArmy(false, false), xRes, n);
    } else {
      NothingHappened(false, false, xRes);
    }
  }

  /** The bounds of `Between` are reached, and at the left one the formation turns: an undisturbed game from the
      left direction has its first enemy 20 pixels from the side after four marches, and the fifth one turns it. */
  lemma TurnsAtTwenty(xRes: uint16)
    ensures var army := Exec(HomeArmy(false, false), xRes, Unshot(120)); army.alive[0] && army.X(0) == 20
    ensures Exec(HomeArmy(false, false), xRes, Unshot(150)) == Army(-80, 0, true, true, HomeArmy(false, false).alive)
  {
    hide Exec, Unshot;
    UnshotGoesLeft(xRes, 120);
    UnshotGoesLeft(xRes, 149);
    UnshotStep(HomeArmy(false, false), xRes, 150);
    var army := HomeArmy(false, false).(dx := -80);
    assert army.alive[0] && army.AtEdge(0, xRes);
  }

  /** One round trip at the left edge, march by march: turn, drop once, and go the other way. */
  lemma OneDropATurn(xRes: uint16)
    requires xRes >= 700
    ensures Exec(HomeArmy(false, false), xRes, Unshot(180)) == Army(-80, 40, true, false, HomeArmy(false, false).alive)
    ensures Exec(HomeArmy(false, false), xRes, Unshot(210)) == Army(-60, 40, true, false, HomeArmy(false, false).alive)
  {
    hide Exec, Unshot;
    TurnsAtTwenty(xRes);
    NextMarch(HomeArmy(false, false), xRes, 150);
    NextMarch(HomeArmy(false, false), xRes, 180);
  }

  lemma {:induction false} NoMarch(army: Army, xRes: uint16, n: nat, m: nat)
    requires army.Valid() && n % 30 == 0 && m < 30
    ensures Exec(army, xRes, Unshot(n + m)) == Exec(army, xRes, Unshot(n))
  {
    hide Exec, Unshot;
    if m > 0 {
      NoMarch(army, xRes, n, m - 1);
      UnshotStep(army, xRes, n + m);
    }
  }

  lemma NextMarch(army: Army, xRes: uint16, n: nat)
    requires army.Valid() && n % 30 == 0
    ensures Exec(army, xRes, Unshot(n + 30)) == Exec(army, xRes, Unshot(n)).Move(xRes)
  {
    hide Exec, Unshot, Army.Move;
    NoMarch(army, xRes, n, 29);
    UnshotStep(army, xRes, n + 30);
  }

  /** At 650 pixels the first frame already fails; the mode of the game passes, the usual 1024 does not. */
  lemma WidthsOfModes(mode: ModeInfo)
    ensures SidesHold(1152) && !SidesHold(1024)
    ensures mode.xRes == 650 ==>
      && DrawnBox(HomeArmy(true, false).X(17), HomeArmy(true, false).Y(17), 17 / ENEMY_COLS) == Box(600, 210, 51, 34)
      && !Drawable(mode, Box(600, 210, 51, 34)) && !AllDrawn(mode, HomeArmy(true, false))
    ensures DrawnBox(100, 65570, 0) == Box(100, 34, 45, 34)
  {
  }

  // ---------- Progress ----------

  /** An upper bound on the marches until the next drop, as enemy `k` sees it. Only a game that starts with
      the drop flag set can find itself about to drop and at the edge. */
  ghost function Wait(army: Army, xRes: uint16, k: nat): int
    requires army.Valid()
  {
    if army.drop then (if army.HitsEdge(xRes) then 2 else 1)
    else if army.right then 2 + (xRes - army.X(k)) / 20
    else 2 + army.X(k) / 20
  }

  function MostMarches(xRes: uint16): nat {
    2 + xRes / 20
  }

  /** The wait that `drops` drops renew. */
  function Renewed(xRes: uint16, drops: int): int {
    MostMarches(xRes) * drops
  }

  function Drops(army: Army): int {
    army.dy / 40
  }

  /** A march either drops the formation or brings the next drop nearer. */
  lemma MarchProgress(army: Army, xRes: uint16, k: nat)
    requires Between(army, xRes) && k < MAX_ENEMIES && army.alive[k] && xRes >= 600
    ensures var next := army.Move(xRes);
            1 <= Wait(army, xRes, k) <= MostMarches(xRes)
            && (next.dy == army.dy + 40 || (next.dy == army.dy && Wait(next, xRes, k) < Wait(army, xRes, k)))
  {
  }

  /** Every march is paid for by the wait before the first drop or by the wait that a drop renews. */
  lemma {:induction false} MarchesPaidFor(army: Army, xRes: uint16, ticks: seq<Tick>, k: nat)
    requires Between(army, xRes) && xRes >= 600
    requires k < MAX_ENEMIES && Exec(army, xRes, ticks).alive[k]
    ensures army.alive[k]
    ensures var last := Exec(army, xRes, ticks);
            && Drops(last) >= Drops(army)
            && Marches(ticks) + Wait(last, xRes, k) <=
               Wait(army, xRes, k) + Renewed(xRes, Drops(last) - Drops(army))
  {
    hide Wait, Renewed, Exec, Marches, Drops, After;
    if ticks == [] {
      NothingPaid(army, xRes);
    } else {
      var init, tick := ticks[..|ticks| - 1], ticks[|ticks| - 1];
      Unfold(army, xRes, ticks);
      BetweenAlways(army, xRes, init);
      var middle, last := Exec(army, xRes, init), Exec(army, xRes, ticks);
      NoneRevived(middle, xRes, tick, k);
      MarchesPaidFor(army, xRes, init, k);
      TickPaidFor(middle, xRes, tick, k);
      RenewedAdds(xRes, Drops(middle) - Drops(army), Drops(last) - Drops(middle));
    }
  }

  lemma NothingPaid(army: Army, xRes: uint16)
    requires army.Valid()
    ensures Exec(army, xRes, []) == army && Marches([]) == 0 && Renewed(xRes, 0) == 0
  {
  }

  lemma RenewedAdds(xRes: uint16, d: int, e: int)
    ensures Renewed(xRes, d) + Renewed(xRes, e) == Renewed(xRes, d + e)
  {
  }

  /** One tick: a march is paid for, and a shot at another enemy costs nothing. */
  lemma TickPaidFor(army: Army, xRes: uint16, tick: Tick, k: nat)
    requires Between(army, xRes) && xRes >= 600
    requires k < MAX_ENEMIES && After(army, xRes, tick).alive[k]
    ensures var next := After(army, xRes, tick);
            && Drops(next) >= Drops(army)
            && (if tick.march then 1 else 0) + Wait(next, xRes, k) <=
               Wait(army, xRes, k) + Renewed(xRes, Drops(next) - Drops(army))
  {
    hide Wait, MostMarches, Army.Move;
    NoneRevived(army, xRes, tick, k);
    ShotCostsNothing(if tick.march then army.Move(xRes) else army, xRes, tick, k);
    if tick.march {
      MarchProgress(army, xRes, k);
      BetweenAfterMove(army, xRes);
      AliveAfterMove(army, xRes);
      MarchProgress(army.Move(xRes), xRes, k);
    }
  }

  lemma AliveAfterMove(army: Army, xRes: uint16)
    requires army.Valid()
    ensures army.Move(xRes).alive == army.alive
  {
  }

  lemma ShotCostsNothing(army: Army, xRes: uint16, tick: Tick, k: nat)
    requires army.Valid() && k < MAX_ENEMIES
    ensures var next := After(army, xRes, tick.(march := false));
            next.dy == army.dy && Wait(next, xRes, k) <= Wait(army, xRes, k)
  {
  }

  /** As long as one enemy survives, every `2 + xRes / 20` marches the formation drops at least once. */
  lemma InvasionAdvances(right: bool, drop: bool, xRes: uint16, ticks: seq<Tick>, k: nat)
    requires xRes >= 600 && k < MAX_ENEMIES && Exec(HomeArmy(right, drop), xRes, ticks).alive[k]
    ensures Marches(ticks) < Renewed(xRes, Drops(Exec(HomeArmy(right, drop), xRes, ticks)) + 1)
  {
    hide Exec, Renewed, Wait, Marches;
    var home, last := HomeArmy(right, drop), Exec(HomeArmy(right, drop), xRes, ticks);
    BetweenAtHome(right, drop, xRes);
    BetweenAlways(home, xRes, ticks);
    MarchesPaidFor(home, xRes, ticks, k);
    MarchProgress(home, xRes, k);
    MarchProgress(last, xRes, k);
    RenewedAdds(xRes, Drops(last), 1);
    RenewedOnce(xRes);
  }

  lemma RenewedOnce(xRes: uint16)
    ensures Renewed(xRes, 1) == MostMarches(xRes)
  {
  }

  // ---------- The bottom of the screen ----------

  /** While every frame is drawn, no coordinate is truncated: an enemy cannot get past the bottom without
      being caught there. */
  lemma {:induction false} NeverTruncated(right: bool, drop: bool, mode: ModeInfo, ticks: seq<Tick>, k: nat)
    requires KeptPlaying(mode, HomeArmy(right, drop), ticks)
    requires k < MAX_ENEMIES && Exec(HomeArmy(right, drop), mode.xRes, ticks).alive[k]
    ensures var army := Exec(HomeArmy(right, drop), mode.xRes, ticks);
            0 <= army.X(k) < 0x1_0000 && 0 <= army.Y(k) < 0x1_0000
  {
    var home := HomeArmy(right, drop);
    BetweenAtHome(right, drop, mode.xRes);
    BetweenAlways(home, mode.xRes, ticks);
    if ticks != [] {
      hide After, Between, Drawable;
      var init, tick := ticks[..|ticks| - 1], ticks[|ticks| - 1];
      Unfold(home, mode.xRes, ticks);
      var middle := Exec(home, mode.xRes, init);
      NoneRevived(middle, mode.xRes, tick, k);
      KeptBefore(mode, home, ticks);
      NeverTruncated(right, drop, mode, init, k);
      BetweenAlways(home, mode.xRes, init);
      OneDropAtATime(middle, mode, tick, k);
    }
  }

  /** One tick takes an enemy that is at home or drawn not further than 40 pixels down. */
  lemma OneDropAtATime(army: Army, mode: ModeInfo, tick: Tick, k: nat)
    requires Between(army, mode.xRes) && k < MAX_ENEMIES && army.alive[k]
    requires 0 <= army.X(k) < 0x1_0000 && 0 <= army.Y(k) < 0x1_0000
    requires army.dy == 0 || AllDrawn(mode, army)
    ensures 0 <= After(army, mode.xRes, tick).Y(k) < 0x1_0000
  {
  }

  lemma KeptBefore(mode: ModeInfo, start: Army, ticks: seq<Tick>)
    requires start.Valid() && ticks != [] && KeptPlaying(mode, start, ticks)
    ensures var init := ticks[..|ticks| - 1];
            KeptPlaying(mode, start, init) && (init != [] ==> StillPlaying(mode, Exec(start, mode.xRes, init)))
  {
    hide StillPlaying, Exec;
    var init := ticks[..|ticks| - 1];
    assert forall m | 0 < m <= |init| :: init[..m] == ticks[..m];
  }

  /** So a survivor's sprite can be drawn exactly when what its row and the drops leave of the screen is high
      enough, and it is not cut off at the right. */
  lemma DrawnIff(right: bool, drop: bool, mode: ModeInfo, ticks: seq<Tick>, k: nat)
    requires KeptPlaying(mode, HomeArmy(right, drop), ticks)
    requires k < MAX_ENEMIES && Exec(HomeArmy(right, drop), mode.xRes, ticks).alive[k]
    ensures var army, row := Exec(HomeArmy(right, drop), mode.xRes, ticks), k / ENEMY_COLS;
            Drawable(mode, DrawnBox(army.X(k), army.Y(k), row)) <==>
            && 50 + 80 * row + 40 * Drops(army) + 34 <= mode.yRes
            && army.X(k) + (if k < 12 then 45 else 51) <= mode.xRes
  {
    hide Exec, KeptPlaying, Drawable;
    NeverTruncated(right, drop, mode, ticks, k);
    BetweenAtHome(right, drop, mode.xRes);
    BetweenAlways(HomeArmy(right, drop), mode.xRes, ticks);
    BoxDrawable(mode, DrawnBox(Exec(HomeArmy(right, drop), mode.xRes, ticks).X(k),
                               Exec(HomeArmy(right, drop), mode.xRes, ticks).Y(k), k / ENEMY_COLS));
  }

  lemma BoxDrawable(mode: ModeInfo, box: Box)
    requires box.x >= 0 && box.y >= 0 && box.w > 0 && box.h > 0
    ensures Drawable(mode, box) <==> box.x + box.w <= mode.xRes && box.y + box.h <= mode.yRes
  {
  }

  /** After one tick from home, one of the first two enemies of the last column is left, not far from home. */
  lemma NearHome(right: bool, drop: bool, xRes: uint16, tick: Tick) returns (k: nat)
    ensures var army := After(HomeArmy(right, drop), xRes, tick);
            k < 12 && army.alive[k] && 580 <= army.X(k) <= 620 && 50 <= army.Y(k) <= 170
  {
    var army := After(HomeArmy(right, drop), xRes, tick);
    k := if army.alive[5] then 5 else 11;
  }

  /** A screen on which the first frame is drawn is wide enough for the laws above. */
  lemma WideWhenDrawn(right: bool, drop: bool, mode: ModeInfo, tick: Tick)
    requires AllDrawn(mode, After(HomeArmy(right, drop), mode.xRes, tick))
    ensures mode.xRes >= 625
  {
    hide After;
    var k := NearHome(right, drop, mode.xRes, tick);
    var army := After(HomeArmy(right, drop), mode.xRes, tick);
    assert Drawable(mode, DrawnBox(army.X(k), army.Y(k), k / ENEMY_COLS));
  }

  lemma WideEnough(right: bool, drop: bool, mode: ModeInfo, ticks: seq<Tick>)
    requires ticks != [] && KeptPlaying(mode, HomeArmy(right, drop), ticks)
    requires StillPlaying(mode, Exec(HomeArmy(right, drop), mode.xRes, ticks))
    ensures mode.xRes >= 625
  {
    hide After, AllDrawn, Survivors;
    var home := HomeArmy(right, drop);
    assert StillPlaying(mode, Exec(home, mode.xRes, ticks[..1])) by {
      if |ticks| == 1 {
        assert ticks[..1] == ticks;
      }
    }
    assert ticks[..1][..0] == [];
    Unfold(home, mode.xRes, ticks[..1]);
    NothingHappened(right, drop, mode.xRes);
    WideWhenDrawn(right, drop, mode, ticks[..1][0]);
  }

  /** The drops that enemy `k` can make before its sprite is below the screen. */
  function Room(mode: ModeInfo, k: nat): int {
    (mode.yRes - 84 - 80 * (k / ENEMY_COLS)) / 40
  }

  /** The marches of a game in which every frame is drawn are bounded by what the survivors have room for. */
  lemma MarchesBounded(right: bool, drop: bool, mode: ModeInfo, ticks: seq<Tick>, k: nat)
    requires ticks != [] && KeptPlaying(mode, HomeArmy(right, drop), ticks)
    requires var army := Exec(HomeArmy(right, drop), mode.xRes, ticks);
             StillPlaying(mode, army) && k < MAX_ENEMIES && army.alive[k]
    ensures Drops(Exec(HomeArmy(right, drop), mode.xRes, ticks)) <= Room(mode, k)
    ensures Marches(ticks) < Renewed(mode.xRes, Room(mode, k) + 1)
  {
    hide Exec, Marches, Drawable, KeptPlaying, Renewed;
    var army := Exec(HomeArmy(right, drop), mode.xRes, ticks);
    WideEnough(right, drop, mode, ticks);
    DrawnIff(right, drop, mode, ticks, k);
    InvasionAdvances(right, drop, mode.xRes, ticks, k);
    RenewedMonotone(mode.xRes, Drops(army) + 1, Room(mode, k) + 1);
  }

  lemma RenewedMonotone(xRes: uint16, d: int, e: int)
    requires d <= e
    ensures Renewed(xRes, d) <= Renewed(xRes, e)
  {
  }

  /** The enemies march at every thirtieth frame. */
  lemma {:induction false} MarchesPaced(timer: nat, ticks: seq<Tick>)
    requires timer < 30 && Paced(timer, ticks)
    ensures Marches(ticks) == (timer + |ticks|) / 30
  {
    if ticks != [] {
      MarchesPaced(timer, ticks[..|ticks| - 1]);
    }
  }

  /** The frames after which no game is still played. */
  function MostFrames(mode: ModeInfo): int {
    if mode.yRes < 84 then 1 else 30 * Renewed(mode.xRes, Room(mode, 0) + 1)
  }

  lemma SomebodyLeft(alive: seq<bool>) returns (k: nat)
    requires Survivors(alive) > 0
    ensures k < |alive| && alive[k]
  {
    k := |alive| - 1;
    if !alive[k] {
      k := SomebodyLeft(alive[..|alive| - 1]);
    }
  }

  lemma {:induction false} EmptyWhenNobody(alive: seq<bool>)
    requires Survivors(alive) == 0
    ensures forall e | 0 <= e < |alive| :: !alive[e]
  {
    if alive != [] {
      EmptyWhenNobody(alive[..|alive| - 1]);
    }
  }

  /** So no game goes on for ever, whatever is shot. */
  lemma StillPlayedMeansShort(right: bool, drop: bool, mode: ModeInfo, timer: nat, ticks: seq<Tick>, army: Army,
                              moveTimer: int)
    requires timer < 30 && Run(mode, HomeArmy(right, drop), timer, ticks, army, moveTimer)
    requires ticks != [] && StillPlaying(mode, army)
    ensures |ticks| < MostFrames(mode)
  {
    hide Exec, Marches, Paced, KeptPlaying, Renewed, AllDrawn, Survivors;
    var k := SomebodyLeft(army.alive);
    MarchesPaced(timer, ticks);
    MarchesBounded(right, drop, mode, ticks, k);
    RenewedMonotone(mode.xRes, Room(mode, k) + 1, Room(mode, 0) + 1);
    BetweenAtHome(right, drop, mode.xRes);
    BetweenAlways(HomeArmy(right, drop), mode.xRes, ticks);
  }

  /** A new game: the formation is set up and the loop is entered. It is over after boundedly many frames. */
  method NewGame(game: Game, mode: ModeInfo, frames: seq<Frame>)
    returns (outcome: Outcome, handled: nat, ghost ticks: seq<Tick>)
    requires game.Valid() && mode.xRes == game.xRes
    requires forall f | 0 <= f < |frames| :: |frames[f].bullets| == 10
    modifies game`army, game`enemyDirection, game`shouldDrop, game`enemyMoveTimer, game.enemies, game.bullets
    ensures game.Valid() && handled <= |frames| && |ticks| == handled
    ensures Played(mode, HomeArmy(old(game.army).right, old(game.army).drop), old(game.enemyMoveTimer), frames, ticks,
                   game.army, game.enemyMoveTimer)
    ensures game.army.Valid() && Ending(mode, frames, handled, game.army, outcome)
    ensures outcome.Over? ==> handled > 0 && outcome.status == if AllDrawn(mode, game.army) then 0 else 1
    ensures outcome == Over(0) ==> frames[handled - 1].playerLost || forall e | 0 <= e < 18 :: !game.army.alive[e]
    ensures outcome.Playing? ==> handled == |frames| && (handled > 0 ==> exists e :: 0 <= e < 18 && game.army.alive[e])
    ensures |frames| >= MostFrames(mode) ==> outcome.Over?
  {
    hide Run, Shows, AllDrawn, Survivors, MostFrames, Aimed;
    game.InitEnemies();
    ghost var home, timer := game.army, game.enemyMoveTimer;
    outcome, handled, ticks := game.Play(mode, frames);
    if Survivors(game.army.alive) == 0 {
      EmptyWhenNobody(game.army.alive);
    }
    if outcome.Playing? && handled > 0 {
      var e := SomebodyLeft(game.army.alive);
      StillPlayedMeansShort(home.right, home.drop, mode, timer, ticks, game.army, game.enemyMoveTimer);
    }
    AtLeastOneFrame(mode);
  }

  lemma AtLeastOneFrame(mode: ModeInfo)
    ensures MostFrames(mode) >= 1
  {
  }
}
