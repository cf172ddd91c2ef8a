/** The browser client's discrete logic: what each websocket message does to
    the page state, what each animation frame does to the shake counter and
    the particles, and the pure choices behind the overlay, the hype glow,
    the head's eyes and the body colours. */
module Browser {
  import opened Grid
  import opened Protocol
  import opened Particles

  /** Particles in a reward burst, frames of screen shake after it. */
  const BurstCount: int := 20
  const ShakeFrames: int := 7

  /** The `GOLD_RAIN` effect: 5 bursts of 10 gold particles at random cells. */
  const GoldRain: string := "GOLD_RAIN"
  const RainBursts: int := 5
  const RainCount: int := 10

  const RewardColor: string := "#ff0055"
  const GoldColor: string := "#FFD700"

  /** The overlay text and colour, or a hidden overlay. */
  datatype Overlay = Hidden | Shown(title: string, color: string)

  /** `game_over` shows the failure overlay and wins over `game_won`, which
      shows the victory one; otherwise the overlay is hidden. */
  function OverlayFor(gameOver: bool, gameWon: bool): (o: Overlay)
    ensures o.Shown? <==> gameOver || gameWon
    ensures gameOver ==> o.title == "SYSTEM FAILURE" && o.color == "#ff0055"
    ensures !gameOver && gameWon ==> o.title == "SYSTEM TRANSCENDED" && o.color == "#ffd700"
  {
    if gameOver then Shown("SYSTEM FAILURE", "#ff0055")
    else if gameWon then Shown("SYSTEM TRANSCENDED", "#ffd700")
    else Hidden
  }

  /** The server never sets `game_won`, so the victory overlay never appears
      and the overlay is up exactly when the game is over. */
  lemma OverlayOnlyOnGameOver(s: Snapshot)
    requires !s.gameWon
    ensures OverlayFor(s.gameOver, s.gameWon).Shown? <==> s.gameOver
    ensures OverlayFor(s.gameOver, s.gameWon) != Shown("SYSTEM TRANSCENDED", "#ffd700")
  {
  }

  /** The glow spread in pixels, or None for `box-shadow: none`. A missing
      hype counts as 0; a positive one gives `min(hype * 2, 100)`. */
  function GlowSpread(hype: Option<real>): (g: Option<real>)
    ensures g.Some? <==> hype.Some? && hype.value > 0.0
    ensures g.Some? ==> 0.0 < g.value <= 100.0 && g.value <= 2.0 * hype.value
    ensures g.Some? ==> g.value == 100.0 || g.value == 2.0 * hype.value
  {
    var h := if hype.Some? then hype.value else 0.0;
    if h > 0.0 then Some(if h * 2.0 < 100.0 then h * 2.0 else 100.0) else None
  }

  /** The glow saturates: from a hype of 50 on it stays at 100. */
  lemma GlowSaturates(hype: real)
    requires hype >= 50.0
    ensures GlowSpread(Some(hype)) == Some(100.0)
  {
  }

  /** Which way the head's eyes face, from the offset of the head from the
      second segment: right, left or down on a matching unit offset, up
      otherwise. */
  function EyeDirection(head: Cell, next: Cell): (d: Direction)
    ensures d == Right <==> head.x - next.x == 1
    ensures d == Left <==> head.x - next.x == -1
    ensures d == Down <==> head.x - next.x != 1 && head.x - next.x != -1 && head.y - next.y == 1
  {
    var dx, dy := head.x - next.x, head.y - next.y;
    if dx == 1 then Right
    else if dx == -1 then Left
    else if dy == 1 then Down
    else Up
  }

  /** After a move the eyes face the way the snake went. */
  lemma EyesFollowMove(c: Cell, d: Direction)
    ensures EyeDirection(Neighbour(c, d), c) == d
  {
  }

  /** The hue of segment `i` of `n`: `180 + 90 * i / n`, cyan to violet. */
  function SegmentHue(i: int, n: int): (hue: real)
    requires 0 <= i < n
    ensures 180.0 <= hue < 270.0
  {
    180.0 + (i as real / n as real) * 90.0
  }

  /** Hues strictly grow from the head towards the tail. */
  lemma HueIncreases(i: int, j: int, n: int)
    requires 0 <= i < j < n
    ensures SegmentHue(i, n) < SegmentHue(j, n)
  {
    assert i as real / n as real < j as real / n as real;
  }

  /** Frames of shake left after `k` frames starting from `s`. */
  function ShakeAfter(s: int, k: nat): int {
    if k == 0 then s
    else ShakeAfter(if s > 0 then s - 1 else s, k - 1)
  }

  /** The countdown loses exactly one per frame and stops at zero. */
  lemma {:induction false} ShakeCountsDown(s: nat, k: nat)
    ensures ShakeAfter(s, k) == if k <= s then s - k else 0
  {
    if k > 0 {
      ShakeCountsDown(if s > 0 then s - 1 else s, k - 1);
    }
  }

  /** The particles of `ps` from index `from` on whose entry in `lives` is
      positive, in order. */
  function Keep(ps: seq<Particle>, lives: seq<real>, from: int): (r: seq<Particle>)
    requires |lives| == |ps| && 0 <= from <= |ps|
    ensures |r| <= |ps| - from
    decreases |ps| - from
  {
    if from == |ps| then []
    else (if lives[from] > 0.0 then [ps[from]] else []) + Keep(ps, lives, from + 1)
  }

  /** One step of the backward sweep on the array: with the suffix after `i`
      already filtered, splicing out an expired `ps[i]` (or keeping a live
      one) leaves the suffix from `i` filtered. */
  lemma SweepStep(ps: seq<Particle>, lives: seq<real>, i: int, cur: seq<Particle>)
    requires |lives| == |ps| && 0 <= i < |ps|
    requires cur == ps[..i + 1] + Keep(ps, lives, i + 1)
    ensures lives[i] <= 0.0 ==> cur[..i] + cur[i + 1..] == ps[..i] + Keep(ps, lives, i)
    ensures lives[i] > 0.0 ==> cur == ps[..i] + Keep(ps, lives, i)
  {
    var front, rest := ps[..i], Keep(ps, lives, i + 1);
    assert ps[..i + 1] == front + [ps[i]];
    assert cur == front + ([ps[i]] + rest);
    if lives[i] <= 0.0 {
      assert Keep(ps, lives, i) == rest;
      assert cur[..i] == front;
      assert cur[i + 1..] == rest;
    } else {
      assert Keep(ps, lives, i) == [ps[i]] + rest;
    }
  }

  /** A particle is kept exactly when its life is positive. */
  lemma {:induction false} KeepMembers(ps: seq<Particle>, lives: seq<real>, from: int)
    requires |lives| == |ps| && 0 <= from <= |ps|
    decreases |ps| - from
    ensures forall j :: from <= j < |ps| && lives[j] > 0.0 ==> ps[j] in Keep(ps, lives, from)
    ensures forall k :: 0 <= k < |Keep(ps, lives, from)| ==>
              exists j :: from <= j < |ps| && ps[j] == Keep(ps, lives, from)[k] && lives[j] > 0.0
  {
    if from < |ps| {
      KeepMembers(ps, lives, from + 1);
      var r := Keep(ps, lives, from);
      var tail := Keep(ps, lives, from + 1);
      var head := if lives[from] > 0.0 then [ps[from]] else [];
      assert r == head + tail;
      forall k | 0 <= k < |r|
        ensures exists j :: from <= j < |ps| && ps[j] == r[k] && lives[j] > 0.0
      {
        if k < |head| {
          assert ps[from] == r[k];
        } else {
          assert r[k] == tail[k - |head|];
        }
      }
    } else {
      assert Keep(ps, lives, from) == [];
    }
  }

  /** Filtering keeps a duplicate-free sequence duplicate-free. */
  lemma {:induction false} KeepDistinct(ps: seq<Particle>, lives: seq<real>, from: int)
    requires |lives| == |ps| && 0 <= from <= |ps| && Distinct(ps)
    decreases |ps| - from
    ensures Distinct(Keep(ps, lives, from))
  {
    if from < |ps| {
      KeepDistinct(ps, lives, from + 1);
      KeepMembers(ps, lives, from + 1);
      var tail := Keep(ps, lives, from + 1);
      forall k | 0 <= k < |tail|
        ensures tail[k] != ps[from]
      {
        var j :| from + 1 <= j < |ps| && ps[j] == tail[k] && lives[j] > 0.0;
      }
    }
  }

  /** The lives of particles `ps` one update after they had motions `ms`. */
  function LivesAfterUpdate(ms: seq<Motion>, ps: seq<Particle>): (r: seq<real>)
    requires |ms| == |ps|
    ensures |r| == |ps|
  {
    seq(|ps|, j requires 0 <= j < |ps| => Advanced(ms[j], ps[j].decay, ps[j].friction).life)
  }

  /** The lives of `ps`, in order. */
  ghost function Lives(ps: seq<Particle>): (r: seq<real>)
    reads ps
    ensures |r| == |ps|
  {
    seq(|ps|, j requires 0 <= j < |ps| reads ps => ps[j].life)
  }

  /** The motions of `ps`, in order. */
  ghost function States(ps: seq<Particle>): (r: seq<Motion>)
    reads ps
    ensures |r| == |ps|
  {
    seq(|ps|, j requires 0 <= j < |ps| reads ps => ps[j].State())
  }

  /** Once every particle of `all` has advanced one frame from `before`, their
      lives are the ones `LivesAfterUpdate` predicts. */
  lemma LivesAfterSweep(all: seq<Particle>, before: seq<Motion>, lives: seq<real>)
    requires |before| == |all| && lives == LivesAfterUpdate(before, all)
    requires forall j :: 0 <= j < |all| ==>
               all[j].State() == Advanced(before[j], all[j].decay, all[j].friction)
    ensures Lives(all) == lives
  {
    var now := Lives(all);
    forall j | 0 <= j < |all|
      ensures now[j] == lives[j]
    {
      assert all[j].State().life == lives[j];
    }
  }

  /** The particles a sweep keeps have life left, at most 1, and a legal
      decay, and they are still distinct. */
  lemma SweepKeepsBounds(all: seq<Particle>)
    requires Distinct(all)
    requires forall j :: 0 <= j < |all| ==> all[j].life <= 1.0 && MinDecay <= all[j].decay < MaxDecay
    ensures Distinct(Keep(all, Lives(all), 0))
    ensures forall p :: p in Keep(all, Lives(all), 0) ==>
              0.0 < p.life <= 1.0 && MinDecay <= p.decay < MaxDecay
  {
    KeepMembers(all, Lives(all), 0);
    KeepDistinct(all, Lives(all), 0);
  }

  /** Particle `p` was launched at canvas point (x, y) with colour `color`
      and the draws `l`, and has not moved yet. */
  ghost predicate Launched(p: Particle, x: real, y: real, color: string, l: Launch)
    reads p
  {
    p.x == x && p.y == y && p.color == color && p.life == 1.0 &&
    p.vx == l.vx && p.vy == l.vy && p.decay == l.decay && p.friction == Friction
  }

  /** One burst sits in `ps` from index `from` on: a particle per draw in
      `launches`, in order, each launched at canvas point (x, y) in `color`. */
  ghost predicate Burst(ps: seq<Particle>, from: int, x: real, y: real, color: string, launches: seq<Launch>)
    reads ps
  {
    0 <= from && from + |launches| <= |ps| &&
    forall i :: 0 <= i < |launches| ==> Launched(ps[from + i], x, y, color, launches[i])
  }

  /** Appending particles after a burst leaves it where it was. */
  lemma BurstKept(ps: seq<Particle>, longer: seq<Particle>, from: int, x: real, y: real, color: string, launches: seq<Launch>)
    requires Burst(ps, from, x, y, color, launches)
    requires |ps| <= |longer| && longer[..|ps|] == ps
    ensures Burst(longer, from, x, y, color, launches)
  {
    forall i | from <= i < from + |launches|
      ensures longer[i] == ps[i]
    {
      assert longer[..|ps|][i] == ps[i];
    }
  }

  /** The first `n` gold-rain bursts sit in `ps` from index `from` on: burst
      `k` is `RainCount` gold particles launched at the centre of
      `rainCells[k]` with the draws `rain[k]`. */
  ghost predicate RainLaunched(ps: seq<Particle>, from: int, rainCells: seq<Cell>, rain: seq<seq<Launch>>, n: int)
    reads ps
  {
    0 <= n <= |rainCells| && n <= |rain| &&
    forall k :: 0 <= k < n ==>
      |rain[k]| == RainCount &&
      Burst(ps, from + k * RainCount, Centre(rainCells[k].x), Centre(rainCells[k].y), GoldColor, rain[k])
  }

  /** Appending burst `k` after the first `k` gold-rain bursts gives the
      first `k + 1`. */
  lemma RainExtended(ps: seq<Particle>, longer: seq<Particle>, from: int, rainCells: seq<Cell>, rain: seq<seq<Launch>>, k: nat)
    requires RainLaunched(ps, from, rainCells, rain, k)
    requires k < |rainCells| && k < |rain| && |rain[k]| == RainCount && from + k * RainCount == |ps|
    requires |ps| <= |longer| && longer[..|ps|] == ps
    requires Burst(longer, |ps|, Centre(rainCells[k].x), Centre(rainCells[k].y), GoldColor, rain[k])
    ensures RainLaunched(longer, from, rainCells, rain, k + 1)
  {
    forall k' | 0 <= k' < k
      ensures Burst(longer, from + k' * RainCount, Centre(rainCells[k'].x), Centre(rainCells[k'].y),
                    GoldColor, rain[k'])
    {
      BurstKept(ps, longer, from + k' * RainCount, Centre(rainCells[k'].x), Centre(rainCells[k'].y),
                GoldColor, rain[k']);
    }
  }

  /** The module-level state of the page script: the last snapshot, the live
      particles, the shake counter, and what the page shows. */
  class Client {
    var gameState: Option<Snapshot>
    var particles: seq<Particle>
    var shakeRemaining: int
    var scoreShown: int
    var statusShown: string
    var glow: Option<real>
    var overlayVisible: bool
    var overlayTitle: string
    var overlayColor: string

    /** No particle appears twice in the array; every particle has life left
        (at most the initial 1) and a legal decay; the shake counter lies in
        [0, 7]. */
    ghost predicate Valid()
      reads this, particles
    {
      Distinct(particles) &&
      (forall p :: p in particles ==> 0.0 < p.life <= 1.0 && MinDecay <= p.decay < MaxDecay) &&
      0 <= shakeRemaining <= ShakeFrames
    }

    constructor ()
      ensures Valid()
      ensures gameState == None && particles == [] && shakeRemaining == 0 && !overlayVisible
    {
      gameState := None;
      particles := [];
      shakeRemaining := 0;
      scoreShown := 0;
      statusShown := "";
      glow := None;
      overlayVisible := false;
      overlayTitle := "";
      overlayColor := "";
    }

    /** Appends one particle per launch, all at the centre of cell
        (gridX, gridY) with full life. */
    method SpawnParticles(gridX: int, gridY: int, color: string, launches: seq<Launch>)
      requires Valid()
      requires forall l :: l in launches ==> LaunchOk(l)
      modifies this`particles
      ensures Valid()
      ensures |particles| == |old(particles)| + |launches|
      ensures particles[..|old(particles)|] == old(particles)
      ensures forall i :: |old(particles)| <= i < |particles| ==> fresh(particles[i])
      ensures Burst(particles, |old(particles)|, Centre(gridX), Centre(gridY), color, launches)
    {
      var px := Centre(gridX);
      var py := Centre(gridY);
      ghost var before := particles;
      ghost var spawned: seq<Particle> := [];
      for i := 0 to |launches|
        invariant particles == before + spawned && |spawned| == i
        invariant forall j :: 0 <= j < i ==>
                    fresh(spawned[j]) && Launched(spawned[j], px, py, color, launches[j])
        invariant Valid()
      {
        var p := new Particle(px, py, color, launches[i]);
        assert launches[i] in launches;
        particles := particles + [p];
        spawned := spawned + [p];
      }
      assert particles[..|before|] == before;
      assert forall i :: 0 <= i < |launches| ==> particles[|before| + i] == spawned[i];
    }

    /** The `GOLD_RAIN` effect: one burst of gold particles per random cell. */
    method SpawnGoldRain(rainCells: seq<Cell>, rain: seq<seq<Launch>>)
      requires Valid()
      requires |rainCells| == RainBursts && |rain| == RainBursts
      requires forall k :: 0 <= k < RainBursts ==>
                 |rain[k]| == RainCount && forall l :: l in rain[k] ==> LaunchOk(l)
      modifies this`particles
      ensures Valid()
      ensures |particles| == |old(particles)| + RainBursts * RainCount
      ensures particles[..|old(particles)|] == old(particles)
      ensures forall i :: |old(particles)| <= i < |particles| ==>
                fresh(particles[i]) && particles[i].color == GoldColor
      ensures RainLaunched(particles, |old(particles)|, rainCells, rain, RainBursts)
    {
      ghost var before := particles;
      ghost var spawned: seq<Particle> := [];
      for k := 0 to RainBursts
        invariant Valid()
        invariant particles == before + spawned && |spawned| == k * RainCount
        invariant forall j :: 0 <= j < |spawned| ==> fresh(spawned[j]) && spawned[j].color == GoldColor
        invariant RainLaunched(particles, |before|, rainCells, rain, k)
      {
        ghost var mid := particles;
        label Before:
        SpawnParticles(rainCells[k].x, rainCells[k].y, GoldColor, rain[k]);
        assert unchanged@Before(mid);
        ghost var burst := particles[|mid|..];
        assert particles == mid + burst;
        forall j | 0 <= j < |burst|
          ensures fresh(burst[j]) && burst[j].color == GoldColor
        {
          assert |rain[k]| == RainCount && burst[j] == particles[|mid| + j];
          assert Launched(particles[|mid| + j], Centre(rainCells[k].x), Centre(rainCells[k].y), GoldColor, rain[k][j]);
        }
        RainExtended(mid, particles, |before|, rainCells, rain, k);
        spawned := spawned + burst;
      }
      assert particles[..|before|] == before;
    }

    /** The effects of an incoming snapshot, before it is stored: when the
        score rose, a reward burst at its food and a 7-frame shake; when it
        carries `GOLD_RAIN`, 5 bursts of 10 gold particles at random cells.
        Existing particles keep their places. */
    method PlayEffects(next: Snapshot, rises: bool, burst: seq<Launch>, rainCells: seq<Cell>, rain: seq<seq<Launch>>)
      requires Valid()
      requires rises ==> next.food.Some?
      requires |burst| == BurstCount && forall l :: l in burst ==> LaunchOk(l)
      requires |rainCells| == RainBursts && |rain| == RainBursts
      requires forall k :: 0 <= k < RainBursts ==>
                 |rain[k]| == RainCount && forall l :: l in rain[k] ==> LaunchOk(l)
      modifies this`particles, this`shakeRemaining
      ensures Valid()
      ensures var rained := next.tiktokEffect == Some(GoldRain);
              && |particles| == |old(particles)| +
                                (if rises then BurstCount else 0) +
                                (if rained then RainBursts * RainCount else 0)
              && particles[..|old(particles)|] == old(particles)
              && shakeRemaining == (if rises then ShakeFrames else old(shakeRemaining))
              && (rises ==> Burst(particles, |old(particles)|, Centre(next.food.value.x),
                                  Centre(next.food.value.y), RewardColor, burst))
              && (rained ==> forall i :: |particles| - RainBursts * RainCount <= i < |particles| ==>
                               particles[i].color == GoldColor)
              && (rained ==> RainLaunched(particles, |particles| - RainBursts * RainCount,
                                          rainCells, rain, RainBursts))
    {
      if rises {
        SpawnParticles(next.food.value.x, next.food.value.y, RewardColor, burst);
        shakeRemaining := ShakeFrames;
      }
      ghost var afterBurst := particles;
      if next.tiktokEffect == Some(GoldRain) {
        SpawnGoldRain(rainCells, rain);
        assert particles[..|old(particles)|] == afterBurst[..|old(particles)|];
        if rises {
          BurstKept(afterBurst, particles, |old(particles)|, Centre(next.food.value.x), Centre(next.food.value.y),
                    RewardColor, burst);
        }
      }
    }

    /** A websocket message. When a previous snapshot exists and the score
        rose, 20 reward particles burst at the new snapshot's food and the
        shake restarts at 7 frames; a `GOLD_RAIN` effect adds 5 bursts of 10
        gold particles at random cells; then the snapshot replaces the old
        one and the page is refreshed. A rising score with no food makes the
        script's handler throw before it changes anything: then `handled`
        is false and the state is as before. */
    method OnMessage(next: Snapshot, burst: seq<Launch>, rainCells: seq<Cell>, rain: seq<seq<Launch>>)
      returns (handled: bool)
      requires Valid()
      requires |burst| == BurstCount && forall l :: l in burst ==> LaunchOk(l)
      requires |rainCells| == RainBursts && |rain| == RainBursts
      requires forall k :: 0 <= k < RainBursts ==>
                 |rain[k]| == RainCount && forall l :: l in rain[k] ==> LaunchOk(l)
      modifies this
      ensures Valid()
      ensures var rises := old(gameState).Some? && next.score > old(gameState).value.score;
              var rained := next.tiktokEffect == Some(GoldRain);
              && (handled <==> !(rises && next.food.None?))
              && (!handled ==> unchanged(this))
              && (handled ==>
                    && gameState == Some(next)
                    && |particles| == |old(particles)| +
                                      (if rises then BurstCount else 0) +
                                      (if rained then RainBursts * RainCount else 0)
                    && particles[..|old(particles)|] == old(particles)
                    && shakeRemaining == (if rises then ShakeFrames else old(shakeRemaining))
                    && (rises ==> Burst(particles, |old(particles)|, Centre(next.food.value.x),
                                        Centre(next.food.value.y), RewardColor, burst))
                    && (rained ==> forall i :: |particles| - RainBursts * RainCount <= i < |particles| ==>
                                     particles[i].color == GoldColor)
                    && (rained ==> RainLaunched(particles, |particles| - RainBursts * RainCount,
                                                rainCells, rain, RainBursts))
                    && Shows(next)
                    && (!next.gameOver && !next.gameWon ==>
                          overlayTitle == old(overlayTitle) && overlayColor == old(overlayColor)))
    {
      var rises := gameState.Some? && next.score > gameState.value.score;
      if rises && next.food.None? {
        return false;
      }
      PlayEffects(next, rises, burst, rainCells, rain);
      label Played:
      gameState := Some(next);
      UpdateUI();
      assert unchanged@Played(particles);
      return true;
    }

    /** What the page shows for snapshot `s`: its score and status, the glow
        for its hype and, unless it is hidden, the overlay for its flags. */
    ghost predicate Shows(s: Snapshot)
      reads this
    {
      scoreShown == s.score && statusShown == s.aiStatus && glow == GlowSpread(s.hype) &&
      overlayVisible == OverlayFor(s.gameOver, s.gameWon).Shown? &&
      (overlayVisible ==>
         overlayTitle == OverlayFor(s.gameOver, s.gameWon).title &&
         overlayColor == OverlayFor(s.gameOver, s.gameWon).color)
    }

    /** Refreshes the page from the current snapshot, if any. Hiding the
        overlay leaves its last text and colour in place. */
    method UpdateUI()
      modifies this`scoreShown, this`statusShown, this`glow,
               this`overlayVisible, this`overlayTitle, this`overlayColor
      ensures gameState.None? ==>
                scoreShown == old(scoreShown) && statusShown == old(statusShown) &&
                glow == old(glow) && overlayVisible == old(overlayVisible) &&
                overlayTitle == old(overlayTitle) && overlayColor == old(overlayColor)
      ensures gameState.Some? ==> Shows(gameState.value)
      ensures gameState.Some? && !gameState.value.gameOver && !gameState.value.gameWon ==>
                overlayTitle == old(overlayTitle) && overlayColor == old(overlayColor)
    {
      if gameState.None? {
        return;
      }
      var s := gameState.value;
      scoreShown := s.score;
      statusShown := s.aiStatus;
      glow := GlowSpread(s.hype);
      var overlay := OverlayFor(s.gameOver, s.gameWon);
      if overlay.Shown? {
        overlayTitle := overlay.title;
        overlayColor := overlay.color;
        overlayVisible := true;
      } else {
        overlayVisible := false;
      }
    }

    /** One animation frame. Nothing happens before the first snapshot;
        otherwise the shake counter drops by one while positive, and the
        particle sweep runs. The two touch disjoint state, so the order in
        which they are applied here does not matter. */
    method Draw()
      requires Valid()
      modifies this`shakeRemaining, this`particles, particles
      ensures Valid()
      ensures old(gameState).None? ==>
                shakeRemaining == old(shakeRemaining) && particles == old(particles) &&
                forall p :: p in particles ==> p.State() == old(p.State())
      ensures old(gameState).Some? ==>
                shakeRemaining == ShakeAfter(old(shakeRemaining), 1) &&
                (forall p :: p in old(particles) ==> p.State() == Advanced(old(p.State()), p.decay, p.friction)) &&
                particles == Keep(old(particles), LivesAfterUpdate(old(States(particles)), old(particles)), 0)
    {
      if gameState.None? {
        return;
      }
      var kept := Sweep(particles);
      particles := kept;
      TickShake();
    }

    /** The shake countdown: one frame less while any is left. */
    method TickShake()
      modifies this`shakeRemaining
      ensures shakeRemaining == ShakeAfter(old(shakeRemaining), 1)
    {
      if shakeRemaining > 0 {
        shakeRemaining := shakeRemaining - 1;
      }
    }
  }

  /** The backward sweep of `draw`: every particle is updated once, and the
      expired ones (life <= 0) are spliced out, the rest keeping their
      order. */
  method Sweep(ps: seq<Particle>) returns (kept: seq<Particle>)
    requires Distinct(ps)
    requires forall p :: p in ps ==> p.life <= 1.0 && MinDecay <= p.decay < MaxDecay
    modifies ps
    ensures forall p :: p in ps ==> p.State() == Advanced(old(p.State()), p.decay, p.friction)
    ensures kept == Keep(ps, LivesAfterUpdate(old(States(ps)), ps), 0)
    ensures Distinct(kept)
    ensures forall p :: p in kept ==> 0.0 < p.life <= 1.0 && MinDecay <= p.decay < MaxDecay
  {
    ghost var before := States(ps);
    ghost var lives := LivesAfterUpdate(before, ps);
    kept := ps;
    var i := |kept|;
    while i > 0
      invariant 0 <= i <= |ps|
      invariant kept == ps[..i] + Keep(ps, lives, i)
      invariant forall j :: 0 <= j < i ==> ps[j].State() == before[j]
      invariant forall j :: i <= j < |ps| ==>
                  ps[j].State() == Advanced(before[j], ps[j].decay, ps[j].friction)
    {
      i := i - 1;
      var p := kept[i];
      assert p == ps[i];
      label Updating:
      p.Update();
      forall j | 0 <= j < |ps| && j != i
        ensures ps[j].State() == old@Updating(ps[j].State())
      {
        assert ps[j] != p;
      }
      assert p.life == lives[i];
      SweepStep(ps, lives, i, kept);
      if p.life <= 0.0 {
        kept := kept[..i] + kept[i + 1..];
      }
    }
    LivesAfterSweep(ps, before, lives);
    forall j | 0 <= j < |ps|
      ensures ps[j].life <= 1.0 && MinDecay <= ps[j].decay < MaxDecay
    {
      assert ps[j] in ps;
      assert before[j].life <= 1.0;
    }
    SweepKeepsBounds(ps);
  }
}
