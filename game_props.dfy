/** What the quiz game promises, proved about the transitions of `GameSpec`. */
module GameProperties {
  import opened Wrappers
  import opened VocabParse
  import opened GameSpec

  // ------------------------------------------------------------- kinematics

  /** `Fruit.update` is exact parabolic motion: after `n` updates the drift
      has moved the bubble `n * vx` sideways, gravity has added `n * g` to the
      vertical speed, and the height follows `y + n * vy + n(n-1)/2 * g`. */
  lemma {:induction false} MovedTimesClosedForm(f: FruitState, n: nat)
    ensures var m, k := MovedTimes(f, n), n as real;
      && m.x == f.x + k * f.vx
      && m.vy == f.vy + k * f.gravity
      && m.y == f.y + k * f.vy + (k * (k - 1.0) / 2.0) * f.gravity
      && m.vx == f.vx && m.gravity == f.gravity && m.radius == f.radius
      && m.meaning == f.meaning && m.isCorrect == f.isCorrect
  {
    if n > 0 {
      MovedTimesClosedForm(f, n - 1);
      var p, j := MovedTimes(f, n - 1), (n - 1) as real;
      assert n as real == j + 1.0;
      assert (j + 1.0) * f.vx == j * f.vx + f.vx;
      assert (j + 1.0) * f.vy == j * f.vy + f.vy;
      assert (j + 1.0) * f.gravity == j * f.gravity + f.gravity;
      var before, after := j * (j - 1.0) / 2.0, (j + 1.0) * j / 2.0;
      assert after == before + j;
      assert after * f.gravity == before * f.gravity + j * f.gravity;
    }
  }

  // ------------------------------------------------------ the frame's bubbles

  /** A frame never adds bubbles. */
  lemma {:induction false} StepAllLength(fs: seq<FruitState>, limit: real)
    ensures |StepAll(fs, limit)| <= |fs|
  {
    if fs != [] {
      if Moved(fs[0]).y > limit {
        if |fs| > 1 {
          StepAllLength(fs[2..], limit);
        }
      } else {
        StepAllLength(fs[1..], limit);
      }
    }
  }

  /** When no bubble leaves the screen, every bubble is updated once, in
      place, and none is dropped. */
  lemma {:induction false} StepAllOnScreen(fs: seq<FruitState>, limit: real)
    requires forall i :: 0 <= i < |fs| ==> Moved(fs[i]).y <= limit
    ensures StepAll(fs, limit) == seq(|fs|, i requires 0 <= i < |fs| => Moved(fs[i]))
  {
    if fs != [] {
      StepAllOnScreen(fs[1..], limit);
    }
  }

  /** Slot `j` of `r` holds bubble `f`, updated or untouched. */
  predicate HoldsAt(r: seq<FruitState>, j: nat, f: FruitState) {
    j < |r| && (r[j] == Moved(f) || r[j] == f)
  }

  /** A bubble is dropped only if its updated position is below the limit:
      every bubble whose update keeps it on screen is still there, at its
      own index or an earlier one (earlier bubbles may have been dropped),
      updated, or not yet updated when it followed a dropped bubble. */
  lemma {:induction false} StepAllDropsOnlyOffScreen(fs: seq<FruitState>, limit: real, i: nat)
    requires i < |fs| && Moved(fs[i]).y <= limit
    ensures exists j: nat :: j <= i && HoldsAt(StepAll(fs, limit), j, fs[i])
  {
    var r := StepAll(fs, limit);
    if Moved(fs[0]).y > limit {
      assert r == [fs[1]] + StepAll(fs[2..], limit);
      if i == 1 {
        assert HoldsAt(r, 0, fs[i]);
      } else {
        assert fs[2..][i - 2] == fs[i];
        StepAllDropsOnlyOffScreen(fs[2..], limit, i - 2);
        var j: nat :| j <= i - 2 && HoldsAt(StepAll(fs[2..], limit), j, fs[i]);
        assert HoldsAt(r, j + 1, fs[i]);
      }
    } else {
      assert r == [Moved(fs[0])] + StepAll(fs[1..], limit);
      if i == 0 {
        assert HoldsAt(r, 0, fs[i]);
      } else {
        assert fs[1..][i - 1] == fs[i];
        StepAllDropsOnlyOffScreen(fs[1..], limit, i - 1);
        var j: nat :| j <= i - 1 && HoldsAt(StepAll(fs[1..], limit), j, fs[i]);
        assert HoldsAt(r, j + 1, fs[i]);
      }
    }
  }

  /** Every bubble left after a frame comes from an input bubble at its own
      index or a later one: either that bubble updated and on screen, or
      that bubble untouched because it followed a dropped one. */
  lemma {:induction false} StepAllOrigins(fs: seq<FruitState>, limit: real, j: nat)
    requires j < |StepAll(fs, limit)|
    ensures var s := StepAll(fs, limit)[j];
      exists i :: j <= i < |fs| && (s == fs[i] || (s == Moved(fs[i]) && s.y <= limit))
  {
    var r := StepAll(fs, limit);
    if Moved(fs[0]).y > limit {
      if j == 0 {
        assert r[0] == fs[1];
      } else {
        StepAllOrigins(fs[2..], limit, j - 1);
        var s := r[j];
        assert s == StepAll(fs[2..], limit)[j - 1];
        var i :| j - 1 <= i < |fs[2..]| && (s == fs[2..][i] || (s == Moved(fs[2..][i]) && s.y <= limit));
        assert fs[2..][i] == fs[i + 2];
      }
    } else if j == 0 {
      assert r[0] == Moved(fs[0]);
    } else {
      StepAllOrigins(fs[1..], limit, j - 1);
      var s := r[j];
      assert s == StepAll(fs[1..], limit)[j - 1];
      var i :| j - 1 <= i < |fs[1..]| && (s == fs[1..][i] || (s == Moved(fs[1..][i]) && s.y <= limit));
      assert fs[1..][i] == fs[i + 1];
    }
  }

  /** The quirk of splicing inside `forEach`: the bubble after a dropped one
      is kept as it was, neither moved nor checked, even if it is itself
      below the limit. */
  lemma StepAllSkipsFollower(a: FruitState, b: FruitState, rest: seq<FruitState>, limit: real)
    requires Moved(a).y > limit
    ensures StepAll([a, b] + rest, limit) == [b] + StepAll(rest, limit)
  {
    assert ([a, b] + rest)[2..] == rest;
  }

  // ------------------------------------------------------------------- taps

  /** A tap while not playing, or one that hits no bubble, changes nothing:
      neither the bubbles nor the score. */
  lemma TapMissChangesNothing(g: GameState, cfg: Config, px: real, py: real, idx: nat)
    requires ValidPick(idx, cfg.vocab)
    requires !g.isPlaying || forall j :: 0 <= j < |g.fruits| ==> !Hits(g.fruits[j], px, py)
    ensures Tap(g, cfg, px, py, idx) == g
  {
  }

  /** A tap that hits removes exactly the topmost bubble under it (the hit
      bubble of highest index), keeps the others in order, and scores by the
      bubble's correct flag alone, not by its text: +10 and a new target from
      the vocabulary for a flagged bubble, -5 and the same target otherwise.
      There is no lower bound on the score. */
  lemma TapHitsTopmost(g: GameState, cfg: Config, px: real, py: real, idx: nat, k: nat)
    requires ValidPick(idx, cfg.vocab) && g.isPlaying
    requires k < |g.fruits| && Hits(g.fruits[k], px, py)
    requires forall j :: k < j < |g.fruits| ==> !Hits(g.fruits[j], px, py)
    ensures var r := Tap(g, cfg, px, py, idx);
      && r.fruits == g.fruits[..k] + g.fruits[k + 1..]
      && r.isPlaying && r.timeLeft == g.timeLeft
      && r.lastTime == g.lastTime && r.spawnTimer == g.spawnTimer
      && (g.fruits[k].isCorrect ==>
            r.score == g.score + 10
            && (cfg.vocab != [] ==> r.currentTarget == Some(cfg.vocab[idx])))
      && (!g.fruits[k].isCorrect ==> r.score == g.score - 5 && r.currentTarget == g.currentTarget)
  {
    var h := HitIndex(g.fruits, px, py);
    assert h == Some(k);
  }

  // ------------------------------------------------------------------ start

  /** `startGame` with fewer than four entries changes nothing; otherwise it
      resets score, clock and bubbles, starts playing, and the target is an
      entry of the vocabulary. The frame clocks are left as they were. */
  lemma StartResets(g: GameState, cfg: Config, idx: nat)
    requires ValidPick(idx, cfg.vocab)
    ensures var r := Start(g, cfg, idx);
      && (|cfg.vocab| < MIN_VOCAB ==> r == g)
      && (|cfg.vocab| >= MIN_VOCAB ==>
            && r.score == 0 && r.timeLeft == cfg.duration && r.fruits == [] && r.isPlaying
            && r.currentTarget.Some? && r.currentTarget.value in cfg.vocab
            && r.lastTime == g.lastTime && r.spawnTimer == g.spawnTimer)
  {
  }

  // ------------------------------------------------------------------ waves

  /** A wave is empty without a target and otherwise one or two bubbles,
      as the wave coin says. Each bubble is launched from just below the
      bottom edge with radius 60; a bubble flagged correct shows the target's
      meaning; a distractor shows "Wrong" or the meaning of some entry, and
      never the target's meaning unless that meaning is itself "Wrong". */
  lemma WaveShape(g: GameState, cfg: Config, two: bool, draws: seq<Draw>)
    requires ValidDraws(draws, cfg.vocab) && TargetFromVocab(g, cfg.vocab)
    ensures var w := Wave(g, cfg, two, draws);
      && (g.currentTarget.None? ==> w == [])
      && (g.currentTarget.Some? ==> |w| == if two then 2 else 1)
      && forall i :: 0 <= i < |w| ==>
           && w[i].radius == RADIUS && w[i].y == cfg.height + RADIUS + LAUNCH_DEPTH
           && (w[i].isCorrect ==> w[i].meaning == g.currentTarget.value.meaning)
           && (!w[i].isCorrect && g.currentTarget.value.meaning != WRONG_PLACEHOLDER ==>
                 w[i].meaning != g.currentTarget.value.meaning)
           && (!w[i].isCorrect ==>
                 w[i].meaning == WRONG_PLACEHOLDER || exists e :: e in cfg.vocab && e.meaning == w[i].meaning)
  {
    var w := Wave(g, cfg, two, draws);
    forall i | 0 <= i < |w|
      ensures !w[i].isCorrect ==>
        w[i].meaning == WRONG_PLACEHOLDER || exists e :: e in cfg.vocab && e.meaning == w[i].meaning
    {
      if !w[i].isCorrect && w[i].meaning != WRONG_PLACEHOLDER {
        assert cfg.vocab[draws[i].pick] in cfg.vocab;
      }
    }
  }

  /** The guarantee of `spawnWave`: with a target and no bubble flagged
      correct on screen, the first new bubble is flagged correct and shows
      the target's meaning. */
  lemma WaveGuarantee(g: GameState, cfg: Config, two: bool, draws: seq<Draw>)
    requires ValidDraws(draws, cfg.vocab) && TargetFromVocab(g, cfg.vocab)
    requires g.currentTarget.Some? && !HasCorrect(g.fruits)
    ensures var w := Wave(g, cfg, two, draws);
      |w| >= 1 && w[0].isCorrect && w[0].meaning == g.currentTarget.value.meaning
  {
  }

  /** Correctness is a flag stored on the bubble: one still flagged correct
      from an earlier target, whatever meaning it shows, switches the
      guarantee off, and the first new bubble is the target only by the coin. */
  lemma StaleFlagSuppressesGuarantee(g: GameState, cfg: Config, two: bool, draws: seq<Draw>, i: nat)
    requires ValidDraws(draws, cfg.vocab) && TargetFromVocab(g, cfg.vocab)
    requires g.currentTarget.Some? && i < |g.fruits| && g.fruits[i].isCorrect
    ensures Wave(g, cfg, two, draws)[0].isCorrect == draws[0].coin
  {
  }

  /** `spawnWave` only appends: the bubbles already on screen are kept as
      they are, in the same order, and at most two are added. */
  lemma SpawnAppends(g: GameState, cfg: Config, two: bool, draws: seq<Draw>)
    requires ValidDraws(draws, cfg.vocab) && TargetFromVocab(g, cfg.vocab)
    ensures var r := Spawn(g, cfg, two, draws);
      && |g.fruits| <= |r.fruits| <= |g.fruits| + 2
      && r.fruits[..|g.fruits|] == g.fruits
      && r.(fruits := g.fruits) == g
  {
    var r := Spawn(g, cfg, two, draws);
    assert r.fruits[..|g.fruits|] == g.fruits;
  }

  // ----------------------------------------------------------------- frames

  /** The clock of one frame: the remaining time drops by one exactly when a
      new whole second has begun since the previous frame, and never by more;
      the game stops when it reaches zero, and that frame neither spawns nor
      moves bubbles. A frame while not playing changes nothing. */
  lemma FrameClock(g: GameState, cfg: Config, t: nat, two: bool, draws: seq<Draw>)
    requires ValidDraws(draws, cfg.vocab) && TargetFromVocab(g, cfg.vocab)
    ensures var r := Frame(g, cfg, t, two, draws);
      && (!g.isPlaying ==> r == g)
      && (g.isPlaying ==> r.lastTime == t)
      && r.timeLeft == (if g.isPlaying && Tick(g, t) then g.timeLeft - 1 else g.timeLeft)
      && (r.isPlaying <==> g.isPlaying && !(Tick(g, t) && g.timeLeft <= 1))
      && (g.isPlaying && !r.isPlaying ==> r.fruits == g.fruits && r.spawnTimer == g.spawnTimer)
  {
  }

  /** The spawn cadence: a frame that goes on playing spawns a wave exactly
      when more than 1200 ms have passed since the last spawn, then steps
      all bubbles; otherwise it only steps them. */
  lemma FrameSpawnCadence(g: GameState, cfg: Config, t: nat, two: bool, draws: seq<Draw>)
    requires ValidDraws(draws, cfg.vocab) && TargetFromVocab(g, cfg.vocab)
    requires g.isPlaying && !(Tick(g, t) && g.timeLeft <= 1)
    ensures var r, limit := Frame(g, cfg, t, two, draws), cfg.height + OFFSCREEN_MARGIN;
      if t - g.spawnTimer > SPAWN_INTERVAL_MS then
        r.spawnTimer == t && r.fruits == StepAll(g.fruits + Wave(g, cfg, two, draws), limit)
      else
        r.spawnTimer == g.spawnTimer && r.fruits == StepAll(g.fruits, limit)
  {
  }

  /** Frames after the game is over change nothing. */
  lemma {:induction false} RunIdle(g: GameState, cfg: Config, frames: seq<FrameInput>)
    requires ValidFrames(frames, cfg.vocab) && TargetFromVocab(g, cfg.vocab)
    requires !g.isPlaying
    ensures Run(g, cfg, frames) == g
    decreases |frames|
  {
    if frames != [] {
      RunIdle(g, cfg, frames[1..]);
    }
  }

  /** Each frame begins a new whole second after the one before it (the
      first after `last`). */
  predicate SecondPerFrame(last: nat, frames: seq<FrameInput>) {
    && (|frames| > 0 ==> frames[0].t / MS_PER_SECOND > last / MS_PER_SECOND)
    && forall i :: 0 < i < |frames| ==> frames[i].t / MS_PER_SECOND > frames[i - 1].t / MS_PER_SECOND
  }

  /** The round ends on time: with one new second per frame, the game is
      still playing after `k` frames exactly when `k` is less than the time
      that was left, so it stops once, on frame number `timeLeft`. */
  lemma {:induction false} RunCountdown(g: GameState, cfg: Config, frames: seq<FrameInput>, k: nat)
    requires ValidFrames(frames, cfg.vocab) && TargetFromVocab(g, cfg.vocab)
    requires g.isPlaying && g.timeLeft >= 1 && SecondPerFrame(g.lastTime, frames)
    requires k <= |frames|
    ensures Run(g, cfg, frames[..k]).isPlaying <==> k < g.timeLeft
    decreases k
  {
    if k > 0 {
      var f := frames[0];
      var g' := Frame(g, cfg, f.t, f.two, f.draws);
      assert frames[..k][1..] == frames[1..][..k - 1];
      assert Run(g, cfg, frames[..k]) == Run(g', cfg, frames[1..][..k - 1]);
      if g.timeLeft == 1 {
        RunIdle(g', cfg, frames[1..][..k - 1]);
      } else {
        assert g'.lastTime == f.t && g'.timeLeft == g.timeLeft - 1;
        assert SecondPerFrame(g'.lastTime, frames[1..]) by {
          forall i | 0 < i < |frames| - 1
            ensures frames[1..][i].t / MS_PER_SECOND > frames[1..][i - 1].t / MS_PER_SECOND
          {
            assert frames[1..][i] == frames[i + 1] && frames[1..][i - 1] == frames[i];
          }
          if |frames| > 1 {
            assert frames[1..][0] == frames[1];
          }
        }
        RunCountdown(g', cfg, frames[1..], k - 1);
      }
    }
  }

  // ------------------------------------------------------------- invariant

  /** The state after loading satisfies the invariant. */
  lemma InitialInv(cfg: Config)
    ensures Inv(Initial(cfg), cfg)
  {
  }

  /** `startGame` keeps the invariant: the target always comes from the
      vocabulary, a game in progress has a target and at least four entries,
      and the score stays a multiple of five. */
  lemma StartKeepsInv(g: GameState, cfg: Config, idx: nat)
    requires Inv(g, cfg) && ValidPick(idx, cfg.vocab)
    ensures Inv(Start(g, cfg, idx), cfg)
  {
  }

  /** A tap keeps the invariant; in particular +10 and -5 keep the score a
      multiple of five. */
  lemma TapKeepsInv(g: GameState, cfg: Config, px: real, py: real, idx: nat)
    requires Inv(g, cfg) && ValidPick(idx, cfg.vocab)
    ensures Inv(Tap(g, cfg, px, py, idx), cfg)
  {
    var r := Tap(g, cfg, px, py, idx);
    if g.isPlaying && HitIndex(g.fruits, px, py).Some? {
      assert r.score == g.score + 10 || r.score == g.score - 5;
    }
  }

  /** A frame keeps the invariant, including the frame that ends the game. */
  lemma FrameKeepsInv(g: GameState, cfg: Config, t: nat, two: bool, draws: seq<Draw>)
    requires Inv(g, cfg) && ValidDraws(draws, cfg.vocab)
    ensures Inv(Frame(g, cfg, t, two, draws), cfg)
  {
  }
}
