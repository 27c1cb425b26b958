/** The quiz game of `get_game_html` in app.py, as a transition system over an
    explicit state: the script's globals `score`, `timeLeft`, `isPlaying`,
    `currentTarget`, `fruits`, `lastTime` and `spawnTimer`. Every call to
    `Math.random()` is a parameter, timestamps are whole milliseconds, and
    positions and velocities are reals. */
module GameSpec {
  import opened Wrappers
  import opened VocabParse

  const RADIUS: real := 60.0
  /** A new bubble starts this far below the bottom edge, past its radius. */
  const LAUNCH_DEPTH: real := 10.0
  const BASE_GRAVITY: real := 0.25
  /** A bubble is dropped once it is this far below the bottom edge. */
  const OFFSCREEN_MARGIN: real := 100.0
  const SPAWN_INTERVAL_MS: int := 1200
  const MS_PER_SECOND: nat := 1000
  const CORRECT_POINTS: int := 10
  const WRONG_PENALTY: int := 5
  const MIN_VOCAB: nat := 4
  /** Shown on a distractor that drew the target's own meaning. */
  const WRONG_PLACEHOLDER: string := "Wrong"

  /** What the script is given: `vocabList`, `settings.duration`,
      `settings.speed` and the canvas height. */
  datatype Config = Config(vocab: seq<VocabEntry>, duration: int, speed: real, height: real)

  /** The fields of one `Fruit` bubble that the game logic uses. */
  datatype FruitState = FruitState(
    x: real, y: real, vx: real, vy: real, gravity: real, radius: real,
    meaning: string, isCorrect: bool)

  /** The script's globals. */
  datatype GameState = GameState(
    score: int, timeLeft: int, isPlaying: bool, currentTarget: Option<VocabEntry>,
    fruits: seq<FruitState>, lastTime: nat, spawnTimer: nat)

  /** The random choices one new bubble consumes: the 25% "is target" coin,
      the distractor's vocabulary index, and the launch values the `Fruit`
      constructor draws (horizontal position, drift, initial vertical speed). */
  datatype Draw = Draw(coin: bool, pick: nat, x: real, vx: real, vy: real)

  /** The state when the script has loaded, before the first start. */
  function Initial(cfg: Config): GameState {
    GameState(0, cfg.duration, false, None, [], 0, 0)
  }

  /** A random index into the vocabulary, as `Math.floor(Math.random() * n)`
      gives (any index will do for an empty list, which is never indexed). */
  predicate ValidPick(idx: nat, vocab: seq<VocabEntry>) {
    vocab == [] || idx < |vocab|
  }

  /** `spawnWave` is always handed the random choices of two bubbles. */
  predicate ValidDraws(draws: seq<Draw>, vocab: seq<VocabEntry>) {
    |draws| == 2 && ValidPick(draws[0].pick, vocab) && ValidPick(draws[1].pick, vocab)
  }

  /** The target, when there is one, was picked from the vocabulary. */
  predicate TargetFromVocab(g: GameState, vocab: seq<VocabEntry>) {
    g.currentTarget.Some? ==> g.currentTarget.value in vocab
  }

  /** Invariant of every reachable state. */
  predicate Inv(g: GameState, cfg: Config) {
    && TargetFromVocab(g, cfg.vocab)
    && (g.isPlaying ==> g.currentTarget.Some? && |cfg.vocab| >= MIN_VOCAB)
    && g.score % WRONG_PENALTY == 0
  }

  // ---------------------------------------------------------------- bubbles

  /** `Fruit.update`: move by the current velocity, then apply gravity. */
  function Moved(f: FruitState): (r: FruitState)
    ensures r.(x := f.x, y := f.y, vy := f.vy) == f
  {
    f.(x := f.x + f.vx, y := f.y + f.vy, vy := f.vy + f.gravity)
  }

  /** `n` consecutive updates. */
  function MovedTimes(f: FruitState, n: nat): FruitState {
    if n == 0 then f else Moved(MovedTimes(f, n - 1))
  }

  /** The circular hit test of `handleInput`: strictly inside the radius. */
  predicate Hits(f: FruitState, px: real, py: real) {
    (px - f.x) * (px - f.x) + (py - f.y) * (py - f.y) < f.radius * f.radius
  }

  /** The bubble a tap removes: the hit bubble with the highest index (the
      one drawn last, so on top), or none. */
  function HitIndex(fs: seq<FruitState>, px: real, py: real): (r: Option<nat>)
    ensures r.Some? ==> r.value < |fs| && Hits(fs[r.value], px, py)
    ensures r.Some? ==> forall j :: r.value < j < |fs| ==> !Hits(fs[j], px, py)
    ensures r.None? ==> forall j :: 0 <= j < |fs| ==> !Hits(fs[j], px, py)
  {
    if fs == [] then None
    else if Hits(fs[|fs| - 1], px, py) then Some(|fs| - 1)
    else HitIndex(fs[..|fs| - 1], px, py)
  }

  /** The bubble a tap removes is determined by the two facts a search from
      the top establishes: bubble `k` is hit and none above it is. */
  lemma HitIndexTopmost(fs: seq<FruitState>, px: real, py: real, k: nat)
    requires k < |fs| && Hits(fs[k], px, py)
    requires forall j :: k < j < |fs| ==> !Hits(fs[j], px, py)
    ensures HitIndex(fs, px, py) == Some(k)
  {
  }

  /** `fruits.splice(k, 1)`. */
  function Remove<T>(s: seq<T>, k: nat): (r: seq<T>)
    requires k < |s|
    ensures |r| == |s| - 1
    ensures forall j :: 0 <= j < k ==> r[j] == s[j]
    ensures forall j :: k <= j < |r| ==> r[j] == s[j + 1]
  {
    s[..k] + s[k + 1..]
  }

  /** `fruits.some(f => f.isCorrect)`. */
  predicate HasCorrect(fs: seq<FruitState>) {
    exists i :: 0 <= i < |fs| && fs[i].isCorrect
  }

  /** The bubble update of one frame: `fruits.forEach` updating each bubble
      and splicing out those below `limit`. The splice shifts the next bubble
      into the current slot, which `forEach` has already visited, so that
      bubble is neither moved nor checked in this frame. */
  function StepAll(fs: seq<FruitState>, limit: real): seq<FruitState> {
    if fs == [] then []
    else
      var u := Moved(fs[0]);
      if u.y > limit then (if |fs| == 1 then [] else [fs[1]] + StepAll(fs[2..], limit))
      else [u] + StepAll(fs[1..], limit)
  }

  /** The `forEach` body at index `i`: update bubble `i`, and splice it out
      when it is below `limit`. */
  function VisitAt(fs: seq<FruitState>, i: nat, limit: real): (r: seq<FruitState>)
    requires i < |fs|
    ensures |r| == |fs| || |r| == |fs| - 1
  {
    var u := Moved(fs[i]);
    if u.y > limit then Remove(fs, i) else fs[i := u]
  }

  /** Where the `forEach` pass stands at index `i`: the bubbles before `i`
      are final and `StepAll` of the rest completes the pass. Once the index
      has reached the end, the list is the result. */
  function StepFrom(fs: seq<FruitState>, i: nat, limit: real): seq<FruitState> {
    if i < |fs| then fs[..i] + StepAll(fs[i..], limit) else fs
  }

  /** Before the first visit, the pass is all still to come. */
  lemma StepFromStart(fs: seq<FruitState>, limit: real)
    ensures StepFrom(fs, 0, limit) == StepAll(fs, limit)
  {
    if fs != [] {
      assert fs[..0] + StepAll(fs[0..], limit) == StepAll(fs, limit) by {
        assert fs[0..] == fs;
      }
    }
  }

  /** Running the `forEach` body at index `i` and moving on to `i + 1` keeps
      the result of the whole pass. */
  lemma VisitAtStep(fs: seq<FruitState>, i: nat, limit: real)
    requires i < |fs|
    ensures StepFrom(VisitAt(fs, i, limit), i + 1, limit) == StepFrom(fs, i, limit)
  {
    if Moved(fs[i]).y > limit {
      VisitRemovedStep(fs, i, limit);
    } else {
      VisitKeptStep(fs, i, limit);
    }
  }

  lemma VisitRemovedStep(fs: seq<FruitState>, i: nat, limit: real)
    requires i < |fs| && Moved(fs[i]).y > limit
    ensures StepFrom(Remove(fs, i), i + 1, limit) == StepFrom(fs, i, limit)
  {
    var r := Remove(fs, i);
    assert fs[i..][0] == fs[i];
    if i + 1 < |fs| {
      assert StepAll(fs[i..], limit) == [fs[i + 1]] + StepAll(fs[i + 2..], limit) by {
        assert fs[i..][1] == fs[i + 1] && fs[i..][2..] == fs[i + 2..];
      }
      if i + 1 < |r| {
        assert r[..i + 1] == fs[..i] + [fs[i + 1]];
        assert r[i + 1..] == fs[i + 2..];
      } else {
        assert r == fs[..i] + [fs[i + 1]];
      }
    } else {
      assert StepAll(fs[i..], limit) == [];
      assert r == fs[..i];
    }
  }

  lemma VisitKeptStep(fs: seq<FruitState>, i: nat, limit: real)
    requires i < |fs| && Moved(fs[i]).y <= limit
    ensures StepFrom(fs[i := Moved(fs[i])], i + 1, limit) == StepFrom(fs, i, limit)
  {
    var u := Moved(fs[i]);
    var r := fs[i := u];
    assert StepAll(fs[i..], limit) == [u] + StepAll(fs[i + 1..], limit) by {
      assert fs[i..][0] == fs[i] && fs[i..][1..] == fs[i + 1..];
    }
    var head := fs[..i] + [u];
    assert r == head + fs[i + 1..];
    assert r[..i + 1] == head && r[i + 1..] == fs[i + 1..];
  }

  // ------------------------------------------------------------- operations

  /** `pickNewWord`: the target becomes the vocabulary entry at the random
      index, with replacement (the old target may be drawn again). */
  function PickWord(g: GameState, vocab: seq<VocabEntry>, idx: nat): (r: GameState)
    requires ValidPick(idx, vocab)
    ensures r.(currentTarget := g.currentTarget) == g
    ensures vocab == [] ==> r == g
    ensures vocab != [] ==> r.currentTarget.Some? && r.currentTarget.value in vocab
  {
    if vocab == [] then g else g.(currentTarget := Some(vocab[idx]))
  }

  /** `startGame`: refused with fewer than four entries; otherwise resets the
      score, the clock and the bubbles, starts playing and picks a target.
      `lastTime` and `spawnTimer` are not reset. */
  function Start(g: GameState, cfg: Config, idx: nat): GameState
    requires ValidPick(idx, cfg.vocab)
  {
    if |cfg.vocab| < MIN_VOCAB then g
    else PickWord(g.(score := 0, timeLeft := cfg.duration, fruits := [], isPlaying := true), cfg.vocab, idx)
  }

  /** `hitFruit`: removes bubble `k`; a bubble flagged correct scores +10 and
      picks a new target, any other scores -5. */
  function Hit(g: GameState, vocab: seq<VocabEntry>, k: nat, idx: nat): (r: GameState)
    requires k < |g.fruits| && ValidPick(idx, vocab)
    ensures |r.fruits| == |g.fruits| - 1
    ensures r.(score := g.score, currentTarget := g.currentTarget, fruits := g.fruits) == g
    ensures g.fruits[k].isCorrect ==> r.score == g.score + CORRECT_POINTS
    ensures !g.fruits[k].isCorrect ==> r.score == g.score - WRONG_PENALTY && r.currentTarget == g.currentTarget
  {
    var g1 := g.(fruits := Remove(g.fruits, k));
    if g.fruits[k].isCorrect then PickWord(g1.(score := g.score + CORRECT_POINTS), vocab, idx)
    else g1.(score := g.score - WRONG_PENALTY)
  }

  /** `handleInput`: ignored unless playing; otherwise hits the topmost
      bubble under the tap, if any. */
  function Tap(g: GameState, cfg: Config, px: real, py: real, idx: nat): (r: GameState)
    requires ValidPick(idx, cfg.vocab)
    ensures !g.isPlaying ==> r == g
    ensures r.isPlaying == g.isPlaying && r.timeLeft == g.timeLeft
    ensures r.lastTime == g.lastTime && r.spawnTimer == g.spawnTimer
    ensures |r.fruits| == |g.fruits| || |r.fruits| == |g.fruits| - 1
  {
    if !g.isPlaying then g
    else match HitIndex(g.fruits, px, py)
      case None => g
      case Some(k) => Hit(g, cfg.vocab, k, idx)
  }

  /** A new bubble as the `Fruit` constructor builds it: radius 60, just
      below the bottom edge, gravity 0.25 times the speed setting. */
  function NewFruit(cfg: Config, meaning: string, isCorrect: bool, d: Draw): (r: FruitState)
    ensures r.y - r.radius > cfg.height
  {
    FruitState(d.x, cfg.height + RADIUS + LAUNCH_DEPTH, d.vx, d.vy, BASE_GRAVITY * cfg.speed,
               RADIUS, meaning, isCorrect)
  }

  /** Bubble `i` of a wave: forced to be the target when no bubble flagged
      correct is on screen and it is the first one; otherwise the target by
      the coin. A distractor shows a random entry's meaning, replaced by
      "Wrong" when it equals the target's. */
  function WaveFruit(cfg: Config, target: VocabEntry, hasCorrect: bool, i: nat, d: Draw): (r: FruitState)
    requires ValidPick(d.pick, cfg.vocab) && cfg.vocab != []
    ensures !hasCorrect && i == 0 ==> r.isCorrect
    ensures r.isCorrect ==> r.meaning == target.meaning
    ensures !r.isCorrect && target.meaning != WRONG_PLACEHOLDER ==> r.meaning != target.meaning
  {
    var isTarget := if !hasCorrect && i == 0 then true else d.coin;
    var meaning :=
      if isTarget then target.meaning
      else if cfg.vocab[d.pick].meaning == target.meaning then WRONG_PLACEHOLDER
      else cfg.vocab[d.pick].meaning;
    NewFruit(cfg, meaning, isTarget, d)
  }

  /** The first `n` bubbles of a wave for `target`. */
  function WaveFruits(cfg: Config, target: VocabEntry, hasCorrect: bool, n: nat, draws: seq<Draw>): seq<FruitState>
    requires n <= |draws| && cfg.vocab != []
    requires forall i :: 0 <= i < n ==> ValidPick(draws[i].pick, cfg.vocab)
  {
    seq(n, i requires 0 <= i < n => WaveFruit(cfg, target, hasCorrect, i, draws[i]))
  }

  /** A wave of `n + 1` bubbles is the wave of `n` and then bubble `n`. */
  lemma WaveFruitsSnoc(cfg: Config, target: VocabEntry, hasCorrect: bool, n: nat, draws: seq<Draw>)
    requires n < |draws| && cfg.vocab != []
    requires forall i :: 0 <= i <= n ==> ValidPick(draws[i].pick, cfg.vocab)
    ensures WaveFruits(cfg, target, hasCorrect, n + 1, draws)
         == WaveFruits(cfg, target, hasCorrect, n, draws) + [WaveFruit(cfg, target, hasCorrect, n, draws[n])]
  {
  }

  /** The bubbles `spawnWave` pushes: none without a target, otherwise one,
      or two when the wave coin says so. */
  function Wave(g: GameState, cfg: Config, two: bool, draws: seq<Draw>): (r: seq<FruitState>)
    requires ValidDraws(draws, cfg.vocab) && TargetFromVocab(g, cfg.vocab)
    ensures |r| <= 2
    ensures r == [] <==> g.currentTarget.None?
  {
    if g.currentTarget.None? then []
    else WaveFruits(cfg, g.currentTarget.value, HasCorrect(g.fruits), if two then 2 else 1, draws)
  }

  /** `spawnWave`. */
  function Spawn(g: GameState, cfg: Config, two: bool, draws: seq<Draw>): GameState
    requires ValidDraws(draws, cfg.vocab) && TargetFromVocab(g, cfg.vocab)
  {
    g.(fruits := g.fruits + Wave(g, cfg, two, draws))
  }

  /** A new whole second has begun since the previous frame. */
  predicate Tick(g: GameState, t: nat) {
    t / MS_PER_SECOND > g.lastTime / MS_PER_SECOND
  }

  /** The spawn check of `loop`: a wave, and the spawn clock restarted,
      when more than 1200 ms have passed since the last one. */
  function SpawnDue(g: GameState, cfg: Config, t: nat, two: bool, draws: seq<Draw>): (r: GameState)
    requires ValidDraws(draws, cfg.vocab) && TargetFromVocab(g, cfg.vocab)
    ensures r.(fruits := g.fruits, spawnTimer := g.spawnTimer) == g
    ensures r.spawnTimer == g.spawnTimer || r.spawnTimer == t
    ensures r.spawnTimer == g.spawnTimer ==> r == g
  {
    if t - g.spawnTimer > SPAWN_INTERVAL_MS then Spawn(g.(spawnTimer := t), cfg, two, draws) else g
  }

  /** The part of `loop` after the clock: the spawn check, then the bubble
      pass. */
  function SpawnAndStep(g: GameState, cfg: Config, t: nat, two: bool, draws: seq<Draw>): (r: GameState)
    requires ValidDraws(draws, cfg.vocab) && TargetFromVocab(g, cfg.vocab)
    ensures r.(fruits := g.fruits, spawnTimer := g.spawnTimer) == g
  {
    var g1 := SpawnDue(g, cfg, t, two, draws);
    g1.(fruits := StepAll(g1.fruits, cfg.height + OFFSCREEN_MARGIN))
  }

  /** One call of `loop(timestamp)`. */
  function Frame(g: GameState, cfg: Config, t: nat, two: bool, draws: seq<Draw>): (r: GameState)
    requires ValidDraws(draws, cfg.vocab) && TargetFromVocab(g, cfg.vocab)
    ensures r.score == g.score && r.currentTarget == g.currentTarget
  {
    if !g.isPlaying then g
    else
      var g1 := g.(lastTime := t, timeLeft := if Tick(g, t) then g.timeLeft - 1 else g.timeLeft);
      if Tick(g, t) && g1.timeLeft <= 0 then g1.(isPlaying := false)
      else SpawnAndStep(g1, cfg, t, two, draws)
  }

  /** The inputs of one animation frame. */
  datatype FrameInput = FrameInput(t: nat, two: bool, draws: seq<Draw>)

  predicate ValidFrames(frames: seq<FrameInput>, vocab: seq<VocabEntry>) {
    forall i :: 0 <= i < |frames| ==> ValidDraws(frames[i].draws, vocab)
  }

  /** A sequence of frames with no taps in between. */
  function Run(g: GameState, cfg: Config, frames: seq<FrameInput>): (r: GameState)
    requires ValidFrames(frames, cfg.vocab) && TargetFromVocab(g, cfg.vocab)
    ensures r.score == g.score && r.currentTarget == g.currentTarget
    decreases |frames|
  {
    if frames == [] then g
    else Run(Frame(g, cfg, frames[0].t, frames[0].two, frames[0].draws), cfg, frames[1..])
  }
}
