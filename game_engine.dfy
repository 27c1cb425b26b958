/** The game script of `get_game_html` in app.py as it runs: the `Fruit`
    objects whose fields `update` changes in place, and the script's globals
    gathered in a `Game` object whose methods are the script's functions.
    Each method is proved to perform the transition `GameSpec` defines for
    it. The entry points (the constructor, `StartGame`, `HandleInput` and
    `Loop`) are proved to keep the invariant `Valid()`; the methods they call
    keep the bubble list free of duplicate objects. */
module GameEngine {
  import opened Wrappers
  import opened VocabParse
  import opened GameSpec
  import GameProperties

  /** One falling bubble. Its launch values come from the draw `d` in place
      of the calls to `Math.random()`. */
  class Fruit {
    var x: real
    var y: real
    var vx: real
    var vy: real
    const gravity: real
    const radius: real
    const meaning: string
    const isCorrect: bool

    function State(): FruitState
      reads this
    {
      FruitState(x, y, vx, vy, gravity, radius, meaning, isCorrect)
    }

    constructor (cfg: Config, meaning: string, isCorrect: bool, d: Draw)
      ensures State() == NewFruit(cfg, meaning, isCorrect, d)
    {
      radius := RADIUS;
      x := d.x;
      y := cfg.height + RADIUS + LAUNCH_DEPTH;
      gravity := BASE_GRAVITY * cfg.speed;
      vy := d.vy;
      vx := d.vx;
      this.meaning := meaning;
      this.isCorrect := isCorrect;
    }

    /** One step of motion: position by velocity, then velocity by gravity. */
    method Update()
      modifies this
      ensures State() == Moved(old(State()))
    {
      x := x + vx;
      y := y + vy;
      vy := vy + gravity;
    }
  }

  /** The current states of a list of bubbles. */
  ghost function StatesOf(fs: seq<Fruit>): (r: seq<FruitState>)
    reads fs
    ensures |r| == |fs|
    ensures forall i {:trigger r[i]} :: 0 <= i < |fs| ==> r[i] == fs[i].State()
  {
    seq(|fs|, i requires 0 <= i < |fs| reads fs => fs[i].State())
  }

  lemma StatesOfPush(fs: seq<Fruit>, f: Fruit)
    ensures StatesOf(fs + [f]) == StatesOf(fs) + [f.State()]
  {
    assert (fs + [f])[..|fs|] == fs;
  }

  lemma {:induction false} StatesOfConcat(a: seq<Fruit>, b: seq<Fruit>)
    ensures StatesOf(a + b) == StatesOf(a) + StatesOf(b)
  {
    assert |StatesOf(a + b)| == |StatesOf(a) + StatesOf(b)|;
  }

  /** The hit test written with the offsets of the tap from the centre. */
  lemma HitsByOffset(f: FruitState, px: real, py: real, dx: real, dy: real)
    requires dx == px - f.x && dy == py - f.y
    ensures Hits(f, px, py) <==> dx * dx + dy * dy < f.radius * f.radius
  {
  }

  /** One more miss, below the misses found so far. */
  lemma MissExtends(fs: seq<FruitState>, px: real, py: real, i: nat)
    requires i < |fs| && !Hits(fs[i], px, py)
    requires forall j :: i < j < |fs| ==> !Hits(fs[j], px, py)
    ensures forall j :: i - 1 < j < |fs| ==> !Hits(fs[j], px, py)
  {
  }

  /** No bubble appears twice in the list. */
  ghost predicate Distinct(fs: seq<Fruit>) {
    forall i, j :: 0 <= i < j < |fs| ==> fs[i] != fs[j]
  }

  lemma DistinctConcat(a: seq<Fruit>, b: seq<Fruit>)
    requires Distinct(a) && Distinct(b)
    requires forall i, j :: 0 <= i < |a| && 0 <= j < |b| ==> a[i] != b[j]
    ensures Distinct(a + b)
  {
  }

  lemma DistinctRemove(fs: seq<Fruit>, k: nat)
    requires Distinct(fs) && k < |fs|
    ensures Distinct(Remove(fs, k))
    ensures forall j :: 0 <= j < |fs| - 1 ==> Remove(fs, k)[j] in fs
  {
  }

  lemma StatesOfRemove(fs: seq<Fruit>, k: nat)
    requires k < |fs|
    ensures StatesOf(Remove(fs, k)) == Remove(StatesOf(fs), k)
  {
  }

  lemma DistinctPush(fs: seq<Fruit>, f: Fruit)
    requires Distinct(fs) && f !in fs
    ensures Distinct(fs + [f])
  {
  }

  class Game {
    /** The vocabulary, the settings and the canvas height. */
    const cfg: Config
    var score: int
    var timeLeft: int
    var isPlaying: bool
    var currentTarget: Option<VocabEntry>
    var fruits: seq<Fruit>
    var lastTime: nat
    var spawnTimer: nat

    /** The globals as a `GameSpec` state. */
    ghost function Model(): GameState
      reads this, fruits
    {
      GameState(score, timeLeft, isPlaying, currentTarget, StatesOf(fruits), lastTime, spawnTimer)
    }

    ghost predicate Valid()
      reads this, fruits
    {
      Distinct(fruits) && Inv(Model(), cfg)
    }

    /** The state when the script has loaded. */
    constructor (cfg: Config)
      ensures Valid() && this.cfg == cfg && Model() == Initial(cfg)
    {
      this.cfg := cfg;
      score := 0;
      timeLeft := cfg.duration;
      isPlaying := false;
      currentTarget := None;
      fruits := [];
      lastTime := 0;
      spawnTimer := 0;
    }

    /** `pickNewWord`, with the random index `idx`. */
    method PickNewWord(idx: nat)
      requires ValidPick(idx, cfg.vocab)
      modifies this
      ensures fruits == old(fruits)
      ensures Model() == PickWord(old(Model()), cfg.vocab, idx)
    {
      if |cfg.vocab| == 0 {
        return;
      }
      currentTarget := Some(cfg.vocab[idx]);
    }

    /** `startGame`, with the random index of its first target. */
    method StartGame(idx: nat)
      requires Valid() && ValidPick(idx, cfg.vocab)
      modifies this
      ensures Valid()
      ensures Model() == Start(old(Model()), cfg, idx)
    {
      if |cfg.vocab| >= MIN_VOCAB {
        score := 0;
        timeLeft := cfg.duration;
        fruits := [];
        isPlaying := true;
        PickNewWord(idx);
      }
      GameProperties.StartKeepsInv(old(Model()), cfg, idx);
    }

    /** `hitFruit` on the bubble at `index`, with the random index of the
        next target. */
    method HitFruit(index: nat, idx: nat)
      requires Valid() && index < |fruits| && ValidPick(idx, cfg.vocab)
      modifies this
      ensures Distinct(fruits)
      ensures Model() == Hit(old(Model()), cfg.vocab, index, idx)
    {
      var f := fruits[index];
      DistinctRemove(fruits, index);
      StatesOfRemove(fruits, index);
      fruits := fruits[..index] + fruits[index + 1..];
      if f.isCorrect {
        score := score + CORRECT_POINTS;
        PickNewWord(idx);
      } else {
        score := score - WRONG_PENALTY;
      }
    }

    /** `handleInput`: searches the bubbles from the last drawn (topmost)
        down and hits the first one whose circle contains the tap. */
    method HandleInput(px: real, py: real, idx: nat)
      requires Valid() && ValidPick(idx, cfg.vocab)
      modifies this
      ensures Valid()
      ensures Model() == Tap(old(Model()), cfg, px, py, idx)
    {
      if isPlaying {
        ghost var states := StatesOf(fruits);
        var i: int := |fruits| - 1;
        while i >= 0
          modifies {}
          invariant -1 <= i < |fruits|
          invariant forall j :: i < j < |states| ==> !Hits(states[j], px, py)
        {
          var f := fruits[i];
          var dx := px - f.x;
          var dy := py - f.y;
          HitsByOffset(states[i], px, py, dx, dy);
          if dx * dx + dy * dy < f.radius * f.radius {
            break;
          }
          MissExtends(states, px, py, i);
          i := i - 1;
        }
        if i >= 0 {
          HitIndexTopmost(states, px, py, i);
          HitFruit(i, idx);
        }
      }
      GameProperties.TapKeepsInv(old(Model()), cfg, px, py, idx);
    }

    /** `fruits.some(f => f.isCorrect)`. */
    method HasCorrectOnScreen() returns (b: bool)
      ensures b <==> HasCorrect(StatesOf(fruits))
    {
      ghost var states := StatesOf(fruits);
      b := false;
      var i := 0;
      while i < |fruits| && !b
        invariant 0 <= i <= |fruits|
        invariant b <==> exists j :: 0 <= j < i && states[j].isCorrect
      {
        assert states[i] == fruits[i].State();
        b := fruits[i].isCorrect;
        i := i + 1;
      }
    }

    /** The body of the loop of `spawnWave`: bubble `i` of the wave. */
    method WaveBubble(target: VocabEntry, hasCorrect: bool, i: nat, d: Draw) returns (f: Fruit)
      requires ValidPick(d.pick, cfg.vocab) && cfg.vocab != []
      ensures fresh(f)
      ensures f.State() == WaveFruit(cfg, target, hasCorrect, i, d)
    {
      var isTarget := if !hasCorrect && i == 0 then true else d.coin;
      var meaning: string;
      if isTarget {
        meaning := target.meaning;
      } else {
        meaning := cfg.vocab[d.pick].meaning;
        if meaning == target.meaning {
          meaning := WRONG_PLACEHOLDER;
        }
      }
      f := new Fruit(cfg, meaning, isTarget, d);
    }

    /** `spawnWave`, with the wave coin `two` and the draws of its bubbles. */
    method SpawnWave(two: bool, draws: seq<Draw>)
      requires Distinct(fruits) && TargetFromVocab(Model(), cfg.vocab) && ValidDraws(draws, cfg.vocab)
      modifies this
      ensures Distinct(fruits)
      ensures |old(fruits)| <= |fruits| && fruits[..|old(fruits)|] == old(fruits)
      ensures forall j :: |old(fruits)| <= j < |fruits| ==> fresh(fruits[j])
      ensures Model() == Spawn(old(Model()), cfg, two, draws)
    {
      if currentTarget.None? {
        return;
      }
      ghost var g0 := Model();
      var target := currentTarget.value;
      assert target in cfg.vocab;
      var hasCorrect := HasCorrectOnScreen();
      var count := if two then 2 else 1;
      assert WaveFruits(cfg, target, hasCorrect, count, draws) == Wave(g0, cfg, two, draws);
      var added := NewWave(target, hasCorrect, count, draws);
      assert Model() == g0;
      AppendFruits(added);
    }

    /** Pushes the bubbles of a new wave, which are none of those already on
        screen, after them. */
    method AppendFruits(added: seq<Fruit>)
      requires Distinct(fruits) && Distinct(added)
      requires forall i, j :: 0 <= i < |fruits| && 0 <= j < |added| ==> fruits[i] != added[j]
      modifies this
      ensures Distinct(fruits)
      ensures fruits == old(fruits) + added
      ensures Model() == old(Model()).(fruits := old(Model()).fruits + StatesOf(added))
    {
      DistinctConcat(fruits, added);
      StatesOfConcat(fruits, added);
      fruits := fruits + added;
    }

    /** The loop of `spawnWave`: creates the first `count` bubbles of the
        wave for `target`, in the order they are pushed. */
    method NewWave(target: VocabEntry, hasCorrect: bool, count: nat, draws: seq<Draw>)
      returns (added: seq<Fruit>)
      requires count <= |draws| && cfg.vocab != []
      requires forall i :: 0 <= i < count ==> ValidPick(draws[i].pick, cfg.vocab)
      ensures forall j :: 0 <= j < |added| ==> fresh(added[j])
      ensures Distinct(added)
      ensures StatesOf(added) == WaveFruits(cfg, target, hasCorrect, count, draws)
    {
      added := [];
      for i := 0 to count
        invariant |added| == i
        invariant forall j :: 0 <= j < i ==> fresh(added[j])
        invariant Distinct(added)
        invariant StatesOf(added) == WaveFruits(cfg, target, hasCorrect, i, draws)
      {
        var f := WaveBubble(target, hasCorrect, i, draws[i]);
        StatesOfPush(added, f);
        DistinctPush(added, f);
        WaveFruitsSnoc(cfg, target, hasCorrect, i, draws);
        added := added + [f];
      }
    }

    /** `fruits[i].update()`: only bubble `i` moves. */
    method UpdateAt(i: nat)
      requires Distinct(fruits) && i < |fruits|
      modifies fruits[i]
      ensures StatesOf(fruits) == old(StatesOf(fruits))[i := Moved(old(fruits[i].State()))]
    {
      ghost var cur := StatesOf(fruits);
      var f := fruits[i];
      f.Update();
      forall j | 0 <= j < |fruits|
        ensures fruits[j].State() == cur[i := Moved(cur[i])][j]
      {
        if j != i {
          assert fruits[j] != f;
        }
      }
    }

    /** The `forEach` callback of `loop` at index `i`: update the bubble and
        splice it out when it has fallen below `limit`. */
    method VisitFruit(i: nat, limit: real)
      requires Distinct(fruits) && i < |fruits|
      modifies this, fruits[i]
      ensures Distinct(fruits)
      ensures forall j :: 0 <= j < |fruits| ==> fruits[j] in old(fruits)
      ensures Model() == old(Model()).(fruits := VisitAt(old(StatesOf(fruits)), i, limit))
    {
      UpdateAt(i);
      assert StatesOf(fruits)[i] == fruits[i].State();
      if fruits[i].y > limit {
        DistinctRemove(fruits, i);
        StatesOfRemove(fruits, i);
        fruits := fruits[..i] + fruits[i + 1..];
      }
    }

    /** The bubble pass of `loop`: `fruits.forEach` with the callback above.
        After a splice the index still advances, so the bubble that moved
        into the freed slot is skipped. */
    method StepFruits(limit: real)
      requires Distinct(fruits)
      modifies this, fruits
      ensures Distinct(fruits)
      ensures Model() == old(Model()).(fruits := StepAll(old(Model()).fruits, limit))
    {
      ghost var s0 := StatesOf(fruits);
      ghost var states := s0;
      StepFromStart(s0, limit);
      var i := 0;
      while i < |fruits|
        invariant i <= |fruits| + 1
        invariant Distinct(fruits)
        invariant forall j :: 0 <= j < |fruits| ==> fruits[j] in old(fruits)
        invariant Model() == old(Model()).(fruits := states)
        invariant StepFrom(states, i, limit) == StepAll(s0, limit)
      {
        VisitFruit(i, limit);
        VisitAtStep(states, i, limit);
        states := VisitAt(states, i, limit);
        i := i + 1;
      }
    }

    /** The spawn check of `loop`. */
    method SpawnIfDue(t: nat, two: bool, draws: seq<Draw>)
      requires Distinct(fruits) && TargetFromVocab(Model(), cfg.vocab) && ValidDraws(draws, cfg.vocab)
      modifies this
      ensures Distinct(fruits)
      ensures |old(fruits)| <= |fruits| && fruits[..|old(fruits)|] == old(fruits)
      ensures forall j :: |old(fruits)| <= j < |fruits| ==> fresh(fruits[j])
      ensures Model() == SpawnDue(old(Model()), cfg, t, two, draws)
    {
      if t - spawnTimer > SPAWN_INTERVAL_MS {
        spawnTimer := t;
        SpawnWave(two, draws);
      }
    }

    /** The part of `loop` after the clock. */
    method SpawnAndStepFruits(t: nat, two: bool, draws: seq<Draw>)
      requires Distinct(fruits) && TargetFromVocab(Model(), cfg.vocab) && ValidDraws(draws, cfg.vocab)
      modifies this, fruits
      ensures Distinct(fruits)
      ensures Model() == SpawnAndStep(old(Model()), cfg, t, two, draws)
    {
      SpawnIfDue(t, two, draws);
      StepFruits(cfg.height + OFFSCREEN_MARGIN);
    }

    /** One call of `loop(timestamp)`, with the random choices of the wave it
        may spawn. */
    method Loop(t: nat, two: bool, draws: seq<Draw>)
      requires Valid() && ValidDraws(draws, cfg.vocab)
      modifies this, fruits
      ensures Valid()
      ensures Model() == Frame(old(Model()), cfg, t, two, draws)
    {
      if isPlaying {
        var tick := t / MS_PER_SECOND > lastTime / MS_PER_SECOND;
        lastTime := t;
        if tick {
          timeLeft := timeLeft - 1;
        }
        ghost var g1 := old(Model()).(lastTime := t, timeLeft := timeLeft);
        assert Model() == g1;
        if tick && timeLeft <= 0 {
          isPlaying := false;
        } else {
          SpawnAndStepFruits(t, two, draws);
        }
      }
      GameProperties.FrameKeepsInv(old(Model()), cfg, t, two, draws);
    }
  }
}
