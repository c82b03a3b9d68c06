/**
 * The viewer's simulation control: speeds, the key-driven state machine, one
 * simulation step over a pair of buffers, and what a frame does with them.
 */
module Viewer {
  import opened Wrappers
  import Arith
  import opened Rules
  import Engine
  import Patterns
  import opened Neighborhood

  // ---------------------------------------------------------------------------
  // Speeds

  /** Steps per frame: one, `factor` per frame, or one every `factor` frames. */
  datatype Speed = Normal | Overclocked(factor: nat) | Underclocked(factor: nat)

  /** A speed the constructors can produce: a multiplier or divisor is at least 2. */
  predicate ValidSpeed(speed: Speed) {
    speed.Normal? || speed.factor >= 2
  }

  /** `Speed::new_overclocked`: 0 and 1 mean normal speed. */
  function NewOverclocked(speed: nat): (r: Speed)
    ensures ValidSpeed(r) && !r.Underclocked?
    ensures r.Normal? <==> speed <= 1
    ensures r.Overclocked? ==> r.factor == speed
  {
    if speed == 0 || speed == 1 then Normal else Overclocked(speed)
  }

  /** `Speed::new_underclocked`: 0 and 1 mean normal speed. */
  function NewUnderclocked(speed: nat): (r: Speed)
    ensures ValidSpeed(r) && !r.Overclocked?
    ensures r.Normal? <==> speed <= 1
    ensures r.Underclocked? ==> r.factor == speed
  {
    if speed == 0 || speed == 1 then Normal else Underclocked(speed)
  }

  // ---------------------------------------------------------------------------
  // The state machine

  datatype State = Running | Paused | Settings

  /** The keys the viewer distinguishes; `N` refills the world at random and is not a transition. */
  datatype KeyCode = Escape | Space | N | Other(code: nat)

  /** `State::next`. */
  function Next(state: State, input: KeyCode): (r: State)
    ensures r != state ==> input == Escape || input == Space
    ensures r == Settings ==> state == Settings || input == Escape
  {
    match (state, input)
      case (Running, Escape) => Settings
      case (Paused, Escape) => Settings
      case (Running, Space) => Paused
      case (Settings, Escape) => Running
      case (Paused, Space) => Running
      case _ => state
  }

  /** Escape opens the settings from either simulation state and closes them to the running state. */
  lemma EscapeTransitions(state: State)
    ensures state != Settings ==> Next(state, Escape) == Settings
    ensures Next(Settings, Escape) == Running
    ensures Next(Next(state, Escape), Escape) == if state == Settings then Settings else Running
  {
  }

  /** Space toggles between running and paused and does nothing in the settings. */
  lemma SpaceToggles(state: State)
    ensures Next(Running, Space) == Paused && Next(Paused, Space) == Running
    ensures Next(Settings, Space) == Settings
    ensures Next(Next(state, Space), Space) == state
  {
  }

  /** Every other key leaves the state alone. */
  lemma OtherKeysIgnored(state: State, input: KeyCode)
    requires input != Escape && input != Space
    ensures Next(state, input) == state
  {
  }

  // ---------------------------------------------------------------------------
  // One simulation step

  /** A growable bit vector (`change_buffer`). */
  class BitBuffer {
    var bits: seq<bool>

    /** `with_capacity` followed by `resize(n, false)`: `n` dead bits. */
    constructor (n: nat)
      ensures bits == seq(n, _ => false)
    {
      bits := seq(n, _ => false);
    }
  }

  /**
   * `simulate_step`: the change buffer is emptied and refilled with `fresh XOR stale`; `current` is `fresh`,
   * then `update` writes the next generation of `current` into `stale`.
   */
  method SimulateStep(current: array<bool>, stale: array<bool>, changeBuffer: BitBuffer, size: Coord, machine: LifeLike)
    requires machine.Valid()
    requires current != stale
    requires current.Length == size.0 * size.1 && stale.Length == current.Length
    modifies stale, changeBuffer
    ensures changeBuffer.bits == Engine.Xor(current[..], old(stale[..]))
    ensures stale[..] == Engine.IncrementalResult(machine, current[..], old(stale[..]), changeBuffer.bits,
                                                  Engine.NeighborTable(size))
  {
    changeBuffer.bits := [];
    for i := 0 to current.Length
      modifies changeBuffer
      invariant changeBuffer.bits == Engine.Xor(current[..i], stale[..i])
    {
      XorStep(current[..], stale[..], i);
      assert current[..i + 1] == current[..][..i + 1] && stale[..i + 1] == stale[..][..i + 1];
      changeBuffer.bits := changeBuffer.bits + [current[i] != stale[i]];
    }
    assert current[..current.Length] == current[..] && stale[..stale.Length] == stale[..];
    Engine.Update(machine, current[..], stale, changeBuffer.bits, size);
  }

  lemma XorStep(a: seq<bool>, b: seq<bool>, i: nat)
    requires i < |a| && i < |b|
    ensures Engine.Xor(a[..i + 1], b[..i + 1]) == Engine.Xor(a[..i], b[..i]) + [a[i] != b[i]]
  {
  }

  /** `n` generations from (current, stale), the source's (fresh, stale): each step writes into the stale buffer, and the two swap. */
  ghost function Generations(rule: LifeLike, current: seq<bool>, stale: seq<bool>, size: Coord, n: nat)
    : (r: (seq<bool>, seq<bool>))
    requires rule.Valid() && |current| == size.0 * size.1 && |stale| == |current|
    ensures |r.0| == |current| && |r.1| == |current|
    decreases n
  {
    if n == 0 then (current, stale)
    else
      var next := Engine.IncrementalResult(rule, current, stale, Engine.Xor(current, stale), Engine.NeighborTable(size));
      Generations(rule, next, current, size, n - 1)
  }

  /** One more generation is one more step after the last one. */
  lemma {:induction false} GenerationsLast(rule: LifeLike, current: seq<bool>, stale: seq<bool>, size: Coord, n: nat)
    requires rule.Valid() && |current| == size.0 * size.1 && |stale| == |current|
    decreases n
    ensures var (f, s) := Generations(rule, current, stale, size, n);
      Generations(rule, current, stale, size, n + 1)
      == (Engine.IncrementalResult(rule, f, s, Engine.Xor(f, s), Engine.NeighborTable(size)), f)
  {
    if n > 0 {
      var next := Engine.IncrementalResult(rule, current, stale, Engine.Xor(current, stale), Engine.NeighborTable(size));
      GenerationsLast(rule, next, current, size, n - 1);
    }
  }

  // ---------------------------------------------------------------------------
  // Frames

  /** How many generations a frame computes. */
  function FrameSteps(state: State, speed: Speed, counter: nat, rightPressed: bool): (n: nat)
    ensures state == Settings ==> n == 0
    ensures state == Paused ==> (n == 1 <==> rightPressed) && n <= 1
    ensures state == Running && speed.Underclocked? ==> (n == 1 <==> counter == 0) && n <= 1
  {
    match state
      case Running =>
        (match speed
          case Normal => 1
          case Overclocked(k) => k
          case Underclocked(_) => if counter == 0 then 1 else 0)
      case Paused => if rightPressed then 1 else 0
      case Settings => 0
  }

  /** The divisor counter after one running frame at `Underclocked(factor)`. */
  function Tick(counter: nat, factor: nat): (next: nat)
    requires factor >= 1
    ensures next < factor
    ensures counter + 1 < factor ==> next == counter + 1
    ensures counter + 1 == factor ==> next == 0
  {
    Arith.ModOfSmall(counter + 1, factor);
    (counter + 1) % factor
  }

  /** The counter after `frames` running frames. */
  function CounterAfter(counter: nat, factor: nat, frames: nat): (c: nat)
    requires factor >= 1
    ensures frames > 0 ==> c < factor
    decreases frames
  {
    if frames == 0 then counter else CounterAfter(Tick(counter, factor), factor, frames - 1)
  }

  /** The steps taken in `frames` running frames: one for each frame that starts at counter 0. */
  function StepsOver(counter: nat, factor: nat, frames: nat): (n: nat)
    requires factor >= 1
    ensures n <= frames
    decreases frames
  {
    if frames == 0 then 0
    else (if counter == 0 then 1 else 0) + StepsOver(Tick(counter, factor), factor, frames - 1)
  }

  lemma {:induction false} CounterClimbs(counter: nat, factor: nat, frames: nat)
    requires factor >= 1 && counter + frames < factor
    ensures CounterAfter(counter, factor, frames) == counter + frames
    ensures 0 < counter ==> StepsOver(counter, factor, frames) == 0
    decreases frames
  {
    if frames > 0 {
      CounterClimbs(counter + 1, factor, frames - 1);
    }
  }

  lemma {:induction false} StepsSplit(counter: nat, factor: nat, a: nat, b: nat)
    requires factor >= 1
    ensures StepsOver(counter, factor, a + b)
         == StepsOver(counter, factor, a) + StepsOver(CounterAfter(counter, factor, a), factor, b)
    ensures CounterAfter(counter, factor, a + b) == CounterAfter(CounterAfter(counter, factor, a), factor, b)
    decreases a
  {
    if a > 0 {
      StepsSplit(Tick(counter, factor), factor, a - 1, b);
      assert a + b - 1 == (a - 1) + b;
    }
  }

  /** At `Underclocked(factor)`, any `factor` consecutive running frames take exactly one step. */
  lemma OneStepPerPeriod(counter: nat, factor: nat)
    requires factor >= 2 && counter < factor
    ensures StepsOver(counter, factor, factor) == 1
  {
    if counter == 0 {
      CounterClimbs(1, factor, factor - 2);
      assert StepsOver(1, factor, factor - 1) == 0 by {
        StepsSplit(1, factor, factor - 2, 1);
      }
    } else {
      OneStepMidPeriod(counter, factor);
    }
  }

  /** The same from a nonzero counter: the step comes when the counter wraps to 0. */
  lemma OneStepMidPeriod(counter: nat, factor: nat)
    requires factor >= 2 && 0 < counter < factor
    ensures StepsOver(counter, factor, factor) == 1
  {
    var a := factor - counter;
    StepsSplit(counter, factor, a - 1, 1);
    CounterClimbs(counter, factor, a - 1);
    StepsSplit(counter, factor, a, counter);
    StepsSplit(0, factor, 1, counter - 1);
    if counter > 1 {
      CounterClimbs(1, factor, counter - 1);
    }
  }

  /** The viewer's state: the key-driven state, the rule, the speed and the divisor counter. */
  class World {
    var state: State
    var machine: LifeLike
    var speed: Speed
    var counter: nat

    ghost predicate Valid()
      reads this
    {
      machine.Valid() && ValidSpeed(speed)
    }

    /** `World::new`; the source unwraps the compiled rule, so the rule must compile. */
    constructor (initialRule: string)
      requires Compile(initialRule).Ok?
      ensures Valid()
      ensures state == Running && speed == Normal && counter == 0
      ensures machine == Compile(initialRule).value
    {
      state := Running;
      machine := Compile(initialRule).value;
      speed := Normal;
      counter := 0;
    }

    /** `World::new_rule`: the trimmed text replaces the rule when it compiles; otherwise nothing changes. */
    method NewRule(text: string) returns (r: Result<(), RuleError>)
      requires Valid()
      modifies this
      ensures Valid()
      ensures state == old(state) && speed == old(speed) && counter == old(counter)
      ensures Compile(Patterns.Trim(text)).Ok? ==> r == Ok(()) && machine == Compile(Patterns.Trim(text)).value
      ensures Compile(Patterns.Trim(text)).Err? ==>
        r == Err(Compile(Patterns.Trim(text)).error) && machine == old(machine)
    {
      var def := Patterns.Trim(text);
      var compiled := Compile(def);
      match compiled {
        case Ok(rule) =>
          machine := rule;
          r := Ok(());
        case Err(e) =>
          r := Err(e);
      }
    }

    /** The key of a frame: `N` is the random refill, any other key drives the state machine. */
    method HandleKey(key: Option<KeyCode>)
      modifies this
      ensures machine == old(machine) && speed == old(speed) && counter == old(counter)
      ensures state == if key.Some? && key.value != N then Next(old(state), key.value) else old(state)
    {
      match key {
        case Some(N) =>
        case Some(input) => state := Next(state, input);
        case None =>
      }
    }

    /**
     * The speed tab of the settings window: tab 0 is normal speed, tabs 1 and 2 build an
     * overclocked or underclocked speed from the parsed text, 1 when it does not parse.
     */
    method ChooseSpeed(tab: nat, parsed: Option<nat>)
      requires Valid()
      modifies this
      ensures Valid()
      ensures state == old(state) && machine == old(machine) && counter == old(counter)
      ensures speed == match tab
        case 0 => Normal
        case 1 => NewOverclocked((if parsed.Some? then parsed.value else 1))
        case 2 => NewUnderclocked((if parsed.Some? then parsed.value else 1))
        case _ => old(speed)
    {
      var value := match parsed case Some(v) => v case None => 1;
      if tab == 0 {
        speed := Normal;
      } else if tab == 1 {
        speed := NewOverclocked(value);
      } else if tab == 2 {
        speed := NewUnderclocked(value);
      }
    }

    /**
     * What a frame does after the key: the number of generations `FrameSteps` gives, each
     * a `simulate_step` followed by swapping the two buffers; a running underclocked
     * frame also advances the counter.
     */
    method Advance(current: array<bool>, stale: array<bool>, changeBuffer: BitBuffer, size: Coord, rightPressed: bool)
      returns (newCurrent: array<bool>, newStale: array<bool>)
      requires Valid() && current != stale
      requires current.Length == size.0 * size.1 && stale.Length == current.Length
      modifies this, current, stale, changeBuffer
      ensures Valid()
      ensures state == old(state) && machine == old(machine) && speed == old(speed)
      ensures counter == if state == Running && speed.Underclocked? then Tick(old(counter), speed.factor) else old(counter)
      ensures (newCurrent == current && newStale == stale) || (newCurrent == stale && newStale == current)
      ensures (newCurrent[..], newStale[..])
           == Generations(machine, old(current[..]), old(stale[..]), size, FrameSteps(state, speed, old(counter), rightPressed))
    {
      var steps := FrameSteps(state, speed, counter, rightPressed);
      newCurrent, newStale := current, stale;
      for i := 0 to steps
        invariant (newCurrent == current && newStale == stale) || (newCurrent == stale && newStale == current)
        invariant state == old(state) && machine == old(machine) && speed == old(speed) && counter == old(counter)
        invariant (newCurrent[..], newStale[..]) == Generations(machine, old(current[..]), old(stale[..]), size, i)
      {
        GenerationsLast(machine, old(current[..]), old(stale[..]), size, i);
        SimulateStep(newCurrent, newStale, changeBuffer, size, machine);
        newCurrent, newStale := newStale, newCurrent;
      }
      if state == Running && speed.Underclocked? {
        counter := Tick(counter, speed.factor);
      }
    }
  }
}
