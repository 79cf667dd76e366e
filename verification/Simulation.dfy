/**
 * The simulation state and its tick: every person lives against the event
 * positions as they stand at the start of the tick, then every negative event
 * moves, then every positive event moves, then the clock advances half a year.
 * The run stops once 40 years have passed.
 */
module Simulation {
  import opened Outcome
  import opened Lattice
  import opened Agents
  import Metrics

  /** Elapsed time, counted in half-years (each tick adds exactly half a year), and the running flag. */
  datatype Clock = Clock(halfYears: nat, running: bool)

  /** The span of a simulated life in ticks of half a year: 40 years. */
  const LifetimeHalfYears: nat := 80

  /** The span of a simulated life, in years. */
  const Lifetime: real := LifetimeHalfYears as real / 2.0

  function YearsPassed(c: Clock): real {
    c.halfYears as real / 2.0
  }

  /**
   * The clock part of a tick: half a year passes, and the run is switched off
   * once the elapsed years reach the lifetime. Nothing switches it back on.
   */
  function Tick(c: Clock): (next: Clock)
    ensures YearsPassed(next) == YearsPassed(c) + 0.5
    ensures next.running <==> c.running && YearsPassed(next) < Lifetime
  {
    var elapsed := Clock(c.halfYears + 1, c.running);
    if YearsPassed(elapsed) >= Lifetime then elapsed.(running := false) else elapsed
  }

  /** The clock after `n` ticks. */
  function Ticks(c: Clock, n: nat): Clock
    decreases n
  {
    if n == 0 then c else Ticks(Tick(c), n - 1)
  }

  /** After `n` ticks, `n` half-years have been added, and the run is on only if it was and the lifetime has not been reached. */
  lemma {:induction false} TicksClosedForm(c: Clock, n: nat)
    ensures Ticks(c, n).halfYears == c.halfYears + n
    ensures n > 0 ==> (Ticks(c, n).running <==> c.running && c.halfYears + n < LifetimeHalfYears)
    ensures n == 0 ==> Ticks(c, n).running == c.running
    decreases n
  {
    if n > 0 {
      TicksClosedForm(Tick(c), n - 1);
    }
  }

  /**
   * From year 0 with the run on, the run is still on after each of the first
   * 79 ticks and stops at exactly the 80th: 40 years at half a year per tick.
   */
  lemma RunLastsEightyTicks(n: nat)
    ensures Ticks(Clock(0, true), n) == Clock(n, n < LifetimeHalfYears)
    ensures YearsPassed(Ticks(Clock(0, true), n)) == n as real / 2.0
  {
    TicksClosedForm(Clock(0, true), n);
  }

  /** Once stopped, the run stays stopped whatever further ticks happen. */
  lemma StoppedStaysStopped(c: Clock, n: nat)
    requires !c.running
    ensures !Ticks(c, n).running
  {
    TicksClosedForm(c, n);
  }

  /**
   * The whole simulation state: the grid, the configured number of persons,
   * the persons, and the positions of the positive and negative events.
   */
  datatype World = World(
    dims: Dims,
    nActors: nat,
    persons: seq<Person>,
    positive: seq<Pos>,
    negative: seq<Pos>,
    clock: Clock)
  {
    /** Every agent is on the grid, and the population has its configured size. */
    predicate Valid() {
      && dims.Valid()
      && |persons| == nActors
      && (forall i :: 0 <= i < |persons| ==> dims.Contains(persons[i].pos))
      && (forall i :: 0 <= i < |positive| ==> dims.Contains(positive[i]))
      && (forall i :: 0 <= i < |negative| ==> dims.Contains(negative[i]))
    }
  }

  /**
   * The outside choices one tick consumes: one uniform draw from [0, 1) per
   * person (used only if a positive event is near) and a new cell for every
   * negative and every positive event.
   */
  datatype TickInput = TickInput(draws: seq<real>, negativeTargets: seq<Pos>, positiveTargets: seq<Pos>)

  /** The choices of one tick suit a grid `d` with the given numbers of persons, positive and negative events. */
  predicate FitsShape(d: Dims, persons: nat, positives: nat, negatives: nat, t: TickInput) {
    && |t.draws| == persons
    && (forall i :: 0 <= i < |t.draws| ==> 0.0 <= t.draws[i] < 1.0)
    && |t.negativeTargets| == negatives && (forall i :: 0 <= i < negatives ==> d.Contains(t.negativeTargets[i]))
    && |t.positiveTargets| == positives && (forall i :: 0 <= i < positives ==> d.Contains(t.positiveTargets[i]))
  }

  predicate Fits(w: World, t: TickInput) {
    FitsShape(w.dims, |w.persons|, |w.positive|, |w.negative|, t)
  }

  /** Phase 1: every person lives against the current event positions. */
  function PersonPhase(w: World, draws: seq<real>): World
    requires w.Valid() && |draws| == |w.persons|
  {
    w.(persons := LivePhase(w.dims, w.persons, w.positive, w.negative, draws))
  }

  /** Phase 2: every negative event moves. */
  function NegativePhase(w: World, targets: seq<Pos>): World
    requires Relocation(w.dims, w.negative, targets)
  {
    w.(negative := MoveEvents(w.dims, w.negative, targets))
  }

  /** Phase 3: every positive event moves. */
  function PositivePhase(w: World, targets: seq<Pos>): World
    requires Relocation(w.dims, w.positive, targets)
  {
    w.(positive := MoveEvents(w.dims, w.positive, targets))
  }

  /**
   * The agent part of a tick: the three phases in order, then the clock. Each
   * person's turn sees the events where they stood before any of them moved
   * this tick; persons keep their positions and talents; no agent appears or
   * disappears; the grid stays valid.
   */
  function Advance(w: World, t: TickInput): (next: World)
    requires w.Valid() && Fits(w, t)
    ensures next.Valid()
    ensures next.dims == w.dims && next.nActors == w.nActors
    ensures |next.persons| == |w.persons|
    ensures |next.positive| == |w.positive| && |next.negative| == |w.negative|
    ensures forall i :: 0 <= i < |w.persons| ==>
      next.persons[i] == Live(w.persons[i],
                              Sees(w.dims, w.persons[i].pos, w.positive),
                              Sees(w.dims, w.persons[i].pos, w.negative),
                              t.draws[i])
    ensures forall i :: 0 <= i < |w.persons| ==> Explains(w.persons[i], next.persons[i])
    ensures next.negative == t.negativeTargets && next.positive == t.positiveTargets
    ensures next.clock == Tick(w.clock)
  {
    var lived := PersonPhase(w, t.draws);
    var negativeMoved := NegativePhase(lived, t.negativeTargets);
    var positiveMoved := PositivePhase(negativeMoved, t.positiveTargets);
    positiveMoved.(clock := Tick(positiveMoved.clock))
  }

  /** The capitals of the population, in population order. */
  function Capitals(persons: seq<Person>): (x: seq<real>)
    ensures |x| == |persons|
    ensures forall i :: 0 <= i < |persons| ==> x[i] == persons[i].capital
  {
    seq(|persons|, i requires 0 <= i < |persons| => persons[i].capital)
  }

  /**
   * The Gini reporter: the coefficient of the persons' capitals with n the
   * configured population size. Looking up the persons fails when there are none.
   */
  function ComputeGini(w: World): Result<real> {
    if |w.persons| == 0 then Err(NoAgentOfKind)
    else Metrics.Gini(Capitals(w.persons), w.nActors)
  }

  /**
   * The min/max reporter: the smallest and largest capital, with n the
   * configured population size. Looking up the persons fails when there are none.
   */
  function ComputeMinAndMax(w: World): Result<(real, real)> {
    if |w.persons| == 0 then Err(NoAgentOfKind)
    else Metrics.MinAndMax(Capitals(w.persons), w.nActors)
  }

  /** What one data collection records about the model as a whole. */
  datatype Report = Report(gini: real, lowest: real, highest: real)

  /** One data collection: the Gini reporter, then the min/max reporter; the first failure aborts it. */
  function Collect(w: World): Result<Report> {
    match ComputeGini(w)
    case Err(e) => Err(e)
    case Ok(g) =>
      match ComputeMinAndMax(w)
      case Err(e) => Err(e)
      case Ok(m) => Ok(Report(g, m.0, m.1))
  }

  /**
   * On a valid world a data collection fails exactly when there are no
   * persons to look up, or when their capitals sum to zero and the Gini
   * denominator vanishes; the min/max reporter never fails there.
   */
  lemma CollectFailsIff(w: World)
    requires w.Valid()
    ensures Collect(w).Err? <==> w.nActors == 0 || Metrics.Sum(Capitals(w.persons)) == 0.0
    ensures w.nActors == 0 ==> Collect(w) == Err(NoAgentOfKind)
    ensures w.nActors > 0 && Metrics.Sum(Capitals(w.persons)) == 0.0 ==> Collect(w) == Err(DivisionByZero)
    ensures w.nActors > 0 ==> ComputeMinAndMax(w).Ok?
  {
  }

  /**
   * On a valid world the reporters see the whole population. With some person
   * and non-negative capitals of positive total, the Gini coefficient is in
   * [0, 1); with some person, min and max are capitals of actual persons and
   * bound every capital; with nobody, both reporters fail.
   */
  lemma ReportersOnValidWorld(w: World)
    requires w.Valid()
    ensures |w.persons| == 0 ==> ComputeGini(w).Err? && ComputeMinAndMax(w).Err?
    ensures (forall i :: 0 <= i < |w.persons| ==> w.persons[i].capital >= 0.0)
            && Metrics.Sum(Capitals(w.persons)) > 0.0
            ==> ComputeGini(w).Ok? && 0.0 <= ComputeGini(w).value < 1.0
    ensures |w.persons| > 0 ==>
      && ComputeMinAndMax(w).Ok?
      && (exists i :: 0 <= i < |w.persons| && w.persons[i].capital == ComputeMinAndMax(w).value.0)
      && (exists j :: 0 <= j < |w.persons| && w.persons[j].capital == ComputeMinAndMax(w).value.1)
      && (forall i :: 0 <= i < |w.persons| ==>
            ComputeMinAndMax(w).value.0 <= w.persons[i].capital <= ComputeMinAndMax(w).value.1)
  {
    var x := Capitals(w.persons);
    if (forall i :: 0 <= i < |w.persons| ==> w.persons[i].capital >= 0.0) && Metrics.Sum(x) > 0.0 {
      Metrics.GiniBounds(x, w.nActors);
    }
    if |w.persons| > 0 {
      var r := Metrics.MinAndMax(x, w.nActors);
      assert r.value.0 in x && r.value.1 in x;
      var i :| 0 <= i < |x| && x[i] == r.value.0;
      var j :| 0 <= j < |x| && x[j] == r.value.1;
    }
  }

  /**
   * One tick as the program runs it: each phase first looks up the agents of
   * its kind, which fails when there are none; after the agent part of the
   * tick the data is collected, and a failing reporter aborts the tick. So a
   * tick fails with a lookup error when a kind of agent is missing, with a
   * division by zero when the advanced capitals sum to zero, and otherwise
   * yields the advanced world.
   */
  function Step(w: World, t: TickInput): (r: Result<World>)
    requires w.Valid() && Fits(w, t)
    ensures r == (if |w.persons| == 0 || |w.negative| == 0 || |w.positive| == 0 then Err(NoAgentOfKind)
                  else if Metrics.Sum(Capitals(Advance(w, t).persons)) == 0.0 then Err(DivisionByZero)
                  else Ok(Advance(w, t)))
  {
    if |w.persons| == 0 || |w.negative| == 0 || |w.positive| == 0 then Err(NoAgentOfKind)
    else
      var next := Advance(w, t);
      CollectFailsIff(next);
      match Collect(next)
      case Err(e) => Err(e)
      case Ok(_) => Ok(next)
  }

  /**
   * A whole tick on the default 20x20 grid: a person at corner (0,0) with
   * talent 1 and capital 10, a positive event at the opposite corner (19,19)
   * and a negative event out of reach at (10,10), and a draw of 0. The
   * wrapped-around positive event is seen, so the tick completes with the
   * capital doubled to 20 and one lucky event counted, wherever the events
   * then move.
   */
  lemma CornerLuckTick(negativeTarget: Pos, positiveTarget: Pos)
    requires Dims(20, 20).Contains(negativeTarget) && Dims(20, 20).Contains(positiveTarget)
    ensures var w := World(Dims(20, 20), 1, [Person(1.0, 10.0, 0, 0, Pos(0, 0))], [Pos(19, 19)], [Pos(10, 10)], Clock(0, true));
      var t := TickInput([0.0], [negativeTarget], [positiveTarget]);
      && Fits(w, t)
      && Step(w, t).Ok?
      && Step(w, t).value.persons == [Person(1.0, 20.0, 1, 0, Pos(0, 0))]
  {
    var d := Dims(20, 20);
    var w := World(d, 1, [Person(1.0, 10.0, 0, 0, Pos(0, 0))], [Pos(19, 19)], [Pos(10, 10)], Clock(0, true));
    var t := TickInput([0.0], [negativeTarget], [positiveTarget]);
    assert IsNeighbour(d, Pos(0, 0), [Pos(19, 19)][0]);
    assert Sees(d, Pos(0, 0), [Pos(19, 19)]);
    assert !IsNeighbour(d, Pos(0, 0), [Pos(10, 10)][0]);
    assert !Sees(d, Pos(0, 0), [Pos(10, 10)]);
    var next := Advance(w, t);
    assert next.persons == [Person(1.0, 20.0, 1, 0, Pos(0, 0))];
    assert Capitals(next.persons) == [20.0];
    assert Metrics.Sum([20.0]) == Metrics.Sum([20.0][..0]) + 20.0;
  }

  /**
   * A tick that ends with capitals summing to zero aborts: persons with
   * capitals 10 and -20, the first one lucky, leave capitals 20 and -20, and
   * the Gini reporter divides by zero.
   */
  lemma ZeroTotalAbortsTick(negativeTarget: Pos, positiveTarget: Pos)
    requires Dims(20, 20).Contains(negativeTarget) && Dims(20, 20).Contains(positiveTarget)
    ensures var w := World(Dims(20, 20), 2,
                           [Person(1.0, 10.0, 0, 0, Pos(0, 0)), Person(0.0, -20.0, 0, 0, Pos(5, 5))],
                           [Pos(19, 19)], [Pos(10, 10)], Clock(0, true));
      var t := TickInput([0.0, 0.0], [negativeTarget], [positiveTarget]);
      && Fits(w, t)
      && Step(w, t) == Err(DivisionByZero)
  {
    var d := Dims(20, 20);
    var w := World(d, 2, [Person(1.0, 10.0, 0, 0, Pos(0, 0)), Person(0.0, -20.0, 0, 0, Pos(5, 5))],
                   [Pos(19, 19)], [Pos(10, 10)], Clock(0, true));
    var t := TickInput([0.0, 0.0], [negativeTarget], [positiveTarget]);
    assert IsNeighbour(d, Pos(0, 0), [Pos(19, 19)][0]);
    assert Sees(d, Pos(0, 0), [Pos(19, 19)]);
    assert !IsNeighbour(d, Pos(0, 0), [Pos(10, 10)][0]);
    assert !Sees(d, Pos(0, 0), [Pos(10, 10)]);
    assert !IsNeighbour(d, Pos(5, 5), [Pos(19, 19)][0]);
    assert !Sees(d, Pos(5, 5), [Pos(19, 19)]);
    assert !IsNeighbour(d, Pos(5, 5), [Pos(10, 10)][0]);
    assert !Sees(d, Pos(5, 5), [Pos(10, 10)]);
    var next := Advance(w, t);
    assert next.persons[0].capital == 20.0 && next.persons[1].capital == -20.0;
    assert Capitals(next.persons) == [20.0, -20.0];
    assert Metrics.Sum([20.0, -20.0]) == Metrics.Sum([20.0]) + -20.0;
    assert Metrics.Sum([20.0]) == Metrics.Sum([20.0][..0]) + 20.0;
  }

  /** A sequence of tick inputs each of which fits a world of `w`'s shape. */
  predicate AllFit(w: World, inputs: seq<TickInput>) {
    forall k :: 0 <= k < |inputs| ==> Fits(w, inputs[k])
  }

  /** The inputs after the first fit any world of the same shape as `w`. */
  lemma AllFitRest(w: World, next: World, inputs: seq<TickInput>)
    requires |inputs| > 0 && AllFit(w, inputs)
    requires next.dims == w.dims && |next.persons| == |w.persons|
    requires |next.positive| == |w.positive| && |next.negative| == |w.negative|
    ensures AllFit(next, inputs[1..])
  {
    forall k | 0 <= k < |inputs| - 1
      ensures Fits(next, inputs[1..][k])
    {
      assert Fits(w, inputs[k + 1]);
    }
  }

  /**
   * Ticks run one after another until one fails, whose failure ends the run.
   * Like the program's `step`, a tick here is not gated by the running flag:
   * the run goes on calling `Step` for every input, also after the clock has
   * switched the run off.
   */
  function Run(w: World, inputs: seq<TickInput>): (r: Result<World>)
    requires w.Valid() && AllFit(w, inputs)
    ensures r.Err? ==> r.error == NoAgentOfKind || r.error == DivisionByZero
    decreases |inputs|
  {
    if |inputs| == 0 then Ok(w)
    else
      var step := Step(w, inputs[0]);
      if step.Err? then Err(step.error)
      else
        CompletedStep(w, inputs[0]);
        AllFitRest(w, step.value, inputs);
        Run(step.value, inputs[1..])
  }

  /**
   * Over a completed run the world stays valid, no agent appears or
   * disappears, every person's state is explained by its starting state, and
   * the clock has advanced once per tick.
   */
  lemma {:induction false} CompletedRunKeeps(w: World, inputs: seq<TickInput>)
    requires w.Valid() && AllFit(w, inputs)
    ensures Run(w, inputs).Ok? ==>
      var last := Run(w, inputs).value;
      && last.Valid()
      && last.dims == w.dims && last.nActors == w.nActors
      && |last.persons| == |w.persons|
      && |last.positive| == |w.positive| && |last.negative| == |w.negative|
      && (forall i :: 0 <= i < |w.persons| ==> Explains(w.persons[i], last.persons[i]))
      && last.clock == Ticks(w.clock, |inputs|)
    decreases |inputs|
  {
    if |inputs| == 0 {
      forall i | 0 <= i < |w.persons|
        ensures Explains(w.persons[i], w.persons[i])
      {
        ExplainsReflexive(w.persons[i]);
      }
    } else if Run(w, inputs).Ok? {
      var next := Step(w, inputs[0]).value;
      CompletedStep(w, inputs[0]);
      AllFitRest(w, next, inputs);
      assert Run(w, inputs) == Run(next, inputs[1..]);
      CompletedRunKeeps(next, inputs[1..]);
      RunExplains(w, next, Run(next, inputs[1..]).value);
    }
  }

  /** A completed tick keeps the world valid and its shape, explains every person, and ticks the clock. */
  lemma CompletedStep(w: World, t: TickInput)
    requires w.Valid() && Fits(w, t)
    ensures Step(w, t).Ok? ==>
      var next := Step(w, t).value;
      && next.Valid() && next.dims == w.dims && next.nActors == w.nActors
      && |next.persons| == |w.persons| && |next.positive| == |w.positive| && |next.negative| == |w.negative|
      && (forall i :: 0 <= i < |w.persons| ==> Explains(w.persons[i], next.persons[i]))
      && next.clock == Tick(w.clock)
  {
    if Step(w, t).Ok? {
      assert Step(w, t).value == Advance(w, t);
    }
  }

  /** A person explained after one tick and explained over the rest of the run is explained over the whole run. */
  lemma RunExplains(w: World, next: World, last: World)
    requires |next.persons| == |w.persons| && |last.persons| == |w.persons|
    requires forall i :: 0 <= i < |w.persons| ==> Explains(w.persons[i], next.persons[i])
    requires forall i :: 0 <= i < |next.persons| ==> Explains(next.persons[i], last.persons[i])
    ensures forall i :: 0 <= i < |w.persons| ==> Explains(w.persons[i], last.persons[i])
  {
    forall i | 0 <= i < |w.persons|
      ensures Explains(w.persons[i], last.persons[i])
    {
      ExplainsTransitive(w.persons[i], next.persons[i], last.persons[i]);
    }
  }

  /**
   * A failing tick ends the run, whichever tick it is: once a run has failed,
   * further inputs change nothing, so the failure of the first failing tick
   * is the failure of every longer run.
   */
  lemma {:induction false} RunStopsAtFailure(w: World, inputs: seq<TickInput>, more: seq<TickInput>)
    requires w.Valid() && AllFit(w, inputs) && AllFit(w, inputs + more)
    ensures Run(w, inputs).Err? ==> Run(w, inputs + more) == Run(w, inputs)
    decreases |inputs|
  {
    if |inputs| > 0 {
      FirstTickDecides(w, inputs, more);
      if Step(w, inputs[0]).Ok? {
        RunAfterFirstTick(w, inputs);
        RunAfterFirstTick(w, inputs + more);
        RunStopsAtFailure(Step(w, inputs[0]).value, inputs[1..], more);
      }
    }
  }

  /** A run and its extension start with the same tick: a failing one ends both alike. */
  lemma FirstTickDecides(w: World, inputs: seq<TickInput>, more: seq<TickInput>)
    requires w.Valid() && AllFit(w, inputs) && AllFit(w, inputs + more) && |inputs| > 0
    ensures (inputs + more)[0] == inputs[0] && (inputs + more)[1..] == inputs[1..] + more
    ensures Step(w, inputs[0]).Err? ==> Run(w, inputs + more) == Run(w, inputs) == Err(Step(w, inputs[0]).error)
  {
    assert (inputs + more)[1..] == inputs[1..] + more;
  }

  /** After a completed first tick, the run goes on from the advanced world with the remaining inputs. */
  lemma RunAfterFirstTick(w: World, inputs: seq<TickInput>)
    requires w.Valid() && AllFit(w, inputs)
    ensures |inputs| > 0 && Step(w, inputs[0]).Ok? ==>
      && Step(w, inputs[0]).value.Valid()
      && AllFit(Step(w, inputs[0]).value, inputs[1..])
      && Run(w, inputs) == Run(Step(w, inputs[0]).value, inputs[1..])
  {
    if |inputs| > 0 && Step(w, inputs[0]).Ok? {
      CompletedStep(w, inputs[0]);
      AllFitRest(w, Step(w, inputs[0]).value, inputs);
    }
  }

  /**
   * A run with persons and events of both kinds whose capitals are all
   * positive never fails: capitals keep their sign through doubling and
   * halving, so the Gini denominator stays positive at every tick.
   */
  lemma {:induction false} RunCompletes(w: World, inputs: seq<TickInput>)
    requires w.Valid() && AllFit(w, inputs)
    requires |w.persons| > 0 && |w.negative| > 0 && |w.positive| > 0
    requires forall i :: 0 <= i < |w.persons| ==> w.persons[i].capital > 0.0
    ensures Run(w, inputs).Ok?
    decreases |inputs|
  {
    if |inputs| > 0 {
      var next := Advance(w, inputs[0]);
      forall i | 0 <= i < |next.persons|
        ensures next.persons[i].capital > 0.0 && Capitals(next.persons)[i] > 0.0
      {
        ExplainsKeepsSign(w.persons[i], next.persons[i]);
      }
      Metrics.SumPositive(Capitals(next.persons));
      assert Step(w, inputs[0]) == Ok(next);
      AllFitRest(w, next, inputs);
      RunCompletes(next, inputs[1..]);
    }
  }
}
