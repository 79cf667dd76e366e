/**
 * Building the initial world from the configuration: persons placed one by
 * one on distinct empty cells, then the positive and negative events placed
 * anywhere. Talents, starting capitals and all random choices are inputs.
 */
module Initializer {
  import opened Outcome
  import opened Lattice
  import opened Agents
  import opened Simulation
  import Metrics

  /**
   * The run's configuration. The means and standard deviations of talent and
   * starting capital, and the seed, only shape the sampled values, which the
   * initializer receives ready-made.
   */
  datatype Config = Config(height: int, width: int, nActors: nat, nEvents: int, propLucky: real)

  function GridOf(cfg: Config): Dims {
    Dims(cfg.width, cfg.height)
  }

  /** Conversion of a float to an integer as Python's `int` does it: rounding toward zero. */
  function TruncateTowardZero(v: real): (n: int)
    ensures v >= 0.0 ==> n as real <= v < n as real + 1.0
    ensures v < 0.0 ==> n as real - 1.0 < v <= n as real
  {
    if v >= 0.0 then v.Floor else -((-v).Floor)
  }

  /** The number of positive events asked for: `int(prop_lucky * n_events)`. */
  function SplitPoint(cfg: Config): int {
    TruncateTowardZero(cfg.propLucky * cfg.nEvents as real)
  }

  /** How many positive events are placed; a negative count places none. */
  function PositiveCount(cfg: Config): nat {
    var k := SplitPoint(cfg);
    if k < 0 then 0 else k
  }

  /** How many negative events are placed: the rest of the events; a negative count places none. */
  function NegativeCount(cfg: Config): nat {
    var k := cfg.nEvents - SplitPoint(cfg);
    if k < 0 then 0 else k
  }

  /**
   * For a proportion in [0, 1] and a non-negative event count, the positive
   * events are the floor of proportion times count, and positive and negative
   * events together are exactly the configured number.
   */
  lemma EventSplit(cfg: Config)
    requires 0.0 <= cfg.propLucky <= 1.0 && cfg.nEvents >= 0
    ensures PositiveCount(cfg) == (cfg.propLucky * cfg.nEvents as real).Floor
    ensures PositiveCount(cfg) <= cfg.nEvents
    ensures PositiveCount(cfg) + NegativeCount(cfg) == cfg.nEvents
  {
    var n := cfg.nEvents as real;
    assert cfg.propLucky * n >= 0.0;
    assert cfg.propLucky * n <= n by {
      assert n - cfg.propLucky * n == (1.0 - cfg.propLucky) * n;
    }
  }

  /** No element occurs twice. */
  predicate Distinct<T(==)>(s: seq<T>) {
    forall i, j :: 0 <= i < j < |s| ==> s[i] != s[j]
  }

  /** A list without repetitions has as many elements as its set. */
  lemma {:induction false} DistinctCardinality<T>(s: seq<T>)
    requires Distinct(s)
    ensures |set x | x in s| == |s|
  {
    if |s| > 0 {
      var front := s[..|s| - 1];
      DistinctCardinality(front);
      assert (set x | x in s) == (set x | x in front) + {s[|s| - 1]};
      assert s[|s| - 1] !in (set x | x in front);
    }
  }

  /** Cells (x, 0) .. (x, h - 1) of one column. */
  function Column(x: int, h: nat): (cells: seq<Pos>)
    ensures |cells| == h
    ensures forall c :: c in cells <==> c.x == x && 0 <= c.y < h
    ensures Distinct(cells)
  {
    var cells := seq(h, y requires 0 <= y < h => Pos(x, y));
    assert forall c: Pos :: c.x == x && 0 <= c.y < h ==> cells[c.y] == c;
    cells
  }

  /** The cells of the first `w` columns, column by column: the grid's enumeration order. */
  function CellsOfColumns(w: nat, h: nat): (cells: seq<Pos>)
    ensures |cells| == w * h
    ensures forall c :: c in cells <==> 0 <= c.x < w && 0 <= c.y < h
    ensures Distinct(cells)
    decreases w
  {
    if w == 0 then []
    else
      var front, last := CellsOfColumns(w - 1, h), Column(w - 1, h);
      assert forall i, j :: 0 <= i < |front| && 0 <= j < |last| ==> front[i] != last[j] by {
        forall i, j | 0 <= i < |front| && 0 <= j < |last|
          ensures front[i] != last[j]
        {
          assert front[i] in front && last[j] in last;
        }
      }
      front + last
  }

  /** Every cell of the grid, each exactly once. */
  function AllCells(d: Dims): (cells: seq<Pos>)
    requires d.Valid()
    ensures |cells| == d.width * d.height
    ensures forall c :: c in cells <==> d.Contains(c)
    ensures Distinct(cells)
  {
    CellsOfColumns(d.width, d.height)
  }

  /** The cells of `cells` not in `occupied`, in their order. */
  function Unoccupied(cells: seq<Pos>, occupied: seq<Pos>): (r: seq<Pos>)
    ensures forall c :: c in r <==> c in cells && c !in occupied
    ensures Distinct(cells) ==> Distinct(r)
    decreases |cells|
  {
    if |cells| == 0 then []
    else
      var front, c := cells[..|cells| - 1], cells[|cells| - 1];
      var rest := Unoccupied(front, occupied);
      assert Distinct(cells) ==> c !in front;
      if c in occupied then rest else rest + [c]
  }

  /** The positions of a list of persons. */
  function Positions(ps: seq<Person>): (r: seq<Pos>)
    ensures |r| == |ps|
    ensures forall i :: 0 <= i < |ps| ==> r[i] == ps[i].pos
  {
    seq(|ps|, i requires 0 <= i < |ps| => ps[i].pos)
  }

  /** Persons on the grid, no two on the same cell. */
  predicate Placed(d: Dims, ps: seq<Person>) {
    && (forall i :: 0 <= i < |ps| ==> d.Contains(ps[i].pos))
    && Distinct(Positions(ps))
  }

  /** The cells no person placed so far stands on (no events exist yet while persons are placed). */
  function EmptyCells(d: Dims, placed: seq<Person>): (empties: seq<Pos>)
    requires d.Valid()
    ensures forall c :: c in empties <==> d.Contains(c) && c !in Positions(placed)
    ensures Distinct(empties)
  {
    Unoccupied(AllCells(d), Positions(placed))
  }

  /** Each placed person takes exactly one empty cell away. */
  lemma EmptyCellCount(d: Dims, placed: seq<Person>)
    requires d.Valid() && Placed(d, placed)
    ensures |EmptyCells(d, placed)| == d.width * d.height - |placed|
  {
    var all, occ, empties := AllCells(d), Positions(placed), EmptyCells(d, placed);
    var allSet, occSet, emptySet := set c | c in all, set c | c in occ, set c | c in empties;
    DistinctCardinality(all);
    DistinctCardinality(occ);
    DistinctCardinality(empties);
    assert occSet <= allSet by {
      forall c | c in occSet
        ensures c in allSet
      {
        var i :| 0 <= i < |occ| && occ[i] == c;
      }
    }
    assert emptySet == allSet - occSet;
    assert allSet == emptySet + occSet;
    assert emptySet * occSet == {};
  }

  /** A person on a free on-grid cell joins persons placed on distinct cells without a clash. */
  lemma PlacedExtends(d: Dims, placed: seq<Person>, person: Person)
    requires Placed(d, placed) && d.Contains(person.pos) && person.pos !in Positions(placed)
    ensures Placed(d, placed + [person])
  {
    assert Positions(placed + [person]) == Positions(placed) + [person.pos];
  }

  /**
   * Places persons `|placed|` onward: each takes the sampled talent and
   * capital, starts with no lucky or unlucky events, and stands on a cell
   * chosen among the cells still empty (`picks[i]` selects which). Fails as
   * soon as a person finds no empty cell, which happens exactly when there
   * are more persons than cells.
   */
  function PlacePersons(d: Dims, talents: seq<real>, capitals: seq<real>, picks: seq<nat>, placed: seq<Person>)
    : (r: Result<seq<Person>>)
    requires d.Valid()
    requires |capitals| == |talents| && |picks| == |talents|
    requires |placed| <= |talents| && Placed(d, placed)
    ensures r.Err? <==> |talents| > d.width * d.height
    ensures r.Err? ==> r.error == NoEmptyCell
    ensures r.Ok? ==> |r.value| == |talents| && r.value[..|placed|] == placed && Placed(d, r.value)
    ensures r.Ok? ==> forall i :: |placed| <= i < |talents| ==>
      r.value[i] == Person(talents[i], capitals[i], 0, 0, r.value[i].pos)
    decreases |talents| - |placed|
  {
    EmptyCellCount(d, placed);
    if |placed| == |talents| then Ok(placed)
    else
      var empties := EmptyCells(d, placed);
      if |empties| == 0 then Err(NoEmptyCell)
      else
        var i := |placed|;
        var cell := empties[picks[i] % |empties|];
        var person := Person(talents[i], capitals[i], 0, 0, cell);
        var more := placed + [person];
        assert cell !in Positions(placed);
        PlacedExtends(d, placed, person);
        var r := PlacePersons(d, talents, capitals, picks, more);
        assert r.Ok? ==> r.value[..|placed|] == r.value[..|more|][..|placed|] == placed;
        assert r.Ok? ==> r.value[|placed|] == r.value[..|more|][|placed|] == person;
        r
  }

  /**
   * The initial world: persons first, then the positive and negative events,
   * each at its given cell; year 0 and running; then a first data collection.
   * Fails when there are more persons than grid cells, and otherwise when the
   * first data collection fails: when there are no persons to look up, or
   * when their starting capitals sum to zero.
   */
  function Initialize(cfg: Config, talents: seq<real>, capitals: seq<real>, picks: seq<nat>,
                      positiveCells: seq<Pos>, negativeCells: seq<Pos>): (r: Result<World>)
    requires GridOf(cfg).Valid()
    requires |talents| == cfg.nActors && |capitals| == cfg.nActors && |picks| == cfg.nActors
    requires |positiveCells| == PositiveCount(cfg) && |negativeCells| == NegativeCount(cfg)
    requires forall i :: 0 <= i < |positiveCells| ==> GridOf(cfg).Contains(positiveCells[i])
    requires forall i :: 0 <= i < |negativeCells| ==> GridOf(cfg).Contains(negativeCells[i])
    ensures r.Err? <==> cfg.nActors > cfg.width * cfg.height || cfg.nActors == 0 || Metrics.Sum(capitals) == 0.0
    ensures cfg.nActors > cfg.width * cfg.height ==> r == Err(NoEmptyCell)
    ensures cfg.nActors == 0 ==> r == Err(NoAgentOfKind)
    ensures 0 < cfg.nActors <= cfg.width * cfg.height && Metrics.Sum(capitals) == 0.0 ==> r == Err(DivisionByZero)
    ensures r.Ok? ==> r.value.Valid() && r.value.dims == GridOf(cfg) && r.value.nActors == cfg.nActors
    ensures r.Ok? ==> Placed(r.value.dims, r.value.persons)
    ensures r.Ok? ==> forall i :: 0 <= i < cfg.nActors ==>
      r.value.persons[i] == Person(talents[i], capitals[i], 0, 0, r.value.persons[i].pos)
    ensures r.Ok? ==> |r.value.positive| == PositiveCount(cfg) && |r.value.negative| == NegativeCount(cfg)
    ensures r.Ok? ==> r.value.positive == positiveCells && r.value.negative == negativeCells
    ensures r.Ok? ==> r.value.clock == Clock(0, true)
  {
    var d := GridOf(cfg);
    match PlacePersons(d, talents, capitals, picks, [])
    case Err(e) => Err(e)
    case Ok(persons) =>
      var w := World(d, cfg.nActors, persons, positiveCells, negativeCells, Clock(0, true));
      assert w.Valid();
      SampledCapitals(persons, talents, capitals);
      CollectFailsIff(w);
      match Collect(w)
      case Err(e) => Err(e)
      case Ok(_) => Ok(w)
  }

  /** Persons carrying the sampled capitals report exactly those capitals. */
  lemma SampledCapitals(persons: seq<Person>, talents: seq<real>, capitals: seq<real>)
    requires |persons| == |talents| == |capitals|
    requires forall i :: 0 <= i < |persons| ==> persons[i] == Person(talents[i], capitals[i], 0, 0, persons[i].pos)
    ensures Capitals(persons) == capitals
  {
  }

  /** On the default 20x20 grid, 401 persons cannot all be placed: initialization fails. */
  lemma TooManyPersons(talents: seq<real>, capitals: seq<real>, picks: seq<nat>,
                       positiveCells: seq<Pos>, negativeCells: seq<Pos>)
    requires |talents| == 401 && |capitals| == 401 && |picks| == 401
    requires |positiveCells| == 5 && |negativeCells| == 5
    requires forall i :: 0 <= i < 5 ==> Dims(20, 20).Contains(positiveCells[i])
    requires forall i :: 0 <= i < 5 ==> Dims(20, 20).Contains(negativeCells[i])
    ensures Initialize(Config(20, 20, 401, 10, 0.5), talents, capitals, picks, positiveCells, negativeCells)
            == Err(NoEmptyCell)
  {
    EventSplit(Config(20, 20, 401, 10, 0.5));
  }

  /**
   * A whole run from initialization. Whenever initialization and the ticks
   * complete, after `k` ticks the clock reads `k` half-years and the run is on
   * exactly while `k` < 80 (`LifetimeHalfYears`); there are still `n_actors` persons on pairwise
   * distinct cells with their sampled talents, each holding its starting
   * capital doubled once per lucky and halved once per unlucky event; the
   * event populations keep their initial split.
   */
  lemma LifeOfARun(cfg: Config, talents: seq<real>, capitals: seq<real>, picks: seq<nat>,
                   positiveCells: seq<Pos>, negativeCells: seq<Pos>, inputs: seq<TickInput>)
    requires GridOf(cfg).Valid()
    requires |talents| == cfg.nActors && |capitals| == cfg.nActors && |picks| == cfg.nActors
    requires |positiveCells| == PositiveCount(cfg) && |negativeCells| == NegativeCount(cfg)
    requires forall i :: 0 <= i < |positiveCells| ==> GridOf(cfg).Contains(positiveCells[i])
    requires forall i :: 0 <= i < |negativeCells| ==> GridOf(cfg).Contains(negativeCells[i])
    requires forall k :: 0 <= k < |inputs| ==>
      FitsShape(GridOf(cfg), cfg.nActors, PositiveCount(cfg), NegativeCount(cfg), inputs[k])
    ensures var init := Initialize(cfg, talents, capitals, picks, positiveCells, negativeCells);
      init.Ok? ==> AllFit(init.value, inputs)
    ensures var init := Initialize(cfg, talents, capitals, picks, positiveCells, negativeCells);
      init.Ok? && Run(init.value, inputs).Ok? ==>
      var last := Run(init.value, inputs).value;
      && last.clock == Clock(|inputs|, |inputs| < LifetimeHalfYears)
      && |last.persons| == cfg.nActors
      && Placed(last.dims, last.persons)
      && |last.positive| == PositiveCount(cfg) && |last.negative| == NegativeCount(cfg)
      && forall i :: 0 <= i < cfg.nActors ==>
           && last.persons[i].talent == talents[i]
           && last.persons[i].capital == Rescale(capitals[i], last.persons[i].numLucky, last.persons[i].numUnlucky)
  {
    var init := Initialize(cfg, talents, capitals, picks, positiveCells, negativeCells);
    if init.Ok? {
      var first := init.value;
      ShapeFitsWorld(first, inputs);
      CompletedRun(first, talents, capitals, inputs);
    }
  }

  /**
   * Initialization and every tick complete when the grid holds the persons,
   * there is at least one person and at least one event of each kind, and
   * every starting capital is positive.
   */
  lemma PositiveCapitalsRunToCompletion(cfg: Config, talents: seq<real>, capitals: seq<real>, picks: seq<nat>,
                                        positiveCells: seq<Pos>, negativeCells: seq<Pos>, inputs: seq<TickInput>)
    requires GridOf(cfg).Valid() && 0 < cfg.nActors <= cfg.width * cfg.height
    requires PositiveCount(cfg) > 0 && NegativeCount(cfg) > 0
    requires |talents| == cfg.nActors && |capitals| == cfg.nActors && |picks| == cfg.nActors
    requires forall i :: 0 <= i < cfg.nActors ==> capitals[i] > 0.0
    requires |positiveCells| == PositiveCount(cfg) && |negativeCells| == NegativeCount(cfg)
    requires forall i :: 0 <= i < |positiveCells| ==> GridOf(cfg).Contains(positiveCells[i])
    requires forall i :: 0 <= i < |negativeCells| ==> GridOf(cfg).Contains(negativeCells[i])
    requires forall k :: 0 <= k < |inputs| ==>
      FitsShape(GridOf(cfg), cfg.nActors, PositiveCount(cfg), NegativeCount(cfg), inputs[k])
    ensures var init := Initialize(cfg, talents, capitals, picks, positiveCells, negativeCells);
      init.Ok? && AllFit(init.value, inputs) && Run(init.value, inputs).Ok?
  {
    StartsHealthy(cfg, talents, capitals, picks, positiveCells, negativeCells, inputs);
    RunCompletes(Initialize(cfg, talents, capitals, picks, positiveCells, negativeCells).value, inputs);
  }

  /** With positive starting capitals, initialization succeeds into a world from which no tick can fail. */
  lemma StartsHealthy(cfg: Config, talents: seq<real>, capitals: seq<real>, picks: seq<nat>,
                      positiveCells: seq<Pos>, negativeCells: seq<Pos>, inputs: seq<TickInput>)
    requires GridOf(cfg).Valid() && 0 < cfg.nActors <= cfg.width * cfg.height
    requires PositiveCount(cfg) > 0 && NegativeCount(cfg) > 0
    requires |talents| == cfg.nActors && |capitals| == cfg.nActors && |picks| == cfg.nActors
    requires forall i :: 0 <= i < cfg.nActors ==> capitals[i] > 0.0
    requires |positiveCells| == PositiveCount(cfg) && |negativeCells| == NegativeCount(cfg)
    requires forall i :: 0 <= i < |positiveCells| ==> GridOf(cfg).Contains(positiveCells[i])
    requires forall i :: 0 <= i < |negativeCells| ==> GridOf(cfg).Contains(negativeCells[i])
    requires forall k :: 0 <= k < |inputs| ==>
      FitsShape(GridOf(cfg), cfg.nActors, PositiveCount(cfg), NegativeCount(cfg), inputs[k])
    ensures var init := Initialize(cfg, talents, capitals, picks, positiveCells, negativeCells);
      && init.Ok? && init.value.Valid() && AllFit(init.value, inputs)
      && |init.value.persons| > 0 && |init.value.negative| > 0 && |init.value.positive| > 0
      && forall i :: 0 <= i < |init.value.persons| ==> init.value.persons[i].capital > 0.0
  {
    Metrics.SumPositive(capitals);
    ShapeFitsWorld(Initialize(cfg, talents, capitals, picks, positiveCells, negativeCells).value, inputs);
  }

  /** Inputs that fit the shape of a world fit the world. */
  lemma ShapeFitsWorld(w: World, inputs: seq<TickInput>)
    requires forall k :: 0 <= k < |inputs| ==>
      FitsShape(w.dims, |w.persons|, |w.positive|, |w.negative|, inputs[k])
    ensures AllFit(w, inputs)
  {
  }

  /**
   * After a completed run from an initial world, persons still stand on their
   * distinct starting cells with their talents, and each capital is its
   * starting capital rescaled by the person's lucky and unlucky events.
   */
  lemma CompletedRun(first: World, talents: seq<real>, capitals: seq<real>, inputs: seq<TickInput>)
    requires first.Valid() && AllFit(first, inputs) && Placed(first.dims, first.persons)
    requires |talents| == |first.persons| && |capitals| == |first.persons|
    requires forall i :: 0 <= i < |first.persons| ==>
      first.persons[i] == Person(talents[i], capitals[i], 0, 0, first.persons[i].pos)
    requires first.clock == Clock(0, true)
    ensures Run(first, inputs).Ok? ==>
      var last := Run(first, inputs).value;
      && last.clock == Clock(|inputs|, |inputs| < LifetimeHalfYears)
      && |last.persons| == |first.persons|
      && |last.positive| == |first.positive| && |last.negative| == |first.negative|
      && Placed(last.dims, last.persons)
      && forall i :: 0 <= i < |first.persons| ==>
           && last.persons[i].talent == talents[i]
           && last.persons[i].capital == Rescale(capitals[i], last.persons[i].numLucky, last.persons[i].numUnlucky)
  {
    var r := Run(first, inputs);
    if r.Err? {
      return;
    }
    CompletedRunKeeps(first, inputs);
    var last := r.value;
    assert last.clock == Ticks(first.clock, |inputs|);
    assert |last.persons| == |first.persons|;
    RunLastsEightyTicks(|inputs|);
    ExplainedStayPlaced(first.persons, last.persons);
    forall i | 0 <= i < |first.persons|
      ensures last.persons[i].talent == talents[i]
      ensures last.persons[i].capital == Rescale(capitals[i], last.persons[i].numLucky, last.persons[i].numUnlucky)
    {
      assert Explains(first.persons[i], last.persons[i]);
    }
  }

  /** Persons whose states are explained by their earlier ones have not moved. */
  lemma ExplainedStayPlaced(before: seq<Person>, after: seq<Person>)
    requires |after| == |before|
    requires forall i :: 0 <= i < |before| ==> Explains(before[i], after[i])
    ensures Positions(after) == Positions(before)
  {
    forall i | 0 <= i < |before|
      ensures Positions(after)[i] == Positions(before)[i]
    {
      assert Explains(before[i], after[i]);
    }
  }
}
