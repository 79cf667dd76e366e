# Luck versus talent: a Dafny model of the simulation core

This project models the simulation engine of the luck-versus-talent
agent-based model (`TalentLuck.py`). Persons with a fixed talent live on a
toroidal grid. Each tick a person whose 3x3 neighbourhood holds a positive
event doubles its capital if a uniform draw falls below its talent. A person
whose neighbourhood holds a negative event halves its capital. Then every
event jumps to a random cell. A tick is half a year, and the run stops after
40 years. The reporters are the Gini coefficient of the capitals and the
smallest and largest capital.

Modules, following the program's structure:

- `Outcome` (`Outcome.dfy`): the failures the program can raise, as a `Result`.
- `Lattice` (`Lattice.dfy`): grid dimensions, cells, and the toroidal Moore
  neighbourhood with its centre included.
- `Agents` (`Agents.dfy`): `Person`, its turn `Live`, the person phase, and
  event relocation. `Explains` is the invariant that ties a person's capital
  to its history: the starting capital doubled once per lucky event and
  halved once per unlucky event.
- `Metrics` (`Metrics.dfy`): sum, insertion sort, the Gini formula, and min/max.
- `Simulation` (`Simulation.dfy`): the clock, the world state, the three-phase
  `Advance`, the two reporters and the data collection `Collect` on a world,
  the tick `Step` (which can fail), and multi-tick `Run`.
- `Initializer` (`Initializer.dfy`): the event split, placement of persons on
  distinct empty cells, and `Initialize`.

Capital, talent, draws and the Gini value are `real`. Elapsed time is counted
in half-years as a `nat`; `YearsPassed` converts it to years. Randomness is
supplied from outside:

- each person gets one draw per tick, read only when a positive event is near;
- each event gets a target cell per tick;
- each person gets a pick among the empty cells at placement;
- the sampled talents and starting capitals are passed in.

The neighbourhood test is a modelling assumption about the grid library. An
event at `e` is a neighbour of `p` when `(e.x - p.x) mod W` and
`(e.y - p.y) mod H` are each in {W-1, 0, 1} (resp. {H-1, 0, 1}).
`NeighbourIffInMooreBlock` proves that this test matches the enumerated block
of nine wrapped shifts of `p`.

The model follows the code in these details:

- The positive-event count is `int(prop_lucky * n_events)`, which truncates
  toward zero, not a floor. The two agree for proportions in [0, 1] and a
  non-negative event count.
- A negative count places no events, because `range` of a negative number is empty.
- The Gini formula and min/max use the configured `n_actors` as `n`, not the
  length of the capital list. On a list of capitals they fail where the
  formula does: division by zero, index error.
- Both reporters run inside `__init__` and inside every `step`, and an
  exception they raise aborts the whole call. `Initialize` therefore fails
  when there are no persons or the starting capitals sum to zero, and `Step`
  fails when the capitals after the tick sum to zero; `Run` ends at the first
  failing tick.
- Each phase of a tick, and each reporter, first looks up the agents of its
  kind. The lookup raises when no agent of that kind was ever created, so a
  tick fails when there are no persons, no positive or no negative events.
- `min_and_max` with `n = 0` reads `x[-1]`, the last element.

## Model

| member | source | states |
|---|---|---|
| Lattice.NeighbourIffInMooreBlock | TalentLuck.py:34-35 | for on-grid cells, the modular neighbour test holds exactly when the event cell is one of the nine wrapped shifts (dx, dy in -1..1) of the person's cell, at interior, edge and corner cells alike |
| Lattice.NeighbourSymmetric | TalentLuck.py:34-35 | on the torus, `e` is in the neighbourhood of `p` exactly when `p` is in the neighbourhood of `e` |
| Lattice.CornerWrapsToOppositeCorner | TalentLuck.py:135 | on the default 20x20 torus, an event at (19,19) is a neighbour of a person at (0,0) |
| Agents.Live | TalentLuck.py:31-49 | talent and position never change; the lucky count rises by exactly one iff a positive event is near and the draw is below the talent, else it is unchanged; the unlucky count rises by exactly one iff a negative event is near; the new capital is the old one doubled once per lucky and halved once per unlucky increment (`Explains`) |
| Agents.LiveQuiet | TalentLuck.py:31-49 | with no event of either kind nearby the person is left exactly as it was |
| Agents.LiveIgnoresDrawWithoutPositive | TalentLuck.py:38-40 | the draw is consulted only when a positive event is present: without one, any two draws give the same result |
| Agents.LiveCapital | TalentLuck.py:38-49 | a lucky hit alone doubles the capital; a positive event whose draw is not below the talent changes nothing; a negative event alone halves the capital whatever the talent and draw; luck and a negative event together leave it unchanged |
| Agents.TalentExtremes | TalentLuck.py:39-40 | with draws in [0, 1), a talent of at least 1 always turns a positive event into luck and a talent of at most 0 never does |
| Agents.LiveScenarios | TalentLuck.py:38-49 | talent 1, capital 10, draw 0, positive event only: capital 20 and one lucky event; capital 10, negative event only: capital 5 and one unlucky event |
| Agents.ExplainsTransitive | TalentLuck.py:41-47 | doubling and halving histories compose, so the capital after many turns is the starting capital doubled once per lucky event and halved once per unlucky event, in any order |
| Agents.ExplainsKeepsSign | TalentLuck.py:41-47 | lucky and unlucky events never change the sign of a capital: positive, zero and negative capitals stay so |
| Agents.LivePhase | TalentLuck.py:188 | every person takes exactly one turn against the same event positions, person i with draw i; the population size is kept and each new state is explained by the old one |
| Agents.MoveEvents | TalentLuck.py:65-69 | an event move yields one on-grid cell per event, each the chosen target, independent of where the event stood |
| Agents.MoveReachesEveryRelocation | TalentLuck.py:86-90 | every assignment of on-grid cells to the events is a possible outcome of the move phase |
| Simulation.Tick | TalentLuck.py:192-198 | elapsed years grow by exactly 0.5; afterwards the run is on iff it was on before and fewer than 40 years have passed |
| Simulation.TicksClosedForm | TalentLuck.py:192-198 | after n ticks exactly n half-years have been added, and (for n > 0) the run is on iff it was on and the total is below 80 half-years |
| Simulation.RunLastsEightyTicks | TalentLuck.py:186-198 | from year 0 with the run on, the clock after n ticks is n half-years and the run is on iff n < 80: it stays on for 79 ticks and stops at exactly the 80th |
| Simulation.StoppedStaysStopped | TalentLuck.py:196-198 | once the run is switched off, no number of further ticks switches it back on |
| Simulation.Advance | TalentLuck.py:186-192 | the agent part of a tick keeps the world valid and the populations' sizes; each person's turn sees the event positions from before any event moved this tick; persons keep position and talent; events end at their chosen cells; the clock ticks once |
| Simulation.CollectFailsIff | TalentLuck.py:201-220 | on a valid world a data collection fails exactly when there are no persons to look up (lookup error) or their capitals sum to zero (division by zero); the min/max reporter never fails when there are persons |
| Simulation.Step | TalentLuck.py:186-198 | a tick fails with a lookup error exactly when persons, negative or positive events are missing, fails with division by zero when the capitals after the tick sum to zero, and otherwise completes with the advanced world |
| Simulation.ZeroTotalAbortsTick | TalentLuck.py:194 | persons with capitals 10 and -20 of whom the first is lucky leave capitals 20 and -20, and the tick fails with division by zero in the Gini reporter |
| Simulation.CornerLuckTick | TalentLuck.py:186-194 | on the 20x20 grid, a person at (0,0) with talent 1, capital 10 and draw 0, a positive event at (19,19) and a negative one out of reach, completes the tick with capital 20 and one lucky event wherever the events move |
| Simulation.Run | TalentLuck.py:186-198 | a run fails only with the failures a tick can raise: a lookup error or division by zero; it calls the tick for every input, whether or not the clock has switched the run off |
| Simulation.CompletedRunKeeps | TalentLuck.py:186-198 | over a completed run of any number of ticks the world stays valid, no agent appears or disappears, every person's state is explained by its starting state, and the clock has ticked once per tick |
| Simulation.RunStopsAtFailure | TalentLuck.py:186-194 | once a run has failed, at whichever tick, appending further inputs leaves its outcome unchanged: the first failing tick's failure is the failure of every longer run |
| Simulation.RunCompletes | TalentLuck.py:186-198 | with persons, events of both kinds and positive capitals, every tick of a run completes, because capitals keep their sign |
| Simulation.ReportersOnValidWorld | TalentLuck.py:201-220 | on a valid world with no persons both reporters fail; with non-negative capitals of positive total the Gini value is in [0, 1); with persons, min and max are capitals of actual persons and bound every person's capital |
| Metrics.Insert | TalentLuck.py:205 | inserting into an ascending list gives an ascending list holding exactly the old values plus the new one |
| Metrics.Sort | TalentLuck.py:205 | the sorted capitals are ascending and a permutation (same multiset, same length) of the input |
| Metrics.AscendingUnique | TalentLuck.py:205 | two ascending lists with the same multiset of values are equal, so the sorted order is unique |
| Metrics.SortIgnoresOrder | TalentLuck.py:204-205 | sorting two permutations of the same capitals gives the same list |
| Metrics.SumSort | TalentLuck.py:205-208 | sorting keeps the total capital |
| Metrics.GiniFormula | TalentLuck.py:206-209 | the formula on ascending capitals fails with a division by zero iff n is 0 or the capitals sum to 0 |
| Metrics.Gini | TalentLuck.py:201-209 | the Gini reporter fails with a division by zero iff there are no persons or the capitals sum to zero, and only then |
| Metrics.GiniIgnoresOrder | TalentLuck.py:204-209 | the Gini value depends only on the multiset of capitals, not on the order of the persons |
| Metrics.RankWeightedAtMostHalf | TalentLuck.py:208 | on ascending capitals, twice the rank-weighted total with weights n - i is at most (n + 1) times the sum (Chebyshev's sum inequality) |
| Metrics.RankWeightedAtLeastSum | TalentLuck.py:208 | with non-negative capitals every weight n - i is at least 1, so the rank-weighted total is at least the sum |
| Metrics.GiniBounds | TalentLuck.py:207-209 | for non-negative capitals with positive sum and n the population size, the Gini value is defined and lies in [0, 1 - 1/n], so below 1 |
| Metrics.GiniOfEqualCapitals | TalentLuck.py:207-209 | if every person holds the same non-zero capital, the Gini value is exactly 0 |
| Metrics.MinAndMax | TalentLuck.py:212-220 | fails with an index error iff there are no capitals or n exceeds their number; otherwise both values are actual capitals, the first is at most every capital, and for n equal to the population size (or 0) the second is at least every capital |
| Initializer.TruncateTowardZero | TalentLuck.py:152 | `int` of a float rounds toward zero: for v >= 0 the result n has n <= v < n + 1, for v < 0 it has n - 1 < v <= n |
| Initializer.EventSplit | TalentLuck.py:152-153 | for a proportion in [0, 1] and a non-negative event count, the positive events number floor(prop * n_events), at most n_events, and positive plus negative events are exactly n_events |
| Initializer.AllCells | TalentLuck.py:158 | the grid's cell enumeration lists every on-grid cell exactly once, W * H cells in all |
| Initializer.EmptyCells | TalentLuck.py:145 | the empty cells are exactly the on-grid cells no placed person stands on, each listed once |
| Initializer.EmptyCellCount | TalentLuck.py:145 | with persons on distinct cells, the number of empty cells is W * H minus the number of persons placed |
| Initializer.PlacePersons | TalentLuck.py:138-148 | placement fails with no empty cell iff there are more persons than cells; otherwise every person is placed with its sampled talent and capital and zero counters, on the grid, no two on the same cell |
| Initializer.Initialize | TalentLuck.py:112-183 | initialization fails exactly when n_actors exceeds the number of grid cells (no empty cell), or n_actors is 0 (lookup error in the first data collection), or the starting capitals sum to zero (division by zero); otherwise the world is valid, persons stand on pairwise distinct cells with their samples and zero counters, the events stand at the given cells in the counts the split prescribes, and the clock is at year 0 and running |
| Initializer.TooManyPersons | TalentLuck.py:145 | 401 persons on the default 20x20 grid make initialization fail with no empty cell |
| Initializer.LifeOfARun | TalentLuck.py:138-198 | whenever initialization and all ticks complete, after k ticks the clock reads k half-years and the run is on iff k < 80; there are still n_actors persons on pairwise distinct cells with their sampled talents, each holding its starting capital doubled per lucky and halved per unlucky event; the event counts keep their split |
| Initializer.PositiveCapitalsRunToCompletion | TalentLuck.py:112-198 | when the grid holds the persons, there is at least one person and one event of each kind, and every starting capital is positive, initialization and every tick complete |

## Left out

- The visualisation module (`TalentLuckApp.py`): plots, sliders and agent portrayal are user interface.
- Random number generation and seeding: `random.random`, `random.choice`, `random.sample` and `np.random.normal` are replaced by explicit inputs (draws, target cells, picks, sampled talents and capitals). Reproducibility for a fixed seed cannot be stated without the generator.
- Initializer.PlacePersons: the pick among empty cells is `picks[i] mod (number of empty cells)` over the cells in enumeration order. The library keeps empty cells as an unordered set, so the model fixes one order; any empty cell can still be chosen.
- Floating-point rounding: capital, talent, draws, the Gini value and the sums that decide a zero Gini denominator are exact reals. In binary floating point, doubling and halving are exact only while the value stays in the normal range: halving a subnormal capital drops bits and eventually gives 0.0 (a capital of 10 reaches 0.0 after about 1,080 halvings), and doubling a large one overflows to infinity. The 0.5-year clock step is exact. NaN and infinities are not modelled.
- Agents.ExplainsTransitive: the order of doublings and halvings does not matter for reals; in floats it does once a capital leaves the normal range.
- Agents.ExplainsKeepsSign: sign-keeping holds for reals; in the program a positive capital halved into the subnormal range can become 0.0.
- Simulation.RunCompletes: completion holds for reals; in the program capitals halved down to 0.0 can make the sum zero, so the Gini reporter divides by zero and the tick aborts.
- Initializer.PositiveCapitalsRunToCompletion: holds for reals only, for the same reason as `Simulation.RunCompletes`: a capital halved to 0.0 in floats can abort a later tick.
- Grid library internals: agent registration, `agents_by_type`, `AgentSet.do`, `place_agent` and `move_agent` are modelled as plain sequences of agents and positions. The neighbourhood query is modelled by the modular test described above.
- The data collector: the per-person reporters only read the `Person` fields. The collector's storage and its `None` values for event agents are not modelled.
- Order within a phase: `LivePhase` takes the persons in list order. Persons read only event positions, and events do not interact, so the order cannot be observed.
- Initializer.Initialize: requires a positive width and height; the model does not cover a zero-sized grid built by the library.
- Simulation.Step: the step is modelled whether or not the run is on, as in the code, and `Run` feeds it every input it is given, also after the run has been switched off. The library's own driving loop, which stops calling `step` once `running` is false, is not part of this model; `RunLastsEightyTicks` states when the flag turns off. A failing tick is an `Err` without the partly updated world the program leaves behind when it raises mid-tick.
- Initializer.EventSplit: the product `prop_lucky * n_events` is exact in the model. The program's float product can land just below an integer, giving one positive event fewer: `int(0.29 * 100)` is 28, where the model counts 29.
- Lookup of agents by kind: the model assumes the library's per-kind table has an entry only for kinds of which some agent was created, so the lookup raises for an absent kind. The library's own code is not part of this model.
