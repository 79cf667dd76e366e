/**
 * The three kinds of agent: persons, who hold capital and react to events in
 * their neighbourhood, and positive and negative events, which carry nothing
 * but a position and jump to a fresh cell every tick.
 */
module Agents {
  import opened Lattice

  /** A person: talent and position are fixed for life; capital and the two event counters change. */
  datatype Person = Person(talent: real, capital: real, numLucky: nat, numUnlucky: nat, pos: Pos)

  /** `c` doubled `n` times. */
  function Double(c: real, n: nat): real {
    if n == 0 then c else 2.0 * Double(c, n - 1)
  }

  /** `c` halved `n` times. */
  function Halve(c: real, n: nat): real {
    if n == 0 then c else 0.5 * Halve(c, n - 1)
  }

  /** `c` doubled `lucky` times and halved `unlucky` times. */
  function Rescale(c: real, lucky: nat, unlucky: nat): real {
    Halve(Double(c, lucky), unlucky)
  }

  /** The four outcomes of one turn, as doublings and halvings. */
  lemma RescaleOneTurn(c: real)
    ensures Rescale(c, 0, 0) == c && Rescale(c, 1, 0) == 2.0 * c
    ensures Rescale(c, 0, 1) == 0.5 * c && Rescale(c, 1, 1) == 0.5 * (2.0 * c)
  {
    assert Double(c, 1) == 2.0 * c;
    assert Halve(c, 1) == 0.5 * c;
    assert Halve(2.0 * c, 1) == 0.5 * (2.0 * c);
  }

  /**
   * `p` is a later state of `p0`: same talent and position, counters that only
   * grew, and a capital that is `p0`'s doubled once per lucky event and halved
   * once per unlucky event since then.
   */
  predicate Explains(p0: Person, p: Person) {
    && p.talent == p0.talent
    && p.pos == p0.pos
    && p.numLucky >= p0.numLucky
    && p.numUnlucky >= p0.numUnlucky
    && p.capital == Rescale(p0.capital, p.numLucky - p0.numLucky, p.numUnlucky - p0.numUnlucky)
  }

  /** Some event of the given list lies in the neighbourhood of `at`. */
  predicate Sees(d: Dims, at: Pos, events: seq<Pos>)
    requires d.Valid()
  {
    exists i :: 0 <= i < |events| && IsNeighbour(d, at, events[i])
  }

  /**
   * One person's turn. `sawPositive` and `sawNegative` say whether a positive or
   * a negative event is in the neighbourhood; `draw` is the uniform draw the
   * person takes, which is consulted only when a positive event is present.
   * A positive event doubles the capital when the draw falls below the talent;
   * a negative event halves it regardless of talent; both can happen in one turn.
   */
  function Live(p: Person, sawPositive: bool, sawNegative: bool, draw: real): (q: Person)
    ensures q.talent == p.talent && q.pos == p.pos
    ensures q.numLucky == p.numLucky + 1 <==> sawPositive && draw < p.talent
    ensures q.numLucky == p.numLucky <==> !(sawPositive && draw < p.talent)
    ensures q.numUnlucky == p.numUnlucky + 1 <==> sawNegative
    ensures q.numUnlucky == p.numUnlucky <==> !sawNegative
    ensures Explains(p, q)
  {
    RescaleOneTurn(p.capital);
    var afterLuck :=
      if sawPositive && draw < p.talent then p.(capital := 2.0 * p.capital, numLucky := p.numLucky + 1)
      else p;
    if sawNegative then afterLuck.(capital := 0.5 * afterLuck.capital, numUnlucky := afterLuck.numUnlucky + 1)
    else afterLuck
  }

  /** With no event of either kind nearby, a person's state is left exactly as it was. */
  lemma LiveQuiet(p: Person, draw: real)
    ensures Live(p, false, false, draw) == p
  {
  }

  /** Without a positive event the draw is not consulted: any two draws give the same person. */
  lemma LiveIgnoresDrawWithoutPositive(p: Person, sawNegative: bool, draw1: real, draw2: real)
    ensures Live(p, false, sawNegative, draw1) == Live(p, false, sawNegative, draw2)
  {
  }

  /**
   * The capital updates one at a time: a lucky hit alone doubles it, a
   * positive event whose draw misses the talent changes nothing, and a negative
   * event alone halves it whatever the talent and draw.
   */
  lemma LiveCapital(p: Person, draw: real)
    ensures draw < p.talent ==> Live(p, true, false, draw).capital == 2.0 * p.capital
    ensures draw >= p.talent ==> Live(p, true, false, draw) == p
    ensures Live(p, false, true, draw).capital == 0.5 * p.capital
    ensures draw < p.talent ==> Live(p, true, true, draw).capital == p.capital
  {
  }

  /**
   * With draws from [0, 1): a talent of 1 or more always turns a positive
   * event into luck, and a talent of 0 or less never does.
   */
  lemma TalentExtremes(p: Person, sawNegative: bool, draw: real)
    requires 0.0 <= draw < 1.0
    ensures p.talent >= 1.0 ==> Live(p, true, sawNegative, draw).numLucky == p.numLucky + 1
    ensures p.talent <= 0.0 ==> Live(p, true, sawNegative, draw).numLucky == p.numLucky
  {
  }

  /** Doubling commutes with halving once. */
  lemma {:induction false} DoubleOfHalf(c: real, n: nat)
    ensures Double(0.5 * c, n) == 0.5 * Double(c, n)
  {
    if n > 0 {
      DoubleOfHalf(c, n - 1);
    }
  }

  /** Doubling commutes with halving: the order of lucky and unlucky events does not matter. */
  lemma {:induction false} DoubleHalveCommute(c: real, l: nat, u: nat)
    ensures Double(Halve(c, u), l) == Halve(Double(c, l), u)
  {
    if u > 0 {
      DoubleHalveCommute(c, l, u - 1);
      DoubleOfHalf(Halve(c, u - 1), l);
    }
  }

  /** Repeated doublings add up. */
  lemma {:induction false} DoubleAdd(c: real, m: nat, n: nat)
    ensures Double(Double(c, m), n) == Double(c, m + n)
  {
    if n > 0 {
      DoubleAdd(c, m, n - 1);
    }
  }

  /** Repeated halvings add up. */
  lemma {:induction false} HalveAdd(c: real, m: nat, n: nat)
    ensures Halve(Halve(c, m), n) == Halve(c, m + n)
  {
    if n > 0 {
      HalveAdd(c, m, n - 1);
    }
  }

  /** Two stretches of history compose: their lucky and unlucky counts add up. */
  lemma RescaleCompose(c: real, l1: nat, u1: nat, l2: nat, u2: nat)
    ensures Rescale(Rescale(c, l1, u1), l2, u2) == Rescale(c, l1 + l2, u1 + u2)
  {
    var dc := Double(c, l1);
    DoubleHalveCommute(dc, l2, u1);
    DoubleAdd(c, l1, l2);
    HalveAdd(Double(c, l1 + l2), u1, u2);
  }

  /** `Explains` is transitive, so a person's whole history is a chain of turns. */
  lemma ExplainsTransitive(a: Person, b: Person, c: Person)
    requires Explains(a, b) && Explains(b, c)
    ensures Explains(a, c)
  {
    RescaleCompose(a.capital, b.numLucky - a.numLucky, b.numUnlucky - a.numUnlucky,
                   c.numLucky - b.numLucky, c.numUnlucky - b.numUnlucky);
  }

  /** `Explains` is reflexive: a state with no history explains itself. */
  lemma ExplainsReflexive(p: Person)
    ensures Explains(p, p)
  {
  }

  /** Doubling and halving keep the sign of a capital. */
  lemma {:induction false} RescaleKeepsSign(c: real, l: nat, u: nat)
    ensures Rescale(c, l, u) > 0.0 <==> c > 0.0
    ensures Rescale(c, l, u) == 0.0 <==> c == 0.0
  {
    if l > 0 {
      RescaleKeepsSign(c, l - 1, 0);
    }
    if u > 0 {
      RescaleKeepsSign(c, l, u - 1);
    }
  }

  /** Lucky and unlucky events never change the sign of a person's capital. */
  lemma ExplainsKeepsSign(p0: Person, p: Person)
    requires Explains(p0, p)
    ensures p.capital > 0.0 <==> p0.capital > 0.0
    ensures p.capital == 0.0 <==> p0.capital == 0.0
    ensures p.capital < 0.0 <==> p0.capital < 0.0
  {
    RescaleKeepsSign(p0.capital, p.numLucky - p0.numLucky, p.numUnlucky - p0.numUnlucky);
  }

  /**
   * The unit scenarios of a single turn on a capital of 10: a talented person
   * whose draw is 0 next to a positive event ends with 20 and one lucky event;
   * next to a negative event alone, any person ends with 5 and one unlucky event.
   */
  lemma LiveScenarios(pos: Pos, talent: real)
    ensures Live(Person(1.0, 10.0, 0, 0, pos), true, false, 0.0) == Person(1.0, 20.0, 1, 0, pos)
    ensures Live(Person(talent, 10.0, 0, 0, pos), false, true, 0.0) == Person(talent, 5.0, 0, 1, pos)
  {
  }

  /**
   * The person phase of a tick: every person takes one turn, each against the
   * same event positions, person `i` using `draws[i]`. Persons read only the
   * events, never each other, so the order of the turns is immaterial.
   */
  function LivePhase(d: Dims, persons: seq<Person>, positive: seq<Pos>, negative: seq<Pos>, draws: seq<real>): (after: seq<Person>)
    requires d.Valid() && |draws| == |persons|
    ensures |after| == |persons|
    ensures forall i :: 0 <= i < |persons| ==>
      after[i] == Live(persons[i], Sees(d, persons[i].pos, positive), Sees(d, persons[i].pos, negative), draws[i])
    ensures forall i :: 0 <= i < |persons| ==> Explains(persons[i], after[i])
    decreases |persons|
  {
    if |persons| == 0 then []
    else
      [Live(persons[0], Sees(d, persons[0].pos, positive), Sees(d, persons[0].pos, negative), draws[0])]
      + LivePhase(d, persons[1..], positive, negative, draws[1..])
  }

  /** Every event list of `after` is a relocation of `before`: one in-grid cell per event. */
  predicate Relocation(d: Dims, before: seq<Pos>, after: seq<Pos>) {
    |after| == |before| && forall i :: 0 <= i < |after| ==> d.Contains(after[i])
  }

  /**
   * The move phase of one event kind: each event jumps to a cell chosen
   * anywhere on the grid, independently of where it was and of the other events.
   * `targets` holds those choices; every relocation is one of them.
   */
  function MoveEvents(d: Dims, events: seq<Pos>, targets: seq<Pos>): (moved: seq<Pos>)
    requires Relocation(d, events, targets)
    ensures Relocation(d, events, moved)
    ensures forall i :: 0 <= i < |moved| ==> moved[i] == targets[i]
  {
    targets
  }

  /** Any relocation at all can be reached by the move phase, wherever the events stood before. */
  lemma MoveReachesEveryRelocation(d: Dims, events: seq<Pos>, after: seq<Pos>)
    requires Relocation(d, events, after)
    ensures exists targets :: Relocation(d, events, targets) && MoveEvents(d, events, targets) == after
  {
    assert Relocation(d, events, after) && MoveEvents(d, events, after) == after;
  }
}
