/** The tabular Q-learning agent: it learns four action values per free
    cell by episodes of epsilon-greedy moves from the start towards the end,
    and follows the learned values greedily to produce a path. The random
    draws (exploration roll, explored action, initial values) are
    parameters. */
module Learning {
  import opened Cells

  /** The action values of a state the table does not know. */
  const ZeroValues: seq<real> := [0.0, 0.0, 0.0, 0.0]

  /** The largest of the values, 0 for none. */
  function MaxValue(q: seq<real>): (m: real)
    ensures |q| > 0 ==> (forall i :: 0 <= i < |q| ==> q[i] <= m) && (exists i :: 0 <= i < |q| && q[i] == m)
    ensures |q| == 0 ==> m == 0.0
  {
    if |q| <= 1 then (if |q| == 0 then 0.0 else q[0])
    else
      var m := MaxValue(q[..|q| - 1]);
      if q[|q| - 1] > m then q[|q| - 1] else m
  }

  /** The best action among the first `k` values as the scan finds it: a
      later action replaces the best only when strictly larger. */
  function GreedyUpTo(q: seq<real>, k: nat): (a: int)
    requires 1 <= k <= |q|
    ensures 0 <= a < k
    ensures forall i :: 0 <= i < k ==> q[i] <= q[a]
    ensures forall i :: 0 <= i < a ==> q[i] < q[a]
  {
    if k == 1 then 0
    else
      var best := GreedyUpTo(q, k - 1);
      if q[k - 1] > q[best] then k - 1 else best
  }

  /** The greedy action: the lowest index of a maximal value. */
  function Greedy(q: seq<real>): (a: int)
    requires |q| == 4
    ensures IsDirection(a)
  {
    GreedyUpTo(q, 4)
  }

  /** The greedy action is the only action that is maximal with no maximal
      action before it. */
  lemma GreedyIsLowestMax(q: seq<real>, a: int)
    requires |q| == 4 && IsDirection(a)
    ensures Greedy(q) == a <==>
              (forall i :: 0 <= i < 4 ==> q[i] <= q[a]) && (forall i :: 0 <= i < a ==> q[i] < q[a])
  {
  }

  /** Epsilon-greedy: a roll below the exploration rate explores the drawn
      action, any other roll takes the greedy action. */
  function ChosenAction(q: seq<real>, roll: real, pick: int, rate: real): (a: int)
    requires |q| == 4 && IsDirection(pick)
    ensures IsDirection(a)
    ensures roll >= rate ==> forall i :: 0 <= i < 4 ==> q[i] <= q[a]
  {
    if roll < rate then pick else Greedy(q)
  }

  /** The values the table holds for `p`, or all zero. */
  function ValuesIn(table: map<Pos, seq<real>>, p: Pos): (q: seq<real>)
    ensures p in table ==> q == table[p]
    ensures p !in table ==> q == ZeroValues
  {
    if p in table then table[p] else ZeroValues
  }

  /** Every entry of the table holds one value per action. */
  predicate FourValues(table: map<Pos, seq<real>>) {
    forall p :: p in table ==> |table[p]| == 4
  }

  /** A cell the agent may stand on: on the grid and not a WALL. */
  predicate Free(grid: array2<Cell>, p: Pos)
    reads grid
  {
    0 <= p.row < grid.Length0 && 0 <= p.col < grid.Length1 && grid[p.row, p.col].kind != Wall
  }

  /** What one action from `cur` leads to. */
  datatype Transition = Transition(next: Pos, reward: real, reached: bool)

  /** A blocked action (off the grid or into a WALL) stays with reward -1;
      entering the end rewards 10 and ends the episode; any other step
      costs 0.1. */
  function Act(grid: array2<Cell>, cur: Pos, action: int, end: Pos): (t: Transition)
    reads grid
    requires IsDirection(action)
    ensures t.next == cur || (Adjacent(cur, t.next) && Free(grid, t.next))
    ensures t.reached ==> t.next == end && t.next != cur
  {
    var next := Ahead(cur, action);
    if !Free(grid, next) then Transition(cur, -1.0, false)
    else if next == end then Transition(next, 10.0, true)
    else Transition(next, -0.1, false)
  }

  /** The reward tells the three outcomes apart, and the agent either stays
      put after a blocked action or steps onto the free neighbour. */
  lemma ActOutcomes(grid: array2<Cell>, cur: Pos, action: int, end: Pos)
    requires IsDirection(action)
    ensures var t := Act(grid, cur, action, end);
            && (t.reward == -1.0 <==> !Free(grid, Ahead(cur, action)))
            && (t.reward == -1.0 ==> t.next == cur && !t.reached)
            && (t.reward != -1.0 ==> t.next == Ahead(cur, action) && Free(grid, t.next) && Adjacent(cur, t.next))
            && (t.reached <==> t.reward == 10.0)
            && (t.reached <==> t.reward != -1.0 && t.next == end)
  {
  }

  /** The Q-learning rule applied to one entry. */
  function Learned(q: seq<real>, action: int, reward: real, maxNext: real, rate: real, discount: real): (r: seq<real>)
    requires IsDirection(action) && |q| == 4
    ensures |r| == 4
  {
    q[action := q[action] + rate * (reward + discount * maxNext - q[action])]
  }

  /** One update changes only the chosen action's value, and moves it the
      `rate` share of the way towards the target reward + discount * maxNext. */
  lemma LearnedTouchesOneEntry(q: seq<real>, action: int, reward: real, maxNext: real, rate: real, discount: real)
    requires IsDirection(action) && |q| == 4
    ensures var r := Learned(q, action, reward, maxNext, rate, discount);
            && (forall i :: 0 <= i < 4 && i != action ==> r[i] == q[i])
            && r[action] - q[action] == rate * (reward + discount * maxNext - q[action])
            && (rate == 1.0 ==> r[action] == reward + discount * maxNext)
  {
  }

  /** The exploration rate after an episode: 0.99 of it, but not below 0.1. */
  function Decayed(rate: real): (r: real)
    ensures r >= 0.1
  {
    if 0.1 > rate * 0.99 then 0.1 else rate * 0.99
  }

  /** The exploration rate never rises, once at 0.1 or above stays there, and
      a rate at 0.1 is a fixed point. */
  lemma DecayedShrinks(rate: real)
    ensures rate >= 0.1 ==> 0.1 <= Decayed(rate) <= rate
    ensures rate > 0.1 / 0.99 ==> Decayed(rate) == rate * 0.99
    ensures Decayed(0.1) == 0.1
    ensures rate < 0.1 ==> Decayed(rate) == 0.1
  {
  }

  /** The heat value shown for a cell: its best value relative to the
      table's maximum. */
  function Heat(table: map<Pos, seq<real>>, p: Pos, maxQ: real): (h: real)
    requires maxQ > 0.0
    ensures MaxValue(ValuesIn(table, p)) <= maxQ ==> h <= 1.0
    ensures h > 0.1 <==> MaxValue(ValuesIn(table, p)) > 0.1 * maxQ
  {
    var m := MaxValue(ValuesIn(table, p));
    RatioBounds(m, maxQ);
    m / maxQ
  }

  /** A product of non-negative reals is non-negative. */
  lemma MulNonneg(x: real, y: real)
    requires x >= 0.0 && y >= 0.0
    ensures x * y >= 0.0
  {
  }

  /** A ratio to a positive maximum is at most 1 and exceeds 0.1 exactly
      when the value exceeds a tenth of the maximum. */
  lemma RatioBounds(m: real, q: real)
    requires q > 0.0
    ensures m <= q ==> m / q <= 1.0
    ensures m / q > 0.1 <==> m > 0.1 * q
  {
    var h := m / q;
    assert h * q == m;
    if m <= q && h > 1.0 {
      MulNonneg(h - 1.0, q);
    }
    if h <= 0.1 {
      MulNonneg(0.1 - h, q);
    } else {
      MulNonneg(h - 0.1, q);
    }
  }

  /** Cell `p` after the heat map is drawn with table maximum `maxQ`. */
  function HeatCell(b: Cell, table: map<Pos, seq<real>>, p: Pos, maxQ: real): (c: Cell)
    ensures c == b.(qValue := c.qValue, showQValue := c.showQValue)
    ensures c != b ==> c.showQValue && b.kind !in {Wall, Start, End} && c.qValue > 0.1
  {
    if maxQ > 0.1 && b.kind !in {Wall, Start, End} && Heat(table, p, maxQ) > 0.1
    then b.(qValue := Heat(table, p, maxQ), showQValue := true)
    else b
  }

  /** The heat map writes only to cells other than WALL, START and END, only
      values in (0.1, 1], and touches no cell at all when the table maximum
      is at most 0.1. */
  lemma HeatMapBounds(b: Cell, table: map<Pos, seq<real>>, p: Pos, maxQ: real)
    requires forall x, i :: x in table && 0 <= i < |table[x]| ==> table[x][i] <= maxQ
    requires 0.0 <= maxQ
    ensures maxQ <= 0.1 ==> HeatCell(b, table, p, maxQ) == b
    ensures HeatCell(b, table, p, maxQ) != b ==>
              && b.kind !in {Wall, Start, End}
              && HeatCell(b, table, p, maxQ) == b.(qValue := HeatCell(b, table, p, maxQ).qValue, showQValue := true)
              && 0.1 < HeatCell(b, table, p, maxQ).qValue <= 1.0
  {
    if maxQ > 0.1 {
      var q := ValuesIn(table, p);
      if |q| > 0 {
        var i :| 0 <= i < |q| && q[i] == MaxValue(q);
        if p !in table {
          assert q[i] == 0.0;
        }
        QuotientAtMostOne(MaxValue(q), maxQ);
      }
    }
  }

  lemma QuotientAtMostOne(x: real, d: real)
    requires d > 0.0 && x <= d
    ensures x / d <= 1.0
  {
    assert x / d * d == x;
  }

  /** The initial values drawn for cell `p`. */
  function Seeds(draw: (int, int, int) -> real, p: Pos): (q: seq<real>)
    ensures |q| == 4 && forall a :: 0 <= a < 4 ==> q[a] == draw(p.row, p.col, a)
  {
    [draw(p.row, p.col, 0), draw(p.row, p.col, 1), draw(p.row, p.col, 2), draw(p.row, p.col, 3)]
  }

  /** `seeded` is `table` with every free cell given its initial values
      and every other entry kept. */
  ghost predicate SeededFrom(grid: array2<Cell>, table: map<Pos, seq<real>>, seeded: map<Pos, seq<real>>,
                             draw: (int, int, int) -> real)
    reads grid
  {
    && (forall p :: p in seeded <==> p in table || Free(grid, p))
    && (forall p :: Free(grid, p) ==> seeded[p] == Seeds(draw, p))
    && (forall p :: p in table && !Free(grid, p) ==> seeded[p] == table[p])
  }

  /** With draws from [0, 0.1), every freshly seeded value lies in
      [0, 0.1). */
  lemma {:induction false} SeededValuesSmall(grid: array2<Cell>, table: map<Pos, seq<real>>, seeded: map<Pos, seq<real>>,
                                             draw: (int, int, int) -> real)
    requires SeededFrom(grid, table, seeded, draw)
    requires forall r, c, a :: 0.0 <= draw(r, c, a) < 0.1
    ensures forall p, a :: Free(grid, p) && 0 <= a < |seeded[p]| ==> 0.0 <= seeded[p][a] < 0.1
  {
    forall p, a | Free(grid, p) && 0 <= a < |seeded[p]|
      ensures 0.0 <= seeded[p][a] < 0.1
    {
      assert seeded[p][a] == draw(p.row, p.col, a);
    }
  }

  /** One step of the greedy rollout: from a cell other than the end, the
      greedy action leads to the free cell `b`. */
  predicate RolloutStep(grid: array2<Cell>, table: map<Pos, seq<real>>, end: Pos, a: Pos, b: Pos)
    reads grid
    requires FourValues(table)
  {
    a != end && b == Ahead(a, Greedy(ValuesIn(table, a))) && Free(grid, b)
  }

  /** An episode is over when the end was reached or its step count exceeds
      2 * N * N. */
  predicate EpisodeOver(reached: bool, steps: int, n: int) {
    reached || steps > n * n * 2
  }

  /** The episode bookkeeping of the agent: the step within the episode,
      the episode count, the success and step records and the exploration
      rate. */
  datatype Tally = Tally(step: int, episode: int, success: seq<bool>, steps: seq<int>, exploration: real)

  /** The bookkeeping after one more step: the step count rises, and when
      the episode is over its success and length are recorded, the episode
      count rises, the step count restarts and exploration decays. */
  function Counted(t: Tally, done: bool, n: int): (u: Tally)
    ensures u.episode == t.episode || u.episode == t.episode + 1
    ensures |u.success| - u.episode == |t.success| - t.episode && |u.steps| - u.episode == |t.steps| - t.episode
    ensures done ==> u.episode == t.episode + 1 && u.step == 0
    ensures u.episode == t.episode ==> u.step == t.step + 1 && u.success == t.success && u.steps == t.steps
  {
    if EpisodeOver(done, t.step + 1, n)
    then Tally(0, t.episode + 1, t.success + [done], t.steps + [t.step + 1], Decayed(t.exploration))
    else t.(step := t.step + 1)
  }

  /** One more step keeps one success record and one length record per
      finished episode and keeps the step count within the budget of
      2 * N * N; the episode count rises exactly when the end was reached or
      the budget was exceeded, and exploration never falls below 0.1. */
  lemma CountedKeepsRecords(t: Tally, done: bool, n: int)
    requires |t.success| == t.episode && |t.steps| == t.episode
    requires 0 <= t.step <= n * n * 2 && t.exploration >= 0.1
    ensures var u := Counted(t, done, n);
            && |u.success| == u.episode && |u.steps| == u.episode
            && 0 <= u.step <= n * n * 2
            && (u.episode == t.episode + 1 <==> done || t.step == n * n * 2)
            && (u.episode == t.episode + 1 ==> u.success[t.episode] == done && u.steps[t.episode] == t.step + 1)
            && 0.1 <= u.exploration <= t.exploration
  {
  }

  /** What a training step did. */
  datatype TrainOutcome = Complete | Continues | MissingQEntry

  class RLPathAgent {
    var learningRate: real
    var discountFactor: real
    var explorationRate: real
    var numEpisodes: int
    var qTable: map<Pos, seq<real>>
    const grid: array2<Cell>
    const gridSize: int
    var episodeSteps: seq<int>
    var episodeRewards: seq<real>
    var episodeSuccess: seq<bool>
    var currentCell: Option<Pos>
    var startCell: Option<Pos>
    var endCell: Option<Pos>
    var isTraining: bool
    var currentEpisode: int
    var currentStep: int

    /** Square grid, four values per table entry, one steps record and one
        success record per finished episode, cells on the grid, and a
        current cell whenever an episode is under way. */
    ghost predicate Valid()
      reads this`qTable, this`episodeSteps, this`episodeSuccess, this`currentCell, this`startCell, this`endCell
      reads this`isTraining, this`currentEpisode, this`currentStep
    {
      Consistent() && |episodeSuccess| == currentEpisode
    }

    /** Everything `Valid` asks but the count of success records, which runs
        one ahead between reaching the end and closing the episode. */
    ghost predicate Consistent()
      reads this`qTable, this`episodeSteps, this`currentCell, this`startCell, this`endCell
      reads this`isTraining, this`currentEpisode, this`currentStep
    {
      && IsSquare(grid) && gridSize == grid.Length0
      && FourValues(qTable)
      && |episodeSteps| == currentEpisode
      && currentStep >= 0
      && (startCell.Some? ==> InBounds(gridSize, startCell.value))
      && (endCell.Some? ==> InBounds(gridSize, endCell.value))
      && (currentCell.Some? ==> InBounds(gridSize, currentCell.value))
      && (isTraining ==> startCell.Some? && endCell.Some?)
      && (currentStep > 0 ==> currentCell.Some?)
    }

    /** The episode bookkeeping as a value. */
    ghost function Counters(): Tally
      reads this`currentStep, this`currentEpisode, this`episodeSuccess, this`episodeSteps, this`explorationRate
    {
      Tally(currentStep, currentEpisode, episodeSuccess, episodeSteps, explorationRate)
    }

    constructor(grid: array2<Cell>)
      requires IsSquare(grid)
      ensures Valid() && this.grid == grid && qTable == map[]
      ensures learningRate == 0.1 && discountFactor == 0.9 && explorationRate == 0.3 && numEpisodes == 500
      ensures !isTraining && currentEpisode == 0 && currentStep == 0
      ensures episodeSteps == [] && episodeRewards == [] && episodeSuccess == []
      ensures startCell == None && endCell == None && currentCell == None
    {
      learningRate := 0.1;
      discountFactor := 0.9;
      explorationRate := 0.3;
      numEpisodes := 500;
      qTable := map[];
      this.grid := grid;
      gridSize := grid.Length0;
      episodeSteps := [];
      episodeRewards := [];
      episodeSuccess := [];
      currentCell := None;
      startCell := None;
      endCell := None;
      isTraining := false;
      currentEpisode := 0;
      currentStep := 0;
    }

    /** Starts a training session between `s` and `e`: episode count and
        metrics cleared, and every non-WALL cell given fresh initial values
        `draw(r, c, a)` (see `SeededValuesSmall`); other entries are kept. */
    method StartTraining(s: Pos, e: Pos, draw: (int, int, int) -> real)
      requires Valid() && InBounds(gridSize, s) && InBounds(gridSize, e)
      modifies this`startCell, this`endCell, this`isTraining, this`currentEpisode, this`qTable
      modifies this`episodeSteps, this`episodeRewards, this`episodeSuccess
      ensures Valid() && isTraining && startCell == Some(s) && endCell == Some(e)
      ensures currentEpisode == 0 && episodeSteps == [] && episodeRewards == [] && episodeSuccess == []
      ensures SeededFrom(grid, old(qTable), qTable, draw)
    {
      startCell := Some(s);
      endCell := Some(e);
      isTraining := true;
      currentEpisode := 0;
      episodeSteps := [];
      episodeRewards := [];
      episodeSuccess := [];
      qTable := SeedTable(grid, qTable, draw);
    }

    /** Seeds the non-WALL cells of the grid, row by row. */
    static method SeedTable(grid: array2<Cell>, table: map<Pos, seq<real>>, draw: (int, int, int) -> real)
      returns (seeded: map<Pos, seq<real>>)
      requires FourValues(table)
      ensures FourValues(seeded)
      ensures SeededFrom(grid, table, seeded, draw)
    {
      seeded := table;
      var r := 0;
      while r < grid.Length0
        invariant 0 <= r <= grid.Length0 && FourValues(seeded)
        invariant forall p :: p in seeded <==> p in table || (Free(grid, p) && p.row < r)
        invariant forall p :: Free(grid, p) && p.row < r ==> seeded[p] == Seeds(draw, p)
        invariant forall p :: p in table && !(Free(grid, p) && p.row < r) ==> seeded[p] == table[p]
      {
        seeded := SeedRow(grid, seeded, r, draw);
        r := r + 1;
      }
    }

    /** Seeds the non-WALL cells of row `r` of `table`. */
    static method SeedRow(grid: array2<Cell>, table: map<Pos, seq<real>>, r: int, draw: (int, int, int) -> real)
      returns (seeded: map<Pos, seq<real>>)
      requires FourValues(table) && 0 <= r < grid.Length0
      ensures FourValues(seeded)
      ensures forall p :: p in seeded <==> p in table || (Free(grid, p) && p.row == r)
      ensures forall p :: Free(grid, p) && p.row == r ==> seeded[p] == Seeds(draw, p)
      ensures forall p :: p in table && !(Free(grid, p) && p.row == r) ==> seeded[p] == table[p]
    {
      seeded := table;
      var c := 0;
      while c < grid.Length1
        invariant 0 <= c <= grid.Length1 && FourValues(seeded)
        invariant forall p :: p in seeded <==> p in table || (Free(grid, p) && p.row == r && p.col < c)
        invariant forall p :: Free(grid, p) && p.row == r && p.col < c ==> seeded[p] == Seeds(draw, p)
        invariant forall p :: p in table && !(Free(grid, p) && p.row == r && p.col < c) ==> seeded[p] == table[p]
      {
        if grid[r, c].kind != Wall {
          seeded := seeded[Pos(r, c) := Seeds(draw, Pos(r, c))];
        }
        c := c + 1;
      }
    }

    /** Puts the agent back on the start for a new episode. */
    method ResetEpisode()
      modifies this`currentCell, this`currentStep
      ensures currentCell == startCell && currentStep == 0
    {
      currentCell := startCell;
      currentStep := 0;
    }

    /** The epsilon-greedy choice in `state` with the table's values (zero
        for an unknown state). */
    method ChooseAction(state: Pos, roll: real, pick: int) returns (action: int)
      requires Valid() && IsDirection(pick)
      ensures action == ChosenAction(ValuesIn(qTable, state), roll, pick, explorationRate)
    {
      if roll < explorationRate {
        return pick;
      }
      action := BestAction(ValuesIn(qTable, state));
    }

    /** The argmax scan over the four values. */
    static method BestAction(q: seq<real>) returns (best: int)
      requires |q| == 4
      ensures best == Greedy(q)
    {
      best := 0;
      var bestValue := q[0];
      var i := 1;
      while i < 4
        invariant 1 <= i <= 4 && best == GreedyUpTo(q, i) && bestValue == q[best]
      {
        if q[i] > bestValue {
          bestValue := q[i];
          best := i;
        }
        i := i + 1;
      }
    }

    /** One training step. A finished or stopped session ends training.
        Otherwise, at an episode's first step the agent is put on the start;
        it chooses an action, moves (or stays), marks an entered cell other
        than the start and end VISITED, and updates the single value of the
        state and action by the Q-learning rule. Reaching the end or
        exceeding 2 * N * N steps closes the episode: its success and step
        count are recorded, the episode count rises and exploration decays.
        A state the table does not know stops the step after the move. */
    method TrainStep(roll: real, pick: int) returns (outcome: TrainOutcome, ghost cur: Pos, ghost action: int, ghost t: Transition)
      requires Valid() && IsDirection(pick)
      modifies this`isTraining, this`currentCell, this`currentStep, this`currentEpisode, this`qTable
      modifies this`episodeSuccess, this`episodeSteps, this`explorationRate, grid
      ensures old(!isTraining || currentEpisode >= numEpisodes) ==>
                && outcome == Complete && !isTraining && Valid()
                && qTable == old(qTable) && Counters() == old(Counters()) && currentCell == old(currentCell)
                && forall r, c :: 0 <= r < gridSize && 0 <= c < gridSize ==> grid[r, c] == old(grid[r, c])
      ensures old(isTraining && currentEpisode < numEpisodes) ==>
                && cur == old(if currentStep == 0 then startCell.value else currentCell.value)
                && action == old(ChosenAction(ValuesIn(qTable, cur), roll, pick, explorationRate))
                && t == old(Act(grid, cur, action, endCell.value))
                && isTraining && currentCell == Some(t.next)
                && (forall r, c :: 0 <= r < gridSize && 0 <= c < gridSize ==>
                      grid[r, c] == if Pos(r, c) == t.next && t.next != cur && !t.reached && Some(t.next) != startCell
                                    then old(grid[r, c]).(kind := Visited) else old(grid[r, c]))
                && (outcome == MissingQEntry <==> cur !in old(qTable))
      ensures old(isTraining && currentEpisode < numEpisodes) && outcome == MissingQEntry ==>
                && qTable == old(qTable)
                && Counters() == old(Counters()).(success := old(episodeSuccess) + if t.reached then [true] else [])
      ensures old(isTraining && currentEpisode < numEpisodes) && outcome != MissingQEntry ==>
                && outcome == Continues && Valid()
                && qTable == old(qTable)[cur := Learned(old(qTable)[cur], action, t.reward,
                                                      MaxValue(old(ValuesIn(qTable, t.next))), learningRate, discountFactor)]
                && Counters() == Counted(old(Counters()), t.reached, gridSize)
    {
      if !isTraining || currentEpisode >= numEpisodes {
        isTraining := false;
        return Complete, Pos(0, 0), 0, Transition(Pos(0, 0), 0.0, false);
      }
      outcome, cur, action, t := Advance(roll, pick);
    }

    /** A step of a session still training: explore, then learn and count
        the step, or stop at a state the table does not know. */
    method Advance(roll: real, pick: int) returns (outcome: TrainOutcome, ghost cur: Pos, ghost action: int, ghost t: Transition)
      requires Valid() && isTraining && IsDirection(pick)
      modifies this`currentCell, this`currentStep, this`currentEpisode, this`qTable
      modifies this`episodeSuccess, this`episodeSteps, this`explorationRate, grid
      ensures cur == old(if currentStep == 0 then startCell.value else currentCell.value)
      ensures action == old(ChosenAction(ValuesIn(qTable, cur), roll, pick, explorationRate))
      ensures t == old(Act(grid, cur, action, endCell.value))
      ensures currentCell == Some(t.next)
      ensures forall r, c :: 0 <= r < gridSize && 0 <= c < gridSize ==>
                grid[r, c] == if Pos(r, c) == t.next && t.next != cur && !t.reached && Some(t.next) != startCell
                              then old(grid[r, c]).(kind := Visited) else old(grid[r, c])
      ensures outcome == MissingQEntry <==> cur !in old(qTable)
      ensures outcome == MissingQEntry ==>
                && qTable == old(qTable)
                && Counters() == old(Counters()).(success := old(episodeSuccess) + if t.reached then [true] else [])
      ensures outcome != MissingQEntry ==>
                && outcome == Continues && Valid()
                && qTable == old(qTable)[cur := Learned(old(qTable)[cur], action, t.reward,
                                                      MaxValue(old(ValuesIn(qTable, t.next))), learningRate, discountFactor)]
                && Counters() == Counted(old(Counters()), t.reached, gridSize)
    {
      var c, a, tr := Explore(roll, pick);
      cur, action, t := c, a, tr;
      outcome := Conclude(c, a, tr);
    }

    /** The part of a step after the move: a state the table does not know
        stops the step (recording a success if the end was reached);
        otherwise the value is learned and the step counted. */
    method Conclude(cur: Pos, action: int, t: Transition) returns (outcome: TrainOutcome)
      requires Valid() && InBounds(gridSize, cur) && IsDirection(action) && currentCell.Some?
      modifies this`currentStep, this`currentEpisode, this`qTable, this`episodeSuccess, this`episodeSteps, this`explorationRate
      ensures outcome == MissingQEntry <==> cur !in old(qTable)
      ensures outcome == MissingQEntry ==>
                && qTable == old(qTable)
                && Counters() == old(Counters()).(success := old(episodeSuccess) + if t.reached then [true] else [])
      ensures outcome != MissingQEntry ==>
                && outcome == Continues && Valid()
                && qTable == old(qTable)[cur := Learned(old(qTable)[cur], action, t.reward,
                                                      MaxValue(old(ValuesIn(qTable, t.next))), learningRate, discountFactor)]
                && Counters() == Counted(old(Counters()), t.reached, gridSize)
    {
      if cur !in qTable {
        if t.reached {
          episodeSuccess := episodeSuccess + [true];
        }
        return MissingQEntry;
      }
      Learn(cur, action, t);
      outcome := EndOfStep(t.reached);
    }

    /** The part of a step before learning: back to the start at an
        episode's first step, then choose an action and take it. */
    method Explore(roll: real, pick: int) returns (cur: Pos, action: int, t: Transition)
      requires Valid() && isTraining && IsDirection(pick)
      modifies this`currentCell, this`currentStep, grid
      ensures cur == old(if currentStep == 0 then startCell.value else currentCell.value)
      ensures action == old(ChosenAction(ValuesIn(qTable, cur), roll, pick, explorationRate))
      ensures t == old(Act(grid, cur, action, endCell.value))
      ensures Valid() && currentCell == Some(t.next) && currentStep == old(currentStep)
      ensures forall r, c :: 0 <= r < gridSize && 0 <= c < gridSize ==>
                grid[r, c] == if Pos(r, c) == t.next && t.next != cur && !t.reached && Some(t.next) != startCell
                              then old(grid[r, c]).(kind := Visited) else old(grid[r, c])
    {
      if currentStep == 0 {
        ResetEpisode();
      }
      cur := currentCell.value;
      action := ChooseAction(cur, roll, pick);
      t := Move(cur, action);
    }

    /** Takes the action: a blocked one leaves the agent in place, any other
        moves it, marking the entered cell VISITED unless it is the start or
        the end; entering the end records a success. */
    method Move(cur: Pos, action: int) returns (t: Transition)
      requires Valid() && isTraining && InBounds(gridSize, cur) && IsDirection(action)
      modifies this`currentCell, grid
      ensures t == old(Act(grid, cur, action, endCell.value))
      ensures currentCell == Some(t.next)
      ensures forall r, c :: 0 <= r < gridSize && 0 <= c < gridSize ==>
                grid[r, c] == if Pos(r, c) == t.next && t.next != cur && !t.reached && Some(t.next) != startCell
                              then old(grid[r, c]).(kind := Visited) else old(grid[r, c])
    {
      var next := Ahead(cur, action);
      var reward := -0.1;
      var done := false;
      if next.row < 0 || next.row >= gridSize || next.col < 0 || next.col >= gridSize ||
         grid[next.row, next.col].kind == Wall {
        reward := -1.0;
        next := cur;
        currentCell := Some(cur);
      } else {
        currentCell := Some(next);
        if Some(next) == endCell {
          reward := 10.0;
          done := true;
        }
        if !done && Some(next) != startCell && Some(next) != endCell {
          grid[next.row, next.col] := grid[next.row, next.col].(kind := Visited);
        }
      }
      t := Transition(next, reward, done);
    }

    /** The Q-learning update of the value of `action` in `cur`, towards the
        reward plus the discounted best value of the state reached. */
    method Learn(cur: Pos, action: int, t: Transition)
      requires Valid() && cur in qTable && IsDirection(action)
      modifies this`qTable
      ensures Valid()
      ensures qTable == old(qTable)[cur := Learned(old(qTable)[cur], action, t.reward,
                                                  MaxValue(old(ValuesIn(qTable, t.next))), learningRate, discountFactor)]
    {
      var qValues := qTable[cur];
      var newQValues := ValuesIn(qTable, t.next);
      var maxNewQ := MaxValue(newQValues);
      qTable := qTable[cur := Learned(qValues, action, t.reward, maxNewQ, learningRate, discountFactor)];
    }

    /** Counts the step and closes the episode when the end was reached or
        the step budget of 2 * N * N is exceeded. */
    method EndOfStep(done: bool) returns (outcome: TrainOutcome)
      requires Valid() && currentCell.Some?
      modifies this`currentStep, this`currentEpisode, this`episodeSuccess, this`episodeSteps, this`explorationRate
      ensures outcome == Continues && Valid()
      ensures Counters() == Counted(old(Counters()), done, gridSize)
    {
      currentStep := currentStep + 1;
      if done || currentStep > gridSize * gridSize * 2 {
        episodeSuccess := episodeSuccess + [done];
        episodeSteps := episodeSteps + [currentStep];
        currentEpisode := currentEpisode + 1;
        currentStep := 0;
        explorationRate := if 0.1 > explorationRate * 0.99 then 0.1 else explorationRate * 0.99;
      }
      return Continues;
    }

    /** Follows the greedy action from the start until the end is reached,
        N * N steps were taken, or the greedy action is blocked. */
    method FindPath() returns (path: seq<Pos>)
      requires Valid() && startCell.Some? && endCell.Some?
      ensures 1 <= |path| <= gridSize * gridSize + 1 && path[0] == startCell.value
      ensures forall k :: 0 <= k < |path| - 1 ==> RolloutStep(grid, qTable, endCell.value, path[k], path[k + 1])
      ensures var last := path[|path| - 1];
              || last == endCell.value
              || |path| == gridSize * gridSize + 1
              || !Free(grid, Ahead(last, Greedy(ValuesIn(qTable, last))))
    {
      var current := startCell.value;
      path := [current];
      var maxSteps := gridSize * gridSize;
      var steps := 0;
      while current != endCell.value && steps < maxSteps
        invariant maxSteps == gridSize * gridSize
        invariant 0 <= steps <= maxSteps && |path| == steps + 1
        invariant path[0] == startCell.value && current == path[|path| - 1]
        invariant forall k :: 0 <= k < |path| - 1 ==> RolloutStep(grid, qTable, endCell.value, path[k], path[k + 1])
      {
        var bestAction := BestAction(ValuesIn(qTable, current));
        var next := Ahead(current, bestAction);
        if next.row < 0 || next.row >= gridSize || next.col < 0 || next.col >= gridSize ||
           grid[next.row, next.col].kind == Wall {
          break;
        }
        assert RolloutStep(grid, qTable, endCell.value, current, next);
        path := path + [next];
        current := next;
        steps := steps + 1;
      }
    }

    /** The largest value in the table, at least 0 (the scan's start). */
    method MaxTableValue() returns (maxQ: real)
      requires Valid()
      ensures 0.0 <= maxQ
      ensures forall p, i :: p in qTable && 0 <= i < |qTable[p]| ==> qTable[p][i] <= maxQ
      ensures maxQ == 0.0 || exists p, i :: p in qTable && 0 <= i < |qTable[p]| && qTable[p][i] == maxQ
    {
      maxQ := 0.0;
      var keys := qTable.Keys;
      while keys != {}
        invariant keys <= qTable.Keys && 0.0 <= maxQ
        invariant forall p, i :: p in qTable && p !in keys && 0 <= i < |qTable[p]| ==> qTable[p][i] <= maxQ
        invariant maxQ == 0.0 || exists p, i :: p in qTable && 0 <= i < |qTable[p]| && qTable[p][i] == maxQ
        decreases keys
      {
        var p :| p in keys;
        var values := qTable[p];
        var i := 0;
        while i < |values|
          invariant 0 <= i <= |values| && 0.0 <= maxQ
          invariant forall x, j :: x in qTable && x !in keys && 0 <= j < |qTable[x]| ==> qTable[x][j] <= maxQ
          invariant forall j :: 0 <= j < i ==> values[j] <= maxQ
          invariant maxQ == 0.0 || exists x, j :: x in qTable && 0 <= j < |qTable[x]| && qTable[x][j] == maxQ
        {
          maxQ := if maxQ > values[i] then maxQ else values[i];
          i := i + 1;
        }
        keys := keys - {p};
      }
    }

    /** Shows each cell's best value relative to the table's maximum on the
        cells other than WALL, START and END, where it exceeds 0.1; nothing
        is shown when the maximum is at most 0.1. */
    method VisualizeHeatMap() returns (maxQ: real)
      requires Valid()
      modifies grid
      ensures 0.0 <= maxQ
      ensures forall p, i :: p in qTable && 0 <= i < |qTable[p]| ==> qTable[p][i] <= maxQ
      ensures maxQ == 0.0 || exists p, i :: p in qTable && 0 <= i < |qTable[p]| && qTable[p][i] == maxQ
      ensures forall r, c :: 0 <= r < gridSize && 0 <= c < gridSize ==>
                grid[r, c] == HeatCell(old(grid[r, c]), qTable, Pos(r, c), maxQ)
    {
      maxQ := MaxTableValue();
      if maxQ <= 0.1 {
        return;
      }
      var r := 0;
      while r < gridSize
        invariant 0 <= r <= gridSize
        invariant forall r', c :: 0 <= r' < gridSize && 0 <= c < gridSize ==>
                    grid[r', c] == if r' < r then HeatCell(old(grid[r', c]), qTable, Pos(r', c), maxQ) else old(grid[r', c])
      {
        HeatRow(r, maxQ);
        r := r + 1;
      }
    }

    /** Draws row `r` of the heat map. */
    method HeatRow(r: int, maxQ: real)
      requires Valid() && 0 <= r < gridSize && maxQ > 0.1
      modifies grid
      ensures forall r', c :: 0 <= r' < gridSize && 0 <= c < gridSize ==>
                grid[r', c] == if r' == r then HeatCell(old(grid[r', c]), qTable, Pos(r', c), maxQ) else old(grid[r', c])
    {
      var c := 0;
      while c < gridSize
        invariant 0 <= c <= gridSize
        invariant forall r', c' :: 0 <= r' < gridSize && 0 <= c' < gridSize ==>
                    grid[r', c'] == if r' == r && c' < c then HeatCell(old(grid[r', c']), qTable, Pos(r', c'), maxQ) else old(grid[r', c'])
      {
        var cell := grid[r, c];
        if cell.kind != Wall && cell.kind != Start && cell.kind != End {
          var maxValue := MaxValue(ValuesIn(qTable, Pos(r, c)));
          var normalizedValue := maxValue / maxQ;
          if normalizedValue > 0.1 {
            grid[r, c] := cell.(qValue := normalizedValue, showQValue := true);
          }
        }
        c := c + 1;
      }
    }
  }
}
