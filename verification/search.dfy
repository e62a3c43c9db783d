/**
 The expectimax agent (src/search.rs). `Expectation` and `Decision` are the
 cache-free values of a chance node and of a move node; `EvaluateRandable`
 and `EvaluatePlayable` are the memoised procedures of the source, proved to
 compute exactly those values for any table whose reusable entries are
 exact, and to leave every table they return in that state.

 The search is written against a `Game`: the heuristic (src/eval.rs, a
 parameter of the model), the move and the spawn distribution. The agent
 plays `Agent(h)`, whose move and spawn are `Roles.ApplyAction` and
 `Roles.Successors`; keeping them behind the record means the search's
 proofs never look inside the board.
 */
module Search {
  import opened Row
  import opened Grid
  import opened Chance
  import opened Roles
  import opened Optional

  /** The search depth the agent plays with. */
  const DefaultDepth: nat := 3

  /** A move turn: the chance node an action leads to, or nothing when it changes nothing. */
  type Play = (Playable, Action) -> Option<Randable>

  /** A chance turn: the outcomes with their probabilities. */
  type Spawn = Randable -> seq<(real, Playable)>

  datatype Game = Game(eval: Board -> real, play: Play, spawn: Spawn)

  /** The game the agent searches, for heuristic `h`. */
  function Agent(h: Board -> real): Game {
    Game(h, ApplyAction, Successors)
  }

  /** No action can be played from `p`. */
  ghost predicate Stuck(g: Game, p: Playable) {
    forall a :: g.play(p, a).None?
  }

  lemma AgentStuck(h: Board -> real, p: Playable)
    ensures Stuck(Agent(h), p) <==> IsTerminal(p)
  {
    var g := Agent(h);
    forall a
      ensures g.play(p, a).None? <==> !Applicable(p, a)
    {
      assert g.play(p, a) == ApplyAction(p, a);
    }
  }

  // ---------------------------------------------------------------------
  // Cache-free values
  // ---------------------------------------------------------------------

  /**
   The value of a chance node with `d` moves left: the heuristic at depth 0,
   otherwise the probability-weighted value of every spawn outcome.
   */
  function Expectation(g: Game, r: Randable, d: nat): real
    decreases d, 3, 0
  {
    if d == 0 then g.eval(r.board) else Average(g, g.spawn(r), d)
  }

  /**
   The weighted sum of the move-node values of `s`, accumulated from the
   front as the loop over `successors()` does.
   */
  function Average(g: Game, s: seq<(real, Playable)>, d: nat): real
    requires d >= 1
    decreases d, 2, |s|
  {
    if |s| == 0 then 0.0
    else Average(g, s[..|s| - 1], d) + s[|s| - 1].0 * Decision(g, s[|s| - 1].1, d)
  }

  lemma AverageStep(g: Game, s: seq<(real, Playable)>, k: nat, d: nat)
    requires d >= 1 && k < |s|
    ensures Average(g, s[..k + 1], d) == Average(g, s[..k], d) + s[k].0 * Decision(g, s[k].1, d)
  {
    assert s[..k + 1][..k] == s[..k];
  }

  /** The value of a move node with `d` moves left. */
  function Decision(g: Game, p: Playable, d: nat): real
    requires d >= 1
    decreases d, 1, 0
  {
    BestOf(g, p, d, 4)
  }

  /**
   The running best after the first `k` actions: it starts at 0 and is
   replaced by a playable action's value only when that value is strictly
   greater.
   */
  function BestOf(g: Game, p: Playable, d: nat, k: nat): real
    requires d >= 1 && k <= 4
    decreases d, 0, k
  {
    if k == 0 then 0.0
    else
      var best := BestOf(g, p, d, k - 1);
      match g.play(p, AllActions[k - 1])
      case None => best
      case Some(next) =>
        var v := Expectation(g, next, d - 1);
        if v > best then v else best
  }

  /** The value of action `a` at a move node with `d` moves left, 0 when it does not apply. */
  function ActionValue(g: Game, p: Playable, a: Action, d: nat): real
    requires d >= 1
  {
    match g.play(p, a)
    case None => 0.0
    case Some(next) => Expectation(g, next, d - 1)
  }

  lemma {:induction false} BestOfIsMax(g: Game, p: Playable, d: nat, k: nat)
    requires d >= 1 && k <= 4
    ensures BestOf(g, p, d, k) >= 0.0
    ensures forall i :: 0 <= i < k && g.play(p, AllActions[i]).Some? ==>
      ActionValue(g, p, AllActions[i], d) <= BestOf(g, p, d, k)
    ensures BestOf(g, p, d, k) == 0.0 ||
      exists i :: 0 <= i < k && g.play(p, AllActions[i]).Some? && BestOf(g, p, d, k) == ActionValue(g, p, AllActions[i], d)
  {
    if k > 0 {
      BestOfIsMax(g, p, d, k - 1);
    }
  }

  /**
   A move node is worth the larger of 0 and the best value among the
   playable actions, and exactly 0 when no action can be played.
   */
  lemma DecisionIsMax(g: Game, p: Playable, d: nat)
    requires d >= 1
    ensures Decision(g, p, d) >= 0.0
    ensures forall a :: g.play(p, a).Some? ==> ActionValue(g, p, a, d) <= Decision(g, p, d)
    ensures Decision(g, p, d) == 0.0 || exists a :: g.play(p, a).Some? && Decision(g, p, d) == ActionValue(g, p, a, d)
    ensures Stuck(g, p) ==> Decision(g, p, d) == 0.0
  {
    BestOfIsMax(g, p, d, 4);
    forall a | g.play(p, a).Some?
      ensures ActionValue(g, p, a, d) <= Decision(g, p, d)
    {
      var i := Index(a);
    }
  }

  // ---------------------------------------------------------------------
  // The value stays within the heuristic's range
  // ---------------------------------------------------------------------

  /** Every board's heuristic lies in [0, m]. */
  ghost predicate HeuristicWithin(h: Board -> real, m: real) {
    forall b: Board :: 0.0 <= h(b) <= m
  }

  /** The sum of the probabilities of `s`, accumulated from the front. */
  function ProbabilitySum(s: seq<(real, Playable)>): real {
    if |s| == 0 then 0.0 else ProbabilitySum(s[..|s| - 1]) + s[|s| - 1].0
  }

  /** Every chance node's outcomes have non-negative probabilities summing to at most 1. */
  ghost predicate Distribution(spawn: Spawn) {
    forall r :: (forall i :: 0 <= i < |spawn(r)| ==> spawn(r)[i].0 >= 0.0) && ProbabilitySum(spawn(r)) <= 1.0
  }

  lemma {:induction false} ProbabilitySumFront(s: seq<(real, Playable)>)
    requires |s| > 0
    ensures ProbabilitySum(s) == s[0].0 + ProbabilitySum(s[1..])
  {
    if |s| > 1 {
      var init := s[..|s| - 1];
      ProbabilitySumFront(init);
      assert init[1..] == s[1..][..|s[1..]| - 1];
    } else {
      assert s[1..] == [];
    }
  }

  lemma {:induction false} ProbabilitySumIsTotal(s: seq<(real, Playable)>, t: seq<(real, Board)>)
    requires |s| == |t|
    requires forall m :: 0 <= m < |s| ==> s[m].0 == t[m].0
    ensures ProbabilitySum(s) == TotalProbability(t)
  {
    if |s| > 0 {
      ProbabilitySumFront(s);
      ProbabilitySumIsTotal(s[1..], t[1..]);
    }
  }

  /** The spawn probabilities of a chance node are non-negative and sum to at most 1. */
  lemma SuccessorProbabilities(r: Randable)
    ensures forall m :: 0 <= m < |Successors(r)| ==> Successors(r)[m].0 >= 0.0
    ensures ProbabilitySum(Successors(r)) <= 1.0
  {
    var s, t := Successors(r), RandomSuccessors(r.board);
    RandomSuccessorsNonnegative(r.board);
    ProbabilitySumIsTotal(s, t);
    if NumEmpty(r.board) > 0 {
      RandomSuccessorsTotal(r.board);
    } else {
      EmptyCellsCount(r.board);
      assert t == [];
    }
  }

  /** The board's spawn outcomes form a distribution. */
  lemma SuccessorsAreDistribution()
    ensures Distribution(Successors)
  {
    forall r {
      SuccessorProbabilities(r);
    }
  }

  lemma ScaleWithin(p: real, x: real, m: real)
    requires p >= 0.0 && 0.0 <= x <= m
    ensures 0.0 <= p * x <= p * m
  {
  }

  lemma ScaleBelowOne(m: real, q: real)
    requires m >= 0.0 && q <= 1.0
    ensures m * q <= m
  {
    assert m - m * q == m * (1.0 - q);
  }

  /**
   When the heuristic lies in [0, m] and the spawns form a distribution, the
   value of every chance node at every depth lies in [0, m].
   */
  lemma {:induction false} ExpectationWithin(g: Game, r: Randable, d: nat, m: real)
    requires HeuristicWithin(g.eval, m) && Distribution(g.spawn)
    ensures 0.0 <= Expectation(g, r, d) <= m
    decreases d, 3, 0
  {
    assert 0.0 <= g.eval(r.board) <= m;
    if d > 0 {
      var s := g.spawn(r);
      assert ProbabilitySum(s) <= 1.0;
      AverageWithin(g, s, d, m);
      ScaleBelowOne(m, ProbabilitySum(s));
      calc {
        Expectation(g, r, d);
      ==
        Average(g, s, d);
      <=
        m * ProbabilitySum(s);
      <=
        m;
      }
    }
  }

  lemma {:induction false} AverageWithin(g: Game, s: seq<(real, Playable)>, d: nat, m: real)
    requires d >= 1 && HeuristicWithin(g.eval, m) && Distribution(g.spawn)
    requires forall i :: 0 <= i < |s| ==> s[i].0 >= 0.0
    ensures 0.0 <= Average(g, s, d) <= m * ProbabilitySum(s)
    decreases d, 2, |s|
  {
    if |s| > 0 {
      var last := s[|s| - 1];
      AverageWithin(g, s[..|s| - 1], d, m);
      DecisionWithin(g, last.1, d, m);
      ScaleWithin(last.0, Decision(g, last.1, d), m);
    }
  }

  lemma {:induction false} DecisionWithin(g: Game, p: Playable, d: nat, m: real)
    requires d >= 1 && HeuristicWithin(g.eval, m) && Distribution(g.spawn)
    ensures 0.0 <= Decision(g, p, d) <= m
    decreases d, 1, 0
  {
    DecisionIsMax(g, p, d);
    assert 0.0 <= g.eval(p.board) <= m;
    if Decision(g, p, d) != 0.0 {
      var a :| g.play(p, a).Some? && Decision(g, p, d) == ActionValue(g, p, a, d);
      ExpectationWithin(g, g.play(p, a).value, d - 1, m);
    }
  }

  /** With a heuristic in [0, m], every value the agent computes lies in [0, m]. */
  lemma AgentWithin(h: Board -> real, r: Randable, d: nat, m: real)
    requires HeuristicWithin(h, m)
    ensures 0.0 <= Expectation(Agent(h), r, d) <= m
  {
    SuccessorsAreDistribution();
    ExpectationWithin(Agent(h), r, d, m);
  }

  // ---------------------------------------------------------------------
  // The memoised procedures
  // ---------------------------------------------------------------------

  /** The memo table: a chance node, its value and the depth it was computed at. */
  type Cache = map<Randable, (real, nat)>

  /** Every entry computed at a depth up to `bound` holds the exact value for that depth. */
  ghost predicate Sound(g: Game, cache: Cache, bound: int) {
    forall r :: r in cache && cache[r].1 <= bound ==> cache[r].0 == Expectation(g, r, cache[r].1)
  }

  /**
   Going from `before` to `after` only adds or overwrites entries, and every
   such entry has a depth between 1 and `bound`: the table never holds a
   depth-0 entry, and a call never touches entries deeper than its own.
   */
  ghost predicate Writes(before: Cache, after: Cache, bound: int) {
    && (forall r :: r in before ==> r in after)
    && forall r :: r in after && (r !in before || after[r] != before[r]) ==> 1 <= after[r].1 <= bound
  }

  /** Storing the running sum of `r` at depth `d` keeps every other exact entry. */
  lemma RecordPartial(g: Game, cache: Cache, c: Cache, r: Randable, d: nat, sum: real)
    requires d >= 1 && Sound(g, c, d - 1) && Writes(cache, c, d)
    requires forall y :: y in c && c[y].1 == d && y != r ==> c[y].0 == Expectation(g, y, d)
    ensures Sound(g, c[r := (sum, d)], d - 1)
    ensures Writes(cache, c[r := (sum, d)], d)
    ensures forall y :: y in c[r := (sum, d)] && c[r := (sum, d)][y].1 == d && y != r ==>
      c[r := (sum, d)][y].0 == Expectation(g, y, d)
  {
  }

  /**
   `evaluate_randable`: the value of `r` with `d` moves left, reusing an entry
   only when it was computed at exactly depth `d`. The partial sums it
   stores while its loop runs sit at depth `d`, which no nested call (all at
   smaller depths) can read.
   */
  method EvaluateRandable(g: Game, r: Randable, d: nat, cache: Cache) returns (v: real, c: Cache)
    requires Sound(g, cache, d)
    ensures v == Expectation(g, r, d)
    ensures d == 0 ==> v == g.eval(r.board)
    ensures Sound(g, c, d)
    ensures Writes(cache, c, d)
    ensures r in cache && cache[r].1 == d ==> c == cache
    ensures d > 0 && |g.spawn(r)| > 0 ==> r in c && c[r] == (v, d)
    decreases d, 2
  {
    if r in cache && cache[r].1 == d {
      return cache[r].0, cache;
    } else if d == 0 {
      return g.eval(r.board), cache;
    }
    var succs := g.spawn(r);
    var sum := 0.0;
    c := cache;
    for k := 0 to |succs|
      invariant sum == Average(g, succs[..k], d)
      invariant Sound(g, c, d - 1)
      invariant forall y :: y in c && c[y].1 == d && y != r ==> c[y].0 == Expectation(g, y, d)
      invariant Writes(cache, c, d)
      invariant k > 0 ==> r in c && c[r] == (sum, d)
      invariant k == 0 ==> c == cache
    {
      sum, c := AddOutcome(g, r, d, succs, k, cache, sum, c);
    }
    assert succs[..|succs|] == succs;
    v := sum;
  }

  /**
   One pass of the loop of `evaluate_randable`: add outcome `k`, weighted by
   its probability, to the running sum, and store the new partial sum for
   `r` at depth `d`.
   */
  method AddOutcome(g: Game, r: Randable, d: nat, succs: seq<(real, Playable)>, k: nat,
                    cache: Cache, sum: real, c: Cache)
    returns (sum': real, c': Cache)
    requires d >= 1 && k < |succs|
    requires sum == Average(g, succs[..k], d)
    requires Sound(g, c, d - 1) && Writes(cache, c, d)
    requires forall y :: y in c && c[y].1 == d && y != r ==> c[y].0 == Expectation(g, y, d)
    ensures sum' == Average(g, succs[..k + 1], d)
    ensures Sound(g, c', d - 1) && Writes(cache, c', d)
    ensures forall y :: y in c' && c'[y].1 == d && y != r ==> c'[y].0 == Expectation(g, y, d)
    ensures r in c' && c'[r] == (sum', d)
    decreases d, 1
  {
    var (p, succ) := succs[k];
    var x;
    x, c' := EvaluatePlayable(g, succ, d, c);
    AverageStep(g, succs, k, d);
    sum' := sum + p * x;
    RecordPartial(g, cache, c', r, d, sum');
    c' := c'[r := (sum', d)];
  }

  /**
   `evaluate_playable`: the best value over the playable actions, at least 0.
   With no action to play it returns 0 without touching the table.
   */
  method EvaluatePlayable(g: Game, p: Playable, d: nat, cache: Cache) returns (v: real, c: Cache)
    requires d >= 1 || Stuck(g, p)
    requires Sound(g, cache, d - 1)
    ensures d >= 1 ==> v == Decision(g, p, d)
    ensures Stuck(g, p) ==> v == 0.0 && c == cache
    ensures Sound(g, c, d - 1)
    ensures Writes(cache, c, d - 1)
    decreases d, 0
  {
    var best := 0.0;
    c := cache;
    for k := 0 to 4
      invariant d >= 1 ==> best == BestOf(g, p, d, k)
      invariant Sound(g, c, d - 1)
      invariant Writes(cache, c, d - 1)
      invariant Stuck(g, p) ==> best == 0.0 && c == cache
    {
      match g.play(p, AllActions[k]) {
        case Some(next) =>
          var x;
          x, c := EvaluateRandable(g, next, d - 1, c);
          if x > best {
            best := x;
          }
        case None =>
      }
    }
    v := best;
  }

  // ---------------------------------------------------------------------
  // Choosing an action
  // ---------------------------------------------------------------------

  /**
   The selection rule shared by every selector: `choice` is the first action
   in `AllActions` order whose score is the largest among the applicable
   actions, provided that score is above 0; with no applicable action
   scoring above 0 there is no choice.
   */
  ghost predicate IsChoice(p: Playable, scores: seq<real>, choice: Option<Action>)
    requires |scores| == 4
  {
    match choice
    case None =>
      forall i :: 0 <= i < 4 && Applicable(p, AllActions[i]) ==> scores[i] <= 0.0
    case Some(a) =>
      && Applicable(p, a)
      && scores[Index(a)] > 0.0
      && (forall i :: 0 <= i < 4 && Applicable(p, AllActions[i]) ==> scores[i] <= scores[Index(a)])
      && (forall i :: 0 <= i < Index(a) && Applicable(p, AllActions[i]) ==> scores[i] < scores[Index(a)])
  }

  /** The rule picks at most one action. */
  lemma ChoiceIsUnique(p: Playable, scores: seq<real>, x: Option<Action>, y: Option<Action>)
    requires |scores| == 4 && IsChoice(p, scores, x) && IsChoice(p, scores, y)
    ensures x == y
  {
    if x.Some? {
      assert Applicable(p, AllActions[Index(x.value)]);
    }
    if y.Some? {
      assert Applicable(p, AllActions[Index(y.value)]);
    }
  }

  /** The state of the selection loop after the first `k` actions. */
  ghost predicate Running(p: Playable, scores: seq<real>, k: nat, choice: Option<Action>, best: real)
    requires |scores| == 4 && k <= 4
  {
    && best >= 0.0
    && (forall i :: 0 <= i < k && Applicable(p, AllActions[i]) ==> scores[i] <= best)
    && (choice.None? ==> best == 0.0)
    && (choice.Some? ==>
          && Index(choice.value) < k
          && Applicable(p, choice.value)
          && scores[Index(choice.value)] == best
          && best > 0.0
          && forall i :: 0 <= i < Index(choice.value) && Applicable(p, AllActions[i]) ==> scores[i] < best)
  }

  /** One more action examined by the selection loop. */
  lemma RunningStep(p: Playable, scores: seq<real>, k: nat, choice: Option<Action>, best: real)
    requires |scores| == 4 && k < 4 && Running(p, scores, k, choice, best)
    ensures var a := AllActions[k];
      if Applicable(p, a) && scores[k] > best
      then Running(p, scores, k + 1, Some(a), scores[k])
      else Running(p, scores, k + 1, choice, best)
  {
    var a := AllActions[k];
    assert Index(a) == k;
  }

  /** After all four actions, the loop state is the choice. */
  lemma RunningDone(p: Playable, scores: seq<real>, choice: Option<Action>, best: real)
    requires |scores| == 4 && Running(p, scores, 4, choice, best)
    ensures IsChoice(p, scores, choice)
  {
  }

  /** The score of every action at the root, with `maxDepth` moves searched. */
  function ExpectimaxScores(h: Board -> real, p: Playable, maxDepth: nat): (s: seq<real>)
    requires maxDepth >= 1
    ensures |s| == 4
    ensures forall i :: 0 <= i < 4 ==> s[i] == ActionValue(Agent(h), p, AllActions[i], maxDepth)
  {
    seq(4, i requires 0 <= i < 4 => ActionValue(Agent(h), p, AllActions[i], maxDepth))
  }

  /** The one-ply score of every action: the heuristic of the board it produces. */
  function GreedyScores(h: Board -> real, p: Playable): (s: seq<real>)
    ensures |s| == 4
  {
    seq(4, i requires 0 <= i < 4 =>
      match ApplyAction(p, AllActions[i])
      case None => 0.0
      case Some(next) => Evaluate(h, next))
  }

  /**
   `select_action_expectimax`: the action the rule picks from the exact
   expectimax scores, computed with a fresh table; nothing when no action
   applies.
   */
  method SelectExpectimax(h: Board -> real, p: Playable, maxDepth: nat) returns (choice: Option<Action>)
    requires maxDepth >= 1 || IsTerminal(p)
    ensures maxDepth >= 1 ==> IsChoice(p, ExpectimaxScores(h, p, maxDepth), choice)
    ensures choice.Some? ==> Applicable(p, choice.value)
    ensures IsTerminal(p) ==> choice.None?
  {
    var g := Agent(h);
    var cache: Cache := map[];
    var best := 0.0;
    choice := None;
    for k := 0 to 4
      invariant Sound(g, cache, maxDepth - 1)
      invariant maxDepth >= 1 ==> Running(p, ExpectimaxScores(h, p, maxDepth), k, choice, best)
      invariant choice.Some? ==> Applicable(p, choice.value)
      invariant IsTerminal(p) ==> choice.None?
    {
      ghost var before, bestBefore := choice, best;
      match ApplyAction(p, AllActions[k]) {
        case Some(next) =>
          assert Applicable(p, AllActions[k]);
          var x;
          x, cache := EvaluateRandable(g, next, maxDepth - 1, cache);
          if x > best {
            choice := Some(AllActions[k]);
            best := x;
          }
        case None =>
      }
      if maxDepth >= 1 {
        RunningStep(p, ExpectimaxScores(h, p, maxDepth), k, before, bestBefore);
      }
    }
    if maxDepth >= 1 {
      RunningDone(p, ExpectimaxScores(h, p, maxDepth), choice, best);
    }
  }

  /**
   With a heuristic that is 0 everywhere, the selection rule gives up on a
   board that still has a legal move: every score is 0, none beats the
   initial best of 0, and the caller reads the missing action as game over.
   */
  lemma ZeroScoresEndTheGame()
    ensures !IsTerminal(Playable(DownBefore))
    ensures IsChoice(Playable(DownBefore), ExpectimaxScores(_ => 0.0, Playable(DownBefore), DefaultDepth), None)
  {
    var p, zero := Playable(DownBefore), (_ => 0.0);
    ApplyDownExample();
    assert Applicable(p, Down);
    SuccessorsAreDistribution();
    forall i | 0 <= i < 4 && Applicable(p, AllActions[i])
      ensures ExpectimaxScores(zero, p, DefaultDepth)[i] <= 0.0
    {
      ExpectationWithin(Agent(zero), ApplyAction(p, AllActions[i]).value, DefaultDepth - 1, 0.0);
    }
  }

  /** Outcomes that each leave no playable action are worth 0 together. */
  lemma {:induction false} AverageOfStuck(g: Game, s: seq<(real, Playable)>, d: nat)
    requires d >= 1
    requires forall k :: 0 <= k < |s| ==> Stuck(g, s[k].1)
    ensures Average(g, s, d) == 0.0
    decreases |s|
  {
    if |s| > 0 {
      AverageOfStuck(g, s[..|s| - 1], d);
      DecisionIsMax(g, s[|s| - 1].1, d);
    }
  }

  /**
   An action whose chance node only has outcomes with nothing to play scores
   exactly 0, whatever the heuristic.
   */
  lemma StalledMoveScoresZero(g: Game, p: Playable, a: Action, r: Randable, d: nat)
    requires d >= 2 && g.play(p, a) == Some(r)
    requires forall k :: 0 <= k < |g.spawn(r)| ==> Stuck(g, g.spawn(r)[k].1)
    ensures ActionValue(g, p, a, d) == 0.0
  {
    AverageOfStuck(g, g.spawn(r), d - 1);
  }

  /** In the agent's game, a chance node whose outcomes are all blocked leads only to stuck move nodes. */
  lemma BlockedSpawnsAreStuck(h: Board -> real, r: Randable)
    requires forall m :: 0 <= m < |RandomSuccessors(r.board)| ==> Blocked(RandomSuccessors(r.board)[m].1)
    ensures forall k :: 0 <= k < |Agent(h).spawn(r)| ==> Stuck(Agent(h), Agent(h).spawn(r)[k].1)
  {
    var s := Successors(r);
    forall k | 0 <= k < |s|
      ensures Stuck(Agent(h), s[k].1)
    {
      BlockedIsTerminal(s[k].1);
      AgentStuck(h, s[k].1);
    }
  }

  /**
   A move node where only Left and Right apply, each to a chance node whose
   outcomes leave nothing to play: both score 0, so the selection rule
   chooses nothing although the game is not over.
   */
  lemma StalledSidesChooseNothing(g: Game, p: Playable, scores: seq<real>, left: Randable, right: Randable)
    requires forall a :: g.play(p, a) == ApplyAction(p, a)
    requires |scores| == 4 && forall i :: 0 <= i < 4 ==> scores[i] == ActionValue(g, p, AllActions[i], DefaultDepth)
    requires ApplyAction(p, Up).None? && ApplyAction(p, Down).None?
    requires ApplyAction(p, Left) == Some(left) && ApplyAction(p, Right) == Some(right)
    requires forall k :: 0 <= k < |g.spawn(left)| ==> Stuck(g, g.spawn(left)[k].1)
    requires forall k :: 0 <= k < |g.spawn(right)| ==> Stuck(g, g.spawn(right)[k].1)
    ensures !IsTerminal(p)
    ensures IsChoice(p, scores, None)
  {
    assert g.play(p, Left) == Some(left) && g.play(p, Right) == Some(right);
    StalledMoveScoresZero(g, p, Left, left, DefaultDepth);
    StalledMoveScoresZero(g, p, Right, right, DefaultDepth);
    assert scores[2] == 0.0 && scores[3] == 0.0;
    assert !Applicable(p, AllActions[0]) && !Applicable(p, AllActions[1]) && Applicable(p, Left);
    forall i | 0 <= i < 4 && Applicable(p, AllActions[i])
      ensures scores[i] <= 0.0
    {
    }
  }

  /**
   On `StallBefore` Left and Right apply, yet both score exactly 0 for every
   heuristic, so the selection rule chooses nothing and the game is
   reported over with a legal move left.
   */
  lemma StallEndsTheGame(h: Board -> real)
    ensures !IsTerminal(Playable(StallBefore))
    ensures IsChoice(Playable(StallBefore), ExpectimaxScores(h, Playable(StallBefore), DefaultDepth), None)
  {
    var p := Playable(StallBefore);
    StallMoves();
    StallLeftSpawnsBlock();
    StallRightSpawnsBlock();
    BlockedSpawnsAreStuck(h, Randable(StallLeft));
    BlockedSpawnsAreStuck(h, Randable(StallRight));
    var g := Agent(h);
    forall a
      ensures g.play(p, a) == ApplyAction(p, a)
    {
    }
    StalledSidesChooseNothing(g, p, ExpectimaxScores(h, p, DefaultDepth), Randable(StallLeft), Randable(StallRight));
  }

  /**
   The selection rule as documented: the first action in `AllActions` order
   whose score is the largest among the applicable actions, whatever its
   sign, and no choice exactly when no action applies.
   */
  ghost predicate IsBestChoice(p: Playable, scores: seq<real>, choice: Option<Action>)
    requires |scores| == 4
  {
    match choice
    case None =>
      forall i :: 0 <= i < 4 ==> !Applicable(p, AllActions[i])
    case Some(a) =>
      && Applicable(p, a)
      && (forall i :: 0 <= i < 4 && Applicable(p, AllActions[i]) ==> scores[i] <= scores[Index(a)])
      && (forall i :: 0 <= i < Index(a) && Applicable(p, AllActions[i]) ==> scores[i] < scores[Index(a)])
  }

  /** The documented rule chooses nothing exactly when the game is over. */
  lemma BestChoiceEndsOnlyWhenTerminal(p: Playable, scores: seq<real>, choice: Option<Action>)
    requires |scores| == 4 && IsBestChoice(p, scores, choice)
    ensures choice.None? <==> IsTerminal(p)
  {
    if choice.None? {
      forall a
        ensures !Applicable(p, a)
      {
        assert AllActions[Index(a)] == a;
      }
    }
  }

  /** Whenever the source's rule picks an action, the documented rule picks the same one. */
  lemma BestChoiceAgrees(p: Playable, scores: seq<real>, x: Option<Action>, y: Option<Action>)
    requires |scores| == 4 && IsChoice(p, scores, x) && IsBestChoice(p, scores, y)
    requires x.Some?
    ensures x == y
  {
    assert Applicable(p, AllActions[Index(x.value)]);
    if y.Some? {
      assert Applicable(p, AllActions[Index(y.value)]);
    }
  }

  /** The state of the documented selection loop after the first `k` actions. */
  ghost predicate RunningBest(p: Playable, scores: seq<real>, k: nat, choice: Option<Action>, best: real)
    requires |scores| == 4 && k <= 4
  {
    && (choice.None? ==> forall i :: 0 <= i < k ==> !Applicable(p, AllActions[i]))
    && (choice.Some? ==>
          && Index(choice.value) < k
          && Applicable(p, choice.value)
          && scores[Index(choice.value)] == best
          && (forall i :: 0 <= i < k && Applicable(p, AllActions[i]) ==> scores[i] <= best)
          && forall i :: 0 <= i < Index(choice.value) && Applicable(p, AllActions[i]) ==> scores[i] < best)
  }

  /** The documented selection loop takes action `k`: it applies and beats the running best, if any. */
  lemma RunningBestTake(p: Playable, scores: seq<real>, k: nat, choice: Option<Action>, best: real)
    requires |scores| == 4 && k < 4 && RunningBest(p, scores, k, choice, best)
    requires Applicable(p, AllActions[k]) && (choice.None? || scores[k] > best)
    ensures RunningBest(p, scores, k + 1, Some(AllActions[k]), scores[k])
  {
    assert Index(AllActions[k]) == k;
  }

  /** The documented selection loop passes over action `k`. */
  lemma RunningBestKeep(p: Playable, scores: seq<real>, k: nat, choice: Option<Action>, best: real)
    requires |scores| == 4 && k < 4 && RunningBest(p, scores, k, choice, best)
    requires !Applicable(p, AllActions[k]) || (choice.Some? && scores[k] <= best)
    ensures RunningBest(p, scores, k + 1, choice, best)
  {
  }

  lemma RunningBestDone(p: Playable, scores: seq<real>, choice: Option<Action>, best: real)
    requires |scores| == 4 && RunningBest(p, scores, 4, choice, best)
    ensures IsBestChoice(p, scores, choice)
    ensures choice.None? <==> IsTerminal(p)
  {
    BestChoiceEndsOnlyWhenTerminal(p, scores, choice);
  }

  /**
   One pass of the documented selection loop: score action `k` and keep it
   if it applies and beats the running best, if any.
   */
  method ExamineBest(g: Game, p: Playable, maxDepth: nat, ghost scores: seq<real>, k: nat,
                     choice: Option<Action>, best: real, cache: Cache)
    returns (choice': Option<Action>, best': real, cache': Cache)
    requires maxDepth >= 1 && k < 4
    requires forall a :: g.play(p, a) == ApplyAction(p, a)
    requires |scores| == 4 && forall i :: 0 <= i < 4 ==> scores[i] == ActionValue(g, p, AllActions[i], maxDepth)
    requires Sound(g, cache, maxDepth - 1)
    requires RunningBest(p, scores, k, choice, best)
    ensures Sound(g, cache', maxDepth - 1)
    ensures RunningBest(p, scores, k + 1, choice', best')
  {
    choice', best', cache' := choice, best, cache;
    match ApplyAction(p, AllActions[k]) {
      case Some(next) =>
        var x;
        x, cache' := EvaluateRandable(g, next, maxDepth - 1, cache);
        assert x == scores[k] by {
          assert g.play(p, AllActions[k]) == Some(next);
        }
        if choice.None? || x > best {
          RunningBestTake(p, scores, k, choice, best);
          choice', best' := Some(AllActions[k]), x;
        } else {
          RunningBestKeep(p, scores, k, choice, best);
        }
      case None =>
        RunningBestKeep(p, scores, k, choice, best);
    }
  }

  /**
   Expectimax selection with the documented rule: the running best starts
   out empty rather than at 0, so the first applicable action is always a
   candidate.
   */
  method SelectBest(h: Board -> real, p: Playable, maxDepth: nat) returns (choice: Option<Action>)
    requires maxDepth >= 1 || IsTerminal(p)
    ensures maxDepth >= 1 ==> IsBestChoice(p, ExpectimaxScores(h, p, maxDepth), choice)
    ensures choice.Some? ==> Applicable(p, choice.value)
    ensures choice.None? <==> IsTerminal(p)
  {
    if maxDepth == 0 {
      // no action applies, so the loop below would examine nothing
      return None;
    }
    var g := Agent(h);
    ghost var scores := ExpectimaxScores(h, p, maxDepth);
    forall a
      ensures g.play(p, a) == ApplyAction(p, a)
    {
    }
    var cache: Cache := map[];
    var best := 0.0;
    choice := None;
    for k := 0 to 4
      invariant Sound(g, cache, maxDepth - 1)
      invariant RunningBest(p, scores, k, choice, best)
    {
      choice, best, cache := ExamineBest(g, p, maxDepth, scores, k, choice, best, cache);
    }
    RunningBestDone(p, ExpectimaxScores(h, p, maxDepth), choice, best);
  }

  /**
   `select_action`: expectimax selection at the agent's fixed depth, with the
   source's rule. `SelectBest` is the same search under the documented rule.
   */
  method SelectAction(h: Board -> real, p: Playable) returns (choice: Option<Action>)
    ensures IsChoice(p, ExpectimaxScores(h, p, DefaultDepth), choice)
    ensures choice.Some? ==> Applicable(p, choice.value)
    ensures IsTerminal(p) ==> choice.None?
  {
    choice := SelectExpectimax(h, p, DefaultDepth);
  }

  /**
   `select_action_greedily`: the action the rule picks from the one-ply
   heuristic scores.
   */
  method SelectGreedily(h: Board -> real, p: Playable) returns (choice: Option<Action>)
    ensures IsChoice(p, GreedyScores(h, p), choice)
    ensures choice.Some? ==> Applicable(p, choice.value)
    ensures IsTerminal(p) ==> choice.None?
  {
    var best := 0.0;
    choice := None;
    for k := 0 to 4
      invariant Running(p, GreedyScores(h, p), k, choice, best)
      invariant IsTerminal(p) ==> choice.None?
    {
      ghost var before, bestBefore := choice, best;
      match ApplyAction(p, AllActions[k]) {
        case Some(next) =>
          assert Applicable(p, AllActions[k]);
          var x := Evaluate(h, next);
          if x > best {
            choice := Some(AllActions[k]);
            best := x;
          }
        case None =>
      }
      RunningStep(p, GreedyScores(h, p), k, before, bestBefore);
    }
    RunningDone(p, GreedyScores(h, p), choice, best);
  }

  /**
   The greedy agent is expectimax searching one move deep: the scores agree,
   so the two selectors pick the same action.
   */
  lemma GreedyIsDepthOne(h: Board -> real, p: Playable, x: Option<Action>, y: Option<Action>)
    requires IsChoice(p, GreedyScores(h, p), x)
    requires IsChoice(p, ExpectimaxScores(h, p, 1), y)
    ensures x == y
  {
    assert GreedyScores(h, p) == ExpectimaxScores(h, p, 1);
    ChoiceIsUnique(p, GreedyScores(h, p), x, y);
  }

  /** The applicable actions among `acts`, in their order. */
  function ApplicableAmong(p: Playable, acts: seq<Action>): (r: seq<Action>)
    ensures forall a :: a in r <==> a in acts && Applicable(p, a)
    ensures |r| <= |acts|
  {
    if |acts| == 0 then []
    else
      var rest := ApplicableAmong(p, acts[..|acts| - 1]);
      assert forall a :: a in acts <==> a in acts[..|acts| - 1] || a == acts[|acts| - 1];
      if Applicable(p, acts[|acts| - 1]) then rest + [acts[|acts| - 1]] else rest
  }

  /** The actions of `r` come in strictly increasing `AllActions` order. */
  predicate InOrder(r: seq<Action>) {
    forall i, j :: 0 <= i < j < |r| ==> Index(r[i]) < Index(r[j])
  }

  lemma InOrderAppend(r: seq<Action>, a: Action)
    requires InOrder(r) && forall x :: x in r ==> Index(x) < Index(a)
    ensures InOrder(r + [a])
  {
    forall i, j | 0 <= i < j < |r| + 1
      ensures Index((r + [a])[i]) < Index((r + [a])[j])
    {
      if j == |r| {
        assert r[i] in r;
      }
    }
  }

  /**
   Filtering keeps the order: the applicable actions among an ordered list
   of actions are ordered too, so none is listed twice.
   */
  lemma {:induction false} ApplicableAmongInOrder(p: Playable, acts: seq<Action>)
    requires InOrder(acts)
    ensures InOrder(ApplicableAmong(p, acts))
    decreases |acts|
  {
    if |acts| > 0 {
      var init, last := acts[..|acts| - 1], acts[|acts| - 1];
      var prev := ApplicableAmong(p, init);
      assert InOrder(init) by {
        forall i, j | 0 <= i < j < |init|
          ensures Index(init[i]) < Index(init[j])
        {
          assert init[i] == acts[i] && init[j] == acts[j];
        }
      }
      ApplicableAmongInOrder(p, init);
      forall x | x in prev
        ensures Index(x) < Index(last)
      {
        var m :| 0 <= m < |init| && init[m] == x;
        assert acts[m] == x;
      }
      if Applicable(p, last) {
        InOrderAppend(prev, last);
      }
    }
  }

  /**
   The applicable actions, each once, in `AllActions` order; empty exactly
   when the game is over.
   */
  function ApplicableActions(p: Playable): (r: seq<Action>)
    ensures forall a :: a in r <==> Applicable(p, a)
    ensures InOrder(r)
    ensures |r| == 0 <==> IsTerminal(p)
  {
    AllActionsFilter(p);
    ApplicableAmong(p, AllActions)
  }

  lemma AllActionsFilter(p: Playable)
    ensures forall a :: a in ApplicableAmong(p, AllActions) <==> Applicable(p, a)
    ensures InOrder(ApplicableAmong(p, AllActions))
    ensures |ApplicableAmong(p, AllActions)| == 0 <==> IsTerminal(p)
  {
    var r := ApplicableAmong(p, AllActions);
    assert forall a :: a in r <==> Applicable(p, a) by {
      forall a
        ensures a in AllActions
      {
        assert AllActions[Index(a)] == a;
      }
    }
    assert InOrder(r) by {
      ApplicableAmongInOrder(p, AllActions);
    }
    if |r| != 0 {
      assert r[0] in r;
    }
  }

  /**
   `select_action_randomly`, the draw from 0..count as the parameter
   `index`: nothing exactly when no action applies, otherwise the
   `index`-th applicable action.
   */
  method SelectRandomly(p: Playable, index: nat) returns (choice: Option<Action>)
    requires |ApplicableActions(p)| == 0 || index < |ApplicableActions(p)|
    ensures choice.None? <==> IsTerminal(p)
    ensures choice.Some? ==> Applicable(p, choice.value) && choice.value == ApplicableActions(p)[index]
  {
    var applicable: seq<Action> := [];
    for k := 0 to 4
      invariant applicable == ApplicableAmong(p, AllActions[..k])
    {
      assert AllActions[..k + 1][..k] == AllActions[..k];
      if ApplyAction(p, AllActions[k]).Some? {
        applicable := applicable + [AllActions[k]];
      }
    }
    assert AllActions[..4] == AllActions;
    if |applicable| == 0 {
      return None;
    }
    choice := Some(applicable[index]);
    assert applicable[index] in applicable;
  }
}
