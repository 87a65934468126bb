/** The rating optimiser of core/elo.cpp. Ratings are reals, and the
    transcendental functions the source calls (log(1 + exp(x)), exp, sqrt)
    are parameters, so what is modelled and proved is the control
    structure: which matrix entries the local objective reads, the
    coordinate-wise compass search with its accept-only-if-better rule and
    step sizes, the stopping rule, and the shape of the standard-deviation
    grid. */
module Elo {

  /** ComputeElos::WLRecord: the wins of the first and of the second player. */
  datatype WLRecord = WLRecord(firstWins: real, secondWins: real)

  /** The games: a flattened numPlayers x numPlayers matrix of records,
      where entry p * n + y holds p's record against y, and the weight of
      the prior. lope stands for x |-> log(1 + exp(x)). */
  datatype Games = Games(winMatrix: seq<WLRecord>, n: nat, priorWL: real, lope: real -> real)

  ghost predicate ValidGames(g: Games) {
    |g.winMatrix| == g.n * g.n
  }

  const EloPerLogGamma: real := 173.717792761

  /** Entry (p, y) of an n x n matrix lies inside it. */
  lemma IndexInRange(p: nat, y: nat, n: nat)
    requires p < n && y < n
    ensures p * n + y < n * n
  {
    calc {
      p * n + y;
    <
      p * n + n;
    ==
      (p + 1) * n;
    <=
      { MulLeft(p + 1, n, n); }
      n * n;
    }
  }

  lemma MulLeft(a: nat, b: nat, c: nat)
    requires a <= b
    ensures a * c <= b * c
  {
  }

  /** The record of p against y: entry p * n + y of the flattened matrix. */
  function Entry(g: Games, p: nat, y: nat): WLRecord
    requires ValidGames(g) && p < g.n && y < g.n
  {
    IndexInRange(p, y, g.n);
    g.winMatrix[p * g.n + y]
  }

  /** logOnePlusExpX (elo.cpp:13-18): clamped to exactly 50 from x = 50 on. */
  function LogOnePlusExpX(x: real, lope: real -> real): (r: real)
    ensures x >= 50.0 ==> r == 50.0
    ensures x < 50.0 ==> r == lope(x)
  {
    if x >= 50.0 then 50.0 else lope(x)
  }

  /** logLikelihoodOfWL (elo.cpp:36-44): the log-likelihood of a record
      between two players whose ratings differ by diff. */
  function LogLikelihoodOfWL(diff: real, rec: WLRecord, lope: real -> real): real {
    var lg := diff / EloPerLogGamma;
    rec.firstWins * -LogOnePlusExpX(-lg, lope) + rec.secondWins * -LogOnePlusExpX(lg, lope)
  }

  /** A record read from the other player's side: swapping the two win
      counts and negating the rating difference gives the same
      log-likelihood, so the terms of a pair agree on who is first. */
  lemma LogLikelihoodSwap(diff: real, rec: WLRecord, lope: real -> real)
    ensures LogLikelihoodOfWL(-diff, WLRecord(rec.secondWins, rec.firstWins), lope)
         == LogLikelihoodOfWL(diff, rec, lope)
  {
    assert -diff / EloPerLogGamma == -(diff / EloPerLogGamma);
  }

  /** The terms of the local objective of player p for opponents y < k:
      p's record against y and y's record against p, y = p skipped. */
  function PairsLL(g: Games, p: nat, elos: seq<real>, k: nat): real
    requires ValidGames(g) && p < g.n && |elos| == g.n && k <= g.n
  {
    if k == 0 then 0.0
    else
      var y := k - 1;
      if y == p then PairsLL(g, p, elos, y)
      else
        PairsLL(g, p, elos, y)
        + LogLikelihoodOfWL(elos[p] - elos[y], Entry(g, p, y), g.lope)
        + LogLikelihoodOfWL(elos[y] - elos[p], Entry(g, y, p), g.lope)
  }

  /** computeLocalLogLikelihood (elo.cpp:58-76): all the pair terms, and one
      prior record (priorWL, priorWL) against a rating of 0. */
  function Local(g: Games, p: nat, elos: seq<real>): real
    requires ValidGames(g) && p < g.n && |elos| == g.n
  {
    PairsLL(g, p, elos, g.n) + LogLikelihoodOfWL(elos[p] - 0.0, WLRecord(g.priorWL, g.priorWL), g.lope)
  }

  /** Two matrices that agree on the row and the column of p, off the
      diagonal. */
  ghost predicate SameRecordsOf(g: Games, h: Games, p: nat)
    requires ValidGames(g) && ValidGames(h) && g.n == h.n && p < g.n
  {
    forall y :: 0 <= y < g.n && y != p ==> Entry(g, p, y) == Entry(h, p, y) && Entry(g, y, p) == Entry(h, y, p)
  }

  /** The local objective reads only entries p * n + y and y * n + p with
      y != p: never a diagonal entry, never another player's games. */
  lemma {:induction false} PairsReadOnlyOwnRecords(g: Games, h: Games, p: nat, elos: seq<real>, k: nat)
    requires ValidGames(g) && ValidGames(h) && g.n == h.n && g.priorWL == h.priorWL && g.lope == h.lope
    requires p < g.n && |elos| == g.n && k <= g.n
    requires SameRecordsOf(g, h, p)
    ensures PairsLL(g, p, elos, k) == PairsLL(h, p, elos, k)
  {
    if k > 0 {
      PairsReadOnlyOwnRecords(g, h, p, elos, k - 1);
      if k - 1 != p {
        assert Entry(g, p, k - 1) == Entry(h, p, k - 1) && Entry(g, k - 1, p) == Entry(h, k - 1, p);
      }
    }
  }

  lemma LocalReadsOnlyOwnRecords(g: Games, h: Games, p: nat, elos: seq<real>)
    requires ValidGames(g) && ValidGames(h) && g.n == h.n && g.priorWL == h.priorWL && g.lope == h.lope
    requires p < g.n && |elos| == g.n
    requires SameRecordsOf(g, h, p)
    ensures Local(g, p, elos) == Local(h, p, elos)
  {
    PairsReadOnlyOwnRecords(g, h, p, elos, g.n);
  }

  /** computeLocalLogLikelihood (elo.cpp:58-76). */
  method ComputeLocalLogLikelihood(g: Games, player: nat, elos: seq<real>) returns (logLikelihood: real)
    requires ValidGames(g) && player < g.n && |elos| == g.n
    ensures logLikelihood == Local(g, player, elos)
  {
    logLikelihood := 0.0;
    for y := 0 to g.n
      invariant logLikelihood == PairsLL(g, player, elos, y)
    {
      if y == player {
        continue;
      }
      logLikelihood := logLikelihood + LogLikelihoodOfWL(elos[player] - elos[y], Entry(g, player, y), g.lope);
      logLikelihood := logLikelihood + LogLikelihoodOfWL(elos[y] - elos[player], Entry(g, y, player), g.lope);
    }
    logLikelihood := logLikelihood + LogLikelihoodOfWL(elos[player] - 0.0, WLRecord(g.priorWL, g.priorWL), g.lope);
  }

  // ---------------------------------------------------------------------
  // The compass search of computeElos

  predicate AllPositive(s: seq<real>) {
    forall i :: 0 <= i < |s| ==> s[i] > 0.0
  }

  /** One player's move in the iterate lambda (elo.cpp:153-179): a step of
      deltas[x] up is taken if it strictly improves x's local objective,
      else a step down if that does, and then the step grows by 1.1;
      otherwise the rating stays and the step shrinks by 0.8. Only entry x
      of either vector changes, and x's local objective never drops. */
  function Step(g: Games, elos: seq<real>, deltas: seq<real>, x: nat): (r: (seq<real>, seq<real>))
    requires ValidGames(g) && |elos| == g.n && |deltas| == g.n && x < g.n
    ensures |r.0| == g.n && |r.1| == g.n
    ensures forall j :: 0 <= j < g.n && j != x ==> r.0[j] == elos[j] && r.1[j] == deltas[j]
    ensures deltas[x] > 0.0 ==> r.1[x] > 0.0
  {
    var oldElo := elos[x];
    var hiElo := oldElo + deltas[x];
    var loElo := oldElo - deltas[x];
    assert elos[x := oldElo] == elos;
    Move(elos, deltas, x, Local(g, x, elos), Local(g, x, elos[x := hiElo]), Local(g, x, elos[x := loElo]))
  }

  /** The choice of Step, given the objective at the current rating (l),
      one step up (lHi) and one step down (lLo). */
  function Move(elos: seq<real>, deltas: seq<real>, x: nat, l: real, lHi: real, lLo: real): (seq<real>, seq<real>)
    requires |elos| == |deltas| && x < |elos|
  {
    if lHi > l then (elos[x := elos[x] + deltas[x]], deltas[x := deltas[x] * 1.1])
    else if lLo > l then (elos[x := elos[x] - deltas[x]], deltas[x := deltas[x] * 1.1])
    else (elos, deltas[x := deltas[x] * 0.8])
  }

  /** A move never lowers x's local objective; the rating moves by exactly
      one step or stays, and the step grows by 1.1 after a move and
      shrinks by 0.8 otherwise. */
  lemma StepImproves(g: Games, elos: seq<real>, deltas: seq<real>, x: nat)
    requires ValidGames(g) && |elos| == g.n && |deltas| == g.n && x < g.n
    ensures var r := Step(g, elos, deltas, x);
      && Local(g, x, r.0) >= Local(g, x, elos)
      && (r.0[x] == elos[x] + deltas[x] || r.0[x] == elos[x] - deltas[x] || r.0[x] == elos[x])
      && (r.0[x] != elos[x] ==> r.1[x] == deltas[x] * 1.1)
      && (r.0 == elos ==> r.1[x] == deltas[x] * 0.8)
  {
    StepIsMove(g, elos, deltas, x);
  }

  lemma StepIsMove(g: Games, elos: seq<real>, deltas: seq<real>, x: nat)
    requires ValidGames(g) && |elos| == g.n && |deltas| == g.n && x < g.n
    ensures Step(g, elos, deltas, x) == Move(elos, deltas, x, Local(g, x, elos),
      Local(g, x, elos[x := elos[x] + deltas[x]]), Local(g, x, elos[x := elos[x] - deltas[x]]))
  {
  }

  /** The first k moves of one pass, in player order: later players see the
      ratings earlier ones already moved (Gauss-Seidel). */
  function Sweep(g: Games, elos: seq<real>, deltas: seq<real>, k: nat): (r: (seq<real>, seq<real>))
    requires ValidGames(g) && |elos| == g.n && |deltas| == g.n && k <= g.n
    ensures |r.0| == g.n && |r.1| == g.n
    ensures forall j :: k <= j < g.n ==> r.0[j] == elos[j] && r.1[j] == deltas[j]
    ensures AllPositive(deltas) ==> AllPositive(r.1)
  {
    if k == 0 then (elos, deltas)
    else
      var s := Sweep(g, elos, deltas, k - 1);
      Step(g, s.0, s.1, k - 1)
  }

  lemma SweepUnfold(g: Games, elos: seq<real>, deltas: seq<real>, k: nat)
    requires ValidGames(g) && |elos| == g.n && |deltas| == g.n && 0 < k <= g.n
    ensures var s := Sweep(g, elos, deltas, k - 1);
      Sweep(g, elos, deltas, k) == Step(g, s.0, s.1, k - 1)
  {
  }

  /** max(0, s[0], ..., s[|s| - 1]), as the iterate lambda accumulates it
      (elo.cpp:152, 182-183). */
  function MaxOf(s: seq<real>): real {
    if s == [] then 0.0
    else
      var m := MaxOf(s[..|s| - 1]);
      var last := s[|s| - 1];
      if last >= m then last else m
  }

  /** MaxOf is 0 for no players and otherwise the largest entry, since the
      step sizes are positive. */
  lemma {:induction false} MaxOfIsMaximum(s: seq<real>)
    ensures MaxOf(s) >= 0.0
    ensures forall i :: 0 <= i < |s| ==> s[i] <= MaxOf(s)
    ensures s == [] ==> MaxOf(s) == 0.0
    ensures AllPositive(s) && s != [] ==> exists i :: 0 <= i < |s| && s[i] == MaxOf(s)
    decreases |s|
  {
    if s != [] {
      var init := s[..|s| - 1];
      MaxOfIsMaximum(init);
      assert forall i :: 0 <= i < |init| ==> init[i] == s[i];
      if AllPositive(s) && init != [] {
        assert AllPositive(init);
      }
    }
  }

  /** The iterate lambda of computeElos (elo.cpp:150-187): one pass over the
      players; returns the largest new step size, 0 when there are none. */
  method Iterate(g: Games, elos: array<real>, nextDelta: array<real>) returns (maxEloDiff: real)
    requires ValidGames(g) && elos.Length == g.n && nextDelta.Length == g.n && elos != nextDelta
    modifies elos, nextDelta
    ensures (elos[..], nextDelta[..]) == Sweep(g, old(elos[..]), old(nextDelta[..]), g.n)
    ensures maxEloDiff == MaxOf(nextDelta[..])
  {
    ghost var e0, d0 := elos[..], nextDelta[..];
    maxEloDiff := 0.0;
    for x := 0 to g.n
      invariant (elos[..], nextDelta[..]) == Sweep(g, e0, d0, x)
      invariant maxEloDiff == MaxOf(nextDelta[..x])
    {
      PlayerStep(g, elos, nextDelta, x);
      SweepUnfold(g, e0, d0, x + 1);
      assert nextDelta[..x + 1][..x] == nextDelta[..x];
      var eloDiff := nextDelta[x];
      maxEloDiff := if eloDiff >= maxEloDiff then eloDiff else maxEloDiff;
    }
    assert nextDelta[..g.n] == nextDelta[..];
  }

  /** The body of the player loop of iterate (elo.cpp:153-179). */
  method PlayerStep(g: Games, elos: array<real>, nextDelta: array<real>, x: nat)
    requires ValidGames(g) && elos.Length == g.n && nextDelta.Length == g.n && elos != nextDelta && x < g.n
    modifies elos, nextDelta
    ensures (elos[..], nextDelta[..]) == Step(g, old(elos[..]), old(nextDelta[..]), x)
    ensures nextDelta[..x] == old(nextDelta[..x])
  {
    ghost var e0, d0 := elos[..], nextDelta[..];
    var oldElo := elos[x];
    var hiElo := oldElo + nextDelta[x];
    var loElo := oldElo - nextDelta[x];
    assert hiElo == e0[x] + d0[x] && loElo == e0[x] - d0[x];
    var likelihood := ComputeLocalLogLikelihood(g, x, elos[..]);
    elos[x] := hiElo;
    assert elos[..] == e0[x := e0[x] + d0[x]];
    var likelihoodHi := ComputeLocalLogLikelihood(g, x, elos[..]);
    elos[x] := loElo;
    assert elos[..] == e0[x := e0[x] - d0[x]];
    var likelihoodLo := ComputeLocalLogLikelihood(g, x, elos[..]);
    StepIsMove(g, e0, d0, x);
    Commit(elos, nextDelta, x, oldElo, hiElo, loElo, likelihood, likelihoodHi, likelihoodLo, e0);
  }

  /** The choice at the end of a player's move (elo.cpp:170-179), with elos
      holding e0 apart from the probe at x. */
  method Commit(elos: array<real>, nextDelta: array<real>, x: nat, oldElo: real, hiElo: real, loElo: real,
                likelihood: real, likelihoodHi: real, likelihoodLo: real, ghost e0: seq<real>)
    requires elos.Length == nextDelta.Length && x < elos.Length && elos != nextDelta
    requires |e0| == elos.Length && e0[x] == oldElo && elos[..] == e0[x := elos[x]]
    requires hiElo == oldElo + nextDelta[x] && loElo == oldElo - nextDelta[x]
    modifies elos, nextDelta
    ensures (elos[..], nextDelta[..]) == Move(e0, old(nextDelta[..]), x, likelihood, likelihoodHi, likelihoodLo)
  {
    ghost var d0 := nextDelta[..];
    if likelihoodHi > likelihood {
      elos[x] := hiElo;
      nextDelta[x] := nextDelta[x] * 1.1;
    } else if likelihoodLo > likelihood {
      elos[x] := loElo;
      nextDelta[x] := nextDelta[x] * 1.1;
    } else {
      elos[x] := oldElo;
      nextDelta[x] := nextDelta[x] * 0.8;
      assert elos[..] == e0;
    }
    assert elos[..] == e0[x := elos[x]];
    assert nextDelta[..] == d0[x := nextDelta[x]];
  }

  /** The state of the search: the ratings and the step sizes. */
  type State = (seq<real>, seq<real>)

  /** One pass of the iterate lambda over every player; a state of the
      wrong shape is left as it is. */
  function Pass(g: Games, st: State): (r: State)
    ensures |st.0| == g.n && |st.1| == g.n ==> |r.0| == g.n && |r.1| == g.n
  {
    if |g.winMatrix| == g.n * g.n && |st.0| == g.n && |st.1| == g.n then Sweep(g, st.0, st.1, g.n) else st
  }

  function PassOf(g: Games): State -> State {
    st => Pass(g, st)
  }

  /** The outer loop of computeElos (elo.cpp:190-199) for any pass: up to
      iters passes, stopping after the first whose largest step is below
      tolerance; the state it ends with. */
  function Repeat(pass: State -> State, st: State, iters: int, tolerance: real): State
    decreases iters
  {
    if iters <= 0 then st
    else
      var s := pass(st);
      if MaxOf(s.1) < tolerance then s else Repeat(pass, s, iters - 1, tolerance)
  }

  /** The number of passes Repeat makes: at most iters, and at least one
      when iters is positive. */
  function Passes(pass: State -> State, st: State, iters: int, tolerance: real): (k: nat)
    ensures iters <= 0 ==> k == 0
    ensures iters > 0 ==> 1 <= k <= iters
    decreases iters
  {
    if iters <= 0 then 0
    else
      var s := pass(st);
      if MaxOf(s.1) < tolerance then 1 else 1 + Passes(pass, s, iters - 1, tolerance)
  }

  /** The search of computeElos from the given ratings and step sizes. */
  function Run(g: Games, elos: seq<real>, deltas: seq<real>, iters: int, tolerance: real): State {
    Repeat(PassOf(g), (elos, deltas), iters, tolerance)
  }

  /** A run that stops before iters passes stops because its last pass
      ended with every step size below tolerance. */
  lemma {:induction false} EarlyStopBelowTolerance(pass: State -> State, st: State, iters: int, tolerance: real)
    requires 0 < Passes(pass, st, iters, tolerance) < iters
    ensures MaxOf(Repeat(pass, st, iters, tolerance).1) < tolerance
    decreases iters
  {
    var s := pass(st);
    if MaxOf(s.1) >= tolerance {
      EarlyStopBelowTolerance(pass, s, iters - 1, tolerance);
    }
  }

  /** Ratings and step sizes for n players, every step positive. */
  predicate Shaped(n: nat, st: State) {
    |st.0| == n && |st.1| == n && AllPositive(st.1)
  }

  /** A pass keeps the state's shape and the step sizes positive. */
  lemma PassKeepsShape(g: Games, st: State)
    requires ValidGames(g) && Shaped(g.n, st)
    ensures Shaped(g.n, PassOf(g)(st))
  {
    assert PassOf(g)(st) == Sweep(g, st.0, st.1, g.n);
  }

  /** A run of passes that keep the shape keeps it too. */
  lemma {:induction false} RepeatKeepsShape(pass: State -> State, n: nat, st: State, iters: int, tolerance: real)
    requires forall s :: Shaped(n, s) ==> Shaped(n, pass(s))
    requires Shaped(n, st)
    ensures Shaped(n, Repeat(pass, st, iters, tolerance))
    decreases iters
  {
    if iters > 0 {
      RepeatKeepsShape(pass, n, pass(st), iters - 1, tolerance);
    }
  }

  /** So every run of computeElos keeps the step sizes positive. */
  lemma RunKeepsStepsPositive(g: Games, elos: seq<real>, deltas: seq<real>, iters: int, tolerance: real)
    requires ValidGames(g) && |elos| == g.n && |deltas| == g.n && AllPositive(deltas)
    ensures Shaped(g.n, Run(g, elos, deltas, iters, tolerance))
  {
    forall s | Shaped(g.n, s)
      ensures Shaped(g.n, PassOf(g)(s))
    {
      PassKeepsShape(g, s);
    }
    RepeatKeepsShape(PassOf(g), g.n, (elos, deltas), iters, tolerance);
  }

  /** computeElos (elo.cpp:136-202): ratings start at 0 and step sizes at
      100; see Run. */
  method ComputeElos(g: Games, maxIters: int, tolerance: real) returns (result: seq<real>)
    requires ValidGames(g)
    ensures result == Run(g, seq(g.n, _ => 0.0), seq(g.n, _ => 100.0), maxIters, tolerance).0
    ensures maxIters <= 0 ==> forall i :: 0 <= i < g.n ==> result[i] == 0.0
  {
    var elos := new real[g.n](_ => 0.0);
    var nextDelta := new real[g.n](_ => 100.0);
    assert elos[..] == seq(g.n, _ => 0.0);
    assert nextDelta[..] == seq(g.n, _ => 100.0);
    RunPasses(g, elos, nextDelta, maxIters, tolerance);
    result := elos[..];
  }

  /** The outer loop of computeElos (elo.cpp:190-199). */
  method RunPasses(g: Games, elos: array<real>, nextDelta: array<real>, maxIters: int, tolerance: real)
    requires ValidGames(g) && elos.Length == g.n && nextDelta.Length == g.n && elos != nextDelta
    modifies elos, nextDelta
    ensures (elos[..], nextDelta[..]) == Run(g, old(elos[..]), old(nextDelta[..]), maxIters, tolerance)
  {
    ghost var goal := Run(g, elos[..], nextDelta[..], maxIters, tolerance);
    var i := 0;
    while i < maxIters
      invariant Run(g, elos[..], nextDelta[..], maxIters - i, tolerance) == goal
      decreases maxIters - i
    {
      ghost var before := (elos[..], nextDelta[..]);
      var maxEloDiff := Iterate(g, elos, nextDelta);
      assert (elos[..], nextDelta[..]) == PassOf(g)(before);
      if maxEloDiff < tolerance {
        break;
      }
      i := i + 1;
    }
  }

  // ---------------------------------------------------------------------
  // computeApproxEloStdevs

  const Radius: int := 1500
  /** 2 * Radius + 1 rating offsets, one Elo apart. */
  const GridPoints: nat := 2 * 1500 + 1
  const GridStep: real := 1.0

  /** The rating tried at grid point i around base (elo.cpp:117, 126). */
  function GridElo(base: real, i: int): (r: real)
    ensures r - base == (i - Radius) as real
  {
    base + (i - Radius) as real * GridStep
  }

  /** The grid runs from 1500 below to 1500 above the rating. */
  lemma GridBounds(base: real)
    ensures GridElo(base, 0) == base - 1500.0
    ensures GridElo(base, GridPoints - 1) == base + 1500.0
    ensures forall i, j :: 0 <= i < j < GridPoints ==> GridElo(base, i) < GridElo(base, j)
  {
  }

  /** exp of the change of p's local objective at each grid point, the
      others' ratings fixed (elo.cpp:114-122). */
  function RelProbs(g: Games, elos: seq<real>, p: nat, exp: real -> real): seq<real>
    requires ValidGames(g) && |elos| == g.n && p < g.n
  {
    seq(GridPoints, i => RelProb(g, elos, p, exp, i))
  }

  /** exp of the change of p's local objective when p is moved to grid
      point i. */
  function RelProb(g: Games, elos: seq<real>, p: nat, exp: real -> real, i: int): real
    requires ValidGames(g) && |elos| == g.n && p < g.n
  {
    exp(Local(g, p, elos[p := GridElo(elos[p], i)]) - Local(g, p, elos))
  }

  /** The sum of s, in order. */
  function Sum(s: seq<real>): (r: real)
    ensures AllPositive(s) && s != [] ==> r > 0.0
  {
    if s == [] then 0.0 else
      assert AllPositive(s) ==> AllPositive(s[..|s| - 1]);
      Sum(s[..|s| - 1]) + s[|s| - 1]
  }

  /** The second moment around base of the first k grid points, weighted
      by rel normalised by total (elo.cpp:124-128). */
  function Moment(rel: seq<real>, total: real, base: real, k: nat): real
    requires k <= |rel| && total != 0.0
  {
    if k == 0 then 0.0
    else
      Moment(rel, total, base, k - 1) + Weighted(rel[k - 1], total, GridElo(base, k - 1) - base)
  }

  /** One term of the second moment: weight w / total times the square of
      the offset d. */
  function Weighted(w: real, total: real, d: real): real
    requires total != 0.0
  {
    w / total * d * d
  }

  /** Every term of the second moment is a positive weight times a square,
      so the moment is never negative. */
  lemma {:induction false} MomentNonNegative(rel: seq<real>, total: real, base: real, k: nat)
    requires k <= |rel| && total > 0.0 && AllPositive(rel)
    ensures Moment(rel, total, base, k) >= 0.0
  {
    if k > 0 {
      MomentNonNegative(rel, total, base, k - 1);
      var d := GridElo(base, k - 1) - base;
      var w := rel[k - 1] / total;
      assert w > 0.0;
      assert Weighted(rel[k - 1], total, d) == w * (d * d);
      assert d * d >= 0.0;
    }
  }

  /** The standard deviation computeApproxEloStdevs reports for p. */
  function Stdev(g: Games, elos: seq<real>, p: nat, exp: real -> real, sqrt: real -> real): real
    requires ValidGames(g) && |elos| == g.n && p < g.n
    requires forall x :: exp(x) > 0.0
  {
    var rel := RelProbs(g, elos, p, exp);
    assert AllPositive(rel);
    sqrt(Moment(rel, Sum(rel), elos[p], GridPoints))
  }

  /** The weights of the grid are positive, so the moment under the square
      root is never negative. */
  lemma StdevOfNonNegative(g: Games, elos: seq<real>, p: nat, exp: real -> real)
    requires ValidGames(g) && |elos| == g.n && p < g.n
    requires forall x :: exp(x) > 0.0
    ensures var rel := RelProbs(g, elos, p, exp);
      Sum(rel) > 0.0 && Moment(rel, Sum(rel), elos[p], GridPoints) >= 0.0
  {
    var rel := RelProbs(g, elos, p, exp);
    assert AllPositive(rel);
    MomentNonNegative(rel, Sum(rel), elos[p], GridPoints);
  }

  /** computeApproxEloStdevs (elo.cpp:100-133), with exp and sqrt as
      parameters: one entry per player. */
  method ComputeApproxEloStdevs(g: Games, elos: seq<real>, exp: real -> real, sqrt: real -> real)
    returns (eloStdevs: seq<real>)
    requires ValidGames(g) && |elos| == g.n
    requires forall x :: exp(x) > 0.0
    ensures |eloStdevs| == g.n
    ensures forall p :: 0 <= p < g.n ==> eloStdevs[p] == Stdev(g, elos, p, exp, sqrt)
  {
    eloStdevs := seq(g.n, _ => 0.0);
    var relProbs := new real[GridPoints](_ => 0.0);
    for player := 0 to g.n
      invariant |eloStdevs| == g.n
      invariant forall q :: 0 <= q < player ==> eloStdevs[q] == Stdev(g, elos, q, exp, sqrt)
    {
      var s := PlayerStdev(g, elos, player, relProbs, exp, sqrt);
      eloStdevs := eloStdevs[player := s];
    }
  }

  /** The body of the player loop of computeApproxEloStdevs
      (elo.cpp:113-131), with relProbs the reused buffer. */
  method PlayerStdev(g: Games, elos: seq<real>, player: nat, relProbs: array<real>, exp: real -> real, sqrt: real -> real)
    returns (stdev: real)
    requires ValidGames(g) && |elos| == g.n && player < g.n && relProbs.Length == GridPoints
    requires forall x :: exp(x) > 0.0
    modifies relProbs
    ensures stdev == Stdev(g, elos, player, exp, sqrt)
  {
    var sumRelProbs := FillRelProbs(g, elos, player, relProbs, exp);
    StdevOfNonNegative(g, elos, player, exp);
    var secondMomentAroundElo := SecondMoment(relProbs, sumRelProbs, elos[player]);
    stdev := sqrt(secondMomentAroundElo);
  }

  /** The first loop of the player body (elo.cpp:114-122): relProbs gets
      the relative probability of each grid point; returns their sum. */
  method FillRelProbs(g: Games, elos: seq<real>, player: nat, relProbs: array<real>, exp: real -> real)
    returns (sumRelProbs: real)
    requires ValidGames(g) && |elos| == g.n && player < g.n && relProbs.Length == GridPoints
    modifies relProbs
    ensures relProbs[..] == RelProbs(g, elos, player, exp)
    ensures sumRelProbs == Sum(relProbs[..])
  {
    ghost var rel := RelProbs(g, elos, player, exp);
    var logLikelihood := ComputeLocalLogLikelihood(g, player, elos);
    sumRelProbs := 0.0;
    var tempElos := elos;
    for i := 0 to GridPoints
      invariant relProbs[..i] == rel[..i]
      invariant sumRelProbs == Sum(relProbs[..i])
      invariant |tempElos| == g.n && tempElos == elos[player := tempElos[player]]
    {
      var relProb;
      tempElos, relProb := GridPointProb(g, elos, player, tempElos, logLikelihood, i, exp);
      relProbs[i] := relProb;
      assert relProb == rel[i];
      assert relProbs[..i + 1][..i] == relProbs[..i];
      sumRelProbs := sumRelProbs + relProbs[i];
    }
    assert relProbs[..GridPoints] == relProbs[..];
    assert rel[..GridPoints] == rel;
  }

  /** One step of the first loop (elo.cpp:116-120): tempElos, equal to
      elos but at the player, moves the player to grid point i. */
  method GridPointProb(g: Games, elos: seq<real>, player: nat, tempElos: seq<real>, logLikelihood: real, i: int,
                       exp: real -> real) returns (newTempElos: seq<real>, relProb: real)
    requires ValidGames(g) && |elos| == g.n && player < g.n && logLikelihood == Local(g, player, elos)
    requires |tempElos| == g.n && tempElos == elos[player := tempElos[player]]
    ensures |newTempElos| == g.n && newTempElos == elos[player := newTempElos[player]]
    ensures relProb == RelProb(g, elos, player, exp, i)
  {
    var elo := elos[player] + (i - Radius) as real * GridStep;
    assert elo == GridElo(elos[player], i);
    UpdateTwice(elos, player, tempElos[player], elo);
    newTempElos := tempElos[player := elo];
    assert newTempElos == elos[player := GridElo(elos[player], i)];
    var newLogLikelihood := ComputeLocalLogLikelihood(g, player, newTempElos);
    relProb := exp(newLogLikelihood - logLikelihood);
  }

  lemma UpdateTwice(s: seq<real>, k: nat, a: real, b: real)
    requires k < |s|
    ensures s[k := a][k := b] == s[k := b]
    ensures s[k := b][k] == b
  {
  }

  /** The second loop of the player body (elo.cpp:124-128): the second
      moment of the grid around base, weighted by relProbs over total. */
  method SecondMoment(relProbs: array<real>, total: real, base: real) returns (secondMomentAroundElo: real)
    requires relProbs.Length == GridPoints && total != 0.0
    ensures secondMomentAroundElo == Moment(relProbs[..], total, base, GridPoints)
  {
    secondMomentAroundElo := 0.0;
    for i := 0 to GridPoints
      invariant secondMomentAroundElo == Moment(relProbs[..], total, base, i)
    {
      var elo := base + (i - Radius) as real * GridStep;
      assert elo == GridElo(base, i);
      secondMomentAroundElo := secondMomentAroundElo + Weighted(relProbs[i], total, elo - base);
    }
  }
}
