/**
 * The specification of Viterbi decoding over the sparse lattice (HMM.java,
 * Viterbi): frontiers of best scores, one layer of cells per position, the
 * choice of the final state and the backtrace.
 *
 * Where the original iterates a hash set of states, this specification
 * visits the states in `Sorted` (lexicographic) order; with the original's
 * strict comparisons, the first maximiser seen wins, which makes it the
 * lexicographically least one.
 */
module Lattice {
  import opened Wrappers
  import opened StringOrder
  import opened Counting
  import opened Probabilities

  /** The emission score of a word never seen under a tag. */
  const UnseenScore: real := -100.0

  /** The emission score of `w` under `t`, falling back to `UnseenScore`. */
  function Emission(emit: ScoreTable, t: string, w: string): real
    requires t in emit
  {
    if w in emit[t] then emit[t][w] else UnseenScore
  }

  /** The score of reaching `t` from frontier state `s` while reading `w`. */
  function Candidate(frontier: map<string, real>, trans: ScoreTable, emit: ScoreTable, w: string, s: string, t: string): real
    requires Covers(trans, emit)
    requires s in frontier && s in trans && t in trans[s]
  {
    frontier[s] + trans[s][t] + Emission(emit, t, w)
  }

  /** A lattice cell: the best score of a state at one position and the predecessor that achieved it. */
  datatype Cell = Cell(score: real, pred: string)

  type Layer = map<string, Cell>

  /**
   * Extends along every recorded transition of `s`: a destination's cell is
   * replaced when it is new or the candidate is strictly better.
   */
  function Relax(acc: Layer, frontier: map<string, real>, trans: ScoreTable, emit: ScoreTable, w: string, s: string): Layer
    requires Covers(trans, emit)
    requires s in frontier && s in trans
  {
    map t | t in acc.Keys + trans[s].Keys ::
      if t in trans[s] && (t !in acc || Candidate(frontier, trans, emit, w, s, t) > acc[t].score)
      then Cell(Candidate(frontier, trans, emit, w, s, t), s)
      else acc[t]
  }

  /** The layer built by visiting the frontier states of `order` in turn; states without transitions add nothing. */
  function StepFrom(frontier: map<string, real>, order: seq<string>, trans: ScoreTable, emit: ScoreTable, w: string): Layer
    requires Covers(trans, emit)
    requires forall i :: 0 <= i < |order| ==> order[i] in frontier
    decreases |order|
  {
    if order == [] then map[]
    else
      var s := order[|order| - 1];
      var acc := StepFrom(frontier, order[..|order| - 1], trans, emit, w);
      if s in trans then Relax(acc, frontier, trans, emit, w, s) else acc
  }

  /** One position of the lattice: every frontier state, in lexicographic order. */
  ghost function Step(frontier: map<string, real>, trans: ScoreTable, emit: ScoreTable, w: string): Layer
    requires Covers(trans, emit)
  {
    StepFrom(frontier, Sorted(frontier.Keys), trans, emit, w)
  }

  /** The scores of a layer: the next frontier. */
  function ScoresOf(layer: Layer): map<string, real>
  {
    map t | t in layer :: layer[t].score
  }

  /**
   * The state with the greatest score among `order`, the first one seen
   * winning ties; none for an empty order.
   */
  function PickBest(order: seq<string>, scores: map<string, real>): (r: Option<string>)
    requires forall i :: 0 <= i < |order| ==> order[i] in scores
    ensures r.Some? <==> order != []
    ensures r.Some? ==> r.value in order
    decreases |order|
  {
    if order == [] then None
    else
      var prev := PickBest(order[..|order| - 1], scores);
      var s := order[|order| - 1];
      if prev.None? || scores[s] > scores[prev.value] then Some(s) else prev
  }

  /** No state of `order` scores more than the one picked. */
  lemma {:induction false} PickBestIsMax(order: seq<string>, scores: map<string, real>, i: nat)
    requires forall k :: 0 <= k < |order| ==> order[k] in scores
    requires i < |order|
    ensures PickBest(order, scores).Some?
    ensures scores[order[i]] <= scores[PickBest(order, scores).value]
    decreases |order|
  {
    var n := |order| - 1;
    var prev := PickBest(order[..n], scores);
    if i < n {
      PickBestIsMax(order[..n], scores, i);
    } else if prev.Some? {
      assert prev.value in order[..n];
    }
  }

  /** Every state of `order` that ties with the one picked comes no earlier than it. */
  lemma {:induction false} PickBestIsFirst(order: seq<string>, scores: map<string, real>, i: nat)
    requires forall k :: 0 <= k < |order| ==> order[k] in scores
    requires i < |order|
    requires PickBest(order, scores).Some? && scores[order[i]] == scores[PickBest(order, scores).value]
    ensures PickBest(order, scores).value in order[..i + 1]
    decreases |order|
  {
    var n := |order| - 1;
    var init := order[..n];
    var prev := PickBest(init, scores);
    if i < n {
      assert init[..i + 1] == order[..i + 1];
      if prev.Some? {
        PickBestIsMax(init, scores, i);
        assert prev.value in init;
        if scores[order[n]] > scores[prev.value] {
          assert false;
        }
        PickBestIsFirst(init, scores, i);
      }
    } else {
      assert order[..i + 1] == order;
    }
  }

  /** The best state of a frontier, lexicographic order breaking ties. */
  ghost function Best(scores: map<string, real>): (r: Option<string>)
    ensures r.Some? ==> r.value in scores
    ensures r.None? ==> scores == map[]
  {
    if scores != map[] then
      var x :| x in scores;
      SortedCovers(scores.Keys, x);
      PickBest(Sorted(scores.Keys), scores)
    else None
  }

  /** No state scores more than the best one. */
  lemma BestIsMax(scores: map<string, real>, s: string)
    requires s in scores
    ensures Best(scores).Some? && scores[s] <= scores[Best(scores).value]
  {
    var order := Sorted(scores.Keys);
    SortedCovers(scores.Keys, s);
    var i :| 0 <= i < |order| && order[i] == s;
    PickBestIsMax(order, scores, i);
  }

  /** Among the states that tie for the best score, the best state is the lexicographically least. */
  lemma BestIsLeastMaximiser(scores: map<string, real>, s: string)
    requires s in scores && Best(scores).Some? && scores[s] == scores[Best(scores).value]
    ensures LexLe(Best(scores).value, s)
  {
    var order := Sorted(scores.Keys);
    SortedCovers(scores.Keys, s);
    var i :| 0 <= i < |order| && order[i] == s;
    PickBestIsFirst(order, scores, i);
    var j :| 0 <= j <= i && order[j] == Best(scores).value;
    if j < i {
      SortedAscending(scores.Keys, j, i);
    } else {
      LexLeReflexive(s);
    }
  }

  /** Every cell names a frontier predecessor with a recorded transition, and holds that predecessor's candidate. */
  lemma {:induction false} StepFromCell(frontier: map<string, real>, order: seq<string>, trans: ScoreTable, emit: ScoreTable, w: string, t: string)
    requires Covers(trans, emit)
    requires forall i :: 0 <= i < |order| ==> order[i] in frontier
    requires t in StepFrom(frontier, order, trans, emit, w)
    ensures var cell := StepFrom(frontier, order, trans, emit, w)[t];
      && cell.pred in order && cell.pred in trans && t in trans[cell.pred]
      && cell.score == Candidate(frontier, trans, emit, w, cell.pred, t)
    decreases |order|
  {
    var n := |order| - 1;
    var init := order[..n];
    var s := order[n];
    var acc := StepFrom(frontier, init, trans, emit, w);
    if s in trans && t in trans[s] && (t !in acc || Candidate(frontier, trans, emit, w, s, t) > acc[t].score) {
    } else {
      StepFromCell(frontier, init, trans, emit, w, t);
      assert acc[t].pred in init;
    }
  }

  /** Every recorded transition out of a visited state reaches a cell at least as good as its candidate. */
  lemma {:induction false} StepFromBound(frontier: map<string, real>, order: seq<string>, trans: ScoreTable, emit: ScoreTable, w: string, i: nat, t: string)
    requires Covers(trans, emit)
    requires forall k :: 0 <= k < |order| ==> order[k] in frontier
    requires i < |order| && order[i] in trans && t in trans[order[i]]
    ensures t in StepFrom(frontier, order, trans, emit, w)
    ensures Candidate(frontier, trans, emit, w, order[i], t) <= StepFrom(frontier, order, trans, emit, w)[t].score
    decreases |order|
  {
    var n := |order| - 1;
    var init := order[..n];
    if i < n {
      assert init[i] == order[i];
      StepFromBound(frontier, init, trans, emit, w, i, t);
    }
  }

  /** A cell's predecessor comes no later in `order` than any state whose candidate ties with the cell's score. */
  lemma {:induction false} StepFromFirst(frontier: map<string, real>, order: seq<string>, trans: ScoreTable, emit: ScoreTable, w: string, i: nat, t: string)
    requires Covers(trans, emit)
    requires forall k :: 0 <= k < |order| ==> order[k] in frontier
    requires i < |order| && order[i] in trans && t in trans[order[i]]
    requires t in StepFrom(frontier, order, trans, emit, w)
    requires Candidate(frontier, trans, emit, w, order[i], t) == StepFrom(frontier, order, trans, emit, w)[t].score
    ensures StepFrom(frontier, order, trans, emit, w)[t].pred in order[..i + 1]
    decreases |order|
  {
    var n := |order| - 1;
    var init := order[..n];
    var s := order[n];
    var acc := StepFrom(frontier, init, trans, emit, w);
    if i < n {
      assert init[i] == order[i];
      assert init[..i + 1] == order[..i + 1];
      StepFromBound(frontier, init, trans, emit, w, i, t);
      if s in trans && t in trans[s] && Candidate(frontier, trans, emit, w, s, t) > acc[t].score {
        assert false;
      }
      StepFromFirst(frontier, init, trans, emit, w, i, t);
    } else {
      StepFromCell(frontier, order, trans, emit, w, t);
      assert order[..i + 1] == order;
    }
  }

  /** A frontier state names the predecessor of every cell of the next layer. */
  lemma PredInFrontier(frontier: map<string, real>, trans: ScoreTable, emit: ScoreTable, w: string, t: string)
    requires Covers(trans, emit)
    requires t in Step(frontier, trans, emit, w)
    ensures var cell := Step(frontier, trans, emit, w)[t];
      && cell.pred in frontier && cell.pred in trans && t in trans[cell.pred]
      && cell.score == Candidate(frontier, trans, emit, w, cell.pred, t)
  {
    var order := Sorted(frontier.Keys);
    StepFromCell(frontier, order, trans, emit, w, t);
  }

  /** The scores before layer `k`: the start state alone, with score 0, before the first one. */
  function Prior(layers: seq<Layer>, k: nat): map<string, real>
    requires k <= |layers|
  {
    if k == 0 then map[Start := 0.0] else ScoresOf(layers[k - 1])
  }

  /** The first `n` layers of the lattice of `obs`, each a `Step` from the scores of the one before. */
  ghost function Layers(trans: ScoreTable, emit: ScoreTable, obs: seq<string>, n: nat): (r: seq<Layer>)
    requires Covers(trans, emit)
    requires n <= |obs|
    ensures |r| == n
    decreases n
  {
    if n == 0 then []
    else
      var layers := Layers(trans, emit, obs, n - 1);
      layers + [Step(Prior(layers, n - 1), trans, emit, obs[n - 1])]
  }

  /** The whole lattice of `obs`, one layer per observation. */
  ghost function AllLayers(trans: ScoreTable, emit: ScoreTable, obs: seq<string>): (r: seq<Layer>)
    requires Covers(trans, emit)
    ensures |r| == |obs|
  {
    Layers(trans, emit, obs, |obs|)
  }

  /** Every layer is the `Step` from the scores of the layer before it. */
  lemma {:induction false} LayerIsStep(trans: ScoreTable, emit: ScoreTable, obs: seq<string>, n: nat, k: nat)
    requires Covers(trans, emit)
    requires k < n <= |obs|
    ensures Layers(trans, emit, obs, n)[k] == Step(Prior(Layers(trans, emit, obs, n), k), trans, emit, obs[k])
    decreases n
  {
    var layers := Layers(trans, emit, obs, n);
    var prefix := Layers(trans, emit, obs, n - 1);
    assert layers == prefix + [Step(Prior(prefix, n - 1), trans, emit, obs[n - 1])];
    assert Prior(layers, k) == Prior(prefix, k) by {
      if k > 0 {
        assert layers[k - 1] == prefix[k - 1];
      }
    }
    if k < n - 1 {
      LayerIsStep(trans, emit, obs, n - 1, k);
      assert layers[k] == prefix[k];
    }
  }

  /** `s` is a state reached before layer `k`: the start state before the first layer. */
  ghost predicate Before(layers: seq<Layer>, k: nat, s: string)
    requires k <= |layers|
  {
    if k == 0 then s == Start else s in layers[k - 1]
  }

  /** The score of a state reached before layer `k`. */
  function PriorScore(layers: seq<Layer>, k: nat, s: string): real
    requires k <= |layers|
    requires k == 0 || s in layers[k - 1]
  {
    if k == 0 then 0.0 else layers[k - 1][s].score
  }

  /** The scores before layer `k` hold exactly the states reached before it, with their scores. */
  lemma PriorIsBefore(layers: seq<Layer>, k: nat, s: string)
    requires k <= |layers|
    ensures s in Prior(layers, k) <==> Before(layers, k, s)
    ensures s in Prior(layers, k) ==> Prior(layers, k)[s] == PriorScore(layers, k, s)
  {
  }

  /** Every cell names a predecessor reached before its layer. */
  ghost predicate Chained(layers: seq<Layer>)
  {
    forall k, t {:trigger layers[k][t].pred} :: 0 <= k < |layers| && t in layers[k] ==> Before(layers, k, layers[k][t].pred)
  }

  /** Every cell holds the score of its predecessor along a recorded transition, plus the emission score. */
  ghost predicate Linked(trans: ScoreTable, emit: ScoreTable, obs: seq<string>, layers: seq<Layer>)
    requires Covers(trans, emit)
  {
    && |layers| <= |obs|
    && Chained(layers)
    && forall k, t {:trigger layers[k][t].pred} :: 0 <= k < |layers| && t in layers[k] ==>
      var p := layers[k][t].pred;
      && Before(layers, k, p) && p in trans && t in trans[p]
      && layers[k][t].score == PriorScore(layers, k, p) + trans[p][t] + Emission(emit, t, obs[k])
  }

  /** Every recorded transition out of a state reached before layer `k` reaches a cell of layer `k` at least as good as its own score. */
  ghost predicate Complete(trans: ScoreTable, emit: ScoreTable, obs: seq<string>, layers: seq<Layer>)
    requires Covers(trans, emit)
  {
    && |layers| <= |obs|
    && forall k, s, t {:trigger Before(layers, k, s), trans[s][t]} :: 0 <= k < |layers| && Before(layers, k, s) && s in trans && t in trans[s] ==>
      t in layers[k] && PriorScore(layers, k, s) + trans[s][t] + Emission(emit, t, obs[k]) <= layers[k][t].score
  }

  /** A cell of the decoder's lattice is linked to its predecessor. */
  lemma LatticeLinkedAt(trans: ScoreTable, emit: ScoreTable, obs: seq<string>, k: nat, t: string)
    requires Covers(trans, emit)
    requires k < |obs| && t in AllLayers(trans, emit, obs)[k]
    ensures var layers := AllLayers(trans, emit, obs);
      var p := layers[k][t].pred;
      && Before(layers, k, p) && p in trans && t in trans[p]
      && layers[k][t].score == PriorScore(layers, k, p) + trans[p][t] + Emission(emit, t, obs[k])
  {
    var layers := AllLayers(trans, emit, obs);
    LayerIsStep(trans, emit, obs, |obs|, k);
    PredInFrontier(Prior(layers, k), trans, emit, obs[k], t);
    PriorIsBefore(layers, k, layers[k][t].pred);
  }

  /** A recorded transition out of a state reached before a layer of the decoder's lattice reaches a cell at least as good. */
  lemma LatticeCompleteAt(trans: ScoreTable, emit: ScoreTable, obs: seq<string>, k: nat, s: string, t: string)
    requires Covers(trans, emit)
    requires k < |obs| && Before(AllLayers(trans, emit, obs), k, s) && s in trans && t in trans[s]
    ensures var layers := AllLayers(trans, emit, obs);
      t in layers[k] && PriorScore(layers, k, s) + trans[s][t] + Emission(emit, t, obs[k]) <= layers[k][t].score
  {
    var layers := AllLayers(trans, emit, obs);
    var frontier := Prior(layers, k);
    LayerIsStep(trans, emit, obs, |obs|, k);
    PriorIsBefore(layers, k, s);
    var order := Sorted(frontier.Keys);
    SortedCovers(frontier.Keys, s);
    var i :| 0 <= i < |order| && order[i] == s;
    StepFromBound(frontier, order, trans, emit, obs[k], i, t);
  }

  /** The lattice of the decoder is linked. */
  lemma LatticeLinked(trans: ScoreTable, emit: ScoreTable, obs: seq<string>)
    requires Covers(trans, emit)
    ensures Linked(trans, emit, obs, AllLayers(trans, emit, obs))
  {
    var layers: seq<Layer> := AllLayers(trans, emit, obs);
    forall k: nat, t: string {:trigger layers[k][t].pred} | k < |layers| && t in layers[k]
      ensures var p := layers[k][t].pred;
        && Before(layers, k, p) && p in trans && t in trans[p]
        && layers[k][t].score == PriorScore(layers, k, p) + trans[p][t] + Emission(emit, t, obs[k])
    {
      LatticeLinkedAt(trans, emit, obs, k, t);
    }
  }

  /** The lattice of the decoder is complete. */
  lemma LatticeComplete(trans: ScoreTable, emit: ScoreTable, obs: seq<string>)
    requires Covers(trans, emit)
    ensures Complete(trans, emit, obs, AllLayers(trans, emit, obs))
  {
    var layers: seq<Layer> := AllLayers(trans, emit, obs);
    forall k: nat, s: string, t: string {:trigger Before(layers, k, s), trans[s][t]} | k < |layers| && Before(layers, k, s) && s in trans && t in trans[s]
      ensures t in layers[k] && PriorScore(layers, k, s) + trans[s][t] + Emission(emit, t, obs[k]) <= layers[k][t].score
    {
      LatticeCompleteAt(trans, emit, obs, k, s, t);
    }
  }

  /**
   * Among the frontier states whose candidate ties with a cell's score, the
   * cell's predecessor is the lexicographically least.
   */
  lemma PredIsLeastMaximiser(frontier: map<string, real>, trans: ScoreTable, emit: ScoreTable, w: string, s: string, t: string)
    requires Covers(trans, emit)
    requires s in frontier && s in trans && t in trans[s]
    requires t in Step(frontier, trans, emit, w)
    requires Candidate(frontier, trans, emit, w, s, t) == Step(frontier, trans, emit, w)[t].score
    ensures LexLe(Step(frontier, trans, emit, w)[t].pred, s)
  {
    var order := Sorted(frontier.Keys);
    SortedCovers(frontier.Keys, s);
    var i :| 0 <= i < |order| && order[i] == s;
    StepFromFirst(frontier, order, trans, emit, w, i, t);
    var j :| 0 <= j <= i && order[j] == Step(frontier, trans, emit, w)[t].pred;
    if j < i {
      SortedAscending(frontier.Keys, j, i);
    } else {
      LexLeReflexive(s);
    }
  }

  /** The state a path ends in, the start state for the empty path. */
  function LastState(q: seq<string>): string
  {
    if q == [] then Start else q[|q| - 1]
  }

  /** Every step of `q`, starting from the start state, follows a recorded transition. */
  ghost predicate ValidPath(trans: ScoreTable, q: seq<string>)
    decreases |q|
  {
    q == [] ||
      var n := |q| - 1;
      && ValidPath(trans, q[..n])
      && LastState(q[..n]) in trans && q[n] in trans[LastState(q[..n])]
  }

  /** The score of a path over the first `|q|` observations: transition plus emission score of every step. */
  ghost function PathScore(trans: ScoreTable, emit: ScoreTable, obs: seq<string>, q: seq<string>): real
    requires Covers(trans, emit)
    requires ValidPath(trans, q) && |q| <= |obs|
    decreases |q|
  {
    if q == [] then 0.0
    else
      var n := |q| - 1;
      PathScore(trans, emit, obs, q[..n]) + trans[LastState(q[..n])][q[n]] + Emission(emit, q[n], obs[n])
  }

  /** Extending a valid path along a recorded transition adds that transition's and the emission's score. */
  lemma PathScoreSnoc(trans: ScoreTable, emit: ScoreTable, obs: seq<string>, q: seq<string>, t: string)
    requires Covers(trans, emit)
    requires ValidPath(trans, q) && |q| < |obs|
    requires LastState(q) in trans && t in trans[LastState(q)]
    ensures ValidPath(trans, q + [t])
    ensures PathScore(trans, emit, obs, q + [t]) == PathScore(trans, emit, obs, q) + trans[LastState(q)][t] + Emission(emit, t, obs[|q|])
  {
    assert (q + [t])[..|q|] == q;
  }

  /**
   * In a complete lattice, every valid path over the first `|q|`
   * observations ends in a state reached before layer `|q|`, scoring at
   * most that state's score.
   */
  lemma {:induction false} PathBound(trans: ScoreTable, emit: ScoreTable, obs: seq<string>, layers: seq<Layer>, q: seq<string>)
    requires Covers(trans, emit)
    requires Complete(trans, emit, obs, layers)
    requires ValidPath(trans, q) && |q| <= |layers|
    ensures Before(layers, |q|, LastState(q))
    ensures PathScore(trans, emit, obs, q) <= PriorScore(layers, |q|, LastState(q))
    decreases |q|
  {
    if q != [] {
      var n := |q| - 1;
      PathBound(trans, emit, obs, layers, q[..n]);
      var s, t := LastState(q[..n]), q[n];
      assert s in trans && t in trans[s];
      assert t in layers[n] && PriorScore(layers, n, s) + trans[s][t] + Emission(emit, t, obs[n]) <= layers[n][t].score;
    }
  }

  /** The state before `t` in layer `k`: its cell's predecessor, the start state if it has no cell. */
  function PredOf(layer: Layer, t: string): string
  {
    if t in layer then layer[t].pred else Start
  }

  /** The path recovered by following predecessors back from state `t` of layer `k`. */
  function Backtrace(layers: seq<Layer>, k: nat, t: string): (r: seq<string>)
    requires k < |layers|
    ensures |r| == k + 1 && r[k] == t
    decreases k
  {
    if k == 0 then [t]
    else Backtrace(layers, k - 1, PredOf(layers[k], t)) + [t]
  }

  /**
   * In a linked lattice, the backtrace from a cell is a valid path ending in
   * that cell's state, and its score is the cell's.
   */
  lemma {:induction false} BacktraceFacts(trans: ScoreTable, emit: ScoreTable, obs: seq<string>, layers: seq<Layer>, k: nat, t: string)
    requires Covers(trans, emit)
    requires Linked(trans, emit, obs, layers)
    requires k < |layers| && t in layers[k]
    ensures ValidPath(trans, Backtrace(layers, k, t))
    ensures PathScore(trans, emit, obs, Backtrace(layers, k, t)) == layers[k][t].score
    decreases k
  {
    var q := Backtrace(layers, k, t);
    var p := layers[k][t].pred;
    assert Before(layers, k, p) && p in trans && t in trans[p];
    assert layers[k][t].score == PriorScore(layers, k, p) + trans[p][t] + Emission(emit, t, obs[k]);
    if k == 0 {
      assert q == [t] && q[..0] == [] && LastState(q[..0]) == p;
      assert ValidPath(trans, q[..0]);
      assert PathScore(trans, emit, obs, q) == 0.0 + trans[p][t] + Emission(emit, t, obs[0]);
      assert PathScore(trans, emit, obs, q) == layers[k][t].score;
    } else {
      assert PredOf(layers[k], t) == p;
      BacktraceFacts(trans, emit, obs, layers, k - 1, p);
      var q' := Backtrace(layers, k - 1, p);
      assert q == q' + [t];
      assert LastState(q') == p;
      PathScoreSnoc(trans, emit, obs, q', t);
      assert |q'| == k;
      assert PathScore(trans, emit, obs, q') == PriorScore(layers, k, p);
    }
  }

  /** Each state of a backtrace has a cell in its layer, and the state before it is that cell's predecessor. */
  lemma {:induction false} BacktraceChain(layers: seq<Layer>, k: nat, t: string, m: nat)
    requires Chained(layers)
    requires k < |layers| && t in layers[k]
    requires 1 <= m <= k
    ensures var q := Backtrace(layers, k, t);
      q[m] in layers[m] && q[m - 1] == layers[m][q[m]].pred
    decreases k
  {
    var p := PredOf(layers[k], t);
    var q' := Backtrace(layers, k - 1, p);
    var q := Backtrace(layers, k, t);
    assert q == q' + [t];
    if m < k {
      BacktraceChain(layers, k - 1, p, m);
      assert q[m] == q'[m] && q[m - 1] == q'[m - 1];
    } else {
      assert q[k - 1] == q'[k - 1] == p;
    }
  }

  /** The scores of the last layer; the start state alone for no observations. */
  ghost function FinalScores(trans: ScoreTable, emit: ScoreTable, obs: seq<string>): map<string, real>
    requires Covers(trans, emit)
  {
    Prior(AllLayers(trans, emit, obs), |obs|)
  }

  /**
   * The tag sequence decoded for `obs`: the backtrace from the best final
   * state, the start state alone for no observations, none when no state
   * survives to the last observation.
   */
  ghost function Decode(trans: ScoreTable, emit: ScoreTable, obs: seq<string>): Option<seq<string>>
    requires Covers(trans, emit)
  {
    if obs == [] then Some([Start])
    else
      match Best(FinalScores(trans, emit, obs))
      case None => None
      case Some(b) => Some(Backtrace(AllLayers(trans, emit, obs), |obs| - 1, b))
  }

  /**
   * A decoded path tags every observation, follows recorded transitions from
   * the start state, and scores what its final state scores.
   */
  lemma DecodeIsPath(trans: ScoreTable, emit: ScoreTable, obs: seq<string>)
    requires Covers(trans, emit)
    requires obs != [] && Decode(trans, emit, obs).Some?
    ensures var q := Decode(trans, emit, obs).value;
      && |q| == |obs| && ValidPath(trans, q)
      && LastState(q) == Best(FinalScores(trans, emit, obs)).value
      && LastState(q) in FinalScores(trans, emit, obs)
      && PathScore(trans, emit, obs, q) == FinalScores(trans, emit, obs)[LastState(q)]
  {
    var layers: seq<Layer> := AllLayers(trans, emit, obs);
    LatticeLinked(trans, emit, obs);
    var b := Best(FinalScores(trans, emit, obs)).value;
    PriorIsBefore(layers, |obs|, b);
    BacktraceFacts(trans, emit, obs, layers, |obs| - 1, b);
  }

  /** Every valid path over all the observations ends in a final state and scores at most that state's final score. */
  lemma FinalBound(trans: ScoreTable, emit: ScoreTable, obs: seq<string>, q: seq<string>)
    requires Covers(trans, emit)
    requires |q| == |obs| && ValidPath(trans, q)
    ensures LastState(q) in FinalScores(trans, emit, obs)
    ensures PathScore(trans, emit, obs, q) <= FinalScores(trans, emit, obs)[LastState(q)]
  {
    var layers: seq<Layer> := AllLayers(trans, emit, obs);
    LatticeComplete(trans, emit, obs);
    PathBound(trans, emit, obs, layers, q);
    PriorIsBefore(layers, |obs|, LastState(q));
  }

  /** No valid path over all the observations scores more than the decoded one. */
  lemma DecodeIsOptimal(trans: ScoreTable, emit: ScoreTable, obs: seq<string>, q: seq<string>)
    requires Covers(trans, emit)
    requires obs != [] && Decode(trans, emit, obs).Some?
    requires |q| == |obs| && ValidPath(trans, q)
    ensures ValidPath(trans, Decode(trans, emit, obs).value)
    ensures PathScore(trans, emit, obs, q) <= PathScore(trans, emit, obs, Decode(trans, emit, obs).value)
  {
    DecodeIsPath(trans, emit, obs);
    FinalBound(trans, emit, obs, q);
    BestIsMax(FinalScores(trans, emit, obs), LastState(q));
  }

  /** Decoding fails exactly when no valid path covers all the observations. */
  lemma DecodeFailsIffNoPath(trans: ScoreTable, emit: ScoreTable, obs: seq<string>)
    requires Covers(trans, emit)
    ensures Decode(trans, emit, obs).None? <==> !exists q :: |q| == |obs| && ValidPath(trans, q)
  {
    if obs == [] {
      assert ValidPath(trans, []);
    } else if Decode(trans, emit, obs).Some? {
      DecodeIsPath(trans, emit, obs);
    } else {
      forall q | |q| == |obs| && ValidPath(trans, q) ensures false {
        FinalBound(trans, emit, obs, q);
      }
    }
  }
}
