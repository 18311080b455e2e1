/**
 * The probability tables derived from the count tables (HMM.java,
 * logProbability): every count becomes ln(count) - ln(total of its source).
 * The natural logarithm is a parameter `ln`; nothing here depends on
 * floating point.
 */
module Probabilities {
  import opened Counting

  /** Nested log-probabilities, keyed like the count tables they come from. */
  type ScoreTable = map<string, map<string, real>>

  /** `ln` never decreases on the positive reals, as the natural logarithm does not. */
  ghost predicate Monotone(ln: real -> real)
  {
    forall a: real, b: real :: 0.0 < a <= b ==> ln(a) <= ln(b)
  }

  /** One row of log-probabilities: ln(count) - ln(total) for every counted destination. */
  function LogRow(row: map<string, nat>, total: nat, ln: real -> real): map<string, real>
  {
    map t | t in row :: ln(row[t] as real) - ln(total as real)
  }

  /** The table of ln(count) - ln(total) for every counted pair. */
  function LogTable(c: Counts, ln: real -> real): ScoreTable
    requires c.rows.Keys <= c.totals.Keys
  {
    map s | s in c.rows :: LogRow(c.rows[s], c.totals[s], ln)
  }

  /** The existing row of `s`, empty when there is none. */
  function RowOf(table: ScoreTable, s: string): map<string, real>
  {
    if s in table then table[s] else map[]
  }

  /**
   * The original writes into tables that may already hold entries: each
   * derived row is merged into the existing row of its source, derived
   * entries replacing existing ones.
   */
  function Overlay(prior: ScoreTable, derived: ScoreTable): ScoreTable
  {
    map s | s in prior.Keys + derived.Keys ::
      if s in derived then RowOf(prior, s) + derived[s] else prior[s]
  }

  /**
   * Writes the log-probabilities of one source's counts into that source's
   * nested row, entry by entry (the nested map is updated in place in the
   * original; a row that does not exist yet starts empty).
   */
  method FillRow(probMap: map<string, real>, row: map<string, nat>, totalValue: nat, ln: real -> real)
    returns (filled: map<string, real>)
    ensures filled == probMap + LogRow(row, totalValue, ln)
  {
    ghost var derived := LogRow(row, totalValue, ln);
    filled := probMap;
    var rest := row.Keys;
    while rest != {}
      invariant rest <= row.Keys
      invariant forall t :: t in filled <==> t in probMap || t in row.Keys - rest
      invariant forall t :: t in row.Keys - rest ==> filled[t] == derived[t]
      invariant forall t :: t in probMap && t !in row.Keys - rest ==> filled[t] == probMap[t]
      decreases rest
    {
      var nextState :| nextState in rest;
      var value := row[nextState];
      filled := filled[nextState := ln(value as real) - ln(totalValue as real)];
      rest := rest - {nextState};
    }
    forall t | t in filled ensures filled[t] == (probMap + derived)[t] {
    }
    assert filled.Keys == (probMap + derived).Keys;
  }

  lemma SameEntries(a: ScoreTable, b: ScoreTable)
    requires a.Keys == b.Keys
    requires forall s :: s in a ==> a[s] == b[s]
    ensures a == b
  {
  }

  /**
   * Builds the log-probability table of one count table, source by source,
   * merging into `prior`.
   */
  method FillLogTable(counts: map<string, map<string, nat>>, totals: map<string, nat>, prior: ScoreTable, ln: real -> real)
    returns (probs: ScoreTable)
    requires counts.Keys <= totals.Keys
    ensures probs == Overlay(prior, LogTable(Counts(counts, totals), ln))
  {
    probs := prior;
    var pending := counts.Keys;
    while pending != {}
      invariant Filling(counts, totals, prior, ln, probs, pending)
      decreases pending
    {
      var currState :| currState in pending;
      assert RowOf(probs, currState) == RowOf(prior, currState);
      var probMap := FillRow(RowOf(probs, currState), counts[currState], totals[currState], ln);
      FillingStep(counts, totals, prior, ln, probs, pending, currState);
      probs := probs[currState := probMap];
      pending := pending - {currState};
    }
    OverlayLogTableEntries(prior, Counts(counts, totals), ln, probs);
  }

  /**
   * The table part-way through FillLogTable: the sources no longer pending
   * hold their merged rows, every other source its prior row.
   */
  ghost predicate Filling(
    counts: map<string, map<string, nat>>, totals: map<string, nat>, prior: ScoreTable, ln: real -> real,
    probs: ScoreTable, pending: set<string>)
  {
    && counts.Keys <= totals.Keys
    && pending <= counts.Keys
    && probs.Keys == prior.Keys + (counts.Keys - pending)
    && (forall s :: s in counts && s !in pending ==> probs[s] == RowOf(prior, s) + LogRow(counts[s], totals[s], ln))
    && (forall s :: s in prior && (s !in counts || s in pending) ==> probs[s] == prior[s])
  }

  /** Merging the row of one pending source keeps the table part-way filled. */
  lemma FillingStep(
    counts: map<string, map<string, nat>>, totals: map<string, nat>, prior: ScoreTable, ln: real -> real,
    probs: ScoreTable, pending: set<string>, s: string)
    requires Filling(counts, totals, prior, ln, probs, pending)
    requires s in pending
    ensures Filling(counts, totals, prior, ln,
                    probs[s := RowOf(prior, s) + LogRow(counts[s], totals[s], ln)], pending - {s})
  {
  }

  lemma OverlayLogTableEntries(prior: ScoreTable, c: Counts, ln: real -> real, probs: ScoreTable)
    requires c.rows.Keys <= c.totals.Keys
    requires probs.Keys == prior.Keys + c.rows.Keys
    requires forall s :: s in c.rows ==> probs[s] == RowOf(prior, s) + LogRow(c.rows[s], c.totals[s], ln)
    requires forall s :: s in prior && s !in c.rows ==> probs[s] == prior[s]
    ensures probs == Overlay(prior, LogTable(c, ln))
  {
    var derived := LogTable(c, ln);
    var goal := Overlay(prior, derived);
    assert probs.Keys == goal.Keys;
    forall s | s in probs ensures probs[s] == goal[s] {
      if s in c.rows {
        assert derived[s] == LogRow(c.rows[s], c.totals[s], ln);
        assert goal[s] == RowOf(prior, s) + derived[s];
      } else {
        assert goal[s] == prior[s];
      }
    }
    SameEntries(probs, goal);
  }

  /** Every derived log-probability is at most zero, since no count exceeds its total. */
  lemma LogTableNonPositive(c: Counts, ln: real -> real)
    requires Conserved(c)
    requires Monotone(ln)
    ensures forall s, t :: s in LogTable(c, ln) && t in LogTable(c, ln)[s] ==> LogTable(c, ln)[s][t] <= 0.0
  {
    forall s, t | s in c.rows && t in c.rows[s]
      ensures ln(c.rows[s][t] as real) <= ln(c.totals[s] as real)
    {
      EntryAtMostSum(c.rows[s], t);
    }
  }

  /** Every destination of a transition score has a row of emission scores. */
  ghost predicate Covers(trans: ScoreTable, emit: ScoreTable)
  {
    forall s, t :: s in trans && t in trans[s] ==> t in emit
  }

  /**
   * Deriving the tables from covered counts keeps the probability tables
   * covered; this is what the decoder's emission lookup relies on.
   */
  lemma DerivedTablesCover(
    prior: ScoreTable, priorEmit: ScoreTable, transitions: Counts, emissions: Counts, ln: real -> real)
    requires Covers(prior, priorEmit)
    requires Covered(transitions, emissions)
    requires transitions.rows.Keys <= transitions.totals.Keys && emissions.rows.Keys <= emissions.totals.Keys
    ensures Covers(Overlay(prior, LogTable(transitions, ln)), Overlay(priorEmit, LogTable(emissions, ln)))
  {
    var trans := Overlay(prior, LogTable(transitions, ln));
    var emit := Overlay(priorEmit, LogTable(emissions, ln));
    forall s, t | s in trans && t in trans[s] ensures t in emit {
      if s in prior && t in prior[s] {
        assert t in priorEmit;
      } else {
        assert s in transitions.rows && t in transitions.rows[s];
        assert t in emissions.rows;
      }
    }
  }
}
