/**
 * The backpointer keys of HMM.java as written: the state name followed by
 * the decimal digits of the position, one string. Distinct (state,
 * position) pairs can share such a key; the decoder in module Tagger keys
 * its backpointers by the pair instead.
 */
module Keys {

  /** The decimal digit character of `d`. */
  function Digit(d: nat): (c: char)
    requires d < 10
    ensures '0' <= c <= '9'
  {
    "0123456789"[d]
  }

  /** The decimal notation of `n`, as Java's string concatenation writes an int. */
  function Decimal(n: nat): (r: string)
    ensures |r| >= 1
    ensures forall i :: 0 <= i < |r| ==> '0' <= r[i] <= '9'
    decreases n
  {
    if n < 10 then [Digit(n)] else Decimal(n / 10) + [Digit(n % 10)]
  }

  /** The key under which the original stores the backpointer of `state` at `position`. */
  function StringKey(state: string, position: nat): (r: string)
    ensures |r| > |state| && r[..|state|] == state
  {
    state + Decimal(position)
  }

  /** Two different cells that the original files under one key. */
  lemma StringKeyCollides()
    ensures ("NN1", 1) != ("NN", 11)
    ensures StringKey("NN1", 1) == StringKey("NN", 11)
  {
    assert Decimal(11) == Decimal(1) + [Digit(1)];
  }

  /**
   * Writing the backpointer of ("NN", 11) after that of ("NN1", 1), as the
   * original's forward pass does, replaces the latter: the backtrace then
   * reads the predecessor of the wrong cell at position 1.
   */
  lemma StringKeyLosesBackpointer(predAt1: string, predAt11: string)
    requires predAt1 != predAt11
    ensures var backpointers := map[StringKey("NN1", 1) := predAt1][StringKey("NN", 11) := predAt11];
      backpointers[StringKey("NN1", 1)] != predAt1
  {
    StringKeyCollides();
  }
}
