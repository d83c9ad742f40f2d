/** The keys a touch point is resolved against, as the proximity detector sees them.

    The spatial index (`getNearestKeysIndices`), the key geometry (`isInside`,
    `squaredDistanceFrom`) and the shift-dependent code table (`getCodeAtIndex`)
    are collaborators of the detector; for one touch they are summed up per
    candidate key in a `Candidate` record whose fields hold what those calls answer.
 */
module Candidates {

  /** The code of the space bar. */
  const SPACE: int := 32

  /** The "not a key" index of the keyboard view; it is never a key index. */
  const NOT_A_KEY: int := -1

  /** Bounds of a Java `int`. `Integer.MAX_VALUE` also marks an empty distance slot. */
  const INT_MIN: int := -0x8000_0000
  const INT_MAX: int := 0x7fff_ffff

  /** Capacity of the nearby-code buffer and of the distance working area. */
  const MAX_NEARBY_KEYS: nat := 36

  predicate IsInt32(x: int) {
    INT_MIN <= x <= INT_MAX
  }

  /** `x + 1` on a Java `int`: the one `int` congruent to `x + 1` modulo 2^32, which
      wraps around from `INT_MAX` to `INT_MIN`. */
  function Int32Succ(x: int): (r: int)
    requires IsInt32(x)
    ensures IsInt32(r)
    ensures (r - (x + 1)) % 0x1_0000_0000 == 0
  {
    if x == INT_MAX then INT_MIN else x + 1
  }

  /** Proximity correction settings of the detector. */
  datatype Config = Config(proximityCorrectOn: bool, thresholdSq: int)

  /** One key returned by the spatial index for the touch point: its index in the
      keyboard, whether the point hits it, its squared distance from the point, its
      primary code, and its alternate codes already resolved for the shift state. */
  datatype Candidate = Candidate(
    keyIndex: nat,
    isInside: bool,
    sqDist: int,
    primaryCode: int,
    codes: seq<int>)

  /** A squared distance is a non-negative Java `int`. */
  predicate WellFormed(c: Candidate) {
    0 <= c.sqDist <= INT_MAX
  }

  predicate AllWellFormed(cs: seq<Candidate>) {
    forall i :: 0 <= i < |cs| ==> WellFormed(cs[i])
  }

  /** The value of the local `dist` once the candidate has been examined: the
      squared distance is only computed when proximity correction is on. */
  function Dist(c: Candidate, cfg: Config): (d: int)
    ensures WellFormed(c) ==> 0 <= d <= INT_MAX
    ensures !cfg.proximityCorrectOn ==> d == 0
  {
    if cfg.proximityCorrectOn then c.sqDist else 0
  }

  /** A candidate takes part in the ranking when it is hit, or near enough with
      correction on (strictly below the threshold), and its primary code is not a
      control code. */
  predicate Qualifies(c: Candidate, cfg: Config)
    ensures Qualifies(c, cfg) ==> c.primaryCode >= SPACE
    ensures Qualifies(c, cfg) && !c.isInside ==> cfg.proximityCorrectOn && c.sqDist < cfg.thresholdSq
    ensures c.isInside && c.primaryCode >= SPACE ==> Qualifies(c, cfg)
  {
    ((cfg.proximityCorrectOn && c.sqDist < cfg.thresholdSq) || c.isInside)
    && c.primaryCode >= SPACE
  }
}
