/** Which key a touch point resolves to: the last candidate that contains the point,
    else the nearest qualifying candidate, else no key. */
module KeySelection {
  import opened Candidates

  /** The locals `primaryIndex`, `closestKey` and `closestKeyDist` of the candidate loop. */
  datatype Tracker = Tracker(primaryIndex: int, closestKey: int, closestKeyDist: int)

  /** Before the loop: no key found, and the best distance so far is one more than the
      threshold, computed on a Java `int`. */
  function Start(cfg: Config): (t: Tracker)
    requires IsInt32(cfg.thresholdSq)
    ensures t.primaryIndex == NOT_A_KEY && t.closestKey == NOT_A_KEY && IsInt32(t.closestKeyDist)
    ensures cfg.thresholdSq < INT_MAX ==> t.closestKeyDist > cfg.thresholdSq
    ensures cfg.thresholdSq == INT_MAX ==> t.closestKeyDist < 0
  {
    Tracker(NOT_A_KEY, NOT_A_KEY, Int32Succ(cfg.thresholdSq))
  }

  /** What one candidate does to the locals. */
  function Track(t: Tracker, c: Candidate, cfg: Config): (r: Tracker)
    ensures r.closestKeyDist <= t.closestKeyDist
    ensures r.closestKey != t.closestKey || r.closestKeyDist != t.closestKeyDist ==>
              Qualifies(c, cfg) && r.closestKey == c.keyIndex && r.closestKeyDist == Dist(c, cfg)
    ensures Qualifies(c, cfg) && Dist(c, cfg) < t.closestKeyDist ==>
              r.closestKey == c.keyIndex && r.closestKeyDist == Dist(c, cfg)
    ensures r.primaryIndex != t.primaryIndex ==> c.isInside && r.primaryIndex == c.keyIndex
    ensures c.isInside ==> r.primaryIndex == c.keyIndex
  {
    var primaryIndex := if c.isInside then c.keyIndex else t.primaryIndex;
    if Qualifies(c, cfg) && Dist(c, cfg) < t.closestKeyDist then
      Tracker(primaryIndex, c.keyIndex, Dist(c, cfg))
    else
      t.(primaryIndex := primaryIndex)
  }

  /** `primaryIndex` is no key or that of a candidate containing the point, and
      `closestKey` is no key or that of a qualifying candidate. */
  ghost predicate Drawn(cs: seq<Candidate>, cfg: Config, t: Tracker) {
    (t.primaryIndex == NOT_A_KEY ||
     exists i :: 0 <= i < |cs| && cs[i].isInside && t.primaryIndex == cs[i].keyIndex) &&
    (t.closestKey == NOT_A_KEY ||
     exists i :: 0 <= i < |cs| && Qualifies(cs[i], cfg) && t.closestKey == cs[i].keyIndex)
  }

  /** The locals after the loop has gone through `cs`, in order. */
  function TrackAll(cs: seq<Candidate>, cfg: Config): (t: Tracker)
    requires IsInt32(cfg.thresholdSq)
    ensures t.closestKeyDist <= Start(cfg).closestKeyDist
    ensures Drawn(cs, cfg, t)
    decreases |cs|
  {
    if cs == [] then Start(cfg)
    else Track(TrackAll(cs[..|cs| - 1], cfg), cs[|cs| - 1], cfg)
  }

  /** The key index returned once a keyboard is bound. */
  function PrimaryKey(cs: seq<Candidate>, cfg: Config): (k: int)
    requires IsInt32(cfg.thresholdSq)
    ensures k == NOT_A_KEY ||
            exists i :: 0 <= i < |cs| && (cs[i].isInside || Qualifies(cs[i], cfg)) && k == cs[i].keyIndex
  {
    var t := TrackAll(cs, cfg);
    if t.primaryIndex == NOT_A_KEY then t.closestKey else t.primaryIndex
  }

  /** `cs[i]` contains the touch point and no later candidate does. */
  ghost predicate IsLastInside(cs: seq<Candidate>, i: int) {
    0 <= i < |cs| && cs[i].isInside && forall k :: i < k < |cs| ==> !cs[k].isInside
  }

  /** A candidate that can become `closestKey`: it qualifies and its distance is within
      the threshold (an inside key far away with correction on does not). */
  predicate Contender(c: Candidate, cfg: Config) {
    Qualifies(c, cfg) && Dist(c, cfg) <= cfg.thresholdSq
  }

  /** `cs[i]` is a contender at the smallest distance, and the first one at that distance. */
  ghost predicate IsFirstNearestContender(cs: seq<Candidate>, cfg: Config, i: int) {
    0 <= i < |cs| && Contender(cs[i], cfg) &&
    (forall k :: 0 <= k < |cs| && Contender(cs[k], cfg) ==> Dist(cs[i], cfg) <= Dist(cs[k], cfg)) &&
    (forall k :: 0 <= k < i && Contender(cs[k], cfg) ==> Dist(cs[i], cfg) < Dist(cs[k], cfg))
  }

  /** The same for qualifying candidates. */
  ghost predicate IsFirstClosest(cs: seq<Candidate>, cfg: Config, i: int) {
    0 <= i < |cs| && Qualifies(cs[i], cfg) &&
    (forall k :: 0 <= k < |cs| && Qualifies(cs[k], cfg) ==> Dist(cs[i], cfg) <= Dist(cs[k], cfg)) &&
    (forall k :: 0 <= k < i && Qualifies(cs[k], cfg) ==> Dist(cs[i], cfg) < Dist(cs[k], cfg))
  }

  /** `primaryIndex` stays `NOT_A_KEY` when no candidate contains the point: a
      consequence of `TrackAll` drawing it from the candidates that do. */
  lemma NoInsideKeepsNoKey(cs: seq<Candidate>, cfg: Config)
    requires IsInt32(cfg.thresholdSq)
    ensures (forall i :: 0 <= i < |cs| ==> !cs[i].isInside) ==>
              TrackAll(cs, cfg).primaryIndex == NOT_A_KEY
  {
  }

  /** `primaryIndex` ends as the index of the last candidate that contains the point,
      whatever its primary code. */
  lemma {:induction false} LastInsideWins(cs: seq<Candidate>, cfg: Config)
    requires IsInt32(cfg.thresholdSq)
    ensures forall i :: IsLastInside(cs, i) ==> TrackAll(cs, cfg).primaryIndex == cs[i].keyIndex
    decreases |cs|
  {
    if cs != [] {
      var init, c := cs[..|cs| - 1], cs[|cs| - 1];
      LastInsideWins(init, cfg);
      assert TrackAll(cs, cfg) == Track(TrackAll(init, cfg), c, cfg);
      if !c.isInside {
        assert forall i :: 0 <= i < |init| ==> init[i] == cs[i];
        forall i | IsLastInside(cs, i) ensures IsLastInside(init, i) {
        }
      }
    }
  }

  /** When some candidate contains the point, one of them is the last to do so. */
  lemma {:induction false} LastInsideExists(cs: seq<Candidate>, i: int)
    requires 0 <= i < |cs| && cs[i].isInside
    ensures exists l :: IsLastInside(cs, l)
    decreases |cs| - i
  {
    if !IsLastInside(cs, i) {
      var k :| i < k < |cs| && cs[k].isInside;
      LastInsideExists(cs, k);
    }
  }

  /** Without wrap-around of `threshold + 1`, `closestKey` stays `NOT_A_KEY` and the
      best distance stays `threshold + 1` when there is no contender. */
  lemma {:induction false} NoContenderNoClosest(cs: seq<Candidate>, cfg: Config)
    requires IsInt32(cfg.thresholdSq) && cfg.thresholdSq < INT_MAX
    ensures (forall k :: 0 <= k < |cs| ==> !Contender(cs[k], cfg)) ==>
              TrackAll(cs, cfg).closestKey == NOT_A_KEY &&
              TrackAll(cs, cfg).closestKeyDist == cfg.thresholdSq + 1
    decreases |cs|
  {
    if cs != [] {
      var init := cs[..|cs| - 1];
      NoContenderNoClosest(init, cfg);
      assert forall i :: 0 <= i < |init| ==> init[i] == cs[i];
    }
  }

  /** A contender strictly nearer than the best so far becomes the first nearest. */
  lemma NewcomerNearest(cs: seq<Candidate>, cfg: Config, i: int)
    requires |cs| > 0 && IsFirstNearestContender(cs[..|cs| - 1], cfg, i)
    requires Contender(cs[|cs| - 1], cfg) && Dist(cs[|cs| - 1], cfg) < Dist(cs[i], cfg)
    ensures IsFirstNearestContender(cs, cfg, |cs| - 1)
  {
    assert forall k :: 0 <= k < |cs| - 1 ==> cs[..|cs| - 1][k] == cs[k];
  }

  /** Otherwise the first nearest so far stays the first nearest. */
  lemma IncumbentNearest(cs: seq<Candidate>, cfg: Config, i: int)
    requires |cs| > 0 && IsFirstNearestContender(cs[..|cs| - 1], cfg, i)
    requires !(Contender(cs[|cs| - 1], cfg) && Dist(cs[|cs| - 1], cfg) < Dist(cs[i], cfg))
    ensures IsFirstNearestContender(cs, cfg, i)
  {
    assert forall k :: 0 <= k < |cs| - 1 ==> cs[..|cs| - 1][k] == cs[k];
  }

  /** The best so far after `cs` once one more candidate is tracked, when `cs` already
      had a contender: the newcomer takes over only when strictly nearer. */
  lemma NearestAfterContender(cs: seq<Candidate>, cfg: Config, i: int)
    requires IsInt32(cfg.thresholdSq) && |cs| > 0
    requires IsFirstNearestContender(cs[..|cs| - 1], cfg, i)
    requires TrackAll(cs[..|cs| - 1], cfg).closestKey == cs[i].keyIndex
    requires TrackAll(cs[..|cs| - 1], cfg).closestKeyDist == Dist(cs[i], cfg)
    ensures exists l :: IsFirstNearestContender(cs, cfg, l) &&
              TrackAll(cs, cfg).closestKey == cs[l].keyIndex &&
              TrackAll(cs, cfg).closestKeyDist == Dist(cs[l], cfg)
  {
    var c, last := cs[|cs| - 1], |cs| - 1;
    assert TrackAll(cs, cfg) == Track(TrackAll(cs[..last], cfg), c, cfg);
    if Contender(c, cfg) && Dist(c, cfg) < Dist(cs[i], cfg) {
      NewcomerNearest(cs, cfg, i);
    } else {
      IncumbentNearest(cs, cfg, i);
    }
  }

  /** The same when `cs` had no contender yet and the newcomer is one: it is taken. */
  lemma NearestAfterNone(cs: seq<Candidate>, cfg: Config)
    requires IsInt32(cfg.thresholdSq) && cfg.thresholdSq < INT_MAX && |cs| > 0
    requires forall k :: 0 <= k < |cs| - 1 ==> !Contender(cs[k], cfg)
    requires Contender(cs[|cs| - 1], cfg)
    requires TrackAll(cs[..|cs| - 1], cfg).closestKeyDist == cfg.thresholdSq + 1
    ensures IsFirstNearestContender(cs, cfg, |cs| - 1)
    ensures TrackAll(cs, cfg).closestKey == cs[|cs| - 1].keyIndex
    ensures TrackAll(cs, cfg).closestKeyDist == Dist(cs[|cs| - 1], cfg)
  {
    assert TrackAll(cs, cfg) == Track(TrackAll(cs[..|cs| - 1], cfg), cs[|cs| - 1], cfg);
  }

  /** Without wrap-around of `threshold + 1`, `closestKey` ends as the first contender
      at the smallest distance, when there is one. */
  lemma {:induction false} ClosestIsFirstNearest(cs: seq<Candidate>, cfg: Config)
    requires IsInt32(cfg.thresholdSq) && cfg.thresholdSq < INT_MAX
    ensures (exists k :: 0 <= k < |cs| && Contender(cs[k], cfg)) ==>
              exists i :: IsFirstNearestContender(cs, cfg, i) &&
                TrackAll(cs, cfg).closestKey == cs[i].keyIndex &&
                TrackAll(cs, cfg).closestKeyDist == Dist(cs[i], cfg)
    decreases |cs|
  {
    if cs != [] {
      var init, c := cs[..|cs| - 1], cs[|cs| - 1];
      ClosestIsFirstNearest(init, cfg);
      NoContenderNoClosest(init, cfg);
      assert forall i :: 0 <= i < |init| ==> init[i] == cs[i];
      if exists k :: 0 <= k < |init| && Contender(init[k], cfg) {
        var i :| IsFirstNearestContender(init, cfg, i) &&
                 TrackAll(init, cfg).closestKey == init[i].keyIndex &&
                 TrackAll(init, cfg).closestKeyDist == Dist(init[i], cfg);
        NearestAfterContender(cs, cfg, i);
      } else if Contender(c, cfg) {
        NearestAfterNone(cs, cfg);
      }
    }
  }

  /** Which key is returned, when `threshold + 1` does not wrap around: the last
      candidate containing the point; otherwise the first qualifying candidate at the
      smallest distance; otherwise `NOT_A_KEY`. */
  lemma PrimaryKeySelection(cs: seq<Candidate>, cfg: Config)
    requires IsInt32(cfg.thresholdSq) && cfg.thresholdSq < INT_MAX
    ensures (exists i :: 0 <= i < |cs| && cs[i].isInside) ==>
              exists i :: IsLastInside(cs, i) && PrimaryKey(cs, cfg) == cs[i].keyIndex
    ensures (forall k :: 0 <= k < |cs| ==> !cs[k].isInside) &&
            (exists k :: 0 <= k < |cs| && Qualifies(cs[k], cfg)) ==>
              exists i :: IsFirstClosest(cs, cfg, i) && PrimaryKey(cs, cfg) == cs[i].keyIndex
    ensures (forall k :: 0 <= k < |cs| ==> !cs[k].isInside && !Qualifies(cs[k], cfg)) ==>
              PrimaryKey(cs, cfg) == NOT_A_KEY
  {
    NoInsideKeepsNoKey(cs, cfg);
    LastInsideWins(cs, cfg);
    NoContenderNoClosest(cs, cfg);
    ClosestIsFirstNearest(cs, cfg);
    if exists i :: 0 <= i < |cs| && cs[i].isInside {
      var i :| 0 <= i < |cs| && cs[i].isInside;
      LastInsideExists(cs, i);
    }
    if forall k :: 0 <= k < |cs| ==> !cs[k].isInside {
      // Without a hit, qualifying means being strictly nearer than the threshold.
      assert forall k :: 0 <= k < |cs| ==> (Contender(cs[k], cfg) <==> Qualifies(cs[k], cfg));
      if exists k :: 0 <= k < |cs| && Qualifies(cs[k], cfg) {
        var i :| IsFirstNearestContender(cs, cfg, i) && TrackAll(cs, cfg).closestKey == cs[i].keyIndex;
        assert IsFirstClosest(cs, cfg, i);
      }
    }
  }

  /** When the threshold is `INT_MAX`, `threshold + 1` wraps to `INT_MIN` and no
      candidate is ever taken as `closestKey`: without a hit, the result is `NOT_A_KEY`
      even if candidates qualify by proximity. */
  lemma {:induction false} SaturatedThresholdPicksNoClosest(cs: seq<Candidate>, cfg: Config)
    requires cfg.thresholdSq == INT_MAX && AllWellFormed(cs)
    ensures TrackAll(cs, cfg).closestKey == NOT_A_KEY
    ensures TrackAll(cs, cfg).closestKeyDist == INT_MIN
    ensures (forall k :: 0 <= k < |cs| ==> !cs[k].isInside) ==> PrimaryKey(cs, cfg) == NOT_A_KEY
    decreases |cs|
  {
    NoInsideKeepsNoKey(cs, cfg);
    if cs != [] {
      var init := cs[..|cs| - 1];
      assert AllWellFormed(init) by {
        assert forall i :: 0 <= i < |init| ==> init[i] == cs[i];
      }
      SaturatedThresholdPicksNoClosest(init, cfg);
      assert WellFormed(cs[|cs| - 1]);
    }
  }

  /** With correction off, only a candidate that contains the point can be returned:
      a miss gives `NOT_A_KEY` however close a key is. */
  lemma CorrectionOffNeedsHit(cs: seq<Candidate>, cfg: Config)
    requires IsInt32(cfg.thresholdSq) && AllWellFormed(cs)
    requires !cfg.proximityCorrectOn
    requires forall k :: 0 <= k < |cs| ==> !cs[k].isInside
    ensures PrimaryKey(cs, cfg) == NOT_A_KEY
  {
    if cfg.thresholdSq == INT_MAX {
      SaturatedThresholdPicksNoClosest(cs, cfg);
    } else {
      PrimaryKeySelection(cs, cfg);
    }
  }

  /** Threshold 100: a miss at squared distance 99 qualifies, one at exactly 100 does
      not, so the first is returned. */
  lemma ThresholdIsStrict(a: Candidate, b: Candidate)
    requires a.keyIndex != b.keyIndex
    requires !a.isInside && !b.isInside && a.primaryCode >= SPACE && b.primaryCode >= SPACE
    requires a.sqDist == 99 && b.sqDist == 100
    ensures !Qualifies(b, Config(true, 100))
    ensures PrimaryKey([a, b], Config(true, 100)) == a.keyIndex
    ensures PrimaryKey([b, a], Config(true, 100)) == a.keyIndex
  {
    var cfg := Config(true, 100);
    assert [a, b][..1] == [a] && [b, a][..1] == [b];
    assert [a][..0] == [] && [b][..0] == [];
    assert TrackAll([a], cfg) == Tracker(NOT_A_KEY, a.keyIndex, 99);
    assert TrackAll([b], cfg) == Tracker(NOT_A_KEY, NOT_A_KEY, 101);
  }

  /** Two overlapping keys both containing the point: the later one is returned. */
  lemma OverlappingKeysLastWins(k1: Candidate, k2: Candidate, cfg: Config)
    requires IsInt32(cfg.thresholdSq)
    requires k1.isInside && k2.isInside
    ensures PrimaryKey([k1, k2], cfg) == k2.keyIndex
  {
  }
}
