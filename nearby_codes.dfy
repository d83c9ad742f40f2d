/** The nearby-code buffer a touch point produces: every qualifying candidate's codes
    inserted by distance, in candidate order, then the space override. */
module NearbyCodes {
  import opened Candidates
  import opened SortedInsertion

  /** The candidate's insertion window lies inside the buffer, when it qualifies. */
  predicate StepFits(b: Buffers, c: Candidate, cfg: Config) {
    Qualifies(c, cfg) ==> Fits(b.dists, Dist(c, cfg), |c.codes|)
  }

  /** What one candidate does to the buffers. */
  function Step(b: Buffers, c: Candidate, cfg: Config): (r: Buffers)
    requires Paired(b) && StepFits(b, c, cfg)
    ensures Paired(r) && |r.dists| == |b.dists|
    ensures !Qualifies(c, cfg) ==> r == b
  {
    if Qualifies(c, cfg) then Insert(b, Dist(c, cfg), c.codes) else b
  }

  /** No insertion along `cs` would make `System.arraycopy` or `Arrays.fill` throw. */
  predicate AllFit(b: Buffers, cs: seq<Candidate>, cfg: Config)
    requires Paired(b)
    decreases |cs|, 0
  {
    cs == [] ||
    (AllFit(b, cs[..|cs| - 1], cfg) && StepFits(Run(b, cs[..|cs| - 1], cfg), cs[|cs| - 1], cfg))
  }

  /** The buffers after the candidate loop has gone through `cs`, in order. */
  function Run(b: Buffers, cs: seq<Candidate>, cfg: Config): (r: Buffers)
    requires Paired(b) && AllFit(b, cs, cfg)
    ensures Paired(r) && |r.dists| == |b.dists|
    decreases |cs|, 1
  {
    if cs == [] then b else Step(Run(b, cs[..|cs| - 1], cfg), cs[|cs| - 1], cfg)
  }

  /** The flag `hasSpace` after the loop has gone through `cs`: it is raised by a
      qualifying candidate whose primary code is the space bar, and never lowered. */
  function HasSpace(cs: seq<Candidate>, cfg: Config): (r: bool)
    ensures r <==> exists i :: 0 <= i < |cs| && Qualifies(cs[i], cfg) && cs[i].primaryCode == SPACE
    decreases |cs|
  {
    if cs == [] then false
    else
      var c := cs[|cs| - 1];
      HasSpace(cs[..|cs| - 1], cfg) || (Qualifies(c, cfg) && c.primaryCode == SPACE)
  }

  /** The state the call starts from: the caller's codes and an empty distance area. */
  function Initial(codes: seq<int>): (b: Buffers)
    requires |codes| == MAX_NEARBY_KEYS
    ensures Paired(b) && b.codes == codes && Sorted(b.dists)
    ensures forall k :: 0 <= k < |b.dists| ==> b.dists[k] == INT_MAX
  {
    Buffers(codes, Sentinel(MAX_NEARBY_KEYS))
  }

  /** The buffers a call leaves behind when the caller passes a code buffer. */
  function Nearby(codes: seq<int>, cs: seq<Candidate>, cfg: Config): (r: Buffers)
    requires |codes| == MAX_NEARBY_KEYS && AllFit(Initial(codes), cs, cfg)
    ensures Paired(r) && |r.dists| == MAX_NEARBY_KEYS
    ensures r.dists == Run(Initial(codes), cs, cfg).dists
    ensures forall k :: 0 <= k < MAX_NEARBY_KEYS - 1 ==>
              r.codes[k] == Run(Initial(codes), cs, cfg).codes[k]
    ensures r.codes[MAX_NEARBY_KEYS - 1] ==
              if HasSpace(cs, cfg) then SPACE else Run(Initial(codes), cs, cfg).codes[MAX_NEARBY_KEYS - 1]
  {
    var r := Run(Initial(codes), cs, cfg);
    if HasSpace(cs, cfg) then r.(codes := r.codes[MAX_NEARBY_KEYS - 1 := SPACE]) else r
  }

  /** The total number of codes the qualifying candidates of `cs` bring. */
  function QualifyingCodeCount(cs: seq<Candidate>, cfg: Config): nat
    decreases |cs|
  {
    if cs == [] then 0
    else
      QualifyingCodeCount(cs[..|cs| - 1], cfg) +
      (if Qualifies(cs[|cs| - 1], cfg) then |cs[|cs| - 1].codes| else 0)
  }

  /** Some qualifying candidate of `cs` was at distance `d` and has `code` among its codes. */
  ghost predicate Explained(cs: seq<Candidate>, cfg: Config, d: int, code: int) {
    exists i :: 0 <= i < |cs| && Qualifies(cs[i], cfg) && Dist(cs[i], cfg) == d && code in cs[i].codes
  }

  /** Every slot of `r` is empty or explained by a qualifying candidate of `cs`. */
  ghost predicate Accounted(cs: seq<Candidate>, cfg: Config, r: Buffers)
    requires Paired(r)
  {
    forall k :: 0 <= k < |r.dists| ==>
      r.dists[k] == INT_MAX || Explained(cs, cfg, r.dists[k], r.codes[k])
  }

  /** `Accounted`, except that the last code slot may hold the space override. */
  ghost predicate AccountedOrSpace(cs: seq<Candidate>, cfg: Config, r: Buffers)
    requires Paired(r)
  {
    forall k :: 0 <= k < |r.dists| ==>
      r.dists[k] == INT_MAX ||
      Explained(cs, cfg, r.dists[k], r.codes[k]) ||
      (k == |r.dists| - 1 && HasSpace(cs, cfg) && r.codes[k] == SPACE)
  }

  /** Fitting the whole of `cs` means fitting every prefix of it. */
  lemma {:induction false} AllFitPrefix(b: Buffers, cs: seq<Candidate>, cfg: Config, i: nat)
    requires Paired(b) && AllFit(b, cs, cfg) && i <= |cs|
    ensures AllFit(b, cs[..i], cfg)
    decreases |cs|
  {
    if i < |cs| {
      var init := cs[..|cs| - 1];
      assert init[..i] == cs[..i];
      AllFitPrefix(b, init, cfg, i);
    } else {
      assert cs[..i] == cs;
    }
  }

  /** The distances stay in non-decreasing order through every insertion. */
  lemma {:induction false} RunKeepsSorted(b: Buffers, cs: seq<Candidate>, cfg: Config)
    requires Paired(b) && AllFit(b, cs, cfg) && Sorted(b.dists)
    ensures Sorted(Run(b, cs, cfg).dists)
    decreases |cs|
  {
    if cs != [] {
      var init, c := cs[..|cs| - 1], cs[|cs| - 1];
      RunKeepsSorted(b, init, cfg);
      if Qualifies(c, cfg) {
        InsertKeepsSorted(Run(b, init, cfg), Dist(c, cfg), c.codes);
      }
    }
  }

  /** A slot explained by some candidates stays explained when one more is appended. */
  lemma ExplainedExtends(init: seq<Candidate>, c: Candidate, cfg: Config, d: int, code: int)
    requires Explained(init, cfg, d, code)
    ensures Explained(init + [c], cfg, d, code)
  {
    var i :| 0 <= i < |init| && Qualifies(init[i], cfg) && Dist(init[i], cfg) == d && code in init[i].codes;
    assert (init + [c])[i] == init[i];
  }

  /** One candidate keeps every slot empty or explained. */
  lemma StepAccounted(init: seq<Candidate>, c: Candidate, cfg: Config, before: Buffers)
    requires Paired(before) && StepFits(before, c, cfg) && Accounted(init, cfg, before)
    ensures Accounted(init + [c], cfg, Step(before, c, cfg))
  {
    var cs, r := init + [c], Step(before, c, cfg);
    var d, n := Dist(c, cfg), |c.codes|;
    var j := InsertionPoint(before.dists, d);
    var inserted := Qualifies(c, cfg) && j < |before.dists|;
    forall k | 0 <= k < |r.dists| && r.dists[k] != INT_MAX
      ensures Explained(cs, cfg, r.dists[k], r.codes[k])
    {
      if inserted && j <= k < j + n {
        assert r.codes[k] == c.codes[k - j] && r.dists[k] == d;
        assert cs[|cs| - 1] == c;
      } else {
        var from := if inserted && j + n <= k then k - n else k;
        assert r.dists[k] == before.dists[from] && r.codes[k] == before.codes[from];
        ExplainedExtends(init, c, cfg, r.dists[k], r.codes[k]);
      }
    }
  }

  /** Starting from an empty distance area, every slot is either still empty or holds
      the distance of a qualifying candidate together with one of its codes. */
  lemma {:induction false} RunAccounted(b: Buffers, cs: seq<Candidate>, cfg: Config)
    requires Paired(b) && AllFit(b, cs, cfg)
    requires forall k :: 0 <= k < |b.dists| ==> b.dists[k] == INT_MAX
    ensures Accounted(cs, cfg, Run(b, cs, cfg))
    decreases |cs|
  {
    if cs != [] {
      var init, c := cs[..|cs| - 1], cs[|cs| - 1];
      RunAccounted(b, init, cfg);
      assert init + [c] == cs;
      StepAccounted(init, c, cfg, Run(b, init, cfg));
    }
  }

  /** Sufficient for `AllFit`: the qualifying candidates bring at most as many codes as
      the buffer holds. Each insertion lands within the slots already filled, since all
      later slots are still empty, so the window never runs past the end. */
  lemma {:induction false} FitWithinFilled(b: Buffers, cs: seq<Candidate>, cfg: Config, filled: nat)
    requires Paired(b) && AllWellFormed(cs)
    requires Sorted(b.dists)
    requires forall k :: 0 <= k < |b.dists| ==> b.dists[k] <= INT_MAX
    requires forall k :: filled <= k < |b.dists| ==> b.dists[k] == INT_MAX
    requires filled + QualifyingCodeCount(cs, cfg) <= |b.dists|
    ensures AllFit(b, cs, cfg)
    ensures var r := Run(b, cs, cfg).dists;
      Sorted(r) &&
      (forall k :: 0 <= k < |r| ==> r[k] <= INT_MAX) &&
      (forall k :: filled + QualifyingCodeCount(cs, cfg) <= k < |r| ==> r[k] == INT_MAX)
    decreases |cs|
  {
    if cs != [] {
      var init, c := cs[..|cs| - 1], cs[|cs| - 1];
      assert AllWellFormed(init) by {
        assert forall i :: 0 <= i < |init| ==> init[i] == cs[i];
      }
      assert WellFormed(c);
      FitWithinFilled(b, init, cfg, filled);
      var before := Run(b, init, cfg);
      var s := filled + QualifyingCodeCount(init, cfg);
      if Qualifies(c, cfg) {
        var d, n := Dist(c, cfg), |c.codes|;
        var j := InsertionPoint(before.dists, d);
        if d < INT_MAX && s < |before.dists| {
          assert before.dists[s] == INT_MAX;
        }
        assert j == |before.dists| || j + n <= |before.dists|;
        assert StepFits(before, c, cfg);
        InsertKeepsSorted(before, d, c.codes);
        InsertKeepsBound(before, d, c.codes, INT_MAX);
      }
    }
  }

  /** The buffer is large enough for every qualifying candidate's codes: no insertion
      throws. */
  lemma CodesWithinCapacityFit(codes: seq<int>, cs: seq<Candidate>, cfg: Config)
    requires |codes| == MAX_NEARBY_KEYS && AllWellFormed(cs)
    requires QualifyingCodeCount(cs, cfg) <= MAX_NEARBY_KEYS
    ensures AllFit(Initial(codes), cs, cfg)
  {
    FitWithinFilled(Initial(codes), cs, cfg, 0);
  }

  /** After a call, the distances are non-decreasing; each slot is empty (`INT_MAX`) or
      holds a qualifying candidate's distance beside one of that candidate's codes,
      except for the last slot's code when the space override fired. */
  lemma NearbyInvariant(codes: seq<int>, cs: seq<Candidate>, cfg: Config)
    requires |codes| == MAX_NEARBY_KEYS && AllFit(Initial(codes), cs, cfg)
    ensures Sorted(Nearby(codes, cs, cfg).dists)
    ensures AccountedOrSpace(cs, cfg, Nearby(codes, cs, cfg))
  {
    RunKeepsSorted(Initial(codes), cs, cfg);
    RunAccounted(Initial(codes), cs, cfg);
  }

  /** With correction off, only candidates that contain the point enter the buffer, and
      they all enter at distance 0. */
  lemma CorrectionOffOnlyHits(codes: seq<int>, cs: seq<Candidate>, cfg: Config)
    requires |codes| == MAX_NEARBY_KEYS && AllFit(Initial(codes), cs, cfg)
    requires !cfg.proximityCorrectOn
    ensures var r := Nearby(codes, cs, cfg);
      forall k :: 0 <= k < MAX_NEARBY_KEYS && r.dists[k] != INT_MAX ==>
        r.dists[k] == 0 &&
        (exists i :: 0 <= i < |cs| && cs[i].isInside &&
           (r.codes[k] in cs[i].codes || (k == MAX_NEARBY_KEYS - 1 && r.codes[k] == SPACE)))
  {
    var r := Nearby(codes, cs, cfg);
    NearbyInvariant(codes, cs, cfg);
    forall k | 0 <= k < MAX_NEARBY_KEYS && r.dists[k] != INT_MAX
      ensures r.dists[k] == 0
      ensures exists i :: 0 <= i < |cs| && cs[i].isInside &&
                (r.codes[k] in cs[i].codes || (k == MAX_NEARBY_KEYS - 1 && r.codes[k] == SPACE))
    {
      if Explained(cs, cfg, r.dists[k], r.codes[k]) {
        var i :| 0 <= i < |cs| && Qualifies(cs[i], cfg) && Dist(cs[i], cfg) == r.dists[k]
                 && r.codes[k] in cs[i].codes;
      } else {
        var run := Run(Initial(codes), cs, cfg);
        RunAccounted(Initial(codes), cs, cfg);
        assert run.dists[k] == r.dists[k];
        assert Explained(cs, cfg, run.dists[k], run.codes[k]);
        var j :| 0 <= j < |cs| && Qualifies(cs[j], cfg) && Dist(cs[j], cfg) == r.dists[k]
                 && run.codes[k] in cs[j].codes;
      }
    }
  }

  /** No qualifying candidate: the distance area is left empty. */
  lemma {:induction false} NothingQualifiesLeavesEmpty(b: Buffers, cs: seq<Candidate>, cfg: Config)
    requires Paired(b) && AllFit(b, cs, cfg)
    requires forall k :: 0 <= k < |cs| ==> !Qualifies(cs[k], cfg)
    ensures Run(b, cs, cfg) == b
    decreases |cs|
  {
    if cs != [] {
      var init := cs[..|cs| - 1];
      assert forall k :: 0 <= k < |init| ==> init[k] == cs[k];
      NothingQualifiesLeavesEmpty(b, init, cfg);
    }
  }

  /** Exactly the first `m` slots hold a distance; the rest are empty. */
  predicate FilledExactly(dists: seq<int>, m: nat) {
    forall k :: 0 <= k < |dists| ==> (dists[k] < INT_MAX <==> k < m)
  }

  /** Every qualifying candidate is strictly nearer than the empty-slot marker. */
  predicate QualifyingBelowMax(cs: seq<Candidate>, cfg: Config) {
    forall i :: 0 <= i < |cs| && Qualifies(cs[i], cfg) ==> Dist(cs[i], cfg) < INT_MAX
  }

  /** Slots `p` to `p + |c.codes|` hold `c`'s codes, in order, at `c`'s distance. */
  predicate WindowAt(r: Buffers, p: nat, c: Candidate, cfg: Config) {
    Paired(r) && p + |c.codes| <= |r.dists| &&
    forall k :: p <= k < p + |c.codes| ==> r.codes[k] == c.codes[k - p] && r.dists[k] == Dist(c, cfg)
  }

  /** `c`'s codes are in the buffer, side by side, at its distance. */
  ghost predicate Holds(r: Buffers, c: Candidate, cfg: Config) {
    exists p: nat :: WindowAt(r, p, c, cfg)
  }

  /** An insertion into a buffer whose filled slots come first fills the next `|codes|`
      slots: the new entry lands within the filled prefix or right after it. */
  lemma InsertFillsPrefix(b: Buffers, d: int, codes: seq<int>, s: nat)
    requires Paired(b) && Fits(b.dists, d, |codes|)
    requires FilledExactly(b.dists, s) && s + |codes| <= |b.dists| && d < INT_MAX
    ensures FilledExactly(Insert(b, d, codes).dists, s + |codes|)
  {
  }

  /** A key nearer than or as near as the inserted one keeps its codes where they are. */
  lemma WindowStaysBefore(b: Buffers, d: int, codes: seq<int>, c: Candidate, cfg: Config, p: nat)
    requires Paired(b) && Fits(b.dists, d, |codes|) && Sorted(b.dists)
    requires Dist(c, cfg) <= d && WindowAt(b, p, c, cfg) && |c.codes| > 0
    requires InsertionPoint(b.dists, d) < |b.dists|
    ensures WindowAt(Insert(b, d, codes), p, c, cfg)
  {
    var j, nc := InsertionPoint(b.dists, d), |c.codes|;
    // Every slot from `j` on is farther than `d`, and the key's last slot is not.
    assert b.dists[p + nc - 1] == Dist(c, cfg);
    assert forall k :: j <= k < |b.dists| ==> b.dists[j] <= b.dists[k];
    assert p + nc <= j;
  }

  /** A key farther than the inserted one has its codes moved right as a block, and they
      stay inside the buffer since they lie within the filled prefix. */
  lemma WindowMovesAfter(b: Buffers, d: int, codes: seq<int>, s: nat,
                         c: Candidate, cfg: Config, p: nat)
    requires Paired(b) && Fits(b.dists, d, |codes|)
    requires FilledExactly(b.dists, s) && s + |codes| <= |b.dists|
    requires d < Dist(c, cfg) < INT_MAX && WindowAt(b, p, c, cfg) && |c.codes| > 0
    requires InsertionPoint(b.dists, d) < |b.dists|
    ensures WindowAt(Insert(b, d, codes), p + |codes|, c, cfg)
  {
    var j, nc := InsertionPoint(b.dists, d), |c.codes|;
    assert b.dists[p] == Dist(c, cfg) && b.dists[p + nc - 1] == Dist(c, cfg);
    // Every slot before `j` is within `d`, and the key's first slot is not.
    assert forall k :: 0 <= k < j ==> b.dists[k] <= d;
    assert j <= p;
    assert p + nc <= s;
  }

  /** An insertion moves an earlier key's codes as a block, or leaves them in place,
      as long as nothing filled is pushed past the end. */
  lemma InsertKeepsWindow(b: Buffers, d: int, codes: seq<int>, s: nat,
                          c: Candidate, cfg: Config, p: nat)
    requires Paired(b) && Fits(b.dists, d, |codes|) && Sorted(b.dists)
    requires FilledExactly(b.dists, s) && s + |codes| <= |b.dists|
    requires Dist(c, cfg) < INT_MAX && WindowAt(b, p, c, cfg)
    ensures Holds(Insert(b, d, codes), c, cfg)
  {
    var r := Insert(b, d, codes);
    if |c.codes| == 0 {
      assert WindowAt(r, 0, c, cfg);
    } else if InsertionPoint(b.dists, d) == |b.dists| {
      assert WindowAt(r, p, c, cfg);
    } else if Dist(c, cfg) <= d {
      WindowStaysBefore(b, d, codes, c, cfg, p);
    } else {
      WindowMovesAfter(b, d, codes, s, c, cfg, p);
    }
  }

  /** One qualifying candidate inserted into a buffer whose filled slots come first:
      the keys already held keep their codes, and the new key's codes are added. */
  lemma InsertKeepsAll(before: Buffers, init: seq<Candidate>, c: Candidate, cfg: Config, s: nat)
    requires Paired(before) && Sorted(before.dists) && FilledExactly(before.dists, s)
    requires s + |c.codes| <= |before.dists| && Fits(before.dists, Dist(c, cfg), |c.codes|)
    requires Dist(c, cfg) < INT_MAX && QualifyingBelowMax(init, cfg)
    requires forall i :: 0 <= i < |init| && Qualifies(init[i], cfg) ==> Holds(before, init[i], cfg)
    ensures Holds(Insert(before, Dist(c, cfg), c.codes), c, cfg)
    ensures forall i :: 0 <= i < |init| && Qualifies(init[i], cfg) ==>
              Holds(Insert(before, Dist(c, cfg), c.codes), init[i], cfg)
  {
    var d := Dist(c, cfg);
    var r := Insert(before, d, c.codes);
    forall i | 0 <= i < |init| && Qualifies(init[i], cfg) ensures Holds(r, init[i], cfg) {
      var p: nat :| WindowAt(before, p, init[i], cfg);
      InsertKeepsWindow(before, d, c.codes, s, init[i], cfg, p);
    }
    var j := InsertionPoint(before.dists, d);
    if j < |before.dists| {
      assert WindowAt(r, j, c, cfg);
    } else {
      // No slot is farther than `d`, so every slot is filled.
      assert |c.codes| == 0 by {
        if |before.dists| > 0 {
          assert before.dists[|before.dists| - 1] <= d;
        }
      }
      assert WindowAt(r, 0, c, cfg);
    }
  }

  /** When the qualifying candidates bring no more codes than the empty slots left and
      are all nearer than `INT_MAX`, nothing is dropped: the filled prefix grows by
      exactly their number of codes, and each of them has its codes in the buffer at
      its distance. */
  lemma {:induction false} RunKeepsAll(b: Buffers, cs: seq<Candidate>, cfg: Config, filled: nat)
    requires Paired(b) && AllWellFormed(cs) && QualifyingBelowMax(cs, cfg)
    requires Sorted(b.dists) && FilledExactly(b.dists, filled)
    requires forall k :: 0 <= k < |b.dists| ==> b.dists[k] <= INT_MAX
    requires filled + QualifyingCodeCount(cs, cfg) <= |b.dists|
    ensures AllFit(b, cs, cfg)
    ensures FilledExactly(Run(b, cs, cfg).dists, filled + QualifyingCodeCount(cs, cfg))
    ensures forall i :: 0 <= i < |cs| && Qualifies(cs[i], cfg) ==> Holds(Run(b, cs, cfg), cs[i], cfg)
    decreases |cs|
  {
    FitWithinFilled(b, cs, cfg, filled);
    if cs != [] {
      var init, c := cs[..|cs| - 1], cs[|cs| - 1];
      assert forall i :: 0 <= i < |init| ==> init[i] == cs[i];
      assert AllWellFormed(init) && QualifyingBelowMax(init, cfg);
      FitWithinFilled(b, init, cfg, filled);
      RunKeepsAll(b, init, cfg, filled);
      var before := Run(b, init, cfg);
      var s := filled + QualifyingCodeCount(init, cfg);
      if Qualifies(c, cfg) {
        InsertFillsPrefix(before, Dist(c, cfg), c.codes, s);
        InsertKeepsAll(before, init, c, cfg, s);
      }
    }
  }

  /** Completeness of the nearby codes: when the qualifying candidates bring at most as
      many codes as the buffer holds and are all nearer than `INT_MAX`, the first
      `QualifyingCodeCount` distance slots are filled and the others empty, and every
      qualifying candidate's codes are in the buffer at its distance before the space
      override, and still after it when a slot is left over. */
  lemma NearbyKeepsAll(codes: seq<int>, cs: seq<Candidate>, cfg: Config)
    requires |codes| == MAX_NEARBY_KEYS && AllWellFormed(cs) && QualifyingBelowMax(cs, cfg)
    requires QualifyingCodeCount(cs, cfg) <= MAX_NEARBY_KEYS
    ensures AllFit(Initial(codes), cs, cfg)
    ensures FilledExactly(Nearby(codes, cs, cfg).dists, QualifyingCodeCount(cs, cfg))
    ensures forall i :: 0 <= i < |cs| && Qualifies(cs[i], cfg) ==>
              Holds(Run(Initial(codes), cs, cfg), cs[i], cfg)
    ensures QualifyingCodeCount(cs, cfg) < MAX_NEARBY_KEYS ==>
              forall i :: 0 <= i < |cs| && Qualifies(cs[i], cfg) ==>
                Holds(Nearby(codes, cs, cfg), cs[i], cfg)
  {
    RunKeepsAll(Initial(codes), cs, cfg, 0);
    var q := QualifyingCodeCount(cs, cfg);
    var run, r := Run(Initial(codes), cs, cfg), Nearby(codes, cs, cfg);
    if q < MAX_NEARBY_KEYS {
      forall i | 0 <= i < |cs| && Qualifies(cs[i], cfg) ensures Holds(r, cs[i], cfg) {
        var c := cs[i];
        var p: nat :| WindowAt(run, p, c, cfg);
        if |c.codes| > 0 {
          assert run.dists[p + |c.codes| - 1] == Dist(c, cfg);
        }
        assert WindowAt(r, p, c, cfg);
      }
    }
  }

  /** Nothing in the precondition of the call stops a qualifying key from being left
      out: with 36 codes already at distance 5, a key at distance 7 finds no slot
      farther than itself and its code is not in the buffer. */
  lemma FullBufferSkipsFartherKey(codes: seq<int>, a: Candidate, b: Candidate)
    requires |codes| == MAX_NEARBY_KEYS && 2 !in codes
    requires a == Candidate(0, true, 5, SPACE + 1, seq(MAX_NEARBY_KEYS, k => 1))
    requires b == Candidate(1, false, 7, SPACE + 1, [2])
    ensures AllFit(Initial(codes), [a, b], Config(true, 100))
    ensures Qualifies(b, Config(true, 100))
    ensures 2 !in Nearby(codes, [a, b], Config(true, 100)).codes
  {
    var cfg := Config(true, 100);
    assert [a, b][..1] == [a] && [a][..0] == [];
    var b0 := Initial(codes);
    assert InsertionPoint(b0.dists, 5) == 0;
    assert Run(b0, [], cfg) == b0 && StepFits(b0, a, cfg);
    assert AllFit(b0, [a], cfg);
    var b1 := Run(b0, [a], cfg);
    assert b1 == Insert(b0, 5, a.codes);
    assert forall k :: 0 <= k < MAX_NEARBY_KEYS ==> b1.dists[k] == 5;
    assert InsertionPoint(b1.dists, 7) == MAX_NEARBY_KEYS;
  }
}
