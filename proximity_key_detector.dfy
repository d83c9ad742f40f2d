/** The detector object: its distance working area and the method that resolves a
    touch point into a key index and a nearby-code buffer, updating both arrays in place. */
module Detector {
  import opened Candidates
  import opened SortedInsertion
  import opened KeySelection
  import opened NearbyCodes

  /** `System.arraycopy(a, srcPos, a, destPos, length)` within one array: the copy
      behaves as if the source range were first copied to a temporary. */
  method ArrayCopy(a: array<int>, srcPos: nat, destPos: nat, length: nat)
    requires srcPos + length <= a.Length && destPos + length <= a.Length
    modifies a
    ensures forall m :: 0 <= m < a.Length ==>
      a[m] == if destPos <= m < destPos + length then old(a[srcPos + m - destPos]) else old(a[m])
  {
    var moved := a[srcPos..srcPos + length];
    for k := 0 to length
      invariant forall m :: 0 <= m < a.Length ==>
        a[m] == if destPos <= m < destPos + k then moved[m - destPos] else old(a[m])
    {
      a[destPos + k] := moved[k];
    }
  }

  /** `Arrays.fill(a, fromIndex, toIndex, v)`. */
  method Fill(a: array<int>, fromIndex: nat, toIndex: nat, v: int)
    requires fromIndex <= toIndex <= a.Length
    modifies a
    ensures forall m :: 0 <= m < a.Length ==>
      a[m] == if fromIndex <= m < toIndex then v else old(a[m])
  {
    for k := fromIndex to toIndex
      invariant forall m :: 0 <= m < a.Length ==>
        a[m] == if fromIndex <= m < k then v else old(a[m])
    {
      a[k] := v;
    }
  }

  /** The inner loop that writes a key's codes into `a` from slot `j` on. */
  method WriteCodes(a: array<int>, j: nat, codes: seq<int>)
    requires j + |codes| <= a.Length
    modifies a
    ensures forall m :: 0 <= m < a.Length ==>
      a[m] == if j <= m < j + |codes| then codes[m - j] else old(a[m])
  {
    for codeIndex := 0 to |codes|
      invariant forall m :: 0 <= m < a.Length ==>
        a[m] == if j <= m < j + codeIndex then codes[m - j] else old(a[m])
    {
      a[j + codeIndex] := codes[codeIndex];
    }
  }

  class ProximityKeyDetector {
    /** The working area `mDistances`, paired slot for slot with the caller's codes. */
    var distances: array<int>

    ghost predicate Valid()
      reads this
    {
      distances.Length == MAX_NEARBY_KEYS
    }

    constructor ()
      ensures Valid() && fresh(distances)
    {
      distances := new int[MAX_NEARBY_KEYS];
    }

    /** The size callers give their nearby-code buffers: that of the working area. */
    method GetMaxNearbyKeys() returns (n: nat)
      requires Valid()
      ensures n == distances.Length
    {
      n := MAX_NEARBY_KEYS;
    }

    /** Makes room for `codes` at slot `j` in both arrays and writes the codes, with
        distance `dist`, into the window. */
    method WriteWindow(allKeys: array<int>, j: nat, dist: int, codes: seq<int>)
      requires Valid() && allKeys != distances && allKeys.Length == distances.Length
      requires j + |codes| <= distances.Length
      modifies distances, allKeys
      ensures allKeys[..] == ShiftIn(old(allKeys[..]), j, codes)
      ensures distances[..] == ShiftIn(old(distances[..]), j, Repeat(|codes|, dist))
    {
      var nCodes := |codes|;
      ArrayCopy(distances, j, j + nCodes, distances.Length - j - nCodes);
      ArrayCopy(allKeys, j, j + nCodes, allKeys.Length - j - nCodes);
      WriteCodes(allKeys, j, codes);
      Fill(distances, j, j + nCodes, dist);
      assert forall m :: 0 <= m < allKeys.Length ==>
        allKeys[m] == ShiftIn(old(allKeys[..]), j, codes)[m];
      assert forall m :: 0 <= m < distances.Length ==>
        distances[m] == ShiftIn(old(distances[..]), j, Repeat(|codes|, dist))[m];
    }

    /** Inserts `codes` at distance `dist`: finds the first slot farther than `dist`,
        moves both arrays right by `|codes|` from there, and writes the codes and the
        distance into the window; without such a slot nothing changes. */
    method InsertAt(allKeys: array<int>, dist: int, codes: seq<int>)
      requires Valid() && allKeys != distances && allKeys.Length == distances.Length
      requires Fits(distances[..], dist, |codes|)
      modifies distances, allKeys
      ensures Buffers(allKeys[..], distances[..]) ==
                Insert(old(Buffers(allKeys[..], distances[..])), dist, codes)
    {
      ghost var before := Buffers(allKeys[..], distances[..]);
      var j := 0;
      while j < distances.Length
        invariant 0 <= j <= distances.Length
        invariant forall k :: 0 <= k < j ==> distances[k] <= dist
        invariant allKeys[..] == before.codes && distances[..] == before.dists
      {
        if distances[j] > dist {
          assert j == InsertionPoint(before.dists, dist);
          WriteWindow(allKeys, j, dist, codes);
          break;
        }
        j := j + 1;
      }
    }

    /** Resolves a touch point, summed up by the candidates the spatial index returned
        for it, into the index of the key pressed; when `allKeys` is given, fills it with
        the nearby codes ranked by distance. Without a bound keyboard it returns 0 and
        touches nothing. */
    method GetKeyIndexAndNearbyCodes(
      keyboardPresent: bool, cands: seq<Candidate>, cfg: Config, allKeys: array?<int>)
      returns (primary: int)
      requires Valid() && IsInt32(cfg.thresholdSq)
      requires allKeys != null ==>
        allKeys != distances && allKeys.Length == MAX_NEARBY_KEYS &&
        AllFit(Initial(allKeys[..]), cands, cfg)
      modifies distances, allKeys
      ensures !keyboardPresent ==>
        primary == 0 && distances[..] == old(distances[..]) &&
        (allKeys != null ==> allKeys[..] == old(allKeys[..]))
      ensures keyboardPresent ==> primary == PrimaryKey(cands, cfg)
      ensures keyboardPresent && allKeys == null ==> distances[..] == Sentinel(MAX_NEARBY_KEYS)
      ensures keyboardPresent && allKeys != null ==>
        Buffers(allKeys[..], distances[..]) == Nearby(old(allKeys[..]), cands, cfg)
    {
      if !keyboardPresent {
        return 0;
      }
      ghost var initial := if allKeys != null then Initial(allKeys[..]) else Initial(Sentinel(MAX_NEARBY_KEYS));
      var primaryIndex := NOT_A_KEY;
      var closestKey := NOT_A_KEY;
      var closestKeyDist := Int32Succ(cfg.thresholdSq);
      var hasSpace := false;
      Fill(distances, 0, distances.Length, INT_MAX);
      assert distances[..] == Sentinel(MAX_NEARBY_KEYS);
      for i := 0 to |cands|
        invariant Tracker(primaryIndex, closestKey, closestKeyDist) == TrackAll(cands[..i], cfg)
        invariant allKeys == null ==> distances[..] == Sentinel(MAX_NEARBY_KEYS) && !hasSpace
        invariant allKeys != null ==>
          AllFit(initial, cands[..i], cfg) &&
          Buffers(allKeys[..], distances[..]) == Run(initial, cands[..i], cfg) &&
          hasSpace == HasSpace(cands[..i], cfg)
      {
        assert cands[..i + 1][..i] == cands[..i] && cands[..i + 1][i] == cands[i];
        if allKeys != null {
          AllFitPrefix(initial, cands, cfg, i + 1);
        }
        var key := cands[i];
        var dist := 0;
        var isInside := key.isInside;
        if isInside {
          primaryIndex := key.keyIndex;
        }
        var near := false;
        if cfg.proximityCorrectOn {
          dist := key.sqDist;
          near := dist < cfg.thresholdSq;
        }
        if (near || isInside) && key.primaryCode >= SPACE {
          if dist < closestKeyDist {
            closestKeyDist := dist;
            closestKey := key.keyIndex;
          }
          if allKeys == null {
            continue;
          }
          if key.primaryCode == SPACE {
            hasSpace := true;
          }
          InsertAt(allKeys, dist, key.codes);
        }
      }
      assert cands[..|cands|] == cands;
      if primaryIndex == NOT_A_KEY {
        primaryIndex := closestKey;
      }
      if hasSpace {
        allKeys[allKeys.Length - 1] := SPACE;
      }
      return primaryIndex;
    }
  }
}
