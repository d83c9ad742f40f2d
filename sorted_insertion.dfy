/** One bounded sorted insertion into the pair of buffers the detector fills: the
    nearby codes and, slot for slot, the squared distances they were found at. */
module SortedInsertion {
  import opened Candidates

  /** The nearby-code buffer (`allKeys`) and the distance working area (`mDistances`). */
  datatype Buffers = Buffers(codes: seq<int>, dists: seq<int>)

  predicate Paired(b: Buffers) {
    |b.codes| == |b.dists|
  }

  predicate Sorted(s: seq<int>) {
    forall x, y :: 0 <= x < y < |s| ==> s[x] <= s[y]
  }

  /** `n` copies of `v`, as `Arrays.fill` writes them. */
  function Repeat(n: nat, v: int): (r: seq<int>)
    ensures |r| == n && forall k :: 0 <= k < n ==> r[k] == v
  {
    seq(n, _ => v)
  }

  /** A distance area of `n` empty slots, as `Arrays.fill(distances, Integer.MAX_VALUE)` leaves it. */
  function Sentinel(n: nat): (r: seq<int>)
    ensures |r| == n && Sorted(r) && forall k :: 0 <= k < n ==> r[k] == INT_MAX
  {
    Repeat(n, INT_MAX)
  }

  /** The first slot whose distance is strictly greater than `d`, or `|dists|` when
      there is none: the new entry goes after every entry at distance `d` already there. */
  function InsertionPoint(dists: seq<int>, d: int): (j: nat)
    ensures j <= |dists|
    ensures forall k :: 0 <= k < j ==> dists[k] <= d
    ensures j < |dists| ==> d < dists[j]
    decreases |dists|
  {
    if dists == [] || d < dists[0] then 0 else 1 + InsertionPoint(dists[1..], d)
  }

  /** `block` written at `j` after moving `s[j..]` right by `|block|` slots; whatever
      moves past the end is dropped and the length stays the same. */
  function ShiftIn(s: seq<int>, j: nat, block: seq<int>): (r: seq<int>)
    requires j + |block| <= |s|
    ensures |r| == |s|
    ensures forall k :: 0 <= k < j ==> r[k] == s[k]
    ensures forall k :: j <= k < j + |block| ==> r[k] == block[k - j]
    ensures forall k :: j + |block| <= k < |s| ==> r[k] == s[k - |block|]
  {
    s[..j] + block + s[j..|s| - |block|]
  }

  /** The insertion window of `n` codes at distance `d` lies inside the buffer (or no
      slot is found and nothing is written). Otherwise `System.arraycopy` is given a
      negative length and throws. */
  predicate Fits(dists: seq<int>, d: int, n: nat) {
    var j := InsertionPoint(dists, d);
    j == |dists| || j + n <= |dists|
  }

  /** The insertion of a key's `codes` at distance `d`. */
  function Insert(b: Buffers, d: int, codes: seq<int>): (r: Buffers)
    requires Paired(b) && Fits(b.dists, d, |codes|)
    ensures Paired(r) && |r.dists| == |b.dists|
    ensures InsertionPoint(b.dists, d) == |b.dists| ==> r == b
    ensures var j, n := InsertionPoint(b.dists, d), |codes|;
      j < |b.dists| ==>
        (forall k :: 0 <= k < j ==> r.codes[k] == b.codes[k] && r.dists[k] == b.dists[k]) &&
        (forall k :: j <= k < j + n ==> r.codes[k] == codes[k - j] && r.dists[k] == d) &&
        (forall k :: j + n <= k < |r.dists| ==>
           r.codes[k] == b.codes[k - n] && r.dists[k] == b.dists[k - n])
  {
    var j := InsertionPoint(b.dists, d);
    if j == |b.dists| then b
    else Buffers(ShiftIn(b.codes, j, codes), ShiftIn(b.dists, j, Repeat(|codes|, d)))
  }

  /** An insertion keeps the distances in non-decreasing order. */
  lemma InsertKeepsSorted(b: Buffers, d: int, codes: seq<int>)
    requires Paired(b) && Fits(b.dists, d, |codes|) && Sorted(b.dists)
    ensures Sorted(Insert(b, d, codes).dists)
  {
  }

  /** An insertion only ever writes `d` or moves an existing entry: an upper bound on
      the distances survives it. */
  lemma InsertKeepsBound(b: Buffers, d: int, codes: seq<int>, bound: int)
    requires Paired(b) && Fits(b.dists, d, |codes|)
    requires d <= bound
    requires forall k :: 0 <= k < |b.dists| ==> b.dists[k] <= bound
    ensures var r := Insert(b, d, codes).dists; forall k :: 0 <= k < |r| ==> r[k] <= bound
  {
  }
}
