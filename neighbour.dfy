/**
 * How `relocateVault` picks the section a relocated vault moves to: among
 * the candidate neighbours it prefers the shortest prefix, and among equally
 * short prefixes the section with the fewest vaults.
 *
 * The scan keeps a standing (the shortest length and the smallest count seen
 * so far) and considers one candidate (prefix length, vault count) at a time.
 * As the source writes it, taking a candidate for its shorter prefix records
 * the new length but leaves the count from before; the corrected step records
 * both.
 */
module NeighbourChoice {
  import opened Sections

  datatype Standing = Standing(minLen: int, minCount: int)

  /** The standing before any candidate: both bounds at `math.MaxUint32`. */
  const Unset: Standing := Standing(MaxUint32, MaxUint32)

  /** The candidate is taken: a shorter prefix, or as short a prefix and fewer vaults. */
  predicate Beats(len: int, count: int, st: Standing)
  {
    len < st.minLen || (len == st.minLen && count < st.minCount)
  }

  /** The scan step as the source writes it: a shorter prefix records its length but not its count. */
  function ConsiderAsWritten(st: Standing, len: int, count: int): (r: Standing)
    ensures Beats(len, count, st) ==> r.minLen == len
    ensures len < st.minLen ==> r.minCount == st.minCount
    ensures !Beats(len, count, st) ==> r == st
  {
    if len < st.minLen then Standing(len, st.minCount)
    else if len == st.minLen && count < st.minCount then Standing(len, count)
    else st
  }

  /** The scan step with the count recorded whenever a candidate is taken. */
  function Consider(st: Standing, len: int, count: int): (r: Standing)
    ensures Beats(len, count, st) ==> r == Standing(len, count)
    ensures !Beats(len, count, st) ==> r == st
  {
    if Beats(len, count, st) then Standing(len, count) else st
  }

  /** A pick: the standing reached and the index of the candidate taken last (-1 for none). */
  datatype Pick = Pick(st: Standing, index: int)

  /** The scan from standing st over candidates (prefix length, vault count), in order, as written. */
  function ScanAsWritten(st: Standing, cands: seq<(int, int)>): (p: Pick)
    ensures -1 <= p.index < |cands|
    ensures p.index < 0 ==> p.st == st
  {
    if cands == [] then Pick(st, -1)
    else
      var prev := ScanAsWritten(st, cands[..|cands| - 1]);
      var c := cands[|cands| - 1];
      if Beats(c.0, c.1, prev.st) then Pick(ConsiderAsWritten(prev.st, c.0, c.1), |cands| - 1) else prev
  }

  /** The scan from standing st over candidates with the corrected step. */
  function Scan(st: Standing, cands: seq<(int, int)>): (p: Pick)
    ensures -1 <= p.index < |cands|
  {
    if cands == [] then Pick(st, -1)
    else
      var prev := Scan(st, cands[..|cands| - 1]);
      var c := cands[|cands| - 1];
      if Beats(c.0, c.1, prev.st) then Pick(Consider(prev.st, c.0, c.1), |cands| - 1) else prev
  }

  /** One more candidate: the scan as written over cands + [c] is one step after the scan over cands. */
  lemma ScanAsWrittenStep(st: Standing, cands: seq<(int, int)>, c: (int, int))
    ensures var prev := ScanAsWritten(st, cands);
      ScanAsWritten(st, cands + [c])
        == if Beats(c.0, c.1, prev.st) then Pick(ConsiderAsWritten(prev.st, c.0, c.1), |cands|) else prev
  {
    assert (cands + [c])[..|cands|] == cands;
  }

  /** Candidate a is no worse than candidate b: shorter, or as short and no more vaults. */
  predicate NoWorse(a: (int, int), b: (int, int))
  {
    a.0 < b.0 || (a.0 == b.0 && a.1 <= b.1)
  }

  /** Candidate a is strictly better than candidate b: shorter, or as short and fewer vaults. */
  predicate Better(a: (int, int), b: (int, int))
  {
    a.0 < b.0 || (a.0 == b.0 && a.1 < b.1)
  }

  /**
   * What the scan as written does guarantee: the length it ends on is no
   * longer than where it started and than any candidate, the candidate taken
   * last has exactly that length, nothing taken leaves the standing as it
   * was, and a change of standing is a strict improvement.
   */
  lemma {:induction false} ScanAsWrittenShortest(st: Standing, cands: seq<(int, int)>)
    ensures ScanAsWritten(st, cands).st.minLen <= st.minLen
    ensures ScanAsWritten(st, cands).st.minCount <= st.minCount
    ensures forall j :: 0 <= j < |cands| ==> ScanAsWritten(st, cands).st.minLen <= cands[j].0
    ensures ScanAsWritten(st, cands).index >= 0 ==>
      ScanAsWritten(st, cands).st.minLen == cands[ScanAsWritten(st, cands).index].0
    ensures ScanAsWritten(st, cands).index < 0 ==> ScanAsWritten(st, cands).st == st
    ensures ScanAsWritten(st, cands).index >= 0 ==>
      Better((ScanAsWritten(st, cands).st.minLen, ScanAsWritten(st, cands).st.minCount), (st.minLen, st.minCount))
  {
    if cands != [] {
      var n := |cands| - 1;
      var init := cands[..n];
      ScanAsWrittenShortest(st, init);
      forall j | 0 <= j < n ensures init[j] == cands[j] {
      }
    }
  }

  /**
   * With the corrected step, once any candidate is seen the standing is the
   * pick itself, and the pick is no worse than every candidate: the shortest
   * prefix, and among those the fewest vaults (the earliest on a tie).
   */
  lemma {:induction false} ScanPicksBest(cands: seq<(int, int)>)
    requires forall i :: 0 <= i < |cands| ==> cands[i].0 < MaxUint32
    ensures cands != [] ==> 0 <= Scan(Unset, cands).index
    ensures cands != [] ==>
      Scan(Unset, cands).st == Standing(cands[Scan(Unset, cands).index].0, cands[Scan(Unset, cands).index].1)
    ensures forall j :: 0 <= j < |cands| ==> NoWorse(cands[Scan(Unset, cands).index], cands[j])
  {
    if cands != [] {
      var n := |cands| - 1;
      var init := cands[..n];
      ScanPicksBest(init);
      forall j | 0 <= j < n ensures init[j] == cands[j] {
      }
    }
  }

  /**
   * As written, the scan can end on a section with more vaults than another
   * of the same prefix length: two neighbours of length 2 holding 12 and 20
   * vaults, met in that order, end with the one holding 20, because taking
   * the first for its length left the count at `math.MaxUint32`.
   */
  lemma ScanAsWrittenMissesFewest()
    ensures ScanAsWritten(Unset, [(2, 12), (2, 20)]).index == 1
    ensures Scan(Unset, [(2, 12), (2, 20)]).index == 0
  {
  }
}
