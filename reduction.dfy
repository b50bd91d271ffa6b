/**
 * Stage 2 of the indexer: count the colours of the quantised pixel buffer and
 * merge near colours until at most 15 remain.
 *
 * `IndexedImage` holds the two pieces of state the source updates in place:
 * the pixel buffer `pixelData` (an array) and the colour-frequency map. Its
 * invariant `Valid` says that the map is always the histogram of the buffer.
 *
 * A reduction round (radius `r`) takes a snapshot of the colours sorted by
 * descending count, then lets each colour that has not been assimilated in
 * this round, in snapshot order, assimilate every other unassimilated colour
 * within distance `r`. The round leaves the surviving colours pairwise more
 * than `r` apart, moves each pixel at most once and only towards a colour that
 * comes earlier in the snapshot. Rounds repeat with `r` growing by one until
 * at most 15 colours remain, which happens by radius `MAX_RADIUS` at the latest.
 */
module Reduction {
  import opened Colours
  import opened Histograms

  /** The reducer stops once at most this many colours remain. */
  const MAX_COLOURS := 15

  /** Side of a tile in pixels: the buffer is `tileWidth * 32` by `tileHeight * 32`. */
  const TILE_PIXELS := 32

  /** Position of `c` in `s`, or `|s|` when `c` does not occur. */
  function IndexOf(s: seq<int>, c: int): (k: nat)
    ensures k <= |s|
    ensures k < |s| ==> s[k] == c
    ensures forall j :: 0 <= j < k ==> s[j] != c
  {
    if s == [] then 0
    else if s[0] == c then 0
    else 1 + IndexOf(s[1..], c)
  }

  lemma IndexOfElement(s: seq<int>, k: int)
    requires Distinct(s) && 0 <= k < |s|
    ensures IndexOf(s, s[k]) == k
  {
    var i := IndexOf(s, s[k]);
    assert i <= k;
    assert s[i] == s[k];
  }

  /**
   * `colourFrequencySorted`: every colour of the map exactly once, in order of
   * non-increasing count; colours with equal counts come in any order.
   */
  ghost predicate IsSnapshot(order: seq<int>, frequency: map<int, int>)
  {
    && Distinct(order)
    && (forall k :: 0 <= k < |order| ==> order[k] in frequency)
    && (forall c :: c in frequency ==> c in order)
    && (forall a, b :: 0 <= a < b < |order| ==> frequency[order[a]] >= frequency[order[b]])
  }

  /**
   * The sort as a selection: `order` holds the colours taken so far, in
   * non-increasing order of count and none smaller than a colour still in
   * `rest`, which holds the others with their counts.
   */
  ghost predicate Selection(frequency: map<int, int>, order: seq<int>, rest: map<int, int>)
  {
    && (forall c :: c in rest ==> c in frequency && rest[c] == frequency[c])
    && (forall c :: c in frequency ==> c in rest || c in order)
    && (forall k :: 0 <= k < |order| ==> order[k] in frequency && order[k] !in rest)
    && Distinct(order)
    && (forall a, b :: 0 <= a < b < |order| ==> frequency[order[a]] >= frequency[order[b]])
    && (forall a, c :: 0 <= a < |order| && c in rest ==> frequency[order[a]] >= rest[c])
  }

  /** Taking a colour of largest remaining count keeps the selection sorted. */
  lemma SelectStep(frequency: map<int, int>, order: seq<int>, rest: map<int, int>, c: int)
    requires Selection(frequency, order, rest)
    requires c in rest && forall d :: d in rest ==> rest[d] <= rest[c]
    ensures Selection(frequency, order + [c], rest - {c})
    ensures |rest - {c}| == |rest| - 1
  {
    assert (rest - {c}).Keys == rest.Keys - {c};
    var order' := order + [c];
    assert forall k :: 0 <= k < |order| ==> order'[k] == order[k];
  }

  /** With nothing left to take, the selection is a snapshot. */
  lemma SelectDone(frequency: map<int, int>, order: seq<int>, rest: map<int, int>)
    requires Selection(frequency, order, rest) && |rest| == 0
    ensures IsSnapshot(order, frequency)
  {
    assert rest.Keys == {};
  }

  /** No two colours of the map are within distance `r` of each other. */
  ghost predicate Separated(frequency: map<int, int>, r: nat)
  {
    forall c1, c2 :: c1 in frequency && c2 in frequency && c1 != c2 ==> !Near(c1, c2, r)
  }

  /** A colour with the largest count exists in every non-empty map. */
  lemma {:induction false} MostFrequentExists(m: map<int, int>)
    requires |m| > 0
    ensures exists c :: c in m && forall d :: d in m ==> m[d] <= m[c]
    decreases |m|
  {
    var x := SomeKey(m);
    var rest := m - {x};
    assert |rest| == |m| - 1 by { assert rest.Keys == m.Keys - {x}; }
    if |rest| == 0 {
      assert rest.Keys == {};
      assert forall d :: d in m ==> d == x;
    } else {
      MostFrequentExists(rest);
      var c :| c in rest && forall d :: d in rest ==> rest[d] <= rest[c];
      if m[x] <= m[c] {
        assert forall d :: d in m ==> m[d] <= m[c] by {
          forall d | d in m ensures m[d] <= m[c] {
            if d != x {
              assert d in rest;
            }
          }
        }
      } else {
        assert forall d :: d in m ==> m[d] <= m[x] by {
          forall d | d in m ensures m[d] <= m[x] {
            if d != x {
              assert d in rest;
            }
          }
        }
      }
    }
  }

  /**
   * Two distinct colours that are still apart at radius `r`: then `r` is
   * below `MAX_RADIUS`. This bounds the number of rounds.
   */
  lemma SeparationBoundsRadius(m: map<int, int>, r: nat)
    requires |m| >= 2 && Separated(m, r)
    ensures r < MAX_RADIUS
  {
    var a := SomeKey(m);
    var rest := m - {a};
    assert |rest| == |m| - 1 by { assert rest.Keys == m.Keys - {a}; }
    var b := SomeKey(rest);
    if r >= MAX_RADIUS {
      NearAtMaxRadius(a, b, r);
    }
  }

  /**
   * A pixel that moved during a round went from `from` to a colour `to`
   * within distance `r`, earlier in the snapshot and among its first `bound`
   * colours.
   */
  ghost predicate MovedWell(order: seq<int>, r: nat, from: int, to: int, bound: nat)
  {
    && Near(from, to, r)
    && IndexOf(order, to) < bound
    && IndexOf(order, to) < IndexOf(order, from)
  }

  /**
   * No colour still surviving (not in `assimilated`) that comes before `to`
   * in the snapshot is within distance `r` of `from`: `to` is the earliest
   * survivor that could have absorbed `from`.
   */
  ghost predicate FirstNear(order: seq<int>, r: nat, assimilated: seq<int>, from: int, to: int)
  {
    forall a :: 0 <= a < IndexOf(order, to) && order[a] !in assimilated ==> !Near(order[a], from, r)
  }

  /**
   * The state inside a round over the snapshot `order`: `orig` is the buffer
   * at the start of the round, `cur` the buffer now and `assimilated` the
   * colours absorbed so far. The colours of `cur` are the snapshot's
   * colours not yet absorbed; every target before `targets` that survives is
   * more than `r` away from every other survivor; every moved pixel moved well,
   * to the earliest survivor near its old colour.
   */
  ghost predicate RoundState(order: seq<int>, r: nat, orig: seq<int>, cur: seq<int>,
                             assimilated: seq<int>, targets: nat, moveBound: nat)
  {
    && Distinct(order)
    && targets <= |order|
    && |orig| == |cur|
    && (forall k :: 0 <= k < |orig| ==> orig[k] in order)
    && (forall c :: c in assimilated ==> c in order)
    && (forall c :: c in cur <==> c in order && c !in assimilated)
    && (forall a, b ::
          (0 <= a < targets && 0 <= b < |order| && a != b
           && order[a] !in assimilated && order[b] !in assimilated) ==> !Near(order[a], order[b], r))
    && (forall k :: 0 <= k < |orig| && cur[k] != orig[k] ==>
          MovedWell(order, r, orig[k], cur[k], moveBound) && FirstNear(order, r, assimilated, orig[k], cur[k]))
  }

  /** Target `order[i]` is more than `r` away from every survivor among the first `j`. */
  ghost predicate Scanned(order: seq<int>, r: nat, assimilated: seq<int>, i: nat, j: nat)
  {
    && i < |order| && j <= |order|
    && forall b :: 0 <= b < j && b != i && order[b] !in assimilated ==> !Near(order[i], order[b], r)
  }

  /** Before the first target: nothing absorbed, nothing moved. */
  lemma RoundStart(order: seq<int>, r: nat, orig: seq<int>)
    requires IsSnapshot(order, Histogram(orig))
    ensures RoundState(order, r, orig, orig, [], 0, 0)
  {
    var f := Histogram(orig);
    HistogramKeysIff(orig);
    assert forall c :: c in f ==> c in order;
    forall k | 0 <= k < |orig| ensures orig[k] in order {
      HistogramKeys(orig, k);
      assert orig[k] in f;
    }
  }

  /**
   * Target `order[i]` absorbs `order[j]`, a survivor within `r`. The absorbed
   * colour comes later in the snapshot, and the round's state is kept.
   */
  lemma MergeStep(order: seq<int>, r: nat, orig: seq<int>, cur: seq<int>, assimilated: seq<int>, i: nat, j: nat)
    requires RoundState(order, r, orig, cur, assimilated, i, i + 1)
    requires i < |order| && j < |order| && i != j
    requires order[i] !in assimilated && order[j] !in assimilated
    requires Near(order[i], order[j], r)
    requires Scanned(order, r, assimilated, i, j)
    ensures i < j
    ensures order[i] in cur && order[j] in cur
    ensures RoundState(order, r, orig, Replace(cur, order[j], order[i]), assimilated + [order[j]], i, i + 1)
    ensures Scanned(order, r, assimilated + [order[j]], i, j + 1)
  {
    var c1, c2 := order[i], order[j];
    DistSymmetric(c1, c2);
    IndexOfElement(order, i);
    IndexOfElement(order, j);
    assert c1 in cur && c2 in cur;
    var next, absorbed := Replace(cur, c2, c1), assimilated + [c2];
    ReplaceMembers(cur, c2, c1);
    forall k | 0 <= k < |orig| && next[k] != orig[k]
      ensures MovedWell(order, r, orig[k], next[k], i + 1)
      ensures FirstNear(order, r, absorbed, orig[k], next[k])
    {
      if cur[k] == c2 {
        assert cur[k] == orig[k];
      }
      if cur[k] == orig[k] {
        assert orig[k] == c2 && next[k] == c1;
        forall a | 0 <= a < i && order[a] !in absorbed
          ensures !Near(order[a], c2, r)
        {
        }
      }
    }
  }

  /** A target absorbed earlier in the round is skipped. */
  lemma SkipTarget(order: seq<int>, r: nat, orig: seq<int>, cur: seq<int>, assimilated: seq<int>, i: nat)
    requires RoundState(order, r, orig, cur, assimilated, i, i)
    requires i < |order| && order[i] in assimilated
    ensures RoundState(order, r, orig, cur, assimilated, i + 1, i + 1)
  {
  }

  /** A target that has scanned the whole snapshot is separated from every survivor. */
  lemma FinishTarget(order: seq<int>, r: nat, orig: seq<int>, cur: seq<int>, assimilated: seq<int>, i: nat)
    requires RoundState(order, r, orig, cur, assimilated, i, i + 1)
    requires i < |order| && order[i] !in assimilated
    requires Scanned(order, r, assimilated, i, |order|)
    ensures RoundState(order, r, orig, cur, assimilated, i + 1, i + 1)
  {
  }

  /** After the last target the survivors are pairwise more than `r` apart. */
  lemma RoundEndSeparated(order: seq<int>, r: nat, orig: seq<int>, cur: seq<int>, assimilated: seq<int>)
    requires RoundState(order, r, orig, cur, assimilated, |order|, |order|)
    ensures Separated(Histogram(cur), r)
  {
    SurvivorsSeparated(order, r, orig, cur, assimilated);
    HistogramKeysIff(cur);
  }

  /** The survivors are colours the round started with. */
  lemma RoundEndColours(order: seq<int>, r: nat, orig: seq<int>, cur: seq<int>, assimilated: seq<int>)
    requires IsSnapshot(order, Histogram(orig))
    requires RoundState(order, r, orig, cur, assimilated, |order|, |order|)
    ensures Histogram(cur).Keys <= Histogram(orig).Keys
  {
    HistogramKeysIff(cur);
    forall c | c in Histogram(cur).Keys
      ensures c in Histogram(orig).Keys
    {
      assert c in cur;
      assert c in order;
    }
  }

  /**
   * Every moved pixel went to a near colour earlier in the snapshot, whose
   * count at the start of the round was at least that of the pixel's old colour.
   */
  lemma RoundEndMoves(order: seq<int>, r: nat, orig: seq<int>, cur: seq<int>, assimilated: seq<int>)
    requires IsSnapshot(order, Histogram(orig))
    requires RoundState(order, r, orig, cur, assimilated, |order|, |order|)
    ensures forall k :: 0 <= k < |cur| && cur[k] != orig[k] ==>
              && Near(orig[k], cur[k], r)
              && cur[k] in Histogram(orig) && orig[k] in Histogram(orig)
              && IndexOf(order, cur[k]) < IndexOf(order, orig[k])
              && Histogram(orig)[cur[k]] >= Histogram(orig)[orig[k]]
  {
    var h := Histogram(orig);
    forall k | 0 <= k < |cur| && cur[k] != orig[k]
      ensures cur[k] in h && orig[k] in h && h[cur[k]] >= h[orig[k]]
    {
      MovedTowardsLarger(order, h, cur[k], orig[k]);
    }
  }

  /**
   * Every moved pixel went to the earliest colour of the snapshot, among
   * those left after the round, that is near its old colour.
   */
  lemma RoundEndFirstNear(order: seq<int>, r: nat, orig: seq<int>, cur: seq<int>, assimilated: seq<int>)
    requires RoundState(order, r, orig, cur, assimilated, |order|, |order|)
    ensures forall k, c :: 0 <= k < |cur| && cur[k] != orig[k] && c in Histogram(cur) && IndexOf(order, c) < IndexOf(order, cur[k]) ==>
              !Near(c, orig[k], r)
  {
    HistogramKeysIff(cur);
    forall k, c | 0 <= k < |cur| && cur[k] != orig[k] && c in Histogram(cur) && IndexOf(order, c) < IndexOf(order, cur[k])
      ensures !Near(c, orig[k], r)
    {
      assert c in cur;
      IndexOfMember(order, c);
      assert FirstNear(order, r, assimilated, orig[k], cur[k]);
    }
  }

  /**
   * Target `order[i]` absorbs `c`: a colour of the snapshot other than the
   * target, not absorbed before this scan, within distance `r`.
   */
  ghost predicate AbsorbedBy(order: seq<int>, r: nat, assimilated: seq<int>, i: nat, c: int)
    requires i < |order|
  {
    c in order && c != order[i] && c !in assimilated && Near(order[i], c, r)
  }

  /**
   * The scan of target `order[i]` after its first `j` candidates: `result`
   * is `assimilated` plus the colours it absorbed so far, and `cur` is
   * `start` with exactly those colours repainted as the target.
   */
  ghost predicate ScanState(order: seq<int>, r: nat, start: seq<int>, cur: seq<int>,
                            assimilated: seq<int>, result: seq<int>, i: nat, j: nat)
    requires i < |order|
  {
    && |cur| == |start|
    && (forall c :: c in result <==> c in assimilated || (IndexOf(order, c) < j && AbsorbedBy(order, r, assimilated, i, c)))
    && (forall k :: 0 <= k < |start| ==>
          cur[k] == if IndexOf(order, start[k]) < j && AbsorbedBy(order, r, assimilated, i, start[k]) then order[i] else start[k])
  }

  /** Candidate `order[j]` is skipped: absorbed already, the target itself, or too far. */
  lemma ScanSkip(order: seq<int>, r: nat, start: seq<int>, cur: seq<int>,
                 assimilated: seq<int>, result: seq<int>, i: nat, j: nat)
    requires Distinct(order) && i < |order| && j < |order|
    requires ScanState(order, r, start, cur, assimilated, result, i, j)
    requires order[j] in result || order[j] == order[i] || !Near(order[i], order[j], r)
    ensures ScanState(order, r, start, cur, assimilated, result, i, j + 1)
  {
    IndexOfElement(order, j);
    forall c | IndexOf(order, c) == j
      ensures !AbsorbedBy(order, r, assimilated, i, c)
    {
      assert c == order[j];
    }
  }

  /** Candidate `order[j]` is absorbed: its pixels become the target's colour. */
  lemma ScanMerge(order: seq<int>, r: nat, start: seq<int>, cur: seq<int>,
                  assimilated: seq<int>, result: seq<int>, i: nat, j: nat)
    requires Distinct(order) && i < |order| && j < |order|
    requires ScanState(order, r, start, cur, assimilated, result, i, j)
    requires order[j] !in result && order[j] != order[i] && Near(order[i], order[j], r)
    ensures ScanState(order, r, start, Replace(cur, order[j], order[i]), assimilated, result + [order[j]], i, j + 1)
  {
    var c2 := order[j];
    IndexOfElement(order, j);
    assert AbsorbedBy(order, r, assimilated, i, c2);
    var next := Replace(cur, c2, order[i]);
    forall k | 0 <= k < |start|
      ensures next[k] == if IndexOf(order, start[k]) < j + 1 && AbsorbedBy(order, r, assimilated, i, start[k]) then order[i] else start[k]
    {
      if start[k] == c2 {
        assert cur[k] == c2;
      }
    }
  }

  /** When the scan has covered the whole snapshot, "among the first `|order|`" is no restriction. */
  lemma ScanDone(order: seq<int>, r: nat, start: seq<int>, cur: seq<int>,
                 assimilated: seq<int>, result: seq<int>, i: nat)
    requires i < |order|
    requires ScanState(order, r, start, cur, assimilated, result, i, |order|)
    ensures forall c :: c in result <==> c in assimilated || AbsorbedBy(order, r, assimilated, i, c)
    ensures forall k :: 0 <= k < |start| ==>
              cur[k] == if AbsorbedBy(order, r, assimilated, i, start[k]) then order[i] else start[k]
  {
    forall c | AbsorbedBy(order, r, assimilated, i, c)
      ensures IndexOf(order, c) < |order|
    {
      IndexOfMember(order, c);
    }
  }

  /** The inner loop's invariant: the round's state and the scan's state together. */
  ghost predicate Scanning(order: seq<int>, r: nat, orig: seq<int>, start: seq<int>, cur: seq<int>,
                           assimilated: seq<int>, result: seq<int>, i: nat, j: nat)
  {
    && i < |order| && j <= |order|
    && RoundState(order, r, orig, cur, result, i, i + 1)
    && order[i] !in result
    && Scanned(order, r, result, i, j)
    && ScanState(order, r, start, cur, assimilated, result, i, j)
  }

  /** The scan of a surviving target starts from the round's state. */
  lemma ScanStart(order: seq<int>, r: nat, orig: seq<int>, cur: seq<int>, assimilated: seq<int>, i: nat)
    requires RoundState(order, r, orig, cur, assimilated, i, i)
    requires i < |order| && order[i] !in assimilated
    ensures Scanning(order, r, orig, cur, cur, assimilated, assimilated, i, 0)
  {
  }

  /** A skipped candidate keeps the scan's invariant. */
  lemma ScanningSkip(order: seq<int>, r: nat, orig: seq<int>, start: seq<int>, cur: seq<int>,
                     assimilated: seq<int>, result: seq<int>, i: nat, j: nat)
    requires Scanning(order, r, orig, start, cur, assimilated, result, i, j) && j < |order|
    requires order[j] in result || order[j] == order[i] || !Near(order[i], order[j], r)
    ensures Scanning(order, r, orig, start, cur, assimilated, result, i, j + 1)
  {
    ScanSkip(order, r, start, cur, assimilated, result, i, j);
  }

  /** An absorbed candidate keeps the scan's invariant; both colours are in the buffer. */
  lemma ScanningMerge(order: seq<int>, r: nat, orig: seq<int>, start: seq<int>, cur: seq<int>,
                      assimilated: seq<int>, result: seq<int>, i: nat, j: nat)
    requires Scanning(order, r, orig, start, cur, assimilated, result, i, j) && j < |order|
    requires order[j] !in result && order[j] != order[i] && Near(order[i], order[j], r)
    ensures order[i] in cur && order[j] in cur
    ensures Scanning(order, r, orig, start, Replace(cur, order[j], order[i]), assimilated, result + [order[j]], i, j + 1)
  {
    MergeStep(order, r, orig, cur, result, i, j);
    ScanMerge(order, r, start, cur, assimilated, result, i, j);
  }

  /** The finished scan: the round's state moves on one target. */
  lemma ScanningDone(order: seq<int>, r: nat, orig: seq<int>, start: seq<int>, cur: seq<int>,
                     assimilated: seq<int>, result: seq<int>, i: nat)
    requires Scanning(order, r, orig, start, cur, assimilated, result, i, |order|)
    ensures RoundState(order, r, orig, cur, result, i + 1, i + 1)
    ensures forall c :: c in result <==> c in assimilated || AbsorbedBy(order, r, assimilated, i, c)
    ensures forall k :: 0 <= k < |start| ==>
              cur[k] == if AbsorbedBy(order, r, assimilated, i, start[k]) then order[i] else start[k]
  {
    FinishTarget(order, r, orig, cur, result, i);
    ScanDone(order, r, start, cur, assimilated, result, i);
  }

  /**
   * One round at radius `r` over the snapshot `order` turns buffer `before`
   * into `after`: the same number of pixels, only colours of `before`, no two
   * within `r`, and every changed pixel sent to the earliest remaining colour
   * of the snapshot within `r` of its old colour, which had at least its count.
   */
  ghost predicate RoundBy(order: seq<int>, r: nat, before: seq<int>, after: seq<int>)
  {
    && IsSnapshot(order, Histogram(before))
    && |after| == |before|
    && Histogram(after).Keys <= Histogram(before).Keys
    && Separated(Histogram(after), r)
    && (forall k :: 0 <= k < |after| && after[k] != before[k] ==>
          && Near(before[k], after[k], r)
          && after[k] in Histogram(before) && before[k] in Histogram(before)
          && IndexOf(order, after[k]) < IndexOf(order, before[k])
          && Histogram(before)[after[k]] >= Histogram(before)[before[k]])
    && (forall k, c ::
          (0 <= k < |after| && after[k] != before[k] &&
           c in Histogram(after) && IndexOf(order, c) < IndexOf(order, after[k])) ==> !Near(c, before[k], r))
  }

  /**
   * The buffers of a reduction, one per round: each but the last still has
   * more than `MAX_COLOURS` colours, and the next one is the round at radius
   * `k + 1` over a snapshot of it. So the radius grows by one per round and
   * the reduction stops after the first round that meets the budget.
   */
  ghost predicate Rounds(history: seq<seq<int>>)
  {
    forall k :: 0 <= k < |history| - 1 ==>
      |Histogram(history[k])| > MAX_COLOURS && RoundAt(k + 1, history[k], history[k + 1])
  }

  /** `after` is the round at radius `r` over some snapshot of `before`. */
  ghost predicate RoundAt(r: nat, before: seq<int>, after: seq<int>)
  {
    exists order :: RoundBy(order, r, before, after)
  }

  /** A further round at the next radius extends the reduction. */
  lemma RoundsSnoc(history: seq<seq<int>>, order: seq<int>, after: seq<int>)
    requires |history| >= 1 && Rounds(history)
    requires |Histogram(history[|history| - 1])| > MAX_COLOURS
    requires RoundBy(order, |history|, history[|history| - 1], after)
    ensures Rounds(history + [after])
  {
    var last := history[|history| - 1];
    assert RoundAt(|history|, last, after);
    var h := history + [after];
    forall k | 0 <= k < |h| - 1
      ensures |Histogram(h[k])| > MAX_COLOURS && RoundAt(k + 1, h[k], h[k + 1])
    {
      if k < |history| - 1 {
        assert h[k] == history[k] && h[k + 1] == history[k + 1];
      } else {
        assert h[k] == last && h[k + 1] == after;
      }
    }
  }

  /** The state after the last target is a round by `RoundBy`. */
  lemma RoundEnd(order: seq<int>, r: nat, orig: seq<int>, cur: seq<int>, assimilated: seq<int>)
    requires IsSnapshot(order, Histogram(orig))
    requires RoundState(order, r, orig, cur, assimilated, |order|, |order|)
    ensures RoundBy(order, r, orig, cur)
  {
    RoundEndSeparated(order, r, orig, cur, assimilated);
    RoundEndColours(order, r, orig, cur, assimilated);
    RoundEndMoves(order, r, orig, cur, assimilated);
    RoundEndFirstNear(order, r, orig, cur, assimilated);
  }

  /** After the last target no two survivors are within `r`. */
  lemma SurvivorsSeparated(order: seq<int>, r: nat, orig: seq<int>, cur: seq<int>, assimilated: seq<int>)
    requires RoundState(order, r, orig, cur, assimilated, |order|, |order|)
    ensures forall c1, c2 :: c1 in cur && c2 in cur && c1 != c2 ==> !Near(c1, c2, r)
  {
    forall c1, c2 | c1 in cur && c2 in cur && c1 != c2
      ensures !Near(c1, c2, r)
    {
      IndexOfMember(order, c1);
      IndexOfMember(order, c2);
    }
  }

  /** A colour earlier in the snapshot had at least the count of a later one. */
  lemma MovedTowardsLarger(order: seq<int>, h: map<int, int>, to: int, from: int)
    requires IsSnapshot(order, h)
    requires from in order && IndexOf(order, to) < IndexOf(order, from)
    ensures to in h && from in h && h[to] >= h[from]
  {
    IndexOfMember(order, from);
  }

  lemma IndexOfMember(s: seq<int>, c: int)
    requires c in s
    ensures IndexOf(s, c) < |s| && s[IndexOf(s, c)] == c
  {
    var j :| 0 <= j < |s| && s[j] == c;
    assert IndexOf(s, c) <= j;
  }

  /** The counting loop of stage 2: one pass over the buffer. */
  method CountColours(pixels: array<int>) returns (frequency: map<int, int>)
    ensures frequency == Histogram(pixels[..])
    ensures forall c :: c in frequency <==> c in pixels[..]
    ensures forall c :: c in frequency ==> frequency[c] == multiset(pixels[..])[c]
  {
    frequency := map[];
    assert Histogram(pixels[..0]) == map[];
    for k := 0 to pixels.Length
      invariant frequency == Histogram(pixels[..k])
    {
      var c := pixels[k];
      assert pixels[..k + 1] == pixels[..k] + [c];
      HistogramSnoc(pixels[..k], c);
      if c in frequency {
        frequency := frequency[c := frequency[c] + 1];
      } else {
        frequency := frequency[c := 1];
      }
    }
    assert pixels[..pixels.Length] == pixels[..];
    HistogramKeysIff(pixels[..]);
    forall c | c in frequency
      ensures frequency[c] == multiset(pixels[..])[c]
    {
      HistogramAt(pixels[..], c);
    }
  }

  class IndexedImage {
    const width: nat
    const height: nat
    const pixels: array<int>
    var frequency: map<int, int>

    /** The frequency map is the histogram of the buffer. */
    ghost predicate Valid()
      reads this, pixels
    {
      pixels.Length == width * height && frequency == Histogram(pixels[..])
    }

    /**
     * The buffer of the scaled and quantised image, `tileWidth * 32` pixels
     * wide and `tileHeight * 32` high, and its colour count.
     */
    constructor (tileWidth: nat, tileHeight: nat, quantised: seq<int>)
      requires |quantised| == (tileWidth * TILE_PIXELS) * (tileHeight * TILE_PIXELS)
      ensures Valid() && fresh(pixels)
      ensures width == tileWidth * TILE_PIXELS && height == tileHeight * TILE_PIXELS
      ensures pixels[..] == quantised
    {
      var buffer := new int[|quantised|](k requires 0 <= k < |quantised| => quantised[k]);
      assert buffer[..] == quantised;
      var counts := CountColours(buffer);
      width := tileWidth * TILE_PIXELS;
      height := tileHeight * TILE_PIXELS;
      pixels := buffer;
      frequency := counts;
    }

    /** The counts add up to the number of pixels. */
    lemma CountsSumToPixels()
      requires Valid()
      ensures Total(frequency) == width * height
    {
      HistogramTotal(pixels[..]);
    }

    /** The sorted snapshot taken at the start of each round. */
    method SortedColours() returns (order: seq<int>)
      ensures IsSnapshot(order, frequency)
    {
      order := [];
      var rest := frequency;
      while |rest| > 0
        invariant Selection(frequency, order, rest)
        decreases |rest|
      {
        MostFrequentExists(rest);
        var c :| c in rest && forall d :: d in rest ==> rest[d] <= rest[c];
        SelectStep(frequency, order, rest, c);
        order := order + [c];
        rest := rest - {c};
      }
      SelectDone(frequency, order, rest);
    }

    /**
     * `c1` assimilates `c2`: every pixel of colour `c2` is repainted `c1`,
     * `c1`'s count grows by `c2`'s and `c2` leaves the map.
     */
    method Assimilate(c1: int, c2: int)
      requires Valid() && c1 in frequency && c2 in frequency && c1 != c2
      modifies this`frequency, pixels
      ensures Valid()
      ensures pixels[..] == Replace(old(pixels[..]), c2, c1)
      ensures frequency == old(frequency)[c1 := old(frequency)[c1] + old(frequency)[c2]] - {c2}
    {
      ghost var before := pixels[..];
      Repaint(c2, c1);
      HistogramReplace(before, frequency, c2, c1);
      frequency := frequency[c1 := frequency[c1] + frequency[c2]] - {c2};
    }

    /** The pixel loop of an assimilation: pixels of colour `from` become `to`. */
    method Repaint(from: int, to: int)
      modifies pixels
      ensures pixels[..] == Replace(old(pixels[..]), from, to)
    {
      for k := 0 to pixels.Length
        invariant forall j :: 0 <= j < k ==> pixels[j] == if old(pixels[j]) == from then to else old(pixels[j])
        invariant forall j :: k <= j < pixels.Length ==> pixels[j] == old(pixels[j])
      {
        if pixels[k] == from {
          pixels[k] := to;
        }
      }
    }

    /** The inner loop of a round: target `order[i]` assimilates its neighbours. */
    method AbsorbNeighbours(order: seq<int>, r: nat, i: nat, ghost orig: seq<int>, assimilated: seq<int>)
      returns (result: seq<int>)
      requires Valid() && i < |order| && order[i] !in assimilated
      requires RoundState(order, r, orig, pixels[..], assimilated, i, i)
      modifies this`frequency, pixels
      ensures Valid()
      ensures RoundState(order, r, orig, pixels[..], result, i + 1, i + 1)
      ensures forall c :: c in result <==> c in assimilated || AbsorbedBy(order, r, assimilated, i, c)
      ensures forall k :: 0 <= k < pixels.Length ==>
                pixels[k] == if AbsorbedBy(order, r, assimilated, i, old(pixels[k])) then order[i] else old(pixels[k])
    {
      var c1 := order[i];
      ghost var start := pixels[..];
      result := assimilated;
      ScanStart(order, r, orig, start, assimilated, i);
      for j := 0 to |order|
        invariant Valid()
        invariant Scanning(order, r, orig, start, pixels[..], assimilated, result, i, j)
      {
        var c2 := order[j];
        if c2 in result || c1 == c2 || !Near(c1, c2, r) {
          ScanningSkip(order, r, orig, start, pixels[..], assimilated, result, i, j);
          continue;
        }
        ScanningMerge(order, r, orig, start, pixels[..], assimilated, result, i, j);
        HistogramKeysIff(pixels[..]);
        Assimilate(c1, c2);
        result := result + [c2];
      }
      ScanningDone(order, r, orig, start, pixels[..], assimilated, result, i);
    }

    /** One round of the reducer at radius `r` over the snapshot `order`. */
    method ReduceRound(order: seq<int>, r: nat)
      requires Valid() && IsSnapshot(order, frequency)
      modifies this`frequency, pixels
      ensures Valid()
      ensures frequency.Keys <= old(frequency).Keys
      ensures Separated(frequency, r)
      ensures forall k :: 0 <= k < pixels.Length && pixels[k] != old(pixels[k]) ==>
                && Near(old(pixels[k]), pixels[k], r)
                && pixels[k] in old(frequency) && old(pixels[k]) in old(frequency)
                && IndexOf(order, pixels[k]) < IndexOf(order, old(pixels[k]))
                && old(frequency)[pixels[k]] >= old(frequency)[old(pixels[k])]
      ensures forall k, c ::
                (0 <= k < pixels.Length && pixels[k] != old(pixels[k]) &&
                 c in frequency && IndexOf(order, c) < IndexOf(order, pixels[k])) ==> !Near(c, old(pixels[k]), r)
      ensures RoundBy(order, r, old(pixels[..]), pixels[..])
    {
      ghost var orig := pixels[..];
      assert frequency == Histogram(orig);
      RoundStart(order, r, orig);
      var assimilated := [];
      for i := 0 to |order|
        invariant Valid()
        invariant RoundState(order, r, orig, pixels[..], assimilated, i, i)
      {
        if order[i] in assimilated {
          SkipTarget(order, r, orig, pixels[..], assimilated, i);
          continue;
        }
        assimilated := AbsorbNeighbours(order, r, i, orig, assimilated);
      }
      RoundEnd(order, r, orig, pixels[..], assimilated);
      assert old(pixels[..]) == orig;
      assert old(frequency) == Histogram(orig) && frequency == Histogram(pixels[..]);
      assert forall k :: 0 <= k < pixels.Length ==> old(pixels[k]) == orig[k] && pixels[k] == pixels[..][k];
    }

    /**
     * The reduction loop: rounds at radius 1, 2, ... until at most
     * `MAX_COLOURS` colours remain; nothing happens when there are few
     * enough colours already. `history` holds the buffer before the first
     * round and after each round.
     */
    method Reduce() returns (ghost history: seq<seq<int>>)
      requires Valid()
      modifies this`frequency, pixels
      ensures Valid()
      ensures |frequency| <= MAX_COLOURS
      ensures frequency.Keys <= old(frequency).Keys
      ensures Total(frequency) == old(Total(frequency))
      ensures old(|frequency|) <= MAX_COLOURS ==> pixels[..] == old(pixels[..]) && frequency == old(frequency)
      ensures |history| >= 1 && history[0] == old(pixels[..]) && history[|history| - 1] == pixels[..]
      ensures Rounds(history)
    {
      history := [pixels[..]];
      if |frequency| > MAX_COLOURS {
        var r: nat := 1;
        while |frequency| > MAX_COLOURS
          invariant Valid() && r >= 1
          invariant frequency.Keys <= old(frequency).Keys
          invariant r > 1 ==> Separated(frequency, r - 1)
          invariant |history| == r && history[0] == old(pixels[..]) && history[r - 1] == pixels[..]
          invariant Rounds(history)
          decreases MAX_RADIUS + 1 - r
        {
          if r > 1 {
            SeparationBoundsRadius(frequency, r - 1);
          }
          var order := SortedColours();
          ReduceRound(order, r);
          RoundsSnoc(history, order, pixels[..]);
          history := history + [pixels[..]];
          r := r + 1;
        }
      }
      HistogramTotal(pixels[..]);
      HistogramTotal(old(pixels[..]));
    }
  }
}
