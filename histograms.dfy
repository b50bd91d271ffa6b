/**
 * The colour-frequency map of a pixel buffer and the lemmas that say what it holds.
 *
 * `Histogram(s)` is the map the source keeps in `colourFrequency`, built one
 * pixel at a time as the counting loop builds it; `HistogramAt` states what
 * it holds: its keys are the distinct values of the buffer and each key maps
 * to the number of pixels of that colour. `Total` sums the counts of such a map; `Replace`
 * is the buffer after every pixel of one colour has been repainted with
 * another, which is what one assimilation does to `pixelData`.
 */
module Histograms {

  /** No colour occurs twice in `s`. */
  ghost predicate Distinct(s: seq<int>)
  {
    forall a, b :: 0 <= a < b < |s| ==> s[a] != s[b]
  }

  /** The colour-frequency map of `s`, counted from the first pixel to the last. */
  function Histogram(s: seq<int>): map<int, int>
  {
    if s == [] then map[]
    else
      var h, x := Histogram(s[..|s| - 1]), s[|s| - 1];
      if x in h then h[x := h[x] + 1] else h[x := 1]
  }

  /** Sum of the counts of a colour-frequency map. */
  ghost function Total(m: map<int, int>): int
    decreases |m|
  {
    if |m| == 0 then 0
    else
      var c := SomeKey(m);
      assert |m - {c}| == |m| - 1 by { assert (m - {c}).Keys == m.Keys - {c}; }
      m[c] + Total(m - {c})
  }

  /** An arbitrary key of a non-empty map. */
  ghost function SomeKey(m: map<int, int>): (c: int)
    requires |m| > 0
    ensures c in m
  {
    NoKeysMeansEmpty(m);
    var k :| k in m; k
  }

  lemma NoKeysMeansEmpty(m: map<int, int>)
    ensures (forall k :: k !in m) ==> |m| == 0
  {
    if forall k :: k !in m {
      assert m.Keys == {};
    }
  }

  /** `s` with every element equal to `from` replaced by `to`. */
  function Replace(s: seq<int>, from: int, to: int): (t: seq<int>)
    ensures |t| == |s|
    ensures forall k :: 0 <= k < |s| ==> t[k] == if s[k] == from then to else s[k]
  {
    if s == [] then []
    else
      var last := s[|s| - 1];
      Replace(s[..|s| - 1], from, to) + [if last == from then to else last]
  }

  /** After repainting `from` as `to`, where `to` already occurs, the colours are the old ones but `from`. */
  lemma ReplaceMembers(s: seq<int>, from: int, to: int)
    requires from != to && to in s
    ensures forall c :: c in Replace(s, from, to) <==> c in s && c != from
  {
    var t := Replace(s, from, to);
    forall c | c in s && c != from ensures c in t {
      var k :| 0 <= k < |s| && s[k] == c;
      assert t[k] == c;
    }
    forall c | c in t ensures c in s && c != from {
      var k :| 0 <= k < |t| && t[k] == c;
      if s[k] == from {
        assert c == to;
      }
    }
  }

  /**
   * Counting one more pixel: the counting loop's step, which either raises an
   * existing count by one or adds the colour with count 1.
   */
  lemma HistogramSnoc(s: seq<int>, x: int)
    ensures Histogram(s + [x]) ==
              if x in Histogram(s) then Histogram(s)[x := Histogram(s)[x] + 1]
              else Histogram(s)[x := 1]
  {
    assert (s + [x])[..|s|] == s;
  }

  /**
   * What the map holds: exactly the colours of the buffer, each with its
   * number of pixels.
   */
  lemma {:induction false} HistogramAt(s: seq<int>, c: int)
    ensures c in Histogram(s) <==> c in multiset(s)
    ensures c in Histogram(s) ==> Histogram(s)[c] == multiset(s)[c]
  {
    if s != [] {
      var s', x := s[..|s| - 1], s[|s| - 1];
      assert s == s' + [x];
      HistogramAt(s', c);
      MultisetSnoc(s', x, c);
    }
  }

  /** The keys of the map are the colours of the buffer. */
  lemma HistogramKeysIff(s: seq<int>)
    ensures forall c :: c in Histogram(s) <==> c in s
  {
    forall c
      ensures c in Histogram(s) <==> c in s
    {
      HistogramAt(s, c);
    }
  }

  /** Every colour of the buffer is a key, with a count of at least one. */
  lemma HistogramKeys(s: seq<int>, k: int)
    requires 0 <= k < |s|
    ensures s[k] in Histogram(s) && Histogram(s)[s[k]] >= 1
  {
    assert s[k] in multiset(s);
    HistogramAt(s, s[k]);
  }

  /** The counts are positive, so no more keys than pixels. */
  lemma {:induction false} HistogramSize(s: seq<int>)
    ensures |Histogram(s)| <= |s|
    ensures forall c :: c in Histogram(s) ==> Histogram(s)[c] >= 1
  {
    if s != [] {
      var s', x := s[..|s| - 1], s[|s| - 1];
      assert s == s' + [x];
      HistogramSize(s');
      HistogramSnoc(s', x);
      var h' := Histogram(s');
      if x !in h' {
        assert Histogram(s).Keys == h'.Keys + {x};
      } else {
        assert Histogram(s).Keys == h'.Keys;
      }
    }
  }

  /** Removing one key takes exactly its count off the total, whichever key it is. */
  lemma {:induction false} TotalRemove(m: map<int, int>, c: int)
    requires c in m
    ensures Total(m) == m[c] + Total(m - {c})
    decreases |m|
  {
    var d := SomeKey(m);
    assert Total(m) == m[d] + Total(m - {d});
    if d != c {
      assert |m - {d}| == |m| - 1 by { assert (m - {d}).Keys == m.Keys - {d}; }
      assert |m - {c}| == |m| - 1 by { assert (m - {c}).Keys == m.Keys - {c}; }
      TotalRemove(m - {d}, c);
      TotalRemove(m - {c}, d);
      assert m - {d} - {c} == m - {c} - {d};
    }
  }

  /** Setting the count of `x` to `v` makes the total `v` plus the rest. */
  lemma TotalUpdate(m: map<int, int>, x: int, v: int)
    ensures Total(m[x := v]) == v + Total(m - {x})
  {
    TotalRemove(m[x := v], x);
    RemoveUpdated(m, x, v);
  }

  /** The counts of the buffer's histogram add up to the number of pixels. */
  lemma {:induction false} HistogramTotal(s: seq<int>)
    ensures Total(Histogram(s)) == |s|
  {
    if s == [] {
      assert Histogram(s) == map[];
    } else {
      var s', x := s[..|s| - 1], s[|s| - 1];
      assert s == s' + [x];
      HistogramTotal(s');
      HistogramSnoc(s', x);
      var h', h := Histogram(s'), Histogram(s);
      var v := if x in h' then h'[x] + 1 else 1;
      assert h == h'[x := v];
      TotalUpdate(h', x, v);
      if x in h' {
        TotalRemove(h', x);
      } else {
        assert h' - {x} == h';
      }
    }
  }

  lemma RemoveUpdated(m: map<int, int>, x: int, v: int)
    ensures m[x := v] - {x} == m - {x}
  {
  }

  lemma MultisetSnoc(s: seq<int>, x: int, c: int)
    ensures multiset(s + [x])[c] == multiset(s)[c] + if x == c then 1 else 0
  {
    assert multiset(s + [x]) == multiset(s) + multiset{x};
  }

  /** Repainting `from` as `to` moves all of `from`'s occurrences to `to`. */
  lemma {:induction false} ReplaceMultiset(s: seq<int>, from: int, to: int, c: int)
    requires from != to
    ensures multiset(Replace(s, from, to))[c] ==
              if c == from then 0
              else if c == to then multiset(s)[to] + multiset(s)[from]
              else multiset(s)[c]
  {
    if s != [] {
      var s', x := s[..|s| - 1], s[|s| - 1];
      var y := if x == from then to else x;
      assert s == s' + [x];
      var t' := Replace(s', from, to);
      assert Replace(s, from, to) == t' + [y];
      ReplaceMultiset(s', from, to, c);
      MultisetSnoc(s', x, c);
      MultisetSnoc(s', x, from);
      MultisetSnoc(t', y, c);
    }
  }

  /**
   * One assimilation on the frequency map: `to` gains `from`'s count and
   * `from` disappears; every other colour keeps its count.
   */
  lemma HistogramReplace(s: seq<int>, h: map<int, int>, from: int, to: int)
    requires h == Histogram(s)
    requires from != to && from in h && to in h
    ensures Histogram(Replace(s, from, to)) == h[to := h[to] + h[from]] - {from}
  {
    var h' := Histogram(Replace(s, from, to));
    forall c
      ensures c in h' <==> c in h && c != from
      ensures c in h' ==> h'[c] == if c == to then h[to] + h[from] else h[c]
    {
      HistogramReplaceAt(s, from, to, c);
    }
    MergedMap(h, h', from, to);
  }

  lemma HistogramReplaceAt(s: seq<int>, from: int, to: int, c: int)
    requires from != to && from in Histogram(s) && to in Histogram(s)
    ensures var h, h' := Histogram(s), Histogram(Replace(s, from, to));
            && (c in h' <==> c in h && c != from)
            && (c in h' ==> h'[c] == if c == to then h[to] + h[from] else h[c])
  {
    ReplaceMultiset(s, from, to, c);
    HistogramAt(s, from);
    HistogramAt(s, to);
    HistogramAt(s, c);
    HistogramAt(Replace(s, from, to), c);
  }

  lemma MergedMap(h: map<int, int>, h': map<int, int>, from: int, to: int)
    requires from in h && to in h
    requires forall c :: c in h' <==> c in h && c != from
    requires forall c :: c in h' ==> h'[c] == if c == to then h[to] + h[from] else h[c]
    ensures h' == h[to := h[to] + h[from]] - {from}
  {
    var expected := h[to := h[to] + h[from]] - {from};
    forall c
      ensures c in h'.Keys <==> c in expected.Keys
    {
      assert c in h' <==> c in h && c != from;
    }
    assert h'.Keys == expected.Keys;
    assert forall c :: c in expected ==> expected[c] == if c == to then h[to] + h[from] else h[c];
  }
}
