/**
 * Stage 3 of the indexer: give every remaining colour a one-character label
 * and lay the labels out as the map of the design.
 *
 * Labels are handed out in the order the frequency map yields its keys,
 * starting at '0'; after '9' the counter jumps over ':' to 'a' and then runs
 * on through the alphabet. The map has one cell per pixel of the reduced
 * buffer, row by row; a colour without a label would print as Java's `null`,
 * which the model writes as `None`.
 */
module Labels {
  import opened Histograms
  import opened Reduction

  datatype Option<T> = None | Some(value: T)

  /**
   * Labels the counter can hand out, and step past, without entering the
   * UTF-16 surrogate range that starts after U+D7FF.
   */
  const MAX_LABELS := 0xD7FF - 'a' as int + 10

  /** The label of the `k`-th colour: '0' to '9', then 'a', 'b', ... */
  function LabelAt(k: nat): (l: char)
    requires k <= MAX_LABELS
    ensures k < 10 ==> '0' <= l <= '9'
    ensures k >= 10 ==> 'a' <= l
  {
    if k < 10 then ('0' as int + k) as char else ('a' as int + k - 10) as char
  }

  /** Different positions get different labels, so no two colours share one. */
  lemma LabelsDistinct(j: nat, k: nat)
    requires j <= MAX_LABELS && k <= MAX_LABELS
    ensures LabelAt(j) == LabelAt(k) <==> j == k
  {
    if j < 10 && k >= 10 {
      assert LabelAt(j) <= '9' < 'a' <= LabelAt(k);
    } else if j >= 10 && k < 10 {
      assert LabelAt(k) <= '9' < 'a' <= LabelAt(j);
    }
  }

  /**
   * The legend loop: `colours` is the order in which the frequency map yields
   * its keys. Each colour is mapped to the counter's current character.
   */
  method AssignLabels(colours: seq<int>) returns (labels: map<int, char>)
    requires Distinct(colours) && |colours| < MAX_LABELS
    ensures forall c :: c in labels <==> c in colours
    ensures forall k :: 0 <= k < |colours| ==> colours[k] in labels && labels[colours[k]] == LabelAt(k)
    ensures forall c1, c2 :: c1 in labels && c2 in labels && c1 != c2 ==> labels[c1] != labels[c2]
  {
    labels := map[];
    var l := '0';
    for k := 0 to |colours|
      invariant forall c :: c in labels <==> c in colours[..k]
      invariant forall j :: 0 <= j < k ==> colours[j] in labels && labels[colours[j]] == LabelAt(j)
      invariant l == LabelAt(k)
    {
      labels := labels[colours[k] := l];
      l := (l as int + 1) as char;
      if l == ':' {
        l := 'a';
      }
    }
    assert colours[..|colours|] == colours;
    LabelsInjective(colours, labels);
  }

  lemma LabelsInjective(colours: seq<int>, labels: map<int, char>)
    requires Distinct(colours) && |colours| < MAX_LABELS
    requires forall c :: c in labels <==> c in colours
    requires forall k :: 0 <= k < |colours| ==> colours[k] in labels && labels[colours[k]] == LabelAt(k)
    ensures forall c1, c2 :: c1 in labels && c2 in labels && c1 != c2 ==> labels[c1] != labels[c2]
  {
    forall c1, c2 | c1 in labels && c2 in labels && c1 != c2
      ensures labels[c1] != labels[c2]
    {
      var a :| 0 <= a < |colours| && colours[a] == c1;
      var b :| 0 <= b < |colours| && colours[b] == c2;
      LabelsDistinct(a, b);
    }
  }

  /** `colourMap.get(c)`: the label of `c`, or `None` where Java returns `null`. */
  function Lookup(labels: map<int, char>, c: int): Option<char>
  {
    if c in labels then Some(labels[c]) else None
  }

  /** Cell (`y`, `x`) of a row-major buffer `width` pixels wide. */
  function PixelAt(s: seq<int>, width: nat, height: nat, y: nat, x: nat): int
    requires |s| == width * height && y < height && x < width
  {
    RowMajorIndex(width, height, y, x);
    s[y * width + x]
  }

  lemma RowMajorIndex(width: nat, height: nat, y: nat, x: nat)
    requires y < height && x < width
    ensures 0 <= y * width + x < width * height
  {
    assert y * width + x < (y + 1) * width;
    assert (y + 1) * width <= height * width;
  }

  /** The map loop: one row per pixel row, one label per pixel. */
  method LabelGrid(pixels: array<int>, width: nat, height: nat, labels: map<int, char>)
    returns (grid: seq<seq<Option<char>>>)
    requires pixels.Length == width * height
    ensures |grid| == height
    ensures forall y :: 0 <= y < height ==> |grid[y]| == width
    ensures forall y, x :: 0 <= y < height && 0 <= x < width ==>
              grid[y][x] == Lookup(labels, PixelAt(pixels[..], width, height, y, x))
  {
    grid := [];
    for y := 0 to height
      invariant |grid| == y
      invariant forall j :: 0 <= j < y ==> |grid[j]| == width
      invariant forall j, x :: 0 <= j < y && 0 <= x < width ==>
                  grid[j][x] == Lookup(labels, PixelAt(pixels[..], width, height, j, x))
    {
      var row := [];
      for x := 0 to width
        invariant |row| == x
        invariant forall i :: 0 <= i < x ==> row[i] == Lookup(labels, PixelAt(pixels[..], width, height, y, i))
      {
        RowMajorIndex(width, height, y, x);
        row := row + [Lookup(labels, pixels[y * width + x])];
      }
      grid := grid + [row];
    }
  }

  /**
   * The legend and the map printed after the reduction. Every remaining
   * colour gets a label, every cell of the map shows one, and two cells show
   * the same label exactly when their pixels have the same colour.
   */
  method Report(image: IndexedImage, colours: seq<int>)
    returns (labels: map<int, char>, grid: seq<seq<Option<char>>>)
    requires image.Valid()
    requires Distinct(colours) && |colours| < MAX_LABELS
    requires forall c :: c in colours <==> c in image.frequency
    ensures labels.Keys == image.frequency.Keys
    ensures |grid| == image.height
    ensures forall y :: 0 <= y < image.height ==> |grid[y]| == image.width
    ensures forall y, x :: 0 <= y < image.height && 0 <= x < image.width ==>
              var c := PixelAt(image.pixels[..], image.width, image.height, y, x);
              c in labels && grid[y][x] == Some(labels[c])
    ensures SameLabelIffSameColour(image.pixels[..], image.width, image.height, grid)
  {
    labels := AssignLabels(colours);
    grid := LabelGrid(image.pixels, image.width, image.height, labels);
    ghost var s := image.pixels[..];
    HistogramKeysIff(s);
    assert forall c :: c in s ==> c in image.frequency;
    EveryCellLabelled(s, image.width, image.height, labels);
    GridDistinguishes(s, image.width, image.height, labels, grid);
    assert labels.Keys == image.frequency.Keys by {
      forall c
        ensures c in labels.Keys <==> c in image.frequency.Keys
      {
        assert c in labels <==> c in colours;
      }
    }
  }

  lemma EveryCellLabelled(s: seq<int>, width: nat, height: nat, labels: map<int, char>)
    requires |s| == width * height
    requires forall c :: c in s ==> c in labels
    ensures forall y, x :: 0 <= y < height && 0 <= x < width ==> PixelAt(s, width, height, y, x) in labels
  {
    forall y, x | 0 <= y < height && 0 <= x < width
      ensures PixelAt(s, width, height, y, x) in labels
    {
      RowMajorIndex(width, height, y, x);
      assert s[y * width + x] in s;
    }
  }

  /** Two cells of the map show the same thing exactly when their pixels have the same colour. */
  ghost predicate SameLabelIffSameColour(s: seq<int>, width: nat, height: nat, grid: seq<seq<Option<char>>>)
    requires |s| == width * height
    requires |grid| == height && forall y :: 0 <= y < height ==> |grid[y]| == width
  {
    forall y1, x1, y2, x2 ::
      0 <= y1 < height && 0 <= x1 < width && 0 <= y2 < height && 0 <= x2 < width ==>
      (grid[y1][x1] == grid[y2][x2] <==> PixelAt(s, width, height, y1, x1) == PixelAt(s, width, height, y2, x2))
  }

  /** With an injective labelling that covers every pixel, the map tells colours apart. */
  lemma GridDistinguishes(s: seq<int>, width: nat, height: nat, labels: map<int, char>,
                          grid: seq<seq<Option<char>>>)
    requires |s| == width * height
    requires |grid| == height && forall y :: 0 <= y < height ==> |grid[y]| == width
    requires forall c1, c2 :: c1 in labels && c2 in labels && c1 != c2 ==> labels[c1] != labels[c2]
    requires forall y, x :: 0 <= y < height && 0 <= x < width ==>
               PixelAt(s, width, height, y, x) in labels &&
               grid[y][x] == Lookup(labels, PixelAt(s, width, height, y, x))
    ensures SameLabelIffSameColour(s, width, height, grid)
  {
    forall y1, x1, y2, x2 |
      0 <= y1 < height && 0 <= x1 < width && 0 <= y2 < height && 0 <= x2 < width
      ensures grid[y1][x1] == grid[y2][x2] <==> PixelAt(s, width, height, y1, x1) == PixelAt(s, width, height, y2, x2)
    {
      var c1, c2 := PixelAt(s, width, height, y1, x1), PixelAt(s, width, height, y2, x2);
      assert grid[y1][x1] == Some(labels[c1]) && grid[y2][x2] == Some(labels[c2]);
    }
  }
}
