/** `detect_grid_dimensions` and the auto-detection step of
    `spritesheet_to_gif`: the grid shape comes only from factorising the
    number of sprites, preferring the factor pair closest to square. */
module GridDetection {
  import opened Wrappers
  import opened Pixels
  import opened Components
  import opened Seqs
  import opened Segmentation
  import opened Arith

  /** The noise filter: boxes at least `minSize` wide and high, in order. */
  function KeepSized(boxes: seq<Box>, minSize: int): seq<Box> {
    Filter(boxes, SizedEnough(minSize))
  }

  /** Accepts the boxes at least `minSize` wide and high. */
  function SizedEnough(minSize: int): Box -> bool {
    (b: Box) => b.w >= minSize && b.h >= minSize
  }

  /** `c` is a column count that divides `n` sprites evenly. */
  predicate Divides(c: int, n: int) {
    c >= 1 && n % c == 0
  }

  /** `|cols - rows|`. */
  function Gap(cols: int, rows: int): nat {
    if cols >= rows then cols - rows else rows - cols
  }

  /** A divisor of a positive count pairs with a positive quotient, no
      larger than the count, that is itself a divisor with cofactor `c`. */
  lemma DivisorPair(n: int, c: int)
    requires n >= 1 && Divides(c, n)
    ensures c <= n && n / c >= 1 && c * (n / c) == n
    ensures Divides(n / c, n) && n / (n / c) == c
  {
    var q := n / c;
    DivExact(n, c, q);
    if q <= 0 {
      MulNonNegative(c, -q);
    }
    assert c * q == q * c;
    DivExact(n, q, c);
    MulNonNegative(c, q - 1);
    assert c * q == c * (q - 1) + c;
  }

  /** The factor pairs `(cols, n / cols)` for `cols` in `1..c`, in
      increasing `cols`: the list the `factorizations` loop builds. */
  function DivisorPairs(n: nat, c: nat): seq<(int, int)>
    decreases c
  {
    if c == 0 then []
    else DivisorPairs(n, c - 1) + (if n % c == 0 then [(c, n / c)] else [])
  }

  lemma {:induction false} DivisorPairsSpec(n: nat, c: nat)
    ensures forall f :: f in DivisorPairs(n, c) <==> f.0 <= c && Divides(f.0, n) && f.1 == n / f.0
    ensures forall i, j :: 0 <= i < j < |DivisorPairs(n, c)| ==> DivisorPairs(n, c)[i].0 < DivisorPairs(n, c)[j].0
    ensures forall i :: 0 <= i < |DivisorPairs(n, c)| ==> DivisorPairs(n, c)[i].0 <= c
  {
    if c > 0 {
      DivisorPairsSpec(n, c - 1);
    }
  }

  /** The `factorizations` loop of `detect_grid_dimensions`. */
  method Factorizations(n: nat) returns (fs: seq<(int, int)>)
    ensures fs == DivisorPairs(n, n)
  {
    fs := [];
    for cols := 1 to n + 1
      invariant fs == DivisorPairs(n, cols - 1)
    {
      if n % cols == 0 {
        fs := fs + [(cols, n / cols)];
      }
    }
  }

  /** Python's `min(fs, key=|cols - rows|)`: the index of the first pair
      with the smallest gap, found by scanning left to right and replacing
      the candidate only on a strictly smaller gap. */
  function FirstClosest(fs: seq<(int, int)>): (i: nat)
    requires |fs| > 0
    ensures i < |fs|
    ensures forall j :: 0 <= j < |fs| ==> Gap(fs[i].0, fs[i].1) <= Gap(fs[j].0, fs[j].1)
    ensures forall j :: 0 <= j < i ==> Gap(fs[j].0, fs[j].1) > Gap(fs[i].0, fs[i].1)
  {
    if |fs| == 1 then 0
    else
      var k := FirstClosest(fs[..|fs| - 1]);
      if Gap(fs[|fs| - 1].0, fs[|fs| - 1].1) < Gap(fs[k].0, fs[k].1) then |fs| - 1 else k
  }

  /** The grid `detect_grid_dimensions` chooses for `n` sprites: `cols`
      divides `n` with `rows` as quotient, no factor pair is closer to
      square, every factor pair with fewer columns is strictly further from
      square, and so `cols <= rows`. */
  ghost predicate IsBestGrid(cols: int, rows: int, n: int) {
    && Divides(cols, n) && rows == n / cols && cols * rows == n && cols <= rows
    && (forall c :: Divides(c, n) ==> Gap(cols, rows) <= Gap(c, n / c))
    && (forall c :: Divides(c, n) && c < cols ==> Gap(c, n / c) > Gap(cols, rows))
  }

  /** The first closest factor pair is the best grid. */
  lemma ClosestIsBest(n: nat)
    requires n >= 1
    ensures |DivisorPairs(n, n)| > 0
    ensures IsBestGrid(DivisorPairs(n, n)[FirstClosest(DivisorPairs(n, n))].0,
                       DivisorPairs(n, n)[FirstClosest(DivisorPairs(n, n))].1, n)
  {
    var fs := DivisorPairs(n, n);
    DivisorPairsSpec(n, n);
    assert (1, n) in fs;
    var i := FirstClosest(fs);
    var cols, rows := fs[i].0, fs[i].1;
    assert fs[i] in fs;
    DivisorPair(n, cols);
    forall c | Divides(c, n)
      ensures Gap(cols, rows) <= Gap(c, n / c)
      ensures c < cols ==> Gap(c, n / c) > Gap(cols, rows)
    {
      ClosestAgainst(n, c);
    }
    assert Divides(rows, n) && n / rows == cols;
  }

  /** The first closest pair compared with the factor pair of one divisor `c`. */
  lemma ClosestAgainst(n: nat, c: int)
    requires n >= 1 && Divides(c, n)
    ensures |DivisorPairs(n, n)| > 0
    ensures var f := DivisorPairs(n, n)[FirstClosest(DivisorPairs(n, n))];
      Gap(f.0, f.1) <= Gap(c, n / c) && (c < f.0 ==> Gap(c, n / c) > Gap(f.0, f.1))
  {
    var fs := DivisorPairs(n, n);
    DivisorPairsSpec(n, n);
    DivisorPair(n, c);
    assert (c, n / c) in fs;
    var j :| 0 <= j < |fs| && fs[j] == (c, n / c);
    var i := FirstClosest(fs);
    if c < fs[i].0 {
      assert j < i;
    }
  }

  /** At most one grid is best, so the choice is determined by `n`. */
  lemma BestGridUnique(c1: int, r1: int, c2: int, r2: int, n: int)
    requires IsBestGrid(c1, r1, n) && IsBestGrid(c2, r2, n)
    ensures c1 == c2 && r1 == r2
  {
  }

  /** Box `a` comes strictly before box `b` in `(y, x)` order. */
  predicate PosLess(a: Box, b: Box) {
    a.y < b.y || (a.y == b.y && a.x < b.x)
  }

  /** Sorted by `(y, x)`: no box comes strictly before an earlier one. */
  predicate SortedByPosition(s: seq<Box>) {
    forall i, j :: 0 <= i < j < |s| ==> !PosLess(s[j], s[i])
  }

  /** Selects the boxes at position `(x, y)`. */
  function AtPos(y: int, x: int): Box -> bool {
    (b: Box) => b.y == y && b.x == x
  }

  /** A filter that rejects every element keeps nothing. */
  lemma {:induction false} FilterNone(s: seq<Box>, keep: Box -> bool)
    requires forall i :: 0 <= i < |s| ==> !keep(s[i])
    ensures Filter(s, keep) == []
  {
    if |s| > 0 {
      FilterNone(s[1..], keep);
    }
  }

  /** Where a stable insertion puts `b` into sorted `t`: after every box
      strictly before it and before every other box. */
  function InsertAt(b: Box, t: seq<Box>): (k: nat)
    ensures k <= |t|
    ensures forall i :: 0 <= i < k ==> PosLess(t[i], b)
    ensures k < |t| ==> !PosLess(t[k], b)
  {
    if |t| == 0 || !PosLess(t[0], b) then 0 else 1 + InsertAt(b, t[1..])
  }

  /** `b` inserted into `t` at `InsertAt(b, t)`. */
  function Insert(b: Box, t: seq<Box>): seq<Box> {
    t[..InsertAt(b, t)] + [b] + t[InsertAt(b, t)..]
  }

  /** Python's stable `sorted(boxes, key=(y, x))`, as an insertion sort. */
  function SortByPosition(s: seq<Box>): seq<Box> {
    if |s| == 0 then [] else Insert(s[0], SortByPosition(s[1..]))
  }

  /** Inserting into a sorted sequence keeps it sorted. */
  lemma InsertSorted(b: Box, t: seq<Box>)
    requires SortedByPosition(t)
    ensures SortedByPosition(Insert(b, t))
  {
    var k := InsertAt(b, t);
    var r := Insert(b, t);
    forall i, j | 0 <= i < j < |r|
      ensures !PosLess(r[j], r[i])
    {
      if j == k {
        assert r[i] == t[i];
      } else if i == k {
        assert r[j] == t[j - 1] && !PosLess(t[j - 1], t[k]);
      } else {
        var i' := if i < k then i else i - 1;
        var j' := if j < k then j else j - 1;
        assert r[i] == t[i'] && r[j] == t[j'];
      }
    }
  }

  /** Insertion puts `b` ahead of the boxes of `t` at its own position and
      leaves the boxes at every other position as they were. */
  lemma InsertAtPos(b: Box, t: seq<Box>, y: int, x: int)
    ensures Filter(Insert(b, t), AtPos(y, x)) == Filter([b], AtPos(y, x)) + Filter(t, AtPos(y, x))
  {
    var k := InsertAt(b, t);
    var keep := AtPos(y, x);
    var front, back := t[..k], t[k..];
    assert t == front + back;
    assert Insert(b, t) == (front + [b]) + back;
    FilterAppend(front + [b], back, keep);
    FilterAppend(front, [b], keep);
    FilterAppend(front, back, keep);
    var ff, fb, fk := Filter(front, keep), Filter([b], keep), Filter(back, keep);
    assert Filter(Insert(b, t), keep) == (ff + fb) + fk;
    assert Filter(t, keep) == ff + fk;
    if keep(b) {
      FilterNone(front, keep);
      assert ff + fb == fb;
      assert Filter(t, keep) == fk;
    } else {
      FilterNone([b], keep);
      assert ff + fb == ff;
      assert fb + Filter(t, keep) == ff + fk;
    }
  }

  /** The sort's result is sorted by `(y, x)`, is a permutation of its input,
      and keeps the boxes at each position in their input order: exactly
      what a stable sort by `(y, x)` promises. */
  lemma SortSpec(s: seq<Box>)
    ensures SortedByPosition(SortByPosition(s))
    ensures multiset(SortByPosition(s)) == multiset(s)
    ensures forall y, x :: Filter(SortByPosition(s), AtPos(y, x)) == Filter(s, AtPos(y, x))
  {
    SortPermutes(s);
    forall y, x
      ensures Filter(SortByPosition(s), AtPos(y, x)) == Filter(s, AtPos(y, x))
    {
      SortStable(s, y, x);
    }
  }

  lemma {:induction false} SortPermutes(s: seq<Box>)
    ensures SortedByPosition(SortByPosition(s))
    ensures multiset(SortByPosition(s)) == multiset(s)
  {
    if |s| > 0 {
      var t := SortByPosition(s[1..]);
      SortPermutes(s[1..]);
      InsertSorted(s[0], t);
      InsertMultiset(s[0], t);
      assert s == [s[0]] + s[1..];
    }
  }

  lemma InsertMultiset(b: Box, t: seq<Box>)
    ensures multiset(Insert(b, t)) == multiset(t) + multiset{b}
  {
    var k := InsertAt(b, t);
    assert t == t[..k] + t[k..];
    assert Insert(b, t) == t[..k] + [b] + t[k..];
  }

  lemma {:induction false} SortStable(s: seq<Box>, y: int, x: int)
    ensures Filter(SortByPosition(s), AtPos(y, x)) == Filter(s, AtPos(y, x))
  {
    if |s| > 0 {
      SortStable(s[1..], y, x);
      InsertAtPos(s[0], SortByPosition(s[1..]), y, x);
      assert s == [s[0]] + s[1..];
      FilterAppend([s[0]], s[1..], AtPos(y, x));
    }
  }

  /** What `detect_grid_dimensions` returns on success. */
  datatype Grid = Grid(cols: int, rows: int, sprites: seq<Box>)

  /** `detect_grid_dimensions`: no grid for an empty list or fewer than two
      boxes past the noise filter; otherwise the best factor pair of their
      count and the boxes sorted by `(y, x)`. */
  method DetectGridDimensions(sprites: seq<Box>, minSize: int) returns (r: Option<Grid>)
    ensures r.None? <==> |KeepSized(sprites, minSize)| < 2
    ensures r.Some? ==> IsBestGrid(r.value.cols, r.value.rows, |KeepSized(sprites, minSize)|)
    ensures r.Some? ==> r.value.sprites == SortByPosition(KeepSized(sprites, minSize))
  {
    if |sprites| == 0 {
      return None;
    }
    var kept := KeepSized(sprites, minSize);
    if |kept| < 2 {
      return None;
    }
    var fs := Factorizations(|kept|);
    ClosestIsBest(|kept|);
    var best := fs[FirstClosest(fs)];
    r := Some(Grid(best.0, best.1, SortByPosition(kept)));
  }

  /** The minimum box area `segment_sprites_from_spritesheet` keeps by default. */
  const DefaultMinArea := 5000

  /** The minimum box side `detect_grid_dimensions` keeps by default. */
  const DefaultMinSize := 10

  /** The sprites auto-detection works from: those found at the given
      tolerance, or, when none are found at the default tolerance 80,
      those found at tolerance 120. */
  ghost function DetectedSprites(img: Image, alphaThreshold: int, bg: Option<Rgb>, tolerance: int): seq<Box>
    requires IsRect(img) && CanDetect(img, bg)
  {
    var first := KeepLarge(ComponentBoxes(SheetMap(img, alphaThreshold, bg, tolerance)), DefaultMinArea);
    if |first| == 0 && tolerance == 80
    then KeepLarge(ComponentBoxes(SheetMap(img, alphaThreshold, bg, 120)), DefaultMinArea)
    else first
  }

  /** The auto-detection step of `spritesheet_to_gif`: segment, retry once
      at tolerance 120 when the default tolerance finds nothing, then choose
      the grid. `None` is the `ValueError` raised when no grid is found. */
  method AutoDetectGrid(img: Image, alphaThreshold: int, bg: Option<Rgb>, tolerance: int)
    returns (r: Option<(int, int)>)
    requires IsRect(img) && CanDetect(img, bg)
    ensures r.None? <==> |KeepSized(DetectedSprites(img, alphaThreshold, bg, tolerance), DefaultMinSize)| < 2
    ensures r.Some? ==> (r.value.0 >= 1 && r.value.1 >= 1 &&
      IsBestGrid(r.value.0, r.value.1, |KeepSized(DetectedSprites(img, alphaThreshold, bg, tolerance), DefaultMinSize)|))
  {
    var sprites := SegmentSprites(img, alphaThreshold, bg, tolerance, DefaultMinArea);
    if |sprites| == 0 && tolerance == 80 {
      sprites := SegmentSprites(img, alphaThreshold, bg, 120, DefaultMinArea);
    }
    var grid := DetectGridDimensions(sprites, DefaultMinSize);
    if grid.None? {
      return None;
    }
    var n := |KeepSized(sprites, DefaultMinSize)|;
    DivisorPair(n, grid.value.cols);
    r := Some((grid.value.cols, grid.value.rows));
  }
}
