/** 4-connected components of a foreground mask: the explicit-stack flood
    fill and the row-major seed scan of `segment_sprites_from_spritesheet`.
    The same scan, numbering each component, stands in for
    `scipy.ndimage.label` when white specks are labelled. */
module Components {
  import opened Pixels

  /** A pixel position; the flood fill also pushes positions just outside
      the image, so the coordinates are unbounded integers. */
  datatype Coord = Coord(x: int, y: int)

  /** A sprite box as the source returns it: `(x, y, width, height)`. */
  datatype Box = Box(x: int, y: int, w: int, h: int)

  /** A segmentation map: `m[y][x]` is true for foreground. */
  type Mask = seq<seq<bool>>

  /** `c` lies inside the mask and is foreground. */
  predicate Fg(m: Mask, c: Coord) {
    InGrid(m, c.x, c.y) && m[c.y][c.x]
  }

  /** Every position of the mask, foreground or not. */
  function Cells(m: Mask): set<Coord> {
    set y, x | 0 <= y < |m| && 0 <= x < |m[y]| :: Coord(x, y)
  }

  /** The four neighbours the flood fill pushes: right, left, down, up. */
  predicate Adjacent(p: Coord, q: Coord) {
    (p.y == q.y && (q.x == p.x + 1 || q.x == p.x - 1)) ||
    (p.x == q.x && (q.y == p.y + 1 || q.y == p.y - 1))
  }

  /** The step into `path[i]` is a 4-neighbour step. */
  predicate StepAt(path: seq<Coord>, i: int)
    requires 0 < i < |path|
  {
    Adjacent(path[i - 1], path[i])
  }

  /** A non-empty walk through foreground positions, one 4-neighbour step at a time. */
  ghost predicate IsPath(m: Mask, path: seq<Coord>) {
    && |path| > 0
    && (forall i :: 0 <= i < |path| ==> Fg(m, path[i]))
    && (forall i :: 0 < i < |path| ==> StepAt(path, i))
  }

  /** `path` is a walk from `p` to `q`. */
  ghost predicate PathBetween(m: Mask, path: seq<Coord>, p: Coord, q: Coord) {
    IsPath(m, path) && path[0] == p && path[|path| - 1] == q
  }

  /** `q` can be reached from `p` through 4-connected foreground. */
  ghost predicate Connected(m: Mask, p: Coord, q: Coord) {
    exists path :: PathBetween(m, path, p, q)
  }

  lemma ConnectedRefl(m: Mask, p: Coord)
    requires Fg(m, p)
    ensures Connected(m, p, p)
  {
    assert PathBetween(m, [p], p, p);
  }

  lemma ConnectedEnds(m: Mask, p: Coord, q: Coord)
    requires Connected(m, p, q)
    ensures Fg(m, p) && Fg(m, q)
  {
    var path :| PathBetween(m, path, p, q);
    assert Fg(m, path[|path| - 1]);
  }

  /** Extending a connection by one foreground neighbour. */
  lemma ConnectedStep(m: Mask, p: Coord, q: Coord, r: Coord)
    requires Connected(m, p, q) && Adjacent(q, r) && Fg(m, r)
    ensures Connected(m, p, r)
  {
    var path :| PathBetween(m, path, p, q);
    var longer := path + [r];
    forall i | 0 < i < |longer|
      ensures StepAt(longer, i)
    {
      if i < |path| {
        assert StepAt(path, i);
      }
    }
    assert PathBetween(m, longer, p, r);
  }

  lemma ConnectedSymmetric(m: Mask, p: Coord, q: Coord)
    requires Connected(m, p, q)
    ensures Connected(m, q, p)
  {
    var path :| PathBetween(m, path, p, q);
    var n := |path|;
    var back := seq(n, i requires 0 <= i < n => path[n - 1 - i]);
    forall i | 0 < i < n
      ensures StepAt(back, i)
    {
      assert StepAt(path, n - i);
    }
    assert PathBetween(m, back, q, p);
  }

  lemma ConnectedTrans(m: Mask, p: Coord, q: Coord, r: Coord)
    requires Connected(m, p, q) && Connected(m, q, r)
    ensures Connected(m, p, r)
  {
    var path1 :| PathBetween(m, path1, p, q);
    var path2 :| PathBetween(m, path2, q, r);
    var joined := path1 + path2[1..];
    forall i | 0 < i < |joined|
      ensures StepAt(joined, i)
    {
      if i >= |path1| {
        assert joined[i] == path2[i - |path1| + 1];
        assert joined[i - 1] == path2[i - |path1|];
        assert StepAt(path2, i - |path1| + 1);
      } else {
        assert StepAt(path1, i);
      }
    }
    assert joined[|joined| - 1] == r;
    assert PathBetween(m, joined, p, r);
  }

  /** A set of positions that contains every foreground neighbour of each of
      its members: the flood fill never leaves such a set once inside it. */
  ghost predicate Closed(m: Mask, s: set<Coord>) {
    forall p, q :: p in s && Adjacent(p, q) && Fg(m, q) ==> q in s
  }

  lemma {:induction false} ClosedAlongPath(m: Mask, s: set<Coord>, path: seq<Coord>, i: nat)
    requires Closed(m, s) && IsPath(m, path) && path[0] in s && i < |path|
    ensures path[i] in s
  {
    if i > 0 {
      ClosedAlongPath(m, s, path, i - 1);
      assert StepAt(path, i) && Fg(m, path[i]);
    }
  }

  /** A closed set that holds `p` holds everything connected to `p`. */
  lemma ClosedReach(m: Mask, s: set<Coord>, p: Coord, q: Coord)
    requires Closed(m, s) && p in s && Connected(m, p, q)
    ensures q in s
  {
    var path :| PathBetween(m, path, p, q);
    ClosedAlongPath(m, s, path, |path| - 1);
  }

  /** The 4-connected foreground component of `p`. */
  ghost function Component(m: Mask, p: Coord): (comp: set<Coord>)
    ensures forall c :: c in comp <==> Connected(m, p, c)
  {
    ComponentInMask(m, p);
    ComponentRows(m, p, |m|)
  }

  /** The part of the component of `p` in the first `n` rows; building it
      row by row keeps its definition from being unfolded all at once. */
  ghost function ComponentRows(m: Mask, p: Coord, n: nat): (r: set<Coord>)
    requires n <= |m|
    ensures forall c {:trigger c in r} {:trigger Connected(m, p, c)} ::
      c in r <==> 0 <= c.y < n && InGrid(m, c.x, c.y) && Connected(m, p, c)
  {
    if n == 0 then {}
    else
      var y := n - 1;
      ComponentInMask(m, p);
      ComponentRows(m, p, y) + set x | 0 <= x < |m[y]| && Connected(m, p, Coord(x, y)) :: Coord(x, y)
  }

  lemma ComponentInMask(m: Mask, p: Coord)
    ensures forall c {:trigger Connected(m, p, c)} :: Connected(m, p, c) ==> InGrid(m, c.x, c.y)
  {
    forall c | Connected(m, p, c)
      ensures InGrid(m, c.x, c.y)
    {
      ConnectedEnds(m, p, c);
    }
  }

  /** A component contains every foreground neighbour of its members. */
  lemma ComponentClosed(m: Mask, p: Coord)
    ensures Closed(m, Component(m, p))
  {
    forall a, b | a in Component(m, p) && Adjacent(a, b) && Fg(m, b)
      ensures b in Component(m, p)
    {
      ConnectedStep(m, p, a, b);
    }
  }

  /** Connected positions have the same component. */
  lemma SameComponent(m: Mask, p: Coord, q: Coord)
    requires Connected(m, p, q)
    ensures Component(m, p) == Component(m, q)
  {
    ConnectedSymmetric(m, p, q);
    forall c | c in Component(m, q) ensures c in Component(m, p) {
      ConnectedTrans(m, p, q, c);
    }
    forall c | c in Component(m, p) ensures c in Component(m, q) {
      ConnectedTrans(m, q, p, c);
    }
  }

  /** Every position of `s` lies inside `b`. */
  ghost predicate Encloses(b: Box, s: set<Coord>) {
    forall c {:trigger c in s} :: c in s ==> b.x <= c.x < b.x + b.w && b.y <= c.y < b.y + b.h
  }

  /** `b` is the tight bounding box of `s`: it encloses `s` and each of its
      four edges passes through a member of `s`. */
  ghost predicate IsBoundingBox(b: Box, s: set<Coord>) {
    && Encloses(b, s)
    && (exists c {:trigger c in s} :: c in s && c.x == b.x)
    && (exists c {:trigger c in s} :: c in s && c.x == b.x + b.w - 1)
    && (exists c {:trigger c in s} :: c in s && c.y == b.y)
    && (exists c {:trigger c in s} :: c in s && c.y == b.y + b.h - 1)
  }

  /** The box spanned by inclusive extremes, as `flood_fill` returns it. */
  function BoxOf(minX: int, minY: int, maxX: int, maxY: int): Box {
    Box(minX, minY, maxX - minX + 1, maxY - minY + 1)
  }

  /** The smallest box holding `b` and `c`. */
  function Extend(b: Box, c: Coord): Box {
    BoxOf(Min(b.x, c.x), Min(b.y, c.y), Max(b.x + b.w - 1, c.x), Max(b.y + b.h - 1, c.y))
  }

  lemma ExtendBoundingBox(b: Box, s: set<Coord>, c: Coord)
    requires IsBoundingBox(b, s)
    ensures IsBoundingBox(Extend(b, c), s + {c})
  {
    var e := Extend(b, c);
    var l :| l in s && l.x == b.x;
    var r :| r in s && r.x == b.x + b.w - 1;
    var t :| t in s && t.y == b.y;
    var u :| u in s && u.y == b.y + b.h - 1;
    assert (if c.x < b.x then c else l).x == e.x;
    assert (if c.x > b.x + b.w - 1 then c else r).x == e.x + e.w - 1;
    assert (if c.y < b.y then c else t).y == e.y;
    assert (if c.y > b.y + b.h - 1 then c else u).y == e.y + e.h - 1;
  }

  /** A bounding box is at least one pixel wide and high. */
  lemma BoundingBoxNonEmpty(b: Box, s: set<Coord>)
    requires IsBoundingBox(b, s)
    ensures b.w >= 1 && b.h >= 1
  {
    var l :| l in s && l.x == b.x;
    var t :| t in s && t.y == b.y;
  }

  /** A set has at most one tight bounding box. */
  lemma BoundingBoxUnique(b1: Box, b2: Box, s: set<Coord>)
    requires IsBoundingBox(b1, s) && IsBoundingBox(b2, s)
    ensures b1 == b2
  {
    var l1 :| l1 in s && l1.x == b1.x;
    var l2 :| l2 in s && l2.x == b2.x;
    var r1 :| r1 in s && r1.x == b1.x + b1.w - 1;
    var r2 :| r2 in s && r2.x == b2.x + b2.w - 1;
    var t1 :| t1 in s && t1.y == b1.y;
    var t2 :| t2 in s && t2.y == b2.y;
    var u1 :| u1 in s && u1.y == b1.y + b1.h - 1;
    var u2 :| u2 in s && u2.y == b2.y + b2.h - 1;
  }

  /** Some member of a non-empty set, always the same one. */
  ghost function Pick(s: set<Coord>): (c: Coord)
    requires s != {}
    ensures c in s
  {
    var c :| c in s; c
  }

  /** The bounding box of a non-empty set of positions, grown one member
      at a time; `BoundingBoxTight` shows it is the tight one. */
  ghost function BoundingBox(s: set<Coord>): Box
    requires s != {}
    decreases |s|
  {
    var c := Pick(s);
    if s == {c} then Box(c.x, c.y, 1, 1) else Extend(BoundingBox(s - {c}), c)
  }

  lemma {:induction false} BoundingBoxTight(s: set<Coord>)
    requires s != {}
    ensures IsBoundingBox(BoundingBox(s), s)
    decreases |s|
  {
    var c := Pick(s);
    if s != {c} {
      BoundingBoxTight(s - {c});
      ExtendBoundingBox(BoundingBox(s - {c}), s - {c}, c);
      assert s - {c} + {c} == s;
    }
  }

  /** The tight bounding box of the component of foreground position `p`. */
  ghost function ComponentBox(m: Mask, p: Coord): Box
    requires Fg(m, p)
  {
    ConnectedRefl(m, p);
    BoundingBox(Component(m, p))
  }

  /** The marks array is non-zero exactly at the members of `covered`. */
  ghost predicate MarksCover(marks: array2<int>, covered: set<Coord>)
    reads marks
  {
    forall y, x :: 0 <= y < marks.Length0 && 0 <= x < marks.Length1 ==>
      (marks[y, x] != 0 <==> Coord(x, y) in covered)
  }

  lemma InCells(m: Mask, c: Coord)
    requires InGrid(m, c.x, c.y)
    ensures c in Cells(m)
  {
    assert c == Coord(c.x, c.y);
  }

  /** The positions `flood_fill` pushes after marking `q`, in its order. */
  function Neighbours(q: Coord): seq<Coord> {
    [Coord(q.x + 1, q.y), Coord(q.x - 1, q.y), Coord(q.x, q.y + 1), Coord(q.x, q.y - 1)]
  }

  /** Every foreground position on the stack is connected to the seed. */
  ghost predicate StackSound(m: Mask, seed: Coord, stack: seq<Coord>) {
    forall i :: 0 <= i < |stack| && Fg(m, stack[i]) ==> Connected(m, seed, stack[i])
  }

  /** Every foreground neighbour of a filled position is still on the stack,
      filled, or marked by an earlier fill. */
  ghost predicate Frontier(m: Mask, filled: set<Coord>, covered: set<Coord>, stack: seq<Coord>) {
    forall p, q :: p in filled && Adjacent(p, q) && Fg(m, q) ==> q in stack || q in filled || q in covered
  }

  lemma VisitStep(m: Mask, seed: Coord, rest: seq<Coord>, q: Coord)
    requires StackSound(m, seed, rest + [q]) && Fg(m, q)
    ensures Connected(m, seed, q)
    ensures StackSound(m, seed, rest + Neighbours(q))
  {
    assert (rest + [q])[|rest|] == q;
    var next := rest + Neighbours(q);
    forall i | 0 <= i < |next| && Fg(m, next[i])
      ensures Connected(m, seed, next[i])
    {
      if i < |rest| {
        assert next[i] == (rest + [q])[i];
      } else {
        assert next[i] == Neighbours(q)[i - |rest|];
        ConnectedStep(m, seed, q, next[i]);
      }
    }
  }

  lemma VisitFrontier(m: Mask, covered: set<Coord>, filled: set<Coord>, rest: seq<Coord>, q: Coord)
    requires Frontier(m, filled, covered, rest + [q])
    ensures Frontier(m, filled + {q}, covered, rest + Neighbours(q))
  {
    var next := rest + Neighbours(q);
    forall p, r | p in filled + {q} && Adjacent(p, r) && Fg(m, r)
      ensures r in next || r in filled + {q} || r in covered
    {
      if p == q {
        assert r in Neighbours(q);
      } else if r in rest + [q] && r != q {
        assert r in rest;
      }
    }
  }

  lemma DiscardStep(m: Mask, seed: Coord, covered: set<Coord>, filled: set<Coord>, rest: seq<Coord>, q: Coord)
    requires StackSound(m, seed, rest + [q]) && Frontier(m, filled, covered, rest + [q])
    requires !Fg(m, q) || q in filled || q in covered
    ensures StackSound(m, seed, rest) && Frontier(m, filled, covered, rest)
  {
    forall i | 0 <= i < |rest| && Fg(m, rest[i])
      ensures Connected(m, seed, rest[i])
    {
      assert rest[i] == (rest + [q])[i];
    }
    forall p, r | p in filled && Adjacent(p, r) && Fg(m, r)
      ensures r in rest || r in filled || r in covered
    {
      if r in rest + [q] && r != q {
        assert r in rest;
      }
    }
  }

  lemma BoxStep(filled: set<Coord>, q: Coord, minX: int, minY: int, maxX: int, maxY: int)
    requires filled != {} ==> IsBoundingBox(BoxOf(minX, minY, maxX, maxY), filled)
    requires filled == {} ==> minX == maxX == q.x && minY == maxY == q.y
    ensures IsBoundingBox(BoxOf(Min(minX, q.x), Min(minY, q.y), Max(maxX, q.x), Max(maxY, q.y)), filled + {q})
  {
    if filled == {} {
      assert filled + {q} == {q};
    } else {
      ExtendBoundingBox(BoxOf(minX, minY, maxX, maxY), filled, q);
    }
  }

  /** What holds of the fill between two pops: everything filled is in the
      seed's component and was not covered before, the stack holds only
      positions connected to the seed, no foreground neighbour of a filled
      position has been lost, and the extremes span what is filled. */
  ghost predicate FillInv(m: Mask, seed: Coord, covered: set<Coord>, filled: set<Coord>, stack: seq<Coord>,
                          minX: int, minY: int, maxX: int, maxY: int)
  {
    && Fg(m, seed) && seed !in covered
    && filled <= Cells(m) && filled !! covered
    && (forall c :: c in filled ==> Connected(m, seed, c))
    && StackSound(m, seed, stack) && Frontier(m, filled, covered, stack)
    && (seed in filled || (filled == {} && stack == [seed]))
    && (filled != {} ==> IsBoundingBox(BoxOf(minX, minY, maxX, maxY), filled))
    && (filled == {} ==> minX == maxX == seed.x && minY == maxY == seed.y)
  }

  lemma FillVisit(m: Mask, seed: Coord, covered: set<Coord>, filled: set<Coord>, rest: seq<Coord>, q: Coord,
                  minX: int, minY: int, maxX: int, maxY: int)
    requires FillInv(m, seed, covered, filled, rest + [q], minX, minY, maxX, maxY)
    requires Fg(m, q) && q !in filled && q !in covered
    ensures FillInv(m, seed, covered, filled + {q}, rest + Neighbours(q),
                    Min(minX, q.x), Min(minY, q.y), Max(maxX, q.x), Max(maxY, q.y))
  {
    VisitStep(m, seed, rest, q);
    VisitFrontier(m, covered, filled, rest, q);
    if filled == {} {
      assert rest + [q] == [seed];
      assert (rest + [q])[|rest|] == q;
    }
    BoxStep(filled, q, minX, minY, maxX, maxY);
    InCells(m, q);
  }

  lemma FillDiscard(m: Mask, seed: Coord, covered: set<Coord>, filled: set<Coord>, rest: seq<Coord>, q: Coord,
                    minX: int, minY: int, maxX: int, maxY: int)
    requires FillInv(m, seed, covered, filled, rest + [q], minX, minY, maxX, maxY)
    requires !Fg(m, q) || q in filled || q in covered
    requires filled != {}
    ensures FillInv(m, seed, covered, filled, rest, minX, minY, maxX, maxY)
  {
    DiscardStep(m, seed, covered, filled, rest, q);
  }

  lemma SplitLast<T>(s: seq<T>)
    requires |s| > 0
    ensures s == s[..|s| - 1] + [s[|s| - 1]]
  {
  }

  /** `flood_fill`: pops positions off an explicit stack, skips those that
      are outside the image, already marked or background, marks the rest
      with `mark`, widens the running extremes and pushes the four
      neighbours. `covered` is what earlier fills marked: a union of whole
      components that does not hold the seed. The fill marks exactly the
      seed's component, each of its pixels once, and returns its tight
      bounding box. */
  method FloodFill(m: Mask, marks: array2<int>, mark: int, seed: Coord, ghost covered: set<Coord>)
    returns (box: Box)
    requires IsRect(m) && marks.Length0 == |m| && marks.Length1 == Width(m)
    requires mark != 0 && Fg(m, seed) && seed !in covered
    requires Closed(m, covered) && MarksCover(marks, covered)
    modifies marks
    ensures Component(m, seed) !! covered
    ensures forall y, x :: 0 <= y < |m| && 0 <= x < Width(m) ==>
      marks[y, x] == if Coord(x, y) in Component(m, seed) then mark else old(marks[y, x])
    ensures box == ComponentBox(m, seed)
  {
    var minX, minY, maxX, maxY, filled := FillLoop(m, marks, mark, seed, covered);
    FillIsComponent(m, seed, covered, filled);
    box := BoxOf(minX, minY, maxX, maxY);
    ConnectedRefl(m, seed);
    BoundingBoxTight(filled);
    BoundingBoxUnique(box, BoundingBox(filled), filled);
  }

  /** The stack loop of `flood_fill`, up to the point where the stack is empty. */
  method FillLoop(m: Mask, marks: array2<int>, mark: int, seed: Coord, ghost covered: set<Coord>)
    returns (minX: int, minY: int, maxX: int, maxY: int, ghost filled: set<Coord>)
    requires IsRect(m) && marks.Length0 == |m| && marks.Length1 == Width(m)
    requires mark != 0 && Fg(m, seed) && seed !in covered
    requires MarksCover(marks, covered)
    modifies marks
    ensures FillInv(m, seed, covered, filled, [], minX, minY, maxX, maxY)
    ensures forall y, x :: 0 <= y < |m| && 0 <= x < Width(m) ==>
      marks[y, x] == if Coord(x, y) in filled then mark else old(marks[y, x])
  {
    var stack := [seed];
    minX, maxX, minY, maxY := seed.x, seed.x, seed.y, seed.y;
    filled := {};
    ConnectedRefl(m, seed);
    while |stack| > 0
      invariant FillInv(m, seed, covered, filled, stack, minX, minY, maxX, maxY)
      invariant forall y, x :: 0 <= y < |m| && 0 <= x < Width(m) ==>
        marks[y, x] == if Coord(x, y) in filled then mark else old(marks[y, x])
      decreases Cells(m) - filled, |stack|
    {
      var q := stack[|stack| - 1];
      var rest := stack[..|stack| - 1];
      SplitLast(stack);
      stack := rest;
      if q.x < 0 || q.x >= Width(m) || q.y < 0 || q.y >= |m| || marks[q.y, q.x] != 0 || !m[q.y][q.x] {
        assert filled != {};
        FillDiscard(m, seed, covered, filled, rest, q, minX, minY, maxX, maxY);
        continue;
      }
      assert q !in filled && q !in covered;
      marks[q.y, q.x] := mark;
      forall y, x | 0 <= y < |m| && 0 <= x < Width(m)
        ensures marks[y, x] == if Coord(x, y) in filled + {q} then mark else old(marks[y, x])
      {
        if y != q.y || x != q.x {
          assert Coord(x, y) != q;
        }
      }
      FillVisit(m, seed, covered, filled, rest, q, minX, minY, maxX, maxY);
      InCells(m, q);
      filled := filled + {q};
      minX, maxX := Min(minX, q.x), Max(maxX, q.x);
      minY, maxY := Min(minY, q.y), Max(maxY, q.y);
      stack := stack + Neighbours(q);
    }
  }

  /** When the fill's stack runs dry, what it filled is the seed's component. */
  lemma FillIsComponent(m: Mask, seed: Coord, covered: set<Coord>, filled: set<Coord>)
    requires Closed(m, covered) && seed in filled && filled !! covered
    requires forall c :: c in filled ==> Connected(m, seed, c)
    requires forall p, q :: p in filled && Adjacent(p, q) && Fg(m, q) ==> q in filled || q in covered
    ensures filled == Component(m, seed) && Component(m, seed) !! covered
  {
    assert Closed(m, filled + covered);
    forall c | c in Component(m, seed)
      ensures c in filled
    {
      ClosedReach(m, filled + covered, seed, c);
      if c in covered {
        ConnectedSymmetric(m, seed, c);
        ClosedReach(m, covered, c, seed);
      }
    }
  }

  /** `q` comes before `p` in the scan's row-major order. */
  predicate Before(q: Coord, p: Coord) {
    q.y < p.y || (q.y == p.y && q.x < p.x)
  }

  /** `p` is where the scan starts a fill: it is foreground and no position
      before it is connected to it, i.e. it is the first pixel of its
      component in row-major order. */
  ghost predicate IsSeed(m: Mask, p: Coord) {
    Fg(m, p) && forall q :: Before(q, p) ==> !Connected(m, q, p)
  }

  /** The seeds strictly before position `(x, y)`, in row-major order. */
  ghost function SeedsBefore(m: Mask, y: nat, x: nat): seq<Coord>
    decreases y, x
  {
    if x == 0 then
      (if y == 0 then [] else SeedsBefore(m, y - 1, Width(m)))
    else
      SeedsBefore(m, y, x - 1) + (if IsSeed(m, Coord(x - 1, y)) then [Coord(x - 1, y)] else [])
  }

  /** All seeds of the mask, in the order the scan meets them. */
  ghost function Seeds(m: Mask): seq<Coord> {
    SeedsBefore(m, |m|, 0)
  }

  lemma {:induction false} SeedsBeforeSpec(m: Mask, y: nat, x: nat)
    requires IsRect(m) && x <= Width(m)
    ensures forall c :: c in SeedsBefore(m, y, x) <==> IsSeed(m, c) && Before(c, Coord(x, y))
    ensures forall i, j :: 0 <= i < j < |SeedsBefore(m, y, x)| ==>
      Before(SeedsBefore(m, y, x)[i], SeedsBefore(m, y, x)[j])
    decreases y, x
  {
    if x == 0 {
      if y > 0 {
        SeedsBeforeSpec(m, y - 1, Width(m));
      }
    } else {
      SeedsBeforeSpec(m, y, x - 1);
    }
  }

  /** The seeds are the scan's seeds: the positions it starts a fill from,
      strictly increasing in row-major order. */
  lemma SeedsSpec(m: Mask)
    requires IsRect(m)
    ensures forall c :: c in Seeds(m) <==> IsSeed(m, c)
    ensures forall i :: 0 <= i < |Seeds(m)| ==> IsSeed(m, Seeds(m)[i])
    ensures forall i, j :: 0 <= i < j < |Seeds(m)| ==> Before(Seeds(m)[i], Seeds(m)[j])
  {
    SeedsBeforeSpec(m, |m|, 0);
    forall i | 0 <= i < |Seeds(m)|
      ensures IsSeed(m, Seeds(m)[i])
    {
      assert Seeds(m)[i] in Seeds(m);
    }
  }

  /** Following earlier connected positions from `p` ends at a seed: the
      first pixel in row-major order of the component holding `c`. */
  lemma {:induction false} SeedOf(m: Mask, p: Coord, c: Coord)
    requires IsRect(m) && Connected(m, p, c)
    ensures exists s :: IsSeed(m, s) && Connected(m, s, c)
    decreases p.y, p.x
  {
    ConnectedEnds(m, p, c);
    if !IsSeed(m, p) {
      var q :| Before(q, p) && Connected(m, q, p);
      ConnectedEnds(m, q, p);
      ConnectedTrans(m, q, p, c);
      SeedOf(m, q, c);
    }
  }

  /** Distinct seeds lie in distinct components. */
  lemma SeedsNotConnected(m: Mask, i: int, j: int)
    requires IsRect(m) && 0 <= i < |Seeds(m)| && 0 <= j < |Seeds(m)| && i != j
    ensures !Connected(m, Seeds(m)[i], Seeds(m)[j])
  {
    SeedsSpec(m);
    var a, b := Seeds(m)[i], Seeds(m)[j];
    if i > j && Connected(m, a, b) {
      ConnectedSymmetric(m, a, b);
    }
  }

  /** The seeds number the components: every foreground pixel is connected
      to exactly one seed. So the scan finds exactly one box per component. */
  lemma OneSeedPerComponent(m: Mask, c: Coord)
    requires IsRect(m) && Fg(m, c)
    ensures exists i :: 0 <= i < |Seeds(m)| && Connected(m, Seeds(m)[i], c)
    ensures forall i, j ::
      (0 <= i < |Seeds(m)| && 0 <= j < |Seeds(m)| &&
       Connected(m, Seeds(m)[i], c) && Connected(m, Seeds(m)[j], c)) ==> i == j
  {
    SeedsSpec(m);
    ConnectedRefl(m, c);
    SeedOf(m, c, c);
    var s :| IsSeed(m, s) && Connected(m, s, c);
    var k :| 0 <= k < |Seeds(m)| && Seeds(m)[k] == s;
    forall i, j | 0 <= i < |Seeds(m)| && 0 <= j < |Seeds(m)| &&
      Connected(m, Seeds(m)[i], c) && Connected(m, Seeds(m)[j], c)
      ensures i == j
    {
      if i != j {
        ConnectedSymmetric(m, Seeds(m)[j], c);
        ConnectedTrans(m, Seeds(m)[i], c, Seeds(m)[j]);
        SeedsNotConnected(m, i, j);
      }
    }
  }

  /** The bounding boxes of the components of `seeds`, in order. */
  ghost function BoxesOf(m: Mask, seeds: seq<Coord>): (boxes: seq<Box>)
    requires forall i :: 0 <= i < |seeds| ==> Fg(m, seeds[i])
    ensures |boxes| == |seeds|
    decreases |seeds|
  {
    if |seeds| == 0 then []
    else BoxesOf(m, seeds[..|seeds| - 1]) + [ComponentBox(m, seeds[|seeds| - 1])]
  }

  lemma BoxesOfSnoc(m: Mask, seeds: seq<Coord>, p: Coord)
    requires forall i :: 0 <= i < |seeds| ==> Fg(m, seeds[i])
    requires Fg(m, p)
    ensures BoxesOf(m, seeds + [p]) == BoxesOf(m, seeds) + [ComponentBox(m, p)]
  {
    assert (seeds + [p])[..|seeds|] == seeds;
  }

  lemma SeedsBoxes(m: Mask, seeds: seq<Coord>)
    requires IsRect(m) && seeds == Seeds(m)
    ensures forall i :: 0 <= i < |seeds| ==> Fg(m, seeds[i])
    ensures BoxesOf(m, seeds) == ComponentBoxes(m)
  {
    SeedsSpec(m);
  }

  /** The boxes the scan emits: one bounding box per component, in the
      row-major order of the components' first pixels. */
  ghost function ComponentBoxes(m: Mask): seq<Box>
    requires IsRect(m)
  {
    SeedsSpec(m);
    BoxesOf(m, Seeds(m))
  }

  lemma {:induction false} BoxesOfAt(m: Mask, seeds: seq<Coord>, i: int)
    requires forall j :: 0 <= j < |seeds| ==> Fg(m, seeds[j])
    requires 0 <= i < |seeds|
    ensures BoxesOf(m, seeds)[i] == ComponentBox(m, seeds[i])
    decreases |seeds|
  {
    if i < |seeds| - 1 {
      BoxesOfAt(m, seeds[..|seeds| - 1], i);
    }
  }

  /** `b` has at least one pixel and lies inside the mask. */
  predicate BoxInside(b: Box, m: Mask) {
    b.w >= 1 && b.h >= 1 && 0 <= b.x && b.x + b.w <= Width(m) && 0 <= b.y && b.y + b.h <= |m|
  }

  /** The box of a component is its tight bounding box, at least one pixel
      wide and high, and inside the mask. */
  lemma ComponentBoxInside(m: Mask, p: Coord)
    requires IsRect(m) && Fg(m, p)
    ensures IsBoundingBox(ComponentBox(m, p), Component(m, p))
    ensures BoxInside(ComponentBox(m, p), m)
  {
    ConnectedRefl(m, p);
    var comp := Component(m, p);
    var b := ComponentBox(m, p);
    BoundingBoxTight(comp);
    BoundingBoxNonEmpty(b, comp);
    ComponentInMask(m, p);
    var l :| l in comp && l.x == b.x;
    var r :| r in comp && r.x == b.x + b.w - 1;
    var t :| t in comp && t.y == b.y;
    var u :| u in comp && u.y == b.y + b.h - 1;
    assert Connected(m, p, l) && Connected(m, p, r) && Connected(m, p, t) && Connected(m, p, u);
  }

  /** The scan's boxes, one per seed: the i-th is the tight bounding box of
      the component whose first pixel is the i-th seed, inside the mask. */
  lemma ComponentBoxesSpec(m: Mask)
    requires IsRect(m)
    ensures |ComponentBoxes(m)| == |Seeds(m)|
    ensures forall i :: 0 <= i < |Seeds(m)| ==>
      Fg(m, Seeds(m)[i]) && ComponentBoxes(m)[i] == ComponentBox(m, Seeds(m)[i])
    ensures forall i :: 0 <= i < |Seeds(m)| ==>
      IsBoundingBox(ComponentBoxes(m)[i], Component(m, Seeds(m)[i])) && BoxInside(ComponentBoxes(m)[i], m)
  {
    SeedsSpec(m);
    forall i | 0 <= i < |Seeds(m)|
      ensures ComponentBoxes(m)[i] == ComponentBox(m, Seeds(m)[i])
      ensures IsBoundingBox(ComponentBoxes(m)[i], Component(m, Seeds(m)[i])) && BoxInside(ComponentBoxes(m)[i], m)
    {
      BoxesOfAt(m, Seeds(m), i);
      ComponentBoxInside(m, Seeds(m)[i]);
    }
  }

  /** Every foreground pixel belongs to the component of exactly one seed,
      so exactly one emitted box is the box of its component, and that box
      encloses it. */
  lemma PixelInOneBox(m: Mask, c: Coord)
    requires IsRect(m) && Fg(m, c)
    ensures exists i :: 0 <= i < |Seeds(m)| && c in Component(m, Seeds(m)[i])
    ensures forall i, j ::
      (0 <= i < |Seeds(m)| && 0 <= j < |Seeds(m)| &&
       c in Component(m, Seeds(m)[i]) && c in Component(m, Seeds(m)[j])) ==> i == j
    ensures forall i :: 0 <= i < |Seeds(m)| && c in Component(m, Seeds(m)[i]) ==>
      Encloses(ComponentBoxes(m)[i], {c})
  {
    OneSeedPerComponent(m, c);
    var k :| 0 <= k < |Seeds(m)| && Connected(m, Seeds(m)[k], c);
    assert c in Component(m, Seeds(m)[k]);
    forall i | 0 <= i < |Seeds(m)| && c in Component(m, Seeds(m)[i])
      ensures Encloses(ComponentBoxes(m)[i], {c})
    {
      BoxEnclosesMember(m, i, c);
    }
  }

  lemma BoxEnclosesMember(m: Mask, i: int, c: Coord)
    requires IsRect(m) && 0 <= i < |Seeds(m)|
    requires Fg(m, Seeds(m)[i]) && c in Component(m, Seeds(m)[i])
    ensures Encloses(ComponentBoxes(m)[i], {c})
  {
    ComponentBoxesSpec(m);
    var comp := Component(m, Seeds(m)[i]);
    assert IsBoundingBox(ComponentBoxes(m)[i], comp);
    assert Encloses(ComponentBoxes(m)[i], comp);
  }

  /** The mark a fill writes: the component number when numbering
      (as `ndimage.label` does), else 1 (as `visited[y, x] = 1` does). */
  function MarkFor(numbered: bool, k: nat): int {
    if numbered then k + 1 else 1
  }

  /** What holds between two steps of the seed scan at position `(x, y)`:
      `seeds` are the seeds met so far;
      `owner` maps every pixel of those components to the index of its seed,
      and holds every foreground pixel before `(x, y)`. */
  ghost predicate ScanState(m: Mask, y: nat, x: nat, seeds: seq<Coord>, owner: map<Coord, nat>)
  {
    && IsRect(m) && x <= Width(m)
    && seeds == SeedsBefore(m, y, x)
    && (forall i :: 0 <= i < |seeds| ==> Fg(m, seeds[i]))
    && Closed(m, owner.Keys)
    && (forall c :: c in owner ==> owner[c] < |seeds| && Connected(m, seeds[owner[c]], c))
    && (forall c :: Fg(m, c) && Before(c, Coord(x, y)) ==> c in owner)
  }

  /** `owner` extended by giving every position of `comp` the index `k`. */
  ghost function Claim(owner: map<Coord, nat>, comp: set<Coord>, k: nat): (owner': map<Coord, nat>)
    ensures owner'.Keys == owner.Keys + comp
    ensures forall c :: c in owner' ==> owner'[c] == if c in comp then k else owner[c]
  {
    owner + map c | c in comp :: k
  }

  /** The marks array holds each owned pixel's mark and 0 elsewhere. */
  ghost predicate MarksMatch(marks: array2<int>, owner: map<Coord, nat>, numbered: bool)
    reads marks
  {
    forall y, x {:trigger marks[y, x]} :: 0 <= y < marks.Length0 && 0 <= x < marks.Length1 ==>
      marks[y, x] == if Coord(x, y) in owner then MarkFor(numbered, owner[Coord(x, y)]) else 0
  }

  lemma {:induction false} ScanStart(m: Mask)
    requires IsRect(m)
    ensures ScanState(m, 0, 0, [], map[])
  {
  }

  /** An unmarked foreground pixel met by the scan is a seed. */
  lemma {:induction false} ScanMeetsSeed(m: Mask, y: nat, x: nat, seeds: seq<Coord>, owner: map<Coord, nat>)
    requires ScanState(m, y, x, seeds, owner) && x < Width(m)
    requires Fg(m, Coord(x, y)) && Coord(x, y) !in owner
    ensures IsSeed(m, Coord(x, y))
    ensures SeedsBefore(m, y, x + 1) == seeds + [Coord(x, y)]
  {
    var p := Coord(x, y);
    forall q | Before(q, p)
      ensures !Connected(m, q, p)
    {
      if Connected(m, q, p) {
        ConnectedEnds(m, q, p);
        ClosedReach(m, owner.Keys, q, p);
      }
    }
  }

  lemma {:induction false} ScanFill(m: Mask, y: nat, x: nat, seeds: seq<Coord>, owner: map<Coord, nat>)
    requires ScanState(m, y, x, seeds, owner) && x < Width(m)
    requires IsSeed(m, Coord(x, y)) && SeedsBefore(m, y, x + 1) == seeds + [Coord(x, y)]
    requires Component(m, Coord(x, y)) !! owner.Keys
    ensures ScanState(m, y, x + 1, seeds + [Coord(x, y)], Claim(owner, Component(m, Coord(x, y)), |seeds|))
  {
    var p := Coord(x, y);
    var comp := Component(m, p);
    var owner' := Claim(owner, comp, |seeds|);
    var seeds' := seeds + [p];
    ComponentClosed(m, p);
    assert Closed(m, owner'.Keys);
    forall c | c in owner'
      ensures owner'[c] < |seeds'| && Connected(m, seeds'[owner'[c]], c)
    {
      if c in comp {
        assert owner'[c] == |seeds|;
      } else {
        assert owner'[c] == owner[c];
      }
    }
    forall c | Fg(m, c) && Before(c, Coord(x + 1, y))
      ensures c in owner'
    {
      if c == p {
        ConnectedRefl(m, p);
      } else {
        assert Before(c, p);
      }
    }
    forall i | 0 <= i < |seeds'|
      ensures Fg(m, seeds'[i])
    {
      if i < |seeds| {
        assert seeds'[i] == seeds[i];
      }
    }
    assert ScanState(m, y, x + 1, seeds', owner');
  }

  lemma {:induction false} ScanSkip(m: Mask, y: nat, x: nat, seeds: seq<Coord>, owner: map<Coord, nat>)
    requires ScanState(m, y, x, seeds, owner) && x < Width(m)
    requires !Fg(m, Coord(x, y)) || Coord(x, y) in owner
    ensures ScanState(m, y, x + 1, seeds, owner)
  {
    var p := Coord(x, y);
    forall c | Fg(m, c) && Before(c, Coord(x + 1, y))
      ensures c in owner
    {
      if c != p {
        assert Before(c, p);
      }
    }
    if Fg(m, p) {
      var j := owner[p];
      SeedsBeforeSpec(m, y, x);
      assert seeds[j] in SeedsBefore(m, y, x);
      assert Before(seeds[j], p) && Connected(m, seeds[j], p);
    }
    assert !IsSeed(m, p);
  }

  lemma {:induction false} ScanRowDone(m: Mask, y: nat, seeds: seq<Coord>, owner: map<Coord, nat>)
    requires ScanState(m, y, Width(m), seeds, owner)
    ensures ScanState(m, y + 1, 0, seeds, owner)
  {
  }

  lemma {:induction false} ScanDone(m: Mask, seeds: seq<Coord>, owner: map<Coord, nat>, marks: array2<int>, numbered: bool)
    requires ScanState(m, |m|, 0, seeds, owner) && MarksMatch(marks, owner, numbered)
    requires marks.Length0 == |m| && marks.Length1 == Width(m)
    ensures seeds == Seeds(m)
    ensures forall y, x :: 0 <= y < |m| && 0 <= x < Width(m) ==> (marks[y, x] == 0 <==> !m[y][x])
    ensures !numbered ==> forall y, x :: 0 <= y < |m| && 0 <= x < Width(m) && m[y][x] ==> marks[y, x] == 1
    ensures numbered ==> forall y, x :: 0 <= y < |m| && 0 <= x < Width(m) && m[y][x] ==>
      1 <= marks[y, x] <= |Seeds(m)| && Connected(m, Seeds(m)[marks[y, x] - 1], Coord(x, y))
  {
    forall y, x | 0 <= y < |m| && 0 <= x < Width(m)
      ensures Coord(x, y) in owner <==> m[y][x]
    {
      var c := Coord(x, y);
      if c in owner {
        ConnectedEnds(m, seeds[owner[c]], c);
      } else {
        assert !Fg(m, c);
      }
    }
    if numbered {
      forall y, x | 0 <= y < |m| && 0 <= x < Width(m) && m[y][x]
        ensures 1 <= marks[y, x] <= |seeds| && Connected(m, seeds[marks[y, x] - 1], Coord(x, y))
      {
        var c := Coord(x, y);
        assert c in owner && marks[y, x] == owner[c] + 1;
      }
    }
  }

  /** The flood fill as the scan uses it: fills the component of `p` with
      the mark of component number `k` and claims it in `owner`. */
  method FillComponent(m: Mask, marks: array2<int>, numbered: bool, p: Coord, k: nat, ghost owner: map<Coord, nat>)
    returns (box: Box)
    requires IsRect(m) && marks.Length0 == |m| && marks.Length1 == Width(m)
    requires Fg(m, p) && p !in owner && Closed(m, owner.Keys) && MarksMatch(marks, owner, numbered)
    modifies marks
    ensures Component(m, p) !! owner.Keys
    ensures MarksMatch(marks, Claim(owner, Component(m, p), k), numbered)
    ensures box == ComponentBox(m, p)
  {
    box := FloodFill(m, marks, MarkFor(numbered, k), p, owner.Keys);
    ghost var owner' := Claim(owner, Component(m, p), k);
    forall y, x | 0 <= y < |m| && 0 <= x < Width(m)
      ensures marks[y, x] == if Coord(x, y) in owner' then MarkFor(numbered, owner'[Coord(x, y)]) else 0
    {
    }
  }

  /** One position of the seed scan: start a fill there when it is an
      unmarked foreground pixel, otherwise move on. */
  method ScanAt(m: Mask, marks: array2<int>, numbered: bool, y: nat, x: nat, boxes: seq<Box>,
                ghost seeds: seq<Coord>, ghost owner: map<Coord, nat>)
    returns (boxes': seq<Box>, ghost seeds': seq<Coord>, ghost owner': map<Coord, nat>)
    requires marks.Length0 == |m| && marks.Length1 == Width(m) && y < |m| && x < Width(m)
    requires ScanState(m, y, x, seeds, owner) && MarksMatch(marks, owner, numbered)
    requires boxes == BoxesOf(m, seeds)
    modifies marks
    ensures ScanState(m, y, x + 1, seeds', owner') && MarksMatch(marks, owner', numbered)
    ensures boxes' == BoxesOf(m, seeds')
  {
    var p := Coord(x, y);
    if m[y][x] && marks[y, x] == 0 {
      assert p !in owner;
      ScanMeetsSeed(m, y, x, seeds, owner);
      var box := FillComponent(m, marks, numbered, p, |boxes|, owner);
      ScanFill(m, y, x, seeds, owner);
      BoxesOfSnoc(m, seeds, p);
      boxes', seeds', owner' := boxes + [box], seeds + [p], Claim(owner, Component(m, p), |seeds|);
    } else {
      ScanSkip(m, y, x, seeds, owner);
      boxes', seeds', owner' := boxes, seeds, owner;
    }
  }

  /** One row of the seed scan, left to right. */
  method ScanRow(m: Mask, marks: array2<int>, numbered: bool, y: nat, boxes: seq<Box>,
                 ghost seeds: seq<Coord>, ghost owner: map<Coord, nat>)
    returns (boxes': seq<Box>, ghost seeds': seq<Coord>, ghost owner': map<Coord, nat>)
    requires marks.Length0 == |m| && marks.Length1 == Width(m) && y < |m|
    requires ScanState(m, y, 0, seeds, owner) && MarksMatch(marks, owner, numbered)
    requires boxes == BoxesOf(m, seeds)
    modifies marks
    ensures ScanState(m, y + 1, 0, seeds', owner') && MarksMatch(marks, owner', numbered)
    ensures boxes' == BoxesOf(m, seeds')
  {
    boxes', seeds', owner' := boxes, seeds, owner;
    for x := 0 to Width(m)
      invariant ScanState(m, y, x, seeds', owner') && MarksMatch(marks, owner', numbered)
      invariant boxes' == BoxesOf(m, seeds')
    {
      boxes', seeds', owner' := ScanAt(m, marks, numbered, y, x, boxes', seeds', owner');
    }
    ScanRowDone(m, y, seeds', owner');
  }

  /** What the scan leaves in `marks`: 0 exactly on background; when not
      numbering, 1 on every foreground pixel; when numbering, on each
      foreground pixel the number (from 1) of the seed it is connected to. */
  ghost predicate Labelled(m: Mask, marks: array2<int>, numbered: bool)
    reads marks
  {
    && IsRect(m) && marks.Length0 == |m| && marks.Length1 == Width(m)
    && (forall y, x :: 0 <= y < |m| && 0 <= x < Width(m) ==> (marks[y, x] == 0 <==> !m[y][x]))
    && (!numbered ==> forall y, x :: 0 <= y < |m| && 0 <= x < Width(m) && m[y][x] ==> marks[y, x] == 1)
    && (numbered ==> forall y, x :: 0 <= y < |m| && 0 <= x < Width(m) && m[y][x] ==>
          1 <= marks[y, x] <= |Seeds(m)| && Connected(m, Seeds(m)[marks[y, x] - 1], Coord(x, y)))
  }

  /** The seed scan: visits every position in row-major order and starts a
      flood fill from each foreground pixel not yet marked, collecting the
      fills' boxes. The boxes are exactly the components' bounding boxes in
      the order of their first pixels; the returned marks are 0 exactly on
      background, and when `numbered` the pixels of the k-th component
      (from 1) carry k, as `ndimage.label` numbers them. */
  method Scan(m: Mask, numbered: bool) returns (marks: array2<int>, boxes: seq<Box>)
    requires IsRect(m)
    ensures fresh(marks) && marks.Length0 == |m| && marks.Length1 == Width(m)
    ensures boxes == ComponentBoxes(m)
    ensures Labelled(m, marks, numbered)
  {
    marks := new int[|m|, Width(m)]((_, _) => 0);
    boxes := ScanRows(m, marks, numbered);
  }

  /** The rows of the seed scan, top to bottom, over a zeroed marks array. */
  method ScanRows(m: Mask, marks: array2<int>, numbered: bool) returns (boxes: seq<Box>)
    requires IsRect(m) && marks.Length0 == |m| && marks.Length1 == Width(m)
    requires forall y, x :: 0 <= y < |m| && 0 <= x < Width(m) ==> marks[y, x] == 0
    modifies marks
    ensures boxes == ComponentBoxes(m)
    ensures Labelled(m, marks, numbered)
  {
    boxes := [];
    ghost var seeds: seq<Coord> := [];
    ghost var owner: map<Coord, nat> := map[];
    ScanStart(m);
    for y := 0 to |m|
      invariant ScanState(m, y, 0, seeds, owner) && MarksMatch(marks, owner, numbered)
      invariant boxes == BoxesOf(m, seeds)
    {
      boxes, seeds, owner := ScanRow(m, marks, numbered, y, boxes, seeds, owner);
    }
    ScanDone(m, seeds, owner, marks, numbered);
    SeedsBoxes(m, seeds);
  }
}
