/** Bresenham lines and polygons of src/vga.c over the 320-wide frame buffer. */
module Lines {
  import opened Types

  function Abs(v: int): int {
    if v < 0 then -v else v
  }

  function Sgn(v: int): int {
    if v < 0 then -1 else if v > 0 then 1 else 0
  }

  function Max(a: int, b: int): int {
    if a < b then b else a
  }

  function Min(a: int, b: int): int {
    if a < b then a else b
  }

  // ---- the line in closed form

  datatype Point = Point(x: int, y: int)

  /** The minor coordinate after `i` of `D` steps: i * d / D rounded, halves up. */
  function Offset(D: nat, d: nat, i: nat): int {
    if D == 0 then 0 else (D / 2 + i * d) / D
  }

  function Rest(D: nat, d: nat, i: nat): int {
    if D == 0 then 0 else (D / 2 + i * d) % D
  }

  predicate Steep(p: Point, q: Point) {
    Abs(q.x - p.x) < Abs(q.y - p.y)
  }

  function Major(p: Point, q: Point): nat {
    Max(Abs(q.x - p.x), Abs(q.y - p.y))
  }

  function Minor(p: Point, q: Point): nat {
    Min(Abs(q.x - p.x), Abs(q.y - p.y))
  }

  function LinePoint(p: Point, q: Point, i: nat): Point {
    var off := Offset(Major(p, q), Minor(p, q), i);
    if Steep(p, q) then Point(p.x + Sgn(q.x - p.x) * off, p.y + Sgn(q.y - p.y) * i)
    else Point(p.x + Sgn(q.x - p.x) * i, p.y + Sgn(q.y - p.y) * off)
  }

  // ---- what the closed form means

  /** i * d = Offset * D + (Rest - D/2), with the rest in [0, D). */
  lemma OffsetRest(D: nat, d: nat, i: nat)
    requires D > 0
    ensures Offset(D, d, i) * D + Rest(D, d, i) == D / 2 + i * d
    ensures 0 <= Rest(D, d, i) < D
  {
  }

  lemma OffsetUnique(D: nat, d: nat, i: nat, off: int, rest: int)
    requires D > 0 && off * D + rest == D / 2 + i * d && 0 <= rest < D
    ensures off == Offset(D, d, i) && rest == Rest(D, d, i)
  {
    DivModUnique(D / 2 + i * d, D, off, rest);
  }

  /** No other minor coordinate is nearer to the ideal line. */
  lemma OffsetIsNearest(D: nat, d: nat, i: nat, k: int)
    requires D > 0
    ensures 2 * Abs(Offset(D, d, i) * D - i * d) <= D
    ensures Abs(Offset(D, d, i) * D - i * d) <= Abs(k * D - i * d)
  {
    OffsetRest(D, d, i);
    var off := Offset(D, d, i);
    if k > off {
      MulMonotonic(off + 1, k, D);
      MulDistributes(off, 1, D);
    } else if k < off {
      MulMonotonic(k + 1, off, D);
      MulDistributes(k, 1, D);
    }
  }

  /** The error accumulator: adding `d` and carrying at `D` moves from step `i` to step `i + 1`. */
  lemma AccumulatorStep(D: nat, d: nat, i: nat)
    requires D > 0 && d <= D
    ensures var rest, off := Rest(D, d, i) + d, Offset(D, d, i);
      if rest >= D then Rest(D, d, i + 1) == rest - D && Offset(D, d, i + 1) == off + 1
      else Rest(D, d, i + 1) == rest && Offset(D, d, i + 1) == off
  {
    OffsetRest(D, d, i);
    var rest, off := Rest(D, d, i) + d, Offset(D, d, i);
    MulDistributes(i, 1, d);
    MulDistributes(off, 1, D);
    if rest >= D {
      OffsetUnique(D, d, i + 1, off + 1, rest - D);
    } else {
      OffsetUnique(D, d, i + 1, off, rest);
    }
  }

  lemma OffsetEnds(D: nat, d: nat)
    ensures Offset(D, d, 0) == 0 && Rest(D, d, 0) == D / 2
    ensures D > 0 ==> Offset(D, d, D) == d
  {
    if D > 0 {
      OffsetUnique(D, d, 0, 0, D / 2);
      OffsetUnique(D, d, D, d, D / 2);
    }
  }

  lemma OffsetInRange(D: nat, d: nat, i: nat)
    requires i <= D
    ensures 0 <= Offset(D, d, i) <= d
  {
    if D > 0 {
      OffsetRest(D, d, i);
      var off := Offset(D, d, i);
      MulMonotonic(i, D, d);
      MulMonotonic(0, i, d);
      if off < 0 {
        MulMonotonic(off, -1, D);
      } else if off > d {
        MulMonotonic(d + 1, off, D);
        MulDistributes(d, 1, D);
      }
    }
  }

  /** The line starts at `p`, ends exactly at `q`, and stays in the box they span. */
  lemma LineFromTo(p: Point, q: Point, i: nat)
    requires i <= Major(p, q)
    ensures LinePoint(p, q, 0) == p && LinePoint(p, q, Major(p, q)) == q
    ensures Min(p.x, q.x) <= LinePoint(p, q, i).x <= Max(p.x, q.x)
    ensures Min(p.y, q.y) <= LinePoint(p, q, i).y <= Max(p.y, q.y)
  {
    OffsetEnds(Major(p, q), Minor(p, q));
    OffsetInRange(Major(p, q), Minor(p, q), i);
    SgnScale(q.x - p.x, if Steep(p, q) then Offset(Major(p, q), Minor(p, q), i) else i);
    SgnScale(q.y - p.y, if Steep(p, q) then i else Offset(Major(p, q), Minor(p, q), i));
  }

  /** Every pixel in plain coordinates: the longer axis advances by `i`, and the other coordinate is the one
      whose distance from the ideal line is at most half a pixel, halves going away from `p`. */
  lemma LinePointExact(p: Point, q: Point, i: nat)
    requires i <= Major(p, q)
    ensures var dx, dy, r := q.x - p.x, q.y - p.y, LinePoint(p, q, i);
      var w, h := if dx < 0 then -dx else dx, if dy < 0 then -dy else dy;
      if w < h then
        && r.y == (if dy < 0 then p.y - i else p.y + i)
        && (r.x == p.x || (r.x < p.x <==> dx < 0))
        && -h <= 2 * (i * w - (if dx < 0 then p.x - r.x else r.x - p.x) * h) < h
      else
        && r.x == (if dx < 0 then p.x - i else p.x + i)
        && (r.y == p.y || (r.y < p.y <==> dy < 0))
        && (w > 0 ==> -w <= 2 * (i * h - (if dy < 0 then p.y - r.y else r.y - p.y) * w) < w)
        && (w == 0 ==> r == p)
  {
    var D, d := Major(p, q), Minor(p, q);
    var off := Offset(D, d, i);
    OffsetInRange(D, d, i);
    if D > 0 {
      OffsetRest(D, d, i);
    } else {
      OffsetEnds(D, d);
    }
    hide Offset;
    SgnScale(q.x - p.x, if Steep(p, q) then off else i);
    SgnScale(q.y - p.y, if Steep(p, q) then i else off);
  }

  lemma SgnScale(v: int, k: nat)
    requires k <= Abs(v)
    ensures Sgn(v) * k == if v < 0 then 0 - k else k
    ensures Sgn(v) * Abs(v) == v
  {
  }

  /** One turn of either loop, on the closed form. */
  lemma LineStep(p: Point, q: Point, i: nat)
    requires i < Major(p, q)
    ensures var D, d := Major(p, q), Minor(p, q);
      var rest, a := Rest(D, d, i) + d, LinePoint(p, q, i);
      var sdx, sdy := Sgn(q.x - p.x), Sgn(q.y - p.y);
      && 0 <= Rest(D, d, i) < D
      && Rest(D, d, i + 1) == (if rest >= D then rest - D else rest)
      && LinePoint(p, q, i + 1) ==
         if Steep(p, q) then Point(a.x + (if rest >= D then sdx else 0), a.y + sdy)
         else Point(a.x + sdx, a.y + (if rest >= D then sdy else 0))
  {
    hide Rest, Offset, Sgn;
    OffsetRest(Major(p, q), Minor(p, q), i);
    AccumulatorStep(Major(p, q), Minor(p, q), i);
    var off := Offset(Major(p, q), Minor(p, q), i);
    StepScale(Sgn(q.x - p.x), i);
    StepScale(Sgn(q.y - p.y), i);
    StepScale(Sgn(q.x - p.x), off);
    StepScale(Sgn(q.y - p.y), off);
  }

  /** Consecutive pixels touch, and every step advances the major coordinate by exactly one. */
  lemma LineIsConnected(p: Point, q: Point, i: nat)
    requires i < Major(p, q)
    ensures var a, b := LinePoint(p, q, i), LinePoint(p, q, i + 1);
      && Abs(b.x - a.x) <= 1 && Abs(b.y - a.y) <= 1
      && (if Steep(p, q) then b.y - a.y == Sgn(q.y - p.y) != 0 else b.x - a.x == Sgn(q.x - p.x) != 0)
  {
    hide LinePoint, Rest;
    LineStep(p, q, i);
  }

  lemma StepScale(s: int, k: int)
    ensures s * (k + 1) == s * k + s
  {
  }

  // ---- drawing in the other direction

  /** The ideal line passes exactly half way between two pixels: 2 * i * d is an odd multiple of D. */
  ghost predicate Tie(D: nat, d: nat, i: nat) {
    D > 0 && exists m: int :: OddMultiple(D, d, i, m)
  }

  ghost predicate OddMultiple(D: nat, d: nat, i: nat, m: int) {
    m % 2 == 1 && 2 * (i * d) == m * D
  }

  /** Column by column, the line drawn backwards meets the line drawn forwards except at the ties. */
  lemma ReverseOffset(D: nat, d: nat, i: nat)
    requires D > 0 && i <= D
    ensures d - Offset(D, d, D - i) == Offset(D, d, i) <==> !Tie(D, d, i)
    ensures Tie(D, d, i) ==> d - Offset(D, d, D - i) == Offset(D, d, i) - 1
  {
    var a, r := i * d / D, i * d % D;
    var h := D / 2;
    assert i * d == a * D + r;
    assert (D - i) * d == (d - a) * D - r by {
      MulDistributes(D, 0 - i, d);
      MulDistributes(d, -a, D);
    }
    MulDistributes(a, 1, D);
    MulDistributes(d - a, -1, D);
    OffsetUnique(D, d, i, if h + r >= D then a + 1 else a, if h + r >= D then h + r - D else h + r);
    OffsetUnique(D, d, D - i, if r <= h then d - a else d - a - 1, if r <= h then h - r else h - r + D);
    TieResidue(D, d, i, a, r);
  }

  lemma TieResidue(D: nat, d: nat, i: nat, a: int, r: int)
    requires D > 0 && i * d == a * D + r && 0 <= r < D
    ensures Tie(D, d, i) <==> 2 * r == D
  {
    if 2 * r == D {
      assert (2 * a + 1) * D == 2 * (a * D) + D;
      assert OddMultiple(D, d, i, 2 * a + 1);
    }
    if m: int :| OddMultiple(D, d, i, m) {
      var k := m / 2 - a;
      assert (2 * k + 1) * D == m * D - 2 * (a * D);
      assert 2 * r == (2 * k + 1) * D;
      if k >= 1 {
        MulMonotonic(3, 2 * k + 1, D);
      } else if k <= -1 {
        MulMonotonic(2 * k + 1, -1, D);
      }
    }
  }

  lemma ReversePoint(p: Point, q: Point, i: nat)
    requires i <= Major(p, q)
    ensures Major(q, p) == Major(p, q)
    ensures var r, s := LinePoint(p, q, i), LinePoint(q, p, Major(p, q) - i);
      && (if Steep(p, q) then r.y == s.y else r.x == s.x)
      && (r == s <==> !Tie(Major(p, q), Minor(p, q), i))
  {
    var D, d := Major(p, q), Minor(p, q);
    var f, b := Offset(D, d, i), Offset(D, d, D - i);
    if D > 0 {
      ReverseOffset(D, d, i);
      if Tie(D, d, i) {
        TieNotFlat(D, d, i);
      }
    }
    hide Offset, Tie, Sgn, Abs, Major, Minor, Steep;
    Symmetric(p, q);
    Axes(p, q);
    Mirror(p.x, q.x, if Steep(p, q) then f else i, if Steep(p, q) then b else D - i);
    Mirror(p.y, q.y, if Steep(p, q) then i else f, if Steep(p, q) then D - i else b);
  }

  lemma Symmetric(p: Point, q: Point)
    ensures Major(q, p) == Major(p, q) && Minor(q, p) == Minor(p, q) && Steep(q, p) == Steep(p, q)
  {
  }

  lemma Axes(p: Point, q: Point)
    ensures if Steep(p, q) then Abs(q.y - p.y) == Major(p, q) > 0 && Abs(q.x - p.x) == Minor(p, q)
      else Abs(q.x - p.x) == Major(p, q) && Abs(q.y - p.y) == Minor(p, q)
    ensures Minor(p, q) > 0 ==> p.x != q.x && p.y != q.y
    ensures Major(p, q) == 0 ==> p == q
    ensures p.x == q.x ==> Abs(q.x - p.x) == 0
    ensures p.y == q.y ==> Abs(q.y - p.y) == 0
  {
  }

  lemma Mirror(a: int, b: int, k: int, back: int)
    ensures a + Sgn(b - a) * k == b + Sgn(a - b) * back <==> a == b || k + back == Abs(b - a)
  {
  }

  lemma TieNotFlat(D: nat, d: nat, i: nat)
    requires Tie(D, d, i)
    ensures d > 0
  {
    if d == 0 {
      TieResidue(D, 0, i, 0, 0);
    }
  }

  /** `D` contains more factors of two than `d`. */
  predicate MoreTwos(D: nat, d: nat) {
    D > 0 && D % 2 == 0 && (d % 2 == 1 || MoreTwos(D / 2, d / 2))
  }

  ghost predicate DividesOnly(k: nat, D: nat, d: nat) {
    D % Pow2(k) == 0 && d % Pow2(k) != 0
  }

  /** That is, some power of two divides `D` and does not divide `d`. */
  lemma {:induction false} MoreTwosMeans(D: nat, d: nat)
    requires D > 0
    ensures MoreTwos(D, d) <==> exists k: nat :: DividesOnly(k, D, d)
  {
    if MoreTwos(D, d) && d % 2 == 1 {
      assert Pow2(1) == 2 * Pow2(0);
      assert DividesOnly(1, D, d);
    } else if D % 2 == 0 && d % 2 == 0 {
      MoreTwosMeans(D / 2, d / 2);
      if k: nat :| DividesOnly(k, D, d) {
        HalfModulo(D, Pow2(k - 1));
        HalfModulo(d, Pow2(k - 1));
        assert DividesOnly(k - 1, D / 2, d / 2);
      } else if k: nat :| DividesOnly(k, D / 2, d / 2) {
        HalfModulo(D, Pow2(k));
        HalfModulo(d, Pow2(k));
        assert DividesOnly(k + 1, D, d);
      }
    } else if k: nat :| DividesOnly(k, D, d) {
      if k > 0 {
        HalfModulo(D, Pow2(k - 1));
      }
    }
  }

  lemma EvenProduct(m: int, D: nat, half: int)
    requires m % 2 == 1 && m * D == 2 * half
    ensures D % 2 == 0
  {
    var h := m / 2;
    assert m == 2 * h + 1;
    MulDistributes(2 * h, 1, D);
    assert D == 2 * (half - h * D);
  }

  lemma {:induction false} TieGivesTwos(D: nat, d: nat, i: nat)
    requires Tie(D, d, i)
    ensures MoreTwos(D, d)
  {
    var m: int :| OddMultiple(D, d, i, m);
    EvenProduct(m, D, i * d);
    if d % 2 == 0 {
      hide OddMultiple;
      TieDoubles(D / 2, d / 2, i, m);
      TieGivesTwos(D / 2, d / 2, i);
    }
  }

  lemma {:induction false} TwosGiveTie(D: nat, d: nat) returns (i: nat)
    requires MoreTwos(D, d)
    ensures i <= D && Tie(D, d, i)
  {
    if d % 2 == 1 {
      i := D / 2;
      assert 2 * (i * d) == d * D;
      assert OddMultiple(D, d, i, d);
    } else {
      hide OddMultiple;
      i := TwosGiveTie(D / 2, d / 2);
      var m: int :| OddMultiple(D / 2, d / 2, i, m);
      TieDoubles(D / 2, d / 2, i, m);
    }
  }

  lemma TieDoubles(D: nat, d: nat, i: nat, m: int)
    ensures OddMultiple(2 * D, 2 * d, i, m) <==> OddMultiple(D, d, i, m)
  {
    assert i * (2 * d) == 2 * (i * d);
    assert m * (2 * D) == 2 * (m * D);
  }

  ghost function Pixels(p: Point, q: Point): set<Point> {
    set i: nat | i <= Major(p, q) :: LinePoint(p, q, i)
  }

  /** A line and the line drawn backwards colour the same pixels exactly when the major distance has no
      more factors of two than the minor one; in particular whenever it is odd. */
  lemma SamePixelsBackwards(p: Point, q: Point)
    ensures Pixels(p, q) == Pixels(q, p) <==> !MoreTwos(Major(p, q), Minor(p, q))
    ensures Major(p, q) % 2 == 1 ==> Pixels(p, q) == Pixels(q, p)
    ensures forall r :: r in Pixels(p, q) <==> exists i: nat :: i <= Major(p, q) && r == LinePoint(p, q, i)
  {
    if MoreTwos(Major(p, q), Minor(p, q)) {
      var i := TwosGiveTie(Major(p, q), Minor(p, q));
      TiePixelMissing(p, q, i);
    } else {
      PixelsIncluded(p, q);
      PixelsIncluded(q, p);
    }
  }

  lemma PixelsIncluded(p: Point, q: Point)
    requires !MoreTwos(Major(p, q), Minor(p, q))
    ensures Pixels(p, q) <= Pixels(q, p)
  {
    forall i: nat | i <= Major(p, q)
      ensures LinePoint(p, q, i) in Pixels(q, p)
    {
      ReversePoint(p, q, i);
      if Tie(Major(p, q), Minor(p, q), i) {
        TieGivesTwos(Major(p, q), Minor(p, q), i);
      }
      assert LinePoint(p, q, i) == LinePoint(q, p, Major(p, q) - i);
    }
  }

  /** A line has one pixel per major coordinate. */
  lemma OnePerColumn(p: Point, q: Point, i: nat, j: nat)
    requires i <= Major(p, q) && j <= Major(p, q)
    requires if Steep(p, q) then LinePoint(p, q, i).y == LinePoint(p, q, j).y
      else LinePoint(p, q, i).x == LinePoint(p, q, j).x
    ensures i == j
  {
    var v := if Steep(p, q) then q.y - p.y else q.x - p.x;
    SgnScale(v, i);
    SgnScale(v, j);
  }

  lemma TiePixelMissing(p: Point, q: Point, i: nat)
    requires i <= Major(p, q) && Tie(Major(p, q), Minor(p, q), i)
    ensures LinePoint(p, q, i) in Pixels(p, q) && LinePoint(p, q, i) !in Pixels(q, p)
  {
    ReversePoint(p, q, i);
    var D := Major(p, q);
    if LinePoint(p, q, i) in Pixels(q, p) {
      var j: nat :| j <= Major(q, p) && LinePoint(q, p, j) == LinePoint(p, q, i);
      OnePerColumn(q, p, j, D - i);
      assert false;
    }
  }

  // ---- the frame buffer

  /** `(y << 8) + (y << 6) + x`. */
  function Cell(p: Point): int {
    256 * p.y + 64 * p.y + p.x
  }

  /** Inside 320 columns every pixel has a cell of its own. */
  lemma CellInjective(p: Point, q: Point)
    requires 0 <= p.x < 320 && 0 <= q.x < 320 && Cell(p) == Cell(q)
    ensures p == q
  {
  }

  ghost function Cells(p: Point, q: Point, n: nat): (cells: set<int>) {
    set i: nat | i <= n :: Cell(LinePoint(p, q, i))
  }

  ghost function LineCells(p: Point, q: Point): set<int> {
    Cells(p, q, Major(p, q))
  }

  /** The cells of a line are those of its pixels, row by row of 320. */
  lemma LineCellsAre(p: Point, q: Point, c: int)
    ensures c in LineCells(p, q) <==>
      exists i: nat :: i <= Major(p, q) && 320 * LinePoint(p, q, i).y + LinePoint(p, q, i).x == c
    ensures var dx, dy := q.x - p.x, q.y - p.y;
      var w, h := if dx < 0 then -dx else dx, if dy < 0 then -dy else dy;
      Major(p, q) == if w < h then h else w
  {
    hide LinePoint;
  }

  /** `after` is `before` with exactly the given cells coloured. */
  ghost predicate Coloured(before: seq<u8>, after: seq<u8>, cells: set<int>, color: u8) {
    |after| == |before| &&
    forall c :: 0 <= c < |after| ==> after[c] == if c in cells then color else before[c]
  }

  /** Every cell of the line lies in the buffer, and the distances of the line stay in 32 bits. */
  ghost predicate Fits(p: Point, q: Point, length: nat) {
    && 0 <= p.x && 0 <= p.y && 0 <= q.x && 0 <= q.y
    && length <= 0x8000_0000 && Major(p, q) + Minor(p, q) < 0x8000_0000
    && forall i: nat :: i <= Major(p, q) ==> Cell(LinePoint(p, q, i)) < length
  }

  /** It is enough that the far corner of the box of the line lies in the buffer. */
  lemma BoxFits(p: Point, q: Point, length: nat)
    requires 0 <= p.x && 0 <= p.y && 0 <= q.x && 0 <= q.y
    requires Cell(Point(Max(p.x, q.x), Max(p.y, q.y))) < length <= 0x8000_0000
    ensures Fits(p, q, length)
  {
    forall i: nat | i <= Major(p, q)
      ensures Cell(LinePoint(p, q, i)) < length
    {
      LineFromTo(p, q, i);
    }
  }

  lemma LineFits(p: Point, q: Point, i: nat, length: nat)
    requires Fits(p, q, length) && i <= Major(p, q)
    ensures 0 <= LinePoint(p, q, i).x < length && 0 <= LinePoint(p, q, i).y < length
    ensures 0 <= Cell(LinePoint(p, q, i)) < length <= 0x8000_0000
  {
    hide LinePoint;
    LineFromTo(p, q, i);
  }

  method PlotPixel(fb: array<u8>, x: u32, y: u32, color: u8)
    requires Cell(Point(x, y)) < fb.Length
    modifies fb
    ensures Coloured(old(fb[..]), fb[..], {Cell(Point(x, y))}, color)
    ensures fb[..] == old(fb[..])[320 * y + x := color]
  {
    fb[256 * y + 64 * y + x] := color;
  }

  lemma ColouredMeans(before: seq<u8>, after: seq<u8>, cells: set<int>, color: u8)
    requires Coloured(before, after, cells, color)
    ensures |after| == |before|
    ensures forall c :: 0 <= c < |after| ==> after[c] == if c in cells then color else before[c]
  {
  }

  lemma CellsStep(before: seq<u8>, now: seq<u8>, after: seq<u8>, p: Point, q: Point, i: nat, color: u8)
    requires Coloured(before, now, Cells(p, q, i), color)
    requires Coloured(now, after, {Cell(LinePoint(p, q, i + 1))}, color)
    ensures Coloured(before, after, Cells(p, q, i + 1), color)
  {
    assert Cells(p, q, i + 1) == Cells(p, q, i) + {Cell(LinePoint(p, q, i + 1))};
  }

  lemma FirstCell(p: Point, q: Point)
    ensures Cells(p, q, 0) == {Cell(p)}
  {
    OffsetEnds(Major(p, q), Minor(p, q));
    assert LinePoint(p, q, 0) == p;
  }

  lemma SumFits(p: Point, q: Point, length: nat)
    requires Fits(p, q, length)
    ensures Major(p, q) + Minor(p, q) < 0x8000_0000
    ensures Steep(p, q) <==> Abs(q.x - p.x) < Abs(q.y - p.y)
  {
  }

  /** The loop of `line_fast` for lines at least as wide as high. */
  method FlatLoop(fb: array<u8>, ghost before: seq<u8>, ghost p: Point, ghost q: Point,
                px0: i32, py0: i32, acc0: i32, dxabs: i32, dyabs: i32, sdx: i32, sdy: i32, color: u8)
    requires Fits(p, q, fb.Length) && !Steep(p, q) && p == Point(px0, py0)
    requires dxabs == Major(p, q) && dyabs == Minor(p, q) && sdx == Sgn(q.x - p.x) && sdy == Sgn(q.y - p.y)
    requires acc0 == dxabs / 2 && Coloured(before, fb[..], {Cell(p)}, color)
    modifies fb
    ensures Coloured(before, fb[..], LineCells(p, q), color)
  {
    hide Coloured, Cells, Offset, Rest, Cell, LinePoint, Sgn, Major, Minor, Steep, Fits;
    LineFromTo(p, q, 0);
    OffsetEnds(Major(p, q), Minor(p, q));
    FirstCell(p, q);
    SumFits(p, q, fb.Length);
    var y: i32, px: i32, py: i32 := acc0, px0, py0;
    var i := 0;
    while i < dxabs
      invariant 0 <= i <= dxabs && y == Rest(dxabs, dyabs, i)
      invariant Point(px, py) == LinePoint(p, q, i)
      invariant Coloured(before, fb[..], Cells(p, q, i), color)
    {
      LineStep(p, q, i);
      LineFits(p, q, i + 1, fb.Length);
      y := y + dyabs;
      if y >= dxabs {
        y := y - dxabs;
        py := py + sdy;
      }
      px := px + sdx;
      assert Point(px, py) == LinePoint(p, q, i + 1);
      ghost var now := fb[..];
      PlotPixel(fb, px, py, color);
      CellsStep(before, now, fb[..], p, q, i, color);
      i := i + 1;
    }
  }

  /** The loop for lines higher than wide. */
  method SteepLoop(fb: array<u8>, ghost before: seq<u8>, ghost p: Point, ghost q: Point,
                px0: i32, py0: i32, acc0: i32, dxabs: i32, dyabs: i32, sdx: i32, sdy: i32, color: u8)
    requires Fits(p, q, fb.Length) && Steep(p, q) && p == Point(px0, py0)
    requires dyabs == Major(p, q) && dxabs == Minor(p, q) && sdx == Sgn(q.x - p.x) && sdy == Sgn(q.y - p.y)
    requires acc0 == dyabs / 2 && Coloured(before, fb[..], {Cell(p)}, color)
    modifies fb
    ensures Coloured(before, fb[..], LineCells(p, q), color)
  {
    hide Coloured, Cells, Offset, Rest, Cell, LinePoint, Sgn, Major, Minor, Steep, Fits;
    LineFromTo(p, q, 0);
    OffsetEnds(Major(p, q), Minor(p, q));
    FirstCell(p, q);
    SumFits(p, q, fb.Length);
    var x: i32, px: i32, py: i32 := acc0, px0, py0;
    var i := 0;
    while i < dyabs
      invariant 0 <= i <= dyabs && x == Rest(dyabs, dxabs, i)
      invariant Point(px, py) == LinePoint(p, q, i)
      invariant Coloured(before, fb[..], Cells(p, q, i), color)
    {
      LineStep(p, q, i);
      LineFits(p, q, i + 1, fb.Length);
      x := x + dxabs;
      if x >= dyabs {
        x := x - dyabs;
        px := px + sdx;
      }
      py := py + sdy;
      assert Point(px, py) == LinePoint(p, q, i + 1);
      ghost var now := fb[..];
      PlotPixel(fb, px, py, color);
      CellsStep(before, now, fb[..], p, q, i, color);
      i := i + 1;
    }
  }

  /** `line_fast`: colours the cells of the closed-form line and no others. All intermediate values are
      within 32 bits. */
  method LineFast(fb: array<u8>, x1: u32, y1: u32, x2: u32, y2: u32, color: u8)
    requires Fits(Point(x1, y1), Point(x2, y2), fb.Length)
    modifies fb
    ensures Coloured(old(fb[..]), fb[..], LineCells(Point(x1, y1), Point(x2, y2)), color)
    ensures forall c :: 0 <= c < fb.Length ==>
      fb[c] == if c in LineCells(Point(x1, y1), Point(x2, y2)) then color else old(fb[c])
  {
    hide Coloured, Cells, Offset, Rest, Cell, LinePoint;
    ghost var p, q := Point(x1, y1), Point(x2, y2);
    ghost var before := fb[..];
    LineFits(p, q, 0, fb.Length);
    LineFromTo(p, q, 0);
    var dx: i32, dy: i32 := x2 - x1, y2 - y1;
    var dxabs: i32, dyabs: i32 := Abs(dx), Abs(dy);
    var sdx: i32, sdy: i32 := Sgn(dx), Sgn(dy);
    var x: i32, y: i32 := dyabs / 2, dxabs / 2;
    var px: i32, py: i32 := x1, y1;
    OffsetEnds(Major(p, q), Minor(p, q));
    FirstCell(p, q);
    PlotPixel(fb, px, py, color);
    Axes(p, q);
    SumFits(p, q, fb.Length);
    hide Abs, Sgn, Major, Minor, Steep, Fits;
    if dxabs >= dyabs {
      FlatLoop(fb, before, p, q, px, py, y, dxabs, dyabs, sdx, sdy, color);
    } else {
      SteepLoop(fb, before, p, q, px, py, x, dxabs, dyabs, sdx, sdy, color);
    }
    ColouredMeans(before, fb[..], LineCells(p, q), color);
  }

  // ---- polygons

  function Vertex(vertices: seq<u32>, i: nat): Point
    requires 2 * i + 1 < |vertices|
  {
    Point(vertices[2 * i], vertices[2 * i + 1])
  }

  /** The cells of the first `n` edges. */
  ghost function EdgeCells(vertices: seq<u32>, n: nat): set<int>
    requires 2 * n + 1 < |vertices|
  {
    if n == 0 then {} else EdgeCells(vertices, n - 1) + LineCells(Vertex(vertices, n - 1), Vertex(vertices, n))
  }

  /** The closed outline; the closing edge is drawn from the first vertex to the last. */
  ghost function PolygonCells(vertices: seq<u32>, n: nat): set<int>
    requires 1 <= n && 2 * n <= |vertices|
  {
    EdgeCells(vertices, n - 1) + LineCells(Vertex(vertices, 0), Vertex(vertices, n - 1))
  }

  /** Every edge that is drawn fits the buffer. */
  ghost predicate EdgesFit(vertices: seq<u32>, n: nat, length: nat)
    requires 1 <= n && 2 * n <= |vertices|
  {
    (forall i: nat, j: nat :: i + 1 == j < n ==> Fits(Vertex(vertices, i), Vertex(vertices, j), length)) &&
    Fits(Vertex(vertices, 0), Vertex(vertices, n - 1), length)
  }

  lemma ColouredUnion(before: seq<u8>, now: seq<u8>, after: seq<u8>, a: set<int>, b: set<int>, color: u8)
    requires Coloured(before, now, a, color) && Coloured(now, after, b, color)
    ensures Coloured(before, after, a + b, color)
  {
  }

  /** `polygon`, for at least one vertex: the loop bound `num_vertices - 1` wraps for none. */
  method Polygon(fb: array<u8>, numVertices: u32, vertices: seq<u32>, color: u8)
    requires 1 <= numVertices && 2 * numVertices <= |vertices| && EdgesFit(vertices, numVertices, fb.Length)
    modifies fb
    ensures forall c :: 0 <= c < fb.Length ==>
      fb[c] == if c in PolygonCells(vertices, numVertices) then color else old(fb[c])
  {
    hide Coloured, LineCells, Fits;
    ghost var before := fb[..];
    NothingColoured(before, color);
    var i := 0;
    while i < numVertices - 1
      invariant 0 <= i <= numVertices - 1
      invariant Coloured(before, fb[..], EdgeCells(vertices, i), color)
    {
      ghost var now := fb[..];
      assert Fits(Vertex(vertices, i), Vertex(vertices, i + 1), fb.Length);
      LineFast(fb, vertices[2 * i], vertices[2 * i + 1], vertices[2 * i + 2], vertices[2 * i + 3], color);
      ColouredUnion(before, now, fb[..], EdgeCells(vertices, i),
                    LineCells(Vertex(vertices, i), Vertex(vertices, i + 1)), color);
      i := i + 1;
    }
    ghost var now := fb[..];
    assert Fits(Vertex(vertices, 0), Vertex(vertices, numVertices - 1), fb.Length);
    LineFast(fb, vertices[0], vertices[1], vertices[2 * numVertices - 2], vertices[2 * numVertices - 1], color);
    ColouredUnion(before, now, fb[..], EdgeCells(vertices, numVertices - 1),
                  LineCells(Vertex(vertices, 0), Vertex(vertices, numVertices - 1)), color);
    ColouredMeans(before, fb[..], PolygonCells(vertices, numVertices), color);
  }

  /** The outline is made of the lines between consecutive vertices and the one from the first to the last. */
  lemma PolygonCellsAre(vertices: seq<u32>, n: nat, c: int)
    requires 1 <= n && 2 * n <= |vertices|
    ensures forall i: nat :: i < n ==> Vertex(vertices, i) == Point(vertices[2 * i], vertices[2 * i + 1])
    ensures c in PolygonCells(vertices, n) <==>
      c in LineCells(Vertex(vertices, 0), Vertex(vertices, n - 1)) ||
      exists i: nat, j: nat :: i + 1 == j < n && c in LineCells(Vertex(vertices, i), Vertex(vertices, j))
  {
    hide LineCells;
    EdgeCellsAre(vertices, n - 1, c);
  }

  lemma {:induction false} EdgeCellsAre(vertices: seq<u32>, n: nat, c: int)
    requires 2 * n + 1 < |vertices|
    ensures c in EdgeCells(vertices, n) <==>
      exists i: nat, j: nat :: i + 1 == j <= n && c in LineCells(Vertex(vertices, i), Vertex(vertices, j))
  {
    if n > 0 {
      EdgeCellsAre(vertices, n - 1, c);
    }
  }

  lemma NothingColoured(before: seq<u8>, color: u8)
    ensures Coloured(before, before, {}, color)
  {
  }

  ghost predicate InBox(p: Point, left: int, top: int, right: int, bottom: int) {
    left <= p.x <= right && top <= p.y <= bottom
  }

  /** Every coloured cell is the cell of a point inside any box around the vertices. */
  lemma PolygonInBox(vertices: seq<u32>, n: nat, c: int,
                     left: int, top: int, right: int, bottom: int) returns (p: Point)
    requires 1 <= n && 2 * n <= |vertices| && c in PolygonCells(vertices, n)
    requires forall i: nat :: i < n ==> InBox(Vertex(vertices, i), left, top, right, bottom)
    ensures InBox(p, left, top, right, bottom) && c == Cell(p)
  {
    if c in LineCells(Vertex(vertices, 0), Vertex(vertices, n - 1)) {
      p := LineInBox(Vertex(vertices, 0), Vertex(vertices, n - 1), c, left, top, right, bottom);
    } else {
      p := EdgesInBox(vertices, n - 1, c, left, top, right, bottom);
    }
  }

  lemma {:induction false} EdgesInBox(vertices: seq<u32>, n: nat, c: int,
                                      left: int, top: int, right: int, bottom: int) returns (p: Point)
    requires 2 * n + 1 < |vertices| && c in EdgeCells(vertices, n)
    requires forall i: nat :: i <= n ==> InBox(Vertex(vertices, i), left, top, right, bottom)
    ensures InBox(p, left, top, right, bottom) && c == Cell(p)
  {
    var a, b := Vertex(vertices, n - 1), Vertex(vertices, n);
    if c in LineCells(a, b) {
      p := LineInBox(a, b, c, left, top, right, bottom);
    } else {
      p := EdgesInBox(vertices, n - 1, c, left, top, right, bottom);
    }
  }

  lemma LineInBox(a: Point, b: Point, c: int, left: int, top: int, right: int, bottom: int) returns (p: Point)
    requires c in LineCells(a, b) && InBox(a, left, top, right, bottom) && InBox(b, left, top, right, bottom)
    ensures InBox(p, left, top, right, bottom) && c == Cell(p)
  {
    var i: nat :| i <= Major(a, b) && Cell(LinePoint(a, b, i)) == c;
    LineFromTo(a, b, i);
    p := LinePoint(a, b, i);
  }
}
