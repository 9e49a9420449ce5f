/** The line and circle loops of SDL_gfxPrimitives.c: incremental error terms against exact arithmetic. */
module Raster {
  import opened Powers

  datatype Point = Point(x: int, y: int)

  type Sint16 = v: int | -0x8000 <= v < 0x8000

  function Sign(v: int): int {
    if v >= 0 then 1 else -1
  }

  // ---------- the opaque line ----------

  /** The address of a pixel in the surface's memory. */
  function Address(bytesPerPixel: int, pitch: int, p: Point): int {
    bytesPerPixel * p.x + pitch * p.y
  }

  /** Minor offset of pixel k of a line that is n + 1 pixels along its major and m + 1 along its minor axis. */
  function Offset(n: nat, m: nat, k: nat): nat {
    Quotient(k * (m + 1), n + 1)
  }

  function Quotient(a: nat, b: nat): (q: nat)
    requires b > 0
    ensures q * b <= a < (q + 1) * b
  {
    QuotientBounds(a, b);
    a / b
  }

  lemma QuotientBounds(a: nat, b: nat)
    requires b > 0
    ensures var q := a / b; q >= 0 && q * b <= a < (q + 1) * b
  {
    assert a == (a / b) * b + a % b;
    MulDistrib(a / b, 1, b);
    if a / b < 0 {
      MulLe(a / b, -1, b);
    }
  }

  lemma QuotientIs(a: nat, b: nat, q: nat)
    requires b > 0 && q * b <= a < (q + 1) * b
    ensures Quotient(a, b) == q
  {
    var r := Quotient(a, b);
    if r < q {
      MulLe(r + 1, q, b);
    } else if q < r {
      MulLe(q + 1, r, b);
    }
  }

  /** Pixel k of the opaque line from p to q. */
  function OpaquePoint(p: Point, q: Point, k: nat): Point {
    var n, m := Abs(q.x - p.x), Abs(q.y - p.y);
    var sx, sy := Sign(q.x - p.x), Sign(q.y - p.y);
    if n >= m then Point(p.x + sx * k, p.y + sy * Offset(n, m, k)) else Point(p.x + sx * Offset(m, n, k), p.y + sy * k)
  }

  /** The offset grows by the error term: it is the quotient, and the error term the remainder. */
  lemma NextOffset(n: nat, m: nat, k: nat, q: nat, y: nat)
    requires m <= n && k * (m + 1) == q * (n + 1) + y && y < n + 1
    ensures Offset(n, m, k) == q
    ensures (k + 1) * (m + 1)
            == if y + m + 1 >= n + 1 then (q + 1) * (n + 1) + (y + m + 1 - (n + 1))
               else q * (n + 1) + (y + m + 1)
  {
    MulDistrib(k, 1, m + 1);
    MulDistrib(q, 1, n + 1);
    QuotientIs(k * (m + 1), n + 1, q);
  }

  /** The drawing loop: the addresses it writes to, when pixel moves by pixx along the major axis and by pixy along the
      minor axis, for dx and dy pixels. */
  method OpaqueLoop(start: int, pixx: int, pixy: int, dx: nat, dy: nat) returns (written: seq<int>)
    requires 1 <= dy <= dx
    ensures |written| == dx
    ensures forall k: nat :: k < dx ==> written[k] == start + k * pixx + Offset(dx - 1, dy - 1, k) * pixy
  {
    written := [];
    var pixel, x, y := start, 0, 0;
    ghost var q: nat := 0;
    while x < dx
      invariant 0 <= x == |written| <= dx && 0 <= y < dx && x * dy == q * dx + y
      invariant pixel == start + x * pixx + q * pixy
      invariant forall k: nat :: k < x ==> written[k] == start + k * pixx + Offset(dx - 1, dy - 1, k) * pixy
    {
      NextOffset(dx - 1, dy - 1, x, q, y);
      written := written + [pixel];
      MulDistrib(x, 1, pixx);
      MulDistrib(q, 1, pixy);
      y := y + dy;
      if y >= dx {
        y := y - dx;
        pixel := pixel + pixy;
        q := q + 1;
      }
      x := x + 1;
      pixel := pixel + pixx;
    }
  }

  /** The opaque branch of lineColor writes the pixels of the line, one for each position on the major axis. */
  method OpaqueLine(p: Point, q: Point, bytesPerPixel: int, pitch: int) returns (written: seq<int>)
    ensures |written| == (if Abs(q.x - p.x) >= Abs(q.y - p.y) then Abs(q.x - p.x) else Abs(q.y - p.y)) + 1
    ensures forall k: nat :: k < |written| ==> written[k] == Address(bytesPerPixel, pitch, OpaquePoint(p, q, k))
  {
    var dx, dy := q.x - p.x, q.y - p.y;
    var sx, sy := if dx >= 0 then 1 else -1, if dy >= 0 then 1 else -1;
    dx := sx * dx + 1;
    dy := sy * dy + 1;
    var pixx, pixy := bytesPerPixel, pitch;
    var pixel := pixx * p.x + pixy * p.y;
    pixx := pixx * sx;
    pixy := pixy * sy;
    if dx < dy {
      dx, dy := dy, dx;
      pixx, pixy := pixy, pixx;
    }
    written := OpaqueLoop(pixel, pixx, pixy, dx, dy);
    forall k: nat | k < |written|
      ensures written[k] == Address(bytesPerPixel, pitch, OpaquePoint(p, q, k))
    {
      AddressOf(p, q, bytesPerPixel, pitch, k);
    }
  }

  lemma AddressOf(p: Point, q: Point, bpp: int, pitch: int, k: nat)
    ensures var n, m := Abs(q.x - p.x), Abs(q.y - p.y);
            var sx, sy := Sign(q.x - p.x), Sign(q.y - p.y);
            Address(bpp, pitch, OpaquePoint(p, q, k))
            == bpp * p.x + pitch * p.y
               + if n >= m then k * (bpp * sx) + Offset(n, m, k) * (pitch * sy)
                 else k * (pitch * sy) + Offset(m, n, k) * (bpp * sx)
  {
    var n, m := Abs(q.x - p.x), Abs(q.y - p.y);
    if n >= m {
      Moved(bpp, p.x, Sign(q.x - p.x), k);
      Moved(pitch, p.y, Sign(q.y - p.y), Offset(n, m, k));
    } else {
      Moved(bpp, p.x, Sign(q.x - p.x), Offset(m, n, k));
      Moved(pitch, p.y, Sign(q.y - p.y), k);
    }
  }

  lemma Moved(c: int, x: int, s: int, k: int)
    requires s == 1 || s == -1
    ensures c * (x + s * k) == c * x + k * (c * s)
  {
    if s == 1 {
      assert c * (x + k) == c * x + c * k;
    } else {
      assert c * (x - k) == c * x - c * k;
    }
  }

  /** The opaque line starts at p and ends exactly at q. */
  lemma OpaqueEnds(p: Point, q: Point)
    ensures OpaquePoint(p, q, 0) == p
    ensures var n, m := Abs(q.x - p.x), Abs(q.y - p.y); OpaquePoint(p, q, if n >= m then n else m) == q
  {
    var n, m := Abs(q.x - p.x), Abs(q.y - p.y);
    OffsetEnds(if n >= m then n else m, if n >= m then m else n);
  }

  lemma OffsetEnds(n: nat, m: nat)
    requires m <= n
    ensures Offset(n, m, 0) == 0 && Offset(n, m, n) == m
  {
    QuotientIs(0, n + 1, 0);
    assert n * (m + 1) == m * (n + 1) + (n - m);
    MulDistrib(m, 1, n + 1);
    QuotientIs(n * (m + 1), n + 1, m);
  }

  // ---------- the blended line ----------

  /** o is the minor offset nearest to the ideal line at major offset k, for a line of n by m; a tie is broken
      towards the larger offset exactly when up. */
  ghost predicate Nearest(n: nat, m: nat, k: int, o: int, up: bool) {
    if up then 0 <= n + 2 * (k * m - o * n) < 2 * n else 0 < n + 2 * (k * m - o * n) <= 2 * n
  }

  lemma NearestIsUnique(n: nat, m: nat, k: int, o: int, u: int, up: bool)
    requires Nearest(n, m, k, o, up) && Nearest(n, m, k, u, up)
    ensures o == u
  {
    if o < u {
      MulLe(o + 1, u, n);
      MulDistrib(o, 1, n);
    } else if u < o {
      MulLe(u + 1, o, n);
      MulDistrib(u, 1, n);
    }
  }

  /** Walking the line from the other end, the other way, meets the same pixels. */
  lemma NearestReversed(n: nat, m: nat, k: int, o: int, up: bool)
    requires Nearest(n, m, k, o, up)
    ensures Nearest(n, m, n - k, m - o, !up)
  {
    assert (n - k) * m == n * m - k * m;
    assert (m - o) * n == m * n - o * n;
  }

  /** At the end of the line the nearest offset is exact. */
  lemma NearestEnd(n: nat, m: nat, o: int, up: bool)
    requires n > 0 && Nearest(n, m, n, o, up)
    ensures o == m
  {
    assert 2 * (n * m - m * n) == 0;
    NearestIsUnique(n, m, n, o, m, up);
  }

  /** Pixel k of a list: at major offset k, and at the nearest minor offset. */
  ghost predicate OnLine(p: Point, q: Point, k: nat, r: Point) {
    var n, m := Abs(q.x - p.x), Abs(q.y - p.y);
    var sx, sy := Sign(q.x - p.x), Sign(q.y - p.y);
    if n > m then r.x == p.x + sx * k && Nearest(n, m, k, sy * (r.y - p.y), sx == 1)
    else r.y == p.y + sy * k && Nearest(m, n, k, sx * (r.x - p.x), sy == 1)
  }

  /** The error term after a step. */
  lemma NextError(n: nat, m: nat, k: int, o: int, up: bool)
    requires m <= n && Nearest(n, m, k, o, up)
    ensures var d := 2 * m * (k + 1) - n - 2 * n * o;
            if d > 0 || (d == 0 && up) then Nearest(n, m, k + 1, o + 1, up) else Nearest(n, m, k + 1, o, up)
  {
    MulDistrib(k, 1, m);
    MulDistrib(o, 1, n);
    assert 2 * m * (k + 1) == 2 * (k * m) + 2 * m && 2 * n * o == 2 * (o * n);
  }

  /** One of the two loops: u runs along the major axis up to end, v along the minor axis. */
  method BlendedLoop(start: int, end: int, minor: int, su: int, sv: int, n: nat, m: nat, swap: bool)
      returns (plotted: seq<Point>, u: int, v: int)
    requires 1 <= n && m <= n && (su == 1 || su == -1) && (sv == 1 || sv == -1) && end == start + su * n
    ensures |plotted| == n && u == end
    ensures forall k :: 0 <= k < n ==> Along(start, minor, su, sv, n, m, swap, k, plotted[k])
    ensures Nearest(n, m, n, sv * (v - minor), su == 1)
  {
    hide Nearest;
    FirstOffset(n, m, su == 1);
    plotted := [];
    u, v := start, minor;
    var au, av := 2 * n, 2 * m;
    var d := av - n;
    ghost var o := 0;
    while u != end
      invariant |plotted| <= n && u == start + su * |plotted| && v == minor + sv * o
      invariant d == 2 * m * (|plotted| + 1) - n - 2 * n * o && Nearest(n, m, |plotted|, o, su == 1)
      invariant forall k :: 0 <= k < |plotted| ==> Along(start, minor, su, sv, n, m, swap, k, plotted[k])
      decreases n - |plotted|
    {
      NextError(n, m, |plotted|, o, su == 1);
      NextTerm(n, m, |plotted|, o);
      assert sv * (v - minor) == o;
      plotted := plotted + [if swap then Point(v, u) else Point(u, v)];
      if d > 0 || (d == 0 && su == 1) {
        v := v + sv;
        d := d - au;
        o := o + 1;
      }
      u := u + su;
      d := d + av;
    }
    assert sv * (v - minor) == o;
  }

  lemma FirstOffset(n: nat, m: nat, up: bool)
    requires n >= 1
    ensures Nearest(n, m, 0, 0, up)
  {
  }

  lemma NextTerm(n: nat, m: nat, k: int, o: int)
    ensures 2 * m * (k + 2) == 2 * m * (k + 1) + 2 * m && 2 * n * (o + 1) == 2 * n * o + 2 * n
  {
  }

  /** Pixel k of a loop. */
  ghost predicate Along(start: int, minor: int, su: int, sv: int, n: nat, m: nat, swap: bool, k: int, r: Point) {
    var u, v := if swap then r.y else r.x, if swap then r.x else r.y;
    u == start + su * k && Nearest(n, m, k, sv * (v - minor), su == 1)
  }

  /** The blended branch of lineColor, for a line that is neither horizontal nor vertical: one pixel for each position
      on the major axis, each within half a pixel of the ideal line, and the last one exactly at q. */
  method BlendedLine(p: Point, q: Point) returns (plotted: seq<Point>)
    requires p.x != q.x && p.y != q.y
    ensures |plotted| == (if Abs(q.x - p.x) > Abs(q.y - p.y) then Abs(q.x - p.x) else Abs(q.y - p.y)) + 1
    ensures forall k: nat :: k < |plotted| ==> OnLine(p, q, k, plotted[k])
    ensures plotted[|plotted| - 1] == q
  {
    hide Nearest;
    var dx, dy := q.x - p.x, q.y - p.y;
    var sx, sy := if dx >= 0 then 1 else -1, if dy >= 0 then 1 else -1;
    var u, v;
    if Abs(dx) > Abs(dy) {
      plotted, u, v := BlendedLoop(p.x, q.x, p.y, sx, sy, Abs(dx), Abs(dy), false);
      NearestEnd(Abs(dx), Abs(dy), sy * (v - p.y), sx == 1);
      plotted := plotted + [Point(u, v)];
    } else {
      plotted, u, v := BlendedLoop(p.y, q.y, p.x, sy, sx, Abs(dy), Abs(dx), true);
      NearestEnd(Abs(dy), Abs(dx), sx * (v - p.x), sy == 1);
      plotted := plotted + [Point(v, u)];
    }
  }

  /** Offsets counted from the two ends of the line add up. */
  lemma FromBothEnds(n: nat, m: nat, k: int, o: int, u: int, up: bool)
    requires Nearest(n, m, k, o, up) && Nearest(n, m, n - k, u, !up)
    ensures o + u == m
  {
    NearestReversed(n, m, k, o, up);
    NearestIsUnique(n, m, n - k, u, m - o, !up);
  }

  /** The pixels of a blended line do not depend on the direction it is drawn in. */
  lemma BlendedIsSymmetric(p: Point, q: Point, k: nat, r: Point, s: Point)
    requires p.x != q.x && p.y != q.y
    requires var n := if Abs(q.x - p.x) > Abs(q.y - p.y) then Abs(q.x - p.x) else Abs(q.y - p.y);
             k <= n && OnLine(p, q, k, r) && OnLine(q, p, n - k, s)
    ensures r == s
  {
    hide Nearest;
    var n, m := Abs(q.x - p.x), Abs(q.y - p.y);
    var sx, sy := Sign(q.x - p.x), Sign(q.y - p.y);
    if n > m {
      FromBothEnds(n, m, k, sy * (r.y - p.y), Sign(p.y - q.y) * (s.y - q.y), sx == 1);
    } else {
      FromBothEnds(m, n, k, sx * (r.x - p.x), Sign(p.x - q.x) * (s.x - q.x), sy == 1);
    }
  }

  // ---------- the circle ----------

  /** cy is the whole number nearest to the true circle of radius r at column cx. */
  ghost predicate OnCircle(r: int, cx: int, cy: int) {
    cy * cy - cy < r * r - cx * cx <= cy * cy + cy
  }

  lemma OnCircleIsUnique(r: int, cx: int, c: nat, d: nat)
    requires OnCircle(r, cx, c) && OnCircle(r, cx, d)
    ensures c == d
  {
    if c < d {
      SquareGap(c, d);
    } else if d < c {
      SquareGap(d, c);
    }
  }

  lemma SquareGap(c: nat, d: nat)
    requires c < d
    ensures c * c + c <= d * d - d
  {
    MulLe(c + 1, d, c);
    MulLe(c, d - 1, d);
    assert d * c == c * d && d * (d - 1) == d * d - d && (c + 1) * c == c * c + c;
  }

  /** The closed forms of the three decision variables. */
  function Decision(r: int, cx: int, cy: int): int {
    (cx + 1) * (cx + 1) + cy * cy - cy - r * r
  }

  /** One step of the circle: east, or south-east. */
  lemma CircleStep(r: int, cx: nat, cy: nat)
    requires OnCircle(r, cx, cy) && cx <= cy
    ensures Decision(r, cx + 1, cy) == Decision(r, cx, cy) + 2 * (cx + 1) + 1
    ensures Decision(r, cx + 1, cy - 1) == Decision(r, cx, cy) + 2 * (cx - cy) + 5
    ensures Decision(r, cx, cy) < 0 ==> OnCircle(r, cx + 1, cy)
    ensures Decision(r, cx, cy) >= 0 && cx + 1 < cy ==> OnCircle(r, cx + 1, cy - 1)
  {
  }

  /** A C int stored in a Sint16. */
  function Wrap(v: int): Sint16 {
    (v + 0x8000) % 0x1_0000 - 0x8000
  }

  lemma WrapOnce(v: int)
    ensures -0x8000 <= v < 0x8000 ==> Wrap(v) == v
    ensures -0x1_8000 <= v < -0x8000 ==> Wrap(v) == v + 0x1_0000
    ensures (Wrap(v) - v) % 0x1_0000 == 0
  {
    var q, x := (v + 0x8000) / 0x1_0000, v + 0x8000;
    assert x == q * 0x1_0000 + x % 0x1_0000;
    assert Wrap(v) - v == -q * 0x1_0000;
  }

  lemma WrapSame(a: int, b: int, q: int)
    requires a == b + q * 0x1_0000
    ensures Wrap(a) == Wrap(b)
  {
    var x := b + 0x8000;
    assert (x + q * 0x1_0000) % 0x1_0000 == x % 0x1_0000;
  }

  /** Wrapping the parts of a sum changes nothing. */
  lemma WrapSum(a: int, b: int)
    ensures Wrap(Wrap(a) + Wrap(b)) == Wrap(a + b) && Wrap(Wrap(a) + b) == Wrap(a + b)
  {
    var p, q := (a + 0x8000) / 0x1_0000, (b + 0x8000) / 0x1_0000;
    assert Wrap(a) == a - p * 0x1_0000 && Wrap(b) == b - q * 0x1_0000;
    WrapSame(Wrap(a) + Wrap(b), a + b, -p - q);
    WrapSame(Wrap(a) + b, a + b, -p);
  }

  function Pixel(x: int, y: int): Point {
    Point(Wrap(x), Wrap(y))
  }

  /** The pixels of one turn of the loop: the octant pixel (cx, cy) in its eight reflections. */
  function Reflections(x: int, y: int, cx: int, cy: int): seq<Point> {
    (if cy > 0 then [Pixel(x - cx, y + cy), Pixel(x + cx, y + cy), Pixel(x - cx, y - cy), Pixel(x + cx, y - cy)]
     else [Pixel(x - cx, y), Pixel(x + cx, y)])
    + (if cx > 0 then [Pixel(x - cy, y + cx), Pixel(x + cy, y + cx), Pixel(x - cy, y - cx), Pixel(x + cy, y - cx)]
       else [Pixel(x - cy, y), Pixel(x + cy, y)])
  }

  /** The pixels for the first n columns of the octant. */
  function AllReflections(x: int, y: int, octant: seq<int>, n: nat): seq<Point>
    requires n <= |octant|
  {
    if n == 0 then [] else AllReflections(x, y, octant, n - 1) + Reflections(x, y, n - 1, octant[n - 1])
  }

  lemma {:induction false} ReflectionsPrefix(x: int, y: int, octant: seq<int>, cy: int, n: nat)
    requires n <= |octant|
    ensures AllReflections(x, y, octant + [cy], n) == AllReflections(x, y, octant, n)
  {
    if n != 0 {
      ReflectionsPrefix(x, y, octant, cy, n - 1);
    }
  }

  /** Is (dx, dy), up to signs and exchange, the pixel of the octant in column i? */
  predicate ReflectsTo(dx: int, dy: int, i: int, cy: int) {
    (Abs(dx) == i && Abs(dy) == cy) || (Abs(dx) == cy && Abs(dy) == i)
  }

  /** The eight reflections are exactly the pixels at such distances from the center. */
  lemma ReflectionsAre(x: int, y: int, cx: nat, cy: nat)
    ensures forall dx, dy :: ReflectsTo(dx, dy, cx, cy) ==> Pixel(x + dx, y + dy) in Reflections(x, y, cx, cy)
    ensures forall p :: p in Reflections(x, y, cx, cy) ==>
              exists dx, dy :: ReflectsTo(dx, dy, cx, cy) && p == Pixel(x + dx, y + dy)
  {
    hide Wrap;
    forall dx, dy | ReflectsTo(dx, dy, cx, cy) ensures Pixel(x + dx, y + dy) in Reflections(x, y, cx, cy) {
      ReflectionsHave(x, y, cx, cy, dx, dy);
    }
    forall p | p in Reflections(x, y, cx, cy)
      ensures exists dx, dy :: ReflectsTo(dx, dy, cx, cy) && p == Pixel(x + dx, y + dy)
    {
      var dx, dy := OffsetOf(x, y, cx, cy, p);
      assert ReflectsTo(dx, dy, cx, cy);
    }
  }

  lemma ReflectionsHave(x: int, y: int, cx: nat, cy: nat, dx: int, dy: int)
    requires ReflectsTo(dx, dy, cx, cy)
    ensures Pixel(x + dx, y + dy) in Reflections(x, y, cx, cy)
  {
    hide Wrap;
    var s := Reflections(x, y, cx, cy);
    var h := if cy > 0 then 4 else 2;
    if Abs(dx) == cx && Abs(dy) == cy {
      assert s[if cy == 0 then (if dx < 0 then 0 else 1)
               else if dy > 0 then (if dx < 0 then 0 else 1) else if dx < 0 then 2 else 3] in s;
      assert dx == 0 ==> s[0] == s[1];
    } else {
      assert s[h + if cx == 0 then (if dx < 0 then 0 else 1)
                   else if dy > 0 then (if dx < 0 then 0 else 1) else if dx < 0 then 2 else 3] in s;
      assert dx == 0 ==> s[h] == s[h + 1];
    }
  }

  lemma OffsetOf(x: int, y: int, cx: nat, cy: nat, p: Point) returns (dx: int, dy: int)
    requires p in Reflections(x, y, cx, cy)
    ensures ReflectsTo(dx, dy, cx, cy) && p == Pixel(x + dx, y + dy)
  {
    hide Wrap;
    var h := if cy > 0 then 4 else 2;
    var k :| 0 <= k < |Reflections(x, y, cx, cy)| && Reflections(x, y, cx, cy)[k] == p;
    var j := if k < h then k else k - h;
    var a, b := if k < h then cx else cy, if k < h then cy else cx;
    dx := if j % 2 == 0 then -a else a;
    dy := if j < 2 then b else -b;
  }

  /** What is plotted for some columns is exactly what the symmetries of the circle make of their pixels. */
  lemma {:induction false} PlottedAre(x: int, y: int, octant: seq<int>, n: nat)
    requires n <= |octant| && forall i :: 0 <= i < |octant| ==> octant[i] >= 0
    ensures forall i, dx, dy :: 0 <= i < n && ReflectsTo(dx, dy, i, octant[i]) ==>
              Pixel(x + dx, y + dy) in AllReflections(x, y, octant, n)
    ensures forall p :: p in AllReflections(x, y, octant, n) ==>
              exists i, dx, dy :: 0 <= i < n && ReflectsTo(dx, dy, i, octant[i]) && p == Pixel(x + dx, y + dy)
  {
    hide Wrap, Reflections, ReflectsTo;
    if n != 0 {
      PlottedAre(x, y, octant, n - 1);
      ReflectionsAre(x, y, n - 1, octant[n - 1]);
    }
  }

  // ---------- the columns that the loop visits ----------

  /** The row of column n: the decision variable is the closed form, stored in 16 bits. */
  function Trace(r: int, n: nat): (cy: int)
    ensures cy <= r
  {
    if n == 0 then r else
      var cy := Trace(r, n - 1);
      if Wrap(Decision(r, n - 1, cy)) < 0 then cy else cy - 1
  }

  /** The radii for which the loop works as intended. */
  predicate GoodRadius(r: int) {
    r <= 16556 || r == 16642 || r == 16643
  }

  lemma SquareMono(a: nat, b: nat)
    requires a <= b
    ensures a * a <= b * b
  {
    MulLe(a, b, a);
    MulLe(a, b, b);
  }

  lemma SquareAtLeast(n: nat)
    ensures n <= n * n
  {
    if n > 1 {
      MulLe(1, n, n);
    }
  }

  /** The smallest k from n on whose square is not below r. */
  function RootFrom(r: nat, n: nat): (k: nat)
    requires n == 0 || (n - 1) * (n - 1) < r
    ensures k * k >= r && (k == 0 || (k - 1) * (k - 1) < r)
    decreases r - n
  {
    if n * n >= r then n else
      SquareAtLeast(n);
      RootFrom(r, n + 1)
  }

  // ---------- why the decision variable fits 16 bits ----------

  /** An octant is less wide than the circle is high. */
  lemma ColumnBound(r: int, cx: int, cy: int)
    requires 1 <= r <= 16643 && 0 <= cx <= cy <= r && OnCircle(r, cx, cy)
    ensures cx <= 12000
  {
    var a, b, c := cx * cx, cy * cy, r * r;
    assert b - cy < c - a;
    assert (cy - 1) * cy == b - cy;
    SquareMono(r, 16643);
    hide OnCircle;
    if cx > 12000 {
      MulLe(12001, cx, cx);
      MulLe(12000, cy - 1, cy);
    }
  }

  /** In row r - s, the column is past the point where the circle has fallen by s. */
  lemma ColumnOfRow(r: int, cx: nat, cy: nat, s: nat)
    requires OnCircle(r, cx, cy) && cy <= r - s
    ensures cx * cx >= (2 * s - 1) * r - s * s + s
  {
    SquareMono(cy, r - s);
    assert (r - s) * (r - s) == r * r - 2 * s * r + s * s && (2 * s - 1) * r == 2 * s * r - r;
  }

  /** The decision variable in rows r and r - 1, and a bound for the other rows. */
  lemma DecisionInRow(r: int, cx: nat, cy: nat)
    requires OnCircle(r, cx, cy)
    ensures 2 * cx + 1 - 2 * cy <= Decision(r, cx, cy) <= 2 * cx
    ensures cy == r ==> Decision(r, cx, cy) >= 1 - r
    ensures cy == r - 1 ==> Decision(r, cx, cy) == (cx + 1) * (cx + 1) - 3 * r + 2
    ensures cy == r - 2 ==> Decision(r, cx, cy) == (cx + 1) * (cx + 1) - 5 * r + 6
  {
    assert (cx + 1) * (cx + 1) == cx * cx + 2 * cx + 1;
    assert (r - 1) * (r - 1) == r * r - 2 * r + 1 && (r - 2) * (r - 2) == r * r - 4 * r + 4;
  }

  /** cx is at least n if its square is above that of n - 1. */
  lemma AtLeastRoot(cx: nat, n: nat, square: int)
    requires n >= 1 && (n - 1) * (n - 1) < square <= cx * cx
    ensures cx >= n && (cx + 1) * (cx + 1) >= (n + 1) * (n + 1)
  {
    if cx < n {
      SquareMono(cx, n - 1);
    }
    SquareMono(n + 1, cx + 1);
  }

  lemma FitsBelow(r: int, cx: nat, cy: nat)
    requires 16384 < r && GoodRadius(r) && OnCircle(r, cx, cy) && cy <= r - 1
    ensures Decision(r, cx, cy) >= -0x8000
  {
    DecisionInRow(r, cx, cy);
    hide OnCircle, Decision;
    ColumnOfRow(r, cx, cy, 1);
    if cy == r - 1 {
      if r <= 16556 {
        AtLeastRoot(cx, 129, r);
      } else {
        AtLeastRoot(cx, 130, r);
      }
    } else if cy == r - 2 {
      ColumnOfRow(r, cx, cy, 2);
      if r <= 16556 {
        AtLeastRoot(cx, 222, 3 * r - 2);
      } else {
        AtLeastRoot(cx, 224, 3 * r - 2);
      }
    } else {
      ColumnOfRow(r, cx, cy, 3);
      AtLeastRoot(cx, 287, 5 * r - 6);
    }
  }

  /** For a good radius the decision variable fits 16 bits at every point of the circle. */
  lemma FitsSixteenBits(r: int, cx: nat, cy: nat)
    requires 1 <= r && GoodRadius(r) && cx <= cy <= r && OnCircle(r, cx, cy)
    ensures Wrap(Decision(r, cx, cy)) == Decision(r, cx, cy)
  {
    ColumnBound(r, cx, cy);
    DecisionInRow(r, cx, cy);
    if 16384 < r && cy < r {
      FitsBelow(r, cx, cy);
    }
    WrapOnce(Decision(r, cx, cy));
  }

  // ---------- what the loop draws ----------

  /** For a good radius, every column of the octant gets the pixel nearest to the true circle. */
  lemma {:induction false} TraceOnCircle(r: int, n: nat)
    requires 1 <= r && GoodRadius(r) && n <= Trace(r, n)
    ensures OnCircle(r, n, Trace(r, n))
  {
    hide OnCircle, Decision, Wrap;
    if n == 0 {
      FirstPixel(r);
    } else {
      var cy := Trace(r, n - 1);
      TraceOnCircle(r, n - 1);
      FitsSixteenBits(r, n - 1, cy);
      CircleStep(r, n - 1, cy);
    }
  }

  /** And when the loop ends, the nearest circle point of the next column lies in the other octant. */
  lemma OctantEnds(r: int, n: nat, d: nat)
    requires 1 <= r && GoodRadius(r) && n >= 1 && n - 1 <= Trace(r, n - 1) && Trace(r, n) < n && OnCircle(r, n, d)
    ensures d < n
  {
    var cy := Trace(r, n - 1);
    TraceOnCircle(r, n - 1);
    FitsSixteenBits(r, n - 1, cy);
    CircleStep(r, n - 1, cy);
    if Decision(r, n - 1, cy) < 0 {
      OnCircleIsUnique(r, n, d, cy);
    } else if cy < d {
      SquareGap(cy, d);
    }
  }

  /** The loop stays in the first row up to the column k, whose square is the first that is not below r. */
  lemma {:induction false} FirstRow(r: int, k: nat, n: nat)
    requires 1 <= r < 0x8000 && k >= 1 && (k - 1) * (k - 1) < r && n < k
    ensures Trace(r, n) == r
  {
    if n > 0 {
      FirstRow(r, k, n - 1);
      SquareMono(n, k - 1);
      assert Decision(r, n - 1, r) == n * n - r;
      MulLe(0, n, n);
      WrapOnce(n * n - r);
    }
  }

  lemma RootIsSmall(r: int, k: nat)
    requires 1 <= r < 0x8000 && k >= 1 && (k - 1) * (k - 1) < r
    ensures k <= 182 && k * k - r <= 362
  {
    assert (k - 1) * (k - 1) == k * k - 2 * k + 1;
    if k > 182 {
      SquareMono(182, k - 1);
    }
  }

  lemma FirstStep(r: int, k: nat)
    requires 1 <= r < 0x8000 && k >= 1 && (k - 1) * (k - 1) < r <= k * k
    ensures k <= 182 && Trace(r, k) == r - 1
  {
    FirstRow(r, k, k - 1);
    RootIsSmall(r, k);
    assert Decision(r, k - 1, r) == k * k - r;
    WrapOnce(k * k - r);
  }

  /** Where it steps down, it is still on the circle. */
  lemma BelowFirst(r: int, k: nat)
    requires 1000 <= r < 0x8000 && k >= 1 && (k - 1) * (k - 1) < r <= k * k
    ensures OnCircle(r, k, r - 1) && Decision(r, k, r - 1) == k * k + 2 * k + 3 - 3 * r
  {
    RootIsSmall(r, k);
    assert (r - 1) * (r - 1) == r * r - 2 * r + 1;
    assert (k + 1) * (k + 1) == k * k + 2 * k + 1;
  }

  lemma OnlyOne(r: int, cx: int, c: nat, d: nat)
    requires OnCircle(r, cx, c) && c != d
    ensures !OnCircle(r, cx, d)
  {
    if OnCircle(r, cx, d) {
      OnCircleIsUnique(r, cx, c, d);
    }
  }

  /** Then the decision variable does not fit 16 bits. */
  lemma BadDecision(r: int, k: nat)
    requires 1 <= r < 0x8000 && !GoodRadius(r) && k >= 1 && (k - 1) * (k - 1) < r <= k * k
    ensures -0x1_8000 <= k * k + 2 * k + 3 - 3 * r < -0x8000
  {
    RootIsSmall(r, k);
    assert (k - 1) * (k - 1) == k * k - 2 * k + 1;
    if k < 129 {
      SquareMono(k, 128);
    } else if k > 131 {
      SquareMono(131, k - 1);
    }
  }

  /** For every other radius, the column after the first step down is drawn one row too low. */
  lemma BadRadius(r: int, k: nat)
    requires 1 <= r < 0x8000 && !GoodRadius(r) && k >= 1 && (k - 1) * (k - 1) < r <= k * k
    ensures k <= 182 && Trace(r, k + 1) == r - 2 && !OnCircle(r, k + 1, r - 2)
  {
    FirstStep(r, k);
    BelowFirst(r, k);
    BadDecision(r, k);
    WrapOnce(Decision(r, k, r - 1));
    CircleStep(r, k, r - 1);
    hide OnCircle;
    OnlyOne(r, k + 1, r - 1, r - 2);
  }

  /** The variables of the loop in column cx: all are the closed forms, stored in 16 bits. */
  ghost predicate InStep(r: int, cx: int, cy: int, df: int, de: int, dse: int) {
    df == Wrap(Decision(r, cx, cy)) && de == Wrap(2 * cx + 3) && dse == Wrap(2 * (cx - cy) + 5)
  }

  lemma DecisionSteps(r: int, cx: int, cy: int)
    ensures Decision(r, cx + 1, cy) == Decision(r, cx, cy) + 2 * cx + 3
    ensures Decision(r, cx + 1, cy - 1) == Decision(r, cx, cy) + 2 * (cx - cy) + 5
  {
  }

  /** The update at the end of the loop. Whatever the radius, the variables stay the closed forms modulo 2^16. */
  method NextColumn(ghost r: Sint16, x: Sint16, y: Sint16, f: Sint16, e: Sint16, se: Sint16)
      returns (cx: Sint16, cy: Sint16, df: Sint16, de: Sint16, dse: Sint16)
    requires 0 <= x <= y && x < 0x7FFF && InStep(r, x, y, f, e, se)
    ensures cx == x + 1 && cy == (if Wrap(Decision(r, x, y)) < 0 then y else y - 1) && InStep(r, cx, cy, df, de, dse)
  {
    DecisionSteps(r, x, y);
    hide Decision, Wrap;
    cx, cy, df, de, dse := x, y, f, e, se;
    if df < 0 {
      WrapSum(Decision(r, x, y), 2 * x + 3);
      df := Wrap(df + de);
      WrapSum(2 * x + 3, 2);
      de := Wrap(de + 2);
      WrapSum(2 * (x - y) + 5, 2);
      dse := Wrap(dse + 2);
    } else {
      WrapSum(Decision(r, x, y), 2 * (x - y) + 5);
      df := Wrap(df + dse);
      WrapSum(2 * x + 3, 2);
      de := Wrap(de + 2);
      WrapSum(2 * (x - y) + 5, 4);
      dse := Wrap(dse + 4);
      cy := cy - 1;
    }
    cx := cx + 1;
  }

  lemma {:induction false} TraceFalls(r: int, m: nat, n: nat)
    requires m <= n
    ensures Trace(r, n) <= Trace(r, m)
  {
    if m < n {
      TraceFalls(r, m, n - 1);
    }
  }

  /** The loop never gets to a column that does not fit 16 bits. */
  lemma ColumnFits(r: int, n: nat)
    requires 1 <= r < 0x8000 && n <= Trace(r, n)
    ensures n < 0x7FFF
  {
    var k := RootFrom(r, 0);
    FirstStep(r, k);
    if n >= k {
      TraceFalls(r, k, n);
    }
  }

  /** The drawing loop of circleColor: column by column one pixel and its reflections. For a good radius these are the
      pixels nearest to the true circle, up to the end of the octant; for every other radius one of them is not. */
  method CircleLoop(x: Sint16, y: Sint16, r: Sint16) returns (octant: seq<int>, plotted: seq<Point>)
    requires r >= 1
    ensures plotted == AllReflections(x, y, octant, |octant|)
    ensures |octant| >= 1 && forall i :: 0 <= i < |octant| ==> i <= octant[i] <= r
    ensures GoodRadius(r) <==> forall i :: 0 <= i < |octant| ==> OnCircle(r, i, octant[i])
    ensures GoodRadius(r) ==> forall d: nat :: OnCircle(r, |octant|, d) ==> d < |octant|
  {
    hide OnCircle, Decision, Reflections, AllReflections, Trace, Wrap, GoodRadius, InStep;
    NoReflections(x, y, []);
    var cx: Sint16, cy: Sint16, ocx: Sint16, ocy: Sint16 := 0, r, -1, -1;
    var df: Sint16, de: Sint16, dse: Sint16 := 1 - r, 3, Wrap(-2 * r + 5);
    LoopStarts(r);
    octant, plotted := [], [];
    var more := true;
    while more
      invariant cx == |octant| && cy == Trace(r, |octant|) && (more ==> InStep(r, cx, cy, df, de, dse))
      invariant more <==> cx <= cy
      invariant 0 <= cx && ocx == cx - 1 && -1 <= cy <= r
      invariant forall i :: 0 <= i < |octant| ==> i <= octant[i] == Trace(r, i)
      invariant plotted == AllReflections(x, y, octant, |octant|)
      decreases cy - cx
    {
      ghost var n := |octant|;
      if ocy != cy || ocx != cx {
        NextReflections(x, y, octant, cy);
        plotted := plotted + Reflections(x, y, cx, cy);
        octant := octant + [cy as int];
        ocy := cy;
        ocx := cx;
      }
      ColumnFits(r, n);
      NextTrace(r, n);
      cx, cy, df, de, dse := NextColumn(r, cx, cy, df, de, dse);
      more := cx <= cy;
    }
    OctantDone(r, octant);
  }

  lemma NoReflections(x: int, y: int, octant: seq<int>)
    ensures AllReflections(x, y, octant, 0) == []
  {
  }

  lemma NextReflections(x: int, y: int, octant: seq<int>, cy: int)
    ensures AllReflections(x, y, octant + [cy], |octant| + 1)
            == AllReflections(x, y, octant, |octant|) + Reflections(x, y, |octant|, cy)
  {
    ReflectionsPrefix(x, y, octant, cy, |octant|);
  }

  lemma LoopStarts(r: int)
    requires 1 <= r < 0x8000
    ensures Trace(r, 0) == r && InStep(r, 0, r, 1 - r, 3, Wrap(-2 * r + 5))
  {
    hide Wrap, Decision;
    FirstPixel(r);
    WrapOnce(1 - r);
    WrapOnce(3);
    assert 2 * (0 - r) + 5 == -2 * r + 5;
  }

  lemma NextTrace(r: int, n: nat)
    ensures Trace(r, n) <= r
    ensures Trace(r, n + 1) == if Wrap(Decision(r, n, Trace(r, n))) < 0 then Trace(r, n) else Trace(r, n) - 1
  {
    hide Wrap, Decision;
  }

  /** What the finished octant is like. */
  lemma OctantDone(r: int, octant: seq<int>)
    requires 1 <= r < 0x8000 && Trace(r, |octant|) < |octant|
    requires forall i :: 0 <= i < |octant| ==> i <= octant[i] == Trace(r, i)
    ensures |octant| >= 1 && forall i :: 0 <= i < |octant| ==> octant[i] <= r
    ensures GoodRadius(r) <==> forall i :: 0 <= i < |octant| ==> OnCircle(r, i, octant[i])
    ensures GoodRadius(r) ==> forall d: nat :: OnCircle(r, |octant|, d) ==> d < |octant|
  {
    assert |octant| >= 1;
    hide OnCircle, GoodRadius;
    if GoodRadius(r) {
      forall i | 0 <= i < |octant| ensures OnCircle(r, i, octant[i]) {
        TraceOnCircle(r, i);
      }
      forall d: nat | OnCircle(r, |octant|, d) ensures d < |octant| {
        OctantEnds(r, |octant|, d);
      }
    } else {
      BadColumn(r, octant);
    }
  }

  lemma BadColumn(r: int, octant: seq<int>)
    requires 1 <= r < 0x8000 && !GoodRadius(r) && Trace(r, |octant|) < |octant|
    requires forall i :: 0 <= i < |octant| ==> octant[i] == Trace(r, i)
    ensures exists i :: 0 <= i < |octant| && !OnCircle(r, i, octant[i])
  {
    var k := RootFrom(r, 0);
    BadRadius(r, k);
    if |octant| <= k + 1 {
      TraceFalls(r, |octant|, k + 1);
    }
    assert !OnCircle(r, k + 1, octant[k + 1]);
  }

  lemma FirstPixel(r: nat)
    requires r >= 1
    ensures OnCircle(r, 0, r) && Decision(r, 0, r) == 1 - r
  {
  }
}
