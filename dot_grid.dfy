/** The canvas helpers of the dot-grid background
    (frontend/src/components/dotGrid.jsx): the colour parser, the throttle
    gate for pointer events, and the construction of the dot array. Canvas
    coordinates are modelled as exact reals; the clock is an integer. */
module DotGrid {
  import opened AsciiText

  // ---------------------------------------------------------------------------
  // hexToRgb
  // ---------------------------------------------------------------------------

  datatype Rgb = Rgb(r: nat, g: nat, b: nat)

  /** The text after an optional leading '#'. */
  function ColorBody(hex: string): string
  {
    if |hex| >= 1 && hex[0] == '#' then hex[1..] else hex
  }

  /** `/^#?([a-f\d]{2})([a-f\d]{2})([a-f\d]{2})$/i`: an optional '#' and
      exactly six hexadecimal digits of either case. (A leading '#' can only be
      the optional one, since '#' is no hexadecimal digit.) */
  predicate MatchesColor(hex: string)
  {
    var body := ColorBody(hex);
    |body| == 6 && AllHex(body)
  }

  /** The colour of six hexadecimal digits, two per component. */
  function BodyRgb(body: string): (c: Rgb)
    requires |body| == 6 && AllHex(body)
    ensures c.r < 256 && c.g < 256 && c.b < 256
  {
    Rgb(HexValue(body[0..2]), HexValue(body[2..4]), HexValue(body[4..6]))
  }

  /** `hexToRgb`: each component is the value of its two-digit pair; a string
      that does not match gives black. */
  function HexToRgb(hex: string): (c: Rgb)
    ensures c.r < 256 && c.g < 256 && c.b < 256
    ensures !MatchesColor(hex) ==> c == Rgb(0, 0, 0)
    ensures MatchesColor(hex) ==> c == BodyRgb(ColorBody(hex))
  {
    if !MatchesColor(hex) then Rgb(0, 0, 0) else BodyRgb(ColorBody(hex))
  }

  /** Two lower-case hexadecimal digits for a component. */
  function Hex2(v: nat): (s: string)
    requires v < 256
    ensures |s| == 2 && AllHex(s)
  {
    HexString(v, 2)
  }

  /** The six-digit form of a colour. */
  function RgbDigits(c: Rgb): (s: string)
    requires c.r < 256 && c.g < 256 && c.b < 256
    ensures |s| == 6 && AllHex(s)
  {
    Hex2(c.r) + Hex2(c.g) + Hex2(c.b)
  }

  lemma BodyRgbOfDigits(c: Rgb)
    requires c.r < 256 && c.g < 256 && c.b < 256
    ensures BodyRgb(RgbDigits(c)) == c
  {
    var body := RgbDigits(c);
    HexValueOfString(c.r, 2);
    HexValueOfString(c.g, 2);
    HexValueOfString(c.b, 2);
    assert body[0..2] == Hex2(c.r);
    assert body[2..4] == Hex2(c.g);
    assert body[4..6] == Hex2(c.b);
  }

  /** Every colour comes back from its six-digit form, with or without '#'. */
  lemma HexToRgbOfHexString(c: Rgb)
    requires c.r < 256 && c.g < 256 && c.b < 256
    ensures HexToRgb("#" + RgbDigits(c)) == c
    ensures HexToRgb(RgbDigits(c)) == c
  {
    var body := RgbDigits(c);
    BodyRgbOfDigits(c);
    assert IsHexDigit(body[0]);
    assert ColorBody(body) == body;
    var hashed := "#" + body;
    assert hashed[1..] == body;
    assert ColorBody(hashed) == body;
  }

  /** The value of a hexadecimal string does not depend on the case of its
      letters. */
  lemma HexValueLower(s: string)
    requires AllHex(s)
    ensures AllHex(Lower(s)) && HexValue(Lower(s)) == HexValue(s)
  {
    HexStringOfValue(s);
    HexValueOfString(HexValue(s), |s|);
  }

  lemma BodyRgbLower(body: string)
    requires |body| == 6 && AllHex(body)
    ensures AllHex(Lower(body)) && BodyRgb(Lower(body)) == BodyRgb(body)
  {
    var lb := Lower(body);
    HexValueLower(body);
    HexValueLower(body[0..2]);
    HexValueLower(body[2..4]);
    HexValueLower(body[4..6]);
    assert lb[0..2] == Lower(body[0..2]);
    assert lb[2..4] == Lower(body[2..4]);
    assert lb[4..6] == Lower(body[4..6]);
  }

  lemma ColorBodyLower(hex: string)
    ensures ColorBody(Lower(hex)) == Lower(ColorBody(hex))
  {
    if |hex| >= 1 && hex[0] == '#' {
      assert Lower(hex)[1..] == Lower(hex[1..]);
    } else if |hex| >= 1 {
      assert Lower(hex)[0] != '#';
    }
  }

  lemma AllHexLower(s: string)
    ensures AllHex(Lower(s)) <==> AllHex(s)
  {
    if !AllHex(s) {
      var i :| 0 <= i < |s| && !IsHexDigit(s[i]);
      assert !IsHexDigit(Lower(s)[i]);
    }
  }

  /** The parser is case-insensitive. */
  lemma HexToRgbIgnoresCase(hex: string)
    ensures HexToRgb(Lower(hex)) == HexToRgb(hex)
  {
    var body := ColorBody(hex);
    ColorBodyLower(hex);
    AllHexLower(body);
    if MatchesColor(hex) {
      BodyRgbLower(body);
    }
  }

  /** The component's default colours. */
  lemma DefaultColors()
    ensures HexToRgb("#271E37") == Rgb(39, 30, 55)
    ensures HexToRgb("#5227FF") == Rgb(82, 39, 255)
  {
    var base := "#271E37";
    assert MatchesColor(base);
    assert ColorBody(base)[0..2] == "27" && ColorBody(base)[2..4] == "1E" && ColorBody(base)[4..6] == "37";
    var active := "#5227FF";
    assert MatchesColor(active);
    assert ColorBody(active)[0..2] == "52" && ColorBody(active)[2..4] == "27" && ColorBody(active)[4..6] == "FF";
  }

  // ---------------------------------------------------------------------------
  // throttle
  // ---------------------------------------------------------------------------

  /** `lastCall` after the calls at the given clock readings. */
  function LastCall(calls: seq<int>, limit: int): int
  {
    if calls == [] then 0
    else
      var prev := LastCall(calls[..|calls| - 1], limit);
      if calls[|calls| - 1] - prev >= limit then calls[|calls| - 1] else prev
  }

  /** The clock readings of the calls that were forwarded, in order. */
  function Forwarded(calls: seq<int>, limit: int): (f: seq<int>)
    ensures |f| <= |calls|
  {
    if calls == [] then []
    else
      var front := calls[..|calls| - 1];
      var now := calls[|calls| - 1];
      Forwarded(front, limit) + if now - LastCall(front, limit) >= limit then [now] else []
  }

  /** Consecutive forwarded calls are at least `limit` apart, the first is at
      time `limit` or later, and `lastCall` is the last forwarded time. */
  ghost predicate Spaced(f: seq<int>, limit: int)
  {
    (f != [] ==> f[0] >= limit)
      && forall i :: 0 <= i < |f| - 1 ==> f[i + 1] - f[i] >= limit
  }

  lemma {:induction false} ForwardedSpaced(calls: seq<int>, limit: int)
    ensures Spaced(Forwarded(calls, limit), limit)
    ensures LastCall(calls, limit) == if Forwarded(calls, limit) == [] then 0
                                      else Forwarded(calls, limit)[|Forwarded(calls, limit)| - 1]
    decreases |calls|
  {
    if calls != [] {
      ForwardedSpaced(calls[..|calls| - 1], limit);
    }
  }

  /** With a non-negative limit, spacing of neighbours spaces any two. */
  lemma {:induction false} SpacedApart(f: seq<int>, limit: int, i: int, j: int)
    requires Spaced(f, limit) && 0 <= limit && 0 <= i < j < |f|
    ensures f[j] - f[i] >= limit
    decreases j - i
  {
    if j > i + 1 {
      SpacedApart(f, limit, i, j - 1);
      assert f[j - 1 + 1] - f[j - 1] >= limit;
    }
  }

  /** With a non-negative limit, any two forwarded calls are at least
      `limit` apart. */
  lemma ForwardedApart(calls: seq<int>, limit: int)
    requires 0 <= limit
    ensures var f := Forwarded(calls, limit);
      forall i, j :: 0 <= i < j < |f| ==> f[j] - f[i] >= limit
  {
    ForwardedSpaced(calls, limit);
    var f := Forwarded(calls, limit);
    forall i, j | 0 <= i < j < |f| ensures f[j] - f[i] >= limit {
      SpacedApart(f, limit, i, j);
    }
  }

  /** With a negative limit the spacing of neighbours does not extend to any
      two calls: every call below is forwarded, and the first and last are
      16 apart rather than 10. */
  lemma NegativeLimitExample()
    ensures Forwarded([0, -8, -16], -10) == [0, -8, -16]
    ensures -16 - 0 < -10
  {
    assert [0, -8, -16][..2] == [0, -8];
    assert [0, -8][..1] == [0];
    assert [0][..0] == [];
  }

  lemma {:induction false} LastCallNonNegative(calls: seq<int>, limit: int)
    requires 0 <= limit
    ensures LastCall(calls, limit) >= 0
    decreases |calls|
  {
    if calls != [] {
      LastCallNonNegative(calls[..|calls| - 1], limit);
    }
  }

  /** With a non-negative limit, a call earlier than time `limit` is never
      forwarded, whatever came before it. */
  lemma EarlyCallDropped(calls: seq<int>, limit: int, now: int)
    requires 0 <= limit && now < limit
    ensures Forwarded(calls + [now], limit) == Forwarded(calls, limit)
  {
    var all := calls + [now];
    assert all[..|all| - 1] == calls;
    LastCallNonNegative(calls, limit);
    assert Forwarded(calls, limit) + [] == Forwarded(calls, limit);
  }

  /** `throttle(func, limit)`: `calls` is the history of clock readings at
      which the returned function was invoked. */
  class Throttle {
    const limit: int
    var lastCall: int
    ghost var calls: seq<int>

    ghost predicate Valid()
      reads this
    {
      lastCall == LastCall(calls, limit)
    }

    constructor (limit: int)
      ensures this.limit == limit && lastCall == 0 && calls == [] && Valid()
    {
      this.limit := limit;
      lastCall := 0;
      calls := [];
    }

    /** One invocation at clock reading `now`; the result says whether `func`
        is called. */
    method Call(now: int) returns (forward: bool)
      requires Valid()
      modifies this
      ensures Valid() && calls == old(calls) + [now]
      ensures forward <==> now - old(lastCall) >= limit
      ensures lastCall == if forward then now else old(lastCall)
      ensures Forwarded(calls, limit) == Forwarded(old(calls), limit) + if forward then [now] else []
    {
      calls := calls + [now];
      assert calls[..|calls| - 1] == old(calls);
      if now - lastCall >= limit {
        lastCall := now;
        forward := true;
      } else {
        forward := false;
      }
    }
  }

  // ---------------------------------------------------------------------------
  // buildGrid
  // ---------------------------------------------------------------------------

  /** One dot: its centre, its animation offset, and whether an inertia push
      is running. */
  datatype Dot = Dot(cx: real, cy: real, xOffset: real, yOffset: real, inertiaApplied: bool)

  /** Where the grid starts and how far apart its dots are. */
  datatype Layout = Layout(rows: int, cols: int, startX: real, startY: real, cell: real)

  /** How often `for (let k = 0; k < n; k++)` iterates. */
  function Iterations(n: int): (k: nat)
    ensures n >= 0 ==> k == n
    ensures n < 0 ==> k == 0
  {
    if n < 0 then 0 else n
  }

  /** The grid geometry for a wrapper of the given size. */
  function ComputeLayout(width: real, height: real, dotSize: real, gap: real): (l: Layout)
    requires dotSize + gap > 0.0
    ensures l.cell == dotSize + gap
    ensures l.cols as real * l.cell <= width + gap < (l.cols as real + 1.0) * l.cell
    ensures l.rows as real * l.cell <= height + gap < (l.rows as real + 1.0) * l.cell
    ensures width + gap >= 0.0 ==> l.cols >= 0
    ensures height + gap >= 0.0 ==> l.rows >= 0
  {
    var cell := dotSize + gap;
    FloorFit(width + gap, cell);
    FloorFit(height + gap, cell);
    var cols := ((width + gap) / cell).Floor;
    var rows := ((height + gap) / cell).Floor;
    Layout(rows, cols,
           (width - (cell * cols as real - gap)) / 2.0 + dotSize / 2.0,
           (height - (cell * rows as real - gap)) / 2.0 + dotSize / 2.0,
           cell)
  }

  /** `Math.floor(v / cell)` is the largest whole number of cells that fit in `v`. */
  lemma FloorFit(v: real, cell: real)
    requires cell > 0.0
    ensures (v / cell).Floor as real * cell <= v
    ensures v < ((v / cell).Floor as real + 1.0) * cell
    ensures v >= 0.0 ==> (v / cell).Floor >= 0
  {
    FloorBelow(v, cell);
    FloorAbove(v, cell);
  }

  lemma FloorBelow(v: real, cell: real)
    requires cell > 0.0
    ensures (v / cell).Floor as real * cell <= v
  {
    var q := v / cell;
    assert v == q * cell;
    Scale(q.Floor as real, q, cell);
  }

  lemma FloorAbove(v: real, cell: real)
    requires cell > 0.0
    ensures v < ((v / cell).Floor as real + 1.0) * cell
  {
    var q := v / cell;
    assert v == q * cell;
    assert q < q.Floor as real + 1.0;
    ScaleStrict(q, q.Floor as real + 1.0, cell);
  }

  lemma Scale(a: real, b: real, c: real)
    requires a <= b && c > 0.0
    ensures a * c <= b * c
  {
  }

  lemma ScaleStrict(a: real, b: real, c: real)
    requires a < b && c > 0.0
    ensures a * c < b * c
  {
  }

  /** The row is centred: the space left of its first dot equals the space
      right of its last one, and neither is negative. */
  lemma LayoutCentred(width: real, height: real, dotSize: real, gap: real)
    requires dotSize + gap > 0.0 && width + gap >= 0.0
    ensures var l := ComputeLayout(width, height, dotSize, gap);
      var left := l.startX - dotSize / 2.0;
      var right := width - (l.startX + (l.cols as real - 1.0) * l.cell + dotSize / 2.0);
      l.cols >= 1 ==> left == right && left >= 0.0
  {
    var cell := dotSize + gap;
    var q := (width + gap) / cell;
    var n := q.Floor;
    assert n as real <= q;
    assert n as real * cell <= q * cell by {
      if n as real < q {
        assert n as real * cell < q * cell;
      }
    }
    assert q * cell == width + gap;
  }

  function DotAt(x: nat, y: nat, l: Layout): Dot
  {
    Dot(l.startX + x as real * l.cell, l.startY + y as real * l.cell, 0.0, 0.0, false)
  }

  /** The first `n` dots of row `y`. */
  function RowDots(y: nat, n: nat, l: Layout): (s: seq<Dot>)
    ensures |s| == n
  {
    if n == 0 then [] else RowDots(y, n - 1, l) + [DotAt(n - 1, y, l)]
  }

  /** The first `n` rows, one after the other. */
  function GridRows(n: nat, l: Layout): seq<Dot>
  {
    if n == 0 then [] else GridRows(n - 1, l) + RowDots(n - 1, Iterations(l.cols), l)
  }

  lemma {:induction false} RowDotsAt(y: nat, n: nat, l: Layout, x: nat)
    requires x < n
    ensures RowDots(y, n, l)[x] == DotAt(x, y, l)
    decreases n
  {
    if x < n - 1 {
      RowDotsAt(y, n - 1, l, x);
    }
  }

  /** The grid holds rows × cols dots in row-major order: the dot at row `y`
      and column `x` is at index `y * cols + x`, centred on the grid point
      with zero offsets and no inertia running. */
  lemma {:induction false} GridRowMajor(n: nat, l: Layout, y: nat, x: nat)
    requires y < n && x < l.cols
    ensures |GridRows(n, l)| == n * l.cols
    ensures y * l.cols + x < |GridRows(n, l)|
    ensures GridRows(n, l)[y * l.cols + x] == DotAt(x, y, l)
    decreases n
  {
    GridSize(n, l);
    assert Iterations(l.cols) == l.cols;
    assert y * l.cols + x < (y + 1) * l.cols;
    assert (y + 1) * l.cols <= n * l.cols by {
      MulMono(y + 1, n, l.cols);
    }
    if y == n - 1 {
      assert y * l.cols == |GridRows(n - 1, l)| by {
        GridSize(n - 1, l);
      }
      RowDotsAt(n - 1, l.cols, l, x);
    } else {
      GridRowMajor(n - 1, l, y, x);
    }
  }

  lemma {:induction false} GridSize(n: nat, l: Layout)
    ensures |GridRows(n, l)| == n * Iterations(l.cols)
    decreases n
  {
    if n > 0 {
      GridSize(n - 1, l);
      var c := Iterations(l.cols);
      assert (n - 1) * c + c == n * c;
    }
  }

  lemma MulMono(a: nat, b: nat, c: nat)
    requires a <= b
    ensures a * c <= b * c
  {
    assert b * c == a * c + (b - a) * c;
  }

  /** The nested loops of `buildGrid`. */
  method MakeDots(l: Layout) returns (dots: seq<Dot>)
    ensures dots == GridRows(Iterations(l.rows), l)
  {
    dots := [];
    var y := 0;
    while y < l.rows
      invariant 0 <= y <= Iterations(l.rows)
      invariant dots == GridRows(y, l)
    {
      var x := 0;
      while x < l.cols
        invariant 0 <= x <= Iterations(l.cols)
        invariant dots == GridRows(y, l) + RowDots(y, x, l)
      {
        dots := dots + [DotAt(x, y, l)];
        x := x + 1;
      }
      y := y + 1;
    }
  }

  /** The component's refs and props that `buildGrid` reads, and the dot
      array it writes (`dotsRef.current`). `width` and `height` are the
      wrapper's bounding box. */
  class DotGridCanvas {
    var hasWrapper: bool
    var hasCanvas: bool
    var width: real
    var height: real
    const dotSize: real
    const gap: real
    var dots: seq<Dot>

    constructor (dotSize: real, gap: real)
      ensures this.dotSize == dotSize && this.gap == gap
      ensures !hasWrapper && !hasCanvas && dots == []
      ensures width == 0.0 && height == 0.0
    {
      this.dotSize := dotSize;
      this.gap := gap;
      hasWrapper := false;
      hasCanvas := false;
      width := 0.0;
      height := 0.0;
      dots := [];
    }

    /** React attaches the wrapper and the canvas element; the wrapper's
        bounding box then has the given size. */
    method Mount(width: real, height: real)
      modifies this
      ensures hasWrapper && hasCanvas
      ensures this.width == width && this.height == height && dots == old(dots)
    {
      hasWrapper := true;
      hasCanvas := true;
      this.width := width;
      this.height := height;
    }

    /** `buildGrid`: nothing happens until both the wrapper and the canvas
        are mounted; then the dot array is rebuilt from scratch. */
    method BuildGrid()
      requires dotSize + gap > 0.0
      modifies this
      ensures !(hasWrapper && hasCanvas) ==> dots == old(dots)
      ensures hasWrapper && hasCanvas ==>
        dots == GridRows(Iterations(ComputeLayout(width, height, dotSize, gap).rows),
                         ComputeLayout(width, height, dotSize, gap))
      ensures hasWrapper == old(hasWrapper) && hasCanvas == old(hasCanvas)
      ensures width == old(width) && height == old(height)
    {
      if !hasWrapper || !hasCanvas {
        return;
      }
      var l := ComputeLayout(width, height, dotSize, gap);
      dots := MakeDots(l);
    }
  }
}
