/**
 * In-place mirroring of an NV12 frame: a plane of luma bytes, then a plane of half as many
 * rows holding interleaved U and V bytes.  Rows are bpl bytes apart; only the first width
 * bytes of a row belong to the picture.
 */
module Nv12Flip {
  import opened Basics

  datatype Geometry = Geometry(width: nat, height: nat, bpl: nat) {
    /** Rows of both planes. */
    function Rows(): nat { height + height / 2 }

    /** Rows do not overlap. */
    predicate Valid() { width <= bpl }
  }

  /** The bytes of both planes. */
  function Area(g: Geometry): nat { g.Rows() * g.bpl }

  predicate Fits(g: Geometry, n: nat) {
    g.Valid() && Area(g) <= n
  }

  lemma {:induction false} Monotone(a: nat, b: nat, k: nat)
    requires a <= b
    ensures a * k <= b * k
  {
    if a < b {
      Monotone(a, b - 1, k);
      assert b * k == (b - 1) * k + k;
    }
  }

  lemma RowBound(g: Geometry, r: nat, c: nat, rows: nat)
    requires r < rows && c < g.bpl
    ensures 0 <= r * g.bpl && r * g.bpl + c < rows * g.bpl
  {
    Monotone(0, r, g.bpl);
    Monotone(r + 1, rows, g.bpl);
    assert (r + 1) * g.bpl == r * g.bpl + g.bpl;
  }

  /** The byte in column c of row r. */
  function At(g: Geometry, s: seq<byte>, r: nat, c: nat): byte
    requires Fits(g, |s|) && r < g.Rows() && c < g.bpl
  {
    RowBound(g, r, c, g.Rows());
    s[r * g.bpl + c]
  }

  /** Different places have different positions. */
  lemma PositionInjective(g: Geometry, r: nat, c: nat, r': nat, c': nat)
    requires c < g.bpl && c' < g.bpl && r * g.bpl + c == r' * g.bpl + c'
    ensures r == r' && c == c'
  {
    if r < r' {
      RowBound(g, r, c, r');
    } else if r' < r {
      RowBound(g, r', c', r);
    }
  }

  // ----- what the flips do -----

  lemma SameParity(w: nat, c: nat)
    requires c < w
    ensures w % 2 == c % 2 ==> c + 2 <= w
    ensures 2 * (w / 2) <= w <= 2 * (w / 2) + 1
  {
    var a, b := w / 2, c / 2;
    assert w == 2 * a + w % 2 && c == 2 * b + c % 2;
  }

  /**
   * The column a byte of the chroma plane comes from.  For an even width whole U/V pairs change places.  For
   * an odd width the pairs on the right are misaligned: the middle column stays, or the pairs that meet
   * there overlap.
   */
  function ChromaCol(w: nat, c: nat): (c': nat)
    requires c < w
    ensures c' < w
  {
    SameParity(w, c);
    if w % 2 == 0 || c < w / 2 then (if c % 2 == 0 then w - 2 - c else w - c)
    else if w % 4 == 1 && c == w / 2 then c
    else if c % 2 == 0 then w - c else w - 2 - c
  }

  /** The same, with the width split into 4 * k + m and the column into 2 * j + b. */
  lemma ChromaParts(k: nat, m: nat, j: nat, b: nat)
    requires m < 4 && b < 2 && 2 * j + b < 4 * k + m
    ensures var w, c := 4 * k + m, 2 * j + b;
            var h := 2 * k + if m < 2 then 0 else 1;
            ChromaCol(w, c) ==
              if m == 0 || m == 2 || c < h then (if b == 0 then w - 2 - c else w - c)
              else if m == 1 && c == h then c
              else if b == 0 then w - c else w - 2 - c
  {
    FourthParts(k, m);
    assert (2 * j + b) % 2 == b;
  }

  lemma FourthParts(k: nat, m: nat)
    requires m < 4
    ensures var w := 4 * k + m;
            w % 4 == m && w / 2 == 2 * k + (if m < 2 then 0 else 1) && w % 2 == (if m == 0 || m == 2 then 0 else 1)
  {
    var w, h := 4 * k + m, 2 * k + if m < 2 then 0 else 1;
    assert w == 2 * h + if m == 0 || m == 2 then 0 else 1;
  }

  /** Pairs that do not overlap change places. */
  lemma Chroma2(w: nat, c: nat)
    requires c < w && w % 4 != 3
    ensures ChromaCol(w, ChromaCol(w, c)) == c
  {
    hide ChromaCol;
    var k, m, j, b := w / 4, w % 4, c / 2, c % 2;
    assert w == 4 * k + m && c == 2 * j + b;
    ChromaParts(k, m, j, b);
    if m == 1 {
      if c < 2 * k {
        ChromaParts(k, 1, if b == 0 then 2 * k - j - 1 else 2 * k - j, 1 - b);
      } else if c > 2 * k {
        ChromaParts(k, 1, if b == 0 then 2 * k - j else 2 * k - j - 1, 1 - b);
      }
    } else {
      ChromaParts(k, m, 2 * k + m / 2 - 1 - j, b);
    }
  }

  /** The column a byte comes from when rows are mirrored: single luma bytes, U/V pairs, no padding. */
  function MirrorCol(g: Geometry, r: nat, c: nat): (c': nat)
    requires g.Valid() && c < g.bpl
    ensures c' < g.bpl
  {
    if c >= g.width then c else if r < g.height then g.width - 1 - c else ChromaCol(g.width, c)
  }

  /** The row a byte comes from when columns are mirrored, plane by plane. */
  function MirrorRow(g: Geometry, r: nat, c: nat): (r': nat)
    requires r < g.Rows()
    ensures r' < g.Rows()
  {
    if c >= g.width then r
    else if r < g.height then g.height - 1 - r
    else g.height + (g.height / 2 - 1 - (r - g.height))
  }

  ghost predicate SameTail(g: Geometry, a: seq<byte>, b: seq<byte>)
    requires Fits(g, |a|)
  {
    |a| == |b| && forall p :: Area(g) <= p < |a| ==> a[p] == b[p]
  }

  lemma TailRefl(g: Geometry, a: seq<byte>)
    requires Fits(g, |a|)
    ensures SameTail(g, a, a)
  {
  }

  lemma TailTrans(g: Geometry, a: seq<byte>, b: seq<byte>, c: seq<byte>)
    requires Fits(g, |a|) && SameTail(g, a, b) && Fits(g, |b|) && SameTail(g, b, c)
    ensures SameTail(g, a, c)
  {
  }

  ghost predicate IsFlipV(g: Geometry, a: seq<byte>, b: seq<byte>)
    requires Fits(g, |a|)
  {
    && SameTail(g, a, b)
    && forall r, c :: 0 <= r < g.Rows() && 0 <= c < g.bpl ==> At(g, b, r, c) == At(g, a, r, MirrorCol(g, r, c))
  }

  ghost predicate IsFlipH(g: Geometry, a: seq<byte>, b: seq<byte>)
    requires Fits(g, |a|)
  {
    && SameTail(g, a, b)
    && forall r, c :: 0 <= r < g.Rows() && 0 <= c < g.bpl ==> At(g, b, r, c) == At(g, a, MirrorRow(g, r, c), c)
  }

  // ----- the loops -----

  /** Exchanges two bytes of the frame. */
  method Swap(g: Geometry, buf: array<byte>, r: nat, c: nat, r': nat, c': nat)
    requires Fits(g, buf.Length) && r < g.Rows() && r' < g.Rows() && c < g.bpl && c' < g.bpl
    modifies buf
    ensures SameTail(g, old(buf[..]), buf[..])
    ensures forall x, y :: 0 <= x < g.Rows() && 0 <= y < g.bpl ==>
              At(g, buf[..], x, y) ==
                if x == r && y == c then At(g, old(buf[..]), r', c')
                else if x == r' && y == c' then At(g, old(buf[..]), r, c)
                else At(g, old(buf[..]), x, y)
  {
    RowBound(g, r, c, g.Rows());
    RowBound(g, r', c', g.Rows());
    var p, q := r * g.bpl + c, r' * g.bpl + c';
    buf[p], buf[q] := buf[q], buf[p];
    forall x, y | 0 <= x < g.Rows() && 0 <= y < g.bpl
      ensures At(g, buf[..], x, y) ==
                if x == r && y == c then At(g, old(buf[..]), r', c')
                else if x == r' && y == c' then At(g, old(buf[..]), r, c)
                else At(g, old(buf[..]), x, y)
    {
      RowBound(g, x, y, g.Rows());
      if x * g.bpl + y == p {
        PositionInjective(g, x, y, r, c);
      }
      if x * g.bpl + y == q {
        PositionInjective(g, x, y, r', c');
      }
    }
  }

  /** The outer i columns on each side of a row. */
  predicate IsOuter(g: Geometry, i: nat, y: nat) {
    y < i || g.width - i <= y
  }

  function Outer(g: Geometry, i: nat): (cols: set<nat>) {
    set y: nat | y < g.width && IsOuter(g, i, y)
  }

  /** Row r is mirrored in the columns cols, and nothing else has changed. */
  ghost predicate RowDone(g: Geometry, a: seq<byte>, b: seq<byte>, r: nat, cols: set<nat>)
    requires Fits(g, |a|)
  {
    && SameTail(g, a, b)
    && forall x, y :: 0 <= x < g.Rows() && 0 <= y < g.bpl ==>
         At(g, b, x, y) == At(g, a, x, if x == r && y in cols then MirrorCol(g, x, y) else y)
  }

  /** Exchanges a byte not yet moved with the byte it mirrors. */
  method SwapMirrored(g: Geometry, buf: array<byte>, ghost a: seq<byte>, r: nat, c: nat, c': nat, ghost cols: set<nat>)
    requires Fits(g, buf.Length) && |a| == buf.Length && r < g.height && c < g.width && c' == MirrorCol(g, r, c)
    requires c !in cols && c' !in cols && RowDone(g, a, buf[..], r, cols)
    modifies buf
    ensures RowDone(g, a, buf[..], r, cols + {c, c'})
  {
    hide At, SameTail, Area, MirrorCol;
    ghost var b := buf[..];
    Mirror2(g, r, c);
    Swap(g, buf, r, c, r, c');
    TailTrans(g, a, b, buf[..]);
  }

  /** Mirroring twice leads back, unless pairs overlap in the middle of a chroma row. */
  lemma Mirror2(g: Geometry, r: nat, c: nat)
    requires g.Valid() && c < g.bpl && (r < g.height || g.width % 4 != 3)
    ensures MirrorCol(g, r, MirrorCol(g, r, c)) == c
  {
    hide ChromaCol;
    if r >= g.height && c < g.width {
      Chroma2(g.width, c);
    }
  }

  lemma RowUntouched(g: Geometry, a: seq<byte>, r: nat)
    requires Fits(g, |a|)
    ensures RowDone(g, a, a, r, Outer(g, 0))
  {
  }

  /** A row of the luma plane, byte by byte. */
  method FlipLumaRow(g: Geometry, buf: array<byte>, r: nat)
    requires Fits(g, buf.Length) && r < g.height
    modifies buf
    ensures RowDone(g, old(buf[..]), buf[..], r, Outer(g, g.width))
  {
    hide At, SameTail, Area;
    TailRefl(g, buf[..]);
    var i := 0;
    while i < g.width / 2
      invariant 0 <= i <= g.width / 2
      invariant RowDone(g, old(buf[..]), buf[..], r, Outer(g, i))
    {
      SwapMirrored(g, buf, old(buf[..]), r, i, g.width - i - 1, Outer(g, i));
      assert Outer(g, i) + {i, g.width - i - 1} == Outer(g, i + 1);
      i := i + 1;
    }
    BorderIsAll(g, old(buf[..]), buf[..], r, i);
  }

  /** The columns of the pair at i and of its mirror image are new, and complete the next border. */
  lemma NextPair(g: Geometry, r: nat, i: nat)
    requires g.Valid() && g.height <= r && i % 2 == 0 && i < g.width / 2
    ensures var w := g.width;
            && MirrorCol(g, r, i) == w - i - 2 && MirrorCol(g, r, w - i - 1) == i + 1 && MirrorCol(g, r, w - i - 2) == i
            && (i + 1 != w - i - 2 ==> MirrorCol(g, r, i + 1) == w - i - 1)
    ensures {i, i + 1, g.width - i - 2, g.width - i - 1} !! Outer(g, i)
    ensures Outer(g, i) + {i, i + 1, g.width - i - 2, g.width - i - 1} == Outer(g, i + 2)
  {
    hide ChromaCol;
    ChromaPair(g.width, i / 2);
    assert i == 2 * (i / 2) && 2 * i + 2 <= g.width;
  }

  lemma ChromaPair(w: nat, j: nat)
    requires 2 * j < w / 2
    ensures 4 * j + 2 <= w
    ensures ChromaCol(w, 2 * j) == w - 2 * j - 2 && ChromaCol(w, w - 2 * j - 1) == 2 * j + 1
    ensures ChromaCol(w, w - 2 * j - 2) == 2 * j
    ensures 2 * j + 1 != w - 2 * j - 2 ==> ChromaCol(w, 2 * j + 1) == w - 2 * j - 1
  {
    hide ChromaCol;
    var k, m := w / 4, w % 4;
    assert w == 4 * k + m && w / 2 == 2 * k + m / 2;
    var odd := m == 1 || m == 3;
    ChromaParts(k, m, j, 0);
    ChromaParts(k, m, j, 1);
    if odd {
      ChromaParts(k, m, 2 * k - j + (m - 1) / 2, 0);
      ChromaParts(k, m, 2 * k - j - 1 + (m - 1) / 2, 1);
    } else {
      ChromaParts(k, m, 2 * k - j - 1 + m / 2, 1);
      ChromaParts(k, m, 2 * k - j - 1 + m / 2, 0);
    }
  }

  /** Past the last pair only the middle column of a chroma row is left, and it stays. */
  lemma ChromaMiddle(w: nat, i: nat, y: nat)
    requires i % 2 == 0 && w / 2 <= i <= y < w && y < w - i
    ensures ChromaCol(w, y) == y
  {
    hide ChromaCol;
    var k, m, j := w / 4, w % 4, i / 2;
    assert w == 4 * k + m && w / 2 == 2 * k + m / 2 && i == 2 * j;
    assert m == 1 && j == k && y == 2 * k;
    ChromaParts(k, 1, k, 0);
  }

  /** Columns inside the last border mirror themselves. */
  lemma BorderIsAll(g: Geometry, a: seq<byte>, b: seq<byte>, r: nat, i: nat)
    requires Fits(g, |a|) && i >= g.width / 2 && (r < g.height || i % 2 == 0) && RowDone(g, a, b, r, Outer(g, i))
    ensures RowDone(g, a, b, r, Outer(g, g.width))
  {
    hide At, SameTail, Area, ChromaCol;
    forall y: nat | y < g.width ensures y in Outer(g, g.width) && (y in Outer(g, i) || MirrorCol(g, r, y) == y) {
      assert IsOuter(g, g.width, y);
      if r >= g.height && !IsOuter(g, i, y) {
        ChromaMiddle(g.width, i, y);
      }
    }
  }

  /** Stores one byte of the frame. */
  method Put(g: Geometry, buf: array<byte>, r: nat, c: nat, val: byte)
    requires Fits(g, buf.Length) && r < g.Rows() && c < g.bpl
    modifies buf
    ensures SameTail(g, old(buf[..]), buf[..])
    ensures forall x, y :: 0 <= x < g.Rows() && 0 <= y < g.bpl ==>
              At(g, buf[..], x, y) == if x == r && y == c then val else At(g, old(buf[..]), x, y)
  {
    RowBound(g, r, c, g.Rows());
    var p := r * g.bpl + c;
    buf[p] := val;
    forall x, y | 0 <= x < g.Rows() && 0 <= y < g.bpl
      ensures At(g, buf[..], x, y) == if x == r && y == c then val else At(g, old(buf[..]), x, y)
    {
      RowBound(g, x, y, g.Rows());
      if x * g.bpl + y == p {
        PositionInjective(g, x, y, r, c);
      }
    }
  }

  method Get(g: Geometry, buf: array<byte>, r: nat, c: nat) returns (val: byte)
    requires Fits(g, buf.Length) && r < g.Rows() && c < g.bpl
    ensures val == At(g, buf[..], r, c)
  {
    RowBound(g, r, c, g.Rows());
    val := buf[r * g.bpl + c];
  }

  /** The four stores that exchange two pairs, in the order of the source; for some odd widths the pairs overlap. */
  method ExchangePairs(g: Geometry, buf: array<byte>, r: nat, i: nat)
    requires Fits(g, buf.Length) && g.height <= r < g.Rows() && i < g.width / 2
    modifies buf
    ensures SameTail(g, old(buf[..]), buf[..])
    ensures forall x, y :: 0 <= x < g.Rows() && 0 <= y < g.bpl ==>
              At(g, buf[..], x, y) == At(g, old(buf[..]), x,
                if x != r then y
                else if y == g.width - i - 1 then i + 1 else if y == g.width - i - 2 then i
                else if y == i + 1 then g.width - i - 1 else if y == i then g.width - i - 2 else y)
  {
    hide At, SameTail, Area;
    var w := g.width;
    ghost var b0 := buf[..];
    var u := Get(g, buf, r, i);
    var v := Get(g, buf, r, i + 1);
    var x := Get(g, buf, r, w - i - 2);
    Put(g, buf, r, i, x);
    ghost var b1 := buf[..];
    var y := Get(g, buf, r, w - i - 1);
    Put(g, buf, r, i + 1, y);
    ghost var b2 := buf[..];
    Put(g, buf, r, w - i - 2, u);
    ghost var b3 := buf[..];
    Put(g, buf, r, w - i - 1, v);
    TailTrans(g, b0, b1, b2);
    TailTrans(g, b0, b2, b3);
    TailTrans(g, b0, b3, buf[..]);
  }

  method FlipPair(g: Geometry, buf: array<byte>, ghost a: seq<byte>, r: nat, i: nat)
    requires Fits(g, buf.Length) && |a| == buf.Length && g.height <= r < g.Rows() && i % 2 == 0 && i < g.width / 2
    requires RowDone(g, a, buf[..], r, Outer(g, i))
    modifies buf
    ensures RowDone(g, a, buf[..], r, Outer(g, i + 2))
  {
    hide At, SameTail, Area, Outer, MirrorCol;
    ghost var b := buf[..];
    NextPair(g, r, i);
    ExchangePairs(g, buf, r, i);
    TailTrans(g, a, b, buf[..]);
  }

  /** A row of the chroma plane, U/V pair by U/V pair. */
  method FlipChromaRow(g: Geometry, buf: array<byte>, r: nat)
    requires Fits(g, buf.Length) && g.height <= r < g.Rows()
    modifies buf
    ensures RowDone(g, old(buf[..]), buf[..], r, Outer(g, g.width))
  {
    hide At, SameTail, Area, RowDone, Outer, MirrorCol;
    RowUntouched(g, buf[..], r);
    var i := 0;
    while i < g.width / 2
      invariant 0 <= i && i % 2 == 0
      invariant RowDone(g, old(buf[..]), buf[..], r, Outer(g, i))
    {
      FlipPair(g, buf, old(buf[..]), r, i);
      i := i + 2;
    }
    BorderIsAll(g, old(buf[..]), buf[..], r, i);
  }

  /** The first r rows are mirrored, and nothing else has changed. */
  ghost predicate RowsDone(g: Geometry, a: seq<byte>, b: seq<byte>, r: nat)
    requires Fits(g, |a|)
  {
    && SameTail(g, a, b)
    && forall x, y :: 0 <= x < g.Rows() && 0 <= y < g.bpl ==>
         At(g, b, x, y) == At(g, a, x, if x < r then MirrorCol(g, x, y) else y)
  }

  lemma NextRow(g: Geometry, a: seq<byte>, b: seq<byte>, c: seq<byte>, r: nat)
    requires Fits(g, |a|) && |a| == |b| && RowsDone(g, a, b, r) && RowDone(g, b, c, r, Outer(g, g.width))
    ensures RowsDone(g, a, c, r + 1)
  {
    hide At, SameTail, Area;
    TailTrans(g, a, b, c);
    forall x, y | 0 <= x < g.Rows() && 0 <= y < g.bpl
      ensures At(g, c, x, y) == At(g, a, x, if x < r + 1 then MirrorCol(g, x, y) else y)
    {
      assert y in Outer(g, g.width) || MirrorCol(g, x, y) == y;
    }
  }

  /** flipBufferV mirrors each row, first of the luma plane and then of the chroma plane. */
  method FlipBufferV(g: Geometry, buf: array<byte>)
    requires Fits(g, buf.Length)
    modifies buf
    ensures IsFlipV(g, old(buf[..]), buf[..])
  {
    hide At, MirrorCol, SameTail, Area, Outer;
    TailRefl(g, buf[..]);
    for r := 0 to g.height
      invariant RowsDone(g, old(buf[..]), buf[..], r)
    {
      ghost var b := buf[..];
      FlipLumaRow(g, buf, r);
      NextRow(g, old(buf[..]), b, buf[..], r);
    }
    for r := g.height to g.height + g.height / 2
      invariant RowsDone(g, old(buf[..]), buf[..], r)
    {
      ghost var b := buf[..];
      FlipChromaRow(g, buf, r);
      NextRow(g, old(buf[..]), b, buf[..], r);
    }
  }

  /** A row mirrored within the plane of n rows that starts at row first. */
  function PlaneRow(first: nat, n: nat, x: nat): (x': nat)
    requires first <= x < first + n
    ensures first <= x' < first + n
  {
    first + (n - 1 - (x - first))
  }

  /** Column c of a plane is mirrored in its outer i rows on each side, and nothing else has changed. */
  ghost predicate ColumnDone(g: Geometry, a: seq<byte>, b: seq<byte>, first: nat, n: nat, c: nat, i: nat)
    requires Fits(g, |a|) && first + n <= g.Rows()
  {
    && SameTail(g, a, b)
    && forall x, y :: 0 <= x < g.Rows() && 0 <= y < g.bpl ==>
         At(g, b, x, y) ==
           if y == c && (first <= x < first + i || first + n - i <= x < first + n) && first <= x < first + n
           then At(g, a, PlaneRow(first, n, x), y) else At(g, a, x, y)
  }

  /** Exchanges two bytes of a column; the first i rows on each side are done. */
  method SwapRows(g: Geometry, buf: array<byte>, ghost a: seq<byte>, first: nat, n: nat, c: nat, i: nat)
    requires Fits(g, buf.Length) && |a| == buf.Length && first + n <= g.Rows() && c < g.width && 2 * i + 2 <= n
    requires ColumnDone(g, a, buf[..], first, n, c, i)
    modifies buf
    ensures ColumnDone(g, a, buf[..], first, n, c, i + 1)
  {
    hide At, SameTail, Area;
    ghost var b := buf[..];
    Swap(g, buf, first + i, c, first + n - 1 - i, c);
    TailTrans(g, a, b, buf[..]);
  }

  lemma ColumnUntouched(g: Geometry, a: seq<byte>, first: nat, n: nat, c: nat)
    requires Fits(g, |a|) && first + n <= g.Rows()
    ensures ColumnDone(g, a, a, first, n, c, 0)
  {
    hide At, SameTail, Area;
    TailRefl(g, a);
  }

  method FlipColumn(g: Geometry, buf: array<byte>, first: nat, n: nat, c: nat)
    requires Fits(g, buf.Length) && first + n <= g.Rows() && c < g.width
    modifies buf
    ensures ColumnDone(g, old(buf[..]), buf[..], first, n, c, n)
  {
    hide At, SameTail, Area, ColumnDone;
    var i := 0;
    ColumnUntouched(g, buf[..], first, n, c);
    while i < n / 2
      invariant 0 <= i <= n / 2 && ColumnDone(g, old(buf[..]), buf[..], first, n, c, i)
    {
      SwapRows(g, buf, old(buf[..]), first, n, c, i);
      i := i + 1;
    }
    ColumnAll(g, old(buf[..]), buf[..], first, n, c, i);
  }

  /** A row in the middle of a plane mirrors itself. */
  lemma ColumnAll(g: Geometry, a: seq<byte>, b: seq<byte>, first: nat, n: nat, c: nat, i: nat)
    requires Fits(g, |a|) && first + n <= g.Rows() && n <= 2 * i + 1 && 2 * i <= n
    requires ColumnDone(g, a, b, first, n, c, i)
    ensures ColumnDone(g, a, b, first, n, c, n)
  {
    hide At, SameTail, Area;
  }

  method FlipPlane(g: Geometry, buf: array<byte>, first: nat, n: nat)
    requires Fits(g, buf.Length) && first + n <= g.Rows()
    modifies buf
    ensures SameTail(g, old(buf[..]), buf[..])
    ensures forall x, y :: 0 <= x < g.Rows() && 0 <= y < g.bpl ==>
              At(g, buf[..], x, y) ==
                At(g, old(buf[..]), if y < g.width && first <= x < first + n then PlaneRow(first, n, x) else x, y)
  {
    hide At, PlaneRow, SameTail, Area;
    TailRefl(g, buf[..]);
    for j := 0 to g.width
      invariant SameTail(g, old(buf[..]), buf[..])
      invariant forall x, y :: 0 <= x < g.Rows() && 0 <= y < g.bpl ==>
        At(g, buf[..], x, y) ==
          At(g, old(buf[..]), if y < j && first <= x < first + n then PlaneRow(first, n, x) else x, y)
    {
      ghost var b := buf[..];
      FlipColumn(g, buf, first, n, j);
      TailTrans(g, old(buf[..]), b, buf[..]);
    }
  }

  lemma MirrorPlanes(g: Geometry, r: nat, c: nat)
    requires r < g.Rows()
    ensures r < g.height ==> MirrorRow(g, r, c) == if c < g.width then PlaneRow(0, g.height, r) else r
    ensures r >= g.height ==> MirrorRow(g, r, c) == if c < g.width then PlaneRow(g.height, g.height / 2, r) else r
  {
  }

  /** flipBufferH mirrors each column, plane by plane. */
  method FlipBufferH(g: Geometry, buf: array<byte>)
    requires Fits(g, buf.Length)
    modifies buf
    ensures IsFlipH(g, old(buf[..]), buf[..])
  {
    hide At, SameTail, Area, PlaneRow, MirrorRow;
    FlipPlane(g, buf, 0, g.height);
    ghost var b := buf[..];
    FlipPlane(g, buf, g.height, g.height / 2);
    TailTrans(g, old(buf[..]), b, buf[..]);
    forall r, c | 0 <= r < g.Rows() && 0 <= c < g.bpl
      ensures At(g, buf[..], r, c) == At(g, old(buf[..]), MirrorRow(g, r, c), c)
    {
      MirrorPlanes(g, r, c);
    }
  }

  // ----- the laws -----

  lemma RowsBound(r: nat, rows: nat, bpl: nat, p: nat)
    requires r * bpl <= p < rows * bpl
    ensures r < rows
  {
    assert r >= rows ==> r * bpl >= rows * bpl by {
      if r >= rows { Monotone(rows, r, bpl); }
    }
  }

  /** A frame is determined by its rows and what follows them. */
  lemma SameFrame(g: Geometry, a: seq<byte>, b: seq<byte>)
    requires Fits(g, |a|) && SameTail(g, a, b)
    requires forall r, c :: 0 <= r < g.Rows() && 0 <= c < g.bpl ==> At(g, a, r, c) == At(g, b, r, c)
    ensures a == b
  {
    hide Area, At;
    forall p | 0 <= p < |a| ensures a[p] == b[p] {
      if p < Area(g) {
        var r, c := SplitPosition(g, p);
        AtPosition(g, a, r, c, p);
        AtPosition(g, b, r, c, p);
      }
    }
  }

  lemma SplitPosition(g: Geometry, p: nat) returns (r: nat, c: nat)
    requires p < Area(g)
    ensures p == r * g.bpl + c && r < g.Rows() && c < g.bpl
  {
    r, c := p / g.bpl, p % g.bpl;
    assert p == r * g.bpl + c;
    RowsBound(r, g.Rows(), g.bpl, p);
  }

  lemma AtPosition(g: Geometry, s: seq<byte>, r: nat, c: nat, p: nat)
    requires Fits(g, |s|) && r < g.Rows() && c < g.bpl && p == r * g.bpl + c && p < |s|
    ensures At(g, s, r, c) == s[p]
  {
  }

  /** Mirroring the rows twice restores the frame, padding included, unless pairs overlap in the chroma plane. */
  lemma FlipVTwice(g: Geometry, a: seq<byte>, b: seq<byte>, c: seq<byte>)
    requires Fits(g, |a|) && (g.height < 2 || g.width % 4 != 3) && IsFlipV(g, a, b) && IsFlipV(g, b, c)
    ensures c == a
  {
    hide At, Area, MirrorCol;
    forall r, y | 0 <= r < g.Rows() && 0 <= y < g.bpl ensures At(g, a, r, y) == At(g, c, r, y) {
      Mirror2(g, r, y);
      assert At(g, b, r, MirrorCol(g, r, y)) == At(g, a, r, y);
    }
    SameFrame(g, a, c);
  }

  /** The frame with its rows mirrored. */
  function Mirrored(g: Geometry, a: seq<byte>): (b: seq<byte>)
    requires Fits(g, |a|)
    ensures |b| == |a|
  {
    seq(|a|, p requires 0 <= p < |a| =>
      if p < Area(g) then
        RowsBound(p / g.bpl, g.Rows(), g.bpl, p);
        At(g, a, p / g.bpl, MirrorCol(g, p / g.bpl, p % g.bpl))
      else a[p])
  }

  lemma RowAndColumn(g: Geometry, r: nat, c: nat)
    requires c < g.bpl
    ensures (r * g.bpl + c) / g.bpl == r && (r * g.bpl + c) % g.bpl == c
  {
    var p := r * g.bpl + c;
    PositionInjective(g, r, c, p / g.bpl, p % g.bpl);
  }

  lemma MirroredAt(g: Geometry, a: seq<byte>, r: nat, c: nat)
    requires Fits(g, |a|) && r < g.Rows() && c < g.bpl
    ensures At(g, Mirrored(g, a), r, c) == At(g, a, r, MirrorCol(g, r, c))
  {
    hide MirrorCol;
    RowBound(g, r, c, g.Rows());
    RowAndColumn(g, r, c);
  }

  lemma MirroredIsFlip(g: Geometry, a: seq<byte>)
    requires Fits(g, |a|)
    ensures IsFlipV(g, a, Mirrored(g, a))
  {
    hide MirrorCol, At, Area;
    forall r, c | 0 <= r < g.Rows() && 0 <= c < g.bpl
      ensures At(g, Mirrored(g, a), r, c) == At(g, a, r, MirrorCol(g, r, c))
    {
      MirroredAt(g, a, r, c);
    }
  }

  /** The condition is exact: where pairs overlap a byte is lost, and mirroring twice changes some frame. */
  lemma OverlapLosesByte(g: Geometry) returns (a: seq<byte>, b: seq<byte>, c: seq<byte>)
    requires g.Valid() && g.height >= 2 && g.width % 4 == 3
    ensures Fits(g, |a|) && IsFlipV(g, a, b) && IsFlipV(g, b, c) && c != a
  {
    hide MirrorCol;
    var n, lost := Area(g), g.width / 2 + 1;
    var zeros: seq<byte> := seq(n, _ => 0);
    RowBound(g, g.height, lost, g.Rows());
    a := zeros[g.height * g.bpl + lost := 1];
    b := Mirrored(g, a);
    MirroredIsFlip(g, a);
    c := Mirrored(g, b);
    MirroredIsFlip(g, b);
    forall x, y | 0 <= x < g.Rows() && 0 <= y < g.bpl ensures At(g, b, x, y) == 0 {
      NobodyTakes(g, x, y);
      OnlyOne(g, a, g.height, lost, x, MirrorCol(g, x, y));
    }
    assert At(g, c, g.height, lost) == At(g, b, g.height, MirrorCol(g, g.height, lost)) == 0;
    assert At(g, a, g.height, lost) == 1;
  }

  lemma NobodyTakes(g: Geometry, x: nat, y: nat)
    requires g.Valid() && y < g.bpl && g.width % 4 == 3
    ensures !(x == g.height && MirrorCol(g, x, y) == g.width / 2 + 1)
  {
    hide ChromaCol;
    if y < g.width {
      var k, j, b := g.width / 4, y / 2, y % 2;
      assert g.width == 4 * k + 3 && y == 2 * j + b && g.width / 2 == 2 * k + 1;
      ChromaParts(k, 3, j, b);
    }
  }

  lemma OnlyOne(g: Geometry, a: seq<byte>, r: nat, c: nat, x: nat, y: nat)
    requires Fits(g, |a|) && r < g.Rows() && x < g.Rows() && c < g.bpl && y < g.bpl && (x != r || y != c)
    requires r * g.bpl + c < |a| && forall p :: 0 <= p < |a| && p != r * g.bpl + c ==> a[p] == 0
    ensures At(g, a, x, y) == 0
  {
    RowBound(g, x, y, g.Rows());
    if x * g.bpl + y == r * g.bpl + c {
      PositionInjective(g, x, y, r, c);
    }
  }

  /** U and V bytes keep their places within pairs exactly when the width is even (or there is no pair). */
  lemma PairsKept(g: Geometry)
    requires g.Valid()
    ensures (forall c :: 0 <= c < g.width ==> ChromaCol(g.width, c) % 2 == c % 2) <==> g.width % 2 == 0 || g.width == 1
  {
    if g.width % 2 == 1 && g.width > 1 {
      assert ChromaCol(g.width, 0) == g.width - 2;
    }
  }

  /** Mirroring the columns twice restores the frame, padding included. */
  lemma FlipHTwice(g: Geometry, a: seq<byte>, b: seq<byte>, c: seq<byte>)
    requires Fits(g, |a|) && IsFlipH(g, a, b) && IsFlipH(g, b, c)
    ensures c == a
  {
    hide At, Area, MirrorRow;
    forall r, y | 0 <= r < g.Rows() && 0 <= y < g.bpl ensures At(g, a, r, y) == At(g, c, r, y) {
      MirrorRow2(g, r, y);
      assert At(g, b, MirrorRow(g, r, y), y) == At(g, a, r, y);
    }
    SameFrame(g, a, c);
  }

  lemma MirrorRow2(g: Geometry, r: nat, c: nat)
    requires r < g.Rows()
    ensures MirrorRow(g, MirrorRow(g, r, c), c) == r
  {
  }

  /** The two mirrorings of places commute. */
  lemma MirrorsCommute(g: Geometry, r: nat, c: nat)
    requires g.Valid() && r < g.Rows() && c < g.bpl
    ensures MirrorCol(g, MirrorRow(g, r, c), c) == MirrorCol(g, r, c)
    ensures MirrorRow(g, r, MirrorCol(g, r, c)) == MirrorRow(g, r, c)
  {
  }

  /** The order of the two flips does not matter. */
  lemma FlipsCommute(g: Geometry, a: seq<byte>, v: seq<byte>, vh: seq<byte>, h: seq<byte>, hv: seq<byte>)
    requires Fits(g, |a|)
    requires IsFlipV(g, a, v) && IsFlipH(g, v, vh) && IsFlipH(g, a, h) && IsFlipV(g, h, hv)
    ensures vh == hv
  {
    hide At, Area, MirrorRow, MirrorCol;
    forall r, c | 0 <= r < g.Rows() && 0 <= c < g.bpl ensures At(g, vh, r, c) == At(g, hv, r, c) {
      MirrorsCommute(g, r, c);
      assert At(g, v, MirrorRow(g, r, c), c) == At(g, a, MirrorRow(g, r, c), MirrorCol(g, r, c));
      assert At(g, h, r, MirrorCol(g, r, c)) == At(g, a, MirrorRow(g, r, c), MirrorCol(g, r, c));
    }
    SameFrame(g, vh, hv);
  }

  /**
   * Both flips rotate the picture by 180 degrees: luma bytes in their plane, and for an even width each U/V
   * pair as a whole, so that U and V bytes keep their places within pairs; padding columns stay.
   */
  lemma BothFlipsRotate(g: Geometry, a: seq<byte>, v: seq<byte>, vh: seq<byte>, r: nat, c: nat)
    requires Fits(g, |a|) && IsFlipV(g, a, v) && IsFlipH(g, v, vh) && c < g.bpl
    ensures r < g.height && c < g.width ==> At(g, vh, r, c) == At(g, a, g.height - 1 - r, g.width - 1 - c)
    ensures g.width % 2 == 0 && r < g.height / 2 && 2 * c + 1 < g.width ==>
              && At(g, vh, g.height + r, 2 * c) ==
                   At(g, a, g.height + (g.height / 2 - 1 - r), 2 * (g.width / 2 - 1 - c))
              && At(g, vh, g.height + r, 2 * c + 1) ==
                   At(g, a, g.height + (g.height / 2 - 1 - r), 2 * (g.width / 2 - 1 - c) + 1)
    ensures r < g.Rows() && g.width <= c ==> At(g, vh, r, c) == At(g, a, r, c)
  {
    hide At, Area;
  }

  // ----- the picture -----

  /** A pixel: its own luma byte, and the U/V pair it shares with the rest of its two-by-two block. */
  datatype Pixel = Pixel(y: byte, u: byte, v: byte)

  predicate EvenFrame(g: Geometry) { g.width % 2 == 0 && g.height % 2 == 0 }

  lemma Halves(n: nat, i: nat)
    requires n % 2 == 0 && i < n
    ensures i / 2 < n / 2 && 2 * (i / 2) + 1 < n && (n - 1 - i) / 2 == n / 2 - 1 - i / 2
  {
    var k, j, b := n / 2, i / 2, i % 2;
    assert n == 2 * k && i == 2 * j + b && n - 1 - i == 2 * (k - 1 - j) + (1 - b);
  }

  function PixelAt(g: Geometry, s: seq<byte>, row: nat, col: nat): Pixel
    requires Fits(g, |s|) && EvenFrame(g) && row < g.height && col < g.width
  {
    Halves(g.width, col);
    Halves(g.height, row);
    Pixel(At(g, s, row, col),
          At(g, s, g.height + row / 2, 2 * (col / 2)),
          At(g, s, g.height + row / 2, 2 * (col / 2) + 1))
  }

  /** On frames of even width and height one flip mirrors each line of pixels, and the other the order of the lines. */
  lemma PixelsMirrored(g: Geometry, a: seq<byte>, v: seq<byte>, h: seq<byte>, row: nat, col: nat)
    requires Fits(g, |a|) && EvenFrame(g) && row < g.height && col < g.width && IsFlipV(g, a, v) && IsFlipH(g, a, h)
    ensures PixelAt(g, v, row, col) == PixelAt(g, a, row, g.width - 1 - col)
    ensures PixelAt(g, h, row, col) == PixelAt(g, a, g.height - 1 - row, col)
  {
    hide At, Area;
    Halves(g.width, col);
    Halves(g.height, row);
  }
}
