/**
 * The parallel index tables the two displays build once in their
 * constructors: the serpentine table of `SerialDisplay` (8 entries per pixel,
 * one per slot, odd rows reversed) and the raster table of `MPVDisplay`
 * (3 entries per pixel, one per colour, no reversal).
 */
module AddressMap {

  /** Where entry `z` of pixel `(x, y)` lands when every pixel takes `n` entries, row by row. */
  function Offset(width: nat, n: nat, y: nat, x: nat, z: nat): nat
  {
    (y * width + x) * n + z
  }

  /** The column stored for logical column `x` of row `y`: odd rows run right to left. */
  function Column(width: nat, y: nat, x: nat): (col: int)
    requires x < width
    ensures 0 <= col < width
  {
    if y % 2 == 0 then x else width - 1 - x
  }

  /** Entry `k` of the three tables holds `(x, y, z)`. */
  ghost predicate Holds(xs: seq<int>, ys: seq<int>, zs: seq<int>, k: nat, x: int, y: int, z: int)
  {
    k < |xs| && k < |ys| && k < |zs| && xs[k] == x && ys[k] == y && zs[k] == z
  }

  /** Every entry names a pixel of the `width` x `height` image and one of `n` sub-entries. */
  ghost predicate Bounded(width: nat, height: nat, n: nat, xs: seq<int>, ys: seq<int>, zs: seq<int>)
    requires |xs| == |ys| == |zs|
  {
    forall k :: 0 <= k < |xs| ==> 0 <= xs[k] < width && 0 <= ys[k] < height && 0 <= zs[k] < n
  }

  /** The tables `xcors`, `ycors`, `pcors` of `SerialDisplay`. */
  ghost predicate IsSerpentineTable(width: nat, height: nat, xs: seq<int>, ys: seq<int>, ps: seq<int>)
  {
    && |xs| == |ys| == |ps| == width * height * 8
    && Bounded(width, height, 8, xs, ys, ps)
    && forall y: nat, x: nat, p: nat :: y < height && x < width && p < 8 ==>
         Holds(xs, ys, ps, Offset(width, 8, y, x, p), Column(width, y, x), y, p)
  }

  /** The tables `xcors`, `ycors`, `zcors` of `MPVDisplay`. */
  ghost predicate IsRasterTable(width: nat, height: nat, xs: seq<int>, ys: seq<int>, zs: seq<int>)
  {
    && |xs| == |ys| == |zs| == width * height * 3
    && Bounded(width, height, 3, xs, ys, zs)
    && forall y: nat, x: nat, z: nat :: y < height && x < width && z < 3 ==>
         Holds(xs, ys, zs, Offset(width, 3, y, x, z), x, y, z)
  }

  lemma RowLength(width: nat, n: nat, y: nat)
    ensures (y * width + width) * n == (y + 1) * width * n
  {
  }

  /** The loops of `SerialDisplay.__init__`: rows, then columns, then the 8 slots. */
  method SerpentineTable(width: nat, height: nat) returns (xs: seq<int>, ys: seq<int>, ps: seq<int>)
    ensures IsSerpentineTable(width, height, xs, ys, ps)
  {
    xs, ys, ps := [], [], [];
    for y := 0 to height
      invariant |xs| == |ys| == |ps| == y * width * 8
      invariant Bounded(width, height, 8, xs, ys, ps)
      invariant forall y': nat, x: nat, p: nat :: y' < y && x < width && p < 8 ==>
                  Holds(xs, ys, ps, Offset(width, 8, y', x, p), Column(width, y', x), y', p)
    {
      for x := 0 to width
        invariant |xs| == |ys| == |ps| == (y * width + x) * 8
        invariant Bounded(width, height, 8, xs, ys, ps)
        invariant forall y': nat, x': nat, p: nat :: y' < y && x' < width && p < 8 ==>
                    Holds(xs, ys, ps, Offset(width, 8, y', x', p), Column(width, y', x'), y', p)
        invariant forall x': nat, p: nat :: x' < x && p < 8 ==>
                    Holds(xs, ys, ps, Offset(width, 8, y, x', p), Column(width, y, x'), y, p)
      {
        for p := 0 to 8
          invariant |xs| == |ys| == |ps| == (y * width + x) * 8 + p
          invariant Bounded(width, height, 8, xs, ys, ps)
          invariant forall y': nat, x': nat, p': nat :: y' < y && x' < width && p' < 8 ==>
                      Holds(xs, ys, ps, Offset(width, 8, y', x', p'), Column(width, y', x'), y', p')
          invariant forall x': nat, p': nat :: x' < x && p' < 8 ==>
                      Holds(xs, ys, ps, Offset(width, 8, y, x', p'), Column(width, y, x'), y, p')
          invariant forall p': nat :: p' < p ==>
                      Holds(xs, ys, ps, Offset(width, 8, y, x, p'), Column(width, y, x), y, p')
        {
          xs := xs + [if y % 2 == 0 then x else width - 1 - x];
          ys := ys + [y];
          ps := ps + [p];
        }
      }
      RowLength(width, 8, y);
    }
  }

  /** The loops of `MPVDisplay.__init__`: rows, then columns, then the 3 colours. */
  method RasterTable(width: nat, height: nat) returns (xs: seq<int>, ys: seq<int>, zs: seq<int>)
    ensures IsRasterTable(width, height, xs, ys, zs)
  {
    xs, ys, zs := [], [], [];
    for y := 0 to height
      invariant |xs| == |ys| == |zs| == y * width * 3
      invariant Bounded(width, height, 3, xs, ys, zs)
      invariant forall y': nat, x: nat, z: nat :: y' < y && x < width && z < 3 ==>
                  Holds(xs, ys, zs, Offset(width, 3, y', x, z), x, y', z)
    {
      for x := 0 to width
        invariant |xs| == |ys| == |zs| == (y * width + x) * 3
        invariant Bounded(width, height, 3, xs, ys, zs)
        invariant forall y': nat, x': nat, z: nat :: y' < y && x' < width && z < 3 ==>
                    Holds(xs, ys, zs, Offset(width, 3, y', x', z), x', y', z)
        invariant forall x': nat, z: nat :: x' < x && z < 3 ==>
                    Holds(xs, ys, zs, Offset(width, 3, y, x', z), x', y, z)
      {
        for z := 0 to 3
          invariant |xs| == |ys| == |zs| == (y * width + x) * 3 + z
          invariant Bounded(width, height, 3, xs, ys, zs)
          invariant forall y': nat, x': nat, z': nat :: y' < y && x' < width && z' < 3 ==>
                      Holds(xs, ys, zs, Offset(width, 3, y', x', z'), x', y', z')
          invariant forall x': nat, z': nat :: x' < x && z' < 3 ==>
                      Holds(xs, ys, zs, Offset(width, 3, y, x', z'), x', y, z')
          invariant forall z': nat :: z' < z ==>
                      Holds(xs, ys, zs, Offset(width, 3, y, x, z'), x, y, z')
        {
          xs := xs + [x];
          ys := ys + [y];
          zs := zs + [z];
        }
      }
      RowLength(width, 3, y);
    }
  }

  /** Reversing a row twice gives the column back, so each row is a permutation of its columns. */
  lemma ColumnInvolution(width: nat, y: nat, x: nat)
    requires x < width
    ensures Column(width, y, Column(width, y, x)) == x
  {
  }

  lemma{:induction false} ColumnInjective(width: nat, y: nat, x1: nat, x2: nat)
    requires x1 < width && x2 < width
    ensures Column(width, y, x1) == Column(width, y, x2) <==> x1 == x2
  {
    ColumnInvolution(width, y, x1);
    ColumnInvolution(width, y, x2);
  }

  lemma MulMono(a: nat, b: nat, c: nat)
    requires a <= b
    ensures a * c <= b * c
  {
  }

  lemma DivBelow(q: nat, a: nat, b: nat)
    requires q < a * b
    ensures a > 0 && q / a < b
  {
    if q / a >= b {
      MulMono(b, q / a, a);
      assert false;
    }
  }

  /** Splitting a pixel number into row and column. */
  lemma RowSplit(width: nat, height: nat, q: nat)
    requires q < width * height
    ensures width > 0 && q / width < height && q % width < width
    ensures q == (q / width) * width + q % width
  {
    DivBelow(q, width, height);
  }

  /** Every slot of every pixel is sent: pixel `(x, y)` slot `p` sits at a known entry. */
  lemma SerpentineCovers(width: nat, height: nat, xs: seq<int>, ys: seq<int>, ps: seq<int>, x: nat, y: nat, p: nat)
    requires IsSerpentineTable(width, height, xs, ys, ps)
    requires x < width && y < height && p < 8
    ensures Holds(xs, ys, ps, Offset(width, 8, y, Column(width, y, x), p), x, y, p)
  {
    ColumnInvolution(width, y, x);
  }

  /** Entry `k` of the serpentine table, read off its position alone. */
  lemma SerpentineEntry(width: nat, height: nat, xs: seq<int>, ys: seq<int>, ps: seq<int>, k: nat)
    requires IsSerpentineTable(width, height, xs, ys, ps)
    requires k < |xs|
    ensures width > 0
    ensures Holds(xs, ys, ps, k, Column(width, (k / 8) / width, (k / 8) % width), (k / 8) / width, k % 8)
  {
    var q := k / 8;
    RowSplit(width, height, q);
    var y, x, p := q / width, q % width, k % 8;
    assert Offset(width, 8, y, x, p) == k;
  }

  /** No slot of any pixel is sent twice: distinct entries hold distinct triples. */
  lemma SerpentineInjective(width: nat, height: nat, xs: seq<int>, ys: seq<int>, ps: seq<int>, k1: nat, k2: nat)
    requires IsSerpentineTable(width, height, xs, ys, ps)
    requires k1 < |xs| && k2 < |xs|
    ensures (xs[k1], ys[k1], ps[k1]) == (xs[k2], ys[k2], ps[k2]) <==> k1 == k2
  {
    SerpentineEntry(width, height, xs, ys, ps, k1);
    SerpentineEntry(width, height, xs, ys, ps, k2);
    RowSplit(width, height, k1 / 8);
    RowSplit(width, height, k2 / 8);
    if (xs[k1], ys[k1], ps[k1]) == (xs[k2], ys[k2], ps[k2]) {
      ColumnInjective(width, ys[k1], (k1 / 8) % width, (k2 / 8) % width);
    }
  }

  /** Entry `k` of the raster table, read off its position alone. */
  lemma RasterEntry(width: nat, height: nat, xs: seq<int>, ys: seq<int>, zs: seq<int>, k: nat)
    requires IsRasterTable(width, height, xs, ys, zs)
    requires k < |xs|
    ensures width > 0
    ensures Holds(xs, ys, zs, k, (k / 3) % width, (k / 3) / width, k % 3)
  {
    var q := k / 3;
    RowSplit(width, height, q);
    var y, x, z := q / width, q % width, k % 3;
    assert Offset(width, 3, y, x, z) == k;
  }
}
