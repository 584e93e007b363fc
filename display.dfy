/**
 * The two displays: `SerialDisplay`, which turns an image into the UART byte
 * stream for the LED matrix, and `MPVDisplay`, which turns it into raw rgb24
 * bytes for a preview window.  Images are `[x][y][colour]` arrays whose
 * values are already scaled to the 0..255 range (before clipping).
 */
module Displays {
  import opened Ws2812
  import opened Codebook
  import opened AddressMap

  /** numpy's `IndexError`, raised when the image is smaller than the tables address. */
  datatype Error = IndexError

  datatype Result<T> = Ok(value: T) | Err(error: Error)

  /** `np.clip(v, 0, 255)` on an integer: the value the `uint8` conversion then stores. */
  function Clamp(v: int): (c: int)
    ensures 0 <= c <= 255
    ensures 0 <= v <= 255 ==> c == v
  {
    if v < 0 then 0 else if v > 255 then 255 else v
  }

  /** Clipping keeps the order of values and saturates at both ends. */
  lemma ClampMonotone(u: int, v: int)
    requires u <= v
    ensures Clamp(u) <= Clamp(v)
    ensures u <= 0 ==> Clamp(u) == 0
    ensures v >= 255 ==> Clamp(v) == 255
  {
  }

  /** The `uint8` byte stored for `v`: clipped first, then converted. */
  function Level(v: int): (b: Byte)
    ensures b as int == Clamp(v)
  {
    ByteRoundTrip(Clamp(v));
    Clamp(v) as Byte
  }

  /** The eight bytes `format_color` gives for the clipped pixel `(x, y)`. */
  ghost function PixelBytes(image: array3<int>, x: int, y: int): seq<Byte>
    requires 0 <= x < image.Length0 && 0 <= y < image.Length1 && image.Length2 >= 3
    reads image
  {
    ColorBytes(Clamp(image[x, y, 0]), Clamp(image[x, y, 1]), Clamp(image[x, y, 2]))
  }

  lemma PixelLookups(table: array3<Byte>, image: array3<int>, x: int, y: int, p: nat)
    requires IsCodebook(table)
    requires 0 <= x < image.Length0 && 0 <= y < image.Length1 && image.Length2 >= 3 && p < 8
    ensures table[Red, Clamp(image[x, y, 0]), p] & table[Green, Clamp(image[x, y, 1]), p] & table[Blue, Clamp(image[x, y, 2]), p]
         == PixelBytes(image, x, y)[p]
  {
    CombineEntries(Clamp(image[x, y, 0]), Clamp(image[x, y, 1]), Clamp(image[x, y, 2]), p);
  }

  class SerialDisplay {
    const width: nat
    const height: nat
    const codebook: array3<Byte>
    const xcors: seq<int>
    const ycors: seq<int>
    const pcors: seq<int>

    /** The codebook and the serpentine tables are the ones the constructor builds. */
    ghost predicate Valid()
      reads codebook
    {
      IsCodebook(codebook) && IsSerpentineTable(width, height, xcors, ycors, pcors)
    }

    /** `__init__` without the device: build the codebook and the serpentine tables. */
    constructor(width: nat, height: nat)
      ensures this.width == width && this.height == height
      ensures fresh(codebook)
      ensures Valid()
    {
      this.width := width;
      this.height := height;
      var table := CreateCodebook();
      var xs, ys, ps := SerpentineTable(width, height);
      codebook := table;
      xcors, ycors, pcors := xs, ys, ps;
    }

    /**
     * The image can be indexed at every entry of the tables: it has three
     * colours, and it covers the matrix unless the tables are empty.  The
     * colour index is a scalar, which numpy checks even with empty tables.
     */
    predicate Fits(image: array3<int>)
    {
      image.Length2 >= 3 && (width * height == 0 || (image.Length0 >= width && image.Length1 >= height))
    }

    /** Every entry of the tables indexes the image and the codebook. */
    ghost predicate Indexable(image: array3<int>)
    {
      && codebook.Length0 == 3 && codebook.Length1 == 256 && codebook.Length2 == 8
      && |xcors| == |ycors| == |pcors|
      && forall k :: 0 <= k < |xcors| ==>
           0 <= xcors[k] < image.Length0 && 0 <= ycors[k] < image.Length1 && 0 <= pcors[k] < 8 && image.Length2 >= 3
    }

    /** `codebook[c, image[xcors[k], ycors[k], c], pcors[k]]`, with the image clipped. */
    ghost function Lookup(image: array3<int>, c: nat, k: nat): Byte
      requires Indexable(image)
      requires c < 3 && k < |xcors|
      reads codebook, image
    {
      codebook[c, Clamp(image[xcors[k], ycors[k], c]), pcors[k]]
    }

    lemma FitsIndexable(image: array3<int>)
      requires Valid() && Fits(image)
      ensures Indexable(image)
    {
    }

    /** Byte `k` of `data` after the first `c` rounds of `&=`. */
    ghost function Partial(image: array3<int>, c: nat, k: nat): Byte
      requires Indexable(image)
      requires c <= 3 && k < |xcors|
      reads codebook, image
    {
      if c == 0 then 0xFF else Partial(image, c - 1, k) & Lookup(image, c - 1, k)
    }

    lemma PartialAll(image: array3<int>, k: nat)
      requires Indexable(image)
      requires k < |xcors|
      ensures Partial(image, 3, k) == Lookup(image, Red, k) & Lookup(image, Green, k) & Lookup(image, Blue, k)
    {
      assert Partial(image, 1, k) == Lookup(image, Red, k);
    }

    /** The AND of the three lookups is byte `pcors[k]` of the clipped pixel's encoding. */
    lemma LookupsCombine(image: array3<int>, k: nat)
      requires Valid() && Fits(image)
      requires k < |xcors|
      ensures Partial(image, 3, k) == PixelBytes(image, xcors[k], ycors[k])[pcors[k]]
    {
      PartialAll(image, k);
      PixelLookups(codebook, image, xcors[k], ycors[k], pcors[k]);
    }

    /** What the buffer holds once all three rounds are done, entry by entry. */
    lemma FrameByEntry(image: array3<int>, s: seq<Byte>)
      requires Valid() && Fits(image)
      requires |s| == |xcors|
      requires forall k :: 0 <= k < |s| ==> s[k] == Partial(image, 3, k)
      ensures forall k :: 0 <= k < |s| ==>
                s[k] == Lookup(image, Red, k) & Lookup(image, Green, k) & Lookup(image, Blue, k)
      ensures forall k :: 0 <= k < |s| ==> s[k] == PixelBytes(image, xcors[k], ycors[k])[pcors[k]]
    {
      forall k | 0 <= k < |s|
        ensures s[k] == Lookup(image, Red, k) & Lookup(image, Green, k) & Lookup(image, Blue, k)
        ensures s[k] == PixelBytes(image, xcors[k], ycors[k])[pcors[k]]
      {
        PartialAll(image, k);
        LookupsCombine(image, k);
      }
    }

    /** The same buffer read by pixel: slot `p` of pixel `(x, y)` sits where the serpentine order puts it. */
    lemma FrameByPixel(image: array3<int>, s: seq<Byte>)
      requires Valid() && Fits(image)
      requires |s| == |xcors|
      requires forall k :: 0 <= k < |s| ==> s[k] == PixelBytes(image, xcors[k], ycors[k])[pcors[k]]
      ensures forall y: nat, x: nat, p: nat :: y < height && x < width && p < 8 ==>
                Offset(width, 8, y, Column(width, y, x), p) < |s| &&
                s[Offset(width, 8, y, Column(width, y, x), p)] == PixelBytes(image, x, y)[p]
    {
      forall y: nat, x: nat, p: nat | y < height && x < width && p < 8
        ensures Offset(width, 8, y, Column(width, y, x), p) < |s|
        ensures s[Offset(width, 8, y, Column(width, y, x), p)] == PixelBytes(image, x, y)[p]
      {
        SerpentineCovers(width, height, xcors, ycors, pcors, x, y, p);
      }
    }

    /** One round of `data &= codebook[c, image[xcors, ycors, c], pcors]`. */
    method AndChannel(data: array<Byte>, image: array3<int>, c: nat)
      requires Indexable(image)
      requires c < 3 && data.Length == |xcors|
      requires forall k :: 0 <= k < data.Length ==> data[k] == Partial(image, c, k)
      modifies data
      ensures forall k :: 0 <= k < data.Length ==> data[k] == Partial(image, c + 1, k)
    {
      for k := 0 to data.Length
        invariant forall k' :: 0 <= k' < k ==> data[k'] == Partial(image, c + 1, k')
        invariant forall k' :: k <= k' < data.Length ==> data[k'] == Partial(image, c, k')
      {
        data[k] := data[k] & codebook[c, Clamp(image[xcors[k], ycors[k], c]), pcors[k]];
      }
    }

    /** The buffer of `display`: all bytes 0xFF, then one round of `&=` per colour. */
    method AndChannels(image: array3<int>) returns (data: array<Byte>)
      requires Indexable(image)
      ensures fresh(data)
      ensures data.Length == |xcors|
      ensures forall k :: 0 <= k < data.Length ==> data[k] == Partial(image, 3, k)
    {
      data := new Byte[|xcors|](_ => 0xFF);
      for c := 0 to 3
        invariant forall k :: 0 <= k < data.Length ==> data[k] == Partial(image, c, k)
      {
        AndChannel(data, image, c);
      }
    }

    /**
     * `display` without the device write: start from 0xFF and AND in each
     * colour's codebook entry; an image that does not cover the tables raises.
     */
    method Display(image: array3<int>) returns (result: Result<seq<Byte>>)
      requires Valid()
      ensures result.Ok? <==> Fits(image)
      ensures result.Ok? ==> |result.value| == width * height * 8
      ensures result.Ok? ==> forall k :: 0 <= k < |result.value| ==>
                result.value[k] == Lookup(image, Red, k) & Lookup(image, Green, k) & Lookup(image, Blue, k)
      ensures result.Ok? ==> forall k :: 0 <= k < |result.value| ==>
                result.value[k] == PixelBytes(image, xcors[k], ycors[k])[pcors[k]]
      ensures result.Ok? ==> forall y: nat, x: nat, p: nat :: y < height && x < width && p < 8 ==>
                Offset(width, 8, y, Column(width, y, x), p) < |result.value| &&
                result.value[Offset(width, 8, y, Column(width, y, x), p)] == PixelBytes(image, x, y)[p]
    {
      if !Fits(image) {
        return Err(IndexError);
      }
      FitsIndexable(image);
      var data := AndChannels(image);
      FrameByEntry(image, data[..]);
      FrameByPixel(image, data[..]);
      result := Ok(data[..]);
    }
  }

  class MpvDisplay {
    const width: nat
    const height: nat
    const xcors: seq<int>
    const ycors: seq<int>
    const zcors: seq<int>

    ghost predicate Valid()
    {
      IsRasterTable(width, height, xcors, ycors, zcors)
    }

    /** `__init__` without the player process: build the raster tables. */
    constructor(width: nat, height: nat)
      ensures this.width == width && this.height == height
      ensures Valid()
    {
      this.width := width;
      this.height := height;
      var xs, ys, zs := RasterTable(width, height);
      xcors, ycors, zcors := xs, ys, zs;
    }

    /**
     * The tables are non-empty `int` arrays and the image covers them.  Empty
     * tables become `float` index arrays, which numpy refuses to index with.
     */
    predicate Fits(image: array3<int>)
    {
      width * height > 0 && image.Length0 >= width && image.Length1 >= height && image.Length2 >= 3
    }

    /** `display` without the pipe write: gather the pixels in raster order and clip. */
    method Display(image: array3<int>) returns (result: Result<seq<Byte>>)
      requires Valid()
      ensures result.Ok? <==> Fits(image)
      ensures result.Ok? ==> |result.value| == width * height * 3
      ensures result.Ok? ==> forall y: nat, x: nat, z: nat :: y < height && x < width && z < 3 ==>
                Offset(width, 3, y, x, z) < |result.value| &&
                result.value[Offset(width, 3, y, x, z)] as int == Clamp(image[x, y, z])
    {
      if !Fits(image) {
        return Err(IndexError);
      }
      var data := seq(|xcors|, k requires 0 <= k < |xcors| reads image =>
        Level(image[xcors[k], ycors[k], zcors[k]]));
      result := Ok(data);
    }
  }
}
