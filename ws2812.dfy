/**
 * The WS2812B-over-UART colour encoding of `SerialDisplay`: one pixel becomes
 * eight UART bytes, each carrying three of the 24 bits the LED expects
 * (green, red, blue, most significant bit first).
 */
module Ws2812 {

  /** A UART byte, as stored in the `uint8` codebook and frame buffer. */
  type Byte = bv8

  /** The packed colour word `G << 16 | R << 8 | B`. */
  type Word = bv24

  /** Python's `not n` on an integer, used as a 0/1 bit. */
  function Not(n: Word): Byte
  {
    if n == 0 then 1 else 0
  }

  /**
   * `format_byte(b0, b1, b2)`: bits 1 and 4 are the framing highs, bits 0, 3
   * and 6 are the inverted data bits, bits 2, 5 and 7 stay clear.
   */
  function FormatByte(b0: Word, b1: Word, b2: Word): (r: Byte)
    ensures r & 0x12 == 0x12
    ensures r & 0xA4 == 0
    ensures (r & 0x01 != 0) <==> b0 == 0
    ensures (r & 0x08 != 0) <==> b1 == 0
    ensures (r & 0x40 != 0) <==> b2 == 0
    ensures 0x12 <= r <= 0x5B
  {
    Not(b0) | (1 << 1) | (Not(b1) << 3) | (1 << 4) | (Not(b2) << 6)
  }

  /** Python's `x & 0xFF` on an arbitrary integer (negative ones included). */
  function Mask(x: int): Byte
  {
    (x % 256) as Byte
  }

  /** The packed colour word of `format_color(r, g, b)`. */
  function Pack(r: int, g: int, b: int): Word
  {
    ((Mask(g) as Word) << 16) | ((Mask(r) as Word) << 8) | (Mask(b) as Word)
  }

  /** A group or bit index as a 5-bit shift amount. */
  function Index(i: nat): (k: bv5)
    requires i < 32
    ensures k as int == i
  {
    i as bv5
  }

  /**
   * The byte `format_color` emits for group `k` of the packed word: the
   * three bits `trip` at shift `24 - 3 * (k + 1)`, high bit first.
   */
  function GroupByte(color: Word, k: bv5): Byte
    requires k < 8
  {
    FormatTrip((color >> (24 - 3 * (k + 1))) & 7)
  }

  /** `format_byte(trip & 4, trip & 2, trip & 1)`: the high bit of the group is `b0`. */
  function FormatTrip(trip: Word): Byte
  {
    FormatByte(trip & 4, trip & 2, trip & 1)
  }

  /** The byte `format_color` emits at position `i`. */
  function Slot(color: Word, i: nat): Byte
    requires i < 8
  {
    GroupByte(color, Index(i))
  }

  /** The eight bytes `format_color` emits for a packed word, one per group. */
  function Encode(color: Word): (s: seq<Byte>)
    ensures |s| == 8
  {
    seq(8, i requires 0 <= i < 8 => Slot(color, i))
  }

  /** The eight bytes of `format_color(r, g, b)`, as a value. */
  function ColorBytes(r: int, g: int, b: int): seq<Byte>
  {
    Encode(Pack(r, g, b))
  }

  /** `format_color`: the loop that appends one formatted byte per 3-bit group. */
  method FormatColor(r: int, g: int, b: int) returns (result: seq<Byte>)
    ensures |result| == 8
    ensures result == ColorBytes(r, g, b)
  {
    var color := Pack(r, g, b);
    result := [];
    for i := 0 to 8
      invariant result == Encode(color)[..i]
    {
      result := result + [Slot(color, i)];
    }
  }

  // ---------------------------------------------------------------------
  // What the LED receives

  /** Bit `k` (0 = least significant) of a word. */
  function WordBit(w: Word, k: nat): bool
    requires k < 24
  {
    (w >> Index(k)) & 1 == 1
  }

  /** Bit `k` (0 = least significant) of a byte. */
  function ByteBit(v: Byte, k: nat): bool
    requires k < 8
  {
    (v >> Index(k)) & 1 == 1
  }

  /**
   * The data bit that the `t`-th data cell (bit 0, 3 or 6) of `x` carries:
   * a clear cell sends a long pulse, that is a 1.
   */
  function Carried(x: Byte, t: nat): bool
    requires t < 3
  {
    if t == 0 then x & 0x01 == 0 else if t == 1 then x & 0x08 == 0 else x & 0x40 == 0
  }

  /**
   * Bit `j` of the 24 the WS2812B expects for a pixel: green, then red,
   * then blue, each from its most significant bit down.  Defined from the
   * channels alone, independently of the packing.
   */
  function WireBit(r: int, g: int, b: int, j: nat): bool
    requires j < 24
  {
    if j < 8 then ByteBit(Mask(g), 7 - j)
    else if j < 16 then ByteBit(Mask(r), 15 - j)
    else ByteBit(Mask(b), 23 - j)
  }

  /** The 24 bits the WS2812B expects for a pixel, in transmission order. */
  function WireBits(r: int, g: int, b: int): (s: seq<bool>)
    ensures |s| == 24
  {
    seq(24, j requires 0 <= j < 24 => WireBit(r, g, b, j))
  }

  /** The data bits a sequence of UART bytes delivers, three per byte. */
  function Received(s: seq<Byte>): (bits: seq<bool>)
    ensures |bits| == 3 * |s|
  {
    seq(3 * |s|, j requires 0 <= j < 3 * |s| => Carried(s[j / 3], j % 3))
  }

  lemma CarriedFormatByte(b0: Word, b1: Word, b2: Word, t: nat)
    requires t < 3
    ensures Carried(FormatByte(b0, b1, b2), t) == ([b0, b1, b2][t] != 0)
  {
  }

  lemma GroupBit(w: Word, k: bv5)
    requires k < 8
    ensures Carried(GroupByte(w, k), 0) == ((w >> (23 - 3 * k)) & 1 == 1)
    ensures Carried(GroupByte(w, k), 1) == ((w >> (22 - 3 * k)) & 1 == 1)
    ensures Carried(GroupByte(w, k), 2) == ((w >> (21 - 3 * k)) & 1 == 1)
  {
  }

  lemma IndexArith(i: nat, t: nat)
    requires i < 8 && t < 3
    ensures Index(23 - (3 * i + t)) == 23 - 3 * Index(i) - Index(t)
  {
    var k := 23 - 3 * Index(i) - Index(t);
    assert k as int == 23 - (3 * i + t);
  }

  /** The `t`-th data cell of the byte for group `i` carries bit `23 - 3i - t`. */
  lemma SlotBit(w: Word, i: nat, t: nat)
    requires i < 8 && t < 3
    ensures Carried(Slot(w, i), t) == WordBit(w, 23 - (3 * i + t))
  {
    GroupBit(w, Index(i));
    IndexArith(i, t);
  }

  /** The word `hi << 16 | mid << 8 | lo` that `Pack` builds from masked channels. */
  function Join(hi: Byte, mid: Byte, lo: Byte): Word
  {
    ((hi as Word) << 16) | ((mid as Word) << 8) | (lo as Word)
  }

  lemma JoinHighBit(hi: Byte, mid: Byte, lo: Byte, k: bv5)
    requires k < 8
    ensures (Join(hi, mid, lo) >> (16 + k)) & 1 == ((hi >> k) & 1) as Word
  {
  }

  lemma JoinMiddleBit(hi: Byte, mid: Byte, lo: Byte, k: bv5)
    requires k < 8
    ensures (Join(hi, mid, lo) >> (8 + k)) & 1 == ((mid >> k) & 1) as Word
  {
  }

  lemma JoinLowBit(hi: Byte, mid: Byte, lo: Byte, k: bv5)
    requires k < 8
    ensures (Join(hi, mid, lo) >> k) & 1 == ((lo >> k) & 1) as Word
  {
  }

  lemma JoinHigh(hi: Byte, mid: Byte, lo: Byte, k: nat)
    requires k < 8
    ensures WordBit(Join(hi, mid, lo), 16 + k) == ByteBit(hi, k)
  {
    var i := 16 + Index(k);
    assert i as int == 16 + k;
    JoinHighBit(hi, mid, lo, Index(k));
  }

  lemma JoinMiddle(hi: Byte, mid: Byte, lo: Byte, k: nat)
    requires k < 8
    ensures WordBit(Join(hi, mid, lo), 8 + k) == ByteBit(mid, k)
  {
    var i := 8 + Index(k);
    assert i as int == 8 + k;
    JoinMiddleBit(hi, mid, lo, Index(k));
  }

  lemma JoinLow(hi: Byte, mid: Byte, lo: Byte, k: nat)
    requires k < 8
    ensures WordBit(Join(hi, mid, lo), k) == ByteBit(lo, k)
  {
    JoinLowBit(hi, mid, lo, Index(k));
  }

  /** Packing puts wire bit `j` at bit `23 - j` of the word. */
  lemma PackBit(r: int, g: int, b: int, j: nat)
    requires j < 24
    ensures WordBit(Pack(r, g, b), 23 - j) == WireBit(r, g, b, j)
  {
    assert Pack(r, g, b) == Join(Mask(g), Mask(r), Mask(b));
    if j < 8 {
      JoinHigh(Mask(g), Mask(r), Mask(b), 7 - j);
    } else if j < 16 {
      JoinMiddle(Mask(g), Mask(r), Mask(b), 15 - j);
    } else {
      JoinLow(Mask(g), Mask(r), Mask(b), 23 - j);
    }
  }

  /**
   * The `t`-th data cell of byte `i` of `format_color(r, g, b)` carries wire
   * bit `3i + t`: the bytes spell out G, R, B most significant bit first.
   */
  lemma WireOrder(r: int, g: int, b: int, i: nat, t: nat)
    requires i < 8 && t < 3
    ensures Carried(ColorBytes(r, g, b)[i], t) == WireBit(r, g, b, 3 * i + t)
  {
    SlotBit(Pack(r, g, b), i, t);
    PackBit(r, g, b, 3 * i + t);
  }

  /** Decoding the eight bytes gives back exactly the 24 wire bits. */
  lemma ReceivedColor(r: int, g: int, b: int)
    ensures Received(ColorBytes(r, g, b)) == WireBits(r, g, b)
  {
    var s := ColorBytes(r, g, b);
    forall j | 0 <= j < 24
      ensures Received(s)[j] == WireBits(r, g, b)[j]
    {
      WireOrder(r, g, b, j / 3, j % 3);
    }
  }

  lemma ByteFromBits(u: Byte, v: Byte)
    requires forall k :: 0 <= k < 8 ==> ByteBit(u, k) == ByteBit(v, k)
    ensures u == v
  {
    assert ByteBit(u, 0) == ByteBit(v, 0) && ByteBit(u, 1) == ByteBit(v, 1);
    assert ByteBit(u, 2) == ByteBit(v, 2) && ByteBit(u, 3) == ByteBit(v, 3);
    assert ByteBit(u, 4) == ByteBit(v, 4) && ByteBit(u, 5) == ByteBit(v, 5);
    assert ByteBit(u, 6) == ByteBit(v, 6) && ByteBit(u, 7) == ByteBit(v, 7);
  }

  /** A value in the byte range survives the conversion to `Byte` and back. */
  lemma ByteRoundTrip(n: int)
    requires 0 <= n < 256
    ensures (n as Byte) as int == n
  {
    var wide: bv16 := n as bv16;
    assert wide < 256;
  }

  lemma MaskValue(x: int)
    ensures Mask(x) as int == x % 256
  {
    ByteRoundTrip(x % 256);
  }

  lemma MaskEq(x: int, y: int)
    ensures Mask(x) == Mask(y) <==> x % 256 == y % 256
  {
    MaskValue(x);
    MaskValue(y);
  }

  /**
   * `format_color` depends on the low 8 bits of each channel and on nothing
   * else: two calls agree exactly when their masked arguments agree.
   */
  lemma ColorBytesInjective(r: int, g: int, b: int, r': int, g': int, b': int)
    ensures ColorBytes(r, g, b) == ColorBytes(r', g', b')
        <==> r % 256 == r' % 256 && g % 256 == g' % 256 && b % 256 == b' % 256
  {
    MaskEq(r, r');
    MaskEq(g, g');
    MaskEq(b, b');
    if ColorBytes(r, g, b) == ColorBytes(r', g', b') {
      ReceivedColor(r, g, b);
      ReceivedColor(r', g', b');
      assert WireBits(r, g, b) == WireBits(r', g', b');
      forall k | 0 <= k < 8
        ensures ByteBit(Mask(g), k) == ByteBit(Mask(g'), k)
        ensures ByteBit(Mask(r), k) == ByteBit(Mask(r'), k)
        ensures ByteBit(Mask(b), k) == ByteBit(Mask(b'), k)
      {
        assert WireBits(r, g, b)[7 - k] == WireBits(r', g', b')[7 - k];
        assert WireBits(r, g, b)[15 - k] == WireBits(r', g', b')[15 - k];
        assert WireBits(r, g, b)[23 - k] == WireBits(r', g', b')[23 - k];
      }
      ByteFromBits(Mask(g), Mask(g'));
      ByteFromBits(Mask(r), Mask(r'));
      ByteFromBits(Mask(b), Mask(b'));
    }
  }

  /** Python's `not` on 0/1 bits turns an OR of its arguments into an AND of its results. */
  lemma NotOr(a: Word, b: Word)
    ensures Not(a) & Not(b) == Not(a | b)
  {
  }

  /** ANDing two formatted groups formats the ORed group. */
  lemma TripAnd(t1: Word, t2: Word)
    ensures FormatTrip(t1) & FormatTrip(t2) == FormatTrip(t1 | t2)
  {
    NotOr(t1 & 4, t2 & 4);
    NotOr(t1 & 2, t2 & 2);
    NotOr(t1 & 1, t2 & 1);
    assert (t1 | t2) & 4 == (t1 & 4) | (t2 & 4);
    assert (t1 | t2) & 2 == (t1 & 2) | (t2 & 2);
    assert (t1 | t2) & 1 == (t1 & 1) | (t2 & 1);
  }

  lemma ShiftOr(w1: Word, w2: Word, s: bv5)
    requires s <= 24
    ensures ((w1 | w2) >> s) & 7 == ((w1 >> s) & 7) | ((w2 >> s) & 7)
  {
  }

  lemma GroupAnd(w1: Word, w2: Word, k: bv5)
    requires k < 8
    ensures GroupByte(w1, k) & GroupByte(w2, k) == GroupByte(w1 | w2, k)
  {
    var s := 24 - 3 * (k + 1);
    ShiftOr(w1, w2, s);
    TripAnd((w1 >> s) & 7, (w2 >> s) & 7);
  }

  /** The three channels occupy disjoint bits of the packed word. */
  lemma PackChannels(r: int, g: int, b: int)
    ensures Pack(r, 0, 0) | Pack(0, g, 0) | Pack(0, 0, b) == Pack(r, g, b)
  {
    MaskValue(0);
  }

  /**
   * Encoding each channel alone (the other two at 0) and ANDing the three
   * results byte by byte gives the encoding of the whole pixel.
   */
  lemma CombineChannels(r: int, g: int, b: int, p: nat)
    requires p < 8
    ensures ColorBytes(r, 0, 0)[p] & ColorBytes(0, g, 0)[p] & ColorBytes(0, 0, b)[p] == ColorBytes(r, g, b)[p]
  {
    var k := Index(p);
    GroupAnd(Pack(r, 0, 0), Pack(0, g, 0), k);
    GroupAnd(Pack(r, 0, 0) | Pack(0, g, 0), Pack(0, 0, b), k);
    PackChannels(r, g, b);
  }
}
