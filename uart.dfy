/**
 * Why the bytes of `format_byte` drive a WS2812B.  The device is set to
 * 3010000 baud with 7 data bits, no parity and one stop bit, so every byte
 * occupies 9 bit cells of about 332 ns: a start cell, data bits 0..6 and a
 * stop cell.  The rate only fixes the cell length and is not modelled.  On
 * a line whose polarity is inverted, those 9 cells read as three WS2812B
 * symbols: a high cell, the data cell, a low cell.
 */
module Uart {
  import opened Ws2812

  /** The frame format `SerialDisplay.__init__` gives the device (no parity). */
  const DataBits: nat := 7
  const StopBits: nat := 1

  /** The cells of one UART frame, first to last (true = mark): start, data LSB first, stop. */
  function Frame(x: Byte): (cells: seq<bool>)
    ensures |cells| == 1 + DataBits + StopBits
    ensures !cells[0] && cells[DataBits + 1]
    ensures forall k :: 0 <= k < DataBits ==> cells[k + 1] == ByteBit(x, k)
  {
    [false] + seq(DataBits, k requires 0 <= k < DataBits => ByteBit(x, k)) + [true]
  }

  function Invert(cells: seq<bool>): (out: seq<bool>)
    ensures |out| == |cells|
    ensures forall i :: 0 <= i < |cells| ==> out[i] == !cells[i]
  {
    seq(|cells|, i requires 0 <= i < |cells| => !cells[i])
  }

  /** A WS2812B symbol in thirds of its period: high, then the data bit, then low. */
  function Symbol(d: bool): seq<bool>
  {
    [true, d, false]
  }

  /** The symbols for a sequence of data bits, in order. */
  function Symbols(bits: seq<bool>): (cells: seq<bool>)
    ensures |cells| == 3 * |bits|
  {
    if |bits| == 0 then [] else Symbol(bits[0]) + Symbols(bits[1..])
  }

  /** The inverted line while the bytes of `s` are sent back to back. */
  function Line(s: seq<Byte>): (cells: seq<bool>)
    ensures |cells| == 9 * |s|
  {
    if |s| == 0 then [] else Invert(Frame(s[0])) + Line(s[1..])
  }

  /** A byte of the shape `format_byte` produces: bits 1 and 4 set, bits 2, 5 and 7 clear. */
  predicate Shaped(x: Byte)
  {
    x & 0x12 == 0x12 && x & 0xA4 == 0
  }

  /** One shaped byte is three symbols carrying the bits its data cells hold. */
  lemma ShapedSymbols(x: Byte)
    requires Shaped(x)
    ensures Invert(Frame(x)) == Symbol(Carried(x, 0)) + Symbol(Carried(x, 1)) + Symbol(Carried(x, 2))
  {
    var f := Invert(Frame(x));
    var g := Symbol(Carried(x, 0)) + Symbol(Carried(x, 1)) + Symbol(Carried(x, 2));
    assert ByteBit(x, 1) && ByteBit(x, 4) && !ByteBit(x, 2) && !ByteBit(x, 5);
    assert ByteBit(x, 0) == !Carried(x, 0) && ByteBit(x, 3) == !Carried(x, 1) && ByteBit(x, 6) == !Carried(x, 2);
    assert forall i :: 0 <= i < 9 ==> f[i] == g[i];
  }

  /** `format_byte(b0, b1, b2)` goes out as the symbols of `b0`, `b1`, `b2` (non-zero = 1). */
  lemma FormatByteSymbols(b0: Word, b1: Word, b2: Word)
    ensures Invert(Frame(FormatByte(b0, b1, b2))) == Symbol(b0 != 0) + Symbol(b1 != 0) + Symbol(b2 != 0)
  {
    var x := FormatByte(b0, b1, b2);
    ShapedSymbols(x);
    CarriedFormatByte(b0, b1, b2, 0);
    CarriedFormatByte(b0, b1, b2, 1);
    CarriedFormatByte(b0, b1, b2, 2);
  }

  lemma {:induction false} LineShaped(s: seq<Byte>)
    requires forall i :: 0 <= i < |s| ==> Shaped(s[i])
    ensures Line(s) == Symbols(Received(s))
  {
    if |s| > 0 {
      LineShaped(s[1..]);
      ShapedSymbols(s[0]);
      var head := [Carried(s[0], 0), Carried(s[0], 1), Carried(s[0], 2)];
      ReceivedCons(s);
      SymbolsAppend(head, Received(s[1..]));
      SymbolsThree(Carried(s[0], 0), Carried(s[0], 1), Carried(s[0], 2));
    }
  }

  lemma SymbolsThree(a: bool, b: bool, c: bool)
    ensures Symbols([a, b, c]) == Symbol(a) + Symbol(b) + Symbol(c)
  {
    assert [c][1..] == [];
    assert Symbols([c]) == Symbol(c);
    assert [b, c][1..] == [c];
    assert Symbols([b, c]) == Symbol(b) + Symbol(c);
    assert [a, b, c][1..] == [b, c];
  }

  /** The first byte delivers the first three data bits, the rest the others. */
  lemma ReceivedCons(s: seq<Byte>)
    requires |s| > 0
    ensures Received(s) == [Carried(s[0], 0), Carried(s[0], 1), Carried(s[0], 2)] + Received(s[1..])
  {
    var head := [Carried(s[0], 0), Carried(s[0], 1), Carried(s[0], 2)];
    forall j | 3 <= j < 3 * |s|
      ensures Received(s)[j] == Received(s[1..])[j - 3]
    {
      assert j / 3 == (j - 3) / 3 + 1 && j % 3 == (j - 3) % 3;
    }
    assert Received(s) == head + Received(s[1..]);
  }

  lemma {:induction false} SymbolsAppend(a: seq<bool>, b: seq<bool>)
    ensures Symbols(a + b) == Symbols(a) + Symbols(b)
  {
    if |a| > 0 {
      assert (a + b)[1..] == a[1..] + b;
      SymbolsAppend(a[1..], b);
    } else {
      assert a + b == b;
    }
  }

  /**
   * Sending `format_color(r, g, b)` puts on the inverted line exactly the
   * 24 symbols of the pixel's wire bits: green, red, blue, MSB first.
   */
  lemma ColorLine(r: int, g: int, b: int)
    ensures Line(ColorBytes(r, g, b)) == Symbols(WireBits(r, g, b))
  {
    var s := ColorBytes(r, g, b);
    forall i | 0 <= i < |s|
      ensures Shaped(s[i])
    {
      EncodeShaped(Pack(r, g, b), i);
    }
    LineShaped(s);
    ReceivedColor(r, g, b);
  }

  lemma EncodeShaped(w: Word, i: nat)
    requires i < 8
    ensures Shaped(Encode(w)[i])
  {
    var k := Index(i);
    var trip := (w >> (24 - 3 * (k + 1))) & 7;
    var x := FormatByte(trip & 4, trip & 2, trip & 1);
    assert Encode(w)[i] == x;
  }
}
