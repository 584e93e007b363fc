/**
 * `create_codebook`: the 3 x 256 x 8 table of single-channel encodings that
 * `display` ANDs together, and the theorem that makes the AND correct.
 */
module Codebook {
  import opened Ws2812

  /** Channel numbers, in the order of `format_color`'s arguments `(r, g, b)`. */
  const Red: nat := 0
  const Green: nat := 1
  const Blue: nat := 2

  /** The argument list `m` of the codebook loop: channel `c` set to `v`, the others 0. */
  function Single(c: nat, v: int): (m: seq<int>)
    requires c < 3
    ensures |m| == 3
    ensures m[c] == v
    ensures forall d :: 0 <= d < 3 && d != c ==> m[d] == 0
  {
    [0, 0, 0][c := v]
  }

  /** The codebook entry `codebook[c, v, p]` the loop stores: byte `p` of `format_color(*m)`. */
  function Entry(c: nat, v: int, p: nat): Byte
    requires c < 3 && p < 8
  {
    var m := Single(c, v);
    ColorBytes(m[0], m[1], m[2])[p]
  }

  /** The body of the innermost loop: `m[c] = v` and byte `p` of `format_color(*m)`. */
  method ComputeEntry(c: nat, v: int, p: nat) returns (b: Byte)
    requires c < 3 && p < 8
    ensures b == Entry(c, v, p)
  {
    var m := Single(c, v);
    var bytes := FormatColor(m[0], m[1], m[2]);
    b := bytes[p];
  }

  /** Every entry of `table` is the one `create_codebook` stores there. */
  ghost predicate IsCodebook(table: array3<Byte>)
    reads table
  {
    && table.Length0 == 3 && table.Length1 == 256 && table.Length2 == 8
    && forall c, v, p {:trigger Entry(c, v, p)} :: 0 <= c < 3 && 0 <= v < 256 && 0 <= p < 8 ==> table[c, v, p] == Entry(c, v, p)
  }

  /**
   * The entries the loops of `create_codebook` have stored once they reach
   * channel `c`, slot `p` and value `v`: every earlier `(c', p', v')` in loop order.
   */
  ghost predicate Filled(table: array3<Byte>, c: nat, p: nat, v: nat)
    requires table.Length0 == 3 && table.Length1 == 256 && table.Length2 == 8
    reads table
  {
    forall c', v', p' ::
      (0 <= c' < 3 && 0 <= v' < 256 && 0 <= p' < 8
       && (c' < c || (c' == c && (p' < p || (p' == p && v' < v)))))
      ==> table[c', v', p'] == Entry(c', v', p')
  }

  /** The innermost loop of `create_codebook`: every value `v` for channel `c` and slot `p`. */
  method FillSlot(table: array3<Byte>, c: nat, p: nat)
    requires table.Length0 == 3 && table.Length1 == 256 && table.Length2 == 8
    requires c < 3 && p < 8
    requires Filled(table, c, p, 0)
    modifies table
    ensures Filled(table, c, p + 1, 0)
    ensures forall c', v', p' :: 0 <= c' < 3 && 0 <= v' < 256 && 0 <= p' < 8 && (c' != c || p' != p) ==>
              table[c', v', p'] == old(table[c', v', p'])
  {
    for v := 0 to 256
      invariant Filled(table, c, p, v)
      invariant forall c', v', p' :: 0 <= c' < 3 && 0 <= v' < 256 && 0 <= p' < 8 && (c' != c || p' != p) ==>
                  table[c', v', p'] == old(table[c', v', p'])
    {
      var e := ComputeEntry(c, v, p);
      table[c, v, p] := e;
    }
  }

  /** `create_codebook`: fill a zeroed table, channel by channel, slot by slot, value by value. */
  method CreateCodebook() returns (table: array3<Byte>)
    ensures fresh(table)
    ensures IsCodebook(table)
  {
    table := new Byte[3, 256, 8]((_, _, _) => 0);
    for c := 0 to 3
      invariant Filled(table, c, 0, 0)
    {
      for p := 0 to 8
        invariant Filled(table, c, p, 0)
      {
        FillSlot(table, c, p);
      }
    }
  }

  /**
   * The theorem `display` relies on: ANDing the red, green and blue entries
   * of one slot gives that slot of `format_color(r, g, b)`.
   */
  lemma CombineEntries(r: int, g: int, b: int, p: nat)
    requires p < 8
    ensures Entry(Red, r, p) & Entry(Green, g, p) & Entry(Blue, b, p) == ColorBytes(r, g, b)[p]
  {
    assert Single(Red, r) == [r, 0, 0];
    assert Single(Green, g) == [0, g, 0];
    assert Single(Blue, b) == [0, 0, b];
    CombineChannels(r, g, b, p);
  }

  /** Entries depend on the channel value only through its low 8 bits. */
  lemma EntryMasked(c: nat, v: int, v': int, p: nat)
    requires c < 3 && p < 8
    requires v % 256 == v' % 256
    ensures Entry(c, v, p) == Entry(c, v', p)
  {
    var m, m' := Single(c, v), Single(c, v');
    ColorBytesInjective(m[0], m[1], m[2], m'[0], m'[1], m'[2]);
  }
}
