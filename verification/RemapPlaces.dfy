/** Where remapping puts each byte, nibble and bit. */
module RemapPlaces {
  import opened Bits
  import opened Blocks
  import opened DataRemap

  /** Byte p of word w goes among the bytes at place p of all words, which lie together in the order of
      the words, those of the last place first. */
  lemma PlaceOfByte(data: seq<Byte>, unit: nat, res: nat, w: nat, p: nat)
    requires IsBlock(data, unit, res) && w < unit && p < res
    ensures Base(w, res) + p < |data| && Base(res - 1 - p, unit) + w < |data|
    ensures Type0(data, unit, res)[Base(res - 1 - p, unit) + w] == data[Base(w, res) + p]
  {
    hide Base, BlockNo, OffsetIn;
    Swapped0(unit, res);
    InRange(w, p, unit, res);
    InRange(res - 1 - p, w, res, unit);
    AtPlace(unit, res - 1 - p, w);
  }

  /** The n-th nibble, the low one of a byte before the high one. */
  function NibbleNo(s: seq<Byte>, n: nat): nat
    requires n / 2 < |s|
  {
    Nibble(s[n / 2], n)
  }

  /** The high nibbles of a segment's bytes come first, in order, and then the low ones. */
  lemma PlaceOfNibbles(seg: seq<Byte>, half: nat, i: nat)
    requires |seg| == 2 * half && i < 2 * half
    ensures NibbleNo(NibblesOf(seg), i) == Hi(seg[i]) && NibbleNo(NibblesOf(seg), 2 * half + i) == Lo(seg[i])
  {
    hide NibblesOf, Lo, Hi, Pair;
    var k := i / 2;
    NibblesOfPair(seg, half, k);
    assert (2 * half + i) / 2 == half + k && (2 * half + i) % 2 == i % 2;
    if i % 2 == 0 {
      assert i == 2 * k;
    } else {
      assert i == 2 * k + 1;
    }
  }

  /** The n-th bit, the top bit of a byte first. */
  function BitNo(s: seq<Byte>, n: nat): nat
    requires n / 8 < |s|
  {
    Bit(s[n / 8], 7 - n % 8)
  }

  lemma PlaneAndByte(a: nat, v: nat, i: nat)
    requires a < 8 && i < 8 * v
    ensures Base(a, 8 * v) + i == 8 * (Base(a, v) + i / 8) + i % 8
    ensures Base(a, v) + i / 8 < 8 * v
  {
    BaseIsProduct(a, v);
    BaseIsProduct(a, 8 * v);
    Associates(8, a, v);
    Commutes(a, v);
    ColumnInRange(a, v, i / 8);
  }

  lemma Commutes(a: nat, v: nat)
    ensures a * (8 * v) == 8 * (a * v)
  {
  }

  /** The top bits of all bytes of a segment come first, in order, then the bits below them, and so on. */
  lemma PlaceOfBit(seg: seq<Byte>, v: nat, i: nat, b: nat)
    requires |seg| == 8 * v && i < 8 * v && b < 8
    ensures (Base(7 - b, 8 * v) + i) / 8 < 8 * v
    ensures BitNo(BitsOf(seg, v), Base(7 - b, 8 * v) + i) == Bit(seg[i], b)
  {
    hide Base, BlockNo, OffsetIn, Bit, JoinBits;
    var a, c, k := 7 - b, i / 8, i % 8;
    PlaneAndByte(a, v, i);
    var n := Base(a, 8 * v) + i;
    assert n / 8 == Base(a, v) + c && n % 8 == k;
    RowAndColumn(Base(a, v) + c, v);
    AtPlace(v, a, c);
    BitOfJoined(Chunk(seg, c), 7 - a, 7 - k);
    assert Chunk(seg, c)[k] == seg[i];
  }
}
