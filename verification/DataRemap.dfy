/** Remapping of a block of data: bytes of the same place in a word are brought together, and then
    nibbles or bits of the same place in a byte. */
module DataRemap {
  import opened Bits
  import opened Blocks

  // ----- type 0: bytes

  /** Where byte i of the result comes from: the bytes at one place of the words lie together, the
      last place first.  res is the word length, unit the number of words. */
  function Source0(i: nat, unit: nat, res: nat): int
    requires unit > 0
  {
    Base(OffsetIn(i, unit), res) + (res - 1 - BlockNo(i, unit))
  }

  function Target0(i: nat, unit: nat, res: nat): int
    requires res > 0 && unit > 0
  {
    Base(res - 1 - OffsetIn(i, res), unit) + BlockNo(i, res)
  }

  lemma BlockInRange(i: nat, n: nat, size: nat)
    requires size > 0 && i < Base(n, size)
    ensures BlockNo(i, size) < n
  {
    hide Base, BlockNo;
    if n < BlockNo(i, size) {
      BlocksAreApart(size, n, BlockNo(i, size));
    }
  }

  lemma InRange(p: nat, o: nat, n: nat, size: nat)
    requires p < n && o < size
    ensures Base(p, size) + o < Base(n, size)
  {
    hide Base;
    BlocksAreApart(size, p, n);
  }

  lemma Swapped0(unit: nat, res: nat)
    ensures Base(unit, res) == Base(res, unit)
  {
    BaseIsProduct(unit, res);
    BaseIsProduct(res, unit);
  }

  /** The two directions are inverse to each other on positions. */
  lemma SourceOfTarget(i: nat, unit: nat, res: nat)
    requires res > 0 && unit > 0 && i < Base(res, unit)
    ensures 0 <= Target0(i, unit, res) < Base(res, unit) && Source0(Target0(i, unit, res), unit, res) == i
  {
    hide Base, BlockNo, OffsetIn;
    Swapped0(unit, res);
    BlockInRange(i, unit, res);
    var q, r := BlockNo(i, res), OffsetIn(i, res);
    InRange(res - 1 - r, q, res, unit);
    AtPlace(unit, res - 1 - r, q);
  }

  lemma TargetOfSource(i: nat, unit: nat, res: nat)
    requires res > 0 && unit > 0 && i < Base(res, unit)
    ensures 0 <= Source0(i, unit, res) < Base(res, unit) && Target0(Source0(i, unit, res), unit, res) == i
  {
    hide Base, BlockNo, OffsetIn;
    Swapped0(unit, res);
    BlockInRange(i, res, unit);
    var b, q := BlockNo(i, unit), OffsetIn(i, unit);
    InRange(q, res - 1 - b, unit, res);
    AtPlace(res, q, res - 1 - b);
  }

  ghost predicate IsBlock(data: seq<Byte>, unit: nat, res: nat)
  {
    res > 0 && |data| == Base(res, unit)
  }

  lemma HasUnit(i: nat, unit: nat, res: nat)
    requires i < Base(res, unit)
    ensures unit > 0
  {
  }

  ghost function Type0(data: seq<Byte>, unit: nat, res: nat): (out: seq<Byte>)
    requires IsBlock(data, unit, res)
    ensures IsBlock(out, unit, res)
  {
    seq(|data|, i requires 0 <= i < |data| =>
      (HasUnit(i, unit, res); TargetOfSource(i, unit, res); data[Source0(i, unit, res)]))
  }

  ghost function Untype0(out: seq<Byte>, unit: nat, res: nat): (data: seq<Byte>)
    requires IsBlock(out, unit, res)
    ensures IsBlock(data, unit, res)
  {
    seq(|out|, i requires 0 <= i < |out| =>
      (HasUnit(i, unit, res); SourceOfTarget(i, unit, res); out[Target0(i, unit, res)]))
  }

  /** Nothing is lost and every block is the image of one: both round trips. */
  lemma Type0RoundTrip(data: seq<Byte>, unit: nat, res: nat)
    requires IsBlock(data, unit, res)
    ensures Untype0(Type0(data, unit, res), unit, res) == data && Type0(Untype0(data, unit, res), unit, res) == data
  {
    hide Source0, Target0;
    forall i: nat | i < |data|
      ensures Untype0(Type0(data, unit, res), unit, res)[i] == data[i]
              && Type0(Untype0(data, unit, res), unit, res)[i] == data[i]
    {
      HasUnit(i, unit, res);
      SourceOfTarget(i, unit, res);
      TargetOfSource(i, unit, res);
    }
  }

  // ----- type 1 on nibbles

  function Lo(b: Byte): (x: nat)
    ensures x < 16
  {
    b % 16
  }

  function Hi(b: Byte): (x: nat)
    ensures x < 16 && b == 16 * x + Lo(b)
  {
    b / 16
  }

  function Pair(lo: nat, hi: nat): (b: Byte)
    requires lo < 16 && hi < 16
    ensures Lo(b) == lo && Hi(b) == hi
  {
    PartsOf(hi * 16 + lo, hi, lo, 16);
    hi * 16 + lo
  }

  lemma NibblesDetermine(a: Byte, b: Byte)
    requires Lo(a) == Lo(b) && Hi(a) == Hi(b)
    ensures a == b
  {
  }

  /** Going round a segment once. */
  function Within(j: nat, unit: nat): (k: nat)
    requires j < 2 * unit
    ensures k < unit
  {
    if j < unit then j else j - unit
  }

  function NibblesAt(seg: seq<Byte>, o: nat): Byte
    requires o < |seg|
  {
    var unit := |seg|;
    var first, second := seg[Within(2 * o, unit)], seg[Within(2 * o + 1, unit)];
    if 2 * o < unit then Pair(Hi(first), Hi(second)) else Pair(Lo(first), Lo(second))
  }

  /** One segment: the high nibbles of its bytes first, two to a byte, then the low ones. */
  ghost function NibblesOf(seg: seq<Byte>): (out: seq<Byte>)
    ensures |out| == |seg|
  {
    seq(|seg|, o requires 0 <= o < |seg| => NibblesAt(seg, o))
  }

  function Nibble(b: Byte, p: nat): (x: nat)
    ensures x < 16
  {
    if p % 2 == 0 then Lo(b) else Hi(b)
  }

  ghost function BytesOfNibbles(out: seq<Byte>, half: nat): (seg: seq<Byte>)
    requires |out| == 2 * half
    ensures |seg| == |out|
  {
    seq(2 * half, p requires 0 <= p < 2 * half => Pair(Nibble(out[half + p / 2], p), Nibble(out[p / 2], p)))
  }

  lemma BytesOfPair(out: seq<Byte>, half: nat, k: nat)
    requires |out| == 2 * half && k < half
    ensures BytesOfNibbles(out, half)[2 * k] == Pair(Lo(out[half + k]), Lo(out[k]))
    ensures BytesOfNibbles(out, half)[2 * k + 1] == Pair(Hi(out[half + k]), Hi(out[k]))
  {
    hide Lo, Hi, Pair;
    assert 2 * k / 2 == k && (2 * k + 1) / 2 == k;
  }

  lemma NibblesOfPair(seg: seq<Byte>, half: nat, k: nat)
    requires |seg| == 2 * half && k < half
    ensures NibblesOf(seg)[k] == Pair(Hi(seg[2 * k]), Hi(seg[2 * k + 1]))
    ensures NibblesOf(seg)[half + k] == Pair(Lo(seg[2 * k]), Lo(seg[2 * k + 1]))
  {
    hide Lo, Hi, Pair;
    assert half + k - half == k;
  }

  lemma PairOfBytes(seg: seq<Byte>, half: nat, k: nat)
    requires |seg| == 2 * half && k < half
    ensures var back := BytesOfNibbles(NibblesOf(seg), half);
            back[2 * k] == seg[2 * k] && back[2 * k + 1] == seg[2 * k + 1]
    ensures var there := NibblesOf(BytesOfNibbles(seg, half)); there[k] == seg[k] && there[half + k] == seg[half + k]
  {
    hide Lo, Hi, Pair, BytesOfNibbles, NibblesOf;
    BytesOfPair(NibblesOf(seg), half, k);
    BytesOfPair(seg, half, k);
    NibblesOfPair(seg, half, k);
    NibblesOfPair(BytesOfNibbles(seg, half), half, k);
    var back, there := BytesOfNibbles(NibblesOf(seg), half), NibblesOf(BytesOfNibbles(seg, half));
    NibblesDetermine(back[2 * k], seg[2 * k]);
    NibblesDetermine(back[2 * k + 1], seg[2 * k + 1]);
    NibblesDetermine(there[k], seg[k]);
    NibblesDetermine(there[half + k], seg[half + k]);
  }

  lemma NibblesRoundTrip(seg: seq<Byte>, half: nat)
    requires |seg| == 2 * half
    ensures BytesOfNibbles(NibblesOf(seg), half) == seg && NibblesOf(BytesOfNibbles(seg, half)) == seg
  {
    hide NibblesOf, BytesOfNibbles;
    forall p: nat | p < 2 * half
      ensures BytesOfNibbles(NibblesOf(seg), half)[p] == seg[p] && NibblesOf(BytesOfNibbles(seg, half))[p] == seg[p]
    {
      PairOfBytes(seg, half, p / 2);
      PairOfBytes(seg, half, if p < half then p else p - half);
    }
  }

  /** A segment of odd length loses the low nibble of its first byte: nothing reads it. */
  lemma OddSegmentLosesANibble(seg: seq<Byte>, b: Byte)
    requires |seg| % 2 == 1 && Hi(b) == Hi(seg[0])
    ensures NibblesOf(seg[0 := b]) == NibblesOf(seg)
  {
    hide Lo, Hi, Pair;
    var unit := |seg|;
    forall o | 0 <= o < unit
      ensures NibblesOf(seg[0 := b])[o] == NibblesOf(seg)[o]
    {
      assert 2 * o >= unit ==> 0 < 2 * o - unit && 2 * o + 1 - unit > 0;
    }
  }

  // ----- type 1 on bits

  /** One bit of each byte, the first byte's bit on top. */
  function JoinBits(s: seq<Byte>, pos: nat): (x: nat)
    ensures x < Pow2(|s|)
  {
    if s == [] then 0 else 2 * JoinBits(s[..|s| - 1], pos) + Bit(s[|s| - 1], pos)
  }

  lemma {:induction false} BitOfJoined(s: seq<Byte>, pos: nat, j: nat)
    requires j < |s|
    ensures Bit(JoinBits(s, pos), j) == Bit(s[|s| - 1 - j], pos)
  {
    if j > 0 {
      BitOfJoined(s[..|s| - 1], pos, j - 1);
    }
  }

  /** The 8 x 8 bits of eight bytes, transposed. */
  function Transposed(s: seq<Byte>): (t: seq<Byte>)
    requires |s| == 8
    ensures |t| == 8
  {
    Pow2Of32();
    seq(8, a requires 0 <= a < 8 => JoinBits(s, 7 - a))
  }

  lemma TransposedTwice(s: seq<Byte>)
    requires |s| == 8
    ensures Transposed(Transposed(s)) == s
  {
    hide JoinBits, Bit;
    Pow2Of32();
    var t := Transposed(s);
    forall k: nat | k < 8
      ensures Transposed(t)[k] == s[k]
    {
      forall p: nat | p < 8
        ensures Bit(Transposed(t)[k], p) == Bit(s[k], p)
      {
        BitOfJoined(t, 7 - k, p);
        BitOfJoined(s, p, 7 - k);
      }
      BitsDetermine(Transposed(t)[k], s[k], 8);
    }
  }

  function Chunk(seg: seq<Byte>, c: nat): (s: seq<Byte>)
    requires 8 * c + 8 <= |seg|
    ensures |s| == 8
  {
    seg[8 * c..8 * c + 8]
  }

  ghost function Column(out: seq<Byte>, v: nat, c: nat): (s: seq<Byte>)
    requires |out| == 8 * v && c < v
    ensures |s| == 8
  {
    seq(8, a requires 0 <= a < 8 => (ColumnInRange(a, v, c); out[Base(a, v) + c]))
  }

  lemma ColumnInRange(a: nat, v: nat, c: nat)
    requires a < 8 && c < v
    ensures Base(a, v) + c < 8 * v
  {
    InRange(a, c, 8, v);
    BaseIsProduct(8, v);
  }

  lemma RowAndColumn(o: nat, v: nat)
    requires o < 8 * v
    ensures BlockNo(o, v) < 8 && OffsetIn(o, v) < v
  {
    BaseIsProduct(8, v);
    BlockInRange(o, 8, v);
  }

  /** One segment of 8 * v bytes: bit 7 of all its bytes first, then bit 6, and so on. */
  ghost function BitsOf(seg: seq<Byte>, v: nat): (out: seq<Byte>)
    requires |seg| == 8 * v
    ensures |out| == |seg|
  {
    seq(8 * v, o requires 0 <= o < 8 * v => (RowAndColumn(o, v); Transposed(Chunk(seg, OffsetIn(o, v)))[BlockNo(o, v)]))
  }

  ghost function BytesOfBits(out: seq<Byte>, v: nat): (seg: seq<Byte>)
    requires |out| == 8 * v
    ensures |seg| == |out|
  {
    seq(8 * v, i requires 0 <= i < 8 * v => Transposed(Column(out, v, i / 8))[i % 8])
  }

  lemma ColumnOfBits(seg: seq<Byte>, v: nat, c: nat)
    requires |seg| == 8 * v && c < v
    ensures Column(BitsOf(seg, v), v, c) == Transposed(Chunk(seg, c))
  {
    hide Base, BlockNo, OffsetIn, Transposed, Chunk;
    forall a: nat | a < 8
      ensures Column(BitsOf(seg, v), v, c)[a] == Transposed(Chunk(seg, c))[a]
    {
      ColumnInRange(a, v, c);
      AtPlace(v, a, c);
    }
  }

  lemma ChunkOfBytes(out: seq<Byte>, v: nat, c: nat)
    requires |out| == 8 * v && c < v
    ensures Chunk(BytesOfBits(out, v), c) == Transposed(Column(out, v, c))
  {
    hide Column, Transposed;
    forall k: nat | k < 8
      ensures Chunk(BytesOfBits(out, v), c)[k] == Transposed(Column(out, v, c))[k]
    {
      assert (8 * c + k) / 8 == c && (8 * c + k) % 8 == k;
    }
  }

  lemma BitsRoundTrip(seg: seq<Byte>, v: nat)
    requires |seg| == 8 * v
    ensures BytesOfBits(BitsOf(seg, v), v) == seg && BitsOf(BytesOfBits(seg, v), v) == seg
  {
    hide Column, Transposed, Base, BlockNo, OffsetIn;
    forall i: nat | i < 8 * v
      ensures BytesOfBits(BitsOf(seg, v), v)[i] == seg[i]
    {
      ColumnOfBits(seg, v, i / 8);
      TransposedTwice(Chunk(seg, i / 8));
      assert Chunk(seg, i / 8)[i % 8] == seg[i];
    }
    forall o: nat | o < 8 * v
      ensures BitsOf(BytesOfBits(seg, v), v)[o] == seg[o]
    {
      RowAndColumn(o, v);
      ChunkOfBytes(seg, v, OffsetIn(o, v));
      TransposedTwice(Column(seg, v, OffsetIn(o, v)));
      ColumnAt(seg, v, o);
    }
  }

  lemma ColumnAt(out: seq<Byte>, v: nat, o: nat)
    requires |out| == 8 * v && o < 8 * v
    ensures OffsetIn(o, v) < v && BlockNo(o, v) < 8 && Column(out, v, OffsetIn(o, v))[BlockNo(o, v)] == out[o]
  {
    hide Base, BlockNo, OffsetIn;
    RowAndColumn(o, v);
  }

  // ----- a whole block

  datatype Level = Nibbles | Bits

  /** Segment lengths the program can work on: on bits other lengths read past the end of the data. */
  predicate Fits(level: Level, unit: nat)
  {
    level.Bits? ==> unit % 8 == 0
  }

  predicate Reversible(level: Level, unit: nat)
  {
    if level.Bits? then unit % 8 == 0 else unit % 2 == 0
  }

  ghost function SegmentTo1(level: Level, seg: seq<Byte>): (out: seq<Byte>)
    requires Fits(level, |seg|)
    ensures |out| == |seg|
  {
    if level.Nibbles? then NibblesOf(seg) else BitsOf(seg, |seg| / 8)
  }

  ghost function SegmentFrom1(level: Level, out: seq<Byte>): (seg: seq<Byte>)
    requires Reversible(level, |out|)
    ensures |seg| == |out|
  {
    if level.Nibbles? then BytesOfNibbles(out, |out| / 2) else BytesOfBits(out, |out| / 8)
  }

  /** The last segment of n, and those before it. */
  lemma LastSegment(n: nat, unit: nat)
    requires n > 0
    ensures Base(n, unit) == Base(n - 1, unit) + unit
  {
    NextBlock(unit, n - 1);
  }

  ghost function To1(level: Level, data: seq<Byte>, n: nat, unit: nat): (out: seq<Byte>)
    requires |data| == Base(n, unit) && Fits(level, unit)
    ensures |out| == |data|
    decreases n
  {
    if n == 0 then []
    else
      LastSegment(n, unit);
      var k := Base(n - 1, unit);
      To1(level, data[..k], n - 1, unit) + SegmentTo1(level, data[k..])
  }

  ghost function From1(level: Level, out: seq<Byte>, n: nat, unit: nat): (data: seq<Byte>)
    requires |out| == Base(n, unit) && Reversible(level, unit)
    ensures |data| == |out|
    decreases n
  {
    if n == 0 then []
    else
      LastSegment(n, unit);
      var k := Base(n - 1, unit);
      From1(level, out[..k], n - 1, unit) + SegmentFrom1(level, out[k..])
  }

  lemma {:induction false} Type1RoundTrip(level: Level, data: seq<Byte>, n: nat, unit: nat)
    requires |data| == Base(n, unit) && Reversible(level, unit)
    ensures Fits(level, unit)
    ensures From1(level, To1(level, data, n, unit), n, unit) == data
            && To1(level, From1(level, data, n, unit), n, unit) == data
    decreases n
  {
    hide Base, SegmentTo1, SegmentFrom1;
    if n > 0 {
      LastSegment(n, unit);
      var k := Base(n - 1, unit);
      var seg := data[k..];
      Type1RoundTrip(level, data[..k], n - 1, unit);
      SegmentRoundTrip(level, seg);
      var to, back := To1(level, data, n, unit), From1(level, data, n, unit);
      assert to[..k] == To1(level, data[..k], n - 1, unit) && to[k..] == SegmentTo1(level, seg);
      assert back[..k] == From1(level, data[..k], n - 1, unit) && back[k..] == SegmentFrom1(level, seg);
    }
  }

  lemma SegmentRoundTrip(level: Level, seg: seq<Byte>)
    requires Reversible(level, |seg|)
    ensures SegmentFrom1(level, SegmentTo1(level, seg)) == seg
    ensures SegmentTo1(level, SegmentFrom1(level, seg)) == seg
  {
    if level.Nibbles? {
      NibblesRoundTrip(seg, |seg| / 2);
    } else {
      BitsRoundTrip(seg, |seg| / 8);
    }
  }

  lemma OneSegmentMore(level: Level, front: seq<Byte>, seg: seq<Byte>, n: nat, unit: nat)
    requires |front| == Base(n, unit) && |seg| == unit && Fits(level, unit)
    ensures |front + seg| == Base(n + 1, unit)
    ensures To1(level, front + seg, n + 1, unit) == To1(level, front, n, unit) + SegmentTo1(level, seg)
  {
    hide Base, SegmentTo1;
    LastSegment(n + 1, unit);
    assert (front + seg)[..|front|] == front && (front + seg)[|front|..] == seg;
  }

  lemma OneSegment(data: seq<Byte>, unit: nat)
    requires |data| == unit
    ensures Base(1, unit) == unit && To1(Nibbles, data, 1, unit) == NibblesOf(data)
  {
    hide Base, NibblesOf;
    NextBlock(unit, 0);
    assert data[0..] == data;
  }

  lemma FirstOfFront(data: seq<Byte>, k: nat, b: Byte)
    requires 0 < k <= |data|
    ensures data == data[..k] + data[k..] && data[0 := b] == data[..k][0 := b] + data[k..]
  {
  }

  lemma {:induction false} OddSegmentsLoseANibble(data: seq<Byte>, n: nat, unit: nat, b: Byte)
    requires |data| == Base(n, unit) && n > 0 && unit % 2 == 1
    requires |data| > 0 ==> Hi(b) == Hi(data[0])
    ensures |data| > 0 && To1(Nibbles, data[0 := b], n, unit) == To1(Nibbles, data, n, unit)
    decreases n
  {
    hide Base, Hi, To1, SegmentTo1;
    LastSegment(n, unit);
    if n == 1 {
      NextBlock(unit, 0);
      OneSegment(data, unit);
      OneSegment(data[0 := b], unit);
      OddSegmentLosesANibble(data, b);
    } else {
      var k := Base(n - 1, unit);
      OddSegmentsLoseANibble(data[..k], n - 1, unit, b);
      OneSegmentMore(Nibbles, data[..k], data[k..], n - 1, unit);
      OneSegmentMore(Nibbles, data[..k][0 := b], data[k..], n - 1, unit);
      FirstOfFront(data, k, b);
    }
  }

  ghost function Remapped(level: Level, data: seq<Byte>, unit: nat, res: nat): (out: seq<Byte>)
    requires IsBlock(data, unit, res) && Fits(level, unit)
    ensures IsBlock(out, unit, res)
  {
    To1(level, Type0(data, unit, res), res, unit)
  }

  ghost function Restored(level: Level, out: seq<Byte>, unit: nat, res: nat): (data: seq<Byte>)
    requires IsBlock(out, unit, res) && Reversible(level, unit)
    ensures IsBlock(data, unit, res)
  {
    Untype0(From1(level, out, res, unit), unit, res)
  }

  /** Remapping is a bijection with this inverse for segments of an even number of bytes, on bits of
      a multiple of eight. */
  lemma RemappingLosesNothing(level: Level, data: seq<Byte>, unit: nat, res: nat)
    requires IsBlock(data, unit, res) && Reversible(level, unit)
    ensures Restored(level, Remapped(level, data, unit, res), unit, res) == data
    ensures Remapped(level, Restored(level, data, unit, res), unit, res) == data
  {
    Type1RoundTrip(level, Type0(data, unit, res), res, unit);
    Type0RoundTrip(data, unit, res);
    Type1RoundTrip(level, data, res, unit);
    Type0RoundTrip(From1(level, data, res, unit), unit, res);
  }

  ghost predicate Injective(level: Level, unit: nat, res: nat)
    requires Fits(level, unit)
  {
    forall a, b ::
      && IsBlock(a, unit, res) && IsBlock(b, unit, res)
      && Remapped(level, a, unit, res) == Remapped(level, b, unit, res) ==>
        a == b
  }

  lemma OddBlocksCollide(unit: nat, res: nat)
    requires unit % 2 == 1 && res > 0
    ensures !Injective(Nibbles, unit, res)
  {
    hide Base, Type0, Untype0, To1;
    var a := seq(Base(res, unit), _ => 0);
    OddSegmentsLoseANibble(a, res, unit, 1);
    var b := a[0 := 1];
    Type0RoundTrip(a, unit, res);
    Type0RoundTrip(b, unit, res);
    var x, y := Untype0(a, unit, res), Untype0(b, unit, res);
    assert a[0] != b[0];
    assert x != y && IsBlock(x, unit, res) && IsBlock(y, unit, res);
    assert Remapped(Nibbles, x, unit, res) == Remapped(Nibbles, y, unit, res);
  }

  /** No two blocks are remapped to the same bytes, on bits always, on nibbles exactly when the
      segments have an even number of bytes. */
  lemma RemappingIsInjective(level: Level, unit: nat, res: nat)
    requires Fits(level, unit) && res > 0
    ensures Injective(level, unit, res) <==> unit % 2 == 0
  {
    hide Remapped, Restored, IsBlock;
    if unit % 2 == 1 {
      OddBlocksCollide(unit, res);
    } else {
      forall a, b | && IsBlock(a, unit, res) && IsBlock(b, unit, res)
                    && Remapped(level, a, unit, res) == Remapped(level, b, unit, res)
        ensures a == b
      {
        RemappingLosesNothing(level, a, unit, res);
        RemappingLosesNothing(level, b, unit, res);
      }
    }
  }
}
