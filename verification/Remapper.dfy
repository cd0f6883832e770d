/** The remapping loops, which fill vectors byte by byte. */
module Remapper {
  import opened Bits
  import opened Blocks
  import opened DataRemap

  // ----- type 0: a bin for each place in a word

  ghost predicate BinHolds(data: seq<Byte>, bin: seq<Byte>, res: nat, r: nat, i: nat)
    requires res > 0
  {
    && |bin| == BlockNo(i, res) + (if r < OffsetIn(i, res) then 1 else 0)
    && forall q :: 0 <= q < |bin| ==> Base(q, res) + r < |data| && bin[q] == data[Base(q, res) + r]
  }

  lemma NextPlace(i: nat, res: nat)
    requires res > 0
    ensures if OffsetIn(i, res) + 1 < res
            then BlockNo(i + 1, res) == BlockNo(i, res) && OffsetIn(i + 1, res) == OffsetIn(i, res) + 1
            else BlockNo(i + 1, res) == BlockNo(i, res) + 1 && OffsetIn(i + 1, res) == 0
  {
    hide Base, BlockNo, OffsetIn;
    var p, o := BlockNo(i, res), OffsetIn(i, res);
    if o + 1 < res {
      AtPlace(res, p, o + 1);
    } else {
      NextBlock(res, p);
      AtPlace(res, p + 1, 0);
    }
  }

  lemma FirstPlace(res: nat)
    requires res > 0
    ensures BlockNo(0, res) == 0 && OffsetIn(0, res) == 0
  {
    hide Base, BlockNo, OffsetIn;
    NextBlock(res, 0);
    AtPlace(res, 0, 0);
  }

  lemma NextInBin(data: seq<Byte>, bin: seq<Byte>, after: seq<Byte>, res: nat, r: nat, i: nat)
    requires res > 0 && r < res && i < |data| && BinHolds(data, bin, res, r, i)
    requires after == if r == OffsetIn(i, res) then bin + [data[i]] else bin
    ensures BinHolds(data, after, res, r, i + 1)
  {
    hide Base, BlockNo, OffsetIn;
    NextPlace(i, res);
  }

  /** Gathers the bytes by their place in the words. */
  method FillBins(data: seq<Byte>, res: nat) returns (bins: seq<seq<Byte>>)
    requires res > 0
    ensures |bins| == res && forall r :: 0 <= r < res ==> BinHolds(data, bins[r], res, r, |data|)
  {
    hide BinHolds;
    bins := seq(res, _ => []);
    NoBins(data, res);
    for i := 0 to |data|
      invariant |bins| == res && forall r :: 0 <= r < res ==> BinHolds(data, bins[r], res, r, i)
    {
      ghost var before := bins;
      var index := OffsetIn(i, res);
      bins := bins[index := bins[index] + [data[i]]];
      forall r | 0 <= r < res
        ensures BinHolds(data, bins[r], res, r, i + 1)
      {
        NextInBin(data, before[r], bins[r], res, r, i);
      }
    }
  }

  lemma NoBins(data: seq<Byte>, res: nat)
    requires res > 0
    ensures forall r :: 0 <= r < res ==> BinHolds(data, [], res, r, 0)
  {
    FirstPlace(res);
  }

  lemma FullBin(data: seq<Byte>, bin: seq<Byte>, unit: nat, res: nat, r: nat)
    requires IsBlock(data, unit, res) && r < res && BinHolds(data, bin, res, r, |data|)
    ensures |bin| == unit && forall q :: 0 <= q < unit ==> Base(q, res) + r < |data| && bin[q] == data[Base(q, res) + r]
  {
    hide Base, BlockNo, OffsetIn;
    Swapped0(unit, res);
    AtPlace(res, unit, 0);
  }

  /** Where a bin's byte goes: its bin counts from the last. */
  lemma PlaceOfBin(data: seq<Byte>, bin: seq<Byte>, unit: nat, res: nat, r: nat, j: nat)
    requires IsBlock(data, unit, res) && r < res && j < unit && BinHolds(data, bin, res, r, |data|)
    ensures Base(res - 1 - r, unit) + j < |data| && |bin| == unit
    ensures Type0(data, unit, res)[Base(res - 1 - r, unit) + j] == bin[j]
  {
    hide Base, BlockNo, OffsetIn, BinHolds;
    FullBin(data, bin, unit, res, r);
    InRange(res - 1 - r, j, res, unit);
    AtPlace(unit, res - 1 - r, j);
  }

  /** The length must be a multiple of res, as remap_data_to_type0 asserts. */
  method RemapToType0(data: seq<Byte>, res: nat, out: array<Byte>, ghost unit: nat)
    requires IsBlock(data, unit, res) && out.Length == |data|
    modifies out
    ensures out[..] == Type0(data, unit, res)
  {
    hide Base, BlockNo, OffsetIn, BinHolds, Type0;
    var bins := FillBins(data, res);
    var ptr := 0;
    NextBlock(unit, 0);
    for i := res downto 0
      invariant ptr == Base(res - i, unit)
      invariant forall p :: 0 <= p < ptr && p < |data| ==> out[p] == Type0(data, unit, res)[p]
    {
      FullBin(data, bins[i], unit, res, i);
      NextBlock(unit, res - 1 - i);
      for j := 0 to |bins[i]|
        invariant ptr == Base(res - 1 - i, unit) + j
        invariant forall p :: 0 <= p < ptr && p < |data| ==> out[p] == Type0(data, unit, res)[p]
      {
        PlaceOfBin(data, bins[i], unit, res, i, j);
        out[ptr] := bins[i][j];
        ptr := ptr + 1;
      }
    }
  }

  lemma WholeWords(data: seq<Byte>, res: nat)
    requires res > 0
    ensures |data| % res == 0 <==> exists unit: nat :: IsBlock(data, unit, res)
  {
    QuotientAndRemainder(|data|, res);
    if |data| % res == 0 {
      BaseIsProduct(Quotient(|data|, res), res);
      Swapped0(Quotient(|data|, res), res);
      assert IsBlock(data, Quotient(|data|, res), res);
    }
    if unit: nat :| IsBlock(data, unit, res) {
      Swapped0(unit, res);
      BaseIsProduct(unit, res);
      PartsOf(|data|, unit, 0, res);
    }
  }

  // ----- type 1: one segment at a time

  lemma RemainderOnce(j: nat, unit: nat)
    requires unit > 0 && j < 2 * unit
    ensures j % unit == Within(j, unit)
  {
    PartsOf(j, if j < unit then 0 else 1, Within(j, unit), unit);
  }

  /** The first o bytes of a segment have been written from base on, and nothing else. */
  ghost predicate Filled(before: seq<Byte>, after: seq<Byte>, base: nat, seg: seq<Byte>, o: nat)
  {
    && o <= |seg| && base + |seg| <= |before|
    && after == before[..base] + seg[..o] + before[base + o..]
  }

  lemma FilledNothing(before: seq<Byte>, base: nat, seg: seq<Byte>)
    requires base + |seg| <= |before|
    ensures Filled(before, before, base, seg, 0)
  {
  }

  lemma FilledOneMore(before: seq<Byte>, now: seq<Byte>, base: nat, seg: seq<Byte>, o: nat)
    requires Filled(before, now, base, seg, o) && o < |seg|
    ensures base + o < |now| && Filled(before, now[base + o := seg[o]], base, seg, o + 1)
  {
  }

  lemma FilledAll(before: seq<Byte>, after: seq<Byte>, base: nat, seg: seq<Byte>)
    requires Filled(before, after, base, seg, |seg|)
    ensures base + |seg| <= |before| && after == before[..base] + seg + before[base + |seg|..]
  {
  }

  /** One byte of a segment: two high nibbles in the first round over it, two low ones in the second. */
  method JoinNibbles(data: seq<Byte>, base: nat, unit: nat, j: nat) returns (b: Byte)
    requires base + unit <= |data| && j % 2 == 0 && j < 2 * unit
    ensures b == NibblesOf(data[base..base + unit])[j / 2]
  {
    hide Lo, Hi, Pair, NibblesOf, Within;
    RemainderOnce(j, unit);
    RemainderOnce(j + 1, unit);
    var index1, index2 := base + j % unit, base + (j + 1) % unit;
    var data1, data2 := data[index1], data[index2];
    b := if j < unit then Pair(Hi(data1), Hi(data2)) else Pair(Lo(data1), Lo(data2));
    NibbleByte(data[base..base + unit], j / 2, data1, data2);
  }

  /** Fills one segment of out, which begins at base in both. */
  method NibblesOfSegment(data: seq<Byte>, base: nat, unit: nat, out: array<Byte>)
    requires base + unit <= |data| == out.Length
    modifies out
    ensures out[..] == old(out[..])[..base] + NibblesOf(data[base..base + unit]) + old(out[..])[base + unit..]
  {
    hide Filled, NibblesOf;
    var j := 0;
    ghost var goal, o := NibblesOf(data[base..base + unit]), 0;
    FilledNothing(out[..], base, goal);
    while j < 2 * unit
      invariant j == 2 * o && o <= unit && Filled(old(out[..]), out[..], base, goal, o)
    {
      var b := JoinNibbles(data, base, unit, j);
      FilledOneMore(old(out[..]), out[..], base, goal, o);
      ghost var now := out[..];
      out[base + j / 2] := b;
      assert out[..] == now[base + o := goal[o]];
      j := j + 2;
      o := o + 1;
    }
    FilledAll(old(out[..]), out[..], base, goal);
  }

  lemma NibbleByte(seg: seq<Byte>, o: nat, data1: Byte, data2: Byte)
    requires o < |seg| && data1 == seg[Within(2 * o, |seg|)] && data2 == seg[Within(2 * o + 1, |seg|)]
    ensures NibblesOf(seg)[o] == if 2 * o < |seg| then Pair(Hi(data1), Hi(data2)) else Pair(Lo(data1), Lo(data2))
  {
    hide Lo, Hi, Pair;
  }

  lemma BitPlace(o: nat, v: nat)
    requires v > 0 && o < 8 * v
    ensures 8 * o / (8 * v) == BlockNo(o, v) < 8 && 8 * o % (8 * v) == 8 * OffsetIn(o, v) && OffsetIn(o, v) < v
  {
    RowAndColumn(o, v);
    EightTimes(BlockNo(o, v), v);
    PartsOf(8 * o, BlockNo(o, v), 8 * OffsetIn(o, v), 8 * v);
  }

  lemma EightTimes(a: nat, v: nat)
    ensures a * (8 * v) == 8 * Base(a, v)
  {
  }

  /** One bit of eight bytes, shifted in one after the other. */
  method GatherBits(s: seq<Byte>, pos: nat) returns (b: Byte)
    requires |s| == 8
    ensures b == JoinBits(s, pos)
  {
    Pow2Of32();
    var x := 0;
    for k := 0 to 8
      invariant x == JoinBits(s[..k], pos)
    {
      assert s[..k + 1][..k] == s[..k];
      x := 2 * x + Bit(s[k], pos);
    }
    assert s[..8] == s;
    b := x;
  }

  method BitsOfSegment(data: seq<Byte>, base: nat, v: nat, out: array<Byte>)
    requires base + 8 * v <= |data| == out.Length
    modifies out
    ensures out[..] == old(out[..])[..base] + BitsOf(data[base..base + 8 * v], v) + old(out[..])[base + 8 * v..]
  {
    hide Base, BlockNo, OffsetIn, JoinBits, Bit, Filled, BitsOf;
    var unit, j := 8 * v, 0;
    ghost var goal, o := BitsOf(data[base..base + 8 * v], v), 0;
    FilledNothing(out[..], base, goal);
    while j < 8 * unit
      invariant j == 8 * o && o <= unit && Filled(old(out[..]), out[..], base, goal, o)
    {
      BitPlace(o, v);
      var bitPos, index := 7 - j / unit, base + j % unit;
      var b := GatherBits(data[index..index + 8], bitPos);
      BitByte(data, base, v, o, index);
      FilledOneMore(old(out[..]), out[..], base, goal, o);
      ghost var now, at := out[..], base + o;
      assert base + j / 8 == at;
      out[base + j / 8] := b;
      assert out[..] == now[at := goal[o]];
      j := j + 8;
      o := o + 1;
    }
    FilledAll(old(out[..]), out[..], base, goal);
  }

  lemma SliceOfSlice(s: seq<Byte>, base: nat, end: nat, k: nat, e: nat)
    requires base <= end <= |s| && k <= e <= end - base
    ensures s[base..end][k..e] == s[base + k..base + e]
  {
    forall i | 0 <= i < e - k
      ensures s[base..end][k..e][i] == s[base + k..base + e][i]
    {
      assert s[base..end][k + i] == s[base + k + i];
    }
  }

  lemma BitByte(data: seq<Byte>, base: nat, v: nat, o: nat, index: nat)
    requires base + 8 * v <= |data| && o < 8 * v && BlockNo(o, v) < 8 && OffsetIn(o, v) < v
             && index == base + 8 * OffsetIn(o, v)
    ensures index + 8 <= |data|
    ensures BitsOf(data[base..base + 8 * v], v)[o] == JoinBits(data[index..index + 8], 7 - BlockNo(o, v))
  {
    hide Base, BlockNo, OffsetIn, JoinBits;
    var c := 8 * OffsetIn(o, v);
    SliceOfSlice(data, base, base + 8 * v, c, c + 8);
  }

  method WriteSegment(level: Level, data: seq<Byte>, base: nat, unit: nat, out: array<Byte>)
    requires base + unit <= |data| == out.Length && Fits(level, unit)
    modifies out
    ensures out[..] == old(out[..])[..base] + SegmentTo1(level, data[base..base + unit]) + old(out[..])[base + unit..]
  {
    hide NibblesOf, BitsOf;
    if level.Nibbles? {
      NibblesOfSegment(data, base, unit, out);
    } else {
      BitsOfSegment(data, base, unit / 8, out);
    }
  }

  lemma SliceOfPrefix(s: seq<Byte>, last: nat, k: nat, e: nat)
    requires k <= e <= last <= |s|
    ensures s[..last][k..e] == s[k..e]
  {
  }

  /** Filling the next segment of what agrees with the goal so far. */
  lemma NextSegment(goal: seq<Byte>, before: seq<Byte>, after: seq<Byte>, k: nat, unit: nat)
    requires |goal| == |before| && k + unit <= |before|
    requires forall p :: 0 <= p < k ==> before[p] == goal[p]
    requires after == before[..k] + goal[k..k + unit] + before[k + unit..]
    ensures forall p :: 0 <= p < k + unit ==> after[p] == goal[p]
  {
  }

  lemma {:induction false} SegmentAt(level: Level, data: seq<Byte>, n: nat, unit: nat, i: nat)
    requires |data| == Base(n, unit) && i < n && Fits(level, unit)
    ensures var k := Base(i, unit);
            k + unit <= |data| && To1(level, data, n, unit)[k..k + unit] == SegmentTo1(level, data[k..k + unit])
    decreases n
  {
    hide Base, SegmentTo1;
    LastSegment(n, unit);
    var k, last := Base(i, unit), Base(n - 1, unit);
    if i < n - 1 {
      SegmentAt(level, data[..last], n - 1, unit, i);
      BlocksAreApart(unit, i, n - 1);
      SliceOfPrefix(data, last, k, k + unit);
      SliceOfPrefix(To1(level, data, n, unit), last, k, k + unit);
      assert To1(level, data, n, unit)[..last] == To1(level, data[..last], n - 1, unit);
    } else {
      assert data[k..k + unit] == data[last..];
    }
  }

  /** Type 0 first, then each of its res segments; level 0 works on nibbles, level 1 on bits. */
  method RemapToType1(data: seq<Byte>, res: nat, unit: nat, level: Level, out: array<Byte>)
    requires IsBlock(data, unit, res) && Fits(level, unit) && out.Length == |data|
    modifies out
    ensures out[..] == Remapped(level, data, unit, res)
  {
    hide Base, Type0, To1, SegmentTo1;
    var type0 := new Byte[|data|];
    RemapToType0(data, res, type0, unit);
    var bytes := type0[..];
    ghost var goal := To1(level, bytes, res, unit);
    NextBlock(unit, 0);
    for i := 0 to res
      invariant Base(i, unit) <= |data| && forall k :: 0 <= k < Base(i, unit) ==> out[k] == goal[k]
    {
      SegmentAt(level, bytes, res, unit, i);
      NextBlock(unit, i);
      ghost var before, k := out[..], Base(i, unit);
      WriteSegment(level, bytes, Base(i, unit), unit, out);
      NextSegment(goal, before, out[..], k, unit);
    }
  }
}
