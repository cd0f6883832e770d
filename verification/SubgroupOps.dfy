/** Reversible rewriting of subgroups of remapped bytes: a subgroup whose nibbles differ little is
    made of equal nibbles, and the difference is kept in a few bits beside it. */
module SubgroupOps {
  import opened Bits
  import opened DataRemap

  // ----- properties of a subgroup

  predicate HasNibble(g: seq<Byte>, x: nat)
  {
    exists i :: 0 <= i < |g| && (Lo(g[i]) == x || Hi(g[i]) == x)
  }

  /** Every nibble is the same. */
  predicate IsUniform(g: seq<Byte>)
  {
    forall i :: 0 <= i < |g| ==> Lo(g[i]) == Lo(g[0]) && Hi(g[i]) == Lo(g[0])
  }

  function Min(x: nat, y: nat): nat
  {
    if x < y then x else y
  }

  function Max(x: nat, y: nat): nat
  {
    if x > y then x else y
  }

  function MinNibble(g: seq<Byte>): (m: nat)
    requires g != []
    ensures forall i :: 0 <= i < |g| ==> m <= Lo(g[i]) && m <= Hi(g[i])
    ensures m < 16
  {
    var n := |g| - 1;
    var own := Min(Lo(g[n]), Hi(g[n]));
    if n == 0 then own else Min(MinNibble(g[..n]), own)
  }

  function MaxNibble(g: seq<Byte>): (m: nat)
    requires g != []
    ensures forall i :: 0 <= i < |g| ==> m >= Lo(g[i]) && m >= Hi(g[i])
    ensures m < 16
  {
    var n := |g| - 1;
    var own := Max(Lo(g[n]), Hi(g[n]));
    if n == 0 then own else Max(MaxNibble(g[..n]), own)
  }

  lemma {:induction false} ExtremesAreNibbles(g: seq<Byte>)
    requires g != []
    ensures HasNibble(g, MinNibble(g)) && HasNibble(g, MaxNibble(g))
  {
    var n := |g| - 1;
    if n > 0 {
      ExtremesAreNibbles(g[..n]);
      var i :| 0 <= i < n && (Lo(g[i]) == MinNibble(g[..n]) || Hi(g[i]) == MinNibble(g[..n]));
      var j :| 0 <= j < n && (Lo(g[j]) == MaxNibble(g[..n]) || Hi(g[j]) == MaxNibble(g[..n]));
    }
  }

  function Spread(g: seq<Byte>): (d: nat)
    requires g != []
  {
    LeastBelowGreatest(g);
    MaxNibble(g) - MinNibble(g)
  }

  lemma LeastBelowGreatest(g: seq<Byte>)
    requires g != []
    ensures MinNibble(g) <= Lo(g[0]) <= MaxNibble(g)
  {
  }

  predicate IsMaskable(g: seq<Byte>)
    requires g != []
  {
    forall i :: 0 <= i < |g| ==>
      (Lo(g[i]) == 0 || Lo(g[i]) == MaxNibble(g)) && (Hi(g[i]) == 0 || Hi(g[i]) == MaxNibble(g))
  }

  predicate AllHigh(g: seq<Byte>)
  {
    forall i :: 0 <= i < |g| ==> Lo(g[i]) >= 7 && Hi(g[i]) >= 7
  }

  function Folded(x: nat): nat
    requires x < 16
  {
    if x > 7 then 15 - x else x
  }

  function FoldedByte(b: Byte): Byte
  {
    Pair(Folded(Lo(b)), Folded(Hi(b)))
  }

  /** The larger nibbles complemented, unless all are large. */
  function Complemented(g: seq<Byte>): (c: seq<Byte>)
    ensures |c| == |g|
  {
    if AllHigh(g) then g else seq(|g|, i requires 0 <= i < |g| => FoldedByte(g[i]))
  }

  // ----- what is done to a subgroup

  datatype Tag = Mask | Complement | Delta(wide: bool) | ComplementDelta(wide: bool)

  datatype Outcome = Untouched | Rewritten(tag: Tag, value: nat)

  function OutcomeOf(g: seq<Byte>): (o: Outcome)
    requires g != []
    ensures o.Rewritten? ==> o.value < 16
  {
    var c := Complemented(g);
    var folded, d := c != g, Spread(c);
    if IsUniform(g) then Untouched
    else if IsMaskable(g) then Rewritten(Mask, MaxNibble(g))
    else if folded && d == 0 then Rewritten(Complement, MinNibble(c))
    else if 1 <= d <= 3 then Rewritten(if folded then ComplementDelta(d > 1) else Delta(d > 1), MinNibble(c))
    else Untouched
  }

  function Uniform(value: nat, n: nat): seq<Byte>
    requires value < 16
  {
    seq(n, _ => Pair(value, value))
  }

  function RewrittenGroup(g: seq<Byte>): (out: seq<Byte>)
    requires g != []
    ensures |out| == |g|
  {
    match OutcomeOf(g)
    case Untouched => g
    case Rewritten(_, value) => Uniform(value, |g|)
  }

  // ----- what is charged, and the code that fits in it

  /** Bits for each nibble. */
  function Width(tag: Tag): nat
  {
    match tag
    case Mask => 1
    case Complement => 1
    case Delta(wide) => if wide then 2 else 1
    case ComplementDelta(wide) => if wide then 3 else 2
  }

  /** Two bits for the operation, two for the number of operations, and one for the width of a delta. */
  function HeaderBits(tag: Tag): nat
  {
    if tag.Mask? || tag.Complement? then 4 else 5
  }

  function Charged(tag: Tag, size: nat): nat
  {
    match tag
    case Mask => size * 2 + 2 + 2
    case Complement => size * 2 + 2 + 2
    case Delta(wide) => (if wide then size * 2 * 2 else size * 2) + 2 + 1 + 2
    case ComplementDelta(wide) => (if wide then size * 2 * 3 else size * 2 * 2) + 2 + 1 + 2
  }

  function CodeOf(tag: Tag, value: nat, x: nat): int
    requires x < 16
  {
    match tag
    case Mask => if x == 0 then 0 else 1
    case Complement => if x > 7 then 1 else 0
    case Delta(_) => x - value
    case ComplementDelta(_) => (if x > 7 then 1 else 0) + 2 * (Folded(x) - value)
  }

  /** A nibble from the subgroup's nibble and a code. */
  function Decoded(tag: Tag, value: nat, code: nat): int
  {
    match tag
    case Mask => if code == 0 then 0 else value
    case Complement => if code == 0 then value else 15 - value
    case Delta(_) => value + code
    case ComplementDelta(_) => if code % 2 == 0 then value + code / 2 else 15 - (value + code / 2)
  }

  ghost predicate IsRecovered(tag: Tag, value: nat, x: nat)
    requires x < 16
  {
    0 <= CodeOf(tag, value, x) < Pow2(Width(tag)) && Decoded(tag, value, CodeOf(tag, value, x)) == x
  }

  lemma MaskCode(value: nat, x: nat)
    requires x < 16 && (x == 0 || x == value)
    ensures IsRecovered(Mask, value, x)
  {
    SmallPowers();
  }

  lemma ComplementCode(value: nat, x: nat)
    requires x < 16 && Folded(x) == value
    ensures IsRecovered(Complement, value, x)
  {
    SmallPowers();
  }

  lemma DeltaCode(wide: bool, value: nat, x: nat)
    requires x < 16 && value <= x <= value + if wide then 3 else 1
    ensures IsRecovered(Delta(wide), value, x)
  {
    SmallPowers();
  }

  lemma ComplementDeltaCode(wide: bool, value: nat, x: nat)
    requires x < 16 && value <= Folded(x) <= value + if wide then 3 else 1
    ensures IsRecovered(ComplementDelta(wide), value, x)
  {
    SmallPowers();
    var d := Folded(x) - value;
    assert (0 + 2 * d) / 2 == d && (1 + 2 * d) / 2 == d && (0 + 2 * d) % 2 == 0 && (1 + 2 * d) % 2 == 1;
  }

  /** Where a folded or plain nibble lies. */
  lemma NibbleBounds(g: seq<Byte>, i: nat)
    requires g != [] && i < |g|
    ensures var c := Complemented(g);
            && MinNibble(c) <= Lo(c[i]) <= MinNibble(c) + Spread(c)
               && MinNibble(c) <= Hi(c[i]) <= MinNibble(c) + Spread(c)
            && (c != g ==> Lo(c[i]) == Folded(Lo(g[i])) && Hi(c[i]) == Folded(Hi(g[i])))
  {
    hide MinNibble, MaxNibble, Lo, Hi, Pair;
  }

  lemma NibbleIsRecovered(g: seq<Byte>, i: nat)
    requires g != [] && OutcomeOf(g).Rewritten? && i < |g|
    ensures var o := OutcomeOf(g); IsRecovered(o.tag, o.value, Lo(g[i])) && IsRecovered(o.tag, o.value, Hi(g[i]))
  {
    hide MinNibble, MaxNibble, Spread, Complemented, IsRecovered, Lo, Hi, Folded, IsUniform;
    NibbleBounds(g, i);
    var o, lo, hi := OutcomeOf(g), Lo(g[i]), Hi(g[i]);
    match o.tag
    case Mask =>
      MaskCode(o.value, lo);
      MaskCode(o.value, hi);
    case Complement =>
      ComplementCode(o.value, lo);
      ComplementCode(o.value, hi);
    case Delta(wide) =>
      DeltaCode(wide, o.value, lo);
      DeltaCode(wide, o.value, hi);
    case ComplementDelta(wide) =>
      ComplementDeltaCode(wide, o.value, lo);
      ComplementDeltaCode(wide, o.value, hi);
  }

  // ----- a rewritten subgroup with its codes

  ghost function Codes(tag: Tag, value: nat, g: seq<Byte>): (codes: seq<(int, int)>)
    ensures |codes| == |g|
  {
    seq(|g|, i requires 0 <= i < |g| => (CodeOf(tag, value, Lo(g[i])), CodeOf(tag, value, Hi(g[i]))))
  }

  ghost predicate CodesFit(tag: Tag, codes: seq<(int, int)>)
  {
    forall i :: 0 <= i < |codes| ==> 0 <= codes[i].0 < Pow2(Width(tag)) && 0 <= codes[i].1 < Pow2(Width(tag))
  }

  ghost predicate IsOriginal(tag: Tag, out: seq<Byte>, codes: seq<(int, int)>, g: seq<Byte>)
    requires |out| == |codes| == |g| && CodesFit(tag, codes)
  {
    forall i :: 0 <= i < |g| ==>
      Lo(g[i]) == Decoded(tag, Lo(out[i]), codes[i].0) && Hi(g[i]) == Decoded(tag, Hi(out[i]), codes[i].1)
  }

  /** A rewritten subgroup has one nibble everywhere; the original comes back from it and a code for
      each nibble, and all codes together with the header are no wider than what is charged. */
  lemma SubgroupsAreReversible(g: seq<Byte>)
    requires g != [] && OutcomeOf(g).Rewritten?
    ensures var o := OutcomeOf(g);
            var codes := Codes(o.tag, o.value, g);
            && IsUniform(RewrittenGroup(g)) && CodesFit(o.tag, codes) && IsOriginal(o.tag, RewrittenGroup(g), codes, g)
            && Charged(o.tag, |g|) == 2 * |g| * Width(o.tag) + HeaderBits(o.tag)
  {
    hide OutcomeOf, CodeOf, Decoded, Width;
    var o := OutcomeOf(g);
    forall i: nat | i < |g|
      ensures IsRecovered(o.tag, o.value, Lo(g[i])) && IsRecovered(o.tag, o.value, Hi(g[i]))
    {
      NibbleIsRecovered(g, i);
    }
    ChargeIsWidth(o.tag, |g|);
  }

  lemma ChargeIsWidth(tag: Tag, size: nat)
    ensures Charged(tag, size) == 2 * size * Width(tag) + HeaderBits(tag)
  {
  }

  /** Codes tell the original: two subgroups rewritten alike with the same codes are the same. */
  lemma OriginalIsUnique(tag: Tag, out: seq<Byte>, codes: seq<(int, int)>, g: seq<Byte>, h: seq<Byte>)
    requires |out| == |codes| == |g| == |h| && CodesFit(tag, codes)
    requires IsOriginal(tag, out, codes, g) && IsOriginal(tag, out, codes, h)
    ensures g == h
  {
    forall i | 0 <= i < |g|
      ensures g[i] == h[i]
    {
      NibblesDetermine(g[i], h[i]);
    }
  }

  lemma FlatIsUniform(c: seq<Byte>)
    requires c != [] && Spread(c) == 0
    ensures c == Uniform(MinNibble(c), |c|)
  {
    hide Lo, Hi, MinNibble, MaxNibble;
    forall i | 0 <= i < |c|
      ensures c[i] == Pair(MinNibble(c), MinNibble(c))
    {
      NibblesDetermine(c[i], Pair(MinNibble(c), MinNibble(c)));
    }
  }

  // ----- a block of subgroups of eight bytes

  function ChargeOf(g: seq<Byte>): nat
    requires g != []
  {
    match OutcomeOf(g)
    case Untouched => 0
    case Rewritten(tag, _) => Charged(tag, |g|)
  }

  function Group(data: seq<Byte>, i: nat): (g: seq<Byte>)
    requires 8 * i + 8 <= |data|
    ensures |g| == 8
  {
    data[8 * i..8 * i + 8]
  }

  ghost function Charges(data: seq<Byte>, n: nat): nat
    requires 8 * n <= |data|
  {
    if n == 0 then 0 else Charges(data, n - 1) + ChargeOf(Group(data, n - 1))
  }

  function WithGroup(data: seq<Byte>, i: nat, g: seq<Byte>): (out: seq<Byte>)
    requires 8 * i + 8 <= |data| && |g| == 8
    ensures |out| == |data|
  {
    data[..8 * i] + g + data[8 * i + 8..]
  }

  /** The first n subgroups rewritten. */
  ghost function RewrittenGroups(data: seq<Byte>, n: nat): (out: seq<Byte>)
    requires 8 * n <= |data|
    ensures |out| == |data|
  {
    if n == 0 then data else WithGroup(RewrittenGroups(data, n - 1), n - 1, RewrittenGroup(Group(data, n - 1)))
  }

  lemma OtherGroup(data: seq<Byte>, i: nat, g: seq<Byte>, j: nat)
    requires 8 * i + 8 <= |data| && 8 * j + 8 <= |data| && |g| == 8
    ensures Group(WithGroup(data, i, g), j) == if i == j then g else Group(data, j)
  {
    if j < i {
      assert 8 * j + 8 <= 8 * i;
    }
  }

  /** Each subgroup is rewritten by itself, and the rest of the block stays. */
  lemma {:induction false} GroupsAreIndependent(data: seq<Byte>, n: nat, i: nat)
    requires 8 * n <= |data| && 8 * i + 8 <= |data|
    ensures Group(RewrittenGroups(data, n), i) == if i < n then RewrittenGroup(Group(data, i)) else Group(data, i)
  {
    hide Group, WithGroup, RewrittenGroup;
    if n > 0 {
      GroupsAreIndependent(data, n - 1, i);
      OtherGroup(RewrittenGroups(data, n - 1), n - 1, RewrittenGroup(Group(data, n - 1)), i);
    }
  }

  ghost predicate SameOutcomes(data: seq<Byte>, other: seq<Byte>, n: nat)
    requires 8 * n <= |data| == |other|
  {
    forall i: nat :: i < n ==> SameOutcome(Group(data, i), Group(other, i))
  }

  /** Rewritten alike: both left alone, or the same operation with the same codes. */
  ghost predicate SameOutcome(g: seq<Byte>, h: seq<Byte>)
    requires g != [] && |g| == |h|
  {
    match (OutcomeOf(g), OutcomeOf(h))
    case (Untouched, Untouched) => true
    case (Rewritten(t, v), Rewritten(u, w)) => t == u && Codes(t, v, g) == Codes(u, w, h)
    case _ => false
  }

  lemma SameGroup(g: seq<Byte>, h: seq<Byte>)
    requires g != [] && |g| == |h| && SameOutcome(g, h) && RewrittenGroup(g) == RewrittenGroup(h)
    ensures g == h
  {
    if OutcomeOf(g).Rewritten? {
      SubgroupsAreReversible(g);
      SubgroupsAreReversible(h);
      var o := OutcomeOf(g);
      OriginalIsUnique(o.tag, RewrittenGroup(g), Codes(o.tag, o.value, g), g, h);
    }
  }

  /** Two blocks that are rewritten to the same bytes with the same operations and codes are the
      same block. */
  lemma RewritingLosesNothing(data: seq<Byte>, other: seq<Byte>, n: nat)
    requires 8 * n == |data| == |other| && SameOutcomes(data, other, n)
    requires RewrittenGroups(data, n) == RewrittenGroups(other, n)
    ensures data == other
  {
    hide OutcomeOf, Codes, RewrittenGroup, RewrittenGroups;
    forall k: nat | k < |data|
      ensures data[k] == other[k]
    {
      var i := k / 8;
      GroupsAreIndependent(data, n, i);
      GroupsAreIndependent(other, n, i);
      SameGroup(Group(data, i), Group(other, i));
      assert Group(data, i)[k - 8 * i] == data[k] && Group(other, i)[k - 8 * i] == other[k];
    }
  }
}
