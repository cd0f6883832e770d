/** The loops that inspect and rewrite subgroups inside whole vectors of bytes. */
module SubgroupLoops {
  import opened Bits
  import opened DataRemap
  import opened SubgroupOps

  // ----- one subgroup: bytes index to index + size of a vector

  method CheckCsnPattern(data: seq<Byte>, index: nat, size: nat) returns (csn: int)
    requires size > 0 && index + size <= |data|
    ensures csn == if IsUniform(data[index..index + size]) then 1 else 0
  {
    hide Lo, Hi;
    ghost var g := data[index..index + size];
    var highNib, lowNib := Lo(data[index]), Hi(data[index]);
    if highNib != lowNib {
      assert Hi(g[0]) != Lo(g[0]);
      return 0;
    }
    for j := 1 to size
      invariant forall k :: 0 <= k < j ==> Lo(g[k]) == Lo(g[0]) && Hi(g[k]) == Lo(g[0])
    {
      var hn, ln := Lo(data[index + j]), Hi(data[index + j]);
      if hn != highNib || ln != highNib {
        assert Lo(g[j]) == hn && Hi(g[j]) == ln;
        return 0;
      }
    }
    return 1;
  }

  /** Folds the bytes of the subgroup in place and says whether that changed any of them. */
  method ComplementData(data: array<Byte>, index: nat, size: nat) returns (use: int)
    requires index + size <= data.Length
    modifies data
    ensures var g := old(data[..])[index..index + size];
            && data[..] == old(data[..])[..index] + Complemented(g) + old(data[..])[index + size..]
            && use == if Complemented(g) != g then 1 else 0
  {
    hide Lo, Hi, Pair, Folded;
    ghost var before := data[..];
    ghost var g := before[index..index + size];
    var allHigh := true;
    for j := 0 to size
      invariant allHigh && forall k :: 0 <= k < j ==> Lo(g[k]) >= 7 && Hi(g[k]) >= 7
    {
      var b := data[index + j];
      assert b == g[j];
      if Lo(b) < 7 || Hi(b) < 7 {
        allHigh := false;
        break;
      }
    }
    use := 0;
    if allHigh {
      assert before == before[..index] + g + before[index + size..];
    } else {
      assert !AllHigh(g);
      use := FoldAll(data, index, size);
    }
  }

  method FoldAll(data: array<Byte>, index: nat, size: nat) returns (use: int)
    requires index + size <= data.Length && !AllHigh(data[index..index + size])
    modifies data
    ensures var g := old(data[..])[index..index + size];
            && data[..] == old(data[..])[..index] + Complemented(g) + old(data[..])[index + size..]
            && use == if Complemented(g) != g then 1 else 0
  {
    hide Lo, Hi, Pair, FoldedByte, Complemented, AllHigh;
    ghost var before := data[..];
    ghost var g := before[index..index + size];
    assert g == data[index..index + size];
    use := 0;
    for j := 0 to size
      invariant forall k :: 0 <= k < data.Length && !(index <= k < index + j) ==> data[k] == before[k]
      invariant forall k :: 0 <= k < j ==> data[index + k] == FoldedByte(g[k])
      invariant use == 0 || use == 1
      invariant use == 0 <==> forall k :: 0 <= k < j ==> FoldedByte(g[k]) == g[k]
    {
      var b := data[index + j];
      assert b == g[j];
      var newByte := FoldedByte(b);
      if b != newByte {
        data[index + j] := newByte;
        use := 1;
      }
    }
    FoldedIsComplemented(g, data[index..index + size]);
    assert data[..] == before[..index] + data[index..index + size] + before[index + size..];
  }

  lemma FoldedIsComplemented(g: seq<Byte>, folded: seq<Byte>)
    requires !AllHigh(g) && |folded| == |g| && forall k :: 0 <= k < |g| ==> folded[k] == FoldedByte(g[k])
    ensures folded == Complemented(g)
    ensures Complemented(g) == g <==> forall k :: 0 <= k < |g| ==> FoldedByte(g[k]) == g[k]
  {
    hide FoldedByte;
    if k :| 0 <= k < |g| && FoldedByte(g[k]) != g[k] {
      assert Complemented(g)[k] != g[k];
    }
  }

  lemma PrefixOfGroup(data: seq<Byte>, index: nat, size: nat, j: nat)
    requires index + size <= |data| && j < size
    ensures var g := data[index..index + size]; g[..j + 1][..j] == g[..j] && g[..j + 1][j] == data[index + j]
  {
  }

  method LeastNibble(data: seq<Byte>, index: nat, size: nat) returns (min: nat)
    requires size > 0 && index + size <= |data|
    ensures min == MinNibble(data[index..index + size])
  {
    hide Lo, Hi;
    ghost var g := data[index..index + size];
    min := Min(Lo(data[index]), Hi(data[index]));
    for j := 1 to size
      invariant min == MinNibble(g[..j])
    {
      PrefixOfGroup(data, index, size, j);
      var b := data[index + j];
      if Lo(b) < min {
        min := Lo(b);
      }
      if Hi(b) < min {
        min := Hi(b);
      }
    }
    assert g[..size] == g;
  }

  method GreatestNibble(data: seq<Byte>, index: nat, size: nat) returns (max: nat)
    requires size > 0 && index + size <= |data|
    ensures max == MaxNibble(data[index..index + size])
  {
    hide Lo, Hi;
    ghost var g := data[index..index + size];
    max := Max(Lo(data[index]), Hi(data[index]));
    for j := 1 to size
      invariant max == MaxNibble(g[..j])
    {
      PrefixOfGroup(data, index, size, j);
      var b := data[index + j];
      if Hi(b) > max {
        max := Hi(b);
      }
      if Lo(b) > max {
        max := Lo(b);
      }
    }
    assert g[..size] == g;
  }

  /** Whether the deltas to the least nibble are small but not all zero; the greatest delta, exact
      when it is small. */
  method ComputeDelta(data: seq<Byte>, index: nat, size: nat) returns (use: int, maxDelta: int, min: nat)
    requires size > 0 && index + size <= |data|
    ensures var g := data[index..index + size];
            && min == MinNibble(g) && use == (if 1 <= Spread(g) <= 3 then 1 else 0)
            && (if Spread(g) <= 3 then maxDelta == Spread(g) else maxDelta > 3)
  {
    hide Lo, Hi, MinNibble, MaxNibble;
    ghost var g := data[index..index + size];
    min := LeastNibble(data, index, size);
    use, maxDelta := 1, -1;
    for j := 0 to size
      invariant use == 0 || use == 1
      invariant use == 0 ==> maxDelta > 3 && exists k :: 0 <= k < |g| && (Lo(g[k]) - min > 3 || Hi(g[k]) - min > 3)
      invariant use == 1 ==> (if j == 0 then maxDelta == -1 else maxDelta == MaxNibble(g[..j]) - min <= 3)
    {
      PrefixOfGroup(data, index, size, j);
      assert data[index + j] == g[j];
      var delta1, delta2 := Lo(data[index + j]) - min, Hi(data[index + j]) - min;
      LastOfMax(g, j);
      if delta1 > 3 || delta2 > 3 {
        use := 0;
        maxDelta := if delta1 > delta2 then delta1 else delta2;
      } else {
        if maxDelta < delta1 {
          maxDelta := delta1;
        }
        if maxDelta < delta2 {
          maxDelta := delta2;
        }
      }
    }
    assert g[..size] == g;
    if use == 1 && maxDelta == 0 {
      use := 0;
    }
  }

  lemma LastOfMax(g: seq<Byte>, j: nat)
    requires j < |g|
    ensures MaxNibble(g[..j + 1]) == if j == 0 then Max(Lo(g[0]), Hi(g[0]))
            else Max(MaxNibble(g[..j]), Max(Lo(g[j]), Hi(g[j])))
  {
    assert g[..j + 1][..j] == g[..j];
  }

  method ComputeMasking(data: seq<Byte>, index: nat, size: nat) returns (use: int, max: nat)
    requires size > 0 && index + size <= |data|
    ensures var g := data[index..index + size]; max == MaxNibble(g) && use == if IsMaskable(g) then 1 else 0
  {
    hide Lo, Hi, MaxNibble;
    ghost var g := data[index..index + size];
    max := GreatestNibble(data, index, size);
    for j := 0 to size
      invariant forall k :: 0 <= k < j ==> (Lo(g[k]) == 0 || Lo(g[k]) == max) && (Hi(g[k]) == 0 || Hi(g[k]) == max)
    {
      var lowNib, highNib := Lo(data[index + j]), Hi(data[index + j]);
      assert data[index + j] == g[j];
      if lowNib != 0 && lowNib != max {
        return 0, max;
      }
      if highNib != 0 && highNib != max {
        return 0, max;
      }
    }
    return 1, max;
  }

  method Fill(out: array<Byte>, index: nat, size: nat, value: nat)
    requires index + size <= out.Length && value < 16
    modifies out
    ensures out[..] == old(out[..])[..index] + Uniform(value, size) + old(out[..])[index + size..]
  {
    hide Pair;
    for j := 0 to size
      invariant forall k :: 0 <= k < out.Length ==>
                  out[k] == if index <= k < index + j then Pair(value, value) else old(out[k])
    {
      out[index + j] := Pair(value, value);
    }
  }

  method CopyGroup(source: seq<Byte>, out: array<Byte>, index: nat, size: nat)
    requires index + size <= out.Length == |source|
    modifies out
    ensures out[..] == old(out[..])[..index] + source[index..index + size] + old(out[..])[index + size..]
  {
    for j := 0 to size
      invariant forall k :: 0 <= k < out.Length ==> out[k] == if index <= k < index + j then source[k] else old(out[k])
    {
      out[index + j] := source[index + j];
    }
  }

  // ----- all subgroups

  /** Rewrites one subgroup of eight bytes.  work is folded on the way; original is the block before
      any rewriting.  The result is what is charged. */
  method RewriteSubgroup(work: array<Byte>, original: seq<Byte>, out: array<Byte>, i: nat) returns (bits: nat)
    requires work != out && 8 * i + 8 <= |original| == work.Length == out.Length
    requires Group(work[..], i) == Group(original, i) == Group(out[..], i)
    modifies work, out
    ensures exists g :: |g| == 8 && work[..] == WithGroup(old(work[..]), i, g)
    ensures out[..] == WithGroup(old(out[..]), i, RewrittenGroup(Group(original, i)))
    ensures bits == ChargeOf(Group(original, i))
  {
    hide IsUniform, IsMaskable, MinNibble, MaxNibble, Spread, Complemented, Uniform;
    var index, size := 8 * i, 8;
    ghost var g, before := Group(original, i), out[..];
    ghost var c := Complemented(g);
    WithOwnGroup(work[..], i);
    WithOwnGroup(out[..], i);
    var csn := CheckCsnPattern(work[..], index, size);
    if csn == 1 {
      return 0;
    }
    var complementUse := ComplementData(work, index, size);
    assert work[..] == WithGroup(old(work[..]), i, c);
    OtherGroup(old(work[..]), i, c, i);
    var deltaUse, maxDelta, min := ComputeDelta(work[..], index, size);
    if deltaUse == 0 && complementUse == 1 && maxDelta > 3 {
      complementUse := 0;
    }
    var maskingUse, max := ComputeMasking(original, index, size);
    bits := 0;
    if maskingUse == 1 {
      bits := size * 2 + 2 + 2;
      Fill(out, index, size, max);
    } else if complementUse == 1 && deltaUse == 0 {
      bits := size * 2 + 2 + 2;
      FlatIsUniform(c);
      CopyGroup(work[..], out, index, size);
    } else if complementUse == 0 && deltaUse == 1 {
      if maxDelta == 1 {
        bits := size * 2 + 2 + 1 + 2;
      } else {
        bits := size * 2 * 2 + 2 + 1 + 2;
      }
      Fill(out, index, size, min);
    } else if complementUse == 1 && deltaUse == 1 {
      if maxDelta == 1 {
        bits := size * 2 * 2 + 2 + 1 + 2;
      } else {
        bits := size * 2 * 3 + 2 + 1 + 2;
      }
      Fill(out, index, size, min);
    }
  }

  lemma WithOwnGroup(data: seq<Byte>, i: nat)
    requires 8 * i + 8 <= |data|
    ensures WithGroup(data, i, Group(data, i)) == data
  {
  }

  /** Rewrites the first groups subgroups of out and returns the bits that are added: one for each
      subgroup, saying whether it was rewritten, and what is charged for those that were. */
  method RemapOps(out: array<Byte>, groups: nat) returns (addedBits: nat)
    requires 8 * groups <= out.Length
    modifies out
    ensures out[..] == RewrittenGroups(old(out[..]), groups)
    ensures addedBits == groups + Charges(old(out[..]), groups)
  {
    hide RewrittenGroup, Group, WithGroup, ChargeOf;
    var original := out[..];
    var work := new Byte[out.Length](k requires 0 <= k < |original| => original[k]);
    assert work[..] == original;
    addedBits := groups;
    for i := 0 to groups
      invariant out[..] == RewrittenGroups(original, i) && addedBits == groups + Charges(original, i)
      invariant forall k :: i <= k < groups ==> Group(work[..], k) == Group(original, k)
    {
      GroupsAreIndependent(original, i, i);
      ghost var before := work[..];
      var bits := RewriteSubgroup(work, original, out, i);
      addedBits := addedBits + bits;
      ghost var g :| |g| == 8 && work[..] == WithGroup(before, i, g);
      forall k | i + 1 <= k < groups
        ensures Group(work[..], k) == Group(original, k)
      {
        OtherGroup(before, i, g, k);
      }
    }
  }
}
