/** Which operation a subgroup is rewritten by, in terms of the nibbles that occur in it, and when
    that is the cheapest one that keeps the subgroup. */
module SubgroupChoice {
  import opened Bits
  import opened DataRemap
  import opened SubgroupOps

  // ----- the nibbles that occur

  /** At least two nibbles differ. */
  ghost predicate IsMixed(g: seq<Byte>)
  {
    exists x: nat, y: nat :: HasNibble(g, x) && HasNibble(g, y) && x != y
  }

  ghost predicate OnlyNibbles(g: seq<Byte>, x: nat, y: int)
  {
    forall z: nat :: HasNibble(g, z) ==> z == x || z == y
  }

  /** Every nibble is 0 or one and the same other value. */
  ghost predicate IsMasked(g: seq<Byte>)
  {
    exists x: nat :: OnlyNibbles(g, 0, x)
  }

  /** Large nibbles are complemented only if there is one, and one below 7 too. */
  ghost predicate Folds(g: seq<Byte>)
  {
    (exists x: nat :: HasNibble(g, x) && x > 7) && exists x: nat :: HasNibble(g, x) && x < 7
  }

  function Fold(fold: bool, x: nat): nat
  {
    if fold && 7 < x < 16 then 15 - x else x
  }

  /** The nibbles, folded or not, reach from lo to lo + d. */
  ghost predicate Spans(g: seq<Byte>, fold: bool, lo: nat, d: nat)
  {
    && (forall x: nat :: HasNibble(g, x) ==> lo <= Fold(fold, x) <= lo + d)
    && (exists x: nat :: HasNibble(g, x) && Fold(fold, x) == lo)
    && exists x: nat :: HasNibble(g, x) && Fold(fold, x) == lo + d
  }

  ghost predicate FarApart(g: seq<Byte>, fold: bool)
  {
    exists x: nat, y: nat :: HasNibble(g, x) && HasNibble(g, y) && Fold(fold, x) + 3 < Fold(fold, y)
  }

  /** The operation chosen and the nibble it leaves. */
  ghost predicate IsChoice(g: seq<Byte>, o: Outcome)
  {
    match o
    case Untouched => !IsMixed(g) || (!IsMasked(g) && FarApart(g, Folds(g)))
    case Rewritten(Mask, x) => IsMixed(g) && OnlyNibbles(g, 0, x)
    case Rewritten(Complement, v) => !IsMasked(g) && Folds(g) && v < 7 && OnlyNibbles(g, v, 15 - v)
    case Rewritten(Delta(wide), v) =>
      !IsMasked(g) && !Folds(g) && exists d: nat :: 1 <= d <= 3 && wide == (d > 1) && Spans(g, false, v, d)
    case Rewritten(ComplementDelta(wide), v) =>
      !IsMasked(g) && Folds(g) && exists d: nat :: 1 <= d <= 3 && wide == (d > 1) && Spans(g, true, v, d)
  }

  // ----- from the program's tests to the nibbles

  lemma NibbleAt(g: seq<Byte>, i: nat)
    requires i < |g|
    ensures HasNibble(g, Lo(g[i])) && HasNibble(g, Hi(g[i]))
  {
  }

  lemma NibblesAreSmall(g: seq<Byte>, x: nat)
    requires HasNibble(g, x)
    ensures x < 16
  {
  }

  lemma Extremes(g: seq<Byte>)
    requires g != []
    ensures Spans(g, false, MinNibble(g), Spread(g))
  {
    hide Lo, Hi;
    ExtremesAreNibbles(g);
    LeastBelowGreatest(g);
  }

  lemma UniformIsNotMixed(g: seq<Byte>)
    requires g != []
    ensures IsUniform(g) <==> !IsMixed(g)
  {
    hide Lo, Hi;
    NibbleAt(g, 0);
    if !IsMixed(g) {
      forall i | 0 <= i < |g|
        ensures Lo(g[i]) == Lo(g[0]) && Hi(g[i]) == Lo(g[0])
      {
        NibbleAt(g, i);
      }
    }
  }

  lemma MaskableIsMasked(g: seq<Byte>)
    requires g != []
    ensures IsMaskable(g) <==> IsMasked(g)
    ensures IsMaskable(g) ==> OnlyNibbles(g, 0, MaxNibble(g))
  {
    hide Lo, Hi, MaxNibble;
    if IsMaskable(g) {
      assert OnlyNibbles(g, 0, MaxNibble(g));
    }
    if IsMasked(g) {
      var x: nat :| OnlyNibbles(g, 0, x);
      ExtremesAreNibbles(g);
      forall i | 0 <= i < |g|
        ensures (Lo(g[i]) == 0 || Lo(g[i]) == MaxNibble(g)) && (Hi(g[i]) == 0 || Hi(g[i]) == MaxNibble(g))
      {
        NibbleAt(g, i);
      }
    }
  }

  lemma HighAndFolded(g: seq<Byte>)
    ensures AllHigh(g) ==> !Folds(g)
    ensures !AllHigh(g) ==> exists x: nat :: HasNibble(g, x) && x < 7
  {
    hide Lo, Hi;
    if !AllHigh(g) {
      var i :| 0 <= i < |g| && !(Lo(g[i]) >= 7 && Hi(g[i]) >= 7);
      NibbleAt(g, i);
    }
  }

  lemma NibblesOfFolded(g: seq<Byte>, i: nat)
    requires i < |g| && !AllHigh(g)
    ensures var c := Complemented(g); Lo(c[i]) == Folded(Lo(g[i])) && Hi(c[i]) == Folded(Hi(g[i]))
  {
    hide Lo, Hi, Pair;
  }

  /** Folding changes a subgroup exactly if it has a nibble above 7 and one below 7. */
  lemma ChangedIsFolded(g: seq<Byte>)
    ensures Complemented(g) != g <==> Folds(g)
  {
    HighAndFolded(g);
    hide Lo, Hi, AllHigh;
    var c := Complemented(g);
    if Folds(g) {
      var x: nat :| HasNibble(g, x) && x > 7;
      var i: nat :| i < |g| && (Lo(g[i]) == x || Hi(g[i]) == x);
      NibblesOfFolded(g, i);
    } else if !AllHigh(g) {
      forall i: nat | i < |g|
        ensures c[i] == g[i]
      {
        NibbleAt(g, i);
        NibblesOfFolded(g, i);
        NibblesDetermine(c[i], g[i]);
      }
    }
  }

  lemma FoldedNibble(g: seq<Byte>, x: nat)
    requires Folds(g) && HasNibble(g, x)
    ensures HasNibble(Complemented(g), Fold(true, x))
  {
    HighAndFolded(g);
    NibblesAreSmall(g, x);
    hide Lo, Hi, AllHigh, Complemented;
    var i: nat :| i < |g| && (Lo(g[i]) == x || Hi(g[i]) == x);
    NibblesOfFolded(g, i);
    NibbleAt(Complemented(g), i);
  }

  lemma UnfoldedNibble(g: seq<Byte>, y: nat) returns (x: nat)
    requires Folds(g) && HasNibble(Complemented(g), y)
    ensures HasNibble(g, x) && Fold(true, x) == y
  {
    HighAndFolded(g);
    hide AllHigh, Complemented;
    var c := Complemented(g);
    var i: nat :| i < |c| && (Lo(c[i]) == y || Hi(c[i]) == y);
    NibblesOfFolded(g, i);
    NibbleAt(g, i);
    x := if Lo(c[i]) == y then Lo(g[i]) else Hi(g[i]);
  }

  /** What the folded bytes span is what the nibbles span when folded. */
  lemma SpanOfFolded(g: seq<Byte>)
    requires g != []
    ensures var c := Complemented(g); Spans(g, Folds(g), MinNibble(c), Spread(c))
  {
    ChangedIsFolded(g);
    var c := Complemented(g);
    Extremes(c);
    if Folds(g) {
      hide Complemented, HasNibble, Folds, Fold, MinNibble, Spread, Lo, Hi;
      SpanComesBack(g, MinNibble(c), Spread(c));
    }
  }

  lemma SpanComesBack(g: seq<Byte>, lo: nat, d: nat)
    requires Folds(g) && Spans(Complemented(g), false, lo, d)
    ensures Spans(g, true, lo, d)
  {
    hide HasNibble, Complemented, Folds;
    var c := Complemented(g);
    forall x: nat | HasNibble(g, x)
      ensures lo <= Fold(true, x) <= lo + d
    {
      FoldedNibble(g, x);
    }
    var y: nat :| HasNibble(c, y) && y == lo;
    var z: nat :| HasNibble(c, z) && z == lo + d;
    var _ := UnfoldedNibble(g, y);
    var _ := UnfoldedNibble(g, z);
  }

  lemma MixedSpan(g: seq<Byte>, fold: bool, lo: nat, d: nat)
    requires Spans(g, fold, lo, d)
    ensures FarApart(g, fold) <==> d > 3
    ensures !fold ==> (d > 0 <==> IsMixed(g))
    ensures fold && d == 0 ==> OnlyNibbles(g, lo, 15 - lo)
    ensures fold && Folds(g) ==> lo < 7
  {
    hide HasNibble;
    assert forall x: nat :: HasNibble(g, x) ==> lo <= Fold(fold, x) <= lo + d;
  }

  /** The program's choice, from what its tests compute. */
  function ByTests(uniform: bool, maskable: bool, max: nat, folded: bool, lo: nat, d: nat): Outcome
  {
    if uniform then Untouched
    else if maskable then Rewritten(Mask, max)
    else if folded && d == 0 then Rewritten(Complement, lo)
    else if 1 <= d <= 3 then Rewritten(if folded then ComplementDelta(d > 1) else Delta(d > 1), lo)
    else Untouched
  }

  lemma ChoiceByTests(g: seq<Byte>, max: nat, lo: nat, d: nat)
    requires IsMasked(g) ==> OnlyNibbles(g, 0, max)
    requires Spans(g, Folds(g), lo, d) && (FarApart(g, Folds(g)) <==> d > 3)
    requires !Folds(g) ==> (d > 0 <==> IsMixed(g))
    requires Folds(g) ==> lo < 7 && (d == 0 ==> OnlyNibbles(g, lo, 15 - lo))
    ensures IsChoice(g, ByTests(!IsMixed(g), IsMasked(g), max, Folds(g), lo, d))
  {
    hide IsMixed, IsMasked, Folds, Spans, OnlyNibbles, FarApart;
  }

  lemma TestsTell(g: seq<Byte>)
    requires g != []
    ensures IsChoice(g, OutcomeOf(g))
    ensures IsMasked(g) ==> OnlyNibbles(g, 0, MaxNibble(g))
    ensures var c := Complemented(g);
            && Spans(g, Folds(g), MinNibble(c), Spread(c)) && (FarApart(g, Folds(g)) <==> Spread(c) > 3)
            && (!Folds(g) ==> (Spread(c) > 0 <==> IsMixed(g)))
            && (Folds(g) ==> MinNibble(c) < 7 && (Spread(c) == 0 ==> OnlyNibbles(g, MinNibble(c), 15 - MinNibble(c))))
  {
    hide IsChoice, IsUniform, IsMixed, IsMaskable, IsMasked, Folds, Complemented, MinNibble, MaxNibble, Spread, Spans,
         OnlyNibbles, FarApart;
    UniformIsNotMixed(g);
    MaskableIsMasked(g);
    ChangedIsFolded(g);
    SpanOfFolded(g);
    var c := Complemented(g);
    MixedSpan(g, Folds(g), MinNibble(c), Spread(c));
    ChoiceByTests(g, MaxNibble(g), MinNibble(c), Spread(c));
  }

  lemma SpanIsUnique(g: seq<Byte>, fold: bool, lo: nat, d: nat, m: nat, e: nat)
    requires Spans(g, fold, lo, d) && Spans(g, fold, m, e)
    ensures lo == m && d == e
  {
    hide HasNibble;
    var x: nat :| HasNibble(g, x) && Fold(fold, x) == lo;
    var y: nat :| HasNibble(g, y) && Fold(fold, y) == m;
    var z: nat :| HasNibble(g, z) && Fold(fold, z) == lo + d;
    var w: nat :| HasNibble(g, w) && Fold(fold, w) == m + e;
  }

  lemma MaskIsUnique(g: seq<Byte>, x: nat, y: nat)
    requires IsMixed(g) && OnlyNibbles(g, 0, x)
    ensures IsMasked(g) && (OnlyNibbles(g, 0, y) ==> x == y)
  {
    hide HasNibble;
  }

  lemma ComplementIsUnique(g: seq<Byte>, v: nat, w: nat)
    requires Folds(g) && v < 7 && w < 7 && OnlyNibbles(g, v, 15 - v) && OnlyNibbles(g, w, 15 - w)
    ensures v == w && !FarApart(g, true)
    ensures forall lo: nat, d: nat :: Spans(g, true, lo, d) ==> d == 0
  {
    hide HasNibble;
  }

  lemma FoldedAreMixed(g: seq<Byte>)
    requires Folds(g)
    ensures IsMixed(g)
  {
    hide HasNibble;
  }

  lemma ChoiceIsByTests(g: seq<Byte>, o: Outcome, max: nat, lo: nat, d: nat)
    requires IsChoice(g, o) && (IsMasked(g) ==> OnlyNibbles(g, 0, max))
    requires Spans(g, Folds(g), lo, d) && (FarApart(g, Folds(g)) <==> d > 3)
    requires !Folds(g) ==> (d > 0 <==> IsMixed(g))
    requires Folds(g) ==> lo < 7 && (d == 0 ==> OnlyNibbles(g, lo, 15 - lo))
    ensures o == ByTests(!IsMixed(g), IsMasked(g), max, Folds(g), lo, d)
  {
    hide HasNibble, IsMixed, IsMasked, Folds, Spans, OnlyNibbles, FarApart;
    if Folds(g) {
      FoldedAreMixed(g);
    }
    match o
    case Untouched =>
    case Rewritten(Mask, x) =>
      MaskIsUnique(g, x, max);
    case Rewritten(Complement, v) =>
      ComplementIsUnique(g, v, v);
      ComplementIsUnique(g, v, lo);
    case Rewritten(_, v) =>
      var e: nat :| 1 <= e <= 3 && Spans(g, Folds(g), v, e)
                    && o.tag == if Folds(g) then ComplementDelta(e > 1) else Delta(e > 1);
      SpanIsUnique(g, Folds(g), lo, d, v, e);
  }

  /** The outcome is the choice in terms of the nibbles, and nothing else is. */
  lemma ChosenByNibbles(g: seq<Byte>, o: Outcome)
    requires g != []
    ensures OutcomeOf(g) == o <==> IsChoice(g, o)
  {
    hide OutcomeOf, IsChoice, IsMixed, IsMasked, Folds, Spans, OnlyNibbles, FarApart, Complemented, MinNibble,
         MaxNibble, Spread, ByTests, IsMaskable;
    TestsTell(g);
    if IsChoice(g, o) {
      var c := Complemented(g);
      ChoiceIsByTests(g, o, MaxNibble(g), MinNibble(c), Spread(c));
      ChoiceIsByTests(g, OutcomeOf(g), MaxNibble(g), MinNibble(c), Spread(c));
    }
  }
}
