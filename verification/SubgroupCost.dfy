/** When the operation chosen for a subgroup is charged least among all that keep the subgroup. */
module SubgroupCost {
  import opened Bits
  import opened DataRemap
  import opened SubgroupOps
  import opened SubgroupChoice

  /** Every nibble that occurs comes back from its code, which fits in the operation's width. */
  ghost predicate Applies(g: seq<Byte>, tag: Tag, value: nat)
  {
    value < 16 && forall x: nat :: HasNibble(g, x) ==> x < 16 && IsRecovered(tag, value, x)
  }

  ghost predicate IsCheapest(g: seq<Byte>)
    requires g != []
  {
    forall tag, value: nat :: Applies(g, tag, value) ==> ChargedAtMost(g, tag)
  }

  ghost predicate ChargedAtMost(g: seq<Byte>, tag: Tag)
    requires g != []
  {
    OutcomeOf(g).Rewritten? && Charged(OutcomeOf(g).tag, |g|) <= Charged(tag, |g|)
  }

  ghost predicate Reaches(g: seq<Byte>, lo: nat, hi: nat)
  {
    HasNibble(g, lo) && HasNibble(g, hi) && forall x: nat :: HasNibble(g, x) ==> lo <= x <= hi
  }

  // ----- which operations apply

  /** What an operation needs of one nibble. */
  predicate Suits(tag: Tag, value: nat, x: nat)
  {
    match tag
    case Mask => x == 0 || x == value
    case Complement => Fold(true, x) == value
    case Delta(wide) => value <= x <= value + if wide then 3 else 1
    case ComplementDelta(wide) => value <= Fold(true, x) <= value + if wide then 3 else 1
  }

  lemma RecoveredIfSuits(tag: Tag, value: nat, x: nat)
    requires x < 16 && value < 16
    ensures IsRecovered(tag, value, x) <==> Suits(tag, value, x)
  {
    SmallPowers();
    match tag
    case ComplementDelta(wide) =>
      if Suits(tag, value, x) {
        ComplementDeltaCode(wide, value, x);
      }
    case _ =>
  }

  lemma AppliesIfSuits(g: seq<Byte>, tag: Tag, value: nat)
    requires value < 16
    ensures Applies(g, tag, value) <==> forall x: nat :: HasNibble(g, x) ==> Suits(tag, value, x)
  {
    forall x: nat | HasNibble(g, x)
      ensures x < 16 && (IsRecovered(tag, value, x) <==> Suits(tag, value, x))
    {
      NibblesAreSmall(g, x);
      RecoveredIfSuits(tag, value, x);
    }
  }

  lemma EndsExist(g: seq<Byte>) returns (lo: nat, hi: nat)
    requires g != []
    ensures Reaches(g, lo, hi) && hi < 16
  {
    Extremes(g);
    lo, hi := MinNibble(g), MinNibble(g) + Spread(g);
    hide MinNibble, Spread, HasNibble;
    NibblesAreSmall(g, hi);
  }

  lemma ChargeOfChoice(g: seq<Byte>, o: Outcome, tag: Tag)
    requires g != [] && IsChoice(g, o) && o.Rewritten? && Charged(o.tag, |g|) <= Charged(tag, |g|)
    ensures ChargedAtMost(g, tag)
  {
    hide IsChoice, OutcomeOf, Charged;
    ChosenByNibbles(g, o);
  }

  // ----- each operation that applies against the one chosen

  lemma MaskingIsCheapest(g: seq<Byte>, tag: Tag)
    requires g != [] && IsMixed(g) && IsMasked(g)
    ensures ChargedAtMost(g, tag)
  {
    hide HasNibble, IsMixed, OnlyNibbles, OutcomeOf;
    var x: nat :| OnlyNibbles(g, 0, x);
    ChargeOfChoice(g, Rewritten(Mask, x), tag);
  }

  lemma AgainstComplement(g: seq<Byte>, v: nat)
    requires g != [] && IsMixed(g) && !IsMasked(g) && forall x: nat :: HasNibble(g, x) ==> x < 16
    requires forall x: nat :: HasNibble(g, x) ==> Suits(Complement, v, x)
    ensures if Folds(g) then ChargedAtMost(g, Complement) else Reaches(g, 7, 8)
  {
    hide HasNibble, IsMasked, OutcomeOf, Charged;
    if Folds(g) {
      ChargeOfChoice(g, Rewritten(Complement, v), Complement);
    } else {
      var x: nat, y: nat :| HasNibble(g, x) && HasNibble(g, y) && x != y;
    }
  }

  lemma AgainstDelta(g: seq<Byte>, wide: bool, v: nat, lo: nat, hi: nat)
    requires g != [] && IsMixed(g) && !IsMasked(g) && Reaches(g, lo, hi)
    requires forall x: nat :: HasNibble(g, x) ==> Suits(Delta(wide), v, x)
    ensures ChargedAtMost(g, Delta(wide)) || (Folds(g) && lo == 5 && hi == 8)
  {
    hide HasNibble, IsMasked, OutcomeOf;
    if !Folds(g) {
      assert Spans(g, false, lo, hi - lo);
      ChargeOfChoice(g, Rewritten(Delta(hi - lo > 1), lo), Delta(wide));
    } else if lo != 5 {
      assert wide && lo == 6 && 8 <= hi <= 9;
      NearSix(g, hi);
    }
  }

  lemma NearSix(g: seq<Byte>, hi: nat)
    requires g != [] && !IsMasked(g) && Folds(g) && Reaches(g, 6, hi) && 8 <= hi <= 9
    ensures ChargedAtMost(g, Delta(true))
  {
    hide HasNibble, IsMasked, OutcomeOf;
    if HasNibble(g, 7) || HasNibble(g, 8) {
      assert Spans(g, true, 6, 1);
      ChargeOfChoice(g, Rewritten(ComplementDelta(false), 6), Delta(true));
    } else {
      assert OnlyNibbles(g, 6, 9);
      ChargeOfChoice(g, Rewritten(Complement, 6), Delta(true));
    }
  }

  lemma AgainstComplementDelta(g: seq<Byte>, wide: bool, v: nat, lo: nat, hi: nat)
    requires g != [] && IsMixed(g) && !IsMasked(g) && Reaches(g, lo, hi) && hi < 16
    requires forall x: nat :: HasNibble(g, x) ==> Suits(ComplementDelta(wide), v, x)
    ensures ChargedAtMost(g, ComplementDelta(wide)) || (lo == 7 && hi == 11)
  {
    hide HasNibble, IsMasked, OutcomeOf, MinNibble, Spread, Complemented;
    if Folds(g) {
      hide Folds, Spans, IsMixed;
      SpanOfFolded(g);
      var c := Complemented(g);
      FoldedWithin(g, wide, v, MinNibble(c), Spread(c));
    } else {
      assert lo < hi && (hi <= 7 || lo >= 7);
      if !(lo == 7 && hi == 11) {
        assert Spans(g, false, lo, hi - lo);
        ChargeOfChoice(g, Rewritten(Delta(hi - lo > 1), lo), ComplementDelta(wide));
      }
    }
  }

  lemma FoldedWithin(g: seq<Byte>, wide: bool, v: nat, lo: nat, d: nat)
    requires g != [] && !IsMasked(g) && Folds(g) && Spans(g, true, lo, d)
    requires forall x: nat :: HasNibble(g, x) ==> Suits(ComplementDelta(wide), v, x)
    ensures ChargedAtMost(g, ComplementDelta(wide))
  {
    hide HasNibble, IsMasked, OutcomeOf;
    MixedSpan(g, true, lo, d);
    assert d <= if wide then 3 else 1;
    if d == 0 {
      ChargeOfChoice(g, Rewritten(Complement, lo), ComplementDelta(wide));
    } else {
      ChargeOfChoice(g, Rewritten(ComplementDelta(d > 1), lo), ComplementDelta(wide));
    }
  }

  // ----- the exact condition

  /** The nibbles reach from 5 to 8, are 7 and 8, or reach from 7 to 11. */
  ghost predicate IsOvercharged(g: seq<Byte>)
  {
    Reaches(g, 5, 8) || Reaches(g, 7, 8) || Reaches(g, 7, 11)
  }

  lemma NothingIsCheaper(g: seq<Byte>, tag: Tag, value: nat)
    requires g != [] && IsMixed(g) && !IsOvercharged(g) && Applies(g, tag, value)
    ensures ChargedAtMost(g, tag)
  {
    AppliesIfSuits(g, tag, value);
    hide IsMixed, IsMasked, Folds, HasNibble, Suits, IsRecovered, ChargedAtMost;
    var lo, hi := EndsExist(g);
    if IsMasked(g) {
      MaskingIsCheapest(g, tag);
    } else {
      match tag
      case Mask => MasksAreMasked(g, value);
      case Complement => AgainstComplement(g, value);
      case Delta(wide) => AgainstDelta(g, wide, value, lo, hi);
      case ComplementDelta(wide) => AgainstComplementDelta(g, wide, value, lo, hi);
    }
  }

  lemma MasksAreMasked(g: seq<Byte>, value: nat)
    requires forall x: nat :: HasNibble(g, x) ==> Suits(Mask, value, x)
    ensures IsMasked(g)
  {
    hide HasNibble;
    assert OnlyNibbles(g, 0, value);
  }

  lemma NotMasked(g: seq<Byte>, x: nat, y: nat)
    requires HasNibble(g, x) && HasNibble(g, y) && 0 < x < y
    ensures IsMixed(g) && !IsMasked(g)
  {
    hide HasNibble;
  }

  lemma FromFiveToEight(g: seq<Byte>)
    requires g != [] && Reaches(g, 5, 8)
    ensures IsMixed(g) && !IsCheapest(g)
  {
    hide HasNibble, IsMasked, OutcomeOf, IsRecovered;
    NotMasked(g, 5, 8);
    assert Spans(g, true, 5, 2);
    assert IsChoice(g, Rewritten(ComplementDelta(true), 5));
    ChosenByNibbles(g, Rewritten(ComplementDelta(true), 5));
    AppliesIfSuits(g, Delta(true), 5);
    assert !ChargedAtMost(g, Delta(true));
  }

  lemma SevenAndEight(g: seq<Byte>)
    requires g != [] && Reaches(g, 7, 8)
    ensures IsMixed(g) && !IsCheapest(g)
  {
    hide HasNibble, IsMasked, OutcomeOf, IsRecovered;
    NotMasked(g, 7, 8);
    assert Spans(g, false, 7, 1);
    assert IsChoice(g, Rewritten(Delta(false), 7));
    ChosenByNibbles(g, Rewritten(Delta(false), 7));
    AppliesIfSuits(g, Complement, 7);
    assert !ChargedAtMost(g, Complement);
  }

  lemma FromSevenToEleven(g: seq<Byte>)
    requires g != [] && Reaches(g, 7, 11)
    ensures IsMixed(g) && !IsCheapest(g)
  {
    hide HasNibble, IsMasked, OutcomeOf, IsRecovered;
    NotMasked(g, 7, 11);
    assert IsChoice(g, Untouched);
    ChosenByNibbles(g, Untouched);
    AppliesIfSuits(g, ComplementDelta(true), 4);
    assert !ChargedAtMost(g, ComplementDelta(true));
  }

  /** A subgroup whose nibbles are not all equal is rewritten by the operation charged least among all
      that keep it, exactly unless its nibbles reach from 5 to 8, are 7 and 8, or reach from 7 to 11:
      then one with a delta from unfolded nibbles, a complement, or any at all is missed. */
  lemma CheapestIsChosen(g: seq<Byte>)
    requires g != [] && IsMixed(g)
    ensures IsCheapest(g) <==> !IsOvercharged(g)
  {
    hide IsMixed, ChargedAtMost, Applies, Reaches;
    if Reaches(g, 5, 8) {
      FromFiveToEight(g);
    } else if Reaches(g, 7, 8) {
      SevenAndEight(g);
    } else if Reaches(g, 7, 11) {
      FromSevenToEleven(g);
    } else {
      forall tag, value: nat | Applies(g, tag, value)
        ensures ChargedAtMost(g, tag)
      {
        NothingIsCheaper(g, tag, value);
      }
    }
  }
}
