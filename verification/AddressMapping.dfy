/** The address translation object: masks are read from an option or a table, widened for the chip
    bits, and then used to pick addresses apart bit by bit. */
module AddressMapping {
  import opened Bits
  import opened Options
  import opened AddrDec

  /** Extracts the bits of val at the mask's positions. */
  method PackBits(mask: set<nat>, val: nat, high: nat, low: nat) returns (result: nat)
    requires low <= high
    ensures result == Pack(mask, val, low, high)
  {
    var pos := 0;
    result := 0;
    for i := low to high
      invariant result < Pow2(pos)
      invariant result + Pow2(pos) * Pack(mask, val, i, high) == Pack(mask, val, low, high)
    {
      if i in mask {
        NextPosition(result, Bit(val, i), pos, Pack(mask, val, i + 1, high));
        // the bit goes above all those packed before
        result := result + Bit(val, i) * Pow2(pos);
        pos := pos + 1;
      }
    }
  }

  lemma NextPosition(result: nat, bit: nat, pos: nat, rest: nat)
    requires result < Pow2(pos) && bit <= 1
    ensures result + bit * Pow2(pos) < Pow2(pos + 1)
    ensures result + bit * Pow2(pos) + Pow2(pos + 1) * rest == result + Pow2(pos) * (bit + 2 * rest)
  {
    assert Pow2(pos + 1) == 2 * Pow2(pos);
    Spread(Pow2(pos), bit, rest);
  }

  lemma Spread(p: nat, bit: nat, rest: nat)
    ensures p * (bit + 2 * rest) == bit * p + 2 * p * rest
  {
  }

  /** The limits of a mask: its lowest position and one above its highest. */
  method GetMaskLimit(mask: set<nat>) returns (high: nat, low: nat)
    ensures low < high <= ADDRESS_BITS
    ensures forall i: nat :: i in mask && i < ADDRESS_BITS ==> low <= i < high
    ensures (exists i: nat :: i in mask && i < ADDRESS_BITS) ==> low in mask && high - 1 in mask
  {
    high, low := ADDRESS_BITS, 0;
    var lowFound := false;
    for i := 0 to ADDRESS_BITS
      invariant !lowFound ==> high == ADDRESS_BITS && low == 0 && forall k: nat :: k in mask ==> k >= i
      invariant lowFound ==> low < high <= i && low in mask && high - 1 in mask
      invariant lowFound ==> forall k: nat :: k in mask && k < i ==> low <= k < high
    {
      if i in mask {
        if lowFound {
          high := i + 1;
        } else {
          high, low, lowFound := i + 1, i, true;
        }
      }
    }
  }

  /** One step of the search for the highest bit: the upper half of x is taken if it has a bit. */
  method UpperHalf(x: nat, shift: nat, p: nat) returns (rest: nat, added: nat)
    requires p == Pow2(shift) && x < p * p
    ensures Log2(x) == added + Log2(rest) && rest < p
  {
    var q := Quotient(x, p);
    if q != 0 {
      HalfTaken(x, shift, p, q);
      rest, added := q, shift;
    } else {
      NoQuotient(x, p);
      rest, added := x, 0;
    }
  }

  lemma HalfTaken(x: nat, shift: nat, p: nat, q: nat)
    requires p == Pow2(shift) && q == x / p && q != 0 && x < p * p
    ensures Log2(x) == shift + Log2(q) && q < p
  {
    QuotientPositive(x, p);
    QuotientBelow(x, p);
    Log2Shifted(x, shift);
  }

  lemma QuotientBelow(x: nat, p: nat)
    requires p > 0 && x < p * p
    ensures x / p < p
  {
    QuotientAndRemainder(x, p);
    if x / p >= p {
      Grows(p, p, x / p);
      assert false;
    }
  }

  lemma QuotientPositive(x: nat, p: nat)
    requires p > 0 && x / p != 0
    ensures x >= p
  {
    QuotientAndRemainder(x, p);
    AtLeastOne(x / p, p);
  }

  lemma AtLeastOne(q: nat, p: nat)
    requires q != 0
    ensures q * p >= p
  {
    Grows(p, 1, q);
  }

  lemma NoQuotient(x: nat, p: nat)
    requires p > 0 && x / p == 0
    ensures x < p
  {
    QuotientAndRemainder(x, p);
  }

  /** The position of the highest bit of a 32-bit number, 0 for 0. */
  method LogB2(v: nat) returns (r: nat)
    requires v < WORD
    ensures r == Log2(v)
  {
    Pow2Of32();
    hide Pow2;
    var x, r4, r3, r2, r1, r0;
    x, r4 := UpperHalf(v, 16, 0x1_0000);
    x, r3 := UpperHalf(x, 8, 0x100);
    x, r2 := UpperHalf(x, 4, 0x10);
    assert Log2(v) == r4 + r3 + r2 + Log2(x) && x < 16;
    SmallPowers();
    x, r1 := UpperHalf(x, 2, 4);
    x, r0 := UpperHalf(x, 1, 2);
    // the shifts are different bits of the result
    r := r4 + r3 + r2 + r1 + r0;
  }

  method PowerOfTwo(y: nat) returns (r: nat)
    ensures r == Pow2(y)
  {
    r := 1;
    for i := 0 to y
      invariant r == Pow2(i)
    {
      r := r * 2;
    }
  }

  // ----- an explicit mapping: one letter for each of the 64 bits, the highest first

  predicate IsIgnored(c: char)
  {
    !(c in "DdBbRrCcSs0")
  }

  ghost function Letters(s: string): string
  {
    if s == [] then []
    else Letters(s[..|s| - 1]) + if IsIgnored(s[|s| - 1]) then [] else [s[|s| - 1]]
  }

  ghost predicate IsLetterAt(letters: string, i: nat, wanted: string)
  {
    i < ADDRESS_BITS && ADDRESS_BITS - 1 - i < |letters| && letters[ADDRESS_BITS - 1 - i] in wanted
  }

  /** The positions whose letter is one of the given ones. */
  ghost function Positions(letters: string, wanted: string): set<nat>
  {
    set i: nat | i < ADDRESS_BITS && IsLetterAt(letters, i, wanted)
  }

  ghost function MasksOf(letters: string): Masks
  {
    Masks(Positions(letters, "Dd"), Positions(letters, "Bb"), Positions(letters, "Rr"), Positions(letters, "CcSs"),
          Positions(letters, "Ss"))
  }

  lemma OneLetterMore(letters: string, c: char, wanted: string)
    requires |letters| < ADDRESS_BITS
    ensures Positions(letters + [c], wanted)
         == Positions(letters, wanted) + if c in wanted then {ADDRESS_BITS - 1 - |letters|} else {}
  {
  }

  lemma MasksWithOneMore(letters: string, c: char)
    requires |letters| < ADDRESS_BITS
    ensures var m, bit := MasksOf(letters), {ADDRESS_BITS - 1 - |letters|};
            MasksOf(letters + [c])
            == Masks(m.chip + if c in "Dd" then bit else {}, m.bk + if c in "Bb" then bit else {},
                     m.row + if c in "Rr" then bit else {}, m.col + if c in "CcSs" then bit else {},
                     m.burst + if c in "Ss" then bit else {})
  {
    hide Positions;
    OneLetterMore(letters, c, "Dd");
    OneLetterMore(letters, c, "Bb");
    OneLetterMore(letters, c, "Rr");
    OneLetterMore(letters, c, "CcSs");
    OneLetterMore(letters, c, "Ss");
  }

  ghost predicate HasChipLetter(letters: string)
  {
    exists i :: 0 <= i < |letters| && letters[i] in "Dd"
  }

  /** None where the program stops: not 64 letters, or chip letters beside a chip start. */
  method ParseMapping(mapping: string, hasStart: bool) returns (masks: Option<Masks>)
    ensures masks == if |Letters(mapping)| == ADDRESS_BITS && !(hasStart && HasChipLetter(Letters(mapping)))
                     then Some(MasksOf(Letters(mapping))) else None
  {
    hide Letters, HasChipLetter, IsIgnored;
    var m := Masks({}, {}, {}, {}, {});
    var ofs := 63;
    NoPositions();
    assert mapping[..0] == "";
    for k := 0 to |mapping|
      invariant |Letters(mapping[..k])| <= ADDRESS_BITS && ofs == 63 - |Letters(mapping[..k])|
      invariant m == MasksOf(Letters(mapping[..k]))
      invariant hasStart ==> !HasChipLetter(Letters(mapping[..k]))
    {
      hide MasksOf;
      ghost var before := Letters(mapping[..k]);
      var c := mapping[k];
      LettersUpTo(mapping, k);
      if !IsIgnored(c) {
        ChipLetterAt(before, c);
        LettersArePrefix(mapping, k + 1);
        if ofs < 0 {
          return None;
        }
        if hasStart && c in "Dd" {
          MoreChipLetters(before + [c], Letters(mapping));
          return None;
        }
        MasksWithOneMore(before, c);
        m := WithBit(m, c, ofs);
        ofs := ofs - 1;
      }
    }
    assert mapping[..|mapping|] == mapping;
    masks := if ofs != -1 then None else Some(m);
  }

  lemma LettersUpTo(mapping: string, k: nat)
    requires k < |mapping|
    ensures Letters(mapping[..k + 1])
         == if IsIgnored(mapping[k]) then Letters(mapping[..k]) else Letters(mapping[..k]) + [mapping[k]]
  {
    assert mapping[..k + 1][..k] == mapping[..k];
  }

  lemma ChipLetterAt(before: string, c: char)
    ensures HasChipLetter(before + [c]) <==> HasChipLetter(before) || c in "Dd"
  {
    var after := before + [c];
    if HasChipLetter(before) {
      var i :| 0 <= i < |before| && before[i] in "Dd";
      assert after[i] in "Dd";
    }
    if c in "Dd" {
      assert after[|before|] in "Dd";
    }
  }

  lemma MoreChipLetters(a: string, b: string)
    requires a <= b && HasChipLetter(a)
    ensures HasChipLetter(b)
  {
    var i :| 0 <= i < |a| && a[i] in "Dd";
    assert b[i] in "Dd";
  }

  lemma NoPositions()
    ensures Letters("") == "" && MasksOf("") == Masks({}, {}, {}, {}, {}) && !HasChipLetter("")
  {
  }

  lemma {:induction false} LettersArePrefix(s: string, k: nat)
    requires k <= |s|
    ensures Letters(s[..k]) <= Letters(s)
    decreases |s|
  {
    if k == |s| {
      assert s[..k] == s;
    } else {
      assert s[..|s| - 1][..k] == s[..k];
      LettersArePrefix(s[..|s| - 1], k);
    }
  }

  method WithBit(m: Masks, c: char, ofs: nat) returns (r: Masks)
    requires !IsIgnored(c)
    ensures r == Masks(m.chip + if c in "Dd" then {ofs} else {}, m.bk + if c in "Bb" then {ofs} else {},
                       m.row + if c in "Rr" then {ofs} else {}, m.col + if c in "CcSs" then {ofs} else {},
                       m.burst + if c in "Ss" then {ofs} else {})
  {
    r := m;
    if c == 'D' || c == 'd' {
      r := r.(chip := r.chip + {ofs});
    } else if c == 'B' || c == 'b' {
      r := r.(bk := r.bk + {ofs});
    } else if c == 'R' || c == 'r' {
      r := r.(row := r.row + {ofs});
    } else if c == 'C' || c == 'c' {
      r := r.(col := r.col + {ofs});
    } else if c == 'S' || c == 's' {
      r := r.(burst := r.burst + {ofs}, col := r.col + {ofs});
    }
  }

  // ----- the tables of masks that come with a mode number

  datatype Table = Table(chipStart: nat, bk: set<nat>, row: set<nat>, col: set<nat>)

  function TableOf(mode: int): Option<Table>
  {
    var newBk, newRow, newCol := BitsFrom(11, 13), BitsFrom(13, 27), BitsFrom(0, 11);
    match mode
    case 0 => Some(Table(10, BitsFrom(8, 10), newRow, BitsFrom(0, 8) + BitsFrom(10, 13)))
    case 1 => Some(Table(13, newBk, newRow, newCol))
    case 2 => Some(Table(11, newBk, newRow, newCol))
    case 3 => Some(Table(11, newBk, BitsFrom(13, 28), newCol))
    case 14 => Some(Table(14, newBk, newRow, newCol))
    case 15 => Some(Table(15, newBk, newRow, newCol))
    case 16 => Some(Table(16, newBk, newRow, newCol))
    case 6 => Some(Table(6, newBk, newRow, newCol))
    case 5 => Some(Table(5, newBk, newRow, newCol))
    case 100 => Some(Table(1, BitsFrom(0, 2), newRow, BitsFrom(2, 13)))
    case 103 => Some(Table(3, BitsFrom(0, 2), newRow, BitsFrom(2, 13)))
    case 106 => Some(Table(6, newBk, newRow, newCol))
    case 160 => Some(Table(6, BitsFrom(8, 10), newRow, BitsFrom(0, 8) + BitsFrom(10, 13)))
    case _ => None
  }

  /** The address mapping option: where the chip bits start, if it says so, and a letter for each bit. */
  datatype Mapping = Mapping(dramidStart: Option<nat>, letters: string)

  function StartMasks(): Masks
  {
    Masks(BitsFrom(10, 13), BitsFrom(8, 10), BitsFrom(16, 28), BitsFrom(0, 8) + BitsFrom(13, 16), BitsFrom(0, 4))
  }

  /** Makes room for n bits at position start; what is pushed beyond the word is lost. */
  function Widened(mask: set<nat>, start: nat, n: nat): set<nat>
  {
    (set b | b in mask && b >= start && b + n < ADDRESS_BITS :: b + n) + (set b | b in mask && b < start)
  }

  lemma WidenedAvoidsChip(bk: set<nat>, start: nat, n: nat)
    ensures Widened(bk, start, n) !! BitsFrom(start, start + n)
  {
  }

  /** Masks and chip start before the chip bits are inserted; a chip start of -1 means that the
      mapping places the chip bits itself. */
  ghost function ChosenStart(mode: int, mapping: Option<Mapping>): (start: int)
    ensures start >= -1
  {
    if mapping.Some? then (if mapping.value.dramidStart.Some? then mapping.value.dramidStart.value else -1)
    else if TableOf(mode).Some? then TableOf(mode).value.chipStart else 10
  }

  ghost function ChosenMasks(mode: int, mapping: Option<Mapping>): Masks
  {
    if mapping.Some? then MasksOf(Letters(mapping.value.letters))
    else if TableOf(mode).Some? then
      var t := TableOf(mode).value;
      Masks({}, t.bk, t.row, t.col, StartMasks().burst)
    else StartMasks()
  }

  function WithChipBits(m: Masks, start: nat, n: nat): Masks
  {
    m.(chip := m.chip + BitsFrom(start, start + n), bk := Widened(m.bk, start, n), row := Widened(m.row, start, n),
       col := Widened(m.col, start, n))
  }

  ghost predicate MappingIsGood(mapping: Option<Mapping>)
  {
    mapping.Some? ==>
      var letters := Letters(mapping.value.letters);
      |letters| == ADDRESS_BITS && !(mapping.value.dramidStart.Some? && HasChipLetter(letters))
  }

  /** The decoder that a mode, a mapping and the numbers of channels and sub-partitions give. */
  ghost function DecoderOf(mode: int, mapping: Option<Mapping>, n: nat, nSub: nat): Decoder
  {
    var start, gap := ChosenStart(mode, mapping), !IsPow2(n);
    var chosen := ChosenMasks(mode, mapping);
    var masks := if start >= 0 && !gap then WithChipBits(chosen, start, Log2(n)) else chosen;
    Decoder(start, gap, n, nSub, masks, Lowest(masks.bk, 0, ADDRESS_BITS, Log2(nSub)))
  }

  lemma MappedMasksAreDisjoint(letters: string)
    ensures MasksOf(letters).chip !! MasksOf(letters).bk
    ensures !HasChipLetter(letters) ==> MasksOf(letters).chip == {}
  {
    if i :| i in MasksOf(letters).chip {
      assert letters[ADDRESS_BITS - 1 - i] in "Dd";
      assert HasChipLetter(letters);
    }
  }

  lemma ChosenMasksAreDisjoint(mode: int, mapping: Option<Mapping>)
    requires MappingIsGood(mapping)
    ensures var m, start := ChosenMasks(mode, mapping), ChosenStart(mode, mapping);
            m.chip !! m.bk && (start >= 0 ==> m.chip == {} || forall b :: b in m.bk ==> b < start && b !in m.chip)
  {
    if mapping.Some? {
      MappedMasksAreDisjoint(Letters(mapping.value.letters));
    }
  }

  lemma ChipBitsStayApart(m: Masks, start: nat, n: nat)
    requires m.chip == {} || forall b :: b in m.bk ==> b < start && b !in m.chip
    ensures WithChipBits(m, start, n).chip !! WithChipBits(m, start, n).bk
  {
    WidenedAvoidsChip(m.bk, start, n);
  }

  /** Whatever init accepts is a valid decoder, so the pair it decodes into aliases only on wrap. */
  lemma InitialisedIsValid(mode: int, mapping: Option<Mapping>, n: nat, nSub: nat)
    requires 1 <= n < WORD / 2 && IsPow2(nSub) && nSub < WORD / 2 && MappingIsGood(mapping)
    requires !IsPow2(n) ==> 0 <= ChosenStart(mode, mapping) <= 30
    ensures DecoderOf(mode, mapping, n, nSub).Valid()
    ensures NeverAliases(DecoderOf(mode, mapping, n, nSub))
            <==> DecoderOf(mode, mapping, n, nSub).Chips() * nSub <= WORD
  {
    hide Lowest, Log2, ChosenMasks, WithChipBits;
    var start, m := ChosenStart(mode, mapping), ChosenMasks(mode, mapping);
    ChosenMasksAreDisjoint(mode, mapping);
    if start >= 0 {
      ChipBitsStayApart(m, start, Log2(n));
    }
    AliasesOnlyOnWrap(DecoderOf(mode, mapping, n, nSub));
  }

  /** Three times 2^29 channels of four sub-partitions each, a configuration that init accepts: some
      addresses share both numbers. */
  lemma ManyChannelsAlias()
    ensures var n := 0x6000_0000;
            && MappingIsGood(None) && 0 <= ChosenStart(0, None) <= 30 && IsPow2(4) && !IsPow2(n)
            && DecoderOf(0, None, n, 4).Valid() && !NeverAliases(DecoderOf(0, None, n, 4))
  {
    hide Log2, DecoderOf;
    var n := 0x6000_0000;
    SmallPowers();
    Log2OfPower(2);
    Pow2Of32();
    assert Pow2(32) == 2 * Pow2(31) && Pow2(31) == 2 * Pow2(30);
    BetweenPowers(n, 30);
    InitialisedIsValid(0, None, n, 4);
    assert DecoderOf(0, None, n, 4).Chips() == n by {
      ManyChannelsHaveAGap(n);
    }
  }

  lemma ManyChannelsHaveAGap(n: nat)
    requires !IsPow2(n) && n > 0
    ensures DecoderOf(0, None, n, 4).Chips() == n
  {
    hide Log2, Lowest;
  }

  lemma BetweenPowers(n: nat, k: nat)
    requires Pow2(k) < n < Pow2(k + 1)
    ensures !IsPow2(n)
  {
    hide Log2, Pow2;
    if Log2(n) < k {
      Pow2Grows(Log2(n), k);
    } else if Log2(n) > k + 1 {
      Pow2Grows(k + 1, Log2(n));
    }
  }

  datatype Limit = Limit(high: nat, low: nat)

  predicate LimitOf(l: Limit, mask: set<nat>)
  {
    l.low <= l.high <= ADDRESS_BITS && forall i: nat :: i in mask && i < ADDRESS_BITS ==> l.low <= i < l.high
  }

  class LinearToRaw {
    var chipStart: int
    var masks: Masks
    var chipLimit: Limit
    var bkLimit: Limit
    var rowLimit: Limit
    var colLimit: Limit
    var burstLimit: Limit
    var subPartitionIdMask: set<nat>
    var gap: nat
    var nChannel: nat
    var nSub: nat

    ghost function View(): Decoder
      reads this
    {
      Decoder(chipStart, gap != 0, nChannel, nSub, masks, subPartitionIdMask)
    }

    ghost predicate Valid()
      reads this
    {
      && View().Valid()
      && LimitOf(chipLimit, masks.chip) && LimitOf(bkLimit, masks.bk) && LimitOf(rowLimit, masks.row)
      && LimitOf(colLimit, masks.col) && LimitOf(burstLimit, masks.burst)
    }

    constructor ()
      ensures chipStart == 10 && masks == StartMasks()
    {
      chipStart, masks := 10, StartMasks();
      chipLimit, bkLimit, rowLimit, colLimit, burstLimit := Limit(64, 0), Limit(64, 0), Limit(64, 0), Limit(64, 0),
        Limit(64, 0);
      subPartitionIdMask, gap, nChannel, nSub := {}, 0, 0, 0;
    }

    /** Called once on a new object.  False where the program stops on a bad mapping or number. */
    method Init(mode: int, mapping: Option<Mapping>, n: nat, subs: nat) returns (ok: bool)
      requires chipStart == 10 && masks == StartMasks() && 1 <= n < WORD / 2 && 1 <= subs < WORD / 2
      requires if IsPow2(n) then ChosenStart(mode, mapping) < ADDRESS_BITS
               && ChosenStart(mode, mapping) + Log2(n) <= ADDRESS_BITS
               else ChosenStart(mode, mapping) <= 30
      modifies this
      ensures ok <==> MappingIsGood(mapping) && (ChosenStart(mode, mapping) < 0 ==> IsPow2(n)) && IsPow2(subs)
      ensures ok ==> Valid() && View() == DecoderOf(mode, mapping, n, subs)
    {
      hide Lowest, DecoderOf, Decoder.Valid, MappingIsGood, ChosenMasks, ChosenStart, WithChipBits, StartMasks,
           LimitOf, Log2, Pow2;
      var nchipbits := LogB2(n);
      nChannel, nSub := n, subs;
      var power := PowerOfTwo(nchipbits);
      Log2IsFloor(n);
      gap := n - power;
      var good := ChooseMasks(mode, mapping);
      if !good {
        return false;
      }
      if chipStart != -1 {
        if gap == 0 {
          InsertChipBits(chipStart, nchipbits);
        }
      } else if gap != 0 {
        return false;
      }
      var log := LogB2(subs);
      var subPower := PowerOfTwo(log);
      if subPower != subs {
        return false;
      }
      FindLimits();
      FindSubPartitionMask(log);
      assert View() == DecoderOf(mode, mapping, n, subs) by {
        DecoderParts(mode, mapping, n, subs);
      }
      InitialisedIsValid(mode, mapping, n, subs);
      return true;
    }

    static lemma DecoderParts(mode: int, mapping: Option<Mapping>, n: nat, subs: nat)
      ensures var start, chosen, d := ChosenStart(mode, mapping), ChosenMasks(mode, mapping),
              DecoderOf(mode, mapping, n, subs);
              && d.chipStart == start && d.gap == !IsPow2(n) && d.nChannel == n && d.nSub == subs
              && d.masks == (if start >= 0 && IsPow2(n) then WithChipBits(chosen, start, Log2(n)) else chosen)
              && d.sub == Lowest(d.masks.bk, 0, ADDRESS_BITS, Log2(subs))
    {
    }

    /** The masks of the mode, or those of the mapping if there is one. */
    method ChooseMasks(mode: int, mapping: Option<Mapping>) returns (good: bool)
      requires chipStart == 10 && masks == StartMasks()
      modifies this`chipStart, this`masks
      ensures good <==> MappingIsGood(mapping)
      ensures good ==> chipStart == ChosenStart(mode, mapping) && masks == ChosenMasks(mode, mapping)
    {
      hide MasksOf, Letters, HasChipLetter, StartMasks, TableOf;
      var table := TableOf(mode);
      if table.Some? {
        chipStart := table.value.chipStart;
        masks := masks.(chip := {}, bk := table.value.bk, row := table.value.row, col := table.value.col);
      }
      if mapping.Some? {
        var start := mapping.value.dramidStart;
        chipStart := if start.Some? then start.value else -1;
        var parsed := ParseMapping(mapping.value.letters, start.Some?);
        if parsed.None? {
          return false;
        }
        masks := parsed.value;
      }
      return true;
    }

    method InsertChipBits(start: nat, n: nat)
      modifies this`masks
      ensures masks == WithChipBits(old(masks), start, n)
    {
      masks := masks.(bk := Widened(masks.bk, start, n), row := Widened(masks.row, start, n),
                      col := Widened(masks.col, start, n));
      ghost var widened := masks;
      for i := start to start + n
        invariant masks == widened.(chip := masks.chip)
        invariant masks.chip == widened.chip + BitsFrom(start, i)
      {
        masks := masks.(chip := masks.chip + {i});
      }
    }

    method FindLimits()
      modifies this`chipLimit, this`bkLimit, this`rowLimit, this`colLimit, this`burstLimit
      ensures LimitOf(chipLimit, masks.chip) && LimitOf(bkLimit, masks.bk) && LimitOf(rowLimit, masks.row)
      ensures LimitOf(colLimit, masks.col) && LimitOf(burstLimit, masks.burst)
    {
      var high, low := GetMaskLimit(masks.chip);
      chipLimit := Limit(high, low);
      high, low := GetMaskLimit(masks.bk);
      bkLimit := Limit(high, low);
      high, low := GetMaskLimit(masks.row);
      rowLimit := Limit(high, low);
      high, low := GetMaskLimit(masks.col);
      colLimit := Limit(high, low);
      high, low := GetMaskLimit(masks.burst);
      burstLimit := Limit(high, low);
    }

    /** The lowest log bits of the bank mask make the sub-partition id. */
    method FindSubPartitionMask(log: nat)
      requires LimitOf(bkLimit, masks.bk) && nSub == Pow2(log)
      modifies this`subPartitionIdMask
      ensures subPartitionIdMask == Lowest(masks.bk, 0, ADDRESS_BITS, log)
    {
      LowestWithin(masks.bk, bkLimit.low, bkLimit.high, 0, ADDRESS_BITS, log);
      subPartitionIdMask := {};
      if nSub > 1 {
        var pos, i := 0, bkLimit.low;
        while i < bkLimit.high
          invariant bkLimit.low <= i <= bkLimit.high && pos < log
          invariant Lowest(masks.bk, bkLimit.low, bkLimit.high, log)
                    == subPartitionIdMask + Lowest(masks.bk, i, bkLimit.high, log - pos)
        {
          if i in masks.bk {
            subPartitionIdMask := subPartitionIdMask + {i};
            pos := pos + 1;
            if pos >= log {
              break;
            }
          }
          i := i + 1;
        }
      }
    }

    method Field(mask: set<nat>, limit: Limit, val: nat) returns (r: nat)
      requires LimitOf(limit, mask)
      ensures r == Pack(mask, val, 0, ADDRESS_BITS)
    {
      PackWithin(mask, val, limit.low, limit.high, 0, ADDRESS_BITS);
      r := PackBits(mask, val, limit.high, limit.low);
    }

    /** Every part of the address; the struct's members are 32-bit words. */
    method AddrdecTlx(addr: nat) returns (tlx: Tlx)
      requires Valid()
      ensures tlx == View().Decoded(addr)
    {
      hide Pack;
      var chip, rest;
      if gap == 0 {
        chip := Field(masks.chip, chipLimit, addr);
        rest := addr;
      } else {
        var p := PowerOfTwo(chipStart);
        chip := addr / p % nChannel;
        rest := Divided(addr, p, nChannel);
      }
      var bk := Field(masks.bk, bkLimit, rest);
      var row := Field(masks.row, rowLimit, rest);
      var col := Field(masks.col, colLimit, rest);
      var burst := Field(masks.burst, burstLimit, rest);
      tlx := Tlx(chip % WORD, bk % WORD, row % WORD, col % WORD, burst % WORD, Joined(chip % WORD, bk % WORD, nSub));
      RemainderTwice(chip);
    }

    static lemma RemainderTwice(x: nat)
      ensures x % WORD % WORD == x % WORD
    {
    }

    method GetPartitionAddress(addr: nat) returns (r: nat)
      requires Valid()
      ensures r == View().PartitionAddress(addr)
    {
      hide Pack;
      if gap == 0 {
        r := PackBits(Without(masks.chip + subPartitionIdMask), addr, 64, 0);
      } else {
        var p := PowerOfTwo(chipStart);
        r := PackBits(Without(subPartitionIdMask), Divided(addr, p, nChannel), 64, 0);
      }
    }
  }

  lemma {:induction false} LowestWithin(mask: set<nat>, low: nat, high: nat, start: nat, end: nat, k: nat)
    requires start <= low <= high <= end
    requires forall i :: i in mask && start <= i < end ==> low <= i < high
    ensures Lowest(mask, start, end, k) == Lowest(mask, low, high, k)
    decreases end - start
  {
    if k == 0 {
    } else if start < low {
      LowestWithin(mask, low, high, start + 1, end, k);
    } else if low < high {
      LowestWithin(mask, low + 1, high, start + 1, end, if low in mask then k - 1 else k);
    } else if start < end {
      LowestWithin(mask, end, end, start + 1, end, k);
    }
  }
}
