/** Decoding a memory address into chip, bank, row, column and burst, and into the pair of
    sub-partition and partition address. */
module AddrDec {
  import opened Bits

  const WORD: nat := 0x1_0000_0000
  const ADDRESS_BITS: nat := 64

  datatype Masks = Masks(chip: set<nat>, bk: set<nat>, row: set<nat>, col: set<nat>, burst: set<nat>)

  datatype Tlx = Tlx(chip: nat, bk: nat, row: nat, col: nat, burst: nat, subPartition: nat)

  ghost predicate IsPow2(x: nat)
  {
    x > 0 && x == Pow2(Log2(x))
  }

  // ----- decoding as a function of the address

  datatype Decoder = Decoder(chipStart: int, gap: bool, nChannel: nat, nSub: nat, masks: Masks, sub: set<nat>)
  {
    /** What init leaves: nSub is a power of two and the mask of the sub-partition id is made of the
        lowest bank bits. */
    ghost predicate Valid()
    {
      && 1 <= nChannel < WORD / 2 && IsPow2(nSub) && nSub < WORD / 2
      && (gap ==> 0 <= chipStart <= 30)
      && masks.chip !! masks.bk
      && sub == Lowest(masks.bk, 0, ADDRESS_BITS, Log2(nSub))
    }

    /** The address without the part that selects the chip, when that part is no bit field. */
    function Rest(addr: nat): nat
      requires 0 <= chipStart && nChannel > 0
    {
      Divided(addr, Pow2(chipStart), nChannel)
    }

    function Source(addr: nat): nat
      requires gap ==> 0 <= chipStart && nChannel > 0
    {
      if gap then Rest(addr) else addr
    }

    function FullChip(addr: nat): nat
      requires gap ==> 0 <= chipStart && nChannel > 0
    {
      if gap then addr / Pow2(chipStart) % nChannel else Pack(masks.chip, addr, 0, ADDRESS_BITS)
    }

    function Field(mask: set<nat>, addr: nat): nat
      requires gap ==> 0 <= chipStart && nChannel > 0
    {
      Pack(mask, Source(addr), 0, ADDRESS_BITS) % WORD
    }

    /** All of it in 32-bit words; the bank number is masked by nSub - 1, its remainder. */
    function SubPartition(addr: nat): nat
      requires nSub > 0 && (gap ==> 0 <= chipStart && nChannel > 0)
    {
      Joined(FullChip(addr), Field(masks.bk, addr), nSub)
    }

    function Decoded(addr: nat): Tlx
      requires nSub > 0 && (gap ==> 0 <= chipStart && nChannel > 0)
    {
      Tlx(FullChip(addr) % WORD, Field(masks.bk, addr), Field(masks.row, addr), Field(masks.col, addr),
          Field(masks.burst, addr),
          SubPartition(addr))
    }

    function Removed(): set<nat>
    {
      if gap then sub else masks.chip + sub
    }

    function PartitionAddress(addr: nat): nat
      requires gap ==> 0 <= chipStart && nChannel > 0
    {
      Pack(Without(Removed()), Source(addr), 0, ADDRESS_BITS)
    }

    /** How many chip numbers there are. */
    ghost function Chips(): nat
    {
      if gap then nChannel else Pow2(Count(masks.chip, 0, ADDRESS_BITS))
    }
  }

  function BitsFrom(low: nat, high: nat): (s: set<nat>)
    ensures forall i: nat :: i in s <==> low <= i < high
    decreases high - low
  {
    if low >= high then {} else {low} + BitsFrom(low + 1, high)
  }

  function Without(mask: set<nat>): set<nat>
  {
    BitsFrom(0, ADDRESS_BITS) - mask
  }

  /** The number made of a chip and the low part of a bank, in a 32-bit word. */
  function Joined(chip: nat, bk: nat, nSub: nat): nat
    requires nSub > 0
  {
    (chip % WORD * nSub + bk % nSub) % WORD
  }

  /** An address whose part from bit start on has been divided. */
  function Divided(addr: nat, p: nat, n: nat): nat
    requires p > 0 && n > 0
  {
    Quotient(Quotient(addr, p), n) * p + addr % p
  }

  ghost predicate IsAddress(addr: nat)
  {
    addr < Pow2(ADDRESS_BITS)
  }

  // ----- words

  lemma ProductRemainder(x: nat, m: nat, n: nat)
    requires m > 0 && n > 0
    ensures m * n > 0 && x % (m * n) % n == x % n
  {
    Below(m - 1, m, n, n - 1);
    var q, r := x / (m * n), x % (m * n);
    var s, t := r / n, r % n;
    QuotientAndRemainder(x, m * n);
    QuotientAndRemainder(r, n);
    JoinProducts(q, m, n, s);
    PartsOf(x, q * m + s, t, n);
  }

  lemma JoinProducts(q: nat, m: nat, n: nat, s: nat)
    ensures q * (m * n) + s * n == (q * m + s) * n
  {
    Associates(q, m, n);
  }

  /** 2^32 is a multiple of every power of two below it. */
  lemma WordSplits(k: nat)
    requires k <= 32
    ensures WORD == Pow2(32 - k) * Pow2(k)
  {
    Pow2Of32();
    Pow2Adds(32 - k, k);
  }

  lemma LogBelowWord(x: nat)
    requires IsPow2(x) && x < WORD / 2
    ensures Log2(x) < 32 && x == Pow2(Log2(x))
  {
    if Log2(x) >= 32 {
      Pow2Of32();
      if Log2(x) > 32 {
        Pow2Grows(32, Log2(x));
      }
      assert false;
    }
  }

  lemma FieldRemainder(d: Decoder, addr: nat)
    requires d.Valid()
    ensures d.Field(d.masks.bk, addr) % d.nSub == Pack(d.sub, d.Source(addr), 0, ADDRESS_BITS)
  {
    LogBelowWord(d.nSub);
    var k := Log2(d.nSub);
    WordSplits(k);
    ProductRemainder(Pack(d.masks.bk, d.Source(addr), 0, ADDRESS_BITS), Pow2(32 - k), Pow2(k));
    LowestAreRemainder(d.masks.bk, d.Source(addr), 0, ADDRESS_BITS, k);
  }

  // ----- what the pair keeps

  lemma ChipInRange(d: Decoder, addr: nat)
    requires d.Valid()
    ensures d.FullChip(addr) < d.Chips()
  {
    PackFits(d.masks.chip, addr, 0, ADDRESS_BITS);
  }

  lemma ProductBelow(x: nat, y: nat, chips: nat, n: nat)
    requires x < chips && y < n
    ensures x * n + y < chips * n
  {
    Grows(n, x + 1, chips);
  }

  /** If there are no more than 2^32 sub-partitions their number tells chip and bank bits. */
  lemma SubPartitionDetermines(d: Decoder, a: nat, b: nat)
    requires d.Valid() && d.Chips() * d.nSub <= WORD && d.SubPartition(a) == d.SubPartition(b)
    ensures d.FullChip(a) == d.FullChip(b)
    ensures Pack(d.sub, d.Source(a), 0, ADDRESS_BITS) == Pack(d.sub, d.Source(b), 0, ADDRESS_BITS)
  {
    FieldRemainder(d, a);
    FieldRemainder(d, b);
    SubPartitionIsExact(d, a);
    SubPartitionIsExact(d, b);
    QuotientIsUnique(d.FullChip(a), d.Field(d.masks.bk, a) % d.nSub, d.FullChip(b), d.Field(d.masks.bk, b) % d.nSub,
                     d.nSub);
  }

  lemma SubPartitionIsExact(d: Decoder, a: nat)
    requires d.Valid() && d.Chips() * d.nSub <= WORD
    ensures d.SubPartition(a) == d.FullChip(a) * d.nSub + d.Field(d.masks.bk, a) % d.nSub
  {
    ChipInRange(d, a);
    JoinedIsExact(d.FullChip(a), d.Field(d.masks.bk, a), d.Chips(), d.nSub);
  }

  lemma JoinedIsExact(chip: nat, bk: nat, chips: nat, nSub: nat)
    requires nSub > 0 && chip < chips && chips * nSub <= WORD
    ensures Joined(chip, bk, nSub) == chip * nSub + bk % nSub
  {
    ProductBelow(chip, bk % nSub, chips, nSub);
    AtLeast(nSub, chip);
    SmallNumber(chip, WORD);
    SmallNumber(chip * nSub + bk % nSub, WORD);
  }

  lemma DividedIsSmaller(addr: nat, p: nat, n: nat)
    requires p > 0 && n > 0
    ensures Divided(addr, p, n) <= addr
  {
    QuotientAndRemainder(addr, p);
    QuotientAndRemainder(addr / p, n);
    AtLeast(n, addr / p / n);
    Grows(p, addr / p / n, addr / p);
  }

  lemma DividedDetermines(a: nat, b: nat, p: nat, n: nat)
    requires p > 0 && n > 0 && Divided(a, p, n) == Divided(b, p, n) && a / p % n == b / p % n
    ensures a == b
  {
    QuotientAndRemainder(a, p);
    QuotientAndRemainder(b, p);
    QuotientIsUnique(a / p / n, a % p, b / p / n, b % p, p);
    QuotientAndRemainder(a / p, n);
    QuotientAndRemainder(b / p, n);
  }

  lemma SourcesAgree(removed: set<nat>, a: nat, b: nat)
    requires Pack(Without(removed), a, 0, ADDRESS_BITS) == Pack(Without(removed), b, 0, ADDRESS_BITS)
    requires AgreeOn(removed, a, b, 0, ADDRESS_BITS) && IsAddress(a) && IsAddress(b)
    ensures a == b
  {
    PackDetermines(Without(removed), a, b, 0, ADDRESS_BITS);
    forall i: nat | i < ADDRESS_BITS
      ensures Bit(a, i) == Bit(b, i)
    {
      assert i in removed || i in Without(removed);
    }
    BitsDetermine(a, b, ADDRESS_BITS);
  }

  /** The sub-partition and the partition address together determine the address. */
  lemma PairDetermines(d: Decoder, a: nat, b: nat)
    requires d.Valid() && d.Chips() * d.nSub <= WORD && IsAddress(a) && IsAddress(b)
    requires d.SubPartition(a) == d.SubPartition(b) && d.PartitionAddress(a) == d.PartitionAddress(b)
    ensures a == b
  {
    SubPartitionDetermines(d, a, b);
    PackDetermines(d.sub, d.Source(a), d.Source(b), 0, ADDRESS_BITS);
    if d.gap {
      DividedIsSmaller(a, Pow2(d.chipStart), d.nChannel);
      DividedIsSmaller(b, Pow2(d.chipStart), d.nChannel);
      SourcesAgree(d.sub, d.Rest(a), d.Rest(b));
      DividedDetermines(a, b, Pow2(d.chipStart), d.nChannel);
    } else {
      PackDetermines(d.masks.chip, a, b, 0, ADDRESS_BITS);
      SourcesAgree(d.masks.chip + d.sub, a, b);
    }
  }

  ghost predicate NeverAliases(d: Decoder)
    requires d.Valid()
  {
    forall a: nat, b: nat ::
      && IsAddress(a) && IsAddress(b) && d.SubPartition(a) == d.SubPartition(b)
      && d.PartitionAddress(a) == d.PartitionAddress(b) ==>
        a == b
  }

  // ----- too many sub-partitions

  lemma DecodesToZero(d: Decoder)
    requires d.Valid()
    ensures d.SubPartition(0) == 0 && d.PartitionAddress(0) == 0 && IsAddress(0)
  {
    hide Pack, Joined, Log2, Lowest, Pow2, Divided;
    PackOfZero(d.masks.chip);
    PackOfZero(d.masks.bk);
    PackOfZero(Without(d.Removed()));
    if d.gap {
      ZeroDivided(Pow2(d.chipStart), d.nChannel);
    }
    JoinedZeros(d.nSub);
  }

  lemma JoinedZeros(nSub: nat)
    requires nSub > 0
    ensures Joined(0, 0, nSub) == 0
  {
    SmallNumber(0, nSub);
  }

  lemma ZeroDivided(p: nat, n: nat)
    requires p > 0 && n > 0
    ensures Divided(0, p, n) == 0 && 0 / p % n == 0
  {
    SmallNumber(0, p);
    SmallNumber(0, n);
  }

  lemma PackOfZero(mask: set<nat>)
    ensures Pack(mask, 0, 0, ADDRESS_BITS) == 0
  {
    forall i: nat | i < ADDRESS_BITS
      ensures Bit(0, i) == 0
    {
      BitOfZero(i);
    }
    PackOfNothing(mask, 0, 0, ADDRESS_BITS);
  }

  /** With more sub-partitions the chip 2^32 / nSub looks like chip 0. */
  lemma WrappedChip(k: nat)
    requires k < 32
    ensures Joined(Pow2(32 - k), 0, Pow2(k)) == 0
  {
    WordSplits(k);
    Pow2Of32();
    SmallNumber(0, Pow2(k));
    if k == 0 {
      assert Pow2(0) == 1;
    } else {
      Pow2Grows(32 - k, 32);
      SmallNumber(Pow2(32 - k), WORD);
    }
  }

  lemma ChipBitAliases(d: Decoder) returns (addr: nat)
    requires d.Valid() && !d.gap && Log2(d.nSub) < 32 && Count(d.masks.chip, 0, ADDRESS_BITS) > 32 - Log2(d.nSub)
    ensures addr != 0 && IsAddress(addr) && d.SubPartition(addr) == 0 && d.PartitionAddress(addr) == 0
  {
    hide Pack, Joined, Log2, Count, Lowest, Pow2, Bit;
    var i := BitOfRank(d.masks.chip, 0, ADDRESS_BITS, 32 - Log2(d.nSub));
    addr := Pow2(i);
    Pow2Grows(i, ADDRESS_BITS);
    forall j: nat | j < ADDRESS_BITS && j != i
      ensures Bit(addr, j) == 0
    {
      BitOfPower(i, j);
    }
    PackOfNothing(Without(d.Removed()), addr, 0, ADDRESS_BITS);
    PackOfNothing(d.masks.bk, addr, 0, ADDRESS_BITS);
    WrappedChip(Log2(d.nSub));
  }

  lemma GapChipAliases(d: Decoder) returns (addr: nat)
    requires d.Valid() && d.gap && Log2(d.nSub) < 32 && d.nChannel > Pow2(32 - Log2(d.nSub))
    ensures addr != 0 && IsAddress(addr) && d.SubPartition(addr) == 0 && d.PartitionAddress(addr) == 0
  {
    hide Pack, Joined, Log2, Count, Lowest, Pow2, Bit, Decoder.Source, Decoder.FullChip;
    var e := 32 - Log2(d.nSub);
    addr := Pow2(d.chipStart + e);
    Pow2Grows(d.chipStart + e, ADDRESS_BITS);
    GapParts(d, e);
    PackOfZero(Without(d.Removed()));
    PackOfZero(d.masks.bk);
    WrappedChip(Log2(d.nSub));
  }

  lemma GapParts(d: Decoder, e: nat)
    requires d.gap && d.chipStart >= 0 && Pow2(e) < d.nChannel
    ensures d.Source(Pow2(d.chipStart + e)) == 0 && d.FullChip(Pow2(d.chipStart + e)) == Pow2(e)
  {
    ChipOnly(d.chipStart, e, d.nChannel);
  }

  lemma ChipOnly(start: nat, e: nat, n: nat)
    requires Pow2(e) < n
    ensures Divided(Pow2(start + e), Pow2(start), n) == 0 && Pow2(start + e) / Pow2(start) % n == Pow2(e)
  {
    Pow2Adds(e, start);
    PartsOf(Pow2(start + e), Pow2(e), 0, Pow2(start));
    SmallNumber(Pow2(e), n);
  }

  lemma MoreThanFit(d: Decoder)
    requires d.Valid() && d.Chips() * d.nSub > WORD
    ensures Log2(d.nSub) < 32 && d.Chips() > Pow2(32 - Log2(d.nSub))
    ensures !d.gap ==> Count(d.masks.chip, 0, ADDRESS_BITS) > 32 - Log2(d.nSub)
  {
    LogBelowWord(d.nSub);
    var e := 32 - Log2(d.nSub);
    WordSplits(Log2(d.nSub));
    if d.Chips() <= Pow2(e) {
      Grows(d.nSub, d.Chips(), Pow2(e));
      assert false;
    }
    if !d.gap && Count(d.masks.chip, 0, ADDRESS_BITS) <= e {
      if Count(d.masks.chip, 0, ADDRESS_BITS) < e {
        Pow2Grows(Count(d.masks.chip, 0, ADDRESS_BITS), e);
      }
      assert false;
    }
  }

  /** No two addresses share a sub-partition and a partition address exactly when the sub-partition
      numbers fit in 32 bits. */
  lemma AliasesOnlyOnWrap(d: Decoder)
    requires d.Valid()
    ensures NeverAliases(d) <==> d.Chips() * d.nSub <= WORD
  {
    if d.Chips() * d.nSub <= WORD {
      forall a: nat, b: nat | IsAddress(a) && IsAddress(b) && d.SubPartition(a) == d.SubPartition(b)
                              && d.PartitionAddress(a) == d.PartitionAddress(b)
        ensures a == b
      {
        PairDetermines(d, a, b);
      }
    } else {
      MoreThanFit(d);
      DecodesToZero(d);
      var addr;
      if d.gap {
        addr := GapChipAliases(d);
      } else {
        addr := ChipBitAliases(d);
      }
    }
  }

  // ----- the whole raw address

  /** Every field fits in a 32-bit word. */
  ghost predicate FieldsFit(d: Decoder)
    requires d.Valid()
  {
    && d.Chips() <= WORD && Count(d.masks.bk, 0, ADDRESS_BITS) <= 32 && Count(d.masks.row, 0, ADDRESS_BITS) <= 32
    && Count(d.masks.col, 0, ADDRESS_BITS) <= 32 && Count(d.masks.burst, 0, ADDRESS_BITS) <= 32
  }

  lemma FieldDetermines(d: Decoder, mask: set<nat>, a: nat, b: nat)
    requires d.Valid() && Count(mask, 0, ADDRESS_BITS) <= 32
    ensures d.Field(mask, a) == d.Field(mask, b) <==> AgreeOn(mask, d.Source(a), d.Source(b), 0, ADDRESS_BITS)
  {
    hide Decoder.Source, AgreeOn;
    FieldIsExact(mask, d.Source(a));
    FieldIsExact(mask, d.Source(b));
    PackDetermines(mask, d.Source(a), d.Source(b), 0, ADDRESS_BITS);
  }

  lemma FieldIsExact(mask: set<nat>, val: nat)
    requires Count(mask, 0, ADDRESS_BITS) <= 32
    ensures Pack(mask, val, 0, ADDRESS_BITS) % WORD == Pack(mask, val, 0, ADDRESS_BITS)
  {
    PackFits(mask, val, 0, ADDRESS_BITS);
    Pow2Of32();
    if Count(mask, 0, ADDRESS_BITS) < 32 {
      Pow2Grows(Count(mask, 0, ADDRESS_BITS), 32);
    }
    SmallNumber(Pack(mask, val, 0, ADDRESS_BITS), WORD);
  }

  /** Two addresses decode alike exactly when they select the same chip and agree on every bit that
      one of the other masks picks. */
  lemma DecodingDetermines(d: Decoder, a: nat, b: nat)
    requires d.Valid() && FieldsFit(d)
    ensures d.Decoded(a) == d.Decoded(b)
            <==> d.FullChip(a) == d.FullChip(b)
                 && AgreeOn(d.masks.bk + d.masks.row + d.masks.col + d.masks.burst, d.Source(a), d.Source(b), 0,
                            ADDRESS_BITS)
  {
    hide Decoder.Source, Decoder.FullChip, Decoder.Field, Joined;
    FieldDetermines(d, d.masks.bk, a, b);
    FieldDetermines(d, d.masks.row, a, b);
    FieldDetermines(d, d.masks.col, a, b);
    FieldDetermines(d, d.masks.burst, a, b);
    ChipInRange(d, a);
    ChipInRange(d, b);
    SmallNumber(d.FullChip(a), WORD);
    SmallNumber(d.FullChip(b), WORD);
  }

  /** The value is made of the mask's bits of the source, in order from the lowest. */
  ghost predicate IsField(value: nat, mask: set<nat>, source: nat)
  {
    && value < Pow2(Count(mask, 0, ADDRESS_BITS))
    && forall i: nat :: i < ADDRESS_BITS && i in mask ==> Bit(value, Count(mask, 0, i)) == Bit(source, i)
  }

  lemma PackIsField(mask: set<nat>, val: nat)
    ensures IsField(Pack(mask, val, 0, ADDRESS_BITS), mask, val)
  {
    hide Pack, Count, Bit, Pow2;
    PackFits(mask, val, 0, ADDRESS_BITS);
    forall i: nat | i < ADDRESS_BITS && i in mask
      ensures Bit(Pack(mask, val, 0, ADDRESS_BITS), Count(mask, 0, i)) == Bit(val, i)
    {
      PackedBit(mask, val, 0, ADDRESS_BITS, i);
    }
  }

  /** Bank, row, column and burst are each made of the bits of their own mask, and the chip of those of
      the chip mask, or it is the remainder of the part above the chip start. */
  lemma FieldsAreMaskedBits(d: Decoder, addr: nat)
    requires d.Valid() && FieldsFit(d)
    ensures var r := d.Decoded(addr);
            && IsField(r.bk, d.masks.bk, d.Source(addr)) && IsField(r.row, d.masks.row, d.Source(addr))
            && IsField(r.col, d.masks.col, d.Source(addr)) && IsField(r.burst, d.masks.burst, d.Source(addr))
            && if d.gap then r.chip == addr / Pow2(d.chipStart) % d.nChannel else IsField(r.chip, d.masks.chip, addr)
  {
    hide IsField, Pack, Count, Joined, Decoder.Source;
    FieldIsMaskedBits(d, d.masks.bk, addr);
    FieldIsMaskedBits(d, d.masks.row, addr);
    FieldIsMaskedBits(d, d.masks.col, addr);
    FieldIsMaskedBits(d, d.masks.burst, addr);
    ChipInRange(d, addr);
    SmallNumber(d.FullChip(addr), WORD);
    PackIsField(d.masks.chip, addr);
  }

  lemma FieldIsMaskedBits(d: Decoder, mask: set<nat>, addr: nat)
    requires d.Valid() && Count(mask, 0, ADDRESS_BITS) <= 32
    ensures IsField(d.Field(mask, addr), mask, d.Source(addr))
  {
    hide IsField, Pack, Count, Decoder.Source;
    FieldIsExact(mask, d.Source(addr));
    PackIsField(mask, d.Source(addr));
  }

  /** The partition address is made of the bits that neither the chip nor the sub-partition takes. */
  lemma PartitionAddressIsMaskedBits(d: Decoder, addr: nat)
    requires d.Valid()
    ensures IsField(d.PartitionAddress(addr), Without(d.Removed()), d.Source(addr))
  {
    PackIsField(Without(d.Removed()), d.Source(addr));
  }
}
