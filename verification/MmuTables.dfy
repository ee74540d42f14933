/** The table memory and the builder that fills it in place. */
module MmuTables {

  import opened Arith
  import opened Bytes
  import opened Mmu

  /** The first-level table, and eight second-level tables one after the other at address l2Base. */
  class TranslationTables {
    const l1: array<Word32>
    const l2: array<Word32>
    const l2Base: Word32
    var l2Used: nat

    constructor (l2Base: Word32)
      requires l2Base % 1024 == 0 && l2Base + 8192 <= 0x1_0000_0000
      ensures this.l2Base == l2Base && Valid() && fresh(l1) && fresh(l2)
    {
      this.l2Base := l2Base;
      l1 := new Word32[MEGABYTES](_ => 0);
      l2 := new Word32[2048](_ => 0);
      l2Used := 0;
    }

    ghost predicate Valid() {
      l1.Length == MEGABYTES && l2.Length == 2048 && l1 != l2 &&
      l2Base % 1024 == 0 && l2Base + 8192 <= 0x1_0000_0000
    }

    method IsUniform(rs: seq<Region>, s: nat) returns (uniform: bool)
      requires s < MEGABYTES
      ensures uniform <==> Uniform(rs, s)
    {
      hide RegionType, ExecOf;
      var first, firstExec := RegionType(rs, PageAt(s, 0)), ExecOf(rs, PageAt(s, 0));
      uniform := true;
      var p := 1;
      while p < L2_ENTRIES && uniform
        invariant 1 <= p <= L2_ENTRIES
        invariant uniform <==> forall k :: 0 <= k < p ==> SameAttributes(rs, PageAt(s, k), PageAt(s, 0))
      {
        var a := PageAt(s, p);
        uniform := RegionType(rs, a) == first && ExecOf(rs, a) == firstExec;
        p := p + 1;
      }
    }

    /** Fills second-level table t with the pages of megabyte s. */
    method FillTable(rs: seq<Region>, s: nat, t: nat)
      requires Valid() && s < MEGABYTES && t < L2_TABLES
      modifies l2
      ensures TableFilled(rs, l2[..], s, t)
      ensures forall i :: 0 <= i < 2048 && !(256 * t <= i < 256 * t + 256) ==> l2[i] == old(l2[i])
    {
      hide PageEntry, PageAt;
      for p := 0 to L2_ENTRIES
        invariant forall k :: 0 <= k < p ==> l2[256 * t + k] == PageEntry(rs, PageAt(s, k))
        invariant forall i :: 0 <= i < 2048 && !(256 * t <= i < 256 * t + p) ==> l2[i] == old(l2[i])
      {
        PageEntryReads(rs, s, p);
        l2[256 * t + p] := PageEntry(rs, PageAt(s, p));
      }
    }

    /** Builds both levels for a list of regions. */
    method Build(rs: seq<Region>)
      requires Valid()
      modifies this, l1, l2
      ensures BuiltBelow(rs, l1[..], l2[..], l2Base, MEGABYTES)
      ensures l2Used == Min(MixedBelow(rs, MEGABYTES), L2_TABLES)
      ensures Tables(l1[..], l2[..], l2Base)
    {
      hide MegabyteBuilt, Uniform, SectionEntry, RegionType, ExecOf, RegionOverlaps, MixedBelow, PageAt, Tables;
      l2Used := 0;
      NothingMixedYet(rs);
      for s := 0 to MEGABYTES
        invariant BuiltBelow(rs, l1[..], l2[..], l2Base, s)
        invariant l2Used == Min(MixedBelow(rs, s), L2_TABLES)
      {
        BuildMegabyte(rs, s);
      }
      BuiltTables(rs, l1[..], l2[..], l2Base);
    }

    /** One turn of the builder's loop. */
    method BuildMegabyte(rs: seq<Region>, s: nat)
      requires Valid() && s < MEGABYTES
      requires BuiltBelow(rs, l1[..], l2[..], l2Base, s) && l2Used == Min(MixedBelow(rs, s), L2_TABLES)
      modifies this, l1, l2
      ensures BuiltBelow(rs, l1[..], l2[..], l2Base, s + 1)
      ensures l2Used == Min(MixedBelow(rs, s + 1), L2_TABLES)
    {
      hide MegabyteBuilt, Uniform, SectionEntry, RegionType, ExecOf, RegionOverlaps, MixedBelow, PageAt, TableFilled,
          SectionDesc;
      ghost var m1, m2 := l1[..], l2[..];
      var base := PageAt(s, 0);
      MixedStep(rs, s);
      SectionEntryReads(rs, s);
      if !RegionOverlaps(rs, base, 0x10_0000) {
        SkippedMegabyte(rs, s);
        l1[s] := 0;
        SectionStep(rs, m1, l1[..], l2[..], l2Base, s);
        return;
      }
      var uniform := IsUniform(rs, s);
      if uniform || l2Used >= L2_TABLES {
        SectionEntryCases(rs, s);
        var first := RegionType(rs, base);
        l1[s] := if first == Fault then 0 else SectionDesc(base, first, ExecOf(rs, base));
        SectionStep(rs, m1, l1[..], l2[..], l2Base, s);
        return;
      }
      FillTable(rs, s, l2Used);
      l1[s] := l2Base + 1024 * l2Used + 1;
      TableStep(rs, m1, m2, l1[..], l2[..], l2Base, s);
      l2Used := l2Used + 1;
    }

    /** The type the live table gives an address. */
    method TypeOf(addr: Word32) returns (kind: MemType)
      requires Valid() && Tables(l1[..], l2[..], l2Base)
      ensures kind == Kind(Lookup(l1[..], l2[..], l2Base, addr))
      ensures forall rs ::
                BuiltBelow(rs, l1[..], l2[..], l2Base, MEGABYTES) && FitsTables(rs) ==> kind == RegionType(rs, addr)
    {
      hide BuiltBelow, FitsTables, RegionType;
      TypeAlwaysAgrees(l1[..], l2[..], l2Base, addr);
      var d := l1[addr / 0x10_0000];
      assert d == l1[..][addr / 0x10_0000];
      if d % 4 == 1 {
        var table := d - d % 1024;
        TableInside(l2Base, d);
        d := l2[(table - l2Base) / 4 + addr / 0x1000 % 256];
        if d / 2 % 2 == 0 { return Fault; }
        return TypeFromBits(d / 8 % 2 == 1, d / 64 % 8, d / 4 % 2 == 1);
      }
      if d % 4 != 2 { return Fault; }
      kind := TypeFromBits(d / 8 % 2 == 1, d / 0x1000 % 8, d / 4 % 2 == 1);
    }
  }

  lemma TypeAlwaysAgrees(l1: seq<Word32>, l2: seq<Word32>, l2Base: Word32, addr: Word32)
    requires Tables(l1, l2, l2Base)
    ensures forall rs :: BuiltBelow(rs, l1, l2, l2Base, MEGABYTES) && FitsTables(rs) ==>
              Kind(Lookup(l1, l2, l2Base, addr)) == RegionType(rs, addr)
  {
    hide FitsTables, RegionType, Kind, Lookup, MegabyteBuilt;
    forall rs | BuiltBelow(rs, l1, l2, l2Base, MEGABYTES) && FitsTables(rs)
      ensures Kind(Lookup(l1, l2, l2Base, addr)) == RegionType(rs, addr)
    {
      TypeAgrees(rs, l1, l2, l2Base, addr);
    }
  }

  lemma TypeAgrees(rs: seq<Region>, l1: seq<Word32>, l2: seq<Word32>, l2Base: Word32, addr: Word32)
    requires Tables(l1, l2, l2Base) && BuiltBelow(rs, l1, l2, l2Base, MEGABYTES)
    requires FitsTables(rs)
    ensures Kind(Lookup(l1, l2, l2Base, addr)) == RegionType(rs, addr)
  {
    hide Tables, BuiltBelow, PageGranular, MixedBelow, Lookup, Kind, RegionType;
    AgreesEverywhereIff(rs, l1, l2, l2Base);
    assert Agrees(rs, l1, l2, l2Base, addr);
  }

  lemma NothingMixedYet(rs: seq<Region>)
    ensures MixedBelow(rs, 0) == 0
  {
  }

  lemma MixedStep(rs: seq<Region>, s: nat)
    requires s < MEGABYTES
    ensures MixedBelow(rs, s + 1) == MixedBelow(rs, s) + if Uniform(rs, s) then 0 else 1
  {
    hide Uniform;
  }

  lemma SectionEntryCases(rs: seq<Region>, s: nat)
    requires s < MEGABYTES
    ensures var a := PageAt(s, 0);
            SectionEntry(rs, a) == if RegionType(rs, a) == Fault then 0
            else SectionDesc(a, RegionType(rs, a), ExecOf(rs, a))
  {
    hide RegionType, ExecOf;
  }

  /** A megabyte without any region is uniform, and its section entry is 0. */
  lemma SkippedMegabyte(rs: seq<Region>, s: nat)
    requires s < MEGABYTES && !RegionOverlaps(rs, PageAt(s, 0), 0x10_0000)
    ensures Uniform(rs, s) && SectionEntry(rs, PageAt(s, 0)) == 0
  {
    hide RegionType, ExecOf, RegionOverlaps;
    forall p | 0 <= p < L2_ENTRIES
      ensures RegionType(rs, PageAt(s, p)) == Fault && !ExecOf(rs, PageAt(s, p))
    {
      NoOverlapMeansFault(rs, PageAt(s, 0), 0x10_0000, PageAt(s, p));
    }
  }

  /** Megabytes built before are not disturbed. */
  lemma BuiltStays(rs: seq<Region>, l1: seq<Word32>, l2: seq<Word32>, m1: seq<Word32>, m2: seq<Word32>, l2Base: Word32,
                   s: nat, k: nat)
    requires k < s < MEGABYTES && |l1| == |m1| == MEGABYTES && |l2| == |m2| == 2048
    requires MegabyteBuilt(rs, l1, l2, l2Base, k) && m1[k] == l1[k]
    requires forall i :: 0 <= i < 2048 && i < 256 * MixedBelow(rs, s) ==> m2[i] == l2[i]
    ensures MegabyteBuilt(rs, m1, m2, l2Base, k)
  {
    hide Uniform, SectionEntry, PageEntry, PageAt, MixedBelow;
    MixedBelowGrows(rs, k, s);
  }

  lemma SectionStep(rs: seq<Region>, l1: seq<Word32>, m1: seq<Word32>, l2: seq<Word32>, l2Base: Word32, s: nat)
    requires s < MEGABYTES && |l1| == MEGABYTES && |l2| == 2048 && BuiltBelow(rs, l1, l2, l2Base, s)
    requires BySection(rs, s) && 0 <= SectionEntry(rs, PageAt(s, 0)) < 0x1_0000_0000
    requires m1 == l1[s := SectionEntry(rs, PageAt(s, 0))]
    ensures BuiltBelow(rs, m1, l2, l2Base, s + 1)
  {
    hide Uniform, SectionEntry, PageEntry, PageAt, MixedBelow, TableFilled;
    forall k | 0 <= k < s + 1
      ensures MegabyteBuilt(rs, m1, l2, l2Base, k)
    {
      if k < s { BuiltStays(rs, l1, l2, m1, l2, l2Base, s, k); }
    }
  }

  lemma TableStep(rs: seq<Region>, l1: seq<Word32>, l2: seq<Word32>, m1: seq<Word32>, m2: seq<Word32>,
                  l2Base: Word32, s: nat)
    requires s < MEGABYTES && |l1| == |m1| == MEGABYTES && |l2| == |m2| == 2048 && BuiltBelow(rs, l1, l2, l2Base, s)
    requires l2Base + 8192 <= 0x1_0000_0000
    requires !BySection(rs, s)
    requires m1 == l1[s := l2Base + 1024 * MixedBelow(rs, s) + 1]
    requires TableFilled(rs, m2, s, MixedBelow(rs, s))
    requires forall i :: 0 <= i < 256 * MixedBelow(rs, s) ==> m2[i] == l2[i]
    ensures BuiltBelow(rs, m1, m2, l2Base, s + 1)
  {
    hide Uniform, SectionEntry, PageEntry, PageAt, MixedBelow, TableFilled;
    forall k | 0 <= k < s + 1
      ensures MegabyteBuilt(rs, m1, m2, l2Base, k)
    {
      if k < s { BuiltStays(rs, l1, l2, m1, m2, l2Base, s, k); }
    }
  }
}
