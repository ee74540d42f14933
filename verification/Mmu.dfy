/** The two-level translation table of the second core and the flat region list it is built from. */
module Mmu {

  import opened Arith
  import opened Bytes

  const MEGABYTES: nat := 4096
  const L2_TABLES: nat := 8
  const L2_ENTRIES: nat := 256

  datatype MemType = Fault | NormalWb | NormalNc | Device

  datatype RegionEntry = RegionEntry(base: Word32, size: Word32, kind: MemType, exec: bool)

  /** The list only names memory the core may use. */
  type Region = r: RegionEntry | r.kind != Fault witness RegionEntry(0, 0, Device, false)

  // ---- The flat list: the first region that contains an address decides ----

  predicate Contains(r: Region, addr: Word32) {
    addr >= r.base && addr - r.base < r.size
  }

  function RegionType(rs: seq<Region>, addr: Word32): MemType {
    if rs == [] then Fault else if Contains(rs[0], addr) then rs[0].kind else RegionType(rs[1..], addr)
  }

  function ExecOf(rs: seq<Region>, addr: Word32): bool {
    if rs == [] then false else if Contains(rs[0], addr) then rs[0].exec else ExecOf(rs[1..], addr)
  }

  /** Where regions overlap the one listed first decides, and an address in none of them faults. */
  lemma {:induction false} FirstRegionDecides(rs: seq<Region>, addr: Word32, i: nat)
    requires i <= |rs| && forall j :: 0 <= j < i ==> !Contains(rs[j], addr)
    requires i < |rs| ==> Contains(rs[i], addr)
    ensures RegionType(rs, addr) == (if i < |rs| then rs[i].kind else Fault)
    ensures ExecOf(rs, addr) <==> i < |rs| && rs[i].exec
  {
    hide Contains;
    if i > 0 { FirstRegionDecides(rs[1..], addr, i - 1); }
  }

  /** Unsigned differences, so a megabyte at the top of the address space is handled too. */
  predicate RegionOverlaps(rs: seq<Region>, base: Word32, size: Word32) {
    rs != [] &&
    (Sub32(rs[0].base, base) < size || Sub32(base, rs[0].base) < rs[0].size || RegionOverlaps(rs[1..], base, size))
  }

  predicate SameAttributes(rs: seq<Region>, a: Word32, b: Word32) {
    RegionType(rs, a) == RegionType(rs, b) && ExecOf(rs, a) == ExecOf(rs, b)
  }

  /** Nothing listed at an address means no permission either. */
  lemma {:induction false} FaultIsNotExecutable(rs: seq<Region>, addr: Word32)
    ensures RegionType(rs, addr) == Fault ==> !ExecOf(rs, addr)
  {
    if rs != [] { FaultIsNotExecutable(rs[1..], addr); }
  }

  /** What the overlap test lets the builder skip holds no listed address, even for a region whose end
      would wrap. */
  lemma {:induction false} NoOverlapMeansFault(rs: seq<Region>, base: Word32, size: Word32, addr: Word32)
    requires !RegionOverlaps(rs, base, size) && base <= addr < base + size
    ensures RegionType(rs, addr) == Fault && !ExecOf(rs, addr)
  {
    if rs != [] { NoOverlapMeansFault(rs[1..], base, size, addr); }
  }

  // ---- Descriptors (ARMv7-A short format): a base plus bit weights below it ----

  /** Type 2, read-write; XN is bit 4, B bit 2, C bit 3, TEX bit 12, S bit 16. */
  function SectionFlags(kind: MemType, exec: bool): nat {
    var f := 0x2 + 0xC00 + BitWeight(!exec, 0x10);
    match kind
    case NormalWb => f + 0x1000 + 0x8 + 0x4 + 0x1_0000
    case NormalNc => f + 0x1000 + 0x1_0000
    case _ => f + 0x4
  }

  function SectionDesc(base: Word32, kind: MemType, exec: bool): nat {
    if kind == Fault then 0 else base + SectionFlags(kind, exec)
  }

  /** Type 2, read-write; XN is bit 0, B bit 2, C bit 3, TEX bit 6, S bit 10. */
  function PageFlags(kind: MemType, exec: bool): nat {
    var f := 0x2 + 0x30 + BitWeight(!exec, 0x1);
    match kind
    case NormalWb => f + 0x40 + 0x8 + 0x4 + 0x400
    case NormalNc => f + 0x40 + 0x400
    case _ => f + 0x4
  }

  function PageDesc(base: Word32, kind: MemType, exec: bool): nat {
    if kind == Fault then 0 else base + PageFlags(kind, exec)
  }

  /** The descriptor a table walk ends on. */
  datatype Entry = Section(d: nat) | Page(d: nat)

  function TypeFromBits(c: bool, tex: nat, b: bool): MemType {
    if c then NormalWb else if tex == 1 then NormalNc else if b then Device else Fault
  }

  function Kind(e: Entry): MemType {
    match e
    case Page(d) =>
      if d / 2 % 2 == 0 then Fault else TypeFromBits(d / 8 % 2 == 1, d / 64 % 8, d / 4 % 2 == 1)
    case Section(d) =>
      if d % 4 != 2 then Fault else TypeFromBits(d / 8 % 2 == 1, d / 0x1000 % 8, d / 4 % 2 == 1)
  }

  /** Mapped and not execute-never. */
  predicate Executable(e: Entry) {
    Kind(e) != Fault && if e.Page? then e.d % 2 == 0 else e.d / 16 % 2 == 0
  }

  /** The physical address behind a virtual one. */
  function Physical(e: Entry, addr: Word32): nat {
    if e.Page? then e.d - e.d % 0x1000 + addr % 0x1000 else e.d - e.d % 0x10_0000 + addr % 0x10_0000
  }

  lemma SectionFlagsRead(kind: MemType, exec: bool)
    requires kind != Fault
    ensures var f := SectionFlags(kind, exec);
            f < 0x10_0000 && f % 4 == 2 && Kind(Section(f)) == kind && (Executable(Section(f)) <==> exec)
  {
  }

  lemma PageFlagsRead(kind: MemType, exec: bool)
    requires kind != Fault
    ensures var f := PageFlags(kind, exec);
            f < 0x1000 && Kind(Page(f)) == kind && (Executable(Page(f)) <==> exec)
  {
  }

  /** Every mapped section or page can be read and written at either privilege level, and exactly normal memory
      carries the shareable bit. */
  lemma MappedIsReadWrite(kind: MemType, exec: bool)
    requires kind != Fault
    ensures SectionFlags(kind, exec) / 0x400 % 4 == 3 && PageFlags(kind, exec) / 0x10 % 4 == 3
    ensures SectionFlags(kind, exec) / 0x1_0000 % 2 == (if kind == Device then 0 else 1)
    ensures PageFlags(kind, exec) / 0x400 % 2 == if kind == Device then 0 else 1
  {
  }

  lemma LowBits(a: nat, x: nat)
    ensures (2 * a + x) % 2 == x % 2 && (8 * a + x) % 8 == x % 8
  {
  }

  lemma SectionQuotients(k: nat, f: nat)
    requires f < 0x10_0000
    ensures var d := 0x10_0000 * k + f;
            d % 4 == f % 4 && d / 4 == 2 * (0x2_0000 * k) + f / 4 && d / 8 == 2 * (0x1_0000 * k) + f / 8 &&
            d / 16 == 2 * (0x8000 * k) + f / 16 && d / 0x1000 == 8 * (0x20 * k) + f / 0x1000 && d % 0x10_0000 == f
  {
  }

  lemma PageQuotients(k: nat, f: nat)
    requires f < 0x1000
    ensures var d := 0x1000 * k + f;
            d % 2 == f % 2 && d / 2 == 2 * (0x400 * k) + f / 2 && d / 4 == 2 * (0x200 * k) + f / 4 &&
            d / 8 == 2 * (0x100 * k) + f / 8 && d / 64 == 8 * (0x8 * k) + f / 64 && d % 0x1000 == f
  {
  }

  /** A base leaves the bits below it alone. */
  lemma BelowSection(k: nat, f: nat)
    requires f < 0x10_0000
    ensures var d := 0x10_0000 * k + f;
            d % 4 == f % 4 && d / 4 % 2 == f / 4 % 2 && d / 8 % 2 == f / 8 % 2 &&
            d / 16 % 2 == f / 16 % 2 && d / 0x1000 % 8 == f / 0x1000 % 8 && d % 0x10_0000 == f
  {
    SectionQuotients(k, f);
    LowBits(0x2_0000 * k, f / 4);
    LowBits(0x1_0000 * k, f / 8);
    LowBits(0x8000 * k, f / 16);
    LowBits(0x20 * k, f / 0x1000);
  }

  lemma BelowPage(k: nat, f: nat)
    requires f < 0x1000
    ensures var d := 0x1000 * k + f;
            d % 2 == f % 2 && d / 2 % 2 == f / 2 % 2 && d / 4 % 2 == f / 4 % 2 &&
            d / 8 % 2 == f / 8 % 2 && d / 64 % 8 == f / 64 % 8 && d % 0x1000 == f
  {
    PageQuotients(k, f);
    LowBits(0x400 * k, f / 2);
    LowBits(0x200 * k, f / 4);
    LowBits(0x100 * k, f / 8);
    LowBits(0x8 * k, f / 64);
  }

  lemma SectionAboveFlags(k: nat, f: nat)
    requires f < 0x10_0000
    ensures var d := 0x10_0000 * k + f;
            d % 4 == f % 4 && Kind(Section(d)) == Kind(Section(f)) &&
            (Executable(Section(d)) <==> Executable(Section(f))) &&
            d % 0x10_0000 == f
  {
    BelowSection(k, f);
  }

  lemma PageAboveFlags(k: nat, f: nat)
    requires f < 0x1000
    ensures var d := 0x1000 * k + f;
            Kind(Page(d)) == Kind(Page(f)) && (Executable(Page(d)) <==> Executable(Page(f))) && d % 0x1000 == f
  {
    BelowPage(k, f);
  }

  /** A section descriptor gives back what went into it and is never mistaken for a table. */
  lemma {:induction false} SectionDescReads(base: Word32, kind: MemType, exec: bool)
    requires base % 0x10_0000 == 0
    ensures var e := Section(SectionDesc(base, kind, exec));
            e.d < 0x1_0000_0000 && e.d % 4 != 1 && Kind(e) == kind && (kind != Fault ==> (Executable(e) <==> exec)) &&
            (kind != Fault ==> e.d - e.d % 0x10_0000 == base)
  {
    hide SectionFlags, Kind, Executable;
    NothingMapped();
    if kind != Fault {
      SectionFlagsRead(kind, exec);
      SectionAboveFlags(base / 0x10_0000, SectionFlags(kind, exec));
      assert base == 0x10_0000 * (base / 0x10_0000);
    }
  }

  lemma {:induction false} PageDescReads(base: Word32, kind: MemType, exec: bool)
    requires base % 0x1000 == 0
    ensures var e := Page(PageDesc(base, kind, exec));
            e.d < 0x1_0000_0000 && Kind(e) == kind && (kind != Fault ==> (Executable(e) <==> exec)) &&
            (kind != Fault ==> e.d - e.d % 0x1000 == base)
  {
    hide PageFlags, Kind, Executable;
    NothingMapped();
    if kind != Fault {
      PageFlagsRead(kind, exec);
      PageAboveFlags(base / 0x1000, PageFlags(kind, exec));
      assert base == 0x1000 * (base / 0x1000);
    }
  }

  lemma NothingMapped()
    ensures Kind(Section(0)) == Fault && Kind(Page(0)) == Fault
  {
  }

  // ---- Walking the tables ----

  /** First-level entries that name a second-level table name one of the eight behind l2Base. */
  predicate Tables(l1: seq<Word32>, l2: seq<Word32>, l2Base: Word32) {
    |l1| == MEGABYTES && |l2| == 2048 && l2Base % 1024 == 0 && l2Base + 8192 <= 0x1_0000_0000 &&
    forall s :: 0 <= s < MEGABYTES && l1[s] % 4 == 1 ==> l2Base <= l1[s] < l2Base + 8192
  }

  lemma TableInside(l2Base: Word32, d: Word32)
    requires l2Base % 1024 == 0 && l2Base <= d < l2Base + 8192
    ensures 0 <= (d - d % 1024 - l2Base) / 4 <= 1792
  {
    var k, j := l2Base / 1024, d / 1024;
    assert l2Base == 1024 * k && d == 1024 * j + d % 1024;
  }

  function Lookup(l1: seq<Word32>, l2: seq<Word32>, l2Base: Word32, addr: Word32): Entry
    requires Tables(l1, l2, l2Base)
  {
    var d := l1[addr / 0x10_0000];
    if d % 4 == 1 then
      var table := d - d % 1024;
      TableInside(l2Base, d);
      Page(l2[(table - l2Base) / 4 + addr / 0x1000 % 256])
    else Section(d)
  }

  /** The tables give an address the type, the execute permission and the place the list says. */
  predicate Agrees(rs: seq<Region>, l1: seq<Word32>, l2: seq<Word32>, l2Base: Word32, addr: Word32)
    requires Tables(l1, l2, l2Base)
  {
    var e := Lookup(l1, l2, l2Base, addr);
    Kind(e) == RegionType(rs, addr) && (Executable(e) <==> ExecOf(rs, addr)) &&
    (Kind(e) != Fault ==> Physical(e, addr) == addr)
  }

  // ---- What the builder makes of a megabyte ----

  function PageAt(s: nat, p: nat): Word32
    requires s < MEGABYTES && p < L2_ENTRIES
  {
    0x10_0000 * s + 0x1000 * p
  }

  predicate Uniform(rs: seq<Region>, s: nat)
    requires s < MEGABYTES
  {
    forall p :: 0 <= p < L2_ENTRIES ==> SameAttributes(rs, PageAt(s, p), PageAt(s, 0))
  }

  /** Number of mixed megabytes below s: those whose pages differ. */
  function MixedBelow(rs: seq<Region>, s: nat): nat
    requires s <= MEGABYTES
  {
    if s == 0 then 0 else MixedBelow(rs, s - 1) + if Uniform(rs, s - 1) then 0 else 1
  }

  lemma {:induction false} MixedBelowGrows(rs: seq<Region>, s: nat, t: nat)
    requires s <= t <= MEGABYTES
    ensures MixedBelow(rs, s) <= MixedBelow(rs, t)
    ensures s < t && !Uniform(rs, s) ==> MixedBelow(rs, s) < MixedBelow(rs, t)
  {
    hide Uniform;
    if s < t { MixedBelowGrows(rs, s, t - 1); }
  }

  /** A section where the megabyte is uniform, and also where the second-level tables are used up. */
  predicate BySection(rs: seq<Region>, s: nat)
    requires s < MEGABYTES
  {
    Uniform(rs, s) || MixedBelow(rs, s) >= L2_TABLES
  }

  function PageEntry(rs: seq<Region>, a: Word32): nat {
    PageDesc(a, RegionType(rs, a), ExecOf(rs, a))
  }

  function SectionEntry(rs: seq<Region>, a: Word32): nat {
    SectionDesc(a, RegionType(rs, a), ExecOf(rs, a))
  }

  predicate TableFilled(rs: seq<Region>, l2: seq<Word32>, s: nat, t: nat)
    requires s < MEGABYTES && t < L2_TABLES && |l2| == 2048
  {
    forall p :: 0 <= p < L2_ENTRIES ==> l2[256 * t + p] == PageEntry(rs, PageAt(s, p))
  }

  predicate MegabyteBuilt(rs: seq<Region>, l1: seq<Word32>, l2: seq<Word32>, l2Base: Word32, s: nat)
    requires s < MEGABYTES && |l1| == MEGABYTES && |l2| == 2048
  {
    if BySection(rs, s) then l1[s] == SectionEntry(rs, PageAt(s, 0))
    else l1[s] == l2Base + 1024 * MixedBelow(rs, s) + 1 && TableFilled(rs, l2, s, MixedBelow(rs, s))
  }

  predicate BuiltBelow(rs: seq<Region>, l1: seq<Word32>, l2: seq<Word32>, l2Base: Word32, n: nat)
    requires n <= MEGABYTES && |l1| == MEGABYTES && |l2| == 2048
  {
    forall s :: 0 <= s < n ==> MegabyteBuilt(rs, l1, l2, l2Base, s)
  }

  lemma SectionEntryReads(rs: seq<Region>, s: nat)
    requires s < MEGABYTES
    ensures var a := PageAt(s, 0); var e := Section(SectionEntry(rs, a));
            e.d < 0x1_0000_0000 && e.d % 4 != 1 && Kind(e) == RegionType(rs, a) && (Executable(e) <==> ExecOf(rs, a)) &&
            (Kind(e) != Fault ==> e.d - e.d % 0x10_0000 == a)
  {
    hide SectionDesc, RegionType, ExecOf;
    var a := PageAt(s, 0);
    SectionDescReads(a, RegionType(rs, a), ExecOf(rs, a));
    FaultIsNotExecutable(rs, a);
  }

  lemma PageEntryReads(rs: seq<Region>, s: nat, p: nat)
    requires s < MEGABYTES && p < L2_ENTRIES
    ensures var a := PageAt(s, p); var e := Page(PageEntry(rs, a));
            e.d < 0x1_0000_0000 && Kind(e) == RegionType(rs, a) && (Executable(e) <==> ExecOf(rs, a)) &&
            (Kind(e) != Fault ==> e.d - e.d % 0x1000 == a)
  {
    hide PageDesc, RegionType, ExecOf;
    var a := PageAt(s, p);
    assert a == 0x1000 * (256 * s + p);
    PageDescReads(a, RegionType(rs, a), ExecOf(rs, a));
    FaultIsNotExecutable(rs, a);
  }

  lemma BuiltTables(rs: seq<Region>, l1: seq<Word32>, l2: seq<Word32>, l2Base: Word32)
    requires |l1| == MEGABYTES && |l2| == 2048 && l2Base % 1024 == 0 && l2Base + 8192 <= 0x1_0000_0000
    requires BuiltBelow(rs, l1, l2, l2Base, MEGABYTES)
    ensures Tables(l1, l2, l2Base)
  {
    hide SectionEntry, Uniform, MixedBelow, TableFilled;
    forall s | 0 <= s < MEGABYTES && l1[s] % 4 == 1
      ensures l2Base <= l1[s] < l2Base + 8192
    {
      assert MegabyteBuilt(rs, l1, l2, l2Base, s);
      SectionEntryReads(rs, s);
    }
  }

  /** The address whose attributes the tables give to addr: the start of its megabyte or of its page. */
  function Representative(rs: seq<Region>, addr: Word32): Word32 {
    var s := addr / 0x10_0000;
    if BySection(rs, s) then PageAt(s, 0) else PageAt(s, addr / 0x1000 % 256)
  }

  lemma TableIndex(l2Base: Word32, t: nat)
    requires l2Base % 1024 == 0
    ensures var d := l2Base + 1024 * t + 1; d % 4 == 1 && d % 1024 == 1 && (d - d % 1024 - l2Base) / 4 == 256 * t
  {
    assert l2Base == 1024 * (l2Base / 1024);
  }

  lemma AddressParts(addr: Word32)
    ensures var s, p := addr / 0x10_0000, addr / 0x1000 % 256;
            s < MEGABYTES && p < L2_ENTRIES && addr == PageAt(s, p) + addr % 0x1000 &&
            addr == PageAt(s, 0) + addr % 0x10_0000
  {
    assert addr / 0x10_0000 == addr / 0x1000 / 256;
  }

  /** What the walk finds in a megabyte: its section, or the page entry of its table. */
  lemma LookupIs(rs: seq<Region>, l1: seq<Word32>, l2: seq<Word32>, l2Base: Word32, addr: Word32)
    requires Tables(l1, l2, l2Base) && BuiltBelow(rs, l1, l2, l2Base, MEGABYTES)
    ensures var s, p := addr / 0x10_0000, addr / 0x1000 % 256;
            Lookup(l1, l2, l2Base, addr) ==
            if BySection(rs, s) then Section(SectionEntry(rs, PageAt(s, 0))) else Page(PageEntry(rs, PageAt(s, p)))
  {
    hide SectionEntry, PageEntry, PageAt, MixedBelow, Uniform;
    var s := addr / 0x10_0000;
    assert MegabyteBuilt(rs, l1, l2, l2Base, s);
    if BySection(rs, s) {
      SectionEntryReads(rs, s);
    } else {
      TableIndex(l2Base, MixedBelow(rs, s));
    }
  }

  lemma {:induction false} WalkGivesRepresentative(
    rs: seq<Region>, l1: seq<Word32>, l2: seq<Word32>, l2Base: Word32, addr: Word32)
    requires Tables(l1, l2, l2Base) && BuiltBelow(rs, l1, l2, l2Base, MEGABYTES)
    ensures var e := Lookup(l1, l2, l2Base, addr); var a := Representative(rs, addr);
            Kind(e) == RegionType(rs, a) && (Executable(e) <==> ExecOf(rs, a)) &&
            (Kind(e) != Fault ==> Physical(e, addr) == addr)
  {
    hide SectionEntry, PageEntry, RegionType, ExecOf, BySection, Kind, Executable, Lookup, Tables, BuiltBelow, PageAt;
    var s, p := addr / 0x10_0000, addr / 0x1000 % 256;
    LookupIs(rs, l1, l2, l2Base, addr);
    AddressParts(addr);
    SectionEntryReads(rs, s);
    PageEntryReads(rs, s, p);
  }

  /** The attributes never change inside a page. */
  ghost predicate PageGranular(rs: seq<Region>) {
    forall addr: Word32 :: SameAttributes(rs, addr, PageStart(addr))
  }

  function PageStart(addr: Word32): Word32 {
    addr - addr % 0x1000
  }

  lemma OverfullMegabyte(rs: seq<Region>, n: nat)
    requires n <= MEGABYTES && MixedBelow(rs, n) > L2_TABLES
    ensures exists s :: 0 <= s < n && !Uniform(rs, s) && MixedBelow(rs, s) == L2_TABLES
  {
    hide Uniform;
    if MixedBelow(rs, n - 1) > L2_TABLES {
      OverfullMegabyte(rs, n - 1);
    } else {
      assert !Uniform(rs, n - 1) && MixedBelow(rs, n - 1) == L2_TABLES;
    }
  }

  lemma PageOf(addr: Word32)
    ensures var s, p := addr / 0x10_0000, addr / 0x1000 % 256;
            PageStart(addr) == PageAt(s, p) && PageStart(addr) / 0x10_0000 == s && PageStart(addr) / 0x1000 % 256 == p
  {
    var s, p := addr / 0x10_0000, addr / 0x1000 % 256;
    assert addr == 0x10_0000 * s + 0x1000 * p + addr % 0x1000;
  }

  lemma PageAtParts(s: nat, p: nat)
    requires s < MEGABYTES && p < L2_ENTRIES
    ensures PageAt(s, p) / 0x10_0000 == s && PageAt(s, p) / 0x1000 % 256 == p
  {
    assert PageAt(s, p) / 0x1000 == 256 * s + p;
  }

  /** The mapping is right for an address exactly when its representative has the same attributes. */
  lemma AgreesIffRepresentative(rs: seq<Region>, l1: seq<Word32>, l2: seq<Word32>, l2Base: Word32, addr: Word32)
    requires Tables(l1, l2, l2Base) && BuiltBelow(rs, l1, l2, l2Base, MEGABYTES)
    ensures Agrees(rs, l1, l2, l2Base, addr) <==> SameAttributes(rs, addr, Representative(rs, addr))
  {
    hide BuiltBelow, Tables, Lookup, RegionType, ExecOf, Representative;
    WalkGivesRepresentative(rs, l1, l2, l2Base, addr);
  }

  lemma EnoughTablesMapPages(rs: seq<Region>, addr: Word32)
    requires PageGranular(rs) && MixedBelow(rs, MEGABYTES) <= L2_TABLES
    ensures SameAttributes(rs, addr, Representative(rs, addr))
  {
    hide RegionType, ExecOf, MixedBelow;
    var s, p := addr / 0x10_0000, addr / 0x1000 % 256;
    PageOf(addr);
    assert SameAttributes(rs, addr, PageStart(addr));
    MixedBelowGrows(rs, s, MEGABYTES);
    if BySection(rs, s) {
      assert SameAttributes(rs, PageAt(s, p), PageAt(s, 0));
    }
  }

  lemma SameRepresentative(rs: seq<Region>, addr: Word32)
    ensures Representative(rs, PageStart(addr)) == Representative(rs, addr)
  {
    hide Uniform, MixedBelow;
    PageOf(addr);
  }

  lemma OverfullDisagrees(rs: seq<Region>)
    requires MixedBelow(rs, MEGABYTES) > L2_TABLES
    ensures exists addr: Word32 :: !SameAttributes(rs, addr, Representative(rs, addr))
  {
    hide Uniform, MixedBelow, SameAttributes, PageAt;
    OverfullMegabyte(rs, MEGABYTES);
    var s :| 0 <= s < MEGABYTES && !Uniform(rs, s) && MixedBelow(rs, s) == L2_TABLES;
    var p := OtherPage(rs, s);
    PageAtParts(s, p);
    assert Representative(rs, PageAt(s, p)) == PageAt(s, 0);
  }

  lemma OtherPage(rs: seq<Region>, s: nat) returns (p: nat)
    requires s < MEGABYTES && !Uniform(rs, s)
    ensures p < L2_ENTRIES && !SameAttributes(rs, PageAt(s, p), PageAt(s, 0))
  {
    hide SameAttributes, PageAt;
    p :| 0 <= p < L2_ENTRIES && !SameAttributes(rs, PageAt(s, p), PageAt(s, 0));
  }

  /** The attributes never change inside a page, and at most eight megabytes are mixed. */
  ghost predicate FitsTables(rs: seq<Region>) {
    PageGranular(rs) && MixedBelow(rs, MEGABYTES) <= L2_TABLES
  }

  /** The built tables agree with the list at every one of the 2^32 addresses exactly when no page has
      two kinds of memory and no more than eight megabytes are mixed. */
  lemma AgreesEverywhereIff(rs: seq<Region>, l1: seq<Word32>, l2: seq<Word32>, l2Base: Word32)
    requires Tables(l1, l2, l2Base) && BuiltBelow(rs, l1, l2, l2Base, MEGABYTES)
    ensures (forall addr: Word32 :: Agrees(rs, l1, l2, l2Base, addr)) <==>
            FitsTables(rs)
  {
    hide BuiltBelow, Tables, Agrees, RegionType, ExecOf, MixedBelow, Representative;
    forall addr: Word32
      ensures Agrees(rs, l1, l2, l2Base, addr) <==> SameAttributes(rs, addr, Representative(rs, addr))
    {
      AgreesIffRepresentative(rs, l1, l2, l2Base, addr);
    }
    if PageGranular(rs) && MixedBelow(rs, MEGABYTES) <= L2_TABLES {
      forall addr: Word32 ensures Agrees(rs, l1, l2, l2Base, addr) { EnoughTablesMapPages(rs, addr); }
    }
    if forall addr: Word32 :: Agrees(rs, l1, l2, l2Base, addr) {
      forall addr: Word32 ensures SameAttributes(rs, addr, PageStart(addr)) {
        SameRepresentative(rs, addr);
        assert Agrees(rs, l1, l2, l2Base, addr) && Agrees(rs, l1, l2, l2Base, PageStart(addr));
      }
      if MixedBelow(rs, MEGABYTES) > L2_TABLES { OverfullDisagrees(rs); }
    }
  }

  // ---- A list that is too much for the eight tables ----

  /** One page of device memory at the start of each megabyte from..n. */
  function Stripes(from: nat, n: nat): (rs: seq<Region>)
    requires from <= n <= MEGABYTES
    ensures |rs| == n - from
    decreases n - from
  {
    if from == n then [] else [RegionEntry(PageAt(from, 0), 0x1000, Device, false)] + Stripes(from + 1, n)
  }

  lemma {:induction false} StripeTypes(from: nat, n: nat, s: nat)
    requires from <= n <= MEGABYTES && s < MEGABYTES
    ensures RegionType(Stripes(from, n), PageAt(s, 0)) == if from <= s < n then Device else Fault
    ensures RegionType(Stripes(from, n), PageAt(s, 1)) == Fault
    decreases n - from
  {
    if from < n {
      StripeTypes(from + 1, n, s);
      assert Stripes(from, n)[1..] == Stripes(from + 1, n);
    }
  }

  lemma {:induction false} StripesAreMixed(n: nat, s: nat)
    requires s <= n <= MEGABYTES
    ensures MixedBelow(Stripes(0, n), s) == s
  {
    hide RegionType, ExecOf, Stripes;
    if s > 0 {
      StripesAreMixed(n, s - 1);
      StripeTypes(0, n, s - 1);
      assert !SameAttributes(Stripes(0, n), PageAt(s - 1, 1), PageAt(s - 1, 0));
    }
  }

  /** Nine or more such regions: the second page of the ninth megabyte is mapped as device memory although
      nothing is listed there. */
  lemma NinthMegabyteIsWrong(n: nat, l1: seq<Word32>, l2: seq<Word32>, l2Base: Word32)
    requires L2_TABLES < n <= MEGABYTES
    requires Tables(l1, l2, l2Base) && BuiltBelow(Stripes(0, n), l1, l2, l2Base, MEGABYTES)
    ensures PageAligned(Stripes(0, n)) && MixedBelow(Stripes(0, n), n) == n
    ensures Kind(Lookup(l1, l2, l2Base, PageAt(8, 1))) == Device && RegionType(Stripes(0, n), PageAt(8, 1)) == Fault
  {
    hide RegionType, ExecOf, Stripes, Kind, Lookup, BuiltBelow, Tables, Uniform;
    StripesAreAligned(0, n);
    StripesAreMixed(n, 8);
    StripesAreMixed(n, n);
    StripeTypes(0, n, 8);
    PageAtParts(8, 1);
    WalkGivesRepresentative(Stripes(0, n), l1, l2, l2Base, PageAt(8, 1));
  }

  lemma {:induction false} StripesAreAligned(from: nat, n: nat)
    requires from <= n <= MEGABYTES
    ensures PageAligned(Stripes(from, n))
    decreases n - from
  {
    hide PageAt;
    if from < n {
      StripesAreAligned(from + 1, n);
      StripeIsAligned(from);
    }
  }

  lemma StripeIsAligned(s: nat)
    requires s < MEGABYTES
    ensures PageAt(s, 0) % 0x1000 == 0
  {
    assert PageAt(s, 0) == 0x1000 * (256 * s);
  }

  // ---- When the condition holds ----

  predicate PageAligned(rs: seq<Region>) {
    forall r :: r in rs ==> r.base % 0x1000 == 0 && r.size % 0x1000 == 0
  }

  lemma ContainsWholePage(r: Region, addr: Word32)
    requires r.base % 0x1000 == 0 && r.size % 0x1000 == 0
    ensures Contains(r, addr) <==> Contains(r, PageStart(addr))
  {
  }

  lemma {:induction false} AlignedPage(rs: seq<Region>, addr: Word32)
    requires PageAligned(rs)
    ensures SameAttributes(rs, addr, PageStart(addr))
  {
    hide PageStart, Contains;
    if rs != [] {
      assert rs[0] in rs;
      ContainsWholePage(rs[0], addr);
      AlignedPage(rs[1..], addr);
    }
  }

  /** Page-aligned regions, as the ownership map has them, leave only the number of mixed megabytes. */
  lemma AlignedIsPageGranular(rs: seq<Region>)
    requires PageAligned(rs)
    ensures PageGranular(rs)
  {
    forall addr: Word32 ensures SameAttributes(rs, addr, PageStart(addr)) { AlignedPage(rs, addr); }
  }

  /** A boundary of the region lies inside the megabyte. */
  predicate Splits(r: Region, s: nat) {
    (r.base / 0x10_0000 == s && r.base % 0x10_0000 != 0) ||
    ((r.base + r.size) / 0x10_0000 == s && (r.base + r.size) % 0x10_0000 != 0)
  }

  lemma UnsplitRegion(r: Region, s: nat, p: nat)
    requires s < MEGABYTES && p < L2_ENTRIES && !Splits(r, s)
    ensures Contains(r, PageAt(s, p)) <==> Contains(r, PageAt(s, 0))
  {
    var a, e := r.base, r.base + r.size;
    assert a == 0x10_0000 * (a / 0x10_0000) + a % 0x10_0000 && e == 0x10_0000 * (e / 0x10_0000) + e % 0x10_0000;
  }

  lemma {:induction false} UnsplitPage(rs: seq<Region>, s: nat, p: nat)
    requires s < MEGABYTES && p < L2_ENTRIES && forall r :: r in rs ==> !Splits(r, s)
    ensures SameAttributes(rs, PageAt(s, p), PageAt(s, 0))
  {
    hide PageAt, Contains, Splits;
    if rs != [] {
      assert rs[0] in rs;
      UnsplitRegion(rs[0], s, p);
      UnsplitPage(rs[1..], s, p);
    }
  }

  /** Only a megabyte with a region boundary inside can be mixed, so the number of those is a bound a
      board designer can count. */
  lemma {:induction false} MixedAreSplit(rs: seq<Region>, n: nat, split: set<nat>)
    requires n <= MEGABYTES && forall s, r :: 0 <= s < n && r in rs && Splits(r, s) ==> s in split
    ensures MixedBelow(rs, n) <= |split|
  {
    hide Splits, SameAttributes;
    if n > 0 {
      var s := n - 1;
      if Uniform(rs, s) {
        MixedAreSplit(rs, s, split);
      } else {
        var p :| 0 <= p < L2_ENTRIES && !SameAttributes(rs, PageAt(s, p), PageAt(s, 0));
        if forall r :: r in rs ==> !Splits(r, s) { UnsplitPage(rs, s, p); }
        MixedAreSplit(rs, s, split - {s});
      }
    }
  }

  /** The ownership map of the board. */
  function BoardRegions(): seq<Region> {
    [RegionEntry(0x3800_0000, 0x0100_0000, NormalWb, true),
     RegionEntry(0x3900_0000, 0x0010_0000, NormalNc, false),
     RegionEntry(0x3910_0000, 0x00F0_0000, NormalNc, false),
     RegionEntry(0x4040_0000, 0x0001_0000, Device, false),
     RegionEntry(0x4120_0000, 0x0001_0000, Device, false),
     RegionEntry(0x43C0_0000, 0x0001_0000, Device, false),
     RegionEntry(0xE000_0000, 0x0000_1000, Device, false),
     RegionEntry(0xF800_2000, 0x0000_1000, Device, false),
     RegionEntry(0xF8F0_0000, 0x0000_2000, Device, false)]
  }

  /** Six of its megabytes can be mixed, so the built tables are right everywhere. */
  lemma BoardTablesAgree(l1: seq<Word32>, l2: seq<Word32>, l2Base: Word32, addr: Word32)
    requires Tables(l1, l2, l2Base) && BuiltBelow(BoardRegions(), l1, l2, l2Base, MEGABYTES)
    ensures Agrees(BoardRegions(), l1, l2, l2Base, addr)
  {
    hide BuiltBelow, Tables, Agrees, MixedBelow, PageGranular;
    BoardFits();
    AgreesEverywhereIff(BoardRegions(), l1, l2, l2Base);
  }

  lemma BoardIsAligned()
    ensures PageAligned(BoardRegions())
  {
  }

  /** The megabytes with a region boundary inside. */
  function BoardSplit(): set<nat> { {0x404, 0x412, 0x43C, 0xE00, 0xF80, 0xF8F} }

  lemma BoardSplitsAt(r: Region, s: nat)
    requires r in BoardRegions() && Splits(r, s)
    ensures s in BoardSplit()
  {
    var i :| 0 <= i < 9 && r == BoardRegions()[i];
  }

  lemma BoardFits()
    ensures PageGranular(BoardRegions()) && MixedBelow(BoardRegions(), MEGABYTES) <= 6
  {
    hide PageGranular, MixedBelow, BoardRegions, Splits, BoardSplit, PageAligned;
    BoardIsAligned();
    AlignedIsPageGranular(BoardRegions());
    forall s, r | 0 <= s < MEGABYTES && r in BoardRegions() && Splits(r, s)
      ensures s in BoardSplit()
    {
      BoardSplitsAt(r, s);
    }
    MixedAreSplit(BoardRegions(), MEGABYTES, BoardSplit());
    SplitCount();
  }

  lemma SplitCount()
    ensures |BoardSplit()| == 6
  {
  }
}
