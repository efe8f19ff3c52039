/** Where an application processor's copy of init goes: the size gate that the boot
    processor applies before it publishes the AP entry, the slide an AP loads init with,
    and the regions of all cores. All addresses are those of the aarch64 layout. */
module ApRegions {
  import opened Wrappers
  import opened Bytes
  import opened Macho
  import opened MachoImage

  const CORE_REGION_BASE: nat := 0x4200_0000
  const CORE_REGION_SIZE: nat := 0x40_0000
  const CORE_KERNEL_OFFSET: nat := 0x00_0000
  const CORE_KERNEL_MAX_SIZE: nat := 0x10_0000
  const CORE_INIT_OFFSET: nat := 0x10_0000
  const CORE_INIT_MAX_SIZE: nat := 0x20_0000
  const CORE_STACK_OFFSET: nat := 0x30_0000
  const CORE_STACK_SIZE: nat := 0x08_0000
  const CORE_MAILBOX_OFFSET: nat := 0x38_0000
  const CORE_MAILBOX_SIZE: nat := 0x08_0000
  const CORE_DISCOVERY_OFFSET: nat := 0x39_0000
  const CORE_DISCOVERY_SIZE: nat := 0x48
  const CORE_PGTABLE_OFFSET: nat := 0x3A_0000
  const CORE_PGTABLE_SIZE: nat := 0x4000
  const BSP_INIT_LOAD_BASE: nat := 0x4020_0000

  /** Core `i`, from 1 on. */
  function RegionBase(core: nat): nat
    requires core >= 1
  {
    CORE_REGION_BASE + (core - 1) * CORE_REGION_SIZE
  }

  /** The region lies in the address space. */
  predicate HasRegion(core: nat) {
    core >= 1 && RegionBase(core) + CORE_REGION_SIZE <= TWO64
  }

  /** The boot processor publishes the copied-image AP entry. */
  predicate Publishes(imageLen: nat, footprint: nat) {
    imageLen <= CORE_KERNEL_MAX_SIZE && footprint != 0 && footprint <= CORE_INIT_MAX_SIZE
  }

  /** `region_base + CORE_INIT_OFFSET - BSP_INIT_LOAD_BASE`, in 64-bit arithmetic. */
  function Slide(core: nat): Word
    requires HasRegion(core)
  {
    (RegionBase(core) + CORE_INIT_OFFSET - BSP_INIT_LOAD_BASE) % TWO64
  }

  /** The address lies in a window of a core's region. */
  predicate InWindow(core: nat, off: nat, size: nat, a: int)
    requires core >= 1
  {
    RegionBase(core) + off <= a < RegionBase(core) + off + size
  }

  predicate InInitSlot(core: nat, a: int)
    requires core >= 1
  {
    InWindow(core, CORE_INIT_OFFSET, CORE_INIT_MAX_SIZE, a)
  }

  /** The address lies in the part of the core's region from its init slot on. */
  predicate FromInitSlotOn(core: nat, a: int)
    requires core >= 1
  {
    InWindow(core, CORE_INIT_OFFSET, CORE_REGION_SIZE - CORE_INIT_OFFSET, a)
  }

  /** The loader writes the address `a` when it loads with this slide. */
  ghost predicate Writes(cs: seq<Command>, slide: Word, a: Word) {
    exists i :: 0 <= i < |cs| && Covers(cs[i], Past(slide, a))
  }

  // ----- The extremes that the size is computed from -----

  lemma {:induction false} LowestHighest(cs: seq<Command>, i: nat)
    requires i < |cs| && Counts(cs[i])
    ensures Lowest(cs) <= cs[i].vmaddr && End(cs[i]) <= Highest(cs)
    decreases |cs|
  {
    hide End;
    if i < |cs| - 1 {
      LowestHighest(cs[..|cs| - 1], i);
    }
  }

  /** What the gate takes for granted: file bytes fit in the segment, and its end does not
      wrap around. */
  predicate WellFormed(c: Command) {
    Counts(c) ==> c.filesize <= c.vmsize && c.vmaddr + c.vmsize < TWO64
  }

  lemma FootprintBounds(cs: seq<Command>, i: nat)
    requires forall j :: 0 <= j < |cs| ==> WellFormed(cs[j])
    requires i < |cs| && Counts(cs[i])
    ensures Lowest(cs) <= cs[i].vmaddr && cs[i].vmaddr + cs[i].vmsize <= Lowest(cs) + Footprint(cs)
  {
    hide Lowest, Highest;
    LowestHighest(cs, i);
    assert WellFormed(cs[i]);
    assert AnyCounts(cs);
  }

  /** Which unslid addresses end up in the core's init slot. */
  lemma SlotHolds(core: nat, a: Word)
    requires HasRegion(core)
    ensures InInitSlot(core, a) <==>
            BSP_INIT_LOAD_BASE <= Past(Slide(core), a) < BSP_INIT_LOAD_BASE + CORE_INIT_MAX_SIZE
  {
    hide RegionBase;
  }

  lemma PastOnto(slide: Word, x: Word)
    ensures Past(slide, Plus(slide, x)) == x
  {
  }

  /** The segment lies in the two megabytes from init's load base. */
  predicate Fits(c: Command)
    requires c.Segment?
  {
    BSP_INIT_LOAD_BASE <= c.vmaddr && c.vmaddr + Extent(c) <= BSP_INIT_LOAD_BASE + CORE_INIT_MAX_SIZE
  }

  /** Outside those, a segment has an address at its first byte or just past them. */
  lemma FitsIff(c: Command)
    requires Loads(c)
    ensures Fits(c) <==>
            forall x: Word :: Covers(c, x) ==> BSP_INIT_LOAD_BASE <= x < BSP_INIT_LOAD_BASE + CORE_INIT_MAX_SIZE
  {
    hide Extent;
    ExtentFits(c);
    var first: Word, past: Word := c.vmaddr, BSP_INIT_LOAD_BASE + CORE_INIT_MAX_SIZE;
    assert Covers(c, first);
    if BSP_INIT_LOAD_BASE <= first < past && !Fits(c) {
      assert Covers(c, past);
    }
  }

  /** Every byte that an AP's load of init writes lies in that core's init slot, if and only
      if every loaded segment lies in the two megabytes from init's load base. */
  lemma ContainedIff(cs: seq<Command>, core: nat)
    requires HasRegion(core)
    ensures (forall a: Word :: Writes(cs, Slide(core), a) ==> InInitSlot(core, a)) <==>
            (forall i :: 0 <= i < |cs| && Loads(cs[i]) ==> Fits(cs[i]))
  {
    hide Slide, Plus, Past, InInitSlot, RegionBase, Covers, Fits;
    if forall a: Word :: Writes(cs, Slide(core), a) ==> InInitSlot(core, a) {
      forall i | 0 <= i < |cs| && Loads(cs[i]) ensures Fits(cs[i]) {
        FitsIff(cs[i]);
        forall x: Word | Covers(cs[i], x)
          ensures BSP_INIT_LOAD_BASE <= x < BSP_INIT_LOAD_BASE + CORE_INIT_MAX_SIZE
        {
          PastOnto(Slide(core), x);
          assert Writes(cs, Slide(core), Plus(Slide(core), x));
          SlotHolds(core, Plus(Slide(core), x));
        }
      }
    }
    if forall i :: 0 <= i < |cs| && Loads(cs[i]) ==> Fits(cs[i]) {
      forall a: Word | Writes(cs, Slide(core), a) ensures InInitSlot(core, a) {
        var i :| 0 <= i < |cs| && Covers(cs[i], Past(Slide(core), a));
        CoversLoads(cs[i], Past(Slide(core), a));
        FitsIff(cs[i]);
        SlotHolds(core, a);
      }
    }
  }

  lemma CoversLoads(c: Command, x: Word)
    requires Covers(c, x)
    ensures Loads(c)
  {
  }

  /** What the gate does not look at: that the end of a segment does not wrap around, and
      that its file bytes end where the slot does. */
  predicate EndsInside(c: Command)
    requires c.Segment?
  {
    c.vmaddr + c.vmsize < TWO64 && c.vmaddr + c.filesize <= BSP_INIT_LOAD_BASE + CORE_INIT_MAX_SIZE
  }

  /** Past the gate, and with init's lowest file-backed address at its load base, an AP's load
      stays in its slot if and only if what the gate does not look at is so. */
  lemma PublishedContainedIff(cs: seq<Command>, imageLen: nat, core: nat)
    requires HasRegion(core) && Publishes(imageLen, Footprint(cs)) && Lowest(cs) == BSP_INIT_LOAD_BASE
    ensures (forall a: Word :: Writes(cs, Slide(core), a) ==> InInitSlot(core, a)) <==>
            (forall i :: 0 <= i < |cs| && Loads(cs[i]) ==> EndsInside(cs[i]))
  {
    hide Slide, InInitSlot, Footprint, Lowest, Writes;
    ContainedIff(cs, core);
    forall i | 0 <= i < |cs| && Loads(cs[i]) ensures Fits(cs[i]) <==> EndsInside(cs[i]) {
      GateFits(cs, imageLen, i);
    }
  }

  lemma GateFits(cs: seq<Command>, imageLen: nat, i: nat)
    requires Publishes(imageLen, Footprint(cs)) && Lowest(cs) == BSP_INIT_LOAD_BASE
    requires i < |cs| && Loads(cs[i])
    ensures Fits(cs[i]) <==> EndsInside(cs[i])
  {
    hide Lowest, Highest;
    LowestHighest(cs, i);
    assert Counts(cs[i]) && AnyCounts(cs);
  }

  /** Whenever the boot processor publishes the AP entry, and init's lowest file-backed
      address is its load base, every AP loads init into its own slot. */
  lemma PublishedInitStaysInSlot(cs: seq<Command>, imageLen: nat, core: nat, a: Word)
    requires HasRegion(core) && Publishes(imageLen, Footprint(cs)) && Lowest(cs) == BSP_INIT_LOAD_BASE
    requires forall j :: 0 <= j < |cs| ==> WellFormed(cs[j])
    requires Writes(cs, Slide(core), a)
    ensures InInitSlot(core, a)
  {
    hide Slide, RegionBase, Footprint, Lowest, Writes, InInitSlot;
    forall i | 0 <= i < |cs| && Loads(cs[i]) ensures EndsInside(cs[i]) {
      assert WellFormed(cs[i]);
      GateBounds(cs, imageLen, i);
    }
    PublishedContainedIff(cs, imageLen, core);
  }

  lemma GateBounds(cs: seq<Command>, imageLen: nat, i: nat)
    requires Publishes(imageLen, Footprint(cs)) && Lowest(cs) == BSP_INIT_LOAD_BASE
    requires forall j :: 0 <= j < |cs| ==> WellFormed(cs[j])
    requires i < |cs| && Loads(cs[i])
    ensures cs[i].vmaddr + cs[i].filesize <= BSP_INIT_LOAD_BASE + CORE_INIT_MAX_SIZE
  {
    hide Lowest, Footprint;
    assert WellFormed(cs[i]) && Counts(cs[i]);
    FootprintBounds(cs, i);
  }

  /** The slot is apart from the core's kernel copy, stack, discovery record and page tables,
      and from all of every other core's region. */
  lemma SlotIsApart(core: nat, other: nat, a: int)
    requires core >= 1 && other >= 1 && InInitSlot(core, a)
    ensures !InWindow(core, CORE_KERNEL_OFFSET, CORE_KERNEL_MAX_SIZE, a)
    ensures !InWindow(core, CORE_STACK_OFFSET, CORE_STACK_SIZE, a)
    ensures !InWindow(core, CORE_MAILBOX_OFFSET, CORE_MAILBOX_SIZE, a)
    ensures !InWindow(core, CORE_DISCOVERY_OFFSET, CORE_DISCOVERY_SIZE, a)
    ensures !InWindow(core, CORE_PGTABLE_OFFSET, CORE_PGTABLE_SIZE, a)
    ensures other != core ==> !InWindow(other, 0, CORE_REGION_SIZE, a)
  {
    if other < core {
      assert RegionBase(other) + CORE_REGION_SIZE <= RegionBase(core);
    } else if core < other {
      assert RegionBase(core) + CORE_REGION_SIZE <= RegionBase(other);
    }
  }

  /** An address that no segment writes keeps its byte. */
  lemma LoadChangesOnlyWrites(mem: Memory, s: seq<byte>, cs: seq<Command>, slide: Word, a: Word)
    requires FileBacked(s, cs) && !Writes(cs, slide, a)
    ensures var m := Loaded(mem, s, cs, slide); (a in m <==> a in mem) && (a in m ==> m[a] == mem[a])
  {
    hide Loaded, ByteAt, Plus, Past, Covers, FileBacked;
    var x := Past(slide, a);
    PlusPast(slide, a);
    OutsideSegments(s, cs, x);
    LoadedAt(mem, s, cs, slide, x);
  }

  /** ...and every address that one writes gets a byte of the image. */
  lemma LoadWrites(mem: Memory, s: seq<byte>, cs: seq<Command>, slide: Word, a: Word)
    requires FileBacked(s, cs) && Writes(cs, slide, a)
    ensures a in Loaded(mem, s, cs, slide) && ByteAt(s, cs, Past(slide, a)) == Some(Loaded(mem, s, cs, slide)[a])
  {
    hide Loaded, ByteAt, Plus, Past, Covers, FileBacked;
    PlusPast(slide, a);
    OutsideSegments(s, cs, Past(slide, a));
    LoadedAt(mem, s, cs, slide, Past(slide, a));
  }

  lemma PlusPast(base: Word, a: Word)
    ensures Plus(base, Past(base, a)) == a
  {
  }

  // ----- The application processor's load -----

  const CPU_TYPE_ARM64: nat := 0x0100_000c

  /** The commands of the init that is embedded in the kernel's image. */
  ghost function InitCommands(image: seq<byte>): seq<Command>
    requires Legible(image, CPU_TYPE_ARM64)
  {
    var s := NativeSlice(image, CPU_TYPE_ARM64);
    if s.None? then [] else SliceCommands(s.value)
  }

  /** The boot processor has published the AP entry for this init, a part of its own image of
      `imageLen` bytes, and init's lowest file-backed address is its load base. */
  ghost predicate Published(image: seq<byte>, imageLen: nat) {
    && Sound(image, CPU_TYPE_ARM64) && |image| <= imageLen
    && Publishes(imageLen, SizeOf(image, CPU_TYPE_ARM64)) && Lowest(InitCommands(image)) == BSP_INIT_LOAD_BASE
  }

  ghost predicate AllEndInside(cs: seq<Command>) {
    forall i :: 0 <= i < |cs| && Loads(cs[i]) ==> EndsInside(cs[i])
  }

  ghost predicate NoEndWraps(cs: seq<Command>) {
    forall i :: 0 <= i < |cs| && Loads(cs[i]) ==> cs[i].vmaddr + cs[i].vmsize < TWO64
  }

  /** Init's file bytes are in an image that the gate holds to a megabyte, so as long as no end
      wraps around, a load goes at most that far past the slot. */
  lemma PublishedStaysInRegion(s: seq<byte>, cs: seq<Command>, imageLen: nat, core: nat, a: Word)
    requires HasRegion(core) && Publishes(imageLen, Footprint(cs)) && Lowest(cs) == BSP_INIT_LOAD_BASE
    requires FileBacked(s, cs) && |s| <= imageLen && NoEndWraps(cs) && Writes(cs, Slide(core), a)
    ensures FromInitSlotOn(core, a)
  {
    hide Slide, Footprint, Lowest, FromInitSlotOn, Covers, Past;
    var i :| 0 <= i < |cs| && Covers(cs[i], Past(Slide(core), a));
    CoversLoads(cs[i], Past(Slide(core), a));
    GateMeasures(cs, imageLen, i);
    CoveredBefore(cs[i], Past(Slide(core), a), BSP_INIT_LOAD_BASE + (CORE_REGION_SIZE - CORE_INIT_OFFSET));
    RegionHolds(core, a);
  }

  lemma GateMeasures(cs: seq<Command>, imageLen: nat, i: nat)
    requires Publishes(imageLen, Footprint(cs)) && Lowest(cs) == BSP_INIT_LOAD_BASE
    requires i < |cs| && Loads(cs[i]) && cs[i].vmaddr + cs[i].vmsize < TWO64
    ensures BSP_INIT_LOAD_BASE <= cs[i].vmaddr
    ensures cs[i].vmaddr + cs[i].vmsize <= BSP_INIT_LOAD_BASE + CORE_INIT_MAX_SIZE
  {
    hide Lowest, Highest;
    LowestHighest(cs, i);
    assert Counts(cs[i]) && AnyCounts(cs);
  }

  lemma CoveredBefore(c: Command, x: Word, end: nat)
    requires Covers(c, x) && c.vmaddr + Extent(c) <= end <= TWO64
    ensures c.vmaddr <= x < end
  {
    hide Extent;
  }

  lemma RegionHolds(core: nat, a: Word)
    requires HasRegion(core)
    ensures FromInitSlotOn(core, a) <==>
            BSP_INIT_LOAD_BASE <= Past(Slide(core), a) < BSP_INIT_LOAD_BASE + (CORE_REGION_SIZE - CORE_INIT_OFFSET)
  {
    hide RegionBase;
  }

  /** The address holds, or does not hold, what it did. */
  predicate Same(m: Memory, n: Memory, a: Word) {
    (a in m <==> a in n) && (a in m ==> m[a] == n[a])
  }

  /** What a load of a published init with this core's slide leaves alone. */
  lemma ApLoadStaysInSlot(mem: Memory, image: seq<byte>, imageLen: nat, core: nat, a: Word)
    requires HasRegion(core) && Published(image, imageLen) && NativeSlice(image, CPU_TYPE_ARM64).Some?
    ensures var s, cs := NativeSlice(image, CPU_TYPE_ARM64).value, InitCommands(image);
            && (AllEndInside(cs) && !InInitSlot(core, a) ==> Same(Loaded(mem, s, cs, Slide(core)), mem, a))
            && (NoEndWraps(cs) && !FromInitSlotOn(core, a) ==>
                  Same(Loaded(mem, s, cs, Slide(core)), mem, a))
  {
    hide Slide, Footprint, Lowest, Loaded, Writes, InInitSlot, FromInitSlotOn, FileBacked, SliceCommands, Legible;
    var s, cs := NativeSlice(image, CPU_TYPE_ARM64).value, InitCommands(image);
    SliceIsShorter(image);
    if !Writes(cs, Slide(core), a) {
      LoadChangesOnlyWrites(mem, s, cs, Slide(core), a);
    } else {
      PublishedContainedIff(cs, imageLen, core);
      if NoEndWraps(cs) {
        PublishedStaysInRegion(s, cs, imageLen, core, a);
      }
    }
  }

  lemma SliceIsShorter(image: seq<byte>)
    requires Legible(image, CPU_TYPE_ARM64)
    ensures var s := NativeSlice(image, CPU_TYPE_ARM64); s.Some? ==> |s.value| <= |image|
  {
  }

  /** `kernel_boot_ap_aarch64`, up to its load of init: memory outside the core's init slot is
      as it was, if every segment ends inside; and memory outside the rest of the core's own
      region is, as long as no segment's end wraps around. */
  method LoadInitOnAp(ram: Ram, image: seq<byte>, core: nat, ghost imageLen: nat) returns (entry: Word)
    requires HasRegion(core) && Published(image, imageLen)
    modifies ram
    ensures forall a: Word :: AllEndInside(InitCommands(image)) && !InInitSlot(core, a) ==>
              Same(ram.bytes, old(ram.bytes), a)
    ensures forall a: Word :: NoEndWraps(InitCommands(image)) && !FromInitSlotOn(core, a) ==>
              Same(ram.bytes, old(ram.bytes), a)
  {
    hide Slide, Lowest, Loaded, InInitSlot, FromInitSlotOn, FileBacked, SliceCommands, Legible, AllEndInside, NoEndWraps,
         NativeSlice, EntryOf;
    var slide := (RegionBase(core) + CORE_INIT_OFFSET - BSP_INIT_LOAD_BASE) % TWO64;
    SlideIs(core);
    entry := Load(ram, image, CPU_TYPE_ARM64, slide);
    if NativeSlice(image, CPU_TYPE_ARM64).Some? {
      forall a: Word
        ensures AllEndInside(InitCommands(image)) && !InInitSlot(core, a) ==> Same(ram.bytes, old(ram.bytes), a)
        ensures NoEndWraps(InitCommands(image)) && !FromInitSlotOn(core, a) ==>
                  Same(ram.bytes, old(ram.bytes), a)
      {
        ApLoadStaysInSlot(old(ram.bytes), image, imageLen, core, a);
      }
    }
  }

  lemma SlideIs(core: nat)
    requires HasRegion(core)
    ensures Slide(core) == (RegionBase(core) + CORE_INIT_OFFSET - BSP_INIT_LOAD_BASE) % TWO64
  {
  }

  // ----- Images that get past the gate and out of the slot -----

  /** The boot processor gets as far as the gate, and through it: init's file is a part of its
      image, its own load of it, at base 0, finds an entry point, and the sizes are right. */
  ghost predicate GetsThrough(s: seq<byte>, cs: seq<Command>, imageLen: nat) {
    && FileBacked(s, cs) && |s| <= imageLen
    && EntryOf(cs, 0).Some? && EntryOf(cs, 0).value != 0
    && Publishes(imageLen, Footprint(cs)) && Lowest(cs) == BSP_INIT_LOAD_BASE
  }

  /** What two segments and an entry point in the first amount to. */
  lemma TwoSegments(c: Command, d: Command, off: Word)
    requires c.Segment? && d.Segment? && Counts(c) && Counts(d)
    requires c.fileoff == 0 && off < c.filesize && c.vmaddr + off < TWO64
    ensures var cs := [c, d, Main(off)];
            && EntryOf(cs, 0) == Some(c.vmaddr + off)
            && Lowest(cs) == (if d.vmaddr < c.vmaddr then d.vmaddr else c.vmaddr)
            && Highest(cs) == (if End(d) > End(c) then End(d) else End(c))
            && AnyCounts(cs)
  {
    var cs := [c, d, Main(off)];
    assert cs[..2] == [c, d] && [c, d][..1] == [c] && [c][..0] == [];
    assert Lowest([c]) == c.vmaddr;
    assert Highest([c]) == End(c);
    assert Counts(cs[0]);
  }

  /** A last page of the address space: its end wraps around to zero, so the gate measures
      nothing of it, and the slide moves it to just below the slide itself. */
  lemma WrappedSegmentEscapes(s: seq<byte>)
    requires |s| == 0x1000
    ensures var cs := [Segment(BSP_INIT_LOAD_BASE, 0x1000, 0, 0x1000),
                       Segment(TWO64 - 0x1000, 0x1000, 0, 0x1000), Main(0x800)];
            GetsThrough(s, cs, 0x2000) && exists a: Word :: Writes(cs, Slide(1), a) && !InInitSlot(1, a)
  {
    hide Lowest, Highest, EntryOf, Slide, Writes, InInitSlot;
    var c, d := Segment(BSP_INIT_LOAD_BASE, 0x1000, 0, 0x1000), Segment(TWO64 - 0x1000, 0x1000, 0, 0x1000);
    TwoSegments(c, d, 0x800);
    Escapes([c, d, Main(0x800)], 1);
  }

  /** A segment in the slot's last page with more file bytes than memory, and no sum that wraps:
      the gate measures memory, the loader copies the file bytes. */
  lemma LongFileEscapes(s: seq<byte>)
    requires |s| == 0x8_0000
    ensures var cs := [Segment(BSP_INIT_LOAD_BASE, 0x1000, 0, 0x1000),
                       Segment(BSP_INIT_LOAD_BASE + 0x1f_f000, 0x1000, 0, 0x8_0000), Main(0x800)];
            GetsThrough(s, cs, 0x9_0000) && exists a: Word :: Writes(cs, Slide(1), a) && !InInitSlot(1, a)
  {
    hide Lowest, Highest, EntryOf, Slide, Writes, InInitSlot;
    var c, d := Segment(BSP_INIT_LOAD_BASE, 0x1000, 0, 0x1000),
                Segment(BSP_INIT_LOAD_BASE + 0x1f_f000, 0x1000, 0, 0x8_0000);
    TwoSegments(c, d, 0x800);
    Escapes([c, d, Main(0x800)], 1);
  }

  lemma Escapes(cs: seq<Command>, i: nat)
    requires i < |cs| && Loads(cs[i]) && !Fits(cs[i])
    ensures exists a: Word :: Writes(cs, Slide(1), a) && !InInitSlot(1, a)
  {
    hide Slide, InInitSlot, Writes, Fits;
    assert HasRegion(1);
    ContainedIff(cs, 1);
  }
}
