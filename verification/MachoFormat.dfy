/** Mach-O files as they are written: load commands and fat tables field by field, what the
    loader reads of them, and what memory holds after it, in terms of the fields. */
module MachoFormat {
  import opened Wrappers
  import opened Bytes
  import opened Macho
  import opened MachoImage

  // ----- Load commands -----

  /** A command as it is written: a segment's name and fields, with sections after them; an
      entry point and its stack size; or anything else. */
  datatype Written =
    | Seg(name: seq<byte>, vmaddr: Word, vmsize: Word, fileoff: Word, filesize: Word, rest: seq<byte>)
    | Entry(entryoff: Word, stacksize: Word, rest: seq<byte>)
    | Unknown(number: nat, rest: seq<byte>)

  function Body(c: Written): seq<byte> {
    match c
    case Seg(name, vmaddr, vmsize, fileoff, filesize, rest) =>
      name + (LeBytes(vmaddr, 8) + (LeBytes(vmsize, 8) + (LeBytes(fileoff, 8) + (LeBytes(filesize, 8) + rest))))
    case Entry(entryoff, stacksize, rest) => LeBytes(entryoff, 8) + (LeBytes(stacksize, 8) + rest)
    case Unknown(_, rest) => rest
  }

  function Number(c: Written): nat {
    match c
    case Seg(_, _, _, _, _, _) => LC_SEGMENT_64
    case Entry(_, _, _) => LC_MAIN
    case Unknown(n, _) => n
  }

  /** Names have sixteen bytes; a segment has its four words of flags after the fields; other
      commands have other numbers; and the size fits its field. */
  predicate Proper(c: Written) {
    && 8 + |Body(c)| < TWO32 && Number(c) < TWO32
    && (c.Seg? ==> |c.name| == 16 && |c.rest| >= 16)
    && (c.Unknown? ==> c.number != LC_SEGMENT_64 && c.number != LC_MAIN)
  }

  /** Number, size, and what belongs to the command. */
  function CommandBytes(c: Written): (b: seq<byte>)
    ensures |b| == 8 + |Body(c)|
  {
    LeBytes(Number(c), 4) + (LeBytes(8 + |Body(c)|, 4) + Body(c))
  }

  /** What the loader should see of it. */
  function Seen(c: Written): Command {
    match c
    case Seg(_, vmaddr, vmsize, fileoff, filesize, _) => Segment(vmaddr, vmsize, fileoff, filesize)
    case Entry(entryoff, _, _) => Main(entryoff)
    case Unknown(_, _) => Other
  }

  lemma HeadIsRead(s: seq<byte>, p: nat, c: Written)
    requires Proper(c) && HasAt(s, p, CommandBytes(c))
    ensures p + 8 <= |s| && Le32(s, p) == Number(c) && Le32(s, p + 4) == 8 + |Body(c)| && HasAt(s, p + 8, Body(c))
  {
    hide LeBytes, Le, Body, Number;
    Pow256Values();
    HasAtConcat(s, p, LeBytes(Number(c), 4), LeBytes(8 + |Body(c)|, 4) + Body(c));
    LeRoundTrip(s, p, Number(c), 4);
    HasAtConcat(s, p + 4, LeBytes(8 + |Body(c)|, 4), Body(c));
    LeRoundTrip(s, p + 4, 8 + |Body(c)|, 4);
  }

  lemma Field(s: seq<byte>, p: nat, v: Word, rest: seq<byte>)
    requires HasAt(s, p, LeBytes(v, 8) + rest)
    ensures p + 8 <= |s| && Le64(s, p) == v && HasAt(s, p + 8, rest)
  {
    hide LeBytes, Le;
    Pow256Values();
    HasAtConcat(s, p, LeBytes(v, 8), rest);
    LeRoundTrip(s, p, v, 8);
  }

  lemma SegmentIsRead(s: seq<byte>, p: nat, c: Written)
    requires c.Seg? && Proper(c) && HasAt(s, p, Body(c)) && p >= 8
    ensures p + 64 <= |s|
    ensures Le64(s, p + 16) == c.vmaddr && Le64(s, p + 24) == c.vmsize
    ensures Le64(s, p + 32) == c.fileoff && Le64(s, p + 40) == c.filesize
  {
    hide LeBytes, Le64;
    var d := LeBytes(c.filesize, 8) + c.rest;
    var e := LeBytes(c.fileoff, 8) + d;
    var f := LeBytes(c.vmsize, 8) + e;
    HasAtConcat(s, p, c.name, LeBytes(c.vmaddr, 8) + f);
    Field(s, p + 16, c.vmaddr, f);
    Field(s, p + 24, c.vmsize, e);
    Field(s, p + 32, c.fileoff, d);
    Field(s, p + 40, c.filesize, c.rest);
  }

  /** Every field is read back, wherever the command stands. */
  lemma CommandIsRead(s: seq<byte>, p: nat, c: Written)
    requires Proper(c) && HasAt(s, p, CommandBytes(c))
    ensures p + 8 <= |s| && Le32(s, p + 4) == |CommandBytes(c)|
    ensures Le32(s, p) == LC_SEGMENT_64 ==> p + SEGMENT_SIZE <= |s|
    ensures Le32(s, p) == LC_MAIN ==> p + MAIN_SIZE <= |s|
    ensures CommandAt(s, p) == Seen(c)
  {
    hide Le32, Le64, LeBytes, CommandBytes;
    HeadIsRead(s, p, c);
    CommandLength(c);
    match c
    case Seg(_, _, _, _, _, _) => SegmentIsRead(s, p + 8, c);
    case Entry(entryoff, stacksize, rest) =>
      Field(s, p + 8, entryoff, LeBytes(stacksize, 8) + rest);
      Field(s, p + 16, stacksize, rest);
    case Unknown(_, _) =>
  }

  lemma CommandLength(c: Written)
    ensures |CommandBytes(c)| == 8 + |Body(c)|
  {
  }

  function AllBytes(cs: seq<Written>): seq<byte> {
    if cs == [] then [] else CommandBytes(cs[0]) + AllBytes(cs[1..])
  }

  function AllSeen(cs: seq<Written>): (r: seq<Command>)
    ensures |r| == |cs| && forall i :: 0 <= i < |cs| ==> r[i] == Seen(cs[i])
  {
    seq(|cs|, i requires 0 <= i < |cs| => Seen(cs[i]))
  }

  lemma {:induction false} CommandsAreRead(s: seq<byte>, p: nat, cs: seq<Written>)
    requires (forall i :: 0 <= i < |cs| ==> Proper(cs[i])) && HasAt(s, p, AllBytes(cs))
    ensures Readable(s, p, |cs|) && Commands(s, p, |cs|) == AllSeen(cs)
    decreases |cs|
  {
    hide Le32, Proper, CommandBytes, CommandAt, Seen;
    if cs != [] {
      HasAtConcat(s, p, CommandBytes(cs[0]), AllBytes(cs[1..]));
      assert Proper(cs[0]);
      CommandIsRead(s, p, cs[0]);
      CommandsAreRead(s, p + |CommandBytes(cs[0])|, cs[1..]);
      assert AllSeen(cs) == [Seen(cs[0])] + AllSeen(cs[1..]);
    }
  }

  /** A slice as it is written: magic number, processor, three words that the loader does not
      look at, the number of commands, three more, and the commands. */
  function SliceStart(cpu: nat, mid: seq<byte>, late: seq<byte>, cs: seq<Written>): seq<byte> {
    LeBytes(MH_MAGIC_64, 4) + (LeBytes(cpu, 4) + (mid + (LeBytes(|cs|, 4) + (late + AllBytes(cs)))))
  }

  ghost predicate IsSlice(s: seq<byte>, cpu: nat, cs: seq<Written>) {
    && cpu < TWO32 && |cs| < TWO32 && (forall i :: 0 <= i < |cs| ==> Proper(cs[i]))
    && exists mid, late :: |mid| == 8 && |late| == 12 && HasAt(s, 0, SliceStart(cpu, mid, late, cs))
  }

  /** The loader finds the processor and all commands, in order. */
  lemma SliceIsRead(s: seq<byte>, cpu: nat, cs: seq<Written>)
    requires IsSlice(s, cpu, cs)
    ensures ReadableSlice(s) && SliceCommands(s) == AllSeen(cs)
    ensures forall native :: IsNative(s, native) <==> native == cpu
  {
    hide LeBytes, Le, Proper, AllBytes, Readable, Commands;
    var mid, late :| |mid| == 8 && |late| == 12 && HasAt(s, 0, SliceStart(cpu, mid, late, cs));
    Pow256Values();
    var e := late + AllBytes(cs);
    var d := LeBytes(|cs|, 4) + e;
    HasAtConcat(s, 0, LeBytes(MH_MAGIC_64, 4), LeBytes(cpu, 4) + (mid + d));
    LeRoundTrip(s, 0, MH_MAGIC_64, 4);
    HasAtConcat(s, 4, LeBytes(cpu, 4), mid + d);
    LeRoundTrip(s, 4, cpu, 4);
    HasAtConcat(s, 8, mid, d);
    HasAtConcat(s, 16, LeBytes(|cs|, 4), e);
    LeRoundTrip(s, 16, |cs|, 4);
    HasAtConcat(s, 20, late, AllBytes(cs));
    CommandsAreRead(s, HEADER_SIZE, cs);
  }

  // ----- What memory holds -----

  /** The segment has a byte `k`: it is backed by the file and not empty in memory, and `k` is in
      its file bytes or in its memory. */
  predicate HasByte(c: Written, k: nat) {
    c.Seg? && c.filesize != 0 && c.vmsize != 0 && (k < c.filesize || k < c.vmsize)
  }

  /** Where it goes, and what it is: the file's byte, or zero past the file's. */
  function PlaceOf(c: Written, base: Word, k: nat): Word
    requires c.Seg?
  {
    (base + c.vmaddr + k) % TWO64
  }

  /** No two segments have a byte at one place. */
  ghost predicate SegmentsApart(cs: seq<Written>) {
    forall i, j, k: nat, l: nat :: 0 <= i < j < |cs| && HasByte(cs[i], k) && HasByte(cs[j], l) ==>
      PlaceOf(cs[i], 0, k) != PlaceOf(cs[j], 0, l)
  }

  /** The file has the bytes that segments take from it. */
  predicate BytesInFile(s: seq<byte>, cs: seq<Written>) {
    forall i :: 0 <= i < |cs| && cs[i].Seg? && cs[i].filesize != 0 ==> cs[i].fileoff + cs[i].filesize <= |s|
  }

  lemma SeenIsBacked(s: seq<byte>, cs: seq<Written>)
    requires BytesInFile(s, cs)
    ensures FileBacked(s, AllSeen(cs))
  {
    forall i | 0 <= i < |AllSeen(cs)| && Loads(AllSeen(cs)[i])
      ensures AllSeen(cs)[i].fileoff + AllSeen(cs)[i].filesize <= |s|
    {
      assert cs[i].Seg?;
    }
  }

  lemma HasByteIff(c: Written, k: nat)
    ensures HasByte(c, k) <==> Loads(Seen(c)) && k < Extent(Seen(c))
    ensures HasByte(c, k) ==> k < TWO64
  {
  }

  lemma PlaceIs(c: Written, base: Word, k: nat)
    requires c.Seg? && k < TWO64
    ensures PlaceOf(c, base, k) == Plus(base, Plus(c.vmaddr, k))
  {
    hide Plus;
    PlusIs(base, c.vmaddr, k);
  }

  lemma PlusIs(base: Word, v: Word, k: nat)
    ensures (base + v + k) % TWO64 == Plus(base, Plus(v, k))
  {
    ModAdd(v + k, base);
  }

  lemma SeenAreDisjoint(cs: seq<Written>)
    requires SegmentsApart(cs)
    ensures Disjoint(AllSeen(cs))
  {
    hide PlaceOf, Covers, HasByte;
    forall i, j | 0 <= i < j < |cs| ensures Apart(Seen(cs[i]), Seen(cs[j])) {
      forall x: Word ensures !(Covers(Seen(cs[i]), x) && Covers(Seen(cs[j]), x)) {
        if Covers(Seen(cs[i]), x) {
          CoveredHasByte(cs[i], x);
          if Covers(Seen(cs[j]), x) {
            CoveredHasByte(cs[j], x);
          }
        }
      }
    }
  }

  lemma CoveredHasByte(c: Written, x: Word)
    requires Covers(Seen(c), x)
    ensures c.Seg? && HasByte(c, Past(c.vmaddr, x)) && PlaceOf(c, 0, Past(c.vmaddr, x)) == x
  {
    HasByteIff(c, Past(Seen(c).vmaddr, x));
    BackAgain(c.vmaddr, x);
  }

  lemma BackAgain(v: Word, x: Word)
    ensures (0 + v + Past(v, x)) % TWO64 == x
  {
  }

  /** Every byte of every segment stands at its place, after a load with any slide. */
  lemma LoadedByte(mem: Memory, s: seq<byte>, cs: seq<Written>, base: Word, i: nat, k: nat)
    requires BytesInFile(s, cs) && SegmentsApart(cs) && i < |cs| && HasByte(cs[i], k)
    ensures FileBacked(s, AllSeen(cs)) && cs[i].Seg?
    ensures StandsIn(Loaded(mem, s, AllSeen(cs), base), s, cs[i], base, k)
  {
    hide Loaded, ByteAt, SegmentsApart, Disjoint, Plus, Extent;
    var all := AllSeen(cs);
    SeenIsBacked(s, cs);
    SeenAreDisjoint(cs);
    HasByteIff(cs[i], k);
    PlaceIs(cs[i], base, k);
    SegmentBytes(s, all, i, k);
    LoadedAt(mem, s, all, base, Plus(all[i].vmaddr, k));
  }

  /** No byte of the segments goes to the address. */
  ghost predicate NobodysPlace(cs: seq<Written>, base: Word, a: Word) {
    forall i, k: nat :: 0 <= i < |cs| && HasByte(cs[i], k) ==> PlaceOf(cs[i], base, k) != a
  }

  /** The byte stands at its place. */
  predicate StandsIn(mem: Memory, s: seq<byte>, c: Written, base: Word, k: nat)
    requires c.Seg? && (k < c.filesize ==> c.fileoff + k < |s|)
  {
    var a := PlaceOf(c, base, k);
    a in mem && mem[a] == if k < c.filesize then s[c.fileoff + k] else 0
  }

  /** And every address that is no byte's place holds what it held. */
  lemma LoadedElsewhere(mem: Memory, s: seq<byte>, cs: seq<Written>, base: Word, a: Word)
    requires BytesInFile(s, cs)
    requires NobodysPlace(cs, base, a)
    ensures FileBacked(s, AllSeen(cs))
    ensures var m := Loaded(mem, s, AllSeen(cs), base); (a in m <==> a in mem) && (a in m ==> m[a] == mem[a])
  {
    hide Loaded, ByteAt, Plus, Extent, HasByte, PlaceOf, Covers, Past;
    var all, x := AllSeen(cs), Past(base, a);
    SeenIsBacked(s, cs);
    PastIsBack(base, a);
    forall i | 0 <= i < |all| ensures !Covers(all[i], x) {
      if Covers(all[i], x) {
        CoveredHasByte(cs[i], x);
        var k := Past(cs[i].vmaddr, x);
        PlaceMoves(cs[i], base, k);
      }
    }
    OutsideSegments(s, all, x);
    LoadedAt(mem, s, all, base, x);
  }

  lemma PastIsBack(base: Word, a: Word)
    ensures Plus(base, Past(base, a)) == a
  {
  }

  lemma PlaceMoves(c: Written, base: Word, k: nat)
    requires c.Seg?
    ensures PlaceOf(c, base, k) == Plus(base, PlaceOf(c, 0, k))
  {
    ModAdd(c.vmaddr + k, base);
  }

  /** All bytes of all segments are at their places, and everything else is as before. */
  ghost predicate HoldsImage(m: Memory, before: Memory, s: seq<byte>, cs: seq<Written>, base: Word)
    requires BytesInFile(s, cs)
  {
    && (forall i: nat, k: nat :: i < |cs| && HasByte(cs[i], k) ==> StandsIn(m, s, cs[i], base, k))
    && (forall a: Word :: NobodysPlace(cs, base, a) ==> (a in m <==> a in before) && (a in m ==> m[a] == before[a]))
  }

  lemma LoadedHoldsImage(mem: Memory, s: seq<byte>, cs: seq<Written>, base: Word)
    requires BytesInFile(s, cs) && SegmentsApart(cs)
    ensures FileBacked(s, AllSeen(cs)) && HoldsImage(Loaded(mem, s, AllSeen(cs), base), mem, s, cs, base)
  {
    hide Loaded, NobodysPlace, SegmentsApart, StandsIn;
    SeenIsBacked(s, cs);
    forall i: nat, k: nat | i < |cs| && HasByte(cs[i], k)
      ensures StandsIn(Loaded(mem, s, AllSeen(cs), base), s, cs[i], base, k)
    {
      LoadedByte(mem, s, cs, base, i, k);
    }
    forall a: Word | NobodysPlace(cs, base, a)
      ensures var m := Loaded(mem, s, AllSeen(cs), base); (a in m <==> a in mem) && (a in m ==> m[a] == mem[a])
    {
      LoadedElsewhere(mem, s, cs, base, a);
    }
  }

  /** The address of an entry offset, by the segments: the first whose file range has it. */
  ghost predicate IsEntry(cs: seq<Written>, base: Word, off: Word, k: nat, e: Word) {
    && k < |cs| && cs[k].Seg? && cs[k].fileoff <= off < cs[k].fileoff + cs[k].filesize
    && (forall j :: 0 <= j < k && cs[j].Seg? ==> !(cs[j].fileoff <= off < cs[j].fileoff + cs[j].filesize))
    && e == (base + cs[k].vmaddr + (off - cs[k].fileoff)) % TWO64
  }

  /** The last entry command of the commands. */
  predicate IsLastEntry(cs: seq<Written>, n: nat) {
    n < |cs| && cs[n].Entry? && forall j :: n < j < |cs| ==> !cs[j].Entry?
  }

  lemma {:induction false} LastEntryCounts(cs: seq<Written>, n: nat)
    requires IsLastEntry(cs, n)
    ensures EntryOff(AllSeen(cs)) == Some(cs[n].entryoff)
    decreases |cs|
  {
    var m := |cs| - 1;
    assert AllSeen(cs)[..m] == AllSeen(cs[..m]);
    if n < m {
      LastEntryCounts(cs[..m], n);
    }
  }

  lemma {:induction false} EntryIsFound(cs: seq<Written>, i: nat, base: Word, off: Word, k: nat, e: Word)
    requires IsEntry(cs, base, off, k, e) && i <= k
    requires forall j :: 0 <= j < |cs| && cs[j].Seg? ==> cs[j].fileoff + cs[j].filesize < TWO64
    ensures EntryFrom(AllSeen(cs), i, off, base) == Some(e)
    decreases k - i
  {
    hide Plus;
    if i == k {
      PlusIs(base, cs[k].vmaddr, off - cs[k].fileoff);
      PlusAssociates(base, cs[k].vmaddr, off - cs[k].fileoff);
    } else {
      EntryIsFound(cs, i + 1, base, off, k, e);
    }
  }

  /** The entry point is that of the last entry command, in the first segment that has it. */
  lemma EntryOfWritten(s: seq<byte>, cs: seq<Written>, base: Word, n: nat, k: nat, e: Word)
    requires BytesInFile(s, cs) && |s| < TWO64 && IsLastEntry(cs, n) && IsEntry(cs, base, cs[n].entryoff, k, e)
    ensures EntryOf(AllSeen(cs), base) == Some(e)
  {
    LastEntryCounts(cs, n);
    EntryIsFound(cs, 0, base, cs[n].entryoff, k, e);
  }

  /** The loader, on a slice as it is written: memory, byte by byte, and the entry point. */
  method LoadWritten(ram: Ram, s: seq<byte>, native: nat, base: Word, ghost cs: seq<Written>) returns (entry: Word)
    requires IsSlice(s, native, cs) && BytesInFile(s, cs) && SegmentsApart(cs) && |s| < TWO64
    modifies ram
    ensures HoldsImage(ram.bytes, old(ram.bytes), s, cs, base)
    ensures forall n: nat, k: nat, e: Word ::
              IsLastEntry(cs, n) && IsEntry(cs, base, cs[n].entryoff, k, e) ==> entry == e
  {
    hide Loaded, HoldsImage, SegmentsApart, EntryFrom, EntryOff, IsSlice, Readable, Commands, FileBacked, HasByte;
    ghost var before := ram.bytes;
    SliceIsRead(s, native, cs);
    SeenIsBacked(s, cs);
    PlainIsSound(s, native);
    LoadedHoldsImage(before, s, cs, base);
    entry := Load(ram, s, native, base);
    forall n: nat, k: nat, e: Word | IsLastEntry(cs, n) && IsEntry(cs, base, cs[n].entryoff, k, e)
      ensures entry == e
    {
      EntryOfWritten(s, cs, base, n, k, e);
    }
  }

  /** A plain file of the right processor is its own slice. */
  lemma PlainIsSound(s: seq<byte>, native: nat)
    requires ReadableSlice(s) && IsNative(s, native) && FileBacked(s, SliceCommands(s))
    ensures Sound(s, native) && NativeSlice(s, native) == Some(s)
  {
    hide Le32, Readable, Commands, FileBacked, Legible, NativeSlice;
    PlainIsLegible(s, native);
  }

  // ----- The image's size -----

  /** The segment counts: it has file bytes. */
  predicate Backed(c: Written) {
    c.Seg? && c.filesize != 0
  }

  /** `lo` is the least address of the segments with file bytes, and one of them starts there. */
  ghost predicate IsLeast(cs: seq<Written>, lo: nat) {
    && (forall i :: 0 <= i < |cs| && Backed(cs[i]) ==> lo <= cs[i].vmaddr)
    && exists i :: 0 <= i < |cs| && Backed(cs[i]) && cs[i].vmaddr == lo
  }

  /** `hi` is the greatest end of the segments with file bytes, and one of them ends there. */
  ghost predicate IsGreatest(cs: seq<Written>, hi: nat) {
    && (forall i :: 0 <= i < |cs| && Backed(cs[i]) ==> cs[i].vmaddr + cs[i].vmsize <= hi)
    && exists i :: 0 <= i < |cs| && Backed(cs[i]) && cs[i].vmaddr + cs[i].vmsize == hi
  }

  lemma {:induction false} ExtremesAre(cs: seq<Written>, lo: nat, hi: nat)
    requires (forall i :: 0 <= i < |cs| && Backed(cs[i]) ==> lo <= cs[i].vmaddr && cs[i].vmaddr + cs[i].vmsize <= hi)
    requires hi < TWO64
    ensures lo < TWO64 ==> lo <= Lowest(AllSeen(cs))
    ensures Highest(AllSeen(cs)) <= hi
    ensures forall i :: 0 <= i < |cs| && Backed(cs[i]) ==>
              Lowest(AllSeen(cs)) <= cs[i].vmaddr && cs[i].vmaddr + cs[i].vmsize <= Highest(AllSeen(cs))
    decreases |cs|
  {
    if cs != [] {
      var n := |cs| - 1;
      assert AllSeen(cs)[..n] == AllSeen(cs[..n]);
      ExtremesAre(cs[..n], lo, hi);
    }
  }

  /** The size is the span of the segments with file bytes, from the least address to the
      greatest end; segments without, such as a page zero, do not matter. */
  lemma SizeIsSpan(s: seq<byte>, native: nat, cs: seq<Written>, lo: nat, hi: nat)
    requires IsSlice(s, native, cs) && IsLeast(cs, lo) && IsGreatest(cs, hi) && hi < TWO64
    ensures Legible(s, native) && SizeOf(s, native) == hi - lo
  {
    hide IsSlice, Readable, Commands, Lowest, Highest, Le32, Legible, NativeSlice;
    SliceIsRead(s, native, cs);
    assert IsNative(s, native);
    PlainIsLegible(s, native);
    ExtremesAre(cs, lo, hi);
    var i :| 0 <= i < |cs| && Backed(cs[i]) && cs[i].vmaddr == lo;
    assert Counts(AllSeen(cs)[i]);
  }

  lemma NothingIsZero(s: seq<byte>, native: nat, cs: seq<Written>)
    requires IsSlice(s, native, cs) && forall i :: 0 <= i < |cs| ==> !Backed(cs[i])
    ensures Legible(s, native) && SizeOf(s, native) == 0
  {
    hide IsSlice, Readable, Commands, Lowest, Highest, Le32, Legible, NativeSlice;
    SliceIsRead(s, native, cs);
    assert IsNative(s, native);
    PlainIsLegible(s, native);
  }

  // ----- Fat images -----

  datatype Arch = Arch(cpu: nat, subtype: nat, offset: nat, size: nat, align: nat) {
    predicate Fits() { cpu < TWO32 && subtype < TWO32 && offset < TWO32 && size < TWO32 && align < TWO32 }
  }

  /** An entry of the fat table: five big-endian words. */
  function ArchBytes(a: Arch): (b: seq<byte>)
    requires a.Fits()
    ensures |b| == FAT_ARCH_SIZE
  {
    Be32Bytes(a.cpu) + (Be32Bytes(a.subtype) + (Be32Bytes(a.offset) + (Be32Bytes(a.size) + Be32Bytes(a.align))))
  }

  function TableBytes(archs: seq<Arch>): (b: seq<byte>)
    requires forall i :: 0 <= i < |archs| ==> archs[i].Fits()
    ensures |b| == FAT_ARCH_SIZE * |archs|
  {
    if archs == [] then [] else ArchBytes(archs[0]) + TableBytes(archs[1..])
  }

  function FatBytes(archs: seq<Arch>): seq<byte>
    requires |archs| < TWO32 && forall i :: 0 <= i < |archs| ==> archs[i].Fits()
  {
    Be32Bytes(FAT_MAGIC) + (Be32Bytes(|archs|) + TableBytes(archs))
  }

  lemma ArchIsRead(s: seq<byte>, p: nat, a: Arch)
    requires a.Fits() && HasAt(s, p, ArchBytes(a))
    ensures p + FAT_ARCH_SIZE <= |s| && Be32(s, p) == a.cpu && Be32(s, p + 8) == a.offset
  {
    hide Be32, Be32Bytes;
    var d := Be32Bytes(a.size) + Be32Bytes(a.align);
    HasAtConcat(s, p, Be32Bytes(a.cpu), Be32Bytes(a.subtype) + (Be32Bytes(a.offset) + d));
    HasAtConcat(s, p + 4, Be32Bytes(a.subtype), Be32Bytes(a.offset) + d);
    HasAtConcat(s, p + 8, Be32Bytes(a.offset), d);
    Be32At(s, p, a.cpu);
    Be32At(s, p + 8, a.offset);
  }

  lemma {:induction false} TableIsRead(s: seq<byte>, p: nat, archs: seq<Arch>, i: nat)
    requires (forall k :: 0 <= k < |archs| ==> archs[k].Fits()) && HasAt(s, p, TableBytes(archs)) && i < |archs|
    ensures var at := p + FAT_ARCH_SIZE * i;
            at + FAT_ARCH_SIZE <= |s| && Be32(s, at) == archs[i].cpu && Be32(s, at + 8) == archs[i].offset
    decreases i
  {
    hide Be32, ArchBytes;
    HasAtConcat(s, p, ArchBytes(archs[0]), TableBytes(archs[1..]));
    ArchIsRead(s, p, archs[0]);
    if i > 0 {
      TableIsRead(s, p + FAT_ARCH_SIZE, archs[1..], i - 1);
    }
  }

  /** Entry `k` is the first for the processor, or there is none and `k` is their number. */
  predicate FirstFor(archs: seq<Arch>, native: nat, k: nat) {
    k <= |archs| && (forall j :: 0 <= j < k ==> archs[j].cpu != native) && (k < |archs| ==> archs[k].cpu == native)
  }

  lemma {:induction false} FirstIsFound(s: seq<byte>, archs: seq<Arch>, native: nat, i: nat, k: nat)
    requires (forall j :: 0 <= j < |archs| ==> archs[j].Fits()) && HasAt(s, 8, TableBytes(archs))
    requires ArchAt(s, |archs|) <= |s| && FirstFor(archs, native, k) && i <= k
    ensures SliceFrom(s, native, i, |archs|) == if k < |archs| then Some(archs[k].offset) else None
    decreases k - i
  {
    hide Be32, TableBytes;
    if i < |archs| {
      TableIsRead(s, 8, archs, i);
      if i < k {
        FirstIsFound(s, archs, native, i + 1, k);
      }
    }
  }

  /** In a fat image the slice is at the offset of the first entry for the processor; an offset
      of all ones counts as none. */
  lemma FatIsRead(s: seq<byte>, archs: seq<Arch>, native: nat, k: nat)
    requires |archs| < TWO32 && (forall i :: 0 <= i < |archs| ==> archs[i].Fits()) && HasAt(s, 0, FatBytes(archs))
    requires FirstFor(archs, native, k)
    ensures FatReadable(s)
    ensures SliceOffset(s, native) ==
            if k < |archs| && archs[k].offset != 0xFFFF_FFFF then Some(archs[k].offset) else None
  {
    hide Be32, Be32Bytes, TableBytes, Le32, SliceFrom;
    HasAtConcat(s, 0, Be32Bytes(FAT_MAGIC), Be32Bytes(|archs|) + TableBytes(archs));
    HasAtConcat(s, 4, Be32Bytes(|archs|), TableBytes(archs));
    Be32At(s, 0, FAT_MAGIC);
    Be32At(s, 4, |archs|);
    TableLength(archs);
    FatIsNotPlain(s);
    FirstIsFound(s, archs, native, 0, k);
  }

  lemma TableLength(archs: seq<Arch>)
    requires forall i :: 0 <= i < |archs| ==> archs[i].Fits()
    ensures |TableBytes(archs)| == FAT_ARCH_SIZE * |archs|
  {
  }

  /** The two magic numbers do not meet. */
  lemma FatIsNotPlain(s: seq<byte>)
    requires |s| >= 4 && Be32(s, 0) == FAT_MAGIC
    ensures Le32(s, 0) != MH_MAGIC_64
  {
    hide Le32, Be32;
    FirstOfBig(s);
    FirstOfLittle(s);
  }

  lemma FirstOfBig(s: seq<byte>)
    requires |s| >= 4
    ensures Be32(s, 0) / 0x100_0000 == s[0] as int
  {
    var rest := s[1] as int * 0x1_0000 + s[2] as int * 0x100 + s[3] as int;
    assert 0 <= rest < 0x100_0000 && Be32(s, 0) == s[0] as int * 0x100_0000 + rest;
  }

  lemma FirstOfLittle(s: seq<byte>)
    requires |s| >= 4
    ensures Le32(s, 0) % 0x100 == s[0] as int
  {
    assert Le(s, 0, 4) == s[0] as int + 0x100 * Le(s, 1, 3);
  }
}
