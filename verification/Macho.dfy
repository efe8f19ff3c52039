/** The Mach-O loader: load commands as values, and memory as what the loader leaves in it. */
module Macho {
  import opened Wrappers
  import opened Bytes

  const MH_MAGIC_64: nat := 0xfeed_facf
  const FAT_MAGIC: nat := 0xcafe_babe
  const LC_SEGMENT_64: nat := 0x19
  const LC_MAIN: nat := 0x8000_0028
  const HEADER_SIZE: nat := 32
  const SEGMENT_SIZE: nat := 72
  const MAIN_SIZE: nat := 24
  const FAT_ARCH_SIZE: nat := 20

  // ----- resolve_slice_offset -----

  function ArchAt(image: seq<byte>, i: nat): nat {
    8 + FAT_ARCH_SIZE * i
  }

  /** The fat table is all there. */
  predicate FatReadable(image: seq<byte>) {
    && |image| >= 8
    && (Le32(image, 0) != MH_MAGIC_64 && Be32(image, 0) == FAT_MAGIC ==>
          ArchAt(image, Be32(image, 4)) <= |image|)
  }

  function SliceFrom(image: seq<byte>, native: nat, i: nat, n: nat): (r: Option<nat>)
    requires i <= n && ArchAt(image, n) <= |image|
    decreases n - i
  {
    if i == n then None
    else if Be32(image, ArchAt(image, i)) == native then Some(Be32(image, ArchAt(image, i) + 8))
    else SliceFrom(image, native, i + 1, n)
  }

  /** An offset of all ones reads as failure, also when a fat table says so. */
  function SliceOffset(image: seq<byte>, native: nat): (r: Option<nat>)
    requires FatReadable(image)
  {
    if Le32(image, 0) == MH_MAGIC_64 then Some(0)
    else if Be32(image, 0) != FAT_MAGIC then None
    else
      var r := SliceFrom(image, native, 0, Be32(image, 4));
      if r == Some(0xFFFF_FFFF) then None else r
  }

  method ResolveSlice(image: seq<byte>, native: nat) returns (r: Option<nat>)
    requires FatReadable(image)
    ensures r == SliceOffset(image, native)
  {
    hide Be32, Le32;
    if Le32(image, 0) == MH_MAGIC_64 {
      return Some(0);
    }
    if Be32(image, 0) != FAT_MAGIC {
      return None;
    }
    var n := Be32(image, 4);
    var arch, i := 8, 0;
    while i < n
      invariant 0 <= i <= n && arch == ArchAt(image, i)
      invariant SliceFrom(image, native, 0, n) == SliceFrom(image, native, i, n)
    {
      var cpuType, offset := Be32(image, arch), Be32(image, arch + 8);
      if cpuType == native {
        r := if offset == 0xFFFF_FFFF then None else Some(offset);
        return;
      }
      arch := arch + FAT_ARCH_SIZE;
      i := i + 1;
    }
    r := None;
  }

  // ----- Load commands -----

  datatype Command =
    | Segment(vmaddr: Word, vmsize: Word, fileoff: Word, filesize: Word)
    | Main(entryoff: Word)
    | Other

  /** `n` commands from `p` on can be read. */
  ghost predicate Readable(s: seq<byte>, p: nat, n: nat)
    decreases n
  {
    n == 0 ||
    (&& p + 8 <= |s|
     && (Le32(s, p) == LC_SEGMENT_64 ==> p + SEGMENT_SIZE <= |s|)
     && (Le32(s, p) == LC_MAIN ==> p + MAIN_SIZE <= |s|)
     && Readable(s, p + Le32(s, p + 4), n - 1))
  }

  function CommandAt(s: seq<byte>, p: nat): Command
    requires p + 8 <= |s|
    requires Le32(s, p) == LC_SEGMENT_64 ==> p + SEGMENT_SIZE <= |s|
    requires Le32(s, p) == LC_MAIN ==> p + MAIN_SIZE <= |s|
  {
    if Le32(s, p) == LC_SEGMENT_64 then Segment(Le64(s, p + 24), Le64(s, p + 32), Le64(s, p + 40), Le64(s, p + 48))
    else if Le32(s, p) == LC_MAIN then Main(Le64(s, p + 8))
    else Other
  }

  ghost function Commands(s: seq<byte>, p: nat, n: nat): (cs: seq<Command>)
    requires Readable(s, p, n)
    ensures |cs| == n
    decreases n
  {
    if n == 0 then [] else [CommandAt(s, p)] + Commands(s, p + Le32(s, p + 4), n - 1)
  }

  /** A Mach-O header with readable commands. */
  ghost predicate ReadableSlice(s: seq<byte>) {
    |s| >= HEADER_SIZE && Readable(s, HEADER_SIZE, Le32(s, 16))
  }

  predicate IsNative(s: seq<byte>, native: nat)
    requires |s| >= HEADER_SIZE
  {
    Le32(s, 0) == MH_MAGIC_64 && Le32(s, 4) == native
  }

  ghost function SliceCommands(s: seq<byte>): seq<Command>
    requires ReadableSlice(s)
  {
    Commands(s, HEADER_SIZE, Le32(s, 16))
  }

  // ----- Memory -----

  type Memory = map<Word, byte>

  function Plus(a: Word, b: int): Word {
    (a + b) % TWO64
  }

  /** Bytes stored one after the other from `a` on, in 64-bit addresses. */
  function Store(mem: Memory, a: Word, content: seq<byte>): Memory
    decreases |content|
  {
    if content == [] then mem else Store(mem[a := content[0]], Plus(a, 1), content[1..])
  }

  predicate Loads(c: Command) {
    c.Segment? && c.vmsize != 0 && c.filesize != 0
  }

  /** File bytes, then zeros up to the segment's size in memory. */
  function Image(s: seq<byte>, c: Command): (b: seq<byte>)
    requires c.Segment? && c.fileoff + c.filesize <= |s|
    ensures |b| == Extent(c)
  {
    s[c.fileoff..c.fileoff + c.filesize] + Zeros(Extent(c) - c.filesize)
  }

  function Extent(c: Command): (n: nat)
    requires c.Segment?
    ensures n >= c.filesize
  {
    if c.filesize < c.vmsize then c.vmsize else c.filesize
  }

  /** The file bytes of every loaded segment are in the slice. */
  predicate FileBacked(s: seq<byte>, cs: seq<Command>) {
    forall i :: 0 <= i < |cs| && Loads(cs[i]) ==> cs[i].fileoff + cs[i].filesize <= |s|
  }

  function Loaded(mem: Memory, s: seq<byte>, cs: seq<Command>, base: Word): Memory
    requires FileBacked(s, cs)
  {
    if cs == [] then mem
    else
      var n := |cs| - 1;
      var before := Loaded(mem, s, cs[..n], base);
      if Loads(cs[n]) then Store(before, Plus(base, cs[n].vmaddr), Image(s, cs[n])) else before
  }

  // ----- The entry point -----

  /** The last LC_MAIN counts. */
  function EntryOff(cs: seq<Command>): Option<Word> {
    if cs == [] then None
    else if cs[|cs| - 1].Main? then Some(cs[|cs| - 1].entryoff)
    else EntryOff(cs[..|cs| - 1])
  }

  predicate Contains(c: Command, off: Word) {
    c.Segment? && c.fileoff <= off < (c.fileoff + c.filesize) % TWO64
  }

  /** The first segment whose file range contains the entry offset gives its address. */
  function EntryFrom(cs: seq<Command>, i: nat, off: Word, base: Word): Option<Word>
    requires i <= |cs|
    decreases |cs| - i
  {
    if i == |cs| then None
    else if Contains(cs[i], off) then Some(Plus(Plus(base, cs[i].vmaddr), off - cs[i].fileoff))
    else EntryFrom(cs, i + 1, off, base)
  }

  function EntryOf(cs: seq<Command>, base: Word): Option<Word> {
    var off := EntryOff(cs);
    if off.None? then None else EntryFrom(cs, 0, off.value, base)
  }

  // ----- macho_load -----

  class Ram {
    var bytes: Memory
  }

  lemma {:induction false} StoreLast(mem: Memory, a: Word, content: seq<byte>, b: byte)
    ensures Store(mem, a, content + [b]) == Store(mem, a, content)[Plus(a, |content|) := b]
    decreases |content|
  {
    hide Plus;
    PlusTwice(a, |content|);
    if content == [] {
      assert content + [b] == [b] && [b][1..] == [];
    } else {
      assert (content + [b])[1..] == content[1..] + [b];
      StoreLast(mem[a := content[0]], Plus(a, 1), content[1..], b);
    }
  }

  lemma PlusTwice(a: Word, n: nat)
    ensures Plus(a, 0) == a && Plus(Plus(a, 1), n - 1) == Plus(a, n)
  {
  }

  /** The two loops over one segment: copy, then zero-fill. */
  method LoadSegment(ram: Ram, s: seq<byte>, c: Command, dst: Word)
    requires c.Segment? && c.fileoff + c.filesize <= |s|
    modifies ram
    ensures ram.bytes == Store(old(ram.bytes), dst, Image(s, c))
  {
    hide Store;
    ghost var all := Image(s, c);
    StoreNothing(ram.bytes, dst);
    assert all[..0] == [];
    var b := 0;
    while b < c.filesize
      invariant 0 <= b <= c.filesize && ram.bytes == Store(old(ram.bytes), dst, all[..b])
    {
      StoreLast(old(ram.bytes), dst, all[..b], s[c.fileoff + b]);
      assert all[..b + 1] == all[..b] + [s[c.fileoff + b]];
      ram.bytes := ram.bytes[Plus(dst, b) := s[c.fileoff + b]];
      b := b + 1;
    }
    b := c.filesize;
    while b < c.vmsize
      invariant c.filesize <= b <= Extent(c) && ram.bytes == Store(old(ram.bytes), dst, all[..b])
    {
      StoreLast(old(ram.bytes), dst, all[..b], 0);
      assert all[..b + 1] == all[..b] + [0];
      ram.bytes := ram.bytes[Plus(dst, b) := 0];
      b := b + 1;
    }
    assert all[..b] == all;
  }

  lemma StoreNothing(mem: Memory, a: Word)
    ensures Store(mem, a, []) == mem
  {
  }

  /** Where the `i`-th command starts, and that the commands from there are the rest. */
  ghost predicate Cursor(s: seq<byte>, cs: seq<Command>, i: nat, p: nat) {
    && i <= |cs| && Readable(s, p, |cs| - i) && cs[i..] == Commands(s, p, |cs| - i)
  }

  lemma CursorAt(s: seq<byte>, cs: seq<Command>, i: nat, p: nat)
    requires Cursor(s, cs, i, p) && i < |cs|
    ensures p + 8 <= |s|
    ensures Le32(s, p) == LC_SEGMENT_64 ==> p + SEGMENT_SIZE <= |s|
    ensures Le32(s, p) == LC_MAIN ==> p + MAIN_SIZE <= |s|
    ensures cs[i] == CommandAt(s, p) && Cursor(s, cs, i + 1, p + Le32(s, p + 4))
  {
    hide Le32, CommandAt;
    assert cs[i] == cs[i..][0] && cs[i + 1..] == cs[i..][1..];
  }

  /** The first pass: every segment goes to memory; the last LC_MAIN is remembered. */
  method LoadAll(ram: Ram, s: seq<byte>, base: Word) returns (entry: Option<Word>)
    requires ReadableSlice(s) && FileBacked(s, SliceCommands(s))
    modifies ram
    ensures ram.bytes == Loaded(old(ram.bytes), s, SliceCommands(s), base)
    ensures entry == EntryOff(SliceCommands(s))
  {
    hide Le32, Le64, Store, Image, Readable, Commands;
    ghost var cs := SliceCommands(s);
    entry := None;
    var p: nat, n, i := HEADER_SIZE, Le32(s, 16), 0;
    assert cs[0..] == cs && cs[..0] == [];
    while i < n
      invariant 0 <= i <= n == |cs| && Cursor(s, cs, i, p)
      invariant FileBacked(s, cs[..i]) && ram.bytes == Loaded(old(ram.bytes), s, cs[..i], base)
      invariant entry == EntryOff(cs[..i])
    {
      CursorAt(s, cs, i, p);
      assert cs[..i + 1][..i] == cs[..i] && cs[..i + 1][i] == cs[i];
      var c := CommandAt(s, p);
      if Loads(c) {
        LoadSegment(ram, s, c, Plus(base, c.vmaddr));
      } else if c.Main? {
        entry := Some(c.entryoff);
      }
      p := p + Le32(s, p + 4);
      i := i + 1;
    }
    assert cs[..i] == cs;
  }

  /** The second pass: which segment the entry offset is in. */
  method FindEntry(s: seq<byte>, off: Word, base: Word) returns (entry: Option<Word>)
    requires ReadableSlice(s)
    ensures entry == EntryFrom(SliceCommands(s), 0, off, base)
  {
    hide Le32, Le64, Readable, Commands;
    ghost var cs := SliceCommands(s);
    var p: nat, n, i := HEADER_SIZE, Le32(s, 16), 0;
    assert cs[0..] == cs;
    while i < n
      invariant 0 <= i <= n == |cs| && Cursor(s, cs, i, p)
      invariant EntryFrom(cs, 0, off, base) == EntryFrom(cs, i, off, base)
    {
      CursorAt(s, cs, i, p);
      var c := CommandAt(s, p);
      if c.Segment? && off >= c.fileoff && off < (c.fileoff + c.filesize) % TWO64 {
        return Some(Plus(Plus(base, c.vmaddr), off - c.fileoff));
      }
      p := p + Le32(s, p + 4);
      i := i + 1;
    }
    entry := None;
  }

  /** What both entry points may assume of the bytes they are given: all that they read of
      headers and commands is there. */
  ghost predicate Legible(image: seq<byte>, native: nat) {
    && FatReadable(image)
    && (SliceOffset(image, native).Some? ==>
          && SliceOffset(image, native).value <= |image|
          && var s := image[SliceOffset(image, native).value..];
          && |s| >= HEADER_SIZE
          && (IsNative(s, native) ==> ReadableSlice(s)))
  }

  /** The slice for this processor, if there is one. */
  ghost function NativeSlice(image: seq<byte>, native: nat): (r: Option<seq<byte>>)
    requires Legible(image, native)
    ensures r.Some? ==> ReadableSlice(r.value)
  {
    var off := SliceOffset(image, native);
    if off.None? || !IsNative(image[off.value..], native) then None else Some(image[off.value..])
  }

  /** A plain Mach-O file is its own slice. */
  lemma PlainIsLegible(s: seq<byte>, native: nat)
    requires ReadableSlice(s) && Le32(s, 0) == MH_MAGIC_64
    ensures Legible(s, native)
    ensures NativeSlice(s, native) == if IsNative(s, native) then Some(s) else None
  {
    hide Le32, Be32, Readable;
    assert s[0..] == s;
  }

  /** What the loader may assume besides: the contents of the segments are there. */
  ghost predicate Sound(image: seq<byte>, native: nat) {
    && Legible(image, native)
    && var s := NativeSlice(image, native);
    s.Some? ==> FileBacked(s.value, SliceCommands(s.value))
  }

  method Load(ram: Ram, image: seq<byte>, native: nat, base: Word) returns (entry: Word)
    requires Sound(image, native)
    modifies ram
    ensures var s := NativeSlice(image, native);
            if s.None? then ram.bytes == old(ram.bytes) && entry == 0
            else
              && ram.bytes == Loaded(old(ram.bytes), s.value, SliceCommands(s.value), base)
              && entry == (var e := EntryOf(SliceCommands(s.value), base); if e.None? then 0 else e.value)
  {
    hide Le32, Le64, Readable, Commands, SliceOffset, FatReadable, Loaded, SliceCommands, FileBacked;
    var off := ResolveSlice(image, native);
    if off.None? {
      return 0;
    }
    var s := image[off.value..];
    if !IsNative(s, native) {
      return 0;
    }
    var main := LoadAll(ram, s, base);
    if main.None? {
      return 0;
    }
    var found := FindEntry(s, main.value, base);
    entry := if found.None? then 0 else found.value;
  }

  // ----- macho_image_size -----

  predicate Counts(c: Command) {
    c.Segment? && c.filesize != 0
  }

  function End(c: Command): Word
    requires c.Segment?
  {
    (c.vmaddr + c.vmsize) % TWO64
  }

  function Lowest(cs: seq<Command>): Word {
    if cs == [] then TWO64 - 1
    else
      var rest, c := Lowest(cs[..|cs| - 1]), cs[|cs| - 1];
      if Counts(c) && c.vmaddr < rest then c.vmaddr else rest
  }

  function Highest(cs: seq<Command>): Word {
    if cs == [] then 0
    else
      var rest, c := Highest(cs[..|cs| - 1]), cs[|cs| - 1];
      if Counts(c) && End(c) > rest then End(c) else rest
  }

  predicate AnyCounts(cs: seq<Command>) {
    exists i :: 0 <= i < |cs| && Counts(cs[i])
  }

  function Footprint(cs: seq<Command>): Word {
    if AnyCounts(cs) then (Highest(cs) - Lowest(cs)) % TWO64 else 0
  }

  ghost function SizeOf(image: seq<byte>, native: nat): Word
    requires Legible(image, native)
  {
    var s := NativeSlice(image, native);
    if s.None? then 0 else Footprint(SliceCommands(s.value))
  }

  method ImageSize(image: seq<byte>, native: nat) returns (size: Word)
    requires Legible(image, native)
    ensures size == SizeOf(image, native)
  {
    hide Le32, Le64, Readable, Commands, SliceOffset, FatReadable, FileBacked;
    var off := ResolveSlice(image, native);
    if off.None? {
      return 0;
    }
    var s := image[off.value..];
    if !IsNative(s, native) {
      return 0;
    }
    ghost var cs := SliceCommands(s);
    var lowest: Word, highest: Word, found := TWO64 - 1, 0, false;
    var p: nat, n, i := HEADER_SIZE, Le32(s, 16), 0;
    assert cs[0..] == cs && cs[..0] == [];
    while i < n
      invariant 0 <= i <= n == |cs| && Cursor(s, cs, i, p)
      invariant lowest == Lowest(cs[..i]) && highest == Highest(cs[..i]) && (found <==> AnyCounts(cs[..i]))
    {
      CursorAt(s, cs, i, p);
      assert cs[..i + 1][..i] == cs[..i] && cs[..i + 1][i] == cs[i];
      OneMore(cs, i);
      var c := CommandAt(s, p);
      if Counts(c) {
        var end := (c.vmaddr + c.vmsize) % TWO64;
        if end > highest {
          highest := end;
        }
        if c.vmaddr < lowest {
          lowest := c.vmaddr;
        }
        found := true;
      }
      p := p + Le32(s, p + 4);
      i := i + 1;
    }
    assert cs[..i] == cs;
    size := if found then (highest - lowest) % TWO64 else 0;
  }

  lemma OneMore(cs: seq<Command>, i: nat)
    requires i < |cs|
    ensures AnyCounts(cs[..i + 1]) <==> AnyCounts(cs[..i]) || Counts(cs[i])
  {
    assert cs[..i + 1][i] == cs[i];
    assert forall j :: 0 <= j < i ==> cs[..i + 1][j] == cs[..i][j];
    if AnyCounts(cs[..i]) {
      var j :| 0 <= j < i && Counts(cs[..i][j]);
      assert Counts(cs[..i + 1][j]);
    }
  }
}
