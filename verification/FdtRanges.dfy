/** `reg` and `ranges` as they are written: numbers as big-endian cells, one after the other,
    and what the reader makes of them. */
module FdtRanges {
  import opened Wrappers
  import opened Bytes
  import opened FdtTree
  import opened FdtWalk
  import opened FdtProps
  import opened FdtCells
  import FdtSearch
  import opened FdtTranslate

  // ----- Numbers of one or more cells -----

  predicate FitsCells(v: nat, cells: nat) {
    if cells == 1 then v < TWO32 else v < TWO64
  }

  /** The most significant cell first. Of more than two cells the reader looks at two. */
  function CellBytes(v: nat, cells: nat): (b: seq<byte>)
    requires cells >= 1 && FitsCells(v, cells)
    ensures |b| == 4 * cells
  {
    if cells == 1 then Be32Bytes(v)
    else Be32Bytes(v / TWO32) + (Be32Bytes(v % TWO32) + Zeros(4 * (cells - 2)))
  }

  lemma CellsAreRead(s: seq<byte>, p: nat, v: nat, cells: nat)
    requires cells >= 1 && FitsCells(v, cells) && HasAt(s, p, CellBytes(v, cells))
    ensures p + Width(cells) <= |s| && ReadCells(s, p, cells) == v
  {
    hide Be32Bytes, Be32;
    if cells == 1 {
      Be32At(s, p, v);
    } else {
      HasAtConcat(s, p, Be32Bytes(v / TWO32), Be32Bytes(v % TWO32) + Zeros(4 * (cells - 2)));
      HasAtConcat(s, p + 4, Be32Bytes(v % TWO32), Zeros(4 * (cells - 2)));
      Be32At(s, p, v / TWO32);
      Be32At(s, p + 4, v % TWO32);
    }
  }

  // ----- ranges -----

  /** Child address, parent address, length. */
  function WindowBytes(w: Window, a: nat, b: nat, s: nat): (r: seq<byte>)
    requires a >= 1 && b >= 1 && s >= 1 && FitsCells(w.child, a) && FitsCells(w.parent, b) && FitsCells(w.size, s)
    ensures |r| == 4 * (a + b + s)
  {
    CellBytes(w.child, a) + (CellBytes(w.parent, b) + CellBytes(w.size, s))
  }

  predicate Writable(ws: seq<Window>, a: nat, b: nat, s: nat) {
    && a >= 1 && b >= 1 && s >= 1
    && forall i :: 0 <= i < |ws| ==> FitsCells(ws[i].child, a) && FitsCells(ws[i].parent, b) && FitsCells(ws[i].size, s)
  }

  function RangesBytes(ws: seq<Window>, a: nat, b: nat, s: nat): (r: seq<byte>)
    requires Writable(ws, a, b, s)
  {
    if ws == [] then [] else WindowBytes(ws[0], a, b, s) + RangesBytes(ws[1..], a, b, s)
  }

  lemma WindowIsRead(v: seq<byte>, p: nat, w: Window, a: nat, b: nat, s: nat)
    requires Writable([w], a, b, s) && FitsCells(w.child, a) && FitsCells(w.parent, b) && FitsCells(w.size, s)
    requires HasAt(v, p, WindowBytes(w, a, b, s))
    ensures p + 4 * (a + b + s) <= |v| && WindowAt(v, p, a, b, s) == w
  {
    hide CellBytes, ReadCells, FitsCells;
    CellSizes(w, a, b, s);
    HasAtConcat(v, p, CellBytes(w.child, a), CellBytes(w.parent, b) + CellBytes(w.size, s));
    HasAtConcat(v, p + 4 * a, CellBytes(w.parent, b), CellBytes(w.size, s));
    CellsAreRead(v, p, w.child, a);
    CellsAreRead(v, p + 4 * a, w.parent, b);
    CellsAreRead(v, p + 4 * (a + b), w.size, s);
  }

  lemma CellSizes(w: Window, a: nat, b: nat, s: nat)
    requires a >= 1 && b >= 1 && s >= 1 && FitsCells(w.child, a) && FitsCells(w.parent, b) && FitsCells(w.size, s)
    ensures |CellBytes(w.child, a)| == 4 * a && |CellBytes(w.parent, b)| == 4 * b && |CellBytes(w.size, s)| == 4 * s
    ensures |WindowBytes(w, a, b, s)| == 4 * (a + b + s)
  {
  }

  /** Windows that are written one after the other are read back, whatever the counts; a rest
      too short for an entry is ignored. */
  lemma {:induction false} RangesAreRead(v: seq<byte>, p: nat, ws: seq<Window>, a: nat, b: nat, s: nat)
    requires Writable(ws, a, b, s) && HasAt(v, p, RangesBytes(ws, a, b, s))
    requires |v| < p + |RangesBytes(ws, a, b, s)| + 4 * (a + b + s)
    ensures WindowsFrom(v, p, a, b, s) == ws
    decreases |ws|
  {
    hide WindowBytes, WindowAt, FitsCells;
    if ws != [] {
      assert FitsCells(ws[0].child, a);
      CellSizes(ws[0], a, b, s);
      HasAtConcat(v, p, WindowBytes(ws[0], a, b, s), RangesBytes(ws[1..], a, b, s));
      WindowIsRead(v, p, ws[0], a, b, s);
      RangesAreRead(v, p + 4 * (a + b + s), ws[1..], a, b, s);
    }
  }

  // ----- reg -----

  predicate WritableReg(rs: seq<Range>, ac: nat, sc: nat) {
    && ac >= 1
    && forall i :: 0 <= i < |rs| ==>
         FitsCells(rs[i].base, ac) && if sc == 0 then rs[i].size == 0 else FitsCells(rs[i].size, sc)
  }

  /** Address and length; without size cells there is no length. */
  function RangeBytes(r: Range, ac: nat, sc: nat): (b: seq<byte>)
    requires ac >= 1 && FitsCells(r.base, ac) && (sc > 0 ==> FitsCells(r.size, sc))
    ensures |b| == 4 * (ac + sc)
  {
    CellBytes(r.base, ac) + if sc == 0 then [] else CellBytes(r.size, sc)
  }

  function RegBytes(rs: seq<Range>, ac: nat, sc: nat): (b: seq<byte>)
    requires WritableReg(rs, ac, sc)
  {
    if rs == [] then [] else RangeBytes(rs[0], ac, sc) + RegBytes(rs[1..], ac, sc)
  }

  lemma RangeIsRead(v: seq<byte>, p: nat, r: Range, ac: nat, sc: nat)
    requires WritableReg([r], ac, sc) && FitsCells(r.base, ac) && (sc > 0 ==> FitsCells(r.size, sc))
    requires (sc == 0 ==> r.size == 0) && HasAt(v, p, RangeBytes(r, ac, sc))
    ensures p + 4 * (ac + sc) <= |v| && RangeAt(v, p, ac, sc) == r
  {
    hide CellBytes, ReadCells, FitsCells;
    var tail := if sc == 0 then [] else CellBytes(r.size, sc);
    CellSize(r.base, ac);
    HasAtConcat(v, p, CellBytes(r.base, ac), tail);
    CellsAreRead(v, p, r.base, ac);
    if sc > 0 {
      CellSize(r.size, sc);
      CellsAreRead(v, p + 4 * ac, r.size, sc);
    }
  }

  lemma CellSize(v: nat, cells: nat)
    requires cells >= 1 && FitsCells(v, cells)
    ensures |CellBytes(v, cells)| == 4 * cells
  {
  }

  /** Entry `i` of the entries that were written is the `i`-th, and there are no others. */
  lemma {:induction false} RegIsRead(v: seq<byte>, p: nat, rs: seq<Range>, i: nat, ac: nat, sc: nat)
    requires WritableReg(rs, ac, sc) && HasAt(v, p, RegBytes(rs, ac, sc)) && |v| == p + |RegBytes(rs, ac, sc)|
    ensures var at := p + EntryPos(i, 4 * (ac + sc));
            if i < |rs| then at + 4 * (ac + sc) <= |v| && RangeAt(v, at, ac, sc) == rs[i]
            else at + 4 * (ac + sc) > |v|
    decreases |rs|
  {
    hide RangeBytes, RangeAt, FitsCells, EntryPos;
    var entry := 4 * (ac + sc);
    FirstEntry(entry);
    if rs != [] {
      assert FitsCells(rs[0].base, ac);
      RangeSize(rs[0], ac, sc);
      HasAtConcat(v, p, RangeBytes(rs[0], ac, sc), RegBytes(rs[1..], ac, sc));
      RangeIsRead(v, p, rs[0], ac, sc);
      if i > 0 {
        RegIsRead(v, p + entry, rs[1..], i - 1, ac, sc);
        EntryFits(0, entry, i - 1);
      }
    }
  }

  lemma RangeSize(r: Range, ac: nat, sc: nat)
    requires ac >= 1 && FitsCells(r.base, ac) && (sc > 0 ==> FitsCells(r.size, sc))
    ensures |RangeBytes(r, ac, sc)| == 4 * (ac + sc)
  {
  }

  lemma RangeInIsEntry(rs: seq<Range>, i: nat, ac: nat, sc: nat)
    requires WritableReg(rs, ac, sc)
    ensures RangeIn(RegBytes(rs, ac, sc), i, ac, sc) == if i < |rs| then Some(rs[i]) else None
  {
    hide RangeAt, RegBytes, EntryPos;
    RegIsRead(RegBytes(rs, ac, sc), 0, rs, i, ac, sc);
  }

  // ----- What a bus does -----

  /** The address is one of the window's, on the bus's side. */
  predicate OnBus(w: Window, b: nat) {
    w.child <= b < w.child + w.size
  }

  /** Window `k` is the first that has the address, or there is none and `k` is their number. */
  predicate FirstOnBus(ws: seq<Window>, b: nat, k: nat) {
    k <= |ws| && (forall j :: 0 <= j < k ==> !OnBus(ws[j], b)) && (k < |ws| ==> OnBus(ws[k], b))
  }

  /** No window's end on the bus's side wraps around. */
  predicate NoEndWraps(ws: seq<Window>) {
    forall i :: 0 <= i < |ws| ==> ws[i].child + ws[i].size < TWO64
  }

  /** The window moves an address by the distance between its two ends. */
  function Moved(w: Window, b: nat): nat {
    (w.parent + b - w.child) % TWO64
  }

  /** The map of a bus, by its windows: an address goes through the first that has it, and is
      not mapped when none has. */
  lemma {:induction false} MapIs(ws: seq<Window>, b: nat, k: nat)
    requires NoEndWraps(ws) && FirstOnBus(ws, b, k)
    ensures MapThrough(ws, b) == if k == |ws| then None else Some(Moved(ws[k], b))
    decreases |ws|
  {
    if ws != [] && k > 0 {
      assert !OnBus(ws[0], b);
      MapIs(ws[1..], b, k - 1);
    }
  }

  /** A bus reads the entries of its `ranges` by its own two counts for the child's side and the
      length, and by the count above it for the parent's. */
  lemma BusIsRead(str: seq<byte>, t: Tree, q: Path, ws: seq<Window>, a: nat, b: nat, s: nat)
    requires IsNode(t, q) && Writable(ws, a, b, s) && ws != []
    requires OwnCellsIn(str, Sub(t, q), ADDRESS_CELLS) == Some(a) && OwnCellsIn(str, Sub(t, q), SIZE_CELLS) == Some(s)
    requires SizingCells(str, t, q, ADDRESS_CELLS) == b
    requires PropIn(str, Sub(t, q).props, RANGES) == Some(RangesBytes(ws, a, b, s))
    ensures WindowsOf(str, t, q) == Some(ws)
    ensures forall x :: BusMap(str, t, q, x) == MapThrough(ws, x)
  {
    hide OwnCellsIn, PropIn, SizingCells, WindowBytes, FitsCells;
    var v := RangesBytes(ws, a, b, s);
    assert FitsCells(ws[0].child, a);
    CellSizes(ws[0], a, b, s);
    assert v == WindowBytes(ws[0], a, b, s) + RangesBytes(ws[1..], a, b, s);
    assert v != [];
    RangesAreRead(v, 0, ws, a, b, s);
  }

  /** A device on a bus under the root, from what is written in the tree to the CPU's address:
      entry `i` of its `reg`, through the window of the bus that has it. */
  lemma DeviceAddress(str: seq<byte>, t: Tree, bus: nat, dev: nat, rs: seq<Range>, i: nat,
                      ws: seq<Window>, k: nat, a: nat, b: nat, s: nat)
    requires IsNode(t, [bus, dev]) && IsNode(t, [bus])
    requires Writable(ws, a, b, s) && WritableReg(rs, a, s) && i < |rs| && k < |ws|
    requires OwnCellsIn(str, Sub(t, [bus]), ADDRESS_CELLS) == Some(a)
    requires OwnCellsIn(str, Sub(t, [bus]), SIZE_CELLS) == Some(s)
    requires OwnCellsIn(str, t, ADDRESS_CELLS) == Some(b)
    requires PropIn(str, Sub(t, [bus]).props, RANGES) == Some(RangesBytes(ws, a, b, s))
    requires PropIn(str, Sub(t, [bus, dev]).props, REG) == Some(RegBytes(rs, a, s))
    requires PropIn(str, Sub(t, [bus, dev]).props, RANGES) == None
    requires NoEndWraps(ws) && FirstOnBus(ws, rs[i].base, k)
    ensures CpuRange(str, t, [bus, dev], i) == Some(Range(Moved(ws[k], rs[i].base), rs[i].size))
  {
    hide OwnCellsIn, PropIn, RegBytes, RangesBytes, FitsCells, MapThrough, FirstOnBus, NoEndWraps, Moved,
         Writable, WritableReg,
         SizingCells, Upward, IsNode, Sub, BusMap, WindowsOf, RegEntry;
    RegOfDevice(str, t, bus, dev, rs, i, a, s);
    CountsAbove(str, t, bus, dev, ADDRESS_CELLS);
    BusIsRead(str, t, [bus], ws, a, b, s);
    MapIs(ws, rs[i].base, k);
    UpTwo(str, t, bus, dev, rs[i].base);
  }

  lemma RegOfDevice(str: seq<byte>, t: Tree, bus: nat, dev: nat, rs: seq<Range>, i: nat, a: nat, s: nat)
    requires IsNode(t, [bus, dev]) && IsNode(t, [bus]) && WritableReg(rs, a, s) && i < |rs|
    requires OwnCellsIn(str, Sub(t, [bus]), ADDRESS_CELLS) == Some(a)
    requires OwnCellsIn(str, Sub(t, [bus]), SIZE_CELLS) == Some(s)
    requires PropIn(str, Sub(t, [bus, dev]).props, REG) == Some(RegBytes(rs, a, s))
    ensures RegEntry(str, t, [bus, dev], i) == Some(rs[i])
  {
    hide OwnCellsIn, PropIn, RegBytes, FitsCells, RangeIn, SizingCells, IsNode, Sub;
    CountsAbove(str, t, bus, dev, ADDRESS_CELLS);
    CountsAbove(str, t, bus, dev, SIZE_CELLS);
    RangeInIsEntry(rs, i, a, s);
  }

  /** Which counts size the entries of a device on a bus under the root, and of the bus. */
  lemma CountsAbove(str: seq<byte>, t: Tree, bus: nat, dev: nat, name: seq<byte>)
    requires IsNode(t, [bus, dev]) && IsNode(t, [bus])
    ensures var own := OwnCellsIn(str, Sub(t, [bus]), name);
            own.Some? ==> SizingCells(str, t, [bus, dev], name) == own.value
    ensures OwnCellsIn(str, t, name).Some? ==> SizingCells(str, t, [bus], name) == OwnCellsIn(str, t, name).value
  {
    hide OwnCellsIn;
    assert Parent([bus, dev]) == [bus] && Parent([bus]) == [];
  }

  /** The way up from such a device is through its bus alone. */
  lemma UpTwo(str: seq<byte>, t: Tree, bus: nat, dev: nat, x: nat)
    requires IsNode(t, [bus, dev]) && IsNode(t, [bus]) && PropIn(str, Sub(t, [bus, dev]).props, RANGES) == None
    ensures Upward(str, t, [bus, dev], x) == BusMap(str, t, [bus], x)
  {
    hide PropIn, MapThrough, BusWindows;
    var q: Path := [bus, dev];
    assert Parent(q) == [bus] && Parent([bus]) == [];
    assert BusMap(str, t, q, x) == Some(x);
    assert Upward(str, t, q, x) == Upward(str, t, [bus], x);
    if BusMap(str, t, [bus], x).Some? {
      assert Upward(str, t, [], BusMap(str, t, [bus], x).value) == BusMap(str, t, [bus], x);
    }
  }

  /** The serial port of the parser's own fixture: at 0x2000 on a bus of one-cell addresses and
      sizes that maps 0 to 0x80000000, under a root of two-cell addresses. */
  lemma SerialOfFixture(str: seq<byte>, t: Tree, bus: nat, dev: nat)
    requires IsNode(t, [bus, dev]) && IsNode(t, [bus])
    requires OwnCellsIn(str, Sub(t, [bus]), ADDRESS_CELLS) == Some(1)
    requires OwnCellsIn(str, Sub(t, [bus]), SIZE_CELLS) == Some(1)
    requires OwnCellsIn(str, t, ADDRESS_CELLS) == Some(2)
    requires PropIn(str, Sub(t, [bus]).props, RANGES) ==
             Some(Be32Bytes(0) + (Be32Bytes(0) + Be32Bytes(0x8000_0000) + Be32Bytes(0x1_0000)))
    requires PropIn(str, Sub(t, [bus, dev]).props, REG) == Some(Be32Bytes(0x2000) + Be32Bytes(0x1000))
    requires PropIn(str, Sub(t, [bus, dev]).props, RANGES) == None
    ensures CpuRange(str, t, [bus, dev], 0) == Some(Range(0x8000_2000, 0x1000))
  {
    hide OwnCellsIn, PropIn, Be32Bytes, CpuRange, IsNode, Sub;
    var ws, rs := [Window(0, 0x8000_0000, 0x1_0000)], [Range(0x2000, 0x1000)];
    FixtureBytes(ws, rs);
    assert FirstOnBus(ws, 0x2000, 0);
    DeviceAddress(str, t, bus, dev, rs, 0, ws, 0, 1, 2, 1);
  }

  lemma FixtureBytes(ws: seq<Window>, rs: seq<Range>)
    requires ws == [Window(0, 0x8000_0000, 0x1_0000)] && rs == [Range(0x2000, 0x1000)]
    ensures Writable(ws, 1, 2, 1) && WritableReg(rs, 1, 1)
    ensures RangesBytes(ws, 1, 2, 1) == Be32Bytes(0) + (Be32Bytes(0) + Be32Bytes(0x8000_0000) + Be32Bytes(0x1_0000))
    ensures RegBytes(rs, 1, 1) == Be32Bytes(0x2000) + Be32Bytes(0x1000)
  {
    hide Be32Bytes;
    assert ws[1..] == [] && rs[1..] == [];
    assert Zeros(0) == [];
    assert RangesBytes(ws, 1, 2, 1) == WindowBytes(ws[0], 1, 2, 1) + [];
    assert RegBytes(rs, 1, 1) == RangeBytes(rs[0], 1, 1) + [];
  }

  // ----- The names -----

  lemma NamesAreAscii()
    ensures REG == Ascii("reg") && RANGES == Ascii("ranges")
    ensures ADDRESS_CELLS == Ascii("#address-cells") && SIZE_CELLS == Ascii("#size-cells")
    ensures FdtSearch.COMPATIBLE == Ascii("compatible")
  {
  }
}
